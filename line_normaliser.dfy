/**
 * `asHtml`'s per-line work on grep's output: the first date stamp is remembered, the
 * bracketed transaction id is shortened to its `[N]` transaction number or removed, the
 * leading `Mmm dd ` date and the ` [host] haraka[pid]: ` tag are stripped, `<br>` is
 * appended, and the last line holding `[karma` and `awards` is kept as the decision line,
 * whose award codes are then extracted.
 */
module LineNormaliser {
  import opened Wrappers
  import opened Text
  import opened Patterns
  import opened TransactionId

  const BREAK := "<br>"
  const KARMA_MARKER := "[karma"
  const AWARDS_MARKER := "awards"
  const AWARDS_LIST := "awards: "

  // ---- The date stamp: /^([A-Z][a-z]{2}[ ]{1,2}[0-9]{1,2}) / ----

  /** The line starts with `Mmm`, `sp` spaces, `d` digits and a space (1 <= sp, d <= 2). */
  predicate MonthDayShape(s: string, sp: nat, d: nat) {
    && 1 <= sp <= 2 && 1 <= d <= 2
    && 3 + sp + d < |s|
    && IsUpper(s[0]) && IsLower(s[1]) && IsLower(s[2])
    && (forall k :: 3 <= k < 3 + sp ==> s[k] == ' ')
    && (forall k :: 3 + sp <= k < 3 + sp + d ==> IsDigit(s[k]))
    && s[3 + sp + d] == ' '
  }

  /**
   * The length of the captured date stamp (the match minus its final space), trying the
   * greedy repetitions first as the regular expression does. At most one shape can match.
   */
  function MonthDayLength(s: string): (r: Option<nat>)
    ensures r.Some? <==> exists sp: nat, d: nat :: MonthDayShape(s, sp, d)
    ensures forall sp: nat, d: nat :: MonthDayShape(s, sp, d) ==> r == Some(3 + sp + d)
  {
    if MonthDayShape(s, 2, 2) then Some(7)
    else if MonthDayShape(s, 2, 1) then Some(6)
    else if MonthDayShape(s, 1, 2) then Some(6)
    else if MonthDayShape(s, 1, 1) then Some(5)
    else None
  }

  /** `.replace(matchMonthDay, '')`: the date stamp and the space after it go. */
  function StripMonthDay(s: string): (r: string)
    ensures MonthDayLength(s).None? ==> r == s
    ensures MonthDayLength(s).Some? ==> s == s[..MonthDayLength(s).value] + " " + r
  {
    match MonthDayLength(s)
    case None => s
    case Some(len) =>
      assert s == s[..len] + " " + s[len + 1..];
      s[len + 1..]
  }

  // ---- The bracketed transaction id ----

  /** The id characters of a ` [id] ` token matched from `q` to `e`. */
  function SpacedTokenId(line: string, q: nat, e: nat): (id: string)
    requires MatchAt(SpacedIdToken, line, q) == Some(e)
    ensures IdTokenShape(line, q + 1, |id|) && e == q + |id| + 4
  {
    var n := IdTokenAt(line, q + 1).value;
    assert e - 2 == q + 2 + n;
    line[q + 2..e - 2]
  }

  /** `[N] ` for an id ending in `.N`, and empty otherwise. */
  function TagOfId(id: string): (tag: string)
    ensures tag == "" || exists n: string :: 1 <= |n| <= 2 && (forall k :: 0 <= k < |n| ==> IsDigit(n[k])) && tag == "[" + n + "] "
  {
    if TxnSuffixLength(id) > 0 then
      var n := TxnNumber(id);
      assert 1 <= |n| <= 2 && (forall k :: 0 <= k < |n| ==> IsDigit(n[k]));
      "[" + n + "] "
    else ""
  }

  /**
   * `replaceString`: the tag of the first space-preceded bracketed id, and empty when
   * there is none.
   */
  function TagFor(line: string): (tag: string)
    ensures (forall q :: 0 <= q <= |line| ==> MatchAt(SpacedIdToken, line, q).None?) ==> tag == ""
    ensures forall q: nat, e: nat ::
      q <= |line| && MatchAt(SpacedIdToken, line, q) == Some(e)
      && (forall p :: 0 <= p < q ==> MatchAt(SpacedIdToken, line, p).None?) ==>
        var id := SpacedTokenId(line, q, e);
        && (TxnSuffixLength(id) == 0 ==> tag == "")
        && (TxnSuffixLength(id) > 0 ==> tag == "[" + TxnNumber(id) + "] ")
  {
    match Search(SpacedIdToken, line, 0)
    case None => ""
    case Some((q, e)) => TagOfId(SpacedTokenId(line, q, e))
  }

  /** `line.replace(/\[[A-F0-9\-.]{12,40}\] /, replaceString)`. */
  function RewriteIdToken(line: string): string {
    Replace(IdToken, line, TagFor(line))
  }

  // ---- The syslog host and tag ----

  const NO_PID_MARKER := Literal(" haraka: [")

  /** The ` [host] haraka[pid]: ` or ` [host] haraka: ` prefix becomes one space. */
  function StripHost(s: string): string {
    if Test(PidMarker, s) then Replace(PidPrefix, s, " ")
    else if Test(NO_PID_MARKER, s) then Replace(NoPidPrefix, s, " ")
    else s
  }

  /** The rewritten line, `trimmed` in `asHtml`, before its `<br>`. */
  function NormaliseLine(line: string): string {
    StripHost(StripMonthDay(RewriteIdToken(line)))
  }

  /** What one line of grep's output adds to the raw log: nothing for an empty line. */
  function LineHtml(line: string): string {
    if line == "" then "" else NormaliseLine(line) + BREAK
  }

  /** `/\[karma/.test(line) && /awards/.test(line)`. */
  predicate IsDecisionLine(line: string) {
    Test(Literal(KARMA_MARKER), line) && Test(Literal(AWARDS_MARKER), line)
  }

  // ---- What the loop over the lines computes, as functions of the lines seen so far ----

  function RawLogsOf(lines: seq<string>): string {
    ConcatMap(lines, LineHtml)
  }

  /** The strings `f(lines[0]) + f(lines[1]) + ...`, built from the left as a loop would. */
  function ConcatMap(lines: seq<string>, f: string -> string): string
    decreases |lines|
  {
    if lines == [] then "" else ConcatMap(lines[..|lines| - 1], f) + f(lines[|lines| - 1])
  }

  lemma {:induction false} ConcatMapAppend(a: seq<string>, b: seq<string>, f: string -> string)
    ensures ConcatMap(a + b, f) == ConcatMap(a, f) + ConcatMap(b, f)
    decreases |b|
  {
    if b == [] {
      assert a + b == a;
    } else {
      var b' := b[..|b| - 1];
      ConcatMapAppend(a, b', f);
      assert (a + b)[..|a + b| - 1] == a + b';
    }
  }

  function MonthDayOf(lines: seq<string>): string
    decreases |lines|
  {
    if lines == [] then ""
    else
      var before := MonthDayOf(lines[..|lines| - 1]);
      var line := lines[|lines| - 1];
      if before != "" || line == "" then before
      else
        match MonthDayLength(line)
        case Some(len) => line[..len]
        case None => ""
  }

  /** A line the loop keeps as `lastKarmaLine`: a non-empty decision line. */
  predicate KeptAsDecision(line: string) {
    line != "" && IsDecisionLine(line)
  }

  /** The last line satisfying `keep`, scanning from the left as a loop would. */
  function LastWhere(lines: seq<string>, keep: string -> bool): Option<string>
    decreases |lines|
  {
    if lines == [] then None
    else if keep(lines[|lines| - 1]) then Some(lines[|lines| - 1])
    else LastWhere(lines[..|lines| - 1], keep)
  }

  lemma {:induction false} LastWhereIsLast(lines: seq<string>, keep: string -> bool)
    ensures LastWhere(lines, keep).None? <==> forall i :: 0 <= i < |lines| ==> !keep(lines[i])
    ensures forall i ::
              0 <= i < |lines| && keep(lines[i])
              && (forall j :: i < j < |lines| ==> !keep(lines[j]))
              ==> LastWhere(lines, keep) == Some(lines[i])
    decreases |lines|
  {
    if lines != [] {
      var n := |lines|;
      var before := lines[..n - 1];
      LastWhereIsLast(before, keep);
      assert forall i :: 0 <= i < n - 1 ==> before[i] == lines[i];
    }
  }

  function LastKarmaOf(lines: seq<string>): Option<string> {
    LastWhere(lines, KeptAsDecision)
  }

  /**
   * The loop of `asHtml` over `matched.split('\n')`. An empty line is skipped; while no
   * date stamp has been found, each line is tried (a line without one is only logged).
   */
  method NormaliseLines(matched: string) returns (rawLogs: string, monthDay: string, lastKarmaLine: Option<string>)
    ensures rawLogs == ConcatMap(SplitOn(matched, '\n'), LineHtml)
    ensures monthDay == MonthDayOf(SplitOn(matched, '\n'))
    ensures lastKarmaLine == LastKarmaOf(SplitOn(matched, '\n'))
  {
    rawLogs, monthDay, lastKarmaLine := "", "", None;
    var lines := SplitOn(matched, '\n');
    var i := 0;
    while i < |lines|
      invariant 0 <= i <= |lines|
      invariant rawLogs == ConcatMap(lines[..i], LineHtml)
      invariant monthDay == MonthDayOf(lines[..i])
      invariant lastKarmaLine == LastKarmaOf(lines[..i])
    {
      PrefixStep(lines, i);
      monthDay := NoteMonthDay(monthDay, lines[i]);
      rawLogs := AppendLine(rawLogs, lines[i]);
      lastKarmaLine := NoteDecision(lastKarmaLine, lines[i]);
      i := i + 1;
    }
    assert lines[..i] == lines;
  }

  /** The rewriting of one non-empty line into `trimmed`. */
  method TrimLine(line: string) returns (trimmed: string)
    ensures trimmed == NormaliseLine(line)
  {
    var replaceString := TagFor(line);
    trimmed := StripMonthDay(Replace(IdToken, line, replaceString));
    if Test(PidMarker, trimmed) {
      trimmed := Replace(PidPrefix, trimmed, " ");
    } else if Test(NO_PID_MARKER, trimmed) {
      trimmed := Replace(NoPidPrefix, trimmed, " ");
    }
  }

  /** The raw log after one more line. */
  method AppendLine(rawLogs: string, line: string) returns (rawLogs': string)
    ensures rawLogs' == rawLogs + LineHtml(line)
  {
    rawLogs' := rawLogs;
    if line != "" {
      var trimmed := TrimLine(line);
      rawLogs' := rawLogs + trimmed + BREAK;
    }
  }

  /** `monthDay` after one more line: set by the first line with a date stamp. */
  method NoteMonthDay(monthDay: string, line: string) returns (monthDay': string)
    ensures monthDay' ==
      if monthDay != "" || line == "" then monthDay
      else if MonthDayLength(line).Some? then line[..MonthDayLength(line).value] else ""
  {
    monthDay' := monthDay;
    if line != "" && monthDay == "" {
      match MonthDayLength(line) {
        case Some(len) => monthDay' := line[..len];
        case None =>
      }
    }
  }

  /** `lastKarmaLine` after one more line: replaced by each decision line. */
  method NoteDecision(lastKarmaLine: Option<string>, line: string) returns (lastKarmaLine': Option<string>)
    ensures lastKarmaLine' == if KeptAsDecision(line) then Some(line) else lastKarmaLine
  {
    lastKarmaLine' := lastKarmaLine;
    if line != "" && Test(Literal(KARMA_MARKER), line) && Test(Literal(AWARDS_MARKER), line) {
      lastKarmaLine' := Some(line);
    }
  }

  /** One more line: how the three results of the loop grow. */
  lemma PrefixStep(lines: seq<string>, i: nat)
    requires i < |lines|
    ensures ConcatMap(lines[..i + 1], LineHtml) == ConcatMap(lines[..i], LineHtml) + LineHtml(lines[i])
    ensures MonthDayOf(lines[..i + 1]) ==
      var before := MonthDayOf(lines[..i]);
      if before != "" || lines[i] == "" then before
      else if MonthDayLength(lines[i]).Some? then lines[i][..MonthDayLength(lines[i]).value] else ""
    ensures LastKarmaOf(lines[..i + 1]) ==
      if KeptAsDecision(lines[i]) then Some(lines[i]) else LastKarmaOf(lines[..i])
  {
    assert lines[..i + 1][..i] == lines[..i];
  }

  // ---- Award codes of the decision line ----

  /**
   * `lastKarmaLine.match(/awards: ([0-9,]+)?\s*\/)` split on commas: the comma-separated
   * text right after the first `awards: `, or nothing when there is no decision line, no
   * `awards: ` in it, or no digit or comma after it.
   */
  function AwardCodes(lastKarmaLine: Option<string>): (codes: seq<string>)
    ensures lastKarmaLine.None? ==> codes == []
    ensures forall i, k :: 0 <= i < |codes| && 0 <= k < |codes[i]| ==> IsDigit(codes[i][k])
    ensures codes != [] ==>
      && lastKarmaLine.Some?
      && Search(Literal(AWARDS_LIST), lastKarmaLine.value, 0).Some?
      && var e := Search(Literal(AWARDS_LIST), lastKarmaLine.value, 0).value.1;
         var n := Run(lastKarmaLine.value, e, IsCodeChar);
         n > 0 && JoinWith(codes, ',') == lastKarmaLine.value[e..e + n]
    ensures lastKarmaLine.Some? && Search(Literal(AWARDS_LIST), lastKarmaLine.value, 0).Some?
            && Run(lastKarmaLine.value, Search(Literal(AWARDS_LIST), lastKarmaLine.value, 0).value.1, IsCodeChar) > 0
            ==> codes != []
  {
    match lastKarmaLine
    case None => []
    case Some(line) =>
      match Search(Literal(AWARDS_LIST), line, 0)
      case None => []
      case Some((_, e)) =>
        var n := Run(line, e, IsCodeChar);
        if n == 0 then []
        else
          var list := line[e..e + n];
          var codes := SplitOn(list, ',');
          SplitOnPiecesLackSeparator(list, ',');
          JoinSplitOn(list, ',');
          assert forall i, k :: 0 <= i < |codes| && 0 <= k < |codes[i]| ==> IsDigit(codes[i][k]) by {
            forall i, k | 0 <= i < |codes| && 0 <= k < |codes[i]| ensures IsDigit(codes[i][k]) {
              PieceCharsFromList(list, i, k);
            }
          }
          codes
  }

  /** Every character of a comma-split piece of a `[0-9,]` run is a digit. */
  lemma PieceCharsFromList(list: string, i: nat, k: nat)
    requires forall j :: 0 <= j < |list| ==> IsCodeChar(list[j])
    requires i < |SplitOn(list, ',')| && k < |SplitOn(list, ',')[i]|
    ensures IsDigit(SplitOn(list, ',')[i][k])
  {
    SplitOnPiecesLackSeparator(list, ',');
    PieceCharsIn(list, ',', i, k);
  }

  /** Every character of a piece of a split occurs in the split string. */
  lemma {:induction false} PieceCharsIn(s: string, sep: char, i: nat, k: nat)
    requires i < |SplitOn(s, sep)| && k < |SplitOn(s, sep)[i]|
    ensures SplitOn(s, sep)[i][k] in s
    decreases |s|
  {
    if s != [] {
      var rest := SplitOn(s[1..], sep);
      if s[0] == sep {
        assert SplitOn(s, sep)[i] == rest[i - 1];
        PieceCharsIn(s[1..], sep, i - 1, k);
      } else if i == 0 {
        if k > 0 {
          PieceCharsIn(s[1..], sep, 0, k - 1);
        }
      } else {
        assert SplitOn(s, sep)[i] == rest[i];
        PieceCharsIn(s[1..], sep, i, k);
      }
    }
  }
}

module LineNormaliserProperties {
  import opened Wrappers
  import opened Text
  import opened Patterns
  import opened TransactionId
  import opened LineNormaliser

  /** `monthDay` stays empty exactly when no line starts with a date stamp. */
  lemma {:induction false} MonthDayEmptyIffNoStamp(lines: seq<string>)
    ensures MonthDayOf(lines) == "" <==> forall i :: 0 <= i < |lines| ==> MonthDayLength(lines[i]).None?
    decreases |lines|
  {
    if lines != [] {
      var n := |lines|;
      var before := lines[..n - 1];
      MonthDayEmptyIffNoStamp(before);
      assert forall i :: 0 <= i < n - 1 ==> before[i] == lines[i];
      if MonthDayLength(lines[n - 1]).Some? {
        assert lines[n - 1] != "";
      }
    }
  }

  /**
   * `monthDay` is the stamp of the first line that starts with one; a line without a
   * stamp does not end the search.
   */
  lemma {:induction false} MonthDayIsFirstStamp(lines: seq<string>)
    ensures forall i ::
              0 <= i < |lines| && MonthDayLength(lines[i]).Some?
              && (forall j :: 0 <= j < i ==> MonthDayLength(lines[j]).None?)
              ==> MonthDayOf(lines) == lines[i][..MonthDayLength(lines[i]).value]
    decreases |lines|
  {
    if lines != [] {
      var n := |lines|;
      var before := lines[..n - 1];
      MonthDayIsFirstStamp(before);
      MonthDayEmptyIffNoStamp(before);
      assert forall i :: 0 <= i < n - 1 ==> before[i] == lines[i];
      if MonthDayLength(lines[n - 1]).Some? {
        assert lines[n - 1] != "";
      }
    }
  }

  /** Matching a non-empty literal needs at least that many characters. */
  lemma LiteralNeedsRoom(t: string, s: string)
    requires t != [] && Test(Literal(t), s)
    ensures |s| >= |t|
  {
    var p := Search(Literal(t), s, 0).value.0;
    assert StartsAt(s, p, t);
  }

  lemma DecisionLineNotEmpty(line: string)
    ensures IsDecisionLine(line) ==> line != ""
  {
    if IsDecisionLine(line) {
      LiteralNeedsRoom(KARMA_MARKER, line);
    }
  }

  /**
   * `lastKarmaLine` is the last line holding both `[karma` and `awards`, and is undefined
   * exactly when no line does.
   */
  lemma LastKarmaIsLastDecision(lines: seq<string>)
    ensures LastKarmaOf(lines).None? <==> forall i :: 0 <= i < |lines| ==> !IsDecisionLine(lines[i])
    ensures forall i ::
              0 <= i < |lines| && IsDecisionLine(lines[i])
              && (forall j :: i < j < |lines| ==> !IsDecisionLine(lines[j]))
              ==> LastKarmaOf(lines) == Some(lines[i])
  {
    LastWhereIsLast(lines, KeptAsDecision);
    forall i | 0 <= i < |lines| ensures KeptAsDecision(lines[i]) == IsDecisionLine(lines[i]) {
      DecisionLineNotEmpty(lines[i]);
    }
  }

  /** The raw log is built line by line in input order: it distributes over concatenation. */
  lemma RawLogsAppend(a: seq<string>, b: seq<string>)
    ensures RawLogsOf(a + b) == RawLogsOf(a) + RawLogsOf(b)
  {
    ConcatMapAppend(a, b, LineHtml);
    assert RawLogsOf(a + b) == ConcatMap(a + b, LineHtml);
  }

  /** The raw log of one line: nothing for an empty line, else the rewritten line and `<br>`. */
  lemma RawLogsSingle(line: string)
    ensures RawLogsOf([line]) == if line == "" then "" else NormaliseLine(line) + "<br>"
  {
    assert [line][..0] == [];
    assert ConcatMap([line], LineHtml) == ConcatMap([], LineHtml) + LineHtml(line);
  }

  /** A line without id token, date stamp or syslog tag is shown as it is. */
  lemma UntouchedLine(line: string)
    requires !Test(IdToken, line)
    requires MonthDayLength(line).None?
    requires !Test(PidMarker, line) && !Test(Literal(" haraka: ["), line)
    ensures NormaliseLine(line) == line
  {
  }

  /**
   * When the first bracketed id is preceded by a space, the `[N] ` tag is taken from that
   * same id: it is shortened to `[N] ` when it ends in `.N`, and removed otherwise.
   */
  lemma RewriteSpacedToken(line: string)
    requires Search(IdToken, line, 0).Some?
    requires var p := Search(IdToken, line, 0).value.0; p > 0 && line[p - 1] == ' '
    ensures var p := Search(IdToken, line, 0).value.0;
      var e := Search(IdToken, line, 0).value.1;
      var id := line[p + 1..e - 2];
      && IdTokenShape(line, p, |id|)
      && RewriteIdToken(line) == line[..p] + (if TxnSuffixLength(id) > 0 then "[" + TxnNumber(id) + "] " else "") + line[e..]
  {
    SpacedSearchFindsFirstId(line);
    var p := Search(IdToken, line, 0).value.0;
    var e := Search(IdToken, line, 0).value.1;
    assert TagFor(line) == TagOfId(SpacedTokenId(line, p - 1, e));
  }

  /**
   * The award codes are exactly the comma pieces of the digit/comma run after the first
   * `awards: ` of the decision line, and there are none when that run is empty.
   */
  lemma AwardCodesArePieces(line: string)
    requires Search(Literal(AWARDS_LIST), line, 0).Some?
    ensures var e := Search(Literal(AWARDS_LIST), line, 0).value.1;
      var n := Run(line, e, IsCodeChar);
      AwardCodes(Some(line)) == if n == 0 then [] else SplitOn(line[e..e + n], ',')
  {
    var e := Search(Literal(AWARDS_LIST), line, 0).value.1;
    var n := Run(line, e, IsCodeChar);
    var codes := AwardCodes(Some(line));
    if n > 0 {
      SplitJoinOn(codes, ',');
    }
  }
}
