/**
 * The karma rule table: each `[result_awards]` entry of karma.ini is a pipe-separated
 * string that `load_karma_ini` turns into a seven-field record.
 */
module RuleTable {
  import opened Wrappers
  import opened Text
  import opened Patterns

  /**
   * A record of `plugin.result_awards`. A piece the rule string does not have is
   * `undefined` (None). `id` is not written by the loader: `getAwards` adds it later.
   */
  datatype Rule = Rule(
    piName: Option<string>,
    property: Option<string>,
    operator: Option<string>,
    value: Option<string>,
    award: Option<string>,
    reason: Option<string>,
    resolution: Option<string>,
    id: Option<string>)

  type Table = map<string, Rule>

  /** The first whitespace run of `s` starts at `i` and has `n` characters. */
  predicate FirstSpaceRun(s: string, i: nat, n: nat) {
    && n >= 1
    && i + n <= |s|
    && (forall k :: 0 <= k < i ==> !IsSpace(s[k]))
    && (forall k :: i <= k < i + n ==> IsSpace(s[k]))
    && (i + n == |s| || !IsSpace(s[i + n]))
  }

  predicate NotSpace(c: char) { !IsSpace(c) }

  /** `s.replace(/\s+/, ' ')`: only the first whitespace run becomes a single space. */
  function CollapseFirstSpace(s: string): (r: string)
    ensures (forall k :: 0 <= k < |s| ==> !IsSpace(s[k])) ==> r == s
    ensures forall i: nat, n: nat :: FirstSpaceRun(s, i, n) ==> r == s[..i] + " " + s[i + n..]
  {
    var i := Run(s, 0, NotSpace);
    if i == |s| then
      NoSpaceNoRun(s);
      s
    else
      var n := Run(s, i, IsSpace);
      FirstSpaceRunIsRuns(s);
      s[..i] + " " + s[i + n..]
  }

  /** Without whitespace there is no first whitespace run. */
  lemma NoSpaceNoRun(s: string)
    requires Run(s, 0, NotSpace) == |s|
    ensures forall i: nat, n: nat :: !FirstSpaceRun(s, i, n)
  {
    forall i: nat, n: nat ensures !FirstSpaceRun(s, i, n) {
      if i < |s| { assert NotSpace(s[i]); }
    }
  }

  /** The first whitespace run is where the non-space prefix ends, as long as the space run. */
  lemma FirstSpaceRunIsRuns(s: string)
    requires Run(s, 0, NotSpace) < |s|
    ensures FirstSpaceRun(s, Run(s, 0, NotSpace), Run(s, Run(s, 0, NotSpace), IsSpace))
    ensures forall i: nat, n: nat :: FirstSpaceRun(s, i, n) ==>
      i == Run(s, 0, NotSpace) && n == Run(s, i, IsSpace)
  {
    var i := Run(s, 0, NotSpace);
    assert IsSpace(s[i]);
    forall i': nat, n': nat | FirstSpaceRun(s, i', n')
      ensures i' == i && n' == Run(s, i', IsSpace)
    {
      RunIsMaximal(s, 0, NotSpace, i');
      RunIsMaximal(s, i', IsSpace, n');
    }
  }

  /**
   * The collapse leaves a rule string alone exactly when it has no whitespace or its first
   * whitespace run is one plain space.
   */
  lemma CollapseUnchanged(s: string)
    ensures CollapseFirstSpace(s) == s <==>
      (forall k :: 0 <= k < |s| ==> !IsSpace(s[k])) || (exists i: nat :: FirstSpaceRun(s, i, 1) && s[i] == ' ')
  {
    var i := Run(s, 0, NotSpace);
    if i < |s| {
      FirstSpaceRunIsRuns(s);
      var n := Run(s, i, IsSpace);
      CollapseAt(s, i, n);
      assert IsSpace(s[i]);
    } else {
      NoSpaceNoRun(s);
      assert forall k :: 0 <= k < |s| ==> NotSpace(s[k]);
    }
  }

  /** Collapsing a first whitespace run keeps the string exactly when the run is one space. */
  lemma CollapseAt(s: string, i: nat, n: nat)
    requires FirstSpaceRun(s, i, n)
    ensures CollapseFirstSpace(s) == s <==> n == 1 && s[i] == ' '
  {
    var r := CollapseFirstSpace(s);
    assert r == s[..i] + " " + s[i + n..];
    if r == s {
      assert |r| == |s| - n + 1;
      assert r[i] == ' ';
    }
    if n == 1 && s[i] == ' ' {
      assert s == s[..i] + [s[i]] + s[i + 1..];
    }
  }

  /** JavaScript's `split(/(?:\s*\|\s*)/)`: pieces between separators, taken leftmost first. */
  function SplitOnPipes(s: string): (parts: seq<string>)
    ensures |parts| >= 1
    decreases |s|
  {
    match Search(PipeSeparator, s, 0)
    case None => [s]
    case Some((q, e)) =>
      assert e > q;
      [s[..q]] + SplitOnPipes(s[e..])
  }

  /** The `i`-th piece, or `undefined` when there are not that many. */
  function Piece(parts: seq<string>, i: nat): Option<string> {
    if i < |parts| then Some(parts[i]) else None
  }

  /** The record built from the pieces, positionally. */
  function FromPieces(parts: seq<string>): Rule {
    Rule(Piece(parts, 0), Piece(parts, 1), Piece(parts, 2), Piece(parts, 3),
         Piece(parts, 4), Piece(parts, 5), Piece(parts, 6), None)
  }

  /** One rule string of `[result_awards]` as `load_karma_ini` stores it. */
  function ParseRule(text: string): (r: Rule)
    ensures r.id == None
    ensures r.award.Some? <==> |SplitOnPipes(CollapseFirstSpace(text))| >= 5
  {
    FromPieces(SplitOnPipes(CollapseFirstSpace(text)))
  }

  /**
   * The table after `load_karma_ini` has run on a parsed karma.ini: without a
   * `result_awards` section nothing changes; otherwise the table (created empty if it was
   * undefined) gets every key of the section overwritten with its freshly parsed record,
   * and every other key keeps its record: a merge, not a replacement.
   */
  function Reload(table: Option<Table>, section: Option<map<string, string>>): (r: Option<Table>)
    ensures section.None? ==> r == table
    ensures section.Some? ==> r.Some?
    ensures section.Some? ==> r.value.Keys == table.GetOr(map[]).Keys + section.value.Keys
    ensures section.Some? ==> forall k :: k in section.value ==> r.value[k] == ParseRule(section.value[k])
    ensures section.Some? ==>
      forall k :: k in table.GetOr(map[]) && k !in section.value ==> r.value[k] == table.GetOr(map[])[k]
  {
    match section
    case None => table
    case Some(sec) => Some(table.GetOr(map[]) + ParsedSection(sec))
  }

  lemma ReloadMerges(table: Option<Table>, sec: map<string, string>)
    ensures Reload(table, Some(sec)) == Some(table.GetOr(map[]) + ParsedSection(sec))
  {
  }

  /** Every value of the section, parsed. */
  function ParsedBy<V>(sec: map<string, string>, parse: string -> V): (parsed: map<string, V>)
    ensures parsed.Keys == sec.Keys
    ensures forall k :: k in sec ==> parsed[k] == parse(sec[k])
  {
    map k | k in sec :: parse(sec[k])
  }

  /** Every rule of the section, parsed. */
  function ParsedSection(sec: map<string, string>): Table {
    ParsedBy(sec, ParseRule)
  }

  // ---- Properties of the pipe split ----

  function CountChar(s: string, c: char): nat
    decreases |s|
  {
    if s == [] then 0 else (if s[0] == c then 1 else 0) + CountChar(s[1..], c)
  }

  lemma {:induction false} CountCharAppend(a: string, b: string, c: char)
    ensures CountChar(a + b, c) == CountChar(a, c) + CountChar(b, c)
    decreases |a|
  {
    if a == [] {
      assert a + b == b;
    } else {
      assert (a + b)[0] == a[0];
      assert (a + b)[1..] == a[1..] + b;
      CountCharAppend(a[1..], b, c);
    }
  }

  lemma {:induction false} CountCharAbsent(s: string, c: char)
    requires c !in s
    ensures CountChar(s, c) == 0
    decreases |s|
  {
    if s != [] { CountCharAbsent(s[1..], c); }
  }

  /** Before the leftmost separator there is no pipe at all. */
  lemma NoPipeBeforeSeparator(s: string)
    ensures Search(PipeSeparator, s, 0).None? ==> '|' !in s
    ensures Search(PipeSeparator, s, 0).Some? ==> '|' !in s[..Search(PipeSeparator, s, 0).value.0]
  {
    forall k | 0 <= k < |s| && s[k] == '|' ensures MatchAt(PipeSeparator, s, k).Some? {
      assert Run(s, k, IsSpace) == 0;
    }
  }

  /** A separator holds exactly one pipe: whitespace, `|`, whitespace. */
  lemma SeparatorHoldsOnePipe(s: string, q: nat)
    requires MatchAt(PipeSeparator, s, q).Some?
    ensures CountChar(s[q..MatchAt(PipeSeparator, s, q).value], '|') == 1
  {
    var e := MatchAt(PipeSeparator, s, q).value;
    var a := q + Run(s, q, IsSpace);
    assert s[q..e] == s[q..a] + [s[a]] + s[a + 1..e];
    CountCharAppend(s[q..a] + [s[a]], s[a + 1..e], '|');
    CountCharAppend(s[q..a], [s[a]], '|');
    assert '|' !in s[q..a] by {
      forall k | q <= k < a ensures s[k] != '|' { assert IsSpace(s[k]); }
    }
    assert '|' !in s[a + 1..e] by {
      forall k | a + 1 <= k < e ensures s[k] != '|' { assert IsSpace(s[k]); }
    }
    CountCharAbsent(s[q..a], '|');
    CountCharAbsent(s[a + 1..e], '|');
    assert CountChar([s[a]], '|') == 1;
  }

  /** No piece of a rule contains a pipe. */
  lemma {:induction false} PiecesLackPipe(s: string)
    ensures forall i :: 0 <= i < |SplitOnPipes(s)| ==> '|' !in SplitOnPipes(s)[i]
    decreases |s|
  {
    NoPipeBeforeSeparator(s);
    match Search(PipeSeparator, s, 0)
    case None =>
    case Some((q, e)) =>
      PiecesLackPipe(s[e..]);
  }

  /** A rule string with `k` pipes has `k + 1` pieces. */
  lemma {:induction false} PieceCount(s: string)
    ensures |SplitOnPipes(s)| == CountChar(s, '|') + 1
    decreases |s|
  {
    NoPipeBeforeSeparator(s);
    match Search(PipeSeparator, s, 0)
    case None =>
      CountCharAbsent(s, '|');
    case Some((q, e)) =>
      PieceCount(s[e..]);
      SeparatorHoldsOnePipe(s, q);
      CountAcrossSeparator(s, q, e);
  }

  lemma CountAcrossSeparator(s: string, q: nat, e: nat)
    requires q <= e <= |s| && '|' !in s[..q] && CountChar(s[q..e], '|') == 1
    ensures CountChar(s, '|') == CountChar(s[e..], '|') + 1
  {
    assert s == s[..q] + s[q..e] + s[e..];
    CountCharAppend(s[..q] + s[q..e], s[e..], '|');
    CountCharAppend(s[..q], s[q..e], '|');
    CountCharAbsent(s[..q], '|');
  }

  /**
   * Fields that survive a join and split: no pipes inside, no whitespace at an inner
   * edge (the separator would swallow it).
   */
  predicate CleanFields(fields: seq<string>) {
    && |fields| >= 1
    && (forall i :: 0 <= i < |fields| ==> '|' !in fields[i])
    && (forall i :: 0 <= i < |fields| - 1 && fields[i] != [] ==> !IsSpace(fields[i][|fields[i]| - 1]))
    && (forall i :: 1 <= i < |fields| && fields[i] != [] ==> !IsSpace(fields[i][0]))
  }

  /** Splitting the pipe-join of clean fields gives back the fields. */
  lemma {:induction false} SplitJoinPipes(fields: seq<string>)
    requires CleanFields(fields)
    ensures SplitOnPipes(JoinWith(fields, '|')) == fields
    decreases |fields|
  {
    var s := JoinWith(fields, '|');
    if |fields| == 1 {
      NoPipeBeforeSeparator(s);
    } else {
      var L := |fields[0]|;
      FirstSeparatorAfterFirstField(fields);
      assert s[..L] == fields[0] && s[L + 1..] == JoinWith(fields[1..], '|');
      CleanFieldsTail(fields);
      SplitJoinPipes(fields[1..]);
    }
  }

  /** In a pipe-join of clean fields the leftmost separator is the bare pipe after the first field. */
  lemma FirstSeparatorAfterFirstField(fields: seq<string>)
    requires CleanFields(fields) && |fields| >= 2
    ensures JoinWith(fields, '|') == fields[0] + ['|'] + JoinWith(fields[1..], '|')
    ensures Search(PipeSeparator, JoinWith(fields, '|'), 0) == Some((|fields[0]|, |fields[0]| + 1))
  {
    assert JoinWith(fields, '|') == fields[0] + ['|'] + JoinWith(fields[1..], '|');
    JoinHead(fields[1..]);
    SeparatorAfterField(fields[0], JoinWith(fields[1..], '|'));
  }

  /** A bare pipe between a clean field and a clean rest is the first separator. */
  lemma SeparatorAfterField(f: string, t: string)
    requires '|' !in f && (f != [] ==> !IsSpace(f[|f| - 1]))
    requires t == [] || !IsSpace(t[0])
    ensures Search(PipeSeparator, f + ['|'] + t, 0) == Some((|f|, |f| + 1))
  {
    var s := f + ['|'] + t;
    var L := |f|;
    assert s[L] == '|';
    assert Run(s, L, IsSpace) == 0;
    assert Run(s, L + 1, IsSpace) == 0 by {
      assert L + 1 == |s| || s[L + 1] == t[0];
    }
    assert MatchAt(PipeSeparator, s, L) == Some(L + 1);
    forall q | 0 <= q < L ensures MatchAt(PipeSeparator, s, q).None? {
      NoSeparatorInField(f, t, q);
    }
    SearchFinds(PipeSeparator, s, 0, L);
  }

  lemma NoSeparatorInField(f: string, t: string, q: nat)
    requires '|' !in f && (f != [] ==> !IsSpace(f[|f| - 1]))
    requires q < |f|
    ensures MatchAt(PipeSeparator, f + ['|'] + t, q).None?
  {
    var s := f + ['|'] + t;
    var L := |f|;
    assert s[L - 1] == f[L - 1];
    RunStopsBefore(s, q, L);
    var a := q + Run(s, q, IsSpace);
    assert s[a] == f[a];
  }

  lemma RunStopsBefore(s: string, q: nat, L: nat)
    requires q < L < |s| && !IsSpace(s[L - 1]) && !IsSpace(s[L])
    ensures q + Run(s, q, IsSpace) < L
  {
    assert q <= L - 1 && !IsSpace(s[L - 1]);
  }

  /** The first character of a pipe-join is that of its first field, or the pipe after it. */
  lemma JoinHead(fields: seq<string>)
    requires |fields| >= 1
    requires fields[0] != [] ==> !IsSpace(fields[0][0])
    ensures JoinWith(fields, '|') == [] || !IsSpace(JoinWith(fields, '|')[0])
  {
    if |fields| > 1 {
      assert JoinWith(fields, '|') == fields[0] + ['|'] + JoinWith(fields[1..], '|');
      if fields[0] == [] {
        assert JoinWith(fields, '|')[0] == '|';
      } else {
        assert JoinWith(fields, '|')[0] == fields[0][0];
      }
    }
  }

  /**
   * A rule string written as clean fields joined by `|`, whose first whitespace run (if
   * any) is a single space, loads as those fields in order; pieces past the last are
   * undefined.
   */
  lemma ParseJoinedFields(fields: seq<string>)
    requires CleanFields(fields)
    requires CollapseFirstSpace(JoinWith(fields, '|')) == JoinWith(fields, '|')
    ensures ParseRule(JoinWith(fields, '|')) == FromPieces(fields)
    ensures forall i: nat :: i < 7 ==> Piece(fields, i) == (if i < |fields| then Some(fields[i]) else None)
  {
    SplitJoinPipes(fields);
  }

  // ---- Whitespace next to a pipe ----

  /** The first piece of a split is a prefix of the string. */
  lemma FirstPieceIsPrefix(t: string)
    ensures |SplitOnPipes(t)[0]| <= |t| && SplitOnPipes(t)[0] == t[..|SplitOnPipes(t)[0]|]
  {
    match Search(PipeSeparator, t, 0)
    case None =>
      assert t[..|t|] == t;
    case Some((q, e)) =>
  }

  /** No part before the last ends in a `p`-character, and no part after the first starts with one. */
  predicate EdgesAvoid(parts: seq<string>, p: char -> bool) {
    && (forall i :: 0 <= i < |parts| - 1 && parts[i] != [] ==> !p(parts[i][|parts[i]| - 1]))
    && (forall i :: 1 <= i < |parts| && parts[i] != [] ==> !p(parts[i][0]))
  }

  lemma EdgesAvoidCons(x: string, rest: seq<string>, p: char -> bool)
    requires rest != [] && EdgesAvoid(rest, p)
    requires x != [] ==> !p(x[|x| - 1])
    requires rest[0] != [] ==> !p(rest[0][0])
    ensures EdgesAvoid([x] + rest, p)
  {
    var parts := [x] + rest;
    forall i | 1 <= i < |parts| ensures parts[i] == rest[i - 1] { }
  }

  /**
   * The `\s*` on both sides of the separator: whatever the rule string, no piece before
   * the last ends in whitespace and no piece after the first starts with it.
   */
  lemma {:induction false} PiecesTrimmed(s: string)
    ensures EdgesAvoid(SplitOnPipes(s), IsSpace)
    decreases |s|
  {
    match Search(PipeSeparator, s, 0)
    case None =>
    case Some((q, e)) =>
      var t := s[e..];
      PiecesTrimmed(t);
      FirstPieceIsPrefix(t);
      SeparatorEdges(s);
      assert SplitOnPipes(t)[0] != [] ==> SplitOnPipes(t)[0][0] == s[e];
      EdgesAvoidCons(s[..q], SplitOnPipes(t), IsSpace);
  }

  /** The leftmost separator has no whitespace just before it and none just after it. */
  lemma SeparatorEdges(s: string)
    requires Search(PipeSeparator, s, 0).Some?
    ensures var (q, e) := Search(PipeSeparator, s, 0).value;
      && (q > 0 ==> !IsSpace(s[q - 1]))
      && (e < |s| ==> !IsSpace(s[e]))
  {
    var (q, e) := Search(PipeSeparator, s, 0).value;
    if q > 0 {
      assert MatchAt(PipeSeparator, s, q - 1).None?;
    }
  }

  /** Every split yields clean fields: the ones that a pipe-join gives back unchanged. */
  lemma PiecesClean(s: string)
    ensures CleanFields(SplitOnPipes(s))
    ensures SplitOnPipes(JoinWith(SplitOnPipes(s), '|')) == SplitOnPipes(s)
  {
    PiecesLackPipe(s);
    PiecesTrimmed(s);
    SplitJoinPipes(SplitOnPipes(s));
  }

  /** Every character of `w` is whitespace. */
  predicate AllSpace(w: string) {
    forall k :: 0 <= k < |w| ==> IsSpace(w[k])
  }

  /** Whitespace to the left and right of each pipe between the fields. */
  predicate SpacePads(fields: seq<string>, pads: seq<(string, string)>) {
    && |fields| >= 1
    && |pads| == |fields| - 1
    && (forall i :: 0 <= i < |pads| ==> AllSpace(pads[i].0) && AllSpace(pads[i].1))
  }

  /** The fields joined by pipes with `pads[i]` around the `i`-th pipe, as in `a | b |c`. */
  function PaddedJoin(fields: seq<string>, pads: seq<(string, string)>): string
    requires SpacePads(fields, pads)
    decreases |fields|
  {
    if |fields| == 1 then fields[0]
    else fields[0] + pads[0].0 + ['|'] + pads[0].1 + PaddedJoin(fields[1..], pads[1..])
  }

  /** The pads once leading whitespace is skipped: an empty first field loses its left pad. */
  function SkipPads(fields: seq<string>, pads: seq<(string, string)>): (r: seq<(string, string)>)
    requires SpacePads(fields, pads)
    ensures SpacePads(fields, r)
  {
    if |fields| >= 2 && fields[0] == [] then [("", pads[0].1)] + pads[1..] else pads
  }

  lemma RunAfterSpace(w: string, t: string, p: char -> bool)
    requires forall k :: 0 <= k < |w| ==> p(w[k])
    requires t == [] || !p(t[0])
    ensures Run(w + t, 0, p) == |w|
  {
    var s := w + t;
    assert forall k :: 0 <= k < |w| ==> s[k] == w[k];
    assert |w| == |s| || s[|w|] == t[0];
    RunIsMaximal(s, 0, p, |w|);
  }

  /** A padded join of two or more fields, taken apart at its first pipe. */
  lemma PaddedJoinHead(fields: seq<string>, pads: seq<(string, string)>)
    requires SpacePads(fields, pads) && |fields| >= 2
    ensures PaddedJoin(fields, pads)
      == fields[0] + (pads[0].0 + (['|'] + (pads[0].1 + PaddedJoin(fields[1..], pads[1..]))))
  {
  }

  /** Whitespace before a padded join is swallowed up to the first field or the first pipe. */
  lemma SkipLeadingSpace(w: string, fields: seq<string>, pads: seq<(string, string)>)
    requires AllSpace(w) && SpacePads(fields, pads)
    requires fields[0] != [] ==> !IsSpace(fields[0][0])
    ensures var s := w + PaddedJoin(fields, pads);
      s[Run(s, 0, IsSpace)..] == PaddedJoin(fields, SkipPads(fields, pads))
  {
    if |fields| >= 2 && fields[0] == [] {
      SkipEmptyField(w, fields, pads);
    } else {
      var P := PaddedJoin(fields, pads);
      if fields[0] != [] && |fields| >= 2 {
        PaddedJoinHead(fields, pads);
      }
      assert P == [] || !IsSpace(P[0]);
      RunAfterSpace(w, P, IsSpace);
      assert (w + P)[|w|..] == P;
    }
  }

  lemma SkipEmptyField(w: string, fields: seq<string>, pads: seq<(string, string)>)
    requires AllSpace(w) && SpacePads(fields, pads) && |fields| >= 2 && fields[0] == []
    ensures var s := w + PaddedJoin(fields, pads);
      s[Run(s, 0, IsSpace)..] == PaddedJoin(fields, SkipPads(fields, pads))
  {
    var l0, r0 := pads[0].0, pads[0].1;
    var tail := ['|'] + (r0 + PaddedJoin(fields[1..], pads[1..]));
    var pads' := SkipPads(fields, pads);
    PaddedJoinHead(fields, pads);
    PaddedJoinHead(fields, pads');
    assert pads'[1..] == pads[1..];
    assert PaddedJoin(fields, pads) == l0 + tail;
    assert PaddedJoin(fields, pads') == tail;
    assert w + (l0 + tail) == w + l0 + tail;
    assert AllSpace(l0);
    RunAcross(w, l0, tail, IsSpace);
  }

  /** Two runs of `p`-characters before a string that starts with another character are one run. */
  lemma RunAcross(w: string, l: string, tail: string, p: char -> bool)
    requires forall k :: 0 <= k < |w| ==> p(w[k])
    requires forall k :: 0 <= k < |l| ==> p(l[k])
    requires tail != [] && !p(tail[0])
    ensures Run(w + l + tail, 0, p) == |w| + |l|
    ensures (w + l + tail)[|w| + |l|..] == tail
  {
    var wl := w + l;
    forall k | 0 <= k < |wl| ensures p(wl[k]) {
      if k < |w| { assert wl[k] == w[k]; } else { assert wl[k] == l[k - |w|]; }
    }
    RunAfterSpace(wl, tail, p);
    assert (wl + tail)[|wl|..] == tail;
  }

  /** With no pipe in `s[..L]` and no whitespace at `L - 1`, no separator starts before `L`. */
  lemma NoSeparatorBefore(s: string, L: nat, q: nat)
    requires q < L <= |s| && '|' !in s[..L] && !IsSpace(s[L - 1])
    ensures MatchAt(PipeSeparator, s, q).None?
  {
    var a := q + Run(s, q, IsSpace);
    assert a <= L - 1;
    assert s[a] == s[..L][a];
  }

  /** The first separator of a padded join is the first pipe with its pads. */
  lemma FirstPaddedSeparator(fields: seq<string>, pads: seq<(string, string)>)
    requires CleanFields(fields) && SpacePads(fields, pads) && |fields| >= 2
    ensures var s := PaddedJoin(fields, pads);
      var L := |fields[0]|;
      && Search(PipeSeparator, s, 0).Some?
      && Search(PipeSeparator, s, 0).value.0 == L
      && s[..L] == fields[0]
      && s[Search(PipeSeparator, s, 0).value.1..]
         == PaddedJoin(fields[1..], SkipPads(fields[1..], pads[1..]))
  {
    var s := PaddedJoin(fields, pads);
    var L := |fields[0]|;
    var e := PaddedSeparatorEnd(fields, pads);
    forall q | 0 <= q < L ensures MatchAt(PipeSeparator, s, q).None? {
      NoSeparatorBefore(s, L, q);
    }
    SearchFinds(PipeSeparator, s, 0, L);
  }

  /** The separator at the end of the first field, and what follows it. */
  lemma PaddedSeparatorEnd(fields: seq<string>, pads: seq<(string, string)>) returns (e: nat)
    requires CleanFields(fields) && SpacePads(fields, pads) && |fields| >= 2
    ensures var s := PaddedJoin(fields, pads);
      && |fields[0]| <= |s| && s[..|fields[0]|] == fields[0]
      && (fields[0] != [] ==> !IsSpace(s[|fields[0]| - 1]))
      && MatchAt(PipeSeparator, s, |fields[0]|) == Some(e)
      && s[e..] == PaddedJoin(fields[1..], SkipPads(fields[1..], pads[1..]))
  {
    var l0, r0 := pads[0].0, pads[0].1;
    var rest := PaddedJoin(fields[1..], pads[1..]);
    PaddedJoinHead(fields, pads);
    assert AllSpace(l0) && AllSpace(r0);
    PipeJoinParts(fields[0], l0, r0 + rest);
    e := SeparatorAcross(fields[0], l0, r0, rest);
    SkipLeadingSpace(r0, fields[1..], pads[1..]);
  }

  /** In `f + l + "|" + r + rest` with whitespace `l`, a separator starts right after `f`. */
  lemma SeparatorAcross(f: string, l: string, r: string, rest: string) returns (e: nat)
    requires AllSpace(l)
    ensures var s := f + (l + (['|'] + (r + rest)));
      && MatchAt(PipeSeparator, s, |f|) == Some(e)
      && s[e..] == (r + rest)[Run(r + rest, 0, IsSpace)..]
  {
    var t := r + rest;
    var s := f + (l + (['|'] + t));
    var L, a := |f|, |f| + |l|;
    PipeJoinParts(f, l, t);
    assert !IsSpace(s[a]);
    RunOverCopy(s, L, l, IsSpace);
    e := SeparatorAt(s, L, a);
    assert s[e..] == t[Run(t, 0, IsSpace)..];
  }

  /** Whitespace from `L` up to a pipe at `a` is a separator, ending after the whitespace that follows. */
  lemma SeparatorAt(s: string, L: nat, a: nat) returns (e: nat)
    requires L <= a < |s| && s[a] == '|' && Run(s, L, IsSpace) == a - L
    ensures MatchAt(PipeSeparator, s, L) == Some(e)
    ensures e == a + 1 + Run(s[a + 1..], 0, IsSpace)
  {
    RunShift(s, a + 1, IsSpace);
    e := a + 1 + Run(s, a + 1, IsSpace);
  }

  /** A copy of the `p`-string `l` at `L`, followed by a character outside `p`, is the run at `L`. */
  lemma RunOverCopy(s: string, L: nat, l: string, p: char -> bool)
    requires L + |l| < |s| && !p(s[L + |l|])
    requires forall k :: L <= k < L + |l| ==> s[k] == l[k - L]
    requires forall k :: 0 <= k < |l| ==> p(l[k])
    ensures Run(s, L, p) == |l|
  {
    forall k | L <= k < L + |l| ensures p(s[k]) {
      assert s[k] == l[k - L];
    }
    RunIsMaximal(s, L, p, |l|);
  }

  /** Where the parts of `f + l + "|" + t` sit. */
  lemma PipeJoinParts(f: string, l: string, t: string)
    ensures var s := f + (l + (['|'] + t));
      && |s| == |f| + |l| + 1 + |t|
      && s[..|f|] == f
      && (forall k :: |f| <= k < |f| + |l| ==> s[k] == l[k - |f|])
      && s[|f| + |l|] == '|'
      && s[|f| + |l| + 1..] == t
  {
    var s := f + (l + (['|'] + t));
    assert s[|f|..] == l + (['|'] + t);
    assert s[|f| + |l|..] == ['|'] + t;
  }

  /**
   * Clean fields joined by pipes with any whitespace around each pipe, as karma.ini writes
   * them (`geoip | distance | gt | 4000`), split back into the fields.
   */
  lemma {:induction false} SplitPaddedJoin(fields: seq<string>, pads: seq<(string, string)>)
    requires CleanFields(fields) && SpacePads(fields, pads)
    ensures SplitOnPipes(PaddedJoin(fields, pads)) == fields
    decreases |fields|
  {
    var s := PaddedJoin(fields, pads);
    if |fields| == 1 {
      NoPipeBeforeSeparator(s);
    } else {
      FirstPaddedSeparator(fields, pads);
      CleanFieldsTail(fields);
      SplitPaddedJoin(fields[1..], SkipPads(fields[1..], pads[1..]));
    }
  }

  lemma CleanFieldsTail(fields: seq<string>)
    requires CleanFields(fields) && |fields| >= 2
    ensures CleanFields(fields[1..])
    ensures fields[1] != [] ==> !IsSpace(fields[1][0])
  {
    var t := fields[1..];
    forall i | 0 <= i < |t| ensures t[i] == fields[i + 1] { }
  }

  /**
   * A padded rule string whose first whitespace run (if any) is a single space loads as
   * its fields in order.
   */
  lemma ParsePaddedFields(fields: seq<string>, pads: seq<(string, string)>)
    requires CleanFields(fields) && SpacePads(fields, pads)
    requires CollapseFirstSpace(PaddedJoin(fields, pads)) == PaddedJoin(fields, pads)
    ensures ParseRule(PaddedJoin(fields, pads)) == FromPieces(fields)
  {
    SplitPaddedJoin(fields, pads);
  }
}
