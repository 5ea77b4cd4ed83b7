/**
 * The fixed regular expressions of the plugin, written out as scanners over strings.
 * Each non-anchored pattern is matched at one position by `MatchAt`, and `Search` finds
 * the leftmost position where it matches, as JavaScript's `RegExp.prototype.exec`,
 * `test` and `String.prototype.replace` (without the `g` flag) do.
 */
module Patterns {
  import opened Wrappers
  import opened Text

  datatype Pattern =
    | IdToken        // /\[[A-F0-9\-.]{12,40}\] /
    | SpacedIdToken  // / \[([A-F0-9\-.]{12,40})\] /
    | PidMarker      // / haraka\[[0-9]+\]: /
    | PidPrefix      // /(?: [a-z.-]+)? haraka\[[0-9]+\]: /
    | NoPidPrefix    // /(?: [a-z.-]+)? haraka: /
    | PipeSeparator  // /(?:\s*\|\s*)/
    | Literal(text: string)

  const HARAKA_PID_OPEN := " haraka["
  const HARAKA_PID_CLOSE := "]: "
  const HARAKA_NO_PID := " haraka: "

  /** `[` followed by 12 to 40 id characters, `]` and a space, with `n` id characters. */
  predicate IdTokenShape(s: string, p: nat, n: nat) {
    && p + n + 3 <= |s|
    && s[p] == '['
    && 12 <= n <= 40
    && (forall k :: p + 1 <= k < p + 1 + n ==> IsIdChar(s[k]))
    && s[p + 1 + n] == ']'
    && s[p + 2 + n] == ' '
  }

  /** The number of id characters of the bracketed id token at `p`, if there is one. */
  function IdTokenAt(s: string, p: nat): (r: Option<nat>)
    ensures r.Some? ==> IdTokenShape(s, p, r.value)
    ensures r.None? ==> forall n :: !IdTokenShape(s, p, n)
  {
    if p < |s| && s[p] == '[' then
      var n := Run(s, p + 1, IsIdChar);
      if 12 <= n <= 40 && p + n + 3 <= |s| && s[p + 1 + n] == ']' && s[p + 2 + n] == ' '
      then Some(n) else None
    else None
  }

  /** ` haraka[`, `d` >= 1 digits, then `]: `, at position `i`. */
  predicate PidShape(s: string, i: nat, d: nat) {
    && StartsAt(s, i, HARAKA_PID_OPEN)
    && d >= 1
    && i + 8 + d + 3 <= |s|
    && (forall k :: i + 8 <= k < i + 8 + d ==> IsDigit(s[k]))
    && StartsAt(s, i + 8 + d, HARAKA_PID_CLOSE)
  }

  /** The number of pid digits of ` haraka[NNN]: ` at `i`, if it is there. */
  function PidAt(s: string, i: nat): (r: Option<nat>)
    ensures r.Some? ==> i + 11 + r.value <= |s|
    ensures r.Some? ==> PidShape(s, i, r.value)
  {
    if StartsAt(s, i, HARAKA_PID_OPEN) then
      var d := Run(s, i + 8, IsDigit);
      if d >= 1 && StartsAt(s, i + 8 + d, HARAKA_PID_CLOSE) then Some(d) else None
    else None
  }

  /** The digits of a pid tag are the whole run of digits after ` haraka[`. */
  lemma PidShapeIsRun(s: string, i: nat)
    ensures forall d :: PidShape(s, i, d) ==> d == Run(s, i + 8, IsDigit)
  {
    forall d | PidShape(s, i, d) ensures d == Run(s, i + 8, IsDigit) {
      assert s[i + 8 + d] == HARAKA_PID_CLOSE[0];
      RunIsMaximal(s, i + 8, IsDigit, d);
    }
  }

  /** When `PidAt` finds no tag, there is none. */
  lemma PidAtComplete(s: string, i: nat)
    ensures PidAt(s, i).None? ==> forall d :: !PidShape(s, i, d)
  {
    PidShapeIsRun(s, i);
  }

  /** A space and a host name of `m` >= 1 characters of `[a-z.-]` at `p`. */
  predicate HostShape(s: string, p: nat, m: nat) {
    && p + 1 + m <= |s|
    && s[p] == ' '
    && m >= 1
    && (forall k :: p + 1 <= k < p + 1 + m ==> IsHostChar(s[k]))
  }

  /** The syslog tag after the host: ` haraka[NNN]: ` when `withPid`, else ` haraka: `. */
  predicate TagAt(s: string, i: nat, withPid: bool) {
    if withPid then PidAt(s, i).Some? else StartsAt(s, i, HARAKA_NO_PID)
  }

  /** A literal cannot start where its first character is missing. */
  lemma NoLiteralAt(s: string, i: nat, lit: string)
    requires lit != [] && i < |s| && s[i] != lit[0]
    ensures !StartsAt(s, i, lit)
  {
    if i + |lit| <= |s| {
      assert s[i..i + |lit|][0] == s[i];
    }
  }

  /** Both syslog tags begin with a space. */
  lemma NoTagAtNonSpace(s: string, i: nat, withPid: bool)
    requires i < |s| && s[i] != ' '
    ensures !TagAt(s, i, withPid)
  {
    NoLiteralAt(s, i, HARAKA_PID_OPEN);
    NoLiteralAt(s, i, HARAKA_NO_PID);
  }

  /** Only the longest host name can be followed by a tag. */
  lemma HostRunOnlyCandidate(s: string, p: nat, withPid: bool)
    requires p < |s|
    ensures forall m: nat :: HostShape(s, p, m) && TagAt(s, p + 1 + m, withPid) ==> m == Run(s, p + 1, IsHostChar)
  {
    var n := Run(s, p + 1, IsHostChar);
    forall m: nat | HostShape(s, p, m) && m < n ensures !TagAt(s, p + 1 + m, withPid) {
      assert IsHostChar(s[p + 1 + m]);
      NoTagAtNonSpace(s, p + 1 + m, withPid);
    }
  }

  /**
   * The length of ` hostname` at `p` when the syslog tag follows it, if any. The host
   * name is matched greedily; giving characters back cannot help, as the tag begins
   * with a space and a host name has none.
   */
  function HostAt(s: string, p: nat, withPid: bool): (r: Option<nat>)
    ensures r.Some? && withPid ==> PidAt(s, p + 1 + r.value).Some?
    ensures r.Some? ==> HostShape(s, p, r.value) && TagAt(s, p + 1 + r.value, withPid)
  {
    if p < |s| && s[p] == ' ' then
      var m := Run(s, p + 1, IsHostChar);
      if m >= 1 && TagAt(s, p + 1 + m, withPid) then Some(m) else None
    else None
  }

  /** When `HostAt` finds no host followed by the tag, there is none. */
  lemma HostAtComplete(s: string, p: nat, withPid: bool)
    ensures HostAt(s, p, withPid).None? ==> forall m :: HostShape(s, p, m) ==> !TagAt(s, p + 1 + m, withPid)
  {
    if p < |s| {
      HostRunOnlyCandidate(s, p, withPid);
    }
  }

  /** `(?: [a-z.-]+)? haraka\[[0-9]+\]: ` at `p`: the optional host is tried first. */
  function PidPrefixAt(s: string, p: nat): (e: Option<nat>)
    ensures e.Some? ==> p <= e.value <= |s|
  {
    match HostAt(s, p, true)
    case Some(m) => Some(p + 1 + m + 11 + PidAt(s, p + 1 + m).value)
    case None =>
      match PidAt(s, p)
      case Some(d) => Some(p + 11 + d)
      case None => None
  }

  /** `(?: [a-z.-]+)? haraka: ` at `p`: the optional host is tried first. */
  function NoPidPrefixAt(s: string, p: nat): (e: Option<nat>)
    ensures e.Some? ==> p <= e.value <= |s|
  {
    match HostAt(s, p, false)
    case Some(m) => Some(p + 1 + m + 9)
    case None => if StartsAt(s, p, HARAKA_NO_PID) then Some(p + 9) else None
  }

  /** Where one match of `pat` starting at `p` ends, if `pat` matches there. */
  function MatchAt(pat: Pattern, s: string, p: nat): (e: Option<nat>)
    ensures e.Some? ==> p <= e.value <= |s|
  {
    match pat
    case IdToken =>
      (match IdTokenAt(s, p)
       case Some(n) => Some(p + n + 3)
       case None => None)
    case SpacedIdToken =>
      (if p < |s| && s[p] == ' ' then
         match IdTokenAt(s, p + 1)
         case Some(n) => Some(p + n + 4)
         case None => None
       else None)
    case PidMarker =>
      (match PidAt(s, p)
       case Some(d) => Some(p + 11 + d)
       case None => None)
    case PidPrefix => PidPrefixAt(s, p)
    case NoPidPrefix => NoPidPrefixAt(s, p)
    case PipeSeparator =>
      (if p > |s| then None
       else
         var a := p + Run(s, p, IsSpace);
         if a < |s| && s[a] == '|' then Some(a + 1 + Run(s, a + 1, IsSpace)) else None)
    case Literal(t) =>
      if StartsAt(s, p, t) then Some(p + |t|) else None
  }

  /** The first position in `from..limit` where the matcher `m` succeeds, with its end. */
  function FirstMatch(m: nat -> Option<nat>, limit: nat, from: nat): (r: Option<(nat, nat)>)
    ensures r.Some? ==> from <= r.value.0 <= limit && m(r.value.0) == Some(r.value.1)
    ensures r.Some? ==> forall q :: from <= q < r.value.0 ==> m(q).None?
    ensures r.None? ==> forall q :: from <= q <= limit ==> m(q).None?
    decreases limit + 1 - from
  {
    if from > limit then None
    else
      match m(from)
      case Some(e) => Some((from, e))
      case None => FirstMatch(m, limit, from + 1)
  }

  /** The leftmost match of `pat` at or after `from`, as (start, end). */
  function Search(pat: Pattern, s: string, from: nat): (r: Option<(nat, nat)>)
    ensures r.Some? ==> from <= r.value.0 <= |s| && MatchAt(pat, s, r.value.0) == Some(r.value.1)
    ensures r.Some? ==> forall q :: from <= q < r.value.0 ==> MatchAt(pat, s, q).None?
    ensures r.None? ==> forall q :: from <= q <= |s| ==> MatchAt(pat, s, q).None?
  {
    var m := (p: nat) => MatchAt(pat, s, p);
    assert forall q: nat :: m(q) == MatchAt(pat, s, q);
    FirstMatch(m, |s|, from)
  }


  /** `pat.test(s)`. */
  predicate Test(pat: Pattern, s: string) {
    Search(pat, s, 0).Some?
  }

  /** `s.replace(pat, rep)`: the leftmost match, if any, replaced by `rep`. */
  function Replace(pat: Pattern, s: string, rep: string): (r: string)
    ensures (forall q :: 0 <= q <= |s| ==> MatchAt(pat, s, q).None?) ==> r == s
    ensures forall p: nat, e: nat ::
      p <= |s| && MatchAt(pat, s, p) == Some(e) && (forall q :: 0 <= q < p ==> MatchAt(pat, s, q).None?) ==>
        r == s[..p] + rep + s[e..]
  {
    match Search(pat, s, 0)
    case None => s
    case Some((p, e)) => s[..p] + rep + s[e..]
  }

  /** The search finds `p` when the pattern matches there and nowhere before it. */
  lemma SearchFinds(pat: Pattern, s: string, from: nat, p: nat)
    requires from <= p <= |s| && MatchAt(pat, s, p).Some?
    requires forall q :: from <= q < p ==> MatchAt(pat, s, q).None?
    ensures Search(pat, s, from) == Some((p, MatchAt(pat, s, p).value))
  {
  }

  /**
   * When the leftmost bracketed id is preceded by a space, the space-preceded search
   * finds that same id, one character earlier.
   */
  lemma SpacedSearchFindsFirstId(s: string)
    requires Search(IdToken, s, 0).Some?
    requires var p := Search(IdToken, s, 0).value.0; p > 0 && s[p - 1] == ' '
    ensures Search(SpacedIdToken, s, 0) ==
      Some((Search(IdToken, s, 0).value.0 - 1, Search(IdToken, s, 0).value.1))
  {
    var p := Search(IdToken, s, 0).value.0;
    var e := Search(IdToken, s, 0).value.1;
    assert MatchAt(IdToken, s, p) == Some(e);
    assert MatchAt(SpacedIdToken, s, p - 1) == Some(e);
    forall q | 0 <= q < p - 1 ensures MatchAt(SpacedIdToken, s, q).None? {
      assert MatchAt(IdToken, s, q + 1).None?;
    }
    SearchFinds(SpacedIdToken, s, 0, p - 1);
  }

  /** Where the pid tag occurs, the host-stripping pattern matches too (at or before it). */
  lemma {:induction false} PidMarkerImpliesPrefix(s: string)
    requires Test(PidMarker, s)
    ensures Test(PidPrefix, s)
  {
    var (i, _) := Search(PidMarker, s, 0).value;
    assert MatchAt(PidPrefix, s, i).Some?;
  }

  /** Where ` haraka: [` occurs, the host-stripping pattern without pid matches too. */
  lemma {:induction false} NoPidMarkerImpliesPrefix(s: string)
    requires Test(Literal(" haraka: ["), s)
    ensures Test(NoPidPrefix, s)
  {
    var (i, _) := Search(Literal(" haraka: ["), s, 0).value;
    assert s[i..i + 9] == s[i..i + 10][..9];
    assert StartsAt(s, i, HARAKA_NO_PID);
    assert MatchAt(NoPidPrefix, s, i).Some?;
  }
}
