/** Character classes and small string operations shared by the scanners. */
module Text {

  predicate IsDigit(c: char) { '0' <= c <= '9' }

  predicate IsUpper(c: char) { 'A' <= c <= 'Z' }

  predicate IsLower(c: char) { 'a' <= c <= 'z' }

  /** The class `[0-9A-F.-]` of transaction ids (upper-case hex only). */
  predicate IsIdChar(c: char) { IsDigit(c) || 'A' <= c <= 'F' || c == '.' || c == '-' }

  /** The class `[a-z.-]` of host names in the syslog prefix. */
  predicate IsHostChar(c: char) { IsLower(c) || c == '.' || c == '-' }

  /** The class `[0-9,]` of an award list. */
  predicate IsCodeChar(c: char) { IsDigit(c) || c == ',' }

  /** JavaScript's `\s`: the WhiteSpace and LineTerminator code points of ECMAScript. */
  predicate IsSpace(c: char) {
    c == '\t' || c == '\n' || c == '\U{000B}' || c == '\U{000C}' || c == '\r' || c == ' '
    || c == '\U{00A0}' || c == '\U{1680}' || ('\U{2000}' <= c <= '\U{200A}')
    || c == '\U{2028}' || c == '\U{2029}' || c == '\U{202F}' || c == '\U{205F}'
    || c == '\U{3000}' || c == '\U{FEFF}'
  }

  /** Length of the longest run of `p`-characters in `s` starting at `i`. */
  function Run(s: string, i: nat, p: char -> bool): (n: nat)
    requires i <= |s|
    ensures i + n <= |s|
    ensures forall k :: i <= k < i + n ==> p(s[k])
    ensures i + n == |s| || !p(s[i + n])
    decreases |s| - i
  {
    if i == |s| || !p(s[i]) then 0 else 1 + Run(s, i + 1, p)
  }

  /** A run is determined by where it ends: any `p`-block followed by a non-`p` character is the run. */
  lemma RunIsMaximal(s: string, i: nat, p: char -> bool, n: nat)
    requires i + n <= |s|
    requires forall k :: i <= k < i + n ==> p(s[k])
    requires i + n == |s| || !p(s[i + n])
    ensures Run(s, i, p) == n
  {
  }

  /** A run counted inside `s` from `i` is the run at the start of `s[i..]`. */
  lemma RunShift(s: string, i: nat, p: char -> bool)
    requires i <= |s|
    ensures Run(s, i, p) == Run(s[i..], 0, p)
  {
    var t := s[i..];
    var n := Run(t, 0, p);
    assert forall k :: i <= k < i + n ==> s[k] == t[k - i];
    assert i + n == |s| || s[i + n] == t[n];
    RunIsMaximal(s, i, p, n);
  }

  /** `s` holds the literal `lit` at position `i`. */
  predicate StartsAt(s: string, i: nat, lit: string) {
    i + |lit| <= |s| && s[i..i + |lit|] == lit
  }

  predicate Contains(s: string, lit: string) {
    exists i: nat :: i <= |s| && StartsAt(s, i, lit)
  }

  /** JavaScript's `String.prototype.split` with a one-character string separator. */
  function SplitOn(s: string, sep: char): (r: seq<string>)
    ensures |r| >= 1
    decreases |s|
  {
    if s == [] then [[]]
    else
      var rest := SplitOn(s[1..], sep);
      if s[0] == sep then [[]] + rest else [[s[0]] + rest[0]] + rest[1..]
  }

  /** JavaScript's `Array.prototype.join` with a one-character separator. */
  function JoinWith(parts: seq<string>, sep: char): string
    decreases |parts|
  {
    if parts == [] then []
    else if |parts| == 1 then parts[0]
    else parts[0] + [sep] + JoinWith(parts[1..], sep)
  }

  /** Concatenation of a list of strings, `Array.prototype.join('')`. */
  function Concat(parts: seq<string>): string
    decreases |parts|
  {
    if parts == [] then [] else parts[0] + Concat(parts[1..])
  }

  /** No piece of a split contains the separator. */
  lemma {:induction false} SplitOnPiecesLackSeparator(s: string, sep: char)
    ensures forall i :: 0 <= i < |SplitOn(s, sep)| ==> sep !in SplitOn(s, sep)[i]
    decreases |s|
  {
    if s != [] {
      SplitOnPiecesLackSeparator(s[1..], sep);
    }
  }

  /** Joining the pieces of a split with the separator gives back the string. */
  lemma {:induction false} JoinSplitOn(s: string, sep: char)
    ensures JoinWith(SplitOn(s, sep), sep) == s
    decreases |s|
  {
    if s != [] {
      var rest := SplitOn(s[1..], sep);
      JoinSplitOn(s[1..], sep);
      if s[0] == sep {
        assert SplitOn(s, sep) == [[]] + rest;
        assert ([[]] + rest)[1..] == rest;
      } else {
        var r := [[s[0]] + rest[0]] + rest[1..];
        if |rest| == 1 {
          assert r == [[s[0]] + rest[0]];
        } else {
          assert r[1..] == rest[1..];
          assert JoinWith(rest, sep) == rest[0] + [sep] + JoinWith(rest[1..], sep);
        }
      }
    }
  }

  /** Splitting a join of separator-free pieces gives back the pieces. */
  lemma {:induction false} SplitJoinOn(parts: seq<string>, sep: char)
    requires |parts| >= 1
    requires forall i :: 0 <= i < |parts| ==> sep !in parts[i]
    ensures SplitOn(JoinWith(parts, sep), sep) == parts
    decreases |parts|
  {
    if |parts| == 1 {
      SplitOnSeparatorFree(parts[0], sep);
    } else {
      SplitJoinOn(parts[1..], sep);
      var tail := JoinWith(parts[1..], sep);
      assert JoinWith(parts, sep) == parts[0] + ([sep] + tail);
      SplitOnSeparatorFreePrefix(parts[0], [sep] + tail, sep);
      assert ([sep] + tail)[1..] == tail;
      assert parts == [parts[0]] + parts[1..];
    }
  }

  /** A separator-free string splits into itself. */
  lemma {:induction false} SplitOnSeparatorFree(s: string, sep: char)
    requires sep !in s
    ensures SplitOn(s, sep) == [s]
    decreases |s|
  {
    if s != [] {
      SplitOnSeparatorFree(s[1..], sep);
      assert [s[0]] + s[1..] == s;
    }
  }

  /** A separator-free prefix glues onto the first piece of what follows it. */
  lemma {:induction false} SplitOnSeparatorFreePrefix(s: string, t: string, sep: char)
    requires sep !in s && t != [] && t[0] == sep
    ensures SplitOn(s + t, sep) == [s] + SplitOn(t[1..], sep)
    decreases |s|
  {
    if s == [] {
      assert s + t == t;
    } else {
      assert (s + t)[1..] == s[1..] + t;
      SplitOnSeparatorFreePrefix(s[1..], t, sep);
      var rest := SplitOn(s[1..] + t, sep);
      assert rest[0] == s[1..];
      assert [s[0]] + s[1..] == s;
      assert rest[1..] == SplitOn(t[1..], sep);
    }
  }
}
