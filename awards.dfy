/**
 * `getAwards`, `getResolutions` and `sortByAward`: the award codes of the decision line
 * are looked up in the rule table, the records found are sorted by award, and each is
 * rendered as a list item; resolutions are listed once each.
 */
module Awards {
  import opened Wrappers
  import opened Text
  import opened RuleTable

  // ---- JavaScript values as they appear in string concatenation ----

  /** `'' + x` for a piece that may be `undefined`. */
  function Str(o: Option<string>): string {
    match o
    case None => "undefined"
    case Some(s) => s
  }

  /** Truthiness of a piece: defined and not the empty string. */
  predicate Truthy(o: Option<string>) {
    o.Some? && o.value != ""
  }

  // ---- Award keys ----

  /** An award written as an integer: an optional sign and at least one digit. */
  predicate IntText(t: string) {
    var k := if |t| > 0 && (t[0] == '-' || t[0] == '+') then 1 else 0;
    k < |t| && forall i :: k <= i < |t| ==> IsDigit(t[i])
  }

  /** The value of a string of decimal digits. */
  function DigitsValue(d: string): nat
    requires forall i :: 0 <= i < |d| ==> IsDigit(d[i])
    decreases |d|
  {
    if d == [] then 0
    else
      assert IsDigit(d[|d| - 1]);
      10 * DigitsValue(d[..|d| - 1]) + (d[|d| - 1] as int - '0' as int)
  }

  /** The number an integer award stands for. */
  function IntValue(t: string): int
    requires IntText(t)
  {
    if t[0] == '-' then -(DigitsValue(t[1..]) as int)
    else if t[0] == '+' then DigitsValue(t[1..]) as int
    else DigitsValue(t) as int
  }

  /** The award of a record as `parseFloat` reads it, for integer awards; None stands for NaN. */
  function AwardKey(r: Rule): Option<int> {
    if r.award.Some? && IntText(r.award.value) then Some(IntValue(r.award.value)) else None
  }

  /**
   * `sortByAward` on two parsed awards: -1 when the second is larger, 1 when it is
   * smaller, and 0 otherwise, also when either is NaN (every comparison with NaN fails).
   */
  function CompareKeys(x: Option<int>, y: Option<int>): (c: int)
    ensures c == -1 || c == 0 || c == 1
    ensures x.Some? && y.Some? ==> (c < 0 <==> x.value < y.value) && (c > 0 <==> x.value > y.value)
    ensures x.None? || y.None? ==> c == 0
  {
    match (x, y)
    case (Some(a), Some(b)) => if b > a then -1 else if b < a then 1 else 0
    case _ => 0
  }

  /**
   * `sortByAward`: negative when `a` has the smaller award, positive when the larger,
   * and 0 on a tie or when either award is not a number.
   */
  function SortByAward(a: Rule, b: Rule): (c: int)
    ensures c == -1 || c == 0 || c == 1
    ensures AwardKey(a).Some? && AwardKey(b).Some? ==>
      (c < 0 <==> AwardKey(a).value < AwardKey(b).value) &&
      (c > 0 <==> AwardKey(a).value > AwardKey(b).value)
    ensures AwardKey(a).None? || AwardKey(b).None? ==> c == 0
  {
    CompareKeys(AwardKey(a), AwardKey(b))
  }

  // ---- The sort, for any way of reading a key off a record ----

  /** `x` placed before the first record whose key compares above its own. */
  function InsertBy<T(==)>(x: T, s: seq<T>, key: T -> Option<int>): (r: seq<T>)
    ensures |r| == |s| + 1
    decreases |s|
  {
    if s == [] then [x]
    else if CompareKeys(key(s[0]), key(x)) > 0 then [x] + s
    else [s[0]] + InsertBy(x, s[1..], key)
  }

  /** A stable insertion sort, records inserted in input order. */
  function SortBy<T(==)>(s: seq<T>, key: T -> Option<int>): (r: seq<T>)
    ensures |r| == |s|
    decreases |s|
  {
    if s == [] then [] else InsertBy(s[|s| - 1], SortBy(s[..|s| - 1], key), key)
  }

  predicate AscendingBy<T(==)>(s: seq<T>, key: T -> Option<int>) {
    forall i, j :: 0 <= i < j < |s| ==> CompareKeys(key(s[i]), key(s[j])) <= 0
  }

  predicate KeyedBy<T(==)>(s: seq<T>, key: T -> Option<int>) {
    forall r :: r in s ==> key(r).Some?
  }

  function WithKeyBy<T(==)>(s: seq<T>, key: T -> Option<int>, v: int): seq<T>
    decreases |s|
  {
    if s == [] then []
    else if key(s[0]) == Some(v) then [s[0]] + WithKeyBy(s[1..], key, v)
    else WithKeyBy(s[1..], key, v)
  }

  // ---- The sort by award ----

  /** `awards.sort(sortByAward)`, modelled as a stable sort. */
  function Sort(s: seq<Rule>): seq<Rule> {
    SortBy(s, AwardKey)
  }

  /** No record is put after one the comparator orders after it. */
  predicate Ascending(s: seq<Rule>) {
    forall i, j :: 0 <= i < j < |s| ==> SortByAward(s[i], s[j]) <= 0
  }

  /** Every award is an integer, so the comparator is a consistent total preorder. */
  predicate Keyed(s: seq<Rule>) {
    forall r :: r in s ==> AwardKey(r).Some?
  }

  /** The records whose award is `v`, in their order. */
  function WithKey(s: seq<Rule>, v: int): seq<Rule> {
    WithKeyBy(s, AwardKey, v)
  }

  // ---- The records an award list draws on ----

  /** The codes `getAwards` resolves: non-empty and present in the table, in order. */
  function KnownCodes(t: Table, nums: seq<string>): (codes: seq<string>)
    ensures forall c :: c in codes ==> c != "" && c in t
    ensures forall c :: c in nums && c != "" && c in t ==> c in codes
    decreases |nums|
  {
    if nums == [] then []
    else
      var a := nums[|nums| - 1];
      KnownCodes(t, nums[..|nums| - 1]) + (if a != "" && a in t then [a] else [])
  }

  /** The records of the given codes, as stored in the table. */
  function RecordsOf(t: Table, codes: seq<string>): (rs: seq<Rule>)
    requires forall c :: c in codes ==> c in t
    ensures |rs| == |codes|
    ensures forall i :: 0 <= i < |codes| ==> rs[i] == t[codes[i]]
    decreases |codes|
  {
    if codes == [] then [] else [t[codes[0]]] + RecordsOf(t, codes[1..])
  }

  /** `plugin.result_awards[a].id = a` for every resolved code. */
  function StampIds(t: Table, nums: seq<string>): (t': Table)
    ensures t'.Keys == t.Keys
    ensures forall k :: k in t ==> t'[k] == if k in KnownCodes(t, nums) then t[k].(id := Some(k)) else t[k]
  {
    map k | k in t :: if k in KnownCodes(t, nums) then t[k].(id := Some(k)) else t[k]
  }

  /** Looking up a code in an undefined table throws a TypeError. */
  predicate Throws(t: Option<Table>, nums: seq<string>) {
    t.None? && exists i :: 0 <= i < |nums| && nums[i] != ""
  }

  // ---- Rendering ----

  /**
   * One item of the award list: `<li> award,  reason (value)</li>` when the rule has a
   * reason, else `<li> award,  pi_name property value</li>`.
   */
  function AwardItem(a: Rule): string {
    var start := "<li> " + Str(a.award) + ",  ";
    if Truthy(a.reason) then start + a.reason.value + " (" + Str(a.value) + ")</li>"
    else start + Str(a.piName) + " " + Str(a.property) + " " + Str(a.value) + "</li>"
  }

  function AwardItemsOf(rs: seq<Rule>): (items: seq<string>)
    ensures |items| == |rs| && forall i :: 0 <= i < |rs| ==> items[i] == AwardItem(rs[i])
  {
    seq(|rs|, i requires 0 <= i < |rs| => AwardItem(rs[i]))
  }

  /**
   * What `getAwards(awardNums)` returns: no items for no codes; a thrown TypeError (None)
   * when a code has to be looked up in an undefined table; else the items of the sorted
   * records found.
   */
  function AwardItems(t: Option<Table>, nums: seq<string>): (r: Option<seq<string>>)
    ensures r.None? <==> Throws(t, nums)
  {
    if nums == [] then Some([])
    else if Throws(t, nums) then None
    else Some(AwardItemsOf(AwardRecords(t.GetOr(map[]), nums)))
  }

  /** The records `getAwards` lists, in the order it lists them: stamped, then sorted. */
  function AwardRecords(t: Table, nums: seq<string>): seq<Rule> {
    Sort(RecordsOf(StampIds(t, nums), KnownCodes(t, nums)))
  }

  /** The non-empty resolutions of the records, in their order. */
  function Resolutions(rs: seq<Rule>): (out: seq<string>)
    ensures forall x :: x in out ==> x != ""
    ensures forall r :: r in rs && Truthy(r.resolution) ==> r.resolution.value in out
    ensures forall x :: x in out ==> exists r :: r in rs && Truthy(r.resolution) && r.resolution.value == x
    decreases |rs|
  {
    if rs == [] then []
    else
      var r := rs[|rs| - 1];
      Resolutions(rs[..|rs| - 1]) + (if Truthy(r.resolution) then [r.resolution.value] else [])
  }

  /** Keeping only the first occurrence of each text, as the `resolutionSeen` set is meant to. */
  function Dedup(xs: seq<string>): seq<string>
    decreases |xs|
  {
    if xs == [] then []
    else
      var d := Dedup(xs[..|xs| - 1]);
      var x := xs[|xs| - 1];
      if x in d then d else d + [x]
  }

  /** The property names every plain JavaScript object inherits from `Object.prototype`. */
  const OBJECT_PROTOTYPE_NAMES: set<string> := {
    "constructor", "__defineGetter__", "__defineSetter__", "hasOwnProperty",
    "__lookupGetter__", "__lookupSetter__", "isPrototypeOf", "propertyIsEnumerable",
    "toString", "valueOf", "__proto__", "toLocaleString"
  }

  /**
   * The deduplication as written: `resolutionSeen` is a plain object, so a text naming an
   * inherited property already reads as seen.
   */
  function DedupAsWritten(xs: seq<string>): seq<string>
    decreases |xs|
  {
    if xs == [] then []
    else
      var d := DedupAsWritten(xs[..|xs| - 1]);
      var x := xs[|xs| - 1];
      if x in d || x in OBJECT_PROTOTYPE_NAMES then d else d + [x]
  }

  function ResolutionItem(res: string): string {
    "<li>" + res + "</li>"
  }

  function ResolutionItemsOf(texts: seq<string>): (items: seq<string>)
    ensures |items| == |texts| && forall i :: 0 <= i < |texts| ==> items[i] == ResolutionItem(texts[i])
  {
    seq(|texts|, i requires 0 <= i < |texts| => ResolutionItem(texts[i]))
  }

  /** What `getResolutions(awardNums)` returns, with a TypeError as None. */
  function ResolutionItems(t: Option<Table>, nums: seq<string>): (r: Option<seq<string>>)
    ensures r.None? <==> Throws(t, nums)
  {
    if nums == [] then Some([])
    else if Throws(t, nums) then None
    else Some(ResolutionItemsOf(Dedup(Resolutions(ResolutionRecords(t.GetOr(map[]), nums)))))
  }

  /** The records `getResolutions` walks: looked up as stored, then sorted. */
  function ResolutionRecords(t: Table, nums: seq<string>): seq<Rule> {
    Sort(RecordsOf(t, KnownCodes(t, nums)))
  }

  /** The index of the first occurrence of `x`. */
  function FirstIndex(xs: seq<string>, x: string): (k: nat)
    requires x in xs
    ensures k < |xs| && xs[k] == x && x !in xs[..k]
    decreases |xs|
  {
    if xs[0] == x then 0
    else
      var k := 1 + FirstIndex(xs[1..], x);
      assert xs[..k] == [xs[0]] + xs[1..][..k - 1];
      k
  }
}

module AwardsProperties {
  import opened Wrappers
  import opened Text
  import opened RuleTable
  import opened Awards

  // ---- The sort is a permutation ----

  lemma {:induction false} InsertPermutes<T>(x: T, s: seq<T>, key: T -> Option<int>)
    ensures multiset(InsertBy(x, s, key)) == multiset(s) + multiset{x}
    decreases |s|
  {
    if s != [] && CompareKeys(key(s[0]), key(x)) <= 0 {
      InsertPermutes(x, s[1..], key);
      assert s == [s[0]] + s[1..];
    }
  }

  lemma {:induction false} SortByPermutes<T>(s: seq<T>, key: T -> Option<int>)
    ensures multiset(SortBy(s, key)) == multiset(s)
    decreases |s|
  {
    if s != [] {
      var init := s[..|s| - 1];
      SortByPermutes(init, key);
      InsertPermutes(s[|s| - 1], SortBy(init, key), key);
      assert s == init + [s[|s| - 1]];
    }
  }

  lemma KeyedBySorted<T>(s: seq<T>, key: T -> Option<int>)
    requires KeyedBy(s, key)
    ensures KeyedBy(SortBy(s, key), key)
  {
    SortByPermutes(s, key);
    forall r | r in SortBy(s, key) ensures key(r).Some? {
      assert r in multiset(SortBy(s, key));
    }
  }

  // ---- The sort ascends ----

  /** The first record of an ascending list is ordered before every record of it. */
  lemma HeadLowest<T>(s: seq<T>, key: T -> Option<int>)
    requires s != [] && AscendingBy(s, key)
    ensures forall r :: r in s ==> CompareKeys(key(s[0]), key(r)) <= 0
  {
    forall r | r in s ensures CompareKeys(key(s[0]), key(r)) <= 0 {
      var k :| 0 <= k < |s| && s[k] == r;
      assert k > 0 ==> CompareKeys(key(s[0]), key(s[k])) <= 0;
    }
  }

  lemma ConsAscending<T>(y: T, s: seq<T>, key: T -> Option<int>)
    requires AscendingBy(s, key) && forall r :: r in s ==> CompareKeys(key(y), key(r)) <= 0
    ensures AscendingBy([y] + s, key)
  {
    var r := [y] + s;
    forall i, j | 0 <= i < j < |r| ensures CompareKeys(key(r[i]), key(r[j])) <= 0 {
      assert r[j] == s[j - 1] && s[j - 1] in s;
      assert i > 0 ==> r[i] == s[i - 1];
    }
  }

  lemma AscendingRest<T>(s: seq<T>, key: T -> Option<int>)
    requires s != [] && AscendingBy(s, key)
    ensures AscendingBy(s[1..], key)
  {
    var rest := s[1..];
    forall i, j | 0 <= i < j < |rest| ensures CompareKeys(key(rest[i]), key(rest[j])) <= 0 {
      assert rest[i] == s[i + 1] && rest[j] == s[j + 1];
    }
  }

  lemma {:induction false} InsertAscending<T>(x: T, s: seq<T>, key: T -> Option<int>)
    requires key(x).Some? && KeyedBy(s, key) && AscendingBy(s, key)
    ensures AscendingBy(InsertBy(x, s, key), key)
    decreases |s|
  {
    if s == [] {
    } else if CompareKeys(key(s[0]), key(x)) > 0 {
      HeadLowest(s, key);
      assert s[0] in s;
      forall r | r in s ensures CompareKeys(key(x), key(r)) <= 0 {
        assert key(r).Some? && CompareKeys(key(s[0]), key(r)) <= 0;
      }
      ConsAscending(x, s, key);
    } else {
      var rest := s[1..];
      assert forall r :: r in rest ==> r in s;
      AscendingRest(s, key);
      InsertAscending(x, rest, key);
      InsertPermutes(x, rest, key);
      HeadLowest(s, key);
      forall r | r in InsertBy(x, rest, key) ensures CompareKeys(key(s[0]), key(r)) <= 0 {
        assert r in multiset(rest) + multiset{x};
      }
      ConsAscending(s[0], InsertBy(x, rest, key), key);
    }
  }

  lemma {:induction false} SortByAscends<T>(s: seq<T>, key: T -> Option<int>)
    requires KeyedBy(s, key)
    ensures AscendingBy(SortBy(s, key), key)
    decreases |s|
  {
    if s != [] {
      var init := s[..|s| - 1];
      assert forall r :: r in init ==> r in s;
      SortByAscends(init, key);
      KeyedBySorted(init, key);
      assert s[|s| - 1] in s;
      InsertAscending(s[|s| - 1], SortBy(init, key), key);
    }
  }

  // ---- The sort is stable ----

  lemma {:induction false} WithKeyAppend<T>(a: seq<T>, b: seq<T>, key: T -> Option<int>, v: int)
    ensures WithKeyBy(a + b, key, v) == WithKeyBy(a, key, v) + WithKeyBy(b, key, v)
    decreases |a|
  {
    if a == [] {
      assert a + b == b;
    } else {
      WithKeyAppend(a[1..], b, key, v);
      assert (a + b)[1..] == a[1..] + b;
    }
  }

  lemma {:induction false} WithKeyAbove<T>(s: seq<T>, key: T -> Option<int>, v: int)
    requires forall r :: r in s ==> key(r).Some? && key(r).value > v
    ensures WithKeyBy(s, key, v) == []
    decreases |s|
  {
    if s != [] {
      assert s[0] in s;
      assert forall r :: r in s[1..] ==> r in s;
      WithKeyAbove(s[1..], key, v);
    }
  }

  /** Inserting in front of a list whose keys all lie above `x`'s. */
  lemma InsertWithKeyFront<T>(x: T, s: seq<T>, key: T -> Option<int>, v: int)
    requires key(x).Some? && KeyedBy(s, key) && AscendingBy(s, key)
    requires s != [] && CompareKeys(key(s[0]), key(x)) > 0
    ensures WithKeyBy([x] + s, key, v) == WithKeyBy(s, key, v) + (if key(x) == Some(v) then [x] else [])
  {
    assert ([x] + s)[1..] == s;
    if key(x) == Some(v) {
      HeadLowest(s, key);
      assert s[0] in s;
      forall r | r in s ensures key(r).Some? && key(r).value > v {
        assert key(r).Some? && CompareKeys(key(s[0]), key(r)) <= 0;
      }
      WithKeyAbove(s, key, v);
    }
  }

  lemma {:induction false} InsertWithKey<T>(x: T, s: seq<T>, key: T -> Option<int>, v: int)
    requires key(x).Some? && KeyedBy(s, key) && AscendingBy(s, key)
    ensures WithKeyBy(InsertBy(x, s, key), key, v) == WithKeyBy(s, key, v) + (if key(x) == Some(v) then [x] else [])
    decreases |s|
  {
    if s == [] {
      assert WithKeyBy([x], key, v) == (if key(x) == Some(v) then [x] else []) + WithKeyBy([], key, v);
    } else if CompareKeys(key(s[0]), key(x)) > 0 {
      InsertWithKeyFront(x, s, key, v);
    } else {
      var rest := s[1..];
      assert forall r :: r in rest ==> r in s;
      AscendingRest(s, key);
      InsertWithKey(x, rest, key, v);
      WithKeyBehind(s, InsertBy(x, rest, key), key, v, if key(x) == Some(v) then [x] else []);
    }
  }

  /** The first record put in front of `t` instead of the rest of `s`. */
  lemma WithKeyBehind<T>(s: seq<T>, t: seq<T>, key: T -> Option<int>, v: int, tail: seq<T>)
    requires s != [] && WithKeyBy(t, key, v) == WithKeyBy(s[1..], key, v) + tail
    ensures WithKeyBy([s[0]] + t, key, v) == WithKeyBy(s, key, v) + tail
  {
    WithKeyCons(s[0], t, key, v);
  }

  lemma WithKeyCons<T>(y: T, t: seq<T>, key: T -> Option<int>, v: int)
    ensures WithKeyBy([y] + t, key, v) == (if key(y) == Some(v) then [y] else []) + WithKeyBy(t, key, v)
  {
    assert ([y] + t)[0] == y && ([y] + t)[1..] == t;
  }

  lemma {:induction false} SortByIsStable<T>(s: seq<T>, key: T -> Option<int>, v: int)
    requires KeyedBy(s, key)
    ensures WithKeyBy(SortBy(s, key), key, v) == WithKeyBy(s, key, v)
    decreases |s|
  {
    if s != [] {
      var init := s[..|s| - 1];
      var x := s[|s| - 1];
      assert forall r :: r in init ==> r in s;
      assert x in s;
      SortByIsStable(init, key, v);
      SortByAscends(init, key);
      KeyedBySorted(init, key);
      InsertWithKey(x, SortBy(init, key), key, v);
      assert s == init + [x];
      WithKeyAppend(init, [x], key, v);
      assert WithKeyBy([x], key, v) == (if key(x) == Some(v) then [x] else []) + WithKeyBy([], key, v);
    }
  }

  // ---- The same, for the sort by award ----

  /** Sorting neither loses nor adds a record. */
  lemma SortPermutes(s: seq<Rule>)
    ensures multiset(Sort(s)) == multiset(s)
  {
    SortByPermutes(s, AwardKey);
  }

  /** With integer awards, the sorted records are in non-decreasing award order. */
  lemma SortAscends(s: seq<Rule>)
    requires Keyed(s)
    ensures Ascending(Sort(s))
  {
    SortByAscends(s, AwardKey);
  }

  /** Records with the same award keep their input order: the sort is stable. */
  lemma SortIsStable(s: seq<Rule>, v: int)
    requires Keyed(s)
    ensures WithKey(Sort(s), v) == WithKey(s, v)
  {
    SortByIsStable(s, AwardKey, v);
  }

  // ---- Which records are listed ----

  /** Each non-empty code known to the table is resolved as often as it occurs; no other is. */
  lemma {:induction false} KnownCodesCount(t: Table, nums: seq<string>)
    ensures forall c :: multiset(KnownCodes(t, nums))[c] == if c != "" && c in t then multiset(nums)[c] else 0
    decreases |nums|
  {
    if nums != [] {
      var init := nums[..|nums| - 1];
      KnownCodesCount(t, init);
      assert nums == init + [nums[|nums| - 1]];
    }
  }

  lemma StampedRecordsOf(t: Table, nums: seq<string>)
    ensures var codes := KnownCodes(t, nums);
      var rs := RecordsOf(StampIds(t, nums), codes);
      forall i :: 0 <= i < |rs| ==> rs[i] == t[codes[i]].(id := Some(codes[i]))
  {
    var codes := KnownCodes(t, nums);
    assert forall i :: 0 <= i < |codes| ==> codes[i] in codes;
  }

  lemma {:induction false} StampedCount(t: Table, codes: seq<string>, rs: seq<Rule>, c: string)
    requires c in t && |rs| == |codes| && forall k :: k in codes ==> k in t
    requires forall i :: 0 <= i < |rs| ==> rs[i] == t[codes[i]].(id := Some(codes[i]))
    ensures multiset(rs)[t[c].(id := Some(c))] == multiset(codes)[c]
    decreases |codes|
  {
    if codes != [] {
      assert codes[0] in codes;
      assert forall k :: k in codes[1..] ==> k in codes;
      StampedCount(t, codes[1..], rs[1..], c);
      assert rs == [rs[0]] + rs[1..];
      assert codes == [codes[0]] + codes[1..];
      assert rs[0] == t[c].(id := Some(c)) <==> codes[0] == c by {
        assert rs[0].id == Some(codes[0]);
      }
    }
  }

  /** Every record of the award list is the record of a non-empty code found in the table, with `id` set to it. */
  lemma AwardRecordsAreKnownCodes(t: Table, nums: seq<string>)
    ensures forall r :: r in AwardRecords(t, nums) ==>
      r.id.Some? && r.id.value != "" && r.id.value in t && r == t[r.id.value].(id := r.id)
  {
    var codes := KnownCodes(t, nums);
    var rs := RecordsOf(StampIds(t, nums), codes);
    StampedRecordsOf(t, nums);
    SortPermutes(rs);
    forall r | r in AwardRecords(t, nums)
      ensures r.id.Some? && r.id.value != "" && r.id.value in t && r == t[r.id.value].(id := r.id)
    {
      assert r in multiset(rs);
      var i :| 0 <= i < |rs| && rs[i] == r;
      assert codes[i] in codes;
    }
  }

  /** Each code found in the table has its record in the award list as often as the code occurs. */
  lemma AwardRecordsCount(t: Table, nums: seq<string>)
    ensures forall c :: c in t ==>
      multiset(AwardRecords(t, nums))[t[c].(id := Some(c))] == if c != "" then multiset(nums)[c] else 0
  {
    var codes := KnownCodes(t, nums);
    var rs := RecordsOf(StampIds(t, nums), codes);
    StampedRecordsOf(t, nums);
    SortPermutes(rs);
    KnownCodesCount(t, nums);
    forall c | c in t
      ensures multiset(AwardRecords(t, nums))[t[c].(id := Some(c))] == if c != "" then multiset(nums)[c] else 0
    {
      StampedCount(t, codes, rs, c);
    }
  }

  /** With integer awards, the award list ascends and ties keep the order of the codes. */
  lemma AwardRecordsOrder(t: Table, nums: seq<string>)
    requires Keyed(RecordsOf(StampIds(t, nums), KnownCodes(t, nums)))
    ensures Ascending(AwardRecords(t, nums))
    ensures forall v :: WithKey(AwardRecords(t, nums), v) == WithKey(RecordsOf(StampIds(t, nums), KnownCodes(t, nums)), v)
  {
    var rs := RecordsOf(StampIds(t, nums), KnownCodes(t, nums));
    SortAscends(rs);
    forall v ensures WithKey(AwardRecords(t, nums), v) == WithKey(rs, v) {
      SortIsStable(rs, v);
    }
  }

  // ---- Resolutions: each text once, in the order first met ----

  lemma {:induction false} DedupElements(xs: seq<string>)
    ensures forall x :: x in Dedup(xs) <==> x in xs
    decreases |xs|
  {
    if xs != [] {
      var init := xs[..|xs| - 1];
      DedupElements(init);
      assert xs == init + [xs[|xs| - 1]];
    }
  }

  /** No resolution text is listed twice. */
  lemma {:induction false} DedupDistinct(xs: seq<string>)
    ensures forall i, j :: 0 <= i < j < |Dedup(xs)| ==> Dedup(xs)[i] != Dedup(xs)[j]
    decreases |xs|
  {
    if xs != [] {
      DedupDistinct(xs[..|xs| - 1]);
    }
  }

  /** A position holding `x` with no `x` before it is the first index of `x`. */
  lemma {:induction false} FirstIndexUnique(xs: seq<string>, x: string, k: nat)
    requires k < |xs| && xs[k] == x && x !in xs[..k]
    ensures FirstIndex(xs, x) == k
    decreases |xs|
  {
    assert k > 0 ==> xs[..k][0] == xs[0];
    if xs[0] != x {
      assert xs[1..][..k - 1] == xs[1..k];
      assert forall y :: y in xs[1..k] ==> y in xs[..k];
      FirstIndexUnique(xs[1..], x, k - 1);
    }
  }

  lemma FirstIndexInPrefix(a: seq<string>, b: seq<string>, x: string)
    requires x in a
    ensures FirstIndex(a + b, x) == FirstIndex(a, x)
  {
    var k := FirstIndex(a, x);
    assert (a + b)[..k] == a[..k];
    FirstIndexUnique(a + b, x, k);
  }

  /** Every text of `d` occurs in `xs`, and `d` lists them by where they first occur. */
  predicate OrderedByFirst(xs: seq<string>, d: seq<string>) {
    (forall y :: y in d ==> y in xs) &&
    forall i, j :: 0 <= i < j < |d| ==> d[i] in xs && d[j] in xs && FirstIndex(xs, d[i]) < FirstIndex(xs, d[j])
  }

  /** Appending a text leaves the first occurrence of every earlier text where it was. */
  lemma OrderedByFirstAppend(init: seq<string>, x: string, d: seq<string>)
    requires OrderedByFirst(init, d)
    ensures OrderedByFirst(init + [x], d)
  {
    forall y | y in d ensures FirstIndex(init + [x], y) == FirstIndex(init, y) {
      FirstIndexInPrefix(init, [x], y);
    }
  }

  /** A text not seen before first occurs at the end, after every listed one. */
  lemma OrderedByFirstNew(init: seq<string>, x: string, d: seq<string>)
    requires OrderedByFirst(init, d) && x !in init
    ensures OrderedByFirst(init + [x], d + [x])
  {
    var xs := init + [x];
    OrderedByFirstAppend(init, x, d);
    assert xs[..|init|] == init;
    assert FirstIndex(xs, x) == |init|;
    var e := d + [x];
    forall i, j | 0 <= i < j < |e| ensures e[i] in xs && e[j] in xs && FirstIndex(xs, e[i]) < FirstIndex(xs, e[j]) {
      assert e[i] == d[i] && d[i] in d;
      assert j < |d| ==> e[j] == d[j];
    }
  }

  /** Resolutions are listed in the order of their first occurrence. */
  lemma {:induction false} DedupFirstOccurrenceOrder(xs: seq<string>)
    ensures OrderedByFirst(xs, Dedup(xs))
    decreases |xs|
  {
    if xs != [] {
      var init := xs[..|xs| - 1];
      var x := xs[|xs| - 1];
      DedupFirstOccurrenceOrder(init);
      DedupElements(init);
      assert xs == init + [x];
      if x in Dedup(init) {
        OrderedByFirstAppend(init, x, Dedup(init));
      } else {
        OrderedByFirstNew(init, x, Dedup(init));
      }
    }
  }

  /** Without texts named like inherited properties, the code as written deduplicates correctly. */
  lemma {:induction false} DedupAsWrittenAgrees(xs: seq<string>)
    requires forall x :: x in xs ==> x !in OBJECT_PROTOTYPE_NAMES
    ensures DedupAsWritten(xs) == Dedup(xs)
    decreases |xs|
  {
    if xs != [] {
      var init := xs[..|xs| - 1];
      assert forall x :: x in init ==> x in xs;
      DedupAsWrittenAgrees(init);
      assert xs[|xs| - 1] in xs;
    }
  }

  /** A resolution reading `toString` is never listed by the code as written. */
  lemma PrototypeNameDropped()
    ensures DedupAsWritten(["toString"]) == []
    ensures Dedup(["toString"]) == ["toString"]
  {
    assert ["toString"][..0] == [];
    assert "toString" in OBJECT_PROTOTYPE_NAMES;
  }

  // ---- One step of the loops of `getAwards` and `getResolutions` ----

  /** Looking at one more code resolves it when it is non-empty and in the table. */
  lemma KnownCodesStep(t: Table, nums: seq<string>, i: nat)
    requires i < |nums|
    ensures KnownCodes(t, nums[..i + 1]) ==
      KnownCodes(t, nums[..i]) + (if nums[i] != "" && nums[i] in t then [nums[i]] else [])
  {
    assert nums[..i + 1][..i] == nums[..i];
  }

  lemma KnownCodesNext(t: Table, nums: seq<string>, i: nat)
    requires i < |nums| && nums[i] != "" && nums[i] in t
    ensures KnownCodes(t, nums[..i + 1]) == KnownCodes(t, nums[..i]) + [nums[i]]
  {
    KnownCodesStep(t, nums, i);
  }

  /** An empty code, or one the table does not have, resolves nothing. */
  lemma KnownCodesSkip(t: Table, nums: seq<string>, i: nat)
    requires i < |nums| && (nums[i] == "" || nums[i] !in t)
    ensures KnownCodes(t, nums[..i + 1]) == KnownCodes(t, nums[..i])
  {
    KnownCodesStep(t, nums, i);
  }

  /**
   * Stamping one more resolved code writes its `id` into its record, already stamped or
   * not, and changes nothing else.
   */
  lemma StampNext(t: Table, nums: seq<string>, i: nat)
    requires i < |nums| && nums[i] != "" && nums[i] in t
    ensures var s := StampIds(t, nums[..i]);
      StampIds(t, nums[..i + 1]) == s[nums[i] := s[nums[i]].(id := Some(nums[i]))]
  {
    KnownCodesNext(t, nums, i);
  }

  /** A code that resolves nothing stamps nothing. */
  lemma StampSkip(t: Table, nums: seq<string>, i: nat)
    requires i < |nums| && (nums[i] == "" || nums[i] !in t)
    ensures StampIds(t, nums[..i + 1]) == StampIds(t, nums[..i])
  {
    KnownCodesSkip(t, nums, i);
  }

  /** Writing a code into its record gives the same record whether or not it was written before. */
  lemma StampAgain(t: Table, nums: seq<string>, a: string)
    requires a in t
    ensures StampIds(t, nums)[a].(id := Some(a)) == t[a].(id := Some(a))
  {
  }

  /** With no codes nothing is stamped. */
  lemma StampNothing(t: Table)
    ensures StampIds(t, []) == t
  {
  }

  /** Without a table, no code is known. */
  lemma {:induction false} NoCodesWithoutTable(nums: seq<string>)
    ensures KnownCodes(map[], nums) == []
    decreases |nums|
  {
    if nums != [] {
      NoCodesWithoutTable(nums[..|nums| - 1]);
    }
  }

  /** One more record adds its resolution when it is truthy. */
  lemma ResolutionsStep(rs: seq<Rule>, j: nat)
    requires j < |rs|
    ensures Resolutions(rs[..j + 1]) ==
      Resolutions(rs[..j]) + (if Truthy(rs[j].resolution) then [rs[j].resolution.value] else [])
  {
    assert rs[..j + 1][..j] == rs[..j];
  }

  /** Listing one more text appends its item. */
  lemma ResolutionItemsAppend(texts: seq<string>, x: string)
    ensures ResolutionItemsOf(texts + [x]) == ResolutionItemsOf(texts) + [ResolutionItem(x)]
  {
  }

  /** One more text is listed unless it already is. */
  lemma DedupStep(xs: seq<string>, x: string)
    ensures Dedup(xs + [x]) == if x in Dedup(xs) then Dedup(xs) else Dedup(xs) + [x]
  {
    assert (xs + [x])[..|xs|] == xs;
  }

  /** Every award item is non-empty, so the joined list is empty exactly when there are no items. */
  lemma {:induction false} JoinedItemsEmpty(items: seq<string>)
    requires forall i :: 0 <= i < |items| ==> items[i] != ""
    ensures Concat(items) == "" <==> items == []
    decreases |items|
  {
    if items != [] {
      assert items[0] != "";
      assert |Concat(items)| >= |items[0]|;
    }
  }

  /**
   * The joined award items, which `htmlBody` tests for its "Policy Rules Matched" section,
   * are non-empty exactly when some code of the list is non-empty and in the table.
   */
  lemma AwardListEmptyIffNoKnownCode(t: Table, nums: seq<string>)
    ensures Concat(AwardItemsOf(AwardRecords(t, nums))) == "" <==> KnownCodes(t, nums) == []
  {
    var items := AwardItemsOf(AwardRecords(t, nums));
    forall i | 0 <= i < |items| ensures items[i] != "" {
      assert items[i][0] == '<';
    }
    JoinedItemsEmpty(items);
  }

  /** The records yield no resolution text exactly when none of them has a truthy resolution. */
  lemma {:induction false} ResolutionsEmpty(rs: seq<Rule>)
    ensures Resolutions(rs) == [] <==> forall r :: r in rs ==> !Truthy(r.resolution)
    decreases |rs|
  {
    if rs != [] {
      var init := rs[..|rs| - 1];
      ResolutionsEmpty(init);
      assert rs == init + [rs[|rs| - 1]];
    }
  }

  /** Only the keys of a table decide which codes it resolves. */
  lemma {:induction false} KnownCodesSameKeys(t: Table, u: Table, nums: seq<string>)
    requires t.Keys == u.Keys
    ensures KnownCodes(t, nums) == KnownCodes(u, nums)
    decreases |nums|
  {
    if nums != [] {
      KnownCodesSameKeys(t, u, nums[..|nums| - 1]);
    }
  }

  /** The joined resolution list is empty exactly when there is no resolution text. */
  lemma ResolutionItemsEmpty(texts: seq<string>)
    ensures Concat(ResolutionItemsOf(Dedup(texts))) == "" <==> texts == []
  {
    var items := ResolutionItemsOf(Dedup(texts));
    forall i | 0 <= i < |items| ensures items[i] != "" {
      assert items[i][0] == '<';
    }
    JoinedItemsEmpty(items);
    DedupElements(texts);
    if texts != [] {
      assert texts[0] in Dedup(texts);
    }
  }

  /** Sorting keeps the same records. */
  lemma SortKeepsRecords(rs: seq<Rule>)
    ensures forall r :: r in Sort(rs) <==> r in rs
  {
    SortPermutes(rs);
    forall r ensures r in Sort(rs) <==> r in rs {
      assert r in multiset(Sort(rs)) <==> r in multiset(rs);
    }
  }

  /** The records of some codes are the table's records of exactly those codes. */
  lemma RecordsOfCodes(t: Table, codes: seq<string>)
    requires forall c :: c in codes ==> c in t
    ensures forall c :: c in codes ==> t[c] in RecordsOf(t, codes)
    ensures forall r :: r in RecordsOf(t, codes) ==> exists c :: c in codes && r == t[c]
  {
    var rs := RecordsOf(t, codes);
    forall c | c in codes ensures t[c] in rs {
      var k :| 0 <= k < |codes| && codes[k] == c;
      assert rs[k] == t[c];
    }
    forall r | r in rs ensures exists c :: c in codes && r == t[c] {
      var k :| 0 <= k < |rs| && rs[k] == r;
      assert codes[k] in codes;
    }
  }

  /**
   * The joined resolution items, which `htmlBody` tests for its "Steps to Resolve"
   * section, are non-empty exactly when the record of some resolved code has a truthy
   * resolution.
   */
  lemma ResolutionListEmptyIffNoResolution(t: Table, nums: seq<string>)
    ensures Concat(ResolutionItemsOf(Dedup(Resolutions(ResolutionRecords(t, nums))))) == "" <==>
      forall c :: c in KnownCodes(t, nums) ==> !Truthy(t[c].resolution)
  {
    var codes := KnownCodes(t, nums);
    ResolutionItemsEmpty(Resolutions(ResolutionRecords(t, nums)));
    ResolutionsEmpty(ResolutionRecords(t, nums));
    SortKeepsRecords(RecordsOf(t, codes));
    RecordsOfCodes(t, codes);
  }

  // ---- Order: both filters keep the order of their input ----

  /** The resolutions of two runs of records are those of the first run, then those of the second. */
  lemma {:induction false} ResolutionsAppend(a: seq<Rule>, b: seq<Rule>)
    ensures Resolutions(a + b) == Resolutions(a) + Resolutions(b)
    decreases |b|
  {
    if b == [] {
      assert a + b == a;
    } else {
      var ab := a + b;
      assert ab[..|ab| - 1] == a + b[..|b| - 1];
      ResolutionsAppend(a, b[..|b| - 1]);
    }
  }

  /** A single record yields its resolution when that is truthy, and nothing otherwise. */
  lemma ResolutionsSingle(r: Rule)
    ensures Resolutions([r]) == if Truthy(r.resolution) then [r.resolution.value] else []
  {
    assert [r][..0] == [];
  }

  /** The codes resolved from two runs of codes are those of the first run, then those of the second. */
  lemma {:induction false} KnownCodesAppend(t: Table, a: seq<string>, b: seq<string>)
    ensures KnownCodes(t, a + b) == KnownCodes(t, a) + KnownCodes(t, b)
    decreases |b|
  {
    if b == [] {
      assert a + b == a;
    } else {
      var ab := a + b;
      assert ab[..|ab| - 1] == a + b[..|b| - 1];
      KnownCodesAppend(t, a, b[..|b| - 1]);
    }
  }

  /** A single code is resolved exactly when it is non-empty and in the table. */
  lemma KnownCodesSingle(t: Table, c: string)
    ensures KnownCodes(t, [c]) == if c != "" && c in t then [c] else []
  {
    assert [c][..0] == [];
  }

  /**
   * When no truthy resolution of the records names an `Object.prototype` member, the
   * resolutions as `getResolutions` lists them (with the plain-object `resolutionSeen`)
   * are the corrected, de-duplicated ones.
   */
  lemma ResolutionListAsWritten(rs: seq<Rule>)
    requires forall r :: r in rs && Truthy(r.resolution) ==> r.resolution.value !in OBJECT_PROTOTYPE_NAMES
    ensures DedupAsWritten(Resolutions(rs)) == Dedup(Resolutions(rs))
  {
    DedupAsWrittenAgrees(Resolutions(rs));
  }
}
