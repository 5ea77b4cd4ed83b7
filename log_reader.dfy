/**
 * The plugin object: the rule table it keeps between requests, the karma.ini loader that
 * merges into it, the two lookups that read it (one of them writing `id` into its records),
 * the page builder and the request handler in front of it.
 */
module LogReader {
  import opened Wrappers
  import opened Text
  import opened TransactionId
  import opened RuleTable
  import opened LineNormaliser
  import opened Awards
  import opened AwardsProperties
  import opened Html

  /** The table after `getAwards(nums)` has written `id` into every record it resolved. */
  function StampedTable(t: Option<Table>, nums: seq<string>): Option<Table> {
    match t
    case None => None
    case Some(m) => Some(StampIds(m, nums))
  }

  /**
   * The page `asHtml(uuid, matched)` hands on, or None when building it throws a TypeError
   * (an award code to look up while the plugin has no rule table).
   */
  function Report(t: Option<Table>, uuid: string, matched: string): Option<string> {
    var lines := SplitOn(matched, '\n');
    var nums := AwardCodes(LastKarmaOf(lines));
    if Throws(t, nums) then None
    else
      Some(Page(Title(uuid, MonthDayOf(lines)),
                Concat(AwardItems(t, nums).value),
                Concat(ResolutionItems(StampedTable(t, nums), nums).value),
                RawLogsOf(lines)))
  }

  /** The records of `codes` with `id` written, as `getAwards` pushes them. */
  predicate PushedRecords(t: Table, codes: seq<string>, awards: seq<Rule>) {
    |awards| == |codes| &&
    forall k :: 0 <= k < |awards| ==> codes[k] in t && awards[k] == t[codes[k]].(id := Some(codes[k]))
  }

  /** The records of `codes` as stored, as `getResolutions` pushes them. */
  predicate StoredRecords(t: Table, codes: seq<string>, awards: seq<Rule>) {
    |awards| == |codes| && forall k :: 0 <= k < |awards| ==> codes[k] in t && awards[k] == t[codes[k]]
  }

  /** Pushing one more stored record keeps the pushed records in step with the codes. */
  lemma StoredExtends(t: Table, codes: seq<string>, awards: seq<Rule>, c: string)
    requires c in t && StoredRecords(t, codes, awards)
    ensures StoredRecords(t, codes + [c], awards + [t[c]])
  {
  }

  lemma StoredAreRecordsOf(t: Table, codes: seq<string>, awards: seq<Rule>)
    requires forall k :: k in codes ==> k in t
    requires StoredRecords(t, codes, awards)
    ensures awards == RecordsOf(t, codes)
  {
  }

  /** Pushing one more stamped record keeps the pushed records in step with the codes. */
  lemma PushedExtends(t: Table, codes: seq<string>, awards: seq<Rule>, c: string)
    requires c in t && PushedRecords(t, codes, awards)
    ensures PushedRecords(t, codes + [c], awards + [t[c].(id := Some(c))])
  {
  }

  lemma PushedAreStampedRecords(t: Table, nums: seq<string>, awards: seq<Rule>)
    requires PushedRecords(t, KnownCodes(t, nums), awards)
    ensures awards == RecordsOf(StampIds(t, nums), KnownCodes(t, nums))
  {
    StampedRecordsOf(t, nums);
  }

  /** The table `base` with the parsed rules of `keys` written into it. */
  function Merged<V>(base: map<string, V>, parsed: map<string, V>, keys: set<string>): map<string, V>
    requires keys <= parsed.Keys
  {
    base + map k | k in keys :: parsed[k]
  }

  lemma MergedNothing<V>(base: map<string, V>, parsed: map<string, V>)
    ensures Merged(base, parsed, {}) == base
  {
  }

  /** Writing one more parsed rule into the table overwrites that key only. */
  lemma MergedStep<V>(base: map<string, V>, parsed: map<string, V>, keys: set<string>, k: string)
    requires keys <= parsed.Keys && k in parsed
    ensures Merged(base, parsed, keys + {k}) == Merged(base, parsed, keys)[k := parsed[k]]
  {
  }

  /** Moving one key from the keys to do to the keys done keeps them a partition of `all`. */
  lemma MoveKey(todo: set<string>, done: set<string>, all: set<string>, k: string)
    requires todo + done == all && todo !! done && k in todo
    ensures (todo - {k}) + (done + {k}) == all && (todo - {k}) !! (done + {k})
  {
  }

  lemma MergedAll<V>(base: map<string, V>, parsed: map<string, V>)
    ensures Merged(base, parsed, parsed.Keys) == base + parsed
  {
  }

  /** The second loop of `getAwards`: one list item per sorted record. */
  method AwardList(sorted: seq<Rule>) returns (listItems: seq<string>)
    ensures listItems == AwardItemsOf(sorted)
  {
    listItems := [];
    var j := 0;
    while j < |sorted|
      invariant 0 <= j <= |sorted|
      invariant |listItems| == j && forall k :: 0 <= k < j ==> listItems[k] == AwardItem(sorted[k])
    {
      listItems := listItems + [AwardItem(sorted[j])];
      j := j + 1;
    }
  }

  /**
   * The second loop of `getResolutions`: a record without a truthy resolution is skipped,
   * and so is one whose resolution has been seen; any other resolution is marked seen and
   * listed.
   */
  method ResolutionList(sorted: seq<Rule>) returns (listItems: seq<string>)
    ensures listItems == ResolutionItemsOf(Dedup(Resolutions(sorted)))
  {
    listItems := [];
    var seen: set<string> := {};
    var j := 0;
    while j < |sorted|
      invariant 0 <= j <= |sorted|
      invariant listItems == ResolutionItemsOf(Dedup(Resolutions(sorted[..j])))
      invariant forall x :: x in seen <==> x in Dedup(Resolutions(sorted[..j]))
    {
      ResolutionsStep(sorted, j);
      ghost var listed := Dedup(Resolutions(sorted[..j]));
      var a := sorted[j];
      if Truthy(a.resolution) {
        var res := a.resolution.value;
        DedupStep(Resolutions(sorted[..j]), res);
        if res !in seen {
          ResolutionItemsAppend(listed, res);
          seen := seen + {res};
          listItems := listItems + [ResolutionItem(res)];
        }
      } else {
        assert Resolutions(sorted[..j + 1]) == Resolutions(sorted[..j]);
      }
      j := j + 1;
    }
    assert sorted[..j] == sorted;
  }

  /**
   * The first loop of `getResolutions`, on the table it reads: each non-empty code found
   * in the table has its record pushed.
   */
  method CollectFrom(table: Option<Table>, nums: seq<string>) returns (awards: Option<seq<Rule>>)
    ensures awards.None? <==> Throws(table, nums)
    ensures awards.Some? ==>
      var t := table.GetOr(map[]);
      awards.value == RecordsOf(t, KnownCodes(t, nums))
  {
    ghost var t := table.GetOr(map[]);
    var pushed: seq<Rule> := [];
    var i := 0;
    while i < |nums|
      invariant 0 <= i <= |nums|
      invariant table.None? ==> forall k :: 0 <= k < i ==> nums[k] == ""
      invariant StoredRecords(t, KnownCodes(t, nums[..i]), pushed)
    {
      var a := nums[i];
      if a != "" && table.None? {
        return None;
      }
      if a != "" && a in table.value {
        KnownCodesNext(t, nums, i);
        StoredExtends(t, KnownCodes(t, nums[..i]), pushed, a);
        pushed := pushed + [table.value[a]];
      } else {
        KnownCodesSkip(t, nums, i);
      }
      i := i + 1;
    }
    assert nums[..i] == nums;
    if table.None? {
      NoCodesWithoutTable(nums);
    }
    StoredAreRecordsOf(t, KnownCodes(t, nums), pushed);
    awards := Some(pushed);
  }

  /**
   * The first loop of `getAwards` on the table it updates: each non-empty code found in
   * the table gets its code written into the record's `id`, and the record is pushed.
   * A non-empty code while the table is undefined throws before anything is written.
   */
  method StampFrom(table: Option<Table>, nums: seq<string>) returns (stamped: Option<Table>, awards: Option<seq<Rule>>)
    ensures awards.None? <==> Throws(table, nums)
    ensures awards.Some? ==>
      var t := table.GetOr(map[]);
      awards.value == RecordsOf(StampIds(t, nums), KnownCodes(t, nums))
    ensures stamped == StampedTable(table, nums)
  {
    ghost var t := table.GetOr(map[]);
    stamped := table;
    var pushed: seq<Rule> := [];
    var i := 0;
    StampNothing(t);
    assert nums[..0] == [];
    while i < |nums|
      invariant 0 <= i <= |nums|
      invariant table.None? ==> stamped == None && forall k :: 0 <= k < i ==> nums[k] == ""
      invariant table.Some? ==> stamped == Some(StampIds(t, nums[..i]))
      invariant PushedRecords(t, KnownCodes(t, nums[..i]), pushed)
    {
      var a := nums[i];
      if a != "" && stamped.None? {
        return None, None;
      }
      if a != "" && a in stamped.value {
        KnownCodesNext(t, nums, i);
        StampNext(t, nums, i);
        PushedExtends(t, KnownCodes(t, nums[..i]), pushed, a);
        StampAgain(t, nums[..i], a);
        var record := stamped.value[a].(id := Some(a));
        stamped := Some(stamped.value[a := record]);
        pushed := pushed + [record];
      } else {
        KnownCodesSkip(t, nums, i);
        StampSkip(t, nums, i);
      }
      i := i + 1;
    }
    assert nums[..i] == nums;
    if table.None? {
      NoCodesWithoutTable(nums);
    }
    PushedAreStampedRecords(t, nums, pushed);
    awards := Some(pushed);
  }

  /**
   * The loop of `load_karma_ini` on the table it writes into: each key of the section is
   * parsed and overwrites that key, one key at a time.
   */
  method MergeSection<V>(table: map<string, V>, sec: map<string, string>, parse: string -> V)
    returns (merged: map<string, V>)
    ensures merged == table + ParsedBy(sec, parse)
  {
    merged := table;
    ghost var parsed := ParsedBy(sec, parse);
    var todo := sec.Keys;
    ghost var done: set<string> := {};
    MergedNothing(table, parsed);
    while todo != {}
      invariant todo + done == sec.Keys && todo !! done
      invariant merged == Merged(table, parsed, done)
      decreases |todo|
    {
      var anum :| anum in todo;
      MergedStep(table, parsed, done, anum);
      MoveKey(todo, done, sec.Keys, anum);
      merged := merged[anum := parse(sec[anum])];
      todo := todo - {anum};
      done := done + {anum};
    }
    assert done == parsed.Keys;
    MergedAll(table, parsed);
  }

  class Plugin {
    /** `plugin.result_awards`: undefined (None) until a karma.ini with the section is loaded. */
    var resultAwards: Option<Table>

    /** `register`: the table starts undefined, then karma.ini is loaded. */
    constructor (section: Option<map<string, string>>)
      ensures resultAwards == Reload(None, section)
    {
      resultAwards := None;
      new;
      LoadKarma(section);
    }

    /**
     * `load_karma_ini` on the parsed `[result_awards]` section (None when karma.ini has
     * none): every rule of the section is parsed into the table, which is created empty
     * when it is undefined.
     */
    method LoadKarma(section: Option<map<string, string>>)
      modifies this
      ensures resultAwards == Reload(old(resultAwards), section)
    {
      if section.None? {
        return;
      }
      var merged := MergeSection(resultAwards.GetOr(map[]), section.value, ParseRule);
      ReloadMerges(resultAwards, section.value);
      resultAwards := Some(merged);
    }

    /**
     * `getAwards(nums)`: the records of the codes resolved, with their `id` written, are
     * sorted by award and each is rendered as a list item. None when a code is looked up
     * in an undefined table.
     */
    method GetAwards(nums: seq<string>) returns (items: Option<seq<string>>)
      modifies this
      ensures items == AwardItems(old(resultAwards), nums)
      ensures resultAwards == StampedTable(old(resultAwards), nums)
    {
      if nums == [] {
        if resultAwards.Some? {
          StampNothing(resultAwards.value);
        }
        return Some([]);
      }
      var awards := StampAndCollect(nums);
      if awards.None? {
        return None;
      }
      var sorted := Awards.Sort(awards.value);
      var listItems := AwardList(sorted);
      items := Some(listItems);
    }

    /**
     * The first loop of `getAwards`: each non-empty code found in the table gets its code
     * written into the record's `id`, and the record is pushed.
     */
    method StampAndCollect(nums: seq<string>) returns (awards: Option<seq<Rule>>)
      modifies this
      ensures awards.None? <==> Throws(old(resultAwards), nums)
      ensures awards.Some? ==>
        var t := old(resultAwards).GetOr(map[]);
        awards.value == RecordsOf(StampIds(t, nums), KnownCodes(t, nums))
      ensures resultAwards == StampedTable(old(resultAwards), nums)
    {
      var stamped;
      stamped, awards := StampFrom(resultAwards, nums);
      resultAwards := stamped;
    }

    /**
     * `getResolutions(nums)`: the records of the codes resolved, sorted by award; each
     * truthy resolution not listed yet becomes a list item. None when a code is looked up
     * in an undefined table.
     */
    method GetResolutions(nums: seq<string>) returns (items: Option<seq<string>>)
      ensures items == ResolutionItems(resultAwards, nums)
    {
      if nums == [] {
        return Some([]);
      }
      var awards := CollectFrom(resultAwards, nums);
      if awards.None? {
        return None;
      }
      var sorted := Awards.Sort(awards.value);
      var listItems := ResolutionList(sorted);
      items := Some(listItems);
    }

    /**
     * `asHtml(uuid, matched)`: the loop over the lines, the award codes of the decision
     * line, the award list (which stamps the table) and then the resolution list.
     */
    method AsHtml(uuid: string, matched: string) returns (html: Option<string>)
      modifies this
      ensures html == Report(old(resultAwards), uuid, matched)
      ensures resultAwards == StampedTable(old(resultAwards), AwardCodes(LastKarmaOf(SplitOn(matched, '\n'))))
    {
      var rawLogs, monthDay, lastKarmaLine := NormaliseLines(matched);
      var awardNums := AwardCodes(lastKarmaLine);
      var awards := GetAwards(awardNums);
      if awards.None? {
        return None;
      }
      var resolve := GetResolutions(awardNums);
      assert resolve.Some?;
      html := Some(Page(Title(uuid, monthDay), Concat(awards.value), Concat(resolve.value), rawLogs));
    }

    /**
     * `get_logs` for the id in the request path: an id that fails the gate is answered
     * with the Invalid Request page and nothing is searched; otherwise the log is searched
     * for the id without its `.N` suffix. `grep` stands for the output of
     * `grep --text key logfile`; `searched` is the key it was run with.
     */
    method GetLogs(uuid: string, grep: string -> string) returns (page: Option<string>, searched: Option<string>)
      modifies this
      ensures searched.Some? <==> IsValidId(uuid)
      ensures !IsValidId(uuid) ==> page == Some(INVALID_REQUEST_PAGE) && resultAwards == old(resultAwards)
      ensures IsValidId(uuid) ==>
        && searched == Some(SearchKey(uuid))
        && page == Report(old(resultAwards), uuid, grep(SearchKey(uuid)))
        && resultAwards == StampedTable(old(resultAwards), AwardCodes(LastKarmaOf(SplitOn(grep(SearchKey(uuid)), '\n'))))
    {
      if !HasDash(uuid) {
        return Some(INVALID_REQUEST_PAGE), None;
      }
      if !MatchesIdPattern(uuid) {
        return Some(INVALID_REQUEST_PAGE), None;
      }
      var key := SearchKey(uuid);
      var matched := grep(key);
      searched := Some(key);
      page := AsHtml(uuid, matched);
    }
  }
}

module LogReaderProperties {
  import opened Wrappers
  import opened Text
  import opened RuleTable
  import opened Awards
  import opened AwardsProperties
  import opened LogReader

  /** With no table nothing is stamped. */
  lemma StampEmptyTable(nums: seq<string>)
    ensures StampIds(map[], nums) == map[]
  {
  }

  /**
   * The award text `asHtml` hands to `htmlBody` is non-empty exactly when some code of
   * the decision line is non-empty and in the table.
   */
  lemma AwardTextIffKnownCode(t: Option<Table>, nums: seq<string>)
    requires !Throws(t, nums)
    ensures Concat(AwardItems(t, nums).value) == "" <==> KnownCodes(t.GetOr(map[]), nums) == []
  {
    if nums != [] {
      AwardListEmptyIffNoKnownCode(t.GetOr(map[]), nums);
    }
  }

  /**
   * The resolution text `asHtml` hands to `htmlBody` is non-empty exactly when the record
   * of some code found in the table has a truthy resolution; the `id` that `getAwards`
   * wrote into the table before does not change which.
   */
  lemma ResolutionTextIffResolution(t: Option<Table>, nums: seq<string>)
    requires !Throws(t, nums)
    ensures var m := t.GetOr(map[]);
      Concat(ResolutionItems(StampedTable(t, nums), nums).value) == "" <==>
        forall c :: c in KnownCodes(m, nums) ==> !Truthy(m[c].resolution)
  {
    var m := t.GetOr(map[]);
    var u := StampIds(m, nums);
    if t.None? {
      StampEmptyTable(nums);
    }
    assert StampedTable(t, nums).GetOr(map[]) == u;
    if nums != [] {
      ResolutionListEmptyIffNoResolution(u, nums);
    }
    KnownCodesSameKeys(m, u, nums);
  }
}

