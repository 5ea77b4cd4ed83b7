/**
 * `htmlHead` and `htmlBody`: the fixed page around the award list, the resolution list
 * and the normalised log lines. The header markup is carried as an opaque constant.
 */
module Html {
  import opened Text

  /** The literal `htmlHead` returns (index.js:232-240, line continuations removed). */
  const HTML_HEAD: string := "<html>         <head>           <meta charset=\"utf-8\">           <link rel=\"stylesheet\" href=\"/haraka/css/bootstrap.min.css\">           <link rel=\"stylesheet\" href=\"/haraka/css/bootstrap-theme.min.css\">           <style>             div { padding: 1em; }           </style>         </head>"

  /** The apology every body opens with. */
  const BODY_INTRO: string := "<body>         <div class=\"tab-content\">         <h3>Sorry if we blocked your message:</h3>         <p>Our filters mistook your server for a malicious computer attempting         to send spam. To improve your mail servers reputation, please contact         your IT helpdesk or Systems Administrator and ask them for help.</p>"

  /** Opens the "Policy Rules Matched" list. */
  const AWARDS_OPEN: string := "<hr><h3>Policy Rules Matched</h3>         <ul>"

  /** Opens the "Steps to Resolve" list. */
  const RESOLVE_OPEN: string := "<hr><h3>Steps to Resolve</h3>         <ul>"

  const LIST_CLOSE: string := "</ul>"

  /** Opens the raw log section, before the title paragraph. */
  const RAW_LOGS_OPEN: string := "<hr>         <h3>Raw Logs</h3>         <p>"

  /** Closes the title paragraph and opens the `pre` block the log lines go in. */
  const RAW_LOGS_PRE: string := "</p>         <pre>         \n"

  /** What `asHtml` appends after the log lines. */
  const PAGE_END: string := "</pre></div></body></html>"

  /** The answer to a transaction id that fails the gate. */
  const INVALID_REQUEST_PAGE: string := "<html><body>Invalid Request</body></html>"

  /** An optional list section: present only when its joined items are non-empty (truthy). */
  function Section(open: string, items: string): string {
    if items == "" then "" else open + items + LIST_CLOSE
  }

  /**
   * `htmlBody(title, awards, resolve)`: the apology, the award section when `awards` is
   * non-empty, the resolution section when `resolve` is non-empty, then the raw log
   * heading with the title, leaving the `pre` block open.
   */
  function HtmlBody(title: string, awards: string, resolve: string): string {
    BODY_INTRO + Section(AWARDS_OPEN, awards) + Section(RESOLVE_OPEN, resolve) + RAW_LOGS_OPEN + title + RAW_LOGS_PRE
  }

  /** The title paragraph: `for connection ${uuid} on ${monthDay}`. */
  function Title(uuid: string, monthDay: string): string {
    "for connection " + uuid + " on " + monthDay
  }

  /** The whole page `asHtml` hands to its callback. */
  function Page(title: string, awards: string, resolve: string, rawLogs: string): string {
    HTML_HEAD + HtmlBody(title, awards, resolve) + rawLogs + PAGE_END
  }
}

module HtmlProperties {
  import opened Text
  import opened Html

  /** Two literals that differ at a position both cover cannot both start at one place. */
  lemma LiteralsClash(s: string, i: nat, a: string, b: string, k: nat)
    requires k < |a| && k < |b| && a[k] != b[k]
    requires StartsAt(s, i, b)
    ensures !StartsAt(s, i, a)
  {
    assert s[i + k] == b[k] by {
      assert s[i..i + |b|][k] == b[k];
    }
  }

  /** A literal the second part starts with starts right after the first part. */
  lemma StartsAfter(a: string, b: string, lit: string)
    requires StartsAt(b, 0, lit)
    ensures StartsAt(a + b, |a|, lit)
  {
    assert (a + b)[|a|..|a| + |lit|] == b[..|lit|];
  }

  /** A literal a string starts with also starts anything that string begins. */
  lemma StartsBefore(a: string, b: string, lit: string)
    requires StartsAt(a, 0, lit)
    ensures StartsAt(a + b, 0, lit)
  {
    assert (a + b)[..|lit|] == a[..|lit|];
  }

  /** A string starts with itself. */
  lemma StartsWithSelf(lit: string)
    ensures StartsAt(lit, 0, lit)
  {
    assert lit[..|lit|] == lit;
  }

  /** The body's layout for any literals, so that the proofs need not read them. */
  function Layout(intro: string, awardsOpen: string, resolveOpen: string, rawOpen: string,
                  title: string, pre: string, awards: string, resolve: string): string {
    intro + Section(awardsOpen, awards) + Section(resolveOpen, resolve) + rawOpen + title + pre
  }

  /** The opening texts tell the three possible successors of the apology apart. */
  predicate Distinct(awardsOpen: string, resolveOpen: string, rawOpen: string) {
    |awardsOpen| > 8 && |resolveOpen| > 8 && |rawOpen| > 4 &&
    awardsOpen[8] != resolveOpen[8] && awardsOpen[4] != rawOpen[4] && resolveOpen[4] != rawOpen[4]
  }

  /** A present section starts with its opening text, whatever follows it. */
  lemma SectionStarts(open: string, items: string, rest: string)
    requires items != ""
    ensures StartsAt(Section(open, items) + rest, 0, open)
  {
    StartsWithSelf(open);
    StartsBefore(open, items + LIST_CLOSE + rest, open);
    assert Section(open, items) + rest == open + (items + LIST_CLOSE + rest);
  }

  /** The part after the apology and the award section: resolutions, raw log heading, title. */
  function Rest(resolveOpen: string, rawOpen: string, title: string, pre: string, resolve: string): string {
    Section(resolveOpen, resolve) + rawOpen + title + pre
  }

  lemma LayoutSplit(intro: string, awardsOpen: string, resolveOpen: string, rawOpen: string,
                    title: string, pre: string, awards: string, resolve: string)
    ensures Layout(intro, awardsOpen, resolveOpen, rawOpen, title, pre, awards, resolve) ==
      intro + (Section(awardsOpen, awards) + Rest(resolveOpen, rawOpen, title, pre, resolve))
  {
  }

  /** Without resolutions, the raw log heading comes next. */
  lemma RestWithoutResolutions(resolveOpen: string, rawOpen: string, title: string, pre: string)
    ensures StartsAt(Rest(resolveOpen, rawOpen, title, pre, ""), 0, rawOpen)
  {
    StartsWithSelf(rawOpen);
    StartsBefore(rawOpen, title + pre, rawOpen);
    assert Rest(resolveOpen, rawOpen, title, pre, "") == rawOpen + (title + pre);
  }

  /** With resolutions, their section comes next. */
  lemma RestWithResolutions(resolveOpen: string, rawOpen: string, title: string, pre: string, resolve: string)
    requires resolve != ""
    ensures StartsAt(Rest(resolveOpen, rawOpen, title, pre, resolve), 0, resolveOpen)
  {
    SectionStarts(resolveOpen, resolve, rawOpen + title + pre);
    assert Rest(resolveOpen, rawOpen, title, pre, resolve) == Section(resolveOpen, resolve) + (rawOpen + title + pre);
  }

  /** Without awards, no award section opens after the apology. */
  lemma NoAwardsSection(intro: string, awardsOpen: string, resolveOpen: string, rawOpen: string,
                        title: string, pre: string, resolve: string)
    requires Distinct(awardsOpen, resolveOpen, rawOpen)
    ensures !StartsAt(intro + Rest(resolveOpen, rawOpen, title, pre, resolve), |intro|, awardsOpen)
  {
    var rest := Rest(resolveOpen, rawOpen, title, pre, resolve);
    if resolve != "" {
      RestWithResolutions(resolveOpen, rawOpen, title, pre, resolve);
      StartsAfter(intro, rest, resolveOpen);
      LiteralsClash(intro + rest, |intro|, awardsOpen, resolveOpen, 8);
    } else {
      RestWithoutResolutions(resolveOpen, rawOpen, title, pre);
      StartsAfter(intro, rest, rawOpen);
      LiteralsClash(intro + rest, |intro|, awardsOpen, rawOpen, 4);
    }
  }

  lemma AwardsSectionAt(intro: string, awardsOpen: string, resolveOpen: string, rawOpen: string,
                        title: string, pre: string, awards: string, resolve: string)
    requires Distinct(awardsOpen, resolveOpen, rawOpen)
    ensures StartsAt(Layout(intro, awardsOpen, resolveOpen, rawOpen, title, pre, awards, resolve), |intro|, awardsOpen)
      <==> awards != ""
  {
    var rest := Rest(resolveOpen, rawOpen, title, pre, resolve);
    LayoutSplit(intro, awardsOpen, resolveOpen, rawOpen, title, pre, awards, resolve);
    if awards != "" {
      SectionStarts(awardsOpen, awards, rest);
      StartsAfter(intro, Section(awardsOpen, awards) + rest, awardsOpen);
    } else {
      assert Section(awardsOpen, awards) + rest == rest;
      NoAwardsSection(intro, awardsOpen, resolveOpen, rawOpen, title, pre, resolve);
    }
  }

  lemma ResolveSectionAt(intro: string, awardsOpen: string, resolveOpen: string, rawOpen: string,
                         title: string, pre: string, awards: string, resolve: string)
    requires Distinct(awardsOpen, resolveOpen, rawOpen)
    ensures StartsAt(Layout(intro, awardsOpen, resolveOpen, rawOpen, title, pre, awards, resolve),
                     |intro + Section(awardsOpen, awards)|, resolveOpen)
      <==> resolve != ""
  {
    var head := intro + Section(awardsOpen, awards);
    var rest := Rest(resolveOpen, rawOpen, title, pre, resolve);
    assert Layout(intro, awardsOpen, resolveOpen, rawOpen, title, pre, awards, resolve) == head + rest;
    if resolve != "" {
      RestWithResolutions(resolveOpen, rawOpen, title, pre, resolve);
      StartsAfter(head, rest, resolveOpen);
    } else {
      RestWithoutResolutions(resolveOpen, rawOpen, title, pre);
      StartsAfter(head, rest, rawOpen);
      LiteralsClash(head + rest, |head|, resolveOpen, rawOpen, 4);
    }
  }

  /** The award section follows the apology exactly when the joined award items are non-empty. */
  lemma AwardsSectionIffItems(title: string, awards: string, resolve: string)
    ensures StartsAt(HtmlBody(title, awards, resolve), |BODY_INTRO|, AWARDS_OPEN) <==> awards != ""
  {
    assert Distinct(AWARDS_OPEN, RESOLVE_OPEN, RAW_LOGS_OPEN);
    AwardsSectionAt(BODY_INTRO, AWARDS_OPEN, RESOLVE_OPEN, RAW_LOGS_OPEN, title, RAW_LOGS_PRE, awards, resolve);
  }

  /**
   * The resolution section follows the apology and the award section, if any, exactly when
   * the joined resolution items are non-empty.
   */
  lemma ResolveSectionIffItems(title: string, awards: string, resolve: string)
    ensures StartsAt(HtmlBody(title, awards, resolve), |BODY_INTRO| + |Section(AWARDS_OPEN, awards)|, RESOLVE_OPEN)
      <==> resolve != ""
  {
    assert Distinct(AWARDS_OPEN, RESOLVE_OPEN, RAW_LOGS_OPEN);
    ResolveSectionAt(BODY_INTRO, AWARDS_OPEN, RESOLVE_OPEN, RAW_LOGS_OPEN, title, RAW_LOGS_PRE, awards, resolve);
  }
}
