/** Page construction (src/UpdatePage.ts:155-221): the information banner
    `addPrefix` puts in front of the markup, the blank scaffold
    `newBlankPage` creates pages from, and the record update
    `sendPageToConfluence` applies before it calls the remote side. */
module PageBuilder {
  import opened Wrappers
  import opened JsStrings
  import opened ConfluenceTypes
  import opened VersionNumbers

  /** The text before the prefix in the banner. */
  const BannerOpen := "<ac:structured-macro ac:name=\"info\" ac:schema-version=\"1\"><ac:rich-text-body>\n<p>"

  /** The text between the prefix and the markup. */
  const BannerClose := "</p>\n</ac:rich-text-body></ac:structured-macro>\n\n"

  /** The banner for a prefix. */
  function Banner(prefix: string): string {
    BannerOpen + prefix + BannerClose
  }

  /** `addPrefix(config, md)`: the markup under an information banner holding
      the prefix, unless the prefix is empty. */
  function AddPrefix(config: Config, md: string): (r: string)
    ensures config.prefix == "" <==> r == md
    ensures |r| >= |md| && r[|r| - |md|..] == md
    ensures config.prefix != "" ==> StartsWith(r, Banner(config.prefix))
    ensures config.prefix != "" ==> |r| == |Banner(config.prefix)| + |md|
  {
    if config.prefix == "" then md
    else
      var b := Banner(config.prefix);
      assert (b + md)[|b|..] == md;
      assert (b + md)[..|b|] == b;
      b + md
  }

  /** The markup can be read back from the prefixed text, so two different
      documents never share a prefixed text. */
  lemma AddPrefixInjective(config: Config, a: string, b: string)
    requires AddPrefix(config, a) == AddPrefix(config, b)
    ensures a == b
  {
    if config.prefix != "" {
      var ban := Banner(config.prefix);
      assert a == (ban + a)[|ban|..];
      assert b == (ban + b)[|ban|..];
    }
  }

  /** `newBlankPage(space)`: an empty page at version 1 without ancestors. */
  function NewBlankPage(space: Space): (p: ConfluencePage)
    ensures p.version == Some("1") && p.ancestors.None? && p.space == space
    ensures p.title == "" && p.body.value == ""
  {
    ConfluencePage("", "page", Storage("", "storage"), Some("1"), None, space)
  }

  /** The record update `sendPageToConfluence` applies once it knows the page
      has a title: title and body are replaced, the ancestors only when a
      parent is configured, the version is bumped when there is one, and the
      type and space are kept. */
  function PreparePage(cp: ConfluencePage, page: Page, md: string): (r: ConfluencePage)
    requires Truthy(page.title)
    ensures r.title == page.title.value && r.body == Storage(md, "storage")
    ensures r.pageType == cp.pageType && r.space == cp.space
    ensures Truthy(page.parentId) ==> r.ancestors == Some([page.parentId.value])
    ensures !Truthy(page.parentId) ==> r.ancestors == cp.ancestors
    ensures r.version.Some? <==> cp.version.Some?
    ensures cp.version.Some? && ParseInt(cp.version.value).Some? ==>
      ParseInt(r.version.value) == Some(ParseInt(cp.version.value).value + 1)
  {
    ConfluencePage(
      page.title.value,
      cp.pageType,
      Storage(md, "storage"),
      if cp.version.Some? then Some(IncreaseVersionNumber(cp.version.value)) else None,
      if Truthy(page.parentId) then Some([page.parentId.value]) else cp.ancestors,
      cp.space)
  }

  /** A page created from the blank scaffold is sent at version 2: the bump
      is applied before the create call. */
  lemma BlankPageSentAtVersionTwo(space: Space, page: Page, md: string)
    requires Truthy(page.title)
    ensures PreparePage(NewBlankPage(space), page, md).version == Some("2")
  {
    VersionOneSentAsTwo(NewBlankPage(space), page, md);
  }

  lemma VersionOneSentAsTwo(cp: ConfluencePage, page: Page, md: string)
    requires Truthy(page.title) && cp.version == Some("1")
    ensures PreparePage(cp, page, md).version == Some("2")
  {
    IncreaseDecimal(1);
    assert Decimal(1) == "1";
    assert Decimal(2) == "2";
  }

  /** Preparing twice differs from preparing once only in the version, which
      moves on by one more. */
  lemma PrepareTwice(cp: ConfluencePage, page: Page, md: string, n: nat)
    requires Truthy(page.title) && cp.version == Some(Decimal(n))
    ensures var once := PreparePage(cp, page, md);
      var twice := PreparePage(once, page, md);
      twice.(version := once.version) == once && twice.version == Some(Decimal(n + 2))
  {
    IncreaseDecimal(n);
    IncreaseDecimal(n + 1);
  }
}
