/** `convertToWikiFormat` (src/UpdatePage.ts:74-87): empty table cells are
    filled, the title is taken from the leading heading when the document
    has none configured, and the text is rendered. The renderer (`marked`
    with the wiki renderer) is a parameter. */
module WikiFormat {
  import opened Wrappers
  import opened JsStrings
  import opened ConfluenceTypes
  import opened MarkdownUtils

  /** The length of the match of `/\|[ ]*\|/` at the start of `s`. */
  function EmptyCellAt(s: string): (n: Option<nat>)
    ensures n.Some? ==> 2 <= n.value <= |s| && s[0] == '|' && s[n.value - 1] == '|'
  {
    if |s| == 0 || s[0] != '|' then None
    else
      var k := SpaceRun(s[1..]);
      if 1 + k < |s| && s[1 + k] == '|' then Some(k + 2) else None
  }

  const FilledCell := "|&nbsp;|"

  /** `text.replace(/\|[ ]*\|/g, "|&nbsp;|")`: each match, scanned left to
      right without overlap, becomes a cell holding a non-breaking space. A
      match consumes its closing bar, so `|||` becomes `|&nbsp;||`. */
  function FixEmptyCells(s: string): string
    decreases |s|
  {
    if |s| == 0 then ""
    else match EmptyCellAt(s)
      case Some(n) => FilledCell + FixEmptyCells(s[n..])
      case None => [s[0]] + FixEmptyCells(s[1..])
  }

  predicate NoBar(s: string) {
    forall i :: 0 <= i < |s| ==> s[i] != '|'
  }

  /** Text without a bar is left as it is. */
  lemma {:induction false} FixWithoutBar(s: string)
    requires NoBar(s)
    ensures FixEmptyCells(s) == s
    decreases |s|
  {
    if |s| > 0 {
      FixWithoutBar(s[1..]);
      assert [s[0]] + s[1..] == s;
    }
  }

  /** A bar, a run of spaces and a bar become one filled cell, and the scan
      resumes after the second bar. */
  lemma FixOneCell(w: string, rest: string)
    requires AllBlank(w)
    ensures FixEmptyCells("|" + w + "|" + rest) == FilledCell + FixEmptyCells(rest)
  {
    var s := "|" + w + "|" + rest;
    assert s[1..] == w + ("|" + rest);
    SpaceRunOfBlank(w, "|" + rest);
    assert s[1 + |w|] == '|';
    assert s[|w| + 2..] == rest;
  }

  /** The renderer's input and the page data it sees. */
  datatype Converted = Converted(page: Page, markup: string)

  /** `convertToWikiFormat(pageData, config)` once the file is read: throws
      exactly when the document has no title configured and its text does
      not start with a heading; the page data that comes back always has a
      title. */
  function ConvertToWikiFormat(source: string, page: Page, render: (string, Page) -> string): (r: Result<Converted>)
    ensures r.Failure? <==> !Truthy(page.title) && ExtractTitle(FixEmptyCells(source)).Failure?
    ensures r.Success? ==> Truthy(r.value.page.title)
    ensures r.Success? ==> r.value.page.(title := page.title) == page
    ensures r.Success? && Truthy(page.title) ==> r.value.page == page
  {
    var text := FixEmptyCells(source);
    if Truthy(page.title) then Success(Converted(page, render(text, page)))
    else match ExtractTitle(text)
      case Failure(e) => Failure(e)
      case Success(h) =>
        var titled := page.(title := Some(h.title));
        Success(Converted(titled, render(h.rest, titled)))
  }

  /** Without a configured title, the heading becomes the title and only the
      text after it is rendered. */
  lemma TitleFromHeading(title: string, body: string, page: Page, render: (string, Page) -> string)
    requires !Truthy(page.title) && |title| > 0 && NoBreak(title) && NoBar(title) && title[0] != ' '
    requires NoBar(body) && (|body| == 0 || IsBreak(body[0]))
    ensures ConvertToWikiFormat("# " + title + body, page, render)
      == Success(Converted(page.(title := Some(title)), render(body, page.(title := Some(title)))))
  {
    var s := "# " + title + body;
    HeadingNoBar(title, body);
    FixWithoutBar(s);
    HeadingParsed(title, body);
  }

  lemma HeadingNoBar(title: string, body: string)
    requires NoBar(title) && NoBar(body)
    ensures NoBar("# " + title + body)
  {
  }

  /** A heading with one space before the title parses back into its parts. */
  lemma HeadingParsed(title: string, body: string)
    requires |title| > 0 && NoBreak(title) && title[0] != ' '
    requires |body| == 0 || IsBreak(body[0])
    ensures ExtractTitle("# " + title + body) == Success(Heading(title, body))
  {
    var s := "# " + title + body;
    assert s[0] == '#' && s[1] == ' ' && s[2] == title[0];
    var h := ExtractTitle(s).value;
    SpaceConsumedIff(s);
    HeadingTail(title, body, h.title, h.rest);
    HeadingSplit(title, body, h.title, h.rest);
  }

  lemma HeadingTail(t1: string, b1: string, t2: string, b2: string)
    requires "# " + t1 + b1 == "# " + t2 + b2
    ensures t1 + b1 == t2 + b2
  {
    assert t1 + b1 == ("# " + t1 + b1)[2..];
    assert t2 + b2 == ("# " + t2 + b2)[2..];
  }

  /** Two splits of the same text where both titles stop at the first line
      break coincide. */
  lemma HeadingSplit(t1: string, b1: string, t2: string, b2: string)
    requires t1 + b1 == t2 + b2
    requires NoBreak(t1) && NoBreak(t2)
    requires |b1| == 0 || IsBreak(b1[0])
    requires |b2| == 0 || IsBreak(b2[0])
    ensures t1 == t2 && b1 == b2
  {
    FirstBreak(t1, b1);
    FirstBreak(t2, b2);
    var s := t1 + b1;
    assert t1 == s[..|t1|] && t2 == s[..|t2|];
    assert b1 == s[|t1|..] && b2 == s[|t2|..];
  }

  /** Where a title that stops at a line break ends. */
  lemma FirstBreak(t: string, b: string)
    requires NoBreak(t) && (|b| == 0 || IsBreak(b[0]))
    ensures forall i :: 0 <= i < |t| ==> !IsBreak((t + b)[i])
    ensures |t| == |t + b| || IsBreak((t + b)[|t|])
  {
  }
}
