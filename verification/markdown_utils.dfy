/** The level-one heading parser of src/utils/MarkdownUtils.ts (duplicated
    verbatim in src/UpdatePage.ts): the regular expression
    `/^# ?(?<title>[^\n\r]+)/`, anchored at the start of the whole text,
    followed by removal of the matched text. */
module MarkdownUtils {
  import opened Wrappers

  const MissingTitle := "Missing title property in config and no title found in markdown."

  /** The characters `[^\n\r]` refuses. */
  predicate IsBreak(c: char) {
    c == '\n' || c == '\r'
  }

  predicate NoBreak(s: string) {
    forall i :: 0 <= i < |s| ==> !IsBreak(s[i])
  }

  /** The first line break at or after `from`, or the end of the text. */
  function LineEnd(s: string, from: nat): (e: nat)
    requires from <= |s|
    ensures from <= e <= |s|
    ensures e == |s| || IsBreak(s[e])
    decreases |s| - from
  {
    if from == |s| || IsBreak(s[from]) then from else LineEnd(s, from + 1)
  }

  lemma {:induction false} LineEndSkipsNoBreak(s: string, from: nat)
    requires from <= |s|
    ensures NoBreak(s[from..LineEnd(s, from)])
    decreases |s| - from
  {
    if !(from == |s| || IsBreak(s[from])) {
      LineEndSkipsNoBreak(s, from + 1);
      assert s[from..LineEnd(s, from)] == [s[from]] + s[from + 1..LineEnd(s, from + 1)];
    }
  }

  /** The pair `[title, rest]` the extractor returns. */
  datatype Heading = Heading(title: string, rest: string)

  /** Where the title starts: the optional space after `#` is taken only when
      at least one title character follows it on the same line; otherwise the
      regular expression backtracks and the space becomes the title. */
  function TitleStart(fileData: string): nat
    requires |fileData| >= 2
  {
    if fileData[1] == ' ' && |fileData| > 2 && !IsBreak(fileData[2]) then 2 else 1
  }

  /** `extractTitle(fileData)`: throws unless the text starts with `#` followed
      by at least one character that is not a line break. */
  function ExtractTitle(fileData: string): (r: Result<Heading>)
    ensures r.Failure? <==> |fileData| < 2 || fileData[0] != '#' || IsBreak(fileData[1])
    ensures r.Success? ==> |r.value.title| > 0 && NoBreak(r.value.title)
    ensures r.Success? ==> r.value.rest == [] || IsBreak(r.value.rest[0])
    ensures r.Success? ==>
      fileData == "#" + r.value.title + r.value.rest || fileData == "# " + r.value.title + r.value.rest
  {
    if |fileData| < 2 || fileData[0] != '#' || IsBreak(fileData[1]) then
      Failure(MissingTitle)
    else
      var start := TitleStart(fileData);
      var e := LineEnd(fileData, start);
      LineEndSkipsNoBreak(fileData, start);
      assert fileData == fileData[..start] + fileData[start..e] + fileData[e..];
      assert start == 2 ==> fileData[..start] == "# ";
      assert start == 1 ==> fileData[..start] == "#";
      Success(Heading(fileData[start..e], fileData[e..]))
  }

  /** The space after `#` is consumed exactly when a title character follows
      it; the reassembly is then unique. */
  lemma SpaceConsumedIff(fileData: string)
    requires ExtractTitle(fileData).Success?
    ensures var h := ExtractTitle(fileData).value;
      (fileData == "# " + h.title + h.rest) <==> (fileData[1] == ' ' && |fileData| > 2 && !IsBreak(fileData[2]))
  {
    var h := ExtractTitle(fileData).value;
    var start := TitleStart(fileData);
    var e := LineEnd(fileData, start);
    assert h == Heading(fileData[start..e], fileData[e..]);
    assert |fileData| == start + |h.title| + |h.rest|;
  }

  /** Only the very start of the text is examined: a heading after any other
      first character is not found. */
  lemma HeadingMustLead(before: string, heading: string)
    requires |before| > 0 && before[0] != '#'
    ensures ExtractTitle(before + heading).Failure?
  {
    assert (before + heading)[0] == before[0];
  }

  lemma Examples()
    ensures ExtractTitle("# Intro\nx") == Success(Heading("Intro", "\nx"))
    ensures ExtractTitle("#Intro") == Success(Heading("Intro", ""))
    ensures ExtractTitle("## Sub") == Success(Heading("# Sub", ""))
    ensures ExtractTitle("# \nx") == Success(Heading(" ", "\nx"))
    ensures ExtractTitle("#").Failure? && ExtractTitle("#\nTitle").Failure?
  {
    var a := "# Intro\nx";
    assert LineEnd(a, 2) == 7 by {
      assert a[2] == 'I' && a[3] == 'n' && a[4] == 't' && a[5] == 'r' && a[6] == 'o' && a[7] == '\n';
    }
    assert a[2..7] == "Intro" && a[7..] == "\nx";
    var b := "#Intro";
    assert LineEnd(b, 6) == 6;
    assert LineEnd(b, 4) == LineEnd(b, 5) == 6;
    assert LineEnd(b, 2) == LineEnd(b, 3) == 6;
    assert LineEnd(b, 1) == 6;
    assert b[1..6] == "Intro";
    var c := "## Sub";
    assert LineEnd(c, 6) == 6;
    assert LineEnd(c, 4) == LineEnd(c, 5) == 6;
    assert LineEnd(c, 2) == LineEnd(c, 3) == 6;
    assert LineEnd(c, 1) == 6;
    assert c[1..6] == "# Sub";
    var d := "# \nx";
    assert TitleStart(d) == 1;
    assert LineEnd(d, 1) == 2;
    assert d[1..2] == " " && d[2..] == "\nx";
  }
}
