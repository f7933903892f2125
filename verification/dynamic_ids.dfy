/** Drift detection (src/UpdatePage.ts:33-41): `removeDynamicIds` deletes every
    match of `/ (ac:macro-)?id="[^"]+"/g`, and `isRemoteUpdateRequired`
    compares the normalised local and remote markup. */
module DynamicIds {
  import opened Wrappers
  import opened JsStrings

  const IdOpen := " id=\""
  const MacroIdOpen := " ac:macro-id=\""

  /** A dynamic-id attribute as it appears in markup: `name` is `id` or
      `ac:macro-id`. */
  function Attribute(name: string, value: string): string {
    " " + name + "=\"" + value + "\""
  }

  predicate IsDynamicIdName(name: string) {
    name == "id" || name == "ac:macro-id"
  }

  predicate QuoteFree(s: string) {
    forall i :: 0 <= i < |s| ==> s[i] != '"'
  }

  predicate SpaceFree(s: string) {
    forall i :: 0 <= i < |s| ==> s[i] != ' '
  }

  /** The index of the first `"` in `s`, or `|s|` when there is none. */
  function QuoteIndex(s: string): (k: nat)
    ensures k <= |s|
    ensures k < |s| ==> s[k] == '"'
    decreases |s|
  {
    if |s| == 0 || s[0] == '"' then 0 else 1 + QuoteIndex(s[1..])
  }

  lemma {:induction false} QuoteIndexOfQuoteFree(s: string, y: string)
    requires QuoteFree(s)
    ensures QuoteIndex(s + y) == |s| + QuoteIndex(y)
    decreases |s|
  {
    if |s| == 0 {
      assert s + y == y;
    } else {
      assert (s + y)[1..] == s[1..] + y;
      QuoteIndexOfQuoteFree(s[1..], y);
    }
  }

  lemma {:induction false} QuoteIndexBeforeQuoteFree(s: string, y: string)
    requires QuoteFree(y)
    ensures QuoteIndex(s) < |s| ==> QuoteIndex(s + y) == QuoteIndex(s)
    ensures QuoteIndex(s) == |s| ==> QuoteIndex(s + y) == |s + y|
    decreases |s|
  {
    if |s| == 0 {
      assert s + y == y;
      QuoteIndexOfQuoteFree(y, []);
      assert y + [] == y;
    } else {
      assert (s + y)[1..] == s[1..] + y;
      QuoteIndexBeforeQuoteFree(s[1..], y);
    }
  }

  /** The length matched by `[^"]+"` at the start of `s`. */
  function ValueLength(s: string): (m: Option<nat>)
  {
    var k := QuoteIndex(s);
    if 0 < k < |s| then Some(k + 1) else None
  }

  /** The length of the match of `/ (ac:macro-)?id="[^"]+"/` at the start of
      `s`. The optional group is tried first; when it matches but the value
      does not, the plain ` id="` alternative cannot match either. */
  function DynamicIdAt(s: string): (m: Option<nat>)
    ensures m.Some? ==> 0 < m.value <= |s|
  {
    if |s| == 0 || s[0] != ' ' then None
    else if StartsWith(s, MacroIdOpen) && ValueLength(s[|MacroIdOpen|..]).Some? then
      Some(|MacroIdOpen| + ValueLength(s[|MacroIdOpen|..]).value)
    else if StartsWith(s, IdOpen) && ValueLength(s[|IdOpen|..]).Some? then
      Some(|IdOpen| + ValueLength(s[|IdOpen|..]).value)
    else None
  }

  /** `removeDynamicIds(s)`: scans left to right, deleting each match and
      resuming after it. */
  function RemoveDynamicIds(s: string): (r: string)
    ensures |r| <= |s|
    decreases |s|
  {
    if |s| == 0 then ""
    else match DynamicIdAt(s)
      case Some(n) => RemoveDynamicIds(s[n..])
      case None => [s[0]] + RemoveDynamicIds(s[1..])
  }

  lemma KeepStep(s: string)
    requires |s| > 0 && DynamicIdAt(s) == None
    ensures RemoveDynamicIds(s) == [s[0]] + RemoveDynamicIds(s[1..])
  {
  }

  lemma DropStep(s: string, n: nat)
    requires |s| > 0 && DynamicIdAt(s) == Some(n)
    ensures RemoveDynamicIds(s) == RemoveDynamicIds(s[n..])
  {
  }

  /** One kept character in front of `t`. */
  lemma ConsStep(p: string, t: string)
    requires |p| > 0 && DynamicIdAt(p + t) == None
    ensures RemoveDynamicIds(p + t) == [p[0]] + RemoveDynamicIds(p[1..] + t)
  {
    KeepStep(p + t);
    TailOfAppend(p, t);
  }

  lemma TailOfAppend(p: string, t: string)
    requires |p| > 0
    ensures (p + t)[1..] == p[1..] + t
  {
  }

  lemma DropOfAppend(x: string, y: string, n: nat)
    requires n <= |x|
    ensures (x + y)[n..] == x[n..] + y
  {
  }

  lemma ConsAssoc(p: string, x: string)
    requires |p| > 0
    ensures [p[0]] + (p[1..] + x) == p + x
  {
    assert p == [p[0]] + p[1..];
  }

  lemma Assoc(a: string, b: string, c: string)
    ensures a + (b + c) == (a + b) + c
  {
  }

  /** A well-formed attribute with a non-empty value is deleted whole. */
  lemma RemovesAttribute(name: string, value: string, rest: string)
    requires IsDynamicIdName(name)
    requires |value| > 0 && QuoteFree(value)
    ensures RemoveDynamicIds(Attribute(name, value) + rest) == RemoveDynamicIds(rest)
  {
    var a := Attribute(name, value);
    AttributeMatches(name, value, rest);
    DropStep(a + rest, |a|);
    DropOfAppend(a, rest, |a|);
    assert a[|a|..] + rest == rest;
  }

  lemma AttributeMatches(name: string, value: string, rest: string)
    requires IsDynamicIdName(name)
    requires |value| > 0 && QuoteFree(value)
    ensures DynamicIdAt(Attribute(name, value) + rest) == Some(|Attribute(name, value)|)
  {
    var open := if name == "id" then IdOpen else MacroIdOpen;
    var x := value + ("\"" + rest);
    assert Attribute(name, value) + rest == open + x;
    OpenerValue(open, value, rest);
    if name == "id" {
      IdOpenIsNotMacroIdOpen(x);
    }
  }

  lemma OpenerValue(open: string, value: string, rest: string)
    requires |value| > 0 && QuoteFree(value)
    ensures StartsWith(open + (value + ("\"" + rest)), open)
    ensures ValueLength((open + (value + ("\"" + rest)))[|open|..]) == Some(|value| + 1)
  {
    var x := value + ("\"" + rest);
    assert (open + x)[..|open|] == open;
    assert (open + x)[|open|..] == x;
    QuoteIndexOfQuoteFree(value, "\"" + rest);
  }

  lemma IdOpenIsNotMacroIdOpen(x: string)
    ensures !StartsWith(IdOpen + x, MacroIdOpen)
  {
    assert (IdOpen + x)[1] == 'i';
  }

  /** An attribute with an empty value is left in place. */
  lemma KeepsEmptyAttribute(name: string, rest: string)
    requires IsDynamicIdName(name)
    ensures RemoveDynamicIds(Attribute(name, "") + rest) == Attribute(name, "") + RemoveDynamicIds(rest)
  {
    var a := Attribute(name, "");
    EmptyValueNoMatch(name, rest);
    ConsStep(a, rest);
    NoSpaceUnchangedPrefix(a[1..], rest);
    ConsAssoc(a, RemoveDynamicIds(rest));
  }

  lemma EmptyValueNoMatch(name: string, rest: string)
    requires IsDynamicIdName(name)
    ensures DynamicIdAt(Attribute(name, "") + rest) == None
    ensures SpaceFree(Attribute(name, "")[1..])
  {
    var open := if name == "id" then IdOpen else MacroIdOpen;
    var x := "\"" + rest;
    assert Attribute(name, "") + rest == open + x;
    OpenerEmptyValue(open, rest);
    if name == "id" {
      IdOpenIsNotMacroIdOpen(x);
    } else {
      MacroIdOpenIsNotIdOpen(x);
    }
  }

  lemma OpenerEmptyValue(open: string, rest: string)
    ensures ValueLength((open + ("\"" + rest))[|open|..]) == None
  {
    assert (open + ("\"" + rest))[|open|..] == "\"" + rest;
  }

  lemma MacroIdOpenIsNotIdOpen(x: string)
    ensures !StartsWith(MacroIdOpen + x, IdOpen)
  {
    assert (MacroIdOpen + x)[1] == 'a';
  }

  /** Text without a space character cannot start a match. */
  lemma {:induction false} NoSpaceUnchangedPrefix(p: string, rest: string)
    requires SpaceFree(p)
    ensures RemoveDynamicIds(p + rest) == p + RemoveDynamicIds(rest)
    decreases |p|
  {
    if |p| == 0 {
      assert p + rest == rest;
    } else {
      NoMatchWithoutSpace(p + rest);
      ConsStep(p, rest);
      NoSpaceUnchangedPrefix(p[1..], rest);
      ConsAssoc(p, RemoveDynamicIds(rest));
    }
  }

  lemma NoMatchWithoutSpace(s: string)
    requires |s| > 0 && s[0] != ' '
    ensures DynamicIdAt(s) == None
  {
  }

  /** The characters that follow the leading space of ` id="` or
      ` ac:macro-id="`. */
  predicate ContinuesOpener(c: char) {
    c in "id=\"ac:mro-"
  }

  /** Text whose first character cannot continue an attribute opener that
      began before it. */
  predicate SafeStart(t: string) {
    |t| == 0 || !ContinuesOpener(t[0])
  }

  lemma OpenerBlocked(p: string, t: string, open: string)
    requires open == IdOpen || open == MacroIdOpen
    requires |p| > 0 && QuoteFree(p) && SafeStart(t)
    ensures !StartsWith(p + t, open)
  {
    var s := p + t;
    if |p| >= |open| {
      assert s[|open| - 1] == p[|open| - 1] != open[|open| - 1];
    } else if |t| > 0 {
      assert s[|p|] == t[0];
      assert ContinuesOpener(open[|p|]);
    }
  }

  lemma NoMatchBeforeSafeStart(p: string, t: string)
    requires |p| > 0 && QuoteFree(p) && SafeStart(t)
    ensures DynamicIdAt(p + t) == None
  {
    OpenerBlocked(p, t, IdOpen);
    OpenerBlocked(p, t, MacroIdOpen);
  }

  /** Quote-free text before a safe start passes through unchanged, and the
      scan resumes exactly where it ends. */
  lemma {:induction false} QuoteFreePrefix(p: string, t: string)
    requires QuoteFree(p) && SafeStart(t)
    ensures RemoveDynamicIds(p + t) == p + RemoveDynamicIds(t)
    decreases |p|
  {
    if |p| == 0 {
      assert p + t == t;
    } else {
      NoMatchBeforeSafeStart(p, t);
      ConsStep(p, t);
      QuoteFreeTail(p);
      QuoteFreePrefix(p[1..], t);
      ConsAssoc(p, RemoveDynamicIds(t));
    }
  }

  lemma QuoteFreeTail(p: string)
    requires |p| > 0 && QuoteFree(p)
    ensures QuoteFree(p[1..])
  {
  }

  lemma DynamicIdAtBeforeQuoteFree(x: string, y: string, open: string)
    requires open == IdOpen || open == MacroIdOpen
    requires |x| > 0 && QuoteFree(y)
    ensures (StartsWith(x + y, open) && ValueLength((x + y)[|open|..]).Some?)
        <==> (StartsWith(x, open) && ValueLength(x[|open|..]).Some?)
    ensures StartsWith(x, open) && ValueLength(x[|open|..]).Some? ==>
        ValueLength((x + y)[|open|..]) == ValueLength(x[|open|..])
  {
    var s := x + y;
    if |x| >= |open| {
      assert s[..|open|] == x[..|open|];
      assert s[|open|..] == x[|open|..] + y;
      QuoteIndexBeforeQuoteFree(x[|open|..], y);
    } else if |s| >= |open| {
      assert s[|open| - 1] == y[|open| - 1 - |x|];
      assert open[|open| - 1] == '"';
    }
  }

  /** Quote-free text after `x` is never part of a match. */
  lemma {:induction false} QuoteFreeSuffix(x: string, y: string)
    requires QuoteFree(y)
    ensures RemoveDynamicIds(x + y) == RemoveDynamicIds(x) + y
    decreases |x|
  {
    if |x| == 0 {
      assert x + y == y;
      NoQuoteUnchanged(y);
    } else {
      SameMatchBeforeQuoteFree(x, y);
      match DynamicIdAt(x)
      case Some(n) =>
        DropStep(x + y, n);
        DropStep(x, n);
        DropOfAppend(x, y, n);
        QuoteFreeSuffix(x[n..], y);
      case None =>
        ConsStep(x, y);
        KeepStep(x);
        QuoteFreeSuffix(x[1..], y);
        Assoc([x[0]], RemoveDynamicIds(x[1..]), y);
    }
  }

  lemma SameMatchBeforeQuoteFree(x: string, y: string)
    requires |x| > 0 && QuoteFree(y)
    ensures DynamicIdAt(x + y) == DynamicIdAt(x)
  {
    DynamicIdAtBeforeQuoteFree(x, y, IdOpen);
    DynamicIdAtBeforeQuoteFree(x, y, MacroIdOpen);
  }

  lemma NoQuoteUnchanged(y: string)
    requires QuoteFree(y)
    ensures RemoveDynamicIds(y) == y
  {
    QuoteFreePrefix(y, []);
    assert y + [] == y;
  }

  /** Text with neither ` id="` nor ` ac:macro-id="` anywhere is unchanged. */
  lemma {:induction false} NoOpenerUnchanged(s: string)
    requires !Contains(s, IdOpen) && !Contains(s, MacroIdOpen)
    ensures RemoveDynamicIds(s) == s
    decreases |s|
  {
    if |s| > 0 {
      assert DynamicIdAt(s) == None;
      NoOpenerUnchanged(s[1..]);
      assert [s[0]] + s[1..] == s;
    }
  }

  /** Deleting one attribute can splice a new one together, so the function
      is not idempotent: ` i id="v"d="w"` becomes ` id="w"`, which a second
      pass deletes. */
  lemma NotIdempotent(v: string, w: string)
    requires |v| > 0 && QuoteFree(v) && |w| > 0 && QuoteFree(w) && SpaceFree(w)
    ensures RemoveDynamicIds(" i" + Attribute("id", v) + "d=\"" + w + "\"") == Attribute("id", w)
    ensures RemoveDynamicIds(Attribute("id", w)) == ""
  {
    var q := "d=\"" + w + "\"";
    SpliceShape(v, w, q);
    SplicedAttribute(" i", v, q);
    RemovesAttribute("id", w, "");
  }

  lemma SpliceShape(v: string, w: string, q: string)
    requires SpaceFree(w) && q == "d=\"" + w + "\""
    ensures " i" + Attribute("id", v) + "d=\"" + w + "\"" == " i" + (Attribute("id", v) + q)
    ensures QuoteFree(" i") && SpaceFree(q)
    ensures " i" + q == Attribute("id", w) + ""
  {
    assert q == "d=\"" + (w + "\"");
  }

  lemma SplicedAttribute(p: string, v: string, q: string)
    requires QuoteFree(p) && |v| > 0 && QuoteFree(v)
    requires SpaceFree(q)
    ensures RemoveDynamicIds(p + (Attribute("id", v) + q)) == p + q
  {
    QuoteFreePrefix(p, Attribute("id", v) + q);
    RemovesAttribute("id", v, q);
    NoSpaceUnchangedPrefix(q, "");
    assert q + "" == q;
  }

  /** The remote side's normalisation: dynamic ids removed, then trimmed. */
  function NormalizeRemote(s: string): string {
    Trim(RemoveDynamicIds(s))
  }

  /** The local side's normalisation additionally turns `&#39;` into `'`. */
  function NormalizeLocal(s: string): string {
    ReplaceAll(NormalizeRemote(s), "&#39;", "'")
  }

  /** `isRemoteUpdateRequired(newContent, page)` with `remoteBody` standing for
      `page.body.storage.value`. */
  predicate IsRemoteUpdateRequired(newContent: string, remoteBody: string) {
    NormalizeLocal(newContent) != NormalizeRemote(remoteBody)
  }

  /** Comparing markup with itself reports a change exactly when the
      normalised text still contains `&#39;`: the entity is decoded on the
      local side only. */
  lemma SelfComparison(x: string)
    ensures !IsRemoteUpdateRequired(x, x) <==> !Contains(NormalizeRemote(x), "&#39;")
  {
    ReplaceAllIsIdentityIff(NormalizeRemote(x), "&#39;", "'");
  }

  /** Markup holding `&#39;` and no attribute opener, with no whitespace at
      either end, is reported as changed when compared with itself. */
  lemma ApostropheReportedAsChange(x: string)
    requires |x| > 0 && !IsJsSpace(x[0]) && !IsJsSpace(x[|x| - 1])
    requires !Contains(x, IdOpen) && !Contains(x, MacroIdOpen)
    requires Contains(x, "&#39;")
    ensures IsRemoteUpdateRequired(x, x)
  {
    NoOpenerUnchanged(x);
    TrimUnpadded(x);
    SelfComparison(x);
  }

  /** Markup that differs only in the value of a dynamic-id attribute (or in
      which of the two names carries it) after a common text holding no
      opener, and whose tails normalise alike, is judged exactly as if it did
      not differ at all. That tails holding further attributes normalise
      alike follows from `StripsTo`, applied to each of them. */
  lemma IdValuesIgnored(p: string, n1: string, v1: string, q1: string, n2: string, v2: string, q2: string)
    requires !Contains(p, IdOpen) && !Contains(p, MacroIdOpen)
    requires IsDynamicIdName(n1) && IsDynamicIdName(n2)
    requires |v1| > 0 && QuoteFree(v1) && |v2| > 0 && QuoteFree(v2)
    requires RemoveDynamicIds(q1) == RemoveDynamicIds(q2)
    ensures IsRemoteUpdateRequired(p + Attribute(n1, v1) + q1, p + Attribute(n2, v2) + q2)
        == IsRemoteUpdateRequired(p + Attribute(n1, v1) + q1, p + Attribute(n1, v1) + q1)
  {
    StripsTo(p, n1, v1, q1);
    StripsTo(p, n2, v2, q2);
  }

  /** An attribute after text holding no opener is deleted whole. */
  lemma StripsTo(p: string, n: string, v: string, q: string)
    requires !Contains(p, IdOpen) && !Contains(p, MacroIdOpen)
    requires IsDynamicIdName(n) && |v| > 0 && QuoteFree(v)
    ensures RemoveDynamicIds(p + Attribute(n, v) + q) == p + RemoveDynamicIds(q)
  {
    assert p + Attribute(n, v) + q == p + (Attribute(n, v) + q);
    OpenerFreePrefix(p, Attribute(n, v) + q);
    RemovesAttribute(n, v, q);
  }

  /** Text holding no opener passes through unchanged when what follows it
      cannot complete an opener begun inside it; the scan resumes exactly
      where it ends. */
  lemma {:induction false} OpenerFreePrefix(p: string, t: string)
    requires !Contains(p, IdOpen) && !Contains(p, MacroIdOpen) && SafeStart(t)
    ensures RemoveDynamicIds(p + t) == p + RemoveDynamicIds(t)
    decreases |p|
  {
    if |p| == 0 {
      assert p + t == t;
    } else {
      OpenerCut(p, t, IdOpen);
      OpenerCut(p, t, MacroIdOpen);
      ConsStep(p, t);
      OpenerFreePrefix(p[1..], t);
      ConsAssoc(p, RemoveDynamicIds(t));
    }
  }

  /** An opener that does not start inside `p` cannot start there once `t`
      is appended. */
  lemma OpenerCut(p: string, t: string, open: string)
    requires open == IdOpen || open == MacroIdOpen
    requires |p| > 0 && !StartsWith(p, open) && SafeStart(t)
    ensures !StartsWith(p + t, open)
  {
    var s := p + t;
    if |p| >= |open| {
      assert s[..|open|] == p[..|open|];
    } else if |t| > 0 {
      assert s[|p|] == t[0];
      assert ContinuesOpener(open[|p|]);
    }
  }

  /** The start of a macro as the wiki renderer writes it, up to the place
      where its id attribute goes. */
  function MacroHead(name: string): string {
    "<ac:structured-macro" + (" " + MacroName(name))
  }

  function MacroName(name: string): string {
    "ac:name=\"" + name + "\""
  }

  /** The macro head, though it holds quotes and a space, is never part of a
      match. */
  lemma MacroHeadKept(name: string, t: string)
    requires SpaceFree(name)
    ensures RemoveDynamicIds(MacroHead(name) + t) == MacroHead(name) + RemoveDynamicIds(t)
  {
    var a := "<ac:structured-macro";
    var b := MacroName(name);
    MacroNameShape(name);
    Assoc(a, " " + b, t);
    Assoc(" ", b, t);
    NoSpaceUnchangedPrefix(a, " " + (b + t));
    NameNotOpener(b, t);
    SpaceStep(b + t);
    NoSpaceUnchangedPrefix(b, t);
    Assoc(" ", b, RemoveDynamicIds(t));
    Assoc(a, " " + b, RemoveDynamicIds(t));
  }

  lemma MacroNameShape(name: string)
    requires SpaceFree(name)
    ensures SpaceFree(MacroName(name)) && SpaceFree("<ac:structured-macro")
    ensures |MacroName(name)| > 4 && MacroName(name)[0] == 'a' && MacroName(name)[3] == 'n'
  {
  }

  lemma NameNotOpener(b: string, t: string)
    requires |b| > 4 && b[0] == 'a' && b[3] == 'n'
    ensures DynamicIdAt(" " + (b + t)) == None
  {
    var u := " " + (b + t);
    assert u[1] == b[0] && u[4] == b[3];
  }

  lemma SpaceStep(x: string)
    requires DynamicIdAt(" " + x) == None
    ensures RemoveDynamicIds(" " + x) == " " + RemoveDynamicIds(x)
  {
    KeepStep(" " + x);
    assert (" " + x)[1..] == x;
  }

  /** Two renderings of the same macro that differ only in its
      `ac:macro-id` value are not drift. */
  lemma MacroIdValuesIgnored(name: string, v1: string, q1: string, v2: string, q2: string)
    requires SpaceFree(name)
    requires |v1| > 0 && QuoteFree(v1) && |v2| > 0 && QuoteFree(v2)
    requires RemoveDynamicIds(q1) == RemoveDynamicIds(q2)
    ensures var x := MacroHead(name) + Attribute("ac:macro-id", v1) + q1;
      IsRemoteUpdateRequired(x, MacroHead(name) + Attribute("ac:macro-id", v2) + q2)
        == IsRemoteUpdateRequired(x, x)
  {
    MacroStrips(name, v1, q1);
    MacroStrips(name, v2, q2);
  }

  lemma MacroStrips(name: string, v: string, q: string)
    requires SpaceFree(name) && |v| > 0 && QuoteFree(v)
    ensures RemoveDynamicIds(MacroHead(name) + Attribute("ac:macro-id", v) + q)
      == MacroHead(name) + RemoveDynamicIds(q)
  {
    assert MacroHead(name) + Attribute("ac:macro-id", v) + q
      == MacroHead(name) + (Attribute("ac:macro-id", v) + q);
    MacroHeadKept(name, Attribute("ac:macro-id", v) + q);
    RemovesAttribute("ac:macro-id", v, q);
  }

  /** Markup that a space before it cannot turn into an attribute opener:
      both openers continue a space with `i` or `a`. */
  predicate CannotJoin(x: string) {
    |x| == 0 || (x[0] != 'i' && x[0] != 'a')
  }

  /** Whitespace around markup does not count as drift, provided the markup
      does not begin with `i` or `a`, which a trailing space of the padding
      would turn into an attribute opener. */
  lemma SurroundingSpaceIgnored(w1: string, x: string, w2: string, other: string)
    requires AllSpace(w1) && AllSpace(w2) && CannotJoin(x)
    ensures IsRemoteUpdateRequired(w1 + x + w2, other) == IsRemoteUpdateRequired(x, other)
    ensures IsRemoteUpdateRequired(other, w1 + x + w2) == IsRemoteUpdateRequired(other, x)
  {
    SpaceIsQuoteFree(w2);
    SpacePrefix(w1, x);
    QuoteFreeSuffix(w1 + x, w2);
    TrimIgnoresSurroundingSpace(w1, RemoveDynamicIds(x), w2);
  }

  /** Whitespace before markup that cannot join it passes through, and the
      scan resumes where it ends. */
  lemma {:induction false} SpacePrefix(w: string, x: string)
    requires AllSpace(w) && CannotJoin(x)
    ensures RemoveDynamicIds(w + x) == w + RemoveDynamicIds(x)
    decreases |w|
  {
    if |w| == 0 {
      assert w + x == x;
    } else {
      SpaceJoinBlocked(w, x);
      ConsStep(w, x);
      SpacePrefix(w[1..], x);
      ConsAssoc(w, RemoveDynamicIds(x));
    }
  }

  /** No match starts in whitespace followed by markup that cannot join it:
      the character after the opener's space is never `i` or `a`. */
  lemma SpaceJoinBlocked(w: string, x: string)
    requires |w| > 0 && AllSpace(w) && CannotJoin(x)
    ensures DynamicIdAt(w + x) == None
  {
    var s := w + x;
    if |s| >= 2 {
      if |w| >= 2 {
        assert s[1] == w[1];
      } else {
        assert s[1] == x[0];
      }
      assert s[1] != 'i' && s[1] != 'a';
      if |s| >= |IdOpen| {
        assert s[..|IdOpen|][1] == s[1] != IdOpen[1];
      }
      if |s| >= |MacroIdOpen| {
        assert s[..|MacroIdOpen|][1] == s[1] != MacroIdOpen[1];
      }
    }
  }

  lemma SpaceIsQuoteFree(w: string)
    requires AllSpace(w)
    ensures QuoteFree(w)
  {
    forall i | 0 <= i < |w| ensures w[i] != '"' {
      assert IsJsSpace(w[i]);
    }
  }

  /** Without the safe-start condition a leading space can complete an
      attribute opener: the padded markup normalises to nothing. */
  lemma LeadingSpaceCanJoinAttribute(v: string)
    requires |v| > 0 && QuoteFree(v) && SpaceFree(v)
    ensures IsRemoteUpdateRequired(" " + ("id=\"" + v + "\""), "id=\"" + v + "\"")
  {
    var r := "id=\"" + v + "\"";
    JoinShape(v, r);
    RemovesAttribute("id", v, "");
    NoSpaceUnchangedPrefix(r, "");
    TrimUnpadded(r);
    assert Trim(RemoveDynamicIds("")) == "";
  }

  lemma JoinShape(v: string, r: string)
    requires SpaceFree(v) && r == "id=\"" + v + "\""
    ensures " " + r == Attribute("id", v) + "" && r + "" == r
    ensures SpaceFree(r) && |r| > 0 && !IsJsSpace(r[0]) && !IsJsSpace(r[|r| - 1])
  {
    assert r == "id=\"" + (v + "\"");
  }
}
