/** Attachment reconciliation (src/UpdatePage.ts:43-63, 89-149): the image
    references of the rendered markup, the local files they name, the
    matching against the page's remote attachments, the delete and upload
    sets, and the final rewrite of the referenced file names. */
module Attachments {
  import opened Wrappers
  import opened JsStrings
  import opened ConfluenceTypes

  // ---------------------------------------------------------------------
  // File-name sanitising: `name.replace(/(\.\.|\/)/g, "_")`
  // ---------------------------------------------------------------------

  /** Each `..` and each `/`, scanned left to right without overlap, becomes
      one `_`. The alternation tries `..` first. */
  function Sanitize(s: string): (r: string)
    ensures |r| <= |s|
    decreases |s|
  {
    if |s| == 0 then ""
    else if StartsWith(s, "..") then "_" + Sanitize(s[2..])
    else if s[0] == '/' then "_" + Sanitize(s[1..])
    else [s[0]] + Sanitize(s[1..])
  }

  predicate NoSlash(s: string) {
    forall i :: 0 <= i < |s| ==> s[i] != '/'
  }

  /** Neither `/` nor `..` occurs: the names the remote side stores. */
  predicate IsClean(s: string) {
    NoSlash(s) && !Contains(s, "..")
  }

  lemma SanitizeDrop(s: string)
    requires StartsWith(s, "..")
    ensures Sanitize(s) == "_" + Sanitize(s[2..])
  {
  }

  lemma SanitizeSlash(s: string)
    requires |s| > 0 && !StartsWith(s, "..") && s[0] == '/'
    ensures Sanitize(s) == "_" + Sanitize(s[1..])
  {
  }

  lemma SanitizeKeep(s: string)
    requires |s| > 0 && !StartsWith(s, "..") && s[0] != '/'
    ensures Sanitize(s) == [s[0]] + Sanitize(s[1..])
  {
  }

  /** The output never holds a `/`. */
  lemma {:induction false} SanitizeNoSlash(s: string)
    ensures NoSlash(Sanitize(s))
    decreases |s|
  {
    if |s| > 0 {
      if StartsWith(s, "..") {
        SanitizeNoSlash(s[2..]);
        SanitizeDrop(s);
        ConsNoSlash('_', Sanitize(s[2..]));
      } else if s[0] == '/' {
        SanitizeNoSlash(s[1..]);
        SanitizeSlash(s);
        ConsNoSlash('_', Sanitize(s[1..]));
      } else {
        SanitizeNoSlash(s[1..]);
        SanitizeKeep(s);
        ConsNoSlash(s[0], Sanitize(s[1..]));
      }
    }
  }

  lemma ConsNoSlash(c: char, t: string)
    requires c != '/' && NoSlash(t)
    ensures NoSlash([c] + t)
  {
  }

  /** The output's first character is a dot only when the input's is a dot
      that does not start `..`. */
  lemma SanitizeHead(s: string)
    ensures |Sanitize(s)| > 0 && Sanitize(s)[0] == '.' ==> |s| > 0 && s[0] == '.' && !StartsWith(s, "..")
  {
  }

  lemma DotDotStart(s: string)
    ensures |s| >= 2 && s[0] == '.' && s[1] == '.' ==> StartsWith(s, "..")
  {
    if |s| >= 2 {
      assert s[..2] == [s[0], s[1]];
    }
  }

  /** The output never holds `..`. */
  lemma {:induction false} SanitizeNoDotDot(s: string)
    ensures !Contains(Sanitize(s), "..")
    decreases |s|
  {
    if |s| > 0 {
      if StartsWith(s, "..") {
        SanitizeNoDotDot(s[2..]);
        SanitizeDrop(s);
        ConsNoDotDot('_', Sanitize(s[2..]));
      } else if s[0] == '/' {
        SanitizeNoDotDot(s[1..]);
        SanitizeSlash(s);
        ConsNoDotDot('_', Sanitize(s[1..]));
      } else {
        SanitizeNoDotDot(s[1..]);
        SanitizeKeep(s);
        SanitizeHead(s[1..]);
        DotDotStart(s);
        ConsNoDotDot(s[0], Sanitize(s[1..]));
      }
    }
  }

  lemma ConsNoDotDot(c: char, t: string)
    requires !Contains(t, "..")
    requires c == '.' ==> |t| == 0 || t[0] != '.'
    ensures !Contains([c] + t, "..")
  {
    var s := [c] + t;
    assert s[1..] == t;
    if |t| > 0 {
      assert s[..2] == [c, t[0]];
    }
  }

  /** The output is always clean. */
  lemma SanitizeIsClean(s: string)
    ensures IsClean(Sanitize(s))
  {
    SanitizeNoSlash(s);
    SanitizeNoDotDot(s);
  }

  lemma ContainsTail(s: string, p: string)
    requires |s| > 0 && !Contains(s, p)
    ensures !Contains(s[1..], p) && !StartsWith(s, p)
  {
  }

  /** A clean name is left as it is. */
  lemma {:induction false} SanitizeCleanUnchanged(s: string)
    requires IsClean(s)
    ensures Sanitize(s) == s
    decreases |s|
  {
    if |s| > 0 {
      ContainsTail(s, "..");
      SanitizeKeep(s);
      SanitizeCleanUnchanged(s[1..]);
      assert [s[0]] + s[1..] == s;
    }
  }

  /** Sanitising twice is sanitising once. */
  lemma SanitizeIdempotent(s: string)
    ensures Sanitize(Sanitize(s)) == Sanitize(s)
  {
    SanitizeIsClean(s);
    SanitizeCleanUnchanged(Sanitize(s));
  }

  /** A name changes exactly when it holds a `/` or a `..`. */
  lemma SanitizeChangesIff(s: string)
    ensures Sanitize(s) == s <==> IsClean(s)
  {
    SanitizeIsClean(s);
    if IsClean(s) {
      SanitizeCleanUnchanged(s);
    }
  }

  /** A clean prefix that does not end in a dot passes through, and the scan
      resumes right after it. */
  lemma {:induction false} SanitizeCleanPrefix(x: string, y: string)
    requires IsClean(x) && (|x| == 0 || x[|x| - 1] != '.')
    ensures Sanitize(x + y) == x + Sanitize(y)
    decreases |x|
  {
    if |x| == 0 {
      assert x + y == y;
    } else {
      CleanPrefixStep(x, y);
      SanitizeCleanPrefix(x[1..], y);
      Assoc([x[0]], x[1..], Sanitize(y));
      assert [x[0]] + x[1..] == x;
    }
  }

  lemma CleanPrefixStep(x: string, y: string)
    requires |x| > 0 && IsClean(x) && x[|x| - 1] != '.'
    ensures IsClean(x[1..]) && (|x| == 1 || x[1..][|x| - 2] != '.')
    ensures Sanitize(x + y) == [x[0]] + Sanitize(x[1..] + y)
  {
    var s := x + y;
    ContainsTail(x, "..");
    assert s[1..] == x[1..] + y;
    assert s[0] == x[0];
    assert !StartsWith(s, "..") by {
      if |x| == 1 {
        assert s[0] == x[0] != '.';
      } else {
        assert s[..2] == x[..2];
      }
    }
    SanitizeKeep(s);
  }

  /** `../images/a.png` becomes `__images_a.png`: a parent step and a
      directory separator each leave one underscore. */
  lemma SanitizeExample(dir: string, file: string)
    requires |dir| > 0 && IsClean(dir) && dir[|dir| - 1] != '.'
    requires IsClean(file)
    ensures Sanitize("../" + dir + "/" + file) == "__" + dir + "_" + file
  {
    var r := dir + ("/" + file);
    ParentStep(r);
    SlashStep(r);
    SanitizeCleanPrefix(dir, "/" + file);
    SlashStep(file);
    SanitizeCleanUnchanged(file);
    ExampleShape(dir, file);
  }

  lemma ParentStep(r: string)
    ensures Sanitize("../" + r) == "_" + Sanitize("/" + r)
  {
    var s := "../" + r;
    assert s[..2] == ".." && s[2..] == "/" + r;
    SanitizeDrop(s);
  }

  lemma SlashStep(r: string)
    ensures Sanitize("/" + r) == "_" + Sanitize(r)
  {
    var s := "/" + r;
    assert s[0] == '/' && s[1..] == r;
    SanitizeSlash(s);
  }

  lemma ExampleShape(dir: string, file: string)
    ensures "../" + dir + "/" + file == "../" + (dir + ("/" + file))
    ensures "_" + ("_" + (dir + ("_" + file))) == "__" + dir + "_" + file
  {
  }

  /** Sanitising distributes over a split whose right part does not start
      with a dot. */
  lemma {:induction false} SanitizeAppend(x: string, y: string)
    requires |y| == 0 || y[0] != '.'
    ensures Sanitize(x + y) == Sanitize(x) + Sanitize(y)
    decreases |x|
  {
    if |x| == 0 {
      assert x + y == y;
    } else if StartsWith(x, "..") {
      AppendAfterDotDot(x, y);
      SanitizeDrop(x + y);
      SanitizeDrop(x);
      SanitizeAppend(x[2..], y);
      Assoc("_", Sanitize(x[2..]), Sanitize(y));
    } else {
      AppendAfterOther(x, y);
      SanitizeAppend(x[1..], y);
      if x[0] == '/' {
        SanitizeSlash(x + y);
        SanitizeSlash(x);
        Assoc("_", Sanitize(x[1..]), Sanitize(y));
      } else {
        SanitizeKeep(x + y);
        SanitizeKeep(x);
        Assoc([x[0]], Sanitize(x[1..]), Sanitize(y));
      }
    }
  }

  lemma AppendAfterDotDot(x: string, y: string)
    requires StartsWith(x, "..")
    ensures StartsWith(x + y, "..") && (x + y)[2..] == x[2..] + y
  {
    assert (x + y)[..2] == x[..2];
  }

  lemma AppendAfterOther(x: string, y: string)
    requires |x| > 0 && !StartsWith(x, "..") && (|y| == 0 || y[0] != '.')
    ensures !StartsWith(x + y, "..") && (x + y)[1..] == x[1..] + y && (x + y)[0] == x[0]
  {
  }

  lemma Assoc(a: string, b: string, c: string)
    ensures a + (b + c) == (a + b) + c
  {
  }

  // ---------------------------------------------------------------------
  // Attachment references in the markup
  // ---------------------------------------------------------------------

  /** The literal start of both reference patterns. */
  const RefHead := "<ri:attachment ri:filename=\""

  predicate SingleLine(s: string) {
    forall i :: 0 <= i < |s| ==> !IsLineTerminator(s[i])
  }

  predicate QuoteFree(s: string) {
    forall i :: 0 <= i < |s| ==> s[i] != '"'
  }

  /** ` *\/>` matches at the start of `u`. */
  predicate ClosesTag(u: string) {
    StartsWith(u[SpaceRun(u)..], "/>")
  }

  /** The lazy `.+?"`, continued by ` *\/>` when `closed`, against the text
      `t` after the opening quote: the first `e >= k` that ends the group, as
      long as every character before it is one `.` matches. */
  function LazyEnd(t: string, k: nat, closed: bool): (e: Option<nat>)
    requires 1 <= k
    ensures e.Some? ==> k <= e.value < |t| && t[e.value] == '"'
    ensures e.Some? && closed ==> ClosesTag(t[e.value + 1..])
    decreases |t| - k
  {
    if k >= |t| || IsLineTerminator(t[k - 1]) then None
    else if t[k] == '"' && (!closed || ClosesTag(t[k + 1..])) then Some(k)
    else LazyEnd(t, k + 1, closed)
  }

  /** The position `e` ends the group in `t`. */
  predicate GroupEnd(t: string, e: nat, closed: bool) {
    e < |t| && t[e] == '"' && (!closed || ClosesTag(t[e + 1..]))
  }

  /** The lazy search stops at an admissible end, reached without crossing a
      line terminator ... */
  lemma {:induction false} LazyEndSound(t: string, k: nat, closed: bool)
    requires 1 <= k && LazyEnd(t, k, closed).Some?
    ensures GroupEnd(t, LazyEnd(t, k, closed).value, closed)
    ensures SingleLine(t[k - 1..LazyEnd(t, k, closed).value])
    decreases |t| - k
  {
    var e := LazyEnd(t, k, closed).value;
    LazyEndHead(t, k, closed);
    if e > k {
      LazyEndStep(t, k, closed);
      LazyEndSound(t, k + 1, closed);
      assert t[k - 1..e] == [t[k - 1]] + t[k..e];
    } else {
      assert t[k - 1..e] == [t[k - 1]];
    }
  }

  /** ... and no earlier position is one. */
  lemma {:induction false} LazyEndFirst(t: string, k: nat, closed: bool)
    requires 1 <= k && LazyEnd(t, k, closed).Some?
    ensures forall j :: k <= j < LazyEnd(t, k, closed).value ==> !GroupEnd(t, j, closed)
    decreases |t| - k
  {
    if LazyEnd(t, k, closed).value > k {
      LazyEndStep(t, k, closed);
      LazyEndFirst(t, k + 1, closed);
    }
  }

  /** A search that succeeds starts on a character that is not a line
      terminator. */
  lemma LazyEndHead(t: string, k: nat, closed: bool)
    requires 1 <= k && LazyEnd(t, k, closed).Some?
    ensures k < |t| && !IsLineTerminator(t[k - 1])
  {
  }

  /** A search that goes past `k` has rejected `k` and gives what the
      search from `k + 1` gives. */
  lemma LazyEndStep(t: string, k: nat, closed: bool)
    requires 1 <= k && LazyEnd(t, k, closed).Some? && LazyEnd(t, k, closed).value > k
    ensures LazyEnd(t, k + 1, closed) == LazyEnd(t, k, closed) && !GroupEnd(t, k, closed)
  {
  }

  /** Conversely, an admissible end reachable without crossing a line
      terminator is found, or an earlier one is. */
  lemma {:induction false} LazyEndComplete(t: string, k: nat, e: nat, closed: bool)
    requires 1 <= k <= e && GroupEnd(t, e, closed) && SingleLine(t[k - 1..e])
    ensures LazyEnd(t, k, closed).Some? && LazyEnd(t, k, closed).value <= e
    decreases e - k
  {
    assert t[k - 1] == t[k - 1..e][0];
    if k < e && !GroupEnd(t, k, closed) {
      assert t[k..e] == t[k - 1..e][1..];
      LazyEndComplete(t, k + 1, e, closed);
    }
  }

  /** The length of the match of `/<ri:attachment ri:filename="(.+?)" *\/>/`
      at the start of `s`. */
  function ReferenceAt(s: string): (n: Option<nat>)
    ensures n.Some? ==> |RefHead| < n.value <= |s|
  {
    if !StartsWith(s, RefHead) then None
    else
      var t := s[|RefHead|..];
      match LazyEnd(t, 1, true)
      case None => None
      case Some(e) =>
        var m := SpaceRun(t[e + 1..]) + 2;
        Some(|RefHead| + (e + 1 + m))
  }

  /** `s.match(/<ri:attachment ri:filename="(.+?)" *\/>/g) || []`: the
      matched texts, left to right, without overlap. */
  function References(s: string): (refs: seq<string>)
    ensures |refs| <= |s|
    decreases |s|
  {
    if |s| == 0 then []
    else match ReferenceAt(s)
      case Some(n) => [s[..n]] + References(s[n..])
      case None => References(s[1..])
  }

  /** The index of the last `"` before position `n`. */
  function LastQuote(m: string, n: nat): (q: Option<nat>)
    requires n <= |m|
    ensures q.Some? ==> q.value < n && m[q.value] == '"'
    decreases n
  {
    if n == 0 then None
    else if m[n - 1] == '"' then Some(n - 1)
    else LastQuote(m, n - 1)
  }

  /** `m.replace(/.*"(.+)".*\/, "$1")` for single-line `m`: the greedy
      pattern puts the closing quote on the last `"` and the opening quote on
      the last `"` that leaves at least one character between them; without
      such a pair the text is returned unchanged. */
  function FileNameOf(m: string): string
    requires SingleLine(m)
  {
    match LastQuote(m, |m|)
    case None => m
    case Some(q) =>
      if q == 0 then m
      else match LastQuote(m, q - 1)
        case None => m
        case Some(p) => m[p + 1..q]
  }

  predicate Lacks(s: string, c: char) {
    forall i :: 0 <= i < |s| ==> s[i] != c
  }

  lemma RefHeadShape()
    ensures |RefHead| == 28 && RefHead[27] == '"'
  {
  }

  lemma RefHeadSingleLine()
    ensures SingleLine(RefHead)
  {
  }

  lemma RefHeadQuotes()
    ensures QuoteFree(RefHead[..27])
  {
    assert RefHead[..27] == "<ri:attachment ri:filename=";
  }

  lemma RefHeadPlain()
    ensures Lacks(RefHead, '.') && Lacks(RefHead, '/')
  {
  }

  lemma SingleLineAppend(a: string, b: string)
    requires SingleLine(a) && SingleLine(b)
    ensures SingleLine(a + b)
  {
  }

  lemma ClosingSingleLine(u: string)
    requires ClosesTag(u)
    ensures SpaceRun(u) + 2 <= |u| && SingleLine(u[..SpaceRun(u) + 2])
  {
    var k := SpaceRun(u);
    assert u[k..][..2] == u[k..k + 2] == "/>";
    SpaceRunIsBlank(u);
    BlankSingleLine(u[..k]);
    SingleLineAppend(u[..k], u[k..k + 2]);
    assert u[..k] + u[k..k + 2] == u[..k + 2];
  }

  lemma BlankSingleLine(w: string)
    requires AllBlank(w)
    ensures SingleLine(w)
  {
  }

  /** Every reference found is a single line of text. */
  lemma ReferenceAtSingleLine(s: string)
    requires ReferenceAt(s).Some?
    ensures SingleLine(s[..ReferenceAt(s).value])
  {
    var t := s[|RefHead|..];
    var e := LazyEnd(t, 1, true).value;
    var n := ReferenceAt(s).value;
    assert n - |RefHead| == e + 1 + (SpaceRun(t[e + 1..]) + 2);
    GroupSingleLine(t, e);
    RefHeadSingleLine();
    HeadSingleLine(s, RefHead, n);
  }

  lemma GroupSingleLine(t: string, e: nat)
    requires LazyEnd(t, 1, true) == Some(e)
    ensures var m := SpaceRun(t[e + 1..]) + 2; e + 1 + m <= |t| && SingleLine(t[..e + 1 + m])
  {
    GroupFacts(t, e);
    QuotedGroupSingleLine(t, e);
  }

  lemma QuotedGroupSingleLine(t: string, e: nat)
    requires e < |t| && t[e] == '"' && SingleLine(t[0..e])
    requires SpaceRun(t[e + 1..]) + 2 <= |t| - e - 1
    requires SingleLine(t[e + 1..][..SpaceRun(t[e + 1..]) + 2])
    ensures var m := SpaceRun(t[e + 1..]) + 2; e + 1 + m <= |t| && SingleLine(t[..e + 1 + m])
  {
    QuoteThenClosing(t, e, SpaceRun(t[e + 1..]) + 2);
  }

  lemma GroupFacts(t: string, e: nat)
    requires LazyEnd(t, 1, true) == Some(e)
    ensures e < |t| && t[e] == '"' && SingleLine(t[0..e])
    ensures SpaceRun(t[e + 1..]) + 2 <= |t| - e - 1
    ensures SingleLine(t[e + 1..][..SpaceRun(t[e + 1..]) + 2])
  {
    GroupQuote(t, e);
    GroupCloses(t, e);
    ClosingSingleLine(t[e + 1..]);
  }

  lemma GroupCloses(t: string, e: nat)
    requires LazyEnd(t, 1, true) == Some(e)
    ensures e < |t| && ClosesTag(t[e + 1..])
  {
    LazyEndCloses(t, 1, e);
  }

  lemma LazyEndCloses(t: string, k: nat, e: nat)
    requires 1 <= k && LazyEnd(t, k, true) == Some(e)
    ensures GroupEnd(t, e, true)
  {
    LazyEndSound(t, k, true);
  }

  lemma GroupQuote(t: string, e: nat)
    requires LazyEnd(t, 1, true) == Some(e)
    ensures e < |t| && t[e] == '"' && SingleLine(t[0..e])
  {
    LazyEndSound(t, 1, true);
  }

  lemma QuoteThenClosing(t: string, e: nat, m: nat)
    requires e < |t| && m <= |t| - e - 1 && t[e] == '"'
    requires SingleLine(t[0..e]) && SingleLine(t[e + 1..][..m])
    ensures SingleLine(t[..e + 1 + m])
  {
    assert t[..e + 1 + m] == t[0..e] + [t[e]] + t[e + 1..][..m];
    SingleLineAppend(t[0..e], [t[e]]);
    SingleLineAppend(t[0..e] + [t[e]], t[e + 1..][..m]);
  }

  lemma HeadSingleLine(s: string, head: string, n: nat)
    requires StartsWith(s, head) && SingleLine(head) && |head| <= n <= |s|
    requires SingleLine(s[|head|..][..n - |head|])
    ensures SingleLine(s[..n])
  {
    assert s[..n] == head + s[|head|..][..n - |head|];
    SingleLineAppend(head, s[|head|..][..n - |head|]);
  }

  lemma {:induction false} ReferencesSingleLine(s: string)
    ensures forall i :: 0 <= i < |References(s)| ==> SingleLine(References(s)[i])
    decreases |s|
  {
    if |s| > 0 {
      match ReferenceAt(s)
      case Some(n) =>
        ReferenceAtSingleLine(s);
        ReferencesSingleLine(s[n..]);
      case None =>
        ReferencesSingleLine(s[1..]);
    }
  }

  /** A well-formed reference `<ri:attachment ri:filename="g" />`. */
  function Reference(g: string, w: string): string {
    RefHead + g + "\"" + w + "/>"
  }

  /** The lazy group of a quote-free file name ends at its closing quote. */
  lemma LazyEndAtQuote(g: string, tail: string, closed: bool)
    requires |g| > 0 && QuoteFree(g) && SingleLine(g)
    requires !closed || ClosesTag(tail)
    ensures LazyEnd(g + "\"" + tail, 1, closed) == Some(|g|)
    ensures (g + "\"" + tail)[|g| + 1..] == tail
  {
    var t := g + "\"" + tail;
    QuoteAfterGroup(g, tail, closed);
    LazyEndComplete(t, 1, |g|, closed);
    LazyEndSound(t, 1, closed);
  }

  lemma QuoteAfterGroup(g: string, tail: string, closed: bool)
    requires |g| > 0 && QuoteFree(g) && SingleLine(g)
    requires !closed || ClosesTag(tail)
    ensures var t := g + "\"" + tail;
      t[0..|g|] == g && t[|g| + 1..] == tail && GroupEnd(t, |g|, closed)
      && forall j :: 0 <= j < |g| ==> t[j] != '"'
  {
    var t := g + "\"" + tail;
    assert t[0..|g|] == g;
    assert t[|g| + 1..] == tail;
  }

  lemma ClosesAfterBlank(w: string, rest: string)
    requires AllBlank(w)
    ensures ClosesTag(w + ("/>" + rest)) && SpaceRun(w + ("/>" + rest)) == |w|
  {
    SpaceRunOfBlank(w, "/>" + rest);
    assert (w + ("/>" + rest))[|w|..] == "/>" + rest;
  }

  lemma ReferenceAtValue(s: string, e: nat)
    requires StartsWith(s, RefHead) && LazyEnd(s[|RefHead|..], 1, true) == Some(e)
    ensures ReferenceAt(s) == Some(|RefHead| + (e + 1 + SpaceRun(s[|RefHead|..][e + 1..]) + 2))
  {
    ReferenceAtUnfold(s);
    ReferenceTailValue(s[|RefHead|..], e);
  }

  lemma ReferenceAtUnfold(s: string)
    requires StartsWith(s, RefHead)
    ensures ReferenceAt(s) == ReferenceTail(s[|RefHead|..])
  {
  }

  /** The match length `ReferenceAt` gives once the opener is seen, as a
      function of the text after it. */
  function ReferenceTail(t: string): Option<nat> {
    match LazyEnd(t, 1, true)
    case None => None
    case Some(e) => Some(|RefHead| + (e + 1 + (SpaceRun(t[e + 1..]) + 2)))
  }

  lemma ReferenceTailValue(t: string, e: nat)
    requires LazyEnd(t, 1, true) == Some(e)
    ensures ReferenceTail(t) == Some(|RefHead| + (e + 1 + SpaceRun(t[e + 1..]) + 2))
  {
  }

  lemma ReferencesStep(s: string, n: nat)
    requires |s| > 0 && ReferenceAt(s) == Some(n)
    ensures References(s) == [s[..n]] + References(s[n..])
  {
  }

  /** The extraction pattern finds a well-formed reference whole. */
  lemma ReferenceFound(g: string, w: string, rest: string)
    requires |g| > 0 && QuoteFree(g) && SingleLine(g) && AllBlank(w)
    ensures ReferenceAt(Reference(g, w) + rest) == Some(|Reference(g, w)|)
    ensures References(Reference(g, w) + rest) == [Reference(g, w)] + References(rest)
  {
    var m := Reference(g, w);
    var s := m + rest;
    var tail := w + ("/>" + rest);
    ReferenceShape(g, w, rest);
    ClosesAfterBlank(w, rest);
    LazyEndAtQuote(g, tail, true);
    ReferenceAtValue(s, |g|);
    ReferencesStep(s, |m|);
  }

  lemma ReferenceShape(g: string, w: string, rest: string)
    ensures var s := Reference(g, w) + rest;
      StartsWith(s, RefHead) && s[|RefHead|..] == g + "\"" + (w + ("/>" + rest))
      && s[..|Reference(g, w)|] == Reference(g, w) && s[|Reference(g, w)|..] == rest
      && |Reference(g, w)| == |RefHead| + (|g| + 1 + |w| + 2)
  {
  }

  lemma {:induction false} LastQuoteSkips(m: string, k: nat, n: nat)
    requires k <= n <= |m| && QuoteFree(m[k..n])
    ensures LastQuote(m, n) == LastQuote(m, k)
    decreases n - k
  {
    if k < n {
      assert m[n - 1] == m[k..n][n - 1 - k];
      assert m[k..n - 1] == m[k..n][..n - 1 - k];
      LastQuoteSkips(m, k, n - 1);
    }
  }

  lemma LastQuoteHere(m: string, n: nat)
    requires 0 < n <= |m| && m[n - 1] == '"'
    ensures LastQuote(m, n) == Some(n - 1)
  {
  }

  /** The greedy pair of quotes `(p, q)` gives the text between them. */
  lemma FileNameOfPair(m: string, p: nat, q: nat)
    requires SingleLine(m) && p + 1 < q < |m|
    requires LastQuote(m, |m|) == Some(q) && LastQuote(m, q - 1) == Some(p)
    ensures FileNameOf(m) == m[p + 1..q]
  {
  }

  lemma ReferenceSlices(g: string, w: string)
    requires |g| > 0 && QuoteFree(g) && AllBlank(w)
    ensures var m := Reference(g, w); var h := |RefHead|;
      |m| == h + |g| + 3 + |w| && m[h - 1] == '"' && m[h + |g|] == '"'
      && QuoteFree(m[h..h + |g| - 1]) && QuoteFree(m[h + |g| + 1..|m|])
      && m[..h] == RefHead && m[h..h + |g|] == g && m[h + |g|..] == "\"" + w + "/>"
  {
    var m := Reference(g, w);
    var h := |RefHead|;
    RefHeadShape();
    assert m[..h] == RefHead;
    assert m[h..h + |g|] == g;
    assert m[h..h + |g| - 1] == g[..|g| - 1];
    assert m[h + |g|..] == "\"" + w + "/>";
    assert m[h + |g| + 1..|m|] == w + "/>";
  }

  lemma ReferenceSingleLine(g: string, w: string)
    requires SingleLine(g) && AllBlank(w)
    ensures SingleLine(Reference(g, w))
  {
    RefHeadSingleLine();
    SingleLineAppend(RefHead, g);
    SingleLineAppend(RefHead + g, "\"" + w + "/>");
    assert Reference(g, w) == (RefHead + g) + ("\"" + w + "/>");
  }

  /** The name recovered from a well-formed reference is its file name. */
  lemma ReferenceName(g: string, w: string)
    requires |g| > 0 && QuoteFree(g) && SingleLine(g) && AllBlank(w)
    ensures SingleLine(Reference(g, w))
    ensures FileNameOf(Reference(g, w)) == g
  {
    var m := Reference(g, w);
    var h := |RefHead|;
    ReferenceSingleLine(g, w);
    ReferenceSlices(g, w);
    LastQuoteSkips(m, h + |g| + 1, |m|);
    LastQuoteHere(m, h + |g| + 1);
    LastQuoteSkips(m, h, h + |g| - 1);
    LastQuoteHere(m, h);
    FileNameOfPair(m, h - 1, h + |g|);
  }

  // ---------------------------------------------------------------------
  // Local files: extractAttachmentsFromPage
  // ---------------------------------------------------------------------

  /** The file names the references carry, in order:
      `.map(m => m.replace(/.*"(.+)".*\/, "$1"))`. */
  function Names(md: string): (names: seq<string>)
    ensures |names| == |References(md)|
  {
    ReferencesSingleLine(md);
    var refs := References(md);
    seq(|refs|, i requires 0 <= i < |refs| => FileNameOf(refs[i]))
  }

  /** The file system as the extractor sees it: the sizes of the files that
      exist, keyed by absolute path, and `path.resolve(path.dirname(file),
      name)`, which is left uninterpreted. */
  datatype Files = Files(sizes: map<string, nat>, resolve: (string, string) -> string)

  /** A local attachment (the `Picture` record). */
  datatype Local = Local(
    originalPath: string,
    absolutePath: string,
    size: nat,
    remoteFileName: string,
    remoteAttachmentId: Option<string>)

  /** A name survives both filters: it is not a web address and the file it
      names exists next to the document. */
  predicate Wanted(files: Files, file: string, name: string) {
    !StartsWith(name, "http") && files.resolve(file, name) in files.sizes
  }

  /** The two `.filter` steps, keeping the order of the names. */
  function Kept(files: Files, file: string, names: seq<string>): (kept: seq<string>)
    ensures |kept| <= |names|
    ensures forall x :: x in kept <==> x in names && Wanted(files, file, x)
  {
    if |names| == 0 then []
    else if Wanted(files, file, names[0]) then [names[0]] + Kept(files, file, names[1..])
    else Kept(files, file, names[1..])
  }

  /** The filters keep the order of the names and every repetition of a
      name: they distribute over a split of the list. */
  lemma {:induction false} KeptAppend(files: Files, file: string, x: seq<string>, y: seq<string>)
    ensures Kept(files, file, x + y) == Kept(files, file, x) + Kept(files, file, y)
    decreases |x|
  {
    if |x| == 0 {
      assert x + y == y;
    } else {
      assert (x + y)[0] == x[0] && (x + y)[1..] == x[1..] + y;
      KeptAppend(files, file, x[1..], y);
    }
  }

  /** One name is kept, once, exactly when it survives both filters. */
  lemma KeptOne(files: Files, file: string, name: string)
    ensures Kept(files, file, [name]) == if Wanted(files, file, name) then [name] else []
  {
    assert [name][1..] == [];
  }

  /** The record built for a kept name. */
  function ToLocal(files: Files, file: string, name: string): (l: Local)
    requires Wanted(files, file, name)
    ensures FreshLocal(files, l) && l.originalPath == name && l.absolutePath == files.resolve(file, name)
  {
    var path := files.resolve(file, name);
    SanitizeIsClean(name);
    Local(name, path, files.sizes[path], Sanitize(name), None)
  }

  /** A local attachment as the extractor builds it: sized from the file
      system, named for the remote side by sanitising, not yet matched. */
  predicate FreshLocal(files: Files, l: Local) {
    l.absolutePath in files.sizes && l.size == files.sizes[l.absolutePath]
    && l.remoteFileName == Sanitize(l.originalPath) && IsClean(l.remoteFileName)
    && !StartsWith(l.originalPath, "http") && l.remoteAttachmentId.None?
  }

  /** `extractAttachmentsFromPage(pageData, md)`. */
  function ExtractAttachments(files: Files, file: string, md: string): (locals: seq<Local>)
    ensures |locals| <= |References(md)|
    ensures forall i :: 0 <= i < |locals| ==> FreshLocal(files, locals[i])
    ensures forall i :: 0 <= i < |locals| ==>
      locals[i].originalPath in Names(md) && locals[i].absolutePath == files.resolve(file, locals[i].originalPath)
  {
    var kept := Kept(files, file, Names(md));
    seq(|kept|, i requires 0 <= i < |kept| => assert kept[i] in kept; ToLocal(files, file, kept[i]))
  }

  /** A name is extracted exactly when it occurs among the references and
      survives both filters. */
  lemma ExtractedIff(files: Files, file: string, md: string, name: string)
    ensures (exists i :: 0 <= i < |ExtractAttachments(files, file, md)|
              && ExtractAttachments(files, file, md)[i].originalPath == name)
      <==> name in Names(md) && Wanted(files, file, name)
  {
    var kept := Kept(files, file, Names(md));
    var locals := ExtractAttachments(files, file, md);
    assert forall i :: 0 <= i < |locals| ==> locals[i].originalPath == kept[i];
    if name in Names(md) && Wanted(files, file, name) {
      var i :| 0 <= i < |kept| && kept[i] == name;
      assert locals[i].originalPath == name;
    }
  }

  // ---------------------------------------------------------------------
  // Matching: mapLocalToRemoteAttachments
  // ---------------------------------------------------------------------

  /** A remote attachment stands for a local one: same sanitised title and
      same size. */
  predicate Matches(l: Local, a: RemoteAttachment) {
    a.title == l.remoteFileName && a.fileSize == l.size
  }

  /** `remoteAttachments.find(...)`: the position of the first match. */
  function FirstMatch(l: Local, remotes: seq<RemoteAttachment>): (r: Option<nat>)
    ensures r.Some? ==> r.value < |remotes| && Matches(l, remotes[r.value])
    ensures r.Some? ==> forall j :: 0 <= j < r.value ==> !Matches(l, remotes[j])
    ensures r.None? <==> forall j :: 0 <= j < |remotes| ==> !Matches(l, remotes[j])
  {
    if |remotes| == 0 then None
    else if Matches(l, remotes[0]) then Some(0)
    else match FirstMatch(l, remotes[1..])
      case None => None
      case Some(i) => Some(i + 1)
  }

  /** `mapLocalToRemoteAttachments(l, remotes)`: the first matching remote
      attachment lends its id; without a match nothing changes. */
  function MapLocal(l: Local, remotes: seq<RemoteAttachment>): (r: Local)
    ensures r.(remoteAttachmentId := l.remoteAttachmentId) == l
    ensures (forall j :: 0 <= j < |remotes| ==> !Matches(l, remotes[j])) ==> r == l
    ensures forall i ::
              0 <= i < |remotes| && Matches(l, remotes[i]) && (forall j :: 0 <= j < i ==> !Matches(l, remotes[j]))
              ==> r.remoteAttachmentId == Some(remotes[i].id)
  {
    match FirstMatch(l, remotes)
    case None => l
    case Some(i) => l.(remoteAttachmentId := Some(remotes[i].id))
  }

  /** An unmatched local gains an id exactly when some remote attachment has
      its sanitised name and its size. */
  lemma MatchedIff(l: Local, remotes: seq<RemoteAttachment>)
    requires l.remoteAttachmentId.None?
    ensures MapLocal(l, remotes).remoteAttachmentId.Some?
      <==> exists a :: a in remotes && Matches(l, a)
  {
    if a :| a in remotes && Matches(l, a) {
      var j :| 0 <= j < |remotes| && remotes[j] == a;
      assert !(forall j :: 0 <= j < |remotes| ==> !Matches(l, remotes[j]));
    }
  }

  /** The same name with another size is not a match. */
  lemma SizeMismatchUnmatched(l: Local, remotes: seq<RemoteAttachment>)
    requires forall a :: a in remotes ==> a.fileSize != l.size
    ensures MapLocal(l, remotes) == l
  {
  }

  /** The matching applied to every local. */
  function MatchAll(locals: seq<Local>, remotes: seq<RemoteAttachment>): (matched: seq<Local>)
    ensures |matched| == |locals|
    ensures forall i :: 0 <= i < |locals| ==>
      matched[i].(remoteAttachmentId := locals[i].remoteAttachmentId) == locals[i]
    ensures forall i :: 0 <= i < |locals| ==>
      matched[i].remoteAttachmentId ==
        (if FirstMatch(locals[i], remotes).Some? then Some(remotes[FirstMatch(locals[i], remotes).value].id)
         else locals[i].remoteAttachmentId)
  {
    seq(|locals|, i requires 0 <= i < |locals| => MapLocal(locals[i], remotes))
  }

  // ---------------------------------------------------------------------
  // Delete and upload sets
  // ---------------------------------------------------------------------

  /** `attachments.map(a => a.remoteAttachmentId)`. */
  function UpToDateIds(matched: seq<Local>): (ids: seq<Option<string>>)
    ensures |ids| == |matched|
  {
    seq(|matched|, i requires 0 <= i < |matched| => matched[i].remoteAttachmentId)
  }

  /** The remote attachments that no local claims, in listing order. */
  function OutOfDate(matched: seq<Local>, remotes: seq<RemoteAttachment>): (stale: seq<RemoteAttachment>)
    ensures |stale| <= |remotes|
    ensures forall a :: a in stale <==> a in remotes && Some(a.id) !in UpToDateIds(matched)
  {
    if |remotes| == 0 then []
    else if Some(remotes[0].id) in UpToDateIds(matched) then OutOfDate(matched, remotes[1..])
    else [remotes[0]] + OutOfDate(matched, remotes[1..])
  }

  /** The delete set keeps the listing order: it distributes over a split of
      the listing. */
  lemma {:induction false} OutOfDateOrder(matched: seq<Local>, x: seq<RemoteAttachment>, y: seq<RemoteAttachment>)
    ensures OutOfDate(matched, x + y) == OutOfDate(matched, x) + OutOfDate(matched, y)
    decreases |x|
  {
    if |x| == 0 {
      assert x + y == y;
    } else {
      assert (x + y)[0] == x[0] && (x + y)[1..] == x[1..] + y;
      OutOfDateOrder(matched, x[1..], y);
    }
  }

  /** A remote attachment that matches no local is deleted. */
  lemma UnmatchedDeleted(locals: seq<Local>, remotes: seq<RemoteAttachment>, a: RemoteAttachment)
    requires forall i :: 0 <= i < |locals| ==> locals[i].remoteAttachmentId.None?
    requires a in remotes && forall i :: 0 <= i < |locals| ==> !Matches(locals[i], a)
    requires forall b :: b in remotes && b.id == a.id ==> b == a
    ensures a in OutOfDate(MatchAll(locals, remotes), remotes)
  {
    var ids := UpToDateIds(MatchAll(locals, remotes));
    forall i | 0 <= i < |ids|
      ensures ids[i] != Some(a.id)
    {
      match FirstMatch(locals[i], remotes)
      case None =>
      case Some(k) =>
        assert remotes[k] in remotes;
    }
  }

  /** The first match of any local is kept. */
  lemma FirstMatchKept(locals: seq<Local>, remotes: seq<RemoteAttachment>, i: nat)
    requires i < |locals| && FirstMatch(locals[i], remotes).Some?
    ensures remotes[FirstMatch(locals[i], remotes).value] !in OutOfDate(MatchAll(locals, remotes), remotes)
  {
    var matched := MatchAll(locals, remotes);
    assert UpToDateIds(matched)[i] == Some(remotes[FirstMatch(locals[i], remotes).value].id);
  }

  /** `attachments.filter(a => force || !a.remoteAttachmentId)`. */
  function ToUpload(matched: seq<Local>, force: bool): (uploads: seq<Local>)
    ensures |uploads| <= |matched|
    ensures force ==> uploads == matched
    ensures !force ==> forall l :: l in uploads <==> l in matched && !Truthy(l.remoteAttachmentId)
  {
    if |matched| == 0 then []
    else if force || !Truthy(matched[0].remoteAttachmentId) then [matched[0]] + ToUpload(matched[1..], force)
    else ToUpload(matched[1..], force)
  }

  /** The upload filter keeps the order of the attachments and every
      repetition of one: it distributes over a split of the list. */
  lemma {:induction false} ToUploadAppend(x: seq<Local>, y: seq<Local>, force: bool)
    ensures ToUpload(x + y, force) == ToUpload(x, force) + ToUpload(y, force)
    decreases |x|
  {
    if |x| == 0 {
      assert x + y == y;
    } else {
      assert (x + y)[0] == x[0] && (x + y)[1..] == x[1..] + y;
      ToUploadAppend(x[1..], y, force);
    }
  }

  /** One attachment is uploaded, once, exactly when the run is forced or
      it has no truthy remote id. */
  lemma ToUploadOne(l: Local, force: bool)
    ensures ToUpload([l], force) == if force || !Truthy(l.remoteAttachmentId) then [l] else []
  {
    assert [l][1..] == [];
  }

  /** Without `force`, a freshly extracted local is uploaded exactly when no
      remote attachment with a non-empty id is its first match. */
  lemma UploadIff(locals: seq<Local>, remotes: seq<RemoteAttachment>, i: nat)
    requires i < |locals| && locals[i].remoteAttachmentId.None?
    ensures var l := MatchAll(locals, remotes)[i];
      l in ToUpload(MatchAll(locals, remotes), false)
      <==> (FirstMatch(locals[i], remotes).None? || remotes[FirstMatch(locals[i], remotes).value].id == "")
  {
  }

  // ---------------------------------------------------------------------
  // The final rewrite of the referenced file names
  // ---------------------------------------------------------------------

  /** The length of the match of `/<ri:attachment ri:filename=".+?"/` at the
      start of `s`: up to and including the first quote after at least one
      character of the name. */
  function RewriteAt(s: string): (n: Option<nat>)
    ensures n.Some? ==> |RefHead| < n.value <= |s|
  {
    if !StartsWith(s, RefHead) then None
    else match LazyEnd(s[|RefHead|..], 1, false)
      case None => None
      case Some(e) => Some(|RefHead| + e + 1)
  }

  /** `md.replace(/<ri:attachment ri:filename=".+?"/g, m => sanitise(m))`:
      each match, left to right, is sanitised as a whole. */
  function RewriteReferences(s: string): (r: string)
    ensures |r| <= |s|
    decreases |s|
  {
    if |s| == 0 then ""
    else match RewriteAt(s)
      case Some(n) => Sanitize(s[..n]) + RewriteReferences(s[n..])
      case None => [s[0]] + RewriteReferences(s[1..])
  }

  lemma RewriteKeepStep(s: string)
    requires |s| > 0 && RewriteAt(s).None?
    ensures RewriteReferences(s) == [s[0]] + RewriteReferences(s[1..])
  {
  }

  /** Text without the reference opener is left as it is. */
  lemma {:induction false} RewriteWithoutReference(s: string)
    requires !Contains(s, RefHead)
    ensures RewriteReferences(s) == s
    decreases |s|
  {
    if |s| > 0 {
      RewriteKeepStep(s);
      RewriteWithoutReference(s[1..]);
    }
  }

  /** A stretch without `<` passes through and the scan resumes after it. */
  lemma {:induction false} RewritePlainPrefix(x: string, y: string)
    requires Lacks(x, '<')
    ensures RewriteReferences(x + y) == x + RewriteReferences(y)
    decreases |x|
  {
    if |x| == 0 {
      assert x + y == y;
    } else {
      var s := x + y;
      assert s[0] == x[0] && s[1..] == x[1..] + y;
      assert !StartsWith(s, RefHead) by {
        assert RefHead[0] == '<';
      }
      RewriteKeepStep(s);
      RewritePlainPrefix(x[1..], y);
      Assoc([x[0]], x[1..], RewriteReferences(y));
      assert [x[0]] + x[1..] == x;
    }
  }

  /** Sanitising a matched opener touches the file name only. */
  lemma SanitizeOpener(g: string)
    ensures Sanitize(RefHead + g + "\"") == RefHead + Sanitize(g) + "\""
  {
    RefHeadPlain();
    RefHeadShape();
    assert IsClean(RefHead) by {
      NoDotDotWithoutDot(RefHead);
    }
    SanitizeCleanPrefix(RefHead, g + "\"");
    SanitizeAppend(g, "\"");
    assert Sanitize("\"") == "\"" by {
      SanitizeKeep("\"");
    }
    Assoc(RefHead, g, "\"");
    Assoc(RefHead, Sanitize(g), "\"");
  }

  lemma {:induction false} NoDotDotWithoutDot(s: string)
    requires Lacks(s, '.') && Lacks(s, '/')
    ensures IsClean(s)
    decreases |s|
  {
    if |s| > 0 {
      assert !StartsWith(s, "..") by {
        assert s[0] != '.';
      }
      NoDotDotWithoutDot(s[1..]);
    }
  }

  /** An opener followed by a quote-free name and its quote is rewritten to
      the opener, the sanitised name and the quote. The name is sanitised
      whether or not it is a web address. */
  lemma RewriteOne(g: string, rest: string)
    requires |g| > 0 && QuoteFree(g) && SingleLine(g)
    ensures RewriteReferences(RefHead + g + "\"" + rest)
      == RefHead + Sanitize(g) + "\"" + RewriteReferences(rest)
  {
    var m := RefHead + g + "\"";
    var s := m + rest;
    OpenerShape(g, rest);
    LazyEndAtQuote(g, rest, false);
    RewriteAtValue(s, |g|);
    RewriteTakeStep(s, |m|);
    SanitizeOpener(g);
  }

  lemma OpenerShape(g: string, rest: string)
    ensures var s := RefHead + g + "\"" + rest;
      StartsWith(s, RefHead) && s[|RefHead|..] == g + "\"" + rest
      && s[..|RefHead| + |g| + 1] == RefHead + g + "\"" && s[|RefHead| + |g| + 1..] == rest
  {
  }

  lemma RewriteAtValue(s: string, e: nat)
    requires StartsWith(s, RefHead) && LazyEnd(s[|RefHead|..], 1, false) == Some(e)
    ensures RewriteAt(s) == Some(|RefHead| + e + 1)
  {
  }

  lemma RewriteTakeStep(s: string, n: nat)
    requires |s| > 0 && RewriteAt(s) == Some(n)
    ensures RewriteReferences(s) == Sanitize(s[..n]) + RewriteReferences(s[n..])
  {
  }

  /** After the rewrite, a well-formed reference names exactly the remote
      file name its local attachment is uploaded under. */
  lemma RewriteAgreesWithUpload(g: string, w: string, rest: string)
    requires |g| > 0 && QuoteFree(g) && SingleLine(g) && AllBlank(w)
    ensures FileNameOf(Reference(g, w)) == g
    ensures RewriteReferences(Reference(g, w) + rest)
      == Reference(Sanitize(g), w) + RewriteReferences(rest)
  {
    ReferenceName(g, w);
    var tail := w + "/>";
    BlankCloserPlain(w);
    RewritePlainPrefix(tail, rest);
    RewriteOne(g, tail + rest);
    ReferenceSplit(g, w, rest, RewriteReferences(rest));
  }

  lemma BlankCloserPlain(w: string)
    requires AllBlank(w)
    ensures Lacks(w + "/>", '<')
  {
  }

  lemma ReferenceSplit(g: string, w: string, rest: string, r: string)
    ensures Reference(g, w) + rest == RefHead + g + "\"" + (w + "/>" + rest)
    ensures RefHead + Sanitize(g) + "\"" + (w + "/>" + r) == Reference(Sanitize(g), w) + r
  {
  }

  // ---------------------------------------------------------------------
  // Whole pages: references behind other markup
  // ---------------------------------------------------------------------

  /** The opener holds `<` at its start and nowhere else. */
  lemma RefHeadOneAngle()
    ensures RefHead[0] == '<' && forall i :: 1 <= i < |RefHead| ==> RefHead[i] != '<'
  {
  }

  /** A match cannot start inside text that does not itself start with the
      opener when a `<` follows that text. */
  lemma OpenerCutAt(x: string, y: string)
    requires |x| > 0 && !StartsWith(x, RefHead) && |y| > 0 && y[0] == '<'
    ensures !StartsWith(x + y, RefHead)
  {
    var s := x + y;
    RefHeadOneAngle();
    if |x| >= |RefHead| {
      assert s[..|RefHead|] == x[..|RefHead|];
    } else if |s| >= |RefHead| {
      assert s[..|RefHead|][|x|] == y[0];
    }
  }

  lemma ReferencesSkipStep(s: string)
    requires |s| > 0 && !StartsWith(s, RefHead)
    ensures References(s) == References(s[1..])
  {
  }

  /** The extraction pattern finds nothing in text without the opener. */
  lemma {:induction false} ReferencesWithoutOpener(s: string)
    requires !Contains(s, RefHead)
    ensures References(s) == []
    decreases |s|
  {
    if |s| > 0 {
      ContainsTail(s, RefHead);
      ReferencesSkipStep(s);
      ReferencesWithoutOpener(s[1..]);
    }
  }

  /** Text without the opener in front of a tag contributes no match, and
      the global match goes on at the tag. */
  lemma {:induction false} ReferencesOpenerFreePrefix(x: string, y: string)
    requires !Contains(x, RefHead) && |y| > 0 && y[0] == '<'
    ensures References(x + y) == References(y)
    decreases |x|
  {
    if |x| == 0 {
      assert x + y == y;
    } else {
      var s := x + y;
      ContainsTail(x, RefHead);
      OpenerCutAt(x, y);
      assert s[1..] == x[1..] + y;
      ReferencesSkipStep(s);
      ReferencesOpenerFreePrefix(x[1..], y);
    }
  }

  /** Text without the opener in front of a tag passes through the
      rewrite, and the rewrite goes on at the tag. */
  lemma {:induction false} RewriteOpenerFreePrefix(x: string, y: string)
    requires !Contains(x, RefHead) && |y| > 0 && y[0] == '<'
    ensures RewriteReferences(x + y) == x + RewriteReferences(y)
    decreases |x|
  {
    if |x| == 0 {
      assert x + y == y;
    } else {
      var s := x + y;
      ContainsTail(x, RefHead);
      OpenerCutAt(x, y);
      assert s[0] == x[0] && s[1..] == x[1..] + y;
      RewriteKeepStep(s);
      RewriteOpenerFreePrefix(x[1..], y);
      Assoc([x[0]], x[1..], RewriteReferences(y));
      assert [x[0]] + x[1..] == x;
    }
  }

  /** A stretch of rendered markup: text without the opener (such as the
      `<ac:image>` the renderer writes around an image), then a well-formed
      reference to the file `name`. */
  datatype Segment = Segment(text: string, name: string, blank: string)

  predicate WellFormed(seg: Segment) {
    !Contains(seg.text, RefHead)
    && |seg.name| > 0 && QuoteFree(seg.name) && SingleLine(seg.name) && AllBlank(seg.blank)
  }

  /** The markup the segments spell, one after another. */
  function Join(segs: seq<Segment>): string
    decreases |segs|
  {
    if |segs| == 0 then ""
    else segs[0].text + Reference(segs[0].name, segs[0].blank) + Join(segs[1..])
  }

  /** The references of the segments, in order. */
  function SegmentRefs(segs: seq<Segment>): (refs: seq<string>)
    ensures |refs| == |segs|
  {
    seq(|segs|, i requires 0 <= i < |segs| => Reference(segs[i].name, segs[i].blank))
  }

  /** The file names of the segments, in order. */
  function SegmentNames(segs: seq<Segment>): (names: seq<string>)
    ensures |names| == |segs|
  {
    seq(|segs|, i requires 0 <= i < |segs| => segs[i].name)
  }

  /** The same segments with every file name sanitised. */
  function SanitizeNames(segs: seq<Segment>): (r: seq<Segment>)
    ensures |r| == |segs|
  {
    seq(|segs|, i requires 0 <= i < |segs| => segs[i].(name := Sanitize(segs[i].name)))
  }

  /** One segment: its text yields nothing and its reference is matched
      whole, and the rewrite keeps the text and sanitises the name. */
  lemma SegmentStep(seg: Segment, rest: string)
    requires WellFormed(seg)
    ensures References(seg.text + Reference(seg.name, seg.blank) + rest)
      == [Reference(seg.name, seg.blank)] + References(rest)
    ensures RewriteReferences(seg.text + Reference(seg.name, seg.blank) + rest)
      == seg.text + Reference(Sanitize(seg.name), seg.blank) + RewriteReferences(rest)
  {
    var m := Reference(seg.name, seg.blank);
    ReferenceShape(seg.name, seg.blank, rest);
    Assoc(seg.text, m, rest);
    ReferencesOpenerFreePrefix(seg.text, m + rest);
    ReferenceFound(seg.name, seg.blank, rest);
    RewriteOpenerFreePrefix(seg.text, m + rest);
    RewriteAgreesWithUpload(seg.name, seg.blank, rest);
    Assoc(seg.text, Reference(Sanitize(seg.name), seg.blank), RewriteReferences(rest));
  }

  /** Every reference of a page is extracted, in order, however much other
      markup surrounds it. */
  lemma {:induction false} ReferencesOfJoin(segs: seq<Segment>, rest: string)
    requires forall i :: 0 <= i < |segs| ==> WellFormed(segs[i])
    ensures References(Join(segs) + rest) == SegmentRefs(segs) + References(rest)
    decreases |segs|
  {
    if |segs| == 0 {
      assert Join(segs) + rest == rest;
    } else {
      var tail := Join(segs[1..]) + rest;
      JoinCons(segs, rest);
      SegmentStep(segs[0], tail);
      ReferencesOfJoin(segs[1..], rest);
      SegmentRefsCons(segs);
      RefsAssoc([Reference(segs[0].name, segs[0].blank)], SegmentRefs(segs[1..]), References(rest));
    }
  }

  /** The rewrite sanitises the name of every reference of a page and
      leaves all other text as it is. */
  lemma {:induction false} RewriteOfJoin(segs: seq<Segment>, rest: string)
    requires forall i :: 0 <= i < |segs| ==> WellFormed(segs[i])
    ensures RewriteReferences(Join(segs) + rest) == Join(SanitizeNames(segs)) + RewriteReferences(rest)
    decreases |segs|
  {
    if |segs| == 0 {
      assert Join(segs) + rest == rest;
    } else {
      var s0 := segs[0];
      var tail := Join(segs[1..]) + rest;
      JoinCons(segs, rest);
      SegmentStep(s0, tail);
      RewriteOfJoin(segs[1..], rest);
      SanitizeNamesCons(segs);
      JoinCons(SanitizeNames(segs), RewriteReferences(rest));
    }
  }

  /** The names extracted from a page, before the two filters, are the
      file names of all its references, in order and with repetitions. */
  lemma NamesOfJoin(segs: seq<Segment>, tail: string)
    requires forall i :: 0 <= i < |segs| ==> WellFormed(segs[i])
    requires !Contains(tail, RefHead)
    ensures Names(Join(segs) + tail) == SegmentNames(segs)
  {
    var md := Join(segs) + tail;
    ReferencesOfJoin(segs, tail);
    ReferencesWithoutOpener(tail);
    assert References(md) == SegmentRefs(segs);
    forall i | 0 <= i < |segs|
      ensures Names(md)[i] == segs[i].name
    {
      ReferenceName(segs[i].name, segs[i].blank);
    }
  }

  /** Each attachment of a page is extracted in reference order, once per
      reference, exactly when its name survives the two filters. */
  lemma ExtractJoin(files: Files, file: string, segs: seq<Segment>, tail: string)
    requires forall i :: 0 <= i < |segs| ==> WellFormed(segs[i])
    requires !Contains(tail, RefHead)
    ensures var locals := ExtractAttachments(files, file, Join(segs) + tail);
      var kept := Kept(files, file, SegmentNames(segs));
      |locals| == |kept| && forall i :: 0 <= i < |locals| ==> locals[i].originalPath == kept[i]
  {
    NamesOfJoin(segs, tail);
  }

  lemma JoinCons(segs: seq<Segment>, rest: string)
    requires |segs| > 0
    ensures Join(segs) + rest
      == segs[0].text + Reference(segs[0].name, segs[0].blank) + (Join(segs[1..]) + rest)
  {
    var head := segs[0].text + Reference(segs[0].name, segs[0].blank);
    assert Join(segs) == head + Join(segs[1..]);
    Assoc(head, Join(segs[1..]), rest);
  }

  lemma RefsAssoc(a: seq<string>, b: seq<string>, c: seq<string>)
    ensures a + (b + c) == (a + b) + c
  {
  }

  lemma SegmentRefsCons(segs: seq<Segment>)
    requires |segs| > 0
    ensures SegmentRefs(segs) == [Reference(segs[0].name, segs[0].blank)] + SegmentRefs(segs[1..])
  {
  }

  lemma SanitizeNamesCons(segs: seq<Segment>)
    requires |segs| > 0
    ensures SanitizeNames(segs)[0] == segs[0].(name := Sanitize(segs[0].name))
    ensures SanitizeNames(segs)[1..] == SanitizeNames(segs[1..])
  {
  }

  /** Text shorter than the opener cannot hold it. */
  lemma {:induction false} ShortLacksOpener(x: string)
    requires |x| < |RefHead|
    ensures !Contains(x, RefHead)
    decreases |x|
  {
    if |x| > 0 {
      ShortLacksOpener(x[1..]);
    }
  }

  /** One reference between two stretches of text without the opener. */
  lemma WrappedReference(open: string, close: string, g: string, w: string)
    requires !Contains(open, RefHead) && !Contains(close, RefHead)
    requires |g| > 0 && QuoteFree(g) && SingleLine(g) && AllBlank(w)
    ensures var md := open + Reference(g, w) + close;
      References(md) == [Reference(g, w)] && Names(md) == [g]
      && RewriteReferences(md) == open + Reference(Sanitize(g), w) + close
  {
    var seg := Segment(open, g, w);
    var clean := Segment(open, Sanitize(g), w);
    JoinOne(seg);
    JoinOne(clean);
    assert SanitizeNames([seg]) == [clean];
    assert SegmentRefs([seg]) == [Reference(g, w)];
    assert SegmentNames([seg]) == [g];
    NamesOfJoin([seg], close);
    ReferencesOfJoin([seg], close);
    ReferencesWithoutOpener(close);
    RewriteOfJoin([seg], close);
    RewriteWithoutReference(close);
  }

  lemma JoinOne(seg: Segment)
    ensures Join([seg]) == seg.text + Reference(seg.name, seg.blank)
  {
    assert [seg][1..] == [];
  }

  /** An image as the renderer writes it: the reference is found inside
      `<ac:image>`, its name is the one extracted, and the rewrite changes
      the name only. */
  lemma ImageReference(g: string, w: string)
    requires |g| > 0 && QuoteFree(g) && SingleLine(g) && AllBlank(w)
    ensures var md := "<ac:image>" + Reference(g, w) + "</ac:image>";
      References(md) == [Reference(g, w)] && Names(md) == [g]
      && RewriteReferences(md) == "<ac:image>" + Reference(Sanitize(g), w) + "</ac:image>"
  {
    ShortLacksOpener("<ac:image>");
    ShortLacksOpener("</ac:image>");
    WrappedReference("<ac:image>", "</ac:image>", g, w);
  }

  /** A reference whose name holds `/` or `..` is always changed by the
      rewrite, so the markup written after the rewrite never equals the
      markup before it. */
  lemma UncleanNameRewritten(open: string, close: string, g: string, w: string)
    requires !Contains(open, RefHead) && !Contains(close, RefHead)
    requires |g| > 0 && QuoteFree(g) && SingleLine(g) && AllBlank(w)
    requires !IsClean(g)
    ensures RewriteReferences(open + Reference(g, w) + close) != open + Reference(g, w) + close
  {
    WrappedReference(open, close, g, w);
    SanitizeChangesIff(g);
    NameSlice(open, close, g, w);
    NameSlice(open, close, Sanitize(g), w);
  }

  /** Where the file name sits in a wrapped reference. */
  lemma NameSlice(open: string, close: string, g: string, w: string)
    ensures var m := open + Reference(g, w) + close; var k := |open| + |RefHead|;
      |m| == k + |g| + (3 + |w| + |close|) && m[k..k + |g|] == g
  {
    var head := open + RefHead;
    var tail := "\"" + w + "/>" + close;
    assert open + Reference(g, w) + close == head + g + tail;
    SliceMiddle(head, g, tail);
  }

  lemma SliceMiddle(a: string, b: string, c: string)
    ensures (a + b + c)[|a|..|a| + |b|] == b
  {
  }

  /** The image `images/a.png` as the renderer writes it is rewritten to
      `images_a.png`. */
  lemma ImagePathRewritten(w: string)
    requires AllBlank(w)
    ensures var md := "<ac:image>" + Reference("images/a.png", w) + "</ac:image>";
      RewriteReferences(md) != md
  {
    var g := "images/a.png";
    ImageNameFacts();
    ShortLacksOpener("<ac:image>");
    ShortLacksOpener("</ac:image>");
    UncleanNameRewritten("<ac:image>", "</ac:image>", g, w);
  }

  lemma ImageNameFacts()
    ensures QuoteFree("images/a.png") && SingleLine("images/a.png") && !IsClean("images/a.png")
  {
    QuoteFreeName();
    SingleLineName();
    assert "images/a.png"[6] == '/';
  }

  lemma QuoteFreeName()
    ensures QuoteFree("images/a.png")
  {
  }

  lemma SingleLineName()
    ensures SingleLine("images/a.png")
  {
  }
}
