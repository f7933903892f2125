/** The small part of JavaScript's string semantics the synchronizer relies on:
    literal prefix tests, substring search, global literal replacement and
    `String.prototype.trim`. */
module JsStrings {

  /** `p` is a prefix of `s`. */
  predicate StartsWith(s: string, p: string) {
    |p| <= |s| && s[..|p|] == p
  }

  /** `p` occurs somewhere in `s`. */
  predicate Contains(s: string, p: string)
    decreases |s|
  {
    StartsWith(s, p) || (|s| > 0 && Contains(s[1..], p))
  }

  /** The characters JavaScript's `trim` and `parseInt` skip: WhiteSpace and
      LineTerminator of ECMA-262. */
  predicate IsJsSpace(c: char) {
    || c == '\t' || c == '\n' || c == '\U{B}' || c == '\U{C}' || c == '\r' || c == ' '
    || c == '\U{A0}' || c == '\U{1680}' || ('\U{2000}' <= c <= '\U{200A}')
    || c == '\U{2028}' || c == '\U{2029}' || c == '\U{202F}' || c == '\U{205F}'
    || c == '\U{3000}' || c == '\U{FEFF}'
  }

  /** The characters a regular-expression `.` does not match. */
  predicate IsLineTerminator(c: char) {
    c == '\n' || c == '\r' || c == '\U{2028}' || c == '\U{2029}'
  }

  predicate AllSpace(s: string) {
    forall i :: 0 <= i < |s| ==> IsJsSpace(s[i])
  }

  /** `s.replace(/p/g, rep)` for a literal, non-empty pattern `p`: occurrences
      are replaced left to right and never overlap. */
  function ReplaceAll(s: string, p: string, rep: string): string
    requires |p| > 0
    decreases |s|
  {
    if |s| == 0 then ""
    else if StartsWith(s, p) then rep + ReplaceAll(s[|p|..], p, rep)
    else [s[0]] + ReplaceAll(s[1..], p, rep)
  }

  /** Without an occurrence of `p` the replacement changes nothing. */
  lemma {:induction false} ReplaceAllAbsent(s: string, p: string, rep: string)
    requires |p| > 0
    requires !Contains(s, p)
    ensures ReplaceAll(s, p, rep) == s
    decreases |s|
  {
    if |s| > 0 {
      ReplaceAllAbsent(s[1..], p, rep);
      assert [s[0]] + s[1..] == s;
    }
  }

  /** A replacement shorter than the pattern never lengthens, and strictly
      shortens as soon as the pattern occurs. */
  lemma {:induction false} ReplaceAllShrinks(s: string, p: string, rep: string)
    requires |rep| < |p|
    ensures |ReplaceAll(s, p, rep)| <= |s|
    ensures Contains(s, p) ==> |ReplaceAll(s, p, rep)| < |s|
    decreases |s|
  {
    if |s| > 0 {
      if StartsWith(s, p) {
        ReplaceAllShrinks(s[|p|..], p, rep);
      } else {
        ReplaceAllShrinks(s[1..], p, rep);
      }
    }
  }

  /** The result of replacing a pattern that occurs, by a shorter text, differs
      from the input; it equals the input exactly when the pattern is absent. */
  lemma ReplaceAllIsIdentityIff(s: string, p: string, rep: string)
    requires |rep| < |p|
    ensures ReplaceAll(s, p, rep) == s <==> !Contains(s, p)
  {
    ReplaceAllShrinks(s, p, rep);
    if !Contains(s, p) {
      ReplaceAllAbsent(s, p, rep);
    }
  }

  /** Number of leading whitespace characters. */
  function LeadingSpace(s: string): (n: nat)
    ensures n <= |s|
    ensures n == |s| || !IsJsSpace(s[n])
    decreases |s|
  {
    if |s| > 0 && IsJsSpace(s[0]) then 1 + LeadingSpace(s[1..]) else 0
  }

  /** Number of trailing whitespace characters. */
  function TrailingSpace(s: string): (n: nat)
    ensures n <= |s|
    ensures n == |s| || !IsJsSpace(s[|s| - n - 1])
    decreases |s|
  {
    if |s| > 0 && IsJsSpace(s[|s| - 1]) then 1 + TrailingSpace(s[..|s| - 1]) else 0
  }

  /** `s.trim()`: whitespace removed at both ends. */
  function Trim(s: string): (r: string)
    ensures |r| <= |s|
    ensures r == [] || (!IsJsSpace(r[0]) && !IsJsSpace(r[|r| - 1]))
  {
    var t := s[LeadingSpace(s)..];
    t[..|t| - TrailingSpace(t)]
  }

  lemma {:induction false} LeadingSpaceIsSpace(s: string)
    ensures AllSpace(s[..LeadingSpace(s)])
    decreases |s|
  {
    if |s| > 0 && IsJsSpace(s[0]) {
      LeadingSpaceIsSpace(s[1..]);
      assert s[..LeadingSpace(s)] == [s[0]] + s[1..][..LeadingSpace(s[1..])];
    }
  }

  lemma {:induction false} TrailingSpaceIsSpace(s: string)
    ensures AllSpace(s[|s| - TrailingSpace(s)..])
    decreases |s|
  {
    if |s| > 0 && IsJsSpace(s[|s| - 1]) {
      var s' := s[..|s| - 1];
      TrailingSpaceIsSpace(s');
      var n := TrailingSpace(s');
      forall i | |s| - 1 - n <= i < |s|
        ensures IsJsSpace(s[i])
      {
        if i < |s| - 1 {
          assert s[i] == s'[|s'| - n..][i - (|s'| - n)];
        }
      }
    }
  }

  /** Trimming keeps one contiguous piece of the input and removes only
      whitespace around it. */
  lemma TrimKeepsCore(s: string)
    ensures var r := Trim(s);
      exists i :: 0 <= i <= |s| - |r| && s[i..i + |r|] == r && AllSpace(s[..i]) && AllSpace(s[i + |r|..])
  {
    var a := LeadingSpace(s);
    var t := s[a..];
    var b := TrailingSpace(t);
    var r := t[..|t| - b];
    LeadingSpaceIsSpace(s);
    TrailingSpaceIsSpace(t);
    assert s[a..a + |r|] == r;
    assert s[a + |r|..] == t[|t| - b..];
  }

  /** Whitespace around a text does not survive trimming. */
  lemma TrimIgnoresSurroundingSpace(w1: string, x: string, w2: string)
    requires AllSpace(w1) && AllSpace(w2)
    ensures Trim(w1 + x + w2) == Trim(x)
  {
    var s := w1 + x + w2;
    assert s == w1 + (x + w2);
    TrimAfterSpace(w1, x + w2);
    if LeadingSpace(x) == |x| {
      LeadingSpaceBeforeSpace(x, w2);
      TrimOfSpaceRun(x + w2);
      TrimOfSpaceRun(x);
    } else {
      TrimBeforeSpace(x, w2);
    }
  }

  lemma TrimAfterSpace(w: string, y: string)
    requires AllSpace(w)
    ensures Trim(w + y) == Trim(y)
  {
    LeadingSpaceAfterSpace(w, y);
    assert (w + y)[|w| + LeadingSpace(y)..] == y[LeadingSpace(y)..];
  }

  lemma TrimBeforeSpace(x: string, w: string)
    requires AllSpace(w)
    requires LeadingSpace(x) < |x|
    ensures Trim(x + w) == Trim(x)
  {
    LeadingSpaceBeforeSpace(x, w);
    TrimBeforeSpaceAt(x, w);
  }

  lemma TrimBeforeSpaceAt(x: string, w: string)
    requires AllSpace(w)
    requires LeadingSpace(x) < |x|
    requires LeadingSpace(x + w) == LeadingSpace(x)
    ensures Trim(x + w) == Trim(x)
  {
    var a := LeadingSpace(x);
    var t' := x[a..];
    var t := (x + w)[a..];
    assert t == t' + w;
    assert Trim(x + w) == t[..|t| - TrailingSpace(t)];
    assert Trim(x) == t'[..|t'| - TrailingSpace(t')];
    TrimTail(t', w);
  }

  lemma TrimTail(t': string, w: string)
    requires AllSpace(w)
    requires |t'| > 0 && !IsJsSpace(t'[0])
    ensures var t := t' + w; t[..|t| - TrailingSpace(t)] == t'[..|t'| - TrailingSpace(t')]
  {
    TrailingSpaceAfterSpace(t', w);
    var b' := TrailingSpace(t');
    assert (t' + w)[..|t' + w| - (|w| + b')] == t'[..|t'| - b'];
  }

  /** Text that neither starts nor ends with whitespace is its own trim. */
  lemma TrimUnpadded(s: string)
    requires |s| > 0 && !IsJsSpace(s[0]) && !IsJsSpace(s[|s| - 1])
    ensures Trim(s) == s
  {
    assert LeadingSpace(s) == 0 && TrailingSpace(s) == 0;
    assert s[0..] == s && s[..|s|] == s;
  }

  lemma TrimOfSpaceRun(s: string)
    requires LeadingSpace(s) == |s|
    ensures Trim(s) == []
  {
  }

  lemma {:induction false} LeadingSpaceAfterSpace(w: string, y: string)
    requires AllSpace(w)
    ensures LeadingSpace(w + y) == |w| + LeadingSpace(y)
    decreases |w|
  {
    if |w| > 0 {
      assert (w + y)[1..] == w[1..] + y;
      LeadingSpaceAfterSpace(w[1..], y);
    } else {
      assert w + y == y;
    }
  }

  lemma {:induction false} LeadingSpaceBeforeSpace(x: string, w: string)
    requires AllSpace(w)
    ensures LeadingSpace(x + w) == if LeadingSpace(x) == |x| then |x| + |w| else LeadingSpace(x)
    decreases |x|
  {
    if |x| == 0 {
      assert x + w == w;
      AllSpaceLeading(w);
    } else {
      assert (x + w)[1..] == x[1..] + w;
      LeadingSpaceBeforeSpace(x[1..], w);
    }
  }

  lemma {:induction false} AllSpaceLeading(w: string)
    requires AllSpace(w)
    ensures LeadingSpace(w) == |w|
    decreases |w|
  {
    if |w| > 0 {
      AllSpaceLeading(w[1..]);
    }
  }

  lemma {:induction false} TrailingOfAllSpace(w: string)
    requires AllSpace(w)
    ensures TrailingSpace(w) == |w|
    decreases |w|
  {
    if |w| > 0 {
      TrailingOfAllSpace(w[..|w| - 1]);
    }
  }

  lemma {:induction false} TrailingSpaceAfterSpace(t: string, w: string)
    requires AllSpace(w)
    requires |t| > 0 && !IsJsSpace(t[0])
    ensures TrailingSpace(t + w) == |w| + TrailingSpace(t)
    ensures TrailingSpace(t) < |t|
    decreases |w|
  {
    TrailingSpaceIsSpace(t);
    if |w| > 0 {
      assert (t + w)[..|t + w| - 1] == t + w[..|w| - 1];
      TrailingSpaceAfterSpace(t, w[..|w| - 1]);
    } else {
      assert t + w == t;
    }
  }

  /** The number of `' '` characters ` *` consumes at the start of `u`. */
  function SpaceRun(u: string): (n: nat)
    ensures n <= |u|
    decreases |u|
  {
    if |u| > 0 && u[0] == ' ' then 1 + SpaceRun(u[1..]) else 0
  }

  predicate AllBlank(w: string) {
    forall i :: 0 <= i < |w| ==> w[i] == ' '
  }

  lemma {:induction false} SpaceRunIsBlank(u: string)
    ensures AllBlank(u[..SpaceRun(u)])
    decreases |u|
  {
    if |u| > 0 && u[0] == ' ' {
      SpaceRunIsBlank(u[1..]);
      assert u[..SpaceRun(u)] == [u[0]] + u[1..][..SpaceRun(u[1..])];
    }
  }

  lemma {:induction false} SpaceRunOfBlank(w: string, v: string)
    requires AllBlank(w) && (|v| == 0 || v[0] != ' ')
    ensures SpaceRun(w + v) == |w|
    decreases |w|
  {
    if |w| == 0 {
      assert w + v == v;
    } else {
      assert (w + v)[1..] == w[1..] + v;
      SpaceRunOfBlank(w[1..], v);
    }
  }
}
