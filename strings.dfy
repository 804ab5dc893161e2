/**
 * Character classes and string helpers shared by the normaliser, the lexer
 * and the result builder. Each function here stands for one JavaScript
 * built-in or regular-expression class that the package relies on.
 */
module Strings {

  datatype Option<+T> = None | Some(value: T)

  /** ECMAScript `\s`: the WhiteSpace and LineTerminator code points. */
  predicate IsWs(c: char) {
    c == '\t' || c == '\n' || c == '\U{B}' || c == '\U{C}' || c == '\r' || c == ' ' ||
    c == '\U{A0}' || c == '\U{1680}' || ('\U{2000}' <= c <= '\U{200A}') ||
    c == '\U{2028}' || c == '\U{2029}' || c == '\U{202F}' || c == '\U{205F}' ||
    c == '\U{3000}' || c == '\U{FEFF}'
  }

  /** ECMAScript `\S`. */
  predicate IsNonWs(c: char) { !IsWs(c) }

  /** The class `[^\S\n]`: whitespace other than a newline ("horizontal" whitespace). */
  predicate IsHs(c: char) { IsWs(c) && c != '\n' }

  /** The four ECMAScript line terminators; `.` excludes them and `^` in multiline mode follows them. */
  predicate IsLineTerm(c: char) {
    c == '\n' || c == '\r' || c == '\U{2028}' || c == '\U{2029}'
  }

  /** The class `.` of a JavaScript regular expression. */
  predicate NotLineTerm(c: char) { !IsLineTerm(c) }

  /** The class `[^\n]`. */
  predicate NotNewline(c: char) { c != '\n' }

  predicate IsSpace(c: char) { c == ' ' }

  predicate IsNewline(c: char) { c == '\n' }

  predicate AllWs(s: string) { forall i :: 0 <= i < |s| ==> IsWs(s[i]) }

  /** Length of the longest prefix of `s` whose elements all satisfy `p`. */
  function Span<T>(s: seq<T>, p: T -> bool): (n: nat)
    ensures n <= |s|
    ensures forall i :: 0 <= i < n ==> p(s[i])
    ensures n < |s| ==> !p(s[n])
  {
    if |s| > 0 && p(s[0]) then 1 + Span(s[1..], p) else 0
  }

  /** Length of the run of elements satisfying `p` that starts at index `k`. */
  function SpanFrom<T>(s: seq<T>, p: T -> bool, k: nat): (n: nat)
    requires k <= |s|
    ensures k + n <= |s|
    ensures forall i :: k <= i < k + n ==> p(s[i])
    ensures k + n < |s| ==> !p(s[k + n])
    decreases |s| - k
  {
    if k < |s| && p(s[k]) then 1 + SpanFrom(s, p, k + 1) else 0
  }

  lemma SpanFromUnique<T>(s: seq<T>, p: T -> bool, k: nat, n: nat)
    requires k + n <= |s|
    requires forall i :: k <= i < k + n ==> p(s[i])
    requires k + n < |s| ==> !p(s[k + n])
    ensures SpanFrom(s, p, k) == n
    decreases n
  {
    if n > 0 { SpanFromUnique(s, p, k + 1, n - 1); }
  }

  /** Any prefix of elements satisfying `p`, followed by one that does not, has the length Span finds. */
  lemma SpanUnique<T>(s: seq<T>, p: T -> bool, n: nat)
    requires n <= |s|
    requires forall i :: 0 <= i < n ==> p(s[i])
    requires n < |s| ==> !p(s[n])
    ensures Span(s, p) == n
  {
  }

  /** Length of the longest suffix of `s` whose elements all satisfy `p`. */
  function SpanBack<T>(s: seq<T>, p: T -> bool): (n: nat)
    ensures n <= |s|
    ensures forall i :: |s| - n <= i < |s| ==> p(s[i])
    ensures n < |s| ==> !p(s[|s| - 1 - n])
  {
    if |s| > 0 && p(s[|s| - 1]) then 1 + SpanBack(s[..|s| - 1], p) else 0
  }

  /** `xs.map(f)`. */
  function MapSeq<A, B>(f: A -> B, xs: seq<A>): (r: seq<B>)
    ensures |r| == |xs|
    ensures forall i :: 0 <= i < |xs| ==> r[i] == f(xs[i])
  {
    if |xs| == 0 then [] else [f(xs[0])] + MapSeq(f, xs[1..])
  }

  /** Mapping over one more element at the end adds its image at the end. */
  lemma MapSeqSnoc<A, B>(f: A -> B, xs: seq<A>, x: A)
    ensures MapSeq(f, xs + [x]) == MapSeq(f, xs) + [f(x)]
  {
    var l := MapSeq(f, xs + [x]);
    var r := MapSeq(f, xs) + [f(x)];
    assert |l| == |r|;
    forall i | 0 <= i < |l| ensures l[i] == r[i] {
      assert (xs + [x])[i] == if i < |xs| then xs[i] else x;
    }
  }

  /** Span of a prefix: the run stops where the whole run stops, or at the end of the prefix. */
  lemma SpanPrefix<T>(s: seq<T>, p: T -> bool, k: nat)
    requires k <= |s|
    ensures Span(s[..k], p) == if Span(s, p) < k then Span(s, p) else k
  {
    var n := if Span(s, p) < k then Span(s, p) else k;
    assert forall i :: 0 <= i < n ==> s[..k][i] == s[i];
    SpanUnique(s[..k], p, n);
  }

  /** Span of a concatenation: the run continues into `b` only when it covers all of `a`. */
  lemma SpanAppend<T>(a: seq<T>, b: seq<T>, p: T -> bool)
    ensures Span(a + b, p) == if Span(a, p) < |a| then Span(a, p) else |a| + Span(b, p)
  {
    var n := if Span(a, p) < |a| then Span(a, p) else |a| + Span(b, p);
    forall i | 0 <= i < n ensures p((a + b)[i]) {
      if i >= |a| { assert (a + b)[i] == b[i - |a|]; }
    }
    if n < |a + b| && n >= |a| { assert (a + b)[n] == b[n - |a|]; }
    SpanUnique(a + b, p, n);
  }

  /** Removing a whitespace tail from text that ends in a non-space character gives the text back. */
  lemma {:induction false} TrimRightWsTail(x: string, t: string)
    requires AllWs(t)
    requires x == [] || IsNonWs(x[|x| - 1])
    ensures TrimRight(x + t) == x
    decreases |t|
  {
    if t == [] {
      assert x + t == x;
    } else {
      assert (x + t)[..|x + t| - 1] == x + t[..|t| - 1];
      TrimRightWsTail(x, t[..|t| - 1]);
    }
  }

  /** `p` occurs in `s` at position `k`. */
  predicate OccursAt(s: string, p: string, k: nat) {
    k + |p| <= |s| && s[k..k + |p|] == p
  }

  predicate StartsWith(s: string, p: string) { OccursAt(s, p, 0) }

  predicate EndsWith(s: string, p: string) { |p| <= |s| && OccursAt(s, p, |s| - |p|) }

  /** `String.prototype.indexOf(p, from)`: the first occurrence at or after `from`, or -1. */
  function IndexOf(s: string, p: string, from: nat): (k: int)
    ensures k == -1 || (from <= k && OccursAt(s, p, k))
    ensures k == -1 ==> forall j :: from <= j ==> !OccursAt(s, p, j)
    ensures k >= 0 ==> forall j :: from <= j < k ==> !OccursAt(s, p, j)
    decreases |s| - from
  {
    if from + |p| > |s| then -1
    else if OccursAt(s, p, from) then from
    else IndexOf(s, p, from + 1)
  }

  /** `s` with its trailing run of whitespace removed (`replace(/\s+$/, '')`). */
  function TrimRight(s: string): (r: string)
    ensures |r| <= |s| && r == s[..|r|]
    ensures r == [] || IsNonWs(r[|r| - 1])
    ensures AllWs(s[|r|..])
  {
    if |s| > 0 && IsWs(s[|s| - 1]) then
      var r := TrimRight(s[..|s| - 1]);
      assert s[|r|..] == s[..|s| - 1][|r|..] + [s[|s| - 1]];
      r
    else s
  }

  /** `s` with its leading run of whitespace removed. */
  function TrimLeft(s: string): (r: string)
    ensures |r| <= |s| && r == s[|s| - |r|..]
    ensures r == [] || IsNonWs(r[0])
    ensures AllWs(s[..|s| - |r|])
  {
    s[Span(s, IsWs)..]
  }

  /** `String.prototype.trim`. */
  function Trim(s: string): (r: string)
  {
    TrimLeft(TrimRight(s))
  }

  predicate IsTrimmed(s: string) {
    s == [] || (IsNonWs(s[0]) && IsNonWs(s[|s| - 1]))
  }

  /** trim removes exactly a leading and a trailing run of whitespace, and leaves no whitespace at either end. */
  lemma TrimSpec(s: string)
    ensures IsTrimmed(Trim(s))
    ensures exists i, j :: 0 <= i <= j <= |s| && Trim(s) == s[i..j] && AllWs(s[..i]) && AllWs(s[j..])
  {
    var t := TrimRight(s);
    var r := TrimLeft(t);
    var i := |t| - |r|;
    assert r == s[i..|t|];
    assert s[..i] == t[..i];
    if r != [] {
      assert r[|r| - 1] == t[|t| - 1];
    }
  }

  /** Trimming is idempotent. */
  lemma TrimTrimmed(s: string)
    requires IsTrimmed(s)
    ensures Trim(s) == s
  {
  }

  /** Concatenation of a sequence of strings, in order. */
  function Concat(ss: seq<string>): string
  {
    if |ss| == 0 then "" else Concat(ss[..|ss| - 1]) + ss[|ss| - 1]
  }

  lemma {:induction false} ConcatAppend(a: seq<string>, b: seq<string>)
    ensures Concat(a + b) == Concat(a) + Concat(b)
    decreases |b|
  {
    if |b| == 0 {
      assert a + b == a;
    } else {
      var b' := b[..|b| - 1];
      var x := b[|b| - 1];
      assert (a + b)[..|a + b| - 1] == a + b';
      assert (a + b)[|a + b| - 1] == x;
      ConcatAppend(a, b');
      assert Concat(a + b) == Concat(a) + Concat(b') + x;
      assert Concat(a) + Concat(b') + x == Concat(a) + (Concat(b') + x);
    }
  }

  lemma ConcatSplit(ss: seq<string>, k: nat)
    requires k <= |ss|
    ensures Concat(ss[..k]) + Concat(ss[k..]) == Concat(ss)
  {
    assert ss == ss[..k] + ss[k..];
    ConcatAppend(ss[..k], ss[k..]);
  }

  /** `s.split('\n')`: the lines of `s`; there is always at least one, and none holds a newline. */
  function Lines(s: string): (ls: seq<string>)
    ensures |ls| >= 1
    ensures forall i :: 0 <= i < |ls| ==> '\n' !in ls[i]
    decreases |s|
  {
    var k := Span(s, NotNewline);
    if k == |s| then [s] else [s[..k]] + Lines(s[k + 1..])
  }

  /** `lines.join('\n')`. */
  function Unlines(ls: seq<string>): string
  {
    if |ls| == 0 then "" else if |ls| == 1 then ls[0] else ls[0] + "\n" + Unlines(ls[1..])
  }

  /** Joining the lines of a string gives the string back. */
  lemma {:induction false} UnlinesLines(s: string)
    ensures Unlines(Lines(s)) == s
    decreases |s|
  {
    var k := Span(s, NotNewline);
    if k < |s| {
      UnlinesLines(s[k + 1..]);
      assert s == s[..k] + "\n" + s[k + 1..];
    }
  }

  /** Splitting a join of newline-free lines gives the lines back. */
  lemma {:induction false} LinesUnlines(ls: seq<string>)
    requires |ls| >= 1
    requires forall i :: 0 <= i < |ls| ==> '\n' !in ls[i]
    ensures Lines(Unlines(ls)) == ls
    decreases |ls|
  {
    var s := Unlines(ls);
    if |ls| == 1 {
      SpanUnique(s, NotNewline, |s|);
    } else {
      var t := Unlines(ls[1..]);
      assert s == ls[0] + "\n" + t;
      assert s[|ls[0]|] == '\n';
      forall i | 0 <= i < |ls[0]| ensures NotNewline(s[i]) {
        assert s[i] == ls[0][i];
      }
      SpanUnique(s, NotNewline, |ls[0]|);
      assert s[..|ls[0]|] == ls[0];
      assert s[|ls[0]| + 1..] == t;
      LinesUnlines(ls[1..]);
    }
  }

  /** `replace(/\n+$/, '\n')`: a trailing run of newlines becomes exactly one. */
  function CollapseTrailingNewlines(s: string): (r: string)
  {
    if |s| > 0 && s[|s| - 1] == '\n' then StripTrailingNewlines(s) + "\n" else s
  }

  function StripTrailingNewlines(s: string): (r: string)
    ensures |r| <= |s| && r == s[..|r|]
    ensures r == [] || r[|r| - 1] != '\n'
    ensures forall i :: |r| <= i < |s| ==> s[i] == '\n'
  {
    if |s| > 0 && s[|s| - 1] == '\n' then StripTrailingNewlines(s[..|s| - 1]) else s
  }

  /** After collapsing, a string that ended in newlines ends in exactly one, and nothing before the run changed. */
  lemma CollapseSpec(s: string)
    ensures var r := CollapseTrailingNewlines(s);
            (s == [] || s[|s| - 1] != '\n' ==> r == s) &&
            (s != [] && s[|s| - 1] == '\n' ==>
               |r| >= 1 && r[|r| - 1] == '\n' && (|r| == 1 || r[|r| - 2] != '\n') &&
               r[..|r| - 1] == s[..|r| - 1] &&
               forall i :: |r| - 1 <= i < |s| ==> s[i] == '\n')
  {
  }

  /** A run of `n` spaces. */
  function Spaces(n: nat): (r: string)
    ensures |r| == n && forall i :: 0 <= i < n ==> r[i] == ' '
  {
    if n == 0 then "" else Spaces(n - 1) + " "
  }
}
