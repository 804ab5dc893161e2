/**
 * The comment normaliser of `lib/utils.js`: `stripStars` is a fixed chain of
 * regular-expression rewrites followed by `stripIndent` and `trimRight`, and
 * `typeOf` classifies the values the entry point receives. Each rewrite is a
 * function over the text, stated as the JavaScript engine applies it.
 */
module Utils {
  import opened Strings
  import opened JsValues

  predicate IsStar(c: char) { c == '*' }

  // ---------------------------------------------------------------------------
  // replace(/\t/g, '  ')

  /** Every tab becomes two spaces. */
  function ExpandTabs(s: string): (r: string)
    ensures '\t' !in r
    ensures '\t' !in s ==> r == s
  {
    if |s| == 0 then "" else (if s[0] == '\t' then "  " else [s[0]]) + ExpandTabs(s[1..])
  }

  /** Tab expansion works character by character: it distributes over concatenation. */
  lemma {:induction false} ExpandTabsAppend(a: string, b: string)
    ensures ExpandTabs(a + b) == ExpandTabs(a) + ExpandTabs(b)
    decreases |a|
  {
    if |a| == 0 {
      assert a + b == b;
    } else {
      var c := if a[0] == '\t' then "  " else [a[0]];
      assert (a + b)[0] == a[0] && (a + b)[1..] == a[1..] + b;
      assert ExpandTabs(a + b) == c + ExpandTabs(a[1..] + b);
      ExpandTabsAppend(a[1..], b);
    }
  }

  /** A tab becomes exactly two spaces, and any other character is kept. */
  lemma ExpandTabsChar(c: char)
    ensures ExpandTabs([c]) == if c == '\t' then "  " else [c]
  {
  }

  // ---------------------------------------------------------------------------
  // replace(/^\s*\/\*+[^\S\n]*/, '')

  /** Length of the opener `\s*\/\*+[^\S\n]*` at the start of `s`, or 0 when there is none. */
  function OpenerLength(s: string): (n: nat)
    ensures n <= |s|
  {
    var w := SpanFrom(s, IsWs, 0);
    if w + 1 < |s| && s[w] == '/' && s[w + 1] == '*' then
      var st := SpanFrom(s, IsStar, w + 1);
      w + 1 + st + SpanFrom(s, IsHs, w + 1 + st)
    else 0
  }

  /**
   * The text after a leading comment opener. Text is changed exactly when,
   * after its leading whitespace, it starts with a slash and a star.
   */
  function StripOpener(s: string): string {
    s[OpenerLength(s)..]
  }

  lemma StripOpenerSpec(s: string)
    ensures StripOpener(s) == s <==> !StartsWith(s[Span(s, IsWs)..], "/*")
  {
    var w := Span(s, IsWs);
    assert w == SpanFrom(s, IsWs, 0) by { SpanFromUnique(s, IsWs, 0, w); }
    if w + 1 < |s| { assert s[w..][..2] == [s[w], s[w + 1]]; }
  }

  predicate AllHs(s: string) { forall i :: 0 <= i < |s| ==> IsHs(s[i]) }

  /**
   * The opener removed is exactly the longest prefix made of whitespace, a
   * slash, one or more stars and horizontal whitespace.
   */
  lemma StripOpenerParts(s: string, a: nat, b: nat, c: nat)
    requires a + 1 < b <= c <= |s|
    requires forall i :: 0 <= i < a ==> IsWs(s[i])
    requires s[a] == '/' && forall i :: a < i < b ==> s[i] == '*'
    requires forall i :: b <= i < c ==> IsHs(s[i])
    requires b < |s| ==> s[b] != '*'
    requires c < |s| ==> !IsHs(s[c])
    ensures StripOpener(s) == s[c..]
  {
    OpenerLengthParts(s, a, b, c);
  }

  lemma OpenerLengthParts(s: string, a: nat, b: nat, c: nat)
    requires a + 1 < b <= c <= |s|
    requires forall i :: 0 <= i < a ==> IsWs(s[i])
    requires s[a] == '/' && forall i :: a < i < b ==> s[i] == '*'
    requires forall i :: b <= i < c ==> IsHs(s[i])
    requires b < |s| ==> s[b] != '*'
    requires c < |s| ==> !IsHs(s[c])
    ensures OpenerLength(s) == c
  {
    SpanFromUnique(s, IsWs, 0, a);
    SpanFromUnique(s, IsStar, a + 1, b - a - 1);
    SpanFromUnique(s, IsHs, b, c - b);
    OpenerLengthOf(s, a, b - a - 1, c - b);
  }

  lemma OpenerLengthOf(s: string, a: nat, st: nat, hs: nat)
    requires a + 1 < |s| && s[a] == '/' && s[a + 1] == '*'
    requires SpanFrom(s, IsWs, 0) == a
    requires a + 1 + st <= |s| && SpanFrom(s, IsStar, a + 1) == st
    requires SpanFrom(s, IsHs, a + 1 + st) == hs
    ensures OpenerLength(s) == a + 1 + st + hs
  {
  }

  // ---------------------------------------------------------------------------
  // replace(/[^\S\n]*\*\/\s*$/, '')

  /**
   * The text before a trailing comment closer. Text is changed exactly when,
   * ignoring trailing whitespace, it ends in a star and a slash.
   */
  function StripCloser(s: string): (r: string)
    ensures |r| <= |s| && r == s[..|r|]
    ensures r == s <==> !EndsWith(TrimRight(s), "*/")
  {
    var e := |TrimRight(s)|;
    assert TrimRight(s) == s[..e];
    assert EndsWith(TrimRight(s), "*/") <==> e >= 2 && s[e - 2] == '*' && s[e - 1] == '/' by {
      if e >= 2 { assert s[..e][e - 2..e] == [s[e - 2], s[e - 1]]; }
    }
    if e >= 2 && s[e - 2] == '*' && s[e - 1] == '/' then
      s[..e - 2 - SpanBack(s[..e - 2], IsHs)]
    else s
  }

  /**
   * Built from its parts (the body, horizontal whitespace, a star and a slash,
   * trailing whitespace), the closer is removed and exactly the body remains.
   */
  lemma StripCloserParts(body: string, h: string, t: string)
    requires AllHs(h) && AllWs(t)
    requires body == [] || !IsHs(body[|body| - 1])
    ensures StripCloser(body + h + "*/" + t) == body
  {
    var x := body + h + "*/";
    var s := x + t;
    TrimRightWsTail(x, t);
    var e := |x|;
    assert s[..e] == x;
    assert s[e - 2] == '*' && s[e - 1] == '/';
    assert s[..e - 2] == body + h;
    SpanBackAppend(body, h);
  }

  lemma {:induction false} SpanBackAppend(body: string, h: string)
    requires AllHs(h)
    requires body == [] || !IsHs(body[|body| - 1])
    ensures SpanBack(body + h, IsHs) == |h|
    decreases |h|
  {
    if h == [] {
      assert body + h == body;
    } else {
      assert (body + h)[..|body + h| - 1] == body + h[..|h| - 1];
      SpanBackAppend(body, h[..|h| - 1]);
    }
  }

  // replace(/^[^\S\n]*\*/gm, '')

  /**
   * The global multiline replacement scanned left to right: `atStart` says whether
   * the current position follows a line terminator (or is the start of the text).
   */
  function StripLineStarsFrom(s: string, atStart: bool): string
    decreases |s|
  {
    if |s| == 0 then ""
    else
      var h := Span(s, IsHs);
      if atStart && h < |s| && s[h] == '*' then StripLineStarsFrom(s[h + 1..], false)
      else [s[0]] + StripLineStarsFrom(s[1..], IsLineTerm(s[0]))
  }

  function StripLineStars(s: string): string {
    StripLineStarsFrom(s, true)
  }

  /** What the rewrite does to one line: leading horizontal whitespace and one star go. */
  function StripLineStar(l: string): (r: string)
  {
    var h := Span(l, IsHs);
    if h < |l| && l[h] == '*' then l[h + 1..] else l
  }

  /** Text with no line terminator at all. */
  predicate NoLineTerm(s: string) { forall i :: 0 <= i < |s| ==> !IsLineTerm(s[i]) }

  /** Text whose only line terminator is `\n`. */
  predicate OnlyNewlines(s: string) { forall i :: 0 <= i < |s| ==> IsLineTerm(s[i]) ==> s[i] == '\n' }

  lemma {:induction false} StripLineStarsCopies(x: string, rest: string)
    requires NoLineTerm(x)
    ensures StripLineStarsFrom(x + rest, false) == x + StripLineStarsFrom(rest, false)
    decreases |x|
  {
    if |x| == 0 {
      assert x + rest == rest;
    } else {
      assert (x + rest)[1..] == x[1..] + rest;
      StripLineStarsCopies(x[1..], rest);
    }
  }

  /** One line followed by the end of the text or by a newline. */
  lemma StripLineStarsLine(l: string, tail: string)
    requires NoLineTerm(l)
    requires tail == [] || tail[0] == '\n'
    ensures StripLineStarsFrom(l + tail, true) == StripLineStar(l) + StripLineStarsFrom(tail, false)
  {
    SpanAppend(l, tail, IsHs);
    var h := Span(l, IsHs);
    if h < |l| && l[h] == '*' {
      LineStarCase(l, tail, h);
    } else if |l| > 0 {
      LineCopyCase(l, tail);
    } else {
      assert l + tail == tail;
    }
  }

  lemma LineStarCase(l: string, tail: string, h: nat)
    requires NoLineTerm(l) && h == Span(l, IsHs) && h < |l| && l[h] == '*'
    requires Span(l + tail, IsHs) == h
    ensures StripLineStarsFrom(l + tail, true) == l[h + 1..] + StripLineStarsFrom(tail, false)
  {
    var s := l + tail;
    StarAtIndent(s, h);
    SuffixAppend(l, tail, h + 1);
    NoLineTermSuffix(l, h + 1);
    StripLineStarsCopies(l[h + 1..], tail);
  }

  /** At a line start, indentation and a star are dropped. */
  lemma StarAtIndent(s: string, h: nat)
    requires h == Span(s, IsHs) && h < |s| && s[h] == '*'
    ensures StripLineStarsFrom(s, true) == StripLineStarsFrom(s[h + 1..], false)
  {
  }

  lemma SuffixAppend(l: string, tail: string, j: nat)
    requires j <= |l|
    ensures (l + tail)[j..] == l[j..] + tail
  {
  }

  lemma NoLineTermSuffix(l: string, k: nat)
    requires NoLineTerm(l) && k <= |l|
    ensures NoLineTerm(l[k..])
  {
    assert forall i :: 0 <= i < |l[k..]| ==> l[k..][i] == l[k + i];
  }

  lemma LineCopyCase(l: string, tail: string)
    requires NoLineTerm(l) && |l| > 0
    requires tail == [] || tail[0] == '\n'
    requires var h := Span(l, IsHs); !(h < |l| && l[h] == '*')
    requires Span(l + tail, IsHs) == if Span(l, IsHs) < |l| then Span(l, IsHs) else |l| + Span(tail, IsHs)
    ensures StripLineStarsFrom(l + tail, true) == l + StripLineStarsFrom(tail, false)
  {
    NoStarAfterIndent(l, tail);
    LineCopyStep(l, tail);
    StripLineStarsCopies(l, tail);
  }

  lemma NoStarAfterIndent(l: string, tail: string)
    requires tail == [] || tail[0] == '\n'
    requires var h := Span(l, IsHs); !(h < |l| && l[h] == '*')
    requires Span(l + tail, IsHs) == if Span(l, IsHs) < |l| then Span(l, IsHs) else |l| + Span(tail, IsHs)
    ensures var h := Span(l + tail, IsHs); !(h < |l + tail| && (l + tail)[h] == '*')
  {
    if Span(l, IsHs) == |l| && tail != [] { assert Span(tail, IsHs) == 0; }
  }

  /** Where no star follows the indentation, the line start makes no difference. */
  lemma LineCopyStep(l: string, tail: string)
    requires |l| > 0 && !IsLineTerm(l[0])
    requires var h := Span(l + tail, IsHs); !(h < |l + tail| && (l + tail)[h] == '*')
    ensures StripLineStarsFrom(l + tail, true) == StripLineStarsFrom(l + tail, false)
  {
    assert (l + tail)[0] == l[0];
  }

  /** The lines of `s`, split at the first newline. */
  lemma LinesHead(s: string)
    ensures var k := Span(s, NotNewline);
            k < |s| ==> s[k] == '\n' && Lines(s) == [s[..k]] + Lines(s[k + 1..])
    ensures Span(s, NotNewline) == |s| ==> Lines(s) == [s]
  {
  }

  lemma OnlyNewlinesSplit(s: string, k: nat)
    requires OnlyNewlines(s) && k <= |s|
    requires forall i :: 0 <= i < k ==> s[i] != '\n'
    ensures NoLineTerm(s[..k])
    ensures k < |s| ==> OnlyNewlines(s[k + 1..])
  {
    if k < |s| {
      var t := s[k + 1..];
      forall i | 0 <= i < |t| ensures IsLineTerm(t[i]) ==> t[i] == '\n' {
        assert t[i] == s[k + 1 + i];
      }
    }
  }

  lemma UnlinesCons(a: string, ys: seq<string>)
    requires |ys| >= 1
    ensures Unlines([a] + ys) == a + "\n" + Unlines(ys)
  {
    assert ([a] + ys)[1..] == ys;
  }

  lemma MapSeqCons<A, B>(f: A -> B, x: A, xs: seq<A>)
    ensures MapSeq(f, [x] + xs) == [f(x)] + MapSeq(f, xs)
  {
    assert ([x] + xs)[1..] == xs;
  }

  /** Rewriting the first line and the rest separately is rewriting every line of the joined text. */
  lemma JoinLines(f: string -> string, l: string, rest: string, whole: string, restText: string)
    requires whole == f(l) + "\n" + restText
    requires restText == Unlines(MapSeq(f, Lines(rest)))
    ensures whole == Unlines(MapSeq(f, [l] + Lines(rest)))
  {
    MapSeqCons(f, l, Lines(rest));
    UnlinesCons(f(l), MapSeq(f, Lines(rest)));
  }

  /** On text whose only line terminator is `\n`, the rewrite acts on each line separately. */
  lemma {:induction false} StripLineStarsPerLine(s: string)
    requires OnlyNewlines(s)
    ensures StripLineStars(s) == Unlines(MapSeq(StripLineStar, Lines(s)))
    decreases |s|
  {
    var k := Span(s, NotNewline);
    OnlyNewlinesSplit(s, k);
    LinesHead(s);
    if k < |s| {
      StripLineStarsHead(s, k);
      StripLineStarsPerLine(s[k + 1..]);
      JoinLines(StripLineStar, s[..k], s[k + 1..], StripLineStars(s), StripLineStars(s[k + 1..]));
    } else {
      assert s[..k] == s;
      StripLineStarsLast(s);
      assert MapSeq(StripLineStar, [s]) == [StripLineStar(s)];
    }
  }

  /** The first line, its newline, then the rest of the text from a line start. */
  lemma StripLineStarsHead(s: string, k: nat)
    requires k < |s| && s[k] == '\n' && NoLineTerm(s[..k])
    ensures StripLineStars(s) == StripLineStar(s[..k]) + "\n" + StripLineStars(s[k + 1..])
  {
    assert s == s[..k] + s[k..];
    StripLineStarsLine(s[..k], s[k..]);
    assert s[k..][1..] == s[k + 1..];
  }

  /** The last line, with nothing after it. */
  lemma StripLineStarsLast(s: string)
    requires NoLineTerm(s)
    ensures StripLineStars(s) == StripLineStar(s)
  {
    assert s + "" == s;
    StripLineStarsLine(s, "");
  }

  // ---------------------------------------------------------------------------
  // replace(/^[^\S\n]{1,3}@(?=\S)/gm, '@')

  /** One to three horizontal spaces at a line start, then `@` and a non-space character. */
  predicate TagIndentAt(s: string) {
    var h := Span(s, IsHs);
    1 <= h <= 3 && h + 1 < |s| && s[h] == '@' && IsNonWs(s[h + 1])
  }

  function CollapseTagIndentFrom(s: string, atStart: bool): string
    decreases |s|
  {
    if |s| == 0 then ""
    else if atStart && TagIndentAt(s) then
      "@" + CollapseTagIndentFrom(s[Span(s, IsHs) + 1..], false)
    else [s[0]] + CollapseTagIndentFrom(s[1..], IsLineTerm(s[0]))
  }

  function CollapseTagIndent(s: string): string {
    CollapseTagIndentFrom(s, true)
  }

  /** What the rewrite does to one line. */
  function CollapseTagIndentLine(l: string): string {
    if TagIndentAt(l) then "@" + l[Span(l, IsHs) + 1..] else l
  }

  lemma {:induction false} CollapseCopies(x: string, rest: string)
    requires NoLineTerm(x)
    ensures CollapseTagIndentFrom(x + rest, false) == x + CollapseTagIndentFrom(rest, false)
    decreases |x|
  {
    if |x| == 0 {
      assert x + rest == rest;
    } else {
      assert (x + rest)[1..] == x[1..] + rest;
      CollapseCopies(x[1..], rest);
    }
  }

  /** One line followed by the end of the text or by a newline. */
  lemma CollapseLine(l: string, tail: string)
    requires NoLineTerm(l)
    requires tail == [] || tail[0] == '\n'
    ensures CollapseTagIndentFrom(l + tail, true) == CollapseTagIndentLine(l) + CollapseTagIndentFrom(tail, false)
  {
    SpanAppend(l, tail, IsHs);
    TagIndentAppend(l, tail);
    if TagIndentAt(l) {
      CollapseTagCase(l, tail);
    } else if |l| > 0 {
      CollapseCopyCase(l, tail);
    } else {
      assert l + tail == tail;
    }
  }

  lemma TagIndentAppend(l: string, tail: string)
    requires NoLineTerm(l)
    requires tail == [] || tail[0] == '\n'
    requires Span(l + tail, IsHs) == if Span(l, IsHs) < |l| then Span(l, IsHs) else |l| + Span(tail, IsHs)
    ensures TagIndentAt(l + tail) <==> TagIndentAt(l)
  {
    var s := l + tail;
    var h := Span(l, IsHs);
    if h < |l| {
      assert s[h] == l[h];
      if h + 1 < |l| { assert s[h + 1] == l[h + 1]; }
      if h + 1 == |l| && tail != [] { assert s[h + 1] == '\n'; }
    } else if tail != [] {
      assert Span(tail, IsHs) == 0;
      assert s[h] == '\n';
    }
  }

  lemma CollapseTagCase(l: string, tail: string)
    requires NoLineTerm(l) && TagIndentAt(l + tail) && TagIndentAt(l)
    requires Span(l + tail, IsHs) == Span(l, IsHs)
    ensures CollapseTagIndentFrom(l + tail, true) == "@" + l[Span(l, IsHs) + 1..] + CollapseTagIndentFrom(tail, false)
  {
    var s := l + tail;
    var h := Span(l, IsHs);
    TagAtIndent(s);
    SuffixAppend(l, tail, h + 1);
    NoLineTermSuffix(l, h + 1);
    CollapseCopies(l[h + 1..], tail);
  }

  /** At a line start, the indentation before `@` is dropped. */
  lemma TagAtIndent(s: string)
    requires TagIndentAt(s)
    ensures CollapseTagIndentFrom(s, true) == "@" + CollapseTagIndentFrom(s[Span(s, IsHs) + 1..], false)
  {
  }

  lemma CollapseCopyCase(l: string, tail: string)
    requires NoLineTerm(l) && |l| > 0 && !TagIndentAt(l + tail)
    ensures CollapseTagIndentFrom(l + tail, true) == l + CollapseTagIndentFrom(tail, false)
  {
    assert (l + tail)[0] == l[0];
    assert CollapseTagIndentFrom(l + tail, true) == CollapseTagIndentFrom(l + tail, false);
    CollapseCopies(l, tail);
  }

  lemma CollapseNewline(tail: string)
    requires |tail| > 0 && tail[0] == '\n'
    ensures CollapseTagIndentFrom(tail, false) == "\n" + CollapseTagIndentFrom(tail[1..], true)
  {
  }

  /** On text whose only line terminator is `\n`, the rewrite acts on each line separately. */
  lemma {:induction false} CollapseTagIndentPerLine(s: string)
    requires OnlyNewlines(s)
    ensures CollapseTagIndent(s) == Unlines(MapSeq(CollapseTagIndentLine, Lines(s)))
    decreases |s|
  {
    var k := Span(s, NotNewline);
    OnlyNewlinesSplit(s, k);
    LinesHead(s);
    if k < |s| {
      CollapseTagIndentHead(s, k);
      CollapseTagIndentPerLine(s[k + 1..]);
      JoinLines(CollapseTagIndentLine, s[..k], s[k + 1..], CollapseTagIndent(s), CollapseTagIndent(s[k + 1..]));
    } else {
      assert s[..k] == s;
      CollapseTagIndentLast(s);
      assert MapSeq(CollapseTagIndentLine, [s]) == [CollapseTagIndentLine(s)];
    }
  }

  /** The first line, its newline, then the rest of the text from a line start. */
  lemma CollapseTagIndentHead(s: string, k: nat)
    requires k < |s| && s[k] == '\n' && NoLineTerm(s[..k])
    ensures CollapseTagIndent(s) == CollapseTagIndentLine(s[..k]) + "\n" + CollapseTagIndent(s[k + 1..])
  {
    assert s == s[..k] + s[k..];
    CollapseLine(s[..k], s[k..]);
    CollapseNewline(s[k..]);
    assert s[k..][1..] == s[k + 1..];
  }

  /** The last line, with nothing after it. */
  lemma CollapseTagIndentLast(s: string)
    requires NoLineTerm(s)
    ensures CollapseTagIndent(s) == CollapseTagIndentLine(s)
  {
    assert s + "" == s;
    CollapseLine(s, "");
  }

  // ---------------------------------------------------------------------------
  // stripIndent

  /** A line (no `\n` in it) holds a non-whitespace character. */
  predicate HasContent(l: string) { Span(l, IsHs) < |l| }

  /** The index of the first line that holds a non-whitespace character. */
  function FirstContentLine(ls: seq<string>): (r: Option<nat>)
    ensures r.None? <==> forall i :: 0 <= i < |ls| ==> !HasContent(ls[i])
    ensures r.Some? ==> r.value < |ls| && HasContent(ls[r.value]) &&
                        forall j :: 0 <= j < r.value ==> !HasContent(ls[j])
  {
    if |ls| == 0 then None
    else if HasContent(ls[0]) then Some(0)
    else
      match FirstContentLine(ls[1..])
      case None => None
      case Some(i) => Some(i + 1)
  }

  /** The indentation (`[^\S\n]*`) of the first line that holds a non-whitespace character. */
  function FirstIndent(ls: seq<string>): Option<nat> {
    match FirstContentLine(ls)
    case None => None
    case Some(i) => Some(Span(ls[i], IsHs))
  }

  /** Remove exactly `n` leading spaces from a line that has them; leave any other line alone. */
  function DropIndent(n: nat, l: string): string {
    if StartsWith(l, Spaces(n)) then l[n..] else l
  }

  /** `stripIndent`: the width of the first non-blank line is removed from every line. */
  function StripIndent(s: string): string {
    match FirstIndent(Lines(s))
    case None => s
    case Some(n) => Unlines(MapSeq((l: string) => DropIndent(n, l), Lines(s)))
  }

  /**
   * The lines of the result are the lines of the input, each with exactly `n`
   * leading spaces removed when it has them, `n` being the indentation of the
   * first line that holds a non-whitespace character; without such a line the
   * text is returned unchanged.
   */
  lemma StripIndentSpec(s: string)
    ensures FirstIndent(Lines(s)).None? ==> StripIndent(s) == s
    ensures FirstIndent(Lines(s)).Some? ==>
      var n := FirstIndent(Lines(s)).value;
      |Lines(StripIndent(s))| == |Lines(s)| &&
      forall i :: 0 <= i < |Lines(s)| ==>
        Lines(StripIndent(s))[i] == (if StartsWith(Lines(s)[i], Spaces(n)) then Lines(s)[i][n..] else Lines(s)[i])
  {
    if FirstIndent(Lines(s)).Some? {
      var n := FirstIndent(Lines(s)).value;
      var ms := MapSeq((l: string) => DropIndent(n, l), Lines(s));
      forall i | 0 <= i < |ms| ensures '\n' !in ms[i] {
        assert ms[i] == DropIndent(n, Lines(s)[i]);
        assert '\n' !in Lines(s)[i];
      }
      LinesUnlines(ms);
    }
  }

  /** Text with no non-whitespace character comes back unchanged. */
  lemma StripIndentBlank(s: string)
    requires AllWs(s)
    ensures StripIndent(s) == s
  {
    BlankLines(s);
  }

  lemma {:induction false} BlankLines(s: string)
    requires AllWs(s)
    ensures forall i :: 0 <= i < |Lines(s)| ==> !HasContent(Lines(s)[i])
    decreases |s|
  {
    var k := Span(s, NotNewline);
    LinesHead(s);
    forall i | 0 <= i < k ensures IsHs(s[..k][i]) {
      assert s[..k][i] == s[i] && s[i] != '\n';
    }
    SpanUnique(s[..k], IsHs, k);
    if k < |s| {
      var rest := s[k + 1..];
      assert AllWs(rest) by {
        forall i | 0 <= i < |rest| ensures IsWs(rest[i]) { assert rest[i] == s[k + 1 + i]; }
      }
      BlankLines(rest);
      assert forall i :: 1 <= i < |Lines(s)| ==> Lines(s)[i] == Lines(rest)[i - 1];
    }
  }

  // ---------------------------------------------------------------------------
  // stripStars

  /** `stripStars`: the whole rewrite chain; its result never ends in whitespace. */
  function StripStars(s: string): (r: string)
    ensures r == [] || IsNonWs(r[|r| - 1])
  {
    var res := TrimRight(CollapseTagIndent(StripLineStars(StripCloser(StripOpener(ExpandTabs(s))))));
    TrimRight(StripIndent(res))
  }

  /** A one-line block comment is reduced to its text: `'/* foo */'` gives `'foo'`. */
  lemma StripStarsOneLine()
    ensures StripStars("/* foo */") == "foo"
  {
    OneLineMarkers();
    OneLineText();
    OneLineIndent();
  }

  lemma OneLineMarkers()
    ensures StripCloser(StripOpener(ExpandTabs("/* foo */"))) == "foo"
  {
    OneLineOpener();
    OneLineCloser();
  }

  lemma OneLineOpener()
    ensures StripOpener(ExpandTabs("/* foo */")) == "foo */"
  {
    OneLineNoTabs();
    OneLineOpenerParts();
  }

  lemma OneLineNoTabs()
    ensures ExpandTabs("/* foo */") == "/* foo */"
  {
    assert '\t' !in "/* foo */";
  }

  lemma OneLineOpenerParts()
    ensures StripOpener("/* foo */") == "foo */"
  {
    StripOpenerParts("/* foo */", 0, 2, 3);
  }

  lemma OneLineCloser()
    ensures StripCloser("foo */") == "foo"
  {
    assert "foo */" == "foo" + " " + "*/" + "";
    StripCloserParts("foo", " ", "");
  }

  lemma OneLineText()
    ensures TrimRight(CollapseTagIndent(StripLineStars("foo"))) == "foo"
  {
    OneLineNoStar();
    OneLineNoTagIndent();
  }

  lemma OneLineNoStar()
    ensures StripLineStars("foo") == "foo"
  {
    assert Span("foo", IsHs) == 0;
    assert "foo"[1..] == "oo" + "";
    StripLineStarsCopies("oo", "");
  }

  lemma OneLineNoTagIndent()
    ensures CollapseTagIndent("foo") == "foo"
  {
    assert !TagIndentAt("foo");
    assert "foo"[1..] == "oo" + "";
    CollapseCopies("oo", "");
  }

  lemma OneLineIndent()
    ensures TrimRight(StripIndent("foo")) == "foo"
  {
    SpanUnique("foo", NotNewline, 3);
    assert Lines("foo") == ["foo"];
    assert HasContent("foo");
    assert DropIndent(0, "foo") == "foo";
  }

  // ---------------------------------------------------------------------------
  // typeOf

  /** `typeOf`: the native type name of a value, or `undefined` (None). */
  function TypeOf(v: JsValue): (r: Option<string>)
    ensures r == Some("string") <==> v.Str?
    ensures r == Some("array") <==> v.Array?
    ensures r == Some("regexp") <==> v.RegExp?
    ensures r == Some("object") <==> v.Object?
    ensures r.None? <==> (v.Undefined? || v.Null? || v.Bool? || v.Number? || v.Function?)
  {
    match v
    case Str(_) => Some("string")
    case Array(_) => Some("array")
    case RegExp(_) => Some("regexp")
    case Object(_) => Some("object")
    case _ => None
  }
}
