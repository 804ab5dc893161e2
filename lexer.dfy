/**
 * The lexer of `lib/tokenize.js`: seven matchers tried in a fixed order at the
 * start of the remaining text. Each matcher is first given as a pure function
 * on the text (the specification), and the three matchers whose source code
 * runs a `while` loop are then implemented again as methods with that loop,
 * proved equal to their specification.
 */
module Lexer {
  import opened Strings

  /** The tokens the matchers produce; `raw`, `value`, `key` and `language` are the token fields. */
  datatype Token =
    | Break(text: string)
    | Newline
    | Fenced(raw: string, language: string, value: string)
    | Indented(raw: string, value: string)
    | Javadoc(raw: string, value: string)
    | TagLine(raw: string, key: string, value: string)
    | DescriptionLine(text: string)
  {
    /** The token's `value` field. */
    function Value(): string {
      match this
      case Break(t) => t
      case Newline => "\n"
      case Fenced(_, _, v) => v
      case Indented(_, v) => v
      case Javadoc(_, v) => v
      case TagLine(_, _, v) => v
      case DescriptionLine(t) => t
    }

    /** The tokens flagged `isExample`. */
    predicate IsExample() { Fenced? || Indented? || Javadoc? }
  }

  /** The one error the matchers raise: a fenced block whose closing fence never comes. */
  datatype LexError = MissingClosingFence(fence: string)

  /** The text of the exception the lexer throws. */
  function Message(e: LexError): string {
    "missing closing \"" + e.fence + "\""
  }

  /** What one matcher does with the remaining text: no match, a token and the length it consumed, or a throw. */
  datatype Outcome =
    | NoMatch
    | Match(tok: Token, used: nat)
    | Fail(err: LexError)

  // ---------------------------------------------------------------------------
  // break `^\n{2,}` and newline `^\n`

  function MatchBreak(s: string): Outcome {
    var n := Span(s, IsNewline);
    if n >= 2 then Match(Break(s[..n]), n) else NoMatch
  }

  function MatchNewline(s: string): Outcome {
    if |s| > 0 && s[0] == '\n' then Match(Newline, 1) else NoMatch
  }

  // ---------------------------------------------------------------------------
  // gfm: `^([^\S\n]{0,3})(`{3,4}|~{3,4})(.*)`, then the closing fence

  predicate IsFenceChar(c: char) { c == '`' || c == '~' }

  /** A recognised opener: the width of its indentation, of its fence and of the whole opener line. */
  datatype Opener = Opener(indent: nat, fenceLen: nat, length: nat)

  function GfmOpener(s: string): (r: Option<Opener>)
    ensures r.Some? ==> r.value.indent <= 3 && (r.value.fenceLen == 3 || r.value.fenceLen == 4) &&
                        r.value.indent + r.value.fenceLen <= r.value.length <= |s|
  {
    var h := Span(s, IsHs);
    if h <= 3 && h + 3 <= |s| && IsFenceChar(s[h]) && s[h + 1] == s[h] && s[h + 2] == s[h] then
      var f := if h + 3 < |s| && s[h + 3] == s[h] then 4 else 3;
      Some(Opener(h, f, h + f + SpanFrom(s, NotLineTerm, h + f)))
    else None
  }

  /** The closing fence searched for: always backticks, of the opener's length. */
  function Fence(fenceLen: nat): (f: string)
    ensures fenceLen == 3 || fenceLen == 4 ==> |f| == fenceLen
  {
    if fenceLen == 3 then "```" else "````"
  }

  /** An occurrence of the fence at `j` that does not follow a backslash. */
  predicate ClosesAt(rest: string, fence: string, j: nat) {
    OccursAt(rest, fence, j) && !(j > 0 && rest[j - 1] == '\\')
  }

  /** The first position at or after `from` where the fence closes the block, or -1. */
  function ClosingFenceFrom(rest: string, fence: string, from: nat): (k: int)
    ensures k == -1 || (from <= k && k + |fence| <= |rest|)
    decreases |rest| - from
  {
    if from + |fence| > |rest| then -1
    else if ClosesAt(rest, fence, from) then from
    else ClosingFenceFrom(rest, fence, from + 1)
  }

  /** The search finds the first closing position at or after `from`, and -1 only when there is none. */
  lemma {:induction false} ClosingFenceSpec(rest: string, fence: string, from: nat)
    ensures var k := ClosingFenceFrom(rest, fence, from);
            (k == -1 || (from <= k && ClosesAt(rest, fence, k))) &&
            (k == -1 ==> forall j :: from <= j ==> !ClosesAt(rest, fence, j)) &&
            (k >= 0 ==> forall j :: from <= j < k ==> !ClosesAt(rest, fence, j))
    decreases |rest| - from
  {
    if from + |fence| <= |rest| && !ClosesAt(rest, fence, from) {
      ClosingFenceSpec(rest, fence, from + 1);
    }
  }

  function ClosingFence(rest: string, fence: string): int {
    ClosingFenceFrom(rest, fence, 0)
  }

  /** `ele.slice(n)`: a line without its first `n` characters. */
  function DropN(n: nat, l: string): string {
    if n <= |l| then l[n..] else ""
  }

  /** `segs.map(ele => ele.slice(n))`. */
  function DropEach(n: nat, ls: seq<string>): (r: seq<string>)
    ensures |r| == |ls| && forall i :: 0 <= i < |ls| ==> r[i] == DropN(n, ls[i])
  {
    if |ls| == 0 then [] else [DropN(n, ls[0])] + DropEach(n, ls[1..])
  }

  /** The body of an indented fence loses the opener's indentation width from every line. */
  function Dedent(n: nat, body: string): string {
    if n > 0 then Unlines(DropEach(n, Lines(body))) else body
  }

  function MatchGfm(s: string): Outcome {
    match GfmOpener(s)
    case None => NoMatch
    case Some(o) =>
      var rest := s[o.length..];
      var fence := Fence(o.fenceLen);
      var idx := ClosingFence(rest, fence);
      if idx < 0 then Fail(MissingClosingFence(fence))
      else
        var used := o.length + idx + o.fenceLen;
        Match(Fenced(s[..used], s[o.indent + o.fenceLen..o.length], Dedent(o.indent, rest[..idx])), used)
  }

  // ---------------------------------------------------------------------------
  // indented: `^ {4}([^\n]*\n?)`, then every following line that starts with
  // four spaces or is empty

  /** Lines joined with a `\n` after each one. */
  function Terminated(ls: seq<string>): string {
    if |ls| == 0 then "" else Terminated(ls[..|ls| - 1]) + ls[|ls| - 1] + "\n"
  }

  predicate IsIndentedLine(l: string) { StartsWith(l, "    ") || l == "" }

  /** The `[^\n]*\n?` part of a line regex applied at `p`: where the match ends. */
  function LineMatchEnd(s: string, p: nat): (m: nat)
    requires p <= |s|
    ensures p <= m <= |s|
    ensures forall i :: p <= i < m - 1 ==> s[i] != '\n'
    ensures m < |s| ==> m > p && s[m - 1] == '\n'
    ensures (m > p && s[m - 1] == '\n') || (m == |s| && forall i :: p <= i < m ==> s[i] != '\n')
  {
    var k := SpanFrom(s, NotNewline, p);
    if p + k < |s| then p + k + 1 else p + k
  }

  /**
   * The indented matcher: four spaces and the rest of that line, then, over
   * the `split('\n')` of what follows, the run of lines that start with four
   * spaces or are empty. Each of those lines counts with its `\n`, but no more
   * is consumed than is there.
   */
  function MatchIndented(s: string): Outcome {
    if StartsWith(s, "    ") then
      var m := LineMatchEnd(s, 4);
      var lines := Lines(s[m..]);
      var block := lines[..Span(lines, IsIndentedLine)];
      var raw := CollapseTrailingNewlines(s[..m] + Terminated(block));
      var value := CollapseTrailingNewlines(s[4..m] + Terminated(DropEach(4, block)));
      Match(Indented(raw, value), m + Min(|Terminated(block)|, |s| - m))
    else NoMatch
  }

  function Min(a: nat, b: nat): nat { if a <= b then a else b }

  // ---------------------------------------------------------------------------
  // javadoc: `^@example *([^\n]*\n?)`, then every line up to one that starts
  // (after whitespace) with `@` or a fence

  /** `/^\s*(@|`{3,4}|~{3,4})/.test(line)`. */
  predicate JavadocStops(l: string) {
    var w := Span(l, IsWs);
    w < |l| && (l[w] == '@' || OccursAt(l, "```", w) || OccursAt(l, "~~~", w))
  }

  predicate JavadocContinues(l: string) { !JavadocStops(l) }

  /** Where the example text starts on the `@example` line: after the keyword and its spaces. */
  function JavadocStart(s: string): (st: nat)
    requires StartsWith(s, "@example")
    ensures 8 <= st <= |s|
  {
    8 + SpanFrom(s, IsSpace, 8)
  }

  /** The javadoc matcher: `@example`, its spaces and the rest of that line, then the run of lines that do not stop it. */
  function MatchJavadoc(s: string): Outcome {
    if StartsWith(s, "@example") then
      var st := JavadocStart(s);
      var m := LineMatchEnd(s, st);
      var lines := Lines(s[m..]);
      var block := lines[..Span(lines, JavadocContinues)];
      var raw := CollapseTrailingNewlines(s[..m] + Terminated(block));
      var value := CollapseTrailingNewlines(s[st..m] + Terminated(block));
      Match(Javadoc(raw, value), m + Min(|Terminated(block)|, |s| - m))
    else NoMatch
  }

  // ---------------------------------------------------------------------------
  // tags: `^ {0,3}@(?!example)(\S+) *([^\n]*)`

  function MatchTag(s: string): Outcome {
    var sp := Span(s, IsSpace);
    if sp <= 3 && sp < |s| && s[sp] == '@' && !OccursAt(s, "example", sp + 1) then
      var kl := SpanFrom(s, IsNonWs, sp + 1);
      if kl == 0 then NoMatch
      else
        var vs := sp + 1 + kl + SpanFrom(s, IsSpace, sp + 1 + kl);
        var e := vs + SpanFrom(s, NotNewline, vs);
        Match(TagLine(s[..e], s[sp + 1..sp + 1 + kl], s[vs..e]), e)
    else NoMatch
  }

  // ---------------------------------------------------------------------------
  // description: `^[^\S\n]{0,3}(?!@(\S+)|`{3,4}|~{3,4}| {4})[^\n]*`

  /** The negative lookahead of the description matcher, tried after `k` characters of indentation. */
  predicate DescriptionBlocked(s: string, k: nat)
    requires k <= |s|
  {
    (k + 2 <= |s| && s[k] == '@' && IsNonWs(s[k + 1])) ||
    OccursAt(s, "```", k) || OccursAt(s, "~~~", k) || OccursAt(s, "    ", k)
  }

  function MatchDescription(s: string): Outcome {
    var h := Span(s, IsHs);
    var top := if h < 3 then h else 3;
    if exists k :: 0 <= k <= top && !DescriptionBlocked(s, k) then
      var e := Span(s, NotNewline);
      Match(DescriptionLine(s[..e]), e)
    else NoMatch
  }

  // ---------------------------------------------------------------------------
  // dispatch

  /** The matchers in the order they are registered; the first that answers wins. */
  function NextToken(s: string): (r: Outcome)
    requires |s| > 0
    ensures r.Match? ==> 0 < r.used <= |s|
    ensures !r.NoMatch?
  {
    NextTokenFacts(s);
    FirstAnswer(s)
  }

  /** The result of lexing a whole text: the token stream, or the error that stopped it. */
  datatype Lexed = Tokens(toks: seq<Token>) | LexFailed(err: LexError)

  function Prepend(ts: seq<Token>, r: Lexed): Lexed {
    match r
    case Tokens(us) => Tokens(ts + us)
    case LexFailed(e) => LexFailed(e)
  }

  /** The lexer run to the end of the text: each token is matched where the previous one stopped. */
  function LexAll(s: string): Lexed
    decreases |s|
  {
    if |s| == 0 then Tokens([])
    else
      var r := NextToken(s);
      if r.Match? then Prepend([r.tok], LexAll(s[r.used..])) else LexFailed(r.err)
  }

  function FirstAnswer(s: string): Outcome {
    var b := MatchBreak(s);
    if !b.NoMatch? then b else
    var n := MatchNewline(s);
    if !n.NoMatch? then n else
    var g := MatchGfm(s);
    if !g.NoMatch? then g else
    var i := MatchIndented(s);
    if !i.NoMatch? then i else
    var j := MatchJavadoc(s);
    if !j.NoMatch? then j else
    var t := MatchTag(s);
    if !t.NoMatch? then t else
    MatchDescription(s)
  }

  lemma NextTokenFacts(s: string)
    requires |s| > 0
    ensures var r := FirstAnswer(s);
            (r.Match? ==> 0 < r.used <= |s|) && !r.NoMatch?
  {
    if MatchBreak(s).NoMatch? && MatchNewline(s).NoMatch? && MatchGfm(s).NoMatch? &&
       MatchIndented(s).NoMatch? && MatchJavadoc(s).NoMatch? && MatchTag(s).NoMatch? {
      DescriptionAnswers(s);
    }
    if MatchGfm(s).Match? { GfmUsed(s); }
    if MatchTag(s).Match? { TagUsed(s); }
  }

  lemma GfmUsed(s: string)
    requires MatchGfm(s).Match?
    ensures 0 < MatchGfm(s).used <= |s|
  {
    var o := GfmOpener(s).value;
    var rest := s[o.length..];
    var idx := ClosingFence(rest, Fence(o.fenceLen));
  }

  lemma TagUsed(s: string)
    requires MatchTag(s).Match?
    ensures 0 < MatchTag(s).used <= |s|
  {
  }

  /** When no earlier matcher answers, the description matcher takes the line, which is not empty. */
  lemma DescriptionAnswers(s: string)
    requires |s| > 0 && s[0] != '\n'
    requires MatchGfm(s).NoMatch? && MatchIndented(s).NoMatch? && MatchJavadoc(s).NoMatch? && MatchTag(s).NoMatch?
    ensures MatchDescription(s).Match? && MatchDescription(s).used > 0
  {
    FenceAnswers(s);
    AtAnswers(s);
    assert !DescriptionBlocked(s, 0);
  }

  /** Text starting with three backticks or tildes is taken by the fence matcher. */
  lemma FenceAnswers(s: string)
    ensures StartsWith(s, "```") || StartsWith(s, "~~~") ==> !MatchGfm(s).NoMatch?
  {
    if |s| >= 3 {
      assert s[..3][0] == s[0] && s[..3][1] == s[1] && s[..3][2] == s[2];
    }
  }

  /** Text starting with `@` and a non-space character is taken by the javadoc or the tag matcher. */
  lemma AtAnswers(s: string)
    ensures |s| >= 2 && s[0] == '@' && IsNonWs(s[1]) ==> !MatchJavadoc(s).NoMatch? || !MatchTag(s).NoMatch?
  {
    if |s| >= 2 && s[0] == '@' {
      assert Span(s, IsSpace) == 0;
      if |s| >= 8 && !OccursAt(s, "example", 1) { assert !StartsWith(s, "@example"); }
      if |s| >= 8 && OccursAt(s, "example", 1) { assert s[..8] == "@" + s[1..8]; }
    }
  }

  // ---------------------------------------------------------------------------
  // The matchers whose source runs a loop, as methods with that loop

  /**
   * The fence search: the first occurrence of the fence, then the next one for
   * as long as the current one follows a backslash.
   */
  method FindClosingFence(rest: string, fence: string) returns (idx: int)
    ensures idx == ClosingFence(rest, fence)
  {
    idx := IndexOf(rest, fence, 0);
    while idx > 0 && rest[idx - 1] == '\\'
      invariant idx == -1 || (idx >= 0 && OccursAt(rest, fence, idx))
      invariant idx >= 0 ==> forall j :: 0 <= j < idx ==> !ClosesAt(rest, fence, j)
      invariant idx == -1 ==> forall j :: 0 <= j ==> !ClosesAt(rest, fence, j)
      decreases if idx < 0 then 0 else |rest| + 1 - idx
    {
      idx := IndexOf(rest, fence, idx + 1);
    }
    assert idx >= 0 ==> ClosesAt(rest, fence, idx);
    LeastClosing(rest, fence, idx);
  }

  /** The position found by any search that finds a closing fence with none before it, or proves there is none. */
  lemma LeastClosing(rest: string, fence: string, idx: int)
    requires idx == -1 || (idx >= 0 && ClosesAt(rest, fence, idx))
    requires idx >= 0 ==> forall j :: 0 <= j < idx ==> !ClosesAt(rest, fence, j)
    requires idx == -1 ==> forall j :: 0 <= j ==> !ClosesAt(rest, fence, j)
    ensures idx == ClosingFence(rest, fence)
  {
    ClosingFenceSpec(rest, fence, 0);
  }

  method LexGfm(s: string) returns (r: Outcome)
    ensures r == MatchGfm(s)
  {
    var opener := GfmOpener(s);
    if opener.None? {
      return NoMatch;
    }
    var o := opener.value;
    var rest := s[o.length..];
    var fence := Fence(o.fenceLen);
    var idx := FindClosingFence(rest, fence);
    if idx == -1 {
      return Fail(MissingClosingFence(fence));
    }
    var raw := s[..o.length] + rest[..idx + o.fenceLen];
    SliceJoin(s, o.length, idx + o.fenceLen);
    var value := rest[..idx];
    if o.indent > 0 {
      value := Unlines(DropEach(o.indent, Lines(value)));
    }
    var language := s[o.indent + o.fenceLen..o.length];
    GfmMatched(s, o, idx, raw, language, value);
    r := Match(Fenced(raw, language, value), o.length + idx + o.fenceLen);
  }

  /** The fenced token that `MatchGfm` builds, from its parts. */
  lemma GfmMatched(s: string, o: Opener, idx: nat, raw: string, language: string, value: string)
    requires GfmOpener(s) == Some(o)
    requires idx == ClosingFence(s[o.length..], Fence(o.fenceLen))
    requires o.length + idx + o.fenceLen <= |s|
    requires raw == s[..o.length + idx + o.fenceLen]
    requires language == s[o.indent + o.fenceLen..o.length]
    requires value == Dedent(o.indent, s[o.length..][..idx])
    ensures MatchGfm(s) == Match(Fenced(raw, language, value), o.length + idx + o.fenceLen)
  {
    var rest := s[o.length..];
    assert MatchGfm(s) == Match(Fenced(s[..o.length + idx + o.fenceLen], s[o.indent + o.fenceLen..o.length], Dedent(o.indent, rest[..idx])), o.length + idx + o.fenceLen);
  }

  method LexIndented(s: string) returns (r: Outcome)
    ensures r == MatchIndented(s)
  {
    if !StartsWith(s, "    ") {
      return NoMatch;
    }
    var m := LineMatchEnd(s, 4);
    var value, raw, len := IndentedRun(s[4..m], s[..m], Lines(s[m..]));
    value := CollapseTrailingNewlines(value);
    raw := CollapseTrailingNewlines(raw);
    IndentedMatched(s, raw, value, m + Min(len, |s| - m));
    r := Match(Indented(raw, value), m + Min(len, |s| - m));
  }

  /** The indented token that `MatchIndented` builds, from its parts. */
  lemma IndentedMatched(s: string, raw: string, value: string, used: nat)
    requires StartsWith(s, "    ")
    requires var m := LineMatchEnd(s, 4);
             var lines := Lines(s[m..]);
             var block := lines[..Span(lines, IsIndentedLine)];
             raw == CollapseTrailingNewlines(s[..m] + Terminated(block)) &&
             value == CollapseTrailingNewlines(s[4..m] + Terminated(DropEach(4, block))) &&
             used == m + Min(|Terminated(block)|, |s| - m)
    ensures MatchIndented(s) == Match(Indented(raw, value), used)
  {
  }

  /** The indented line loop: it appends each indented or empty line, and the same line without its four spaces. */
  method IndentedRun(value0: string, raw0: string, lines: seq<string>) returns (value: string, raw: string, len: nat)
    ensures var block := lines[..Span(lines, IsIndentedLine)];
            value == value0 + Terminated(DropEach(4, block)) && raw == raw0 + Terminated(block) &&
            len == |Terminated(block)|
  {
    value, raw, len := value0, raw0, 0;
    var i := 0;
    AccumulateStart(value0, DropEach(4, lines));
    AccumulateStart(raw0, lines);
    while i < |lines| && (StartsWith(lines[i], "    ") || lines[i] == "")
      invariant 0 <= i <= |lines|
      invariant value == value0 + Terminated(DropEach(4, lines)[..i])
      invariant raw == raw0 + Terminated(lines[..i])
      invariant |raw| == |raw0| + len
      invariant AllIndented(lines, i)
    {
      ExtendDropped(value0, value, lines, i);
      Extend(raw0, raw, lines, i);
      value := value + DropN(4, lines[i]) + "\n";
      raw := raw + lines[i] + "\n";
      len := len + |lines[i]| + 1;
      i := i + 1;
    }
    SpanUnique(lines, IsIndentedLine, i);
    DropEachPrefix(4, lines, i);
  }

  /** The first `i` lines are indented or empty. */
  predicate AllIndented(lines: seq<string>, i: nat)
    requires i <= |lines|
  {
    forall j :: 0 <= j < i ==> IsIndentedLine(lines[j])
  }

  method LexJavadoc(s: string) returns (r: Outcome)
    ensures r == MatchJavadoc(s)
  {
    if !StartsWith(s, "@example") {
      return NoMatch;
    }
    var st := JavadocStart(s);
    var m := LineMatchEnd(s, st);
    var value, raw, len := JavadocRun(s[st..m], s[..m], Lines(s[m..]));
    value := CollapseTrailingNewlines(value);
    raw := CollapseTrailingNewlines(raw);
    JavadocMatched(s, raw, value, m + Min(len, |s| - m));
    r := Match(Javadoc(raw, value), m + Min(len, |s| - m));
  }

  /** The javadoc token that `MatchJavadoc` builds, from its parts. */
  lemma JavadocMatched(s: string, raw: string, value: string, used: nat)
    requires StartsWith(s, "@example")
    requires var st := JavadocStart(s);
             var m := LineMatchEnd(s, st);
             var lines := Lines(s[m..]);
             var block := lines[..Span(lines, JavadocContinues)];
             raw == CollapseTrailingNewlines(s[..m] + Terminated(block)) &&
             value == CollapseTrailingNewlines(s[st..m] + Terminated(block)) &&
             used == m + Min(|Terminated(block)|, |s| - m)
    ensures MatchJavadoc(s) == Match(Javadoc(raw, value), used)
  {
  }

  /** The javadoc line loop: it appends each line that does not stop the block to both texts. */
  method JavadocRun(value0: string, raw0: string, lines: seq<string>) returns (value: string, raw: string, len: nat)
    ensures var block := lines[..Span(lines, JavadocContinues)];
            value == value0 + Terminated(block) && raw == raw0 + Terminated(block) && len == |Terminated(block)|
  {
    value, raw, len := value0, raw0, 0;
    var i := 0;
    AccumulateStart(value0, lines);
    AccumulateStart(raw0, lines);
    while i < |lines| && (!JavadocStops(lines[i]) || lines[i] == "")
      invariant 0 <= i <= |lines|
      invariant value == value0 + Terminated(lines[..i])
      invariant raw == raw0 + Terminated(lines[..i])
      invariant |raw| == |raw0| + len
      invariant forall j :: 0 <= j < i ==> JavadocContinues(lines[j])
    {
      Extend(value0, value, lines, i);
      Extend(raw0, raw, lines, i);
      value := value + lines[i] + "\n";
      raw := raw + lines[i] + "\n";
      len := len + |lines[i]| + 1;
      i := i + 1;
    }
    SpanUnique(lines, JavadocContinues, i);
  }

  /** Dispatch in priority order, with the loop-based matchers. */
  method LexNext(s: string) returns (r: Outcome)
    requires |s| > 0
    ensures r == NextToken(s)
  {
    r := MatchBreak(s);
    if !r.NoMatch? { return; }
    r := MatchNewline(s);
    if !r.NoMatch? { return; }
    r := LexGfm(s);
    if !r.NoMatch? { return; }
    r := LexIndented(s);
    if !r.NoMatch? { return; }
    r := LexJavadoc(s);
    if !r.NoMatch? { return; }
    r := MatchTag(s);
    if !r.NoMatch? { return; }
    r := MatchDescription(s);
  }

  // ---------------------------------------------------------------------------
  // What the line loops compute, in terms of the lines of the whole text

  lemma TerminatedSnoc(ls: seq<string>, l: string)
    ensures Terminated(ls + [l]) == Terminated(ls) + l + "\n"
  {
    assert (ls + [l])[..|ls|] == ls;
  }

  lemma SliceJoin(s: string, a: nat, b: nat)
    requires a + b <= |s|
    ensures s[..a] + s[a..][..b] == s[..a + b]
  {
  }

  /** Before the line loop, the accumulator is the text matched on the first line. */
  lemma AccumulateStart(a: string, ls: seq<string>)
    ensures a == a + Terminated(ls[..0])
  {
    assert ls[..0] == [];
  }

  /** One turn of a line loop appends the line and its `\n` to the accumulator. */
  lemma AccumulateStep(a: string, ls: seq<string>, i: nat)
    requires i < |ls|
    ensures a + Terminated(ls[..i]) + ls[i] + "\n" == a + Terminated(ls[..i + 1])
  {
    assert ls[..i + 1] == ls[..i] + [ls[i]];
    TerminatedSnoc(ls[..i], ls[i]);
  }

  /** The accumulator after one more turn of a line loop. */
  lemma Extend(a: string, acc: string, ls: seq<string>, i: nat)
    requires i < |ls| && acc == a + Terminated(ls[..i])
    ensures acc + ls[i] + "\n" == a + Terminated(ls[..i + 1])
  {
    AccumulateStep(a, ls, i);
  }

  /** The same for an accumulator of lines without their first four characters. */
  lemma ExtendDropped(a: string, acc: string, ls: seq<string>, i: nat)
    requires i < |ls| && acc == a + Terminated(DropEach(4, ls)[..i])
    ensures acc + DropN(4, ls[i]) + "\n" == a + Terminated(DropEach(4, ls)[..i + 1])
  {
    AccumulateStep(a, DropEach(4, ls), i);
  }

  lemma DropEachPrefix(n: nat, ls: seq<string>, i: nat)
    requires i <= |ls|
    ensures DropEach(n, ls)[..i] == DropEach(n, ls[..i])
  {
  }

}
