/**
 * What the lexer of `lib/tokenize.js` promises about the tokens it returns:
 * which matcher answers, what each kind of token holds, and when lexing fails.
 */
module LexerFacts {
  import opened Strings
  import opened Lexer

  // ---------------------------------------------------------------------------
  // priority

  /** Every token comes from the one matcher that makes that kind of token. */
  lemma Answered(s: string)
    requires |s| > 0
    ensures var r := NextToken(s);
            (r.Fail? ==> r == MatchGfm(s)) &&
            (r.Match? && r.tok.Break? ==> r == MatchBreak(s)) &&
            (r.Match? && r.tok.Newline? ==> r == MatchNewline(s)) &&
            (r.Match? && r.tok.Fenced? ==> r == MatchGfm(s)) &&
            (r.Match? && r.tok.Indented? ==> r == MatchIndented(s)) &&
            (r.Match? && r.tok.Javadoc? ==> r == MatchJavadoc(s)) &&
            (r.Match? && r.tok.TagLine? ==> r == MatchTag(s)) &&
            (r.Match? && r.tok.DescriptionLine? ==> r == MatchDescription(s))
  {
  }

  /** A run of two or more newlines is one break token; a single newline is a newline token. */
  lemma NewlineRun(s: string)
    requires |s| > 0 && s[0] == '\n'
    ensures var n := Span(s, IsNewline);
            NextToken(s) == if n >= 2 then Match(Break(s[..n]), n) else Match(Newline, 1)
  {
  }

  /** Text that starts with a newline is always a break or a newline token, whatever follows. */
  lemma NewlineFirst(s: string)
    requires |s| > 0
    ensures NextToken(s).Match? && (NextToken(s).tok.Break? || NextToken(s).tok.Newline?) <==> s[0] == '\n'
  {
    if s[0] == '\n' {
      NewlineRun(s);
    } else {
      Answered(s);
    }
  }

  // ---------------------------------------------------------------------------
  // fenced blocks

  /** The opener: up to three horizontal spaces, three or four equal fence characters, and the rest of the line. */
  lemma OpenerShape(s: string)
    requires GfmOpener(s).Some?
    ensures var o := GfmOpener(s).value;
            (forall i :: 0 <= i < o.indent ==> IsHs(s[i])) &&
            IsFenceChar(s[o.indent]) &&
            (forall i :: o.indent <= i < o.indent + o.fenceLen ==> s[i] == s[o.indent]) &&
            (forall i :: o.indent + o.fenceLen <= i < o.length ==> NotLineTerm(s[i])) &&
            (o.length < |s| ==> !NotLineTerm(s[o.length]))
  {
    var o := GfmOpener(s).value;
    var t := s[o.indent + o.fenceLen..];
    var k := Span(t, NotLineTerm);
    assert o.length == o.indent + o.fenceLen + k;
    forall i | o.indent + o.fenceLen <= i < o.length ensures NotLineTerm(s[i]) {
      assert s[i] == t[i - o.indent - o.fenceLen];
    }
    if o.length < |s| {
      assert s[o.length] == t[k];
    }
  }

  /** The fenced token's parts, named once: the opener `o` and the closing position `close` in `s`. */
  lemma FencedParts(s: string)
    requires |s| > 0 && NextToken(s).Match? && NextToken(s).tok.Fenced?
    ensures GfmOpener(s).Some?
    ensures var o := GfmOpener(s).value;
            var idx := ClosingFence(s[o.length..], Fence(o.fenceLen));
            idx >= 0 && o.length + idx + o.fenceLen <= |s| &&
            NextToken(s) == Match(Fenced(s[..o.length + idx + o.fenceLen], s[o.indent + o.fenceLen..o.length],
                                         Dedent(o.indent, s[o.length..][..idx])), o.length + idx + o.fenceLen)
  {
    Answered(s);
  }

  /**
   * A fenced token's raw text runs from the start of the opener to the end of
   * the closing fence, and its language is the rest of the opener's line.
   */
  lemma FencedRaw(s: string)
    requires |s| > 0 && NextToken(s).Match? && NextToken(s).tok.Fenced?
    ensures GfmOpener(s).Some?
    ensures var o := GfmOpener(s).value;
            var r := NextToken(s);
            o.length + o.fenceLen <= r.used &&
            r.tok.raw == s[..r.used] &&
            r.tok.language == s[o.indent + o.fenceLen..o.length]
  {
    FencedParts(s);
  }

  /**
   * The block closes at the first backtick fence of the opener's length that
   * no backslash precedes.
   */
  lemma FencedClose(s: string)
    requires |s| > 0 && NextToken(s).Match? && NextToken(s).tok.Fenced?
    ensures GfmOpener(s).Some?
    ensures var o := GfmOpener(s).value;
            var close := NextToken(s).used - o.fenceLen;
            o.length <= close &&
            s[close..NextToken(s).used] == Fence(o.fenceLen) &&
            (close > o.length ==> s[close - 1] != '\\') &&
            forall j :: 0 <= j < close - o.length ==> !ClosesAt(s[o.length..], Fence(o.fenceLen), j)
  {
    FencedParts(s);
    var o := GfmOpener(s).value;
    ClosedAt(s, o.length, Fence(o.fenceLen));
  }

  /** The closing position found in `s[from..]`, read back in `s` itself. */
  lemma ClosedAt(s: string, from: nat, fence: string)
    requires from <= |s| && ClosingFence(s[from..], fence) >= 0
    ensures var idx := ClosingFence(s[from..], fence);
            s[from + idx..from + idx + |fence|] == fence &&
            (idx > 0 ==> s[from + idx - 1] != '\\') &&
            forall j :: 0 <= j < idx ==> !ClosesAt(s[from..], fence, j)
  {
    var rest := s[from..];
    var idx := ClosingFence(rest, fence);
    ClosingFenceSpec(rest, fence, 0);
    assert rest[idx..idx + |fence|] == s[from + idx..from + idx + |fence|];
    if idx > 0 {
      assert rest[idx - 1] == s[from + idx - 1];
    }
  }

  /** A fenced token's value is the body between opener and closing fence, with the opener's indentation dropped from each line. */
  lemma FencedValue(s: string)
    requires |s| > 0 && NextToken(s).Match? && NextToken(s).tok.Fenced?
    ensures GfmOpener(s).Some?
    ensures var o := GfmOpener(s).value;
            var close := NextToken(s).used - o.fenceLen;
            o.length <= close <= |s| &&
            NextToken(s).tok.value == Dedent(o.indent, s[o.length..][..close - o.length])
  {
    var o, idx := FencedCut(s);
  }

  /** The length and value of a fenced token, in terms of the opener `o` and the closing position `idx` after it. */
  lemma FencedCut(s: string) returns (o: Opener, idx: nat)
    requires |s| > 0 && NextToken(s).Match? && NextToken(s).tok.Fenced?
    ensures GfmOpener(s) == Some(o) && idx == ClosingFence(s[o.length..], Fence(o.fenceLen))
    ensures o.length + idx + o.fenceLen <= |s| && NextToken(s).used == o.length + idx + o.fenceLen
    ensures NextToken(s).tok.value == Dedent(o.indent, s[o.length..][..idx])
  {
    FencedParts(s);
    o := GfmOpener(s).value;
    idx := ClosingFence(s[o.length..], Fence(o.fenceLen));
  }

  lemma SliceOfSlice(s: string, from: nat, n: nat, to: int)
    requires from + n <= |s| && to == from + n
    ensures s[from..][..n] == s[from..to]
  {
  }

  /** Without indentation the fenced value is the body verbatim. */
  lemma DedentNone(body: string)
    ensures Dedent(0, body) == body
  {
  }

  /** Lexing throws exactly when an opener is found and no unescaped closing fence follows it. */
  lemma UnterminatedFence(s: string)
    requires |s| > 0
    ensures NextToken(s).Fail? <==>
              GfmOpener(s).Some? &&
              forall j :: 0 <= j ==> !ClosesAt(s[GfmOpener(s).value.length..], Fence(GfmOpener(s).value.fenceLen), j)
    ensures NextToken(s).Fail? ==>
              Message(NextToken(s).err) == "missing closing \"```\"" || Message(NextToken(s).err) == "missing closing \"````\""
  {
    Answered(s);
    if GfmOpener(s).Some? {
      var o := GfmOpener(s).value;
      ClosingFenceSpec(s[o.length..], Fence(o.fenceLen), 0);
      assert s[0] != '\n' by { OpenerShape(s); }
    }
  }

  /** The closing fence is made of backticks, so a text without backticks cannot close a block. */
  lemma NoBacktickNoClose(rest: string, fenceLen: nat)
    requires forall i :: 0 <= i < |rest| ==> rest[i] != '`'
    ensures forall j :: 0 <= j ==> !ClosesAt(rest, Fence(fenceLen), j)
  {
    forall j | 0 <= j ensures !ClosesAt(rest, Fence(fenceLen), j) {
      if j + |Fence(fenceLen)| <= |rest| {
        assert rest[j..j + |Fence(fenceLen)|][0] == rest[j] != Fence(fenceLen)[0];
      }
    }
  }

  /** A tilde opener is never closed by tildes: with no backtick after it, lexing throws. */
  lemma TildeFenceUnclosed(s: string)
    requires GfmOpener(s).Some?
    requires forall i :: GfmOpener(s).value.length <= i < |s| ==> s[i] != '`'
    ensures NextToken(s).Fail?
  {
    var o := GfmOpener(s).value;
    var rest := s[o.length..];
    forall i | 0 <= i < |rest| ensures rest[i] != '`' {
      assert rest[i] == s[o.length + i];
    }
    NoBacktickNoClose(rest, o.fenceLen);
    UnterminatedFence(s);
  }

  /** `~~~` / `foo` / `~~~` throws `missing closing "```"`. */
  lemma TildeExample()
    ensures NextToken("~~~\nfoo\n~~~") == Fail(MissingClosingFence("```"))
  {
    var s := "~~~\nfoo\n~~~";
    assert Span(s, IsHs) == 0;
    assert GfmOpener(s) == Some(Opener(0, 3, 3)) by {
      assert s[3..] == "\nfoo\n~~~";
      assert Span(s[3..], NotLineTerm) == 0;
    }
    TildeFenceUnclosed(s);
    Answered(s);
  }

  /** The fence is four characters long exactly when a fourth equal fence character follows the first three. */
  lemma OpenerFenceLength(s: string)
    requires GfmOpener(s).Some?
    ensures var o := GfmOpener(s).value;
            o.indent == Span(s, IsHs) &&
            (o.fenceLen == 4 <==> (o.indent + 3 < |s| && s[o.indent + 3] == s[o.indent]))
  {
  }

  /** An opener is found exactly when at most three horizontal spaces are followed by three equal fence characters. */
  lemma OpenerFound(s: string)
    ensures var h := Span(s, IsHs);
            GfmOpener(s).Some? <==>
              (h <= 3 && h + 3 <= |s| && IsFenceChar(s[h]) && s[h + 1] == s[h] && s[h + 2] == s[h])
  {
  }

  // ---------------------------------------------------------------------------
  // tags and description lines

  /**
   * A tag starts with up to three spaces and `@`, then its key; the raw text
   * is the line up to where the value ends.
   */
  lemma TagStart(s: string)
    requires MatchTag(s).Match?
    ensures var r := MatchTag(s);
            var sp := Span(s, IsSpace);
            sp <= 3 && s[sp] == '@' && sp + 1 + |r.tok.key| <= r.used && r.tok.raw == s[..r.used] &&
            r.tok.key == s[sp + 1..sp + 1 + |r.tok.key|]
  {
  }

  /** The key is non-empty, made of non-whitespace characters, and as long as it can be. */
  lemma TagKeyMaximal(s: string)
    requires MatchTag(s).Match?
    ensures var key := MatchTag(s).tok.key;
            var ke := Span(s, IsSpace) + 1 + |key|;
            |key| > 0 && (forall i :: 0 <= i < |key| ==> IsNonWs(key[i])) && (ke < |s| ==> IsWs(s[ke]))
  {
  }

  /** No tag's key starts with `example`: `@example` lines belong to the javadoc matcher. */
  lemma TagNotExample(s: string)
    requires MatchTag(s).Match?
    ensures !StartsWith(MatchTag(s).tok.key, "example")
  {
    var sp := Span(s, IsSpace);
    var key := MatchTag(s).tok.key;
    if |key| >= 7 {
      assert key[..7] == s[sp + 1..sp + 8];
    }
  }

  /** The value is the tail of the tag's text: it runs up to where the tag ends. */
  lemma TagValue(s: string)
    requires MatchTag(s).Match?
    ensures var r := MatchTag(s);
            |r.tok.value| <= r.used && r.tok.value == s[r.used - |r.tok.value|..r.used]
  {
  }

  /**
   * The value starts at or after the end of the key; between the two there are
   * only spaces, and the value does not start with one.
   */
  lemma TagGap(s: string)
    requires MatchTag(s).Match?
    ensures var r := MatchTag(s);
            var ke := Span(s, IsSpace) + 1 + |r.tok.key|;
            ke <= r.used - |r.tok.value| &&
            (forall i :: ke <= i < r.used - |r.tok.value| ==> s[i] == ' ') &&
            (r.tok.value == "" || r.tok.value[0] != ' ')
  {
  }

  /**
   * `v` is a tail of `s[..e]` that starts at or after `k`, has only spaces
   * between `k` and its start, and does not start with a space.
   */
  predicate TailAfter(s: string, k: nat, e: nat, v: string) {
    e <= |s| && |v| <= e && v == s[e - |v|..e] && k <= e - |v| &&
    (forall i :: k <= i < e - |v| ==> s[i] == ' ') && (v == "" || v[0] != ' ')
  }

  /**
   * The facts of `TagValue` and `TagGap` leave one candidate: any text that is
   * a tail of the tag, starts at or after the key's end, has only spaces before
   * it and does not start with a space is the tag's value.
   */
  lemma TagValueDetermined(s: string, v: string)
    requires MatchTag(s).Match?
    requires TailAfter(s, Span(s, IsSpace) + 1 + |MatchTag(s).tok.key|, MatchTag(s).used, v)
    ensures v == MatchTag(s).tok.value
  {
    TagValue(s);
    TagGap(s);
    var r := MatchTag(s);
    var k := Span(s, IsSpace) + 1 + |r.tok.key|;
    assert TailAfter(s, k, r.used, r.tok.value);
    SameTail(s, k, r.used, v, r.tok.value);
  }

  /** Two texts that are both tails after `k` in the sense of `TailAfter` are equal. */
  lemma SameTail(s: string, k: nat, e: nat, v: string, w: string)
    requires TailAfter(s, k, e, v) && TailAfter(s, k, e, w)
    ensures v == w
  {
    TailFirst(s, k, e, v);
    TailFirst(s, k, e, w);
  }

  /** A non-empty tail in the sense of `TailAfter` starts at a character that is not a space. */
  lemma TailFirst(s: string, k: nat, e: nat, v: string)
    requires TailAfter(s, k, e, v)
    ensures |v| > 0 ==> s[e - |v|] != ' '
  {
    if |v| > 0 {
      assert v[0] == s[e - |v|];
    }
  }

  /** A tag lies on one line: it ends at the end of the text or before a newline, and holds none. */
  lemma TagOneLine(s: string)
    requires MatchTag(s).Match?
    ensures var r := MatchTag(s);
            (forall i :: 0 <= i < r.used ==> s[i] != '\n') && (r.used == |s| || s[r.used] == '\n')
  {
  }

  /** A description token is its whole line, without the newline. */
  lemma DescriptionToken(s: string)
    requires |s| > 0 && NextToken(s).Match? && NextToken(s).tok.DescriptionLine?
    ensures var r := NextToken(s);
            s[0] != '\n' && r.tok.text == s[..r.used] &&
            (forall i :: 0 <= i < r.used ==> s[i] != '\n') &&
            (r.used == |s| || s[r.used] == '\n')
  {
    Answered(s);
  }

  // ---------------------------------------------------------------------------
  // line blocks

  /** A text that ends in exactly one newline. */
  predicate EndsInOneNewline(x: string) {
    |x| >= 1 && x[|x| - 1] == '\n' && (|x| == 1 || x[|x| - 2] != '\n')
  }

  lemma {:induction false} UnlinesSplit(ls: seq<string>, n: nat)
    requires 0 < n < |ls|
    ensures Unlines(ls) == Unlines(ls[..n]) + "\n" + Unlines(ls[n..])
    decreases n
  {
    if n > 1 {
      UnlinesSplit(ls[1..], n - 1);
      assert ls[1..][..n - 1] == ls[..n][1..];
      assert ls[1..][n - 1..] == ls[n..];
    }
  }

  lemma TerminatedUnlines(ls: seq<string>)
    requires |ls| >= 1
    ensures Terminated(ls) == Unlines(ls) + "\n"
    decreases |ls|
  {
    var n := |ls| - 1;
    if n > 0 {
      TerminatedUnlines(ls[..n]);
      UnlinesSplit(ls, n);
      assert ls[n..] == [ls[n]];
    }
  }

  /**
   * The first `n` lines of `r`, each with its newline back: a prefix of `r`
   * after which the remaining lines follow, or, when they are all the lines,
   * `r` and one newline more.
   */
  lemma TerminatedBlock(r: string, n: nat)
    requires n <= |Lines(r)|
    ensures var t := Terminated(Lines(r)[..n]);
            (n < |Lines(r)| ==> |t| <= |r| && r[..|t|] == t && Lines(r[|t|..]) == Lines(r)[n..]) &&
            (n == |Lines(r)| ==> t == r + "\n")
  {
    var ls := Lines(r);
    UnlinesLines(r);
    if n == |ls| {
      TerminatedUnlines(ls);
      assert ls[..n] == ls;
    } else if n > 0 {
      var t := Terminated(ls[..n]);
      TerminatedUnlines(ls[..n]);
      UnlinesSplit(ls, n);
      assert r == t + Unlines(ls[n..]);
      assert r[|t|..] == Unlines(ls[n..]);
      LinesUnlines(ls[n..]);
    }
  }

  /** Appending a newline to a text that already ends in one changes nothing once newlines are collapsed. */
  lemma CollapseExtraNewline(x: string)
    requires |x| > 0 && x[|x| - 1] == '\n'
    ensures CollapseTrailingNewlines(x + "\n") == CollapseTrailingNewlines(x)
  {
    assert (x + "\n")[..|x|] == x;
  }

  /** Collapsing only touches the end: a prefix that does not end in a newline is kept. */
  lemma {:induction false} StripKeepsPrefix(a: string, b: string)
    requires |a| > 0 && a[|a| - 1] != '\n'
    ensures StripTrailingNewlines(a + b) == a + StripTrailingNewlines(b)
    decreases |b|
  {
    if |b| == 0 {
      assert a + b == a;
    } else if b[|b| - 1] == '\n' {
      assert (a + b)[..|a + b| - 1] == a + b[..|b| - 1];
      StripKeepsPrefix(a, b[..|b| - 1]);
    }
  }

  lemma CollapseKeepsPrefix(a: string, b: string)
    requires |a| > 0 && a[|a| - 1] != '\n'
    ensures CollapseTrailingNewlines(a + b) == a + CollapseTrailingNewlines(b)
  {
    StripKeepsPrefix(a, b);
    if |b| == 0 {
      assert a + b == a;
    }
  }

  lemma OneNewline(x: string)
    requires |x| > 0 && x[|x| - 1] == '\n'
    ensures EndsInOneNewline(CollapseTrailingNewlines(x))
  {
    CollapseSpec(x);
  }

  /** What `Terminated` of a non-empty list ends with. */
  lemma TerminatedEnds(ls: seq<string>)
    requires |ls| > 0
    ensures |Terminated(ls)| > 0 && Terminated(ls)[|Terminated(ls)| - 1] == '\n'
  {
  }

  // ---------------------------------------------------------------------------
  // indented blocks

  /**
   * An indented token's raw text is exactly the text it consumes, with its
   * trailing newlines collapsed to one (a last line without a newline gets
   * one); its value ends the same way; and the line after it neither starts
   * with four spaces nor is empty, so the run of lines it takes is maximal.
   */
  lemma IndentedToken(s: string)
    requires |s| > 0 && NextToken(s).Match? && NextToken(s).tok.Indented?
    ensures var r := NextToken(s);
            StartsWith(s, "    ") &&
            r.tok.raw == CollapseTrailingNewlines(s[..r.used] + "\n") &&
            EndsInOneNewline(r.tok.raw) && EndsInOneNewline(r.tok.value) &&
            (r.used < |s| ==> !IsIndentedLine(Lines(s[r.used..])[0]))
  {
    Answered(s);
    IndentedBlock(s);
  }

  lemma IndentedBlock(s: string)
    requires MatchIndented(s).Match?
    ensures var r := MatchIndented(s);
            StartsWith(s, "    ") &&
            r.tok.raw == CollapseTrailingNewlines(s[..r.used] + "\n") &&
            EndsInOneNewline(r.tok.raw) && EndsInOneNewline(r.tok.value) &&
            (r.used < |s| ==> !IsIndentedLine(Lines(s[r.used..])[0]))
  {
    var m := LineMatchEnd(s, 4);
    var lines := Lines(s[m..]);
    var n := Span(lines, IsIndentedLine);
    var t := Terminated(lines[..n]);
    var tv := Terminated(DropEach(4, lines[..n]));
    var used := m + Min(|t|, |s| - m);
    IndentedMatched(s, CollapseTrailingNewlines(s[..m] + t), CollapseTrailingNewlines(s[4..m] + tv), used);
    RunBlock(s, m, 4, IsIndentedLine, n, t, used);
    if n > 0 { TerminatedEnds(DropEach(4, lines[..n])); } else { assert DropEach(4, lines[..n]) == []; }
    ValueBlock(s, 4, m, tv);
  }

  // ---------------------------------------------------------------------------
  // javadoc examples

  /**
   * A javadoc token starts with `@example` at the beginning of the text; its
   * raw text is exactly the text it consumes with trailing newlines collapsed
   * to one, its value is that raw text without `@example` and the spaces after
   * it, both end in exactly one newline, and the line after it is one that
   * stops the block (it starts, after whitespace, with `@` or a fence).
   */
  lemma JavadocToken(s: string)
    requires |s| > 0 && NextToken(s).Match? && NextToken(s).tok.Javadoc?
    ensures var r := NextToken(s);
            StartsWith(s, "@example") &&
            r.tok.raw == CollapseTrailingNewlines(s[..r.used] + "\n") &&
            r.tok.raw == s[..JavadocStart(s)] + r.tok.value &&
            EndsInOneNewline(r.tok.raw) && EndsInOneNewline(r.tok.value) &&
            (r.used < |s| ==> JavadocStops(Lines(s[r.used..])[0]))
  {
    Answered(s);
    JavadocBlock(s);
  }

  lemma JavadocBlock(s: string)
    requires MatchJavadoc(s).Match?
    ensures var r := MatchJavadoc(s);
            StartsWith(s, "@example") &&
            r.tok.raw == CollapseTrailingNewlines(s[..r.used] + "\n") &&
            r.tok.raw == s[..JavadocStart(s)] + r.tok.value &&
            EndsInOneNewline(r.tok.raw) && EndsInOneNewline(r.tok.value) &&
            (r.used < |s| ==> JavadocStops(Lines(s[r.used..])[0]))
  {
    var st := JavadocStart(s);
    var m := LineMatchEnd(s, st);
    var lines := Lines(s[m..]);
    var n := Span(lines, JavadocContinues);
    var t := Terminated(lines[..n]);
    var used := m + Min(|t|, |s| - m);
    JavadocMatched(s, CollapseTrailingNewlines(s[..m] + t), CollapseTrailingNewlines(s[st..m] + t), used);
    assert JavadocContinues("");
    RunBlock(s, m, st, JavadocContinues, n, t, used);
    ValueBlock(s, st, m, t);
    KeywordKept(s, st, m, t);
  }

  /** Collapsing the raw text leaves the keyword and its spaces in front of the collapsed value. */
  lemma KeywordKept(s: string, st: nat, m: nat, t: string)
    requires StartsWith(s, "@example") && st == JavadocStart(s) && st <= m <= |s|
    ensures CollapseTrailingNewlines(s[..m] + t) == s[..st] + CollapseTrailingNewlines(s[st..m] + t)
  {
    assert s[st - 1] != '\n' by {
      if st > 8 { assert IsSpace(s[st - 1]); } else { assert s[..8][7] == 'e'; }
    }
    assert s[..m] + t == s[..st] + (s[st..m] + t);
    CollapseKeepsPrefix(s[..st], s[st..m] + t);
  }

  /**
   * The shared shape of the indented and javadoc matchers: a first line that
   * ends at `m`, then the run `t` of following lines that satisfy `p`, each
   * with its newline. The raw text collapses to the consumed text with one
   * newline, and the line after the run, if any, fails `p`.
   */
  lemma RunBlock(s: string, m: nat, st: nat, p: string -> bool, n: nat, t: string, used: nat)
    requires st <= m <= |s|
    requires m < |s| ==> st < m && s[m - 1] == '\n'
    requires p("")
    requires n == Span(Lines(s[m..]), p) && t == Terminated(Lines(s[m..])[..n]) && used == m + Min(|t|, |s| - m)
    ensures CollapseTrailingNewlines(s[..m] + t) == CollapseTrailingNewlines(s[..used] + "\n") &&
            EndsInOneNewline(CollapseTrailingNewlines(s[..m] + t)) &&
            (n > 0 ==> t != "" && t[|t| - 1] == '\n') &&
            (n == 0 ==> t == "" && st < m && s[m - 1] == '\n') &&
            (used < |s| ==> !p(Lines(s[used..])[0]))
  {
    if n == |Lines(s[m..])| {
      RunWhole(s, m, n, t, used);
    } else {
      RunPart(s, m, p, n, t, used);
    }
  }

  /** At the end of the text the run is the one empty line that `split` gives. */
  lemma RestEmpty(s: string, m: nat, p: string -> bool)
    requires m <= |s| && p("")
    ensures m == |s| ==> Span(Lines(s[m..]), p) == |Lines(s[m..])|
  {
    if m == |s| {
      assert s[m..] == "";
      assert Lines(s[m..]) == [""];
    }
  }

  lemma RunWhole(s: string, m: nat, n: nat, t: string, used: nat)
    requires m <= |s| && n == |Lines(s[m..])| && t == Terminated(Lines(s[m..])[..n])
    requires used == m + Min(|t|, |s| - m)
    ensures n > 0 && t != "" && t[|t| - 1] == '\n' && used == |s| &&
            CollapseTrailingNewlines(s[..m] + t) == CollapseTrailingNewlines(s[..used] + "\n") &&
            EndsInOneNewline(CollapseTrailingNewlines(s[..m] + t))
  {
    TerminatedBlock(s[m..], n);
    WholeBlock(s, m, t);
  }

  lemma RunPart(s: string, m: nat, p: string -> bool, n: nat, t: string, used: nat)
    requires m <= |s| && (m < |s| ==> 0 < m && s[m - 1] == '\n')
    requires p("")
    requires n == Span(Lines(s[m..]), p) && n < |Lines(s[m..])| && t == Terminated(Lines(s[m..])[..n])
    requires used == m + Min(|t|, |s| - m)
    ensures m < |s| && used == m + |t|
    ensures (n > 0 ==> t != "" && t[|t| - 1] == '\n') && (n == 0 ==> t == "")
    ensures CollapseTrailingNewlines(s[..m] + t) == CollapseTrailingNewlines(s[..used] + "\n")
    ensures EndsInOneNewline(CollapseTrailingNewlines(s[..m] + t))
    ensures !p(Lines(s[used..])[0])
  {
    RestEmpty(s, m, p);
    assert m < |s|;
    PartShape(s[m..], n, t);
    assert used == m + |t|;
    PartBlock(s, m, t, used);
    NextLine(s, m, n, t, used);
  }

  /** A block that is not all the lines is a prefix of the text ending in a newline, or empty. */
  lemma PartShape(r: string, n: nat, t: string)
    requires n < |Lines(r)| && t == Terminated(Lines(r)[..n])
    ensures |t| <= |r| && r[..|t|] == t
    ensures n > 0 ==> t != "" && t[|t| - 1] == '\n'
    ensures n == 0 ==> t == ""
  {
    TerminatedBlock(r, n);
    if n > 0 { TerminatedEnds(Lines(r)[..n]); } else { assert Lines(r)[..n] == []; }
  }

  /** The line after a block that is not all the lines is where the block stopped. */
  lemma NextLine(s: string, m: nat, n: nat, t: string, used: nat)
    requires m <= |s| && n < |Lines(s[m..])| && t == Terminated(Lines(s[m..])[..n])
    requires used == m + |t| && used <= |s|
    ensures Lines(s[used..])[0] == Lines(s[m..])[n]
  {
    TerminatedBlock(s[m..], n);
    assert s[m..][|t|..] == s[used..];
  }

  // The shared shape of the indented and javadoc matchers: a first line that
  // ends at `m`, then a block `t` of whole lines, which is all of the rest
  // with a newline added (WholeBlock) or a prefix of the rest (PartBlock).

  lemma WholeBlock(s: string, m: nat, t: string)
    requires m <= |s| && t == s[m..] + "\n"
    ensures m + Min(|t|, |s| - m) == |s|
    ensures CollapseTrailingNewlines(s[..m] + t) == CollapseTrailingNewlines(s[..m + Min(|t|, |s| - m)] + "\n")
    ensures EndsInOneNewline(CollapseTrailingNewlines(s[..m] + t))
  {
    var used := m + Min(|t|, |s| - m);
    assert s[..used] == s;
    assert s[..used] + "\n" == s[..m] + t;
    OneNewline(s[..m] + t);
  }

  lemma PartBlock(s: string, m: nat, t: string, used: nat)
    requires 0 < m < |s| && s[m - 1] == '\n'
    requires |t| <= |s| - m && s[m..][..|t|] == t && (t == "" || t[|t| - 1] == '\n')
    requires used == m + |t|
    ensures CollapseTrailingNewlines(s[..m] + t) == CollapseTrailingNewlines(s[..used] + "\n")
    ensures EndsInOneNewline(CollapseTrailingNewlines(s[..m] + t))
  {
    PrefixJoin(s, m, t, used);
    var x := s[..m] + t;
    assert x[|x| - 1] == '\n' by {
      if t == "" { assert x[|x| - 1] == s[m - 1]; } else { assert x[|x| - 1] == t[|t| - 1]; }
    }
    CollapseExtraNewline(x);
    OneNewline(x);
  }

  /** The text up to the end of a block that follows `m` is the text up to `m` and the block. */
  lemma PrefixJoin(s: string, m: nat, t: string, used: nat)
    requires m <= |s| && |t| <= |s| - m && s[m..][..|t|] == t && used == m + |t|
    ensures s[..used] == s[..m] + t
  {
    assert s[m..used] == s[m..][..|t|];
    assert s[..used] == s[..m] + s[m..used];
  }

  /** The value's text ends in a newline: its block does, or, when that is empty, its first line. */
  lemma ValueBlock(s: string, st: nat, m: nat, tv: string)
    requires st <= m <= |s|
    requires (tv != "" && tv[|tv| - 1] == '\n') || (tv == "" && st < m && s[m - 1] == '\n')
    ensures EndsInOneNewline(CollapseTrailingNewlines(s[st..m] + tv))
  {
    var val := s[st..m] + tv;
    if tv == "" {
      assert val[|val| - 1] == s[m - 1];
    }
    OneNewline(val);
  }
}
