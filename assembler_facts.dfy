/**
 * What the token handler and the finalisation of `lib/tokenize.js` promise:
 * the order of examples and tags, the continuation of a tag, where the text
 * of a comment without tags or examples goes, how descriptions are split into
 * fragments and taken by examples, and that every output text is trimmed.
 */
module AssemblyFacts {
  import opened Strings
  import opened Lexer
  import opened Assembly

  // ---------------------------------------------------------------------------
  // Reference definitions on the token stream

  /** The `value` fields of the tokens, joined. */
  function Text(ts: seq<Token>): string
    decreases |ts|
  {
    if ts == [] then "" else ts[0].Value() + Text(ts[1..])
  }

  /** The keys of tags, in order. */
  function Keys(tags: seq<Tag>): seq<string>
    decreases |tags|
  {
    if tags == [] then [] else Keys(tags[..|tags| - 1]) + [tags[|tags| - 1].key]
  }

  /** The keys of the tag tokens that stay tags, in stream order. */
  function TagKeys(ts: seq<Token>): seq<string>
    decreases |ts|
  {
    if ts == [] then []
    else (if IsKeyedTag(ts[0]) then [ts[0].key] else []) + TagKeys(ts[1..])
  }

  /** An example without the description it collected. */
  function Body(e: Example): Example { e.(description := "") }

  function Bodies(es: seq<Example>): seq<Example>
    decreases |es|
  {
    if es == [] then [] else Bodies(es[..|es| - 1]) + [Body(es[|es| - 1])]
  }

  /** Tokens that continue a tag when they follow it. */
  predicate Continues(tok: Token) { tok.Newline? || tok.Break? || tok.DescriptionLine? || tok.Indented? }

  /** The example a token adds, if any, while `afterTag` says whether the last tag is still being continued. */
  function ExampleAt(t: Token, afterTag: bool): seq<Example> {
    if t.IsExample() && !(afterTag && t.Indented?) then [ExampleOf(t, "")] else []
  }

  /** Whether the last tag is still being continued after `t`: a keyed tag starts that, an example or a description-type token other than a continuing one ends it. */
  predicate AfterTag(t: Token, afterTag: bool) {
    if t.IsExample() then afterTag && t.Indented?
    else if IsKeyedTag(t) then true
    else if IsDescriptionType(t) then afterTag && t.DescriptionLine?
    else afterTag
  }

  /**
   * The examples a token stream yields, read off the stream alone: every
   * example token, except an indented block while the last tag is still
   * being continued.
   */
  function StreamExamples(ts: seq<Token>, afterTag: bool): seq<Example>
    decreases |ts|
  {
    if ts == [] then [] else ExampleAt(ts[0], afterTag) + StreamExamples(ts[1..], AfterTag(ts[0], afterTag))
  }

  // ---------------------------------------------------------------------------
  // Folding over a stream

  lemma {:induction false} FoldSnoc(a: Asm, ts: seq<Token>, t: Token)
    requires Consistent(a)
    ensures Fold(a, ts + [t]) == Step(Fold(a, ts), t)
    decreases |ts|
  {
    if ts == [] {
      assert [t][1..] == [];
    } else {
      assert (ts + [t])[1..] == ts[1..] + [t];
      FoldSnoc(Step(a, ts[0]), ts[1..], t);
    }
  }

  // ---------------------------------------------------------------------------
  // Tags keep the order in which they were seen

  lemma ExtendTagKeys(a: Asm, v: string)
    requires |a.tags| > 0
    ensures Keys(ExtendTag(a, v).tags) == Keys(a.tags)
  {
    var n := |a.tags|;
    assert ExtendTag(a, v).tags[..n - 1] == a.tags[..n - 1];
  }

  lemma StepKeys(a: Asm, tok: Token)
    requires Consistent(a)
    ensures Keys(Step(a, tok).tags) == Keys(a.tags) + (if IsKeyedTag(tok) then [tok.key] else [])
  {
    if a.prev == PrevTag {
      ExtendTagKeys(a, tok.Value());
    }
    if IsKeyedTag(tok) {
      assert (a.tags + [Tag(tok.raw, tok.key, tok.value)])[..|a.tags|] == a.tags;
    }
  }

  /** The tags are the keyed tag tokens, in stream order. */
  lemma {:induction false} TagsInOrder(a: Asm, ts: seq<Token>)
    requires Consistent(a)
    ensures Keys(Fold(a, ts).tags) == Keys(a.tags) + TagKeys(ts)
    decreases |ts|
  {
    if ts != [] {
      StepKeys(a, ts[0]);
      TagsInOrder(Step(a, ts[0]), ts[1..]);
    }
  }

  // ---------------------------------------------------------------------------
  // Examples keep the order in which they were seen

  lemma BodiesSnoc(es: seq<Example>, e: Example)
    ensures Bodies(es + [e]) == Bodies(es) + [Body(e)]
  {
    assert (es + [e])[..|es|] == es;
  }

  lemma ExtendExampleBodies(a: Asm, v: string)
    requires |a.examples| > 0
    ensures Bodies(ExtendExample(a, v).examples) == Bodies(a.examples)
  {
    var n := |a.examples|;
    assert ExtendExample(a, v).examples[..n - 1] == a.examples[..n - 1];
  }

  lemma ExampleOfBody(t: Token, d: string)
    requires t.IsExample()
    ensures Body(ExampleOf(t, d)) == ExampleOf(t, "")
  {
  }

  lemma StepExample(a: Asm, tok: Token)
    requires Consistent(a) && tok.IsExample() && !(a.prev == PrevTag && tok.Indented?)
    ensures Bodies(Step(a, tok).examples) == Bodies(a.examples) + [ExampleOf(tok, "")]
  {
    var d := if a.prev == PrevDescription && |a.stack| > 1 then a.stack[|a.stack| - 1] else "";
    assert Step(a, tok).examples == a.examples + [ExampleOf(tok, d)];
    BodiesSnoc(a.examples, ExampleOf(tok, d));
    ExampleOfBody(tok, d);
  }

  lemma StepOther(a: Asm, tok: Token)
    requires Consistent(a) && (!tok.IsExample() || (a.prev == PrevTag && tok.Indented?))
    ensures Bodies(Step(a, tok).examples) == Bodies(a.examples)
  {
    if !tok.IsExample() && !IsKeyedTag(tok) && !IsDescriptionType(tok) && a.prev != PrevTag
       && |a.stack| > 0 && a.prev == PrevExample {
      ExtendExampleBodies(a, tok.Value());
    }
  }

  lemma StepPrev(a: Asm, tok: Token)
    requires Consistent(a)
    ensures (Step(a, tok).prev == PrevTag) == AfterTag(tok, a.prev == PrevTag)
  {
  }

  lemma StepExamples(a: Asm, t: Token)
    requires Consistent(a)
    ensures Bodies(Step(a, t).examples) == Bodies(a.examples) + ExampleAt(t, a.prev == PrevTag)
  {
    if t.IsExample() && !(a.prev == PrevTag && t.Indented?) {
      StepExample(a, t);
    } else {
      StepOther(a, t);
    }
  }

  /**
   * The examples are the example tokens of the stream, in order; the only
   * ones missing are indented blocks taken into a tag.
   */
  lemma {:induction false} ExamplesInOrder(a: Asm, ts: seq<Token>)
    requires Consistent(a)
    ensures Bodies(Fold(a, ts).examples) == Bodies(a.examples) + StreamExamples(ts, a.prev == PrevTag)
    decreases |ts|
  {
    if ts != [] {
      var t, f := ts[0], a.prev == PrevTag;
      var b := Step(a, t);
      StepExamples(a, t);
      StepPrev(a, t);
      ExamplesInOrder(b, ts[1..]);
      assert Fold(a, ts) == Fold(b, ts[1..]);
      AppendAssoc(Bodies(a.examples), ExampleAt(t, f), StreamExamples(ts[1..], AfterTag(t, f)));
    }
  }

  lemma AppendAssoc(x: seq<Example>, y: seq<Example>, z: seq<Example>)
    ensures (x + y) + z == x + (y + z)
  {
  }

  // ---------------------------------------------------------------------------
  // The continuation of a tag

  lemma ExtendTagTwice(a: Asm, u: string, v: string)
    requires |a.tags| > 0
    ensures ExtendTag(ExtendTag(a, u), v) == ExtendTag(a, u + v)
  {
    var n := |a.tags|;
    var t := a.tags[n - 1];
    assert ExtendTag(a, u).tags[..n - 1] == a.tags[..n - 1];
    assert t.raw + u + v == t.raw + (u + v);
    assert t.value + u + v == t.value + (u + v);
  }

  /**
   * After a tag, newlines, breaks, description lines and indented blocks
   * are appended to that tag's value and raw, and nothing else changes.
   */
  lemma {:induction false} TagContinuation(a: Asm, ts: seq<Token>)
    requires Consistent(a) && a.prev == PrevTag
    requires forall i :: 0 <= i < |ts| ==> Continues(ts[i])
    ensures Fold(a, ts).(afterBreak := a.afterBreak) == ExtendTag(a, Text(ts))
    decreases |ts|
  {
    if ts == [] {
      var t := a.tags[|a.tags| - 1];
      assert t.raw + "" == t.raw && t.value + "" == t.value;
      assert a.tags[..|a.tags| - 1] + [Tag(t.raw, t.key, t.value)] == a.tags;
    } else {
      var b := Step(a, ts[0]);
      assert b == ExtendTag(a, ts[0].Value()).(afterBreak := ts[0].Break?);
      TagContinuation(b, ts[1..]);
      ExtendTagTwice(a, ts[0].Value(), Text(ts[1..]));
    }
  }

  // ---------------------------------------------------------------------------
  // A comment without tags or examples

  /** Tokens of a comment that holds only text. */
  predicate Plain(tok: Token) { tok.Newline? || tok.Break? || tok.DescriptionLine? }

  /** The state while only plain text has been seen. */
  predicate PlainState(a: Asm) {
    (a.prev == Root || a.prev == PrevDescription) && a.footer == 0 && a.examples == [] && a.tags == []
  }

  lemma AppendLastConcat(ss: seq<string>, v: string)
    requires |ss| > 0
    ensures Concat(AppendLast(ss, v)) == Concat(ss) + v
  {
    ConcatSnocAppend(ss[..|ss| - 1], ss[|ss| - 1], v);
  }

  lemma ConcatSnocAppend(p: seq<string>, x: string, v: string)
    ensures Concat(p + [x + v]) == Concat(p) + x + v
  {
    assert (p + [x + v])[..|p|] == p;
  }

  lemma PlainStep(a: Asm, tok: Token)
    requires Consistent(a) && PlainState(a) && Plain(tok)
    ensures PlainState(Step(a, tok))
    ensures Step(a, tok).description + Concat(Step(a, tok).stack) == a.description + Concat(a.stack) + tok.Value()
  {
    var v := tok.Value();
    var b := Step(a, tok);
    if tok.DescriptionLine? {
      if a.stack == [] || a.afterBreak {
        assert b.stack == a.stack + [v];
        assert (a.stack + [v])[..|a.stack|] == a.stack;
      } else {
        assert b.stack == AppendLast(a.stack, v);
        AppendLastConcat(a.stack, v);
      }
    } else if |a.stack| > 0 {
      assert b.stack == AppendLast(a.stack, v);
      AppendLastConcat(a.stack, v);
    }
  }

  lemma {:induction false} PlainFold(a: Asm, ts: seq<Token>)
    requires Consistent(a) && PlainState(a)
    requires forall i :: 0 <= i < |ts| ==> Plain(ts[i])
    ensures PlainState(Fold(a, ts))
    ensures Fold(a, ts).description + Concat(Fold(a, ts).stack) == a.description + Concat(a.stack) + Text(ts)
    decreases |ts|
  {
    if ts != [] {
      var b := Step(a, ts[0]);
      PlainStep(a, ts[0]);
      PlainFold(b, ts[1..]);
      assert Text(ts) == ts[0].Value() + Text(ts[1..]);
    }
  }

  /**
   * A comment made only of description lines, newlines and breaks becomes
   * its trimmed text as the description, with no footer, example or tag.
   */
  lemma PlainComment(ts: seq<Token>)
    requires forall i :: 0 <= i < |ts| ==> Plain(ts[i])
    ensures Finalise(Fold(Init, ts)) == Comment(Trim(Text(ts)), "", [], [])
  {
    PlainFold(Init, ts);
    var b := Fold(Init, ts);
    assert "" + Text(ts) == Text(ts);
    assert !Cuts(b);
  }

  // ---------------------------------------------------------------------------
  // Description fragments and the descriptions of examples

  /**
   * A description-type token that does not continue a tag starts a new
   * fragment exactly when the stack is empty, the previous token was a break
   * or `prev` is an example; otherwise it extends the top fragment.
   */
  lemma DescriptionFragment(a: Asm, tok: Token)
    requires Consistent(a) && IsDescriptionType(tok) && !(a.prev == PrevTag && tok.DescriptionLine?)
    ensures var b := Step(a, tok);
            var pushes := a.stack == [] || a.afterBreak || a.prev == PrevExample;
            b.prev == PrevDescription &&
            (pushes ==> b.stack == a.stack + [tok.Value()]) &&
            (!pushes ==> (|b.stack| == |a.stack| && b.stack[..|a.stack| - 1] == a.stack[..|a.stack| - 1] &&
                          b.stack[|a.stack| - 1] == a.stack[|a.stack| - 1] + tok.Value()))
  {
  }

  /**
   * An example token takes the top fragment as its description exactly when
   * `prev` is a description and the stack holds more than one fragment; the
   * footer cut is then the height of the stack.
   */
  lemma ExampleDescription(a: Asm, tok: Token)
    requires Consistent(a) && tok.IsExample() && !(a.prev == PrevTag && tok.Indented?)
    ensures var b := Step(a, tok);
            var takes := a.prev == PrevDescription && |a.stack| > 1;
            b.prev == PrevExample && |b.examples| == |a.examples| + 1 && b.footer == |b.stack| &&
            (takes ==> (b.stack == a.stack[..|a.stack| - 1] &&
                        b.examples[|a.examples|].description == a.stack[|a.stack| - 1])) &&
            (!takes ==> (b.stack == a.stack && b.examples[|a.examples|].description == ""))
  {
  }

  // ---------------------------------------------------------------------------
  // Finalisation

  /** Every text of the result is trimmed: description, footer, example descriptions, tag raws and values. */
  lemma FinaliseTrimmed(a: Asm)
    ensures var r := Finalise(a);
            IsTrimmed(r.description) && IsTrimmed(r.footer) &&
            (forall i :: 0 <= i < |r.examples| ==> IsTrimmed(r.examples[i].description)) &&
            (forall i :: 0 <= i < |r.tags| ==> IsTrimmed(r.tags[i].raw) && IsTrimmed(r.tags[i].value))
  {
    var r := Finalise(a);
    var kept := if Cuts(a) then a.stack[..a.footer] else a.stack;
    var foot := if Cuts(a) then Concat(a.stack[a.footer..]) else "";
    assert r.description == Trim(a.description + Concat(kept)) && r.footer == Trim(foot);
    TrimTrimmed(a.description + Concat(kept));
    TrimTrimmed(foot);
    FinaliseKeepsEntries(a);
    forall i | 0 <= i < |r.examples|
      ensures IsTrimmed(r.examples[i].description)
    {
      TrimTrimmed(a.examples[i].description);
    }
    forall i | 0 <= i < |r.tags|
      ensures IsTrimmed(r.tags[i].raw) && IsTrimmed(r.tags[i].value)
    {
      TrimTrimmed(a.tags[i].raw);
      TrimTrimmed(a.tags[i].value);
    }
  }

  lemma TrimTrimmed(s: string)
    ensures IsTrimmed(Trim(s))
  {
    TrimSpec(s);
  }

  /**
   * The fragments from the cut index upward become the footer only when the
   * cut is positive, below the height of the stack and the stack holds more
   * than one fragment; otherwise every fragment goes to the description and
   * the footer is empty. Either way no fragment is lost.
   */
  lemma FooterSplit(a: Asm)
    ensures var r := Finalise(a);
            var k := if Cuts(a) then a.footer else |a.stack|;
            k <= |a.stack| && Concat(a.stack[..k]) + Concat(a.stack[k..]) == Concat(a.stack) &&
            r.description == Trim(a.description + Concat(a.stack[..k])) &&
            r.footer == Trim(Concat(a.stack[k..]))
  {
    var k := if Cuts(a) then a.footer else |a.stack|;
    ConcatSplit(a.stack, k);
    if !Cuts(a) {
      assert a.stack[..k] == a.stack;
      assert a.stack[k..] == [];
    }
  }

  /** Examples and tags keep their order and every field but the trimmed ones, which become their trims. */
  lemma FinaliseKeepsEntries(a: Asm)
    ensures var r := Finalise(a);
            |r.examples| == |a.examples| && |r.tags| == |a.tags| &&
            (forall i :: 0 <= i < |a.examples| ==> Body(r.examples[i]) == Body(a.examples[i])) &&
            (forall i :: 0 <= i < |a.tags| ==> r.tags[i].key == a.tags[i].key)
    ensures var r := Finalise(a);
            |r.examples| == |a.examples| && |r.tags| == |a.tags| &&
            (forall i :: 0 <= i < |a.examples| ==> r.examples[i].description == Trim(a.examples[i].description)) &&
            (forall i :: 0 <= i < |a.tags| ==>
               r.tags[i].raw == Trim(a.tags[i].raw) && r.tags[i].value == Trim(a.tags[i].value))
  {
    var r := Finalise(a);
    assert r.examples == MapSeq(TrimExample, a.examples) && r.tags == MapSeq(TrimTag, a.tags);
    ExamplesTrimmed(a.examples);
    TagsTrimmed(a.tags);
  }

  lemma ExamplesTrimmed(es: seq<Example>)
    ensures var rs := MapSeq(TrimExample, es);
            |rs| == |es| &&
            (forall i :: 0 <= i < |es| ==> Body(rs[i]) == Body(es[i])) &&
            (forall i :: 0 <= i < |es| ==> rs[i].description == Trim(es[i].description))
  {
  }

  lemma TagsTrimmed(ts: seq<Tag>)
    ensures var rs := MapSeq(TrimTag, ts);
            |rs| == |ts| &&
            (forall i :: 0 <= i < |ts| ==> rs[i].key == ts[i].key) &&
            (forall i :: 0 <= i < |ts| ==> rs[i].raw == Trim(ts[i].raw) && rs[i].value == Trim(ts[i].value))
  {
  }
}
