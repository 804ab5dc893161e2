/**
 * The token handler of `lib/tokenize.js`: the fold that decides, token by
 * token, whether text becomes part of the overall description, the
 * description of an example, the continuation of a tag, or the footer; and
 * the end-of-input step that splits off the footer and trims every text.
 *
 * `Step` and `Finalise` are the specification, on the state as a value; the
 * class `Assembler` holds that state in fields, as the closure variables of
 * the source do, and its methods are proved to follow the specification.
 */
module Assembly {
  import opened Strings
  import opened Lexer

  /** What `prev` points at: the root node, or the last description, tag or example token. */
  datatype Prev = Root | PrevDescription | PrevTag | PrevExample

  /** An entry of `examples`: the token's type, fields, and the description it collected. */
  datatype Example = Example(kind: string, raw: string, language: string, value: string, description: string)

  /** An entry of `tags`. */
  datatype Tag = Tag(raw: string, key: string, value: string)

  /**
   * The handler's state: the description fragments on `stack`, `prev`,
   * whether the previous token was a break (the only use of `prevType`), the
   * footer cut index, and the fields of the result being filled in.
   */
  datatype Asm = Asm(stack: seq<string>, prev: Prev, afterBreak: bool, footer: nat,
                     description: string, examples: seq<Example>, tags: seq<Tag>)

  /** The state before the first token: `prev` is the root node and everything is empty. */
  const Init := Asm([], Root, false, 0, "", [], [])

  /** `prev` points at an entry that exists, and the footer cut never passes the stack. */
  predicate Consistent(a: Asm) {
    (a.prev == PrevTag ==> |a.tags| > 0) &&
    (a.prev == PrevExample ==> |a.examples| > 0) &&
    a.footer <= |a.stack|
  }

  /** The result: `state` once the finalisation has run. */
  datatype Comment = Comment(description: string, footer: string, examples: seq<Example>, tags: seq<Tag>)

  /** A tag token that stays a tag: its key is not `description`. */
  predicate IsKeyedTag(tok: Token) { tok.TagLine? && tok.key != "description" }

  /** The tokens of type `description`: plain description lines and `@description` tags. */
  predicate IsDescriptionType(tok: Token) {
    tok.DescriptionLine? || (tok.TagLine? && tok.key == "description")
  }

  /** The entry an example token becomes, with the description it took. */
  function ExampleOf(tok: Token, description: string): Example
    requires tok.IsExample()
  {
    match tok
    case Fenced(r, l, v) => Example("gfm", r, l, v, description)
    case Indented(r, v) => Example("indented", r, "", v, description)
    case Javadoc(r, v) => Example("javadoc", r, "", v, description)
  }

  /** `last(stack).value += v`. */
  function AppendLast(ss: seq<string>, v: string): seq<string>
    requires |ss| > 0
  {
    ss[..|ss| - 1] + [ss[|ss| - 1] + v]
  }

  /** `prev.value += v; prev.raw += v` with `prev` the last tag. */
  function ExtendTag(a: Asm, v: string): Asm
    requires |a.tags| > 0
  {
    var t := a.tags[|a.tags| - 1];
    a.(tags := a.tags[..|a.tags| - 1] + [Tag(t.raw + v, t.key, t.value + v)])
  }

  /** `prev.description += v` with `prev` the last example. */
  function ExtendExample(a: Asm, v: string): Asm
    requires |a.examples| > 0
  {
    var e := a.examples[|a.examples| - 1];
    a.(examples := a.examples[..|a.examples| - 1] + [e.(description := e.description + v)])
  }

  /** `update(token)` for a token of type `description`. */
  function UpdateDescription(a: Asm, v: string): Asm {
    if a.stack == [] || a.afterBreak || a.prev == PrevExample then a.(stack := a.stack + [v])
    else a.(stack := AppendLast(a.stack, v))
  }

  /** `update(token)` for an example token, followed by `state.examples.push(token)`. */
  function UpdateExample(a: Asm, tok: Token): Asm
    requires tok.IsExample()
  {
    if a.prev == PrevDescription && |a.stack| > 1 then
      var top := |a.stack| - 1;
      a.(stack := a.stack[..top], footer := top, examples := a.examples + [ExampleOf(tok, a.stack[top])])
    else a.(footer := |a.stack|, examples := a.examples + [ExampleOf(tok, "")])
  }

  /** `update(token)` for a newline or a break. */
  function UpdateSeparator(a: Asm, v: string): Asm
    requires Consistent(a)
  {
    if |a.stack| > 0 then
      if a.prev == PrevExample then ExtendExample(a, v) else a.(stack := AppendLast(a.stack, v))
    else a.(description := a.description + v)
  }

  /** The `token` event handler: one token's effect on the state. */
  function Step(a: Asm, tok: Token): (b: Asm)
    requires Consistent(a)
    ensures Consistent(b)
  {
    if tok.IsExample() then
      if a.prev == PrevTag && tok.Indented? then ExtendTag(a, tok.Value()).(afterBreak := false)
      else UpdateExample(a, tok).(prev := PrevExample, afterBreak := false)
    else if IsKeyedTag(tok) then
      a.(tags := a.tags + [Tag(tok.raw, tok.key, tok.value)], prev := PrevTag, afterBreak := false)
    else if IsDescriptionType(tok) then
      if a.prev == PrevTag && tok.DescriptionLine? then ExtendTag(a, tok.Value()).(afterBreak := false)
      else UpdateDescription(a, tok.Value()).(prev := PrevDescription, afterBreak := false)
    else if a.prev == PrevTag then ExtendTag(a, tok.Value()).(afterBreak := tok.Break?)
    else UpdateSeparator(a, tok.Value()).(afterBreak := tok.Break?)
  }

  /** The handler applied to each token in turn. */
  function Fold(a: Asm, ts: seq<Token>): (b: Asm)
    requires Consistent(a)
    ensures Consistent(b)
    decreases |ts|
  {
    if ts == [] then a else Fold(Step(a, ts[0]), ts[1..])
  }

  function TrimExample(e: Example): Example { e.(description := Trim(e.description)) }

  function TrimTag(t: Tag): Tag { Tag(Trim(t.raw), t.key, Trim(t.value)) }

  /** Whether the finalisation moves the fragments from `footer` upward to the footer. */
  predicate Cuts(a: Asm) { a.footer > 0 && |a.stack| > 1 && a.footer < |a.stack| }

  /** The end-of-input step: split off the footer, then trim every text field. */
  function Finalise(a: Asm): Comment {
    var kept := if Cuts(a) then a.stack[..a.footer] else a.stack;
    var foot := if Cuts(a) then Concat(a.stack[a.footer..]) else "";
    Comment(Trim(a.description + Concat(kept)), Trim(foot),
            MapSeq(TrimExample, a.examples), MapSeq(TrimTag, a.tags))
  }

  // ---------------------------------------------------------------------------
  // The handler as the source writes it: closure variables updated in place

  class Assembler {
    var stack: seq<string>
    var prev: Prev
    var afterBreak: bool
    var footer: nat
    var description: string
    var examples: seq<Example>
    var tags: seq<Tag>

    /** The fields as a state value. */
    function Model(): Asm
      reads this
    {
      Asm(stack, prev, afterBreak, footer, description, examples, tags)
    }

    ghost predicate Valid()
      reads this
    {
      Consistent(Model())
    }

    constructor ()
      ensures Valid() && Model() == Init
    {
      stack := [];
      prev := Root;
      afterBreak := false;
      footer := 0;
      description := "";
      examples := [];
      tags := [];
    }

    /** `prev.value += v; prev.raw += v` on the last tag. */
    method ExtendLastTag(v: string)
      requires |tags| > 0
      modifies this
      ensures Model() == ExtendTag(old(Model()), v)
    {
      var t := tags[|tags| - 1];
      tags := tags[..|tags| - 1] + [Tag(t.raw + v, t.key, t.value + v)];
    }

    /** `append('value', v)`: extend the top fragment. */
    method AppendTop(v: string)
      requires |stack| > 0
      modifies this
      ensures Model() == old(Model()).(stack := AppendLast(old(stack), v))
    {
      stack := stack[..|stack| - 1] + [stack[|stack| - 1] + v];
    }

    /** `update(token)`, with the token's type as `type` holds it at the call. */
    method Update(tok: Token)
      requires Valid() && !IsKeyedTag(tok)
      modifies this
      ensures Model() == (if tok.IsExample() then UpdateExample(old(Model()), tok)
                          else if IsDescriptionType(tok) then UpdateDescription(old(Model()), tok.Value())
                          else UpdateSeparator(old(Model()), tok.Value()))
    {
      var v := tok.Value();
      if IsDescriptionType(tok) {
        if |stack| == 0 || afterBreak || prev == PrevExample {
          stack := stack + [v];
        } else {
          AppendTop(v);
        }
      } else if tok.IsExample() && prev == PrevDescription && |stack| > 1 {
        var top := |stack| - 1;
        var popped := stack[top];
        stack := stack[..top];
        footer := top;
        examples := examples + [ExampleOf(tok, popped)];
      } else if |stack| > 0 && !tok.IsExample() {
        if prev == PrevExample {
          var e := examples[|examples| - 1];
          examples := examples[..|examples| - 1] + [e.(description := e.description + v)];
        } else {
          AppendTop(v);
        }
      } else if |stack| == 0 && !tok.IsExample() {
        description := description + v;
      } else {
        footer := |stack|;
        examples := examples + [ExampleOf(tok, "")];
      }
    }

    /** The `token` event handler. */
    method Handle(tok: Token)
      requires Valid()
      modifies this
      ensures Valid() && Model() == Step(old(Model()), tok)
    {
      if tok.IsExample() {
        if prev == PrevTag && tok.Indented? {
          ExtendLastTag(tok.Value());
        } else {
          Update(tok);
          prev := PrevExample;
        }
      } else if IsKeyedTag(tok) {
        tags := tags + [Tag(tok.raw, tok.key, tok.value)];
        prev := PrevTag;
      } else if IsDescriptionType(tok) {
        if prev == PrevTag && tok.DescriptionLine? {
          ExtendLastTag(tok.Value());
        } else {
          Update(tok);
          prev := PrevDescription;
        }
      } else if prev == PrevTag {
        ExtendLastTag(tok.Value());
      } else {
        Update(tok);
      }
      afterBreak := tok.Break?;
    }

    /** The finalisation, on the fields. */
    method Finish() returns (r: Comment)
      ensures r == Finalise(Model())
    {
      var kept := stack;
      var foot := "";
      if footer > 0 && |stack| > 1 && footer < |stack| {
        foot := AppendAll("", stack[footer..]);
        assert foot == Concat(stack[footer..]);
        kept := stack[..footer];
      }
      var desc := AppendAll(description, kept);
      var exs := MapEach(TrimExample, examples);
      var tgs := MapEach(TrimTag, tags);
      r := Comment(Trim(desc), Trim(foot), exs, tgs);
      FinaliseParts(Model(), kept, foot, r);
    }
  }

  lemma FinaliseParts(a: Asm, kept: seq<string>, foot: string, r: Comment)
    requires kept == if Cuts(a) then a.stack[..a.footer] else a.stack
    requires foot == if Cuts(a) then Concat(a.stack[a.footer..]) else ""
    requires r == Comment(Trim(a.description + Concat(kept)), Trim(foot),
                          MapSeq(TrimExample, a.examples), MapSeq(TrimTag, a.tags))
    ensures r == Finalise(a)
  {
  }

  /** `ss.forEach(token => (acc += token.value))`. */
  method AppendAll(acc0: string, ss: seq<string>) returns (acc: string)
    ensures acc == acc0 + Concat(ss)
  {
    acc := acc0;
    var i := 0;
    while i < |ss|
      invariant i <= |ss|
      invariant acc == acc0 + Concat(ss[..i])
    {
      assert ss[..i + 1][..i] == ss[..i];
      acc := acc + ss[i];
      i := i + 1;
    }
    assert ss[..i] == ss;
  }

  /** A `forEach` that rewrites every entry with `f`, in order. */
  method MapEach<A, B>(f: A -> B, xs: seq<A>) returns (r: seq<B>)
    ensures r == MapSeq(f, xs)
  {
    r := [];
    var k := 0;
    while k < |xs|
      invariant k <= |xs|
      invariant r == MapSeq(f, xs[..k])
    {
      assert xs[..k + 1] == xs[..k] + [xs[k]];
      MapSeqSnoc(f, xs[..k], xs[k]);
      r := r + [f(xs[k])];
      k := k + 1;
    }
    assert xs[..k] == xs;
  }
}
