/**
 * The exported function of `lib/tokenize.js`: the lexer is run over the
 * text, every token is handed to the handler as soon as it is matched, and
 * the finalisation runs once the text is used up.
 */
module Tokenizer {
  import opened Strings
  import opened Lexer
  import opened Assembly
  import opened AssemblyFacts
  import opened LexerFacts

  /** The outcome of tokenizing: the filled-in state and the token list, or the lexer's exception. */
  datatype Tokenized = Done(comment: Comment, tokens: seq<Token>) | Threw(err: LexError)

  /** Tokenizing as a function of the text. */
  function Run(s: string): Tokenized {
    match LexAll(s)
    case Tokens(ts) => Done(Finalise(Fold(Init, ts)), ts)
    case LexFailed(e) => Threw(e)
  }

  lemma PrependJoin(xs: seq<Token>, ys: seq<Token>, r: Lexed)
    ensures Prepend(xs, Prepend(ys, r)) == Prepend(xs + ys, r)
  {
    if r.Tokens? {
      assert xs + (ys + r.toks) == (xs + ys) + r.toks;
    }
  }

  /** A newline, break or description token's value is exactly the text it consumes. */
  lemma PlainTokenText(s: string)
    requires |s| > 0 && NextToken(s).Match? && Plain(NextToken(s).tok)
    ensures NextToken(s).tok.Value() == s[..NextToken(s).used]
  {
    if NextToken(s).tok.DescriptionLine? {
      DescriptionToken(s);
    } else {
      NewlineFirst(s);
      NewlineRun(s);
    }
  }

  /** When a text lexes into newline, break and description tokens only, their values joined give the text back. */
  lemma {:induction false} PlainText(s: string, ts: seq<Token>)
    requires LexAll(s) == Tokens(ts)
    requires forall i :: 0 <= i < |ts| ==> Plain(ts[i])
    ensures Text(ts) == s
    decreases |s|
  {
    if |s| > 0 {
      var used := PlainHead(s, ts);
      PlainText(s[used..], ts[1..]);
      JoinHead(s, used, ts);
    }
  }

  /** A head value that covers `s[..used]`, followed by values that rebuild the rest, rebuilds `s`. */
  lemma JoinHead(s: string, used: nat, ts: seq<Token>)
    requires used <= |s| && |ts| > 0 && ts[0].Value() == s[..used] && Text(ts[1..]) == s[used..]
    ensures Text(ts) == s
  {
    assert s == s[..used] + s[used..];
  }

  /** The first plain token of a text consumes exactly its value, and the rest of the stream lexes the rest. */
  lemma PlainHead(s: string, ts: seq<Token>) returns (used: nat)
    requires |s| > 0 && LexAll(s) == Tokens(ts)
    requires forall i :: 0 <= i < |ts| ==> Plain(ts[i])
    ensures 0 < used <= |s| && |ts| > 0 && ts[0].Value() == s[..used]
    ensures LexAll(s[used..]) == Tokens(ts[1..])
    ensures forall i :: 0 <= i < |ts[1..]| ==> Plain(ts[1..][i])
  {
    var r := NextToken(s);
    LexedHead(s, ts, r);
    used := r.used;
    assert Plain(ts[0]);
    PlainTokenText(s);
  }

  /** A text that lexes completely starts with a matched token, and the rest of the stream lexes the rest. */
  lemma LexedHead(s: string, ts: seq<Token>, r: Outcome)
    requires |s| > 0 && LexAll(s) == Tokens(ts) && r == NextToken(s)
    ensures r.Match? && |ts| > 0 && ts[0] == r.tok && LexAll(s[r.used..]) == Tokens(ts[1..])
  {
    var rest := LexAll(s[r.used..]);
    assert r.Match? && rest.Tokens?;
    assert ts == [r.tok] + rest.toks;
  }

  /**
   * A comment that lexes without examples or tags becomes its whole text,
   * trimmed, as the description, with an empty footer.
   */
  lemma PlainInput(s: string)
    requires LexAll(s).Tokens?
    requires forall i :: 0 <= i < |LexAll(s).toks| ==> Plain(LexAll(s).toks[i])
    ensures Run(s) == Done(Comment(Trim(s), "", [], []), LexAll(s).toks)
  {
    PlainText(s, LexAll(s).toks);
    PlainComment(LexAll(s).toks);
  }

  /** The driver loop: match at the start of the remaining text, handle the token, cut it off. */
  method Tokenize(s: string) returns (r: Tokenized)
    ensures r == Run(s)
  {
    var asm := new Assembler();
    var rest := s;
    var toks: seq<Token> := [];
    assert Prepend([], LexAll(s)) == LexAll(s);
    while |rest| > 0
      invariant asm.Valid() && asm.Model() == Fold(Init, toks)
      invariant LexAll(s) == Prepend(toks, LexAll(rest))
      decreases |rest|
    {
      var o := LexNext(rest);
      if o.Fail? {
        return Threw(o.err);
      }
      PrependJoin(toks, [o.tok], LexAll(rest[o.used..]));
      FoldSnoc(Init, toks, o.tok);
      asm.Handle(o.tok);
      toks := toks + [o.tok];
      rest := rest[o.used..];
    }
    assert toks + [] == toks;
    var c := asm.Finish();
    r := Done(c, toks);
  }
}
