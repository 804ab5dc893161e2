# tokenize-comment in Dafny

This project models the core of the JavaScript package `tokenize-comment`.
The package takes the text of a JavaScript block comment and returns an
object. The object has four fields:

- `description`: the comment's lead text;
- `footer`: text that comes after the last example;
- `examples`: the code examples, which can be GFM-fenced blocks, indented blocks or `@example` blocks;
- `tags`: the `@key value` lines.

The model follows the three core files:

- `index.js` becomes module `Entry`:
  - the input check;
  - the merge of an object input with the defaults;
  - the `stripStars` option;
  - the call into the tokenizer.

  `Entry.Parse` is the function written step by step. `Entry.ParseSpec` is
  the same function stated as a value.
- `lib/utils.js` becomes module `Utils`:
  - `stripStars` is the chain of six regular-expression rewrites, then `stripIndent` and `trimRight`;
  - `typeOf` is modelled too.

  Every rewrite is a pure function on `string`.
- `lib/tokenize.js` is split into four modules:
  - `Lexer`: the seven matchers, in the order they are registered. Each is a
    pure function on the remaining text. The three matchers whose source runs
    a `while` loop are written again as methods with that loop, and each is
    proved equal to its function: `LexGfm`, `LexIndented`, `LexJavadoc`.
  - `Assembly`:
    - the token handler and `update` as one step function, `Step`, over the
      tokenizer's closure state (`stack`, `prev`, `prevType`, `footer` and the
      comment fields);
    - the finalisation, `Finalise`;
    - a class, `Assembler`, whose fields are that state and whose methods
      update it in place. `Handle` is one token event. `Finish` is the code
      after `lexer.lex`.
  - `Tokenizer`: the driver loop. It matches a token at the start of the
    remaining text, hands it to the handler and cuts it off.
  - `AssemblyFacts` and `LexerFacts`: the properties of the two halves.
    They cover token priority, fenced/indented/javadoc block shape, tag
    shape, and the order of examples and tags. They also cover how a tag is
    continued, where plain text goes, how description fragments are pushed,
    extended and taken by examples, the footer cut, and trimming.

`Strings` holds the string vocabulary shared by all modules, for example
JavaScript's `\s` set, `split('\n')`/`join('\n')`, `trim` and `indexOf`.
`JsValues` holds a small model of JavaScript values.

Some behaviour of the code is easy to misread. The model follows the code as written:

- A `~~~` opener is closed by a backtick fence. The closing fence is always
  three or four backticks (lib/tokenize.js:118). So a tilde block that is
  never closed by backticks throws `missing closing "```"`
  (`LexerFacts.TildeExample`).
- An `@example` block takes every line until one that starts, after
  whitespace, with `@` or a fence (lib/tokenize.js:189). That includes text
  after a blank line, so such text does not become a footer.
- `@description` tags are not promoted to the description. The tag matcher
  gives an `@description x` line the token type `description`
  (lib/tokenize.js:206). Such a token carries a `key`, so it does not continue
  a previous tag (lib/tokenize.js:78-79). It never becomes a tag, and its value
  goes through `update` into the description fragments, like any description
  line (lib/tokenize.js:84).
- `stripIndent` removes the indentation of the first line that has content,
  not the smallest indentation over all lines (lib/utils.js:16).

The lexer library (`snapdragon-lexer`) is not part of this model. These
assumptions are made about it:

- each matcher consumes the text its match spans;
- a `capture` token's value is the whole match;
- one `token` event is emitted per token, in order.
- no end-of-input token reaches the `token` handler. If one did, it would
  take the `default` branch (lib/tokenize.js:88-95): after a tag it would
  extend the tag. Otherwise it would go through `update`. With an empty
  stack its value would join the description (lib/tokenize.js:43-44). With a
  non-empty stack `footer` would become the stack height (lib/tokenize.js:46-47),
  which turns off the footer cut (lib/tokenize.js:224).
- the `token` event is emitted after the matcher returns, so the handler sees
  each token's final `value` and `raw`. For an indented block this is the whole
  block with trailing newlines collapsed (lib/tokenize.js:158-166), not only its
  first line (lib/tokenize.js:145). A tag followed by an indented block
  (lib/tokenize.js:59-62) therefore gains the whole block.

`Lexer.DescriptionAnswers` and `Lexer.NextTokenFacts` prove that some
matcher always answers. So the library's error for unmatched input can never
be raised.

## Model

| member | source | states |
|---|---|---|
| Entry.Parse | index.js:7-23 | The exported function, written with the source's reassignments, returns exactly `Entry.ParseSpec`: the type error, the lexer's error, or the filled-in state. |
| Entry.InputContract | index.js:10-17 | An input is refused exactly when it is neither a string nor an object whose `raw` is a non-empty string. |
| Entry.RefusedThrows | index.js:15-17 | A refused input throws `TypeError('expected input to be a string')`, and nothing is tokenized. |
| Entry.RefusedInputs | index.js:10-17 | No argument, and an object whose `raw` is `''`, are both refused: the empty string is falsy, so the object itself is checked as the input. |
| Entry.DefaultsWin | index.js:8-12 | For an object input, `raw` is the tokenized text. Every other field of the object is kept, and the four comment fields are reset to their defaults because the spread puts the defaults last. |
| Entry.StringInput | index.js:8-17 | A string input is tokenized as it is, starting from the defaults alone. |
| Entry.ResultShape | index.js:20-22 | The result keeps every merged field outside the four comment fields. `description` and `footer` are strings. `examples` and `tags` are arrays with one object per example and tag, in order. |
| Entry.ErrorEscapes | index.js:20 | The tokenizer's exception escapes with the message `missing closing "<fence>"`. |
| Entry.StarsGate | index.js:19 | Comment markers are stripped unless `stripStars` is exactly `false`. Absent, `null`, `0`, `''` and every other value strip them. |
| Utils.TypeOf | lib/utils.js:32-41 | Gives `string`, `array`, `regexp` or `object` exactly for those kinds of value, and `undefined` exactly for every other kind. |
| Utils.ExpandTabs | lib/utils.js:5 | Leaves no tab in the result, and leaves text without tabs unchanged. |
| Utils.ExpandTabsAppend | lib/utils.js:5 | Tab expansion distributes over concatenation. |
| Utils.ExpandTabsChar | lib/utils.js:5 | A tab becomes exactly two spaces and any other character is kept. With `Utils.ExpandTabsAppend` this fixes the rewrite on every text. |
| Utils.StripOpenerSpec | lib/utils.js:6 | The opener rewrite changes the text exactly when, after the leading whitespace, the text starts with `/*`. |
| Utils.StripOpenerParts | lib/utils.js:6 | Given leading whitespace, `/`, a maximal run of stars and a maximal run of horizontal whitespace, the rewrite leaves exactly what follows them. |
| Utils.StripCloser | lib/utils.js:7 | The result is a prefix of the input. It differs from the input exactly when the input, after trailing whitespace is dropped, ends in `*/`. |
| Utils.StripCloserParts | lib/utils.js:7 | For `body + horizontal space + "*/" + whitespace`, where the body does not end in horizontal space, the rewrite leaves exactly the body. |
| Utils.StripLineStarsPerLine | lib/utils.js:8 | On text whose one line terminator is `\n`, the multiline rewrite acts line by line. Each line loses its leading horizontal whitespace and one star if it has them, and the lines are joined again. |
| Utils.CollapseTagIndentPerLine | lib/utils.js:9 | On text whose one line terminator is `\n`, line by line, one to three spaces before `@` and a non-space character are dropped, and other lines are unchanged. |
| Strings.TrimRight | lib/utils.js:24-26 | `trimRight` gives a prefix of its input that ends in non-whitespace, and what it removed is all whitespace. |
| Utils.StripIndentSpec | lib/utils.js:15-22 | Let `n` be the indentation of the first line with content. Each line loses exactly `n` leading spaces if it has them, the number of lines is unchanged, and text without a content line comes back unchanged. |
| Utils.StripIndentBlank | lib/utils.js:15-22 | Text that is entirely whitespace comes back unchanged. |
| Utils.StripStars | lib/utils.js:3-13 | The result of `stripStars` never ends in whitespace. |
| Utils.StripStarsOneLine | lib/utils.js:3-13 | `stripStars('/* foo */')` is `'foo'`. |
| Lexer.NextToken | lib/tokenize.js:102-216 | When the text is not empty, some matcher always answers, and a token consumes at least one character and at most the whole text. |
| Lexer.NextTokenFacts | lib/tokenize.js:102-216 | On non-empty text the first matcher that answers, in registration order, never reports no match, and a match consumes at least one character and at most the whole text. |
| Lexer.LexGfm | lib/tokenize.js:105-140 | The fenced-block matcher, loop included, returns exactly its specification `Lexer.MatchGfm`. |
| Lexer.FindClosingFence | lib/tokenize.js:119-123 | The search loop returns the first occurrence of the fence that no backslash precedes, or -1. |
| Lexer.LexIndented | lib/tokenize.js:141-171 | The indented-block matcher, loop included, returns exactly its specification `Lexer.MatchIndented`. |
| Lexer.IndentedRun | lib/tokenize.js:153-163 | The loop adds the maximal run of indented or empty lines: their value with 4 columns dropped from each line, their raw text, and the total length. |
| Lexer.LexJavadoc | lib/tokenize.js:172-201 | The `@example` matcher, loop included, returns exactly its specification `Lexer.MatchJavadoc`. |
| Lexer.JavadocRun | lib/tokenize.js:184-194 | The loop adds the maximal run of lines that do not stop the block, and the total length. |
| Lexer.LexNext | lib/tokenize.js:102-216 | Matching at the start of the text with the looping matchers gives exactly `Lexer.NextToken`. |
| Lexer.ClosingFenceSpec | lib/tokenize.js:119-123 | The closing position is -1 or an occurrence of the fence with no backslash before it, and no earlier position qualifies. |
| Lexer.FenceAnswers | lib/tokenize.js:107 | Text that starts with three backticks or three tildes is always answered by the fenced-block matcher. |
| Lexer.AtAnswers | lib/tokenize.js:174-204 | Text that starts with `@` and a non-space character is answered by the `@example` matcher or the tag matcher. |
| Lexer.DescriptionAnswers | lib/tokenize.js:216 | When no earlier matcher answers a text that does not start with a newline, the description matcher matches a non-empty prefix. |
| LexerFacts.Answered | lib/tokenize.js:102-216 | Each kind of token comes from the one matcher that makes it, and a throw comes only from the fenced-block matcher. |
| LexerFacts.NewlineRun | lib/tokenize.js:103-104 | Two or more newlines make one break token holding them all. A single newline makes a newline token. |
| LexerFacts.NewlineFirst | lib/tokenize.js:103-104 | A break or newline token comes exactly when the text starts with a newline. |
| LexerFacts.OpenerShape | lib/tokenize.js:107 | The opener is up to three horizontal spaces, then three or four equal fence characters, then the rest of the line. |
| LexerFacts.OpenerFenceLength | lib/tokenize.js:107-118 | The indentation is the whole horizontal-space run. The fence is four characters long exactly when a fourth equal fence character follows the first three, as the greedy `{3,4}` takes it. |
| LexerFacts.OpenerFound | lib/tokenize.js:107-108 | An opener is found exactly when at most three horizontal spaces are followed by three equal fence characters. |
| LexerFacts.FencedRaw | lib/tokenize.js:109-129 | A fenced token's raw text runs from the start of the text to the end of the closing fence. Its language is the rest of the opener's line. |
| LexerFacts.FencedClose | lib/tokenize.js:117-123 | The block closes at the first backtick fence of the opener's length that no backslash precedes. |
| LexerFacts.FencedValue | lib/tokenize.js:130-137 | A fenced token's value is the body between the opener and the closing fence, with the opener's indentation dropped from each line. |
| LexerFacts.DedentNone | lib/tokenize.js:133 | Without indentation the body is kept verbatim. |
| LexerFacts.UnterminatedFence | lib/tokenize.js:125-127 | Lexing throws exactly when an opener is found and no unescaped closing fence follows. The message names a fence of three or four backticks. |
| LexerFacts.TildeFenceUnclosed | lib/tokenize.js:118-127 | After a fence opener, text without backticks always throws. This includes a tilde block closed by tildes. |
| LexerFacts.TildeExample | lib/tokenize.js:118-127 | The text ``~~~\nfoo\n~~~`` throws `missing closing "```"`. |
| LexerFacts.IndentedToken | lib/tokenize.js:141-171 | An indented token starts with four spaces. Its raw text is the consumed text with trailing newlines collapsed to one. Raw text and value both end in exactly one newline. The next line is neither indented nor empty. |
| LexerFacts.JavadocToken | lib/tokenize.js:172-201 | A javadoc token starts with `@example`, and its raw text is the keyword part followed by its value. Both end in exactly one newline, and the next line stops the block. |
| LexerFacts.TagStart | lib/tokenize.js:202-214 | A tag has at most three leading spaces and then `@`. Its raw text is exactly the consumed text, and its key is the text right after the `@`. |
| LexerFacts.TagKeyMaximal | lib/tokenize.js:204 | The key is a maximal, non-empty run of non-whitespace characters. |
| LexerFacts.TagNotExample | lib/tokenize.js:204 | The key never starts with `example`. |
| LexerFacts.TagGap | lib/tokenize.js:204 | The value starts at or after the end of the key, only spaces lie between the two, and the value does not start with a space. |
| LexerFacts.TagValue | lib/tokenize.js:204-211 | The value is the tail of the tag's raw text, ending where the tag ends. With `TagStart`, `TagGap` and `TagOneLine` this fixes the value: what follows the spaces after the key, up to the end of the line. |
| LexerFacts.TagValueDetermined | lib/tokenize.js:204-211 | Any text that meets the facts of `TagValue` and `TagGap` is the tag's value. So these facts, with `TagOneLine` for where the tag ends, fix the value: what follows the spaces after the key, up to the end of the line. |
| LexerFacts.TagOneLine | lib/tokenize.js:204 | A tag never crosses a newline, and it ends at a newline or at the end of the text. |
| LexerFacts.DescriptionToken | lib/tokenize.js:216 | A description token is its whole line without the newline, and it never starts at a newline. |
| Assembly.Step | lib/tokenize.js:24-100 | The handler keeps the state consistent. After a tag, `prev` has a tag to extend; after an example, an example to extend; and the footer cut stays within the stack. |
| Assembly.Fold | lib/tokenize.js:51-100 | The state stays consistent over a whole token stream. |
| Assembly.Assembler.Update | lib/tokenize.js:24-49 | `update` changes the state as the branch for the token's kind says: push or extend a fragment, take a fragment as an example's description, extend the last fragment or example, add to the description, or move the footer cut. |
| Assembly.Assembler.Handle | lib/tokenize.js:51-100 | One token event changes the object's state exactly as `Assembly.Step` does. |
| Assembly.Assembler.Finish | lib/tokenize.js:224-240 | The finalisation produces exactly `Assembly.Finalise` of the object's state. |
| Assembly.AppendAll | lib/tokenize.js:225-229 | The `forEach` loop appends the joined fragment values. |
| Assembly.MapEach | lib/tokenize.js:233-240 | The `forEach` over examples or tags applies the trim to each entry, in order. |
| AssemblyFacts.TagsInOrder | lib/tokenize.js:72-75 | Folding a stream adds, in stream order, the keys of exactly the tag tokens that are not `@description` tags. |
| AssemblyFacts.ExamplesInOrder | lib/tokenize.js:55-70 | Apart from their descriptions, the examples are the stream's example tokens in order. The exception is an indented block that follows a tag, which continues the tag instead. |
| AssemblyFacts.TagContinuation | lib/tokenize.js:60-63 | After a tag, newlines, breaks, description lines and indented blocks all go onto the tag's value and raw text, in order, and nothing else changes. |
| AssemblyFacts.PlainFold | lib/tokenize.js:24-49 | Some streams have no example or tag tokens at all. For these, the description plus the fragments is the streamed text, in order. |
| AssemblyFacts.PlainComment | lib/tokenize.js:224-240 | A stream of newline, break and description tokens gives the trimmed concatenation of the tokens' values as the description, with an empty footer and no examples or tags. |
| Tokenizer.PlainTokenText | lib/tokenize.js:103-104 | A newline, break or description token's value is exactly the text it consumes. |
| Tokenizer.PlainText | lib/tokenize.js:222 | When a text lexes into newline, break and description tokens only, the tokens' values joined give the text back. |
| Tokenizer.PlainInput | lib/tokenize.js:222-240 | A text that lexes without examples or tags is tokenized into its whole text, trimmed, as the description, with an empty footer and no examples or tags. |
| AssemblyFacts.DescriptionFragment | lib/tokenize.js:25-30 | A description-type token starts a new fragment exactly when the stack is empty, the previous token was a break, or `prev` is an example. Otherwise it extends the top fragment. |
| AssemblyFacts.ExampleDescription | lib/tokenize.js:32-34 | An example takes the top fragment as its description exactly when `prev` is a description and the stack has more than one fragment. The footer cut is then the height of the stack. |
| AssemblyFacts.FooterSplit | lib/tokenize.js:224-230 | The fragments from the cut upward become the footer only when the cut is positive, below the height of the stack and the stack has more than one fragment. No fragment is lost either way. |
| AssemblyFacts.FinaliseTrimmed | lib/tokenize.js:230-240 | Description, footer, example descriptions, and tag raw text and values all come out trimmed. |
| AssemblyFacts.FinaliseKeepsEntries | lib/tokenize.js:233-240 | Finalisation keeps the number and order of examples and tags, and every field it does not trim. Each example description, tag raw text and tag value becomes exactly the trim of what it was. |
| AssemblyFacts.ExtendTagTwice | lib/tokenize.js:90-93 | Extending a tag twice is the same as extending it once with both texts. |
| Strings.TrimSpec | lib/tokenize.js:230 | `trim` removes exactly one leading and one trailing run of whitespace, and the result has no whitespace at either end. |
| Strings.UnlinesLines | lib/tokenize.js:135-136 | Joining the result of `split('\n')` with `'\n'` gives the text back. |
| Strings.CollapseSpec | lib/tokenize.js:165-166 | `replace(/\n+$/, '\n')` turns a trailing run of newlines into exactly one newline and changes nothing before that run. |
| Tokenizer.Tokenize | lib/tokenize.js:7-242 | The driver loop returns exactly the filled-in comment of the lexed stream, folded and finalised, or the lexer's error. |

## Left out

- Location metadata (`this.location()`, `loc(...)`) and the token objects' other snapdragon fields are not modelled, because nothing in the result depends on them.
- The `ast` property that `define` adds to the state (index.js:21, lib/utils.js:47-54) is not modelled. It is non-enumerable. In the source it holds the same token objects the handler later changes: extended tag values and raw text, collected example descriptions. `Tokenizer.Tokenized.Done` returns the token list beside the comment instead, with every token as it was lexed.
- `snapdragon-lexer` is not part of this model. Its internals (the `token` event, `capture`, `set`, `lex`) are given the behaviour assumed above.
- The `options` object reaches the lexer constructor (lib/tokenize.js:8) and has no other effect there, so it is not passed to the tokenizer.
- The key order of the object spread (index.js:11) is not modelled, because the state is a `map`.
- JavaScript numbers are modelled as integers. Only their truthiness matters here.
- The regular expressions are restated as functions on `seq<char>`. `\s` is the fixed ECMAScript whitespace and line-terminator set.
- Assembly.Assembler.Finish: builds the trimmed example and tag records as new values instead of trimming the objects in place. Token aliasing between `stack`, `state.examples` and `prev` is represented by the concrete roles the model tracks (`prev` always names the last example or tag).
- The unmatched-input error of the lexer library is not modelled, because `Lexer.NextToken` proves that a matcher always answers.
- Utils.StripLineStarsPerLine: proved only for text whose one line terminator is `\n`. The rewrite `Utils.StripLineStarsFrom` also handles `\r`, `\u2028` and `\u2029` as the `m` flag does, but no lemma describes its result line by line on such text (for example CRLF comments).
- Utils.CollapseTagIndentPerLine: proved only for text whose one line terminator is `\n`, for the same reason. `Utils.CollapseTagIndentFrom` itself handles every line terminator.
- JavaScript strings are sequences of UTF-16 code units, but the model's `char` is a Unicode scalar value. So characters outside the Basic Multilingual Plane count as one character, not two. Where the source slices through a surrogate pair, the model differs. For example, it cuts a one-column indent from a line that starts with an emoji inside an indented fence (lib/tokenize.js:136); the source keeps half of the pair.
- An `options` argument of `null` or another value that is not an object makes `options.stripStars` throw a `TypeError` in the source (index.js:19), because the default `{}` applies only to `undefined`. The model's `options` is always a map, so that case is not represented.
- The package's other files (`lib/handlers.js`, `lib/middleware.js`, `lib/parsers.js`) and its tests are not part of this model.
