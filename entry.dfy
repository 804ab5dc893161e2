/**
 * The package's entry point, `index.js`: check the input, merge an object
 * input with fresh defaults, strip the comment markers unless told not to,
 * and tokenize.
 */
module Entry {
  import opened Strings
  import opened JsValues
  import opened Lexer
  import opened Assembly
  import opened Tokenizer
  import Utils

  /** The exceptions the entry point lets escape. */
  datatype JsError = TypeError(message: string) | Error(message: string)

  datatype Parsed = Ok(state: JsValue) | Throws(error: JsError)

  const InputMessage := "expected input to be a string"

  /** `{ description: '', footer: '', examples: [], tags: [] }`. */
  const Defaults: map<string, JsValue> :=
    map["description" := Str(""), "footer" := Str(""), "examples" := Array([]), "tags" := Array([])]

  /** An example token as the object pushed onto `state.examples`. */
  function ExampleValue(e: Example): JsValue {
    Object(map["type" := Str(e.kind), "raw" := Str(e.raw), "description" := Str(e.description),
               "language" := Str(e.language), "value" := Str(e.value)])
  }

  /** A tag token as the object pushed onto `state.tags`. */
  function TagValue(t: Tag): JsValue {
    Object(map["type" := Str("tag"), "raw" := Str(t.raw), "key" := Str(t.key), "value" := Str(t.value)])
  }

  /** The four fields `tokenize` fills in. */
  function CommentFields(c: Comment): map<string, JsValue> {
    map["description" := Str(c.description), "footer" := Str(c.footer),
        "examples" := Array(MapSeq(ExampleValue, c.examples)), "tags" := Array(MapSeq(TagValue, c.tags))]
  }

  /** An object input is used when `raw` is truthy. */
  predicate TakesRaw(input: JsValue) {
    Utils.TypeOf(input) == Some("object") && Truthy(Field(input.fields, "raw"))
  }

  /** What the checks at the top of the function leave: a refusal, or the merged state and the text. */
  datatype Prepared = Refused | Accepted(state: map<string, JsValue>, text: string)

  /** The input check and the merge `{ ...input, ...state }`, in which the defaults come last and win. */
  function Prepare(input: JsValue): Prepared {
    var state := if TakesRaw(input) then input.fields + Defaults else Defaults;
    var text := if TakesRaw(input) then Field(input.fields, "raw") else input;
    if text.Str? then Accepted(state, text.s) else Refused
  }

  /** `options.stripStars !== false ? utils.stripStars(input) : input`. */
  function Source(text: string, options: map<string, JsValue>): string {
    if Field(options, "stripStars") != Bool(false) then Utils.StripStars(text) else text
  }

  /** The state once `tokenize` has filled it in, or the exception it threw. */
  function Complete(state: map<string, JsValue>, t: Tokenized): Parsed {
    match t
    case Threw(e) => Throws(Error(Message(e)))
    case Done(c, _) => Ok(Object(state + CommentFields(c)))
  }

  /** The exported function, as a function of its arguments. */
  function ParseSpec(input: JsValue, options: map<string, JsValue>): Parsed {
    match Prepare(input)
    case Refused => Throws(TypeError(InputMessage))
    case Accepted(state, text) => Complete(state, Run(Source(text, options)))
  }

  /** The exported function, reassigning `state` and `input` as the source does. */
  method Parse(input0: JsValue, options: map<string, JsValue>) returns (r: Parsed)
    ensures r == ParseSpec(input0, options)
  {
    var state := Defaults;
    var input := input0;
    if Utils.TypeOf(input) == Some("object") && Truthy(Field(input.fields, "raw")) {
      state := input.fields + state;
      input := input.fields["raw"];
    }
    assert state == (if TakesRaw(input0) then input0.fields + Defaults else Defaults);
    assert input == (if TakesRaw(input0) then Field(input0.fields, "raw") else input0);
    if !input.Str? {
      assert Prepare(input0) == Refused;
      RefusedThrows(input0, options);
      return Throws(TypeError(InputMessage));
    }
    assert Prepare(input0) == Accepted(state, input.s);
    AcceptedRuns(input0, options, state, input.s);
    var str := if Field(options, "stripStars") != Bool(false) then Utils.StripStars(input.s) else input.s;
    var t := Tokenize(str);
    if t.Threw? {
      return Throws(Error(Message(t.err)));
    }
    r := Ok(Object(state + CommentFields(t.comment)));
    assert r == Complete(state, t);
  }

  /** An accepted input runs the tokenizer on its text, stripped or not. */
  lemma AcceptedRuns(input: JsValue, options: map<string, JsValue>, state: map<string, JsValue>, text: string)
    requires Prepare(input) == Accepted(state, text)
    ensures ParseSpec(input, options) == Complete(state, Run(Source(text, options)))
  {
  }

  // ---------------------------------------------------------------------------
  // Properties

  /** The input is accepted exactly when it is a string or an object whose `raw` is a non-empty string. */
  lemma InputContract(input: JsValue)
    ensures Prepare(input).Refused? <==>
            !(input.Str? || (input.Object? && Field(input.fields, "raw").Str? && Field(input.fields, "raw").s != ""))
  {
  }

  /** A refused input throws the type error, and nothing is tokenized. */
  lemma RefusedThrows(input: JsValue, options: map<string, JsValue>)
    requires Prepare(input).Refused?
    ensures ParseSpec(input, options) == Throws(TypeError(InputMessage))
  {
  }

  /** Called with no argument, or with an object whose `raw` is the empty string, the entry point refuses. */
  lemma RefusedInputs(fields: map<string, JsValue>)
    requires Field(fields, "raw") == Str("")
    ensures Prepare(Undefined).Refused? && Prepare(Object(fields)).Refused?
  {
  }

  /**
   * For an object input, `raw` is the text tokenized; the state keeps every
   * other field of the object, and its four comment fields start from the
   * defaults, whatever the object held under those names.
   */
  lemma DefaultsWin(fields: map<string, JsValue>, k: string)
    requires Field(fields, "raw").Str? && Field(fields, "raw").s != ""
    ensures var p := Prepare(Object(fields));
            p.Accepted? && p.text == Field(fields, "raw").s &&
            (k in fields && k !in Defaults ==> k in p.state && p.state[k] == fields[k]) &&
            (k in Defaults ==> k in p.state && p.state[k] == Defaults[k])
  {
  }

  /** A string input is tokenized as it is, from the defaults alone. */
  lemma StringInput(s: string)
    ensures Prepare(Str(s)) == Accepted(Defaults, s)
  {
  }

  /**
   * The filled-in state keeps every field the merge left outside the four
   * comment fields, and has string `description` and `footer` and array
   * `examples` and `tags`, one entry per example and tag.
   */
  lemma ResultShape(state: map<string, JsValue>, c: Comment, ts: seq<Token>, k: string)
    ensures var r := Complete(state, Done(c, ts));
            r.Ok? && r.state.Object? &&
            (k in state && k !in Defaults ==> k in r.state.fields && r.state.fields[k] == state[k]) &&
            Utils.TypeOf(r.state.fields["description"]) == Some("string") &&
            Utils.TypeOf(r.state.fields["footer"]) == Some("string") &&
            r.state.fields["examples"] == Array(MapSeq(ExampleValue, c.examples)) &&
            |r.state.fields["examples"].items| == |c.examples| &&
            r.state.fields["tags"] == Array(MapSeq(TagValue, c.tags)) &&
            |r.state.fields["tags"].items| == |c.tags|
  {
  }

  /** The lexer's exception escapes with its message. */
  lemma ErrorEscapes(state: map<string, JsValue>, e: LexError)
    ensures Complete(state, Threw(e)) == Throws(Error("missing closing \"" + e.fence + "\""))
  {
  }

  /**
   * The comment markers are stripped unless `stripStars` is exactly `false`:
   * with no options, or with any other value such as `null`, `0` or `''`,
   * they are stripped.
   */
  lemma StarsGate(s: string, v: JsValue)
    ensures Source(s, map[]) == Utils.StripStars(s)
    ensures Source(s, map["stripStars" := v]) == (if v == Bool(false) then s else Utils.StripStars(s))
  {
  }
}
