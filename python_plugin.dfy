/** `PythonPlugin` of plugins/python.py: classifies the tokens of Python's `tokenize` module. */
module PythonPlugin {
  import opened Wrappers
  import opened PyErrors
  import opened TokenStream
  import opened Nlp
  import opened Plugin

  /** The token types of Python's `tokenize` module that matter here; `OtherType` stands for the rest (OP, NEWLINE, INDENT, ...). */
  datatype PyTokenType = NAME | NUMBER | STRING | COMMENT | OtherType(name: string)

  /** The file suffixes the plugin handles. */
  const Suffixes: set<string> := {".py", ".pyw"}

  /** The `exceptions` table: what a Python tokenizer may raise on a broken file. */
  const Exceptions: set<ExcType> := {IndentationError, TokenError, SyntaxError}

  /** `code_tokens`. */
  predicate CodeKind(t: PyTokenType)
  {
    t == NAME || t == NUMBER
  }

  /** `text_tokens`. */
  predicate TextKind(t: PyTokenType)
  {
    t == STRING || t == COMMENT
  }

  /**
    `PythonPlugin._tokenize`: the generator over `tokenize.generate_tokens`.
    `lexed` is what the standard tokenizer produced for the file (opening the
    file with `tokenize.open` raises before any token, which `lexed` expresses
    as an empty token list with that exception).
  */
  function LexTokens(lexed: Lexed<PyTokenType>): Emission
  {
    Classified(CodeOrText(CodeKind, TextKind), lexed)
  }

  /**
    NAME and NUMBER tokens go to "code" and STRING and COMMENT tokens to
    "text", in file order; everything else is dropped and no other field
    occurs; the tokenizer's exception is passed on.
  */
  lemma LexTokensFields(lexed: Lexed<PyTokenType>)
    ensures FieldTokens(LexTokens(lexed).pairs, "code") == ValuesWhere(lexed.tokens, CodeKind)
    ensures FieldTokens(LexTokens(lexed).pairs, "text") == ValuesWhere(lexed.tokens, TextKind)
    ensures Fields(LexTokens(lexed).pairs) <= {"code", "text"}
    ensures LexTokens(lexed).raised == lexed.raised
  {
    CodeOrTextStreams(CodeKind, TextKind, lexed.tokens);
  }

  /**
    The exceptions `tokenize` swallows for this plugin are exactly the syntax
    errors (IndentationError included) and TokenError; a decoding error or an
    OSError from opening the file propagates.
  */
  lemma SwallowsSyntaxErrors(e: ExcType)
    ensures Swallowed(e, Exceptions) <==> IsInstance(e, SyntaxError) || e == TokenError
  {
    SwallowedIff(e, Exceptions);
  }

  /**
    A file that fails to tokenize part-way with a listed error is counted from
    the tokens before the error: with the default configuration "code" counts
    the NAME and NUMBER strings and "text" the STRING and COMMENT strings.
  */
  lemma DefaultCounts(batch: BatchFn, lexed: Lexed<PyTokenType>)
    requires TokenizeWith(batch, NewTokenizerPlugin(None, Exceptions), LexTokens(lexed)).Success?
    ensures "code" in TokenizeWith(batch, NewTokenizerPlugin(None, Exceptions), LexTokens(lexed)).value
    ensures "text" in TokenizeWith(batch, NewTokenizerPlugin(None, Exceptions), LexTokens(lexed)).value
    ensures TokenizeWith(batch, NewTokenizerPlugin(None, Exceptions), LexTokens(lexed)).value["code"] ==
      batch(DefaultConfig[0].1, ValuesWhere(lexed.tokens, CodeKind)).0
    ensures TokenizeWith(batch, NewTokenizerPlugin(None, Exceptions), LexTokens(lexed)).value["text"] ==
      batch(DefaultConfig[1].1, ValuesWhere(lexed.tokens, TextKind)).0
  {
    var plugin := NewTokenizerPlugin(None, Exceptions);
    TokenizeResult(batch, plugin, LexTokens(lexed));
    LexTokensFields(lexed);
    assert plugin.config[0].0 == "code" && plugin.config[1].0 == "text";
  }
}
