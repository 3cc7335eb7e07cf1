/** `CalmjsPlugin` of desktopsearch/plugins/calmjs.py: classifies the tokens of the calmjs ES5 lexer. */
module CalmjsPlugin {
  import opened Wrappers
  import opened PyErrors
  import opened TokenStream
  import opened Plugin
  import opened Nlp

  /** The file suffixes the plugin handles. */
  const Suffixes: seq<string> := [".js"]

  /** The `exceptions` table as written: IndentationError and ECMASyntaxError. */
  const Exceptions: set<ExcType> := {IndentationError, ECMASyntaxError}

  /**
    The table its log message ("file is not valid utf-8") calls for: the error
    `read_file` raises on undecodable bytes, next to ECMASyntaxError.
  */
  const IntendedExceptions: set<ExcType> := {UnicodeDecodeError, ECMASyntaxError}

  /** `code_tokens`: lexer token types are strings. */
  predicate CodeKind(t: string)
  {
    t == "ID" || t == "NUMBER"
  }

  /** `text_tokens`. */
  predicate TextKind(t: string)
  {
    t == "STRING" || t == "LINE_COMMENT" || t == "BLOCK_COMMENT"
  }

  /**
    `CalmjsPlugin._tokenize`: `read` is the outcome of reading the file as
    UTF-8 and `lex` the ES5 lexer (with comments), giving its tokens and the
    exception it stopped with.
  */
  function LexTokens(read: Result<string, ExcType>, lex: string -> Lexed<string>): Emission
  {
    match read
    case Failure(e) => Emission([], Some(e))
    case Success(text) => Classified(CodeOrText(CodeKind, TextKind), lex(text))
  }

  /**
    ID and NUMBER go to "code", strings and both kinds of comment to "text",
    in lexer order; nothing else is yielded; a read failure yields nothing.
  */
  lemma LexTokensFields(read: Result<string, ExcType>, lex: string -> Lexed<string>)
    ensures read.Failure? ==> LexTokens(read, lex) == Emission([], Some(read.error))
    ensures read.Success? ==>
      && FieldTokens(LexTokens(read, lex).pairs, "code") == ValuesWhere(lex(read.value).tokens, CodeKind)
      && FieldTokens(LexTokens(read, lex).pairs, "text") == ValuesWhere(lex(read.value).tokens, TextKind)
      && Fields(LexTokens(read, lex).pairs) <= {"code", "text"}
      && LexTokens(read, lex).raised == lex(read.value).raised
  {
    if read.Success? {
      CodeOrTextStreams(CodeKind, TextKind, lex(read.value).tokens);
    }
  }

  /**
    As written, an ES5 syntax error is swallowed (the tokens before it are
    kept) but a file that is not valid UTF-8 makes `tokenize` raise: the
    UnicodeDecodeError is neither an IndentationError nor an ECMASyntaxError.
  */
  lemma InvalidUtf8Raises(batch: BatchFn, config: Option<Config>, lex: string -> Lexed<string>)
    ensures Swallowed(ECMASyntaxError, Exceptions)
    ensures TokenizeWith(batch, NewTokenizerPlugin(config, Exceptions), LexTokens(Failure(UnicodeDecodeError), lex)) ==
      Failure(UnicodeDecodeError)
  {
    assert IsInstance(ECMASyntaxError, ECMASyntaxError);
    SwallowedIff(UnicodeDecodeError, Exceptions);
  }

  /**
    With the intended table an undecodable file is skipped: `tokenize`
    succeeds as if nothing had been yielded, and a syntax error is still
    swallowed.
  */
  lemma IntendedSkipsInvalidUtf8(batch: BatchFn, config: Option<Config>, lex: string -> Lexed<string>)
    ensures Swallowed(ECMASyntaxError, IntendedExceptions)
    ensures TokenizeWith(batch, NewTokenizerPlugin(config, IntendedExceptions), LexTokens(Failure(UnicodeDecodeError), lex)) ==
      TokenizeWith(batch, NewTokenizerPlugin(config, IntendedExceptions), Emission([], None))
  {
    assert IsInstance(ECMASyntaxError, ECMASyntaxError);
    assert IsInstance(UnicodeDecodeError, UnicodeDecodeError);
  }
}
