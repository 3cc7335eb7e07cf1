/** `PlaintextPlugin` of plugins/plaintext.py: a whole text file as one "text" token. */
module PlaintextPlugin {
  import opened Wrappers
  import opened PyErrors
  import opened TokenStream
  import opened Nlp
  import opened Plugin
  import opened LegacyPlugin

  /** The file suffixes the plugin handles. */
  const Suffixes: set<string> := {".txt", ".md"}

  /** `maxfilesize`: the largest file, in bytes, that is read (spaCy's default `max_length`). */
  const MaxFileSize: nat := 1000000

  /** The `exceptions` table: ValueError, which covers a UnicodeDecodeError too. */
  const Exceptions: set<ExcType> := {ValueError}

  /**
    `PlaintextPlugin._tokenize`: `size` is the outcome of `stat` (the file's
    size in bytes), `read` that of reading it as UTF-8. The size guard comes
    first, so an oversized file is never read.
  */
  function LexTokens(size: Result<nat, ExcType>, read: Result<string, ExcType>): (em: Emission)
  {
    match size
    case Failure(e) => Emission([], Some(e))
    case Success(n) =>
      if n > MaxFileSize then Emission([], Some(ValueError))
      else match read
        case Failure(e) => Emission([], Some(e))
        case Success(content) => Emission([("text", content)], None)
  }

  /**
    A file of at most `MaxFileSize` bytes that reads successfully yields
    exactly one ("text", whole content) pair; a larger one raises ValueError
    whatever reading it would give, and yields nothing.
  */
  lemma LexTokensGuard(n: nat, read: Result<string, ExcType>)
    ensures n > MaxFileSize ==> LexTokens(Success(n), read) == Emission([], Some(ValueError))
    ensures n <= MaxFileSize && read.Success? ==>
      && LexTokens(Success(n), read).raised.None?
      && FieldTokens(LexTokens(Success(n), read).pairs, "text") == [read.value]
      && Fields(LexTokens(Success(n), read).pairs) == {"text"}
  {
    var em := LexTokens(Success(n), read);
    if n <= MaxFileSize && read.Success? {
      assert em.pairs == [("text", read.value)];
      assert em.pairs[..0] == [];
      assert Fields(em.pairs) == {"text"} by {
        assert em.pairs[0].0 == "text";
      }
    }
  }

  /** A file of exactly `MaxFileSize` bytes is still read. */
  lemma LimitIsInclusive(read: Result<string, ExcType>)
    requires read.Success?
    ensures LexTokens(Success(MaxFileSize), read) == Emission([("text", read.value)], None)
  {
  }

  /**
    An oversized or undecodable file is skipped rather than failing: with the
    default configuration and the `batch` of nlp.py, `tokenize` returns empty
    counts for both fields.
  */
  lemma SkippedFileCountsNothing(pp: Preprocess, n: nat, read: Result<string, ExcType>)
    requires n > MaxFileSize || read == Failure(UnicodeDecodeError)
    ensures TokenizeWith(LegacyBatch(pp), NewTokenizerPlugin(None, Exceptions), LexTokens(Success(n), read)) ==
      Success(map["code" := multiset{}, "text" := multiset{}])
  {
    var em := LexTokens(Success(n), read);
    var plugin := NewTokenizerPlugin(None, Exceptions);
    assert IsInstance(em.raised.value, ValueError);
    assert Swallowed(em.raised.value, Exceptions);
    assert Grouped(em.pairs) == map[];
    var config := plugin.config;
    var batch := LegacyBatch(pp);
    var tokens := Grouped(em.pairs);
    assert Lookup(tokens, "code") == [] && Lookup(tokens, "text") == [];
    assert batch(config[0].1, []) == (multiset{}, None);
    assert batch(config[1].1, []) == (multiset{}, None);
    assert config[..1][..0] == [];
    assert FieldCounts(batch, config[..1], tokens) == Success(map["code" := multiset{}]);
    assert config[..2][..1] == config[..1];
    assert config[..2] == config;
  }
}
