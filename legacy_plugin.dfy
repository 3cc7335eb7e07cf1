/**
  `TokenizerPlugin.tokenize` of the older plugin.py. The control flow is that
  of desktopsearch/plugin.py (`Plugin.TokenizeWith`); only the `batch` differs:
  the older `Preprocess.batch` of nlp.py, modelled in `LegacyNlp`.
*/
module LegacyPlugin {
  import opened Wrappers
  import opened PyErrors
  import opened Counters
  import opened TokenStream
  import opened Nlp
  import opened Plugin
  import LegacyNlp

  /** The `batch` of nlp.py. */
  function LegacyBatch(pp: Preprocess): BatchFn
  {
    (fc: FieldConfig, texts: seq<string>) => LegacyNlp.BatchSpec(pp, fc, texts)
  }

  /** One field of `tokenize`: a fresh counter filled by nlp.py's `batch`. */
  method CountField(pp: Preprocess, fc: FieldConfig, texts: seq<string>) returns (counts: multiset<string>, err: Option<ExcType>)
    ensures counts == LegacyBatch(pp)(fc, texts).0 && err == LegacyBatch(pp)(fc, texts).1
  {
    var counter := new Counter();
    err := LegacyNlp.Batch(pp, fc, texts, counter);
    counts := counter.counts;
  }

  /** `TokenizerPlugin.tokenize(path)` of plugin.py, `em` being what `_tokenize(path)` produced. */
  method Tokenize(pp: Preprocess, plugin: TokenizerPlugin, em: Emission) returns (r: Result<map<string, multiset<string>>, ExcType>)
    ensures r == TokenizeWith(LegacyBatch(pp), plugin, em)
  {
    var tokens := GroupTokens(em.pairs);
    if em.raised.Some? && !Swallowed(em.raised.value, plugin.exceptions) {
      return Failure(em.raised.value);
    }
    r := CountFields(pp, plugin.config, tokens);
  }

  /** The counting loop of `tokenize`, over the configured fields in order. */
  method CountFields(pp: Preprocess, config: Config, tokens: map<string, seq<string>>) returns (r: Result<map<string, multiset<string>>, ExcType>)
    ensures r == FieldCounts(LegacyBatch(pp), config, tokens)
  {
    var freqs: map<string, multiset<string>> := map[];
    var i := 0;
    while i < |config|
      invariant 0 <= i <= |config|
      invariant FieldCounts(LegacyBatch(pp), config[..i], tokens) == Success(freqs)
    {
      FieldCountsStep(LegacyBatch(pp), config, tokens, i, freqs);
      var counts, err := CountField(pp, config[i].1, Lookup(tokens, config[i].0));
      if err.Some? && !IsInstance(err.value, ValueError) {
        FieldCountsStops(LegacyBatch(pp), config, tokens, i + 1);
        return Failure(err.value);
      }
      freqs := freqs[config[i].0 := counts];
      i := i + 1;
    }
    assert config[..i] == config;
    return Success(freqs);
  }

  /**
    With the default configuration the older plugin never fails in its counting
    loop (spaCy can only raise the tolerated ValueError), and its "code" field counts every yielded code token whole, exactly
    as many times as it was yielded.
  */
  lemma DefaultCodeCountsWhole(pp: Preprocess, exceptions: set<ExcType>, em: Emission)
    requires em.raised.None? || Swallowed(em.raised.value, exceptions)
    ensures TokenizeWith(LegacyBatch(pp), NewTokenizerPlugin(None, exceptions), em).Success?
    ensures "code" in TokenizeWith(LegacyBatch(pp), NewTokenizerPlugin(None, exceptions), em).value
    ensures TokenizeWith(LegacyBatch(pp), NewTokenizerPlugin(None, exceptions), em).value["code"] ==
      multiset(FieldTokens(em.pairs, "code"))
  {
    var plugin := NewTokenizerPlugin(None, exceptions);
    var tokens := Grouped(em.pairs);
    var code, text := DefaultConfig[0], DefaultConfig[1];
    assert code.0 == "code" && !code.1.tokenize && code.1.caseSensitive && code.1.lemmatize.None?;
    assert text.1.tokenize && text.1.lemmatize.Some?;
    ghost var out := LegacyNlp.BatchSpec(pp, code.1, Lookup(tokens, code.0));
    assert out == (multiset(Lookup(tokens, code.0)), None);
    assert LegacyBatch(pp)(code.1, Lookup(tokens, code.0)) == out;
    assert !FieldRaises(LegacyBatch(pp), code, tokens);
    assert LegacyBatch(pp)(text.1, Lookup(tokens, text.0)) == PipeCounts(pp, text.1.caseSensitive, text.1.lemmatize.value, Lookup(tokens, text.0));
    assert !FieldRaises(LegacyBatch(pp), text, tokens);
    FieldCountsResult(LegacyBatch(pp), DefaultConfig, tokens);
    TokenizeResult(LegacyBatch(pp), plugin, em);
    GroupedLookup(em.pairs, code.0);
  }
}
