/**
  `TokenizerPlugin` of desktopsearch/plugin.py: runs a plugin's `_tokenize`
  generator, tolerates the plugin's listed exceptions, groups the yielded
  tokens by field and counts each configured field with `Preprocess.batch`.
  The generic parts (everything but the choice of `batch`) are shared with
  the older plugin.py, modelled in `LegacyPlugin`.
*/
module Plugin {
  import opened Wrappers
  import opened PyErrors
  import opened Counters
  import opened TokenStream
  import opened Nlp

  /** A plugin's configuration and its `exceptions` table (the classes it expects `_tokenize` to raise). */
  datatype TokenizerPlugin = TokenizerPlugin(config: Config, exceptions: set<ExcType>)

  /** `TokenizerPlugin.__init__`: `self.config = config or DEFAULT_CONFIG`. */
  function NewTokenizerPlugin(config: Option<Config>, exceptions: set<ExcType>): (p: TokenizerPlugin)
    ensures p.exceptions == exceptions && p.config != []
    ensures config.Some? && config.value != [] ==> p.config == config.value
    ensures config.None? || config.value == [] ==> p.config == DefaultConfig
  {
    TokenizerPlugin(if config.Some? && config.value != [] then config.value else DefaultConfig, exceptions)
  }

  /** The field names of a configuration. */
  function ConfigFields(config: Config): set<string>
  {
    set k | 0 <= k < |config| :: config[k].0
  }

  /** A `batch` as `tokenize` sees it: what it adds to a fresh counter, and the exception it raises if any. */
  type BatchFn = (FieldConfig, seq<string>) -> (multiset<string>, Option<ExcType>)

  /** The `batch` of desktopsearch/nlp.py. */
  function NewBatch(pp: Preprocess): BatchFn
  {
    (fc: FieldConfig, texts: seq<string>) => Nlp.BatchSpec(pp, fc, texts)
  }

  /**
    The counting loop of `tokenize`: a fresh counter per configured field,
    filled by `batch`; a ValueError keeps what was counted, any other exception
    propagates.
  */
  function FieldCounts(batch: BatchFn, config: Config, tokens: map<string, seq<string>>): Result<map<string, multiset<string>>, ExcType>
    decreases |config|
  {
    if |config| == 0 then Success(map[])
    else
      var prev := FieldCounts(batch, config[..|config| - 1], tokens);
      var (field, fc) := config[|config| - 1];
      var (counts, err) := batch(fc, Lookup(tokens, field));
      if prev.Failure? then prev
      else if err.Some? && !IsInstance(err.value, ValueError) then Failure(err.value)
      else Success(prev.value[field := counts])
  }

  /** What `tokenize` returns for a generator that produced `em`, or the exception it raises. */
  function TokenizeWith(batch: BatchFn, plugin: TokenizerPlugin, em: Emission): Result<map<string, multiset<string>>, ExcType>
  {
    if em.raised.Some? && !Swallowed(em.raised.value, plugin.exceptions) then Failure(em.raised.value)
    else FieldCounts(batch, plugin.config, Grouped(em.pairs))
  }

  /** Once a field's batch has raised, later fields change nothing. */
  lemma {:induction false} FieldCountsStops(batch: BatchFn, config: Config, tokens: map<string, seq<string>>, n: nat)
    requires n <= |config|
    requires FieldCounts(batch, config[..n], tokens).Failure?
    ensures FieldCounts(batch, config, tokens) == FieldCounts(batch, config[..n], tokens)
    decreases |config| - n
  {
    if n < |config| {
      assert config[..n + 1][..n] == config[..n];
      FieldCountsStops(batch, config, tokens, n + 1);
    } else {
      assert config[..n] == config;
    }
  }

  /** One more field through the counting loop, when none before it raised. */
  lemma FieldCountsStep(batch: BatchFn, config: Config, tokens: map<string, seq<string>>, i: nat, freqs: map<string, multiset<string>>)
    requires i < |config|
    requires FieldCounts(batch, config[..i], tokens) == Success(freqs)
    ensures var out := batch(config[i].1, Lookup(tokens, config[i].0));
      FieldCounts(batch, config[..i + 1], tokens) ==
        if out.1.Some? && !IsInstance(out.1.value, ValueError) then Failure(out.1.value)
        else Success(freqs[config[i].0 := out.0])
  {
    assert config[..i + 1][..i] == config[..i];
  }

  /** One field of `tokenize`: a fresh counter filled by desktopsearch/nlp.py's `batch`. */
  method CountField(pp: Preprocess, fc: FieldConfig, texts: seq<string>) returns (counts: multiset<string>, err: Option<ExcType>)
    ensures counts == NewBatch(pp)(fc, texts).0 && err == NewBatch(pp)(fc, texts).1
  {
    var counter := new Counter();
    err := Nlp.Batch(pp, fc, texts, counter);
    counts := counter.counts;
  }

  /** `TokenizerPlugin.tokenize(path)` of desktopsearch/plugin.py, `em` being what `_tokenize(path)` produced. */
  method Tokenize(pp: Preprocess, plugin: TokenizerPlugin, em: Emission) returns (r: Result<map<string, multiset<string>>, ExcType>)
    ensures r == TokenizeWith(NewBatch(pp), plugin, em)
  {
    var tokens := GroupTokens(em.pairs);
    if em.raised.Some? && !Swallowed(em.raised.value, plugin.exceptions) {
      return Failure(em.raised.value);
    }
    r := CountFields(pp, plugin.config, tokens);
  }

  /** The counting loop of `tokenize`, over the configured fields in order. */
  method CountFields(pp: Preprocess, config: Config, tokens: map<string, seq<string>>) returns (r: Result<map<string, multiset<string>>, ExcType>)
    ensures r == FieldCounts(NewBatch(pp), config, tokens)
  {
    var freqs: map<string, multiset<string>> := map[];
    var i := 0;
    while i < |config|
      invariant 0 <= i <= |config|
      invariant FieldCounts(NewBatch(pp), config[..i], tokens) == Success(freqs)
    {
      FieldCountsStep(NewBatch(pp), config, tokens, i, freqs);
      var counts, err := CountField(pp, config[i].1, Lookup(tokens, config[i].0));
      if err.Some? && !IsInstance(err.value, ValueError) {
        FieldCountsStops(NewBatch(pp), config, tokens, i + 1);
        return Failure(err.value);
      }
      freqs := freqs[config[i].0 := counts];
      i := i + 1;
    }
    assert config[..i] == config;
    return Success(freqs);
  }

  /** The exception, if any, that escapes the counting loop: the first field's non-ValueError. */
  predicate FieldRaises(batch: BatchFn, field: (string, FieldConfig), tokens: map<string, seq<string>>)
  {
    var err := batch(field.1, Lookup(tokens, field.0)).1;
    err.Some? && !IsInstance(err.value, ValueError)
  }

  /** The fields of a configuration with one more field. */
  lemma ConfigFieldsSnoc(config: Config)
    requires |config| > 0
    ensures ConfigFields(config) == ConfigFields(config[..|config| - 1]) + {config[|config| - 1].0}
  {
    var init := config[..|config| - 1];
    forall f | f in ConfigFields(config) ensures f in ConfigFields(init) + {config[|config| - 1].0} {
      var k :| 0 <= k < |config| && config[k].0 == f;
      if k < |init| { assert init[k] == config[k]; }
    }
    forall f | f in ConfigFields(init) ensures f in ConfigFields(config) {
      var k :| 0 <= k < |init| && init[k].0 == f;
      assert config[k] == init[k];
    }
  }

  /** The counting loop succeeds exactly when no field's batch raises anything but a ValueError. */
  lemma {:induction false} FieldCountsSucceeds(batch: BatchFn, config: Config, tokens: map<string, seq<string>>)
    ensures FieldCounts(batch, config, tokens).Success? <==>
      forall k :: 0 <= k < |config| ==> !FieldRaises(batch, config[k], tokens)
    decreases |config|
  {
    if |config| > 0 {
      var init := config[..|config| - 1];
      FieldCountsSucceeds(batch, init, tokens);
      assert forall k :: 0 <= k < |init| ==> init[k] == config[k];
    }
  }

  /**
    When the counting loop succeeds, every configured field, and no other,
    has the count its batch produced from that field's tokens.
  */
  lemma {:induction false} FieldCountsValues(batch: BatchFn, config: Config, tokens: map<string, seq<string>>)
    requires ValidConfig(config)
    requires FieldCounts(batch, config, tokens).Success?
    ensures FieldCounts(batch, config, tokens).value.Keys == ConfigFields(config)
    ensures forall k :: 0 <= k < |config| ==>
      FieldCounts(batch, config, tokens).value[config[k].0] == batch(config[k].1, Lookup(tokens, config[k].0)).0
    decreases |config|
  {
    if |config| > 0 {
      var init := config[..|config| - 1];
      assert ValidConfig(init);
      FieldCountsValues(batch, init, tokens);
      ConfigFieldsSnoc(config);
      assert forall k :: 0 <= k < |init| ==> init[k] == config[k];
    }
  }

  /**
    The counting loop succeeds exactly when no field's batch raises anything
    but a ValueError; then every configured field, and no other, has the count
    its batch produced from that field's tokens.
  */
  lemma FieldCountsResult(batch: BatchFn, config: Config, tokens: map<string, seq<string>>)
    requires ValidConfig(config)
    ensures FieldCounts(batch, config, tokens).Success? <==>
      forall k :: 0 <= k < |config| ==> !FieldRaises(batch, config[k], tokens)
    ensures FieldCounts(batch, config, tokens).Success? ==>
      && FieldCounts(batch, config, tokens).value.Keys == ConfigFields(config)
      && forall k :: 0 <= k < |config| ==>
           FieldCounts(batch, config, tokens).value[config[k].0] == batch(config[k].1, Lookup(tokens, config[k].0)).0
  {
    FieldCountsSucceeds(batch, config, tokens);
    if FieldCounts(batch, config, tokens).Success? {
      FieldCountsValues(batch, config, tokens);
    }
  }

  /**
    `tokenize` raises the generator's exception when no listed class matches it;
    a listed one is swallowed and the tokens yielded before it are counted as if
    the generator had ended normally.
  */
  lemma TokenizeExceptions(batch: BatchFn, plugin: TokenizerPlugin, em: Emission)
    requires em.raised.Some?
    ensures !Swallowed(em.raised.value, plugin.exceptions) ==> TokenizeWith(batch, plugin, em) == Failure(em.raised.value)
    ensures Swallowed(em.raised.value, plugin.exceptions) ==>
      TokenizeWith(batch, plugin, em) == TokenizeWith(batch, plugin, Emission(em.pairs, None))
  {
  }

  /**
    What `tokenize` returns: its keys are exactly the configured fields (emitted
    fields outside the configuration are dropped), and each field's count is
    what `batch` produces from that field's tokens in emission order.
  */
  lemma TokenizeResult(batch: BatchFn, plugin: TokenizerPlugin, em: Emission)
    requires ValidConfig(plugin.config)
    requires TokenizeWith(batch, plugin, em).Success?
    ensures TokenizeWith(batch, plugin, em).value.Keys == ConfigFields(plugin.config)
    ensures forall k :: 0 <= k < |plugin.config| ==>
      TokenizeWith(batch, plugin, em).value[plugin.config[k].0] ==
        batch(plugin.config[k].1, FieldTokens(em.pairs, plugin.config[k].0)).0
  {
    FieldCountsResult(batch, plugin.config, Grouped(em.pairs));
    forall k | 0 <= k < |plugin.config| {
      GroupedLookup(em.pairs, plugin.config[k].0);
    }
  }

  /** A configured field for which nothing was yielded maps to an empty count. */
  lemma TokenizeSilentField(pp: Preprocess, plugin: TokenizerPlugin, em: Emission, k: nat)
    requires ValidConfig(plugin.config) && k < |plugin.config|
    requires plugin.config[k].0 !in Fields(em.pairs)
    requires TokenizeWith(NewBatch(pp), plugin, em).Success?
    ensures plugin.config[k].0 in TokenizeWith(NewBatch(pp), plugin, em).value
    ensures TokenizeWith(NewBatch(pp), plugin, em).value[plugin.config[k].0] == multiset{}
  {
    TokenizeResult(NewBatch(pp), plugin, em);
    FieldTokensAbsent(em.pairs, plugin.config[k].0);
  }

  /** A plugin built without a configuration counts exactly the "code" and "text" fields. */
  lemma DefaultPluginFields(batch: BatchFn, exceptions: set<ExcType>, em: Emission)
    requires TokenizeWith(batch, NewTokenizerPlugin(None, exceptions), em).Success?
    ensures TokenizeWith(batch, NewTokenizerPlugin(None, exceptions), em).value.Keys == {"code", "text"}
  {
    var plugin := NewTokenizerPlugin(None, exceptions);
    TokenizeResult(batch, plugin, em);
    assert ConfigFields(DefaultConfig) == {"code", "text"} by {
      assert DefaultConfig[0].0 == "code" && DefaultConfig[1].0 == "text";
    }
  }
}
