/**
  `Preprocess` of the top-level nlp.py, the older copy of desktopsearch/nlp.py:
  the same configuration and spaCy branches, but `text` has no guard for the
  empty string and its split tokens are lower-cased one by one, and `batch`
  without spaCy counts every text as one whole token.
*/
module LegacyNlp {
  import opened Wrappers
  import opened PyErrors
  import opened TextOps
  import opened Counters
  import opened Nlp

  /** `list(map(str2lower, tokens))`. */
  function LowerAll(pp: Preprocess, tokens: seq<string>): (r: seq<string>)
    ensures |r| == |tokens|
    ensures forall k :: 0 <= k < |tokens| ==> r[k] == pp.lower(tokens[k])
  {
    if |tokens| == 0 then [] else [pp.lower(tokens[0])] + LowerAll(pp, tokens[1..])
  }

  /** `Preprocess.text(config, text)` of nlp.py. */
  function Text(pp: Preprocess, config: FieldConfig, text: string): Result<seq<string>, ExcType>
  {
    if config.tokenize then NlpText(pp, config, text)
    else if config.lemmatize == Some(true) then Failure(AssertionError)
    else
      var tokens := Split(text, ' ');
      Success(if config.caseSensitive then tokens else LowerAll(pp, tokens))
  }

  /**
    Without spaCy the text is split on spaces before lower-casing: the result
    is never empty (`""` gives `[""]`), has one more token than the text has
    spaces, and its tokens are the lower-cased pieces of the split.
  */
  lemma TextSplitsThenLowers(pp: Preprocess, config: FieldConfig, text: string)
    requires !config.tokenize && config.lemmatize != Some(true)
    ensures Text(pp, config, text).Success?
    ensures var toks := Text(pp, config, text).value;
      && |toks| == Occurrences(text, ' ') + 1
      && (config.caseSensitive ==> Join(toks, ' ') == text)
      && forall k :: 0 <= k < |toks| ==>
           toks[k] == Cased(pp, config.caseSensitive, Split(text, ' ')[k])
  {
    SplitLength(text, ' ');
    JoinSplit(text, ' ');
  }

  /** The old `text("")` is `[""]`, not `[]`, without spaCy. */
  lemma TextOfEmpty(pp: Preprocess, config: FieldConfig)
    requires !config.tokenize && config.lemmatize != Some(true)
    ensures Text(pp, config, "") == Success([Cased(pp, config.caseSensitive, "")])
  {
    assert Split("", ' ') == [""];
    assert LowerAll(pp, [""]) == [pp.lower("")];
  }

  /** Without spaCy the old `batch` counts each text whole, lower-cased unless case-sensitive. */
  function WholeTexts(pp: Preprocess, caseSensitive: bool, texts: seq<string>): seq<string>
  {
    if caseSensitive then texts else LowerAll(pp, texts)
  }

  /** What the old `batch(config, texts, freqs)` adds to `freqs`, and the exception it raises if any. */
  function BatchSpec(pp: Preprocess, config: FieldConfig, texts: seq<string>): (multiset<string>, Option<ExcType>)
  {
    if config.tokenize then
      (if config.lemmatize.None? then (multiset{}, Some(KeyError))
       else PipeCounts(pp, config.caseSensitive, config.lemmatize.value, texts))
    else if config.lemmatize == Some(true) then (multiset{}, Some(AssertionError))
    else (multiset(WholeTexts(pp, config.caseSensitive, texts)), None)
  }

  /** `Preprocess.batch(config, texts, freqs)` of nlp.py; it only ever adds to `freqs`. */
  method Batch(pp: Preprocess, config: FieldConfig, texts: seq<string>, freqs: Counter) returns (err: Option<ExcType>)
    modifies freqs
    ensures freqs.counts == old(freqs.counts) + BatchSpec(pp, config, texts).0
    ensures err == BatchSpec(pp, config, texts).1
  {
    if config.tokenize {
      if config.lemmatize.None? {
        return Some(KeyError);
      }
      err := PipeBatch(pp, config.caseSensitive, config.lemmatize.value, texts, freqs);
    } else {
      if config.lemmatize == Some(true) {
        return Some(AssertionError);
      }
      if config.caseSensitive {
        freqs.Update(texts);
      } else {
        freqs.Update(LowerAll(pp, texts));
      }
      err := None;
    }
  }

  /**
    Without spaCy the old `batch` adds exactly one count per input text, empty
    strings included, and a case-sensitive field counts the texts themselves.
  */
  lemma BatchCountsEachText(pp: Preprocess, config: FieldConfig, texts: seq<string>)
    requires !config.tokenize && config.lemmatize != Some(true)
    ensures BatchSpec(pp, config, texts).1 == None
    ensures |BatchSpec(pp, config, texts).0| == |texts|
    ensures config.caseSensitive ==> forall t :: BatchSpec(pp, config, texts).0[t] == multiset(texts)[t]
    ensures "" in texts && config.caseSensitive ==> "" in BatchSpec(pp, config, texts).0
  {
  }
}
