/**
  `Preprocess` of desktopsearch/nlp.py: turning one field's raw token strings
  into searchable terms. The spaCy pipeline and `str.lower` are not part of
  the model; both come in as the uninterpreted functions of a `Preprocess`
  value.
*/
module Nlp {
  import opened Wrappers
  import opened PyErrors
  import opened TextOps
  import opened Counters

  /**
    One field's configuration dictionary: "tokenize", "case-sensitive" and the
    optional "lemmatize" key (`None` when the key is absent).
  */
  datatype FieldConfig = FieldConfig(tokenize: bool, caseSensitive: bool, lemmatize: Option<bool>)

  /** A configuration: the fields in dictionary order, each with its settings. */
  type Config = seq<(string, FieldConfig)>

  /** Field names are unique, as dictionary keys are. */
  predicate ValidConfig(config: Config)
  {
    forall i, j :: 0 <= i < j < |config| ==> config[i].0 != config[j].0
  }

  /** The dictionary a configuration stands for: built pair by pair, so a later pair for a name replaces an earlier one. */
  function ConfigMap(config: Config): (r: map<string, FieldConfig>)
    ensures r.Keys == set i | 0 <= i < |config| :: config[i].0
    decreases |config|
  {
    if |config| == 0 then map[]
    else
      var init := config[..|config| - 1];
      var rest := ConfigMap(init);
      assert forall i :: 0 <= i < |init| ==> init[i] == config[i];
      rest[config[|config| - 1].0 := config[|config| - 1].1]
  }

  /** `==` on two configuration dictionaries: the same names with the same settings, in whatever order. */
  predicate SameConfig(a: Config, b: Config)
  {
    ConfigMap(a) == ConfigMap(b)
  }

  /** With unique names, the dictionary maps each field's name to its settings. */
  lemma {:induction false} ConfigMapLookup(config: Config)
    requires ValidConfig(config)
    ensures forall i :: 0 <= i < |config| ==> config[i].0 in ConfigMap(config) && ConfigMap(config)[config[i].0] == config[i].1
    decreases |config|
  {
    if |config| > 0 {
      var init := config[..|config| - 1];
      assert ValidConfig(init) by {
        assert forall i :: 0 <= i < |init| ==> init[i] == config[i];
      }
      ConfigMapLookup(init);
      forall i | 0 <= i < |config|
        ensures ConfigMap(config)[config[i].0] == config[i].1
      {
        if i < |init| {
          assert init[i] == config[i];
          assert config[i].0 != config[|config| - 1].0;
        }
      }
    }
  }

  /** Equal dictionaries list the same fields with the same settings. */
  lemma SameConfigFields(a: Config, b: Config)
    requires ValidConfig(a) && ValidConfig(b) && SameConfig(a, b)
    ensures forall p :: p in a ==> p in b
  {
    ConfigMapLookup(a);
    ConfigMapLookup(b);
    forall p | p in a ensures p in b {
      var i :| 0 <= i < |a| && a[i] == p;
      assert p.0 in ConfigMap(b).Keys;
      var j :| 0 <= j < |b| && b[j].0 == p.0;
      assert b[j] == p;
    }
  }

  /** Configurations listing the same fields with the same settings give equal dictionaries. */
  lemma FieldsSameConfig(a: Config, b: Config)
    requires ValidConfig(a) && ValidConfig(b) && forall p :: p in a <==> p in b
    ensures SameConfig(a, b)
  {
    ConfigMapLookup(a);
    ConfigMapLookup(b);
    var m, n := ConfigMap(a), ConfigMap(b);
    assert m.Keys == n.Keys by {
      forall k | k in m.Keys ensures k in n.Keys {
        var i :| 0 <= i < |a| && a[i].0 == k;
        assert a[i] in b;
      }
      forall k | k in n.Keys ensures k in m.Keys {
        var j :| 0 <= j < |b| && b[j].0 == k;
        assert b[j] in a;
      }
    }
    forall k | k in m.Keys ensures m[k] == n[k] {
      var i :| 0 <= i < |a| && a[i].0 == k;
      assert a[i] in b;
      var j :| 0 <= j < |b| && b[j] == a[i];
    }
  }

  /**
    Two configurations with unique names give equal dictionaries exactly when
    each lists the other's fields with the same settings, so the order of
    the fields does not matter.
  */
  lemma SameConfigIff(a: Config, b: Config)
    requires ValidConfig(a) && ValidConfig(b)
    ensures SameConfig(a, b) <==> (forall p :: p in a <==> p in b)
  {
    if SameConfig(a, b) {
      SameConfigFields(a, b);
      SameConfigFields(b, a);
    }
    if forall p :: p in a <==> p in b {
      FieldsSameConfig(a, b);
    }
  }

  /** `DEFAULT_CONFIG`: code is split on spaces and kept case-sensitive; text goes through spaCy, lower-cased and lemmatized. */
  const DefaultConfig: Config := [
    ("code", FieldConfig(false, true, None)),
    ("text", FieldConfig(true, false, Some(true)))
  ]

  /** The default configuration with its two fields listed the other way round is the same dictionary. */
  lemma ReorderedDefaultSame()
    ensures SameConfig(DefaultConfig, [DefaultConfig[1], DefaultConfig[0]])
    ensures DefaultConfig != [DefaultConfig[1], DefaultConfig[0]]
  {
    SameConfigIff(DefaultConfig, [DefaultConfig[1], DefaultConfig[0]]);
  }

  /** A spaCy token: `tok.text`, `tok.lemma_` and `tok.lower_`. */
  datatype NlpToken = NlpToken(text: string, lemmaText: string, lowerText: string)

  /**
    What preprocessing depends on outside this file: the loaded spaCy pipeline
    (`nlp(text)` gives a document, or `None` where spaCy raises ValueError, as
    it does for a text longer than its `max_length`) and `str.lower`.
  */
  datatype Preprocess = Preprocess(nlp: string -> Option<seq<NlpToken>>, lower: string -> string)

  /** The term a spaCy token contributes under the given case and lemma settings. */
  function Term(pp: Preprocess, caseSensitive: bool, lemmatize: bool, tok: NlpToken): string
  {
    if caseSensitive then (if lemmatize then tok.lemmaText else tok.text)
    else (if lemmatize then pp.lower(tok.lemmaText) else tok.lowerText)
  }

  /** The terms of a spaCy document, one per token, in order. */
  function DocTerms(pp: Preprocess, caseSensitive: bool, lemmatize: bool, doc: seq<NlpToken>): (r: seq<string>)
    ensures |r| == |doc|
    ensures forall k :: 0 <= k < |doc| ==> r[k] == Term(pp, caseSensitive, lemmatize, doc[k])
  {
    if |doc| == 0 then [] else [Term(pp, caseSensitive, lemmatize, doc[0])] + DocTerms(pp, caseSensitive, lemmatize, doc[1..])
  }

  /** The spaCy branch of `text`, shared by both versions of the file. */
  function NlpText(pp: Preprocess, config: FieldConfig, text: string): Result<seq<string>, ExcType>
  {
    match pp.nlp(text)
    case None => Failure(ValueError)
    case Some(doc) =>
      match config.lemmatize
      case None => Failure(KeyError)
      case Some(lem) => Success(DocTerms(pp, config.caseSensitive, lem, doc))
  }

  /** The text a non-spaCy field splits: lower-cased unless case-sensitive. */
  function Cased(pp: Preprocess, caseSensitive: bool, text: string): string
  {
    if caseSensitive then text else pp.lower(text)
  }

  /** `Preprocess.text(config, text)`. */
  function Text(pp: Preprocess, config: FieldConfig, text: string): Result<seq<string>, ExcType>
  {
    if text == "" then Success([])
    else if config.tokenize then NlpText(pp, config, text)
    else if config.lemmatize == Some(true) then Failure(AssertionError)
    else Success(Split(Cased(pp, config.caseSensitive, text), ' '))
  }

  /** `text("")` is the empty list whatever the configuration. */
  lemma TextOfEmpty(pp: Preprocess, config: FieldConfig)
    ensures Text(pp, config, "") == Success([])
  {
  }

  /** Without spaCy, a lemmatizing configuration fails the assertion on any non-empty text. */
  lemma TextRejectsLemmatize(pp: Preprocess, config: FieldConfig, text: string)
    requires !config.tokenize && text != ""
    ensures Text(pp, config, text).Failure? <==> config.lemmatize == Some(true)
    ensures Text(pp, config, text).Failure? ==> Text(pp, config, text).error == AssertionError
  {
  }

  /**
    Without spaCy the tokens of a non-empty text contain no space, there is
    one more of them than spaces in the (lower-cased) text, and joining them
    with spaces gives that text back.
  */
  lemma TextSplitsOnSpaces(pp: Preprocess, config: FieldConfig, text: string)
    requires !config.tokenize && config.lemmatize != Some(true) && text != ""
    ensures Text(pp, config, text).Success?
    ensures var toks := Text(pp, config, text).value;
      var t := Cased(pp, config.caseSensitive, text);
      && (forall k :: 0 <= k < |toks| ==> ' ' !in toks[k])
      && |toks| == Occurrences(t, ' ') + 1
      && Join(toks, ' ') == t
  {
    var t := Cased(pp, config.caseSensitive, text);
    SplitPiecesFree(t, ' ');
    SplitLength(t, ' ');
    JoinSplit(t, ' ');
  }

  /** The words of the test suite's example hold no space. */
  lemma ExampleWords(parts: seq<string>)
    requires parts == ["I'm", "a", "software", "engineer!"]
    ensures forall k :: 0 <= k < |parts| ==> ' ' !in parts[k]
  {
    forall k | 0 <= k < |parts| ensures ' ' !in parts[k] {
      var w := parts[k];
      forall i | 0 <= i < |w| ensures w[i] != ' ' {
      }
    }
  }

  /** The words of the test suite's example, joined with spaces. */
  lemma ExampleJoined(parts: seq<string>)
    requires parts == ["I'm", "a", "software", "engineer!"]
    ensures Join(parts, ' ') == "I'm a software engineer!"
  {
    var s3 := "engineer!";
    var s2 := "software" + " " + s3;
    var s1 := "a" + " " + s2;
    var s0 := "I'm" + " " + s1;
    assert Join(parts[3..], ' ') == s3;
    assert Join(parts[2..], ' ') == s2;
    assert Join(parts[1..], ' ') == s1;
    assert Join(parts, ' ') == s0;
    assert s0 == "I'm a software engineer!";
  }

  /** The example of the test suite: code is split on spaces and keeps its case. */
  lemma DefaultCodeExample(pp: Preprocess)
    ensures Text(pp, DefaultConfig[0].1, "I'm a software engineer!") == Success(["I'm", "a", "software", "engineer!"])
  {
    var parts := ["I'm", "a", "software", "engineer!"];
    ExampleJoined(parts);
    ExampleWords(parts);
    SplitJoin(parts, ' ');
    assert Cased(pp, true, "I'm a software engineer!") == "I'm a software engineer!";
  }

  /** What the non-spaCy branch of `batch` adds: the split tokens of every non-empty text. */
  function SplitCounts(pp: Preprocess, caseSensitive: bool, texts: seq<string>): multiset<string>
    decreases |texts|
  {
    if |texts| == 0 then multiset{}
    else
      var last := texts[|texts| - 1];
      SplitCounts(pp, caseSensitive, texts[..|texts| - 1])
        + (if last == "" then multiset{} else multiset(Split(Cased(pp, caseSensitive, last), ' ')))
  }

  /**
    What the spaCy branch of `batch` adds, `nlp.pipe(texts)` being the documents
    of the texts in order, and the ValueError of the first text spaCy rejects.
  */
  function PipeCounts(pp: Preprocess, caseSensitive: bool, lemmatize: bool, texts: seq<string>): (r: (multiset<string>, Option<ExcType>))
    ensures r.1 == None || r.1 == Some(ValueError)
    decreases |texts|
  {
    if |texts| == 0 then (multiset{}, None)
    else
      var prev := PipeCounts(pp, caseSensitive, lemmatize, texts[..|texts| - 1]);
      if prev.1.Some? then prev
      else match pp.nlp(texts[|texts| - 1])
        case None => (prev.0, Some(ValueError))
        case Some(doc) => (prev.0 + multiset(DocTerms(pp, caseSensitive, lemmatize, doc)), None)
  }

  /** What `batch(config, texts, freqs)` adds to `freqs`, and the exception it raises if any. */
  function BatchSpec(pp: Preprocess, config: FieldConfig, texts: seq<string>): (multiset<string>, Option<ExcType>)
  {
    if config.tokenize then
      (if config.lemmatize.None? then (multiset{}, Some(KeyError))
       else PipeCounts(pp, config.caseSensitive, config.lemmatize.value, texts))
    else if config.lemmatize == Some(true) then (multiset{}, Some(AssertionError))
    else (SplitCounts(pp, config.caseSensitive, texts), None)
  }

  /** The spaCy loop of `batch`, shared by both versions of the file. */
  method PipeBatch(pp: Preprocess, caseSensitive: bool, lemmatize: bool, texts: seq<string>, freqs: Counter)
      returns (err: Option<ExcType>)
    modifies freqs
    ensures freqs.counts == old(freqs.counts) + PipeCounts(pp, caseSensitive, lemmatize, texts).0
    ensures err == PipeCounts(pp, caseSensitive, lemmatize, texts).1
  {
    ghost var start := freqs.counts;
    var i := 0;
    err := None;
    while i < |texts| && err.None?
      invariant 0 <= i <= |texts|
      invariant PipeCounts(pp, caseSensitive, lemmatize, texts[..i]).1 == err
      invariant freqs.counts == start + PipeCounts(pp, caseSensitive, lemmatize, texts[..i]).0
    {
      PipeCountsStep(pp, caseSensitive, lemmatize, texts, i);
      var doc := pp.nlp(texts[i]);
      if doc.None? {
        err := Some(ValueError);
      } else {
        freqs.Update(DocTerms(pp, caseSensitive, lemmatize, doc.value));
      }
      i := i + 1;
    }
    if err.Some? {
      PipeCountsStops(pp, caseSensitive, lemmatize, texts, i);
    } else {
      assert texts[..i] == texts;
    }
  }

  /** One more text through the pipe, when none before it was rejected. */
  lemma PipeCountsStep(pp: Preprocess, caseSensitive: bool, lemmatize: bool, texts: seq<string>, i: nat)
    requires i < |texts|
    requires PipeCounts(pp, caseSensitive, lemmatize, texts[..i]).1 == None
    ensures var prev := PipeCounts(pp, caseSensitive, lemmatize, texts[..i]);
      PipeCounts(pp, caseSensitive, lemmatize, texts[..i + 1]) ==
        match pp.nlp(texts[i])
        case None => (prev.0, Some(ValueError))
        case Some(doc) => (prev.0 + multiset(DocTerms(pp, caseSensitive, lemmatize, doc)), None)
  {
    assert texts[..i + 1][..i] == texts[..i];
  }

  /** Once spaCy has rejected a text, the texts after it change nothing. */
  lemma {:induction false} PipeCountsStops(pp: Preprocess, caseSensitive: bool, lemmatize: bool, texts: seq<string>, n: nat)
    requires n <= |texts|
    requires PipeCounts(pp, caseSensitive, lemmatize, texts[..n]).1.Some?
    ensures PipeCounts(pp, caseSensitive, lemmatize, texts) == PipeCounts(pp, caseSensitive, lemmatize, texts[..n])
    decreases |texts| - n
  {
    if n < |texts| {
      assert texts[..n + 1][..n] == texts[..n];
      PipeCountsStops(pp, caseSensitive, lemmatize, texts, n + 1);
    } else {
      assert texts[..n] == texts;
    }
  }

  /** One more text through the split loop. */
  lemma SplitCountsStep(pp: Preprocess, caseSensitive: bool, texts: seq<string>, i: nat)
    requires i < |texts|
    ensures SplitCounts(pp, caseSensitive, texts[..i + 1]) == SplitCounts(pp, caseSensitive, texts[..i])
      + (if texts[i] == "" then multiset{} else multiset(Split(Cased(pp, caseSensitive, texts[i]), ' ')))
  {
    assert texts[..i + 1][..i] == texts[..i];
  }

  /**
    `Preprocess.batch(config, texts, freqs)`: adds the terms of `texts` to the
    caller's counter without resetting it, stopping where an exception is raised.
  */
  method Batch(pp: Preprocess, config: FieldConfig, texts: seq<string>, freqs: Counter) returns (err: Option<ExcType>)
    modifies freqs
    ensures freqs.counts == old(freqs.counts) + BatchSpec(pp, config, texts).0
    ensures err == BatchSpec(pp, config, texts).1
  {
    if config.tokenize {
      if config.lemmatize.None? {
        return Some(KeyError);
      }
      err := PipeBatch(pp, config.caseSensitive, config.lemmatize.value, texts, freqs);
    } else {
      if config.lemmatize == Some(true) {
        return Some(AssertionError);
      }
      SplitBatch(pp, config.caseSensitive, texts, freqs);
      err := None;
    }
  }

  /** The whitespace-split loop of `batch`, for fields spaCy does not tokenize. */
  method SplitBatch(pp: Preprocess, caseSensitive: bool, texts: seq<string>, freqs: Counter)
    modifies freqs
    ensures freqs.counts == old(freqs.counts) + SplitCounts(pp, caseSensitive, texts)
  {
    var i := 0;
    while i < |texts|
      invariant 0 <= i <= |texts|
      invariant freqs.counts == old(freqs.counts) + SplitCounts(pp, caseSensitive, texts[..i])
    {
      SplitCountsStep(pp, caseSensitive, texts, i);
      if texts[i] != "" {
        var tokens := Split(Cased(pp, caseSensitive, texts[i]), ' ');
        freqs.Update(tokens);
      }
      i := i + 1;
    }
    assert texts[..i] == texts;
  }

  /** The sum of the counters of `text(config, t)` over `texts`, as the test suite builds it. */
  function TextCounts(pp: Preprocess, config: FieldConfig, texts: seq<string>): multiset<string>
    decreases |texts|
  {
    if |texts| == 0 then multiset{}
    else
      var r := Text(pp, config, texts[|texts| - 1]);
      TextCounts(pp, config, texts[..|texts| - 1]) + (if r.Success? then multiset(r.value) else multiset{})
  }

  /** Without spaCy, `batch` counts exactly what `text` returns for each input. */
  lemma {:induction false} SplitBatchMatchesText(pp: Preprocess, config: FieldConfig, texts: seq<string>)
    requires !config.tokenize && config.lemmatize != Some(true)
    ensures BatchSpec(pp, config, texts) == (TextCounts(pp, config, texts), None)
    decreases |texts|
  {
    if |texts| > 0 {
      SplitBatchMatchesText(pp, config, texts[..|texts| - 1]);
    }
  }

  /**
    With spaCy, `batch` counts exactly what `text` returns for each input when
    spaCy accepts every text and gives no token for the empty one (`text`
    short-cuts "" while `batch` passes it to spaCy).
  */
  lemma {:induction false} PipeBatchMatchesText(pp: Preprocess, config: FieldConfig, texts: seq<string>)
    requires config.tokenize && config.lemmatize.Some?
    requires pp.nlp("") == Some([])
    requires forall k :: 0 <= k < |texts| ==> pp.nlp(texts[k]).Some?
    ensures BatchSpec(pp, config, texts) == (TextCounts(pp, config, texts), None)
    decreases |texts|
  {
    if |texts| > 0 {
      var init := texts[..|texts| - 1];
      assert forall k :: 0 <= k < |init| ==> pp.nlp(init[k]).Some? by {
        forall k | 0 <= k < |init| ensures pp.nlp(init[k]).Some? { assert init[k] == texts[k]; }
      }
      PipeBatchMatchesText(pp, config, init);
      assert pp.nlp(texts[|texts| - 1]).Some?;
    }
  }
}
