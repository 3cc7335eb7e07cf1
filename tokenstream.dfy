/**
  The token streams that flow from a lexer, through a plugin's `_tokenize`
  generator, into `TokenizerPlugin.tokenize`: classification of lexer tokens
  into fields and grouping of the yielded (field, token) pairs by field.
*/
module TokenStream {
  import opened Wrappers
  import opened PyErrors

  /**
    What a plugin's `_tokenize` generator produced: the (field, token) pairs it
    yielded, in order, and the exception that ended it, if one did.
  */
  datatype Emission = Emission(pairs: seq<(string, string)>, raised: Option<ExcType>)

  /** A lexer's output: its (kind, value) tokens in order and the exception that stopped it, if any. */
  datatype Lexed<K> = Lexed(tokens: seq<(K, string)>, raised: Option<ExcType>)

  /** The tokens yielded for `field`, in the order they were yielded. */
  function FieldTokens(pairs: seq<(string, string)>, field: string): seq<string>
    decreases |pairs|
  {
    if |pairs| == 0 then []
    else
      var last := pairs[|pairs| - 1];
      FieldTokens(pairs[..|pairs| - 1], field) + (if last.0 == field then [last.1] else [])
  }

  /** The fields that occur in `pairs`. */
  function Fields(pairs: seq<(string, string)>): set<string>
  {
    set k | 0 <= k < |pairs| :: pairs[k].0
  }

  /** The grouped tokens: each field that occurs, with its tokens in order. */
  function Grouped(pairs: seq<(string, string)>): map<string, seq<string>>
  {
    map f | f in Fields(pairs) :: FieldTokens(pairs, f)
  }

  /** `tokens[field]` on the `defaultdict(list)`: the empty list for a field never seen. */
  function Lookup(tokens: map<string, seq<string>>, field: string): seq<string>
  {
    if field in tokens then tokens[field] else []
  }

  /** A field that never occurs has no tokens. */
  lemma {:induction false} FieldTokensAbsent(pairs: seq<(string, string)>, field: string)
    requires field !in Fields(pairs)
    ensures FieldTokens(pairs, field) == []
    decreases |pairs|
  {
    if |pairs| > 0 {
      var init := pairs[..|pairs| - 1];
      assert Fields(init) <= Fields(pairs) by {
        forall f | f in Fields(init) ensures f in Fields(pairs) {
          var k :| 0 <= k < |init| && init[k].0 == f;
          assert pairs[k] == init[k];
        }
      }
      assert pairs[|pairs| - 1].0 in Fields(pairs);
      FieldTokensAbsent(init, field);
    }
  }

  /** Looking a field up in the grouped tokens gives that field's tokens, absent or not. */
  lemma GroupedLookup(pairs: seq<(string, string)>, field: string)
    ensures Lookup(Grouped(pairs), field) == FieldTokens(pairs, field)
  {
    if field !in Fields(pairs) {
      FieldTokensAbsent(pairs, field);
    }
  }

  /**
    The `for field, token in self._tokenize(path): tokens[field].append(token)`
    loop: groups the yielded tokens by field, keeping their order.
  */
  method GroupTokens(pairs: seq<(string, string)>) returns (tokens: map<string, seq<string>>)
    ensures tokens == Grouped(pairs)
  {
    tokens := map[];
    var i := 0;
    while i < |pairs|
      invariant 0 <= i <= |pairs|
      invariant tokens == Grouped(pairs[..i])
    {
      var (field, token) := pairs[i];
      var prefix := pairs[..i + 1];
      assert prefix[..i] == pairs[..i];
      assert Fields(prefix) == Fields(pairs[..i]) + {field} by {
        forall f | f in Fields(prefix) ensures f in Fields(pairs[..i]) + {field} {
          var k :| 0 <= k < |prefix| && prefix[k].0 == f;
          if k < i { assert pairs[..i][k] == prefix[k]; }
        }
        forall f | f in Fields(pairs[..i]) ensures f in Fields(prefix) {
          var k :| 0 <= k < i && pairs[..i][k].0 == f;
          assert prefix[k] == pairs[..i][k];
        }
        assert prefix[i].0 == field;
      }
      GroupedLookup(pairs[..i], field);
      var next := tokens[field := Lookup(tokens, field) + [token]];
      assert next.Keys == Grouped(prefix).Keys;
      forall f | f in next ensures next[f] == Grouped(prefix)[f] {
        assert FieldTokens(prefix, f) == FieldTokens(pairs[..i], f) + (if f == field then [token] else []);
      }
      tokens := next;
      i := i + 1;
    }
    assert pairs[..i] == pairs;
  }

  /** A lexer's tokens mapped to (field, token) pairs: `classify` gives a token kind's field, or drops it. */
  function FilterMap<K>(classify: K -> Option<string>, toks: seq<(K, string)>): (r: seq<(string, string)>)
    ensures |r| <= |toks|
    decreases |toks|
  {
    if |toks| == 0 then []
    else
      var last := toks[|toks| - 1];
      FilterMap(classify, toks[..|toks| - 1])
        + (match classify(last.0) case Some(f) => [(f, last.1)] case None => [])
  }

  /** The `_tokenize` generator of a classifying plugin: its lexer's tokens, classified, and the lexer's exception. */
  function Classified<K>(classify: K -> Option<string>, lexed: Lexed<K>): Emission
  {
    Emission(FilterMap(classify, lexed.tokens), lexed.raised)
  }

  /** The values of the tokens whose kind satisfies `p`, in order. */
  function ValuesWhere<K>(toks: seq<(K, string)>, p: K -> bool): seq<string>
    decreases |toks|
  {
    if |toks| == 0 then []
    else
      var last := toks[|toks| - 1];
      ValuesWhere(toks[..|toks| - 1], p) + (if p(last.0) then [last.1] else [])
  }

  /** Two predicates that agree on every kind select the same values. */
  lemma {:induction false} ValuesWhereAgree<K>(toks: seq<(K, string)>, p: K -> bool, q: K -> bool)
    requires forall k :: p(k) == q(k)
    ensures ValuesWhere(toks, p) == ValuesWhere(toks, q)
    decreases |toks|
  {
    if |toks| > 0 {
      ValuesWhereAgree(toks[..|toks| - 1], p, q);
    }
  }

  /**
    Classification keeps order: the tokens yielded for a field are exactly the
    values of the lexer tokens whose kind is classified into that field.
  */
  lemma {:induction false} FilterMapFieldTokens<K>(classify: K -> Option<string>, toks: seq<(K, string)>, field: string)
    ensures FieldTokens(FilterMap(classify, toks), field) == ValuesWhere(toks, k => classify(k) == Some(field))
    decreases |toks|
  {
    if |toks| > 0 {
      var init := toks[..|toks| - 1];
      var last := toks[|toks| - 1];
      FilterMapFieldTokens(classify, init, field);
      var out := FilterMap(classify, toks);
      match classify(last.0)
      case Some(f) =>
        assert out == FilterMap(classify, init) + [(f, last.1)];
        assert out[..|out| - 1] == FilterMap(classify, init);
      case None =>
        assert out == FilterMap(classify, init);
    }
  }

  /** Only fields that `classify` can produce occur in a classified stream. */
  lemma {:induction false} FilterMapFields<K>(classify: K -> Option<string>, toks: seq<(K, string)>)
    ensures forall f :: f in Fields(FilterMap(classify, toks)) ==>
      exists k :: 0 <= k < |toks| && classify(toks[k].0) == Some(f)
    decreases |toks|
  {
    if |toks| > 0 {
      var init := toks[..|toks| - 1];
      FilterMapFields(classify, init);
      var out := FilterMap(classify, toks);
      forall f | f in Fields(out) ensures exists k :: 0 <= k < |toks| && classify(toks[k].0) == Some(f) {
        var j :| 0 <= j < |out| && out[j].0 == f;
        if j < |FilterMap(classify, init)| {
          assert out[j] == FilterMap(classify, init)[j];
          assert f in Fields(FilterMap(classify, init));
          var k :| 0 <= k < |init| && classify(init[k].0) == Some(f);
          assert toks[k] == init[k];
        } else {
          assert classify(toks[|toks| - 1].0) == Some(f);
        }
      }
    }
  }

  /**
    The classification every language plugin uses: kinds satisfying `code`
    yield ("code", value), the others satisfying `text` yield ("text", value),
    and the rest are dropped.
  */
  function CodeOrText<K>(code: K -> bool, text: K -> bool): K -> Option<string>
  {
    (k: K) => if code(k) then Some("code") else if text(k) then Some("text") else None
  }

  /**
    A code/text plugin yields, for "code", the values of the code kinds and,
    for "text", those of the text kinds, each in lexer order, and no other field.
  */
  lemma CodeOrTextStreams<K>(code: K -> bool, text: K -> bool, toks: seq<(K, string)>)
    requires forall k :: !(code(k) && text(k))
    ensures FieldTokens(FilterMap(CodeOrText(code, text), toks), "code") == ValuesWhere(toks, code)
    ensures FieldTokens(FilterMap(CodeOrText(code, text), toks), "text") == ValuesWhere(toks, text)
    ensures Fields(FilterMap(CodeOrText(code, text), toks)) <= {"code", "text"}
  {
    var classify := CodeOrText(code, text);
    FilterMapFieldTokens(classify, toks, "code");
    ValuesWhereAgree(toks, k => classify(k) == Some("code"), code);
    FilterMapFieldTokens(classify, toks, "text");
    ValuesWhereAgree(toks, k => classify(k) == Some("text"), text);
    FilterMapFields(classify, toks);
  }
}
