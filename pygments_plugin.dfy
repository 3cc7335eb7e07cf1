/**
  `PygmentsPlugin` of plugins/pygments.py: a Pygments lexer picked by file
  name and cached per suffix, and the classification of its token types.
*/
module PygmentsPlugin {
  import opened Wrappers
  import opened PyErrors
  import opened Paths
  import opened TokenStream
  import opened Nlp
  import opened Plugin
  import LegacyPlugin

  /** A Pygments token type: its path below `Token`, e.g. `["Name", "Function"]` for `Token.Name.Function`. */
  type TokenKind = seq<string>

  const NameKind: TokenKind := ["Name"]
  const NumberKind: TokenKind := ["Literal", "Number"]
  const StringKind: TokenKind := ["Literal", "String"]
  const CommentKind: TokenKind := ["Comment"]

  /** `t in parent`: `t` is `parent` or one of its subtypes. */
  predicate InKind(t: TokenKind, parent: TokenKind)
  {
    parent <= t
  }

  /** Name or Number tokens, subtypes included. */
  predicate CodeKind(t: TokenKind)
  {
    InKind(t, NameKind) || InKind(t, NumberKind)
  }

  /** String or Comment tokens, subtypes included. */
  predicate TextKind(t: TokenKind)
  {
    InKind(t, StringKind) || InKind(t, CommentKind)
  }

  /** The file suffixes the plugin handles. */
  const Suffixes: seq<string> := [".rs", ".c", ".cpp", ".htm", ".html", ".pyx", ".pxd", ".pxi"]

  /** The `exceptions` table: only a file that is not valid UTF-8 is skipped. */
  const Exceptions: set<ExcType> := {UnicodeDecodeError}

  /** A lexer, identified by its name. */
  type LexerName = string

  /** `get_lexer_for_filename(name)`: a lexer for the file name, or `None` for ClassNotFound. */
  type FindLexer = string -> Option<LexerName>

  /** `lexer.get_tokens(text)`: the tokens a lexer produces for a text. */
  type Lex = (LexerName, string) -> Lexed<TokenKind>

  /** What the generator yields once it has a lexer: a failed read yields nothing and raises. */
  function LexWith(lexer: LexerName, read: Result<string, ExcType>, lex: Lex): Emission
  {
    match read
    case Failure(e) => Emission([], Some(e))
    case Success(text) => Classified(CodeOrText(CodeKind, TextKind), lex(lexer, text))
  }

  /**
    `_tokenize(path)` against `cache`: what is yielded and the cache
    afterwards. A cached suffix reuses its lexer; a miss asks `find` with the
    file's name and stores the answer; when there is none NoLexerFound is raised
    and the cache is left alone.
  */
  function LexTokensSpec(cache: map<string, LexerName>, path: Path, find: FindLexer, read: Result<string, ExcType>, lex: Lex): (Emission, map<string, LexerName>)
  {
    var s := Suffix(path);
    if s in cache then (LexWith(cache[s], read, lex), cache)
    else match find(Name(path))
      case None => (Emission([], Some(NoLexerFound)), cache)
      case Some(lexer) => (LexWith(lexer, read, lex), cache[s := lexer])
  }

  /** What `_tokenize(path)` would yield without a cache. */
  function UncachedLexTokens(path: Path, find: FindLexer, read: Result<string, ExcType>, lex: Lex): Emission
  {
    match find(Name(path))
    case None => Emission([], Some(NoLexerFound))
    case Some(lexer) => LexWith(lexer, read, lex)
  }

  /** The cache holds, for each suffix, the lexer `find` gives every file name with that suffix. */
  ghost predicate CacheAgrees(cache: map<string, LexerName>, find: FindLexer)
  {
    forall n: string :: Suffix(n) in cache ==> find(n) == Some(cache[Suffix(n)])
  }

  /** `find` looks at the suffix of a file name only. */
  ghost predicate BySuffix(find: FindLexer)
  {
    forall n: string, m: string :: Suffix(n) == Suffix(m) ==> find(n) == find(m)
  }

  class Pygments {
    const plugin: TokenizerPlugin
    var cache: map<string, LexerName>

    /** `PygmentsPlugin.__init__`: the base initialiser, then an empty cache. */
    constructor (config: Option<Config>)
      ensures plugin == NewTokenizerPlugin(config, Exceptions)
      ensures cache == map[]
    {
      plugin := NewTokenizerPlugin(config, Exceptions);
      cache := map[];
    }

    /** `PygmentsPlugin._tokenize(path)`, run to its end. */
    method LexTokens(path: Path, find: FindLexer, read: Result<string, ExcType>, lex: Lex) returns (em: Emission)
      modifies this
      ensures (em, cache) == LexTokensSpec(old(cache), path, find, read, lex)
    {
      var suffix := Suffix(path);
      var lexer: LexerName;
      if suffix in cache {
        lexer := cache[suffix];
      } else {
        var found := find(Name(path));
        if found.None? {
          return Emission([], Some(NoLexerFound));
        }
        lexer := found.value;
        cache := cache[suffix := lexer];
      }
      match read {
        case Failure(e) =>
          em := Emission([], Some(e));
        case Success(text) =>
          em := Classified(CodeOrText(CodeKind, TextKind), lex(lexer, text));
      }
    }

    /** The inherited `tokenize(path)` of plugin.py over this plugin's generator. */
    method Tokenize(pp: Preprocess, path: Path, find: FindLexer, read: Result<string, ExcType>, lex: Lex)
        returns (r: Result<map<string, multiset<string>>, ExcType>)
      modifies this
      ensures cache == LexTokensSpec(old(cache), path, find, read, lex).1
      ensures r == TokenizeWith(LegacyPlugin.LegacyBatch(pp), plugin, LexTokensSpec(old(cache), path, find, read, lex).0)
    {
      var em := LexTokens(path, find, read, lex);
      r := LegacyPlugin.Tokenize(pp, plugin, em);
    }
  }

  /** Name and Number subtypes are never String or Comment subtypes. */
  lemma KindsDisjoint(t: TokenKind)
    ensures !(CodeKind(t) && TextKind(t))
  {
    if InKind(t, NameKind) { assert t[0] == NameKind[0]; }
    if InKind(t, NumberKind) { assert t[1] == NumberKind[1]; }
    if InKind(t, StringKind) { assert t[0] == StringKind[0] && t[1] == StringKind[1]; }
    if InKind(t, CommentKind) { assert t[0] == CommentKind[0]; }
  }

  /**
    Name and Number tokens (with their subtypes) go to "code", String and
    Comment tokens to "text", in lexer order, and nothing else is yielded.
  */
  lemma LexWithFields(lexer: LexerName, text: string, lex: Lex)
    ensures FieldTokens(LexWith(lexer, Success(text), lex).pairs, "code") == ValuesWhere(lex(lexer, text).tokens, CodeKind)
    ensures FieldTokens(LexWith(lexer, Success(text), lex).pairs, "text") == ValuesWhere(lex(lexer, text).tokens, TextKind)
    ensures Fields(LexWith(lexer, Success(text), lex).pairs) <= {"code", "text"}
  {
    forall t: TokenKind ensures !(CodeKind(t) && TextKind(t)) {
      KindsDisjoint(t);
    }
    CodeOrTextStreams(CodeKind, TextKind, lex(lexer, text).tokens);
  }

  /**
    The cache only grows: existing entries stay, at most the file's suffix is
    added, and a file with no lexer raises NoLexerFound and leaves it as it was.
  */
  lemma CacheGrows(cache: map<string, LexerName>, path: Path, find: FindLexer, read: Result<string, ExcType>, lex: Lex)
    ensures var after := LexTokensSpec(cache, path, find, read, lex).1;
      && (forall s :: s in cache ==> s in after && after[s] == cache[s])
      && after.Keys <= cache.Keys + {Suffix(path)}
    ensures Suffix(path) !in cache && find(Name(path)).None? ==>
      LexTokensSpec(cache, path, find, read, lex) == (Emission([], Some(NoLexerFound)), cache)
    ensures Suffix(path) !in cache && find(Name(path)).Some? ==>
      LexTokensSpec(cache, path, find, read, lex).1 == cache[Suffix(path) := find(Name(path)).value]
  {
  }

  /** Once a suffix is cached, the lexer search is not consulted again for files with that suffix. */
  lemma CachedSuffixIgnoresFind(cache: map<string, LexerName>, path: Path, find: FindLexer, other: FindLexer, read: Result<string, ExcType>, lex: Lex)
    requires Suffix(path) in cache
    ensures LexTokensSpec(cache, path, find, read, lex) == LexTokensSpec(cache, path, other, read, lex)
    ensures LexTokensSpec(cache, path, find, read, lex).1 == cache
  {
  }

  /** A lookup through a cache that agrees with a suffix-only search yields what an uncached lookup would. */
  lemma CachedAsUncached(cache: map<string, LexerName>, path: Path, find: FindLexer, read: Result<string, ExcType>, lex: Lex)
    requires CacheAgrees(cache, find)
    ensures LexTokensSpec(cache, path, find, read, lex).0 == UncachedLexTokens(path, find, read, lex)
  {
    SuffixOfName(path);
    if Suffix(path) in cache {
      assert Suffix(Name(path)) in cache;
    }
  }

  /** Storing the search's answer for a suffix keeps the cache in agreement with a suffix-only search. */
  lemma StoreAgrees(cache: map<string, LexerName>, find: FindLexer, name: string)
    requires BySuffix(find) && CacheAgrees(cache, find)
    requires find(name).Some?
    ensures CacheAgrees(cache[Suffix(name) := find(name).value], find)
  {
    var after := cache[Suffix(name) := find(name).value];
    forall n: string | Suffix(n) in after ensures find(n) == Some(after[Suffix(n)]) {
      if Suffix(n) == Suffix(name) {
        assert find(n) == find(name);
      }
    }
  }

  /**
    The cache is invisible when the lexer depends on the suffix only: then
    every file yields what an uncached lookup would, and the cache keeps
    agreeing with the lexer search.
  */
  lemma CacheTransparent(cache: map<string, LexerName>, path: Path, find: FindLexer, read: Result<string, ExcType>, lex: Lex)
    requires BySuffix(find) && CacheAgrees(cache, find)
    ensures LexTokensSpec(cache, path, find, read, lex).0 == UncachedLexTokens(path, find, read, lex)
    ensures CacheAgrees(LexTokensSpec(cache, path, find, read, lex).1, find)
  {
    CachedAsUncached(cache, path, find, read, lex);
    SuffixOfName(path);
    if Suffix(path) !in cache && find(Name(path)).Some? {
      StoreAgrees(cache, find, Name(path));
    }
  }

  /**
    `tokenize` lets NoLexerFound through, while a file that is not valid UTF-8
    is skipped: every configured field gets what `batch` makes of no tokens.
  */
  lemma TokenizeExceptions(batch: BatchFn, plugin: TokenizerPlugin, lexer: LexerName, lex: Lex)
    requires plugin.exceptions == Exceptions
    ensures TokenizeWith(batch, plugin, Emission([], Some(NoLexerFound))) == Failure(NoLexerFound)
    ensures TokenizeWith(batch, plugin, LexWith(lexer, Failure(UnicodeDecodeError), lex)) ==
      TokenizeWith(batch, plugin, Emission([], None))
  {
    SwallowedIff(NoLexerFound, Exceptions);
    assert IsInstance(UnicodeDecodeError, UnicodeDecodeError);
  }
}
