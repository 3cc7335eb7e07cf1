# Desktop code search: indexing core in Dafny

This project models the indexing core of a desktop code-search tool. The tool
walks groups of directories and lexes each source file into `(field, token)`
pairs. It counts the tokens per field and stores them in an in-memory
inverted index, from which it answers token, AND and OR queries restricted to
a group of directories.

There are two generations of the code, and both are modelled:

- the older single-field index of `utils.py` (`InvertedIndex`, `Retriever`,
  `Indexer`), with the token pipeline of `plugin.py`, `nlp.py` and the
  plugins under `plugins/`;
- the newer two-field (`code` / `text`) memory backend of
  `desktopsearch/backends/memory.py`, with `desktopsearch/plugin.py`,
  `desktopsearch/nlp.py` and `desktopsearch/plugins/calmjs.py`.

Modules, roughly in dependency order:

- `Wrappers` (`wrappers.dfy`): `Option` and `Result`.
- `PyErrors` (`pyerrors.dfy`): the exception classes involved and the part of
  Python's class hierarchy that `isinstance` depends on.
- `TextOps` (`textops.dfy`): `str.split`, `str.join`, `str.startswith` and
  string ordering.
- `Paths` (`paths.dfy`): `pathlib` names, suffixes, normalisation and path
  ordering.
- `Counters` (`counters.dfy`): `collections.Counter` as a class around a
  multiset.
- `Nlp` and `LegacyNlp` (`nlp.dfy`, `legacy_nlp.dfy`): `Preprocess.text` and
  `Preprocess.batch` of the two `nlp.py` files. spaCy is an uninterpreted
  function from a text to its tokens, or to a rejection.
- `TokenStream` (`tokenstream.dfy`): what a plugin's `_tokenize` generator
  yields, and the grouping by field.
- `Plugin` and `LegacyPlugin` (`plugin.dfy`, `legacy_plugin.dfy`):
  `TokenizerPlugin.__init__` and `tokenize`.
- The plugins: `PythonPlugin`, `PygmentsPlugin` (a class, for its lexer
  cache), `CalmjsPlugin` and `PlaintextPlugin`. Each is a classification over
  an abstract lexer's token stream.
- `Registry` (`registry.dfy`): `_get_tokenizers`, the suffix-to-plugin table.
- `Postings` and `Query` (`postings.dfy`, `query.dfy`):
  - the token → document → frequency tables and the in-place loops over them;
  - the AND/OR document sets, summed term frequencies and result listings.
- `Ranking` and `Retrieval` (`ranking.dfy`, `retrieval.dfy`):
  - `sorted` as a stable sort;
  - `valid_groups`, the group-prefix filter and `Retriever`.
- `Index` (`inverted_index.dfy`): `utils.py`'s `InvertedIndex`. It is a class
  whose methods are proved against state-transition functions (`AddSpec`,
  `RemoveSpec`).
- `Indexing` and `Indexers` (`indexer.dfy`, `indexer_class.dfy`):
  - a pass of `Indexer.index` as a fold over the walked files;
  - the deletion loop in any set order;
  - the `Indexer` class that runs both.
- `MemoryIndex` and `MemoryBackend` (`memory_index.dfy`,
  `memory_backend.dfy`): the two-field memory backend. Its state functions
  and lemmas sit in the first module; the classes `InvertedIndexMemory`,
  `RetrieverMemory` and `IndexerMemory` sit in the second.

The parts that change objects in place are classes with `modifies`
clauses:

- the indexes;
- the retrievers' groups;
- the indexer's recorded times;
- the pygments lexer cache;
- the counters.

Their loops are `while` loops, each proved equal to a function of the old
state. The properties are lemmas about those functions:

- ids are allocated from zero and reused after a removal;
- everything in the postings is live;
- both removal strategies give the same table;
- AND/OR results and their summed scores are exactly as set out below;
- sorting is ordered, a permutation and stable;
- a re-run of a partial pass finds nothing to do;
- the deletion loop has the same outcome in every order.

The walk of the file system, reading files, the lexers, spaCy and
`str.lower` are parameters of the model.

## Model

| member | source | states |
|---|---|---|
| PyErrors.SwallowedIff | desktopsearch/plugin.py:31-37 | An exception is swallowed exactly when it, its base class or that class's base is one of the listed classes, so a subclass of a listed class is swallowed too. |
| PyErrors.EveryErrorIsException | desktopsearch/plugin.py:31 | Every modelled exception class is an instance of Exception, so the `except Exception` clause sees each of them. |
| TextOps.Split | desktopsearch/nlp.py:54 | Python's `split(" ")` always gives at least one piece. |
| TextOps.SplitLength | desktopsearch/nlp.py:54 | A split gives one more piece than the string has separators. |
| TextOps.SplitPiecesFree | desktopsearch/nlp.py:54 | No piece of a split contains the separator. |
| TextOps.JoinSplit | desktopsearch/nlp.py:54 | Joining the pieces of a split with the separator gives back the string. |
| TextOps.SplitJoin | desktopsearch/nlp.py:54 | Splitting a join of separator-free pieces gives back the pieces. |
| TextOps.StrLessIrreflexive | utils.py:205 | Python's string `<` is irreflexive. |
| TextOps.StrLessTransitive | utils.py:205 | Python's string `<` is transitive. |
| TextOps.StrLessTotal | utils.py:205 | Any two distinct strings are ordered one way or the other by `<`. |
| TextOps.PartsLessIrreflexive | utils.py:205 | List comparison of path parts is irreflexive. |
| TextOps.PartsLessTransitive | utils.py:205 | List comparison of path parts is transitive. |
| TextOps.PartsLessTotal | utils.py:205 | Any two distinct lists of parts are ordered one way or the other. |
| Paths.RFind | utils.py:119 | `rfind` gives the last position of the character, or -1 when there is none. |
| Paths.Name | utils.py:119 | A path's name is a slash-free tail of the path. |
| Paths.NameAfterSlash | utils.py:119 | The name is the whole path or is preceded by a slash, so with no slash in it, it is everything after the last slash. |
| Paths.Suffix | utils.py:119 | A suffix is empty, or a dot followed by at least one character and no further dot or slash, and it ends the path. |
| Paths.SuffixLastDot | utils.py:119 | A non-empty suffix is the name's tail from its last dot, which is not the name's first character. The suffix is empty only when the name's last dot, if any, is its first or its last character. |
| Paths.SuffixOfName | plugins/pygments.py:32-35 | The name of a name is itself, and a name's suffix is the path's suffix. So the suffix-keyed lexer cache and the name-based lexer search see the same file. |
| Paths.Components | utils.py:26 | The components `Path` keeps contain no empty and no "." component, and each is one of the slash-separated pieces. |
| Paths.ComponentsKeep | utils.py:26 | Every piece other than "" and "." is kept. |
| Paths.ComponentsSingle | utils.py:26 | A single piece is kept exactly when it is neither "" nor ".". |
| Paths.ComponentsAppend | utils.py:26 | The kept components follow the order of the pieces: those of two runs of pieces are the first run's, then the second's. |
| Paths.NormalizeIdempotent | utils.py:26 | Converting a string to a `Path` twice gives what converting it once gives. |
| Paths.NormalizeClean | utils.py:26 | A normal root followed by clean components joined with slashes is already normal. |
| Paths.PathLessOrder | utils.py:205 | Path comparison is a strict total order, so sorting by path is well defined. |
| Counters.Counter.constructor | desktopsearch/plugin.py:42 | A fresh `Counter()` counts nothing. |
| Counters.Counter.Update | desktopsearch/nlp.py:81 | `update(tokens)` adds each token's number of occurrences to the existing counts, and resets nothing. |
| Nlp.DocTerms | desktopsearch/nlp.py:36-45 | A spaCy document yields one term per token, in token order: the lemma or the text, lower-cased unless case-sensitive. |
| Nlp.TextOfEmpty | desktopsearch/nlp.py:31-32 | `text("")` is the empty list whatever the configuration. |
| Nlp.TextRejectsLemmatize | desktopsearch/nlp.py:46-47 | Without spaCy, `text` fails on a non-empty text if and only if lemmatizing is configured, and the failure is an AssertionError. |
| Nlp.TextSplitsOnSpaces | desktopsearch/nlp.py:46-54 | Without spaCy, the tokens of a non-empty text contain no space. There is one more token than the (lower-cased) text has spaces, and joining them with spaces gives that text back. |
| Nlp.DefaultCodeExample | desktopsearch/nlp.py:11-21 | With the default code configuration, "I'm a software engineer!" splits into the four space-free words the test suite expects, case kept. |
| Nlp.PipeCounts | desktopsearch/nlp.py:59-73 | The only exception the spaCy loop of `batch` can raise is ValueError. |
| Nlp.PipeBatch | desktopsearch/nlp.py:59-73 | The spaCy loop adds to the caller's counter the terms of each document up to the first text spaCy rejects, and reports that rejection. |
| Nlp.PipeCountsStops | desktopsearch/nlp.py:62-73 | Once spaCy has rejected a text, the later texts add nothing. |
| Nlp.SplitBatch | desktopsearch/nlp.py:74-88 | Without spaCy, `batch` adds to the caller's counter the split tokens of every non-empty text, lower-cased unless case-sensitive. |
| Nlp.Batch | desktopsearch/nlp.py:56-88 | `batch` only adds to the caller's counter and never resets it. It raises what its branch raises: AssertionError for a lemmatizing split field, ValueError from spaCy, or KeyError for a spaCy field without a "lemmatize" entry. |
| Nlp.SplitBatchMatchesText | desktopsearch/nlp.py:74-88 | Without spaCy, `batch` counts exactly the sum of the counters of `text` over the inputs, and raises nothing. |
| Nlp.PipeBatchMatchesText | desktopsearch/nlp.py:59-73 | With spaCy, `batch` counts exactly the sum of the counters of `text` over the inputs, when spaCy accepts every text and gives no token for "". |
| Nlp.SameConfigIff | desktopsearch/backends/memory.py:269 | Configuration dictionaries with unique field names compare equal exactly when they hold the same fields with the same settings, whatever their order. |
| Nlp.ReorderedDefaultSame | desktopsearch/backends/memory.py:269 | The default configuration listed the other way round is a differently ordered sequence but the same dictionary. |
| LegacyNlp.LowerAll | nlp.py:50 | Mapping `str2lower` keeps the length and lower-cases each token in place. |
| LegacyNlp.TextSplitsThenLowers | nlp.py:44-50 | Without spaCy, the older `text` splits first and then lower-cases each piece. The result has one more token than the text has spaces, and a case-sensitive field joins back to the text. |
| LegacyNlp.TextOfEmpty | nlp.py:46 | The older `text("")` is `[""]`, not `[]`: there is no empty-text guard. |
| LegacyNlp.Batch | nlp.py:52-75 | The older `batch` only adds to the caller's counter and raises what its branch raises. |
| LegacyNlp.BatchCountsEachText | nlp.py:70-75 | Without spaCy, the older `batch` never raises and adds exactly one count per input text, empty strings included. A case-sensitive field counts the texts themselves. |
| TokenStream.GroupTokens | desktopsearch/plugin.py:26-30 | The append loop groups the yielded tokens by field, keeping their order. |
| TokenStream.GroupedLookup | desktopsearch/plugin.py:26-30 | Looking a field up in the grouped tokens (the `defaultdict`) gives that field's tokens in yield order, and `[]` for a field never yielded. |
| TokenStream.FieldTokensAbsent | desktopsearch/plugin.py:44 | A field that is never yielded has no tokens. |
| TokenStream.FilterMap | plugins/python.py:28-32 | Classifying a token stream never yields more pairs than the lexer gave tokens. |
| TokenStream.FilterMapFieldTokens | plugins/python.py:28-32 | Classification keeps order: a field's tokens are exactly the values of the lexer tokens classified into that field. |
| TokenStream.FilterMapFields | plugins/python.py:28-32 | Only fields the classification can produce occur in the stream. |
| TokenStream.CodeOrTextStreams | plugins/python.py:29-32 | With disjoint code and text kinds, "code" gets the code kinds' values and "text" the text kinds' values, in lexer order, and no other field occurs. |
| Plugin.NewTokenizerPlugin | desktopsearch/plugin.py:18-20 | A missing or empty configuration falls back to the default one, and any other is kept. The exception table is the plugin's own. plugin.py:25-28 is the same. |
| Plugin.CountField | desktopsearch/plugin.py:42-44 | One field gets a fresh counter filled by `batch` from that field's tokens. |
| Plugin.CountFields | desktopsearch/plugin.py:41-48 | The counting loop over the configured fields, in order. |
| Plugin.Tokenize | desktopsearch/plugin.py:25-48 | `tokenize` equals its specification: the generator's exception when unlisted, else the configured fields' counts. |
| Plugin.FieldCountsStops | desktopsearch/plugin.py:41-46 | Once a field's `batch` has raised something other than ValueError, later fields change nothing. |
| Plugin.FieldCountsSucceeds | desktopsearch/plugin.py:43-46 | The counting loop succeeds if and only if no field's `batch` raises anything but a ValueError. |
| Plugin.FieldCountsValues | desktopsearch/plugin.py:41-48 | A successful counting loop has every configured field and no other, each with the counts `batch` produced from that field's tokens. A ValueError keeps what had accumulated. |
| Plugin.FieldCountsResult | desktopsearch/plugin.py:39-48 | The counting loop raises exactly when a field's `batch` raises a non-ValueError. Otherwise its keys are the configured fields, with the counts `batch` gives. |
| Plugin.TokenizeExceptions | desktopsearch/plugin.py:31-37 | An exception from `_tokenize` that is an instance of no listed class is re-raised. A listed one is swallowed, and the tokens yielded before it are counted as if the generator had ended. |
| Plugin.TokenizeResult | desktopsearch/plugin.py:39-48 | The result's keys are exactly the configured fields, with yielded fields outside the configuration dropped. Each count is what `batch` makes of that field's tokens in order. |
| Plugin.TokenizeSilentField | desktopsearch/plugin.py:41-44 | A configured field for which nothing was yielded maps to an empty count. |
| Plugin.DefaultPluginFields | desktopsearch/plugin.py:20 | A plugin built without a configuration counts exactly "code" and "text". |
| LegacyPlugin.CountField | plugin.py:52-54 | One field of the older `tokenize` gets a fresh counter filled by nlp.py's `batch`. |
| LegacyPlugin.CountFields | plugin.py:51-58 | The older counting loop over the configured fields, in order. |
| LegacyPlugin.Tokenize | plugin.py:34-58 | The older `tokenize` equals the shared specification over nlp.py's `batch`. |
| LegacyPlugin.DefaultCodeCountsWhole | plugin.py:49-58 | With the default configuration, the older counting loop never fails. Its "code" field counts every yielded code token whole, as often as it was yielded. |
| PythonPlugin.LexTokensFields | plugins/python.py:22-32 | NAME and NUMBER go to "code", STRING and COMMENT to "text", in file order. Nothing else is yielded, and the tokenizer's exception passes through. |
| PythonPlugin.SwallowsSyntaxErrors | plugins/python.py:16-20 | The plugin swallows exactly the SyntaxError family (IndentationError included) and TokenError. A decoding error or an OSError propagates. |
| PythonPlugin.DefaultCounts | plugins/python.py:16-32 | A file that stops with a listed error is counted from the tokens before the error. By default "code" counts the NAME/NUMBER strings and "text" the STRING/COMMENT strings. |
| PygmentsPlugin.Pygments.constructor | plugins/pygments.py:25-27 | The base initialiser runs with the plugin's exception table, and the cache starts empty. |
| PygmentsPlugin.Pygments.LexTokens | plugins/pygments.py:29-45 | `_tokenize` yields and updates the cache as its specification says: a cached suffix reuses its lexer, and a miss asks the search and stores the answer. |
| PygmentsPlugin.Pygments.Tokenize | plugins/pygments.py:29-45 | The inherited `tokenize` over this generator, with the cache updated as `_tokenize` leaves it. |
| PygmentsPlugin.KindsDisjoint | plugins/pygments.py:42-45 | A Name or Number token type is never a String or Comment subtype, so the classification is unambiguous. |
| PygmentsPlugin.LexWithFields | plugins/pygments.py:41-45 | Name/Number tokens and their subtypes go to "code", String/Comment to "text", in lexer order. Nothing else is yielded. |
| PygmentsPlugin.CacheGrows | plugins/pygments.py:31-37 | The cache only grows, by at most the file's suffix. A miss stores the search's answer, and a file without a lexer raises NoLexerFound and leaves the cache as it was. |
| PygmentsPlugin.CachedSuffixIgnoresFind | plugins/pygments.py:31-32 | Once a suffix is cached, the lexer search is not consulted for files with that suffix, and the cache does not change. |
| PygmentsPlugin.CachedAsUncached | plugins/pygments.py:31-45 | Through a cache that agrees with the search, a file yields what an uncached lookup would. |
| PygmentsPlugin.StoreAgrees | plugins/pygments.py:35 | Storing the search's answer keeps the cache in agreement with a suffix-only search. |
| PygmentsPlugin.CacheTransparent | plugins/pygments.py:29-45 | When the lexer depends on the suffix only, the cache is invisible: every file yields what an uncached lookup would, and the cache keeps agreeing. |
| PygmentsPlugin.TokenizeExceptions | plugins/pygments.py:21-23 | `tokenize` re-raises NoLexerFound. A file that is not valid UTF-8 is skipped: every field gets what `batch` makes of no tokens. |
| CalmjsPlugin.LexTokensFields | desktopsearch/plugins/calmjs.py:20-32 | ID and NUMBER go to "code", STRING and both comment kinds to "text", in lexer order. Nothing else is yielded, and a failed read yields nothing and raises. |
| CalmjsPlugin.InvalidUtf8Raises | desktopsearch/plugins/calmjs.py:15-18 | As written, an ES5 syntax error is swallowed but a file that is not valid UTF-8 makes `tokenize` raise UnicodeDecodeError. |
| CalmjsPlugin.IntendedSkipsInvalidUtf8 | desktopsearch/plugins/calmjs.py:15-18 | With UnicodeDecodeError listed, an undecodable file is skipped as if nothing had been yielded, and syntax errors are still swallowed. |
| PlaintextPlugin.LexTokensGuard | plugins/plaintext.py:20-27 | A file over the limit raises ValueError and yields nothing. One within it that reads yields exactly one ("text", whole content) pair. |
| PlaintextPlugin.LimitIsInclusive | plugins/plaintext.py:14-23 | A file of exactly 1000000 bytes is still read. |
| PlaintextPlugin.SkippedFileCountsNothing | plugins/plaintext.py:16-27 | An oversized or undecodable file is skipped rather than failing: by default both fields get empty counts. |
| Registry.GetTokenizers | utils.py:85-105 | `_get_tokenizers` builds the table as the loop is written, including the rebinding of `obj` at line 100. |
| Registry.RegisteredFirstClaim | utils.py:90-103 | Corrected registration registers exactly the suffixes some importable plugin lists. Each goes to the first importable plugin that lists it. |
| Registry.RebindingMisroutes | utils.py:98-101 | With the rebinding, a plugin's later suffix goes to the owner of its earlier, already claimed, suffix. |
| Registry.DisjointRegistrationAgrees | utils.py:98-103 | When no suffix is listed twice, the code as written and the corrected registration agree. |
| Registry.ShippedDisjoint | utils.py:56-60 | The shipped plugins list no suffix twice: plugins/python.py:14, plugins/pygments.py:19 and calmjs's `.js`. |
| Registry.ShippedRegistrationAgrees | utils.py:56-105 | On the shipped plugins, both registrations give the same table, whichever modules import. |
| Registry.ClaimFreshAgrees | utils.py:98-103 | Distinct, unclaimed suffixes are all claimed for the new plugin by both loops. |
| Postings.AddDocInPlace | utils.py:137-138 | The store loop sets `index[token][id]` to each token's frequency. |
| Postings.DropTokensInPlace | utils.py:158-159 | The `del` loop raises KeyError exactly when some visited token's postings lack the id, with the deletions before it done. Otherwise the id leaves every visited token. |
| Postings.DropDocInPlace | utils.py:161-162 | The `pop` loop removes the id from every token's postings. |
| Postings.ColumnTranspose | utils.py:137-138 | A document's column and the tokens' postings describe the same entries. |
| Postings.AddDocColumns | utils.py:137-138 | Adding a document the table does not mention makes its column exactly its frequencies, and leaves every other column alone. |
| Postings.DropDocColumns | utils.py:161-162 | Popping a document empties its column and leaves every other column alone. |
| Postings.DropTokensIsDropDoc | utils.py:157-162 | Deleting the id under tokens that cover its column gives the same table as popping it everywhere. |
| Postings.DropAbsent | utils.py:157-162 | Removing a document the table does not mention changes nothing, by either loop. |
| Postings.DropAfterAdd | utils.py:137-162 | Adding an unmentioned document and popping it again restores every token's postings. |
| Query.OpDocsMembers | utils.py:186-187 | `set.intersection` selects the documents holding every token, and `set.union` those holding at least one. |
| Query.AnyDocsMembers | utils.py:182-184 | The accumulator's keys are the documents holding at least one query token. |
| Query.TermFreqOutside | utils.py:180-184 | A document holding no query token scores 0. |
| Query.AddScores | utils.py:183-184 | The inner loop adds each document's frequency to its score and adds its key. |
| Query.SumTermFreqs | utils.py:180-184 | The accumulation loop gives every document holding a query token its frequencies summed over the tokens, a repeated token counting again. |
| Query.Enumerated | desktopsearch/backends/memory.py:126-127 | The unscored listing keeps the paths and scores each by its position. |
| Query.ListingMembers | utils.py:173-188 | Over live documents the listing has one entry per selected id. A pair occurs exactly when an id has that path and score, and no path occurs twice. |
| Ranking.BeforeOrder | utils.py:204-207 | The sort key is a strict weak order whose incomparable pairs are the ties. |
| Ranking.SortSorted | utils.py:204-207 | The sorted listing has paths ascending, or scores descending. |
| Ranking.SortPermutes | utils.py:204-207 | Sorting is a permutation of its input. |
| Ranking.SortStable | utils.py:204-207 | Sorting is stable: hits with equal keys keep their input order. |
| Ranking.InsertPermutes | utils.py:204-207 | Inserting a hit adds exactly that hit. |
| Ranking.InsertSorted | utils.py:204-207 | Inserting into a sorted listing keeps it sorted. |
| Retrieval.ValidGroups | utils.py:25-26 | `valid_groups` keeps the group names. Each group holds exactly the `Path` forms of its configured directories. |
| Retrieval.ValidGroupsIdempotent | utils.py:25-26 | The groups `valid_groups` gives hold normalised paths only, so applying it again changes nothing. |
| Retrieval.GroupFilter | utils.py:201-202 | The group filter keeps every in-group hit as often as the input has it, and nothing else. |
| Retrieval.SortedHitsSpec | utils.py:198-207 | `_sorted` raises KeyError exactly for an unknown group. Otherwise its result is ordered, holds the in-group hits with their multiplicities and nothing else, and keeps tied hits in input order. |
| Retrieval.PrefixAdmitsSibling | utils.py:202 | Group membership is a string prefix test: a group "/src/app" admits "/src/application/main.py". |
| Retrieval.Retriever.constructor | utils.py:194-196 | A new retriever has no groups. |
| Retrieval.Retriever.SearchToken | utils.py:209-213 | `search_token` fails exactly for an unknown group. Otherwise it gives the sorted in-group hits of `get_paths(token)`, and exactly those. |
| Retrieval.Retriever.SearchTokens | utils.py:215-225 | `search_tokens_and`/`_or` are `_sorted` over `get_paths_op`: TypeError for no tokens, otherwise failing exactly for an unknown group. |
| Index.InvertedIndex.constructor | utils.py:71-83 | A new index has the corrected suffix table of the importable plugins and starts empty and valid. |
| Index.InvertedIndex.Clear | utils.py:107-113 | `clear()` empties the four dictionaries and keeps the index valid. |
| Index.InvertedIndex.AddDocument | utils.py:115-140 | `add_document` makes the state transition `AddSpec` states, and keeps the index valid. |
| Index.InvertedIndex.RemoveDocument | utils.py:142-162 | `remove_document` makes the state transition `RemoveSpec` states, including the error paths, and keeps the index valid. |
| Index.InvertedIndex.DocsFor | utils.py:164-167 | `get_docs` gives the documents whose column holds the token, all live, and inserts nothing. |
| Index.InvertedIndex.GetPaths | utils.py:169-175 | `get_paths` lists exactly the documents holding the token, each with its path and frequency. |
| Index.InvertedIndex.GetPathsOp | utils.py:177-190 | `get_paths_op` gives the listing `OpPaths` states: the documents `setop` selects with summed frequencies, or TypeError for no tokens. |
| Index.AddKeepsValid | utils.py:115-140 | Whatever the tokenizer does, `add_document` keeps the index valid. Valid means: ids allocated from 0, live paths mapping back, postings mentioning only live documents, and stored frequencies equal to the columns. |
| Index.RemoveKeepsValid | utils.py:142-162 | `remove_document` keeps the index valid on every path, error paths included. |
| Index.AddStores | utils.py:124-140 | A successful add of a non-live path returns `len(freqs)` and resolves the id to the path. The frequencies become its column, a known path keeps its id, a new one gets `len(docs2ids)`, and no other column changes. |
| Index.AddIgnores | utils.py:118-131 | An unknown suffix or a live path returns 0 and leaves the index unchanged. |
| Index.AddAfterRaiseFails | utils.py:124-134 | When the tokenizer raised on the first add, the path keeps its id without an `ids2docs` entry, and every later add of it raises KeyError. |
| Index.RemoveLive | utils.py:151-162 | Removing an indexed document marks its id removed and empties its column, leaving the other columns. |
| Index.StrategiesAgree | utils.py:157-162 | With stored frequencies, both removal strategies give the same state and error on an index whose paths are live or unknown. |
| Index.RemoveTwice | utils.py:151-162 | A second removal leaves the table alone. It raises KeyError with `keep_docs` when the document had tokens, and succeeds otherwise. |
| Index.ReAddReusesId | utils.py:124-153 | Re-adding a removed path reuses its id and stores the new frequencies as its column. |
| Index.TokenPathsMembers | utils.py:169-175 | `get_paths` lists each document holding the token once, with its path and frequency. |
| Index.OpPathsMembers | utils.py:177-190 | Over at least one token, `get_paths_op` lists each selected document once, with its path and its summed frequency. |
| Index.StoredTokensDropped | utils.py:157-159 | On a valid index with `keep_docs`, the deletion loop either pops the document everywhere or, for a removed document, stops with the postings unchanged. |
| Indexing.IndexOpsKeepValid | utils.py:277-285 | The index operations a pass calls both keep the index valid. |
| Indexing.AdmittedFiles | utils.py:260-262 | The suffix filter keeps exactly the admitted files. |
| Indexing.AdmittedFilesAppend | utils.py:260-262 | The filter keeps the walk's order: the admitted files of two runs of files are the first run's, then the second's. |
| Indexing.VisitCases | utils.py:258-288 | One file of the walk: skipped when not admitted; added in a full pass; in a partial pass touched and then added, skipped, or removed and re-added. |
| Indexing.AddedFrom | utils.py:283-286 | The time is recorded before `add_document` runs, and only a non-zero result counts as added. |
| Indexing.UnindexedFrom | utils.py:276-280 | A changed file's removal catches InvalidDocument only, and only a completed removal counts. |
| Indexing.WalkAfterError | utils.py:258-288 | Once an exception is raised, the rest of the walk does nothing. |
| Indexing.WalkKeepsValid | utils.py:258-288 | Every step of a pass keeps the index valid. |
| Indexing.WalkSkipsUnadmitted | utils.py:260-262 | A file the suffix filter rejects is neither added, touched nor recorded: a walk over the admitted files alone is the same pass. |
| Indexing.VisitRecords | utils.py:264-284 | A step that raises nothing records the file's time, keeps every other recorded time, and touches the file only in a partial pass. |
| Indexing.WalkRecords | utils.py:246-284 | A pass that raises nothing records the time the walk saw for every admitted file. A partial pass touches exactly the admitted files. |
| Indexing.RescanChangesNothing | utils.py:268-274 | A partial pass over files whose times are all recorded adds and removes nothing, and only touches. |
| Indexing.PartialPassIdempotent | utils.py:265-295 | After a successful partial pass, the recorded paths are exactly the touched ones. A second pass over the same files changes nothing and leaves nothing to delete. |
| Indexing.RemoveAfterRemovals | utils.py:292-293 | Removals do not interfere: after removing some paths, another path fails or succeeds as it would have at the start. |
| Indexing.DeleteOneAfter | utils.py:292-295 | One vanished path is removed, its time forgotten and counted. Only the caught InvalidDocument (in the corrected loop) is forgotten uncounted. |
| Indexing.DeletedOneMore | utils.py:292-295 | While the deletion loop has not raised, one more path extends its outcome by that path. |
| Indexing.DeleteInAnyOrder | utils.py:291-295 | The deletion loop has the same outcome, in the closed form `DeletedAll`, in every order of the vanished paths. |
| Indexing.CaughtDeletion | utils.py:276-295 | The corrected loop raises KeyError exactly when an indexed vanished file cannot be removed. Otherwise it removes the indexed vanished files, forgets all their times and counts the indexed ones. |
| Indexing.UncaughtDeletion | utils.py:290-295 | As written, the loop raises exactly when some vanished file cannot be removed, a never-indexed one included (InvalidDocument). Otherwise it counts every vanished file. |
| Indexing.VanishedUnindexedFileAborts | utils.py:283-295 | A file without a tokenizer is recorded by a partial pass. Once it vanishes, the next pass's deletion loop as written raises InvalidDocument, while the corrected one succeeds. |
| Indexing.PartialOutcomeFrom | utils.py:290-297 | The deletion loop's outcome, reported as `(docs_added, docs_removed)` or the exception. As written it raises InvalidDocument for a vanished never-indexed file; corrected, it raises only KeyError. |
| Indexers.Indexer.constructor | utils.py:229-232 | A new indexer has recorded no times. |
| Indexers.Indexer.IndexFiles | utils.py:234-297 | `index()` over the walked files: the fold of the visits, then for a partial pass the deletion loop. It returns the counts or the exception, and keeps the index valid. With `catchInvalid` false the deletion loop is the source's: InvalidDocument escapes. With true it is the corrected loop. |
| Indexers.Indexer.Finish | utils.py:290-297 | The end of `index()` once the walk is done: the walk's exception, or the counts of a full pass, or the deletion loop's `PartialOutcome` for a partial one, as written or corrected as `catchInvalid` says. |
| Indexers.Indexer.FinishPartial | utils.py:290-297 | The deletion loop ends in the outcome `PartialOutcome` states. With `catchInvalid` false that is the source's loop, which raises InvalidDocument for a vanished file that was never indexed. |
| Indexers.Indexer.Scan | utils.py:251-288 | The walk loop equals the `Walk` fold over the files, stopping at the first exception. |
| Indexers.Indexer.VisitFile | utils.py:258-288 | One file of the walk equals `Visit`. |
| Indexers.Indexer.ChangedFile | utils.py:275-288 | A changed file is removed and then added unless the removal raised. |
| Indexers.Indexer.UnindexFile | utils.py:276-280 | The caught removal of a changed file. |
| Indexers.Indexer.AddFile | utils.py:283-286 | The `if add:` block equals `Added`. |
| Indexers.Indexer.DeleteAll | utils.py:290-295 | The deletion loop, in Python's unspecified set order, ends in the order-free outcome `DeletedAll`. |
| Indexers.Indexer.DeleteVanishedFile | utils.py:293-295 | One pass of the deletion loop equals `DeleteOne`. |
| Indexers.Indexer.DeleteInSomeOrder | utils.py:291-295 | The loop runs over some duplicate-free order of the vanished paths, all of them when it raises nothing. |
| MemoryIndex.EmptyValid | desktopsearch/backends/memory.py:47-57 | The cleared state, with the two fields, is valid and consistent. |
| MemoryIndex.StoreFreqsOutcome | desktopsearch/backends/memory.py:79-81 | Storing `doc_freqs` raises KeyError exactly when the frequencies name a field outside the fields. |
| MemoryIndex.StorePostingsOutcome | desktopsearch/backends/memory.py:83-86 | The postings loop raises KeyError exactly for a field outside the fields. |
| MemoryIndex.AddFreqsKeepsValid | desktopsearch/backends/memory.py:67-88 | `add_document_freqs` keeps the id bookkeeping valid, whatever the frequencies. |
| MemoryIndex.AddFreqsIgnoresLive | desktopsearch/backends/memory.py:72-75 | Re-adding a live path returns False and changes nothing. |
| MemoryIndex.AddFreqsRegisters | desktopsearch/backends/memory.py:68-77 | A non-live path keeps its id, or a new one gets `len(docs2ids)`, and resolves to the path. The add fails, with KeyError only, exactly for a field name outside "code" and "text". Otherwise it returns True. |
| MemoryIndex.AddFreqsComplete | desktopsearch/backends/memory.py:77-88 | With both fields given, the add returns True and stores each field's frequencies in that field's table, and in `doc_freqs` with `keep_docs`. |
| MemoryIndex.AddFreqsColumns | desktopsearch/backends/memory.py:83-86 | With both fields given, each field's column for the document is its frequencies, and every other document's column is unchanged. |
| MemoryIndex.AddFreqsConsistent | desktopsearch/backends/memory.py:67-88 | An add with both fields keeps the index consistent: postings mention only live documents, and stored frequencies are the columns. |
| MemoryIndex.RemoveKeepsValid | desktopsearch/backends/memory.py:90-111 | `remove_document` keeps the id bookkeeping valid on every outcome. |
| MemoryIndex.RemoveOnlyDrops | desktopsearch/backends/memory.py:103-111 | Removal only ever deletes the document's own entries from the postings, even when it raises. |
| MemoryIndex.RemoveClears | desktopsearch/backends/memory.py:97-111 | On a consistent index the removed document disappears from every posting of both fields. |
| MemoryIndex.RemoveKeepsConsistent | desktopsearch/backends/memory.py:90-111 | Removal keeps a consistent index consistent and clears the document from every posting. |
| MemoryIndex.RemoveLiveClears | desktopsearch/backends/memory.py:103-111 | For a live document of a consistent index, the stored frequencies name only postings that hold it, so the `del` loop gets through. Deleting by the stored tokens and popping everywhere then give the same table, and the document is cleared from every field. |
| MemoryIndex.PathsMembers | desktopsearch/backends/memory.py:120-129 | `get_paths` lists each document holding the token once. The term_freq score is the stored frequency, and the unscored score is the position. |
| MemoryIndex.OpPathsMembers | desktopsearch/backends/memory.py:141-159 | `get_paths_op` lists each document `setop` selects once. With term_freq, its score is its frequency summed over the tokens. |
| MemoryIndex.SingleTokenOp | desktopsearch/backends/memory.py:240-241 | A one-token AND/OR query gives what `get_paths` gives, so in the model (ascending-id listing, see Query.Listing under "## Left out") `search_text`'s short cut for a single token changes no result. |
| MemoryIndex.AddThenRemove | desktopsearch/backends/memory.py:67-111 | Adding a document with both fields and removing it restores every token's postings in both fields. |
| MemoryIndex.UpdateLive | desktopsearch/backends/memory.py:283-285 | Updating a live document of a consistent index succeeds. It keeps the id and makes the new frequencies its columns. |
| MemoryIndex.BackendTestAdd | tests/test_backends.py:20-25 | The test's add returns True, and `get_docs("text", "hello")` is `{0: 1}`, with either `keep_docs`. |
| MemoryIndex.BackendTest | tests/test_backends.py:27-31 | After the test's removal, `get_docs("text", "hello")` is `{}`, with either `keep_docs`. |
| MemoryBackend.InvertedIndexMemory.constructor | desktopsearch/backends/memory.py:38-45 | A new index keeps the analyzer's configuration and starts empty, valid and consistent. |
| MemoryBackend.InvertedIndexMemory.Clear | desktopsearch/backends/memory.py:47-57 | `clear()` leaves the two empty fields, valid and consistent, and keeps the analyzer. |
| MemoryBackend.InvertedIndexMemory.AddDocument | desktopsearch/backends/memory.py:59-65 | NotAnalyzable answers False with no change, and any other analyzer exception propagates. Otherwise this is `add_document_freqs`. |
| MemoryBackend.InvertedIndexMemory.AddDocumentFreqs | desktopsearch/backends/memory.py:67-88 | `add_document_freqs` makes the transition `AddFreqsSpec` states, and keeps the index valid (and consistent when both fields are given). |
| MemoryBackend.InvertedIndexMemory.RemoveDocument | desktopsearch/backends/memory.py:90-111 | `remove_document` makes the transition `RemoveOutcome` states: InvalidDocument for an unknown path, and otherwise the id marked removed and dropped from the postings. It keeps validity and consistency, and a consistent index ends with the document cleared. |
| MemoryBackend.InvertedIndexMemory.GetPathsOp | desktopsearch/backends/memory.py:141-159 | `get_paths_op` equals `OpPathsSpec`. Its members are those `MemoryIndex.OpPathsMembers` states. |
| MemoryBackend.RetrieverMemory.constructor | desktopsearch/backends/memory.py:188-190 | A new retriever has no groups. |
| MemoryBackend.RetrieverMemory.Sorted | desktopsearch/backends/memory.py:192-213 | `_sorted` passes the lookup's exception through and raises KeyError for an unknown group. Otherwise it gives the in-group hits, exactly, in sorted order. |
| MemoryBackend.RetrieverMemory.SearchToken | desktopsearch/backends/memory.py:215-219 | `search_token` fails, with KeyError, exactly for an unknown field or group. Otherwise it gives exactly the sorted in-group hits of `get_paths`. |
| MemoryBackend.RetrieverMemory.SearchTokens | desktopsearch/backends/memory.py:221-231 | `search_tokens_and`/`_or` give TypeError for no tokens, and otherwise fail exactly for an unknown field or group. Results are sorted. |
| MemoryBackend.RetrieverMemory.SearchText | desktopsearch/backends/memory.py:233-248 | `search_text` raises ValueError for an `op` other than "and"/"or". Otherwise it searches the query's tokens with that set operation, which in the model (ascending-id listing, see Query.Listing under "## Left out") a single token answers through `search_token` alike. |
| MemoryBackend.IndexerMemory.constructor | desktopsearch/backends/memory.py:252-254 | A new indexer holds its index. |
| MemoryBackend.IndexerMemory.Index | desktopsearch/backends/memory.py:268-273 | A partial run raises IndexerError exactly for a configuration whose dictionary differs from the analyzer's (or when the analyzer has none), and changes nothing. A full run empties the index and sets the configuration. |
| MemoryBackend.IndexerMemory.UpdateDocument | desktopsearch/backends/memory.py:283-285 | `update_document` is a removal followed, unless it raised, by an add. An unknown path raises InvalidDocument with no change. A live document of a consistent index is re-indexed under its id. |

## Left out

- The file-system walk (`chain` over the groups, `rglob`, `gitignore_iterdir`, `stat`) is an input: a sequence of `(path, mtime)` pairs. `Indexer.groups` and `gitignore` are not modelled.
- Reading files, the Python tokenizer, the pygments lexers, the ES5 lexer and spaCy are parameters. Each returns its tokens and the exception it stopped with, if any. spaCy's batching inside `nlp.pipe` is not modelled.
- `str.lower` is an uninterpreted function.
- `Preprocess.__init__` (loading the spaCy model) is not modelled.
- Logging calls and the `progressfunc` callback are not modelled. They do not affect the state.
- tf-idf scoring (desktopsearch/backends/memory.py:130-137, 161-171) is not modelled: it uses `log10` floating point.
- `assert_choice` for `sortby` and `scoring` is not modelled. Those choices are datatypes here, so an invalid string cannot be passed.
- Pickling (`__getstate__`/`__setstate__`), `set_analyzer` and `_memory_usage` are not modelled.
- `IndexerBase._index`, `CodeAnalyzer` and `RetrieverBase` live in desktopsearch/utils.py, which is not part of this model. The analyzer's `analyze` and `query` are parameters, and its `config` is a field of `InvertedIndexMemory`.
- IndexerMemory's `add_document` and `remove_document` (desktopsearch/backends/memory.py:277-281) only forward to the index's methods, which are modelled.
- plugins/calmjs.py is not part of this model: it yields bare strings, not `(field, token)` pairs.
- The web front ends, the CLIs, the Whoosh backend, `serve.py` and `create-static-files.py` are not part of this model.
- The tokenizer of utils.py's `InvertedIndex` is modelled as giving one frequency map. The plugins return a dict of per-field counters, so utils.py's `len(freqs)` and `freqs.items()` would see field names.
- Registry.GetTokenizers: a plugin object is identified by its class name, and its construction is assumed to succeed. plugin.py's initialiser requires a `preprocess` argument that utils.py:97 does not pass.
- Paths.Name: its own ensures says only that the name is a slash-free tail. That it follows the last slash is Paths.NameAfterSlash, kept out of the function because every suffix test would carry it.
- Paths.Suffix: its own ensures gives only the suffix's shape. When it is non-empty and that it starts at the name's last dot is Paths.SuffixLastDot, kept out for the same reason.
- Paths.Components: its own ensures says only what is kept. That every other piece is kept, in order, is Paths.ComponentsKeep, Paths.ComponentsSingle and Paths.ComponentsAppend.
- Query.Listing: results are listed by ascending document id. Python yields them in dict insertion order (`get_paths`) or set order (`get_paths_op`). After a re-add reuses a lower id those orders differ, and so do the position scores of unscored results and the listing sorted by them. Scored results, sorted, agree except for the order among tied hits.
- MemoryIndex.SingleTokenOp and MemoryBackend.RetrieverMemory.SearchText: the single-token short cut gives the same result only under the ascending-id listing. In Python the unscored position scores of `get_paths` and `get_paths_op` can differ, as the Query.Listing line says.
- Query.Listing: an id without a live path is skipped. Python would yield `(None, score)`, and the group filter would then raise TypeError. On a valid (`Index`) or consistent (`MemoryIndex`) index no such id occurs in the postings.
- MemoryIndex.OpPathsMembers: for unscored results only the listed paths and their number are stated. The position scores follow the ascending-id listing, not Python's set order.
- MemoryBackend.InvertedIndexMemory.DocsFor and GetPaths are functions read through `MemoryIndex.FieldDocs` and `MemoryIndex.PathsSpec`. Their properties are stated in `MemoryIndex.PathsMembers`, not on themselves.
- MemoryBackend.RetrieverMemory.Sorted: the `TypeError` to `RuntimeError` wrapper (desktopsearch/backends/memory.py:196-206) is not modelled. It cannot fire, because the generator it guards is lazy and only runs during sorting.
- MemoryBackend.IndexerMemory.Index: only the checks before the indexing pass are modelled, because the pass itself is `IndexerBase._index`.
- A frequencies dict of the memory backend is a sequence of `(field, frequencies)` pairs in dict order. Python dict keys are distinct, so `Complete` (both fields, distinct names) is a premise wherever the source relies on it.
- Mtimes are unbounded integers. Python's integers do not wrap, so no width is modelled.

## Findings

| source | as written | input that shows it | evidently intended | confidence | as-written member | corrected member |
|---|---|---|---|---|---|---|
| desktopsearch/plugins/calmjs.py:15-18 | The "file is not valid utf-8" entry lists IndentationError, but reading a non-UTF-8 file raises UnicodeDecodeError, which `tokenize` then re-raises. | a `.js` file containing the byte 0xff | List UnicodeDecodeError, as plugins/pygments.py:21-23 does for the same message, so the file is skipped. | not executed | CalmjsPlugin.InvalidUtf8Raises | CalmjsPlugin.IntendedSkipsInvalidUtf8 |
| utils.py:100 | A suffix that is already registered rebinds `obj` to its owner. Later suffixes of the same plugin are then registered to that earlier plugin. | plugin A listing `.x`, then plugin B listing `.x`, `.y`: `.y` goes to A | Skip the claimed suffix, as the warning says, and register `.y` to B. | not executed | Registry.RebindingMisroutes | Registry.RegisteredFirstClaim |
| utils.py:290-295 | The deletion loop does not catch InvalidDocument, unlike the changed-file branch at utils.py:276-280. A recorded file that was never indexed therefore aborts the pass when it vanishes. | a partial pass over one file whose suffix has no tokenizer, then a partial pass after deleting it | Catch InvalidDocument in the deletion loop too, and forget the file's time. | not executed | Indexing.VanishedUnindexedFileAborts | Indexing.CaughtDeletion |
