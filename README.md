# GPT-3 byte-pair-encoding tokenizer — a verified model

This project models the tokenizer of ai-text-completer. The tokenizer
approximates the GPT-3 token count of a prompt. It runs byte-pair merges over
the text's own UTF-16 characters and never encodes the text into UTF-8 bytes
first. So a character at or above 128 is tokenized differently from a
byte-level encoder, and one at or above 256 never merges with anything
(`UnseenSymbolsStaySingle`). It has four parts.

- **Codepoint map** (`byte_mapping.dfy`). The merge-rule resource stores each
  raw byte as a printable codepoint. A printable byte stands for itself. Each
  of the 68 control and format bytes gets a synthetic codepoint from 256 on,
  in increasing byte order. The reader builds the inverse map, from visible
  codepoint to byte, and decodes every field through it (`rectifyString`).
- **Merge-rank table** (`bpe_reader.dfy`). The resource's lines are turned
  into a map from symbol pair to rank:
  - the header line is skipped;
  - each later line is split the way Java's `String.split("\\s")` splits it
    and must give exactly two fields;
  - both fields are decoded;
  - a pair's rank is its zero-based position among the rule lines.

  The same file holds `selectMinRankPair`, which picks the lowest-ranked
  candidate that is in the table.
- **Pre-tokenizer** (`pre_tokenizer.dfy`). The fixed pattern
  `'s|'t|'re|'ve|'m|'ll|'d| ?\p{L}+| ?\p{N}+| ?[^\s\p{L}\p{N}]+|\s+(?!\S)|\s+`
  is written as a scanner. It tries the alternatives leftmost-first at the
  current position. The Unicode classes letter, number and white space are a
  parameter (`CharClasses`).
- **Merge engine and tokenizer object** (`merge_engine.dfy`,
  `tokenizer.dfy`). For each chunk the engine does the following:
  - start from one-character tokens;
  - collect the set of adjacent pairs;
  - merge every non-overlapping occurrence of the lowest-ranked pair, left to
    right;
  - repeat until no adjacent pair is in the table.

  The tokenizer object keeps a cache from chunk to token list. `tokenize`
  appends the cached or freshly computed token list of every chunk, in order.

Each loop of Gpt3Tokenizer.java and Gpt3BpeReader.java is a method proved
equal to a specification function, or, for the cache, proved to keep its
invariant. These loops are `computeCodepointMap`, `rectifyString`, `selectMinRankPair`,
`initializeTokens`, `generatePairs`, `mergeTokensByPair`, `computeTokens` and
`tokenize`. The lemmas state the properties of the specification functions:
- the codepoint map is a bijection;
- decoding inverts the resource's encoding;
- a resource loads exactly when every rule line parses and no pair repeats,
  the loaded table is exactly what the lines say, and each way loading can
  fail is covered;
- merge passes preserve the text and shrink the list;
- the merge loop of `computeTokens` stops within |chunk| - 1 passes;
- the chunks tile the text;
- the cache is transparent: a cached list equals direct computation.

A Java `String` is modelled as `seq<char>`, one `char` per Unicode scalar
value. For text inside the Basic Multilingual Plane, which holds no
surrogates, that is one `char` per UTF-16 code unit. SymbolPair.java
is not part of this model. Its shape (`first`, `second`, `merged()`) is taken
from its uses.

A rule line is split with `String.split("\\s")`, so:
- the separators are the six ASCII characters space, `\t`, `\n`, `\x0B`,
  `\f` and `\r`;
- each separator splits on its own, so two spaces make an empty field in
  between;
- a leading separator gives an empty first field;
- trailing separators are dropped, so `"a b "` is accepted as the pair
  (`a`, `b`).

`BpeReader.Split`, `SplitDropsTrailingSeparators` and
`SplitKeepsInnerEmptyFields` state these cases.

## Model

| member | source | states |
|---|---|---|
| ByteMapping.CodepointMap | src/main/java/systems/cauldron/completion/tokenizer/bpe/Gpt3BpeReader.java:63-75 | Defines the visible-codepoint → byte map: every byte, keyed by its visible codepoint |
| ByteMapping.ComputeCodepointMap | src/main/java/systems/cauldron/completion/tokenizer/bpe/Gpt3BpeReader.java:63-75 | The counter loop builds exactly the visible-codepoint → byte map: each printable byte keyed by itself, each control byte keyed by 256 plus the number of control bytes below it |
| ByteMapping.VisibleOfBounds | src/main/java/systems/cauldron/completion/tokenizer/bpe/Gpt3BpeReader.java:65-72 | A byte gets a key of 256 or more exactly when it is in the control set (`i < 33`, `126 < i < 161`, `i == 173`); every key is below 324 |
| ByteMapping.ControlOrder | src/main/java/systems/cauldron/completion/tokenizer/bpe/Gpt3BpeReader.java:65-69 | Synthetic keys are handed out in increasing byte order |
| ByteMapping.CodepointMapSize | src/main/java/systems/cauldron/completion/tokenizer/bpe/Gpt3BpeReader.java:63-75 | The map has exactly 256 entries |
| ByteMapping.CodepointMapKeys | src/main/java/systems/cauldron/completion/tokenizer/bpe/Gpt3BpeReader.java:66-72 | A codepoint is a key exactly when it is a printable byte or lies in 256..323 |
| ByteMapping.CodepointMapBijective | src/main/java/systems/cauldron/completion/tokenizer/bpe/Gpt3BpeReader.java:63-75 | Every byte 0..255 is the value of some key, and no two keys share a value: the map is a bijection onto the byte range |
| ByteMapping.CodepointMapPrintable | src/main/java/systems/cauldron/completion/tokenizer/bpe/Gpt3BpeReader.java:70-72 | A printable byte is a key and maps to itself |
| ByteMapping.CodepointMapSynthetic | src/main/java/systems/cauldron/completion/tokenizer/bpe/Gpt3BpeReader.java:65-69 | Key 256 + j maps to the j-th control byte, which is a control byte, and control bytes come in increasing order |
| ByteMapping.Rectify | src/main/java/systems/cauldron/completion/tokenizer/bpe/Gpt3BpeReader.java:77-85 | Decoding succeeds exactly when every codepoint is a key of the map; the result has the same length, each character is the map's value for the input character, and every character is below 256 |
| ByteMapping.RectifyString | src/main/java/systems/cauldron/completion/tokenizer/bpe/Gpt3BpeReader.java:77-85 | The StringBuilder loop returns what Rectify specifies, failing at the first unmapped codepoint |
| ByteMapping.Visible | src/main/java/systems/cauldron/completion/tokenizer/bpe/Gpt3BpeReader.java:63-75 | The resource's encoding of a byte string keeps its length |
| ByteMapping.RectifyVisible | src/main/java/systems/cauldron/completion/tokenizer/bpe/Gpt3BpeReader.java:77-85 | Decoding inverts the encoding: every byte string survives the encode/decode round trip through the computed map |
| BpeReader.Split | src/main/java/systems/cauldron/completion/tokenizer/bpe/Gpt3BpeReader.java:32 | `split("\\s")` with the default limit: the whole line when no separator occurs, otherwise the fields between separators with the trailing empty ones dropped |
| BpeReader.Fields | src/main/java/systems/cauldron/completion/tokenizer/bpe/Gpt3BpeReader.java:32 | Splitting at separators yields at least one field |
| BpeReader.SplitJoin | src/main/java/systems/cauldron/completion/tokenizer/bpe/Gpt3BpeReader.java:32 | Two or more fields without separators, the last one non-empty, joined with single spaces split back into exactly those fields |
| BpeReader.SplitDropsTrailingSeparators | src/main/java/systems/cauldron/completion/tokenizer/bpe/Gpt3BpeReader.java:32-33 | `split` drops trailing empty fields: `"a b "` gives two fields, so such a line is accepted |
| BpeReader.SplitKeepsInnerEmptyFields | src/main/java/systems/cauldron/completion/tokenizer/bpe/Gpt3BpeReader.java:32-33 | Each separator splits on its own: `"a  b"` gives three fields, so such a line is malformed |
| BpeReader.ParseLine | src/main/java/systems/cauldron/completion/tokenizer/bpe/Gpt3BpeReader.java:31-39 | The line lambda: exactly two fields, each decoded; the only errors it raises are a malformed line and an unmapped codepoint |
| BpeReader.ParseRuleLine | src/main/java/systems/cauldron/completion/tokenizer/bpe/Gpt3BpeReader.java:31-39 | The rule line written for a pair of byte strings parses back to that pair |
| BpeReader.ParseRules | src/main/java/systems/cauldron/completion/tokenizer/bpe/Gpt3BpeReader.java:29-40 | A successful parse has one pair per rule line |
| BpeReader.ParseRulesOk | src/main/java/systems/cauldron/completion/tokenizer/bpe/Gpt3BpeReader.java:29-40 | A successful parse holds each line's pair at that line's position |
| BpeReader.ParseRulesFirstError | src/main/java/systems/cauldron/completion/tokenizer/bpe/Gpt3BpeReader.java:29-40 | A failed parse carries the error of the first rule line that fails, and every line before it parses |
| BpeReader.ParseRulesOkIff | src/main/java/systems/cauldron/completion/tokenizer/bpe/Gpt3BpeReader.java:29-40 | The list parses exactly when every rule line parses |
| BpeReader.RankMap | src/main/java/systems/cauldron/completion/tokenizer/bpe/Gpt3BpeReader.java:44-45 | For a list without repeats, each pair's rank is its index, every key is a pair of the list, and ranks are unique |
| BpeReader.LoadTable | src/main/java/systems/cauldron/completion/tokenizer/bpe/Gpt3BpeReader.java:20-46 | The constructor: a missing resource, and only that, aborts with MissingResource; otherwise skip the header, parse every rule line, and map each pair to its index, failing on the first bad line or on a repeated pair |
| BpeReader.LoadedRanks | src/main/java/systems/cauldron/completion/tokenizer/bpe/Gpt3BpeReader.java:29-45 | In a loaded table every rule line k ≥ 1 parses and its pair has rank k − 1 (the header plays no part), and every key comes from some rule line |
| BpeReader.LoadSucceeds | src/main/java/systems/cauldron/completion/tokenizer/bpe/Gpt3BpeReader.java:29-45 | A resource loads exactly when every rule line after the header parses and no two rule lines give the same pair; the header line has no say in it |
| BpeReader.LoadMalformed | src/main/java/systems/cauldron/completion/tokenizer/bpe/Gpt3BpeReader.java:32-35 | A rule line that does not split into exactly two fields aborts loading |
| BpeReader.LoadDuplicate | src/main/java/systems/cauldron/completion/tokenizer/bpe/Gpt3BpeReader.java:44-45 | Two rule lines spelling the same pair abort loading with DuplicatePair (the `toUnmodifiableMap` collision) |
| BpeReader.ParsedPairIsBytes | src/main/java/systems/cauldron/completion/tokenizer/bpe/Gpt3BpeReader.java:36-38 | Both halves of a parsed rule consist of characters below 256 |
| BpeReader.LoadedPairsAreBytes | src/main/java/systems/cauldron/completion/tokenizer/bpe/Gpt3BpeReader.java:29-45 | Every pair of a loaded table consists of characters below 256 |
| BpeReader.MinRankExists | src/main/java/systems/cauldron/completion/tokenizer/bpe/Gpt3BpeReader.java:48-61 | When some candidate is in the table, a lowest-ranked candidate exists |
| BpeReader.MinRankPair | src/main/java/systems/cauldron/completion/tokenizer/bpe/Gpt3BpeReader.java:48-61 | None exactly when no candidate is in the table; otherwise a candidate in the table whose rank is at most that of every candidate in the table |
| BpeReader.MinRankUnique | src/main/java/systems/cauldron/completion/tokenizer/bpe/Gpt3BpeReader.java:48-61 | With unique ranks there are no ties: the lowest-ranked candidate is determined |
| BpeReader.SelectMinRankPair | src/main/java/systems/cauldron/completion/tokenizer/bpe/Gpt3BpeReader.java:48-61 | The scan returns None (Java's null) exactly when no candidate is in the table; otherwise a candidate in the table with the least rank among candidates in the table, the same one MinRankPair names whatever the iteration order |
| MergeEngine.InitialTokens | src/main/java/systems/cauldron/completion/tokenizer/Gpt3Tokenizer.java:65-71 | One token per character, token i is exactly the one-character string of character i, and the tokens concatenate to the pre-token |
| MergeEngine.InitializeTokens | src/main/java/systems/cauldron/completion/tokenizer/Gpt3Tokenizer.java:65-71 | The `substring(i, i + 1)` loop yields InitialTokens |
| MergeEngine.AdjacentPairsCons | src/main/java/systems/cauldron/completion/tokenizer/Gpt3Tokenizer.java:73-82 | The adjacent pairs of a list are its first pair plus the adjacent pairs of its tail |
| MergeEngine.GeneratePairs | src/main/java/systems/cauldron/completion/tokenizer/Gpt3Tokenizer.java:73-82 | A pair is in the result exactly when it is (tokens[i-1], tokens[i]) for some 1 ≤ i < \|tokens\|; the result is empty for fewer than two tokens |
| MergeEngine.Merge | src/main/java/systems/cauldron/completion/tokenizer/Gpt3Tokenizer.java:84-100 | Defines one pass: an adjacent occurrence of the pair becomes the merged token and the scan resumes after it; every other token is kept |
| MergeEngine.MergePreservesConcat | src/main/java/systems/cauldron/completion/tokenizer/Gpt3Tokenizer.java:84-100 | A merge pass leaves the concatenation of the tokens unchanged |
| MergeEngine.MergeLength | src/main/java/systems/cauldron/completion/tokenizer/Gpt3Tokenizer.java:84-100 | A pass never lengthens the list; it shortens it exactly when the pair occurs adjacently, and otherwise returns the list unchanged |
| MergeEngine.MergeLeftToRight | src/main/java/systems/cauldron/completion/tokenizer/Gpt3Tokenizer.java:89-95 | Occurrences do not overlap, (a, a) on a, a, a gives aa, a; and a merged token is not looked at again in the same pass, even when it equals the first half: (a, "") on a, "", "" gives a, "" |
| MergeEngine.MergeFrom | src/main/java/systems/cauldron/completion/tokenizer/Gpt3Tokenizer.java:88-97 | From index i the pass emits the merged token and skips two when the pair starts at i, and otherwise copies tokens[i] and moves on by one |
| MergeEngine.MergeTokensByPair | src/main/java/systems/cauldron/completion/tokenizer/Gpt3Tokenizer.java:84-100 | The indexed loop with the extra `i++` yields the Merge pass |
| MergeEngine.MergeToFixpoint | src/main/java/systems/cauldron/completion/tokenizer/Gpt3Tokenizer.java:52-63 | Defines the `while (true)` loop: merge the lowest-ranked adjacent pair until none is in the table |
| MergeEngine.MergeSteps | src/main/java/systems/cauldron/completion/tokenizer/Gpt3Tokenizer.java:54-61 | Defines the number of passes that loop runs |
| MergeEngine.BpeTokens | src/main/java/systems/cauldron/completion/tokenizer/Gpt3Tokenizer.java:52-63 | Defines `computeTokens`: the loop started from the one-character tokens of the pre-token |
| MergeEngine.FixpointPreservesConcat | src/main/java/systems/cauldron/completion/tokenizer/Gpt3Tokenizer.java:52-63 | Merging to the end leaves the concatenation unchanged |
| MergeEngine.FixpointIsFinal | src/main/java/systems/cauldron/completion/tokenizer/Gpt3Tokenizer.java:54-59 | When the loop stops, no adjacent pair of the result is in the table |
| MergeEngine.StepsBound | src/main/java/systems/cauldron/completion/tokenizer/Gpt3Tokenizer.java:54-61 | Passes plus final length never exceed the starting length, so each pass removes a token; a non-empty list stays non-empty |
| MergeEngine.BpeIterationBound | src/main/java/systems/cauldron/completion/tokenizer/Gpt3Tokenizer.java:52-63 | A pre-token of n ≥ 1 characters takes at most n − 1 passes |
| MergeEngine.BpeTokensCorrect | src/main/java/systems/cauldron/completion/tokenizer/Gpt3Tokenizer.java:52-63 | The final tokens spell out the pre-token, none of their adjacent pairs is in the table, and there are at most as many tokens as characters |
| MergeEngine.BpeUnmergeable | src/main/java/systems/cauldron/completion/tokenizer/Gpt3Tokenizer.java:52-63 | When no pair of neighbouring characters is in the table, every character stays its own token |
| PreTokenizer.RunLength | src/main/java/systems/cauldron/completion/tokenizer/Gpt3Tokenizer.java:17 | A greedy `X+` run: every character in it satisfies X and the character after it does not |
| PreTokenizer.MatchAt | src/main/java/systems/cauldron/completion/tokenizer/Gpt3Tokenizer.java:17 | Every non-empty text has a match at its start, of length between 1 and the text's length |
| PreTokenizer.PreTokens | src/main/java/systems/cauldron/completion/tokenizer/Gpt3Tokenizer.java:41-45 | Defines the chunks of the `find` loop: the match at the start of the text, then the chunks of what follows it |
| PreTokenizer.PreTokensTile | src/main/java/systems/cauldron/completion/tokenizer/Gpt3Tokenizer.java:17-45 | The chunks found by repeated `find` concatenate back to the text |
| PreTokenizer.PreTokensShape | src/main/java/systems/cauldron/completion/tokenizer/Gpt3Tokenizer.java:17-45 | Every chunk is non-empty and is a contraction, an optional space followed by letters, by numbers or by other characters, or a white-space run |
| PreTokenizer.MatchAtShape | src/main/java/systems/cauldron/completion/tokenizer/Gpt3Tokenizer.java:17 | The match at the start of a non-empty text is one of the pattern's alternatives |
| PreTokenizer.PreTokensOf | src/main/java/systems/cauldron/completion/tokenizer/Gpt3Tokenizer.java:17-45 | A list of non-empty chunks, each the match found where it starts, is exactly what the matcher yields for their concatenation |
| PreTokenizer.WordMatch | src/main/java/systems/cauldron/completion/tokenizer/Gpt3Tokenizer.java:17 | A word of letters followed by a non-letter is matched whole by ` ?\p{L}+` |
| PreTokenizer.SpaceWordMatch | src/main/java/systems/cauldron/completion/tokenizer/Gpt3Tokenizer.java:17 | A space followed by a word is matched whole, the space included |
| PreTokenizer.SpacesBeforeNonSpace | src/main/java/systems/cauldron/completion/tokenizer/Gpt3Tokenizer.java:17 | A run of two or more white-space characters before a non-space is matched by `\s+(?!\S)` without its last character |
| PreTokenizer.HelloWorldChunks | src/main/java/systems/cauldron/completion/tokenizer/Gpt3Tokenizer.java:17 | "Hello world" is split into "Hello" and " world" |
| PreTokenizer.SpaceRunYieldsLastSpace | src/main/java/systems/cauldron/completion/tokenizer/Gpt3Tokenizer.java:17 | "a  b" is split into "a", " " and " b": the white-space run leaves its last space to the word |
| Tokenizer.TokenizeSpec | src/main/java/systems/cauldron/completion/tokenizer/Gpt3Tokenizer.java:41-50 | Defines `tokenize`: the chunks of the text, each merged on its own, their token lists in order |
| Tokenizer.TokenizeReconstructs | src/main/java/systems/cauldron/completion/tokenizer/Gpt3Tokenizer.java:41-50 | The output tokens concatenate back to the input text |
| Tokenizer.TokenizeEmpty | src/main/java/systems/cauldron/completion/tokenizer/Gpt3Tokenizer.java:41-50 | The empty text has no tokens |
| Tokenizer.TokenizeSingleCharacter | src/main/java/systems/cauldron/completion/tokenizer/Gpt3Tokenizer.java:41-63 | A one-character text is one token, whatever the table |
| Tokenizer.UnseenSymbolsStaySingle | src/main/java/systems/cauldron/completion/tokenizer/Gpt3Tokenizer.java:52-71 | With a loaded table, a chunk with no character below 256 never merges: one token per character |
| Tokenizer.Gpt3Tokenizer.Valid | src/main/java/systems/cauldron/completion/tokenizer/Gpt3Tokenizer.java:20-46 | The cache invariant: every cached entry is the token list direct computation gives for its key |
| Tokenizer.Gpt3Tokenizer.constructor | src/main/java/systems/cauldron/completion/tokenizer/Gpt3Tokenizer.java:24-27 | A tokenizer over the given table with an empty cache, which trivially satisfies the cache invariant |
| Tokenizer.Gpt3Tokenizer.NextChunk | src/main/java/systems/cauldron/completion/tokenizer/Gpt3Tokenizer.java:44-45 | `find` then `group` at pos: a non-empty chunk ending within the text, after which the remaining chunks are those of the rest of the text |
| Tokenizer.Gpt3Tokenizer.ComputeTokens | src/main/java/systems/cauldron/completion/tokenizer/Gpt3Tokenizer.java:52-63 | The `while (true)` loop terminates (the token count drops every pass) with the specified final tokens, which spell out the pre-token and have no adjacent pair in the table; the number of passes it runs is MergeSteps of the initial tokens, at most \|preToken\| − 1 for a non-empty pre-token |
| Tokenizer.Gpt3Tokenizer.CachedTokens | src/main/java/systems/cauldron/completion/tokenizer/Gpt3Tokenizer.java:46 | `computeIfAbsent`: the result equals direct computation whatever the cache held; a hit leaves the cache unchanged, a miss adds exactly that entry; the cache invariant is kept |
| Tokenizer.Gpt3Tokenizer.Tokenize | src/main/java/systems/cauldron/completion/tokenizer/Gpt3Tokenizer.java:41-50 | The result is the in-order concatenation of the token lists of the chunks, it spells out the text, no existing cache entry changes, and the cache gains exactly the chunks of the text |

## Left out

- The completion provider classes, `CompletionMeter`, `HttpUtility` and `CompletionProvider.create`: network requests, JSON, floating-point parameter checks and atomic counters. None of it is tokenizer logic.
- The singleton `getInstance` with double-checked locking (Gpt3Tokenizer.java:22-39): it is about concurrency. The tokenizer is an object built explicitly from a table.
- The thread safety of the `ConcurrentHashMap` cache: the cache is a sequential map. Concurrent misses that compute the same value are not modelled.
- Reading the classpath resource: its lines are a parameter (`Option<seq<string>>`, with None for a missing resource). An `IOException` while reading is not modelled.
- The Unicode category tables behind `\p{L}`, `\p{N}` and `\s`: they are the `CharClasses` parameter. The tiling and shape lemmas hold for any classification.
- Code points outside the Basic Multilingual Plane: a Dafny `char` is a whole scalar value, while Java's `initializeTokens` takes `substring(i, i + 1)` by UTF-16 code unit and so makes two tokens, one per surrogate, of such a character. The initial tokens and hence the token count differ for such text. Pre-tokenizing does not: `java.util.regex` matches `\p{L}`, `\p{N}` and `\s` by code point, so the chunks of well-formed text are the same strings. Decoding does not either: such code points are missing from the codepoint map in both.
- The pattern engine itself: the pattern is a scanner. If no alternative matched at a position, `Matcher.find` would skip ahead. That case cannot arise (`MatchAt` always matches a non-empty text), so it is not modelled.
- The messages of the load errors: MalformedLine keeps the offending line. UnmappedCodepoint and DuplicatePair carry nothing.
- The HashSet iteration order in `selectMinRankPair`: it is an arbitrary choice, which cannot change the result because ranks are unique. `selectMinRankPair`'s `Integer.MAX_VALUE` starting rank is "no pair yet". The two agree because every rank is a list index below that value.
- The 64-token count of the sample text (TokenizerTest.java:19-25): it depends on the vocabulary resource, which is not part of this model.
