/**
 * The tokenizer object: it owns the merge-rank table and a cache from
 * pre-token to its final token list, and turns a text into the in-order
 * concatenation of the token lists of its pre-tokens.
 */
module Tokenizer {
  import opened Wrappers
  import opened Symbols
  import opened ByteMapping
  import opened BpeReader
  import opened MergeEngine
  import opened PreTokenizer

  /** The token lists of the chunks, one after the other. */
  ghost function TokensOfChunks(table: RankTable, chunks: seq<string>): seq<string> {
    if chunks == [] then [] else BpeTokens(table, chunks[0]) + TokensOfChunks(table, chunks[1..])
  }

  /** What tokenizing a text yields: split it into chunks and merge each chunk on its own. */
  ghost function TokenizeSpec(table: RankTable, cc: CharClasses, text: string): seq<string> {
    TokensOfChunks(table, PreTokens(cc, text))
  }

  lemma {:induction false} TokensOfChunksAppend(table: RankTable, chunks: seq<string>, chunk: string)
    ensures TokensOfChunks(table, chunks + [chunk]) == TokensOfChunks(table, chunks) + BpeTokens(table, chunk)
  {
    if chunks == [] {
      assert [chunk][1..] == [];
      assert chunks + [chunk] == [chunk];
    } else {
      assert (chunks + [chunk])[1..] == chunks[1..] + [chunk];
      TokensOfChunksAppend(table, chunks[1..], chunk);
    }
  }

  lemma {:induction false} TokensOfChunksConcat(table: RankTable, chunks: seq<string>)
    ensures Concat(TokensOfChunks(table, chunks)) == Concat(chunks)
  {
    if chunks != [] {
      TokensOfChunksConcat(table, chunks[1..]);
      BpeTokensCorrect(table, chunks[0]);
      ConcatAppend(BpeTokens(table, chunks[0]), TokensOfChunks(table, chunks[1..]));
    }
  }

  /** The tokens spell out the text exactly: nothing is dropped, added or reordered. */
  lemma TokenizeReconstructs(table: RankTable, cc: CharClasses, text: string)
    ensures Concat(TokenizeSpec(table, cc, text)) == text
  {
    TokensOfChunksConcat(table, PreTokens(cc, text));
    PreTokensTile(cc, text);
  }

  /** The empty text has no tokens. */
  lemma TokenizeEmpty(table: RankTable, cc: CharClasses)
    ensures TokenizeSpec(table, cc, []) == []
  {
  }

  /** A single character is one token, whatever the table and the character classes. */
  lemma TokenizeSingleCharacter(table: RankTable, cc: CharClasses, c: char)
    ensures TokenizeSpec(table, cc, [c]) == [[c]]
  {
    var chunks := PreTokens(cc, [c]);
    assert MatchAt(cc, [c]).Some?;
    assert MatchAt(cc, [c]).value == 1;
    assert [c][..1] == [c] && [c][1..] == [];
    assert PreTokens(cc, [c][1..]) == [];
    assert chunks == [[c]];
    var tokens := InitialTokens([c]);
    assert AdjacentPairs(tokens) == {};
    assert BpeTokens(table, [c]) == [[c]];
    assert chunks[1..] == [];
    assert TokensOfChunks(table, chunks) == BpeTokens(table, [c]) + TokensOfChunks(table, []);
  }

  /**
   * With a table read from the resource, a chunk of characters outside the
   * byte range (none below 256) can never merge: one token per character.
   */
  lemma UnseenSymbolsStaySingle(lines: seq<string>, table: RankTable, preToken: string)
    requires LoadTable(Some(lines)) == Ok(table)
    requires forall i :: 0 <= i < |preToken| ==> preToken[i] as int >= 256
    ensures BpeTokens(table, preToken) == InitialTokens(preToken)
    ensures |BpeTokens(table, preToken)| == |preToken|
  {
    LoadedPairsAreBytes(lines, table);
    forall i | 1 <= i < |preToken|
      ensures SymbolPair([preToken[i - 1]], [preToken[i]]) !in table
    {
      var p := SymbolPair([preToken[i - 1]], [preToken[i]]);
      assert p.first[0] == preToken[i - 1];
    }
    BpeUnmergeable(table, preToken);
  }

  /** The chunk at the front of a text, and the chunks after it. */
  lemma PreTokensStep(cc: CharClasses, text: string, pos: nat, n: nat)
    requires pos < |text|
    requires MatchAt(cc, text[pos..]) == Some(n)
    ensures pos < pos + n <= |text|
    ensures PreTokens(cc, text[pos..]) == [text[pos..pos + n]] + PreTokens(cc, text[pos + n..])
  {
    var rest := text[pos..];
    PreTokensCons(cc, rest, n);
    assert rest[..n] == text[pos..pos + n];
    assert rest[n..] == text[pos + n..];
  }

  /** The set of chunks taken grows by the chunk just taken. */
  lemma ChunkSetStep(done: seq<string>, chunk: string)
    ensures (set c | c in done + [chunk]) == (set c | c in done) + {chunk}
  {
  }

  /** The tokenizer: a merge-rank table, the character classes of the pattern, and the token cache. */
  class Gpt3Tokenizer {
    const pairLookup: RankTable
    const classes: CharClasses
    var tokenCache: map<string, seq<string>>

    /** Every cached entry is the token list that direct computation gives for its key. */
    ghost predicate Valid()
      reads this
    {
      forall preToken :: preToken in tokenCache ==> tokenCache[preToken] == BpeTokens(pairLookup, preToken)
    }

    /** A tokenizer over a loaded table, with an empty cache. */
    constructor (pairLookup: RankTable, classes: CharClasses)
      ensures Valid()
      ensures this.pairLookup == pairLookup && this.classes == classes
      ensures tokenCache == map[]
    {
      this.pairLookup := pairLookup;
      this.classes := classes;
      tokenCache := map[];
    }

    /**
     * One call of find followed by group: the match that starts at pos, as
     * the end position of the chunk it covers.
     */
    method NextChunk(text: string, pos: nat) returns (next: nat)
      requires pos < |text|
      ensures pos < next <= |text|
      ensures PreTokens(classes, text[pos..]) == [text[pos..next]] + PreTokens(classes, text[next..])
    {
      var length := MatchAt(classes, text[pos..]).value;
      PreTokensStep(classes, text, pos, length);
      next := pos + length;
    }

    /**
     * The merge loop of one pre-token: merge the lowest-ranked adjacent pair
     * until none is in the table. passes counts the loop's merge passes.
     */
    method ComputeTokens(preToken: string) returns (tokens: seq<string>, ghost passes: nat)
      ensures tokens == BpeTokens(pairLookup, preToken)
      ensures Concat(tokens) == preToken
      ensures forall p :: p in AdjacentPairs(tokens) ==> p !in pairLookup
      ensures passes == MergeSteps(pairLookup, InitialTokens(preToken))
      ensures preToken != [] ==> passes <= |preToken| - 1
    {
      tokens := InitializeTokens(preToken);
      passes := 0;
      while true
        invariant MergeToFixpoint(pairLookup, tokens) == BpeTokens(pairLookup, preToken)
        invariant passes + MergeSteps(pairLookup, tokens) == MergeSteps(pairLookup, InitialTokens(preToken))
        decreases |tokens|
      {
        var pairs := GeneratePairs(tokens);
        var minRankPair := SelectMinRankPair(pairLookup, pairs);
        if minRankPair.None? {
          break;
        }
        MergeLength(minRankPair.value, tokens);
        tokens := MergeTokensByPair(minRankPair.value, tokens);
        passes := passes + 1;
      }
      BpeTokensCorrect(pairLookup, preToken);
      if preToken != [] {
        BpeIterationBound(pairLookup, preToken);
      }
    }

    /**
     * computeIfAbsent: a cached entry is returned as it is; otherwise the
     * tokens are computed and stored. Either way the result is what direct
     * computation gives, and no existing entry changes.
     */
    method CachedTokens(preToken: string) returns (tokens: seq<string>)
      requires Valid()
      modifies this`tokenCache
      ensures Valid()
      ensures tokens == BpeTokens(pairLookup, preToken)
      ensures tokenCache == old(tokenCache)[preToken := tokens]
      ensures preToken in old(tokenCache) ==> tokenCache == old(tokenCache)
    {
      if preToken in tokenCache {
        tokens := tokenCache[preToken];
      } else {
        ghost var passes;
        tokens, passes := ComputeTokens(preToken);
        tokenCache := tokenCache[preToken := tokens];
      }
    }

    /** Splits the text into chunks and appends each chunk's (cached) tokens in order. */
    method Tokenize(text: string) returns (textTokens: seq<string>)
      requires Valid()
      modifies this`tokenCache
      ensures Valid()
      ensures textTokens == TokenizeSpec(pairLookup, classes, text)
      ensures Concat(textTokens) == text
      ensures forall k :: k in old(tokenCache) ==> k in tokenCache && tokenCache[k] == old(tokenCache)[k]
      ensures tokenCache.Keys == old(tokenCache).Keys + set chunk | chunk in PreTokens(classes, text)
    {
      textTokens := [];
      var pos := 0;
      ghost var done: seq<string> := [];
      assert text[pos..] == text;
      assert done + PreTokens(classes, text[pos..]) == PreTokens(classes, text);
      while pos < |text|
        invariant 0 <= pos <= |text|
        invariant Valid()
        invariant done + PreTokens(classes, text[pos..]) == PreTokens(classes, text)
        invariant textTokens == TokensOfChunks(pairLookup, done)
        invariant forall k :: k in old(tokenCache) ==> k in tokenCache && tokenCache[k] == old(tokenCache)[k]
        invariant tokenCache.Keys == old(tokenCache).Keys + set chunk | chunk in done
        decreases |text| - pos
      {
        var next := NextChunk(text, pos);
        var preToken := text[pos..next];
        var tokens := CachedTokens(preToken);
        SeqAppendAssoc(done, preToken, PreTokens(classes, text[next..]), PreTokens(classes, text));
        TokensOfChunksAppend(pairLookup, done, preToken);
        ChunkSetStep(done, preToken);
        done := done + [preToken];
        textTokens := textTokens + tokens;
        pos := next;
      }
      assert text[pos..] == [];
      assert done + [] == done;
      assert done == PreTokens(classes, text);
      TokenizeReconstructs(pairLookup, classes, text);
    }
  }
}
