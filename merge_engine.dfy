/**
 * The byte-pair merge engine for one pre-token: split it into one-character
 * tokens, then repeatedly merge every non-overlapping occurrence of the
 * lowest-ranked adjacent pair until no adjacent pair is in the table.
 *
 * The functions here are the specification; the methods are the loops of
 * Gpt3Tokenizer.java, each proved equal to its function.
 */
module MergeEngine {
  import opened Wrappers
  import opened Symbols
  import opened BpeReader

  // ---------------------------------------------------------------------------
  // Initial tokens.
  // ---------------------------------------------------------------------------

  /** One single-character token per character, in order. */
  function InitialTokens(s: string): (tokens: seq<string>)
    ensures |tokens| == |s|
    ensures forall i :: 0 <= i < |s| ==> tokens[i] == [s[i]]
    ensures Concat(tokens) == s
  {
    if s == [] then []
    else
      var rest := InitialTokens(s[1..]);
      assert ([[s[0]]] + rest)[1..] == rest;
      [[s[0]]] + rest
  }

  /** The loop that takes substring(i, i + 1) for each index. */
  method InitializeTokens(preToken: string) returns (result: seq<string>)
    ensures result == InitialTokens(preToken)
  {
    result := [];
    for i := 0 to |preToken|
      invariant |result| == i
      invariant forall j :: 0 <= j < i ==> result[j] == [preToken[j]]
    {
      result := result + [preToken[i..i + 1]];
    }
    assert forall j :: 0 <= j < |preToken| ==> result[j] == InitialTokens(preToken)[j];
  }

  // ---------------------------------------------------------------------------
  // Adjacent pairs.
  // ---------------------------------------------------------------------------

  /** The pair that ends at index i. */
  function PairAt(tokens: seq<string>, i: int): SymbolPair
    requires 1 <= i < |tokens|
  {
    SymbolPair(tokens[i - 1], tokens[i])
  }

  /** The set of pairs of neighbouring tokens. */
  function AdjacentPairs(tokens: seq<string>): set<SymbolPair> {
    set i | 1 <= i < |tokens| :: PairAt(tokens, i)
  }

  lemma AdjacentPairsCons(tokens: seq<string>)
    requires |tokens| >= 2
    ensures AdjacentPairs(tokens) == {SymbolPair(tokens[0], tokens[1])} + AdjacentPairs(tokens[1..])
  {
    var rest := tokens[1..];
    assert PairAt(tokens, 1) in AdjacentPairs(tokens);
    forall p | p in AdjacentPairs(tokens)
      ensures p in {SymbolPair(tokens[0], tokens[1])} + AdjacentPairs(rest)
    {
      var i :| 1 <= i < |tokens| && p == PairAt(tokens, i);
      if i > 1 {
        assert p == PairAt(rest, i - 1);
      }
    }
    forall p | p in AdjacentPairs(rest)
      ensures p in AdjacentPairs(tokens)
    {
      var i :| 1 <= i < |rest| && p == PairAt(rest, i);
      assert p == PairAt(tokens, i + 1);
    }
  }

  /** The loop that adds (tokens[i-1], tokens[i]) to a hash set for each i ≥ 1. */
  method GeneratePairs(tokens: seq<string>) returns (pairs: set<SymbolPair>)
    ensures forall p :: p in pairs <==> exists i :: 1 <= i < |tokens| && p == PairAt(tokens, i)
    ensures |tokens| < 2 ==> pairs == {}
    ensures pairs == AdjacentPairs(tokens)
  {
    pairs := {};
    var i := 1;
    while i < |tokens|
      invariant 1 <= i <= |tokens| || (|tokens| == 0 && i == 1)
      invariant pairs == set j | 1 <= j < i :: PairAt(tokens, j)
    {
      var previous := tokens[i - 1];
      var current := tokens[i];
      pairs := pairs + {SymbolPair(previous, current)};
      assert (set j | 1 <= j < i + 1 :: PairAt(tokens, j)) == (set j | 1 <= j < i :: PairAt(tokens, j)) + {PairAt(tokens, i)};
      i := i + 1;
    }
  }

  // ---------------------------------------------------------------------------
  // One merge pass.
  // ---------------------------------------------------------------------------

  /**
   * The left-to-right pass: an occurrence of (first, second) becomes one
   * merged token and the scan resumes after it; every other token is kept.
   */
  function Merge(pair: SymbolPair, tokens: seq<string>): seq<string>
    decreases |tokens|
  {
    if |tokens| >= 2 && tokens[0] == pair.first && tokens[1] == pair.second then
      [pair.Merged()] + Merge(pair, tokens[2..])
    else if tokens == [] then []
    else [tokens[0]] + Merge(pair, tokens[1..])
  }

  /** A merge pass leaves the spelled-out text unchanged. */
  lemma {:induction false} MergePreservesConcat(pair: SymbolPair, tokens: seq<string>)
    ensures Concat(Merge(pair, tokens)) == Concat(tokens)
    decreases |tokens|
  {
    if |tokens| >= 2 && tokens[0] == pair.first && tokens[1] == pair.second {
      var rest := Merge(pair, tokens[2..]);
      MergePreservesConcat(pair, tokens[2..]);
      ConcatAppend([pair.Merged()], rest);
      assert Concat([pair.Merged()]) == pair.Merged() by {
        assert [pair.Merged()][1..] == [];
      }
      assert tokens[1..][1..] == tokens[2..];
      assert Concat(tokens) == tokens[0] + (tokens[1] + Concat(tokens[2..]));
    } else if tokens != [] {
      MergePreservesConcat(pair, tokens[1..]);
      ConcatAppend([tokens[0]], Merge(pair, tokens[1..]));
      assert Concat([tokens[0]]) == tokens[0] by {
        assert [tokens[0]][1..] == [];
      }
    }
  }

  /**
   * A pass never lengthens the list; it shortens it exactly when the pair
   * occurs adjacently, and otherwise leaves it as it was.
   */
  lemma {:induction false} MergeLength(pair: SymbolPair, tokens: seq<string>)
    ensures |Merge(pair, tokens)| <= |tokens|
    ensures |Merge(pair, tokens)| < |tokens| <==> pair in AdjacentPairs(tokens)
    ensures pair !in AdjacentPairs(tokens) ==> Merge(pair, tokens) == tokens
    decreases |tokens|
  {
    if |tokens| >= 2 && tokens[0] == pair.first && tokens[1] == pair.second {
      MergeLength(pair, tokens[2..]);
      AdjacentPairsCons(tokens);
    } else if tokens != [] {
      MergeLength(pair, tokens[1..]);
      if |tokens| >= 2 {
        AdjacentPairsCons(tokens);
      } else {
        assert AdjacentPairs(tokens) == {};
        assert tokens[1..] == [];
      }
      assert tokens == [tokens[0]] + tokens[1..];
    }
  }

  /**
   * The pass reads left to right and never looks back: occurrences do not
   * overlap, so (a, a) on "a a a" merges only the first two, and a merged
   * token is not scanned again: with an empty second half the merged token
   * equals the first half, yet (a, "") on a, "", "" merges only once.
   */
  lemma MergeLeftToRight()
    ensures Merge(SymbolPair("a", "a"), ["a", "a", "a"]) == ["aa", "a"]
    ensures Merge(SymbolPair("a", ""), ["a", "", ""]) == ["a", ""]
  {
    var p := SymbolPair("a", "a");
    assert p.Merged() == "aa";
    assert ["a", "a", "a"][2..] == ["a"];
    assert ["a"][1..] == [];
    assert Merge(p, ["a"]) == ["a"];
    var q := SymbolPair("a", "");
    assert q.Merged() == "a";
    assert ["a", "", ""][2..] == [""];
    assert [""][1..] == [];
    assert Merge(q, [""]) == [""];
  }

  /** Merging from position i: a match there is replaced by the merged token, anything else is kept. */
  lemma MergeFrom(pair: SymbolPair, tokens: seq<string>, i: nat)
    requires i < |tokens|
    ensures i + 1 < |tokens| && tokens[i] == pair.first && tokens[i + 1] == pair.second ==>
            Merge(pair, tokens[i..]) == [pair.Merged()] + Merge(pair, tokens[i + 2..])
    ensures !(i + 1 < |tokens| && tokens[i] == pair.first && tokens[i + 1] == pair.second) ==>
            Merge(pair, tokens[i..]) == [tokens[i]] + Merge(pair, tokens[i + 1..])
  {
    if i + 1 < |tokens| {
      assert tokens[i..][2..] == tokens[i + 2..];
    }
    assert tokens[i..][1..] == tokens[i + 1..];
  }

  lemma SeqAppendAssoc<T>(done: seq<T>, x: T, rest: seq<T>, all: seq<T>)
    requires done + ([x] + rest) == all
    ensures (done + [x]) + rest == all
  {
    assert (done + [x]) + rest == done + ([x] + rest);
  }

  /** The Java pass of `mergeTokensByPair`, advancing the index past both tokens of a merge. */
  method MergeTokensByPair(pair: SymbolPair, tokens: seq<string>) returns (newTokens: seq<string>)
    ensures newTokens == Merge(pair, tokens)
  {
    newTokens := [];
    var sourceLength := |tokens|;
    var i := 0;
    while i < sourceLength
      invariant 0 <= i <= sourceLength
      invariant newTokens + Merge(pair, tokens[i..]) == Merge(pair, tokens)
    {
      var current := tokens[i];
      MergeFrom(pair, tokens, i);
      if i < sourceLength - 1 && current == pair.first {
        var next := tokens[i + 1];
        if next == pair.second {
          SeqAppendAssoc(newTokens, pair.Merged(), Merge(pair, tokens[i + 2..]), Merge(pair, tokens));
          newTokens := newTokens + [pair.Merged()];
          i := i + 2;
          continue;
        }
      }
      SeqAppendAssoc(newTokens, current, Merge(pair, tokens[i + 1..]), Merge(pair, tokens));
      newTokens := newTokens + [current];
      i := i + 1;
    }
    assert tokens[i..] == [];
  }

  // ---------------------------------------------------------------------------
  // The merge loop.
  // ---------------------------------------------------------------------------

  /** Merges the lowest-ranked adjacent pair until no adjacent pair is in the table. */
  ghost function MergeToFixpoint(table: RankTable, tokens: seq<string>): seq<string>
    decreases |tokens|
  {
    match MinRankPair(table, AdjacentPairs(tokens))
    case None => tokens
    case Some(pair) =>
      MergeLength(pair, tokens);
      MergeToFixpoint(table, Merge(pair, tokens))
  }

  /** How many merge passes the loop runs before it stops. */
  ghost function MergeSteps(table: RankTable, tokens: seq<string>): nat
    decreases |tokens|
  {
    match MinRankPair(table, AdjacentPairs(tokens))
    case None => 0
    case Some(pair) =>
      MergeLength(pair, tokens);
      1 + MergeSteps(table, Merge(pair, tokens))
  }

  /** The final token list of one pre-token. */
  ghost function BpeTokens(table: RankTable, preToken: string): seq<string> {
    MergeToFixpoint(table, InitialTokens(preToken))
  }

  /** Merging to the fixpoint leaves the spelled-out text unchanged. */
  lemma {:induction false} FixpointPreservesConcat(table: RankTable, tokens: seq<string>)
    ensures Concat(MergeToFixpoint(table, tokens)) == Concat(tokens)
    decreases |tokens|
  {
    match MinRankPair(table, AdjacentPairs(tokens))
    case None =>
    case Some(pair) =>
      MergeLength(pair, tokens);
      MergePreservesConcat(pair, tokens);
      FixpointPreservesConcat(table, Merge(pair, tokens));
  }

  /** The loop's exit condition holds of its result: no adjacent pair has a rank. */
  lemma {:induction false} FixpointIsFinal(table: RankTable, tokens: seq<string>)
    ensures forall p :: p in AdjacentPairs(MergeToFixpoint(table, tokens)) ==> p !in table
    decreases |tokens|
  {
    match MinRankPair(table, AdjacentPairs(tokens))
    case None =>
    case Some(pair) =>
      MergeLength(pair, tokens);
      FixpointIsFinal(table, Merge(pair, tokens));
  }

  /** Each pass removes at least one token, and a non-empty list stays non-empty. */
  lemma {:induction false} StepsBound(table: RankTable, tokens: seq<string>)
    ensures MergeSteps(table, tokens) + |MergeToFixpoint(table, tokens)| <= |tokens|
    ensures tokens != [] ==> MergeToFixpoint(table, tokens) != []
    decreases |tokens|
  {
    match MinRankPair(table, AdjacentPairs(tokens))
    case None =>
    case Some(pair) =>
      MergeLength(pair, tokens);
      StepsBound(table, Merge(pair, tokens));
  }

  /** A pre-token of n ≥ 1 characters takes at most n - 1 merge passes. */
  lemma BpeIterationBound(table: RankTable, preToken: string)
    requires preToken != []
    ensures MergeSteps(table, InitialTokens(preToken)) <= |preToken| - 1
  {
    StepsBound(table, InitialTokens(preToken));
  }

  /** The final tokens spell out the pre-token, and none of their adjacent pairs has a rank. */
  lemma BpeTokensCorrect(table: RankTable, preToken: string)
    ensures Concat(BpeTokens(table, preToken)) == preToken
    ensures forall p :: p in AdjacentPairs(BpeTokens(table, preToken)) ==> p !in table
    ensures |BpeTokens(table, preToken)| <= |preToken|
  {
    FixpointPreservesConcat(table, InitialTokens(preToken));
    FixpointIsFinal(table, InitialTokens(preToken));
    StepsBound(table, InitialTokens(preToken));
  }

  /** When no pair of neighbouring characters is in the table, every character stays its own token. */
  lemma BpeUnmergeable(table: RankTable, preToken: string)
    requires forall i :: 1 <= i < |preToken| ==> SymbolPair([preToken[i - 1]], [preToken[i]]) !in table
    ensures BpeTokens(table, preToken) == InitialTokens(preToken)
  {
    var tokens := InitialTokens(preToken);
    forall p | p in AdjacentPairs(tokens)
      ensures p !in table
    {
      var i :| 1 <= i < |tokens| && p == PairAt(tokens, i);
    }
  }
}
