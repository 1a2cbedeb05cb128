/** Token strings, symbol pairs and the concatenation of a token list. */
module Symbols {

  /**
   * An ordered pair of adjacent token strings. Equality is structural,
   * so pairs can key a map or populate a set.
   */
  datatype SymbolPair = SymbolPair(first: string, second: string) {

    /** The single token that replaces the pair when it is merged. */
    function Merged(): string {
      first + second
    }
  }

  /** The text a token list spells out. */
  function Concat(tokens: seq<string>): string {
    if tokens == [] then [] else tokens[0] + Concat(tokens[1..])
  }

  lemma {:induction false} ConcatAppend(a: seq<string>, b: seq<string>)
    ensures Concat(a + b) == Concat(a) + Concat(b)
  {
    if a == [] {
      assert a + b == b;
    } else {
      assert (a + b)[0] == a[0];
      assert (a + b)[1..] == a[1..] + b;
      ConcatAppend(a[1..], b);
    }
  }
}
