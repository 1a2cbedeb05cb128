/**
 * The pre-tokenizer: the tokenizer's fixed pattern
 *
 *   's|'t|'re|'ve|'m|'ll|'d| ?\p{L}+| ?\p{N}+| ?[^\s\p{L}\p{N}]+|\s+(?!\S)|\s+
 *
 * applied repeatedly with leftmost-first alternation, written as a scanner.
 * The Unicode categories behind \p{L}, \p{N} and \s are a parameter.
 */
module PreTokenizer {
  import opened Wrappers
  import opened Symbols

  /** Membership in the Unicode categories letter (\p{L}), number (\p{N}) and white space (\s). */
  datatype CharClasses = CharClasses(isLetter: char -> bool, isNumber: char -> bool, isSpace: char -> bool)

  /** The class [^\s\p{L}\p{N}]. */
  predicate IsOther(cc: CharClasses, c: char) {
    !cc.isSpace(c) && !cc.isLetter(c) && !cc.isNumber(c)
  }

  /** The first seven alternatives, in the pattern's order. */
  const Contractions: seq<string> := ["'s", "'t", "'re", "'ve", "'m", "'ll", "'d"]

  /** The length of the longest prefix of s whose characters all satisfy p (a greedy repetition). */
  function RunLength(p: char -> bool, s: string): (n: nat)
    ensures n <= |s|
    ensures forall i :: 0 <= i < n ==> p(s[i])
    ensures n < |s| ==> !p(s[n])
  {
    if s == [] || !p(s[0]) then 0 else 1 + RunLength(p, s[1..])
  }

  /** The contraction alternatives from index k on: the first that is a prefix of s. */
  function ContractionMatch(s: string, k: nat): Option<nat>
    requires k <= |Contractions|
    decreases |Contractions| - k
  {
    if k == |Contractions| then None
    else if Contractions[k] <= s then Some(|Contractions[k]|)
    else ContractionMatch(s, k + 1)
  }

  /** ` ?X+`: the optional space is taken when X+ can follow it, and given back otherwise. */
  function OptionalSpaceRun(p: char -> bool, s: string): Option<nat> {
    if |s| >= 2 && s[0] == ' ' && p(s[1]) then Some(1 + RunLength(p, s[1..]))
    else if s != [] && p(s[0]) then Some(RunLength(p, s))
    else None
  }

  /**
   * `\s+(?!\S)`: the whole white-space run when it reaches the end of the
   * text; otherwise the run less its last character, which must leave at
   * least one.
   */
  function TrailingSpaceRun(cc: CharClasses, s: string): Option<nat> {
    var r := RunLength(cc.isSpace, s);
    if r == 0 then None
    else if r == |s| then Some(r)
    else if r >= 2 then Some(r - 1)
    else None
  }

  /** `\s+`. */
  function SpaceRun(cc: CharClasses, s: string): Option<nat> {
    var r := RunLength(cc.isSpace, s);
    if r == 0 then None else Some(r)
  }

  /**
   * The length of the pattern's match at the start of s: the first
   * alternative that matches wins. Every non-empty text has a non-empty
   * match, since each character is a letter, a number, white space or none
   * of these.
   */
  function MatchAt(cc: CharClasses, s: string): (r: Option<nat>)
    ensures r.Some? ==> 1 <= r.value <= |s|
    ensures s != [] ==> r.Some?
  {
    var contraction := ContractionMatch(s, 0);
    if contraction.Some? then contraction else
    var letters := OptionalSpaceRun(cc.isLetter, s);
    if letters.Some? then letters else
    var numbers := OptionalSpaceRun(cc.isNumber, s);
    if numbers.Some? then numbers else
    var others := OptionalSpaceRun(c => IsOther(cc, c), s);
    if others.Some? then others else
    var trailing := TrailingSpaceRun(cc, s);
    if trailing.Some? then trailing else
    SpaceRun(cc, s)
  }

  /**
   * The chunks the matcher finds, left to right. Each search starts where
   * the previous match ended, and a match is found right there.
   */
  function PreTokens(cc: CharClasses, s: string): seq<string>
    decreases |s|
  {
    if s == [] then []
    else
      var n := MatchAt(cc, s).value;
      [s[..n]] + PreTokens(cc, s[n..])
  }

  /** The first chunk of a non-empty text is its match; the rest are the chunks of what follows. */
  lemma PreTokensCons(cc: CharClasses, s: string, n: nat)
    requires MatchAt(cc, s) == Some(n)
    requires s != []
    ensures n <= |s|
    ensures PreTokens(cc, s) == [s[..n]] + PreTokens(cc, s[n..])
  {
  }

  /** A run of X with an optional leading space. */
  predicate IsOptionalSpaceRun(p: char -> bool, chunk: string) {
    (chunk != [] && forall i :: 0 <= i < |chunk| ==> p(chunk[i])) ||
    (|chunk| >= 2 && chunk[0] == ' ' && forall i :: 1 <= i < |chunk| ==> p(chunk[i]))
  }

  /** What one of the pattern's alternatives can match. */
  predicate IsChunk(cc: CharClasses, chunk: string) {
    chunk in Contractions ||
    IsOptionalSpaceRun(cc.isLetter, chunk) ||
    IsOptionalSpaceRun(cc.isNumber, chunk) ||
    IsOptionalSpaceRun(c => IsOther(cc, c), chunk) ||
    (chunk != [] && forall i :: 0 <= i < |chunk| ==> cc.isSpace(chunk[i]))
  }

  lemma {:induction false} ContractionMatchShape(s: string, k: nat)
    requires k <= |Contractions|
    requires ContractionMatch(s, k).Some?
    ensures s[..ContractionMatch(s, k).value] in Contractions
    decreases |Contractions| - k
  {
    if Contractions[k] <= s {
      assert s[..|Contractions[k]|] == Contractions[k];
    } else {
      ContractionMatchShape(s, k + 1);
    }
  }

  lemma OptionalSpaceRunShape(p: char -> bool, s: string)
    requires OptionalSpaceRun(p, s).Some?
    ensures OptionalSpaceRun(p, s).value <= |s|
    ensures IsOptionalSpaceRun(p, s[..OptionalSpaceRun(p, s).value])
  {
    var n := OptionalSpaceRun(p, s).value;
    if |s| >= 2 && s[0] == ' ' && p(s[1]) {
      var chunk := s[..n];
      assert forall i :: 1 <= i < |chunk| ==> chunk[i] == s[1..][i - 1];
    }
  }

  /** Every match is a contraction, a run of letters, numbers or other characters after an optional space, or a white-space run. */
  lemma MatchAtShape(cc: CharClasses, s: string)
    requires s != []
    ensures IsChunk(cc, s[..MatchAt(cc, s).value])
  {
    var n := MatchAt(cc, s).value;
    if ContractionMatch(s, 0).Some? {
      ContractionMatchShape(s, 0);
    } else if OptionalSpaceRun(cc.isLetter, s).Some? {
      OptionalSpaceRunShape(cc.isLetter, s);
    } else if OptionalSpaceRun(cc.isNumber, s).Some? {
      OptionalSpaceRunShape(cc.isNumber, s);
    } else if OptionalSpaceRun(c => IsOther(cc, c), s).Some? {
      OptionalSpaceRunShape(c => IsOther(cc, c), s);
    }
  }

  /** The chunks tile the text: together they spell it out, nothing dropped or repeated. */
  lemma {:induction false} PreTokensTile(cc: CharClasses, s: string)
    ensures Concat(PreTokens(cc, s)) == s
    decreases |s|
  {
    if s != [] {
      var n := MatchAt(cc, s).value;
      PreTokensCons(cc, s, n);
      var rest := PreTokens(cc, s[n..]);
      var chunks := [s[..n]] + rest;
      PreTokensTile(cc, s[n..]);
      assert chunks[0] == s[..n] && chunks[1..] == rest;
      assert Concat(chunks) == s[..n] + Concat(rest);
      assert s == s[..n] + s[n..];
    }
  }

  /** Every chunk is non-empty and is a match of one of the pattern's alternatives. */
  lemma {:induction false} PreTokensShape(cc: CharClasses, s: string)
    ensures forall k :: 0 <= k < |PreTokens(cc, s)| ==> PreTokens(cc, s)[k] != [] && IsChunk(cc, PreTokens(cc, s)[k])
    decreases |s|
  {
    if s != [] {
      var n := MatchAt(cc, s).value;
      PreTokensCons(cc, s, n);
      var rest := PreTokens(cc, s[n..]);
      var chunks := [s[..n]] + rest;
      PreTokensShape(cc, s[n..]);
      MatchAtShape(cc, s);
      forall k | 0 <= k < |chunks|
        ensures chunks[k] != [] && IsChunk(cc, chunks[k])
      {
        if k > 0 {
          assert chunks[k] == rest[k - 1];
        }
      }
    }
  }

  /** A run of p followed by a character outside p, or by the end, is measured exactly. */
  lemma {:induction false} RunLengthOf(p: char -> bool, w: string, rest: string)
    requires forall i :: 0 <= i < |w| ==> p(w[i])
    requires rest != [] ==> !p(rest[0])
    ensures RunLength(p, w + rest) == |w|
  {
    if w != [] {
      assert (w + rest)[1..] == w[1..] + rest;
      RunLengthOf(p, w[1..], rest);
    } else {
      assert w + rest == rest;
    }
  }

  lemma {:induction false} NoContraction(s: string, k: nat)
    requires k <= |Contractions|
    requires s == [] || s[0] != '\''
    ensures ContractionMatch(s, k).None?
    decreases |Contractions| - k
  {
    if k < |Contractions| {
      assert Contractions[k][0] == '\'';
      NoContraction(s, k + 1);
    }
  }

  /** A word that does not start with an apostrophe is matched whole by ` ?\p{L}+`. */
  lemma WordMatch(cc: CharClasses, w: string, rest: string)
    requires w != [] && w[0] != '\''
    requires forall i :: 0 <= i < |w| ==> cc.isLetter(w[i])
    requires rest != [] ==> !cc.isLetter(rest[0])
    ensures MatchAt(cc, w + rest) == Some(|w|)
  {
    NoContraction(w + rest, 0);
    RunLengthOf(cc.isLetter, w, rest);
    if |w + rest| >= 2 && w[0] == ' ' && cc.isLetter((w + rest)[1]) {
      assert (w + rest)[1..] == w[1..] + rest;
      RunLengthOf(cc.isLetter, w[1..], rest);
    }
  }

  /** A space followed by a word is matched whole by ` ?\p{L}+`. */
  lemma SpaceWordMatch(cc: CharClasses, w: string, rest: string)
    requires w != []
    requires forall i :: 0 <= i < |w| ==> cc.isLetter(w[i])
    requires rest != [] ==> !cc.isLetter(rest[0])
    ensures MatchAt(cc, [' '] + w + rest) == Some(|w| + 1)
  {
    var s := [' '] + w + rest;
    NoContraction(s, 0);
    assert s[1..] == w + rest;
    RunLengthOf(cc.isLetter, w, rest);
  }

  /**
   * The converse of PreTokensTile: a list of non-empty chunks, each of which
   * is the match found where it starts, is exactly what the matcher yields.
   */
  lemma {:induction false} PreTokensOf(cc: CharClasses, chunks: seq<string>)
    requires forall k :: 0 <= k < |chunks| ==> chunks[k] != [] && MatchAt(cc, Concat(chunks[k..])) == Some(|chunks[k]|)
    ensures PreTokens(cc, Concat(chunks)) == chunks
  {
    if chunks != [] {
      var s := Concat(chunks);
      var rest := chunks[1..];
      assert chunks[0..] == chunks;
      assert s == chunks[0] + Concat(rest);
      PreTokensCons(cc, s, |chunks[0]|);
      assert s[..|chunks[0]|] == chunks[0] && s[|chunks[0]|..] == Concat(rest);
      forall k | 0 <= k < |rest|
        ensures rest[k] != [] && MatchAt(cc, Concat(rest[k..])) == Some(|rest[k]|)
      {
        assert rest[k..] == chunks[k + 1..];
      }
      PreTokensOf(cc, rest);
    }
  }

  /** Letters and a space: "Hello world" is split into "Hello" and " world". */
  lemma HelloWorldChunks(cc: CharClasses)
    requires cc.isLetter('H') && cc.isLetter('e') && cc.isLetter('l') && cc.isLetter('o')
    requires cc.isLetter('w') && cc.isLetter('r') && cc.isLetter('d')
    requires !cc.isLetter(' ')
    ensures PreTokens(cc, "Hello world") == ["Hello", " world"]
  {
    var hello, world := "Hello", "world";
    var chunks := [hello, " world"];
    forall i | 0 <= i < 5 ensures cc.isLetter(hello[i]) && cc.isLetter(world[i]) {
      if i == 0 {} else if i == 1 {} else if i == 2 {} else if i == 3 {} else {}
    }
    assert Concat(chunks[1..]) == " world" by {
      assert chunks[1..][1..] == [];
      assert " world" + [] == " world";
    }
    assert Concat(chunks) == "Hello world" by {
      assert hello + " world" == "Hello world";
    }
    assert MatchAt(cc, Concat(chunks)) == Some(5) by {
      WordMatch(cc, hello, " world");
    }
    assert MatchAt(cc, Concat(chunks[1..])) == Some(6) by {
      assert " world" == [' '] + world + [];
      SpaceWordMatch(cc, world, []);
    }
    forall k | 0 <= k < |chunks|
      ensures chunks[k] != [] && MatchAt(cc, Concat(chunks[k..])) == Some(|chunks[k]|)
    {
      if k == 0 {
        assert chunks[0..] == chunks;
      }
    }
    PreTokensOf(cc, chunks);
  }

  /** A white-space run of two or more before a non-space is matched by `\s+(?!\S)` less its last character. */
  lemma SpacesBeforeNonSpace(cc: CharClasses, sp: string, rest: string)
    requires |sp| >= 2
    requires forall i :: 0 <= i < |sp| ==> cc.isSpace(sp[i]) && !cc.isLetter(sp[i]) && !cc.isNumber(sp[i])
    requires sp[0] != '\''
    requires rest != [] && !cc.isSpace(rest[0])
    ensures MatchAt(cc, sp + rest) == Some(|sp| - 1)
  {
    var s := sp + rest;
    NoContraction(s, 0);
    RunLengthOf(cc.isSpace, sp, rest);
    assert s[0] == sp[0] && s[1] == sp[1];
    assert !IsOther(cc, s[0]) && !IsOther(cc, s[1]);
  }

  /**
   * A white-space run before a word gives its last character to the word:
   * "a  b" is split into "a", " " and " b".
   */
  lemma SpaceRunYieldsLastSpace(cc: CharClasses)
    requires cc.isLetter('a') && cc.isLetter('b') && !cc.isLetter(' ')
    requires cc.isSpace(' ') && !cc.isSpace('b')
    requires !cc.isNumber(' ')
    ensures PreTokens(cc, "a  b") == ["a", " ", " b"]
  {
    var chunks := ["a", " ", " b"];
    assert Concat(chunks[2..]) == " b" by {
      assert chunks[2..][1..] == [];
      assert " b" + [] == " b";
    }
    assert Concat(chunks[1..]) == "  b" by {
      assert chunks[1..][1..] == chunks[2..];
    }
    assert Concat(chunks) == "a  b" by {
      assert chunks[1..] == chunks[1..];
    }
    assert MatchAt(cc, Concat(chunks)) == Some(1) by {
      assert "a  b" == "a" + "  b";
      WordMatch(cc, "a", "  b");
    }
    assert MatchAt(cc, Concat(chunks[1..])) == Some(1) by {
      assert "  b" == "  " + "b";
      SpacesBeforeNonSpace(cc, "  ", "b");
    }
    assert MatchAt(cc, Concat(chunks[2..])) == Some(2) by {
      assert " b" == [' '] + "b" + [];
      SpaceWordMatch(cc, "b", []);
    }
    forall k | 0 <= k < |chunks|
      ensures chunks[k] != [] && MatchAt(cc, Concat(chunks[k..])) == Some(|chunks[k]|)
    {
      if k == 0 {
        assert chunks[0..] == chunks;
      }
    }
    PreTokensOf(cc, chunks);
  }
}
