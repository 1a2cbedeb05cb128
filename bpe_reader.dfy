/**
 * The merge-rank table: parsing of the merge-rule resource into a map from
 * symbol pair to rank, and the selection of the lowest-ranked candidate pair.
 *
 * The resource is given as its lines. Its first line is a header; every
 * further line holds one rule, two fields in the visible-codepoint encoding,
 * and the rule's rank is its zero-based position among those lines.
 */
module BpeReader {
  import opened Wrappers
  import opened Symbols
  import opened ByteMapping

  /** Why loading the resource aborted. */
  datatype LoadError =
    | MissingResource            // the resource could not be found
    | MalformedLine(line: string) // a rule line without exactly two fields
    | UnmappedCodepoint          // a field holds a codepoint with no entry in the codepoint map
    | DuplicatePair              // the same pair occurs on two rule lines

  /** Ranks are unique: no two pairs share one. */
  ghost predicate UniqueRanks(t: map<SymbolPair, nat>) {
    forall p, q :: p in t && q in t && t[p] == t[q] ==> p == q
  }

  /** The loaded table: pair -> rank, lower rank merges first. */
  type RankTable = t: map<SymbolPair, nat> | UniqueRanks(t) witness map[]

  // ---------------------------------------------------------------------------
  // Splitting a line the way String.split("\\s") does.
  // ---------------------------------------------------------------------------

  /** The characters `\s` matches without Unicode character classes: space, \t, \n, \x0B, \f, \r. */
  predicate IsSplitSpace(c: char) {
    c == ' ' || 9 <= c as int <= 13
  }

  predicate NoSplitSpace(s: string) {
    forall i :: 0 <= i < |s| ==> !IsSplitSpace(s[i])
  }

  /** The fields between separator characters, including empty ones at either end. */
  function Fields(s: string): (fs: seq<string>)
    ensures |fs| >= 1
  {
    if s == [] then [[]]
    else
      var rest := Fields(s[1..]);
      if IsSplitSpace(s[0]) then [[]] + rest else [[s[0]] + rest[0]] + rest[1..]
  }

  function DropTrailingEmpty(fs: seq<string>): seq<string> {
    if fs != [] && fs[|fs| - 1] == [] then DropTrailingEmpty(fs[..|fs| - 1]) else fs
  }

  /**
   * String.split with the default limit: the whole string when no separator
   * occurs, otherwise the fields with the trailing empty ones removed.
   */
  function Split(s: string): seq<string> {
    if NoSplitSpace(s) then [s] else DropTrailingEmpty(Fields(s))
  }

  /** Fields separated by single spaces. */
  function Join(fs: seq<string>): string
    requires |fs| >= 1
  {
    if |fs| == 1 then fs[0] else fs[0] + [' '] + Join(fs[1..])
  }

  lemma {:induction false} FieldsPrefix(a: string, t: string)
    requires NoSplitSpace(a)
    ensures Fields(a + t) == [a + Fields(t)[0]] + Fields(t)[1..]
  {
    if a != [] {
      assert (a + t)[1..] == a[1..] + t;
      FieldsPrefix(a[1..], t);
      assert [a[0]] + (a[1..] + Fields(t)[0]) == a + Fields(t)[0];
    } else {
      assert a + t == t;
      assert a + Fields(t)[0] == Fields(t)[0];
      assert Fields(t) == [Fields(t)[0]] + Fields(t)[1..];
    }
  }

  lemma {:induction false} FieldsJoin(fs: seq<string>)
    requires |fs| >= 1
    requires forall k :: 0 <= k < |fs| ==> NoSplitSpace(fs[k])
    ensures Fields(Join(fs)) == fs
  {
    if |fs| == 1 {
      FieldsPrefix(fs[0], []);
      assert fs[0] + [] == fs[0];
      assert Fields([]) == [[]];
    } else {
      var t := [' '] + Join(fs[1..]);
      assert Join(fs) == fs[0] + t;
      FieldsPrefix(fs[0], t);
      FieldsJoin(fs[1..]);
      assert t[1..] == Join(fs[1..]);
      assert Fields(t) == [[]] + fs[1..];
      assert fs[0] + [] == fs[0];
    }
  }

  /** Splitting undoes joining, whenever no field holds a separator and the last field is not empty. */
  lemma SplitJoin(fs: seq<string>)
    requires |fs| >= 2
    requires forall k :: 0 <= k < |fs| ==> NoSplitSpace(fs[k])
    requires fs[|fs| - 1] != []
    ensures Split(Join(fs)) == fs
  {
    FieldsJoin(fs);
    var j := Join(fs);
    assert j == fs[0] + [' '] + Join(fs[1..]);
    assert j[|fs[0]|] == ' ';
  }

  /** Trailing separators are dropped: "a b " still splits into two fields. */
  lemma SplitDropsTrailingSeparators()
    ensures Split("a b ") == ["a", "b"]
  {
    assert Fields(" ") == [[], []] by {
      assert " "[1..] == [];
    }
    assert Fields("b ") == ["b", []] by {
      FieldsPrefix("b", " ");
      assert "b " == "b" + " ";
      assert Fields(" ")[0] == [] && Fields(" ")[1..] == [[]];
      assert "b" + [] == "b";
    }
    assert Fields(" b ") == [[], "b", []] by {
      assert " b "[1..] == "b ";
    }
    assert Fields("a b ") == ["a", "b", []] by {
      FieldsPrefix("a", " b ");
      assert "a b " == "a" + " b ";
      assert Fields(" b ")[0] == [] && Fields(" b ")[1..] == ["b", []];
      assert "a" + [] == "a";
    }
    assert !NoSplitSpace("a b ") by {
      assert "a b "[1] == ' ';
    }
    assert ["a", "b", []][..2] == ["a", "b"];
  }

  /** A doubled separator yields an empty middle field: "a  b" has three fields. */
  lemma SplitKeepsInnerEmptyFields()
    ensures Split("a  b") == ["a", [], "b"]
  {
    assert Fields("b") == ["b"] by {
      FieldsPrefix("b", []);
      assert "b" == "b" + [];
    }
    assert Fields(" b") == [[], "b"] by {
      assert " b"[1..] == "b";
    }
    assert Fields("  b") == [[], [], "b"] by {
      assert "  b"[1..] == " b";
    }
    assert Fields("a  b") == ["a", [], "b"] by {
      FieldsPrefix("a", "  b");
      assert "a  b" == "a" + "  b";
      assert Fields("  b")[0] == [] && Fields("  b")[1..] == [[], "b"];
      assert "a" + [] == "a";
    }
    assert !NoSplitSpace("a  b") by {
      assert "a  b"[1] == ' ';
    }
  }

  // ---------------------------------------------------------------------------
  // Parsing rule lines.
  // ---------------------------------------------------------------------------

  /** The errors a single rule line can raise. */
  predicate IsLineError(e: LoadError) {
    e.MalformedLine? || e == UnmappedCodepoint
  }

  /** One rule line: exactly two fields, each decoded through the codepoint map. */
  function ParseLine(line: string, mapping: map<int, Byte>): (r: Result<SymbolPair, LoadError>)
    ensures r.Err? ==> IsLineError(r.error)
  {
    var fields := Split(line);
    if |fields| != 2 then Err(MalformedLine(line))
    else
      match (Rectify(fields[0], mapping), Rectify(fields[1], mapping))
      case (Some(first), Some(second)) => Ok(SymbolPair(first, second))
      case _ => Err(UnmappedCodepoint)
  }

  /** The rule line for a pair of raw byte strings, as the resource spells it. */
  function RuleLine(p: SymbolPair): string
    requires forall i :: 0 <= i < |p.first| ==> p.first[i] as int < 256
    requires forall i :: 0 <= i < |p.second| ==> p.second[i] as int < 256
  {
    Join([Visible(p.first), Visible(p.second)])
  }

  lemma {:induction false} VisibleHasNoSplitSpace(raw: string)
    requires forall i :: 0 <= i < |raw| ==> raw[i] as int < 256
    ensures NoSplitSpace(Visible(raw))
  {
    if raw != [] {
      VisibleHasNoSplitSpace(raw[1..]);
      VisibleOfBounds(raw[0] as int);
      var v := Visible(raw);
      assert v == [VisibleOf(raw[0] as int) as char] + Visible(raw[1..]);
      forall i | 0 <= i < |v| ensures !IsSplitSpace(v[i]) {
        if i > 0 { assert v[i] == Visible(raw[1..])[i - 1]; }
      }
    }
  }

  /** Reading a rule line recovers the pair it was written from (the second field must not be empty). */
  lemma ParseRuleLine(p: SymbolPair)
    requires forall i :: 0 <= i < |p.first| ==> p.first[i] as int < 256
    requires forall i :: 0 <= i < |p.second| ==> p.second[i] as int < 256
    requires p.second != []
    ensures ParseLine(RuleLine(p), CodepointMap()) == Ok(p)
  {
    VisibleHasNoSplitSpace(p.first);
    VisibleHasNoSplitSpace(p.second);
    SplitJoin([Visible(p.first), Visible(p.second)]);
    RectifyVisible(p.first);
    RectifyVisible(p.second);
  }

  /**
   * The rule lines mapped through ParseLine in order; the first line that
   * fails aborts with its error.
   */
  function ParseRules(rules: seq<string>, mapping: map<int, Byte>): (r: Result<seq<SymbolPair>, LoadError>)
    ensures r.Ok? ==> |r.value| == |rules|
    ensures r.Err? ==> IsLineError(r.error)
  {
    if rules == [] then Ok([])
    else
      match ParseLine(rules[0], mapping)
      case Err(e) => Err(e)
      case Ok(p) =>
        match ParseRules(rules[1..], mapping)
        case Err(e) => Err(e)
        case Ok(ps) => Ok([p] + ps)
  }

  /** A successful parse holds the pair of every line, in order. */
  lemma {:induction false} ParseRulesOk(rules: seq<string>, mapping: map<int, Byte>)
    requires ParseRules(rules, mapping).Ok?
    ensures forall k :: 0 <= k < |rules| ==> ParseLine(rules[k], mapping) == Ok(ParseRules(rules, mapping).value[k])
  {
    if rules != [] {
      var p := ParseLine(rules[0], mapping).value;
      var ps := ParseRules(rules[1..], mapping).value;
      ParseRulesOk(rules[1..], mapping);
      assert ParseRules(rules, mapping).value == [p] + ps;
      assert forall k :: 1 <= k < |rules| ==> rules[k] == rules[1..][k - 1];
    }
  }

  /** A failed parse carries the error of the first line that fails. */
  lemma {:induction false} ParseRulesFirstError(rules: seq<string>, mapping: map<int, Byte>)
    requires ParseRules(rules, mapping).Err?
    ensures exists k :: 0 <= k < |rules| && ParseLine(rules[k], mapping) == Err(ParseRules(rules, mapping).error) &&
                        forall j :: 0 <= j < k ==> ParseLine(rules[j], mapping).Ok?
  {
    var e := ParseRules(rules, mapping).error;
    if ParseLine(rules[0], mapping).Err? {
      assert ParseLine(rules[0], mapping) == Err(e);
    } else {
      ParseRulesFirstError(rules[1..], mapping);
      var k :| 0 <= k < |rules[1..]| && ParseLine(rules[1..][k], mapping) == Err(e) &&
               forall j :: 0 <= j < k ==> ParseLine(rules[1..][j], mapping).Ok?;
      assert rules[k + 1] == rules[1..][k];
      assert forall j :: 1 <= j < k + 1 ==> rules[j] == rules[1..][j - 1];
    }
  }

  /** The whole list parses exactly when every rule line does. */
  lemma ParseRulesOkIff(rules: seq<string>, mapping: map<int, Byte>)
    ensures ParseRules(rules, mapping).Ok? <==> forall k :: 0 <= k < |rules| ==> ParseLine(rules[k], mapping).Ok?
  {
    if ParseRules(rules, mapping).Ok? {
      ParseRulesOk(rules, mapping);
    } else {
      ParseRulesFirstError(rules, mapping);
    }
  }

  predicate Distinct(pairs: seq<SymbolPair>) {
    forall i, j :: 0 <= i < j < |pairs| ==> pairs[i] != pairs[j]
  }

  /** pair -> position, for a list without repeats. */
  function RankMap(pairs: seq<SymbolPair>): (t: RankTable)
    requires Distinct(pairs)
    ensures forall k :: 0 <= k < |pairs| ==> pairs[k] in t && t[pairs[k]] == k
    ensures forall p :: p in t ==> exists k :: 0 <= k < |pairs| && pairs[k] == p
  {
    var t := map k | 0 <= k < |pairs| :: pairs[k] := k;
    assert forall k :: 0 <= k < |pairs| ==> t[pairs[k]] == k;
    t
  }

  /** The rule lines: every line after the header. */
  function Rules(lines: seq<string>): seq<string> {
    if lines == [] then [] else lines[1..]
  }

  /**
   * Loads the table. None stands for a resource that could not be found.
   * A malformed line, an unmapped codepoint or a repeated pair aborts.
   */
  function LoadTable(resource: Option<seq<string>>): (r: Result<RankTable, LoadError>)
    ensures r == Err(MissingResource) <==> resource.None?
  {
    match resource
    case None => Err(MissingResource)
    case Some(lines) =>
      match ParseRules(Rules(lines), CodepointMap())
      case Err(e) => Err(e)
      case Ok(pairs) => if Distinct(pairs) then Ok(RankMap(pairs)) else Err(DuplicatePair)
  }

  /** The header line plays no part, and the i-th rule line (line i + 1) gets rank i. */
  lemma LoadedRanks(lines: seq<string>, t: RankTable)
    requires LoadTable(Some(lines)) == Ok(t)
    ensures forall k :: 1 <= k < |lines| ==> ParseLine(lines[k], CodepointMap()).Ok?
    ensures forall k :: 1 <= k < |lines| ==> ParseLine(lines[k], CodepointMap()).value in t &&
                                             t[ParseLine(lines[k], CodepointMap()).value] == k - 1
    ensures forall p :: p in t ==> exists k :: 1 <= k < |lines| && ParseLine(lines[k], CodepointMap()) == Ok(p)
  {
    var rules := Rules(lines);
    var pairs := ParseRules(rules, CodepointMap()).value;
    ParseRulesOk(rules, CodepointMap());
    assert Distinct(pairs) && t == RankMap(pairs);
    forall k | 1 <= k < |lines|
      ensures ParseLine(lines[k], CodepointMap()) == Ok(pairs[k - 1])
    {
      assert lines[k] == rules[k - 1];
    }
    forall p | p in t
      ensures exists k :: 1 <= k < |lines| && ParseLine(lines[k], CodepointMap()) == Ok(p)
    {
      var k :| 0 <= k < |pairs| && pairs[k] == p;
      assert ParseLine(lines[k + 1], CodepointMap()) == Ok(p);
    }
  }

  /** A rule line that does not split into exactly two fields aborts loading. */
  lemma LoadMalformed(lines: seq<string>, k: nat)
    requires 1 <= k < |lines|
    requires |Split(lines[k])| != 2
    ensures LoadTable(Some(lines)).Err?
  {
    assert Rules(lines)[k - 1] == lines[k];
    ParseRulesOkIff(Rules(lines), CodepointMap());
  }

  /** Two rule lines that spell the same pair abort loading. */
  lemma LoadDuplicate(lines: seq<string>, i: nat, j: nat)
    requires 1 <= i < j < |lines|
    requires forall k :: 1 <= k < |lines| ==> ParseLine(lines[k], CodepointMap()).Ok?
    requires ParseLine(lines[i], CodepointMap()) == ParseLine(lines[j], CodepointMap())
    ensures LoadTable(Some(lines)) == Err(DuplicatePair)
  {
    var rules := Rules(lines);
    assert forall k :: 0 <= k < |rules| ==> rules[k] == lines[k + 1];
    ParseRulesOkIff(rules, CodepointMap());
    var r := ParseRules(rules, CodepointMap());
    ParseRulesOk(rules, CodepointMap());
    assert r.value[i - 1] == r.value[j - 1];
  }

  /**
   * A resource loads exactly when every rule line parses and no two rule
   * lines give the same pair. Only the lines after the header appear here,
   * so the header has no say in whether loading succeeds.
   */
  lemma LoadSucceeds(lines: seq<string>)
    ensures LoadTable(Some(lines)).Ok? <==>
              (forall k :: 1 <= k < |lines| ==> ParseLine(lines[k], CodepointMap()).Ok?) &&
              (forall i, j :: 1 <= i < j < |lines| ==> ParseLine(lines[i], CodepointMap()) != ParseLine(lines[j], CodepointMap()))
  {
    var rules := Rules(lines);
    assert forall k :: 0 <= k < |rules| ==> rules[k] == lines[k + 1];
    ParseRulesOkIff(rules, CodepointMap());
    var r := ParseRules(rules, CodepointMap());
    if r.Ok? {
      ParseRulesOk(rules, CodepointMap());
      assert forall k :: 1 <= k < |lines| ==> ParseLine(lines[k], CodepointMap()) == Ok(r.value[k - 1]);
    }
  }

  /** Both halves of a parsed rule are byte strings: every character is a value of the map. */
  lemma ParsedPairIsBytes(line: string, mapping: map<int, Byte>, p: SymbolPair)
    requires ParseLine(line, mapping) == Ok(p)
    ensures forall i :: 0 <= i < |p.first| ==> p.first[i] as int < 256
    ensures forall i :: 0 <= i < |p.second| ==> p.second[i] as int < 256
  {
    var fields := Split(line);
    assert |fields| == 2;
    var first := Rectify(fields[0], mapping);
    var second := Rectify(fields[1], mapping);
    assert first.Some? && second.Some?;
    assert p == SymbolPair(first.value, second.value);
  }

  /** Every pair of a loaded table is made of raw bytes: each of its characters is below 256. */
  lemma LoadedPairsAreBytes(lines: seq<string>, t: RankTable)
    requires LoadTable(Some(lines)) == Ok(t)
    ensures forall p, i :: p in t && 0 <= i < |p.first| ==> p.first[i] as int < 256
    ensures forall p, i :: p in t && 0 <= i < |p.second| ==> p.second[i] as int < 256
  {
    LoadedRanks(lines, t);
    forall p | p in t
      ensures forall i :: 0 <= i < |p.first| ==> p.first[i] as int < 256
      ensures forall i :: 0 <= i < |p.second| ==> p.second[i] as int < 256
    {
      var k :| 1 <= k < |lines| && ParseLine(lines[k], CodepointMap()) == Ok(p);
      ParsedPairIsBytes(lines[k], CodepointMap(), p);
    }
  }

  // ---------------------------------------------------------------------------
  // Lowest-rank selection.
  // ---------------------------------------------------------------------------

  /** p is a candidate in the table whose rank no other such candidate undercuts. */
  ghost predicate IsMinRank(t: map<SymbolPair, nat>, pairs: set<SymbolPair>, p: SymbolPair) {
    p in pairs && p in t && forall q :: q in pairs && q in t ==> t[p] <= t[q]
  }

  lemma {:induction false} MinRankExists(t: map<SymbolPair, nat>, pairs: set<SymbolPair>)
    requires exists p :: p in pairs && p in t
    ensures exists p :: IsMinRank(t, pairs, p)
    decreases |pairs|
  {
    var x :| x in pairs && x in t;
    var rest := pairs - {x};
    if exists p :: p in rest && p in t {
      MinRankExists(t, rest);
      var m :| IsMinRank(t, rest, m);
      if t[x] < t[m] {
        assert IsMinRank(t, pairs, x);
      } else {
        assert IsMinRank(t, pairs, m);
      }
    } else {
      assert IsMinRank(t, pairs, x);
    }
  }

  /** The candidate with the lowest rank, or None when no candidate is in the table. */
  ghost function MinRankPair(t: RankTable, pairs: set<SymbolPair>): (r: Option<SymbolPair>)
    ensures r.None? <==> forall p :: p in pairs ==> p !in t
    ensures r.Some? ==> IsMinRank(t, pairs, r.value)
  {
    if exists p :: p in pairs && p in t then
      MinRankExists(t, pairs);
      var p :| IsMinRank(t, pairs, p);
      Some(p)
    else
      None
  }

  /** With unique ranks the lowest-ranked candidate is determined: there are no ties. */
  lemma MinRankUnique(t: RankTable, pairs: set<SymbolPair>, p: SymbolPair, q: SymbolPair)
    requires IsMinRank(t, pairs, p) && IsMinRank(t, pairs, q)
    ensures p == q
  {
  }

  /**
   * The scan over the candidate set, keeping the best pair seen so far.
   * `selectMinRankPair` starts minRank at Integer.MAX_VALUE; here "no pair yet" plays
   * that part, which agrees because every rank is a list index.
   */
  method SelectMinRankPair(pairLookup: RankTable, pairs: set<SymbolPair>) returns (minPair: Option<SymbolPair>)
    ensures minPair.None? <==> forall p :: p in pairs ==> p !in pairLookup
    ensures minPair.Some? ==> minPair.value in pairs && minPair.value in pairLookup
    ensures minPair.Some? ==> forall q :: q in pairs && q in pairLookup ==> pairLookup[minPair.value] <= pairLookup[q]
    ensures minPair == MinRankPair(pairLookup, pairs)
  {
    minPair := None;
    var minRank := 0;
    var remaining := pairs;
    while remaining != {}
      invariant remaining <= pairs
      invariant minPair.None? ==> forall p :: p in pairs - remaining ==> p !in pairLookup
      invariant minPair.Some? ==> minPair.value in pairs - remaining && minPair.value in pairLookup
      invariant minPair.Some? ==> minRank == pairLookup[minPair.value]
      invariant minPair.Some? ==> forall q :: q in pairs - remaining && q in pairLookup ==> minRank <= pairLookup[q]
      decreases |remaining|
    {
      var pair :| pair in remaining;
      if pair in pairLookup {
        var rank := pairLookup[pair];
        if minPair.None? || rank < minRank {
          minRank := rank;
          minPair := Some(pair);
        }
      }
      remaining := remaining - {pair};
    }
    if minPair.Some? {
      MinRankUnique(pairLookup, pairs, minPair.value, MinRankPair(pairLookup, pairs).value);
    }
  }
}
