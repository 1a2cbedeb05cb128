/**
 * The byte <-> visible-codepoint translation used by the merge-rule resource.
 *
 * The resource stores every raw byte as a printable codepoint: a byte that is
 * already printable stands for itself, and each of the 68 control/format bytes
 * is given a synthetic codepoint 256, 257, ... in increasing byte order. The
 * reader inverts this with a map from visible codepoint to byte.
 */
module ByteMapping {
  import opened Wrappers

  /** A raw byte value. */
  type Byte = b: int | 0 <= b < 256

  /** The bytes that the resource cannot store as themselves. */
  predicate IsControl(i: int) {
    i < 33 || (126 < i < 161) || i == 173
  }

  /** How many control bytes lie below b: the counter's advance over 256 when the loop reaches b. */
  function ControlsBelow(b: nat): nat {
    if b == 0 then 0 else ControlsBelow(b - 1) + (if IsControl(b - 1) then 1 else 0)
  }

  /** The visible codepoint under which byte b appears in the resource. */
  function VisibleOf(b: Byte): int {
    if IsControl(b) then 256 + ControlsBelow(b) else b
  }

  /** The j-th control byte, counting from zero; the inverse of ControlsBelow on control bytes. */
  function ControlByteAt(j: int): Byte
    requires 0 <= j < 68
  {
    if j < 33 then j else if j < 67 then j + 94 else 173
  }

  lemma {:induction false} ControlsBelowClosedForm(b: nat)
    requires b <= 256
    ensures ControlsBelow(b) == if b <= 33 then b
                                else if b <= 127 then 33
                                else if b <= 161 then b - 94
                                else if b <= 173 then 67
                                else 68
  {
    if b > 0 {
      ControlsBelowClosedForm(b - 1);
    }
  }

  /** Printable bytes keep their value; control bytes receive synthetic codepoints in 256..323. */
  lemma VisibleOfBounds(b: Byte)
    ensures IsControl(b) <==> VisibleOf(b) >= 256
    ensures VisibleOf(b) < 324
  {
    ControlsBelowClosedForm(b);
  }

  /** Synthetic codepoints are handed out in increasing byte order. */
  lemma ControlOrder(b1: Byte, b2: Byte)
    requires IsControl(b1) && IsControl(b2) && b1 < b2
    ensures VisibleOf(b1) < VisibleOf(b2)
  {
    ControlsBelowClosedForm(b1);
    ControlsBelowClosedForm(b2);
  }

  lemma VisibleOfInjective()
    ensures forall b1: Byte, b2: Byte :: VisibleOf(b1) == VisibleOf(b2) ==> b1 == b2
  {
    forall b1: Byte, b2: Byte | VisibleOf(b1) == VisibleOf(b2)
      ensures b1 == b2
    {
      VisibleOfBounds(b1);
      VisibleOfBounds(b2);
      if IsControl(b1) && IsControl(b2) && b1 != b2 {
        if b1 < b2 { ControlOrder(b1, b2); } else { ControlOrder(b2, b1); }
      }
    }
  }

  /** The entries the construction loop has put in place once it has handled the bytes below n. */
  function PartialMap(n: nat): map<int, Byte>
    requires n <= 256
  {
    VisibleOfInjective();
    map b: Byte | 0 <= b < n :: VisibleOf(b) := b
  }

  /** The complete visible-codepoint -> byte map. */
  function CodepointMap(): map<int, Byte> {
    PartialMap(256)
  }

  lemma PartialMapStep(n: nat)
    requires n < 256
    ensures VisibleOf(n) !in PartialMap(n)
    ensures PartialMap(n + 1) == PartialMap(n)[VisibleOf(n) := n]
  {
    VisibleOfInjective();
    var m, m' := PartialMap(n), PartialMap(n + 1);
    assert m'.Keys == m.Keys + {VisibleOf(n)};
  }

  /** The codepoint map built with a counter and a mutable map, as `computeCodepointMap` does. */
  method ComputeCodepointMap() returns (codepointMapping: map<int, Byte>)
    ensures codepointMapping == CodepointMap()
  {
    codepointMapping := map[];
    var extraOffset := 256;
    for i := 0 to 256
      invariant extraOffset == 256 + ControlsBelow(i)
      invariant codepointMapping == PartialMap(i)
    {
      PartialMapStep(i);
      if i < 33 || (i > 126 && i < 161) || i == 173 {
        codepointMapping := codepointMapping[extraOffset := i];
        extraOffset := extraOffset + 1;
      } else {
        codepointMapping := codepointMapping[i := i];
      }
    }
  }

  lemma {:induction false} PartialMapSize(n: nat)
    requires n <= 256
    ensures |PartialMap(n)| == n
  {
    if n > 0 {
      PartialMapSize(n - 1);
      PartialMapStep(n - 1);
    } else {
      assert PartialMap(0) == map[];
    }
  }

  /** The map has exactly 256 entries. */
  lemma CodepointMapSize()
    ensures |CodepointMap()| == 256
  {
    PartialMapSize(256);
  }

  /** Its keys are the printable bytes and the synthetic codepoints 256..323. */
  lemma CodepointMapKeys(k: int)
    ensures k in CodepointMap() <==> (0 <= k < 256 && !IsControl(k)) || 256 <= k < 324
  {
    if k in CodepointMap() {
      var b: Byte :| 0 <= b < 256 && VisibleOf(b) == k;
      VisibleOfBounds(b);
    }
    if 0 <= k < 256 && !IsControl(k) {
      assert VisibleOf(k) == k;
    }
    if 256 <= k < 324 {
      var b := ControlByteAt(k - 256);
      ControlsBelowClosedForm(b);
      assert VisibleOf(b) == k;
    }
  }

  /** Every byte is reached from exactly one visible codepoint: the map is a bijection onto 0..255. */
  lemma CodepointMapBijective()
    ensures forall b: Byte :: VisibleOf(b) in CodepointMap() && CodepointMap()[VisibleOf(b)] == b
    ensures forall k1, k2 :: k1 in CodepointMap() && k2 in CodepointMap() && CodepointMap()[k1] == CodepointMap()[k2] ==> k1 == k2
  {
    VisibleOfInjective();
  }

  /** Printable bytes map to themselves. */
  lemma CodepointMapPrintable(b: Byte)
    requires !IsControl(b)
    ensures b in CodepointMap() && CodepointMap()[b] == b
  {
    VisibleOfInjective();
    assert VisibleOf(b) == b;
  }

  /** The synthetic codepoints 256..323 go to the control bytes in increasing byte order. */
  lemma CodepointMapSynthetic(j: int)
    requires 0 <= j < 68
    ensures 256 + j in CodepointMap() && CodepointMap()[256 + j] == ControlByteAt(j)
    ensures IsControl(ControlByteAt(j))
    ensures forall i :: 0 <= i < j ==> ControlByteAt(i) < ControlByteAt(j)
  {
    VisibleOfInjective();
    var b := ControlByteAt(j);
    ControlsBelowClosedForm(b);
    assert VisibleOf(b) == 256 + j;
  }

  /**
   * Decodes a resource field codepoint by codepoint. None when some
   * codepoint is not a key of the map (in `rectifyString`, unboxing the null from `get` throws).
   */
  function Rectify(value: string, mapping: map<int, Byte>): (r: Option<string>)
    ensures r.Some? <==> forall i :: 0 <= i < |value| ==> value[i] as int in mapping
    ensures r.Some? ==> |r.value| == |value|
    ensures r.Some? ==> forall i :: 0 <= i < |value| ==> r.value[i] as int == mapping[value[i] as int]
    ensures r.Some? ==> forall i :: 0 <= i < |r.value| ==> r.value[i] as int < 256
  {
    if value == [] then Some([])
    else if value[0] as int !in mapping then None
    else
      match Rectify(value[1..], mapping)
      case None => None
      case Some(rest) => Some([mapping[value[0] as int] as char] + rest)
  }

  /** The decoding loop of `rectifyString`, appending to a growing string. */
  method RectifyString(value: string, codepointMapping: map<int, Byte>) returns (r: Option<string>)
    ensures r == Rectify(value, codepointMapping)
  {
    var sb: string := [];
    for i := 0 to |value|
      invariant |sb| == i
      invariant forall j :: 0 <= j < i ==> value[j] as int in codepointMapping
      invariant forall j :: 0 <= j < i ==> sb[j] as int == codepointMapping[value[j] as int]
    {
      var codePoint := value[i] as int;
      if codePoint !in codepointMapping {
        return None;
      }
      sb := sb + [codepointMapping[codePoint] as char];
    }
    var expected := Rectify(value, codepointMapping);
    assert expected.Some?;
    assert forall j :: 0 <= j < |value| ==> sb[j] == expected.value[j];
    assert sb == expected.value;
    return Some(sb);
  }

  /** The resource's encoding of a raw byte string: each byte replaced by its visible codepoint. */
  function Visible(raw: string): (v: string)
    requires forall i :: 0 <= i < |raw| ==> raw[i] as int < 256
    ensures |v| == |raw|
  {
    if raw == [] then [] else
      VisibleOfBounds(raw[0] as int);
      [VisibleOf(raw[0] as int) as char] + Visible(raw[1..])
  }

  /** Decoding inverts the resource's encoding: every byte string survives the round trip. */
  lemma {:induction false} RectifyVisible(raw: string)
    requires forall i :: 0 <= i < |raw| ==> raw[i] as int < 256
    ensures Rectify(Visible(raw), CodepointMap()) == Some(raw)
  {
    CodepointMapBijective();
    if raw != [] {
      RectifyVisible(raw[1..]);
      var v := Visible(raw);
      var b: Byte := raw[0] as int;
      VisibleOfBounds(b);
      assert v == [VisibleOf(b) as char] + Visible(raw[1..]);
      assert v[0] as int == VisibleOf(b);
      assert v[1..] == Visible(raw[1..]);
      assert CodepointMap()[VisibleOf(b)] as char == raw[0];
      assert raw == [raw[0]] + raw[1..];
    }
  }
}
