/** packData and unpackData: FP4 nibbles and FP6 groups in bytes, and the FP4 alignment pipeline. */
module MxPack {
  import opened MxAlign

  // ---------------------------------------------------------------- FP4

  function LowNibble(b: bv8): bv8 { b & 0x0F }

  function HighNibble(b: bv8): bv8 { b >> 4 }

  function JoinNibbles(lo: bv8, hi: bv8): bv8 { (lo & 0x0F) | (hi << 4) }

  predicate IsNibble(x: bv8) { x & 0xF0 == 0 }

  lemma NibblesOfByte(b: bv8)
    ensures JoinNibbles(LowNibble(b), HighNibble(b)) == b
  {
  }

  lemma ByteOfNibbles(lo: bv8, hi: bv8)
    ensures LowNibble(JoinNibbles(lo, hi)) == lo <==> IsNibble(lo)
    ensures HighNibble(JoinNibbles(lo, hi)) == hi <==> IsNibble(hi)
  {
  }

  function Unpacked4(bytes: seq<bv8>): (r: seq<bv8>)
    ensures |r| == 2 * |bytes|
  {
    seq(2 * |bytes|, i requires 0 <= i < 2 * |bytes| =>
      if i % 2 == 0 then LowNibble(bytes[i / 2]) else HighNibble(bytes[i / 2]))
  }

  function Packed4(data: seq<bv8>): (r: seq<bv8>)
    ensures |r| == |data| / 2
  {
    seq(|data| / 2, i requires 0 <= i < |data| / 2 => JoinNibbles(data[2 * i], data[2 * i + 1]))
  }

  /** The low half of every byte comes first. */
  lemma NibbleOrder(bytes: seq<bv8>, i: nat)
    requires i < |bytes|
    ensures Unpacked4(bytes)[2 * i] & 0xF0 == 0 && Unpacked4(bytes)[2 * i + 1] & 0xF0 == 0
    ensures bytes[i] == Unpacked4(bytes)[2 * i] | (Unpacked4(bytes)[2 * i + 1] << 4)
  {
    assert (2 * i) / 2 == i && (2 * i + 1) / 2 == i;
    NibbleParts(bytes[i]);
    NibblesAgain(bytes[i]);
  }

  lemma NibblesAgain(b: bv8)
    ensures b == LowNibble(b) | (HighNibble(b) << 4)
  {
  }

  /** unpackData for FP4. */
  method UnpackData4(bytes: seq<bv8>) returns (out: seq<bv8>)
    ensures out == Unpacked4(bytes)
  {
    var a := new bv8[2 * |bytes|];
    for i := 0 to |bytes|
      invariant forall j :: 0 <= j < 2 * i ==> a[j] == Unpacked4(bytes)[j]
    {
      a[i * 2] := LowNibble(bytes[i]);
      a[i * 2 + 1] := HighNibble(bytes[i]);
    }
    out := a[..];
  }

  /** packData for FP4. */
  method PackData4(data: seq<bv8>, packed: array<bv8>)
    requires packed.Length >= |data| / 2
    modifies packed
    ensures packed[..|data| / 2] == Packed4(data)
    ensures forall i :: |data| / 2 <= i < packed.Length ==> packed[i] == old(packed[i])
  {
    for i := 0 to |data| / 2
      invariant forall j :: 0 <= j < i ==> packed[j] == Packed4(data)[j]
      invariant forall j :: |data| / 2 <= j < packed.Length ==> packed[j] == old(packed[j])
    {
      packed[i] := data[2 * i] & 0x0F;
      packed[i] := packed[i] | (data[2 * i + 1] << 4);
    }
  }

  /** Packing undoes unpacking on every byte string. */
  lemma PackUndoesUnpack4(bytes: seq<bv8>)
    ensures Packed4(Unpacked4(bytes)) == bytes
  {
    var p := Packed4(Unpacked4(bytes));
    forall i | 0 <= i < |bytes| ensures p[i] == bytes[i] {
      assert (2 * i) / 2 == i && (2 * i + 1) / 2 == i;
      NibblesOfByte(bytes[i]);
    }
  }

  /** Unpacking undoes packing exactly on even-length strings of nibbles. */
  lemma UnpackUndoesPack4Iff(data: seq<bv8>)
    ensures Unpacked4(Packed4(data)) == data <==> |data| % 2 == 0 && forall i :: 0 <= i < |data| ==> IsNibble(data[i])
  {
    var u := Unpacked4(Packed4(data));
    forall i | 0 <= i < |u| ensures u[i] == data[i] <==> IsNibble(data[i]) {
      ByteOfNibbles(data[i / 2 * 2], data[i / 2 * 2 + 1]);
    }
  }

  /** The FP4 branch of generateData: unpack, align, pack. At every position the packed result holds the
      generator's nibble for that position, and the reference value is that nibble under its own block's scale. */
  method AlignPacked4(bytes: seq<bv8>, scales: seq<bv8>, rows: nat, k: nat, e: nat, value: (bv8, bv8) -> real,
                       data: array<bv8>)
    returns (ref: seq<real>)
    requires rows > 0 && e > 0 && (k % e == 0 || rows == 1)
    requires 2 * |bytes| == k * rows && |scales| >= BlocksFor(k, e) * rows
    requires data.Length == |bytes|
    modifies data
    ensures Picks(Unpacked4(bytes), DataIds(rows, e, 2 * |bytes|), Unpacked4(data[..]))
    ensures |ref| == 2 * |bytes| && forall p :: 0 <= p < |ref| ==>
              ScaleId(rows, e, p) < |scales| && ref[p] == value(scales[ScaleId(rows, e, p)], Unpacked4(data[..])[p])
  {
    var unpacked := UnpackData4(bytes);
    var aligned;
    aligned, ref := GetAlignedFloat(unpacked, scales, rows, k, e, value);
    PackData4(aligned, data);
    assert data[..] == data[..|aligned| / 2];
    AlignedAreNibbles(bytes, DataIds(rows, e, 2 * |bytes|), aligned);
    UnpackUndoesPack4Iff(aligned);
  }

  lemma AlignedAreNibbles(bytes: seq<bv8>, ids: seq<nat>, aligned: seq<bv8>)
    requires Picks(Unpacked4(bytes), ids, aligned)
    ensures forall i :: 0 <= i < |aligned| ==> IsNibble(aligned[i])
  {
    forall i | 0 <= i < |aligned| ensures IsNibble(aligned[i]) {
      NibbleParts(bytes[ids[i] / 2]);
    }
  }

  lemma NibbleParts(b: bv8)
    ensures IsNibble(LowNibble(b)) && IsNibble(HighNibble(b))
  {
  }

  // ---------------------------------------------------------------- FP6

  /** Four six-bit elements as packData writes them into three bytes. */
  function Byte0(d0: bv8, d1: bv8): bv8 { (d0 & 0x3F) | ((d1 & 0x03) << 6) }

  function Byte1(d1: bv8, d2: bv8): bv8 { ((d1 & 0xFC) >> 2) | ((d2 & 0x03) << 6) }

  function Byte2(d2: bv8, d3: bv8): bv8 { ((d2 & 0xFC) >> 6) | ((d3 & 0x3F) << 2) }

  /** The four elements unpackData reads out of three bytes. */
  function Element0(b0: bv8): bv8 { b0 & 0x3F }

  function Element1(b0: bv8, b1: bv8): bv8 { ((b0 & 0xC0) >> 6) | ((b1 & 0x0F) << 2) }

  function Element2(b1: bv8, b2: bv8): bv8 { ((b1 & 0xF0) >> 4) | ((b2 & 0x03) << 4) }

  function Element3(b2: bv8): bv8 { (b2 & 0xFC) >> 2 }

  predicate IsSix(x: bv8) { x & 0xC0 == 0 }

  /** Packing four elements and unpacking them again loses the third one unless it is zero. */
  lemma Group6RoundTripIff(d0: bv8, d1: bv8, d2: bv8, d3: bv8)
    requires IsSix(d0) && IsSix(d1) && IsSix(d2) && IsSix(d3)
    ensures var b0, b1, b2 := Byte0(d0, d1), Byte1(d1, d2), Byte2(d2, d3);
            Element0(b0) == d0 && Element1(b0, b1) == d1 && Element3(b2) == d3 &&
            (Element2(b1, b2) == d2 <==> d2 == 0)
  {
  }

  /** Three bytes as one number of 24 bits, the first byte lowest. */
  function Word24(b0: bv8, b1: bv8, b2: bv8): bv24 { (b0 as bv24) | ((b1 as bv24) << 8) | ((b2 as bv24) << 16) }

  /** Unpacking takes the bits of three bytes six at a time, from the lowest. */
  lemma ElementsAreSixBits(b0: bv8, b1: bv8, b2: bv8)
    ensures IsSix(Element0(b0)) && IsSix(Element1(b0, b1)) && IsSix(Element2(b1, b2)) && IsSix(Element3(b2))
    ensures Word24(b0, b1, b2) == (Element0(b0) as bv24) | ((Element1(b0, b1) as bv24) << 6) |
                                  ((Element2(b1, b2) as bv24) << 12) | ((Element3(b2) as bv24) << 18)
  {
  }

  /** Packing puts the first, second and fourth element where unpacking looks for them, but only two bits of the third,
      and those two places too high. */
  lemma PackingMisplacesThird(d0: bv8, d1: bv8, d2: bv8, d3: bv8)
    requires IsSix(d0) && IsSix(d1) && IsSix(d2) && IsSix(d3)
    ensures Word24(Byte0(d0, d1), Byte1(d1, d2), Byte2(d2, d3)) ==
            (d0 as bv24) | ((d1 as bv24) << 6) | (((d2 & 3) as bv24) << 14) | ((d3 as bv24) << 18)
  {
  }

  function Masked(on: bool, x: bv8): bv8 { if on then x else 0 }

  /** Unpacking three bytes, possibly without the last elements, and packing the result gives the bytes back exactly
      when the third element is zero and so is every element left out. */
  lemma Bytes6RoundTripIff(b0: bv8, b1: bv8, b2: bv8, k0: bool, k1: bool, k2: bool, k3: bool)
    ensures var d0, d1, d2, d3 := Element0(b0), Element1(b0, b1), Element2(b1, b2), Element3(b2);
            (Byte0(Masked(k0, d0), Masked(k1, d1)) == b0 && Byte1(Masked(k1, d1), Masked(k2, d2)) == b1 &&
             Byte2(Masked(k2, d2), Masked(k3, d3)) == b2)
            <==> (d2 == 0 && (k0 || d0 == 0) && (k1 || d1 == 0) && (k3 || d3 == 0))
  {
  }

  /** Element `i` of the FP6 data in `bytes`. */
  function Element6(bytes: seq<bv8>, i: nat): bv8
    requires i < |bytes| * 8 / 6
  {
    var g := i / 4 * 3;
    if i % 4 == 0 then Element0(bytes[g])
    else if i % 4 == 1 then Element1(bytes[g], bytes[g + 1])
    else if i % 4 == 2 then Element2(bytes[g + 1], bytes[g + 2])
    else Element3(bytes[g + 2])
  }

  /** unpackData for FP6: the loop stops at the packed length, so the elements after it stay zero. */
  function Unpacked6(bytes: seq<bv8>): (r: seq<bv8>)
    ensures |r| == |bytes| * 8 / 6
  {
    seq(|bytes| * 8 / 6, i requires 0 <= i < |bytes| * 8 / 6 => Masked(i < |bytes|, Element6(bytes, i)))
  }

  /** packData for FP6 reads element i * 8 / 6 + 3 in the round that starts at byte `i`. */
  ghost predicate PackReadsInRange(length: nat) {
    forall i :: 0 <= i < length * 6 / 8 && i % 3 == 0 ==> i * 8 / 6 + 3 < length
  }

  /** It stays inside the data if and only if at most one element is left over from the last group. */
  lemma PackReadsInRangeIff(length: nat)
    ensures PackReadsInRange(length) <==> length % 4 <= 1
  {
    var g := length / 4;
    if length % 4 >= 2 { assert 3 * g < length * 6 / 8 && (3 * g) % 3 == 0 && 3 * g * 8 / 6 + 3 >= length; }
  }

  /** The data unpackData leaves for FP6 can be packed again if and only if not just two bytes are left over. */
  lemma UnpackedCanBePackedIff(bytes: seq<bv8>)
    ensures PackReadsInRange(|Unpacked6(bytes)|) <==> |bytes| % 3 != 2
  {
    var length := |Unpacked6(bytes)|;
    UnpackedLength(|bytes|);
    PackReadsInRangeIff(length);
  }

  lemma UnpackedLength(n: nat)
    ensures (n * 8 / 6) % 4 == n % 3
  {
    var q, r := n / 3, n % 3;
    assert n * 8 == 24 * q + 8 * r;
    assert r == 0 || r == 1 || r == 2;
    assert n * 8 / 6 == 4 * q + r;
  }

  /** The whole groups, packed. */
  function Packed6(data: seq<bv8>): (r: seq<bv8>)
    ensures |r| == |data| / 4 * 3
  {
    seq(|data| / 4 * 3, i requires 0 <= i < |data| / 4 * 3 =>
      var g := i / 3 * 4;
      if i % 3 == 0 then Byte0(data[g], data[g + 1])
      else if i % 3 == 1 then Byte1(data[g + 1], data[g + 2])
      else Byte2(data[g + 2], data[g + 3]))
  }

  /** Unpacked and packed again. */
  function Repacked6(bytes: seq<bv8>): (r: seq<bv8>)
    ensures |r| == |bytes| / 3 * 3
  {
    var u := Unpacked6(bytes);
    assert |u| / 4 == |bytes| / 3;
    Packed6(u)
  }

  /** unpackData for FP6. */
  method UnpackData6(bytes: seq<bv8>) returns (out: seq<bv8>)
    ensures out == Unpacked6(bytes)
  {
    var a := new bv8[|bytes| * 8 / 6](_ => 0);
    for i := 0 to |bytes|
      invariant forall j :: 0 <= j < a.Length ==> a[j] == Masked(j < i, Element6(bytes, j))
    {
      var f := i * 6 / 8;
      assert f == i / 4 * 3 + (if i % 4 == 0 then 0 else i % 4 - 1);
      if i % 4 == 0 { a[i] := bytes[f] & 0x3F; }
      else if i % 4 == 1 { a[i] := ((bytes[f] & 0xC0) >> 6) | ((bytes[f + 1] & 0x0F) << 2); }
      else if i % 4 == 2 { a[i] := ((bytes[f] & 0xF0) >> 4) | ((bytes[f + 1] & 0x03) << 4); }
      else { a[i] := (bytes[f] & 0xFC) >> 2; }
    }
    out := a[..];
  }

  /** Group `g` of `packed` holds what packData makes of the four elements of the group. */
  predicate GroupPacked(data: seq<bv8>, packed: seq<bv8>, g: nat)
    requires |packed| <= |data| / 4 * 3
  {
    3 * g + 2 < |packed| && packed[3 * g] == Byte0(data[4 * g], data[4 * g + 1]) &&
    packed[3 * g + 1] == Byte1(data[4 * g + 1], data[4 * g + 2]) &&
    packed[3 * g + 2] == Byte2(data[4 * g + 2], data[4 * g + 3])
  }

  lemma PackedByGroups(data: seq<bv8>, packed: seq<bv8>)
    requires |packed| == |data| / 4 * 3
    requires forall g :: 0 <= g < |data| / 4 ==> GroupPacked(data, packed, g)
    ensures packed == Packed6(data)
  {
    forall i | 0 <= i < |packed| ensures packed[i] == Packed6(data)[i] {
      assert GroupPacked(data, packed, i / 3);
      assert i == 3 * (i / 3) + i % 3;
    }
  }

  lemma KeepsPacked(data: seq<bv8>, was: seq<bv8>, now: seq<bv8>, g: nat)
    requires |was| == |now| <= |data| / 4 * 3 && 3 * g <= |now| && was[..3 * g] == now[..3 * g]
    requires forall h :: 0 <= h < g ==> GroupPacked(data, was, h)
    ensures forall h :: 0 <= h < g ==> GroupPacked(data, now, h)
  {
    forall h | 0 <= h < g ensures GroupPacked(data, now, h) {
      assert GroupPacked(data, was, h);
      assert forall x :: 3 * h <= x < 3 * h + 3 ==> was[..3 * g][x] == now[..3 * g][x];
    }
  }

  /** packData for FP6, where it reads inside its data. Bytes behind the packed groups are not touched. */
  method PackData6(data: seq<bv8>, packed: array<bv8>)
    requires PackReadsInRange(|data|) && packed.Length >= |data| * 6 / 8
    modifies packed
    ensures |Packed6(data)| <= packed.Length && packed[..|Packed6(data)|] == Packed6(data)
    ensures forall i :: |Packed6(data)| <= i < packed.Length ==> packed[i] == old(packed[i])
  {
    PackReadsInRangeIff(|data|);
    var total := |data| * 6 / 8;
    var i := 0;
    ghost var g, groups := 0, |data| / 4;
    while i < total
      invariant i == 3 * g && g <= groups
      invariant forall h :: 0 <= h < g ==> GroupPacked(data, packed[..total], h)
      invariant forall j :: total <= j < packed.Length ==> packed[j] == old(packed[j])
    {
      var f := i * 8 / 6;
      ghost var before := packed[..total];
      assert f == 4 * g;
      packed[i] := (data[f] & 0x3F) | ((data[f + 1] & 0x03) << 6);
      packed[i + 1] := ((data[f + 1] & 0xFC) >> 2) | ((data[f + 2] & 0x03) << 6);
      packed[i + 2] := ((data[f + 2] & 0xFC) >> 6) | ((data[f + 3] & 0x3F) << 2);
      KeepsPacked(data, before, packed[..total], g);
      i, g := i + 3, g + 1;
    }
    PackedByGroups(data, packed[..total]);
  }

  /** What the FP6 round trip needs of element `i`: the third of each group and everything past the packed length is
      zero. */
  predicate Survives6(bytes: seq<bv8>, i: nat)
    requires i < |bytes| / 3 * 4
  {
    (i % 4 == 2 || i >= |bytes|) ==> Element6(bytes, i) == 0
  }

  predicate GroupKept(bytes: seq<bv8>, p: seq<bv8>, g: nat)
    requires 3 * g + 2 < |p| <= |bytes|
  {
    p[3 * g] == bytes[3 * g] && p[3 * g + 1] == bytes[3 * g + 1] && p[3 * g + 2] == bytes[3 * g + 2]
  }

  predicate GroupSurvives(bytes: seq<bv8>, g: nat)
    requires 3 * g + 2 < |bytes|
  {
    Survives6(bytes, 4 * g) && Survives6(bytes, 4 * g + 1) && Survives6(bytes, 4 * g + 2) && Survives6(bytes, 4 * g + 3)
  }

  /** The four elements of group `g`, and which of them the truncated loop computes. */
  lemma GroupElements(bytes: seq<bv8>, g: nat)
    requires 3 * g + 2 < |bytes|
    ensures var u, n := Unpacked6(bytes), |bytes|;
            4 * g + 3 < |u| &&
            u[4 * g] == Masked(4 * g < n, Element6(bytes, 4 * g)) &&
            u[4 * g + 1] == Masked(4 * g + 1 < n, Element6(bytes, 4 * g + 1)) &&
            u[4 * g + 2] == Masked(4 * g + 2 < n, Element6(bytes, 4 * g + 2)) &&
            u[4 * g + 3] == Masked(4 * g + 3 < n, Element6(bytes, 4 * g + 3))
    ensures Element6(bytes, 4 * g) == Element0(bytes[3 * g])
    ensures Element6(bytes, 4 * g + 1) == Element1(bytes[3 * g], bytes[3 * g + 1])
    ensures Element6(bytes, 4 * g + 2) == Element2(bytes[3 * g + 1], bytes[3 * g + 2])
    ensures Element6(bytes, 4 * g + 3) == Element3(bytes[3 * g + 2])
  {
  }

  lemma PackedGroup(data: seq<bv8>, g: nat)
    requires 4 * g + 3 < |data|
    ensures GroupPacked(data, Packed6(data), g)
  {
  }

  lemma PlacesInGroup(g: nat)
    ensures (4 * g) % 4 == 0 && (4 * g + 1) % 4 == 1 && (4 * g + 2) % 4 == 2 && (4 * g + 3) % 4 == 3
  {
  }

  /** What survival asks of a group, in terms of its three bytes. */
  lemma GroupCondition(bytes: seq<bv8>, g: nat)
    requires 3 * g + 2 < |bytes|
    ensures var n, b0, b1, b2 := |bytes|, bytes[3 * g], bytes[3 * g + 1], bytes[3 * g + 2];
            GroupSurvives(bytes, g) <==>
            Element2(b1, b2) == 0 && (4 * g < n || Element0(b0) == 0) && (4 * g + 1 < n || Element1(b0, b1) == 0) &&
            (4 * g + 3 < n || Element3(b2) == 0)
  {
    GroupElements(bytes, g);
    PlacesInGroup(g);
  }

  lemma GroupBytes(bytes: seq<bv8>, g: nat, p: seq<bv8>)
    requires 3 * g + 2 < |p| <= |bytes| && p == Repacked6(bytes)
    ensures var n, b0, b1, b2 := |bytes|, bytes[3 * g], bytes[3 * g + 1], bytes[3 * g + 2];
            var d0, d1 := Masked(4 * g < n, Element0(b0)), Masked(4 * g + 1 < n, Element1(b0, b1));
            var d2, d3 := Masked(4 * g + 2 < n, Element2(b1, b2)), Masked(4 * g + 3 < n, Element3(b2));
            p[3 * g] == Byte0(d0, d1) && p[3 * g + 1] == Byte1(d1, d2) && p[3 * g + 2] == Byte2(d2, d3)
  {
    GroupElements(bytes, g);
    PackedGroup(Unpacked6(bytes), g);
  }

  lemma GroupSurvivesIff(bytes: seq<bv8>, g: nat, p: seq<bv8>)
    requires 3 * g + 2 < |p| <= |bytes| && p == Repacked6(bytes)
    ensures GroupKept(bytes, p, g) <==> GroupSurvives(bytes, g)
  {
    var b0, b1, b2 := bytes[3 * g], bytes[3 * g + 1], bytes[3 * g + 2];
    var k0, k1, k2, k3 := 4 * g < |bytes|, 4 * g + 1 < |bytes|, 4 * g + 2 < |bytes|, 4 * g + 3 < |bytes|;
    GroupBytes(bytes, g, p);
    GroupCondition(bytes, g);
    Bytes6RoundTripIff(b0, b1, b2, k0, k1, k2, k3);
  }

  /** Repacking unpacked FP6 data gives the whole groups back exactly when every element the code drops was zero. */
  lemma Fp6RoundTripIff(bytes: seq<bv8>)
    ensures Repacked6(bytes) == bytes[..|bytes| / 3 * 3] <==>
            forall i :: 0 <= i < |bytes| / 3 * 4 ==> Survives6(bytes, i)
  {
    var p := Repacked6(bytes);
    forall g | 0 <= g < |bytes| / 3 ensures GroupKept(bytes, p, g) <==> GroupSurvives(bytes, g) {
      GroupSurvivesIff(bytes, g, p);
    }
    if p == bytes[..|bytes| / 3 * 3] {
      assert forall g :: 0 <= g < |bytes| / 3 ==> GroupKept(bytes, p, g);
      KeptGroupsSurvive(bytes);
    }
    if forall i :: 0 <= i < |bytes| / 3 * 4 ==> Survives6(bytes, i) { SurvivorsAreKept(bytes, p); }
  }

  lemma KeptGroupsSurvive(bytes: seq<bv8>)
    requires forall g :: 0 <= g < |bytes| / 3 ==> GroupSurvives(bytes, g)
    ensures forall i :: 0 <= i < |bytes| / 3 * 4 ==> Survives6(bytes, i)
  {
    forall i | 0 <= i < |bytes| / 3 * 4 ensures Survives6(bytes, i) {
      assert GroupSurvives(bytes, i / 4);
      assert i == 4 * (i / 4) + i % 4;
    }
  }

  lemma SurvivorsAreKept(bytes: seq<bv8>, p: seq<bv8>)
    requires |p| == |bytes| / 3 * 3
    requires forall i :: 0 <= i < |bytes| / 3 * 4 ==> Survives6(bytes, i)
    requires forall g :: 0 <= g < |bytes| / 3 ==> (GroupKept(bytes, p, g) <==> GroupSurvives(bytes, g))
    ensures p == bytes[..|p|]
  {
    forall i | 0 <= i < |p| ensures p[i] == bytes[i] {
      var g := i / 3;
      assert GroupSurvives(bytes, g);
      assert i == 3 * g + i % 3;
    }
  }
}
