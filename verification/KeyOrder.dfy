/** Map keys as byte strings, their bits from the most significant down, and the agreement of
    byte order with bit order. */
module KeyOrder {

  type Key = seq<bv8>

  /** Bit `j` of a byte, most significant first: the byte shifted right by `7 - j`, masked by 1. */
  predicate ByteBit(b: bv8, j: nat)
    requires j < 8
  {
    if j == 0 then (b >> 7) & 1 == 1
    else if j == 1 then (b >> 6) & 1 == 1
    else if j == 2 then (b >> 5) & 1 == 1
    else if j == 3 then (b >> 4) & 1 == 1
    else if j == 4 then (b >> 3) & 1 == 1
    else if j == 5 then (b >> 2) & 1 == 1
    else if j == 6 then (b >> 1) & 1 == 1
    else b & 1 == 1
  }

  /** The byte with bit `j` switched on: `b | 1 << (7 - j)`. */
  function SetByteBit(b: bv8, j: nat): bv8
    requires j < 8
  {
    if j == 0 then b | (1 << 7)
    else if j == 1 then b | (1 << 6)
    else if j == 2 then b | (1 << 5)
    else if j == 3 then b | (1 << 4)
    else if j == 4 then b | (1 << 3)
    else if j == 5 then b | (1 << 2)
    else if j == 6 then b | (1 << 1)
    else b | 1
  }

  lemma SetByteBitSets(b: bv8, j: nat, i: nat)
    requires j < 8 && i < 8
    ensures ByteBit(SetByteBit(b, j), i) <==> i == j || ByteBit(b, i)
  {}

  /** Bit `i` of a byte string, bit 0 at the top of the tree. */
  predicate Bit(bytes: seq<bv8>, i: nat)
    requires i < 8 * |bytes|
  {
    ByteBit(bytes[i / 8], i % 8)
  }

  function Bits(key: Key): (bits: seq<bool>)
    ensures |bits| == 8 * |key|
  {
    seq(8 * |key|, i requires 0 <= i < 8 * |key| => Bit(key, i))
  }

  /** Where bit `j` of byte `k` is. */
  lemma BitAt(key: Key, k: nat, j: nat)
    requires k < |key| && j < 8
    ensures Bits(key)[8 * k + j] == ByteBit(key[k], j)
  {
    assert (8 * k + j) / 8 == k && (8 * k + j) % 8 == j;
  }

  /** Byte-wise lexicographic order of two keys of one length, from byte `i` on. */
  predicate LessFrom(a: Key, b: Key, i: nat)
    requires |a| == |b|
    decreases |a| - i
  {
    i < |a| && (a[i] < b[i] || (a[i] == b[i] && LessFrom(a, b, i + 1)))
  }

  predicate Less(a: Key, b: Key)
    requires |a| == |b|
  {
    LessFrom(a, b, 0)
  }

  /** Bit-wise lexicographic order of two bit strings of one length, from bit `i` on. */
  predicate BitLessFrom(a: seq<bool>, b: seq<bool>, i: nat)
    requires |a| == |b|
    decreases |a| - i
  {
    i < |a| && ((!a[i] && b[i]) || (a[i] == b[i] && BitLessFrom(a, b, i + 1)))
  }

  predicate BitLess(a: seq<bool>, b: seq<bool>)
    requires |a| == |b|
  {
    BitLessFrom(a, b, 0)
  }

  /** The first difference of two bit strings decides their order. */
  lemma {:induction false} BitLessAt(a: seq<bool>, b: seq<bool>, i: nat, q: nat)
    requires |a| == |b| && i <= q < |a| && a[q] != b[q]
    requires forall p :: i <= p < q ==> a[p] == b[p]
    ensures BitLessFrom(a, b, i) <==> b[q]
    decreases q - i
  {
    if i < q { BitLessAt(a, b, i + 1, q); }
  }

  /** Two different bit strings have a first difference. */
  lemma FirstDifference(a: seq<bool>, b: seq<bool>) returns (q: nat)
    requires |a| == |b| && a != b
    ensures q < |a| && a[q] != b[q] && forall p :: 0 <= p < q ==> a[p] == b[p]
  {
    q := 0;
    while a[q] == b[q]
      invariant q < |a| && (forall p :: 0 <= p < q ==> a[p] == b[p])
      invariant exists p :: q <= p < |a| && a[p] != b[p]
      decreases |a| - q
    {
      q := q + 1;
    }
  }

  lemma BitLessTotal(a: seq<bool>, b: seq<bool>)
    requires |a| == |b|
    ensures a == b || BitLess(a, b) || BitLess(b, a)
    ensures !(BitLess(a, b) && BitLess(b, a)) && !BitLess(a, a)
  {
    BitLessIrreflexive(a, 0);
    if a != b {
      var q := FirstDifference(a, b);
      BitLessAt(a, b, 0, q);
      BitLessAt(b, a, 0, q);
    }
  }

  lemma {:induction false} BitLessIrreflexive(a: seq<bool>, i: nat)
    ensures !BitLessFrom(a, a, i)
    decreases |a| - i
  {
    if i < |a| { BitLessIrreflexive(a, i + 1); }
  }

  lemma {:induction false} BitLessTransitive(a: seq<bool>, b: seq<bool>, c: seq<bool>, i: nat)
    requires |a| == |b| == |c| && BitLessFrom(a, b, i) && BitLessFrom(b, c, i)
    ensures BitLessFrom(a, c, i)
    decreases |a| - i
  {
    if a[i] == b[i] == c[i] { BitLessTransitive(a, b, c, i + 1); }
  }

  /** The bit where two different bytes part ways. */
  lemma ByteOrder(a: bv8, b: bv8) returns (j: nat)
    requires a < b
    ensures j < 8 && !ByteBit(a, j) && ByteBit(b, j)
    ensures forall i: nat :: i < j ==> ByteBit(a, i) == ByteBit(b, i)
  {
    if ByteBit(a, 0) != ByteBit(b, 0) { j := 0; }
    else if ByteBit(a, 1) != ByteBit(b, 1) { j := 1; }
    else if ByteBit(a, 2) != ByteBit(b, 2) { j := 2; }
    else if ByteBit(a, 3) != ByteBit(b, 3) { j := 3; }
    else if ByteBit(a, 4) != ByteBit(b, 4) { j := 4; }
    else if ByteBit(a, 5) != ByteBit(b, 5) { j := 5; }
    else if ByteBit(a, 6) != ByteBit(b, 6) { j := 6; }
    else { j := 7; }
  }

  /** Where two keys in byte order part ways, bit for bit: the smaller one has 0 there. */
  lemma {:induction false} FirstBit(a: Key, b: Key, i: nat) returns (q: nat)
    requires |a| == |b| && LessFrom(a, b, i)
    ensures 8 * i <= q < 8 * |a| && !Bit(a, q) && Bit(b, q)
    ensures forall p :: 8 * i <= p < q ==> Bit(a, p) == Bit(b, p)
    decreases |a| - i
  {
    if a[i] < b[i] {
      var j := ByteOrder(a[i], b[i]);
      q := 8 * i + j;
      assert q / 8 == i && q % 8 == j;
      forall p | 8 * i <= p < q ensures Bit(a, p) == Bit(b, p) {
        assert p / 8 == i && p % 8 < j;
      }
    } else {
      q := FirstBit(a, b, i + 1);
      forall p | 8 * i <= p < q ensures Bit(a, p) == Bit(b, p) {
        if p < 8 * (i + 1) { assert p / 8 == i; }
      }
    }
  }

  lemma LessBits(a: Key, b: Key)
    requires |a| == |b| && Less(a, b)
    ensures BitLess(Bits(a), Bits(b)) && Bits(a) != Bits(b)
  {
    var q := FirstBit(a, b, 0);
    assert Bits(b)[q] && !Bits(a)[q];
    BitLessAt(Bits(a), Bits(b), 0, q);
  }

  lemma {:induction false} LessTotal(a: Key, b: Key, i: nat)
    requires |a| == |b|
    ensures LessFrom(a, b, i) || LessFrom(b, a, i) || forall j :: i <= j < |a| ==> a[j] == b[j]
    decreases |a| - i
  {
    if i < |a| { LessTotal(a, b, i + 1); }
  }

  /** Byte order is bit order, and a key is its bits. Sorting byte strings therefore sorts the
      bit strings the tree is built over. */
  lemma ByteOrderIsBitOrder(a: Key, b: Key)
    requires |a| == |b|
    ensures Less(a, b) <==> BitLess(Bits(a), Bits(b))
    ensures a == b <==> Bits(a) == Bits(b)
  {
    BitLessTotal(Bits(a), Bits(b));
    LessTotal(a, b, 0);
    if Less(a, b) {
      LessBits(a, b);
    } else if Less(b, a) {
      LessBits(b, a);
    } else {
      assert a == b;
    }
  }
}
