/** The byte-packed bit arrays of the RFI finder and its mask flag codes.

    A bit array is a buffer of unsigned bytes; bit `n` lives in byte `n >> 3`
    and, inside that byte, at position `7 - (n & 7)` counted from the least
    significant bit: the bits are numbered most-significant first.  For the
    non-negative `n` the macros are used with, `n >> 3 == n / 8` and
    `n & 7 == n % 8`.
 */
module RfiFind {

  datatype Option<T> = None | Some(value: T)

  // ---------------------------------------------------------------------------
  // mask_flags
  // ---------------------------------------------------------------------------

  /** The mask flags, in declaration order. */
  datatype MaskFlag = Good | User | Pow | Avg | Var

  /** The integer a C enumerator takes: its position in the declaration. */
  function FlagValue(f: MaskFlag): (v: nat)
    ensures v <= 4
    ensures v == 0 <==> f == Good
  {
    match f
    case Good => 0
    case User => 1
    case Pow => 2
    case Avg => 3
    case Var => 4
  }

  /** The flag an integer code stands for, if any. */
  function FlagFromValue(v: int): (f: Option<MaskFlag>)
    ensures f.Some? <==> 0 <= v <= 4
    ensures f.Some? ==> FlagValue(f.value) == v
  {
    if v == 0 then Some(Good)
    else if v == 1 then Some(User)
    else if v == 2 then Some(Pow)
    else if v == 3 then Some(Avg)
    else if v == 4 then Some(Var)
    else None
  }

  /** Decoding a flag's code gives the flag back. */
  lemma FlagValueRoundTrip(f: MaskFlag)
    ensures FlagFromValue(FlagValue(f)) == Some(f)
  {
  }

  /** Distinct flags have distinct codes. */
  lemma FlagValueInjective(f: MaskFlag, g: MaskFlag)
    ensures FlagValue(f) == FlagValue(g) <==> f == g
  {
    FlagValueRoundTrip(f);
    FlagValueRoundTrip(g);
  }

  /** The codes run GOOD = 0 < USER < POW < AVG < VAR = 4. */
  lemma FlagValuesOrdered()
    ensures FlagValue(Good) == 0
    ensures FlagValue(Good) < FlagValue(User) < FlagValue(Pow) < FlagValue(Avg) < FlagValue(Var)
    ensures FlagValue(Var) == 4
  {
  }

  // ---------------------------------------------------------------------------
  // GET_BIT, SET_BIT, UNSET_BIT
  // ---------------------------------------------------------------------------

  /** True when bit `n` addresses a byte inside the buffer. */
  predicate InBuffer(s: seq<bv8>, n: nat)
  {
    n / 8 < |s|
  }

  /** The single-bit mask `1 << (7 - (n & 7))` that selects bit `n` within its byte. */
  function BitMask(n: nat): bv8
  {
    1 << (7 - n % 8)
  }

  /** GET_BIT: the value of bit `n` of the buffer. */
  function GetBit(s: seq<bv8>, n: nat): (b: bv8)
    requires InBuffer(s, n)
    ensures b == 0 || b == 1
  {
    (s[n / 8] >> (7 - n % 8)) & 1
  }

  /** The buffer after SET_BIT: byte `n >> 3` OR-ed with the bit's mask. */
  function WithBitSet(s: seq<bv8>, n: nat): (t: seq<bv8>)
    requires InBuffer(s, n)
    ensures |t| == |s|
    ensures forall i :: 0 <= i < |s| && i != n / 8 ==> t[i] == s[i]
  {
    s[n / 8 := s[n / 8] | BitMask(n)]
  }

  /** The buffer after UNSET_BIT: byte `n >> 3` AND-ed with the complement of the bit's mask. */
  function WithBitUnset(s: seq<bv8>, n: nat): (t: seq<bv8>)
    requires InBuffer(s, n)
    ensures |t| == |s|
    ensures forall i :: 0 <= i < |s| && i != n / 8 ==> t[i] == s[i]
  {
    s[n / 8 := s[n / 8] & !BitMask(n)]
  }

  /** SET_BIT, updating the caller's buffer in place. */
  method SetBit(c: array<bv8>, n: nat)
    requires InBuffer(c[..], n)
    modifies c
    ensures c[..] == WithBitSet(old(c[..]), n)
    ensures Unpack(c[..]) == Unpack(old(c[..]))[n := true]
  {
    c[n / 8] := c[n / 8] | BitMask(n);
    UnpackWithBitSet(old(c[..]), n);
  }

  /** UNSET_BIT, updating the caller's buffer in place. */
  method UnsetBit(c: array<bv8>, n: nat)
    requires InBuffer(c[..], n)
    modifies c
    ensures c[..] == WithBitUnset(old(c[..]), n)
    ensures Unpack(c[..]) == Unpack(old(c[..]))[n := false]
  {
    c[n / 8] := c[n / 8] & !BitMask(n);
    UnpackWithBitUnset(old(c[..]), n);
  }

  // ---------------------------------------------------------------------------
  // Reference view: the buffer as a stream of bits, most significant bit first
  // ---------------------------------------------------------------------------

  /** The eight bits of one byte, most significant first. */
  function ByteBits(b: bv8): (bits: seq<bool>)
    ensures |bits| == 8
  {
    [b & 0x80 != 0, b & 0x40 != 0, b & 0x20 != 0, b & 0x10 != 0,
     b & 0x08 != 0, b & 0x04 != 0, b & 0x02 != 0, b & 0x01 != 0]
  }

  /** The whole buffer as one bit stream, byte 0 first. */
  function Unpack(s: seq<bv8>): (bits: seq<bool>)
    ensures |bits| == 8 * |s|
  {
    if s == [] then [] else ByteBits(s[0]) + Unpack(s[1..])
  }

  /** The single-bit mask of position `k` of a byte, counted from the most
      significant bit, written out as a literal. */
  function PositionMask(k: nat): bv8
    requires k < 8
  {
    if k == 0 then 0x80 else if k == 1 then 0x40 else if k == 2 then 0x20
    else if k == 3 then 0x10 else if k == 4 then 0x08 else if k == 5 then 0x04
    else if k == 6 then 0x02 else 0x01
  }

  /** The shifted mask of the macros is the literal mask of position `n % 8`. */
  lemma BitMaskIsPositionMask(n: nat)
    ensures BitMask(n) == PositionMask(n % 8)
  {
    var k := n % 8;
    if k == 0 {} else if k == 1 {} else if k == 2 {} else if k == 3 {}
    else if k == 4 {} else if k == 5 {} else if k == 6 {} else {}
  }

  /** Position `j` of the unpacked byte tests the literal mask of position `j`. */
  lemma ByteBitsAt(b: bv8, j: nat)
    requires j < 8
    ensures ByteBits(b)[j] == (b & PositionMask(j) != 0)
  {
  }

  /** Two position masks overlap exactly when they are the same position. */
  lemma PositionMasksOverlap(k: nat, j: nat)
    requires k < 8 && j < 8
    ensures PositionMask(k) & PositionMask(j) != 0 <==> j == k
  {
  }

  /** A single-bit mask `m` sees `a | b` set when it sees `a` or `b` set. */
  lemma OrUnderMask(a: bv8, b: bv8, m: bv8)
    requires m != 0 && m & (m - 1) == 0
    ensures ((a | b) & m != 0) == (a & m != 0 || b & m != 0)
  {
  }

  /** A single-bit mask `m` sees `a & !b` set when it sees `a` set and `b` clear. */
  lemma AndNotUnderMask(a: bv8, b: bv8, m: bv8)
    requires m != 0 && m & (m - 1) == 0
    ensures ((a & !b) & m != 0) == (a & m != 0 && b & m == 0)
  {
  }

  lemma ByteBitsGet(b: bv8, k: nat)
    requires k < 8
    ensures ((b >> (7 - k)) & 1) == 1 <==> ByteBits(b)[k]
  {
    if k == 0 {} else if k == 1 {} else if k == 2 {} else if k == 3 {}
    else if k == 4 {} else if k == 5 {} else if k == 6 {} else {}
  }

  /** OR-ing in the mask of position `k` sets position `k` and no other. */
  lemma ByteBitsSet(b: bv8, k: nat, j: nat)
    requires k < 8 && j < 8
    ensures ByteBits(b | PositionMask(k))[j] == (j == k || ByteBits(b)[j])
  {
    ByteBitsAt(b | PositionMask(k), j);
    ByteBitsAt(b, j);
    OrUnderMask(b, PositionMask(k), PositionMask(j));
    PositionMasksOverlap(k, j);
  }

  /** AND-ing with the complement of the mask of position `k` clears position `k` and no other. */
  lemma ByteBitsUnset(b: bv8, k: nat, j: nat)
    requires k < 8 && j < 8
    ensures ByteBits(b & !PositionMask(k))[j] == (j != k && ByteBits(b)[j])
  {
    ByteBitsAt(b & !PositionMask(k), j);
    ByteBitsAt(b, j);
    AndNotUnderMask(b, PositionMask(k), PositionMask(j));
    PositionMasksOverlap(k, j);
  }

  /** Bit `n` of the unpacked stream lies in byte `n / 8` at position `n % 8`. */
  lemma {:induction false} UnpackAt(s: seq<bv8>, n: nat)
    requires InBuffer(s, n)
    ensures Unpack(s)[n] == ByteBits(s[n / 8])[n % 8]
  {
    if n >= 8 {
      UnpackAt(s[1..], n - 8);
    }
  }

  /** GET_BIT reads bit `n` of the MSB-first bit stream. */
  lemma GetBitIsUnpacked(s: seq<bv8>, n: nat)
    requires InBuffer(s, n)
    ensures GetBit(s, n) == 1 <==> Unpack(s)[n]
  {
    UnpackAt(s, n);
    ByteBitsGet(s[n / 8], n % 8);
  }

  /** SET_BIT sets bit `n` of the bit stream and leaves every other bit as it was. */
  lemma UnpackWithBitSet(s: seq<bv8>, n: nat)
    requires InBuffer(s, n)
    ensures Unpack(WithBitSet(s, n)) == Unpack(s)[n := true]
  {
    var t := WithBitSet(s, n);
    forall m | 0 <= m < 8 * |s|
      ensures Unpack(t)[m] == Unpack(s)[n := true][m]
    {
      UnpackAt(t, m);
      UnpackAt(s, m);
      if m / 8 == n / 8 {
        BitMaskIsPositionMask(n);
        ByteBitsSet(s[n / 8], n % 8, m % 8);
      }
    }
  }

  /** UNSET_BIT clears bit `n` of the bit stream and leaves every other bit as it was. */
  lemma UnpackWithBitUnset(s: seq<bv8>, n: nat)
    requires InBuffer(s, n)
    ensures Unpack(WithBitUnset(s, n)) == Unpack(s)[n := false]
  {
    var t := WithBitUnset(s, n);
    forall m | 0 <= m < 8 * |s|
      ensures Unpack(t)[m] == Unpack(s)[n := false][m]
    {
      UnpackAt(t, m);
      UnpackAt(s, m);
      if m / 8 == n / 8 {
        BitMaskIsPositionMask(n);
        ByteBitsUnset(s[n / 8], n % 8, m % 8);
      }
    }
  }

  // ---------------------------------------------------------------------------
  // Properties of the macros
  // ---------------------------------------------------------------------------

  /** GET_BIT after SET_BIT on the same bit yields 1. */
  lemma GetAfterSet(s: seq<bv8>, n: nat)
    requires InBuffer(s, n)
    ensures GetBit(WithBitSet(s, n), n) == 1
  {
    UnpackWithBitSet(s, n);
    GetBitIsUnpacked(WithBitSet(s, n), n);
  }

  /** GET_BIT after UNSET_BIT on the same bit yields 0. */
  lemma GetAfterUnset(s: seq<bv8>, n: nat)
    requires InBuffer(s, n)
    ensures GetBit(WithBitUnset(s, n), n) == 0
  {
    UnpackWithBitUnset(s, n);
    GetBitIsUnpacked(WithBitUnset(s, n), n);
  }

  /** SET_BIT leaves every other bit of the buffer as it was, including the
      other seven bits of byte `n >> 3`. */
  lemma SetBitFrame(s: seq<bv8>, n: nat, m: nat)
    requires InBuffer(s, n) && InBuffer(s, m) && m != n
    ensures GetBit(WithBitSet(s, n), m) == GetBit(s, m)
  {
    UnpackWithBitSet(s, n);
    GetBitIsUnpacked(WithBitSet(s, n), m);
    GetBitIsUnpacked(s, m);
  }

  /** UNSET_BIT leaves every other bit of the buffer as it was. */
  lemma UnsetBitFrame(s: seq<bv8>, n: nat, m: nat)
    requires InBuffer(s, n) && InBuffer(s, m) && m != n
    ensures GetBit(WithBitUnset(s, n), m) == GetBit(s, m)
  {
    UnpackWithBitUnset(s, n);
    GetBitIsUnpacked(WithBitUnset(s, n), m);
    GetBitIsUnpacked(s, m);
  }

  /** A buffer is determined by its bit stream. */
  lemma {:induction false} UnpackInjective(s: seq<bv8>, t: seq<bv8>)
    requires Unpack(s) == Unpack(t)
    ensures s == t
  {
    if s != [] && t != [] {
      forall j | 0 <= j < 8
        ensures s[0] & PositionMask(j) == t[0] & PositionMask(j)
      {
        assert Unpack(s)[j] == ByteBits(s[0])[j];
        assert Unpack(t)[j] == ByteBits(t[0])[j];
        ByteBitsAt(s[0], j);
        ByteBitsAt(t[0], j);
      }
      ByteFromPositions(s[0], t[0]);
      assert Unpack(s[1..]) == Unpack(s)[8..];
      assert Unpack(t[1..]) == Unpack(t)[8..];
      UnpackInjective(s[1..], t[1..]);
      assert s == [s[0]] + s[1..];
      assert t == [t[0]] + t[1..];
    }
  }

  /** Two bytes that agree under every position mask are equal. */
  lemma ByteFromPositions(a: bv8, b: bv8)
    requires forall j :: 0 <= j < 8 ==> a & PositionMask(j) == b & PositionMask(j)
    ensures a == b
  {
    assert a & 0x80 == b & 0x80 by { assert PositionMask(0) == 0x80; }
    assert a & 0x40 == b & 0x40 by { assert PositionMask(1) == 0x40; }
    assert a & 0x20 == b & 0x20 by { assert PositionMask(2) == 0x20; }
    assert a & 0x10 == b & 0x10 by { assert PositionMask(3) == 0x10; }
    assert a & 0x08 == b & 0x08 by { assert PositionMask(4) == 0x08; }
    assert a & 0x04 == b & 0x04 by { assert PositionMask(5) == 0x04; }
    assert a & 0x02 == b & 0x02 by { assert PositionMask(6) == 0x02; }
    assert a & 0x01 == b & 0x01 by { assert PositionMask(7) == 0x01; }
  }

  /** SET_BIT twice on the same bit is SET_BIT once. */
  lemma SetBitIdempotent(s: seq<bv8>, n: nat)
    requires InBuffer(s, n)
    ensures WithBitSet(WithBitSet(s, n), n) == WithBitSet(s, n)
  {
    UnpackWithBitSet(s, n);
    UnpackWithBitSet(WithBitSet(s, n), n);
    UnpackInjective(WithBitSet(WithBitSet(s, n), n), WithBitSet(s, n));
  }

  /** UNSET_BIT twice on the same bit is UNSET_BIT once. */
  lemma UnsetBitIdempotent(s: seq<bv8>, n: nat)
    requires InBuffer(s, n)
    ensures WithBitUnset(WithBitUnset(s, n), n) == WithBitUnset(s, n)
  {
    UnpackWithBitUnset(s, n);
    UnpackWithBitUnset(WithBitUnset(s, n), n);
    UnpackInjective(WithBitUnset(WithBitUnset(s, n), n), WithBitUnset(s, n));
  }

  /** SET_BIT then UNSET_BIT on the same bit gives the original buffer with
      that bit cleared: the set leaves no trace. */
  lemma SetThenUnset(s: seq<bv8>, n: nat)
    requires InBuffer(s, n)
    ensures WithBitUnset(WithBitSet(s, n), n) == WithBitUnset(s, n)
  {
    UnpackWithBitSet(s, n);
    UnpackWithBitUnset(WithBitSet(s, n), n);
    UnpackWithBitUnset(s, n);
    UnpackInjective(WithBitUnset(WithBitSet(s, n), n), WithBitUnset(s, n));
  }

  /** UNSET_BIT then SET_BIT on the same bit gives the original buffer with
      that bit set. */
  lemma UnsetThenSet(s: seq<bv8>, n: nat)
    requires InBuffer(s, n)
    ensures WithBitSet(WithBitUnset(s, n), n) == WithBitSet(s, n)
  {
    UnpackWithBitUnset(s, n);
    UnpackWithBitSet(WithBitUnset(s, n), n);
    UnpackWithBitSet(s, n);
    UnpackInjective(WithBitSet(WithBitUnset(s, n), n), WithBitSet(s, n));
  }
}
