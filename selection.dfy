/** The selection bitmap of the delete command: a `long long` whose bit
    `i - 1` records that display position `i` is selected, for positions
    1 .. BitMapSize. Setting or testing any other integer is a harmless no-op. */
module Selection {

  /** `sizeof(long long) * 8`. */
  const BitMapSize: int := 64

  predicate InRange(i: int) {
    1 <= i <= BitMapSize
  }

  /** The shift amount `i - 1` for position `i`. */
  function Shift(i: int): (s: bv7)
    requires InRange(i)
    ensures s < 64 && s as int == i - 1
  {
    (i - 1) as bv7
  }

  /** The bit of position `i`, as intended: bit `i - 1` of the 64-bit word.
      The C code's `1<<(i-1)` is a 32-bit `int` shift, which overflows or is
      undefined for positions 32 .. 64 (see `WrittenMask`). */
  function Mask(i: int): (m: bv64)
    requires InRange(i)
    ensures m != 0 && m & (m - 1) == 0
    ensures m >> Shift(i) == 1
  {
    (1 as bv64) << Shift(i)
  }

  lemma ShiftInjective(i: int, j: int)
    requires InRange(i) && InRange(j)
    ensures (Shift(i) == Shift(j)) == (i == j)
  {
  }

  /** Or-ing in one single-bit mask changes no other bit. */
  lemma OrMask(b: bv64, s: bv7, t: bv7)
    requires s < 64 && t < 64
    ensures ((b | ((1 as bv64) << s)) & ((1 as bv64) << t) != 0) == (s == t || b & ((1 as bv64) << t) != 0)
  {
  }

  lemma OrMaskAt(b: bv64, i: int, j: int)
    requires InRange(i) && InRange(j)
    ensures ((b | Mask(i)) & Mask(j) != 0) == (j == i || b & Mask(j) != 0)
  {
    ShiftInjective(i, j);
    OrMask(b, Shift(i), Shift(j));
  }

  /** `BitMapGet` on the word `b`: 1 when `i` is in range and its bit is set. */
  function Bit(b: bv64, i: int): (r: int)
    ensures r == 0 || r == 1
    ensures r == 1 ==> InRange(i)
  {
    if i <= 0 || i > BitMapSize then 0
    else if b & Mask(i) != 0 then 1 else 0
  }

  /** The empty word selects nothing. */
  lemma BitOfZero(i: int)
    ensures Bit(0, i) == 0
  {
    if InRange(i) {
      assert (0 as bv64) & Mask(i) == 0;
    }
  }

  /** Setting position `i` selects `i` and leaves every other position as it
      was, in range or not. */
  lemma BitOfSet(b: bv64, i: int, j: int)
    requires InRange(i)
    ensures Bit(b | Mask(i), j) == if j == i then 1 else Bit(b, j)
  {
    if InRange(j) {
      OrMaskAt(b, i, j);
    }
  }

  lemma BitsOfSet(b: bv64, i: int)
    requires InRange(i)
    ensures forall j :: Bit(b | Mask(i), j) == if j == i then 1 else Bit(b, j)
  {
    forall j ensures Bit(b | Mask(i), j) == if j == i then 1 else Bit(b, j) {
      BitOfSet(b, i, j);
    }
  }

  /** The mask `1<<(i-1)` as the C code computes it, in 32-bit `int`, on
      x86-64 with the usual code generation: the shift count is taken modulo
      32, shifting into the sign bit gives INT_MIN, and the `int` is
      sign-extended when combined with the `long long` word. */
  function WrittenMask(i: int): (m: bv64)
    requires InRange(i)
    ensures i <= 31 ==> m == Mask(i)
  {
    var s := (i - 1) % 32;
    if s == 31 then 0xFFFF_FFFF_8000_0000 else (1 as bv64) << (s as bv7)
  }

  /** As written, every position from 33 to 63 gets the mask of the
      position 32 below it. */
  lemma WrittenMaskWraps(i: int)
    requires 33 <= i <= 63
    ensures WrittenMask(i) == Mask(i - 32)
  {
    assert (i - 1) % 32 == i - 33;
  }

  /** `BitMapGet` with the mask as written. */
  function WrittenBit(b: bv64, i: int): (r: int)
    ensures r == 0 || r == 1
  {
    if i <= 0 || i > BitMapSize then 0
    else if b & WrittenMask(i) != 0 then 1 else 0
  }

  /** As written, positions 33 to 64 share their bit with the position 32
      below them: setting 33 selects position 1 and setting 40 selects
      position 8; with the intended mask neither happens. */
  lemma WrittenMaskAliases()
    ensures WrittenBit(0 | WrittenMask(33), 1) == 1 && Bit(0 | Mask(33), 1) == 0
    ensures WrittenBit(0 | WrittenMask(40), 8) == 1 && Bit(0 | Mask(40), 8) == 0
  {
    assert WrittenMask(33) == 1;
    assert WrittenMask(40) == 0x80 && WrittenMask(8) == 0x80;
    assert Mask(33) == 0x1_0000_0000 && Mask(1) == 1;
    assert Mask(40) == 0x80_0000_0000 && Mask(8) == 0x80;
  }

  class BitMap {
    var bits: bv64

    /** The declaration `BitMap todel;`: the word's contents are undefined
        until `Empty` clears them. */
    constructor () {
    }

    /** `BitMapGet`: total over `int`; out-of-range positions read as 0. */
    function Get(i: int): (r: int)
      reads this
      ensures r == 0 || r == 1
      ensures r == 1 ==> InRange(i)
    {
      Bit(bits, i)
    }

    /** `BitMapEmpty`: afterwards no position is selected. */
    method Empty()
      modifies this
      ensures forall j :: Get(j) == 0
    {
      bits := 0;
      forall j ensures Bit(bits, j) == 0 {
        BitOfZero(j);
      }
    }

    /** `BitMapSet`: returns 1 and selects `i` when `i` is in range; returns 0
        and changes nothing otherwise. No other position changes either way. */
    method Set(i: int) returns (ok: int)
      modifies this
      ensures ok == if InRange(i) then 1 else 0
      ensures forall j :: Get(j) == if ok == 1 && j == i then 1 else old(Get(j))
    {
      if i <= 0 || i > BitMapSize {
        return 0;
      }
      ghost var before := bits;
      bits := bits | Mask(i);
      BitsOfSet(before, i);
      assert forall j :: Get(j) == Bit(before | Mask(i), j);
      return 1;
    }
  }
}
