/** Bytes and the bit order shared by the codecs. */
module Bytes {

  /** Mask of bit k of a byte, most significant first (0x80 shifted right by k). */
  function Mask(k: nat): bv8
    requires k < 8
  {
    match k
    case 0 => 0x80
    case 1 => 0x40
    case 2 => 0x20
    case 3 => 0x10
    case 4 => 0x08
    case 5 => 0x04
    case 6 => 0x02
    case 7 => 0x01
  }

  predicate BitOf(b: bv8, k: nat)
    requires k < 8
  {
    b & Mask(k) != 0
  }

  /** Bit 0 is the most significant one. */
  lemma MostSignificantFirst(j: nat)
    requires j < 8
    ensures BitOf(0x80, j) <==> j == 0
    ensures BitOf(0x40, j) <==> j == 1
    ensures BitOf(0x20, j) <==> j == 2
    ensures BitOf(0x10, j) <==> j == 3
    ensures BitOf(0x08, j) <==> j == 4
    ensures BitOf(0x04, j) <==> j == 5
    ensures BitOf(0x02, j) <==> j == 6
    ensures BitOf(0x01, j) <==> j == 7
  {
  }

  lemma SetBit(b: bv8, k: nat, j: nat)
    requires k < 8 && j < 8
    ensures BitOf(b | Mask(k), j) <==> j == k || BitOf(b, j)
  {
    var m, n := Mask(k), Mask(j);
    assert (b | m) & n == (b & n) | (m & n);
    assert m & n == if j == k then n else 0;
  }

  /** A byte as a number, for the codecs that compute with lengths and addresses. */
  type Byte = x: int | 0 <= x < 256

  /** A flag as part of a field. */
  function BitWeight(b: bool, w: nat): nat { if b then w else 0 }

  /** Unsigned fields of 16 and 32 bits. */
  type Word16 = x: int | 0 <= x < 0x1_0000
  type Word32 = x: int | 0 <= x < 0x1_0000_0000

  datatype Option<T> = None | Some(value: T)

  // ---- The same byte as a bit vector, for the checksums ----

  function Bit(b: bool, mask: bv8): bv8 { if b then mask else 0 }

  function FromBits(b0: bool, b1: bool, b2: bool, b3: bool, b4: bool, b5: bool, b6: bool, b7: bool): bv8 {
    Bit(b0, 0x80) | Bit(b1, 0x40) | Bit(b2, 0x20) | Bit(b3, 0x10) | Bit(b4, 0x08) | Bit(b5, 0x04) | Bit(b6, 0x02) |
    Bit(b7, 0x01)
  }

  /** A number and one more binary digit. */
  function More(n: nat, b: bool): nat { 2 * n + if b then 1 else 0 }

  function Horner(b0: bool, b1: bool, b2: bool, b3: bool, b4: bool, b5: bool, b6: bool, b7: bool): nat {
    More(More(More(More(More(More(More(More(0, b0), b1), b2), b3), b4), b5), b6), b7)
  }

  /** Digit k of a number, 0 for the units. */
  function Halved(x: nat, k: nat): nat {
    if k == 0 then x else Halved(x, k - 1) / 2
  }

  predicate Digit(x: nat, k: nat) {
    Halved(x, k) % 2 == 1
  }

  function ToOctet(x: Byte): bv8 {
    FromBits(Digit(x, 7), Digit(x, 6), Digit(x, 5), Digit(x, 4), Digit(x, 3), Digit(x, 2), Digit(x, 1), Digit(x, 0))
  }

  function FromOctet(b: bv8): (x: Byte) {
    HornerIsByte(BitOf(b, 0), BitOf(b, 1), BitOf(b, 2), BitOf(b, 3), BitOf(b, 4), BitOf(b, 5), BitOf(b, 6),
                 BitOf(b, 7));
    Horner(BitOf(b, 0), BitOf(b, 1), BitOf(b, 2), BitOf(b, 3), BitOf(b, 4), BitOf(b, 5), BitOf(b, 6), BitOf(b, 7))
  }

  lemma HornerIsByte(b0: bool, b1: bool, b2: bool, b3: bool, b4: bool, b5: bool, b6: bool, b7: bool)
    ensures Horner(b0, b1, b2, b3, b4, b5, b6, b7) < 256
  {
  }

  lemma BitsOfOctet(b0: bool, b1: bool, b2: bool, b3: bool, b4: bool, b5: bool, b6: bool, b7: bool)
    ensures var b := FromBits(b0, b1, b2, b3, b4, b5, b6, b7);
            BitOf(b, 0) == b0 && BitOf(b, 1) == b1 && BitOf(b, 2) == b2 && BitOf(b, 3) == b3 &&
            BitOf(b, 4) == b4 && BitOf(b, 5) == b5 && BitOf(b, 6) == b6 && BitOf(b, 7) == b7
  {
  }

  lemma OctetOfBits(b: bv8)
    ensures FromBits(BitOf(b, 0), BitOf(b, 1), BitOf(b, 2), BitOf(b, 3), BitOf(b, 4), BitOf(b, 5), BitOf(b, 6),
                     BitOf(b, 7)) == b
  {
  }

  lemma {:induction false} HalvedIsMore(x: nat, k: nat)
    ensures Halved(x, k) == More(Halved(x, k + 1), Digit(x, k))
  {
  }

  lemma TopHalf(x: Byte)
    ensures Halved(x, 8) == 0
  {
    assert Halved(x, 1) < 128;
    assert Halved(x, 2) < 64;
    assert Halved(x, 3) < 32;
    assert Halved(x, 4) < 16;
    assert Halved(x, 5) < 8;
    assert Halved(x, 6) < 4;
    assert Halved(x, 7) < 2;
  }

  lemma DigitsOfNumber(x: Byte)
    ensures Horner(Digit(x, 7), Digit(x, 6), Digit(x, 5), Digit(x, 4), Digit(x, 3), Digit(x, 2), Digit(x, 1),
                   Digit(x, 0)) == x
  {
    hide Halved, Digit, More;
    TopHalf(x);
    HalvedIsMore(x, 7);
    HalvedIsMore(x, 6);
    HalvedIsMore(x, 5);
    HalvedIsMore(x, 4);
    HalvedIsMore(x, 3);
    HalvedIsMore(x, 2);
    HalvedIsMore(x, 1);
    HalvedIsMore(x, 0);
    NotHalved(x);
  }

  lemma NotHalved(x: nat)
    ensures Halved(x, 0) == x
  {
  }

  lemma DigitOfMore(n: nat, b: bool, x: nat, k: nat)
    requires Halved(x, k) == More(n, b)
    ensures Digit(x, k) == b && Halved(x, k + 1) == n
  {
  }

  lemma DigitsOfHorner(b0: bool, b1: bool, b2: bool, b3: bool, b4: bool, b5: bool, b6: bool, b7: bool)
    ensures var x := Horner(b0, b1, b2, b3, b4, b5, b6, b7);
            Digit(x, 7) == b0 && Digit(x, 6) == b1 && Digit(x, 5) == b2 && Digit(x, 4) == b3 &&
            Digit(x, 3) == b4 && Digit(x, 2) == b5 && Digit(x, 1) == b6 && Digit(x, 0) == b7
  {
    hide More, Digit, Halved;
    var n1 := More(0, b0);
    var n2 := More(n1, b1);
    var n3 := More(n2, b2);
    var n4 := More(n3, b3);
    var n5 := More(n4, b4);
    var n6 := More(n5, b5);
    var n7 := More(n6, b6);
    var x := More(n7, b7);
    NotHalved(x);
    DigitOfMore(n7, b7, x, 0);
    DigitOfMore(n6, b6, x, 1);
    DigitOfMore(n5, b5, x, 2);
    DigitOfMore(n4, b4, x, 3);
    DigitOfMore(n3, b3, x, 4);
    DigitOfMore(n2, b2, x, 5);
    DigitOfMore(n1, b1, x, 6);
    DigitOfMore(0, b0, x, 7);
  }

  /** The two forms of a byte determine each other. */
  lemma OctetBack(b: bv8)
    ensures ToOctet(FromOctet(b)) == b
  {
    hide BitOf, FromBits, Horner, Digit;
    DigitsOfHorner(BitOf(b, 0), BitOf(b, 1), BitOf(b, 2), BitOf(b, 3), BitOf(b, 4), BitOf(b, 5), BitOf(b, 6),
                   BitOf(b, 7));
    OctetOfBits(b);
  }

  lemma ByteBack(x: Byte)
    ensures FromOctet(ToOctet(x)) == x
  {
    hide BitOf, FromBits, Horner, Digit;
    BitsOfOctet(Digit(x, 7), Digit(x, 6), Digit(x, 5), Digit(x, 4), Digit(x, 3), Digit(x, 2), Digit(x, 1), Digit(x, 0));
    DigitsOfNumber(x);
  }

  function Octets(p: seq<Byte>): (s: seq<bv8>)
    ensures |s| == |p|
  {
    seq(|p|, i requires 0 <= i < |p| => ToOctet(p[i]))
  }

  lemma SliceOfSlice(d: seq<Byte>, from: nat, to: nat, a: nat, b: nat)
    requires a <= b <= to - from && from <= to <= |d|
    ensures d[from..to][a..b] == d[from + a..from + b]
  {
    var x, y := d[from..to][a..b], d[from + a..from + b];
    assert |x| == |y|;
    forall i | 0 <= i < |x|
      ensures x[i] == y[i]
    {
      assert x[i] == d[from..to][a + i] == d[from + (a + i)];
    }
  }

  function Put16(v: nat): (p: seq<Byte>)
    requires v < 0x1_0000
    ensures |p| == 2
  {
    [v % 256, v / 256]
  }

  function Put32(v: nat): (p: seq<Byte>)
    requires v < 0x1_0000_0000
    ensures |p| == 4
  {
    [v % 256, v / 256 % 256, v / 0x1_0000 % 256, v / 0x100_0000]
  }

  function Get16(p: seq<Byte>, at: nat): (v: nat)
    requires at + 2 <= |p|
    ensures v < 0x1_0000
  {
    var low: int, high: int := p[at], p[at + 1];
    low + 256 * high
  }

  function Get32(p: seq<Byte>, at: nat): (v: nat)
    requires at + 4 <= |p|
    ensures v < 0x1_0000_0000
  {
    var a: int, b: int, c: int, d: int := p[at], p[at + 1], p[at + 2], p[at + 3];
    a + 256 * b + 0x1_0000 * c + 0x100_0000 * d
  }

  lemma GetPut16(v: nat, p: seq<Byte>, at: nat)
    requires v < 0x1_0000 && at + 2 <= |p| && p[at..at + 2] == Put16(v)
    ensures Get16(p, at) == v
  {
    assert p[at] == p[at..at + 2][0] && p[at + 1] == p[at..at + 2][1];
  }

  lemma GetPut32(v: nat, p: seq<Byte>, at: nat)
    requires v < 0x1_0000_0000 && at + 4 <= |p| && p[at..at + 4] == Put32(v)
    ensures Get32(p, at) == v
  {
    var w := p[at..at + 4];
    assert p[at] == w[0] && p[at + 1] == w[1] && p[at + 2] == w[2] && p[at + 3] == w[3];
    var a, b := v / 256, v / 0x1_0000;
    assert b == a / 256 && v / 0x100_0000 == b / 256;
    assert v == 256 * a + v % 256 && a == 256 * b + a % 256 && b == 256 * (b / 256) + b % 256;
  }
}
