/**
 * Byte-order arithmetic behind the numeric reads of a ByteArray: how 1, 2, 4
 * or 8 bytes combine into an unsigned value least or most significant byte
 * first, and the two's-complement view of that value.
 */
module ByteOrder {

  /** One octet of a buffer. */
  type byte = b: int | 0 <= b < 0x100

  /** The two byte orders a numeric read can use. */
  datatype Endianness = Little | Big

  /** 256 to the power n: the number of distinct values of n bytes. */
  function Pow256(n: nat): (p: nat)
    ensures p >= 1
  {
    if n == 0 then 1 else 0x100 * Pow256(n - 1)
  }

  /** The ranges of the 1-, 2-, 4- and 8-byte reads. */
  lemma PowersOf256()
    ensures Pow256(1) == 0x100 && Pow256(2) == 0x1_0000
    ensures Pow256(4) == 0x1_0000_0000 && Pow256(8) == 0x1_0000_0000_0000_0000
  {
  }

  /** The value of `bs` read least significant byte first. */
  function LittleEndian(bs: seq<byte>): (v: nat)
    ensures v < Pow256(|bs|)
  {
    if bs == [] then 0 else bs[0] + 0x100 * LittleEndian(bs[1..])
  }

  /** The value of `bs` read most significant byte first. */
  function BigEndian(bs: seq<byte>): (v: nat)
    ensures v < Pow256(|bs|)
  {
    if bs == [] then 0 else 0x100 * BigEndian(bs[..|bs| - 1]) + bs[|bs| - 1]
  }

  /** The unsigned value of `bs` in the given byte order. */
  function Unsigned(bs: seq<byte>, order: Endianness): (v: nat)
    ensures v < Pow256(|bs|)
  {
    match order
    case Little => LittleEndian(bs)
    case Big => BigEndian(bs)
  }

  /** The byte that carries the highest weight in `bs` under `order`. */
  function MostSignificant(bs: seq<byte>, order: Endianness): (b: byte)
    requires |bs| >= 1
    ensures b in bs
  {
    match order
    case Little => bs[|bs| - 1]
    case Big => bs[0]
  }

  /** Half the range of `width` bytes: the smallest value whose sign bit is set. */
  function SignBit(width: nat): (half: int)
    requires width >= 1
    ensures 2 * half == Pow256(width)
  {
    0x80 * Pow256(width - 1)
  }

  /**
   * The two's-complement reading of the `width`-byte unsigned value `u`: the
   * one value in the signed range that is congruent to `u` modulo 256^width.
   */
  function ToSigned(u: int, width: nat): (s: int)
    requires width >= 1 && 0 <= u < Pow256(width)
    ensures -SignBit(width) <= s < SignBit(width)
    ensures s == u || s == u - Pow256(width)
  {
    if u < SignBit(width) then u else u - Pow256(width)
  }

  /** `bs` in the opposite order. */
  function Reverse(bs: seq<byte>): (r: seq<byte>)
    ensures |r| == |bs|
    ensures forall i :: 0 <= i < |bs| ==> r[i] == bs[|bs| - 1 - i]
  {
    if bs == [] then [] else [bs[|bs| - 1]] + Reverse(bs[..|bs| - 1])
  }

  /** Reading most significant byte first is reading the reversed bytes least significant first. */
  lemma {:induction false} BigEndianIsReversedLittleEndian(bs: seq<byte>)
    ensures BigEndian(bs) == LittleEndian(Reverse(bs))
  {
    if bs != [] {
      var r := Reverse(bs);
      assert r[1..] == Reverse(bs[..|bs| - 1]);
      BigEndianIsReversedLittleEndian(bs[..|bs| - 1]);
    }
  }

  /** Distinct byte strings of one width decode to distinct little-endian values. */
  lemma {:induction false} LittleEndianInjective(a: seq<byte>, b: seq<byte>)
    requires |a| == |b| && LittleEndian(a) == LittleEndian(b)
    ensures a == b
  {
    if a != [] {
      assert a[0] == b[0];
      LittleEndianInjective(a[1..], b[1..]);
      assert a == [a[0]] + a[1..];
      assert b == [b[0]] + b[1..];
    }
  }

  /** Distinct byte strings of one width decode to distinct big-endian values. */
  lemma {:induction false} BigEndianInjective(a: seq<byte>, b: seq<byte>)
    requires |a| == |b| && BigEndian(a) == BigEndian(b)
    ensures a == b
  {
    if a != [] {
      var n := |a|;
      assert a[n - 1] == b[n - 1];
      BigEndianInjective(a[..n - 1], b[..n - 1]);
      assert a == a[..n - 1] + [a[n - 1]];
      assert b == b[..n - 1] + [b[n - 1]];
    }
  }

  /**
   * Splitting a little-endian string at `k`: the low `k` bytes give the low
   * part and the rest is weighted by 256^k (a 64-bit read is the low 32-bit
   * word plus 2^32 times the high word).
   */
  lemma {:induction false} LittleEndianSplit(bs: seq<byte>, k: nat)
    requires k <= |bs|
    ensures LittleEndian(bs) == LittleEndian(bs[..k]) + Pow256(k) * LittleEndian(bs[k..])
  {
    if k == 0 {
      assert bs[k..] == bs;
    } else {
      var rest := bs[1..];
      LittleEndianSplit(rest, k - 1);
      assert rest[..k - 1] == bs[..k][1..];
      assert rest[k - 1..] == bs[k..];
      var low, high, p := LittleEndian(bs[..k][1..]), LittleEndian(bs[k..]), Pow256(k - 1);
      assert LittleEndian(rest) == low + p * high;
      assert LittleEndian(bs[..k]) == bs[0] + 0x100 * low;
      assert LittleEndian(bs) == bs[0] + 0x100 * LittleEndian(rest);
      assert Pow256(k) == 0x100 * p;
      Regroup(bs[0], low, p, high);
    }
  }

  /**
   * Splitting a big-endian string at `k`: the first `k` bytes are weighted by
   * 256 to the number of bytes after them.
   */
  lemma {:induction false} BigEndianSplit(bs: seq<byte>, k: nat)
    requires k <= |bs|
    ensures BigEndian(bs) == BigEndian(bs[..k]) * Pow256(|bs| - k) + BigEndian(bs[k..])
  {
    if k == |bs| {
      assert bs[..k] == bs;
    } else {
      var n := |bs|;
      var init := bs[..n - 1];
      BigEndianSplit(init, k);
      assert init[..k] == bs[..k];
      assert init[k..] == bs[k..][..n - 1 - k];
      var high, low, p := BigEndian(bs[..k]), BigEndian(bs[k..][..n - 1 - k]), Pow256(n - 1 - k);
      assert BigEndian(init) == high * p + low;
      assert BigEndian(bs[k..]) == 0x100 * low + bs[n - 1];
      assert Pow256(n - k) == 0x100 * p;
      MulAssoc(0x100, p, high);
      calc {
        BigEndian(bs);
        0x100 * BigEndian(init) + bs[n - 1];
        0x100 * (high * p) + 0x100 * low + bs[n - 1];
        high * (0x100 * p) + BigEndian(bs[k..]);
      }
    }
  }

  /** Multiplication regrouped, stated once for the splitting proofs. */
  lemma MulAssoc(a: int, b: int, c: int)
    ensures a * (b * c) == (a * b) * c && a * (c * b) == (a * b) * c
  {
  }

  /** One more byte below a split: its weight shifts the rest by 256. */
  lemma Regroup(b: int, low: int, p: int, high: int)
    ensures b + 0x100 * (low + p * high) == (b + 0x100 * low) + (0x100 * p) * high
  {
    MulAssoc(0x100, p, high);
  }

  /**
   * The two's-complement value of a little-endian string is its low bytes read
   * unsigned plus its top byte read as a signed byte, weighted: the sign comes
   * from the top byte alone.
   */
  lemma SignExtendsTopByte(bs: seq<byte>)
    requires |bs| >= 1
    ensures ToSigned(LittleEndian(bs), |bs|)
            == LittleEndian(bs[..|bs| - 1]) + Pow256(|bs| - 1) * ToSigned(bs[|bs| - 1], 1)
  {
    LittleEndianLast(bs);
    TopByteSign(LittleEndian(bs), LittleEndian(bs[..|bs| - 1]), bs[|bs| - 1], |bs|);
  }

  /** The top byte of a little-endian string carries weight 256^(n-1). */
  lemma LittleEndianLast(bs: seq<byte>)
    requires |bs| >= 1
    ensures LittleEndian(bs) == LittleEndian(bs[..|bs| - 1]) + Pow256(|bs| - 1) * bs[|bs| - 1]
  {
    var n := |bs|;
    LittleEndianSplit(bs, n - 1);
    var top := bs[n - 1..];
    assert top[1..] == [];
    assert LittleEndian(top) == bs[n - 1];
  }

  /** SignExtendsTopByte on values: `u` made of a low part below 256^(n-1) and a top byte. */
  lemma TopByteSign(u: nat, lowValue: nat, top: byte, n: nat)
    requires n >= 1 && lowValue < Pow256(n - 1) && u < Pow256(n)
    requires u == lowValue + Pow256(n - 1) * top
    ensures ToSigned(u, n) == lowValue + Pow256(n - 1) * ToSigned(top, 1)
  {
    var p := Pow256(n - 1);
    assert Pow256(n) == 0x100 * p && SignBit(n) == 0x80 * p;
    assert Pow256(1) == 0x100 && SignBit(1) == 0x80;
    SignSplit(lowValue, top, p);
    if top < 0x80 {
      assert ToSigned(top, 1) == top;
      assert ToSigned(u, n) == u;
    } else {
      assert ToSigned(top, 1) == top as int - 0x100;
      assert ToSigned(u, n) == u - 0x100 * p;
    }
  }

  /**
   * The arithmetic of SignExtendsTopByte: for a value made of a low part
   * below p and a top byte weighted by p, the sign bit is the top byte's.
   */
  lemma SignSplit(lowValue: int, top: int, p: int)
    requires 0 <= lowValue < p && 0 <= top < 0x100
    ensures lowValue + p * top < 0x80 * p <==> top < 0x80
    ensures top >= 0x80 ==> lowValue + p * top - 0x100 * p == lowValue + p * (top - 0x100)
  {
    if top < 0x80 {
      MulMonotone(p, top, 0x7F);
    } else {
      MulMonotone(p, 0x80, top);
    }
  }

  /** Multiplying by a non-negative factor keeps the order. */
  lemma MulMonotone(p: int, a: int, b: int)
    requires p >= 0 && a <= b
    ensures p * a <= p * b
  {
  }

  /** A signed read is negative exactly when its most significant byte is 0x80 or more. */
  lemma SignOfMostSignificantByte(bs: seq<byte>, order: Endianness)
    requires |bs| >= 1
    ensures ToSigned(Unsigned(bs, order), |bs|) < 0 <==> MostSignificant(bs, order) >= 0x80
  {
    var n := |bs|;
    var le := if order == Little then bs else Reverse(bs);
    if order == Big {
      BigEndianIsReversedLittleEndian(bs);
    }
    assert Unsigned(bs, order) == LittleEndian(le);
    var top := le[n - 1];
    assert top == MostSignificant(bs, order);
    SignExtendsTopByte(le);
    var p, lowValue := Pow256(n - 1), LittleEndian(le[..n - 1]);
    assert lowValue < p;
    assert Pow256(1) == 0x100 && SignBit(1) == 0x80;
    var s := ToSigned(top, 1);
    assert ToSigned(LittleEndian(le), n) == lowValue + p * s;
    if top >= 0x80 {
      assert s <= -1;
      MulMonotone(p, s, -1);
    } else {
      assert s >= 0;
      MulMonotone(p, 0, s);
    }
  }

  /** The explicit two-byte formulas of the 16-bit reads. */
  lemma Bytes16(bs: seq<byte>)
    requires |bs| == 2
    ensures LittleEndian(bs) == bs[0] as int + 0x100 * bs[1] as int
    ensures BigEndian(bs) == 0x100 * bs[0] as int + bs[1] as int
  {
    assert bs[1..][1..] == [];
    assert bs[..1][..0] == [];
  }

  /** The explicit four-byte formulas of the 32-bit reads. */
  lemma Bytes32(bs: seq<byte>)
    requires |bs| == 4
    ensures LittleEndian(bs)
            == bs[0] as int + 0x100 * bs[1] as int + 0x1_0000 * bs[2] as int + 0x100_0000 * bs[3] as int
    ensures BigEndian(bs)
            == 0x100_0000 * bs[0] as int + 0x1_0000 * bs[1] as int + 0x100 * bs[2] as int + bs[3] as int
  {
    LittleEndianSplit(bs, 2);
    BigEndianSplit(bs, 2);
    Bytes16(bs[..2]);
    Bytes16(bs[2..]);
  }

  /** The 64-bit reads: two 32-bit words, the high word weighted by 2^32. */
  lemma Bytes64(bs: seq<byte>)
    requires |bs| == 8
    ensures LittleEndian(bs) == LittleEndian(bs[..4]) + 0x1_0000_0000 * LittleEndian(bs[4..])
    ensures BigEndian(bs) == 0x1_0000_0000 * BigEndian(bs[..4]) + BigEndian(bs[4..])
  {
    PowersOf256();
    LittleEndianSplit(bs, 4);
    BigEndianSplit(bs, 4);
    assert |bs| - 4 == 4;
  }
}
