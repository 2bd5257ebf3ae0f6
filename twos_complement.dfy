/**
 * Big-endian two's-complement byte sequences, as java.math.BigInteger produces them
 * (toByteArray) and narrows them (intValue, longValue). A byte is its unsigned bit
 * pattern 0 .. 255; Java's signed view of a byte is not needed.
 */
module TwosComplement {

  /** One byte, as the unsigned value of its eight bits. */
  type Byte = b: int | 0 <= b < 256

  /** 256 to the power n: the number of bit patterns of an n-byte word. */
  function Pow256(n: nat): (r: nat)
    ensures r >= 1
  {
    if n == 0 then 1 else 256 * Pow256(n - 1)
  }

  /** x is representable as an n-byte two's-complement integer (so n is at least 1). */
  predicate Fits(x: int, n: nat) {
    n > 0 && -(Pow256(n) / 2) <= x < Pow256(n) / 2
  }

  /** The unsigned big-endian value of a byte sequence. */
  function Unsigned(bs: seq<Byte>): (r: nat)
    ensures r < Pow256(|bs|)
  {
    if bs == [] then 0 else Unsigned(bs[..|bs| - 1]) * 256 + bs[|bs| - 1]
  }

  /**
   * The two's-complement big-endian value of a byte sequence: the top bit of the
   * first byte is the sign. The empty sequence reads as 0.
   */
  function Signed(bs: seq<Byte>): (r: int)
    ensures |bs| > 0 ==> (r < 0 <==> bs[0] >= 0x80)
  {
    if bs != [] && bs[0] >= 0x80 then Unsigned(bs) - Pow256(|bs|) else Unsigned(bs)
  }

  /** The n low-order bytes of x, most significant first (x taken modulo 256^n). */
  function BytesOf(x: int, n: nat): (r: seq<Byte>)
    ensures |r| == n
    decreases n
  {
    if n == 0 then [] else BytesOf(x / 256, n - 1) + [x % 256]
  }

  /** The length BigInteger.toByteArray chooses for x: one byte, or one more than for x / 256. */
  function ByteLength(x: int): (n: nat)
    ensures n >= 1
    decreases if x < 0 then -x else x
  {
    if -128 <= x < 128 then 1 else 1 + ByteLength(x / 256)
  }

  /** BigInteger.toByteArray: big-endian two's complement in ByteLength(x) bytes. */
  function ToByteArray(x: int): (r: seq<Byte>)
    ensures |r| == ByteLength(x)
  {
    BytesOf(x, ByteLength(x))
  }

  /** BigInteger.intValue (n = 4) and longValue (n = 8): the low-order n bytes read back as signed. */
  function Narrow(x: int, n: nat): int {
    Signed(BytesOf(x, n))
  }

  /** The padding byte that sign-extends bs: 0xFF when its sign bit is set, 0x00 otherwise. */
  function SignPad(bs: seq<Byte>): Byte {
    if bs != [] && bs[0] >= 0x80 then 0xFF else 0x00
  }

  /** The byte b, k times. */
  function Repeat(b: Byte, k: nat): (r: seq<Byte>)
    ensures |r| == k
    ensures forall i :: 0 <= i < k ==> r[i] == b
  {
    seq(k, _ => b)
  }

  // ---------------------------------------------------------------------------
  // Decoding

  /** Multiplication by a non-negative factor is monotone. */
  lemma MulMonotone(a: int, b: int, c: nat)
    requires a <= b
    ensures a * c <= b * c
  {
  }

  /** Reading a leading byte: it contributes b * 256^|bs|. */
  lemma {:induction false} UnsignedCons(b: Byte, bs: seq<Byte>)
    ensures Unsigned([b] + bs) == b * Pow256(|bs|) + Unsigned(bs)
    decreases |bs|
  {
    if bs == [] {
      assert [b] + bs == [b];
      assert [b][..0] == [];
    } else {
      var pre, last := bs[..|bs| - 1], bs[|bs| - 1];
      assert ([b] + bs)[..|bs|] == [b] + pre;
      assert ([b] + bs)[|bs|] == last;
      UnsignedCons(b, pre);
      var hb, p, u := b, Pow256(|pre|), Unsigned(pre);
      calc {
        Unsigned([b] + bs);
        Unsigned(([b] + bs)[..|bs|]) * 256 + last;
        Unsigned([b] + pre) * 256 + last;
        (hb * p + u) * 256 + last;
        { Distribute(hb, p, u); }
        hb * (p * 256) + (u * 256 + last);
      }
    }
  }

  /** (a * b + c) * 256 splits into its two products. */
  lemma Distribute(a: nat, b: nat, c: nat)
    ensures (a * b + c) * 256 == a * (b * 256) + c * 256
  {
  }

  /** A non-empty sequence reads as a value in the signed range of its length. */
  lemma SignedRange(bs: seq<Byte>)
    requires |bs| > 0
    ensures Fits(Signed(bs), |bs|)
  {
    var rest := bs[1..];
    assert bs == [bs[0]] + rest;
    UnsignedCons(bs[0], rest);
    var p := Pow256(|rest|);
    assert Pow256(|bs|) == 256 * p;
    assert Pow256(|bs|) / 2 == 128 * p;
    if bs[0] >= 0x80 {
      MulMonotone(128, bs[0], p);
    } else {
      MulMonotone(bs[0], 127, p);
    }
  }

  /** Appending a low-order byte shifts the signed value up by one byte. */
  lemma SignedSnoc(pre: seq<Byte>, b: Byte)
    requires |pre| > 0
    ensures Signed(pre + [b]) == Signed(pre) * 256 + b
  {
    var bs := pre + [b];
    assert bs[..|bs| - 1] == pre;
    assert bs[0] == pre[0];
    assert Unsigned(bs) == Unsigned(pre) * 256 + b;
    assert Pow256(|bs|) == 256 * Pow256(|pre|);
  }

  /** Dividing by 256 moves a value from the n-byte range into the (n-1)-byte range. */
  lemma ShiftFits(x: int, n: nat)
    requires n >= 2
    ensures Fits(x, n) <==> Fits(x / 256, n - 1)
  {
    var p := Pow256(n - 2);
    assert Pow256(n - 1) == 256 * p;
    assert Pow256(n) == 256 * (256 * p);
    var h := 128 * p;
    assert Pow256(n - 1) / 2 == h;
    assert Pow256(n) / 2 == 256 * h;
  }

  /** The one-byte range is -128 .. 127. */
  lemma FitsOne(x: int)
    ensures Fits(x, 1) <==> -128 <= x < 128
  {
    assert Pow256(1) == 256;
  }

  /** Round trip: the n low-order bytes of an x that fits in n bytes read back as x. */
  lemma {:induction false} BytesOfRoundTrip(x: int, n: nat)
    requires Fits(x, n)
    ensures Signed(BytesOf(x, n)) == x
    decreases n
  {
    if n == 1 {
      FitsOne(x);
      SingleByteRoundTrip(x);
    } else {
      var q, r := x / 256, x % 256;
      var hi := BytesOf(q, n - 1);
      assert BytesOf(x, n) == hi + [r];
      ShiftFits(x, n);
      BytesOfRoundTrip(q, n - 1);
      assert Signed(hi) == q;
      SignedSnoc(hi, r);
      assert Signed(hi + [r]) == q * 256 + r;
    }
  }

  /** A value in the byte range reads back from its single low-order byte. */
  lemma SingleByteRoundTrip(x: int)
    requires -128 <= x < 128
    ensures Signed(BytesOf(x, 1)) == x
  {
    var b := x % 256;
    assert BytesOf(x, 1) == [b];
    assert [b][..0] == [];
    assert Unsigned([b]) == b;
    assert Pow256(1) == 256;
    if x < 0 {
      assert x % 256 == x + 256;
    } else {
      assert x % 256 == x;
    }
  }

  /** Narrowing keeps every value that fits the target width. */
  lemma NarrowKeepsFitting(x: int, n: nat)
    requires Fits(x, n)
    ensures Narrow(x, n) == x
  {
    BytesOfRoundTrip(x, n);
  }

  /** Narrowing always yields a value of the target width. */
  lemma NarrowFits(x: int, n: nat)
    requires n > 0
    ensures Fits(Narrow(x, n), n)
  {
    SignedRange(BytesOf(x, n));
  }

  // ---------------------------------------------------------------------------
  // BigInteger.toByteArray

  /** ByteLength(x) bytes hold x. */
  lemma {:induction false} ByteLengthFits(x: int)
    ensures Fits(x, ByteLength(x))
    decreases if x < 0 then -x else x
  {
    if !(-128 <= x < 128) {
      var q := x / 256;
      ByteLengthFits(q);
      var k := ByteLength(q);
      assert Pow256(k + 1) / 2 == 256 * (Pow256(k) / 2) by {
        if k == 1 {
          assert Pow256(1) == 256;
        } else {
          assert Pow256(k) == 256 * Pow256(k - 1);
        }
      }
    } else {
      assert Pow256(1) == 256;
    }
  }

  /** No fewer bytes hold x: ByteLength(x) is the minimum. */
  lemma {:induction false} ByteLengthMinimal(x: int, n: nat)
    requires Fits(x, n)
    ensures ByteLength(x) <= n
    decreases n
  {
    assert Pow256(1) == 256;
    if !(-128 <= x < 128) {
      assert n >= 2;
      var h := Pow256(n - 1) / 2;
      assert Pow256(n - 1) == 256 * Pow256(n - 2);
      assert Pow256(n) / 2 == 256 * h;
      ByteLengthMinimal(x / 256, n - 1);
    }
  }

  /**
   * BigInteger.toByteArray is a faithful encoding: the bytes read back as x, and no
   * shorter two's-complement form of x exists.
   */
  lemma ToByteArrayCorrect(x: int)
    ensures Signed(ToByteArray(x)) == x
    ensures forall n :: Fits(x, n) ==> |ToByteArray(x)| <= n
  {
    ByteLengthFits(x);
    BytesOfRoundTrip(x, ByteLength(x));
    forall n | Fits(x, n) ensures ByteLength(x) <= n {
      ByteLengthMinimal(x, n);
    }
  }

  // ---------------------------------------------------------------------------
  // Sign extension

  /** One sign byte in front leaves the value unchanged. */
  lemma SignExtendByte(bs: seq<Byte>)
    requires |bs| > 0
    ensures Signed([SignPad(bs)] + bs) == Signed(bs)
  {
    var p := SignPad(bs);
    UnsignedCons(p, bs);
    assert ([p] + bs)[0] == p;
    assert Pow256(|bs| + 1) == 256 * Pow256(|bs|);
  }

  /** Any number of sign bytes in front leave the value unchanged. */
  lemma {:induction false} SignExtend(bs: seq<Byte>, k: nat)
    requires |bs| > 0
    ensures Signed(Repeat(SignPad(bs), k) + bs) == Signed(bs)
    decreases k
  {
    if k > 0 {
      var p := SignPad(bs);
      var tail := Repeat(p, k - 1) + bs;
      assert Repeat(p, k) == [p] + Repeat(p, k - 1);
      assert Repeat(p, k) + bs == [p] + tail;
      SignExtend(bs, k - 1);
      if k > 1 {
        assert tail[0] == p;
      } else {
        assert tail == bs;
      }
      assert SignPad(tail) == p;
      SignExtendByte(tail);
    } else {
      assert Repeat(SignPad(bs), 0) + bs == bs;
    }
  }
}
