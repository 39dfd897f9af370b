/**
  Big-endian integer encoding, the byte order of `u32::to_be_bytes`,
  `usize::to_be_bytes` and their `from_be_bytes` inverses.
 */
module BigEndian {
  import opened Primitives

  /** Width in bytes of the `message_id` field. */
  const U32_WIDTH: nat := 4

  /** Width in bytes of a `usize` length field on a 64-bit target. */
  const USIZE_WIDTH: nat := 8

  function Pow256(n: nat): (r: nat)
    ensures r > 0
  {
    if n == 0 then 1 else 256 * Pow256(n - 1)
  }

  lemma Pow256Widths()
    ensures Pow256(U32_WIDTH) == U32_MODULUS
    ensures Pow256(USIZE_WIDTH) == 0x1_0000_0000_0000_0000
  {
  }

  /** The unsigned number a big-endian byte string denotes: the first byte is the most significant. */
  function Value(s: seq<byte>): (r: nat)
    ensures r < Pow256(|s|)
  {
    if s == [] then 0
    else
      var r := Value(s[..|s| - 1]);
      assert r * 256 + 255 < 256 * Pow256(|s| - 1) by {
        assert r + 1 <= Pow256(|s| - 1);
      }
      r * 256 + s[|s| - 1]
  }

  /** The `width`-byte big-endian form of `n`; the source only encodes values that fit. */
  function Encode(n: nat, width: nat): (r: seq<byte>)
    requires n < Pow256(width)
    ensures |r| == width
    ensures Value(r) == n
  {
    if width == 0 then []
    else
      var high := Encode(n / 256, width - 1);
      assert (high + [n % 256])[..width - 1] == high;
      high + [n % 256]
  }

  /** The other half of the bijection: at a fixed width, a byte string is the encoding of its own value. */
  lemma {:induction false} EncodeValue(s: seq<byte>)
    ensures Encode(Value(s), |s|) == s
  {
    if s != [] {
      var init := s[..|s| - 1];
      EncodeValue(init);
      assert Value(s) / 256 == Value(init);
      assert Value(s) % 256 == s[|s| - 1];
      assert s == init + [s[|s| - 1]];
    }
  }

  /** Two byte strings of one width with the same value are equal. */
  lemma ValueInjective(a: seq<byte>, b: seq<byte>)
    requires |a| == |b|
    requires Value(a) == Value(b)
    ensures a == b
  {
    EncodeValue(a);
    EncodeValue(b);
  }

  /** `u32::from_be_bytes` written out positionally. */
  lemma ValueOfFour(s: seq<byte>)
    requires |s| == 4
    ensures Value(s) == s[0] as int * 0x100_0000 + s[1] as int * 0x1_0000 + s[2] as int * 0x100 + s[3] as int
  {
    assert s[..1][..0] == [];
    assert Value(s[..1]) == s[0];
    assert s[..2][..1] == s[..1];
    assert Value(s[..2]) == s[0] as int * 0x100 + s[1] as int;
    assert s[..3][..2] == s[..2];
    assert Value(s[..3]) == s[0] as int * 0x1_0000 + s[1] as int * 0x100 + s[2] as int;
    assert s[..4] == s;
  }

  /** One more low byte multiplies the high part's weight by 256. */
  lemma ShiftByte(high: int, weight: int, low: int, x: int)
    ensures (high * weight + low) * 256 + x == high * (256 * weight) + (low * 256 + x)
  {
  }

  /** Appending bytes shifts the value already read up by one byte per appended byte. */
  lemma {:induction false} ValueConcat(a: seq<byte>, b: seq<byte>)
    ensures Value(a + b) == Value(a) * Pow256(|b|) + Value(b)
  {
    if b != [] {
      var init := b[..|b| - 1];
      ValueConcat(a, init);
      assert (a + b)[..|a + b| - 1] == a + init;
      var x := b[|b| - 1];
      var va, vi, p := Value(a), Value(init), Pow256(|init|);
      assert (a + b)[|a + b| - 1] == x;
      var pb := Pow256(|b|);
      assert pb == 256 * p;
      assert Value(a + b) == (va * p + vi) * 256 + x;
      assert Value(b) == vi * 256 + x;
      ShiftByte(va, p, vi, x);
    } else {
      assert a + b == a;
    }
  }

  /** `usize::from_be_bytes` on a 64-bit target: the first four bytes are the high half. */
  lemma ValueOfEight(s: seq<byte>)
    requires |s| == 8
    ensures Value(s) == Value(s[..4]) * 0x1_0000_0000 + Value(s[4..])
  {
    ValueConcat(s[..4], s[4..]);
    assert s == s[..4] + s[4..];
    Pow256Widths();
  }
}
