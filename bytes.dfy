/** Bytes of a capture file and the fixed-width integers of the .NET runtime
    that the decoder computes with. */
module Bytes {

  type Byte = x: int | 0 <= x < 0x100

  /** A .NET `long`. */
  type Int64 = x: int | -0x8000_0000_0000_0000 <= x < 0x8000_0000_0000_0000

  const TwoTo31: int := 0x8000_0000
  const TwoTo32: int := 0x1_0000_0000

  /** The values a .NET `int` can hold. */
  predicate IsInt32(x: int) {
    -TwoTo31 <= x < TwoTo31
  }

  /** The value an unchecked .NET `int` addition leaves when the exact sum is `x`:
      two's-complement wrap-around. */
  function WrapInt32(x: int): (r: int)
    ensures IsInt32(r)
    ensures (r - x) % TwoTo32 == 0
    ensures IsInt32(x) ==> r == x
  {
    (x + TwoTo31) % TwoTo32 - TwoTo31
  }

  /** What a StringBuilder holds after appending `(char)b` for each byte in turn:
      the bytes read as ISO-8859-1 characters. */
  function Latin1(bs: seq<Byte>): (s: string)
    ensures |s| == |bs|
    ensures forall i :: 0 <= i < |bs| ==> s[i] as int == bs[i]
  {
    seq(|bs|, i requires 0 <= i < |bs| => bs[i] as char)
  }

  /** Appending one more `(char)b` extends the string by exactly that character. */
  lemma Latin1Snoc(bs: seq<Byte>, b: Byte)
    ensures Latin1(bs + [b]) == Latin1(bs) + [b as char]
  {
    assert forall i :: 0 <= i < |bs| + 1 ==> Latin1(bs + [b])[i] == (Latin1(bs) + [b as char])[i];
  }

  /** A slice of a part found at `t` is the same slice of the part, shifted by `t`. */
  lemma SliceInside<T>(s: seq<T>, t: int, part: seq<T>, a: int, b: int)
    requires 0 <= t && t + |part| <= |s| && s[t .. t + |part|] == part
    requires 0 <= a <= b <= |part|
    ensures s[t + a .. t + b] == part[a .. b]
  {
    forall i | 0 <= i < b - a
      ensures s[t + a .. t + b][i] == part[a .. b][i]
    {
      assert s[t + a .. t + b][i] == s[t .. t + |part|][a + i];
    }
  }

  /** The middle of three concatenated parts sits right after the first. */
  lemma MiddlePart<T>(a: seq<T>, b: seq<T>, c: seq<T>)
    ensures (a + b + c)[|a| .. |a| + |b|] == b
  {
  }

  /** Distinct byte strings give distinct character strings. */
  lemma Latin1Injective(a: seq<Byte>, b: seq<Byte>)
    requires Latin1(a) == Latin1(b)
    ensures a == b
  {
    assert forall i :: 0 <= i < |a| ==> a[i] == Latin1(a)[i] as int == b[i];
  }

  /** `b3 << 24 | b2 << 16 | b1 << 8 | b0` evaluated on bytes promoted to a .NET `int`:
      the four bytes, least significant first, as a two's-complement 32-bit value. */
  function Int32LE(b0: Byte, b1: Byte, b2: Byte, b3: Byte): (r: int)
    ensures IsInt32(r)
    ensures r < 0 <==> b3 >= 0x80
  {
    var u := b3 as int * 0x100_0000 + b2 as int * 0x1_0000 + b1 as int * 0x100 + b0 as int;
    if u < TwoTo31 then u else u - TwoTo32
  }

  /** The four bytes that store `n` least significant first: the writer's side of
      `Int32LE`. */
  function EncodeInt32LE(n: int): (bs: seq<Byte>)
    requires IsInt32(n)
    ensures |bs| == 4
  {
    var u := if n < 0 then n + TwoTo32 else n;
    [u % 0x100, (u / 0x100) % 0x100, (u / 0x1_0000) % 0x100, u / 0x100_0000]
  }

  /** Division by 256 recovers the quotient and the remainder it was built from. */
  lemma DivMod256(q: int, r: int)
    requires 0 <= r < 0x100
    ensures (q * 0x100 + r) / 0x100 == q && (q * 0x100 + r) % 0x100 == r
  {
  }

  /** Reading back four bytes written by `EncodeInt32LE` gives the original value. */
  lemma {:induction false} Int32LERoundTrip(n: int)
    requires IsInt32(n)
    ensures var bs := EncodeInt32LE(n); Int32LE(bs[0], bs[1], bs[2], bs[3]) == n
  {
    var u := if n < 0 then n + TwoTo32 else n;
    var q1, q2, q3 := u / 0x100, u / 0x1_0000, u / 0x100_0000;
    assert u == q1 * 0x100 + u % 0x100;
    assert q1 == q2 * 0x100 + q1 % 0x100;
    assert q2 == q3 * 0x100 + q2 % 0x100;
    assert q2 == q1 / 0x100;
    assert q3 == q2 / 0x100;
    var bs := EncodeInt32LE(n);
    assert bs[3] as int * 0x100_0000 + bs[2] as int * 0x1_0000 + bs[1] as int * 0x100 + bs[0] as int == u;
  }

  /** Every four bytes are the encoding of the value `Int32LE` reads from them. */
  lemma {:induction false} Int32LEEncodes(b0: Byte, b1: Byte, b2: Byte, b3: Byte)
    ensures EncodeInt32LE(Int32LE(b0, b1, b2, b3)) == [b0, b1, b2, b3]
  {
    var v2 := b3 as int * 0x100 + b2;
    var v1 := v2 * 0x100 + b1;
    var u := v1 * 0x100 + b0;
    assert u == b3 as int * 0x100_0000 + b2 as int * 0x1_0000 + b1 as int * 0x100 + b0 as int;
    DivMod256(v1, b0);
    DivMod256(v2, b1);
    DivMod256(b3, b2);
    assert u / 0x1_0000 == v2 by {
      assert u == v2 * 0x1_0000 + (b1 as int * 0x100 + b0);
    }
    assert u / 0x100_0000 == b3 by {
      assert u == b3 as int * 0x100_0000 + (b2 as int * 0x1_0000 + b1 as int * 0x100 + b0);
    }
  }
}
