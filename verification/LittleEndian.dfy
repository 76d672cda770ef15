/** Bytes: zero fill and fixed-width little-endian numbers. */
module LittleEndian {

  type byte = x: int | 0 <= x < 256

  function Zeros(n: nat): (s: seq<byte>)
    ensures |s| == n && forall i :: 0 <= i < n ==> s[i] == 0
  {
    seq(n, _ => 0)
  }

  function Pow256(n: nat): nat {
    if n == 0 then 1 else 256 * Pow256(n - 1)
  }

  function Encode(v: nat, n: nat): (s: seq<byte>)
    ensures |s| == n
  {
    if n == 0 then [] else [v % 256] + Encode(v / 256, n - 1)
  }

  function Decode(s: seq<byte>): nat {
    if s == [] then 0 else s[0] + 256 * Decode(s[1..])
  }

  /** A number that fits its width is read back as it was written. */
  lemma {:induction false} RoundTrip(v: nat, n: nat)
    requires v < Pow256(n)
    ensures Decode(Encode(v, n)) == v
  {
    if n > 0 {
      RoundTrip(v / 256, n - 1);
      assert Encode(v, n)[1..] == Encode(v / 256, n - 1);
    }
  }

  lemma {:induction false} DecodeBound(s: seq<byte>)
    ensures Decode(s) < Pow256(|s|)
  {
    if s != [] {
      DecodeBound(s[1..]);
    }
  }

  lemma LowByte(b: byte, n: nat)
    ensures (b + 256 * n) % 256 == b && (b + 256 * n) / 256 == n
  {
  }

  /** Every byte string is the encoding of the number it reads as. */
  lemma {:induction false} DecodeInjective(s: seq<byte>)
    ensures Encode(Decode(s), |s|) == s
  {
    if s != [] {
      DecodeInjective(s[1..]);
      LowByte(s[0], Decode(s[1..]));
      assert s == [s[0]] + s[1..];
    }
  }

  /** The first `n` bytes as a sum, the first byte counting least. */
  function Weighted(s: seq<byte>, n: nat): nat
    requires n <= |s|
  {
    if n == 0 then 0 else Weighted(s, n - 1) + s[n - 1] * Pow256(n - 1)
  }

  lemma {:induction false} WeightedShift(s: seq<byte>, n: nat)
    requires s != [] && n < |s|
    ensures Weighted(s, n + 1) == s[0] + 256 * Weighted(s[1..], n)
    decreases n
  {
    if n > 0 {
      WeightedShift(s, n - 1);
      assert s[1..][n - 1] == s[n];
      assert Pow256(n) == 256 * Pow256(n - 1);
    }
  }

  /** A number is read as the sum of its bytes, each with its weight. */
  lemma {:induction false} DecodeIsSum(s: seq<byte>)
    ensures Decode(s) == Weighted(s, |s|)
  {
    if s != [] {
      DecodeIsSum(s[1..]);
      WeightedShift(s, |s| - 1);
    }
  }

  /** Byte `k` of a number, the lowest first. */
  lemma {:induction false} EncodedByte(v: nat, n: nat, k: nat)
    requires k < n
    ensures Pow256(k) > 0 && Encode(v, n)[k] == v / Pow256(k) % 256
    decreases n
  {
    if k > 0 {
      EncodedByte(v / 256, n - 1, k - 1);
      assert Encode(v, n)[k] == Encode(v / 256, n - 1)[k - 1];
      DividesTwice(v, 256, Pow256(k - 1));
    }
  }

  lemma DividesTwice(v: nat, a: nat, p: nat)
    requires a > 0 && p > 0
    ensures v / a / p == v / (a * p)
  {
    var q, r := v / a / p, v / a % p;
    var low := v % a;
    Division(v / a, p);
    Division(v, a);
    Distributes(a, p * q, r);
    Associates(a, p, q);
    Distributes(a, p - r, r);
    NotSmaller(a, p - r);
    OneQuotient(v, a * p, q, a * r + low);
  }

  lemma Division(x: nat, d: nat)
    requires d > 0
    ensures x == d * (x / d) + x % d && 0 <= x % d < d
  {
  }

  lemma Distributes(a: int, x: int, y: int)
    ensures a * (x + y) == a * x + a * y
  {
  }

  lemma Associates(a: int, x: int, y: int)
    ensures a * (x * y) == a * x * y
  {
  }

  lemma OneQuotient(x: nat, d: nat, q: nat, r: int)
    requires d > 0 && x == d * q + r && 0 <= r < d
    ensures x / d == q
  {
    var q' := x / d;
    Division(x, d);
    Distributes(d, q' - q, q);
    Distributes(d, q - q', q');
    NotSmaller(d, q' - q);
    NotSmaller(d, q - q');
  }

  lemma NotSmaller(d: nat, k: int)
    ensures k >= 1 ==> d * k >= d
  {
  }

  lemma Widths()
    ensures Pow256(2) == 0x1_0000 && Pow256(4) == 0x1_0000_0000
    ensures Pow256(8) == 0x1_0000_0000_0000_0000
    ensures Pow256(16) == 0x1_0000_0000_0000_0000_0000_0000_0000_0000
  {
  }
}
