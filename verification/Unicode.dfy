/** UTF-8 as the encoding of Unicode scalar values, against the byte patterns that names are checked for. */
module Unicode {
  import opened LittleEndian
  import opened GenericFsTree

  /** A code point that is no surrogate. */
  predicate Scalar(c: nat) {
    c < 0xd800 || 0xe000 <= c < 0x11_0000
  }

  /** The shortest encoding of a scalar value. */
  function EncodeScalar(c: nat): (bytes: seq<byte>)
    requires Scalar(c)
    ensures 1 <= |bytes| <= 4
  {
    if c < 0x80 then [c]
    else if c < 0x800 then [0xc0 + c / 64, 0x80 + c % 64]
    else if c < 0x1_0000 then [0xe0 + c / 4096, 0x80 + c / 64 % 64, 0x80 + c % 64]
    else [0xf0 + c / 0x4_0000, 0x80 + c / 4096 % 64, 0x80 + c / 64 % 64, 0x80 + c % 64]
  }

  function EncodeText(cs: seq<nat>): seq<byte>
    requires forall i :: 0 <= i < |cs| ==> Scalar(cs[i])
  {
    if cs == [] then [] else EncodeScalar(cs[0]) + EncodeText(cs[1..])
  }

  /** The scalar value at the start of well-formed bytes. */
  lemma FirstScalar(s: seq<byte>) returns (c: nat)
    requires Utf8(s) && s != []
    ensures Scalar(c) && |EncodeScalar(c)| <= |s| && s[..|EncodeScalar(c)|] == EncodeScalar(c)
    ensures Utf8(s[|EncodeScalar(c)|..])
  {
    if s[0] <= 0x7f {
      c := s[0];
    } else if s[0] <= 0xdf {
      c := TwoBytes(s[0], s[1]);
    } else if s[0] <= 0xef {
      c := ThreeBytes(s[0], s[1], s[2]);
    } else {
      c := FourBytes(s[0], s[1], s[2], s[3]);
    }
  }

  lemma Joined(x: nat, y: nat)
    requires y < 64
    ensures (64 * x + y) / 64 == x && (64 * x + y) % 64 == y
  {
  }

  lemma TwoBytes(a: int, b: int) returns (c: nat)
    requires 0xc2 <= a <= 0xdf && 0x80 <= b <= 0xbf
    ensures Scalar(c) && EncodeScalar(c) == [a, b]
  {
    c := (a - 0xc0) * 64 + (b - 0x80);
  }

  lemma ThreeBytes(a: int, b: int, d: int) returns (c: nat)
    requires 0xe0 <= a <= 0xef && 0x80 <= b <= 0xbf && 0x80 <= d <= 0xbf
    requires (a == 0xe0 ==> 0xa0 <= b) && (a == 0xed ==> b <= 0x9f)
    ensures Scalar(c) && EncodeScalar(c) == [a, b, d]
  {
    var top := a - 0xe0;
    var upper := 64 * top + (b - 0x80);
    c := 64 * upper + (d - 0x80);
    Joined(top, b - 0x80);
    Joined(upper, d - 0x80);
    DividesTwice(c, 64, 64);
  }

  lemma Quotients(c: nat, upper: nat, high: nat, top: nat)
    requires c / 64 == upper && upper / 64 == high && high / 64 == top
    ensures c / 4096 == high && c / 0x4_0000 == top
  {
    DividesTwice(c, 64, 64);
    DividesTwice(c, 4096, 64);
  }

  lemma Assembled(c: nat, upper: nat, high: nat, top: nat)
    requires 0x1_0000 <= c < 0x11_0000 && c / 64 == upper && c / 4096 == high && c / 0x4_0000 == top
    ensures top <= 4 && Scalar(c)
    ensures EncodeScalar(c) == [0xf0 + top, 0x80 + high % 64, 0x80 + upper % 64, 0x80 + c % 64]
  {
  }

  lemma FourBytes(a: int, b: int, d: int, e: int) returns (c: nat)
    requires 0xf0 <= a <= 0xf4 && 0x80 <= b <= 0xbf && 0x80 <= d <= 0xbf && 0x80 <= e <= 0xbf
    requires (a == 0xf0 ==> 0x90 <= b) && (a == 0xf4 ==> b <= 0x8f)
    ensures Scalar(c) && EncodeScalar(c) == [a, b, d, e]
  {
    var top, high := a - 0xf0, 64 * (a - 0xf0) + (b - 0x80);
    var upper := 64 * high + (d - 0x80);
    c := 64 * upper + (e - 0x80);
    Joined(top, b - 0x80);
    Joined(high, d - 0x80);
    Joined(upper, e - 0x80);
    Quotients(c, upper, high, top);
    Assembled(c, upper, high, top);
  }

  /** The bytes of a scalar value meet the pattern for their number. */
  ghost predicate Pattern(code: seq<byte>) {
    || (|code| == 1 && code[0] <= 0x7f)
    || (|code| == 2 && 0xc2 <= code[0] <= 0xdf && Continuation(code[1]))
    || (|code| == 3 && 0xe0 <= code[0] <= 0xef && Continuation(code[1]) && Continuation(code[2])
        && (code[0] == 0xe0 ==> 0xa0 <= code[1]) && (code[0] == 0xed ==> code[1] <= 0x9f))
    || (|code| == 4 && 0xf0 <= code[0] <= 0xf4 && Continuation(code[1]) && Continuation(code[2])
        && Continuation(code[3]) && (code[0] == 0xf0 ==> 0x90 <= code[1]) && (code[0] == 0xf4 ==> code[1] <= 0x8f))
  }

  lemma PatternPrefix(code: seq<byte>, rest: seq<byte>)
    requires Pattern(code)
    ensures Utf8(code + rest) <==> Utf8(rest)
  {
    var s := code + rest;
    assert s[|code|..] == rest;
    assert forall i :: 0 <= i < |code| ==> s[i] == code[i];
  }

  lemma ScalarPattern(c: nat)
    requires Scalar(c)
    ensures Pattern(EncodeScalar(c))
  {
    var low, mid := c / 64, c / 4096;
    assert low / 64 == mid && mid / 64 == c / 0x4_0000;
    Sextet(c);
    Sextet(low);
    Sextet(mid);
  }

  lemma Sextet(x: nat)
    ensures 0 <= x % 64 <= 63 && x == 64 * (x / 64) + x % 64
  {
  }

  lemma ScalarIsWellFormed(c: nat, rest: seq<byte>)
    requires Scalar(c)
    ensures Utf8(EncodeScalar(c) + rest) <==> Utf8(rest)
  {
    hide EncodeScalar, Pattern;
    ScalarPattern(c);
    PatternPrefix(EncodeScalar(c), rest);
  }

  lemma {:induction false} TextIsWellFormed(cs: seq<nat>)
    requires forall i :: 0 <= i < |cs| ==> Scalar(cs[i])
    ensures Utf8(EncodeText(cs))
  {
    if cs != [] {
      TextIsWellFormed(cs[1..]);
      ScalarIsWellFormed(cs[0], EncodeText(cs[1..]));
    }
  }

  lemma {:induction false} WellFormedIsText(s: seq<byte>) returns (cs: seq<nat>)
    requires Utf8(s)
    ensures forall i :: 0 <= i < |cs| ==> Scalar(cs[i])
    ensures EncodeText(cs) == s
    decreases |s|
  {
    hide EncodeScalar, Utf8;
    if s == [] {
      cs := [];
    } else {
      var c := FirstScalar(s);
      var n := |EncodeScalar(c)|;
      var rest := WellFormedIsText(s[n..]);
      cs := [c] + rest;
      assert cs[1..] == rest && s == s[..n] + s[n..];
    }
  }

  ghost predicate IsText(s: seq<byte>, cs: seq<nat>) {
    (forall i :: 0 <= i < |cs| ==> Scalar(cs[i])) && EncodeText(cs) == s
  }

  /** The byte patterns are exactly the encodings of sequences of scalar values. */
  lemma Utf8Iff(s: seq<byte>)
    ensures Utf8(s) <==> exists cs :: IsText(s, cs)
  {
    if Utf8(s) {
      var cs := WellFormedIsText(s);
      assert IsText(s, cs);
    }
    if cs :| IsText(s, cs) {
      TextIsWellFormed(cs);
    }
  }
}
