/** Zigzag codes of signed integers at four widths, computed as C++ computes them: narrow values
    are promoted to 32 bits, and every operation wraps around at its own width. */
module Zigzag {
  import Modular

  predicate Bits(n: nat) {
    n == 8 || n == 16 || n == 32 || n == 64
  }

  function Half(n: nat): nat
    requires Bits(n)
  {
    if n == 8 then 0x80 else if n == 16 then 0x8000 else if n == 32 then 0x8000_0000 else 0x8000_0000_0000_0000
  }

  /** Conversion to the unsigned type of `n` bits. */
  function Unsigned(n: nat, x: int): (u: nat)
    requires Bits(n)
    ensures u < 2 * Half(n)
  {
    x % (2 * Half(n))
  }

  /** Conversion to the signed type of `n` bits, in two's complement. */
  function Signed(n: nat, x: int): (s: int)
    requires Bits(n)
    ensures 0 - Half(n) <= s < Half(n)
  {
    var u := x % (2 * Half(n));
    if u < Half(n) then u else u - 2 * Half(n)
  }

  /** The width at which arithmetic on `n`-bit operands is done. */
  function Promoted(n: nat): (m: nat)
    requires Bits(n)
    ensures Bits(m)
  {
    if n < 32 then 32 else n
  }

  predicate InRange(n: nat, v: int)
    requires Bits(n)
  {
    0 - Half(n) <= v < Half(n)
  }

  function Encode(n: nat, v: int): (u: nat)
    requires Bits(n) && InRange(n, v)
    ensures u < 2 * Half(n)
  {
    var m := Promoted(n);
    if v >= 0 then Unsigned(n, Signed(m, v * 2))
    else Unsigned(n, Signed(m, Signed(m, Signed(m, -v) * 2) - 1))
  }

  function Decode(n: nat, u: nat): (v: int)
    requires Bits(n) && u < 2 * Half(n)
    ensures InRange(n, v)
  {
    if u % 2 == 1 then
      var next := if n < 32 then u + 1 else Unsigned(n, u + 1);
      Signed(n, -Signed(n, next / 2))
    else Signed(n, u / 2)
  }

  /** The least value of the 32-bit and 64-bit types, whose negation does not exist. */
  predicate NoNegation(n: nat, v: int)
    requires Bits(n)
  {
    n >= 32 && v == 0 - Half(n)
  }

  lemma SignedKeeps(n: nat, x: int)
    requires Bits(n)
    ensures InRange(n, x) ==> Signed(n, x) == x
  {
  }

  lemma UnsignedKeeps(n: nat, x: int)
    requires Bits(n)
    ensures 0 <= x < 2 * Half(n) ==> Unsigned(n, x) == x
  {
  }

  /** Wrapping at the promoted width on the way does not show in the narrow result. */
  lemma UnsignedSigned(n: nat, x: int, d: int)
    requires Bits(n)
    ensures Unsigned(n, Signed(Promoted(n), x) + d) == Unsigned(n, x + d)
  {
    var N, M := 2 * Half(n), 2 * Half(Promoted(n));
    var c := if n == 8 then 0x100_0000 else if n == 16 then 0x1_0000 else 1;
    assert M == c * N;
    var q := x / M;
    assert x == M * q + x % M;
    var k := if x % M < Half(Promoted(n)) then q else q + 1;
    assert Signed(Promoted(n), x) == x - M * k;
    assert M * k == N * (c * k);
    Modular.ModShift(x + d, 0 - c * k, N);
    assert N * (0 - c * k) == 0 - N * (c * k);
  }

  /** The zigzag order of the integers: 0, -1, 1, -2, 2 and so on. */
  function Code(v: int): nat {
    if v >= 0 then 2 * v else -2 * v - 1
  }

  function Plain(u: nat): int {
    if u % 2 == 0 then u / 2 else -((u + 1) / 2)
  }

  lemma PlainCode(v: int, u: nat)
    ensures Plain(Code(v)) == v && Code(Plain(u)) == u
  {
  }

  lemma PlainInRange(n: nat, u: nat)
    requires Bits(n) && u < 2 * Half(n)
    ensures InRange(n, Plain(u)) && (Plain(u) == 0 - Half(n) ==> u == 2 * Half(n) - 1)
  {
  }

  /** The code in plain arithmetic, the value without a negation included: the wrapping cancels out. */
  lemma EncodeIs(n: nat, v: int)
    requires Bits(n) && InRange(n, v)
    ensures Encode(n, v) == Code(v)
  {
    if NoNegation(n, v) {
      EncodeLeast(n);
    } else if v >= 0 {
      UnsignedSigned(n, v * 2, 0);
      UnsignedKeeps(n, v * 2);
    } else {
      EncodeNegative(n, v, Signed(Promoted(n), -v * 2));
    }
  }

  lemma EncodeNegative(n: nat, v: int, x: int)
    requires Bits(n) && InRange(n, v) && !NoNegation(n, v) && v < 0 && x == Signed(Promoted(n), -v * 2)
    ensures Encode(n, v) == -v * 2 - 1
  {
    var m := Promoted(n);
    SignedKeeps(m, 0 - v);
    assert Encode(n, v) == Unsigned(n, Signed(m, x - 1));
    UnsignedSigned(n, x - 1, 0);
    UnsignedSigned(n, -v * 2, -1);
    UnsignedKeeps(n, -v * 2 - 1);
  }

  lemma EncodeLeast(n: nat)
    requires n == 32 || n == 64
    ensures Encode(n, 0 - Half(n)) == 2 * Half(n) - 1
  {
    var h: int := Half(n);
    Modular.ModIs(h, 0, h, 2 * h);
    assert Signed(n, h) == 0 - h;
    Modular.ModIs(0 - h * 2, -1, 0, 2 * h);
    assert Signed(n, 0 - h * 2) == 0;
    Modular.ModIs(-1, -1, 2 * h - 1, 2 * h);
    assert Signed(n, -1) == -1 && Unsigned(n, -1) == 2 * h - 1;
  }

  /** Negating a half code; half the range becomes the least value. */
  lemma Negates(n: nat, h: nat)
    requires Bits(n) && h <= Half(n)
    ensures Signed(n, 0 - Signed(n, h)) == 0 - h
  {
    if h < Half(n) {
      SignedKeeps(n, h);
    } else {
      Modular.ModIs(h, 0, h, 2 * Half(n));
    }
    SignedKeeps(n, 0 - h);
  }

  lemma DecodeIs(n: nat, u: nat)
    requires Bits(n) && u < 2 * Half(n) && !(n >= 32 && u == 2 * Half(n) - 1)
    ensures Decode(n, u) == Plain(u)
  {
    if u % 2 == 1 {
      UnsignedKeeps(n, u + 1);
      Negates(n, (u + 1) / 2);
    } else {
      SignedKeeps(n, u / 2);
    }
  }

  lemma DecodeGreatest(n: nat)
    requires n == 32 || n == 64
    ensures Decode(n, 2 * Half(n) - 1) == 0
  {
    Modular.ModIs(2 * Half(n), 1, 0, 2 * Half(n));
    assert Unsigned(n, 2 * Half(n)) == 0 && Signed(n, 0) == 0;
  }

  /** Decoding undoes encoding for every value of the narrow types, and at 32 and 64 bits for every
      value but the least, which comes back as 0. */
  lemma DecodeEncode(n: nat, v: int)
    requires Bits(n) && InRange(n, v)
    ensures Decode(n, Encode(n, v)) == v <==> !NoNegation(n, v)
    ensures NoNegation(n, v) ==> Decode(n, Encode(n, v)) == 0
  {
    EncodeIs(n, v);
    if NoNegation(n, v) {
      DecodeGreatest(n);
    } else {
      DecodeIs(n, Code(v));
      PlainCode(v, 0);
    }
  }

  lemma EncodeDecodeOther(n: nat, u: nat)
    requires Bits(n) && u < 2 * Half(n) && !(n >= 32 && u == 2 * Half(n) - 1)
    ensures Encode(n, Decode(n, u)) == u
  {
    DecodeIs(n, u);
    PlainInRange(n, u);
    EncodeIs(n, Plain(u));
    PlainCode(0, u);
  }

  /** And the other way round, for every code but the greatest at 32 and 64 bits. */
  lemma EncodeDecode(n: nat, u: nat)
    requires Bits(n) && u < 2 * Half(n)
    ensures Encode(n, Decode(n, u)) == u <==> !(n >= 32 && u == 2 * Half(n) - 1)
  {
    if n >= 32 && u == 2 * Half(n) - 1 {
      DecodeGreatest(n);
      EncodeIs(n, 0);
    } else {
      EncodeDecodeOther(n, u);
    }
  }

  function Abs(v: int): nat {
    if v < 0 then 0 - v else v
  }

  /** Smaller magnitudes have smaller codes, and a number's negation is its neighbour. */
  lemma KeepsMagnitude(n: nat, a: int, b: int)
    requires Bits(n) && InRange(n, a) && InRange(n, b)
    ensures Abs(a) < Abs(b) ==> Encode(n, a) < Encode(n, b)
    ensures b == -a && a > 0 ==> Encode(n, b) + 1 == Encode(n, a)
  {
    EncodeIs(n, a);
    EncodeIs(n, b);
  }
}
