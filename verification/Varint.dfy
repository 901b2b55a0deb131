/** Variable-length integers at four widths: seven bits a byte, least significant first, the top
    bit set on all but the last (unsigned LEB128, section 7.6 of DWARF 5). */
module Varint {
  import opened Wrappers
  import opened Bytes
  import Modular

  /** Integer widths in bytes. */
  predicate Width(w: nat) {
    w == 1 || w == 2 || w == 4 || w == 8
  }

  function Range(w: nat): nat
    requires Width(w)
  {
    if w == 1 then 0x100 else if w == 2 then 0x1_0000 else if w == 4 then 0x1_0000_0000 else 0x1_0000_0000_0000_0000
  }

  /** What is left of a number in an unsigned type of `w` bytes. */
  function Wrap(w: nat, x: nat): (r: nat)
    requires Width(w)
    ensures r < Range(w)
  {
    x % Range(w)
  }

  /** The buffer length the encoder asks for, and the most bytes the decoder reads. */
  function BufLen(w: nat): nat {
    w * 8 / 7 + 1
  }

  function Encode(v: nat): (b: bytes)
    ensures b != []
  {
    if v <= 0x7f then [v] else [v % 0x80 + 0x80] + Encode(v / 0x80)
  }

  function Pow128(k: nat): (p: nat)
    ensures p > 0
  {
    if k == 0 then 1 else 128 * Pow128(k - 1)
  }

  /** The number that the low seven bits of the bytes spell. */
  function Value(b: bytes): nat {
    if b == [] then 0 else b[0] % 0x80 + 0x80 * Value(b[1..])
  }

  /** The last byte of a number: the first one without the top bit. */
  function Last(b: bytes): (r: Option<nat>)
    ensures r.Some? ==> r.value < |b| && b[r.value] < 0x80 && forall i :: 0 <= i < r.value ==> b[i] >= 0x80
    ensures r.None? ==> forall i :: 0 <= i < |b| ==> b[i] >= 0x80
  {
    if b == [] then None
    else if b[0] < 0x80 then Some(0)
    else match Last(b[1..])
         case None => None
         case Some(i) => Some(i + 1)
  }

  function Limit(w: nat, b: bytes): bytes {
    if |b| <= BufLen(w) then b else b[..BufLen(w)]
  }

  function Decode(w: nat, b: bytes): Option<nat>
    requires Width(w)
  {
    match Last(Limit(w, b))
    case None => None
    case Some(i) => Some(Wrap(w, Value(b[..i + 1])))
  }

  // ---------------------------------------------------------------- the loops

  /** Writes into the caller's buffer; 0 and no write if it is shorter than the width's limit. */
  method VariantEncode(w: nat, v: nat, buf: array<byte>, len: nat) returns (count: nat)
    requires Width(w) && v < Range(w) && len <= buf.Length
    modifies buf
    ensures len < BufLen(w) ==> count == 0 && buf[..] == old(buf[..])
    ensures len >= BufLen(w) ==> count == |Encode(v)| <= len && buf[..count] == Encode(v)
    ensures len >= BufLen(w) ==> buf[count..] == old(buf[count..])
  {
    hide Range;
    if len < BufLen(w) {
      return 0;
    }
    EncodingFits(w, v);
    count := 0;
    var rest: nat := v;
    while rest > 0x7f
      invariant count + |Encode(rest)| == |Encode(v)| <= len
      invariant buf[..count] + Encode(rest) == Encode(v)
      invariant forall j :: count <= j < buf.Length ==> buf[j] == old(buf[j])
      decreases rest
    {
      ghost var done := buf[..count];
      var low: byte := rest % 0x80 + 0x80;
      buf[count] := low;
      assert buf[..count + 1] == done + [low];
      EncodeMore(done, rest);
      count := count + 1;
      rest := rest / 0x80;
    }
    ghost var done := buf[..count];
    buf[count] := rest;
    assert buf[..count + 1] == done + [rest];
    count := count + 1;
  }

  lemma EncodeMore(done: bytes, rest: nat)
    requires rest > 0x7f
    ensures done + Encode(rest) == (done + [rest % 0x80 + 0x80]) + Encode(rest / 0x80)
  {
  }

  /** Reads at most the width's limit and leaves the caller's variable alone on failure; the or of
      disjoint bit ranges is written as a sum. */
  method VariantDecode(w: nat, b: bytes, given: nat) returns (ok: bool, v: nat)
    requires Width(w)
    ensures ok == Decode(w, b).Some?
    ensures v == if ok then Decode(w, b).value else given
  {
    hide Wrap;
    hide Value;
    hide Decode;
    hide Pow128;
    hide BufLen;
    NothingRead(w, b);
    var tmp: nat, shift: nat, i: nat := 0, 1, 0;
    while i < BufLen(w) && i < |b|
      invariant i <= BufLen(w) && i <= |b|
      invariant shift == Pow128(i)
      invariant tmp == Wrap(w, Value(b[..i]))
      invariant forall j :: 0 <= j < i ==> b[j] >= 0x80
    {
      var low: nat := b[i] % 0x80;
      TakeByte(w, b, i, tmp, low, shift);
      tmp := Wrap(w, tmp + low * shift);
      shift := shift * 128;
      if b[i] < 0x80 {
        StopsAt(w, b, i);
        return true, tmp;
      }
      i := i + 1;
    }
    NeverStops(w, b);
    return false, given;
  }

  lemma NothingRead(w: nat, b: bytes)
    requires Width(w)
    ensures Wrap(w, Value(b[..0])) == 0 && Pow128(0) == 1
  {
  }

  lemma TakeByte(w: nat, b: bytes, i: nat, tmp: nat, low: nat, shift: nat)
    requires Width(w) && i < |b|
    requires tmp == Wrap(w, Value(b[..i])) && low == b[i] % 0x80 && shift == Pow128(i)
    ensures Wrap(w, tmp + low * shift) == Wrap(w, Value(b[..i + 1]))
    ensures Pow128(i + 1) == shift * 128
  {
    hide Wrap;
    hide Value;
    ValueGrows(b, i);
    WrapAdd(w, Value(b[..i]), low * shift);
  }

  lemma StopsAt(w: nat, b: bytes, i: nat)
    requires Width(w) && i < |b| && i < BufLen(w)
    requires b[i] < 0x80 && forall j :: 0 <= j < i ==> b[j] >= 0x80
    ensures Decode(w, b) == Some(Wrap(w, Value(b[..i + 1])))
  {
    assert forall j :: 0 <= j <= i ==> Limit(w, b)[j] == b[j];
    LastIs(Limit(w, b), i);
  }

  lemma NeverStops(w: nat, b: bytes)
    requires Width(w)
    requires forall j :: 0 <= j < |b| && j < BufLen(w) ==> b[j] >= 0x80
    ensures Decode(w, b) == None
  {
    assert forall j :: 0 <= j < |Limit(w, b)| ==> Limit(w, b)[j] == b[j];
  }

  /** Wrapping as it goes gives the same as wrapping at the end. */
  lemma WrapAdd(w: nat, a: nat, b: nat)
    requires Width(w)
    ensures Wrap(w, Wrap(w, a) + b) == Wrap(w, a + b)
  {
    Modular.ModAdd(a, b, Range(w));
  }

  /** Wrapping keeps a number exactly when it is in the width's range, and never makes it larger. */
  lemma WrapKeeps(w: nat, x: nat)
    requires Width(w)
    ensures Wrap(w, x) == x <==> x < Range(w)
    ensures Wrap(w, x) <= x
  {
    var m := Range(w);
    if x < m {
      Modular.ModIs(x, 0, x, m);
    }
  }

  lemma LastIs(b: bytes, i: nat)
    requires i < |b| && b[i] < 0x80 && forall j :: 0 <= j < i ==> b[j] >= 0x80
    ensures Last(b) == Some(i)
  {
  }

  lemma {:induction false} ValueGrows(b: bytes, i: nat)
    requires i < |b|
    ensures Value(b[..i + 1]) == Value(b[..i]) + b[i] % 0x80 * Pow128(i)
    decreases i
  {
    if i == 0 {
      assert b[..1] == [b[0]] + [] && b[..0] == [];
      ValueCons(b[0], []);
    } else {
      var tail, x, p := b[1..], b[i] % 0x80, Pow128(i - 1);
      assert b[..i + 1] == [b[0]] + tail[..i] && b[..i] == [b[0]] + tail[..i - 1];
      ValueCons(b[0], tail[..i]);
      ValueCons(b[0], tail[..i - 1]);
      ValueGrows(tail, i - 1);
      Distribute(Value(tail[..i - 1]), x, p);
    }
  }

  lemma Distribute(v: nat, x: nat, p: nat)
    ensures 0x80 * (v + x * p) == 0x80 * v + x * (128 * p)
  {
  }

  // ---------------------------------------------------------------- the code

  /** All bytes but the last have the top bit. */
  predicate Ends(b: bytes)
    requires b != []
  {
    Last(b) == Some(|b| - 1)
  }

  lemma {:induction false} EncodingShape(v: nat)
    ensures Ends(Encode(v))
    ensures Value(Encode(v)) == v
  {
    if v > 0x7f {
      EncodingShape(v / 0x80);
      var low: byte := v % 0x80 + 0x80;
      assert Encode(v) == [low] + Encode(v / 0x80);
      ValueCons(low, Encode(v / 0x80));
      Septets(v);
    }
  }

  lemma Septets(v: nat)
    ensures (v % 0x80 + 0x80) % 0x80 + 0x80 * (v / 0x80) == v
  {
  }

  lemma ValueCons(x: byte, rest: bytes)
    ensures Value([x] + rest) == x % 0x80 + 0x80 * Value(rest)
    ensures x >= 0x80 ==> Last([x] + rest) == match Last(rest) { case None => None case Some(i) => Some(i + 1) }
  {
    assert ([x] + rest)[1..] == rest;
  }

  /** The limits and ranges of the four widths. */
  lemma WidthValues()
    ensures BufLen(1) == 2 && BufLen(2) == 3 && BufLen(4) == 5 && BufLen(8) == 10
    ensures forall w :: Width(w) ==> Range(w) == Pow256(w)
    ensures Pow128(0) == 1 && Pow128(1) == 0x80
  {
    Pow256Values();
  }

  /** The bytes of an encoding: seven bits each, the least significant first, the top bit on all but the last. */
  lemma {:induction false} EncodeAt(v: nat, i: nat)
    requires i < |Encode(v)|
    ensures Encode(v)[i] == if i == |Encode(v)| - 1 then v / Pow128(i) else v / Pow128(i) % 0x80 + 0x80
    decreases i
  {
    if i == 0 {
      assert Pow128(0) == 1;
    } else {
      EncodeAt(v / 0x80, i - 1);
      Modular.DivDiv(v, 0x80, Pow128(i - 1));
    }
  }

  /** The value of an accepted input, overlong or too large as it may be: the seven-bit digits up to the first
      byte without the top bit, cut to the width. */
  lemma DecodeDigits(w: nat, b: bytes, i: nat)
    requires Width(w) && i < |b| && i < BufLen(w)
    requires b[i] < 0x80 && forall j :: 0 <= j < i ==> b[j] >= 0x80
    ensures Decode(w, b) == Some(Digits(b, i + 1) % Pow256(w))
  {
    hide Value;
    hide Digits;
    hide Pow256;
    WidthValues();
    StopsAt(w, b, i);
    ValueIsDigits(b, i + 1);
  }

  /** The first `n` digits, written out as a sum. */
  function Digits(b: bytes, n: nat): nat
    requires n <= |b|
  {
    if n == 0 then 0 else Digits(b, n - 1) + b[n - 1] % 0x80 * Pow128(n - 1)
  }

  lemma {:induction false} ValueIsDigits(b: bytes, n: nat)
    requires n <= |b|
    ensures Value(b[..n]) == Digits(b, n)
    decreases n
  {
    if n > 0 {
      ValueIsDigits(b, n - 1);
      ValueGrows(b, n - 1);
    }
  }

  /** Numbers below 128^k take at most k bytes. */
  lemma {:induction false} EncodingLength(v: nat, k: nat)
    requires k > 0 && v < Pow128(k)
    ensures |Encode(v)| <= k
    decreases k
  {
    if v > 0x7f {
      assert k > 1;
      EncodingLength(v / 0x80, k - 1);
    }
  }

  lemma LimitCovers(w: nat)
    requires Width(w)
    ensures Range(w) <= Pow128(BufLen(w))
  {
    assert Pow128(2) == 0x4000;
    assert Pow128(3) == 0x20_0000;
    assert Pow128(5) == 0x8_0000_0000;
    assert Pow128(10) == 0x8_0000_0000 * 0x8_0000_0000;
  }

  /** Every value fits in its width's buffer. */
  lemma EncodingFits(w: nat, v: nat)
    requires Width(w) && v < Range(w)
    ensures |Encode(v)| <= BufLen(w)
  {
    LimitCovers(w);
    EncodingLength(v, BufLen(w));
  }

  /** Decoding an encoding, whatever follows it, gives the value. */
  lemma RoundTrip(w: nat, v: nat, rest: bytes)
    requires Width(w) && v < Range(w)
    ensures Decode(w, Encode(v) + rest) == Some(v)
  {
    EncodingFits(w, v);
    EncodingShape(v);
    var e := Encode(v);
    assert (e + rest)[..|e| - 1 + 1] == e;
    StopsAt(w, e + rest, |e| - 1);
    WrapKeeps(w, v);
  }

  lemma CutNeverStops(w: nat, e: bytes, k: nat)
    requires Width(w) && e != [] && Ends(e) && k < |e|
    ensures Decode(w, e[..k]) == None
  {
    assert forall i :: 0 <= i < k ==> e[..k][i] == e[i] >= 0x80;
    NeverStops(w, e[..k]);
  }

  /** A strict prefix of an encoding is rejected. */
  lemma PrefixRejected(w: nat, v: nat, k: nat)
    requires Width(w) && k < |Encode(v)|
    ensures Decode(w, Encode(v)[..k]) == None
  {
    EncodingShape(v);
    CutNeverStops(w, Encode(v), k);
  }

  lemma LastUnique(a: bytes, b: bytes)
    requires [] < a <= b && Ends(a) && Ends(b)
    ensures Value(a) == Value(b)
  {
    assert b[|a| - 1] == a[|a| - 1] < 0x80;
    assert a == b;
  }

  /** No encoding is a prefix of another. */
  lemma PrefixFree(a: nat, b: nat)
    requires Encode(a) <= Encode(b)
    ensures a == b
  {
    EncodingShape(a);
    EncodingShape(b);
    LastUnique(Encode(a), Encode(b));
  }

  lemma {:induction false} ValueBound(b: bytes)
    ensures Value(b) < Pow128(|b|)
    decreases |b|
  {
    if b != [] {
      ValueBound(b[1..]);
    }
  }

  /** Of all byte strings that decode to a value, its encoding is the shortest. */
  lemma Shortest(w: nat, b: bytes, v: nat)
    requires Width(w) && Decode(w, b) == Some(v)
    ensures |Encode(v)| <= |b|
  {
    var i := Last(Limit(w, b)).value;
    var x := Value(b[..i + 1]);
    ValueBound(b[..i + 1]);
    WrapKeeps(w, x);
    EncodingLength(v, i + 1);
  }

  /** What is accepted at all: exactly the inputs with a last byte within the width's limit. */
  lemma AcceptsExactly(w: nat, b: bytes)
    requires Width(w)
    ensures Decode(w, b).Some? <==> exists i :: 0 <= i < |b| && i < BufLen(w) && b[i] < 0x80
  {
    var l := Limit(w, b);
    assert forall i :: 0 <= i < |l| ==> l[i] == b[i];
    if Last(l).Some? {
      assert b[Last(l).value] < 0x80;
    }
  }
}
