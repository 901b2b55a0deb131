/** The lines of an HTTP message, piece by piece: how each is written, what it says, and that the
    library's scanners read it so. Nothing in the definitions refers to a scanner; the lemmas
    relate them to the scanners in both directions. */
module HttpTokens {
  import Seqs
  import Modular
  import opened Wrappers
  import opened HttpText
  import opened HttpMethods
  import opened HttpMessage
  import opened HttpParserSpec

  predicate Blank(s: string) {
    forall i :: 0 <= i < |s| ==> s[i] == ' '
  }

  predicate Digits(s: string) {
    forall i :: 0 <= i < |s| ==> IsDigit(s[i])
  }

  /** The characters that the scanners tell apart. */
  lemma CharacterClasses(c: char)
    ensures IsDigit(c) <==> c in "0123456789"
    ensures IsSpace(c) <==> c in " \t\n\r" || c as int in {11, 12}
    ensures HexDigit(c).Some? <==> c in "0123456789abcdefABCDEF"
  {
  }

  lemma HexDigitValues(i: nat)
    requires i < 16
    ensures HexDigit("0123456789abcdef"[i]) == Some(i) == HexDigit("0123456789ABCDEF"[i])
  {
  }

  predicate HexDigits(s: string) {
    forall i :: 0 <= i < |s| ==> HexDigit(s[i]).Some?
  }

  /** Positional value, most significant digit first. */
  function Number(digits: string): nat
    requires Digits(digits)
  {
    if digits == "" then 0
    else 10 * Number(digits[..|digits| - 1]) + (digits[|digits| - 1] as int - '0' as int)
  }

  function HexNumber(digits: string): nat
    requires HexDigits(digits)
  {
    if digits == "" then 0
    else 16 * HexNumber(digits[..|digits| - 1]) + HexDigit(digits[|digits| - 1]).value
  }

  // ---------------------------------------------------------------- chunk size lines

  /** Hexadecimal digits and an optional extension. */
  datatype Size = Size(digits: string, ext: string)

  function SizeText(z: Size): string {
    z.digits + z.ext
  }

  /** The size is taken modulo 2^64, and no digits at all mean 0: ";ext" alone is a last chunk. */
  predicate Sizes(z: Size, n: nat) {
    && HexDigits(z.digits)
    && (z.ext == "" || z.ext[0] == ';')
    && n == HexNumber(z.digits) % SIZE_T
  }

  function HexThrough(digits: string, acc: nat): (r: nat)
    requires HexDigits(digits) && acc < SIZE_T
    ensures r < SIZE_T
  {
    if digits == "" then acc else HexThrough(digits[1..], (acc * 16 + HexDigit(digits[0]).value) % SIZE_T)
  }

  lemma {:induction false} HexFoldThrough(digits: string, ext: string, acc: nat)
    requires HexDigits(digits) && acc < SIZE_T
    ensures HexFold(digits + ext, acc) == HexFold(ext, HexThrough(digits, acc))
    decreases |digits|
  {
    if digits == "" {
      assert digits + ext == ext;
    } else {
      var c, s := digits[0], digits + ext;
      assert s[0] == c && c != ';';
      assert s[1..] == digits[1..] + ext;
      HexFoldThrough(digits[1..], ext, (acc * 16 + HexDigit(c).value) % SIZE_T);
    }
  }

  lemma {:induction false} HexThroughLast(init: string, c: char, acc: nat)
    requires HexDigits(init) && HexDigit(c).Some? && acc < SIZE_T
    ensures HexDigits(init + [c])
    ensures HexThrough(init + [c], acc) == (HexThrough(init, acc) * 16 + HexDigit(c).value) % SIZE_T
    decreases |init|
  {
    if init == "" {
      assert init + [c] == [c] && [c][1..] == "";
      assert HexThrough("", (acc * 16 + HexDigit(c).value) % SIZE_T) == (acc * 16 + HexDigit(c).value) % SIZE_T;
    } else {
      assert (init + [c])[1..] == init[1..] + [c];
      HexThroughLast(init[1..], c, (acc * 16 + HexDigit(init[0]).value) % SIZE_T);
    }
  }

  /** Cutting to 64 bits at every digit is cutting once. */
  lemma {:induction false} HexThroughNumber(digits: string)
    requires HexDigits(digits)
    ensures HexThrough(digits, 0) == HexNumber(digits) % SIZE_T
    decreases |digits|
  {
    if digits != "" {
      var init, c := digits[..|digits| - 1], digits[|digits| - 1];
      assert digits == init + [c];
      HexThroughNumber(init);
      HexThroughLast(init, c, 0);
      OneMoreDigit(HexNumber(init), HexDigit(c).value);
    }
  }

  lemma OneMoreDigit(x: nat, d: nat)
    ensures (x % SIZE_T * 16 + d) % SIZE_T == (16 * x + d) % SIZE_T
  {
    var q := x / SIZE_T;
    assert x == SIZE_T * q + x % SIZE_T;
    Modular.ModShift(x % SIZE_T * 16 + d, 16 * q, SIZE_T);
  }

  lemma SizeRead(z: Size, n: nat)
    requires Sizes(z, n)
    ensures ChunkSize(SizeText(z)) == Some(n)
  {
    HexFoldThrough(z.digits, z.ext, 0);
    HexThroughNumber(z.digits);
  }

  lemma {:induction false} HexFoldDigits(s: string, acc: nat, k: nat)
    requires acc < SIZE_T && HexFold(s, acc).Some? && k <= |s|
    requires forall j :: 0 <= j < k ==> s[j] != ';'
    ensures HexDigits(s[..k])
    decreases k
  {
    if k > 0 {
      var acc' := (acc * 16 + HexDigit(s[0]).value) % SIZE_T;
      HexFoldDigits(s[1..], acc', k - 1);
      assert forall i :: 1 <= i < k ==> s[..k][i] == s[1..][..k - 1][i - 1];
    }
  }

  lemma SizeSplits(s: string, n: nat) returns (z: Size)
    requires ChunkSize(s) == Some(n)
    ensures Sizes(z, n) && SizeText(z) == s
  {
    var k := IndexOf(s, ';', 0);
    z := Size(s[..k], s[k..]);
    HexFoldDigits(s, 0, k);
    assert z.digits + z.ext == s;
    SizeRead(z, HexNumber(z.digits) % SIZE_T);
  }

  // ---------------------------------------------------------------- numbers in headers

  /** What the C library's atoi takes a text for: white space, a sign, digits, and a rest. */
  datatype Int = Int(space: string, sign: string, digits: string, rest: string)

  function IntText(x: Int): string {
    x.space + (x.sign + (x.digits + x.rest))
  }

  predicate IntParts(x: Int) {
    && (forall i :: 0 <= i < |x.space| ==> IsSpace(x.space[i]))
    && x.sign in {"", "+", "-"}
    && Digits(x.digits)
    && (x.rest != "" ==> !IsDigit(x.rest[0]))
    && (x.sign == "" && x.digits == "" && x.rest != "" ==> !IsSpace(x.rest[0]) && x.rest[0] != '+' && x.rest[0] != '-')
  }

  function Signed(x: Int): int
    requires IntParts(x)
  {
    if x.sign == "-" then 0 - Number(x.digits) else Number(x.digits)
  }

  const LONG_MAX: int := 0x7fff_ffff_ffff_ffff
  const INT_RANGE: int := 0x1_0000_0000

  /** The number in a 64-bit long, at its ends if it does not fit. */
  function Clamped(v: int): (r: int)
    ensures 0 - LONG_MAX - 1 <= r <= LONG_MAX
  {
    if v > LONG_MAX then LONG_MAX else if v < 0 - LONG_MAX - 1 then 0 - LONG_MAX - 1 else v
  }

  /** The text says `n`: the int that differs from its clamped number by a multiple of 2^32. */
  ghost predicate Declares(s: string, n: int) {
    && -0x8000_0000 <= n < 0x8000_0000
    && exists x :: IntParts(x) && IntText(x) == s && (Clamped(Signed(x)) - n) % INT_RANGE == 0
  }

  function Through(digits: string, acc: nat): nat
    requires Digits(digits)
  {
    if digits == "" then acc else Through(digits[1..], 10 * acc + (digits[0] as int - '0' as int))
  }

  lemma {:induction false} DigitsThrough(digits: string, rest: string, acc: nat)
    requires Digits(digits) && (rest != "" ==> !IsDigit(rest[0]))
    ensures DigitsValue(digits + rest, acc) == Through(digits, acc)
    decreases |digits|
  {
    if digits == "" {
      assert digits + rest == rest;
    } else {
      assert (digits + rest)[1..] == digits[1..] + rest;
      DigitsThrough(digits[1..], rest, 10 * acc + (digits[0] as int - '0' as int));
    }
  }

  lemma {:induction false} ThroughLast(init: string, c: char, acc: nat)
    requires Digits(init) && IsDigit(c)
    ensures Digits(init + [c]) && Through(init + [c], acc) == 10 * Through(init, acc) + (c as int - '0' as int)
    decreases |init|
  {
    if init == "" {
      assert init + [c] == [c] && [c][1..] == "";
      assert Through("", 10 * acc + (c as int - '0' as int)) == 10 * acc + (c as int - '0' as int);
    } else {
      assert (init + [c])[1..] == init[1..] + [c];
      ThroughLast(init[1..], c, 10 * acc + (init[0] as int - '0' as int));
    }
  }

  lemma {:induction false} ThroughNumber(digits: string)
    requires Digits(digits)
    ensures Through(digits, 0) == Number(digits)
    decreases |digits|
  {
    if digits != "" {
      var init, c := digits[..|digits| - 1], digits[|digits| - 1];
      assert digits == init + [c];
      ThroughNumber(init);
      ThroughLast(init, c, 0);
    }
  }

  lemma {:induction false} SpaceSkipped(space: string, rest: string)
    requires forall i :: 0 <= i < |space| ==> IsSpace(space[i])
    ensures SignedValue(space + rest) == SignedValue(rest)
    decreases |space|
  {
    if space == "" {
      assert space + rest == rest;
    } else {
      assert (space + rest)[1..] == space[1..] + rest;
      SpaceSkipped(space[1..], rest);
    }
  }

  lemma DigitsRead(digits: string, rest: string)
    requires IntParts(Int("", "", digits, rest))
    ensures DigitsValue(digits + rest, 0) == Number(digits)
    ensures SignedValue(digits + rest) == DigitsValue(digits + rest, 0)
  {
    DigitsThrough(digits, rest, 0);
    ThroughNumber(digits);
  }

  lemma SignInFront(c: char, s: string)
    requires c == '+' || c == '-'
    ensures SignedValue([c] + s) == if c == '-' then 0 - DigitsValue(s, 0) else DigitsValue(s, 0)
  {
  }

  lemma SignRead(sign: string, digits: string, rest: string)
    requires IntParts(Int("", sign, digits, rest))
    ensures SignedValue(sign + (digits + rest)) == Signed(Int("", sign, digits, rest))
  {
    hide DigitsValue;
    hide SignedValue;
    if sign == "" {
      Seqs.NoneBefore(digits + rest);
      DigitsRead(digits, rest);
    } else {
      DigitsThrough(digits, rest, 0);
      ThroughNumber(digits);
      SignInFront(sign[0], digits + rest);
    }
  }

  lemma IntRead(x: Int)
    requires IntParts(x)
    ensures SignedValue(IntText(x)) == Signed(x)
  {
    SpaceSkipped(x.space, x.sign + (x.digits + x.rest));
    SignRead(x.sign, x.digits, x.rest);
  }

  function LeadingDigits(s: string): (k: nat)
    ensures k <= |s| && (forall i :: 0 <= i < k ==> IsDigit(s[i])) && (k < |s| ==> !IsDigit(s[k]))
  {
    if s == "" || !IsDigit(s[0]) then 0
    else
      var k := LeadingDigits(s[1..]);
      assert forall i :: 1 <= i <= k ==> s[i] == s[1..][i - 1];
      k + 1
  }

  lemma DigitsSplit(s: string) returns (digits: string, rest: string)
    ensures digits + rest == s && Digits(digits) && (rest != "" ==> !IsDigit(rest[0]))
    ensures s != "" && !IsDigit(s[0]) ==> digits == ""
  {
    var k := LeadingDigits(s);
    digits, rest := s[..k], s[k..];
  }

  /** Every text is one that atoi understands so. */
  lemma {:induction false} IntSplits(s: string) returns (x: Int)
    ensures IntParts(x) && IntText(x) == s
    decreases |s|
  {
    if s != "" && IsSpace(s[0]) {
      var y := IntSplits(s[1..]);
      x := y.(space := [s[0]] + y.space);
      Seqs.Assoc([s[0]], y.space, y.sign + (y.digits + y.rest));
      assert s == [s[0]] + s[1..];
    } else if s != "" && (s[0] == '+' || s[0] == '-') {
      var digits, rest := DigitsSplit(s[1..]);
      x := Int("", [s[0]], digits, rest);
      assert s == [s[0]] + s[1..];
      assert "" + s == s;
    } else {
      var digits, rest := DigitsSplit(s);
      x := Int("", "", digits, rest);
      assert "" + ("" + s) == s;
    }
  }

  lemma CutIs(c: int, n: int)
    requires -0x8000_0000 <= n < 0x8000_0000
    ensures var low := c % INT_RANGE;
            (c - n) % INT_RANGE == 0 <==> n == if low < 0x8000_0000 then low else low - INT_RANGE
  {
    var q, k := (c - n) / INT_RANGE, c / INT_RANGE;
    if n == c % INT_RANGE {
      Modular.ModIs(c - n, k, 0, INT_RANGE);
    }
    if n == c % INT_RANGE - INT_RANGE {
      Modular.ModIs(c - n, k + 1, 0, INT_RANGE);
    }
    if (c - n) % INT_RANGE == 0 {
      assert c == INT_RANGE * q + n;
      if n >= 0 {
        Modular.ModIs(c, q, n, INT_RANGE);
      } else {
        Modular.ModIs(c, q - 1, n + INT_RANGE, INT_RANGE);
      }
    }
  }

  lemma CutToInt(s: string, n: int)
    requires -0x8000_0000 <= n < 0x8000_0000
    ensures (Clamped(SignedValue(s)) - n) % INT_RANGE == 0 <==> Atoi(s) == n
  {
    CutIs(Clamped(SignedValue(s)), n);
  }

  lemma DeclaresAtoi(s: string, n: int)
    ensures Declares(s, n) <==> Atoi(s) == n
  {
    hide Atoi;
    hide Clamped;
    var x := IntSplits(s);
    IntRead(x);
    if -0x8000_0000 <= n < 0x8000_0000 {
      CutToInt(s, n);
    }
    forall y | IntParts(y) && IntText(y) == s
      ensures Signed(y) == SignedValue(s)
    {
      IntRead(y);
    }
  }

  // ---------------------------------------------------------------- header lines

  /** A key and a value, each with blanks in front and whatever a blank sets off behind it. */
  datatype Field = Field(before: string, key: string, after: string, gap: string, value: string, rest: string)

  function FieldText(f: Field): string {
    (f.before + f.key + f.after) + ":" + (f.gap + f.value + f.rest)
  }

  /** A word with blanks in front; only a blank can end it, and only a word has something behind it. */
  predicate Padded(before: string, word: string, after: string) {
    && Blank(before)
    && !Has(word, ' ')
    && (after == "" || (word != "" && after[0] == ' '))
  }

  predicate GoodField(f: Field) {
    && Padded(f.before, f.key, f.after) && !Has(f.key, ':') && !Has(f.after, ':')
    && Padded(f.gap, f.value, f.rest)
    && OneLine(FieldText(f))
  }

  lemma SkipSpacesIs(s: string, i: nat)
    requires i <= |s| && (forall j :: 0 <= j < i ==> s[j] == ' ') && (i < |s| ==> s[i] != ' ')
    ensures SkipSpaces(s, 0) == i
  {
    var k := SkipSpaces(s, 0);
    assert k < |s| ==> s[k] != ' ';
  }

  lemma PaddedTrims(before: string, word: string, after: string)
    requires Padded(before, word, after)
    ensures Trim(before + word + after) == word
  {
    var s := before + word + after;
    var i, j := |before|, |before| + |word|;
    assert forall k :: 0 <= k < i ==> s[k] == before[k];
    assert forall k :: i <= k < j ==> s[k] == word[k - i];
    assert j < |s| ==> s[j] == after[0];
    SkipSpacesIs(s, i);
    IndexOfIs(s, ' ', i, j);
    assert s[i..j] == word;
  }

  lemma TrimSplits(s: string) returns (before: string, word: string, after: string)
    ensures Padded(before, word, after) && before + word + after == s && word == Trim(s)
    ensures forall c :: Has(word, c) || Has(after, c) ==> Has(s, c)
  {
    var i := SkipSpaces(s, 0);
    var j := IndexOf(s, ' ', i);
    before, word, after := s[..i], s[i..j], s[j..];
    assert forall k :: 0 <= k < |word| ==> word[k] == s[i + k];
  }

  lemma ColonIsFirst(left: string, right: string, s: string)
    requires !Has(left, ':') && s == left + ":" + right
    ensures IndexOf(s, ':', 0) == |left| && s[..|left|] == left && s[|left| + 1..] == right
  {
    assert forall k :: 0 <= k < |left| ==> s[k] == left[k];
    IndexOfIs(s, ':', 0, |left|);
  }

  lemma FieldRead(f: Field)
    requires GoodField(f)
    ensures SplitHeader(FieldText(f)) == Some((f.key, f.value))
  {
    hide OneLine;
    hide Trim;
    var left, right := f.before + f.key + f.after, f.gap + f.value + f.rest;
    NoColon(f);
    ColonIsFirst(left, right, FieldText(f));
    PaddedTrims(f.before, f.key, f.after);
    PaddedTrims(f.gap, f.value, f.rest);
  }

  lemma NoColon(f: Field)
    requires GoodField(f)
    ensures !Has(f.before + f.key + f.after, ':')
  {
    hide OneLine;
    var left := f.before + f.key + f.after;
    forall c | c in left ensures c != ':' {
      assert c in f.before || c in f.key || c in f.after;
      if c in f.before {
        var i :| 0 <= i < |f.before| && f.before[i] == c;
      }
    }
  }

  lemma FieldSplits(s: string, key: string, value: string) returns (f: Field)
    requires OneLine(s) && SplitHeader(s) == Some((key, value))
    ensures GoodField(f) && FieldText(f) == s && f.key == key && f.value == value
  {
    hide OneLine;
    hide Trim;
    var colon := IndexOf(s, ':', 0);
    var left, right := s[..colon], s[colon + 1..];
    assert !Has(left, ':');
    var a, b, c := TrimSplits(left);
    var d, e, g := TrimSplits(right);
    f := Field(a, b, c, d, e, g);
    assert left + ":" + right == s;
  }

  // ---------------------------------------------------------------- start lines

  datatype Start =
    | RequestStart(method_: Method, uri: string, major: string, minor: string)
    | StatusStart(major: string, minor: string, state: string, code: int, reason: string)

  function VersionText(major: string, minor: string): string {
    "HTTP/" + major + "." + minor
  }

  function StartText(st: Start): string {
    match st
    case RequestStart(m, uri, major, minor) => MethodToString(m) + " " + uri + " " + VersionText(major, minor)
    case StatusStart(major, minor, state, _, reason) => VersionText(major, minor) + " " + state + " " + reason
  }

  predicate GoodVersion(major: string, minor: string) {
    major != "" && minor != "" && Digits(major) && Digits(minor)
  }

  /** The status codes of the library's table, by class. */
  const INFORMATIONAL: set<int> := {100, 101, 102}
  const SUCCESSFUL: set<int> := {200, 201, 202, 203, 204, 205, 206, 207, 208, 226}
  const REDIRECTION: set<int> := {300, 301, 302, 303, 304, 305, 307, 308}
  const CLIENT_ERROR: set<int> :=
    {400, 401, 402, 403, 404, 405, 406, 407, 408, 409, 410, 411, 412, 413, 414, 415, 416, 417, 421, 422, 423, 424,
     426, 428, 429, 431, 451}
  const SERVER_ERROR: set<int> := {500, 501, 502, 503, 504, 505, 506, 507, 508, 510, 511}

  predicate Known(code: int) {
    code in INFORMATIONAL || code in SUCCESSFUL || code in REDIRECTION || code in CLIENT_ERROR || code in SERVER_ERROR
  }

  lemma KnownCodes(code: int)
    ensures KnownState(code) <==> Known(code)
  {
    assert 100 <= code < 200 ==> (KnownState(code) <==> code in INFORMATIONAL);
    assert 200 <= code < 300 ==> (KnownState(code) <==> code in SUCCESSFUL);
    assert 300 <= code < 400 ==> (KnownState(code) <==> code in REDIRECTION);
    assert 400 <= code < 500 ==> (KnownState(code) <==> code in CLIENT_ERROR);
    assert 500 <= code < 600 ==> (KnownState(code) <==> code in SERVER_ERROR);
  }

  ghost predicate GoodStart(st: Start, kind: Kind) {
    && GoodVersion(st.major, st.minor)
    && OneLine(StartText(st))
    && match st
       case RequestStart(m, uri, _, _) =>
         && kind == REQUEST && m != INVALID
         && uri != "" && uri[0] == '/' && forall i :: 0 <= i < |uri| ==> !IsSpace(uri[i])
       case StatusStart(_, _, state, code, reason) =>
         && kind == RESPONSE && Declares(state, code) && Known(code)
         && !Has(state, ' ') && !Has(reason, ' ') && reason != ""
  }

  /** Every version but 1.0 counts as 1.1. */
  function VersionOf(major: string, minor: string): Version {
    if major == "1" && minor == "0" then HTTP_1_0 else HTTP_1_1
  }

  function Started(st: Start, m: Msg): Msg {
    match st
    case RequestStart(name, uri, major, minor) => m.(method_ := name, uri := uri, version := VersionOf(major, minor))
    case StatusStart(major, minor, _, code, _) => m.(version := VersionOf(major, minor), state := code)
  }

  lemma DigitsPlain(s: string)
    requires Digits(s)
    ensures !Has(s, ' ') && !Has(s, '.')
  {
  }

  lemma VersionRead(major: string, minor: string)
    requires GoodVersion(major, minor)
    ensures ValidVersion(VersionText(major, minor)) && !Has(VersionText(major, minor), ' ')
    ensures StringToVersion(VersionText(major, minor)) == VersionOf(major, minor)
  {
    var v := VersionText(major, minor);
    var dot := 5 + |major|;
    DigitsPlain(major);
    DigitsPlain(minor);
    VersionSlices(major, minor, v);
    assert forall k :: 5 <= k < dot ==> v[k] == major[k - 5];
    IndexOfIs(v, '.', 5, dot);
    VersionsTold(major, minor);
    forall c | c in v ensures c != ' ' {
      assert c in "HTTP/" || c in major || c in "." || c in minor;
    }
  }

  lemma VersionSlices(major: string, minor: string, v: string)
    requires v == VersionText(major, minor)
    ensures |v| == 6 + |major| + |minor| && v[..5] == "HTTP/" && v[5 + |major|] == '.'
    ensures v[5..5 + |major|] == major && v[6 + |major|..] == minor
  {
  }

  lemma VersionsTold(major: string, minor: string)
    requires GoodVersion(major, minor)
    ensures VersionText(major, minor) == "HTTP/1.0" <==> major == "1" && minor == "0"
  {
    var v := VersionText(major, minor);
    VersionSlices(major, minor, v);
    assert |major| > 1 ==> v[6] == v[5..5 + |major|][1] == major[1];
    if v == "HTTP/1.0" {
      assert |major| == 1;
      assert v[5..6] == "1" && v[7..] == "0";
    }
  }

  lemma VersionSplits(v: string) returns (major: string, minor: string)
    requires ValidVersion(v)
    ensures GoodVersion(major, minor) && VersionText(major, minor) == v
  {
    var dot := IndexOf(v, '.', 5);
    major, minor := v[5..dot], v[dot + 1..];
    assert v == v[..5] + v[5..dot] + [v[dot]] + v[dot + 1..];
  }

  lemma UriPlain(uri: string)
    requires forall i :: 0 <= i < |uri| ==> !IsSpace(uri[i])
    ensures !Has(uri, ' ')
  {
  }

  lemma StartRead(st: Start, m: Msg)
    requires GoodStart(st, m.kind)
    ensures ParseStartLine(StartText(st), m) == Some(Started(st, m))
  {
    hide OneLine;
    hide ValidVersion;
    hide VersionText;
    hide StringToVersion;
    hide VersionOf;
    hide SplitLine;
    hide Atoi;
    hide KnownState;
    hide MethodToString;
    hide StringToMethod;
    VersionRead(st.major, st.minor);
    var v := VersionText(st.major, st.minor);
    match st
    case RequestStart(name, uri, _, _) =>
      NameIsPlain(name);
      UriPlain(uri);
      VersionNotEmpty(st.major, st.minor);
      SplitLineJoins(MethodToString(name), uri, v);
      MethodRoundTrip(name);
    case StatusStart(_, _, state, code, reason) =>
      SplitLineJoins(v, state, reason);
      DeclaresAtoi(state, code);
      KnownCodes(code);
  }

  lemma VersionNotEmpty(major: string, minor: string)
    ensures VersionText(major, minor) != ""
  {
  }

  lemma RequestSplits(s: string, m: Msg) returns (st: Start)
    requires OneLine(s) && ParseRequestLine(s, m).Some? && m.kind == REQUEST
    ensures GoodStart(st, m.kind) && StartText(st) == s && ParseRequestLine(s, m) == Some(Started(st, m))
  {
    hide OneLine;
    hide ValidVersion;
    hide StringToVersion;
    hide VersionOf;
    hide VersionText;
    hide SplitLine;
    var (name, uri, v) := SplitLine(s).value;
    SplitLineFields(s);
    var major, minor := VersionSplits(v);
    VersionRead(major, minor);
    st := RequestStart(StringToMethod(name), uri, major, minor);
  }

  lemma ResponseSplits(s: string, m: Msg) returns (st: Start)
    requires OneLine(s) && ParseResponseLine(s, m).Some? && m.kind == RESPONSE
    ensures GoodStart(st, m.kind) && StartText(st) == s && ParseResponseLine(s, m) == Some(Started(st, m))
  {
    hide OneLine;
    hide ValidVersion;
    hide StringToVersion;
    hide VersionOf;
    hide VersionText;
    hide SplitLine;
    hide Atoi;
    hide KnownState;
    hide Declares;
    var (v, state, reason) := SplitLine(s).value;
    SplitLineFields(s);
    var major, minor := VersionSplits(v);
    VersionRead(major, minor);
    DeclaresAtoi(state, Atoi(state));
    KnownCodes(Atoi(state));
    st := StatusStart(major, minor, state, Atoi(state), reason);
  }

  lemma StartSplits(s: string, m: Msg) returns (st: Start)
    requires OneLine(s) && ParseStartLine(s, m).Some?
    ensures GoodStart(st, m.kind) && StartText(st) == s && ParseStartLine(s, m) == Some(Started(st, m))
  {
    hide ParseRequestLine;
    hide ParseResponseLine;
    hide GoodStart;
    match m.kind
    case REQUEST => st := RequestSplits(s, m);
    case RESPONSE => st := ResponseSplits(s, m);
  }
}
