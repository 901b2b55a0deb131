/** The text scanners under the HTTP parser: line ends, field splitting, trimming,
    decimal and hexadecimal numbers. Each loop of the library is a method proved
    against a function; the functions are characterised by what they find.
    Characters stand for bytes, and a `string` for a byte buffer. */
module HttpText {
  import Seqs
  import Modular
  import opened Wrappers

  const CRLF: string := "\r\n"
  const SIZE_T: nat := 0x1_0000_0000_0000_0000

  /** The sum of two size_t values, as size_t computes it. */
  function Wrap(sum: nat): nat {
    if sum < SIZE_T then sum else sum - SIZE_T
  }

  /** No C++ object is larger than half the address space. */
  const MAX_BUFFER: nat := 0x8000_0000_0000_0000

  // ---------------------------------------------------------------- line ends

  predicate CrlfAt(s: string, i: nat) {
    i + 1 < |s| && s[i] == '\r' && s[i + 1] == '\n'
  }

  function FindCrlfFrom(s: string, i: nat): (r: Option<nat>)
    ensures r.Some? ==> i <= r.value && CrlfAt(s, r.value)
    ensures forall j: nat :: i <= j && (r.Some? ==> j < r.value) ==> !CrlfAt(s, j)
    decreases |s| - i
  {
    if i + 1 >= |s| then None
    else if CrlfAt(s, i) then Some(i)
    else FindCrlfFrom(s, i + 1)
  }

  /** The first line end of `s`, if there is one. */
  function FindCrlf(s: string): (r: Option<nat>)
    ensures r.Some? ==> CrlfAt(s, r.value)
    ensures forall j: nat :: (r.Some? ==> j < r.value) ==> !CrlfAt(s, j)
  {
    FindCrlfFrom(s, 0)
  }

  predicate OneLine(s: string) {
    forall i :: 0 <= i < |s| ==> !CrlfAt(s, i)
  }

  method Crlf(s: string) returns (r: Option<nat>)
    ensures r == FindCrlf(s)
  {
    var i, j := 0, 1;
    while j < |s|
      invariant j == i + 1
      invariant i <= |s|
      invariant FindCrlf(s) == FindCrlfFrom(s, i)
    {
      if s[i] == '\r' && s[j] == '\n' {
        break;
      }
      i, j := i + 1, j + 1;
    }
    if j >= |s| {
      return None;
    }
    return Some(i);
  }

  /** A first line end is the only position with its two properties. */
  lemma FirstCrlf(s: string, i: nat)
    requires CrlfAt(s, i)
    requires forall j: nat :: j < i ==> !CrlfAt(s, j)
    ensures FindCrlf(s) == Some(i)
  {
  }

  /** The first line end does not move when bytes are appended. */
  lemma CrlfExtends(s: string, t: string)
    requires FindCrlf(s).Some?
    ensures FindCrlf(s + t) == FindCrlf(s)
  {
    var i := FindCrlf(s).value;
    assert forall j: nat :: j + 1 < |s| ==> (CrlfAt(s + t, j) <==> CrlfAt(s, j));
    FirstCrlf(s + t, i);
  }

  /** Nor when bytes behind it are cut off. */
  lemma CrlfTruncates(s: string, n: nat)
    requires n <= |s|
    requires FindCrlf(s).Some? && FindCrlf(s).value + 2 <= n
    ensures FindCrlf(s[..n]) == FindCrlf(s)
  {
    var i := FindCrlf(s).value;
    assert forall j: nat :: j + 1 < n ==> (CrlfAt(s[..n], j) <==> CrlfAt(s, j));
    FirstCrlf(s[..n], i);
  }

  /** A line printed with its line end is found whole, even when it ends in a bare '\r'. */
  lemma CrlfEndsLine(line: string, rest: string)
    ensures FindCrlf(line + CRLF + rest) == Some(|line|) <==> OneLine(line)
  {
    var s := line + CRLF + rest;
    assert forall j: nat :: j + 1 < |line| ==> (CrlfAt(s, j) <==> CrlfAt(line, j));
    if OneLine(line) {
      FirstCrlf(s, |line|);
    } else {
      CrlfExtends(line, CRLF + rest);
      assert s == line + (CRLF + rest);
    }
  }

  lemma OneLinePart(s: string, lo: nat, hi: nat)
    requires lo <= hi <= |s| && OneLine(s)
    ensures OneLine(s[lo..hi])
  {
    assert forall j: nat :: CrlfAt(s[lo..hi], j) ==> CrlfAt(s, lo + j);
  }

  /** What stands before the first line end is itself one line. */
  lemma LineBeforeCrlf(s: string)
    requires FindCrlf(s).Some?
    ensures OneLine(s[..FindCrlf(s).value])
    ensures s == s[..FindCrlf(s).value] + CRLF + s[FindCrlf(s).value + 2..]
  {
    var i := FindCrlf(s).value;
    var line := s[..i];
    assert forall j: nat :: CrlfAt(line, j) ==> j < i && CrlfAt(s, j);
    assert s[i..i + 2] == CRLF;
  }

  // ---------------------------------------------------------------- fields

  function IndexOf(s: string, c: char, from: nat): (i: nat)
    requires from <= |s|
    ensures from <= i <= |s|
    ensures forall j :: from <= j < i ==> s[j] != c
    ensures i < |s| ==> s[i] == c
    decreases |s| - from
  {
    if from == |s| || s[from] == c then from else IndexOf(s, c, from + 1)
  }

  lemma IndexOfIs(s: string, c: char, from: nat, i: nat)
    requires from <= i <= |s|
    requires forall j :: from <= j < i ==> s[j] != c
    requires i < |s| ==> s[i] == c
    ensures IndexOf(s, c, from) == i
  {
    var k := IndexOf(s, c, from);
    assert k == |s| || s[k] == c;
    assert i == |s| || s[i] == c;
  }

  predicate Has(s: string, c: char) {
    c in s
  }

  /** The three fields of a start line: exactly two spaces, and something behind the second. */
  function SplitLine(s: string): (r: Option<(string, string, string)>) {
    var a := IndexOf(s, ' ', 0);
    if a == |s| then None
    else
      var b := IndexOf(s, ' ', a + 1);
      if b == |s| || b + 1 == |s| || IndexOf(s, ' ', b + 1) != |s| then None
      else Some((s[..a], s[a + 1..b], s[b + 1..]))
  }

  method LineSplit(s: string) returns (ok: bool, field1: string, field2: string, field3: string)
    ensures ok == SplitLine(s).Some?
    ensures ok ==> (field1, field2, field3) == SplitLine(s).value
  {
    field1, field2, field3 := "", "", "";
    var count, start := 0, 0;
    for i := 0 to |s|
      invariant 0 <= start <= i && 0 <= count <= 2
      invariant forall j :: start <= j < i ==> s[j] != ' '
      invariant count == 0 ==> start == 0
      invariant count >= 1 ==> IndexOf(s, ' ', 0) < |s| && field1 == s[..IndexOf(s, ' ', 0)]
      invariant count == 1 ==> start == IndexOf(s, ' ', 0) + 1
      invariant count == 2 ==>
        IndexOf(s, ' ', 0) + 1 < start && IndexOf(s, ' ', IndexOf(s, ' ', 0) + 1) == start - 1 < |s|
      invariant count == 2 ==> field2 == s[IndexOf(s, ' ', 0) + 1..start - 1]
    {
      if s[i] == ' ' {
        count := count + 1;
        var tmp := s[start..i];
        IndexOfIs(s, ' ', start, i);
        if count == 1 {
          field1 := tmp;
        } else if count == 2 {
          field2 := tmp;
        } else {
          return false, field1, field2, field3;
        }
        start := i + 1;
      }
    }
    IndexOfIs(s, ' ', start, |s|);
    field3 := s[start..];
    ok := count == 2 && start < |s|;
  }

  lemma IndexOfBehind(pre: string, a: string, post: string, c: char)
    requires !Has(a, c) && (post == "" || post[0] == c)
    ensures IndexOf(pre + a + post, c, |pre|) == |pre| + |a|
  {
    var s := pre + a + post;
    assert forall j :: |pre| <= j < |pre| + |a| ==> s[j] == a[j - |pre|];
    assert post != "" ==> s[|pre| + |a|] == post[0];
    IndexOfIs(s, c, |pre|, |pre| + |a|);
  }

  lemma Regroup(a: string, b: string, c: string, s: string)
    requires s == a + " " + b + " " + c
    ensures s == "" + a + (" " + b + " " + c)
    ensures s == (a + " ") + b + (" " + c)
    ensures s == (a + " " + b + " ") + c + ""
  {
  }

  lemma Fields(a: string, b: string, c: string, s: string)
    requires s == a + " " + b + " " + c
    ensures s[..|a|] == a && s[|a| + 1..|a| + 1 + |b|] == b && s[|a| + |b| + 2..] == c
  {
  }

  lemma JoinedSpaces(a: string, b: string, c: string, s: string)
    requires s == a + " " + b + " " + c && !Has(a, ' ') && !Has(b, ' ') && !Has(c, ' ') && c != ""
    ensures SplitLine(s) == Some((a, b, c))
  {
    Regroup(a, b, c, s);
    IndexOfBehind("", a, " " + b + " " + c, ' ');
    IndexOfBehind(a + " ", b, " " + c, ' ');
    IndexOfBehind(a + " " + b + " ", c, "", ' ');
    Fields(a, b, c, s);
  }

  /** Splitting undoes joining: exactly the space-free triples with a non-empty third field. */
  lemma SplitLineJoins(a: string, b: string, c: string)
    ensures SplitLine(a + " " + b + " " + c) == Some((a, b, c))
       <==> !Has(a, ' ') && !Has(b, ' ') && !Has(c, ' ') && c != ""
  {
    var s := a + " " + b + " " + c;
    if !Has(a, ' ') && !Has(b, ' ') && !Has(c, ' ') && c != "" {
      JoinedSpaces(a, b, c, s);
    } else if SplitLine(s).Some? {
      SplitLineFields(s);
    }
  }

  lemma SplitLineFields(s: string)
    requires SplitLine(s).Some?
    ensures var (a, b, c) := SplitLine(s).value;
            s == a + " " + b + " " + c && !Has(a, ' ') && !Has(b, ' ') && !Has(c, ' ') && c != ""
  {
    var a := IndexOf(s, ' ', 0);
    var b := IndexOf(s, ' ', a + 1);
    assert s == s[..a] + [s[a]] + s[a + 1..b] + [s[b]] + s[b + 1..];
    var w := s[b + 1..];
    assert forall j :: 0 <= j < |w| ==> w[j] == s[b + 1 + j];
  }

  function SkipSpaces(s: string, from: nat): (i: nat)
    requires from <= |s|
    ensures from <= i <= |s|
    ensures forall j :: from <= j < i ==> s[j] == ' '
    ensures i < |s| ==> s[i] != ' '
    decreases |s| - from
  {
    if from == |s| || s[from] != ' ' then from else SkipSpaces(s, from + 1)
  }

  /** The first space-delimited token: trimming drops everything behind it. */
  function Trim(s: string): (r: string)
    ensures !Has(r, ' ')
  {
    var i := SkipSpaces(s, 0);
    var j := IndexOf(s, ' ', i);
    assert forall k :: 0 <= k < j - i ==> s[i..j][k] == s[i + k];
    s[i..j]
  }

  method TrimInPlace(s: string) returns (r: string)
    ensures r == Trim(s)
  {
    var i := 0;
    while i < |s|
      invariant 0 <= i <= |s|
      invariant SkipSpaces(s, 0) == SkipSpaces(s, i)
    {
      if s[i] != ' ' {
        break;
      }
      i := i + 1;
    }
    var j := i;
    while j < |s|
      invariant i <= j <= |s|
      invariant IndexOf(s, ' ', i) == IndexOf(s, ' ', j)
    {
      if s[j] == ' ' {
        break;
      }
      j := j + 1;
    }
    r := s[i..j];
  }

  /** Trimming keeps a text exactly when it has no spaces, with or without one space in front. */
  lemma TrimKeeps(s: string)
    ensures Trim(s) == s <==> !Has(s, ' ')
    ensures Trim(" " + s) == s <==> !Has(s, ' ')
  {
    if !Has(s, ' ') {
      IndexOfIs(s, ' ', 0, |s|);
      var t := " " + s;
      assert forall j :: 1 <= j < |t| ==> t[j] == s[j - 1];
      assert SkipSpaces(t, 0) == SkipSpaces(t, 1) == 1;
      IndexOfIs(t, ' ', 1, |t|);
      assert t[1..] == s;
    }
  }

  function SplitHeader(s: string): (r: Option<(string, string)>) {
    var colon := IndexOf(s, ':', 0);
    if colon == |s| then None
    else Some((Trim(s[..colon]), Trim(s[colon + 1..])))
  }

  method HeaderSplit(s: string) returns (ok: bool, key: string, value: string)
    ensures ok == SplitHeader(s).Some?
    ensures ok ==> (key, value) == SplitHeader(s).value
  {
    key, value := "", "";
    var colon := 0;
    while colon < |s|
      invariant 0 <= colon <= |s|
      invariant IndexOf(s, ':', 0) == IndexOf(s, ':', colon)
    {
      if s[colon] == ':' {
        break;
      }
      colon := colon + 1;
    }
    if colon >= |s| {
      return false, key, value;
    }
    key := TrimInPlace(s[..colon]);
    value := TrimInPlace(s[colon + 1..]);
    ok := true;
  }

  predicate CleanKey(key: string) {
    !Has(key, ' ') && !Has(key, ':') && OneLine(key)
  }

  predicate CleanValue(value: string) {
    !Has(value, ' ') && OneLine(value)
  }

  /** Splitting undoes printing "key: value" exactly for keys and values without
      spaces, keys without a colon. */
  lemma SplitHeaderJoins(key: string, value: string)
    ensures SplitHeader(key + ": " + value) == Some((key, value))
       <==> !Has(key, ' ') && !Has(key, ':') && !Has(value, ' ')
  {
    hide Trim;
    var s := key + ": " + value;
    var k := IndexOf(key, ':', 0);
    assert forall j :: 0 <= j < |key| ==> s[j] == key[j];
    IndexOfIs(s, ':', 0, k);
    if k < |key| {
      TrimShortens(s[..k]);
    } else {
      assert s[..k] == key && s[k + 1..] == " " + value;
      TrimKeeps(key);
      TrimKeeps(value);
    }
  }

  lemma TrimShortens(s: string)
    ensures |Trim(s)| <= |s|
    ensures forall c :: Has(Trim(s), c) ==> Has(s, c)
    ensures OneLine(s) ==> OneLine(Trim(s))
  {
    var i := SkipSpaces(s, 0);
    var r := Trim(s);
    assert forall k :: 0 <= k < |r| ==> r[k] == s[i + k];
    if OneLine(s) {
      OneLinePart(s, i, i + |r|);
    }
  }

  /** Whatever header line the parser accepts, the stored key and value are clean. */
  lemma SplitHeaderClean(s: string)
    requires OneLine(s) && SplitHeader(s).Some?
    ensures CleanKey(SplitHeader(s).value.0) && CleanValue(SplitHeader(s).value.1)
  {
    var colon := IndexOf(s, ':', 0);
    var k, v := s[..colon], s[colon + 1..];
    assert !Has(k, ':');
    OneLinePart(s, 0, colon);
    OneLinePart(s, colon + 1, |s|);
    assert v == s[colon + 1..|s|];
    TrimShortens(k);
    TrimShortens(v);
  }

  // ---------------------------------------------------------------- decimal numbers

  predicate IsDigit(c: char) {
    '0' <= c <= '9'
  }

  predicate IsSpace(c: char) {
    c == ' ' || c == '\t' || c == '\n' || c == '\r' || c as int == 0x0b || c as int == 0x0c
  }

  function DigitsValue(s: string, acc: nat): nat {
    if s == "" || !IsDigit(s[0]) then acc
    else DigitsValue(s[1..], 10 * acc + (s[0] as int - '0' as int))
  }

  function SignedValue(s: string): int {
    if s == "" then 0
    else if IsSpace(s[0]) then SignedValue(s[1..])
    else if s[0] == '-' then 0 - DigitsValue(s[1..], 0)
    else if s[0] == '+' then DigitsValue(s[1..], 0)
    else DigitsValue(s, 0)
  }

  /** The C library's conversion: the value is clamped to a 64-bit long and then cut to 32 bits. */
  function Atoi(s: string): (r: int)
    ensures -0x8000_0000 <= r < 0x8000_0000
  {
    var v := SignedValue(s);
    var long := if v > 0x7fff_ffff_ffff_ffff then 0x7fff_ffff_ffff_ffff
                else if v < -0x8000_0000_0000_0000 then -0x8000_0000_0000_0000 else v;
    var low := long % 0x1_0000_0000;
    if low < 0x8000_0000 then low else low - 0x1_0000_0000
  }

  function Decimal(n: nat): (s: string)
    ensures s != "" && forall i :: 0 <= i < |s| ==> IsDigit(s[i])
  {
    if n < 10 then [('0' as int + n) as char]
    else Decimal(n / 10) + [('0' as int + n % 10) as char]
  }

  lemma {:induction false} DigitsOfDecimal(n: nat, rest: string)
    ensures DigitsValue(Decimal(n) + rest, 0) == DigitsValue(rest, n)
  {
    if n < 10 {
      assert (Decimal(n) + rest)[1..] == rest;
    } else {
      var d := ('0' as int + n % 10) as char;
      assert Decimal(n) + rest == Decimal(n / 10) + ([d] + rest);
      DigitsOfDecimal(n / 10, [d] + rest);
      assert ([d] + rest)[1..] == rest;
    }
  }

  /** A printed Content-Length is read back, for every length an int holds. */
  lemma AtoiReadsDecimal(n: nat)
    requires n < 0x8000_0000
    ensures Atoi(Decimal(n)) == n
  {
    DigitsOfDecimal(n, "");
    assert Decimal(n) + "" == Decimal(n);
    assert IsDigit(Decimal(n)[0]);
  }

  // ---------------------------------------------------------------- chunk sizes

  function HexDigit(c: char): (r: Option<nat>)
    ensures r.Some? ==> r.value < 16
  {
    if '0' <= c <= '9' then Some(c as int - '0' as int)
    else if 'a' <= c <= 'f' then Some(c as int - 'a' as int + 10)
    else if 'A' <= c <= 'F' then Some(c as int - 'A' as int + 10)
    else None
  }

  /** The number in front of an optional extension, in 64-bit arithmetic. */
  function HexFold(s: string, acc: nat): (r: Option<nat>)
    requires acc < SIZE_T
    ensures r.Some? ==> r.value < SIZE_T
  {
    if s == "" || s[0] == ';' then Some(acc)
    else if HexDigit(s[0]).None? then None
    else HexFold(s[1..], (acc * 16 + HexDigit(s[0]).value) % SIZE_T)
  }

  function ChunkSize(line: string): (r: Option<nat>)
    ensures r.Some? ==> r.value < SIZE_T
  {
    HexFold(line, 0)
  }

  method ReadChunkSize(line: string) returns (size: Option<nat>)
    ensures size == ChunkSize(line)
  {
    var chunkSize: nat := 0;
    for i := 0 to |line|
      invariant chunkSize < SIZE_T
      invariant HexFold(line[i..], chunkSize) == ChunkSize(line)
    {
      var c := line[i];
      assert line[i..][1..] == line[i + 1..];
      if c == ';' {
        return Some(chunkSize);
      }
      var d := HexDigit(c);
      if d.None? {
        return None;
      }
      chunkSize := (chunkSize * 16 + d.value) % SIZE_T;
    }
    return Some(chunkSize);
  }

  function HexChar(d: nat, upper: bool): (c: char)
    requires d < 16
    ensures HexDigit(c) == Some(d) && c != ';' && c != '\r' && c != '\n'
  {
    if d < 10 then ('0' as int + d) as char
    else if upper then ('A' as int + d - 10) as char
    else ('a' as int + d - 10) as char
  }

  /** Hexadecimal printing without leading zeros, in upper or lower case. */
  function Hex(n: nat, upper: bool): (s: string)
    ensures s != "" && forall i :: 0 <= i < |s| ==> s[i] != '\r' && s[i] != '\n'
  {
    if n < 16 then [HexChar(n, upper)]
    else Hex(n / 16, upper) + [HexChar(n % 16, upper)]
  }

  lemma HexFoldStep(c: char, rest: string, acc: nat)
    requires acc * 16 + 15 < SIZE_T && c != ';' && HexDigit(c).Some?
    ensures HexFold([c] + rest, acc) == HexFold(rest, acc * 16 + HexDigit(c).value)
  {
    hide HexDigit;
    var x := acc * 16 + HexDigit(c).value;
    Modular.ModIs(x, 0, x, SIZE_T);
    assert ([c] + rest)[1..] == rest;
  }

  lemma HexFoldLast(h: string, d: char, rest: string, q: nat, n: nat)
    requires n < SIZE_T && d != ';' && HexDigit(d) == Some(n % 16) && q == n / 16
    requires HexFold(h + ([d] + rest), 0) == HexFold([d] + rest, q)
    ensures HexFold((h + [d]) + rest, 0) == HexFold(rest, n)
  {
    Seqs.Assoc(h, [d], rest);
    HexFoldStep(d, rest, q);
  }

  lemma {:induction false} HexFoldsHex(n: nat, upper: bool, rest: string)
    requires n < SIZE_T
    ensures HexFold(Hex(n, upper) + rest, 0) == HexFold(rest, n)
  {
    if n < 16 {
      HexFoldStep(HexChar(n, upper), rest, 0);
    } else {
      var q, r := n / 16, n % 16;
      var d, h := HexChar(r, upper), Hex(q, upper);
      HexFoldsHex(q, upper, [d] + rest);
      HexFoldLast(h, d, rest, q, n);
    }
  }

  predicate Extension(ext: string) {
    ext == "" || (ext[0] == ';' && OneLine(ext))
  }

  /** A printed size line, with any extension, is one line that reads back as its number. */
  lemma ChunkSizeReadsHex(n: nat, upper: bool, ext: string)
    requires n < SIZE_T && Extension(ext)
    ensures ChunkSize(Hex(n, upper) + ext) == Some(n)
    ensures OneLine(Hex(n, upper) + ext)
  {
    HexFoldsHex(n, upper, ext);
    NoReturnJoins(Hex(n, upper), ext);
  }

  lemma NoReturnJoins(h: string, ext: string)
    requires (forall j :: 0 <= j < |h| ==> h[j] != '\r') && OneLine(ext)
    ensures OneLine(h + ext)
  {
    assert forall j: nat :: CrlfAt(h + ext, j) ==> j >= |h| && CrlfAt(ext, j - |h|);
  }
}
