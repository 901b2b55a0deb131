/** What stands at the front of chunked data: a classification of the bytes, and what the chunk loop
    does in each case. The theorems about cut-up data are stated with it. */
module HttpFront {
  import Seqs
  import opened Wrappers
  import opened HttpText
  import opened HttpParserSpec

  /** `Short`: no whole size line, or one whose chunk is not all there. `Zero(n)`: a size line of 0, `n`
      bytes with its line end, and two bytes behind it. `Wrapped(n)`: a size line whose length, size
      and line end add up past 2^64, so that its chunk seems to be there. `Whole(n, size)`: a chunk of
      `size` bytes behind a size line of `n`. `Refused`: anything else. */
  datatype Front = Short | Refused | Zero(n: nat) | Wrapped(n: nat) | Whole(n: nat, size: nat)

  function FrontOf(s: string): (f: Front)
    ensures f.Zero? ==> 2 < f.n <= |s| && (|s| < MAX_BUFFER ==> f.n + 2 <= |s|)
    ensures f.Wrapped? ==> 2 < f.n <= |s|
    ensures f.Whole? ==> 2 < f.n && 0 < f.size && f.n + f.size + 2 <= |s|
  {
    match FindCrlf(s)
    case None => Short
    case Some(i) =>
      if i == 0 then Refused
      else match ChunkSize(s[..i])
           case None => Refused
           case Some(size) => Sized(s, i + 2, size)
  }

  /** Behind a size line of `n` bytes. */
  function Sized(s: string, n: nat, size: nat): (f: Front)
    requires 2 < n <= |s|
    ensures f.Zero? ==> f == Zero(n) && (|s| < MAX_BUFFER ==> n + 2 <= |s|)
    ensures f.Wrapped? ==> f == Wrapped(n)
    ensures f.Whole? ==> f == Whole(n, size) && 0 < size && n + size + 2 <= |s|
  {
    if Wrap(n + size + 2) > |s| then Short
    else if size == 0 then Zero(n)
    else if size + 2 >= SIZE_T then Refused
    else if n + size + 2 >= SIZE_T then Wrapped(n)
    else if CrlfAt(s[n..], size) then Whole(n, size)
    else Refused
  }

  /** The data of a whole chunk at the front. */
  function DataOf(s: string, n: nat, size: nat): string
    requires n + size <= |s|
  {
    s[n..][..size]
  }

  /** The line in question is the first one. */
  lemma FrontLine(s: string)
    ensures var f := FrontOf(s);
            (f.Zero? ==> FindCrlf(s) == Some(f.n - 2)) && (f.Wrapped? ==> FindCrlf(s) == Some(f.n - 2))
            && (f.Whole? ==> FindCrlf(s) == Some(f.n - 2))
    ensures FindCrlf(s).None? ==> FrontOf(s) == Short
    ensures FindCrlf(s) == Some(0) ==> FrontOf(s) == Refused
  {
  }

  // ---------------------------------------------------------------- what the chunk loop does

  lemma ShortWaits(s: string, body: string)
    requires FrontOf(s) == Short
    ensures ParseChunks(s, body) == BodyPart(WAITING_DATA, 0, body)
  {
  }

  lemma RefusedFails(s: string, body: string)
    requires FrontOf(s) == Refused && |s| < MAX_BUFFER
    ensures ParseChunks(s, body).code in {ERROR, LENGTH_ERROR}
  {
    var i := FindCrlf(s).value;
    if i > 0 && ChunkSize(s[..i]).Some? {
      SizeLineRead(s, body, i, ChunkSize(s[..i]).value);
    }
  }

  lemma ZeroSkips(s: string, body: string, n: nat)
    requires FrontOf(s) == Zero(n)
    ensures ParseChunks(s, body) == Shift(ParseTrailer(s[n..], body), n)
  {
    SizeLineRead(s, body, n - 2, 0);
  }

  lemma WrappedWaits(s: string, body: string, n: nat)
    requires FrontOf(s) == Wrapped(n) && |s| < MAX_BUFFER
    ensures ParseChunks(s, body) == BodyPart(WAITING_DATA, n, body)
  {
    SizeLineRead(s, body, n - 2, ChunkSize(s[..n - 2]).value);
  }

  lemma WholeTakes(s: string, body: string, n: nat, size: nat, m: nat)
    requires FrontOf(s) == Whole(n, size) && m == n + size + 2
    ensures ParseChunks(s, body) == Shift(ParseChunks(s[m..], body + DataOf(s, n, size)), m)
  {
    ChunkInFront(s, body, n - 2, size, DataOf(s, n, size), m);
  }

  // ---------------------------------------------------------------- with more bytes behind

  /** A classification other than `Short` is final. */
  lemma FrontExtends(s: string, t: string)
    requires FrontOf(s) != Short && |s + t| < MAX_BUFFER
    ensures FrontOf(s + t) == FrontOf(s)
  {
    CrlfExtends(s, t);
    var i := FindCrlf(s).value;
    Seqs.TakeOfSum(s, t, i);
    if i > 0 && ChunkSize(s[..i]).Some? {
      Seqs.DropOfSum(s, t, i + 2);
      ChunkEndExtends(s, t, i + 2, ChunkSize(s[..i]).value);
    }
  }

  lemma ChunkEndExtends(s: string, t: string, n: nat, size: nat)
    requires n <= |s|
    ensures n + size + 2 <= |s| ==> (CrlfAt((s + t)[n..], size) <==> CrlfAt(s[n..], size))
  {
    Seqs.DropOfSum(s, t, n);
  }

  lemma DataExtends(s: string, t: string, n: nat, size: nat)
    requires n + size <= |s|
    ensures DataOf(s + t, n, size) == DataOf(s, n, size)
  {
    Seqs.DropOfSum(s, t, n);
    Seqs.TakeOfSum(s[n..], t, size);
  }

  /** How many bytes a classification rests on. */
  function Reach(f: Front): nat {
    match f
    case Short => 0
    case Refused => 0
    case Zero(n) => n + 2
    case Wrapped(n) => n
    case Whole(n, size) => n + size + 2
  }

  lemma FrontTruncates(s: string, k: nat)
    requires FrontOf(s).Zero? || FrontOf(s).Wrapped? || FrontOf(s).Whole?
    requires Reach(FrontOf(s)) <= k <= |s| < MAX_BUFFER
    ensures FrontOf(s[..k]) == FrontOf(s)
  {
    FrontLine(s);
    var n := FrontOf(s).n;
    CrlfTruncates(s, k);
    Seqs.TakeOfTake(s, k, n - 2);
    ChunkEndTruncates(s, k, n, ChunkSize(s[..n - 2]).value);
  }

  lemma ChunkEndTruncates(s: string, k: nat, n: nat, size: nat)
    requires n <= k <= |s|
    ensures n + size + 2 <= k ==> (CrlfAt(s[..k][n..], size) <==> CrlfAt(s[n..], size))
  {
    Seqs.DropOfTake(s, k, n);
  }

  lemma DataTruncates(s: string, k: nat, n: nat, size: nat)
    requires n + size <= k <= |s|
    ensures DataOf(s[..k], n, size) == DataOf(s, n, size)
  {
    Seqs.DropOfTake(s, k, n);
    Seqs.TakeOfTake(s[n..], k - n, size);
  }

  /** Refused data stays refused, in the same way. */
  lemma RefusedStays(s: string, t: string, body: string)
    requires FrontOf(s) == Refused && |s + t| < MAX_BUFFER
    ensures ParseChunks(s + t, body) == ParseChunks(s, body)
  {
    FrontExtends(s, t);
    CrlfExtends(s, t);
    var i := FindCrlf(s).value;
    Seqs.TakeOfSum(s, t, i);
    if i > 0 && ChunkSize(s[..i]).Some? {
      var size := ChunkSize(s[..i]).value;
      SizeLineRead(s, body, i, size);
      SizeLineRead(s + t, body, i, size);
      RefusedBehind(s, t, i + 2, size, body);
    }
  }

  lemma RefusedBehind(s: string, t: string, n: nat, size: nat, body: string)
    requires 0 < n <= |s| && |s + t| < MAX_BUFFER && 0 < size && Wrap(n + size + 2) <= |s|
    requires (size + 2 >= SIZE_T && size < SIZE_T) || n + size + 2 <= |s|
    requires size + 2 < SIZE_T ==> !CrlfAt(s[n..], size)
    ensures ParseChunkBehind(s + t, n, size, body) == ParseChunkBehind(s, n, size, body)
  {
    Seqs.DropOfSum(s, t, n);
    if size + 2 < SIZE_T {
      Seqs.TakeOfSum(s[n..], t, size);
    }
  }
}
