/** Cutting the byte stream: the parser called on growing prefixes of a message against
    one call on the whole of it. */
module HttpSegmentation {
  import Seqs
  import opened Wrappers
  import opened HttpText
  import opened HttpMessage
  import opened HttpParserSpec
  import opened HttpFront

  // ---------------------------------------------------------------- the condition on the bytes

  /** Behind a size line of 0: no whole line yet, or the empty line that ends the body, or trailer
      lines that make no difference. */
  predicate TrailerSteady(t: string) {
    FindCrlf(t) == None || FindCrlf(t) == Some(0) || LinesSteady(t)
  }

  /** A trailer line makes no difference only where a later call, taking it for a size line, consumes it
      alone as well: it reads as 0 with two bytes behind it, or wraps around with no line behind it. */
  predicate LinesSteady(t: string)
    decreases |t|
  {
    match FrontOf(t)
    case Zero(n) => FindCrlf(t[n..]) == None || LinesSteady(t[n..])
    case Wrapped(n) => FindCrlf(t[n..]) == None
    case _ => false
  }

  /** Chunked data that may be cut anywhere. */
  predicate ChunksSteady(s: string)
    decreases |s|
  {
    match FrontOf(s)
    case Short => true
    case Refused => true
    case Zero(n) => TrailerSteady(s[n..])
    case Wrapped(n) => FrontOf(s[n..]) == Short
    case Whole(n, size) => ChunksSteady(s[n + size + 2..])
  }

  /** The state and the message with which the body is entered, if the call gets there. */
  function AtBody(p: PState, s: string, m: Msg): (r: Option<(PState, Msg)>)
    requires p.Valid() && p.already <= |s|
    ensures r.Some? ==> r.value.0.Valid() && r.value.0.tag == BODY && p.already <= r.value.0.already <= |s|
    decreases if p.tag == LINE then 1 else 0
  {
    match p.tag
    case LINE =>
      var l := ParseLine(s, m);
      if l.code == READY then AtBody(p.(tag := HEADER, already := l.nparse), s, l.msg) else None
    case HEADER =>
      var h := ParseHeader(s[p.already..], m);
      if h.code == READY && DeclaredLength(h.msg) >= 0 then Some((StartBody(p, h.nparse, h.msg), h.msg)) else None
    case BODY => Some((p, m))
    case DONE => None
  }

  /** Data that may be cut anywhere: a condition on the bytes of a chunked body. */
  predicate Steady(p: PState, s: string, m: Msg)
    requires p.Valid() && p.already <= |s|
  {
    match AtBody(p, s, m)
    case None => true
    case Some((q, _)) => q.chunked ==> ChunksSteady(s[q.already..])
  }

  // ---------------------------------------------------------------- chunked data

  lemma {:induction false} TrailerFinal(s: string, t: string, body: string)
    requires ParseTrailer(s, body).code == READY
    ensures ParseTrailer(s + t, body) == ParseTrailer(s, body)
    decreases |s|
  {
    var i := FindCrlf(s).value;
    CrlfExtends(s, t);
    Seqs.DropOfSum(s, t, i + 2);
    if i > 0 {
      TrailerFinal(s[i + 2..], t, body);
    }
  }

  lemma {:induction false} ChunksFinal(s: string, t: string, body: string)
    requires ParseChunks(s, body).code != WAITING_DATA && |s + t| < MAX_BUFFER
    ensures ParseChunks(s + t, body) == ParseChunks(s, body)
    decreases |s|
  {
    hide FrontOf;
    hide ParseChunks;
    hide ParseTrailer;
    hide FindCrlf;
    match FrontOf(s)
    case Short => ShortWaits(s, body);
    case Refused => RefusedStays(s, t, body);
    case Zero(n) =>
      FrontExtends(s, t);
      ZeroSkips(s, body, n);
      ZeroSkips(s + t, body, n);
      TrailerFinal(s[n..], t, body);
      Seqs.DropOfSum(s, t, n);
    case Wrapped(n) => WrappedWaits(s, body, n);
    case Whole(n, size) =>
      var m := n + size + 2;
      FrontExtends(s, t);
      WholeTakes(s, body, n, size, m);
      WholeTakes(s + t, body, n, size, m);
      DataExtends(s, t, n, size);
      Seqs.DropOfSum(s, t, m);
      ChunksFinal(s[m..], t, body + DataOf(s, n, size));
  }

  /** A call that came back waiting with `a` can be taken up again behind what it consumed. */
  ghost predicate Resumes(a: BodyPart, whole: BodyPart, st: string) {
    && a.nparse <= |st|
    && whole == Shift(ParseChunks(st[a.nparse..], a.body), a.nparse)
    && ChunksSteady(st[a.nparse..])
  }

  lemma ResumesBehind(a: BodyPart, whole: BodyPart, st: string, d: nat)
    requires d <= |st| && Resumes(a, whole, st[d..])
    ensures Resumes(Shift(a, d), Shift(whole, d), st)
  {
    hide ParseChunks;
    hide ChunksSteady;
    Seqs.DropOfDrop(st, d, a.nparse, d + a.nparse);
  }

  lemma ResumesAtOnce(whole: BodyPart, st: string, body: string)
    requires whole == ParseChunks(st, body) && ChunksSteady(st)
    ensures Resumes(BodyPart(WAITING_DATA, 0, body), whole, st)
  {
    assert st[0..] == st;
  }

  /** Trailer lines that make no difference are consumed by the chunk loop just as well. */
  lemma TrailerAsChunks(t: string, body: string)
    requires TrailerSteady(t) && FindCrlf(t) != Some(0) && |t| < MAX_BUFFER
    ensures ParseTrailer(t, body) == ParseChunks(t, body) && ChunksSteady(t)
  {
    hide FrontOf;
    hide ParseChunks;
    hide FindCrlf;
    FrontLine(t);
    match FrontOf(t)
    case Zero(n) => ZeroSkips(t, body, n);
    case Wrapped(n) =>
      WrappedWaits(t, body, n);
      FrontLine(t[n..]);
    case _ => ShortWaits(t, body);
  }

  lemma {:induction false} TrailerResumes(s: string, t: string, body: string)
    requires TrailerSteady(s + t) && FindCrlf(s + t) != Some(0) && |s + t| < MAX_BUFFER
    requires ParseTrailer(s, body).code == WAITING_DATA
    ensures Resumes(ParseTrailer(s, body), ParseTrailer(s + t, body), s + t)
    decreases |s|
  {
    hide FrontOf;
    hide FindCrlf;
    hide ParseTrailer;
    hide ParseChunks;
    hide TrailerSteady;
    hide Resumes;
    if |s| < 2 || FindCrlf(s).None? {
      TrailerStarts(s, body);
      TrailerAsChunks(s + t, body);
      ResumesAtOnce(ParseTrailer(s + t, body), s + t, body);
    } else {
      TrailerEnds(s, body);
      var n := FindCrlf(s).value + 2;
      CrlfExtends(s, t);
      Seqs.DropOfSum(s, t, n);
      TrailerGoesOn(s, body, n);
      TrailerGoesOn(s + t, body, n);
      TrailerTail(s + t, n);
      TrailerResumes(s[n..], t, body);
      ResumesBehind(ParseTrailer(s[n..], body), ParseTrailer(s[n..] + t, body), s + t, n);
    }
  }

  lemma TrailerGoesOn(s: string, body: string, n: nat)
    requires FindCrlf(s) == Some(n - 2) && n > 2
    ensures n <= |s| && ParseTrailer(s, body) == Shift(ParseTrailer(s[n..], body), n)
  {
    hide FindCrlf;
  }

  lemma TrailerStarts(s: string, body: string)
    requires |s| < 2 || FindCrlf(s).None?
    ensures ParseTrailer(s, body) == BodyPart(WAITING_DATA, 0, body)
  {
    hide FindCrlf;
  }

  lemma LinesFront(t: string)
    requires LinesSteady(t)
    ensures FindCrlf(t) != Some(0)
  {
    hide FrontOf;
    hide FindCrlf;
    FrontLine(t);
  }

  lemma TrailerTail(t: string, n: nat)
    requires TrailerSteady(t) && FindCrlf(t) == Some(n - 2) && n > 2
    ensures n <= |t| && TrailerSteady(t[n..]) && FindCrlf(t[n..]) != Some(0)
  {
    hide FrontOf;
    hide FindCrlf;
    FrontLine(t);
    if LinesSteady(t[n..]) {
      LinesFront(t[n..]);
    }
  }

  lemma TrailerEnds(s: string, body: string)
    requires ParseTrailer(s, body).code == WAITING_DATA && |s| >= 2
    ensures FindCrlf(s) != Some(0)
  {
    hide FindCrlf;
  }

  lemma {:induction false} ChunksResume(s: string, t: string, body: string)
    requires ChunksSteady(s + t) && |s + t| < MAX_BUFFER && ParseChunks(s, body).code == WAITING_DATA
    ensures Resumes(ParseChunks(s, body), ParseChunks(s + t, body), s + t)
    decreases |s|
  {
    hide FrontOf;
    hide Resumes;
    hide ParseChunks;
    hide ParseTrailer;
    hide FindCrlf;
    match FrontOf(s)
    case Short =>
      ShortWaits(s, body);
      ResumesAtOnce(ParseChunks(s + t, body), s + t, body);
    case Refused => RefusedFails(s, body);
    case Zero(n) =>
      FrontExtends(s, t);
      ZeroSkips(s, body, n);
      ZeroSkips(s + t, body, n);
      Seqs.DropOfSum(s, t, n);
      NoEarlyCrlf(s[n..], t, body);
      TrailerResumes(s[n..], t, body);
      ResumesBehind(ParseTrailer(s[n..], body), ParseTrailer(s[n..] + t, body), s + t, n);
    case Wrapped(n) =>
      FrontExtends(s, t);
      WrappedResumes(s, t, body, n);
    case Whole(n, size) =>
      var m, data := n + size + 2, DataOf(s, n, size);
      FrontExtends(s, t);
      WholeTakes(s, body, n, size, m);
      WholeTakes(s + t, body, n, size, m);
      DataExtends(s, t, n, size);
      Seqs.DropOfSum(s, t, m);
      ChunksResume(s[m..], t, body + data);
      ResumesBehind(ParseChunks(s[m..], body + data), ParseChunks(s[m..] + t, body + data), s + t, m);
  }

  lemma WrappedResumes(s: string, t: string, body: string, n: nat)
    requires FrontOf(s) == Wrapped(n) == FrontOf(s + t) && |s + t| < MAX_BUFFER
    requires FrontOf((s + t)[n..]) == Short
    ensures Resumes(ParseChunks(s, body), ParseChunks(s + t, body), s + t)
  {
    hide FrontOf;
    hide ParseChunks;
    WrappedWaits(s, body, n);
    WrappedWaits(s + t, body, n);
    ShortWaits((s + t)[n..], body);
  }

  /** Two bytes that are not the end of the trailer section stay none. */
  lemma NoEarlyCrlf(s: string, t: string, body: string)
    requires |s| >= 2 && ParseTrailer(s, body).code == WAITING_DATA
    ensures FindCrlf(s + t) != Some(0)
  {
    if CrlfAt(s, 0) {
      FirstCrlf(s, 0);
    }
    assert !CrlfAt(s + t, 0);
  }

  // ---------------------------------------------------------------- where a cut shows

  /** Cut at `c`, the next call on all of `s` does not end as one call on all of it. */
  ghost predicate Shows(s: string, body: string, c: nat) {
    && c <= |s|
    && var a := ParseChunks(s[..c], body);
       && a.code == WAITING_DATA
       && ParseChunks(s, body).code in {READY, WAITING_DATA}
       && ParseChunks(s, body) != Shift(ParseChunks(s[a.nparse..], a.body), a.nparse)
  }

  /** The same behind a size line of 0. */
  ghost predicate TrailerShows(t: string, body: string, c: nat) {
    && 2 <= c <= |t|
    && var a := ParseTrailer(t[..c], body);
       && a.code == WAITING_DATA
       && ParseTrailer(t, body) != Shift(ParseChunks(t[a.nparse..], body), a.nparse)
  }

  lemma {:induction false} BodyGrows(s: string, body: string)
    requires |s| < MAX_BUFFER
    ensures ParseChunks(s, body).code in {READY, WAITING_DATA} ==> |ParseChunks(s, body).body| >= |body|
    decreases |s|
  {
    hide FrontOf;
    hide ParseChunks;
    hide ParseTrailer;
    hide FindCrlf;
    match FrontOf(s)
    case Short => ShortWaits(s, body);
    case Refused => RefusedFails(s, body);
    case Zero(n) => ZeroSkips(s, body, n);
    case Wrapped(n) => WrappedWaits(s, body, n);
    case Whole(n, size) =>
      var m := n + size + 2;
      WholeTakes(s, body, n, size, m);
      BodyGrows(s[m..], body + DataOf(s, n, size));
  }

  /** Only data at whose front something is missing waits without consuming anything. */
  lemma OnlyShortWaits(s: string, body: string)
    requires FrontOf(s) != Short && |s| < MAX_BUFFER
    ensures ParseChunks(s, body) != BodyPart(WAITING_DATA, 0, body)
  {
    hide FrontOf;
    hide ParseChunks;
    hide ParseTrailer;
    hide FindCrlf;
    match FrontOf(s)
    case Refused => RefusedFails(s, body);
    case Zero(n) => ZeroSkips(s, body, n);
    case Wrapped(n) => WrappedWaits(s, body, n);
    case Whole(n, size) => WholeTakes(s, body, n, size, n + size + 2);
  }

  /** A trailer line that makes a difference is not read as a size line with the same effect. */
  lemma LineShows(t: string, body: string)
    requires FindCrlf(t).Some? && FindCrlf(t).value > 0 && |t| < MAX_BUFFER
    requires !LinesSteady(t) && !FrontOf(t).Zero?
    ensures ParseTrailer(t, body) != ParseChunks(t, body)
  {
    hide FrontOf;
    hide ParseChunks;
    hide FindCrlf;
    FrontLine(t);
    var n := FindCrlf(t).value + 2;
    assert ParseTrailer(t, body) == Shift(ParseTrailer(t[n..], body), n);
    match FrontOf(t)
    case Short => ShortWaits(t, body);
    case Refused => RefusedFails(t, body);
    case Wrapped(_) => WrappedWaits(t, body, n);
    case Whole(_, size) =>
      var m := n + size + 2;
      WholeTakes(t, body, n, size, m);
      BodyGrows(t[m..], body + DataOf(t, n, size));
  }

  lemma FirstTwo(t: string)
    requires FindCrlf(t).Some? && FindCrlf(t).value > 0
    ensures |t| >= 2 && FindCrlf(t[..2]) == None
  {
    assert !CrlfAt(t, 0);
    assert forall j: nat :: !CrlfAt(t[..2], j);
  }

  /** The cut: in front of the line end that ends the section, or two bytes into the first line
      that makes a difference. */
  lemma {:induction false} TrailerUnsteady(t: string, body: string) returns (c: nat)
    requires FindCrlf(t).Some? && FindCrlf(t).value > 0 && !LinesSteady(t) && |t| < MAX_BUFFER
    ensures TrailerShows(t, body, c)
    decreases |t|
  {
    hide FrontOf;
    hide FindCrlf;
    hide TrailerShows;
    var n := FindCrlf(t).value + 2;
    FrontLine(t);
    if !FrontOf(t).Zero? {
      c := 2;
      TwoShow(t, body);
    } else if FindCrlf(t[n..]) == Some(0) {
      c := n;
      EndShows(t, body, n);
    } else {
      var c' := TrailerUnsteady(t[n..], body);
      c := n + c';
      LaterShows(t, body, n, c');
    }
  }

  lemma TwoShow(t: string, body: string)
    requires FindCrlf(t).Some? && FindCrlf(t).value > 0 && |t| < MAX_BUFFER
    requires !LinesSteady(t) && !FrontOf(t).Zero?
    ensures TrailerShows(t, body, 2)
  {
    hide FrontOf;
    hide LinesSteady;
    hide ParseChunks;
    FirstTwo(t);
    LineShows(t, body);
    assert t[0..] == t;
  }

  lemma EndShows(t: string, body: string, n: nat)
    requires FindCrlf(t) == Some(n - 2) && 2 < n && FindCrlf(t[n..]) == Some(0) && |t| < MAX_BUFFER
    ensures TrailerShows(t, body, n)
  {
    hide FrontOf;
    hide FindCrlf;
    hide ParseChunks;
    TrailerCutAt(t, body, n, n);
    FrontLine(t[n..]);
    RefusedFails(t[n..], body);
  }

  lemma LaterShows(t: string, body: string, n: nat, c: nat)
    requires FindCrlf(t) == Some(n - 2) && 2 < n && TrailerShows(t[n..], body, c)
    ensures TrailerShows(t, body, n + c)
  {
    hide FindCrlf;
    hide ParseChunks;
    hide ParseTrailer;
    TrailerCutAt(t, body, n, n + c);
    var a := ParseTrailer(t[n..][..c], body);
    Seqs.DropOfDrop(t, n, a.nparse, n + a.nparse);
  }

  lemma TrailerCutAt(t: string, body: string, n: nat, c: nat)
    requires FindCrlf(t) == Some(n - 2) && 2 < n <= c <= |t|
    ensures ParseTrailer(t, body) == Shift(ParseTrailer(t[n..], body), n)
    ensures ParseTrailer(t[..c], body) == Shift(ParseTrailer(t[n..][..c - n], body), n)
  {
    hide FindCrlf;
    CrlfTruncates(t, c);
    Seqs.DropOfTake(t, c, n);
  }

  lemma {:induction false} ChunksUnsteady(s: string, body: string) returns (c: nat)
    requires !ChunksSteady(s) && |s| < MAX_BUFFER
    ensures Shows(s, body, c)
    decreases |s|
  {
    hide FrontOf;
    hide Shows;
    hide TrailerShows;
    hide ParseChunks;
    hide ParseTrailer;
    hide FindCrlf;
    match FrontOf(s)
    case Zero(n) =>
      var c' := TrailerUnsteady(s[n..], body);
      c := n + c';
      ZeroShows(s, body, n, c');
    case Wrapped(n) =>
      c := n;
      WrappedShows(s, body, n);
    case Whole(n, size) =>
      var m := n + size + 2;
      var c' := ChunksUnsteady(s[m..], body + DataOf(s, n, size));
      c := m + c';
      WholeShows(s, body, n, size, m, c');
  }

  lemma WrappedShows(s: string, body: string, n: nat)
    requires FrontOf(s) == Wrapped(n) && |s| < MAX_BUFFER && FrontOf(s[n..]) != Short
    ensures Shows(s, body, n)
  {
    hide FrontOf;
    hide ParseChunks;
    FrontTruncates(s, n);
    WrappedWaits(s, body, n);
    WrappedWaits(s[..n], body, n);
    OnlyShortWaits(s[n..], body);
  }

  lemma ZeroShows(s: string, body: string, n: nat, c: nat)
    requires FrontOf(s) == Zero(n) && |s| < MAX_BUFFER && TrailerShows(s[n..], body, c)
    ensures Shows(s, body, n + c)
  {
    hide FrontOf;
    hide ParseChunks;
    hide ParseTrailer;
    hide FindCrlf;
    FrontTruncates(s, n + c);
    ZeroSkips(s, body, n);
    ZeroSkips(s[..n + c], body, n);
    Seqs.DropOfTake(s, n + c, n);
    var a := ParseTrailer(s[n..][..c], body);
    Seqs.DropOfDrop(s, n, a.nparse, n + a.nparse);
  }

  lemma WholeShows(s: string, body: string, n: nat, size: nat, m: nat, c: nat)
    requires FrontOf(s) == Whole(n, size) && |s| < MAX_BUFFER && m == n + size + 2
    requires Shows(s[m..], body + DataOf(s, n, size), c)
    ensures Shows(s, body, m + c)
  {
    hide FrontOf;
    hide DataOf;
    hide ParseChunks;
    hide ParseTrailer;
    hide FindCrlf;
    FrontTruncates(s, m + c);
    WholeTakes(s, body, n, size, m);
    WholeTakes(s[..m + c], body, n, size, m);
    DataTruncates(s, m + c, n, size);
    Seqs.DropOfTake(s, m + c, m);
    var a := ParseChunks(s[m..][..c], body + DataOf(s, n, size));
    Seqs.DropOfDrop(s, m, a.nparse, m + a.nparse);
  }

  // ---------------------------------------------------------------- start line, headers, plain bodies

  lemma LineExtends(s: string, t: string, m: Msg)
    requires ParseLine(s, m).code != WAITING_DATA
    ensures ParseLine(s + t, m) == ParseLine(s, m)
  {
    CrlfExtends(s, t);
    Seqs.TakeOfSum(s, t, FindCrlf(s).value);
  }

  lemma LineTruncates(s: string, m: Msg, n: nat)
    requires ParseLine(s, m).code == READY && ParseLine(s, m).nparse <= n <= |s|
    ensures ParseLine(s[..n], m) == ParseLine(s, m)
  {
    hide ParseStartLine;
    hide FindCrlf;
    CrlfTruncates(s, n);
    Seqs.TakeOfTake(s, n, FindCrlf(s).value);
  }

  /** One header line in front of both. */
  lemma HeaderExtendsLine(s: string, t: string, m: Msg, i: nat)
    requires FindCrlf(s) == Some(i)
    ensures FindCrlf(s + t) == Some(i) && (s + t)[..i] == s[..i] && (s + t)[i + 2..] == s[i + 2..] + t
  {
    CrlfExtends(s, t);
    Seqs.TakeOfSum(s, t, i);
    Seqs.DropOfSum(s, t, i + 2);
  }

  /** Header lines: a verdict is final. */
  lemma {:induction false} HeaderFinal(s: string, t: string, m: Msg)
    requires ParseHeader(s, m).code != WAITING_DATA
    ensures ParseHeader(s + t, m) == ParseHeader(s, m)
    decreases |s|
  {
    hide FindCrlf;
    hide SplitHeader;
    var i := FindCrlf(s).value;
    HeaderExtendsLine(s, t, m, i);
    if i > 0 && SplitHeader(s[..i]).Some? {
      HeaderField(s, m, i);
      HeaderField(s + t, m, i);
      HeaderFinal(s[i + 2..], t, Store(m, s[..i]));
    }
  }

  lemma HeaderStarts(s: string, t: string, m: Msg)
    requires FindCrlf(s).None?
    ensures ParseHeader(s, m) == Part(WAITING_DATA, 0, m) && (s + t)[0..] == s + t
  {
  }

  lemma HeaderGoesOn(s: string, m: Msg, i: nat)
    requires ParseHeader(s, m).code == WAITING_DATA && FindCrlf(s) == Some(i)
    ensures i > 0 && SplitHeader(s[..i]).Some?
  {
  }

  /** And a wait can be taken up again behind the lines already consumed. */
  lemma {:induction false} HeaderResumes(s: string, t: string, m: Msg)
    requires ParseHeader(s, m).code == WAITING_DATA
    ensures var h := ParseHeader(s, m);
            ParseHeader(s + t, m) == Behind(ParseHeader((s + t)[h.nparse..], h.msg), h.nparse)
    decreases |s|
  {
    hide FindCrlf;
    hide SplitHeader;
    if FindCrlf(s).None? {
      HeaderStarts(s, t, m);
    } else {
      hide ParseHeader;
      var i := FindCrlf(s).value;
      HeaderGoesOn(s, m, i);
      var m' := Store(m, s[..i]);
      HeaderExtendsLine(s, t, m, i);
      HeaderField(s, m, i);
      HeaderField(s + t, m, i);
      HeaderResumes(s[i + 2..], t, m');
      var k := ParseHeader(s[i + 2..], m').nparse;
      Seqs.DropOfDrop(s + t, i + 2, k, i + 2 + k);
    }
  }

  /** A finished header section: the empty line, or a field in front of one. */
  lemma HeaderReady(s: string, m: Msg) returns (i: nat)
    requires ParseHeader(s, m).code == READY
    ensures FindCrlf(s) == Some(i) && (if i == 0 then ParseHeader(s, m) == Part(READY, 2, m) else FieldAt(s, i))
  {
    hide FindCrlf;
    hide SplitHeader;
    i := FindCrlf(s).value;
  }

  lemma HeaderEmpty(s: string, m: Msg)
    requires FindCrlf(s) == Some(0)
    ensures ParseHeader(s, m) == Part(READY, 2, m)
  {
  }

  lemma {:induction false} HeaderTruncates(s: string, m: Msg, n: nat)
    requires ParseHeader(s, m).code == READY && ParseHeader(s, m).nparse <= n <= |s|
    ensures ParseHeader(s[..n], m) == ParseHeader(s, m)
    decreases |s|
  {
    hide FindCrlf;
    hide SplitHeader;
    hide ParseHeader;
    hide Store;
    var i := HeaderReady(s, m);
    if i == 0 {
      CrlfTruncates(s, n);
      HeaderEmpty(s[..n], m);
    } else {
      HeaderField(s, m, i);
      CrlfTruncates(s, n);
      Seqs.TakeOfTake(s, n, i);
      HeaderField(s[..n], m, i);
      Seqs.DropOfTake(s, n, i + 2);
      HeaderTruncates(s[i + 2..], Store(m, s[..i]), n - i - 2);
    }
  }

  /** A body of known length, cut anywhere. */
  lemma PlainResumes(s: string, t: string, length: nat, body: string)
    requires |body| <= length
    ensures var b := ParsePlain(s, length, body);
            if b.code == READY then ParsePlain(s + t, length, body) == b
            else ParsePlain(s + t, length, body) == Shift(ParsePlain((s + t)[b.nparse..], length, b.body), b.nparse)
  {
    var b := ParsePlain(s, length, body);
    if b.code == READY {
      Seqs.TakeOfSum(s, t, b.nparse);
    } else {
      var k := ParsePlain(s + t, length, body).nparse - |s|;
      Seqs.DropOfSum(s, t, |s|);
      assert s[|s|..] + t == t && s[..|s|] == s;
      TakePast(s, t, k);
      Seqs.Assoc(body, s, t[..k]);
    }
  }

  lemma TakePast(s: string, t: string, k: nat)
    requires k <= |t|
    ensures (s + t)[..|s| + k] == s + t[..k]
  {
  }

  // ---------------------------------------------------------------- one call, extended

  /** Same verdict and same message; and the same parser state unless the verdict is an error. */
  predicate Agree(a: Outcome, b: Outcome) {
    && a.code == b.code
    && a.msg == b.msg
    && (a.code in {READY, WAITING_DATA} ==> a.p == b.p)
  }

  lemma {:induction false} EntersBody(p: PState, s: string, m: Msg, q: PState, m': Msg)
    requires p.Valid() && p.already <= |s| && AtBody(p, s, m) == Some((q, m'))
    ensures Resume(p, s, m) == ResumeBody(q, s, m')
    decreases if p.tag == LINE then 1 else 0
  {
    if p.tag == LINE {
      var l := ParseLine(s, m);
      EntersBody(p.(tag := HEADER, already := l.nparse), s, l.msg, q, m');
    }
  }

  lemma {:induction false} AtBodyExtends(p: PState, s: string, t: string, m: Msg)
    requires p.Valid() && p.already <= |s| && AtBody(p, s, m).Some?
    ensures AtBody(p, s + t, m) == AtBody(p, s, m)
    decreases if p.tag == LINE then 1 else 0
  {
    hide ParseLine;
    hide ParseHeader;
    hide DeclaredLength;
    match p.tag
    case LINE =>
      var l := ParseLine(s, m);
      LineExtends(s, t, m);
      AtBodyExtends(p.(tag := HEADER, already := l.nparse), s, t, l.msg);
    case HEADER =>
      Seqs.DropOfSum(s, t, p.already);
      HeaderFinal(s[p.already..], t, m);
    case BODY =>
    case DONE =>
  }

  lemma {:induction false} AtBodyTruncates(p: PState, s: string, m: Msg, q: PState, m': Msg, n: nat)
    requires p.Valid() && p.already <= |s| && AtBody(p, s, m) == Some((q, m')) && q.already <= n <= |s|
    ensures AtBody(p, s[..n], m) == Some((q, m'))
    decreases if p.tag == LINE then 1 else 0
  {
    hide ParseLine;
    hide ParseHeader;
    hide DeclaredLength;
    match p.tag
    case LINE =>
      var l := ParseLine(s, m);
      LineTruncates(s, m, n);
      AtBodyTruncates(p.(tag := HEADER, already := l.nparse), s, l.msg, q, m', n);
    case HEADER =>
      HeaderTruncates(s[p.already..], m, n - p.already);
      Seqs.DropOfTake(s, n, p.already);
    case BODY =>
    case DONE =>
  }

  /** What a call on `s` leaves, compared with a call on `s + t` from the same start: a verdict is final,
      and a wait can be taken up again if the data may be cut anywhere, with the same prospects. */
  ghost predicate Continues(p: PState, s: string, st: string, m: Msg)
    requires p.Valid() && p.already <= |s| <= |st|
  {
    var o, whole := Resume(p, s, m), Resume(p, st, m);
    && (o.code != WAITING_DATA ==> Agree(o, whole))
    && (o.code == WAITING_DATA && Steady(p, st, m) ==>
          Agree(Resume(o.p, st, o.msg), whole) && Steady(o.p, st, o.msg))
  }

  lemma FinishAgrees(p: PState, m: Msg, a: BodyPart, again: BodyPart)
    requires a.code == WAITING_DATA
    ensures var o := Finish(p, a, m);
            Agree(Finish(o.p, again, o.msg), Finish(p, Shift(again, a.nparse), m))
  {
  }

  lemma PlainContinues(p: PState, s: string, t: string, m: Msg)
    requires p.Valid() && p.tag == BODY && p.already <= |s| && !p.chunked
    ensures Continues(p, s, s + t, m)
  {
    var st, n := s + t, p.already;
    Seqs.DropOfSum(s, t, n);
    PlainResumes(s[n..], t, p.contentLength, p.bodyBuf);
    var a := ParsePlain(s[n..], p.contentLength, p.bodyBuf);
    if a.code == WAITING_DATA {
      var k := n + a.nparse;
      Seqs.DropOfDrop(st, n, a.nparse, k);
      FinishAgrees(p, m, a, ParsePlain(st[k..], p.contentLength, a.body));
    }
  }

  lemma ChunkedContinues(p: PState, s: string, t: string, m: Msg)
    requires p.Valid() && p.tag == BODY && p.already <= |s| && p.chunked && |s + t| < MAX_BUFFER
    ensures Continues(p, s, s + t, m)
  {
    hide ParseChunks;
    hide ChunksSteady;
    var st, n := s + t, p.already;
    Seqs.DropOfSum(s, t, n);
    var a := ParseChunks(s[n..], p.bodyBuf);
    if a.code != WAITING_DATA {
      ChunksFinal(s[n..], t, p.bodyBuf);
    } else if ChunksSteady(st[n..]) {
      var k := n + a.nparse;
      ChunksResume(s[n..], t, p.bodyBuf);
      Seqs.DropOfDrop(st, n, a.nparse, k);
      FinishAgrees(p, m, a, ParseChunks(st[k..], a.body));
    }
  }

  lemma AtBodyItself(q: PState, s: string, m: Msg)
    requires q.Valid() && q.tag == BODY && q.already <= |s|
    ensures AtBody(q, s, m) == Some((q, m)) && Resume(q, s, m) == ResumeBody(q, s, m)
  {
  }

  /** Once the body is entered, everything is decided there. */
  lemma ContinuesFromBody(p: PState, s: string, st: string, m: Msg, q: PState, m': Msg)
    requires p.Valid() && p.already <= |s| <= |st|
    requires AtBody(p, s, m) == Some((q, m')) == AtBody(p, st, m) && Continues(q, s, st, m')
    ensures Continues(p, s, st, m)
  {
    hide AtBody;
    hide Resume;
    hide ResumeBody;
    hide Agree;
    hide ChunksSteady;
    EntersBody(p, s, m, q, m');
    EntersBody(p, st, m, q, m');
    AtBodyItself(q, s, m');
    AtBodyItself(q, st, m');
  }

  lemma HeaderContinues(p: PState, s: string, t: string, m: Msg)
    requires p.Valid() && p.tag == HEADER && p.already <= |s| && AtBody(p, s, m).None?
    ensures Continues(p, s, s + t, m)
  {
    hide ParseHeader;
    hide ResumeBody;
    hide DeclaredLength;
    hide StartBody;
    var st, n := s + t, p.already;
    Seqs.DropOfSum(s, t, n);
    var h := ParseHeader(s[n..], m);
    if h.code == WAITING_DATA {
      hide AtBody;
      HeaderResumes(s[n..], t, m);
      var k := n + h.nparse;
      Seqs.DropOfDrop(st, n, h.nparse, k);
      HeaderWaits(p, p.(already := k), st, m, h, ParseHeader(st[k..], h.msg));
    } else {
      HeaderFinal(s[n..], t, m);
    }
  }

  lemma StartBodyMoves(p: PState, q: PState, n: nat, k: nat, m: Msg)
    requires q == p.(already := p.already + n)
    ensures StartBody(q, k, m) == StartBody(p, n + k, m)
  {
  }

  lemma HeaderWaits(p: PState, q: PState, st: string, m: Msg, h: Part, r: Part)
    requires p.Valid() && p.tag == HEADER && q == p.(already := p.already + h.nparse) && q.already <= |st|
    requires r == ParseHeader(st[q.already..], h.msg)
    requires ParseHeader(st[p.already..], m) == Behind(r, h.nparse)
    ensures Agree(Resume(q, st, h.msg), Resume(p, st, m)) && AtBody(q, st, h.msg) == AtBody(p, st, m)
  {
    hide ParseHeader;
    hide ResumeBody;
    hide DeclaredLength;
    hide StartBody;
    StartBodyMoves(p, q, h.nparse, r.nparse, r.msg);
  }

  lemma LineContinues(p: PState, s: string, t: string, m: Msg)
    requires p.Valid() && p.tag == LINE && p.already <= |s| && AtBody(p, s, m).None?
    ensures Continues(p, s, s + t, m)
  {
    var l := ParseLine(s, m);
    if l.code != WAITING_DATA {
      LineExtends(s, t, m);
    }
    if l.code == READY {
      HeaderContinues(p.(tag := HEADER, already := l.nparse), s, t, l.msg);
    }
  }

  lemma CallContinues(p: PState, s: string, t: string, m: Msg)
    requires p.Valid() && p.already <= |s| && |s + t| < MAX_BUFFER
    ensures Continues(p, s, s + t, m)
  {
    hide Continues;
    match AtBody(p, s, m)
    case Some((q, m')) =>
      AtBodyExtends(p, s, t, m);
      if q.chunked {
        ChunkedContinues(q, s, t, m');
      } else {
        PlainContinues(q, s, t, m');
      }
      ContinuesFromBody(p, s, s + t, m, q, m');
    case None =>
      if p.tag == LINE {
        LineContinues(p, s, t, m);
      } else if p.tag == HEADER {
        HeaderContinues(p, s, t, m);
      } else {
        DoneContinues(p, s, s + t, m);
      }
  }

  lemma DoneContinues(p: PState, s: string, st: string, m: Msg)
    requires p.Valid() && p.already <= |s| <= |st| && p.tag == DONE
    ensures Continues(p, s, st, m)
  {
  }

  /** A verdict is final: bytes appended behind a READY or ERROR message change nothing. */
  lemma VerdictStable(p: PState, s: string, t: string, m: Msg)
    requires p.Valid() && p.already <= |s| && |s + t| < MAX_BUFFER
    requires Resume(p, s, m).code != WAITING_DATA
    ensures Agree(Resume(p, s, m), Resume(p, s + t, m))
  {
    CallContinues(p, s, t, m);
  }

  // ---------------------------------------------------------------- whole runs

  /** The lengths at which the caller calls: growing prefixes of `s`, the last one all of it. */
  ghost predicate Cuts(p: PState, s: string, cuts: seq<nat>) {
    && cuts != [] && p.already <= cuts[0] && cuts[|cuts| - 1] == |s|
    && (forall i, j :: 0 <= i < j < |cuts| ==> cuts[i] <= cuts[j])
  }

  /** One call for each cut, until the first verdict that is not WAITING_DATA. */
  ghost function Feed(p: PState, s: string, cuts: seq<nat>, m: Msg): (o: Outcome)
    requires p.Valid() && Cuts(p, s, cuts)
    decreases |cuts|
  {
    hide Resume;
    var o := Resume(p, s[..cuts[0]], m);
    if |cuts| == 1 || o.code != WAITING_DATA then o
    else Feed(o.p, s, cuts[1..], o.msg)
  }

  lemma FeedStep(p: PState, s: string, cuts: seq<nat>, m: Msg, o: Outcome)
    requires p.Valid() && Cuts(p, s, cuts) && o == Resume(p, s[..cuts[0]], m)
    ensures |cuts| == 1 ==> s[..cuts[0]] == s && Feed(p, s, cuts, m) == o
    ensures |cuts| > 1 && o.code != WAITING_DATA ==> Feed(p, s, cuts, m) == o
    ensures |cuts| > 1 && o.code == WAITING_DATA ==>
              Cuts(o.p, s, cuts[1..]) && Feed(p, s, cuts, m) == Feed(o.p, s, cuts[1..], o.msg)
  {
    hide Resume;
  }

  /** However the bytes were cut up, the run ends as one call on the whole does. */
  lemma {:induction false} SegmentationIndependence(p: PState, s: string, cuts: seq<nat>, m: Msg)
    requires p.Valid() && Cuts(p, s, cuts) && |s| < MAX_BUFFER && Steady(p, s, m)
    ensures Agree(Feed(p, s, cuts, m), Resume(p, s, m))
    decreases |cuts|
  {
    hide Feed;
    hide Steady;
    hide Resume;
    assert cuts[0] <= |s|;
    var d, t := s[..cuts[0]], s[cuts[0]..];
    assert d + t == s;
    CallContinues(p, d, t, m);
    var o := Resume(p, d, m);
    FeedStep(p, s, cuts, m, o);
    if |cuts| > 1 && o.code == WAITING_DATA {
      SegmentationIndependence(o.p, s, cuts[1..], o.msg);
    }
  }

  /** A caller sees the difference: in the verdict, the message, the offset, or the body so far. */
  predicate Apart(a: Outcome, b: Outcome) {
    && b.code in {READY, WAITING_DATA}
    && (a.code != b.code || a.msg != b.msg || a.p.already != b.p.already
        || (a.code == WAITING_DATA && a.p.bodyBuf != b.p.bodyBuf))
  }

  lemma FinishDiffers(p: PState, m: Msg, a: BodyPart, again: BodyPart, whole: BodyPart)
    requires a.code == WAITING_DATA && whole.code in {READY, WAITING_DATA} && whole != Shift(again, a.nparse)
    ensures var o := Finish(p, a, m);
            Apart(Finish(o.p, again, o.msg), Finish(p, whole, m))
  {
  }

  lemma BodyShows(q: PState, s: string, m: Msg, c: nat, n: nat)
    requires q.Valid() && q.tag == BODY && q.chunked && q.already <= |s| && n == q.already + c
    requires Shows(s[q.already..], q.bodyBuf, c)
    ensures n <= |s| && ResumeBody(q, s[..n], m).code == WAITING_DATA
    ensures var o := ResumeBody(q, s[..n], m);
            o.p.tag == BODY && o.p.already <= |s| && Apart(ResumeBody(o.p, s, o.msg), ResumeBody(q, s, m))
  {
    hide ParseChunks;
    hide Apart;
    var u := s[q.already..];
    Seqs.DropOfTake(s, n, q.already);
    var a := ParseChunks(u[..c], q.bodyBuf);
    var k := q.already + a.nparse;
    Seqs.DropOfDrop(s, q.already, a.nparse, k);
    FinishDiffers(q, m, a, ParseChunks(s[k..], a.body), ParseChunks(u, q.bodyBuf));
  }

  lemma CallShows(p: PState, s: string, m: Msg) returns (n: nat)
    requires p.Valid() && p.already <= |s| < MAX_BUFFER && !Steady(p, s, m)
    ensures p.already <= n <= |s| && Resume(p, s[..n], m).code == WAITING_DATA
    ensures var o := Resume(p, s[..n], m);
            o.p.already <= |s| && Apart(Resume(o.p, s, o.msg), Resume(p, s, m))
  {
    hide AtBody;
    hide ChunksSteady;
    hide ResumeBody;
    hide Resume;
    hide Apart;
    hide Shows;
    var (q, m') := AtBody(p, s, m).value;
    var c := ChunksUnsteady(s[q.already..], q.bodyBuf);
    n := q.already + c;
    ShowsWithin(s[q.already..], q.bodyBuf, c);
    BodyShows(q, s, m', c, n);
    AtBodyTruncates(p, s, m, q, m', n);
    EntersBody(p, s, m, q, m');
    EntersBody(p, s[..n], m, q, m');
    var o := ResumeBody(q, s[..n], m');
    AtBodyItself(o.p, s, o.msg);
  }

  lemma ShowsWithin(s: string, body: string, c: nat)
    requires Shows(s, body, c)
    ensures c <= |s|
  {
  }

  /** Otherwise there is a cut, and a second call on everything, that show a difference. */
  lemma CutShows(p: PState, s: string, m: Msg) returns (cuts: seq<nat>)
    requires p.Valid() && p.already <= |s| < MAX_BUFFER && !Steady(p, s, m)
    ensures Cuts(p, s, cuts) && Apart(Feed(p, s, cuts, m), Resume(p, s, m))
  {
    hide Steady;
    hide Resume;
    hide Apart;
    var n := CallShows(p, s, m);
    cuts := [n, |s|];
    var o := Resume(p, s[..n], m);
    FeedStep(p, s, cuts, m, o);
    assert cuts[1..] == [|s|] && s[..|s|] == s;
    FeedStep(o.p, s, [|s|], o.msg, Resume(o.p, s, o.msg));
  }

  /** The exact condition, for all data and every state of the parser: all ways of cutting the data up
      end as one call on all of it if and only if the bytes are steady. */
  lemma SegmentationExact(p: PState, s: string, m: Msg)
    requires p.Valid() && p.already <= |s| < MAX_BUFFER
    ensures (forall cuts :: Cuts(p, s, cuts) ==> Agree(Feed(p, s, cuts, m), Resume(p, s, m))) <==> Steady(p, s, m)
  {
    hide Steady;
    hide Feed;
    hide Resume;
    if Steady(p, s, m) {
      forall cuts | Cuts(p, s, cuts)
        ensures Agree(Feed(p, s, cuts, m), Resume(p, s, m))
      {
        SegmentationIndependence(p, s, cuts, m);
      }
    } else {
      var cuts := CutShows(p, s, m);
      ApartDisagree(Feed(p, s, cuts, m), Resume(p, s, m));
    }
  }

  lemma ApartDisagree(a: Outcome, b: Outcome)
    requires Apart(a, b)
    ensures !Agree(a, b)
  {
  }
}
