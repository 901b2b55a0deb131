/** The receiver's loop around the HTTP parser: parse, hand the message on, drop its bytes, clear and
    reset. What comes out of a connection does not depend on how its bytes arrive. */
module HttpStream {
  import Seqs
  import Seg = HttpSegmentation
  import D = HttpDelivery
  import R = HttpRoundTrip
  import S = HttpSyntax
  import opened Wrappers
  import opened HttpText
  import opened HttpMessage
  import opened HttpParserSpec
  import opened HttpGrammar

  /** Messages handed on, the parser's state and message, the bytes still buffered, and the last verdict. */
  datatype Stream = Stream(msgs: seq<Msg>, p: PState, msg: Msg, rest: string, code: RetCode)

  /** Between two calls: not done, and with a whole start line consumed or nothing. */
  predicate Reading(p: PState) {
    p.Valid() && p.tag != DONE && (p.tag != LINE ==> p.already >= 2)
  }

  lemma Progress(p: PState, buf: string, m: Msg)
    requires Reading(p) && p.already <= |buf|
    ensures Resume(p, buf, m).code == READY ==> Resume(p, buf, m).p.already >= 2
    ensures Resume(p, buf, m).code == WAITING_DATA ==> Reading(Resume(p, buf, m).p)
  {
    hide ParseHeader;
    hide ParseBody;
    hide ParseStartLine;
  }

  /** Parse until the parser asks for more, or refuses. */
  function Drain(kind: Kind, p: PState, m: Msg, buf: string): (d: Stream)
    requires Reading(p) && p.already <= |buf|
    ensures d.code != READY && |d.rest| <= |buf|
    ensures d.code == WAITING_DATA ==> Reading(d.p) && d.p.already <= |d.rest|
    decreases |buf|
  {
    hide Resume;
    Progress(p, buf, m);
    var o := Resume(p, buf, m);
    if o.code == READY then Then([o.msg], Drain(kind, FRESH, Cleared(kind), buf[o.p.already..]))
    else Stream([], o.p, o.msg, buf, o.code)
  }

  function Then(msgs: seq<Msg>, d: Stream): Stream {
    d.(msgs := msgs + d.msgs)
  }

  /** The bytes arrive in pieces, and the loop runs behind each, until a message is refused. */
  function Arrive(kind: Kind, p: PState, m: Msg, buf: string, pieces: seq<string>): (d: Stream)
    requires Reading(p) && p.already <= |buf|
    decreases |pieces|
  {
    if pieces == [] then Stream([], p, m, buf, WAITING_DATA)
    else
      var d := Drain(kind, p, m, buf + pieces[0]);
      if d.code != WAITING_DATA then d else Then(d.msgs, Arrive(kind, d.p, d.msg, d.rest, pieces[1..]))
  }

  /** The example server's loop: one parse behind each read, so that a further message in the buffer
      waits for the next read; a message of version 1.0 is the last, and nothing is dropped behind it. */
  function ArriveOnce(kind: Kind, p: PState, m: Msg, buf: string, pieces: seq<string>): (d: Stream)
    requires Reading(p) && p.already <= |buf|
    ensures d.code == WAITING_DATA ==> Reading(d.p) && d.p.already <= |d.rest|
    decreases |pieces|
  {
    hide Resume;
    if pieces == [] then Stream([], p, m, buf, WAITING_DATA)
    else
      var b := buf + pieces[0];
      Progress(p, b, m);
      var o := Resume(p, b, m);
      match o.code
      case READY =>
        if o.msg.version == HTTP_1_0 then Stream([o.msg], o.p, o.msg, b, READY)
        else Then([o.msg], ArriveOnce(kind, FRESH, Cleared(kind), b[o.p.already..], pieces[1..]))
      case WAITING_DATA => ArriveOnce(kind, o.p, o.msg, b, pieces[1..])
      case _ => Stream([], o.p, o.msg, b, o.code)
  }

  function Concat(pieces: seq<string>): string {
    if pieces == [] then "" else pieces[0] + Concat(pieces[1..])
  }

  /** Every message of the stream, and what follows the last, may be cut anywhere. */
  predicate SteadyStream(kind: Kind, p: PState, m: Msg, s: string)
    requires Reading(p) && p.already <= |s|
    decreases |s|
  {
    hide Resume;
    Progress(p, s, m);
    var o := Resume(p, s, m);
    Seg.Steady(p, s, m) && (o.code == READY ==> SteadyStream(kind, FRESH, Cleared(kind), s[o.p.already..]))
  }

  /** The same messages and verdict; and the same state, unless a message was refused. */
  predicate Alike(a: Stream, b: Stream) {
    a.msgs == b.msgs && a.code == b.code && (a.code == WAITING_DATA ==> a == b)
  }

  lemma ThenAlike(msgs: seq<Msg>, a: Stream, b: Stream)
    requires Alike(a, b)
    ensures Alike(Then(msgs, a), Then(msgs, b))
  {
  }

  lemma ThenThen(a: seq<Msg>, b: seq<Msg>, d: Stream)
    ensures Then(a, Then(b, d)) == Then(a + b, d)
  {
    Seqs.Assoc(a, b, d.msgs);
  }

  // ---------------------------------------------------------------- cuts

  /** One call on `a`, and what becomes of `a + b`. */
  lemma CallSplit(kind: Kind, p: PState, m: Msg, a: string, b: string)
    requires Reading(p) && p.already <= |a| && |a + b| < MAX_BUFFER && SteadyStream(kind, p, m, a + b)
    ensures var o := Resume(p, a, m);
            match o.code
            case READY =>
              2 <= o.p.already <= |a|
              && SteadyStream(kind, FRESH, Cleared(kind), a[o.p.already..] + b)
              && Drain(kind, p, m, a + b) == Then([o.msg], Drain(kind, FRESH, Cleared(kind), a[o.p.already..] + b))
            case WAITING_DATA =>
              Reading(o.p) && o.p.already <= |a| && SteadyStream(kind, o.p, o.msg, a + b)
              && Alike(Drain(kind, o.p, o.msg, a + b), Drain(kind, p, m, a + b))
            case _ => Alike(Stream([], o.p, o.msg, a, o.code), Drain(kind, p, m, a + b))
  {
    hide Resume;
    hide Seg.Steady;
    var o := Resume(p, a, m);
    Progress(p, a, m);
    Progress(p, a + b, m);
    Seg.CallContinues(p, a, b, m);
    if o.code == READY {
      Seqs.DropOfSum(a, b, o.p.already);
    }
  }

  lemma {:induction false} DrainSplit(kind: Kind, p: PState, m: Msg, a: string, b: string)
    requires Reading(p) && p.already <= |a| && |a + b| < MAX_BUFFER && SteadyStream(kind, p, m, a + b)
    ensures var d := Drain(kind, p, m, a);
            if d.code == WAITING_DATA then
              SteadyStream(kind, d.p, d.msg, d.rest + b)
              && Alike(Then(d.msgs, Drain(kind, d.p, d.msg, d.rest + b)), Drain(kind, p, m, a + b))
            else Alike(d, Drain(kind, p, m, a + b))
    decreases |a|
  {
    hide Resume;
    hide SteadyStream;
    var o := Resume(p, a, m);
    CallSplit(kind, p, m, a, b);
    if o.code == READY {
      var rest := a[o.p.already..];
      DrainSplit(kind, FRESH, Cleared(kind), rest, b);
      var d := Drain(kind, FRESH, Cleared(kind), rest);
      if d.code == WAITING_DATA {
        ThenThen([o.msg], d.msgs, Drain(kind, d.p, d.msg, d.rest + b));
      }
    }
  }

  /** However the bytes of a steady stream are cut into pieces, the messages, the state and the bytes
      left are those of one run of the loop on all of them. */
  lemma {:induction false} StreamIndependence(kind: Kind, p: PState, m: Msg, buf: string, pieces: seq<string>)
    requires Reading(p) && p.already <= |buf| && |buf + Concat(pieces)| < MAX_BUFFER
    requires SteadyStream(kind, p, m, buf + Concat(pieces))
    requires pieces == [] ==> Drain(kind, p, m, buf) == Stream([], p, m, buf, WAITING_DATA)
    ensures Alike(Arrive(kind, p, m, buf, pieces), Drain(kind, p, m, buf + Concat(pieces)))
    decreases |pieces|
  {
    hide Drain;
    hide SteadyStream;
    if pieces == [] {
      Seqs.NoMore(buf);
    } else {
      var a, more := buf + pieces[0], Concat(pieces[1..]);
      Seqs.Assoc(buf, pieces[0], more);
      DrainSplit(kind, p, m, a, more);
      var d := Drain(kind, p, m, a);
      if d.code == WAITING_DATA {
        if pieces[1..] == [] {
          LeftSettled(kind, p, m, a);
        }
        StreamIndependence(kind, d.p, d.msg, d.rest, pieces[1..]);
        ThenAlike(d.msgs, Arrive(kind, d.p, d.msg, d.rest, pieces[1..]), Drain(kind, d.p, d.msg, d.rest + more));
      }
    }
  }

  /** Nothing more comes out of what the loop has left. */
  lemma LeftSettled(kind: Kind, p: PState, m: Msg, a: string)
    requires Reading(p) && p.already <= |a| < MAX_BUFFER && SteadyStream(kind, p, m, a + "")
    requires Drain(kind, p, m, a).code == WAITING_DATA
    ensures var d := Drain(kind, p, m, a);
            Drain(kind, d.p, d.msg, d.rest) == Stream([], d.p, d.msg, d.rest, WAITING_DATA)
  {
    hide Drain;
    hide SteadyStream;
    Seqs.NoMore(a);
    var d := Drain(kind, p, m, a);
    Seqs.NoMore(d.rest);
    DrainSplit(kind, p, m, a, "");
    var again := Drain(kind, d.p, d.msg, d.rest);
    assert d.msgs + again.msgs == d.msgs;
    assert |again.msgs| == 0;
  }

  /** The example server's loop goes on behind every message of another version, and ends at the first of
      version 1.0. */
  lemma {:induction false} OnceCloses(kind: Kind, p: PState, m: Msg, buf: string, pieces: seq<string>)
    requires Reading(p) && p.already <= |buf|
    ensures var e := ArriveOnce(kind, p, m, buf, pieces);
            && (e.code == READY <==> e.msgs != [] && e.msgs[|e.msgs| - 1].version == HTTP_1_0)
            && (forall i :: 0 <= i < |e.msgs| - 1 ==> e.msgs[i].version != HTTP_1_0)
    decreases |pieces|
  {
    hide Resume;
    if pieces != [] {
      var b := buf + pieces[0];
      Progress(p, b, m);
      var o := Resume(p, b, m);
      if o.code == READY && o.msg.version != HTTP_1_0 {
        OnceCloses(kind, FRESH, Cleared(kind), b[o.p.already..], pieces[1..]);
      } else if o.code == WAITING_DATA {
        OnceCloses(kind, o.p, o.msg, b, pieces[1..]);
      }
    }
  }

  /** The loop was ended by a message of version 1.0, and handed on a part of `msgs`. */
  predicate Closed(e: Stream, msgs: seq<Msg>) {
    e.code == READY && e.msgs <= msgs && e.msgs != [] && e.msgs[|e.msgs| - 1].version == HTTP_1_0
  }

  lemma ThenClosed(msgs: seq<Msg>, e: Stream, d: Stream)
    requires Closed(e, d.msgs)
    ensures Closed(Then(msgs, e), Then(msgs, d).msgs)
  {
  }

  /** With one parse behind each read nothing is lost or reordered either: what the full loop would take
      out of the bytes that are left is exactly what has arrived and was not handed on. */
  lemma {:induction false} OnceConserves(kind: Kind, p: PState, m: Msg, buf: string, pieces: seq<string>)
    requires Reading(p) && p.already <= |buf| && |buf + Concat(pieces)| < MAX_BUFFER
    requires SteadyStream(kind, p, m, buf + Concat(pieces))
    ensures var e, whole := ArriveOnce(kind, p, m, buf, pieces), Drain(kind, p, m, buf + Concat(pieces));
            match e.code
            case WAITING_DATA => Alike(Then(e.msgs, Drain(kind, e.p, e.msg, e.rest)), whole)
            case READY => Closed(e, whole.msgs)
            case _ => Alike(e, whole)
    decreases |pieces|
  {
    hide Resume;
    hide Drain;
    hide SteadyStream;
    if pieces == [] {
      Seqs.NoMore(buf);
      Seqs.NoneBefore(Drain(kind, p, m, buf).msgs);
    } else {
      var a, more := buf + pieces[0], Concat(pieces[1..]);
      Seqs.Assoc(buf, pieces[0], more);
      var o := Resume(p, a, m);
      CallSplit(kind, p, m, a, more);
      match o.code
      case READY =>
        if o.msg.version != HTTP_1_0 {
          var rest := a[o.p.already..];
          OnceConserves(kind, FRESH, Cleared(kind), rest, pieces[1..]);
          var e := ArriveOnce(kind, FRESH, Cleared(kind), rest, pieces[1..]);
          if e.code == WAITING_DATA {
            ThenThen([o.msg], e.msgs, Drain(kind, e.p, e.msg, e.rest));
          } else if e.code == READY {
            ThenClosed([o.msg], e, Drain(kind, FRESH, Cleared(kind), rest + more));
          }
        }
      case WAITING_DATA => OnceConserves(kind, o.p, o.msg, a, pieces[1..]);
      case _ =>
    }
  }

  // ---------------------------------------------------------------- streams of well-formed messages

  predicate AllGood(ws: seq<Wire>, m: Msg) {
    forall i :: 0 <= i < |ws| ==> GoodWire(ws[i], m)
  }

  predicate NoTrailers(ws: seq<Wire>) {
    forall i :: 0 <= i < |ws| ==> !HasTrailers(ws[i].framing)
  }

  function WiresText(ws: seq<Wire>): string {
    if ws == [] then "" else WireText(ws[0]) + WiresText(ws[1..])
  }

  function Meanings(ws: seq<Wire>, m: Msg): seq<Msg>
    requires AllGood(ws, m)
  {
    if ws == [] then [] else [WireMeaning(ws[0], m)] + Meanings(ws[1..], m)
  }

  /** Bytes on which the loop waits, and that may be cut anywhere. */
  predicate Unfinished(kind: Kind, tail: string) {
    Resume(FRESH, tail, Cleared(kind)).code == WAITING_DATA && Seg.Steady(FRESH, tail, Cleared(kind))
  }

  /** What the loop has done when `msgs` came out and `tail` is left. */
  function Left(kind: Kind, msgs: seq<Msg>, tail: string): Stream {
    var o := Resume(FRESH, tail, Cleared(kind));
    Stream(msgs, o.p, o.msg, tail, WAITING_DATA)
  }

  lemma TextSplits(ws: seq<Wire>, tail: string)
    requires ws != []
    ensures WiresText(ws) + tail == WireText(ws[0]) + (WiresText(ws[1..]) + tail)
    ensures (WiresText(ws) + tail)[|WireText(ws[0])|..] == WiresText(ws[1..]) + tail
  {
    Seqs.Assoc(WireText(ws[0]), WiresText(ws[1..]), tail);
    Seqs.Cut(WireText(ws[0]), WiresText(ws[1..]) + tail);
  }

  /** The loop takes well-formed messages out in order, and stops at what is unfinished behind them. */
  lemma {:induction false} WiresDrain(kind: Kind, ws: seq<Wire>, tail: string)
    requires AllGood(ws, Cleared(kind)) && Unfinished(kind, tail) && |WiresText(ws) + tail| < MAX_BUFFER
    ensures Drain(kind, FRESH, Cleared(kind), WiresText(ws) + tail) == Left(kind, Meanings(ws, Cleared(kind)), tail)
    decreases |ws|
  {
    hide Resume;
    hide GoodWire;
    hide WireText;
    hide WireMeaning;
    var m, s := Cleared(kind), WiresText(ws) + tail;
    if ws == [] {
      Seqs.NoneBefore(tail);
    } else {
      TextSplits(ws, tail);
      Completeness(ws[0], WiresText(ws[1..]) + tail, m);
      WiresDrain(kind, ws[1..], tail);
    }
  }

  lemma {:induction false} WiresSteady(kind: Kind, ws: seq<Wire>, tail: string)
    requires AllGood(ws, Cleared(kind)) && NoTrailers(ws) && Unfinished(kind, tail)
    requires |WiresText(ws) + tail| < MAX_BUFFER
    ensures SteadyStream(kind, FRESH, Cleared(kind), WiresText(ws) + tail)
    decreases |ws|
  {
    hide Resume;
    hide Seg.Steady;
    hide GoodWire;
    hide WireText;
    hide WireMeaning;
    var m, s := Cleared(kind), WiresText(ws) + tail;
    if ws == [] {
      Seqs.NoneBefore(tail);
    } else {
      TextSplits(ws, tail);
      D.WireSteady(ws[0], WiresText(ws[1..]) + tail, m);
      Completeness(ws[0], WiresText(ws[1..]) + tail, m);
      WiresSteady(kind, ws[1..], tail);
    }
  }

  /** Any well-formed messages without trailer lines, one behind the other, and an unfinished one: however
      they arrive, they come out in order with their meanings, and the unfinished bytes are left. */
  lemma WiresDelivered(kind: Kind, ws: seq<Wire>, tail: string, pieces: seq<string>)
    requires AllGood(ws, Cleared(kind)) && NoTrailers(ws) && Unfinished(kind, tail)
    requires pieces != [] && Concat(pieces) == WiresText(ws) + tail && |WiresText(ws) + tail| < MAX_BUFFER
    ensures Arrive(kind, FRESH, Cleared(kind), "", pieces) == Left(kind, Meanings(ws, Cleared(kind)), tail)
  {
    hide Drain;
    hide Arrive;
    hide SteadyStream;
    hide Resume;
    hide AllGood;
    hide Unfinished;
    Seqs.NoneBefore(Concat(pieces));
    WiresSteady(kind, ws, tail);
    WiresDrain(kind, ws, tail);
    StreamIndependence(kind, FRESH, Cleared(kind), "", pieces);
  }

  /** With one parse behind each read, and no message of version 1.0: what is handed on, and what is still
      in the buffer, are these messages in order. */
  lemma WiresOnce(kind: Kind, ws: seq<Wire>, tail: string, pieces: seq<string>)
    requires AllGood(ws, Cleared(kind)) && NoTrailers(ws) && Unfinished(kind, tail)
    requires Concat(pieces) == WiresText(ws) + tail && |WiresText(ws) + tail| < MAX_BUFFER
    requires forall m :: m in Meanings(ws, Cleared(kind)) ==> m.version != HTTP_1_0
    ensures var e := ArriveOnce(kind, FRESH, Cleared(kind), "", pieces);
            e.code == WAITING_DATA
            && Then(e.msgs, Drain(kind, e.p, e.msg, e.rest)) == Left(kind, Meanings(ws, Cleared(kind)), tail)
  {
    hide Drain;
    hide ArriveOnce;
    hide SteadyStream;
    hide Resume;
    hide AllGood;
    hide Unfinished;
    Seqs.NoneBefore(Concat(pieces));
    WiresSteady(kind, ws, tail);
    WiresDrain(kind, ws, tail);
    OnceConserves(kind, FRESH, Cleared(kind), "", pieces);
    NeverClosed(ArriveOnce(kind, FRESH, Cleared(kind), "", pieces), Meanings(ws, Cleared(kind)));
  }

  lemma NeverClosed(e: Stream, msgs: seq<Msg>)
    requires forall m :: m in msgs ==> m.version != HTTP_1_0
    ensures !Closed(e, msgs)
  {
    if e.msgs != [] && e.msgs <= msgs {
      assert e.msgs[|e.msgs| - 1] == msgs[|e.msgs| - 1];
    }
  }

  /** So messages that arrive in one read wait, all but the first, until something else arrives. */
  lemma OneReadStalls(kind: Kind, ws: seq<Wire>)
    requires AllGood(ws, Cleared(kind)) && ws != [] && |WiresText(ws)| < MAX_BUFFER
    requires WireMeaning(ws[0], Cleared(kind)).version != HTTP_1_0
    ensures ArriveOnce(kind, FRESH, Cleared(kind), "", [WiresText(ws)])
         == Stream([WireMeaning(ws[0], Cleared(kind))], FRESH, Cleared(kind), WiresText(ws[1..]), WAITING_DATA)
  {
    hide Resume;
    hide GoodWire;
    hide WireText;
    hide WireMeaning;
    var s, m := WiresText(ws), Cleared(kind);
    Seqs.NoneBefore(s);
    Seqs.NoMore(s);
    Seqs.NoMore(WiresText(ws[1..]));
    TextSplits(ws, "");
    Completeness(ws[0], WiresText(ws[1..]) + "", m);
    assert [s][1..] == [];
    Seqs.NoMore([WireMeaning(ws[0], m)]);
  }

  // ---------------------------------------------------------------- the same in other terms

  function Texts(ws: seq<S.Message>): string {
    if ws == [] then "" else S.Text(ws[0]) + Texts(ws[1..])
  }

  function Says(ws: seq<S.Message>, m: Msg): seq<Msg> {
    if ws == [] then [] else [S.Meaning(ws[0], m)] + Says(ws[1..], m)
  }

  ghost predicate AllWellFormed(ws: seq<S.Message>, m: Msg) {
    forall i :: 0 <= i < |ws| ==> S.WellFormed(ws[i], m) && !S.Trailed(ws[i])
  }

  function WiresOf(ws: seq<S.Message>): (vs: seq<Wire>)
    ensures |vs| == |ws| && forall i :: 0 <= i < |ws| ==> vs[i] == S.WireOf(ws[i])
  {
    if ws == [] then [] else [S.WireOf(ws[0])] + WiresOf(ws[1..])
  }

  lemma {:induction false} SameStream(ws: seq<S.Message>, m: Msg)
    requires AllWellFormed(ws, m)
    ensures AllGood(WiresOf(ws), m) && NoTrailers(WiresOf(ws))
    ensures WiresText(WiresOf(ws)) == Texts(ws) && Meanings(WiresOf(ws), m) == Says(ws, m)
    decreases |ws|
  {
    hide S.WellFormed;
    hide S.Text;
    hide S.Meaning;
    hide GoodWire;
    hide WireText;
    hide WireMeaning;
    if ws != [] {
      S.WireOfText(ws[0]);
      S.WireOfWellFormed(ws[0], m);
      assert forall i :: 0 <= i < |ws[1..]| ==> ws[1..][i] == ws[i + 1];
      SameStream(ws[1..], m);
      assert WiresOf(ws)[1..] == WiresOf(ws[1..]);
    }
  }

  /** The messages as HttpSyntax writes them. */
  lemma MessagesDelivered(kind: Kind, ws: seq<S.Message>, tail: string, pieces: seq<string>)
    requires AllWellFormed(ws, Cleared(kind)) && Unfinished(kind, tail)
    requires pieces != [] && Concat(pieces) == Texts(ws) + tail && |Texts(ws) + tail| < MAX_BUFFER
    ensures Arrive(kind, FRESH, Cleared(kind), "", pieces) == Left(kind, Says(ws, Cleared(kind)), tail)
  {
    hide Arrive;
    hide Left;
    hide Unfinished;
    hide AllWellFormed;
    hide AllGood;
    hide NoTrailers;
    SameStream(ws, Cleared(kind));
    WiresDelivered(kind, WiresOf(ws), tail, pieces);
  }

  /** A request and the order in which its headers are printed. */
  datatype Print = Print(msg: Msg, order: seq<string>)

  ghost predicate Printable(r: Print) {
    R.Transmittable(r.msg) && Enumerates(r.order, r.msg.headers)
  }

  ghost predicate AllPrintable(rs: seq<Print>) {
    forall i :: 0 <= i < |rs| ==> Printable(rs[i])
  }

  ghost function PrintsText(rs: seq<Print>): string
    requires AllPrintable(rs)
  {
    if rs == [] then ""
    else
      assert forall i :: 0 <= i < |rs[1..]| ==> rs[1..][i] == rs[i + 1];
      DumpText(rs[0].msg, rs[0].order) + PrintsText(rs[1..])
  }

  function Msgs(rs: seq<Print>): seq<Msg> {
    if rs == [] then [] else [rs[0].msg] + Msgs(rs[1..])
  }

  lemma {:induction false} PrintsAreWires(rs: seq<Print>) returns (ws: seq<Wire>)
    requires AllPrintable(rs)
    ensures AllGood(ws, Cleared(REQUEST)) && NoTrailers(ws)
    ensures WiresText(ws) == PrintsText(rs) && Meanings(ws, Cleared(REQUEST)) == Msgs(rs)
    decreases |rs|
  {
    hide R.Transmittable;
    hide GoodWire;
    hide WireText;
    hide WireMeaning;
    hide DumpText;
    if rs == [] {
      ws := [];
    } else {
      var w := R.PlainWire(rs[0].msg, rs[0].order);
      assert forall i :: 0 <= i < |rs[1..]| ==> rs[1..][i] == rs[i + 1];
      var more := PrintsAreWires(rs[1..]);
      ws := [w] + more;
      assert ws[1..] == more;
    }
  }

  /** The beginning of a message with a plain body is unfinished. */
  lemma BeginningUnfinished(kind: Kind, w: Wire, k: nat)
    requires GoodWire(w, Cleared(kind)) && w.framing.RawPlain? && k < |WireText(w)| < MAX_BUFFER
    ensures Unfinished(kind, WireText(w)[..k])
  {
    hide Resume;
    hide Seg.AtBody;
    hide ParseStartLine;
    hide StoreAll;
    hide WireText;
    hide HeadersText;
    hide FieldLines;
    hide DeclaredLength;
    hide DeclaresChunked;
    var m, s := Cleared(kind), WireText(w);
    var a, b := s[..k], s[k..];
    assert a + b == s;
    Seqs.NoMore(s);
    Completeness(w, "", m);
    if Resume(FRESH, a, m).code != WAITING_DATA {
      Seg.VerdictStable(FRESH, a, b, m);
    }
    if Seg.AtBody(FRESH, a, m).Some? {
      Seg.AtBodyExtends(FRESH, a, b, m);
      D.WireAtBody(w, "", m, s, |w.startLine| + 2 + |HeadersText(w.headerLines)|,
                   StoreAll(ParseStartLine(w.startLine, m).value, w.headerLines));
    }
  }

  /** Any transmittable requests printed one behind the other, and the beginning of another, cut anywhere:
      the requests come out in order, and the beginning is left. */
  lemma RequestsDelivered(rs: seq<Print>, last: Print, k: nat, pieces: seq<string>)
    requires AllPrintable(rs) && Printable(last) && k < |DumpText(last.msg, last.order)| < MAX_BUFFER
    requires pieces != [] && Concat(pieces) == PrintsText(rs) + DumpText(last.msg, last.order)[..k]
    requires |Concat(pieces)| < MAX_BUFFER
    ensures Arrive(REQUEST, FRESH, Cleared(REQUEST), "", pieces)
         == Left(REQUEST, Msgs(rs), DumpText(last.msg, last.order)[..k])
  {
    hide Arrive;
    hide Left;
    hide Unfinished;
    hide AllPrintable;
    hide AllGood;
    hide NoTrailers;
    hide R.Transmittable;
    hide WireText;
    hide DumpText;
    hide GoodWire;
    hide WireMeaning;
    var ws := PrintsAreWires(rs);
    var w := R.PlainWire(last.msg, last.order);
    BeginningUnfinished(REQUEST, w, k);
    WiresDelivered(REQUEST, ws, WireText(w)[..k], pieces);
  }
}
