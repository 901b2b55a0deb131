/** The table of request methods and the lookups the library generates from it. */
module HttpMethods {

  /** The request methods in the order and with the codes of the library's table. */
  datatype Method =
    | DELETE | GET | HEAD | POST | PUT | CONNECT | OPTIONS | TRACE | COPY | LOCK | MKCOL | MOVE
    | PROPFIND | PROPPATCH | SEARCH | UNLOCK | BIND | REBIND | UNBIND | ACL | REPORT | MKACTIVITY
    | CHECKOUT | MERGE | MSEARCH | NOTIFY | SUBSCRIBE | UNSUBSCRIBE | PATCH | PURGE | MKCALENDAR
    | LINK | UNLINK | SOURCE | INVALID

  /** The method's own identifier; note "MSEARCH", although its description is "M-SEARCH". */
  function MethodToString(m: Method): string {
    match m
    case DELETE => "DELETE"
    case GET => "GET"
    case HEAD => "HEAD"
    case POST => "POST"
    case PUT => "PUT"
    case CONNECT => "CONNECT"
    case OPTIONS => "OPTIONS"
    case TRACE => "TRACE"
    case COPY => "COPY"
    case LOCK => "LOCK"
    case MKCOL => "MKCOL"
    case MOVE => "MOVE"
    case PROPFIND => "PROPFIND"
    case PROPPATCH => "PROPPATCH"
    case SEARCH => "SEARCH"
    case UNLOCK => "UNLOCK"
    case BIND => "BIND"
    case REBIND => "REBIND"
    case UNBIND => "UNBIND"
    case ACL => "ACL"
    case REPORT => "REPORT"
    case MKACTIVITY => "MKACTIVITY"
    case CHECKOUT => "CHECKOUT"
    case MERGE => "MERGE"
    case MSEARCH => "MSEARCH"
    case NOTIFY => "NOTIFY"
    case SUBSCRIBE => "SUBSCRIBE"
    case UNSUBSCRIBE => "UNSUBSCRIBE"
    case PATCH => "PATCH"
    case PURGE => "PURGE"
    case MKCALENDAR => "MKCALENDAR"
    case LINK => "LINK"
    case UNLINK => "UNLINK"
    case SOURCE => "SOURCE"
    case INVALID => ""
  }

  function MethodWithCode(code: nat): Method {
    if code == 0 then DELETE
    else if code == 1 then GET
    else if code == 2 then HEAD
    else if code == 3 then POST
    else if code == 4 then PUT
    else if code == 5 then CONNECT
    else if code == 6 then OPTIONS
    else if code == 7 then TRACE
    else if code == 8 then COPY
    else if code == 9 then LOCK
    else if code == 10 then MKCOL
    else if code == 11 then MOVE
    else if code == 12 then PROPFIND
    else if code == 13 then PROPPATCH
    else if code == 14 then SEARCH
    else if code == 15 then UNLOCK
    else if code == 16 then BIND
    else if code == 17 then REBIND
    else if code == 18 then UNBIND
    else if code == 19 then ACL
    else if code == 20 then REPORT
    else if code == 21 then MKACTIVITY
    else if code == 22 then CHECKOUT
    else if code == 23 then MERGE
    else if code == 24 then MSEARCH
    else if code == 25 then NOTIFY
    else if code == 26 then SUBSCRIBE
    else if code == 27 then UNSUBSCRIBE
    else if code == 28 then PATCH
    else if code == 29 then PURGE
    else if code == 30 then MKCALENDAR
    else if code == 31 then LINK
    else if code == 32 then UNLINK
    else if code == 33 then SOURCE
    else INVALID
  }

  const METHODS: nat := 34

  function FirstNamed(name: string, code: nat): (m: Method)
    ensures m != INVALID ==> MethodToString(m) == name
    ensures m == INVALID ==> forall k :: code <= k < METHODS ==> MethodToString(MethodWithCode(k)) != name
    decreases METHODS - code
  {
    if code >= METHODS then INVALID
    else if MethodToString(MethodWithCode(code)) == name then MethodWithCode(code)
    else FirstNamed(name, code + 1)
  }

  /** The first method of the table with this name. */
  function StringToMethod(name: string): (m: Method) {
    FirstNamed(name, 0)
  }

  function MethodCode(m: Method): nat {
    match m
    case DELETE => 0
    case GET => 1
    case HEAD => 2
    case POST => 3
    case PUT => 4
    case CONNECT => 5
    case OPTIONS => 6
    case TRACE => 7
    case COPY => 8
    case LOCK => 9
    case MKCOL => 10
    case MOVE => 11
    case PROPFIND => 12
    case PROPPATCH => 13
    case SEARCH => 14
    case UNLOCK => 15
    case BIND => 16
    case REBIND => 17
    case UNBIND => 18
    case ACL => 19
    case REPORT => 20
    case MKACTIVITY => 21
    case CHECKOUT => 22
    case MERGE => 23
    case MSEARCH => 24
    case NOTIFY => 25
    case SUBSCRIBE => 26
    case UNSUBSCRIBE => 27
    case PATCH => 28
    case PURGE => 29
    case MKCALENDAR => 30
    case LINK => 31
    case UNLINK => 32
    case SOURCE => 33
    case INVALID => 34
  }

  /** A number that tells the names apart: length, first and third letter, and third from the end. */
  function Fingerprint(s: string): int {
    if |s| < 3 then 0
    else ((|s| * 256 + s[0] as int) * 256 + s[2] as int) * 256 + s[|s| - 3] as int
  }

  function MethodWithFingerprint(f: int): Method {
    if f == 0x6444c45 then DELETE
    else if f == 0x3475447 then GET
    else if f == 0x4484145 then HEAD
    else if f == 0x450534f then POST
    else if f == 0x3505450 then PUT
    else if f == 0x7434e45 then CONNECT
    else if f == 0x74f544f then OPTIONS
    else if f == 0x5544141 then TRACE
    else if f == 0x443504f then COPY
    else if f == 0x44c434f then LOCK
    else if f == 0x54d4343 then MKCOL
    else if f == 0x44d564f then MOVE
    else if f == 0x8504f49 then PROPFIND
    else if f == 0x9504f54 then PROPPATCH
    else if f == 0x6534152 then SEARCH
    else if f == 0x6554c4f then UNLOCK
    else if f == 0x4424e49 then BIND
    else if f == 0x6524249 then REBIND
    else if f == 0x6554249 then UNBIND
    else if f == 0x3414c41 then ACL
    else if f == 0x652504f then REPORT
    else if f == 0xa4d4149 then MKACTIVITY
    else if f == 0x843454f then CHECKOUT
    else if f == 0x54d5252 then MERGE
    else if f == 0x74d4552 then MSEARCH
    else if f == 0x64e5449 then NOTIFY
    else if f == 0x9534249 then SUBSCRIBE
    else if f == 0xb555349 then UNSUBSCRIBE
    else if f == 0x5505454 then PATCH
    else if f == 0x5505252 then PURGE
    else if f == 0xa4d4344 then MKCALENDAR
    else if f == 0x44c4e49 then LINK
    else if f == 0x6554c49 then UNLINK
    else if f == 0x6535552 then SOURCE
    else INVALID
  }

  /** The name is one upper-case word, and its fingerprint tells it from the others. */
  predicate WellNamed(m: Method) {
    var name := MethodToString(m);
    MethodWithFingerprint(Fingerprint(name)) == m && forall i :: 0 <= i < |name| ==> 'A' <= name[i] <= 'Z'
  }

  lemma MethodWellNamed(m: Method)
    ensures WellNamed(m)
  {
    hide WellNamed;
    var code := MethodCode(m);
    if code < 6 {
      WellNamedFirst(m);
    } else if code < 10 {
      WellNamedSecond(m);
    } else if code < 14 {
      WellNamedThird(m);
    } else if code < 18 {
      WellNamedFourth(m);
    } else if code < 21 {
      WellNamedFifth(m);
    } else if code < 24 {
      WellNamedSixth(m);
    } else if code < 27 {
      WellNamedSeventh(m);
    } else if code < 30 {
      WellNamedEighth(m);
    } else if code < 32 {
      WellNamedNinth(m);
    } else {
      WellNamedTenth(m);
    }
  }

  lemma WellNamedFirst(m: Method)
    requires MethodCode(m) < 6
    ensures WellNamed(m)
  {
    match m
    case DELETE => case GET => case HEAD => case POST => case PUT => case CONNECT =>
    case _ =>
  }

  lemma WellNamedSecond(m: Method)
    requires 6 <= MethodCode(m) < 10
    ensures WellNamed(m)
  {
    match m
    case OPTIONS => case TRACE => case COPY => case LOCK =>
    case _ =>
  }

  lemma WellNamedThird(m: Method)
    requires 10 <= MethodCode(m) < 14
    ensures WellNamed(m)
  {
    match m
    case MKCOL => case MOVE => case PROPFIND => case PROPPATCH =>
    case _ =>
  }

  lemma WellNamedFourth(m: Method)
    requires 14 <= MethodCode(m) < 18
    ensures WellNamed(m)
  {
    match m
    case SEARCH => case UNLOCK => case BIND => case REBIND =>
    case _ =>
  }

  lemma WellNamedFifth(m: Method)
    requires 18 <= MethodCode(m) < 21
    ensures WellNamed(m)
  {
    match m
    case UNBIND => case ACL => case REPORT =>
    case _ =>
  }

  lemma WellNamedSixth(m: Method)
    requires 21 <= MethodCode(m) < 24
    ensures WellNamed(m)
  {
    match m
    case MKACTIVITY => case CHECKOUT => case MERGE =>
    case _ =>
  }

  lemma WellNamedSeventh(m: Method)
    requires 24 <= MethodCode(m) < 27
    ensures WellNamed(m)
  {
    match m
    case MSEARCH => case NOTIFY => case SUBSCRIBE =>
    case _ =>
  }

  lemma WellNamedEighth(m: Method)
    requires 27 <= MethodCode(m) < 30
    ensures WellNamed(m)
  {
    match m
    case UNSUBSCRIBE => case PATCH => case PURGE =>
    case _ =>
  }

  lemma WellNamedNinth(m: Method)
    requires 30 <= MethodCode(m) < 32
    ensures WellNamed(m)
  {
    match m
    case MKCALENDAR => case LINK =>
    case _ =>
  }

  lemma WellNamedTenth(m: Method)
    requires 32 <= MethodCode(m)
    ensures WellNamed(m)
  {
    match m
    case UNLINK => case SOURCE =>
    case _ =>
  }

  lemma CodeTells(m: Method)
    ensures MethodCode(m) <= METHODS && MethodWithCode(MethodCode(m)) == m
    ensures m != INVALID ==> MethodCode(m) < METHODS
  {
    match m
    case DELETE => case GET => case HEAD => case POST => case PUT => case CONNECT =>
    case OPTIONS => case TRACE => case COPY => case LOCK => case MKCOL => case MOVE =>
    case PROPFIND => case PROPPATCH => case SEARCH => case UNLOCK => case BIND => case REBIND =>
    case UNBIND => case ACL => case REPORT => case MKACTIVITY => case CHECKOUT => case MERGE =>
    case MSEARCH => case NOTIFY => case SUBSCRIBE => case UNSUBSCRIBE => case PATCH =>
    case PURGE => case MKCALENDAR => case LINK => case UNLINK => case SOURCE => case INVALID =>
  }

  /** The names in the order of their codes. */
  const NAMES: seq<string> :=
    ["DELETE", "GET", "HEAD", "POST", "PUT", "CONNECT", "OPTIONS", "TRACE", "COPY", "LOCK", "MKCOL", "MOVE",
     "PROPFIND", "PROPPATCH", "SEARCH", "UNLOCK", "BIND", "REBIND", "UNBIND", "ACL", "REPORT", "MKACTIVITY",
     "CHECKOUT", "MERGE", "MSEARCH", "NOTIFY", "SUBSCRIBE", "UNSUBSCRIBE", "PATCH", "PURGE", "MKCALENDAR", "LINK",
     "UNLINK", "SOURCE"]

  /** Every name of the table belongs to the method of its code, and there are no others. */
  lemma NameTable(code: nat)
    requires code < 34
    ensures |NAMES| == 34 && MethodToString(MethodWithCode(code)) == NAMES[code]
    ensures MethodWithCode(code) != INVALID
  {
    hide MethodToString;
    if code < 9 {
      NamesFirst(code);
    } else if code < 18 {
      NamesSecond(code);
    } else if code < 26 {
      NamesThird(code);
    } else {
      NamesFourth(code);
    }
  }

  lemma NamesFirst(code: nat)
    requires 0 <= code < 9
    ensures |NAMES| == 34 && MethodToString(MethodWithCode(code)) == NAMES[code]
  {
  }

  lemma NamesSecond(code: nat)
    requires 9 <= code < 18
    ensures |NAMES| == 34 && MethodToString(MethodWithCode(code)) == NAMES[code]
  {
  }

  lemma NamesThird(code: nat)
    requires 18 <= code < 26
    ensures |NAMES| == 34 && MethodToString(MethodWithCode(code)) == NAMES[code]
  {
  }

  lemma NamesFourth(code: nat)
    requires 26 <= code < 34
    ensures |NAMES| == 34 && MethodToString(MethodWithCode(code)) == NAMES[code]
  {
  }

  lemma NameIsPlain(m: Method)
    ensures ' ' !in MethodToString(m) && '\r' !in MethodToString(m)
  {
    hide MethodToString;
    hide MethodWithFingerprint;
    hide Fingerprint;
    MethodWellNamed(m);
  }

  /** No two methods share a name, so every method is read back from its name. */
  lemma MethodRoundTrip(m: Method)
    ensures StringToMethod(MethodToString(m)) == m
  {
    CodeTells(m);
    MethodWellNamed(m);
    MethodWellNamed(StringToMethod(MethodToString(m)));
  }
}
