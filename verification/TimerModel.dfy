/** The timer service as a state machine: a list of timers sorted by deadline, an index by id,
    one armed kernel deadline, and the callbacks run so far. Time is a nanosecond clock of
    which the service reads whole milliseconds. */
module TimerModel {
  import opened Wrappers
  import Seqs

  const NS_PER_MS: nat := 1000000

  // ---------------------------------------------------------------- time

  /** Division and remainder as C++ computes them, towards zero. */
  function Quot(a: int, b: nat): int
    requires b > 0
  {
    if a >= 0 then a / b else -((-a) / b)
  }

  function Rem(a: int, b: nat): int
    requires b > 0
  {
    a - Quot(a, b) * b
  }

  datatype Timespec = Timespec(sec: int, nsec: int)

  function FromMs(ms: int): Timespec {
    Timespec(Quot(ms, 1000), Rem(ms, 1000) * NS_PER_MS)
  }

  function ToMs(t: Timespec): int {
    t.sec * 1000 + Quot(t.nsec, NS_PER_MS)
  }

  /** The way through seconds and nanoseconds loses nothing, for every timeout. */
  lemma MsExact(ms: int)
    ensures ToMs(FromMs(ms)) == ms
  {
    var r := Rem(ms, 1000);
    assert -1000 < r < 1000;
    if r >= 0 {
      assert r * NS_PER_MS / NS_PER_MS == r;
    } else {
      assert (-r) * NS_PER_MS / NS_PER_MS == -r;
    }
  }

  /** The seconds and nanoseconds handed over amount to the milliseconds asked for, and have one sign. */
  lemma FromMsExact(ms: int)
    ensures var t := FromMs(ms);
            && t.sec * 1_000_000_000 + t.nsec == ms * 1_000_000
            && -1_000_000_000 < t.nsec < 1_000_000_000
            && (ms >= 0 ==> t.sec >= 0 && t.nsec >= 0) && (ms <= 0 ==> t.sec <= 0 && t.nsec <= 0)
  {
  }

  /** The monotonic clock, read in whole milliseconds. */
  function NowMs(clock: nat): nat {
    clock / NS_PER_MS
  }

  /** The kernel timer: the deadline it was armed for, and the instant at which it becomes readable. */
  datatype Alarm = Alarm(deadline: int, expiry: nat)

  /** Arming goes through the distance to the deadline; a deadline of 0 means disarm. */
  function Arm(deadline: int, clock: nat): Option<Alarm> {
    if deadline == 0 then None
    else if NowMs(clock) >= deadline then Some(Alarm(deadline, clock + 1))
    else
      var distance := deadline - NowMs(clock);
      Some(Alarm(deadline, clock + distance / 1000 * 1000000000 + distance % 1000 * NS_PER_MS))
  }

  /** An armed timer never becomes readable before the millisecond it was armed for, although
      the clock is rounded down on both sides; a deadline ahead is met within that millisecond. */
  lemma AlarmNotEarly(deadline: int, clock: nat)
    requires deadline != 0
    ensures var a := Arm(deadline, clock).value;
            a.deadline == deadline && a.expiry > clock && NowMs(a.expiry) >= deadline
    ensures NowMs(clock) < deadline ==> NowMs(Arm(deadline, clock).value.expiry) == deadline
  {
    var now := NowMs(clock);
    if now < deadline {
      var d := deadline - now;
      assert d == d / 1000 * 1000 + d % 1000;
      assert Arm(deadline, clock).value.expiry == clock + d * NS_PER_MS;
      assert clock == now * NS_PER_MS + clock % NS_PER_MS;
      assert clock + d * NS_PER_MS == deadline * NS_PER_MS + clock % NS_PER_MS;
    } else {
      assert clock + 1 >= now * NS_PER_MS;
    }
  }

  // ---------------------------------------------------------------- the service

  /** `reg` numbers the registrations; it stands for the callback that was registered. */
  datatype Timer = Timer(id: int, reg: nat, deadline: int)
  datatype Firing = Firing(timer: Timer, at: nat)

  /** `expiring` holds the timers that the expiry loop has collected and not yet run; `fired`,
      `canceled` and `refused` list the callbacks run with success, cancellation and "exists". */
  datatype Service = Service(timers: seq<Timer>, ids: map<int, Timer>, idAllocator: int, alarm: Option<Alarm>,
                             expiring: seq<Timer>, fired: seq<Firing>, canceled: seq<nat>, refused: seq<nat>)

  const IDLE: Service := Service([], map[], 0, None, [], [], [], [])

  /** Where a multiset inserts: behind the elements with the same deadline. */
  function UpperBound(timers: seq<Timer>, deadline: int): (k: nat)
    ensures k <= |timers|
    ensures forall i :: 0 <= i < k ==> timers[i].deadline <= deadline
    ensures k < |timers| ==> timers[k].deadline > deadline
  {
    if timers == [] || timers[0].deadline > deadline then 0
    else
      var k := UpperBound(timers[1..], deadline);
      assert forall i :: 1 <= i <= k ==> timers[i] == timers[1..][i - 1];
      k + 1
  }

  function Insert(timers: seq<Timer>, t: Timer): seq<Timer> {
    var k := UpperBound(timers, t.deadline);
    timers[..k] + [t] + timers[k..]
  }

  function Find(timers: seq<Timer>, t: Timer): (k: nat)
    ensures k <= |timers|
    ensures k < |timers| ==> timers[k] == t
    ensures k == |timers| ==> t !in timers
  {
    if timers == [] || timers[0] == t then 0
    else 1 + Find(timers[1..], t)
  }

  function Erase(timers: seq<Timer>, t: Timer): seq<Timer> {
    var k := Find(timers, t);
    if k == |timers| then timers else timers[..k] + timers[k + 1..]
  }

  function ArmFirst(timers: seq<Timer>, clock: nat): Option<Alarm> {
    if timers == [] then None else Arm(timers[0].deadline, clock)
  }

  /** Registration under the caller's id slot: refused if that id is still alive. */
  function RegisterTimer(s: Service, slot: int, reg: nat, timeout: int, clock: nat): (Service, int) {
    if slot in s.ids then (s.(refused := s.refused + [reg]), slot)
    else
      var t := Timer(s.idAllocator, reg, NowMs(clock) + timeout);
      var timers := Insert(s.timers, t);
      (s.(timers := timers, ids := s.ids[t.id := t], idAllocator := s.idAllocator + 1,
          alarm := if timers[0] == t then Arm(t.deadline, clock) else s.alarm), t.id)
  }

  function CancelTimer(s: Service, id: int, clock: nat): Service {
    if id !in s.ids then s
    else
      var t := s.ids[id];
      var timers := Erase(s.timers, t);
      s.(timers := timers, ids := s.ids - {id},
         alarm := if s.timers != [] && s.timers[0] == t then ArmFirst(timers, clock) else s.alarm,
         canceled := s.canceled + [t.reg])
  }

  function DueCount(timers: seq<Timer>, now: int): (k: nat)
    ensures k <= |timers|
    ensures forall i :: 0 <= i < k ==> timers[i].deadline <= now
    ensures k < |timers| ==> timers[k].deadline > now
  {
    if timers == [] || timers[0].deadline > now then 0
    else
      var k := DueCount(timers[1..], now);
      assert forall i :: 1 <= i <= k ==> timers[i] == timers[1..][i - 1];
      k + 1
  }

  function IdsOf(timers: seq<Timer>): set<int> {
    set i | 0 <= i < |timers| :: timers[i].id
  }

  /** The first half of an expiry: the due timers leave the service, which is re-armed for the next. */
  function CollectDue(s: Service, clock: nat): Service {
    var k := DueCount(s.timers, NowMs(clock));
    s.(timers := s.timers[k..], ids := s.ids - IdsOf(s.timers[..k]),
       alarm := ArmFirst(s.timers[k..], clock), expiring := s.expiring + s.timers[..k])
  }

  /** The second half, one callback at a time. */
  function RunFirst(s: Service, clock: nat): Service
    requires s.expiring != []
  {
    s.(expiring := s.expiring[1..], fired := s.fired + [Firing(s.expiring[0], NowMs(clock))])
  }

  // ---------------------------------------------------------------- coherence

  /** Every two elements, in their order, are related by `r`. */
  ghost predicate Pairwise(ts: seq<Timer>, r: (Timer, Timer) -> bool) {
    forall i, j :: 0 <= i < j < |ts| ==> r(ts[i], ts[j])
  }

  ghost predicate Across(a: seq<Timer>, b: seq<Timer>, r: (Timer, Timer) -> bool) {
    forall x, y :: x in a && y in b ==> r(x, y)
  }

  lemma PairwiseJoin(a: seq<Timer>, b: seq<Timer>, r: (Timer, Timer) -> bool)
    ensures Pairwise(a + b, r) <==> Pairwise(a, r) && Pairwise(b, r) && Across(a, b, r)
  {
    var ab := a + b;
    if Pairwise(ab, r) {
      assert forall i :: 0 <= i < |a| ==> ab[i] == a[i];
      assert forall j :: 0 <= j < |b| ==> ab[|a| + j] == b[j];
      forall x, y | x in a && y in b ensures r(x, y) {
        var i :| 0 <= i < |a| && a[i] == x;
        var j :| 0 <= j < |b| && b[j] == y;
        assert r(ab[i], ab[|a| + j]);
      }
      forall i, j | 0 <= i < j < |b| ensures r(b[i], b[j]) {
        assert r(ab[|a| + i], ab[|a| + j]);
      }
      forall i, j | 0 <= i < j < |a| ensures r(a[i], a[j]) {
        assert r(ab[i], ab[j]);
      }
    }
    if Pairwise(a, r) && Pairwise(b, r) && Across(a, b, r) {
      forall i, j | 0 <= i < j < |ab| ensures r(ab[i], ab[j]) {
        if j < |a| {
          assert ab[i] == a[i] && ab[j] == a[j];
        } else if i < |a| {
          assert ab[i] == a[i] && ab[j] == b[j - |a|];
        } else {
          assert ab[i] == b[i - |a|] && ab[j] == b[j - |a|];
        }
      }
    }
  }

  /** Putting an element in keeps a pairwise relation exactly when it fits its neighbours' sides. */
  lemma PairwiseInsert(a: seq<Timer>, t: Timer, b: seq<Timer>, r: (Timer, Timer) -> bool)
    ensures Pairwise(a + [t] + b, r) <==> Pairwise(a + b, r) && Across(a, [t], r) && Across([t], b, r)
  {
    PairwiseJoin(a, b, r);
    PairwiseJoin(a, [t], r);
    PairwiseJoin(a + [t], b, r);
  }

  predicate NotLater(a: Timer, b: Timer) {
    a.deadline <= b.deadline
  }

  predicate OtherId(a: Timer, b: Timer) {
    a.id != b.id
  }

  ghost predicate Sorted(timers: seq<Timer>) {
    Pairwise(timers, NotLater)
  }

  /** List and index hold the same timers, each once. */
  ghost predicate Indexed(timers: seq<Timer>, ids: map<int, Timer>) {
    && (forall t :: t in timers ==> t.id in ids && ids[t.id] == t)
    && (forall k :: k in ids ==> ids[k].id == k && ids[k] in timers)
    && Pairwise(timers, OtherId)
  }

  ghost predicate Coherent(s: Service) {
    && Sorted(s.timers)
    && Indexed(s.timers, s.ids)
    && (forall k :: k in s.ids ==> 0 <= k < s.idAllocator)
    && 0 <= s.idAllocator
  }

  // ---------------------------------------------------------------- the kernel timer

  /** When the kernel timer becomes readable: in the millisecond of its deadline, or at once if that
      was past. */
  predicate OnTime(a: Alarm, clock: nat) {
    NowMs(a.expiry) == a.deadline || (NowMs(a.expiry) > a.deadline && a.expiry <= clock + 1)
  }

  /** What callers rely on: armed for the least deadline while a timer is live, disarmed otherwise. */
  predicate Armed(timers: seq<Timer>, alarm: Option<Alarm>, clock: nat) {
    if timers == [] then alarm == None
    else alarm.Some? && alarm.value.deadline == timers[0].deadline && OnTime(alarm.value, clock)
  }

  /** The least deadline is one that cannot be armed. */
  predicate ZeroFirst(timers: seq<Timer>) {
    timers != [] && timers[0].deadline == 0
  }

  /** What the service keeps: the same, but that a least deadline of exactly 0 disarms. */
  predicate Follows(timers: seq<Timer>, alarm: Option<Alarm>, clock: nat) {
    if ZeroFirst(timers) then alarm == None else Armed(timers, alarm, clock)
  }

  /** The two differ exactly there. */
  lemma FollowsExact(timers: seq<Timer>, alarm: Option<Alarm>, clock: nat)
    requires Follows(timers, alarm, clock)
    ensures Armed(timers, alarm, clock) <==> !ZeroFirst(timers)
    ensures alarm.Some? <==> timers != [] && !ZeroFirst(timers)
  {
  }

  lemma ArmFirstFollows(timers: seq<Timer>, clock: nat)
    ensures Follows(timers, ArmFirst(timers, clock), clock)
  {
    if timers != [] && timers[0].deadline != 0 {
      AlarmNotEarly(timers[0].deadline, clock);
    }
  }

  /** An insertion splits the list where no earlier element is later than the new one. */
  lemma InsertSplits(timers: seq<Timer>, t: Timer) returns (a: seq<Timer>, b: seq<Timer>)
    requires Sorted(timers)
    ensures timers == a + b && Insert(timers, t) == a + [t] + b
    ensures forall x :: x in a ==> x.deadline <= t.deadline
    ensures forall x :: x in b ==> t.deadline < x.deadline
  {
    var k := UpperBound(timers, t.deadline);
    a, b := timers[..k], timers[k..];
    forall x | x in b ensures t.deadline < x.deadline {
      var i :| 0 <= i < |b| && b[i] == x;
      assert i > 0 ==> NotLater(timers[k], timers[k + i]);
    }
  }

  lemma InsertIndexed(timers: seq<Timer>, ids: map<int, Timer>, t: Timer)
    requires Sorted(timers) && Indexed(timers, ids) && t.id !in ids
    ensures Indexed(Insert(timers, t), ids[t.id := t])
  {
    var a, b := InsertSplits(timers, t);
    PutIndexed(a, t, b, ids);
  }

  lemma PutIndexed(a: seq<Timer>, t: Timer, b: seq<Timer>, ids: map<int, Timer>)
    requires Indexed(a + b, ids) && t.id !in ids
    ensures Indexed(a + [t] + b, ids[t.id := t])
  {
    PairwiseInsert(a, t, b, OtherId);
    assert forall x :: x in a + [t] + b <==> x == t || x in a + b;
  }

  lemma InsertSorted(timers: seq<Timer>, t: Timer)
    requires Sorted(timers)
    ensures Sorted(Insert(timers, t))
  {
    var a, b := InsertSplits(timers, t);
    PairwiseInsert(a, t, b, NotLater);
  }

  lemma RegisterCoherent(s: Service, slot: int, reg: nat, timeout: int, clock: nat)
    requires Coherent(s)
    ensures Coherent(RegisterTimer(s, slot, reg, timeout, clock).0)
    ensures slot !in s.ids ==> RegisterTimer(s, slot, reg, timeout, clock).1 == s.idAllocator && s.idAllocator !in s.ids
  {
    if slot !in s.ids {
      var t := Timer(s.idAllocator, reg, NowMs(clock) + timeout);
      InsertSorted(s.timers, t);
      InsertIndexed(s.timers, s.ids, t);
    }
  }

  /** Registration puts in one timer, for the caller's registration and due when its timeout has passed, or
      refuses it and changes nothing else. */
  lemma RegisterPuts(s: Service, slot: int, reg: nat, timeout: int, clock: nat)
    ensures var (s', id) := RegisterTimer(s, slot, reg, timeout, clock);
            if slot in s.ids then id == slot && s' == s.(refused := s.refused + [reg])
            else
              var t := Timer(s.idAllocator, reg, NowMs(clock) + timeout);
              && id == t.id && s'.ids == s.ids[id := t] && s'.idAllocator == s.idAllocator + 1
              && (forall x :: x in s'.timers <==> x == t || x in s.timers)
              && |s'.timers| == |s.timers| + 1
              && s'.expiring == s.expiring && s'.fired == s.fired
              && s'.canceled == s.canceled && s'.refused == s.refused
  {
    hide NowMs;
    hide Arm;
    InsertMembers(s.timers, Timer(s.idAllocator, reg, NowMs(clock) + timeout));
  }

  lemma InsertMembers(timers: seq<Timer>, t: Timer)
    ensures forall x :: x in Insert(timers, t) <==> x == t || x in timers
  {
    var k := UpperBound(timers, t.deadline);
    assert timers == timers[..k] + timers[k..];
  }

  lemma InsertFirst(timers: seq<Timer>, t: Timer)
    ensures var ts := Insert(timers, t);
            ts != [] && ts[0] == if timers == [] || timers[0].deadline > t.deadline then t else timers[0]
  {
  }

  lemma RegisterFollows(s: Service, slot: int, reg: nat, timeout: int, clock: nat)
    requires Follows(s.timers, s.alarm, clock)
    ensures var s' := RegisterTimer(s, slot, reg, timeout, clock).0; Follows(s'.timers, s'.alarm, clock)
  {
    hide Insert;
    hide OnTime;
    hide Arm;
    if slot !in s.ids {
      var t := Timer(s.idAllocator, reg, NowMs(clock) + timeout);
      InsertFirst(s.timers, t);
      ArmFirstFollows(Insert(s.timers, t), clock);
    }
  }

  /** One registration with the kernel timer armed: it stays so exactly unless the new deadline is 0 and
      the least one. */
  lemma RegisterArmsExact(s: Service, slot: int, reg: nat, timeout: int, clock: nat)
    requires Follows(s.timers, s.alarm, clock) && Armed(s.timers, s.alarm, clock)
    ensures var s' := RegisterTimer(s, slot, reg, timeout, clock).0;
            Armed(s'.timers, s'.alarm, clock)
            <==> slot in s.ids || NowMs(clock) + timeout != 0 || (s.timers != [] && s.timers[0].deadline < 0)
  {
    hide Insert;
    hide OnTime;
    hide Arm;
    var s' := RegisterTimer(s, slot, reg, timeout, clock).0;
    RegisterFollows(s, slot, reg, timeout, clock);
    FollowsExact(s'.timers, s'.alarm, clock);
    if slot !in s.ids {
      InsertFirst(s.timers, Timer(s.idAllocator, reg, NowMs(clock) + timeout));
    }
  }

  lemma EraseSplits(timers: seq<Timer>, t: Timer) returns (a: seq<Timer>, b: seq<Timer>)
    requires t in timers
    ensures timers == a + [t] + b && Erase(timers, t) == a + b
  {
    var k := Find(timers, t);
    a, b := timers[..k], timers[k + 1..];
  }

  lemma OthersDiffer(a: seq<Timer>, t: Timer, b: seq<Timer>)
    requires Across(a, [t], OtherId) && Across([t], b, OtherId)
    ensures forall x :: x in a + b ==> x.id != t.id
  {
    assert t in [t];
    assert forall x :: x in a + b ==> OtherId(x, t) || OtherId(t, x);
  }

  lemma EraseIndexed(timers: seq<Timer>, ids: map<int, Timer>, t: Timer)
    requires Indexed(timers, ids) && t in timers
    ensures Indexed(Erase(timers, t), ids - {t.id})
  {
    hide Pairwise;
    hide Across;
    var a, b := EraseSplits(timers, t);
    PairwiseInsert(a, t, b, OtherId);
    OthersDiffer(a, t, b);
  }

  lemma EraseSorted(timers: seq<Timer>, t: Timer)
    requires Sorted(timers) && t in timers
    ensures Sorted(Erase(timers, t))
  {
    var a, b := EraseSplits(timers, t);
    PairwiseInsert(a, t, b, NotLater);
  }

  lemma CancelCoherent(s: Service, id: int, clock: nat)
    requires Coherent(s)
    ensures Coherent(CancelTimer(s, id, clock))
  {
    if id in s.ids {
      var t := s.ids[id];
      EraseIndexed(s.timers, s.ids, t);
      EraseSorted(s.timers, t);
    }
  }

  /** Cancellation takes out the timer that the id was given to, and no other. */
  lemma CancelTakes(s: Service, id: int, clock: nat)
    requires Coherent(s) && id in s.ids
    ensures var s', t := CancelTimer(s, id, clock), s.ids[id];
            && t.id == id && s'.canceled == s.canceled + [t.reg]
            && s'.ids == s.ids - {id}
            && (forall x :: x in s'.timers <==> x in s.timers && x.id != id)
            && |s'.timers| == |s.timers| - 1
            && s'.expiring == s.expiring && s'.fired == s.fired && s'.refused == s.refused
            && s'.idAllocator == s.idAllocator
  {
    hide Pairwise;
    hide Across;
    var t := s.ids[id];
    var a, b := EraseSplits(s.timers, t);
    PairwiseInsert(a, t, b, OtherId);
    OthersDiffer(a, t, b);
  }

  lemma CancelUnknown(s: Service, id: int, clock: nat)
    requires id !in s.ids
    ensures CancelTimer(s, id, clock) == s
  {
  }

  lemma CancelFollows(s: Service, id: int, clock: nat)
    requires Follows(s.timers, s.alarm, clock)
    ensures var s' := CancelTimer(s, id, clock); Follows(s'.timers, s'.alarm, clock)
  {
    hide OnTime;
    hide Arm;
    if id in s.ids {
      ArmFirstFollows(Erase(s.timers, s.ids[id]), clock);
    }
  }

  lemma CollectIndexed(a: seq<Timer>, b: seq<Timer>, ids: map<int, Timer>)
    requires Indexed(a + b, ids)
    ensures Indexed(b, ids - IdsOf(a))
  {
    PairwiseJoin(a, b, OtherId);
    forall t | t in b ensures t.id !in IdsOf(a) {
      assert forall i :: 0 <= i < |a| ==> a[i] in a && OtherId(a[i], t);
    }
    forall t | t in a ensures t.id in IdsOf(a) {
      var i :| 0 <= i < |a| && a[i] == t;
    }
    assert forall x :: x in ids ==> ids[x] in a + b;
  }

  lemma CollectCoherent(s: Service, clock: nat)
    requires Coherent(s)
    ensures Coherent(CollectDue(s, clock))
  {
    var k := DueCount(s.timers, NowMs(clock));
    var a, b := s.timers[..k], s.timers[k..];
    assert s.timers == a + b;
    PairwiseJoin(a, b, NotLater);
    CollectIndexed(a, b, s.ids);
  }

  /** Collecting takes exactly the timers that are due, in order, and leaves the others. */
  lemma CollectTakes(s: Service, clock: nat) returns (due: seq<Timer>)
    requires Coherent(s)
    ensures var s' := CollectDue(s, clock);
            && s'.expiring == s.expiring + due && s.timers == due + s'.timers
            && (forall t :: t in due ==> t.deadline <= NowMs(clock))
            && (forall t :: t in s'.timers ==> t.deadline > NowMs(clock))
            && (forall id :: id in s'.ids <==> id in s.ids && s.ids[id].deadline > NowMs(clock))
            && s'.fired == s.fired && s'.canceled == s.canceled && s'.refused == s.refused
            && s'.idAllocator == s.idAllocator
  {
    hide NowMs;
    hide Arm;
    hide IdsOf;
    hide DueCount;
    hide Sorted;
    hide Indexed;
    var k, now := DueCount(s.timers, NowMs(clock)), NowMs(clock);
    due := s.timers[..k];
    assert s.timers == due + s.timers[k..];
    DueMembers(s.timers, k, now);
    RestLater(s.timers, k, now);
    CollectCoherent(s, clock);
    IndexFollows(s, CollectDue(s, clock), due, now);
  }

  lemma RestLater(timers: seq<Timer>, k: nat, now: int)
    requires Sorted(timers) && k == DueCount(timers, now)
    ensures forall t :: t in timers[k..] ==> t.deadline > now
  {
    forall t | t in timers[k..] ensures t.deadline > now {
      var i :| 0 <= i < |timers| - k && timers[k..][i] == t;
      assert i > 0 ==> NotLater(timers[k], timers[k + i]);
    }
  }

  lemma IndexFollows(s: Service, s': Service, due: seq<Timer>, now: int)
    requires Indexed(s.timers, s.ids) && Indexed(s'.timers, s'.ids) && s.timers == due + s'.timers
    requires s'.ids == s.ids - IdsOf(due)
    requires forall t :: t in due ==> t.deadline <= now
    requires forall t :: t in s'.timers ==> t.deadline > now
    ensures forall id :: id in s'.ids <==> id in s.ids && s.ids[id].deadline > now
  {
    hide Pairwise;
    forall id | id in s.ids && s.ids[id].deadline > now ensures id in s'.ids {
      assert s.ids[id] in s'.timers;
    }
  }

  lemma DueMembers(timers: seq<Timer>, k: nat, now: int)
    requires k == DueCount(timers, now)
    ensures forall t :: t in timers[..k] ==> t.deadline <= now
    ensures forall t :: t in timers[..k] || t in timers[k..] ==> t in timers
  {
    forall t | t in timers[..k] ensures t.deadline <= now {
      var i :| 0 <= i < k && timers[..k][i] == t;
    }
  }

  lemma CollectFollows(s: Service, clock: nat)
    ensures var s' := CollectDue(s, clock); Follows(s'.timers, s'.alarm, clock)
  {
    ArmFirstFollows(s.timers[DueCount(s.timers, NowMs(clock))..], clock);
  }

  /** A readable kernel timer always finds its first timer due: no expiry comes early, none in vain. */
  lemma ExpiryFindsTimer(s: Service, clock: nat)
    requires Follows(s.timers, s.alarm, clock) && s.alarm.Some? && clock >= s.alarm.value.expiry
    ensures s.timers != [] && s.timers[0].deadline <= NowMs(clock)
    ensures |CollectDue(s, clock).timers| < |s.timers|
  {
    var e := s.alarm.value.expiry;
    assert NowMs(e) <= NowMs(clock) by {
      assert e == NowMs(e) * NS_PER_MS + e % NS_PER_MS;
      assert clock == NowMs(clock) * NS_PER_MS + clock % NS_PER_MS;
    }
  }

  // ---------------------------------------------------------------- order and bookkeeping

  predicate Before(a: Timer, b: Timer) {
    a.deadline < b.deadline || (a.deadline == b.deadline && a.reg < b.reg)
  }

  ghost predicate InOrder(ts: seq<Timer>) {
    Pairwise(ts, Before)
  }

  function TimersOf(fired: seq<Firing>): (ts: seq<Timer>)
    ensures |ts| == |fired|
  {
    seq(|fired|, i requires 0 <= i < |fired| => fired[i].timer)
  }

  /** The timers that were run or are about to be. */
  function Done(s: Service): seq<Timer> {
    TimersOf(s.fired) + s.expiring
  }

  /** The timers that were run, are about to run, and wait, in this order. */
  function Line(s: Service): seq<Timer> {
    Done(s) + s.timers
  }

  function Regs(ts: seq<Timer>): (rs: seq<nat>)
    ensures |rs| == |ts|
  {
    seq(|ts|, i requires 0 <= i < |ts| => ts[i].reg)
  }

  /** Where every registration has gone. */
  function Account(s: Service): multiset<nat> {
    multiset(Regs(Line(s))) + multiset(s.canceled) + multiset(s.refused)
  }

  lemma RegsAppend(a: seq<Timer>, b: seq<Timer>)
    ensures Regs(a + b) == Regs(a) + Regs(b)
  {
  }

  lemma {:induction false} TimersOfAppend(fired: seq<Firing>, f: Firing)
    ensures TimersOf(fired + [f]) == TimersOf(fired) + [f.timer]
  {
  }

  /** Some timer that was already collected or run has a later deadline: a caller can tell before it
      registers a timer with this one. */
  predicate Overtaken(done: seq<Timer>, deadline: int) {
    exists i :: 0 <= i < |done| && done[i].deadline > deadline
  }

  /** What the order of callbacks rests on. `late` are the registrations that were overtaken when they
      were made: only they are out of order, and each of them is, once it is collected. */
  ghost predicate Ordered(done: seq<Timer>, timers: seq<Timer>, late: set<nat>) {
    && InOrder(timers)
    && (forall g, t :: g in done && t in timers && t.reg !in late ==> Before(g, t))
    && (forall i, j :: 0 <= i < j < |done| && done[j].reg !in late ==> Before(done[i], done[j]))
    && (forall t :: t in timers && t.reg in late ==> Overtaken(done, t.deadline))
    && (forall j :: 0 <= j < |done| && done[j].reg in late ==> Overtaken(done[..j], done[j].deadline))
  }

  lemma OvertakenLonger(done: seq<Timer>, more: seq<Timer>, deadline: int)
    requires Overtaken(done, deadline)
    ensures Overtaken(done + more, deadline)
  {
    var i :| 0 <= i < |done| && done[i].deadline > deadline;
    assert (done + more)[i] == done[i];
  }

  lemma InOrderInsert(timers: seq<Timer>, t: Timer)
    requires Sorted(timers) && InOrder(timers) && forall x :: x in timers ==> x.reg < t.reg
    ensures InOrder(Insert(timers, t))
    ensures forall x :: x in Insert(timers, t) <==> x == t || x in timers
  {
    var a, b := InsertSplits(timers, t);
    PairwiseInsert(a, t, b, Before);
  }

  lemma OrderedInsert(done: seq<Timer>, timers: seq<Timer>, late: set<nat>, t: Timer)
    requires Sorted(timers) && Ordered(done, timers, late)
    requires (forall x :: x in done || x in timers ==> x.reg < t.reg) && t.reg !in late
    ensures Ordered(done, Insert(timers, t), if Overtaken(done, t.deadline) then late + {t.reg} else late)
  {
    hide Insert;
    hide Sorted;
    hide InOrder;
    InOrderInsert(timers, t);
    if !Overtaken(done, t.deadline) {
      forall g | g in done ensures Before(g, t) {
        var i :| 0 <= i < |done| && done[i] == g;
      }
    }
    forall j | 0 <= j < |done| ensures done[j].reg != t.reg {
      assert done[j] in done;
    }
  }

  lemma OrderedErase(done: seq<Timer>, timers: seq<Timer>, late: set<nat>, t: Timer)
    requires Ordered(done, timers, late) && t in timers
    ensures Ordered(done, Erase(timers, t), late)
    ensures forall x :: x in Erase(timers, t) ==> x in timers
  {
    hide Erase;
    var a, b := EraseSplits(timers, t);
    PairwiseInsert(a, t, b, Before);
  }

  lemma OrderedCollect(done: seq<Timer>, a: seq<Timer>, b: seq<Timer>, late: set<nat>)
    requires Ordered(done, a + b, late)
    ensures Ordered(done + a, b, late)
  {
    PairwiseJoin(a, b, Before);
    var d := done + a;
    assert forall x :: x in a + b <==> x in a || x in b;
    forall i, j | 0 <= i < j < |d| && d[j].reg !in late ensures Before(d[i], d[j]) {
      OrderedPair(done, a, b, late, i, j);
    }
    forall j | 0 <= j < |d| && d[j].reg in late ensures Overtaken(d[..j], d[j].deadline) {
      OvertakenAt(done, a, b, late, j);
    }
    forall t | t in b && t.reg in late ensures Overtaken(d, t.deadline) {
      OvertakenLonger(done, a, t.deadline);
    }
  }

  lemma OrderedPair(done: seq<Timer>, a: seq<Timer>, b: seq<Timer>, late: set<nat>, i: nat, j: nat)
    requires Ordered(done, a + b, late) && Pairwise(a, Before) && i < j < |done + a|
    requires (done + a)[j].reg !in late
    ensures Before((done + a)[i], (done + a)[j])
  {
    var d := done + a;
    if j < |done| {
      assert d[i] == done[i] && d[j] == done[j];
    } else {
      var k := j - |done|;
      assert d[j] == a[k] == (a + b)[k];
      assert i < |done| ==> d[i] == done[i];
      assert i >= |done| ==> d[i] == a[i - |done|];
    }
  }

  lemma OvertakenAt(done: seq<Timer>, a: seq<Timer>, b: seq<Timer>, late: set<nat>, j: nat)
    requires Ordered(done, a + b, late) && j < |done + a| && (done + a)[j].reg in late
    ensures Overtaken((done + a)[..j], (done + a)[j].deadline)
  {
    var d := done + a;
    if j < |done| {
      assert d[j] == done[j] && d[..j] == done[..j];
    } else {
      var k := j - |done|;
      assert d[j] == a[k] == (a + b)[k];
      assert d[..j] == done + a[..k];
      OvertakenLonger(done, a[..k], d[j].deadline);
    }
  }

  lemma RegsInsert(done: seq<Timer>, timers: seq<Timer>, t: Timer)
    requires Sorted(timers)
    ensures multiset(Regs(done + Insert(timers, t))) == multiset(Regs(done + timers)) + multiset{t.reg}
  {
    hide Insert;
    var a, b := InsertSplits(timers, t);
    Seqs.Assoc(done, a, b);
    Seqs.PutIn(done, a, t, b);
    RegsPut(done + a, t, b);
  }

  lemma RegsErase(done: seq<Timer>, timers: seq<Timer>, t: Timer)
    requires t in timers
    ensures multiset(Regs(done + timers)) == multiset(Regs(done + Erase(timers, t))) + multiset{t.reg}
  {
    hide Erase;
    var a, b := EraseSplits(timers, t);
    Seqs.PutIn(done, a, t, b);
    Seqs.Assoc(done, a, b);
    RegsPut(done + a, t, b);
  }

  lemma RegsPut(a: seq<Timer>, t: Timer, b: seq<Timer>)
    ensures multiset(Regs(a + [t] + b)) == multiset(Regs(a + b)) + multiset{t.reg}
  {
    RegsAppend(a, b);
    RegsAppend(a, [t]);
    RegsAppend(a + [t], b);
    assert Regs([t]) == [t.reg];
  }

  // ---------------------------------------------------------------- whole runs

  /** What a waiting caller remembers: the millisecond it started at, and the timeout it asked for. */
  datatype Wait = Wait(start: nat, timeout: int)

  /** `late` are the registrations that were overtaken when they were made, `given` the ids that the
      registrations left with their callers. */
  datatype World = World(service: Service, clock: nat, waits: seq<Wait>, late: set<nat>, given: seq<int>)

  const START: World := World(IDLE, 0, [], {}, [])

  /** Callbacks are points between two steps: a callback that registers or cancels timers is a
      RunNext, Cancel or refused Register followed by further steps, before the next RunNext. */
  datatype Step =
    | Tick(ns: nat)
    | Register(slot: int, start: nat, timeout: int)
    | Cancel(id: int)
    | Collect
    | RunNext

  predicate Enabled(w: World, step: Step) {
    match step
    case Tick(_) => true
    case Register(_, start, _) => start <= NowMs(w.clock)
    case Cancel(_) => true
    case Collect => w.service.expiring == []
    case RunNext => w.service.expiring != []
  }

  function Apply(w: World, step: Step): World
    requires Enabled(w, step)
  {
    match step
    case Tick(ns) => w.(clock := w.clock + ns)
    case Register(slot, start, timeout) =>
      w.(service := RegisterTimer(w.service, slot, |w.waits|, ToMs(FromMs(timeout)), w.clock).0,
         waits := w.waits + [Wait(start, timeout)],
         given := w.given + [RegisterTimer(w.service, slot, |w.waits|, ToMs(FromMs(timeout)), w.clock).1],
         late := if slot !in w.service.ids && Overtaken(Done(w.service), NowMs(w.clock) + timeout)
                 then w.late + {|w.waits|} else w.late)
    case Cancel(id) => w.(service := CancelTimer(w.service, id, w.clock))
    case Collect => w.(service := CollectDue(w.service, w.clock))
    case RunNext => w.(service := RunFirst(w.service, w.clock))
  }

  function Upto(n: nat): (s: seq<nat>)
    ensures |s| == n
  {
    seq(n, i => i)
  }

  /** No timer is due before its caller's timeout. */
  predicate Patient(t: Timer, waits: seq<Wait>) {
    t.reg < |waits| && t.deadline >= waits[t.reg].start + waits[t.reg].timeout
  }

  ghost predicate Punctual(fired: seq<Firing>) {
    forall i :: 0 <= i < |fired| ==> fired[i].at >= fired[i].timer.deadline
  }

  /** Order, due times and waits of all timers, and every registration accounted for. */
  ghost predicate LineWell(s: Service, waits: seq<Wait>, late: set<nat>, now: int) {
    && Ordered(Done(s), s.timers, late)
    && (forall r :: r in late ==> r < |waits|)
    && (forall t :: t in Done(s) ==> t.deadline <= now)
    && (forall t :: t in Done(s) || t in s.timers ==> Patient(t, waits))
    && Punctual(s.fired)
    && Account(s) == multiset(Upto(|waits|))
  }

  ghost predicate Inv(w: World) {
    && Coherent(w.service)
    && Follows(w.service.timers, w.service.alarm, w.clock)
    && LineWell(w.service, w.waits, w.late, NowMs(w.clock))
  }

  lemma TickKeeps(w: World, ns: nat)
    requires Inv(w)
    ensures Inv(Apply(w, Tick(ns)))
  {
    TickLater(w.clock, ns);
  }

  lemma UptoGrows(n: nat)
    ensures Upto(n + 1) == Upto(n) + [n]
  {
  }

  lemma RefusedAccount(s: Service, n: nat)
    requires Account(s) == multiset(Upto(n))
    ensures Account(s.(refused := s.refused + [n])) == multiset(Upto(n + 1))
  {
    hide Regs;
    UptoGrows(n);
  }

  lemma RefusedWell(s: Service, s': Service, waits: seq<Wait>, late: set<nat>, now: int, wait: Wait)
    requires LineWell(s, waits, late, now) && s' == s.(refused := s.refused + [|waits|])
    ensures LineWell(s', waits + [wait], late, now)
  {
    hide Ordered;
    hide Account;
    hide Patient;
    hide Punctual;
    RefusedAccount(s, |waits|);
    StillPatient(Done(s), s.timers, waits, wait);
  }

  lemma InsertedWell(s: Service, s': Service, waits: seq<Wait>, late: set<nat>, now: int, wait: Wait, t: Timer)
    requires Sorted(s.timers) && LineWell(s, waits, late, now)
    requires t.reg == |waits| && t.deadline >= wait.start + wait.timeout
    requires s' == s.(timers := Insert(s.timers, t), ids := s'.ids, idAllocator := s'.idAllocator, alarm := s'.alarm)
    ensures LineWell(s', waits + [wait], if Overtaken(Done(s), t.deadline) then late + {t.reg} else late, now)
  {
    hide Ordered;
    hide Regs;
    hide Insert;
    hide Sorted;
    hide Overtaken;
    UptoGrows(|waits|);
    StillPatient(Done(s), s.timers, waits, wait);
    OrderedInsert(Done(s), s.timers, late, t);
    InsertMembers(s.timers, t);
    RegsInsert(Done(s), s.timers, t);
  }

  lemma RegisterLine(w: World, slot: int, start: nat, timeout: int)
    requires Inv(w) && Enabled(w, Register(slot, start, timeout))
    ensures var w' := Apply(w, Register(slot, start, timeout));
            LineWell(w'.service, w'.waits, w'.late, NowMs(w'.clock))
  {
    hide LineWell;
    hide Sorted;
    hide Indexed;
    hide Insert;
    hide Overtaken;
    hide ToMs;
    hide FromMs;
    var s, reg, now, wait := w.service, |w.waits|, NowMs(w.clock), Wait(start, timeout);
    var w' := Apply(w, Register(slot, start, timeout));
    MsExact(timeout);
    if slot in s.ids {
      RefusedWell(s, w'.service, w.waits, w.late, now, wait);
    } else {
      InsertedWell(s, w'.service, w.waits, w.late, now, wait, Timer(s.idAllocator, reg, now + timeout));
    }
  }

  lemma RegisterKeeps(w: World, slot: int, start: nat, timeout: int)
    requires Inv(w) && Enabled(w, Register(slot, start, timeout))
    ensures Inv(Apply(w, Register(slot, start, timeout)))
  {
    hide LineWell;
    hide Coherent;
    hide RegisterTimer;
    hide Overtaken;
    hide ToMs;
    hide FromMs;
    RegisterCoherent(w.service, slot, |w.waits|, ToMs(FromMs(timeout)), w.clock);
    RegisterFollows(w.service, slot, |w.waits|, ToMs(FromMs(timeout)), w.clock);
    RegisterLine(w, slot, start, timeout);
  }

  lemma StillPatient(done: seq<Timer>, timers: seq<Timer>, waits: seq<Wait>, wait: Wait)
    requires forall t :: t in done || t in timers ==> Patient(t, waits)
    ensures forall t :: t in done || t in timers ==> Patient(t, waits + [wait])
  {
  }

  lemma ErasedWell(s: Service, s': Service, waits: seq<Wait>, late: set<nat>, now: int, t: Timer)
    requires LineWell(s, waits, late, now) && t in s.timers
    requires s' == s.(timers := Erase(s.timers, t), ids := s'.ids, alarm := s'.alarm, canceled := s.canceled + [t.reg])
    ensures LineWell(s', waits, late, now)
  {
    hide Ordered;
    hide Regs;
    hide Erase;
    OrderedErase(Done(s), s.timers, late, t);
    RegsErase(Done(s), s.timers, t);
  }

  lemma CancelKeeps(w: World, id: int)
    requires Inv(w)
    ensures Inv(Apply(w, Cancel(id)))
  {
    hide LineWell;
    hide Sorted;
    hide Erase;
    var s := w.service;
    hide Follows;
    CancelCoherent(s, id, w.clock);
    CancelFollows(s, id, w.clock);
    if id in s.ids {
      ErasedWell(s, CancelTimer(s, id, w.clock), w.waits, w.late, NowMs(w.clock), s.ids[id]);
    }
  }

  lemma CollectedWell(s: Service, clock: nat, waits: seq<Wait>, late: set<nat>, k: nat)
    requires LineWell(s, waits, late, NowMs(clock)) && k == DueCount(s.timers, NowMs(clock))
    ensures LineWell(CollectDue(s, clock), waits, late, NowMs(clock))
  {
    hide Ordered;
    hide Regs;
    hide Done;
    hide Line;
    hide NowMs;
    hide DueCount;
    var a, b := s.timers[..k], s.timers[k..];
    LineCollect(s, clock, k);
    assert s.timers == a + b;
    OrderedCollect(Done(s), a, b, late);
    DueMembers(s.timers, k, NowMs(clock));
  }

  lemma CollectKeeps(w: World)
    requires Inv(w) && Enabled(w, Collect)
    ensures Inv(Apply(w, Collect))
  {
    hide Coherent;
    hide LineWell;
    hide CollectDue;
    hide NowMs;
    hide Follows;
    CollectCoherent(w.service, w.clock);
    CollectFollows(w.service, w.clock);
    CollectedWell(w.service, w.clock, w.waits, w.late, DueCount(w.service.timers, NowMs(w.clock)));
  }

  lemma LineCollect(s: Service, clock: nat, k: nat)
    requires k == DueCount(s.timers, NowMs(clock))
    ensures Line(CollectDue(s, clock)) == Line(s)
    ensures Done(CollectDue(s, clock)) == Done(s) + s.timers[..k]
  {
    var due, left := s.timers[..k], s.timers[k..];
    assert s.timers == due + left;
    Seqs.Assoc(TimersOf(s.fired), s.expiring, due);
    Seqs.Assoc(Done(s), due, left);
  }

  lemma LineRun(s: Service, clock: nat)
    requires s.expiring != []
    ensures Done(RunFirst(s, clock)) == Done(s) && s.expiring[0] in Done(s)
  {
    TimersOfAppend(s.fired, Firing(s.expiring[0], NowMs(clock)));
    assert s.expiring == [s.expiring[0]] + s.expiring[1..];
  }

  lemma RunNextKeeps(w: World)
    requires Inv(w) && Enabled(w, RunNext)
    ensures Inv(Apply(w, RunNext))
  {
    LineRun(w.service, w.clock);
  }

  lemma StepKeeps(w: World, step: Step)
    requires Inv(w) && Enabled(w, step)
    ensures Inv(Apply(w, step))
  {
    match step
    case Tick(ns) => TickKeeps(w, ns);
    case Register(slot, start, timeout) => RegisterKeeps(w, slot, start, timeout);
    case Cancel(id) => CancelKeeps(w, id);
    case Collect => CollectKeeps(w);
    case RunNext => RunNextKeeps(w);
  }

  predicate Runs(w: World, steps: seq<Step>)
    decreases |steps|
  {
    steps == [] || (Enabled(w, steps[0]) && Runs(Apply(w, steps[0]), steps[1..]))
  }

  function After(w: World, steps: seq<Step>): World
    requires Runs(w, steps)
    decreases |steps|
  {
    if steps == [] then w else After(Apply(w, steps[0]), steps[1..])
  }

  lemma {:induction false} RunKeeps(w: World, steps: seq<Step>)
    requires Inv(w) && Runs(w, steps)
    ensures Inv(After(w, steps))
    decreases |steps|
  {
    if steps != [] {
      StepKeeps(w, steps[0]);
      RunKeeps(Apply(w, steps[0]), steps[1..]);
    }
  }

  lemma StartInv()
    ensures Inv(START)
  {
    assert Regs(Line(IDLE)) == [];
    assert Upto(0) == [];
  }

  lemma ReachedInv(steps: seq<Step>)
    requires Runs(START, steps)
    ensures Inv(After(START, steps))
  {
    StartInv();
    RunKeeps(START, steps);
  }

  /** Every callback came in its turn. */
  ghost predicate FiredInOrder(fired: seq<Firing>) {
    forall i, j :: 0 <= i < j < |fired| ==> Before(fired[i].timer, fired[j].timer)
  }

  /** None came before its deadline, nor before the caller's timeout had elapsed on the caller's own
      clock readings. */
  ghost predicate FiredDue(fired: seq<Firing>, waits: seq<Wait>) {
    && Punctual(fired)
    && (forall i :: 0 <= i < |fired| ==>
          var f := fired[i];
          f.timer.reg < |waits| && f.at - waits[f.timer.reg].start >= waits[f.timer.reg].timeout)
  }

  lemma FiredIsDone(s: Service, i: nat)
    requires i < |s.fired|
    ensures i < |Done(s)| && Done(s)[i] == s.fired[i].timer && Done(s)[i] in Done(s)
  {
  }

  lemma InvFiresDue(w: World)
    requires Inv(w)
    ensures FiredDue(w.service.fired, w.waits)
  {
    hide Coherent;
    hide Ordered;
    hide Done;
    var fired := w.service.fired;
    forall i | 0 <= i < |fired| ensures Patient(fired[i].timer, w.waits) {
      FiredIsDone(w.service, i);
    }
  }

  /** Whole runs, with any timeouts: list and index are coherent at every point, and no success callback
      runs before its deadline or before its timeout has elapsed, nor is one recorded ahead of the clock. */
  lemma TimersFireDue(steps: seq<Step>)
    requires Runs(START, steps)
    ensures Coherent(After(START, steps).service)
    ensures FiredDue(After(START, steps).service.fired, After(START, steps).waits)
    ensures NotAhead(After(START, steps).service.fired, NowMs(After(START, steps).clock))
  {
    hide Inv;
    RunNotAhead(START, steps);
    ReachedInv(steps);
    InvFiresDue(After(START, steps));
    InvCoherent(After(START, steps));
  }

  lemma InvCoherent(w: World)
    requires Inv(w)
    ensures Coherent(w.service)
  {
  }

  lemma InvFollows(w: World)
    requires Inv(w)
    ensures Follows(w.service.timers, w.service.alarm, w.clock)
  {
  }

  /** Whole runs, with any timeouts: the kernel timer is armed if and only if a timer is live and the
      least deadline is not 0; only a least deadline of 0 stands between this and what callers rely on. */
  lemma AlarmExact(steps: seq<Step>)
    requires Runs(START, steps)
    ensures var w := After(START, steps); var s := w.service;
            && (s.alarm.Some? <==> s.timers != [] && s.timers[0].deadline != 0)
            && (Armed(s.timers, s.alarm, w.clock) <==> !ZeroFirst(s.timers))
  {
    hide Inv;
    hide Follows;
    hide Armed;
    var w := After(START, steps);
    ReachedInv(steps);
    InvFollows(w);
    FollowsExact(w.service.timers, w.service.alarm, w.clock);
  }

  /** No registration of the run asks for the millisecond 0 of the clock: a negative timeout of the
      clock's own reading, or a timeout of 0 in its first millisecond. */
  predicate NoneAtZero(w: World, steps: seq<Step>)
    requires Runs(w, steps)
    decreases |steps|
  {
    steps == [] || ((steps[0].Register? ==> NowMs(w.clock) + steps[0].timeout != 0)
                    && NoneAtZero(Apply(w, steps[0]), steps[1..]))
  }

  predicate NoZero(timers: seq<Timer>) {
    forall t :: t in timers ==> t.deadline != 0
  }

  lemma StepNoZero(w: World, step: Step)
    requires Enabled(w, step) && NoZero(w.service.timers)
    requires step.Register? ==> NowMs(w.clock) + step.timeout != 0
    ensures NoZero(Apply(w, step).service.timers)
  {
    hide NowMs;
    hide ToMs;
    hide FromMs;
    hide Overtaken;
    hide Arm;
    match step
    case Register(slot, _, timeout) =>
      MsExact(timeout);
      InsertMembers(w.service.timers, Timer(w.service.idAllocator, |w.waits|, NowMs(w.clock) + timeout));
    case _ =>
  }

  lemma {:induction false} RunNoZero(w: World, steps: seq<Step>)
    requires Runs(w, steps) && NoneAtZero(w, steps) && NoZero(w.service.timers)
    ensures NoZero(After(w, steps).service.timers)
    decreases |steps|
  {
    hide NoZero;
    hide Apply;
    hide Enabled;
    if steps != [] {
      StepNoZero(w, steps[0]);
      RunNoZero(Apply(w, steps[0]), steps[1..]);
    }
  }

  /** In the caller's terms: if no registration asks for millisecond 0, the kernel timer is armed for the
      least deadline, in time, exactly while a timer is live. */
  lemma AlwaysArmed(steps: seq<Step>)
    requires Runs(START, steps) && NoneAtZero(START, steps)
    ensures var w := After(START, steps); var s := w.service;
            Armed(s.timers, s.alarm, w.clock) && (s.alarm.Some? <==> s.timers != [])
  {
    hide Inv;
    RunNoZero(START, steps);
    AlarmExact(steps);
  }

  lemma ZeroDisarms(s: Service, reg: nat, timeout: int, clock: nat)
    requires s.timers == [] && s.ids == map[] && NowMs(clock) + timeout == 0
    ensures var s', t := RegisterTimer(s, -1, reg, timeout, clock).0, Timer(s.idAllocator, reg, 0);
            s'.timers == [t] && s'.ids == map[t.id := t] && s'.alarm == None && s'.idAllocator == s.idAllocator + 1
  {
    hide NowMs;
    assert Insert([], Timer(s.idAllocator, reg, 0)) == [Timer(s.idAllocator, reg, 0)];
  }

  lemma BehindStays(s: Service, reg: nat, timeout: int, clock: nat, first: Timer)
    requires s.timers == [first] && s.ids.Keys == {first.id} && first.id >= 0 && s.idAllocator != first.id
    requires first.deadline <= NowMs(clock) + timeout
    ensures var s' := RegisterTimer(s, -1, reg, timeout, clock).0;
            s'.timers == [first, Timer(s.idAllocator, reg, NowMs(clock) + timeout)] && s'.alarm == s.alarm
  {
    hide NowMs;
    var deadline := NowMs(clock) + timeout;
    assert UpperBound([first][1..], deadline) == 0 && UpperBound([first], deadline) == 1;
  }

  /** A timer whose timeout is minus the clock's reading, 5 ms here, disarms the kernel timer: nothing wakes
      the service for it, however long it waits, nor for the timer of 100 ms registered behind it. */
  lemma ZeroDeadlineSleeps(ns: nat)
    ensures var steps := [Tick(5 * NS_PER_MS), Register(-1, 5, -5), Register(-1, 5, 100), Tick(ns)];
            && Runs(START, steps)
            && After(START, steps).service.timers == [Timer(0, 0, 0), Timer(1, 1, 105)]
            && After(START, steps).service.alarm == None
  {
    hide ToMs;
    hide FromMs;
    hide Runs;
    hide After;
    hide RegisterTimer;
    hide Overtaken;
    MsExact(-5);
    MsExact(100);
    var a := Apply(START, Tick(5 * NS_PER_MS));
    var b := Apply(a, Register(-1, 5, -5));
    ZeroDisarms(a.service, 0, -5, a.clock);
    var c := Apply(b, Register(-1, 5, 100));
    BehindStays(b.service, 1, 100, b.clock, Timer(0, 0, 0));
    FourSteps(START, [Tick(5 * NS_PER_MS), Register(-1, 5, -5), Register(-1, 5, 100), Tick(ns)],
              a, b, c, Apply(c, Tick(ns)));
  }

  lemma FiredAreDone(s: Service)
    ensures |s.fired| <= |Done(s)| && forall i :: 0 <= i < |s.fired| ==> Done(s)[i] == s.fired[i].timer
  {
  }

  /** A registration in `late` breaks the order when it fires. */
  lemma LateFires(fired: seq<Firing>, done: seq<Timer>, timers: seq<Timer>, late: set<nat>, j: nat)
    requires |fired| <= |done| && forall i :: 0 <= i < |fired| ==> done[i] == fired[i].timer
    requires Ordered(done, timers, late) && j < |fired| && fired[j].timer.reg in late
    ensures !FiredInOrder(fired)
  {
    var i :| 0 <= i < |done[..j]| && done[..j][i].deadline > done[j].deadline;
    assert !Before(fired[i].timer, fired[j].timer);
  }

  lemma OthersFire(fired: seq<Firing>, done: seq<Timer>, timers: seq<Timer>, late: set<nat>)
    requires |fired| <= |done| && forall i :: 0 <= i < |fired| ==> done[i] == fired[i].timer
    requires Ordered(done, timers, late) && forall f :: f in fired ==> f.timer.reg !in late
    ensures FiredInOrder(fired)
  {
    hide Before;
    forall i, j | 0 <= i < j < |fired| ensures Before(fired[i].timer, fired[j].timer) {
      assert fired[j] in fired;
      assert Before(done[i], done[j]);
    }
  }

  lemma InvFiresInOrder(w: World)
    requires Inv(w)
    ensures FiredInOrder(w.service.fired) <==> forall f :: f in w.service.fired ==> f.timer.reg !in w.late
  {
    hide Coherent;
    hide Done;
    hide Ordered;
    hide FiredInOrder;
    hide Account;
    hide Punctual;
    hide Patient;
    var fired, done := w.service.fired, Done(w.service);
    FiredAreDone(w.service);
    if f :| f in fired && f.timer.reg in w.late {
      var j :| 0 <= j < |fired| && fired[j] == f;
      LateFires(fired, done, w.service.timers, w.late, j);
    } else {
      OthersFire(fired, done, w.service.timers, w.late);
    }
  }

  /** Whole runs, with any timeouts: success callbacks are strictly ordered by deadline and registration
      if and only if none of them belongs to a registration that was overtaken when it was made. */
  lemma OrderExact(steps: seq<Step>)
    requires Runs(START, steps)
    ensures var w := After(START, steps);
            FiredInOrder(w.service.fired) <==> forall f :: f in w.service.fired ==> f.timer.reg !in w.late
  {
    hide Inv;
    hide FiredInOrder;
    ReachedInv(steps);
    InvFiresInOrder(After(START, steps));
  }

  /** Pending timers carry the ids that were given out for them. */
  ghost predicate Labelled(w: World) {
    && |w.given| == |w.waits|
    && forall t :: t in w.service.timers ==> t.reg < |w.given| && w.given[t.reg] == t.id
  }

  lemma StepLabelled(w: World, step: Step)
    requires Inv(w) && Enabled(w, step) && Labelled(w)
    ensures Labelled(Apply(w, step)) && w.given <= Apply(w, step).given
    ensures forall r :: r in Apply(w, step).service.canceled ==>
              r in w.service.canceled || (r < |w.given| && step == Cancel(w.given[r]))
  {
    hide LineWell;
    hide Follows;
    hide Overtaken;
    hide RegisterTimer;
    hide CancelTimer;
    hide ToMs;
    hide FromMs;
    var s := w.service;
    match step
    case Register(slot, _, timeout) => RegisterPuts(s, slot, |w.waits|, ToMs(FromMs(timeout)), w.clock);
    case Cancel(id) =>
      if id in s.ids {
        CancelTakes(s, id, w.clock);
      } else {
        CancelUnknown(s, id, w.clock);
      }
    case Collect => DueMembers(s.timers, DueCount(s.timers, NowMs(w.clock)), NowMs(w.clock));
    case _ =>
  }

  lemma {:induction false} RunNamed(w: World, steps: seq<Step>)
    requires Inv(w) && Runs(w, steps) && Labelled(w)
    ensures w.given <= After(w, steps).given
    ensures var w' := After(w, steps);
            forall r :: r in w'.service.canceled ==>
              r in w.service.canceled
              || (r < |w'.given| && exists k :: 0 <= k < |steps| && steps[k] == Cancel(w'.given[r]))
    decreases |steps|
  {
    hide Inv;
    hide Labelled;
    hide Apply;
    hide Enabled;
    if steps != [] {
      StepKeeps(w, steps[0]);
      StepLabelled(w, steps[0]);
      var w1, w' := Apply(w, steps[0]), After(w, steps);
      RunNamed(w1, steps[1..]);
      forall r | r in w'.service.canceled && r !in w.service.canceled
        ensures r < |w'.given| && exists k :: 0 <= k < |steps| && steps[k] == Cancel(w'.given[r])
      {
        if r in w1.service.canceled {
          assert steps[0] == Cancel(w'.given[r]);
        } else {
          var k :| 0 <= k < |steps[1..]| && steps[1..][k] == Cancel(w'.given[r]);
          assert steps[k + 1] == Cancel(w'.given[r]);
        }
      }
    }
  }

  /** Whole runs: every registration that was told of a cancellation had the id it was given named by one. */
  lemma CanceledByName(steps: seq<Step>)
    requires Runs(START, steps)
    ensures var w := After(START, steps);
            forall r :: r in w.service.canceled ==>
              r < |w.given| && exists k :: 0 <= k < |steps| && steps[k] == Cancel(w.given[r])
  {
    hide Inv;
    hide Runs;
    hide After;
    StartInv();
    RunNamed(START, steps);
  }

  /** No callback is recorded ahead of the clock. */
  ghost predicate NotAhead(fired: seq<Firing>, now: int) {
    forall i :: 0 <= i < |fired| ==> fired[i].at <= now
  }

  lemma {:induction false} RunNotAhead(w: World, steps: seq<Step>)
    requires Runs(w, steps) && NotAhead(w.service.fired, NowMs(w.clock))
    ensures NotAhead(After(w, steps).service.fired, NowMs(After(w, steps).clock))
    decreases |steps|
  {
    hide RegisterTimer;
    hide CancelTimer;
    hide CollectDue;
    hide Overtaken;
    if steps != [] {
      StepNotAhead(w, steps[0]);
      RunNotAhead(Apply(w, steps[0]), steps[1..]);
    }
  }

  lemma StepNotAhead(w: World, step: Step)
    requires Enabled(w, step) && NotAhead(w.service.fired, NowMs(w.clock))
    ensures NotAhead(Apply(w, step).service.fired, NowMs(Apply(w, step).clock))
  {
    hide Overtaken;
    hide Insert;
    hide Erase;
    if step.Tick? {
      TickLater(w.clock, step.ns);
    }
  }

  lemma TickLater(clock: nat, ns: nat)
    ensures NowMs(clock) <= NowMs(clock + ns)
  {
    assert clock == NowMs(clock) * NS_PER_MS + clock % NS_PER_MS;
    assert clock + ns == NowMs(clock + ns) * NS_PER_MS + (clock + ns) % NS_PER_MS;
  }

  predicate NoNegativeTimeouts(steps: seq<Step>) {
    forall i :: 0 <= i < |steps| && steps[i].Register? ==> steps[i].timeout >= 0
  }

  lemma NotOvertaken(w: World, timeout: int)
    requires Inv(w) && timeout >= 0
    ensures !Overtaken(Done(w.service), NowMs(w.clock) + timeout)
  {
    hide Coherent;
    hide Ordered;
    hide Done;
    var done := Done(w.service);
    assert forall i :: 0 <= i < |done| ==> done[i] in done;
  }

  lemma {:induction false} NeverLate(w: World, steps: seq<Step>)
    requires Inv(w) && Runs(w, steps) && w.late == {} && NoNegativeTimeouts(steps)
    ensures After(w, steps).late == {}
    decreases |steps|
  {
    hide Inv;
    hide Overtaken;
    hide Enabled;
    if steps != [] {
      StepKeeps(w, steps[0]);
      if steps[0].Register? {
        NotOvertaken(w, steps[0].timeout);
      }
      assert forall i :: 0 <= i < |steps[1..]| ==> steps[1..][i] == steps[i + 1];
      NeverLate(Apply(w, steps[0]), steps[1..]);
    }
  }

  /** Timeouts that are not negative always give that order, the clock not going back. */
  lemma TimersFireInOrder(steps: seq<Step>)
    requires Runs(START, steps) && NoNegativeTimeouts(steps)
    ensures FiredInOrder(After(START, steps).service.fired)
  {
    hide Inv;
    hide Runs;
    hide After;
    hide NoNegativeTimeouts;
    hide FiredInOrder;
    StartInv();
    NeverLate(START, steps);
    OrderExact(steps);
  }

  /** A negative timeout can break it: at 5 ms a timer with timeout 0 runs, then one registered with
      timeout -3 runs behind it, although its deadline is 2. */
  lemma NegativeTimeoutOvertaken() returns (steps: seq<Step>)
    ensures Runs(START, steps) && !FiredInOrder(After(START, steps).service.fired)
  {
    var first := [Tick(5 * NS_PER_MS), Register(-1, 5, 0), Collect, RunNext];
    var t0, t1 := Timer(0, 0, 5), Timer(1, 1, 2);
    var w1 := FiresAlone(START, 5 * NS_PER_MS, 5, 0, t0);
    var w2 := FiresAlone(w1, 0, 5, -3, t1);
    var second := [Tick(0), Register(-1, 5, -3), Collect, RunNext];
    steps := first + second;
    RunsJoin(START, first, second);
    assert !Before(w2.service.fired[0].timer, w2.service.fired[1].timer);
  }

  lemma {:induction false} RunsJoin(w: World, a: seq<Step>, b: seq<Step>)
    requires Runs(w, a) && Runs(After(w, a), b)
    ensures Runs(w, a + b) && After(w, a + b) == After(After(w, a), b)
    decreases |a|
  {
    hide Apply;
    hide Enabled;
    if a == [] {
      assert a + b == b;
    } else {
      assert (a + b)[1..] == a[1..] + b;
      RunsJoin(Apply(w, a[0]), a[1..], b);
    }
  }

  lemma RegisterAlone(s: Service, reg: nat, timeout: int, clock: nat, t: Timer)
    requires s.timers == [] && s.ids == map[] && t == Timer(s.idAllocator, reg, NowMs(clock) + timeout)
    ensures var s' := RegisterTimer(s, -1, reg, timeout, clock).0;
            s' == s.(timers := [t], ids := map[t.id := t], idAllocator := s.idAllocator + 1, alarm := s'.alarm)
  {
    hide Arm;
    hide NowMs;
    assert Insert([], t) == [t];
  }

  lemma CollectAlone(s: Service, clock: nat, t: Timer)
    requires s.timers == [t] && s.ids == map[t.id := t] && s.expiring == [] && t.deadline <= NowMs(clock)
    ensures var s' := CollectDue(s, clock);
            s' == s.(timers := [], ids := map[], expiring := [t], alarm := s'.alarm)
  {
    hide Arm;
    hide NowMs;
    var now := NowMs(clock);
    assert [t][1..] == [] && DueCount([], now) == 0 && DueCount([t], now) == 1;
    assert [t][..1] == [t] && IdsOf([t]) == {t.id} by {
      assert [t][0].id in IdsOf([t]);
    }
  }

  /** A timer that is registered with none waiting, and is due at once, is the next to run. */
  lemma FiresAlone(w: World, ns: nat, now: nat, timeout: int, t: Timer) returns (w': World)
    requires w.service.timers == [] && w.service.ids == map[] && w.service.expiring == []
    requires now == NowMs(w.clock + ns) && timeout <= 0
    requires t == Timer(w.service.idAllocator, |w.waits|, now + timeout)
    ensures Runs(w, [Tick(ns), Register(-1, now, timeout), Collect, RunNext])
    ensures w' == After(w, [Tick(ns), Register(-1, now, timeout), Collect, RunNext])
    ensures w'.service.timers == [] && w'.service.ids == map[] && w'.service.expiring == []
    ensures w'.service.fired == w.service.fired + [Firing(t, now)] && w'.clock == w.clock + ns
    ensures w'.service.idAllocator == w.service.idAllocator + 1 && |w'.waits| == |w.waits| + 1
  {
    hide NowMs;
    hide Overtaken;
    hide ToMs;
    hide FromMs;
    hide RegisterTimer;
    hide CollectDue;
    hide Runs;
    hide After;
    MsExact(timeout);
    var a := Apply(w, Tick(ns));
    RegisterAlone(a.service, |w.waits|, timeout, a.clock, t);
    var b := Apply(a, Register(-1, now, timeout));
    CollectAlone(b.service, b.clock, t);
    var c := Apply(b, Collect);
    w' := Apply(c, RunNext);
    FourSteps(w, [Tick(ns), Register(-1, now, timeout), Collect, RunNext], a, b, c, w');
  }

  lemma FourSteps(w: World, steps: seq<Step>, a: World, b: World, c: World, d: World)
    requires |steps| == 4 && Enabled(w, steps[0]) && a == Apply(w, steps[0])
    requires Enabled(a, steps[1]) && b == Apply(a, steps[1]) && Enabled(b, steps[2]) && c == Apply(b, steps[2])
    requires Enabled(c, steps[3]) && d == Apply(c, steps[3])
    ensures Runs(w, steps) && After(w, steps) == d
  {
    hide Apply;
    hide Enabled;
    var s1, s2, s3 := steps[1..], steps[1..][1..], steps[1..][1..][1..];
    assert s1[0] == steps[1] && s2[0] == steps[2] && s3[0] == steps[3] && s3[1..] == [];
    assert Runs(d, []) && After(d, []) == d;
    assert Runs(c, s3) && After(c, s3) == d;
    assert Runs(b, s2) && After(b, s2) == d;
    assert Runs(a, s1) && After(a, s1) == d;
  }

  lemma {:induction false} UptoOnce(n: nat, r: nat)
    ensures multiset(Upto(n))[r] == if r < n then 1 else 0
  {
    if n > 0 {
      UptoGrows(n - 1);
      UptoOnce(n - 1, r);
    }
  }

  lemma AccountSplits(s: Service)
    ensures Account(s) == multiset(Regs(TimersOf(s.fired))) + multiset(Regs(s.expiring)) + multiset(Regs(s.timers))
                          + multiset(s.canceled) + multiset(s.refused)
  {
    RegsAppend(Done(s), s.timers);
    RegsAppend(TimersOf(s.fired), s.expiring);
  }

  /** How often registration `r` has been called back or is still pending. */
  function Occurrences(s: Service, r: nat): nat {
    multiset(Regs(TimersOf(s.fired)))[r] + multiset(s.canceled)[r] + multiset(s.refused)[r]
    + multiset(Regs(s.expiring))[r] + multiset(Regs(s.timers))[r]
  }

  lemma InvOccurrences(w: World, r: nat)
    requires Inv(w)
    ensures Occurrences(w.service, r) == if r < |w.waits| then 1 else 0
  {
    UptoOnce(|w.waits|, r);
    AccountSplits(w.service);
  }

  /** Whole runs: every registration has had exactly one callback or is still pending, never both. */
  lemma EachRegistrationOnce(steps: seq<Step>, r: nat)
    requires Runs(START, steps)
    ensures var w := After(START, steps);
            Occurrences(w.service, r) == if r < |w.waits| then 1 else 0
  {
    ReachedInv(steps);
    InvOccurrences(After(START, steps), r);
  }
}
