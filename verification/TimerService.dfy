/** The timer service and the one-shot timer on top of it, as the library runs them. */
module TimerServices {
  import opened Wrappers
  import opened TimerModel

  datatype ErrCode = SUCCESS | EOPCANCELED | EOPEXISTS

  class TimerService {
    var timers: seq<Timer>
    var ids: map<int, Timer>
    var idAllocator: int
    var alarm: Option<Alarm>
    var expiring: seq<Timer>
    var fired: seq<Firing>
    var canceled: seq<nat>
    var refused: seq<nat>

    ghost function Value(): Service
      reads this
    {
      Service(timers, ids, idAllocator, alarm, expiring, fired, canceled, refused)
    }

    constructor ()
      ensures Value() == IDLE
    {
      timers, ids, idAllocator, alarm := [], map[], 0, None;
      expiring, fired, canceled, refused := [], [], [], [];
    }

    method UpdateTimerfd(absoluteTime: int, clock: nat)
      modifies this`alarm
      ensures alarm == Arm(absoluteTime, clock)
    {
      alarm := None;
      if absoluteTime != 0 {
        var now := NowMs(clock);
        if now >= absoluteTime {
          alarm := Some(Alarm(absoluteTime, clock + 1));
        } else {
          var distance := absoluteTime - now;
          alarm := Some(Alarm(absoluteTime, clock + distance / 1000 * 1000000000 + distance % 1000 * NS_PER_MS));
        }
      }
    }

    method UpdateForFirst(clock: nat)
      modifies this`alarm
      ensures alarm == ArmFirst(timers, clock)
    {
      if timers == [] {
        UpdateTimerfd(0, clock);
      } else {
        UpdateTimerfd(timers[0].deadline, clock);
      }
    }

    /** Returns the new value of the caller's id variable, and the code of a callback that is run
        at once, if there is one. */
    method RegisterTimer(slot: int, reg: nat, timeout: Timespec, clock: nat)
      returns (id: int, callback: Option<ErrCode>)
      modifies this
      ensures (Value(), id) == TimerModel.RegisterTimer(old(Value()), slot, reg, ToMs(timeout), clock)
      ensures callback == if slot in old(ids) then Some(EOPEXISTS) else None
    {
      if slot in ids {
        refused := refused + [reg];
        return slot, Some(EOPEXISTS);
      }
      id := idAllocator;
      idAllocator := idAllocator + 1;
      var timer := Timer(id, reg, NowMs(clock) + ToMs(timeout));
      timers := Insert(timers, timer);
      ids := ids[id := timer];
      if timers[0] == timer {
        UpdateTimerfd(timer.deadline, clock);
      }
      callback := None;
    }

    method CancelTimer(id: int, clock: nat) returns (callback: Option<ErrCode>)
      modifies this
      ensures Value() == TimerModel.CancelTimer(old(Value()), id, clock)
      ensures callback == if id in old(ids) then Some(EOPCANCELED) else None
    {
      if id !in ids {
        return None;
      }
      var timer := ids[id];
      var needUpdate := timers != [] && timers[0] == timer;
      timers := Erase(timers, timer);
      ids := ids - {id};
      if needUpdate {
        UpdateForFirst(clock);
      }
      canceled := canceled + [timer.reg];
      callback := Some(EOPCANCELED);
    }

    /** The first half of the expiry callback: collects the due timers and re-arms. */
    method CollectExpired(clock: nat)
      modifies this
      ensures Value() == CollectDue(old(Value()), clock)
    {
      var now := NowMs(clock);
      var collected: seq<Timer> := [];
      var k := 0;
      ghost var due := DueCount(timers, now);
      while k < |timers|
        invariant 0 <= k <= due
        invariant timers == old(timers) && alarm == old(alarm)
        invariant collected == timers[..k]
        invariant ids == old(ids) - IdsOf(timers[..k])
        invariant Value() == old(Value()).(ids := ids)
      {
        if timers[k].deadline > now {
          break;
        }
        collected := collected + [timers[k]];
        ids := ids - {timers[k].id};
        IdsOfGrows(timers, k);
        k := k + 1;
      }
      timers := timers[k..];
      UpdateForFirst(clock);
      expiring := expiring + collected;
    }

    static lemma IdsOfGrows(timers: seq<Timer>, k: nat)
      requires k < |timers|
      ensures IdsOf(timers[..k + 1]) == IdsOf(timers[..k]) + {timers[k].id}
    {
      assert timers[..k + 1] == timers[..k] + [timers[k]];
      var a, b := timers[..k], timers[..k + 1];
      assert forall i :: 0 <= i < k ==> b[i] == a[i];
      assert b[k] == timers[k];
      forall x | x in IdsOf(b) ensures x in IdsOf(a) + {timers[k].id} {
        var i :| 0 <= i < |b| && b[i].id == x;
        assert i < k ==> a[i].id in IdsOf(a);
      }
      forall x | x in IdsOf(a) ensures x in IdsOf(b) {
        var i :| 0 <= i < |a| && a[i].id == x;
        assert b[i].id in IdsOf(b);
      }
    }

    /** The second half, one turn of its loop: the next collected timer's callback. */
    method RunExpired(clock: nat) returns (reg: nat)
      requires expiring != []
      modifies this
      ensures Value() == RunFirst(old(Value()), clock) && reg == old(expiring)[0].reg
    {
      var timer := expiring[0];
      expiring := expiring[1..];
      fired := fired + [Firing(timer, NowMs(clock))];
      reg := timer.reg;
    }
  }

  /** A timer object: one timeout, one id slot in the service. */
  class SteadyTimer {
    const timeout: int
    const service: TimerService
    var timerId: int

    constructor (service: TimerService, timeout: int)
      ensures this.service == service && this.timeout == timeout && timerId == -1
    {
      this.service := service;
      this.timeout := timeout;
      timerId := -1;
    }

    /** `start` is the clock reading bound into the callback, taken before the registration. */
    method AsyncWait(reg: nat, clock: nat) returns (start: nat, callback: Option<ErrCode>)
      modifies this, service
      ensures start == NowMs(clock)
      ensures (service.Value(), timerId) == RegisterTimer(old(service.Value()), old(timerId), reg, timeout, clock)
      ensures callback == if old(timerId) in old(service.ids) then Some(EOPEXISTS) else None
    {
      MsExact(timeout);
      var spec := Timespec(Quot(timeout, 1000), Rem(timeout, 1000) * NS_PER_MS);
      start := NowMs(clock);
      timerId, callback := service.RegisterTimer(timerId, reg, spec, clock);
    }

    method Cancel(clock: nat) returns (callback: Option<ErrCode>)
      modifies this, service
      ensures service.Value() == CancelTimer(old(service.Value()), old(timerId), clock)
      ensures timerId == -1
      ensures callback == if old(timerId) in old(service.ids) then Some(EOPCANCELED) else None
    {
      callback := service.CancelTimer(timerId, clock);
      timerId := -1;
    }

    /** What the caller's callback is given: the elapsed milliseconds on success, 0 otherwise. */
    static function Reported(start: nat, code: ErrCode, clock: nat): int {
      if code == SUCCESS then NowMs(clock) - start else 0
    }
  }
  /** What is reported on success is the time between the two clock readings, to the millisecond; nothing is
      reported with an error. */
  lemma ElapsedExact(begin: nat, end: nat)
    requires begin <= end
    ensures var e := SteadyTimer.Reported(NowMs(begin), SUCCESS, end);
            (e - 1) * 1_000_000 < end - begin < (e + 1) * 1_000_000
    ensures SteadyTimer.Reported(NowMs(begin), EOPCANCELED, end) == 0
    ensures SteadyTimer.Reported(NowMs(begin), EOPEXISTS, end) == 0
  {
    assert begin == NowMs(begin) * 1_000_000 + begin % 1_000_000;
    assert end == NowMs(end) * 1_000_000 + end % 1_000_000;
  }

  /** In every run, what a success callback reports at its own moment or later is at least the
      timeout that its caller asked for. */
  lemma ReportsTimeout(steps: seq<Step>, i: nat, clock: nat)
    requires Runs(START, steps)
    requires i < |After(START, steps).service.fired| && NowMs(clock) >= After(START, steps).service.fired[i].at
    ensures var w := After(START, steps);
            var reg := w.service.fired[i].timer.reg;
            reg < |w.waits| && SteadyTimer.Reported(w.waits[reg].start, SUCCESS, clock) >= w.waits[reg].timeout
  {
    TimersFireDue(steps);
  }
}
