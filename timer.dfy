/**
 * The system-timer driver of timer.c: the 32-bit compare value that
 * re-arms the tick, and the 64-bit time read from the two counter halves.
 * Register reads are parameters; register writes are appended to a log.
 */
module Timer {
  import opened Bits
  import opened Sched

  /** The tick period in timer counts (microseconds). */
  const INTERVAL: nat := 200000

  /** The peripheral base of the BCM2837 and the system-timer registers written. */
  const PBASE: nat := 0x3F00_0000
  const SYS_TIMER_BASE: nat := PBASE + 0x3000
  const TIMER_CS: nat := SYS_TIMER_BASE + 0x0
  const TIMER_C1: nat := SYS_TIMER_BASE + 0x10
  /** TIMER_CS_M1: writing it clears the match flag of compare 1. */
  const TIMER_CS_M1: nat := 2

  /** `(int)(a - b) > 0` on `unsigned int`: `a` lies ahead of `b` on the 32-bit circle. */
  predicate Ahead(a: nat, b: nat)
    requires a < TWO_32 && b < TWO_32
  {
    ToInt32(Wrap32(a - b)) > 0
  }

  /**
   * The compare value handle_timer_irq computes from the old one `cur` and
   * the counter `now`: one interval on from the old deadline, unless that
   * is not ahead of `now`, in which case one interval on from `now`.
   */
  function Rearm(cur: nat, now: nat): (r: nat)
    requires cur < TWO_32 && now < TWO_32
    ensures r < TWO_32
  {
    var next := Wrap32(cur + INTERVAL);
    if !Ahead(next, now) then Wrap32(now + INTERVAL) else next
  }

  /** The new compare value always lies ahead of `now`: the next match cannot be missed. */
  lemma RearmAhead(cur: nat, now: nat)
    requires cur < TWO_32 && now < TWO_32
    ensures Ahead(Rearm(cur, now), now)
  {
    var next := Wrap32(cur + INTERVAL);
    if !Ahead(next, now) {
      var r := Wrap32(now + INTERVAL);
      assert Wrap32(r - now) == INTERVAL by {
        if now + INTERVAL < TWO_32 {
          assert r == now + INTERVAL;
        } else {
          assert r == now + INTERVAL - TWO_32;
        }
      }
    }
  }

  /**
   * No drift: while the old deadline plus one interval is still ahead, the
   * compare advances by exactly one interval; otherwise it restarts one
   * interval after `now`.
   */
  lemma RearmNoDrift(cur: nat, now: nat)
    requires cur < TWO_32 && now < TWO_32
    ensures Ahead(Wrap32(cur + INTERVAL), now) ==> Wrap32(Rearm(cur, now) - cur) == INTERVAL
    ensures !Ahead(Wrap32(cur + INTERVAL), now) ==> Wrap32(Rearm(cur, now) - now) == INTERVAL
  {
    var next := Wrap32(cur + INTERVAL);
    if Ahead(next, now) {
      assert Wrap32(next - cur) == INTERVAL by {
        if cur + INTERVAL < TWO_32 {
          assert next == cur + INTERVAL;
        } else {
          assert next == cur + INTERVAL - TWO_32;
        }
      }
    } else {
      var r := Wrap32(now + INTERVAL);
      assert Wrap32(r - now) == INTERVAL by {
        if now + INTERVAL < TWO_32 {
          assert r == now + INTERVAL;
        } else {
          assert r == now + INTERVAL - TWO_32;
        }
      }
    }
  }

  /** `((uint64_t)hi << 32) | lo`: the 64-bit time from its two halves. */
  function Combine(hi: nat, lo: nat): (t: nat)
    requires hi < TWO_32 && lo < TWO_32
    ensures t < TWO_64
  {
    hi * TWO_32 + lo
  }

  /** The combination loses nothing: both halves come back out of the 64-bit time. */
  lemma CombineRoundTrip(hi: nat, lo: nat)
    requires hi < TWO_32 && lo < TWO_32
    ensures Combine(hi, lo) / TWO_32 == hi && Combine(hi, lo) % TWO_32 == lo
  {
    var t := Combine(hi, lo);
    assert t == hi * TWO_32 + lo;
  }

  /** One pass of the read loop of time_since_boot: CHI, then CLO, then CHI again. */
  datatype Sample = Sample(hi1: nat, lo: nat, hi2: nat)

  predicate SampleOk(s: Sample) {
    s.hi1 < TWO_32 && s.lo < TWO_32 && s.hi2 < TWO_32
  }

  /** The two reads of the high half agree: CLO did not wrap between them. */
  predicate Consistent(s: Sample) {
    s.hi1 == s.hi2
  }

  /**
   * time_since_boot over the register values the passes would read: passes
   * are retried until both reads of the high half agree, and the time of
   * the first such pass is returned.
   */
  method TimeSinceBoot(passes: seq<Sample>) returns (t: nat, k: nat)
    requires forall i :: 0 <= i < |passes| ==> SampleOk(passes[i])
    requires exists i :: 0 <= i < |passes| && Consistent(passes[i])
    ensures k < |passes| && SampleOk(passes[k]) && Consistent(passes[k]) && (forall j :: 0 <= j < k ==> !Consistent(passes[j]))
    ensures t == Combine(passes[k].hi1, passes[k].lo)
    ensures t / TWO_32 == passes[k].hi2 && t % TWO_32 == passes[k].lo
  {
    k := 0;
    var hi1 := passes[0].hi1;
    var lo := passes[0].lo;
    var hi2 := passes[0].hi2;
    while hi1 != hi2
      invariant k < |passes| && hi1 == passes[k].hi1 && lo == passes[k].lo && hi2 == passes[k].hi2
      invariant forall j :: 0 <= j < k ==> !Consistent(passes[j])
      invariant exists i :: k <= i < |passes| && Consistent(passes[i])
      decreases |passes| - k
    {
      k := k + 1;
      hi1 := passes[k].hi1;
      lo := passes[k].lo;
      hi2 := passes[k].hi2;
    }
    t := hi1 * TWO_32 + lo;
    CombineRoundTrip(hi1, lo);
  }

  /**
   * The driver's state: the static curVal, and the log of register writes
   * (address, value) in the order they were made.
   */
  class SystemTimer {
    var curVal: nat
    var writes: seq<(nat, nat)>

    ghost predicate Valid()
      reads this
    {
      curVal < TWO_32
    }

    constructor ()
      ensures Valid() && curVal == 0 && writes == []
    {
      curVal := 0;
      writes := [];
    }

    /** timer_init: the first deadline one interval after the counter value `clo`. */
    method Init(clo: nat)
      requires Valid() && clo < TWO_32
      modifies this
      ensures Valid() && curVal == Wrap32(clo + INTERVAL) && Ahead(curVal, clo)
      ensures writes == old(writes) + [(TIMER_C1, curVal)]
    {
      curVal := (clo + INTERVAL) % TWO_32;
      RearmAhead(clo, clo);
      assert Rearm(clo, clo) == curVal;
      writes := writes + [(TIMER_C1, curVal)];
    }

    /**
     * handle_timer_irq at counter value `now`: re-arm compare 1 ahead of
     * `now`, clear its match flag, then run timer_tick once.
     */
    method HandleTimerIrq(now: nat, k: Scheduler) returns (rescheduled: bool)
      requires Valid() && now < TWO_32 && k.Valid()
      requires k.tasks[k.current].counter - 1 <= 0 && k.tasks[k.current].preemptCount <= 0 ==>
        CanSchedule(k.tasks[k.current := k.tasks[k.current].(counter := 0)])
      modifies this, k
      ensures Valid() && curVal == Rearm(old(curVal), now) && Ahead(curVal, now)
      ensures writes == old(writes) + [(TIMER_C1, curVal), (TIMER_CS, TIMER_CS_M1)]
      ensures k.Valid()
      ensures rescheduled <==> old(k.tasks)[old(k.current)].counter - 1 <= 0 && old(k.tasks)[old(k.current)].preemptCount <= 0
      ensures !rescheduled ==>
        k.tasks == old(k.tasks)[old(k.current) := old(k.tasks)[old(k.current)].(counter := old(k.tasks)[old(k.current)].counter - 1)] &&
        k.current == old(k.current)
      ensures rescheduled ==>
        var ts := old(k.tasks)[old(k.current) := old(k.tasks)[old(k.current)].(counter := 0)];
        IsPick(Decided(ts), k.current) &&
        k.tasks == AddPreempt(AddPreempt(Decided(ts), old(k.current), 1), k.current, -1)
    {
      var v := (curVal + INTERVAL) % TWO_32;
      if ToInt32((v - now) % TWO_32) <= 0 {
        v := (now + INTERVAL) % TWO_32;
      }
      curVal := v;
      RearmAhead(old(curVal), now);
      writes := writes + [(TIMER_C1, curVal)];
      writes := writes + [(TIMER_CS, TIMER_CS_M1)];
      rescheduled := k.TimerTick();
    }
  }
}
