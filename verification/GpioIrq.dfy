// The kernel driver: interrupt handler, semaphore and the wait with a timeout in milliseconds.
//
// Interrupts arrive at any time, also while a waiter sleeps; a sleeper whose timeout expires wakes
// at the tick it asked for, or up to `latency` nanoseconds later.
module GpioIrq {
  import opened Words

  const ETIME := 62
  const EINVAL := 22
  const ENOTTY := 25
  const EINTR := 4

  const IRQMODDEV_WAIT_IRQ := 41
  const IRQMODDEV_DOWN_TIMEOUT := 42

  const FAC_MS2NS := 1_000_000
  const FAC_US2NS := 1_000

  // ---- time arithmetic ----

  /** (long long)(fac_ms2ns * timeout_ms) where unsigned long has `ulong` values: the product wraps
      in unsigned long and is then read as a signed 64-bit number. */
  function RestNs(ulong: nat, timeoutMs: int): int
    requires ulong == TWO_32 || ulong == TWO_64
  {
    ToSigned64((FAC_MS2NS * timeoutMs) % ulong)
  }

  function ToSigned64(u: int): int
  {
    var w := u % TWO_64;
    if w >= TWO_63 then w - TWO_64 else w
  }

  /** Microseconds to jiffies of jiffyUs microseconds, rounding up. */
  function UsecsToJiffies(usecs: nat, jiffyUs: nat): nat
    requires jiffyUs > 0
  {
    (usecs + jiffyUs - 1) / jiffyUs
  }

  /** The jiffies to wait for rest nanoseconds: the microseconds are passed as 32 bits, at least one. */
  function LocalJiffies(rest: nat, jiffyUs: nat): (j: nat)
    requires jiffyUs > 0
    ensures j >= 1
  {
    var j := UsecsToJiffies((rest / FAC_US2NS) % TWO_32, jiffyUs);
    if j < 1 then 1 else j
  }

  /** The microseconds are passed in 32 bits: times that differ by 2^32 of them are waited for in the
      same way, and no wait is longer than 2^32 microseconds and a jiffy. */
  lemma LongWait(rest: nat, jiffyUs: nat)
    requires jiffyUs > 0
    ensures LocalJiffies(rest + 0x1_0000_0000 * 1_000, jiffyUs) == LocalJiffies(rest, jiffyUs)
    ensures LocalJiffies(rest, jiffyUs) * jiffyUs < 0x1_0000_0000 + jiffyUs
  {
    var usecs := rest / FAC_US2NS;
    assert (rest + TWO_32 * 1_000) / FAC_US2NS == usecs + TWO_32;
    assert (usecs + TWO_32) % TWO_32 == usecs % TWO_32;
    RoundUp(usecs % TWO_32, jiffyUs);
  }

  /** The tick at which a sleeper of j jiffies is woken. */
  function WakeTick(now: nat, jiffy: nat, j: nat): nat
    requires jiffy > 0
  {
    (now / jiffy + j) * jiffy
  }

  lemma DivTimes(n: nat, d: nat)
    requires d > 0
    ensures (n / d) * d <= n < (n / d) * d + d
  {
  }

  lemma TimesDistributes(a: int, b: int, d: int)
    ensures (a + b) * d == a * d + b * d
  {
  }

  lemma TimesMonotone(a: int, b: int, d: nat)
    requires a <= b
    ensures a * d <= b * d
  {
    TimesDistributes(b - a, a, d);
    assert (b - a) * d >= 0;
  }

  /** Rounding up to whole jiffies: enough, and less than one jiffy too many. */
  lemma RoundUp(usecs: nat, jiffyUs: nat)
    requires jiffyUs > 0
    ensures var j := UsecsToJiffies(usecs, jiffyUs);
            usecs <= j * jiffyUs <= usecs + jiffyUs - 1
  {
    DivTimes(usecs + jiffyUs - 1, jiffyUs);
  }

  /** One wait never overshoots the remaining time by a whole jiffy. */
  lemma {:induction false} WaitBelow(now: nat, rest: nat, jiffyUs: nat)
    requires jiffyUs > 0 && rest > 0
    ensures var jiffy := FAC_US2NS * jiffyUs;
            now < WakeTick(now, jiffy, LocalJiffies(rest, jiffyUs)) < now + rest + jiffy
  {
    var jiffy, j := FAC_US2NS * jiffyUs, LocalJiffies(rest, jiffyUs);
    var usecs := (rest / FAC_US2NS) % TWO_32;
    RoundUp(usecs, jiffyUs);
    DivTimes(now, jiffy);
    TimesDistributes(now / jiffy, j, jiffy);
    TimesMonotone(1, j, jiffy);
    JiffiesInNs(j, jiffyUs);
    assert usecs <= rest / FAC_US2NS;
    DivTimes(rest, FAC_US2NS);
  }

  lemma JiffiesInNs(j: nat, jiffyUs: nat)
    ensures j * (FAC_US2NS * jiffyUs) == FAC_US2NS * (j * jiffyUs)
  {
  }

  /** One wait for a time below 2^32 microseconds falls short by less than a jiffy and a microsecond
      of the end, and by less than a jiffy when the time is a whole number of microseconds. */
  lemma {:induction false} WaitShortfall(now: nat, rest: nat, jiffyUs: nat)
    requires jiffyUs > 0 && rest > 0 && rest / FAC_US2NS < TWO_32
    ensures var jiffy := FAC_US2NS * jiffyUs;
            var tick := WakeTick(now, jiffy, LocalJiffies(rest, jiffyUs));
            && now + rest < tick + jiffy + FAC_US2NS
            && (rest % FAC_US2NS == 0 ==> now + rest < tick + jiffy)
  {
    var jiffy, j := FAC_US2NS * jiffyUs, LocalJiffies(rest, jiffyUs);
    RoundUp(rest / FAC_US2NS, jiffyUs);
    DivTimes(now, jiffy);
    DivTimes(rest, FAC_US2NS);
    TimesDistributes(now / jiffy, j, jiffy);
    var u := UsecsToJiffies(rest / FAC_US2NS, jiffyUs);
    TimesMonotone(u, j, jiffy);
    JiffiesInNs(u, jiffyUs);
  }

  /** The next tick after a time at or after tick k is at least tick k + 1. */
  lemma NextTick(now: nat, jiffy: nat, j: nat, tick: nat, k: nat)
    requires jiffy > 0 && j >= 1 && tick == k * jiffy && now >= tick
    ensures WakeTick(now, jiffy, j) >= tick + jiffy
  {
    DivTimes(now, jiffy);
    if now / jiffy < k {
      TimesMonotone(now / jiffy + 1, k, jiffy);
      TimesDistributes(now / jiffy, 1, jiffy);
    }
    TimesMonotone(k + 1, now / jiffy + j, jiffy);
    TimesDistributes(k, 1, jiffy);
  }

  lemma SignedDifference(a: nat, b: nat)
    requires a < TWO_63 && b < TWO_63
    ensures ToSigned64(a - b) == a - b
  {
  }

  /** How far the end of the wait may still lie beyond the tick reached after that many waits. */
  function Credit(waits: nat, jiffy: int): int
  {
    if waits <= 1 then jiffy else if waits == 2 then 0 else -jiffy
  }

  /** After some waits, tick k is reached and the end is near; only a time that is no whole number of
      microseconds needs a third wait. */
  ghost predicate Nearing(end: nat, reached: nat, k: nat, waits: nat, jiffy: nat, spare: nat)
  {
    && 1 <= waits <= 3 && reached == k * jiffy && spare <= jiffy
    && end < reached + Credit(waits, jiffy) + spare
  }

  lemma NearingNext(end: nat, reached: nat, k: nat, waits: nat, jiffy: nat, spare: nat)
    requires jiffy > 0 && Nearing(end, reached, k, waits, jiffy, spare) && reached < end
    ensures waits <= 2 && (spare == 0 ==> waits == 1)
    ensures Nearing(end, reached + jiffy, k + 1, waits + 1, jiffy, spare)
  {
    TimesDistributes(k, 1, jiffy);
  }

  /** The product in unsigned long, read as a signed number of 64 bits, is the requested time. */
  predicate NoWrap(ulong: nat, timeoutMs: int)
  {
    if ulong == TWO_32 then 0 <= FAC_MS2NS * timeoutMs < TWO_32
    else -TWO_63 <= FAC_MS2NS * timeoutMs < TWO_63
  }

  lemma NoWrapExactly(ulong: nat, timeoutMs: int)
    requires ulong == TWO_32 || ulong == TWO_64
    ensures NoWrap(ulong, timeoutMs) <==> RestNs(ulong, timeoutMs) == FAC_MS2NS * timeoutMs
  {
    Wrapped(ulong, FAC_MS2NS * timeoutMs);
  }

  /** A product that is in range is kept, any other is not. */
  lemma Wrapped(ulong: nat, p: int)
    requires ulong == TWO_32 || ulong == TWO_64
    ensures ToSigned64(p % ulong) == p <==>
            if ulong == TWO_32 then 0 <= p < TWO_32 else -TWO_63 <= p < TWO_63
  {
    if ulong == TWO_64 && -TWO_63 <= p < 0 {
      ModUnique(p, TWO_64, -1, p + TWO_64);
    }
  }

  /** On a 32-bit kernel the timeouts that do not wrap are those from 0 to 4294 ms. */
  lemma NoWrap32(timeoutMs: int)
    ensures NoWrap(TWO_32, timeoutMs) <==> 0 <= timeoutMs <= 4294
  {
  }

  /** The call returns without waiting exactly for these timeouts: on a 32-bit kernel the multiples of
      2^26, negative or not; on a 64-bit kernel, as long as the product fits, zero and below. */
  lemma NoWaitExactly(timeoutMs: int)
    ensures RestNs(TWO_32, timeoutMs) <= 0 <==> timeoutMs % 0x400_0000 == 0
    ensures NoWrap(TWO_64, timeoutMs) ==> (RestNs(TWO_64, timeoutMs) <= 0 <==> timeoutMs <= 0)
  {
    var p := FAC_MS2NS * timeoutMs;
    NoWrapExactly(TWO_64, timeoutMs);
    assert RestNs(TWO_32, timeoutMs) == p % TWO_32;
    if timeoutMs % 0x400_0000 == 0 {
      var q := timeoutMs / 0x400_0000;
      ModUnique(p, TWO_32, 15625 * q, 0);
    }
    if p % TWO_32 == 0 {
      // 15625 is invertible modulo 2^26
      var k := p / TWO_32;
      ModUnique(timeoutMs, 0x400_0000, 12738873 * k - 2966 * timeoutMs, 0);
    }
  }

  /** A timeout of -1, as the ioctl delivers it from an unsigned int of all ones to a 32-bit kernel,
      waits more than four seconds. */
  lemma MinusOneWaits()
    ensures RestNs(TWO_32, -1) == 4_293_967_296
  {
  }

  lemma RestWithoutWrap(ulong: nat, timeoutMs: int)
    requires ulong == TWO_32 || ulong == TWO_64
    requires timeoutMs >= 0
    ensures RestNs(ulong, timeoutMs) <= FAC_MS2NS * timeoutMs
    ensures !NoWrap(ulong, timeoutMs) ==> RestNs(ulong, timeoutMs) <= FAC_MS2NS * timeoutMs - TWO_32
  {
    var p := FAC_MS2NS * timeoutMs;
    NoWrapExactly(ulong, timeoutMs);
    if !NoWrap(ulong, timeoutMs) {
      if ulong == TWO_32 {
        assert p >= TWO_32 && p % TWO_32 <= p - TWO_32;
      } else {
        assert p >= TWO_63;
        if p < TWO_64 {
          assert p % TWO_64 == p;
        } else {
          assert p % TWO_64 <= p - TWO_64;
        }
      }
    }
  }

  /** When the call ends that was begun at start and did not get the semaphore. */
  predicate TimedOut(start: nat, rest: int, slack: nat, end: nat)
  {
    if rest > 0 then start + rest <= end < start + rest + slack else end == start
  }

  /** When the wait ended without the semaphore, the documented minimum was kept exactly if nothing was
      to be waited for or the product did not wrap. */
  lemma MinimumExactly(ulong: nat, timeoutMs: int, start: nat, end: nat, slack: nat)
    requires ulong == TWO_32 || ulong == TWO_64
    requires slack <= TWO_32 && TimedOut(start, RestNs(ulong, timeoutMs), slack, end)
    ensures end >= start + FAC_MS2NS * timeoutMs <==> timeoutMs <= 0 || NoWrap(ulong, timeoutMs)
  {
    hide RestNs, NoWrap;
    if timeoutMs > 0 {
      RestWithoutWrap(ulong, timeoutMs);
      NoWrapExactly(ulong, timeoutMs);
    }
  }

  /** The time the caller asked for: none for a negative timeout. */
  function Requested(timeoutMs: int): nat
  {
    if timeoutMs > 0 then FAC_MS2NS * timeoutMs else 0
  }

  /** The documented maximum (the slack is one jiffy and the wake-up latency) is guaranteed exactly for
      timeouts that are not negative and for those that do not wait. */
  lemma MaximumExactly(ulong: nat, timeoutMs: int, start: nat, slack: nat)
    requires (ulong == TWO_32 || ulong == TWO_64) && slack > 0
    ensures (forall end: nat :: TimedOut(start, RestNs(ulong, timeoutMs), slack, end) ==>
               end < start + Requested(timeoutMs) + slack)
            <==> timeoutMs >= 0 || RestNs(ulong, timeoutMs) <= 0
  {
    hide RestNs, NoWrap;
    if timeoutMs >= 0 {
      RestWithoutWrap(ulong, timeoutMs);
    } else if RestNs(ulong, timeoutMs) > 0 {
      assert TimedOut(start, RestNs(ulong, timeoutMs), slack, start + RestNs(ulong, timeoutMs) + slack - 1);
    }
  }

  // ---- the kernel as the driver sees it ----

  class Kernel {
    const ulong: nat     // number of values of unsigned long
    const jiffyUs: nat   // length of a jiffy in microseconds
    const latency: nat   // the most a timed-out sleeper is woken after its tick, in nanoseconds
    var now: nat         // ktime_get_mono_fast_ns
    var count: nat       // irq_lsigsema
    const wOpen: bool    // the device was opened for writing
    ghost var handled: nat  // interrupts handled since sema_init
    ghost var taken: nat    // successful waits since sema_init

    /** Interrupt conservation. */
    ghost predicate Valid()
      reads this
    {
      && (ulong == TWO_32 || ulong == TWO_64) && jiffyUs > 0
      && count == handled - taken
    }

    /** A jiffy in nanoseconds. */
    function Jiffy(): (ns: nat)
      ensures ns == 1_000 * jiffyUs
    {
      FAC_US2NS * jiffyUs
    }

    /** driver_open, after sema_init. */
    constructor (ulong: nat, jiffyUs: nat, latency: nat, now: nat, wOpen: bool)
      requires (ulong == TWO_32 || ulong == TWO_64) && jiffyUs > 0
      ensures Valid() && handled == 0 && taken == 0 && count == 0
      ensures this.ulong == ulong && this.jiffyUs == jiffyUs && this.latency == latency && this.now == now
      ensures this.wOpen == wOpen
    {
      this.ulong, this.jiffyUs, this.latency, this.now := ulong, jiffyUs, latency, now;
      this.wOpen := wOpen;
      count, handled, taken := 0, 0, 0;
    }

    /** r_irq_handler: up. */
    method IrqHandler()
      requires Valid()
      modifies this`count, this`handled
      ensures Valid() && count == old(count) + 1 && handled == old(handled) + 1
    {
      count := count + 1;
      handled := handled + 1;
    }

    /** Any number of interrupts. */
    method Interrupts()
      requires Valid()
      modifies this`count, this`handled
      ensures Valid() && count >= old(count)
    {
      var n: nat :| n >= 0;
      for i := 0 to n
        invariant Valid() && count == old(count) + i
      {
        IrqHandler();
      }
    }

    /** Time goes by, interrupts arrive, and nobody waits. */
    method Elapse(ns: nat)
      requires Valid()
      modifies this`now, this`count, this`handled
      ensures Valid() && now == old(now) + ns && taken == old(taken) && count >= old(count)
    {
      now := now + ns;
      Interrupts();
    }

    /** A successful down. */
    method Take()
      requires Valid() && count > 0
      modifies this`count, this`taken
      ensures Valid() && count == old(count) - 1 && taken == old(taken) + 1
    {
      count := count - 1;
      taken := taken + 1;
    }

    /** The kernel's down_timeout: take the semaphore, or wake at the tick without it. */
    method DownTimeout(jiffies: nat) returns (err: int)
      requires Valid() && jiffies >= 1
      modifies this`now, this`count, this`handled, this`taken
      ensures Valid() && (err == 0 || err == -ETIME)
      ensures taken == old(taken) + if err == 0 then 1 else 0
      ensures old(now) <= now <= WakeTick(old(now), Jiffy(), jiffies) + latency
      ensures err != 0 ==> now >= WakeTick(old(now), Jiffy(), jiffies)
      ensures old(count) > 0 ==> err == 0 && now == old(now)
    {
      var tick := WakeTick(now, Jiffy(), jiffies);
      DivTimes(now, Jiffy());
      TimesMonotone(now / Jiffy() + 1, now / Jiffy() + jiffies, Jiffy());
      TimesDistributes(now / Jiffy(), 1, Jiffy());
      Interrupts();
      if count == 0 {
        var signalled: bool := *;
        var wake: nat :| now <= wake <= tick + latency && (!signalled ==> wake >= tick);
        now := wake;
        if !signalled {
          Interrupts();
          return -ETIME;
        }
        IrqHandler();
      }
      Take();
      Interrupts();
      err := 0;
    }

    /** One turn of the loop in down_timeoutms. */
    method WaitOnce(rest: nat) returns (err: int)
      requires Valid() && rest > 0
      modifies this`now, this`count, this`handled, this`taken
      ensures Valid() && (err == 0 || err == -ETIME)
      ensures taken == old(taken) + if err == 0 then 1 else 0
      ensures old(now) <= now < old(now) + rest + Jiffy() + latency
      ensures err != 0 ==> old(now) < now && WakeTick(old(now), Jiffy(), LocalJiffies(rest, jiffyUs)) <= now
      ensures old(count) > 0 ==> err == 0 && now == old(now)
    {
      var localJiffies := LocalJiffies(rest, jiffyUs);
      WaitBelow(now, rest, jiffyUs);
      err := DownTimeout(localJiffies);
    }

    /** down_timeoutms: a pending interrupt is taken at once; a nonzero result means that the time
        computed from the argument is over; the call is back less than a jiffy (and the wake-up
        latency) after that time, after at most two waits, or three. */
    method DownTimeoutMs(timeoutMs: int) returns (err: int, ghost waits: nat)
      requires Valid()
      requires var rest := RestNs(ulong, timeoutMs);
               now + (if rest > 0 then rest else 0) + Jiffy() + latency < TWO_63
      modifies this`now, this`count, this`handled, this`taken
      ensures Valid() && (err == 0 || err == -1 || err == -ETIME)
      ensures taken == old(taken) + if err == 0 then 1 else 0
      ensures RestNs(ulong, timeoutMs) <= 0 ==>
                err == -1 && waits == 0 && now == old(now) && count == old(count) && handled == old(handled)
      ensures var rest := RestNs(ulong, timeoutMs);
              rest > 0 ==>
                && waits >= 1 && old(now) <= now < old(now) + rest + Jiffy() + latency
                && (old(count) > 0 ==> err == 0 && waits == 1 && now == old(now))
                && (err != 0 ==> err == -ETIME && now >= old(now) + rest)
                && (rest / FAC_US2NS < TWO_32 ==> waits <= 3)
                && (rest / FAC_US2NS < TWO_32 && rest % FAC_US2NS == 0 ==> waits <= 2)
      ensures err != 0 && Jiffy() + latency <= TWO_32 ==>
                (now >= old(now) + FAC_MS2NS * timeoutMs <==> timeoutMs <= 0 || NoWrap(ulong, timeoutMs))
      ensures var rest := RestNs(ulong, timeoutMs);
              err != 0 && (rest <= 0 || rest >= Jiffy() + latency) ==>
                (now < old(now) + Requested(timeoutMs) + Jiffy() + latency <==> timeoutMs >= 0 || rest <= 0)
    {
      hide WakeTick, LocalJiffies, ToSigned64, NoWrap;
      err := -1;
      waits := 0;
      var rest := RestNs(ulong, timeoutMs);
      if rest <= 0 {
        if Jiffy() + latency <= TWO_32 {
          MinimumExactly(ulong, timeoutMs, now, now, Jiffy() + latency);
        }
        return;
      }
      ghost var rest0 := rest;
      ghost var start := now;
      var endtime := (now + rest) % TWO_64;
      ghost var small := rest0 / FAC_US2NS < TWO_32;
      ghost var spare := if rest0 % FAC_US2NS == 0 then 0 else FAC_US2NS;
      ghost var reached: nat, k: nat := 0, 0;
      while rest > 0
        invariant Valid() && taken == old(taken) && endtime == start + rest0
        invariant start <= now && rest == endtime - now && err == (if waits == 0 then -1 else -ETIME)
        invariant waits == 0 ==> now == start && rest == rest0 && count == old(count)
        invariant waits > 0 ==> old(count) == 0
        invariant waits > 0 ==> now < endtime + Jiffy() + latency
        invariant small && waits > 0 ==> Nearing(endtime, reached, k, waits, Jiffy(), spare) && reached <= now
        invariant small ==> waits <= 3 && (spare == 0 ==> waits <= 2)
        decreases rest
      {
        ghost var j := LocalJiffies(rest, jiffyUs);
        ghost var before := now;
        err := WaitOnce(rest);
        if small {
          if waits == 0 {
            WaitShortfall(before, rest, jiffyUs);
            reached, k := WakeTick(before, Jiffy(), j), TickNumber(before, Jiffy(), j);
          } else {
            NearingNext(endtime, reached, k, waits, Jiffy(), spare);
            NextTick(before, Jiffy(), j, reached, k);
            reached, k := reached + Jiffy(), k + 1;
          }
        }
        waits := waits + 1;
        if err == 0 {
          break;
        }
        SignedDifference(endtime, now);
        rest := ToSigned64(endtime - now);
      }
      if timeoutMs >= 0 {
        RestWithoutWrap(ulong, timeoutMs);
      }
      if err != 0 && Jiffy() + latency <= TWO_32 {
        MinimumExactly(ulong, timeoutMs, start, now, Jiffy() + latency);
      }
    }

    /** The kernel's down_interruptible: take the semaphore, or be interrupted by a signal. */
    method DownInterruptible() returns (err: int)
      requires Valid()
      modifies this`now, this`count, this`handled, this`taken
      ensures Valid() && (err == 0 || err == -EINTR) && now >= old(now)
      ensures old(count) > 0 ==> err == 0 && now == old(now)
      ensures taken == old(taken) + if err == 0 then 1 else 0
    {
      Interrupts();
      if count == 0 {
        var wake: nat :| now <= wake;
        now := wake;
        var signalled: bool := *;
        if signalled {
          return -EINTR;
        }
        IrqHandler();
      }
      Take();
      Interrupts();
      err := 0;
    }

    /** my_api: only a zero result has consumed an interrupt, and it has consumed exactly one. */
    method MyApi(nr: int, arg: int) returns (err: int)
      requires Valid()
      requires var rest := RestNs(ulong, arg);
               now + (if rest > 0 then rest else 0) + Jiffy() + latency < TWO_63
      modifies this`now, this`count, this`handled, this`taken
      ensures Valid() && taken == old(taken) + if err == 0 then 1 else 0
      // 41 is IRQMODDEV_WAIT_IRQ and 42 IRQMODDEV_DOWN_TIMEOUT; the errors are ENOTTY, EINVAL, EINTR and ETIME.
      ensures nr != 41 && nr != 42 ==> err == -25
      ensures (nr == 41 || nr == 42) && !wOpen ==> err == -22
      ensures err == -25 || err == -22 ==> now == old(now) && count == old(count) && handled == old(handled)
      ensures nr == 41 && wOpen ==> err == 0 || err == -4
      ensures nr == 41 && wOpen && old(count) > 0 ==> err == 0 && now == old(now)
      ensures nr == 42 ==>
                var rest := RestNs(ulong, arg);
                && old(now) <= now && (rest <= 0 ==> now == old(now))
                && (rest > 0 ==> now < old(now) + rest + Jiffy() + latency)
                && (rest > 0 && wOpen && err != 0 ==> err == -62 && now >= old(now) + rest)
                && (rest > 0 && wOpen && old(count) > 0 ==> err == 0 && now == old(now))
                && (rest <= 0 && wOpen ==> err == -1)
    {
      if nr == IRQMODDEV_WAIT_IRQ {
        if !wOpen {
          return -EINVAL;
        }
        err := DownInterruptible();
      } else if nr == IRQMODDEV_DOWN_TIMEOUT {
        if !wOpen {
          return -EINVAL;
        }
        ghost var waits;
        err, waits := DownTimeoutMs(arg);
      } else {
        return -ENOTTY;
      }
    }
  }

  /** The number of the tick a sleeper is woken at. */
  function TickNumber(now: nat, jiffy: nat, j: nat): (k: nat)
    requires jiffy > 0
    ensures WakeTick(now, jiffy, j) == k * jiffy
  {
    now / jiffy + j
  }
}
