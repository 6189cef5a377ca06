// thread: the priority-raise retry of setscheduler and the round robin of get_nextcpu.
module Threads {
  import opened Words

  const EPERM: nat := 1
  const TWO_31: int := 0x8000_0000

  /** An unsigned long converted to int. */
  function ToInt(u: nat): (i: int)
    ensures IsInt(i) && (u - i) % TWO_32 == 0
  {
    var w := u % TWO_32;
    if w >= TWO_31 then w - TWO_32 else w
  }

  predicate IsInt(i: int) { -TWO_31 <= i < TWO_31 }

  /** RLIMIT_RTPRIO of the process and the calls that read and change it. */
  class Limits {
    const ulong: nat      // number of values of unsigned long
    const policyMax: int  // sched_get_priority_max, -1 for an unknown policy
    const getErr: nat     // errno of getrlimit, 0 for success
    const setErr: nat     // errno of setrlimit, 0 for success
    const hard: nat       // rlim_max
    var soft: nat         // rlim_cur

    predicate Valid()
      reads this
    {
      && (ulong == TWO_32 || ulong == TWO_64) && IsInt(policyMax) && policyMax >= -1
      && soft < ulong && hard < ulong
    }

    constructor (ulong: nat, policyMax: int, getErr: nat, setErr: nat, soft: nat, hard: nat)
      requires (ulong == TWO_32 || ulong == TWO_64) && IsInt(policyMax) && policyMax >= -1
      requires soft < ulong && hard < ulong
      ensures Valid() && this.soft == soft && this.hard == hard && this.ulong == ulong
      ensures this.policyMax == policyMax && this.getErr == getErr && this.setErr == setErr
    {
      this.ulong, this.policyMax, this.getErr, this.setErr := ulong, policyMax, getErr, setErr;
      this.soft, this.hard := soft, hard;
    }

    /** A limit as raise_soft_prio sees it: RLIM_INFINITY stands for the largest priority. */
    function AsPriority(limit: nat): int
    {
      if limit == ulong - 1 then policyMax else ToInt(limit)
    }

    /** How far the soft limit is below the priority: the measure of the retry. */
    function Missing(prio: int): nat
      reads this
    {
      var soft := AsPriority(soft);
      if prio > soft then prio - soft else 0
    }

    /** raise_soft_prio can help. */
    predicate CanRaise(prio: int)
      reads this
    {
      policyMax != -1 && getErr == 0 && setErr == 0 && AsPriority(soft) < prio <= AsPriority(hard)
    }

    /** raise_soft_prio: zero exactly if the soft limit was too low, the hard limit allows the priority
        and the limit could be set; then nothing is missing any more, otherwise nothing changed. */
    method RaiseSoftPrio(prio: int, errno: nat) returns (err: int)
      requires Valid() && IsInt(prio) && errno > 0
      modifies this
      ensures Valid() && (err == 0 <==> old(CanRaise(prio)))
      ensures err != 0 ==> soft == old(soft)
      // An infinite hard limit allows every priority of the policy, an infinite soft limit needs no raise.
      ensures hard == ulong - 1 && policyMax >= 0 && getErr == setErr == 0 && old(soft) < prio <= policyMax ==> err == 0
      ensures old(soft) == ulong - 1 && policyMax >= 0 && getErr == 0 && prio <= policyMax ==> err == -1
      ensures policyMax == -1 ==> err == errno
      ensures policyMax != -1 && getErr != 0 ==> err == getErr
      ensures policyMax != -1 && getErr == 0 ==>
                (err == -1 <==> !(old(AsPriority(soft)) < prio <= AsPriority(hard)))
      ensures err == 0 ==> prio <= AsPriority(soft) && soft == prio % ulong && Missing(prio) == 0 < old(Missing(prio))
    {
      if policyMax == -1 {
        return errno;
      }
      if getErr != 0 {
        return getErr;
      }
      var softMax := AsPriority(soft);
      var hardMax := AsPriority(hard);
      if prio > softMax && prio <= hardMax {
        err := setErr;
        if err == 0 {
          LimitIsPriority(prio);
          soft := prio % ulong;
        }
      } else {
        err := -1;
      }
    }

    /** A priority stored as the limit is read back as that priority; only -1, which becomes
        RLIM_INFINITY, is read back as the largest one. */
    lemma LimitIsPriority(prio: int)
      requires (ulong == TWO_32 || ulong == TWO_64) && IsInt(prio) && policyMax >= 0
      ensures AsPriority(prio % ulong) == if prio == -1 then policyMax else prio
    {
      if prio < 0 {
        assert prio % ulong == prio + ulong;
        assert prio + TWO_64 == (prio + TWO_32) + 0xFFFF_FFFF * TWO_32;
        ModUnique(prio + ulong, TWO_32, if ulong == TWO_32 then 0 else 0xFFFF_FFFF, prio + TWO_32);
      } else {
        assert prio % ulong == prio && prio % TWO_32 == prio;
      }
    }

    /** setscheduler: results[k] is the errno of the attempt numbered k, whatever the reason. There are
        at most two attempts, the second exactly if the first was refused and raising the limit
        worked; the result is that of the last attempt. */
    method SetScheduler(prio: int, results: seq<nat>, errno: nat) returns (err: nat, attempts: nat)
      requires Valid() && IsInt(prio) && errno > 0 && |results| >= 2
      modifies this
      ensures Valid()
      ensures attempts == if results[0] == 1 && old(CanRaise(prio)) then 2 else 1  // 1 is EPERM
      ensures err == results[attempts - 1]
      ensures soft == if attempts == 2 then prio % ulong else old(soft)
    {
      attempts := 0;
      var again := true;
      err := 0;
      while again
        invariant Valid() && attempts <= 2
        invariant attempts == 0 ==> again && soft == old(soft)
        invariant attempts == 1 && again ==>
                    results[0] == EPERM && old(CanRaise(prio)) && Missing(prio) == 0 && soft == prio % ulong
        invariant attempts == 1 && !again ==> !(results[0] == EPERM && old(CanRaise(prio))) && soft == old(soft)
        invariant attempts == 2 ==>
                    !again && results[0] == EPERM && old(CanRaise(prio)) && soft == prio % ulong
        invariant !again ==> attempts >= 1 && err == results[attempts - 1]
        decreases again, Missing(prio)
      {
        err := results[attempts];
        attempts := attempts + 1;
        again := false;
        if err == EPERM {
          var err1 := RaiseSoftPrio(prio, errno);
          again := err1 == 0;
        }
      }
    }

    /** The errno of a kernel that refuses exactly the priorities above the soft limit. */
    function Refusal(prio: int, limit: nat): nat
    {
      if prio > AsPriority(limit) then EPERM else 0
    }

    /** On such a kernel, asked again after the limit was raised, the priority is granted exactly if it
        was within the soft limit or could be raised to. */
    method SetSchedulerUnprivileged(prio: int, errno: nat) returns (err: nat)
      requires Valid() && IsInt(prio) && errno > 0
      modifies this
      ensures err == 0 <==> prio <= old(AsPriority(soft)) || old(CanRaise(prio))
      ensures err == Refusal(prio, soft)
    {
      if policyMax >= 0 { LimitIsPriority(prio); }
      var attempts;
      err, attempts := SetScheduler(prio, [Refusal(prio, soft), Refusal(prio, prio % ulong)], errno);
    }
  }

  // ---- get_nextcpu ----

  /** The CPU that call number k returns on n processors: sc_cpu starts at n - 1, is incremented in 32
      bits and then reduced. */
  function CpuOf(n: nat, k: nat): nat
    requires n > 0
  {
    ((n + k) % TWO_32) % n
  }

  /** The static variables of get_nextcpu. */
  class CpuCounter {
    var nproc: int
    var scCpu: Word32
    ghost var calls: nat  // calls so far

    ghost predicate Valid()
      reads this
    {
      && (nproc == -1 || 0 < nproc < TWO_31)
      && (nproc > 0 ==> calls > 0 && scCpu == (nproc + calls - 1) % TWO_32)
    }

    constructor ()
      ensures Valid() && calls == 0 && nproc == -1
    {
      nproc, scCpu, calls := -1, 0, 0;
    }

    /** get_nextcpu: the calls go round; when sysconf fails the answer is always CPU 0 and the next
        call asks again. */
    method GetNextCpu(online: int) returns (cpu: nat)
      requires Valid() && (online == -1 || 0 < online < TWO_31)
      modifies this
      ensures Valid()
      ensures var n := if old(nproc) == -1 then online else old(nproc);
              && nproc == n
              && (n == -1 ==> cpu == 0)
              && (n > 0 ==> cpu == CpuOf(n, calls - 1))
              && calls == if old(nproc) == -1 then 1 else old(calls) + 1
    {
      if nproc == -1 {
        nproc := online;
        scCpu := (nproc - 1) % TWO_32;
        calls := 0;
      }
      Incremented(nproc, calls);
      scCpu := (scCpu + 1) % TWO_32;
      calls := calls + 1;
      cpu := scCpu % AsUnsigned(nproc);
    }
  }

  /** The divisor of the unsigned remainder. */
  function AsUnsigned(i: int): (u: Word32)
    requires IsInt(i)
    ensures i >= 0 ==> u == i
    ensures i == -1 ==> u == TWO_32 - 1
  {
    i % TWO_32
  }

  lemma Incremented(n: int, calls: nat)
    ensures ((n + calls - 1) % TWO_32 + 1) % TWO_32 == (n + calls) % TWO_32
    ensures n == -1 ==> ((n - 1) % TWO_32 + 1) % TWO_32 == TWO_32 - 1
  {
  }

  lemma AddMultiple(x: nat, q: nat, n: nat)
    requires n > 0
    ensures (x + n * q) % n == x % n && (x + n * q) / n == x / n + q
  {
    var k, r := x / n, x % n;
    assert n * (k + q) == n * k + n * q;
    DivModUnique(x + n * q, n, k + q, r);
  }

  /** Until the counter wraps, or for good when n divides 2^32, call k returns k modulo n. */
  lemma RoundRobin(n: nat, k: nat)
    requires n > 0 && (n + k < TWO_32 || TWO_32 % n == 0)
    ensures CpuOf(n, k) == k % n
  {
    AddMultiple(k, 1, n);
    if n + k >= TWO_32 {
      var t, r, q := (n + k) / TWO_32, (n + k) % TWO_32, TWO_32 / n;
      assert TWO_32 == n * q;
      assert n + k == r + n * (q * t);
      AddMultiple(r, q * t, n);
    }
  }

  /** How many of the len calls from number a on return c. */
  function CpuCount(n: nat, a: nat, len: nat, c: nat): nat
    requires n > 0
  {
    if len == 0 then 0 else CpuCount(n, a, len - 1, c) + if CpuOf(n, a + len - 1) == c then 1 else 0
  }

  /** The number of k below m with k % n == c. */
  function Below(n: nat, m: nat, c: nat): nat
    requires c < n
  {
    (m + (n - 1 - c)) / n
  }

  /** x as whole rounds of n and a rest. */
  lemma Split(x: nat, n: nat) returns (q: nat, r: nat)
    requires n > 0
    ensures r < n && x == Times(n, q) + r && q == x / n && r == x % n
  {
    q, r := x / n, x % n;
  }

  function Times(n: nat, q: nat): nat { n * q }

  lemma Rounds(n: nat, q: nat, y: nat)
    requires y < 2 * n
    ensures (Times(n, q) + y) / n == q + if y < n then 0 else 1
    ensures (Times(n, q) + y) % n == if y < n then y else y - n
  {
    if y < n {
      DivModUnique(Times(n, q) + y, n, q, y);
    } else {
      DivModUnique(Times(n, q) + y, n, q + 1, y - n);
    }
  }

  lemma TimesAdd(n: nat, k: nat, d: nat)
    ensures Times(n, k + d) == Times(n, k) + Times(n, d)
  {
  }

  lemma BelowStep(n: nat, m: nat, c: nat)
    requires c < n
    ensures Below(n, m + 1, c) == Below(n, m, c) + if m % n == c then 1 else 0
  {
    hide Times;
    var q, r := Split(m, n);
    Rounds(n, q, r + (n - 1 - c));
    Rounds(n, q, r + 1 + (n - 1 - c));
  }

  lemma {:induction false} CountIsBelow(n: nat, a: nat, len: nat, c: nat)
    requires c < n && (n + a + len <= TWO_32 || TWO_32 % n == 0)
    ensures CpuCount(n, a, len, c) == Below(n, a + len, c) - Below(n, a, c)
  {
    hide Below, CpuOf;
    if len > 0 {
      CountIsBelow(n, a, len - 1, c);
      RoundRobin(n, a + len - 1);
      BelowStep(n, a + len - 1, c);
    }
  }

  /** Every CPU gets its share of any window: the whole number of rounds, or one more. */
  lemma FairShare(n: nat, a: nat, len: nat, c: nat)
    requires c < n && (n + a + len <= TWO_32 || TWO_32 % n == 0)
    ensures len / n <= CpuCount(n, a, len, c) <= len / n + 1
  {
    hide CpuOf, CpuCount;
    CountIsBelow(n, a, len, c);
    ShareOf(n, a + (n - 1 - c), len);
    assert a + len + (n - 1 - c) == a + (n - 1 - c) + len;
  }

  lemma ShareOf(n: nat, x: nat, len: nat)
    requires n > 0
    ensures len / n <= (x + len) / n - x / n <= len / n + 1
  {
    hide Times;
    var k, r := Split(x, n);
    var d, e := Split(len, n);
    TimesAdd(n, k, d);
    Rounds(n, k + d, r + e);
  }

  /** Over a window of calls no CPU is chosen two times more often than another. */
  ghost predicate FairWindow(n: nat, a: nat, len: nat)
    requires n > 0
  {
    forall c, d :: 0 <= c < n && 0 <= d < n ==> CpuCount(n, a, len, c) <= CpuCount(n, a, len, d) + 1
  }

  lemma {:induction false} CountGrows(n: nat, a: nat, len: nat, more: nat, c: nat)
    requires n > 0 && len <= more
    ensures CpuCount(n, a, len, c) <= CpuCount(n, a, more, c)
    decreases more
  {
    if len < more {
      CountGrows(n, a, len, more - 1, c);
    }
  }

  lemma {:induction false} CountNone(n: nat, a: nat, len: nat, c: nat)
    requires n > 0 && forall k: nat | a <= k < a + len :: CpuOf(n, k) != c
    ensures CpuCount(n, a, len, c) == 0
  {
    hide CpuOf;
    if len > 0 {
      CountNone(n, a, len - 1, c);
    }
  }

  /** The calls around a wrap of the counter when n leaves the remainder r of 2^32. */
  lemma AcrossWrap(n: nat, r: nat, j: nat)
    requires 0 < n < TWO_31 && r == TWO_32 % n && j < n
    ensures TWO_32 - r - n >= 0 && CpuOf(n, TWO_32 - r - n + j) == if j < r then j else j - r
  {
    hide Times;
    var q, rest := Split(TWO_32, n);
    if j < r {
      BeforeWrap(TWO_32 - r + j);
      Rounds(n, q, j);
    } else {
      AfterWrap(j - r);
      Rounds(n, 0, j - r);
      NoRounds(n);
    }
  }

  lemma BeforeWrap(x: nat)
    requires x < TWO_32
    ensures x % TWO_32 == x
  {
  }

  lemma AfterWrap(x: nat)
    requires x < TWO_32
    ensures (TWO_32 + x) % TWO_32 == x
  {
  }

  lemma NoRounds(n: nat)
    ensures Times(n, 0) == 0
  {
  }

  lemma UnfairAcrossWrap(n: nat)
    requires 0 < n < TWO_31 && TWO_32 % n != 0
    ensures var r := TWO_32 % n; TWO_32 - r - n >= 0 && !FairWindow(n, TWO_32 - r - n, n)
  {
    hide CpuOf;
    var r := TWO_32 % n;
    AcrossWrap(n, r, 0);
    AcrossWrap(n, r, r);
    var a := TWO_32 - r - n;
    forall k: nat | a <= k < a + n ensures CpuOf(n, k) != n - 1 {
      AcrossWrap(n, r, k - a);
    }
    CountNone(n, a, n, n - 1);
    assert CpuCount(n, a, 1, 0) == 1;
    CountGrows(n, a, 1, r, 0);
    CountGrows(n, a, r + 1, n, 0);
    assert CpuCount(n, a, n, 0) >= 2;
  }

  /** The round robin stays fair over all windows, also across the wrap of the 32-bit counter, if and
      only if the number of processors divides 2^32. */
  lemma FairExactly(n: nat)
    requires 0 < n < TWO_31
    ensures (forall a: nat, len: nat :: FairWindow(n, a, len)) <==> TWO_32 % n == 0
  {
    hide CpuOf, CpuCount;
    if TWO_32 % n == 0 {
      forall a: nat, len: nat ensures FairWindow(n, a, len) {
        forall c, d | 0 <= c < n && 0 <= d < n
          ensures CpuCount(n, a, len, c) <= CpuCount(n, a, len, d) + 1
        {
          FairShare(n, a, len, c);
          FairShare(n, a, len, d);
        }
      }
    } else {
      UnfairAcrossWrap(n);
    }
  }
}
