// The inbound hand-off: the real-time thread publishes a received buffer between two increments
// of m_atomiccounter (SPIReadProcRamFifo); the application thread copies it in receive_input and
// retries until the counter is the same before and after the copy.
//
// Every access to a shared variable is one step and a schedule is any sequence of steps of the two
// threads (sequential consistency). A step whose thread is not at that point has no effect.
module SequenceCounter {
  import opened Schedules
  import opened Words

  /** Where the real-time thread is inside SPIReadProcRamFifo. */
  datatype Publisher =
    | Quiet
    | Transferring                        // after the first increment, before the buffer is copied
    | Storing(msg: Message, done: set<nat>)  // words may be stored in any order

  /** Where the application thread is inside receive_input. */
  datatype Reader =
    | Idle
    | Attempting                                 // at the start of the do-while body
    | Copying(localcounter: Word32, done: set<nat>)  // words may be copied in any order

  /** For every word of a buffer, the generation it was copied from. */
  type Origins = o: seq<nat> | |o| == WORDS witness [0, 0, 0, 0]

  /** An accepted snapshot: the counter it was accepted with, the number of increments made before
      the attempt started and before it was accepted, and where its words came from. */
  datatype Read = Read(counter: Word32, from: nat, to: nat, snapshot: Message, origins: Origins)

  datatype State = State(
    counter: Word32,          // m_atomiccounter
    shared: Message,          // m_BufferOutEthToSlaveBuffer
    publisher: Publisher,
    reader: Reader,
    buffer: Message,          // *pBufferOut
    // History, read by no step:
    bumps: nat,               // increments so far
    generations: seq<Message>,  // the initial buffer, then every buffer whose publishing has begun
    attemptFrom: nat,         // bumps when the current attempt loaded the counter
    callFrom: nat,            // bumps when the current call of receive_input started
    failures: nat,            // failed attempts of the current call
    work: nat,                // reader steps of the current call
    origins: Origins,         // where the words of the buffer were copied from
    accepted: seq<Read>       // accepted snapshots
  )

  datatype Step =
    | Begin | StartStore(msg: Message) | StoreWord(k: nat) | End
    | CallRead | Load | LoadWord(k: nat) | Compare

  const INITIAL := State(0, ZERO_MESSAGE, Quiet, Idle, ZERO_MESSAGE, 0, [ZERO_MESSAGE], 0, 0, 0, 0,
                         [0, 0, 0, 0], [])

  const ALL_WORDS: set<nat> := {0, 1, 2, 3}

  function Bump(s: State): State
  {
    s.(counter := (s.counter + 1) % TWO_32, bumps := s.bumps + 1)
  }

  /** The generation that was complete after b increments. */
  function Generation(b: nat): nat { b / 2 }

  /** The generation whose word k is in the shared buffer. */
  function Level(s: State, k: nat): nat
  {
    Generation(s.bumps) + if s.publisher.Storing? && k in s.publisher.done then 1 else 0
  }

  function Apply(s: State, step: Step): State
  {
    match step
    case Begin =>
      if s.publisher.Quiet? then Bump(s).(publisher := Transferring) else s
    case StartStore(m) =>
      if s.publisher.Transferring? then
        s.(publisher := Storing(m, {}), generations := s.generations + [m])
      else s
    case StoreWord(k) =>
      if s.publisher.Storing? && k < WORDS && k !in s.publisher.done then
        s.(shared := s.shared[k := s.publisher.msg[k]],
           publisher := Storing(s.publisher.msg, s.publisher.done + {k}))
      else s
    case End =>
      if s.publisher.Storing? && s.publisher.done == ALL_WORDS then Bump(s).(publisher := Quiet) else s
    case CallRead =>
      if s.reader.Idle? then s.(reader := Attempting, callFrom := s.bumps, failures := 0, work := 0) else s
    case Load =>
      if s.reader.Attempting? then
        s.(reader := Copying(s.counter, {}), attemptFrom := s.bumps, work := s.work + 1)
      else s
    case LoadWord(k) =>
      if s.reader.Copying? && k < WORDS && k !in s.reader.done then
        s.(buffer := s.buffer[k := s.shared[k]], origins := s.origins[k := Level(s, k)],
           reader := Copying(s.reader.localcounter, s.reader.done + {k}), work := s.work + 1)
      else s
    case Compare =>
      if s.reader.Copying? && s.reader.done == ALL_WORDS then
        if s.reader.localcounter != s.counter then
          s.(reader := Attempting, failures := s.failures + 1, work := s.work + 1)
        else
          s.(reader := Idle, work := s.work + 1,
             accepted := s.accepted + [Read(s.counter, s.attemptFrom, s.bumps, s.buffer, s.origins)])
      else s
  }

  ghost predicate PublisherInv(s: State)
  {
    var g := Generation(s.bumps);
    && s.counter == s.bumps % TWO_32
    && match s.publisher
       case Quiet => s.bumps % 2 == 0 && |s.generations| == g + 1 && s.shared == s.generations[g]
       case Transferring => s.bumps % 2 == 1 && |s.generations| == g + 1 && s.shared == s.generations[g]
       case Storing(m, done) =>
         && s.bumps % 2 == 1 && |s.generations| == g + 2 && s.generations[g + 1] == m
         && done <= ALL_WORDS
         && (forall k | 0 <= k < WORDS :: s.shared[k] == if k in done then m[k] else s.generations[g][k])
  }

  /** w is word k of generation g, or of the next one when the counter was odd. */
  ghost predicate WordFrom(generations: seq<Message>, b: nat, k: nat, w: Word64)
    requires k < WORDS
  {
    var g := Generation(b);
    && g < |generations|
    && (w == generations[g][k] || (b % 2 == 1 && g + 1 < |generations| && w == generations[g + 1][k]))
  }

  ghost predicate ReaderInv(s: State)
  {
    && s.callFrom <= s.bumps
    && match s.reader
       case Idle => s.work <= 6 * (s.failures + 1) && s.failures <= s.bumps - s.callFrom
       case Attempting => s.work == 6 * s.failures && s.failures <= s.bumps - s.callFrom
       case Copying(local, done) =>
         && done <= ALL_WORDS && s.work == 6 * s.failures + 1 + |done|
         && s.failures <= s.attemptFrom - s.callFrom && s.attemptFrom <= s.bumps
         && local == s.attemptFrom % TWO_32
         && (s.bumps == s.attemptFrom ==>
               forall k: nat | k < WORDS && k in done :: WordFrom(s.generations, s.attemptFrom, k, s.buffer[k]))
  }

  /** What an accepted snapshot is worth when fewer than 2^32 increments happened meanwhile. */
  ghost predicate ReadInv(generations: seq<Message>, r: Read)
  {
    && r.from <= r.to && r.counter == r.from % TWO_32 == r.to % TWO_32
    && (r.to - r.from < TWO_32 ==>
          && r.from == r.to
          && forall k: nat | k < WORDS :: WordFrom(generations, r.from, k, r.snapshot[k]))
  }

  ghost predicate HistoryInv(s: State)
  {
    && (forall i | 0 <= i < |s.accepted| :: ReadInv(s.generations, s.accepted[i]))
    && (forall i, j | 0 <= i < j < |s.accepted| :: s.accepted[i].to <= s.accepted[j].from)
    && (forall i | 0 <= i < |s.accepted| ::
          s.accepted[i].to <= s.callFrom || (s.reader.Idle? && s.accepted[i].to <= s.bumps))
  }

  ghost predicate Inv(s: State)
  {
    PublisherInv(s) && ReaderInv(s) && HistoryInv(s)
  }

  lemma AddWord(done: set<nat>, k: nat)
    requires done <= ALL_WORDS && k < WORDS && k !in done
    ensures done + {k} <= ALL_WORDS && |done + {k}| == |done| + 1
  {
  }

  lemma NoWrapMeansSame(a: nat, b: nat)
    requires a <= b < a + TWO_32 && a % TWO_32 == b % TWO_32
    ensures a == b
  {
  }

  predicate IsPublisherStep(step: Step)
  {
    step.Begin? || step.StartStore? || step.StoreWord? || step.End?
  }

  /** What a publisher step leaves alone. */
  ghost predicate ReaderUntouched(s: State, t: State)
  {
    && t.reader == s.reader && t.buffer == s.buffer && t.attemptFrom == s.attemptFrom
    && t.callFrom == s.callFrom && t.failures == s.failures && t.work == s.work
    && t.origins == s.origins && t.accepted == s.accepted
    && s.bumps <= t.bumps && s.generations <= t.generations
  }

  lemma StoreKeepsPublisherInv(s: State, k: nat)
    requires PublisherInv(s)
    ensures PublisherInv(Apply(s, StoreWord(k)))
  {
    if s.publisher.Storing? && k < WORDS && k !in s.publisher.done {
      AddWord(s.publisher.done, k);
    }
  }

  /** One increment: the counter follows, and the generation changes when an odd count becomes even. */
  lemma BumpCounts(s: State)
    requires s.counter == s.bumps % TWO_32
    ensures Bump(s).counter == Bump(s).bumps % TWO_32 && Bump(s).bumps % 2 == 1 - s.bumps % 2
    ensures Generation(Bump(s).bumps) == Generation(s.bumps) + s.bumps % 2
  {
    NextModulo(s.bumps);
    NextHalf(s.bumps);
  }

  lemma NextHalf(b: nat)
    ensures (b + 1) % 2 == 1 - b % 2 && (b + 1) / 2 == b / 2 + b % 2
  {
  }

  lemma NextModulo(b: nat)
    ensures (b % TWO_32 + 1) % TWO_32 == (b + 1) % TWO_32
  {
    var q, r := b / TWO_32, b % TWO_32;
    if r + 1 < TWO_32 {
      ModUnique(b + 1, TWO_32, q, r + 1);
    } else {
      ModUnique(b + 1, TWO_32, q + 1, 0);
    }
  }

  lemma ParityKept(b: nat)
    ensures (b % TWO_32) % 2 == b % 2
  {
    var q, r := b / TWO_32, b % TWO_32;
    ModUnique(b, 2, 0x8000_0000 * q + r / 2, r % 2);
  }

  lemma StoredWhole(s: State)
    requires PublisherInv(s) && s.publisher.Storing? && s.publisher.done == ALL_WORDS
    ensures s.shared == s.publisher.msg
  {
    forall k | 0 <= k < WORDS ensures s.shared[k] == s.publisher.msg[k] {
      assert k in s.publisher.done;
    }
  }

  lemma EndKeepsPublisherInv(s: State)
    requires PublisherInv(s)
    ensures PublisherInv(Apply(s, End))
  {
    if s.publisher.Storing? && s.publisher.done == ALL_WORDS {
      hide Generation, Bump;
      StoredWhole(s);
      BumpCounts(s);
      BumpKeeps(s);
    }
  }

  lemma PublisherLeavesRest(s: State, step: Step)
    requires IsPublisherStep(step)
    ensures ReaderUntouched(s, Apply(s, step))
  {
    hide PublisherInv;
  }

  lemma BeginKeepsPublisherInv(s: State, step: Step)
    requires PublisherInv(s) && (step.Begin? || step.StartStore?)
    ensures PublisherInv(Apply(s, step))
  {
    hide Generation, Bump;
    BumpCounts(s);
    BumpKeeps(s);
  }

  lemma BumpKeeps(s: State)
    ensures Bump(s) == s.(counter := Bump(s).counter, bumps := Bump(s).bumps)
  {
  }

  lemma PublisherStep(s: State, step: Step)
    requires PublisherInv(s) && IsPublisherStep(step)
    ensures PublisherInv(Apply(s, step)) && ReaderUntouched(s, Apply(s, step))
  {
    hide PublisherInv, ReaderUntouched, Apply;
    PublisherLeavesRest(s, step);
    match step
    case StoreWord(k) => StoreKeepsPublisherInv(s, k);
    case End => EndKeepsPublisherInv(s);
    case _ => BeginKeepsPublisherInv(s, step);
  }

  lemma ReaderInvFramed(s: State, t: State)
    requires ReaderInv(s) && ReaderUntouched(s, t)
    ensures ReaderInv(t)
  {
  }

  lemma HistoryInvFramed(s: State, t: State)
    requires HistoryInv(s) && ReaderUntouched(s, t)
    ensures HistoryInv(t)
  {
    forall i | 0 <= i < |t.accepted| ensures ReadInv(t.generations, t.accepted[i]) {
      assert ReadInv(s.generations, s.accepted[i]);
    }
  }

  lemma PublisherStepKeepsInv(s: State, step: Step)
    requires Inv(s) && IsPublisherStep(step)
    ensures Inv(Apply(s, step))
  {
    PublisherStep(s, step);
    ReaderInvFramed(s, Apply(s, step));
    HistoryInvFramed(s, Apply(s, step));
  }

  lemma LoadWordKeepsInv(s: State, k: nat)
    requires Inv(s)
    ensures Inv(Apply(s, LoadWord(k)))
  {
    if s.reader.Copying? && k < WORDS && k !in s.reader.done {
      AddWord(s.reader.done, k);
    }
  }

  lemma CompareKeepsInv(s: State)
    requires Inv(s)
    ensures Inv(Apply(s, Compare))
  {
    var s' := Apply(s, Compare);
    if s.reader.Copying? && s.reader.done == ALL_WORDS {
      assert |ALL_WORDS| == 4;
      if s.reader.localcounter == s.counter {
        var r := s'.accepted[|s.accepted|];
        if r.to - r.from < TWO_32 {
          NoWrapMeansSame(r.from, r.to);
          forall k: nat | k < WORDS ensures WordFrom(s.generations, r.from, k, r.snapshot[k]) {
            assert k in s.reader.done;
          }
        }
        assert ReadInv(s.generations, r);
      } else {
        assert s.bumps > s.attemptFrom;
      }
    }
  }

  lemma StartKeepsInv(s: State, step: Step)
    requires Inv(s) && (step.CallRead? || step.Load?)
    ensures Inv(Apply(s, step))
  {
  }

  lemma StepKeepsInv(s: State, step: Step)
    requires Inv(s)
    ensures Inv(Apply(s, step))
  {
    hide Inv, Apply;
    match step
    case LoadWord(k) => LoadWordKeepsInv(s, k);
    case Compare => CompareKeepsInv(s);
    case CallRead => StartKeepsInv(s, step);
    case Load => StartKeepsInv(s, step);
    case _ => PublisherStepKeepsInv(s, step);
  }

  lemma {:induction false} RunKeepsInv(s: State, schedule: seq<Step>)
    requires Inv(s)
    ensures Inv(Run(Apply, s, schedule))
    decreases |schedule|
  {
    if schedule != [] {
      StepKeepsInv(s, schedule[0]);
      RunKeepsInv(Apply(s, schedule[0]), schedule[1..]);
    }
  }

  /** In every schedule, every snapshot accepted with an even counter after fewer than 2^32
      increments is one whole published buffer, the one complete when the attempt started; accepted
      with an odd counter, each of its words comes from that buffer or from the next one. */
  lemma AcceptedSnapshots(schedule: seq<Step>, i: nat)
    requires i < |Run(Apply, INITIAL, schedule).accepted|
    ensures var s := Run(Apply, INITIAL, schedule);
            var r := s.accepted[i];
            var g := Generation(r.from);
            r.to - r.from < TWO_32 ==>
              && g < |s.generations|
              && (r.counter % 2 == 0 ==> r.snapshot == s.generations[g])
              && (r.counter % 2 == 1 ==> forall k | 0 <= k < WORDS ::
                    || r.snapshot[k] == s.generations[g][k]
                    || (g + 1 < |s.generations| && r.snapshot[k] == s.generations[g + 1][k]))
  {
    RunKeepsInv(INITIAL, schedule);
    var s := Run(Apply, INITIAL, schedule);
    var r := s.accepted[i];
    assert ReadInv(s.generations, r);
    if r.to - r.from < TWO_32 {
      assert WordFrom(s.generations, r.from, 0, r.snapshot[0]);
      ParityKept(r.from);
      forall k: nat | k < WORDS
        ensures r.counter % 2 == 0 ==> r.snapshot[k] == s.generations[Generation(r.from)][k]
      {
        assert WordFrom(s.generations, r.from, k, r.snapshot[k]);
      }
    }
  }

  // ---- where the words of a snapshot came from ----

  /** Word k, of value w, is word k of generation o. */
  ghost predicate Came(generations: seq<Message>, o: nat, k: nat, w: Word64)
    requires k < WORDS
  {
    o < |generations| && w == generations[o][k]
  }

  /** The word came from the generation complete after b increments, or from the next one when a
      publication was in progress. */
  predicate Near(b: nat, o: nat)
  {
    o == Generation(b) || (b % 2 == 1 && o == Generation(b) + 1)
  }

  /** What is known of word k: it is what its origin says, no earlier read has it from a later
      generation, and the shared buffer has not gone back since. */
  ghost predicate WordInv(s: State, k: nat)
    requires k < WORDS
  {
    && Came(s.generations, Level(s, k), k, s.shared[k])
    && (forall i | 0 <= i < |s.accepted| ::
          && Came(s.generations, s.accepted[i].origins[k], k, s.accepted[i].snapshot[k])
          && s.accepted[i].origins[k] <= Level(s, k)
          && (s.accepted[i].from == s.accepted[i].to ==> Near(s.accepted[i].from, s.accepted[i].origins[k])))
    && (forall i, j | 0 <= i < j < |s.accepted| :: s.accepted[i].origins[k] <= s.accepted[j].origins[k])
    && (s.reader.Copying? && k in s.reader.done ==>
          && Came(s.generations, s.origins[k], k, s.buffer[k]) && s.origins[k] <= Level(s, k)
          && (s.bumps == s.attemptFrom ==> Near(s.bumps, s.origins[k]))
          && (forall i | 0 <= i < |s.accepted| :: s.accepted[i].origins[k] <= s.origins[k]))
  }

  lemma LevelHolds(s: State, k: nat)
    requires PublisherInv(s) && k < WORDS
    ensures Came(s.generations, Level(s, k), k, s.shared[k]) && Near(s.bumps, Level(s, k))
  {
  }

  lemma LevelRises(s: State, step: Step, k: nat)
    requires PublisherInv(s) && IsPublisherStep(step) && k < WORDS
    ensures Level(s, k) <= Level(Apply(s, step), k)
  {
  }

  lemma PublisherKeepsWord(s: State, step: Step, k: nat)
    requires Inv(s) && IsPublisherStep(step) && k < WORDS && WordInv(s, k)
    ensures WordInv(Apply(s, step), k)
  {
    hide Apply, PublisherInv, ReaderInv, HistoryInv, Level, Near;
    var t := Apply(s, step);
    PublisherStep(s, step);
    LevelHolds(t, k);
    LevelRises(s, step, k);
    BumpsRise(s, step);
    forall i | 0 <= i < |s.accepted|
      ensures Came(t.generations, t.accepted[i].origins[k], k, t.accepted[i].snapshot[k])
    {
      assert Came(s.generations, s.accepted[i].origins[k], k, s.accepted[i].snapshot[k]);
    }
  }

  lemma BumpsRise(s: State, step: Step)
    requires ReaderInv(s)
    ensures s.reader.Copying? ==> s.attemptFrom <= s.bumps <= Apply(s, step).bumps
  {
  }

  lemma ReaderKeepsWord(s: State, step: Step, k: nat)
    requires Inv(s) && !IsPublisherStep(step) && k < WORDS && WordInv(s, k)
    ensures WordInv(Apply(s, step), k)
  {
    hide Near, Came, ReaderInv, HistoryInv, PublisherInv;
    LevelHolds(s, k);
    CompleteCopy(s, k);
  }

  lemma CompleteCopy(s: State, k: nat)
    requires Inv(s) && k < WORDS
    ensures s.reader.Copying? && s.reader.done == ALL_WORDS ==> k in s.reader.done
  {
  }

  lemma InitialWord(k: nat)
    requires k < WORDS
    ensures WordInv(INITIAL, k)
  {
  }

  lemma {:induction false} RunKeepsWord(s: State, schedule: seq<Step>, k: nat)
    requires Inv(s) && k < WORDS && WordInv(s, k)
    ensures WordInv(Run(Apply, s, schedule), k)
    decreases |schedule|
  {
    hide Inv, WordInv, Apply;
    if schedule != [] {
      var step := schedule[0];
      StepKeepsInv(s, step);
      if IsPublisherStep(step) { PublisherKeepsWord(s, step, k); } else { ReaderKeepsWord(s, step, k); }
      RunKeepsWord(Apply(s, step), schedule[1..], k);
    }
  }

  /** In every schedule no word of a later read comes from an older generation than the same word of an
      earlier read, odd or even. With fewer than 2^32 increments during each of the two attempts the
      origins are the generations of AcceptedSnapshots; two even reads are two whole buffers in order. */
  lemma ReadsNeverGoBack(schedule: seq<Step>, i: nat, j: nat)
    requires i < j < |Run(Apply, INITIAL, schedule).accepted|
    ensures var s := Run(Apply, INITIAL, schedule);
            var a, b := s.accepted[i], s.accepted[j];
            && (forall k | 0 <= k < WORDS ::
                  && a.origins[k] <= b.origins[k] < |s.generations|
                  && a.snapshot[k] == s.generations[a.origins[k]][k]
                  && b.snapshot[k] == s.generations[b.origins[k]][k])
            && Generation(a.from) <= Generation(a.to) <= Generation(b.from)
            && (a.to - a.from < TWO_32 ==> forall k | 0 <= k < WORDS :: Near(a.from, a.origins[k]))
            && (b.to - b.from < TWO_32 ==> forall k | 0 <= k < WORDS :: Near(b.from, b.origins[k]))
            && (a.to - a.from < TWO_32 && b.to - b.from < TWO_32 && a.counter % 2 == b.counter % 2 == 0 ==>
                  && Generation(a.from) <= Generation(b.from) < |s.generations|
                  && a.snapshot == s.generations[Generation(a.from)]
                  && b.snapshot == s.generations[Generation(b.from)])
  {
    hide Run, Apply, Near;
    InitialInv();
    RunKeepsInv(INITIAL, schedule);
    var s := Run(Apply, INITIAL, schedule);
    var a, b := s.accepted[i], s.accepted[j];
    assert ReadInv(s.generations, a) && ReadInv(s.generations, b);
    forall k: nat | k < WORDS ensures WordInv(s, k) {
      InitialWord(k);
      RunKeepsWord(INITIAL, schedule, k);
    }
    forall k: nat | k < WORDS
      ensures a.origins[k] <= b.origins[k]
      ensures Came(s.generations, a.origins[k], k, a.snapshot[k]) && Came(s.generations, b.origins[k], k, b.snapshot[k])
      ensures a.from == a.to ==> Near(a.from, a.origins[k])
      ensures b.from == b.to ==> Near(b.from, b.origins[k])
    {
      assert WordInv(s, k);
    }
    AcceptedSnapshots(schedule, i);
    AcceptedSnapshots(schedule, j);
    InOrder(s, i, j);
  }

  lemma InOrder(s: State, i: nat, j: nat)
    requires Inv(s) && i < j < |s.accepted|
    ensures Generation(s.accepted[i].from) <= Generation(s.accepted[i].to) <= Generation(s.accepted[j].from)
  {
    hide PublisherInv, ReaderInv;
    assert ReadInv(s.generations, s.accepted[i]);
  }

  /** One call of receive_input fails at most once per increment made during it, and takes at most
      six steps per attempt: it ends whenever the publisher makes finitely many steps. */
  lemma ReaderProgress(schedule: seq<Step>)
    ensures var s := Run(Apply, INITIAL, schedule);
            && s.failures <= s.bumps - s.callFrom
            && s.work <= 6 * (s.bumps - s.callFrom + 1)
  {
    RunKeepsInv(INITIAL, schedule);
    var s := Run(Apply, INITIAL, schedule);
    if s.reader.Copying? {
      CardinalityBound(s.reader.done);
    }
  }

  lemma CardinalityBound(done: set<nat>)
    requires done <= ALL_WORDS
    ensures |done| <= 4
  {
    var rest := ALL_WORDS - done;
    assert rest + done == ALL_WORDS;
    assert |rest + done| == |rest| + |done|;
  }

  /** A call in progress always has a step to take, and that step counts as work. */
  lemma ReaderNeverBlocks(schedule: seq<Step>)
    requires !Run(Apply, INITIAL, schedule).reader.Idle?
    ensures var s := Run(Apply, INITIAL, schedule);
            exists step :: !IsPublisherStep(step) && Apply(s, step).work == s.work + 1
  {
    hide Run;
    RunKeepsInv(INITIAL, schedule);
    var s := Run(Apply, INITIAL, schedule);
    var step :=
      if s.reader.Attempting? then Load
      else if s.reader.done == ALL_WORDS then Compare
      else if 0 !in s.reader.done then LoadWord(0)
      else if 1 !in s.reader.done then LoadWord(1)
      else if 2 !in s.reader.done then LoadWord(2)
      else LoadWord(3);
    assert !IsPublisherStep(step) && Apply(s, step).work == s.work + 1;
  }

  // ---- one whole publication, and the runs that show the conditions are exact ----

  /** The effect of one SPIReadProcRamFifo that received m, with no reader in between. */
  function PublishEffect(s: State, m: Message): State
  {
    s.(counter := (s.counter + 2) % TWO_32, shared := m, bumps := s.bumps + 2,
       generations := s.generations + [m])
  }

  const STORE: seq<Step> := [StoreWord(0), StoreWord(1), StoreWord(2), StoreWord(3)]

  function PublishSteps(m: Message): seq<Step>
  {
    [Begin, StartStore(m)] + STORE + [End]
  }

  lemma InitialInv()
    ensures Inv(INITIAL)
  {
  }

  lemma StoreAll(s: State, m: Message)
    requires s.publisher == Storing(m, {})
    ensures Run(Apply, s, [StoreWord(0), StoreWord(1), StoreWord(2), StoreWord(3)]) ==
            s.(shared := m, publisher := Storing(m, ALL_WORDS))
  {
    hide Run;
    RunFour(Apply, s, StoreWord(0), StoreWord(1), StoreWord(2), StoreWord(3));
    var s4 := Apply(Apply(Apply(Apply(s, StoreWord(0)), StoreWord(1)), StoreWord(2)), StoreWord(3));
    assert s4.shared == m;
    assert s4.publisher.done == ALL_WORDS;
  }

  lemma BumpTwice(c: Word32)
    ensures ((c + 1) % TWO_32 + 1) % TWO_32 == (c + 2) % TWO_32
  {
  }

  function Stored(s: State, m: Message): State
  {
    Bump(s).(generations := s.generations + [m], shared := m, publisher := Storing(m, ALL_WORDS))
  }

  lemma PublishPieces(s: State, m: Message)
    requires s.publisher.Quiet?
    ensures Run(Apply, s, [Begin, StartStore(m)] + [StoreWord(0), StoreWord(1), StoreWord(2), StoreWord(3)]) ==
            Stored(s, m)
  {
    hide Run;
    RunAppend(Apply, s, [Begin, StartStore(m)], [StoreWord(0), StoreWord(1), StoreWord(2), StoreWord(3)]);
    RunTwo(Apply, s, Begin, StartStore(m));
    StoreAll(Apply(Apply(s, Begin), StartStore(m)), m);
  }

  lemma EndEffect(s: State, m: Message)
    requires s.publisher.Quiet?
    ensures Apply(Stored(s, m), End) == PublishEffect(s, m)
  {
    BumpTwice(s.counter);
  }

  /** The steps of a publication, run without interference, have exactly PublishEffect. */
  lemma PublishRuns(s: State, m: Message)
    requires s.publisher.Quiet?
    ensures Run(Apply, s, PublishSteps(m)) == PublishEffect(s, m)
  {
    hide Run, Stored;
    var steps := [Begin, StartStore(m)] + [StoreWord(0), StoreWord(1), StoreWord(2), StoreWord(3)];
    PublishPieces(s, m);
    EndEffect(s, m);
    assert PublishSteps(m) == steps + [End];
    assert Run(Apply, s, steps + [End]) == Run(Apply, Stored(s, m), [End]) by {
      RunAppend(Apply, s, steps, [End]);
    }
    assert Run(Apply, Stored(s, m), [End]) == Apply(Stored(s, m), End) by {
      RunLast(Apply, Stored(s, m), End);
    }
  }

  lemma PublishKeepsInv(s: State, m: Message)
    requires Inv(s) && s.publisher.Quiet?
    ensures Inv(PublishEffect(s, m))
  {
    hide Run, PublishSteps, PublishEffect, Inv;
    PublishRuns(s, m);
    RunKeepsInv(s, PublishSteps(m));
  }

  function ManyPublications(m: Message, n: nat): seq<Step>
  {
    if n == 0 then [] else ManyPublications(m, n - 1) + PublishSteps(m)
  }

  lemma {:induction false} ManyPublicationsRun(s: State, m: Message, n: nat)
    requires Inv(s) && s.publisher.Quiet?
    ensures var t := Run(Apply, s, ManyPublications(m, n));
            && Inv(t) && t.publisher.Quiet? && ReaderUntouched(s, t)
            && t.bumps == s.bumps + 2 * n
            && (n > 0 ==> t.shared == m)
            && (forall g | |s.generations| <= g < |t.generations| :: t.generations[g] == m)
  {
    hide Apply, PublishSteps;
    RunKeepsInv(s, ManyPublications(m, n));
    if n > 0 {
      ManyPublicationsRun(s, m, n - 1);
      RunAppend(Apply, s, ManyPublications(m, n - 1), PublishSteps(m));
      PublishRuns(Run(Apply, s, ManyPublications(m, n - 1)), m);
    }
  }

  const ONES: Message := [1, 1, 1, 1]
  const TWOS: Message := [2, 2, 2, 2]

  /** A reader that is at the start of a call takes word 0 of the shared buffer. */
  lemma StartRead(s: State)
    requires Inv(s) && s.reader.Idle?
    ensures var t := Run(Apply, s, [CallRead, Load] + [LoadWord(0)]);
            && Inv(t)
            && t == s.(reader := Copying(s.counter, {0}), buffer := s.buffer[0 := s.shared[0]],
                       callFrom := s.bumps, attemptFrom := s.bumps, failures := 0, work := 2,
                       origins := s.origins[0 := Level(s, 0)])
  {
    hide Run;
    RunKeepsInv(s, [CallRead, Load] + [LoadWord(0)]);
    RunAppend(Apply, s, [CallRead, Load], [LoadWord(0)]);
    RunTwo(Apply, s, CallRead, Load);
    RunLast(Apply, Run(Apply, s, [CallRead, Load]), LoadWord(0));
    assert {} + {0} == {0};
  }

  /** A reader that holds word 0 takes the other words and compares. */
  lemma EndRead(s: State)
    requires s.reader.Copying? && s.reader.done == {0} && s.reader.localcounter == s.counter
    ensures var t := Run(Apply, s, [LoadWord(1), LoadWord(2)] + [LoadWord(3), Compare]);
            && |t.accepted| == |s.accepted| + 1 && t.accepted[..|s.accepted|] == s.accepted
            && t.accepted[|s.accepted|].counter == s.counter
            && t.accepted[|s.accepted|].from == s.attemptFrom && t.accepted[|s.accepted|].to == s.bumps
            && t.accepted[|s.accepted|].snapshot == [s.buffer[0], s.shared[1], s.shared[2], s.shared[3]]
            && t.generations == s.generations
  {
    hide Run;
    var s1 := Apply(s, LoadWord(1));
    var s2 := Apply(s1, LoadWord(2));
    var s3 := Apply(s2, LoadWord(3));
    RunAppend(Apply, s, [LoadWord(1), LoadWord(2)], [LoadWord(3), Compare]);
    RunTwo(Apply, s, LoadWord(1), LoadWord(2));
    RunTwo(Apply, s2, LoadWord(3), Compare);
    assert s3.reader.done == ALL_WORDS;
    assert s3.buffer == [s.buffer[0], s.shared[1], s.shared[2], s.shared[3]];
  }

  /** A read accepted with counter c, begun and accepted after c increments, is whole. */
  ghost predicate ReadIsWhole(s: State, c: nat)
  {
    forall i | 0 <= i < |s.accepted| ::
      s.accepted[i].from == s.accepted[i].to == c ==> s.accepted[i].snapshot in s.generations
  }

  /** What a caller may rely on for snapshots accepted at counter c. */
  ghost predicate ReadsAreWhole(c: nat)
  {
    forall schedule: seq<Step> :: ReadIsWhole(Run(Apply, INITIAL, schedule), c)
  }

  function OddSchedule(c: nat): seq<Step>
  {
    ManyPublications(ONES, c / 2) + [Begin, StartStore(TWOS)] +
    ([CallRead, Load] + [LoadWord(0)]) +
    [StoreWord(0), StoreWord(1), StoreWord(2), StoreWord(3)] +
    ([LoadWord(1), LoadWord(2)] + [LoadWord(3), Compare])
  }

  /** A snapshot accepted with an odd counter can mix two buffers and equal none. */
  lemma OddReadCanTear(c: nat)
    requires c % 2 == 1
    ensures !ReadIsWhole(Run(Apply, INITIAL, OddSchedule(c)), c)
  {
    hide Run, ManyPublications;
    var p1, p2 := ManyPublications(ONES, c / 2), [Begin, StartStore(TWOS)];
    var p3, p4 := [CallRead, Load] + [LoadWord(0)], [StoreWord(0), StoreWord(1), StoreWord(2), StoreWord(3)];
    var p5 := [LoadWord(1), LoadWord(2)] + [LoadWord(3), Compare];
    RunAppend(Apply, INITIAL, p1 + p2 + p3 + p4, p5);
    RunAppend(Apply, INITIAL, p1 + p2 + p3, p4);
    RunAppend(Apply, INITIAL, p1 + p2, p3);
    RunAppend(Apply, INITIAL, p1, p2);
    ManyPublicationsRun(INITIAL, ONES, c / 2);
    var s1 := Run(Apply, INITIAL, p1);
    RunKeepsInv(s1, p2);
    RunTwo(Apply, s1, Begin, StartStore(TWOS));
    var s2 := Run(Apply, s1, p2);
    StartRead(s2);
    var s3 := Run(Apply, s2, p3);
    StoreAll(s3, TWOS);
    var s4 := Run(Apply, s3, p4);
    EndRead(s4);
    var s5 := Run(Apply, s4, p5);
    assert s5.accepted[0].snapshot == [s1.shared[0], 2, 2, 2];
    MixIsNew(s5.generations, s1.shared[0]);
  }

  lemma MixIsNew(generations: seq<Message>, w: Word64)
    requires w == 0 || w == 1
    requires |generations| > 0 && generations[0] == ZERO_MESSAGE
    requires forall g | 1 <= g < |generations| :: generations[g] == ONES || generations[g] == TWOS
    ensures [w, 2, 2, 2] !in generations
  {
    forall g | 0 <= g < |generations| ensures generations[g] != [w, 2, 2, 2] {
      assert generations[g][0] != [w, 2, 2, 2][0] || generations[g][1] != [w, 2, 2, 2][1];
    }
  }

  /** Untorn snapshots are guaranteed exactly for even counters. */
  lemma WholeExactlyWhenEven(c: nat)
    ensures ReadsAreWhole(c) <==> c % 2 == 0
  {
    if c % 2 == 0 {
      forall schedule: seq<Step> ensures ReadIsWhole(Run(Apply, INITIAL, schedule), c) {
        var s := Run(Apply, INITIAL, schedule);
        forall i | 0 <= i < |s.accepted| && s.accepted[i].from == s.accepted[i].to == c
          ensures s.accepted[i].snapshot in s.generations
        {
          RunKeepsInv(INITIAL, schedule);
          assert ReadInv(s.generations, s.accepted[i]);
          AcceptedSnapshots(schedule, i);
        }
      }
    } else {
      OddReadCanTear(c);
    }
  }

  /** A read accepted with an even counter, d increments after its attempt started, is the buffer
      that was complete when the attempt started. */
  ghost predicate EvenReadIsWhole(s: State, d: nat)
  {
    forall i | 0 <= i < |s.accepted| ::
      s.accepted[i].from % 2 == 0 && s.accepted[i].to - s.accepted[i].from == d ==>
        && Generation(s.accepted[i].from) < |s.generations|
        && s.accepted[i].snapshot == s.generations[Generation(s.accepted[i].from)]
  }

  ghost predicate EvenReadsAreWhole(d: nat)
  {
    forall schedule: seq<Step> :: EvenReadIsWhole(Run(Apply, INITIAL, schedule), d)
  }

  function WrapSchedule(d: nat): seq<Step>
  {
    ([CallRead, Load] + [LoadWord(0)]) + ManyPublications(TWOS, d / 2) +
    ([LoadWord(1), LoadWord(2)] + [LoadWord(3), Compare])
  }

  /** A counter that wraps all the way round during one attempt hides the change. */
  lemma WrapCanTear(d: nat)
    requires d > 0 && d % TWO_32 == 0
    ensures !EvenReadIsWhole(Run(Apply, INITIAL, WrapSchedule(d)), d)
  {
    hide Run, Apply, ManyPublications;
    var p1, p2 := [CallRead, Load] + [LoadWord(0)], ManyPublications(TWOS, d / 2);
    var p3 := [LoadWord(1), LoadWord(2)] + [LoadWord(3), Compare];
    RunAppend(Apply, INITIAL, p1 + p2, p3);
    RunAppend(Apply, INITIAL, p1, p2);
    StartRead(INITIAL);
    var s1 := Run(Apply, INITIAL, p1);
    ManyPublicationsRun(s1, TWOS, d / 2);
    var s2 := Run(Apply, s1, p2);
    assert s2.bumps == d;
    EndRead(s2);
    var s3 := Run(Apply, s2, p3);
    assert s3.accepted[0].snapshot == [0, 2, 2, 2];
    assert s3.accepted[0].from == 0 && s3.accepted[0].to == d;
    assert s3.generations[0] == ZERO_MESSAGE;
  }

  /** The guarantee for even counters fails exactly when the counter went all the way round. */
  lemma WrapConditionIsExact(d: nat)
    ensures EvenReadsAreWhole(d) <==> d == 0 || d % TWO_32 != 0
  {
    if d == 0 || d % TWO_32 != 0 {
      forall schedule: seq<Step> ensures EvenReadIsWhole(Run(Apply, INITIAL, schedule), d) {
        RunKeepsInv(INITIAL, schedule);
        var s := Run(Apply, INITIAL, schedule);
        forall i | 0 <= i < |s.accepted| && s.accepted[i].from % 2 == 0 && s.accepted[i].to - s.accepted[i].from == d
          ensures && Generation(s.accepted[i].from) < |s.generations|
                  && s.accepted[i].snapshot == s.generations[Generation(s.accepted[i].from)]
        {
          assert ReadInv(s.generations, s.accepted[i]);
          AcceptedDistance(s.accepted[i].from, s.accepted[i].to);
          AcceptedSnapshots(schedule, i);
        }
      }
    } else {
      WrapCanTear(d);
    }
  }

  lemma AcceptedDistance(from: nat, to: nat)
    requires from <= to && from % TWO_32 == to % TWO_32
    ensures (to - from) % TWO_32 == 0
  {
  }

  lemma PublisherLeavesReader(start: State, s: State, step: Step)
    requires ReaderUntouched(start, s) && IsPublisherStep(step)
    ensures ReaderUntouched(start, Apply(s, step)) && Apply(s, step).bumps <= s.bumps + 1
  {
  }

  /** The words 0..k. */
  function FirstWords(k: nat): set<nat>
    requires k <= WORDS
  {
    if k == 0 then {} else FirstWords(k - 1) + {k - 1}
  }

  lemma FirstWordsEnds()
    ensures FirstWords(0) == {} && FirstWords(WORDS) == ALL_WORDS
  {
    assert FirstWords(4) == FirstWords(3) + {3} == FirstWords(2) + {2, 3} == FirstWords(1) + {1, 2, 3};
  }

  lemma {:induction false} FirstWordsHave(k: nat, j: nat)
    requires k <= WORDS
    ensures j in FirstWords(k) <==> j < k
  {
    if k > 0 {
      FirstWordsHave(k - 1, j);
    }
  }

  /** A counter that differs from the one loaded was incremented since. */
  lemma ChangedMeansBumped(s: State)
    requires Inv(s) && s.reader.Copying?
    ensures s.attemptFrom <= s.bumps && (s.reader.localcounter != s.counter ==> s.bumps > s.attemptFrom)
  {
  }

  // ---- receive_input itself, with the publisher running in between ----

  /** The object shared by the two threads. Between two accesses of the reader the publisher may run:
      `plan` is what it still does, and `pauses` how many steps it makes at each such point. */
  class InboundPort {
    var st: State
    var plan: seq<Step>
    const pauses: seq<nat>
    var paused: nat                // points passed
    ghost var schedule: seq<Step>  // the run so far

    ghost predicate Valid()
      reads this
    {
      && st == Run(Apply, INITIAL, schedule)
      && forall i | 0 <= i < |plan| :: IsPublisherStep(plan[i])
    }

    constructor (plan: seq<Step>, pauses: seq<nat>)
      requires forall i | 0 <= i < |plan| :: IsPublisherStep(plan[i])
      ensures Valid() && st == INITIAL && this.plan == plan && this.pauses == pauses && paused == 0
    {
      st, schedule, paused := INITIAL, [], 0;
      this.plan, this.pauses := plan, pauses;
    }

    /** One step of the run. */
    method Do(step: Step)
      requires Valid()
      modifies this`st, this`schedule
      ensures Valid() && st == Apply(old(st), step) && schedule == old(schedule) + [step]
    {
      st := Apply(st, step);
      RunAppend(Apply, INITIAL, schedule, [step]);
      schedule := schedule + [step];
    }

    /** The publisher makes the steps that are due: as many as the list says, or, if that is more than it
        has or the list is used up, all it has left. */
    method Interfere()
      requires Valid()
      modifies this
      ensures Valid() && ReaderUntouched(old(st), st) && paused == old(paused) + 1
      ensures |plan| == if old(paused) < |pauses| && pauses[old(paused)] <= old(|plan|) then
                          old(|plan|) - pauses[old(paused)]
                        else 0
      ensures var n := old(|plan|) - |plan|; plan == old(plan)[n..] && schedule == old(schedule) + old(plan)[..n]
      ensures st.bumps - old(st.bumps) <= old(|plan|) - |plan|
    {
      ghost var plan0 := plan;
      var due := |plan|;
      if paused < |pauses| && pauses[paused] < due {
        due := pauses[paused];
      }
      for i := 0 to due
        invariant Valid() && ReaderUntouched(old(st), st) && plan == plan0[i..] && paused == old(paused)
        invariant schedule == old(schedule) + plan0[..i] && st.bumps - old(st.bumps) <= i
      {
        var step := plan[0];
        PublisherLeavesReader(old(st), st, step);
        Do(step);
        plan := plan[1..];
        assert plan0[..i + 1] == plan0[..i] + [step];
      }
      paused := paused + 1;
    }

    /** The structure copy of receive_input, word by word, with the publisher in between. */
    method CopyBuffer()
      requires Valid() && st.reader.Copying? && st.reader.done == {}
      modifies this
      ensures Valid() && st.reader == Copying(old(st.reader.localcounter), ALL_WORDS)
      ensures st.accepted == old(st.accepted) && st.attemptFrom == old(st.attemptFrom)
      ensures paused == old(paused) + WORDS && st.failures == old(st.failures)
      ensures |plan| <= old(|plan|) && 0 <= st.bumps - old(st.bumps) <= old(|plan|) - |plan|
    {
      var k := 0;
      while k < WORDS
        invariant 0 <= k <= WORDS && Valid()
        invariant st.reader == Copying(old(st.reader.localcounter), FirstWords(k))
        invariant st.accepted == old(st.accepted) && st.attemptFrom == old(st.attemptFrom)
        invariant paused == old(paused) + k && st.failures == old(st.failures)
        invariant |plan| <= old(|plan|) && 0 <= st.bumps - old(st.bumps) <= old(|plan|) - |plan|
      {
        FirstWordsHave(k, k);
        Do(LoadWord(k));
        Interfere();
        k := k + 1;
      }
      FirstWordsEnds();
    }

    /** One pass of the loop: load the counter and copy the buffer. */
    method Attempt() returns (localcounter: Word32)
      requires Valid() && st.reader.Attempting?
      modifies this
      ensures Valid() && st.reader == Copying(localcounter, ALL_WORDS)
      ensures paused == old(paused) + 1 + WORDS && st.failures == old(st.failures) && st.accepted == old(st.accepted)
      ensures old(st.bumps) <= st.attemptFrom <= st.bumps && |plan| <= old(|plan|)
      ensures localcounter != st.counter ==> st.bumps > st.attemptFrom && |plan| < old(|plan|)
    {
      hide Run, Inv, IsPublisherStep, Apply;
      Interfere();
      localcounter := st.counter;
      Loaded(st);
      Do(Load);
      CopyBuffer();
      InitialInv();
      RunKeepsInv(INITIAL, schedule);
      ChangedMeansBumped(st);
    }

    /** receive_input: copy the buffer until the counter is the same before and after. The publisher
        runs before every attempt and after every word of it. */
    method ReceiveInput() returns (snapshot: Message, localcounter: Word32)
      requires Valid() && st.reader.Idle?
      modifies this
      ensures Valid() && st.reader.Idle? && paused == old(paused) + (1 + WORDS) * (st.failures + 1)
      ensures |st.accepted| == |old(st.accepted)| + 1 && old(st.accepted) <= st.accepted
      ensures var r := st.accepted[|st.accepted| - 1];
              && r.counter == localcounter && r.snapshot == snapshot && old(st.bumps) <= r.from
              && (r.to - r.from < TWO_32 && localcounter % 2 == 0 ==>
                    Generation(r.from) < |st.generations| && snapshot == st.generations[Generation(r.from)])
              && (r.to - r.from < TWO_32 && localcounter % 2 == 1 ==>
                    var g := Generation(r.from);
                    && g < |st.generations|
                    && forall k | 0 <= k < WORDS ::
                         || snapshot[k] == st.generations[g][k]
                         || (g + 1 < |st.generations| && snapshot[k] == st.generations[g + 1][k]))
    {
      hide Run, Inv, IsPublisherStep;
      ghost var accepted := st.accepted;
      Do(CallRead);
      localcounter := Attempt();
      while localcounter != st.counter
        invariant Valid() && st.accepted == accepted && old(st.bumps) <= st.attemptFrom <= st.bumps
        invariant st.reader == Copying(localcounter, ALL_WORDS)
        invariant paused == old(paused) + (1 + WORDS) * (st.failures + 1)
        decreases |plan|, if localcounter != st.counter then 1 else 0
      {
        Do(Compare);
        localcounter := Attempt();
      }
      snapshot := st.buffer;
      Do(Compare);
      AcceptedSnapshots(schedule, |accepted|);
    }
  }

  lemma Loaded(s: State)
    requires s.reader.Attempting?
    ensures Apply(s, Load) == s.(reader := Copying(s.counter, {}), attemptFrom := s.bumps, work := s.work + 1)
  {
  }
}
