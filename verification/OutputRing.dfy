// The outbound hand-off: the application thread runs send_output while the real-time thread
// copies the slot named by m_curqoutidx at the start of SPIWriteProcRamFifo.
//
// Every access to a shared variable is one step, and a schedule is any sequence of steps of the
// two threads (sequential consistency). A step whose thread is not at that point has no effect,
// so every sequence of steps is a schedule.
module OutputRing {
  import opened Schedules
  import opened Words

  const QIN_SIZE: nat := 10

  /** Where the application thread is inside send_output. */
  datatype Sender =
    | Idle
    | Filling(msg: Message, i: nat)  // words 0..i of the slot are written
    | Published                      // m_curqoutidx is updated
    | Advanced                       // m_curqidx is incremented, not yet wrapped

  /** Where the real-time thread is in the structure copy into BufferIn. */
  datatype Copier =
    | Waiting
    | Copying(slot: nat, done: set<nat>)  // words may be copied in any order

  /** A finished copy: the number of messages published when it sampled the index, the sends that
      overtook it until it was finished, and what it copied. */
  datatype Copy = Copy(sampled: nat, overtakes: int, buffer: Message)

  datatype State = State(
    slots: seq<Message>,      // fromSlaveBufferIn
    curqidx: nat,             // m_curqidx
    curqoutidx: nat,          // m_curqoutidx
    sender: Sender,
    copier: Copier,
    bufferIn: Message,        // BufferIn
    // History, read by no step:
    published: seq<Message>,  // every message whose index was published, oldest first
    begun: nat,               // number of sends that have written a word
    sampled: nat,             // |published| when m_curqoutidx was last sampled
    copies: seq<Copy>         // the finished copies
  )

  datatype Step =
    | Call(msg: Message) | WriteWord | Publish | Advance | Wrap
    | Sample | CopyWord(k: nat) | Finish

  const FIVE_ZEROS: seq<Message> := [ZERO_MESSAGE, ZERO_MESSAGE, ZERO_MESSAGE, ZERO_MESSAGE, ZERO_MESSAGE]

  /** The state of the zero-initialised global object. */
  const INITIAL := State(FIVE_ZEROS + FIVE_ZEROS, 0, 0, Idle, Waiting, ZERO_MESSAGE, [], 0, 0, [])

  function Apply(s: State, step: Step): State
  {
    match step
    case Call(m) =>
      if s.sender.Idle? then s.(sender := Filling(m, 0)) else s
    case WriteWord =>
      if s.sender.Filling? && s.sender.i < WORDS && s.curqidx < |s.slots| then
        var i := s.sender.i;
        s.(slots := s.slots[s.curqidx := s.slots[s.curqidx][i := s.sender.msg[i]]],
           sender := Filling(s.sender.msg, i + 1),
           begun := if i == 0 then s.begun + 1 else s.begun)
      else s
    case Publish =>
      if s.sender.Filling? && s.sender.i == WORDS then
        s.(curqoutidx := s.curqidx, published := s.published + [s.sender.msg], sender := Published)
      else s
    case Advance =>
      if s.sender.Published? then s.(curqidx := s.curqidx + 1, sender := Advanced) else s
    case Wrap =>
      if s.sender.Advanced? then
        s.(curqidx := if s.curqidx >= QIN_SIZE then 0 else s.curqidx, sender := Idle)
      else s
    case Sample =>
      if s.copier.Waiting? then
        s.(copier := Copying(s.curqoutidx, {}), sampled := |s.published|)
      else s
    case CopyWord(k) =>
      if s.copier.Copying? && k < WORDS && k !in s.copier.done && s.copier.slot < |s.slots| then
        s.(bufferIn := s.bufferIn[k := s.slots[s.copier.slot][k]],
           copier := Copying(s.copier.slot, s.copier.done + {k}))
      else s
    case Finish =>
      if CopyComplete(s) then
        s.(copier := Waiting, copies := s.copies + [Copy(s.sampled, Overtakes(s), s.bufferIn)])
      else s
  }

  /** All words of the current copy are taken. */
  predicate CopyComplete(s: State)
  {
    s.copier.Copying? && forall k | 0 <= k < WORDS :: k in s.copier.done
  }

  /** The message that was the latest published one when the copy sampled m_curqoutidx. */
  function Expected(s: State): Message
    requires s.sampled <= |s.published|
  {
    Latest(s.published[..s.sampled])
  }

  /** Sends other than the expected one that had begun writing words by now. */
  function Overtakes(s: State): int
  {
    s.begun - s.sampled
  }

  /** How many overtaking sends a copy survives: none before the first publish. */
  function Allowance(s: State): nat
  {
    if s.sampled == 0 then 0 else QIN_SIZE - 1
  }

  function SlotOf(generation: nat): nat { generation % QIN_SIZE }

  ghost predicate SenderInv(s: State)
    requires |s.slots| == QIN_SIZE
  {
    var n := |s.published|;
    match s.sender
    case Idle => s.curqidx == SlotOf(n) && s.begun == n
    case Filling(m, i) =>
      && i <= WORDS && s.curqidx == SlotOf(n)
      && s.begun == (if i == 0 then n else n + 1)
      && (forall j | 0 <= j < i :: s.slots[SlotOf(n)][j] == m[j])
    case Published => n > 0 && s.curqidx == SlotOf(n - 1) && s.begun == n
    case Advanced => n > 0 && s.curqidx == SlotOf(n - 1) + 1 && s.begun == n
  }

  /** A slot keeps its message until the tenth later send begins. */
  ghost predicate SlotsInv(s: State)
    requires |s.slots| == QIN_SIZE
  {
    && (forall g: nat {:trigger s.published[g]} | g < |s.published| && s.begun <= g + QIN_SIZE ::
          s.slots[SlotOf(g)] == s.published[g])
    && (s.begun == 0 ==> s.slots[0] == ZERO_MESSAGE)
    && s.curqoutidx == (if s.published == [] then 0 else SlotOf(|s.published| - 1))
  }

  ghost predicate CopierInv(s: State)
  {
    && s.sampled <= |s.published|
    && (s.copier.Copying? ==>
          && s.copier.slot == (if s.sampled == 0 then 0 else SlotOf(s.sampled - 1))
          && (forall k | k in s.copier.done :: k < WORDS)
          && (Overtakes(s) <= Allowance(s) ==>
                forall k | k in s.copier.done :: s.bufferIn[k] == Expected(s)[k]))
  }

  ghost predicate Inv(s: State)
  {
    |s.slots| == QIN_SIZE && SenderInv(s) && SlotsInv(s) && CopierInv(s)
  }

  lemma SlotsDistinct(g: nat, n: nat)
    requires g < n < g + QIN_SIZE
    ensures SlotOf(g) != SlotOf(n)
  {
  }

  lemma NextSlot(n: nat)
    ensures SlotOf(n + 1) == if SlotOf(n) + 1 >= QIN_SIZE then 0 else SlotOf(n) + 1
  {
  }

  lemma WriteWordKeepsInv(s: State)
    requires Inv(s)
    ensures Inv(Apply(s, WriteWord))
  {
    var s' := Apply(s, WriteWord);
    if s.sender.Filling? && s.sender.i < WORDS {
      var n := |s.published|;
      forall g: nat | g < n && s'.begun <= g + QIN_SIZE
        ensures s'.slots[SlotOf(g)] == s'.published[g]
      {
        SlotsDistinct(g, n);
      }
    }
  }

  lemma PublishKeepsInv(s: State)
    requires Inv(s)
    ensures Inv(Apply(s, Publish))
  {
    var s' := Apply(s, Publish);
    if s.sender.Filling? && s.sender.i == WORDS {
      assert s'.slots[SlotOf(|s.published|)] == s.sender.msg;
      assert SlotsInv(s');
      assert s.sampled > 0 ==> Expected(s') == Expected(s);
    }
  }

  lemma CopyWordKeepsInv(s: State, k: nat)
    requires Inv(s)
    ensures Inv(Apply(s, CopyWord(k)))
  {
    if s.copier.Copying? && Overtakes(s) <= Allowance(s) && s.sampled > 0 {
      assert s.published[s.sampled - 1] == s.slots[SlotOf(s.sampled - 1)];
    }
  }

  lemma WrapKeepsInv(s: State)
    requires Inv(s)
    ensures Inv(Apply(s, Wrap))
  {
    if s.sender.Advanced? {
      NextSlot(|s.published| - 1);
    }
  }

  lemma SampleKeepsInv(s: State)
    requires Inv(s)
    ensures Inv(Apply(s, Sample))
  {
  }

  lemma CallOrAdvanceKeepsInv(s: State, step: Step)
    requires Inv(s) && (step.Call? || step.Advance? || step.Finish?)
    ensures Inv(Apply(s, step))
  {
  }

  lemma StepKeepsInv(s: State, step: Step)
    requires Inv(s)
    ensures Inv(Apply(s, step))
  {
    hide Inv, Apply;
    match step
    case WriteWord => WriteWordKeepsInv(s);
    case Publish => PublishKeepsInv(s);
    case CopyWord(k) => CopyWordKeepsInv(s, k);
    case Wrap => WrapKeepsInv(s);
    case Sample => SampleKeepsInv(s);
    case _ => CallOrAdvanceKeepsInv(s, step);
  }

  lemma {:induction false} RunKeepsInv(s: State, schedule: seq<Step>)
    requires Inv(s)
    ensures Inv(Run(Apply, s, schedule))
    decreases |schedule|
  {
    if schedule != [] {
      StepKeepsInv(s, schedule[0]);
      RunKeepsInv(Apply(s, schedule[0]), schedule[1..]);
    }
  }

  /** In every schedule a completed copy overtaken by at most nine sends is exactly the message that
      was the latest published one when m_curqoutidx was sampled; a copy sampled before the first
      publish is the initial zero buffer as long as no send has begun. */
  lemma CopyIsLatestPublished(schedule: seq<Step>)
    ensures var s := Run(Apply, INITIAL, schedule);
            && s.sampled <= |s.published|
            && (CopyComplete(s) && Overtakes(s) <= Allowance(s) ==> s.bufferIn == Expected(s))
  {
    hide Run;
    RunKeepsInv(INITIAL, schedule);
    var s := Run(Apply, INITIAL, schedule);
    if CopyComplete(s) {
      CompleteIsExact(s);
    }
  }

  /** Every finished copy that was overtaken by at most nine sends (none, before the first publish) is
      the message that was the latest when it sampled the index; later copies sampled later. */
  ghost predicate CopiesFit(published: seq<Message>, copies: seq<Copy>, last: nat)
  {
    && (forall i | 0 <= i < |copies| :: CopyFits(published, copies[i], last))
    && (forall i, j | 0 <= i < j < |copies| :: copies[i].sampled <= copies[j].sampled)
  }

  ghost predicate CopyFits(published: seq<Message>, c: Copy, last: nat)
  {
    && c.sampled <= last && c.sampled <= |published|
    && (c.overtakes <= (if c.sampled == 0 then 0 else 9) ==> c.buffer == Latest(published[..c.sampled]))
  }

  lemma CopyStillFits(published: seq<Message>, more: seq<Message>, c: Copy, last: nat, later: nat)
    requires CopyFits(published, c, last) && last <= later
    ensures CopyFits(published + more, c, later)
  {
    assert (published + more)[..c.sampled] == published[..c.sampled];
  }

  lemma CopiesStillFit(published: seq<Message>, more: seq<Message>, copies: seq<Copy>, last: nat, later: nat)
    requires CopiesFit(published, copies, last) && last <= later
    ensures CopiesFit(published + more, copies, later)
  {
    hide CopyFits;
    forall i | 0 <= i < |copies| ensures CopyFits(published + more, copies[i], later) {
      CopyStillFits(published, more, copies[i], last, later);
    }
  }

  lemma CopyFinished(published: seq<Message>, copies: seq<Copy>, last: nat, c: Copy)
    requires CopiesFit(published, copies, last) && CopyFits(published, c, last) && c.sampled == last
    ensures CopiesFit(published, copies + [c], last)
  {
    forall i | 0 <= i < |copies| ensures copies[i].sampled <= last {
      assert CopyFits(published, copies[i], last);
    }
  }

  lemma StepKeepsCopies(s: State, step: Step)
    requires Inv(s) && CopiesFit(s.published, s.copies, s.sampled)
    ensures var s' := Apply(s, step); CopiesFit(s'.published, s'.copies, s'.sampled)
  {
    hide CopiesFit;
    match step
    case Finish =>
      if CopyComplete(s) {
        CompleteIsExact(s);
        CopyFinished(s.published, s.copies, s.sampled, Copy(s.sampled, Overtakes(s), s.bufferIn));
      }
    case Publish =>
      if s.sender.Filling? && s.sender.i == WORDS {
        CopiesStillFit(s.published, [s.sender.msg], s.copies, s.sampled, s.sampled);
      }
    case Sample =>
      CopiesStillFit(s.published, [], s.copies, s.sampled, |s.published|);
      assert s.published + [] == s.published;
    case _ =>
  }

  lemma CompleteIsExact(s: State)
    requires Inv(s) && CopyComplete(s)
    ensures CopyFits(s.published, Copy(s.sampled, Overtakes(s), s.bufferIn), s.sampled)
    ensures Overtakes(s) <= Allowance(s) ==> s.bufferIn == Expected(s)
  {
    if Overtakes(s) <= Allowance(s) {
      forall k | 0 <= k < WORDS ensures s.bufferIn[k] == Expected(s)[k] {
        assert k in s.copier.done;
      }
    }
  }

  lemma {:induction false} RunKeepsCopies(s: State, schedule: seq<Step>)
    requires Inv(s) && CopiesFit(s.published, s.copies, s.sampled)
    ensures var s' := Run(Apply, s, schedule); CopiesFit(s'.published, s'.copies, s'.sampled)
    decreases |schedule|
  {
    hide Inv, Apply, CopiesFit;
    if schedule != [] {
      StepKeepsInv(s, schedule[0]);
      StepKeepsCopies(s, schedule[0]);
      RunKeepsCopies(Apply(s, schedule[0]), schedule[1..]);
    }
  }

  /** In every schedule, of all copies ever finished: those within the allowance are whole messages, and
      no copy is of an older message than a copy before it. */
  lemma CopiesNeverGoBack(schedule: seq<Step>)
    ensures var s := Run(Apply, INITIAL, schedule);
            && (forall i | 0 <= i < |s.copies| ::
                  var c := s.copies[i];
                  && c.sampled <= |s.published|
                  && (c.overtakes <= (if c.sampled == 0 then 0 else 9) ==>
                        c.buffer == Latest(s.published[..c.sampled])))
            && (forall i, j | 0 <= i < j < |s.copies| :: s.copies[i].sampled <= s.copies[j].sampled)
  {
    hide Run;
    InitialInv();
    RunKeepsCopies(INITIAL, schedule);
    var s := Run(Apply, INITIAL, schedule);
    forall i | 0 <= i < |s.copies| ensures CopyFits(s.published, s.copies[i], s.sampled) {
    }
  }

  // ---- one whole send_output, and the schedules that show the bound is exact ----

  /** The effect of one send_output that no other thread interrupts. */
  function SendEffect(s: State, m: Message): State
    requires s.curqidx < |s.slots|
  {
    s.(slots := s.slots[s.curqidx := m],
       curqoutidx := s.curqidx,
       curqidx := if s.curqidx + 1 >= QIN_SIZE then 0 else s.curqidx + 1,
       published := s.published + [m],
       begun := s.begun + 1)
  }

  const FILL: seq<Step> := [WriteWord, WriteWord, WriteWord, WriteWord]
  const COPY: seq<Step> := [Sample, CopyWord(0), CopyWord(1), CopyWord(2)] + [CopyWord(3), Finish]

  function SendSteps(m: Message): seq<Step>
  {
    [Call(m)] + FILL + [Publish] + [Advance] + [Wrap]
  }

  lemma InitialSlots()
    ensures |INITIAL.slots| == QIN_SIZE && forall i | 0 <= i < QIN_SIZE :: INITIAL.slots[i] == ZERO_MESSAGE
    ensures INITIAL.curqidx == INITIAL.curqoutidx == 0 && INITIAL.bufferIn == ZERO_MESSAGE
    ensures INITIAL.sender.Idle? && INITIAL.copier.Waiting? && INITIAL.published == []
  {
  }

  lemma InitialInv()
    ensures Inv(INITIAL)
  {
  }

  /** The four word writes of a send that is in a slot fill it. */
  lemma FillSteps(s: State, m: Message)
    requires s.sender == Filling(m, 0) && s.curqidx < |s.slots|
    ensures Run(Apply, s, [WriteWord, WriteWord, WriteWord, WriteWord]) ==
            s.(slots := s.slots[s.curqidx := m], sender := Filling(m, 4), begun := s.begun + 1)
  {
    hide Run;
    RunFour(Apply, s, WriteWord, WriteWord, WriteWord, WriteWord);
    var s4 := Apply(Apply(Apply(Apply(s, WriteWord), WriteWord), WriteWord), WriteWord);
    assert s4.slots[s.curqidx] == m;
    assert s4.slots == s.slots[s.curqidx := m];
  }

  /** The steps of send_output, run without interference, have exactly SendEffect. */
  lemma SendRuns(s: State, m: Message)
    requires s.sender.Idle? && s.curqidx < |s.slots|
    ensures Run(Apply, s, SendSteps(m)) == SendEffect(s, m)
  {
    hide Run;
    var writes := [WriteWord, WriteWord, WriteWord, WriteWord];
    var called := Apply(s, Call(m));
    assert SendSteps(m) == [Call(m)] + (writes + ([Publish, Advance] + [Wrap]));
    RunOne(Apply, s, Call(m), writes + ([Publish, Advance] + [Wrap]));
    RunAppend(Apply, called, writes, [Publish, Advance] + [Wrap]);
    FillSteps(called, m);
    var filled := Run(Apply, called, writes);
    RunAppend(Apply, filled, [Publish, Advance], [Wrap]);
    RunTwo(Apply, filled, Publish, Advance);
    RunLast(Apply, Apply(Apply(filled, Publish), Advance), Wrap);
  }

  /** The effect of one slot copy that no other thread interrupts. */
  function CopyEffect(s: State): State
    requires s.curqoutidx < |s.slots|
  {
    var n, m := |s.published|, s.slots[s.curqoutidx];
    s.(bufferIn := m, sampled := n, copies := s.copies + [Copy(n, s.begun - n, m)])
  }

  /** The four words of a copy. */
  function WordsCopied(s: State): State
  {
    Apply(Apply(Apply(Apply(s, CopyWord(0)), CopyWord(1)), CopyWord(2)), CopyWord(3))
  }

  lemma CopyUnrolled(s: State)
    ensures Run(Apply, s, COPY) == Apply(WordsCopied(Apply(s, Sample)), Finish)
  {
    hide Run, Apply;
    var first := [Sample, CopyWord(0), CopyWord(1), CopyWord(2)];
    RunAppend(Apply, s, first, [CopyWord(3), Finish]);
    RunFour(Apply, s, Sample, CopyWord(0), CopyWord(1), CopyWord(2));
    RunTwo(Apply, Run(Apply, s, first), CopyWord(3), Finish);
  }

  /** The steps of the slot copy, run without interference, have exactly CopyEffect. */
  lemma CopyRuns(s: State)
    requires s.copier.Waiting? && s.curqoutidx < |s.slots|
    ensures Run(Apply, s, COPY) == CopyEffect(s)
  {
    hide Run, Apply, COPY, WordsCopied;
    CopyUnrolled(s);
    SampleStep(s);
    var t, q := s.(sampled := |s.published|), s.curqoutidx;
    CopyWords(t, q);
    FinishStep(t.(copier := Copying(q, {0, 1, 2, 3}), bufferIn := s.slots[q]));
  }

  lemma CopyWords(t: State, q: nat)
    requires q < |t.slots|
    ensures WordsCopied(t.(copier := Copying(q, {}))) == t.(copier := Copying(q, {0, 1, 2, 3}), bufferIn := t.slots[q])
  {
    hide Apply;
    var m, b := t.slots[q], t.bufferIn;
    assert {} + {0} == {0} && {0} + {1} == {0, 1} && {0, 1} + {2} == {0, 1, 2} && {0, 1, 2} + {3} == {0, 1, 2, 3};
    assert b[0 := m[0]] == [m[0], b[1], b[2], b[3]];
    assert [m[0], b[1], b[2], b[3]][1 := m[1]] == [m[0], m[1], b[2], b[3]];
    assert [m[0], m[1], b[2], b[3]][2 := m[2]] == [m[0], m[1], m[2], b[3]];
    assert [m[0], m[1], m[2], b[3]][3 := m[3]] == m;
    CopyStep(t, q, {}, b, 0);
    CopyStep(t, q, {0}, [m[0], b[1], b[2], b[3]], 1);
    CopyStep(t, q, {0, 1}, [m[0], m[1], b[2], b[3]], 2);
    CopyStep(t, q, {0, 1, 2}, [m[0], m[1], m[2], b[3]], 3);
    assert t.(copier := Copying(q, {}), bufferIn := b) == t.(copier := Copying(q, {}));
  }

  lemma SampleStep(s: State)
    requires s.copier.Waiting?
    ensures Apply(s, Sample) == s.(copier := Copying(s.curqoutidx, {}), sampled := |s.published|)
  {
  }

  lemma CopyStep(s: State, slot: nat, done: set<nat>, b: Message, k: nat)
    requires slot < |s.slots| && k < WORDS && k !in done
    ensures Apply(s.(copier := Copying(slot, done), bufferIn := b), CopyWord(k)) ==
            s.(copier := Copying(slot, done + {k}), bufferIn := b[k := s.slots[slot][k]])
  {
  }

  lemma FinishStep(s: State)
    requires s.copier.Copying? && s.copier.done == {0, 1, 2, 3}
    ensures Apply(s, Finish) ==
            s.(copier := Waiting, copies := s.copies + [Copy(s.sampled, s.begun - s.sampled, s.bufferIn)])
  {
  }

  /** The selected slot holds the latest published message; before the first publish it holds zeros
      until the first word is written. */
  lemma {:induction false} SelectedSlot(s: State)
    requires Inv(s) && (s.sender.Filling? && s.published == [] ==> s.sender.i == 0)
    ensures s.curqoutidx < |s.slots| && s.slots[s.curqoutidx] == Latest(s.published)
  {
    if s.published != [] {
      var g := |s.published| - 1;
      assert s.slots[SlotOf(g)] == s.published[g];
    }
  }

  function ManySends(m: Message, n: nat): seq<Step>
  {
    if n == 0 then [] else ManySends(m, n - 1) + SendSteps(m)
  }

  /** n sends of m, uninterrupted, from a state between two sends. */
  lemma {:induction false} ManySendsRun(s: State, m: Message, n: nat)
    requires Inv(s) && s.sender.Idle?
    ensures var t := Run(Apply, s, ManySends(m, n));
            && Inv(t) && t.sender.Idle?
            && t.copier == s.copier && t.bufferIn == s.bufferIn && t.sampled == s.sampled
            && t.begun == s.begun + n
            && |t.published| == |s.published| + n
            && (forall g | 0 <= g < |s.published| :: t.published[g] == s.published[g])
            && (forall g | |s.published| <= g < |t.published| :: t.published[g] == m)
  {
    hide Apply, SendSteps;
    RunKeepsInv(s, ManySends(m, n));
    if n > 0 {
      ManySendsRun(s, m, n - 1);
      var t := Run(Apply, s, ManySends(m, n - 1));
      RunAppend(Apply, s, ManySends(m, n - 1), SendSteps(m));
      SendRuns(t, m);
    }
  }

  const ONES: Message := [1, 1, 1, 1]
  const TWOS: Message := [2, 2, 2, 2]

  /** `before` sends of ONES, then a copy whose first word is taken before, and whose other words
      are taken after, n sends of TWOS. */
  function TearingSchedule(before: nat, n: nat): seq<Step>
  {
    ManySends(ONES, before) + [Sample, CopyWord(0)] + ManySends(TWOS, n) +
    ([CopyWord(1), CopyWord(2)] + [CopyWord(3)])
  }

  lemma StartCopy(a: State)
    requires Inv(a) && a.copier.Waiting?
    ensures var b := Run(Apply, a, [Sample, CopyWord(0)]);
            && Inv(b)
            && b == a.(copier := Copying(a.curqoutidx, {0}), sampled := |a.published|,
                       bufferIn := a.bufferIn[0 := a.slots[a.curqoutidx][0]])
  {
    hide Run;
    RunKeepsInv(a, [Sample, CopyWord(0)]);
    RunTwo(Apply, a, Sample, CopyWord(0));
    assert {} + {0} == {0};
  }

  lemma EndCopy(c: State)
    requires c.copier.Copying? && c.copier.done == {0} && c.copier.slot < |c.slots|
    ensures var d := Run(Apply, c, [CopyWord(1), CopyWord(2)] + [CopyWord(3)]);
            var m := c.slots[c.copier.slot];
            && CopyComplete(d) && d.bufferIn == [c.bufferIn[0], m[1], m[2], m[3]]
            && d.sampled == c.sampled && d.begun == c.begun && d.published == c.published
  {
    hide Run;
    RunAppend(Apply, c, [CopyWord(1), CopyWord(2)], [CopyWord(3)]);
    RunTwo(Apply, c, CopyWord(1), CopyWord(2));
    RunLast(Apply, Apply(Apply(c, CopyWord(1)), CopyWord(2)), CopyWord(3));
  }

  /** n overtaking sends, ten or more (or one or more, before the first publish), can tear a copy:
      it then equals no message ever sent. */
  lemma TearingRun(before: nat, n: nat)
    requires before <= 1 && n > if before == 0 then 0 else QIN_SIZE - 1
    ensures var s := Run(Apply, INITIAL, TearingSchedule(before, n));
            && CopyComplete(s) && s.sampled == before <= |s.published| && Overtakes(s) == n
            && s.bufferIn != Expected(s) && s.bufferIn !in s.published
  {
    hide Run, Apply, Inv, ManySends;
    var first, second := ManySends(ONES, before), [Sample, CopyWord(0)];
    var third, fourth := ManySends(TWOS, n), [CopyWord(1), CopyWord(2)] + [CopyWord(3)];
    RunAppend(Apply, INITIAL, first + second + third, fourth);
    RunAppend(Apply, INITIAL, first + second, third);
    RunAppend(Apply, INITIAL, first, second);
    InitialInv();
    ManySendsRun(INITIAL, ONES, before);
    var a := Run(Apply, INITIAL, first);
    StartCopy(a);
    var b := Run(Apply, a, second);
    ManySendsRun(b, TWOS, n);
    var c := Run(Apply, b, third);
    SlotZeroHolds(c, before, n);
    EndCopy(c);
    TornMixIsNew(before, a, Run(Apply, c, fourth));
  }

  /** The mixed buffer is neither the sampled message nor any later one. */
  lemma TornMixIsNew(before: nat, a: State, d: State)
    requires Inv(a) && before <= 1 && |a.published| == a.begun == before && d.sampled == before
    requires forall g | 0 <= g < before :: a.published[g] == ONES
    requires before <= |d.published|
    requires forall g | 0 <= g < before :: d.published[g] == ONES
    requires forall g | before <= g < |d.published| :: d.published[g] == TWOS
    requires d.bufferIn == [a.slots[a.curqoutidx][0], 2, 2, 2]
    ensures d.bufferIn != Expected(d) && d.bufferIn !in d.published
  {
    if before == 1 {
      assert a.slots[SlotOf(0)] == a.published[0];
    }
    forall g | 0 <= g < |d.published| ensures d.published[g] != d.bufferIn {
    }
  }

  /** After the overtaking sends slot 0 holds TWOS. */
  lemma SlotZeroHolds(c: State, before: nat, n: nat)
    requires Inv(c) && before <= 1 && n > if before == 0 then 0 else QIN_SIZE - 1
    requires c.sender.Idle? && |c.published| == before + n && c.copier.Copying? && c.sampled == before
    requires forall g | before <= g < before + n :: c.published[g] == TWOS
    ensures c.copier.slot < |c.slots| && c.slots[c.copier.slot] == TWOS
  {
    // the latest generation kept in slot 0
    var g := (before + n - 1) / QIN_SIZE * QIN_SIZE;
    ModUnique(g, QIN_SIZE, (before + n - 1) / QIN_SIZE, 0);
    assert c.slots[SlotOf(g)] == c.published[g];
  }

  /** s is no completed copy of that kind, or BufferIn is whole and the latest published. */
  ghost predicate CopyIsExact(s: State, primed: bool, n: nat)
  {
    && s.sampled <= |s.published|
    && (CopyComplete(s) && (s.sampled > 0 <==> primed) && Overtakes(s) == n ==> s.bufferIn == Expected(s))
  }

  /** What a caller may rely on for copies overtaken by n sends, sampled after the first publish
      (`primed`) or before it. */
  ghost predicate CopiesAreExact(primed: bool, n: nat)
  {
    forall schedule: seq<Step> :: CopyIsExact(Run(Apply, INITIAL, schedule), primed, n)
  }

  /** The bound is exact: copies overtaken by n sends are always whole if and only if n is at most
      nine, and, before the first publish, if and only if n is zero. */
  lemma RingBoundIsExact(primed: bool, n: nat)
    ensures CopiesAreExact(primed, n) <==> n <= if primed then 9 else 0
  {
    if n <= if primed then QIN_SIZE - 1 else 0 {
      forall schedule: seq<Step>
        ensures CopyIsExact(Run(Apply, INITIAL, schedule), primed, n)
      {
        CopyIsLatestPublished(schedule);
      }
    } else {
      var before := if primed then 1 else 0;
      TearingRun(before, n);
      assert !CopyIsExact(Run(Apply, INITIAL, TearingSchedule(before, n)), primed, n);
    }
  }
}
