/**
 The two-thread feed pipeline as a step system. Each thread has a program
 counter; every access to shared memory is one step. An acquire load may return
 any value between what its thread has already seen and what was last stored,
 and it brings along what the storing thread had done before its release store.
 */
module Pipeline {
  import opened BookSpec
  import opened Feed
  import opened Itch
  import opened Options
  import opened RingBuffer
  import opened Words

  datatype Config = Config(raw: Bytes, capacity: nat, book: BookState, bookCapacity: nat)

  /** A buffer slot, with the counts of the item last written to it and last read from it. */
  datatype Cell = Cell(value: Message, lastWrite: Option<nat>, lastRead: Option<nat>)

  /** The message the value-initialised buffer starts out with. */
  const BLANK := Message(SystemEvent, Header(0, 0, 0), SystemEventPayload(0))

  datatype Producer =
    | NextFrame
    | LoadRead(m: Message, next: nat)
    | WriteSlot(m: Message, next: nat)
    | StoreWrite(m: Message, next: nat)
    | StoreDone
    | Stopped

  datatype Consumer =
    | LoadWrite(last: bool)
    | ReadSlot
    | StoreRead(m: Message)
    | Process(m: Message)
    | CheckDone
    | Exited

  /**
   `written` and `taken` count the stores to the two indices, whose values are
   the counts in 64 bits. `done` holds the number of writes that the store to
   the done flag released. The `seen` fields are what each thread has acquired
   from the other; `pushed` and `popped` are histories.
   */
  datatype State = State(
    producer: Producer, offset: nat, seenRead: nat, pushed: seq<Message>,
    consumer: Consumer, seenWrite: nat, seenDone: bool, popped: seq<Message>, book: BookState, processed: nat,
    cells: seq<Cell>, written: nat, taken: nat, done: Option<nat>, raced: bool)

  datatype Action =
    | Produce(seen: nat)
    | Consume(seen: nat, doneSeen: bool)

  ghost predicate Shaped(cfg: Config, s: State) {
    RingSize(cfg.capacity) && 1 <= cfg.capacity == |s.cells|
  }

  ghost function Start(cfg: Config): State {
    State(NextFrame, 0, 0, [], LoadWrite(false), 0, false, [], cfg.book, 0,
          seq(cfg.capacity, _ => Cell(BLANK, None, None)), 0, 0, None, false)
  }

  // ----- the steps -----

  /** The producer's write is ordered after the last read of the slot. */
  predicate ReadSeen(cell: Cell, seenRead: nat) {
    cell.lastRead.Some? ==> cell.lastRead.value < seenRead
  }

  /** The consumer's read is ordered after the last write of the slot. */
  predicate WriteSeen(cell: Cell, seenWrite: nat) {
    cell.lastWrite.Some? ==> cell.lastWrite.value < seenWrite
  }

  ghost function ProducerStep(cfg: Config, s: State, seen: nat): (t: State)
    requires Shaped(cfg, s)
    ensures Shaped(cfg, t)
  {
    match s.producer
    case NextFrame =>
      var start := s.offset + 2;
      if start > |cfg.raw| then s.(producer := StoreDone)
      else
        var len := ReadU16(cfg.raw[s.offset..start]);
        if start + len > |cfg.raw| then s.(producer := StoreDone)
        else
          match Decode(cfg.raw[start..start + len]) {
            case None => s.(offset := start + len)
            case Some(m) => s.(producer := LoadRead(m, start + len))
          }
    case LoadRead(m, next) =>
      if Full(Wrap64(s.written), Wrap64(seen), cfg.capacity) then s.(seenRead := seen)
      else s.(seenRead := seen, producer := WriteSlot(m, next))
    case WriteSlot(m, next) =>
      var slot := SlotOf(Wrap64(s.written), cfg.capacity);
      var cell := s.cells[slot];
      s.(producer := StoreWrite(m, next),
         cells := s.cells[slot := Cell(m, Some(s.written), cell.lastRead)],
         raced := s.raced || !ReadSeen(cell, s.seenRead))
    case StoreWrite(m, next) =>
      s.(producer := NextFrame, offset := next, written := s.written + 1, pushed := s.pushed + [m])
    case StoreDone => s.(producer := Stopped, done := Some(s.written))
    case Stopped => s
  }

  ghost function ConsumerStep(cfg: Config, s: State, seen: nat, doneSeen: bool): (t: State)
    requires Shaped(cfg, s)
    ensures Shaped(cfg, t)
  {
    match s.consumer
    case LoadWrite(last) =>
      if Wrap64(s.taken) == Wrap64(seen) then s.(seenWrite := seen, consumer := if last then Exited else CheckDone)
      else s.(seenWrite := seen, consumer := ReadSlot)
    case ReadSlot =>
      var slot := SlotOf(Wrap64(s.taken), cfg.capacity);
      var cell := s.cells[slot];
      s.(consumer := StoreRead(cell.value),
         cells := s.cells[slot := Cell(cell.value, cell.lastWrite, Some(s.taken))],
         raced := s.raced || !WriteSeen(cell, s.seenWrite))
    case StoreRead(m) => s.(consumer := Process(m), taken := s.taken + 1, popped := s.popped + [m])
    case Process(m) =>
      s.(consumer := LoadWrite(false), book := ApplyMessage(s.book, cfg.bookCapacity, m), processed := s.processed + 1)
    case CheckDone =>
      if doneSeen && s.done.Some? then
        s.(consumer := LoadWrite(true), seenDone := true,
           seenWrite := if s.seenWrite < s.done.value then s.done.value else s.seenWrite)
      else s.(consumer := LoadWrite(false))
    case Exited => s
  }

  /** A thread that has not ended can always step; what its loads may return is limited by coherence. */
  ghost predicate Enabled(s: State, a: Action) {
    match a
    case Produce(seen) =>
      s.producer != Stopped && (s.producer.LoadRead? ==> s.seenRead <= seen <= s.taken)
    case Consume(seen, doneSeen) =>
      && s.consumer != Exited
      && (s.consumer.LoadWrite? ==> s.seenWrite <= seen <= s.written)
      && (s.consumer.CheckDone? ==> (doneSeen ==> s.done.Some?) && (s.seenDone ==> doneSeen))
  }

  ghost function Do(cfg: Config, s: State, a: Action): (t: State)
    requires Shaped(cfg, s)
    ensures Shaped(cfg, t)
  {
    match a
    case Produce(seen) => ProducerStep(cfg, s, seen)
    case Consume(seen, doneSeen) => ConsumerStep(cfg, s, seen, doneSeen)
  }

  ghost function Exec(cfg: Config, s: State, run: seq<Action>): (t: State)
    requires Shaped(cfg, s)
    ensures Shaped(cfg, t)
  {
    if run == [] then s else Do(cfg, Exec(cfg, s, run[..|run| - 1]), run[|run| - 1])
  }

  /** The run can be taken from `s`, one enabled step after another. */
  ghost predicate Possible(cfg: Config, s: State, run: seq<Action>)
    requires Shaped(cfg, s)
  {
    run == [] || (Possible(cfg, s, run[..|run| - 1]) && Enabled(Exec(cfg, s, run[..|run| - 1]), run[|run| - 1]))
  }

  // ----- what every step keeps -----

  ghost predicate CountsOk(cfg: Config, s: State) {
    && s.seenRead <= s.taken <= s.seenWrite <= s.written == |s.pushed|
    && s.written <= s.seenRead + cfg.capacity
    && (s.producer.WriteSlot? || s.producer.StoreWrite? ==> s.written < s.seenRead + cfg.capacity)
    && (s.consumer.ReadSlot? || s.consumer.StoreRead? ==> s.taken < s.seenWrite)
    && (s.done.Some? <==> s.producer.Stopped?)
    && (s.done.Some? ==> s.done.value == s.written)
    && (s.seenDone ==> s.done.Some? && s.seenWrite == s.written)
    && (s.consumer == LoadWrite(true) ==> s.seenDone)
    && (s.consumer.Exited? ==> s.done.Some? && s.taken == s.written)
  }

  /** What is pushed, in flight and still undecoded is the stream's messages. */
  ghost predicate ProducerOk(cfg: Config, s: State) {
    && s.offset <= |cfg.raw|
    && match s.producer {
         case NextFrame => s.pushed + MessagesFrom(cfg.raw, s.offset) == Messages(cfg.raw)
         case LoadRead(m, next) => InFlight(cfg, s, m, next)
         case WriteSlot(m, next) => InFlight(cfg, s, m, next)
         case StoreWrite(m, next) => InFlight(cfg, s, m, next)
         case StoreDone => s.pushed == Messages(cfg.raw)
         case Stopped => s.pushed == Messages(cfg.raw)
       }
  }

  ghost predicate InFlight(cfg: Config, s: State, m: Message, next: nat) {
    && s.offset + 2 <= next <= |cfg.raw|
    && s.pushed + [m] + MessagesFrom(cfg.raw, next) == Messages(cfg.raw)
  }

  /** What was popped was applied, once and in order. */
  ghost predicate ConsumerOk(cfg: Config, s: State) {
    && s.taken <= |s.pushed|
    && s.popped == s.pushed[..s.taken]
    && s.processed == (if s.consumer.Process? then s.taken - 1 else s.taken)
    && 0 <= s.processed
    && s.book == ApplyAll(cfg.book, cfg.bookCapacity, s.pushed[..s.processed])
    && (s.consumer.Process? ==> s.consumer.m == s.pushed[s.processed])
    && (s.consumer.StoreRead? ==> s.taken < |s.pushed| && s.consumer.m == s.pushed[s.taken])
  }

  ghost predicate Holds(cfg: Config, s: State, i: nat, m: Message)
    requires Shaped(cfg, s)
  {
    var cell := s.cells[TrueSlot(i, cfg.capacity)];
    cell.value == m && cell.lastWrite == Some(i)
  }

  ghost predicate Waiting(cfg: Config, s: State, i: nat)
    requires Shaped(cfg, s)
  {
    i < |s.pushed| && Holds(cfg, s, i, s.pushed[i])
  }

  /** The last read of the slot is of an item that was there, and is over unless the consumer is at it. */
  ghost predicate LastReadOk(cfg: Config, s: State, slot: nat)
    requires Shaped(cfg, s) && slot < cfg.capacity
  {
    s.cells[slot].lastRead.Some? ==>
      var i := s.cells[slot].lastRead.value;
      && i < s.written
      && TrueSlot(i, cfg.capacity) == slot
      && (i < s.taken || (i == s.taken && s.consumer.StoreRead?))
  }

  ghost predicate CellsOk(cfg: Config, s: State)
    requires Shaped(cfg, s)
  {
    && (forall i: nat :: s.taken <= i < s.written ==> Waiting(cfg, s, i))
    && (s.producer.StoreWrite? ==> Holds(cfg, s, s.written, s.producer.m))
    && (forall slot: nat :: slot < cfg.capacity ==> LastReadOk(cfg, s, slot))
  }

  ghost predicate Inv(cfg: Config, s: State) {
    && Shaped(cfg, s)
    && CountsOk(cfg, s)
    && ProducerOk(cfg, s)
    && ConsumerOk(cfg, s)
    && CellsOk(cfg, s)
    && !s.raced
  }

  lemma StartHolds(cfg: Config)
    requires RingSize(cfg.capacity) && cfg.capacity >= 1
    ensures Inv(cfg, Start(cfg))
  {
    hide MessagesFrom, RingSize, TrueSlot;
  }

  /** The tests on the 64-bit values decide the true counts. */
  lemma Counters(cfg: Config, s: State)
    requires Shaped(cfg, s) && CountsOk(cfg, s)
    ensures SlotOf(Wrap64(s.written), cfg.capacity) == TrueSlot(s.written, cfg.capacity)
    ensures SlotOf(Wrap64(s.taken), cfg.capacity) == TrueSlot(s.taken, cfg.capacity)
    ensures forall seen: nat :: s.seenRead <= seen <= s.taken ==>
                                  (Full(Wrap64(s.written), Wrap64(seen), cfg.capacity)
                                   <==> s.written - seen == cfg.capacity)
    ensures forall seen: nat :: s.seenWrite <= seen <= s.written ==>
                                  (Wrap64(s.taken) == Wrap64(seen) <==> s.taken == seen)
  {
    hide Full, SlotOf, TrueSlot, RingSize, Wrap64;
    CountersAreExact(s.written, s.written, cfg.capacity);
    CountersAreExact(s.taken, s.taken, cfg.capacity);
    forall seen: nat | s.seenRead <= seen <= s.taken
      ensures Full(Wrap64(s.written), Wrap64(seen), cfg.capacity) <==> s.written - seen == cfg.capacity
    {
      CountersAreExact(s.written, seen, cfg.capacity);
    }
    forall seen: nat | s.seenWrite <= seen <= s.written
      ensures Wrap64(s.taken) == Wrap64(seen) <==> s.taken == seen
    {
      CountersAreExact(seen, s.taken, cfg.capacity);
    }
  }

  lemma CountsKeptByProducer(cfg: Config, s: State, seen: nat)
    requires Inv(cfg, s) && Enabled(s, Produce(seen))
    ensures CountsOk(cfg, ProducerStep(cfg, s, seen))
  {
    hide Full, SlotOf, TrueSlot, RingSize, Wrap64, ConsumerOk, ProducerOk, CellsOk, Decode, ReadU16;
    Counters(cfg, s);
  }

  lemma CountsKeptByConsumer(cfg: Config, s: State, seen: nat, doneSeen: bool)
    requires Inv(cfg, s) && Enabled(s, Consume(seen, doneSeen))
    ensures CountsOk(cfg, ConsumerStep(cfg, s, seen, doneSeen))
  {
    hide Full, SlotOf, TrueSlot, RingSize, Wrap64, ConsumerOk, ProducerOk, CellsOk, ApplyMessage;
    Counters(cfg, s);
  }

  lemma StreamKeptByProducer(cfg: Config, s: State, seen: nat)
    requires Inv(cfg, s) && Enabled(s, Produce(seen))
    ensures ProducerOk(cfg, ProducerStep(cfg, s, seen))
    ensures ProducerStep(cfg, s, seen).producer.StoreDone? ==>
              forall raws, tail :: SplitsInto(cfg.raw, raws, tail)
                                   ==> ProducerStep(cfg, s, seen).pushed == DecodeAll(raws)
  {
    hide Full, SlotOf, TrueSlot, RingSize, Wrap64, ConsumerOk, CountsOk, CellsOk, Decode, ReadU16, SplitsInto,
      DecodeAll;
    StreamMessages(cfg.raw);
    var t := ProducerStep(cfg, s, seen);
    if s.producer.NextFrame? {
      assert t.pushed == s.pushed;
      if t.producer.LoadRead? {
        var rest := MessagesFrom(cfg.raw, t.producer.next);
        assert s.pushed + ([t.producer.m] + rest) == s.pushed + [t.producer.m] + rest;
      }
    }
  }

  lemma StreamKeptByConsumer(cfg: Config, s: State, seen: nat, doneSeen: bool)
    requires Inv(cfg, s) && Enabled(s, Consume(seen, doneSeen))
    ensures ProducerOk(cfg, ConsumerStep(cfg, s, seen, doneSeen))
  {
    hide SlotOf, RingSize, Wrap64, ConsumerOk, CountsOk, CellsOk, ApplyMessage, MessagesFrom;
  }

  lemma AppliedKeptByProducer(cfg: Config, s: State, seen: nat)
    requires Inv(cfg, s) && Enabled(s, Produce(seen))
    ensures ConsumerOk(cfg, ProducerStep(cfg, s, seen))
  {
    hide Full, SlotOf, TrueSlot, RingSize, Wrap64, ProducerOk, CountsOk, CellsOk, Decode, ReadU16, ApplyAll;
    var t := ProducerStep(cfg, s, seen);
    assert t.pushed[..s.processed] == s.pushed[..s.processed];
  }

  lemma AppliedKeptByConsumer(cfg: Config, s: State, seen: nat, doneSeen: bool)
    requires Inv(cfg, s) && Enabled(s, Consume(seen, doneSeen))
    ensures ConsumerOk(cfg, ConsumerStep(cfg, s, seen, doneSeen))
  {
    hide Full, SlotOf, TrueSlot, RingSize, Wrap64, ProducerOk, ApplyMessage;
    Counters(cfg, s);
    var t := ConsumerStep(cfg, s, seen, doneSeen);
    if s.consumer.Process? {
      assert s.pushed[..t.processed][..s.processed] == s.pushed[..s.processed];
    } else if s.consumer.ReadSlot? {
      assert Waiting(cfg, s, s.taken);
    }
  }

  lemma CellsKeptByProducer(cfg: Config, s: State, seen: nat)
    requires Inv(cfg, s) && Enabled(s, Produce(seen))
    ensures CellsOk(cfg, ProducerStep(cfg, s, seen)) && !ProducerStep(cfg, s, seen).raced
  {
    hide Full, SlotOf, TrueSlot, RingSize, Wrap64, ProducerOk, ConsumerOk, Decode, ReadU16, MessagesFrom;
    Counters(cfg, s);
    var t := ProducerStep(cfg, s, seen);
    var slot := TrueSlot(s.written, cfg.capacity);
    assert LastReadOk(cfg, s, slot);
    if s.producer.WriteSlot? && s.cells[slot].lastRead.Some? {
      var i := s.cells[slot].lastRead.value;
      if s.written < i + cfg.capacity {
        SlotsDiffer(i, s.written, cfg.capacity);
      }
    }
    forall i: nat | t.taken <= i < t.written
      ensures Waiting(cfg, t, i)
    {
      if i < s.written {
        assert Waiting(cfg, s, i);
        if s.producer.WriteSlot? {
          SlotsDiffer(i, s.written, cfg.capacity);
        }
      }
    }
    forall slot: nat | slot < cfg.capacity
      ensures LastReadOk(cfg, t, slot)
    {
      assert LastReadOk(cfg, s, slot);
    }
  }

  lemma CellsKeptByConsumer(cfg: Config, s: State, seen: nat, doneSeen: bool)
    requires Inv(cfg, s) && Enabled(s, Consume(seen, doneSeen))
    ensures CellsOk(cfg, ConsumerStep(cfg, s, seen, doneSeen)) && !ConsumerStep(cfg, s, seen, doneSeen).raced
  {
    hide Full, SlotOf, TrueSlot, RingSize, Wrap64, ProducerOk, ConsumerOk, ApplyMessage;
    Counters(cfg, s);
    var t := ConsumerStep(cfg, s, seen, doneSeen);
    if s.consumer.ReadSlot? {
      assert Waiting(cfg, s, s.taken);
    }
    forall i: nat | t.taken <= i < t.written
      ensures Waiting(cfg, t, i)
    {
      assert Waiting(cfg, s, i);
    }
    forall slot: nat | slot < cfg.capacity
      ensures LastReadOk(cfg, t, slot)
    {
      assert LastReadOk(cfg, s, slot);
    }
  }

  /** Every step of either thread, whatever its loads return, keeps the invariant. */
  lemma StepKeeps(cfg: Config, s: State, a: Action)
    requires Inv(cfg, s) && Enabled(s, a)
    ensures Inv(cfg, Do(cfg, s, a))
  {
    hide CountsOk, ProducerOk, ConsumerOk, CellsOk, Enabled, ProducerStep, ConsumerStep;
    match a
    case Produce(seen) =>
      CountsKeptByProducer(cfg, s, seen);
      StreamKeptByProducer(cfg, s, seen);
      AppliedKeptByProducer(cfg, s, seen);
      CellsKeptByProducer(cfg, s, seen);
    case Consume(seen, doneSeen) =>
      CountsKeptByConsumer(cfg, s, seen, doneSeen);
      StreamKeptByConsumer(cfg, s, seen, doneSeen);
      AppliedKeptByConsumer(cfg, s, seen, doneSeen);
      CellsKeptByConsumer(cfg, s, seen, doneSeen);
  }

  lemma {:induction false} RunKeeps(cfg: Config, s: State, run: seq<Action>)
    requires Inv(cfg, s) && Possible(cfg, s, run)
    ensures Inv(cfg, Exec(cfg, s, run))
  {
    hide CountsOk, ProducerOk, ConsumerOk, CellsOk, Enabled, ProducerStep, ConsumerStep;
    if run != [] {
      RunKeeps(cfg, s, run[..|run| - 1]);
      StepKeeps(cfg, Exec(cfg, s, run[..|run| - 1]), run[|run| - 1]);
    }
  }

  // ----- what holds in every run -----

  lemma PushedIsPrefix(cfg: Config, s: State)
    requires ProducerOk(cfg, s)
    ensures s.pushed <= Messages(cfg.raw)
  {
    hide MessagesFrom, Messages;
  }

  /**
   At every point of every run: no slot access races, at most `capacity` items
   wait, the values popped are a prefix of those pushed, which are a prefix of
   the stream's messages, and the book is the fold of the ones processed.
   */
  lemma EveryRunIsSafe(cfg: Config, run: seq<Action>)
    requires RingSize(cfg.capacity) && cfg.capacity >= 1
    requires Possible(cfg, Start(cfg), run)
    ensures var t := Exec(cfg, Start(cfg), run);
            && !t.raced
            && t.taken <= t.written <= t.taken + cfg.capacity
            && t.popped <= t.pushed <= Messages(cfg.raw)
            && t.processed <= |t.popped| <= t.processed + 1
            && t.book == ApplyAll(cfg.book, cfg.bookCapacity, Messages(cfg.raw)[..t.processed])
  {
    hide MessagesFrom, Messages, ApplyAll, CellsOk, RingSize, Enabled, ProducerStep, ConsumerStep;
    StartHolds(cfg);
    RunKeeps(cfg, Start(cfg), run);
    var t := Exec(cfg, Start(cfg), run);
    PushedIsPrefix(cfg, t);
    assert t.pushed[..t.processed] == Messages(cfg.raw)[..t.processed];
  }

  /**
   Once the consumer has left, everything was applied exactly once, in order: the
   messages of the stream's complete records, and nothing of a truncated last one.
   */
  lemma ExitIsComplete(cfg: Config, run: seq<Action>)
    requires RingSize(cfg.capacity) && cfg.capacity >= 1
    requires Possible(cfg, Start(cfg), run) && Exec(cfg, Start(cfg), run).consumer.Exited?
    ensures var t := Exec(cfg, Start(cfg), run);
            && t.producer.Stopped?
            && t.popped == Messages(cfg.raw)
            && t.processed == |Messages(cfg.raw)|
            && t.book == ApplyAll(cfg.book, cfg.bookCapacity, Messages(cfg.raw))
            && (forall raws, tail :: SplitsInto(cfg.raw, raws, tail) ==>
                                       && t.popped == DecodeAll(raws)
                                       && t.processed == |DecodeAll(raws)|
                                       && t.book == ApplyAll(cfg.book, cfg.bookCapacity, DecodeAll(raws)))
  {
    hide SplitsInto, DecodeAll, MessagesFrom, Messages, ApplyAll, CellsOk, RingSize, Enabled, ProducerStep,
      ConsumerStep;
    StartHolds(cfg);
    RunKeeps(cfg, Start(cfg), run);
    var t := Exec(cfg, Start(cfg), run);
    assert t.pushed[..t.processed] == t.pushed;
    StreamMessages(cfg.raw);
  }

  // ----- progress -----

  ghost predicate Final(s: State) {
    s.producer.Stopped? && s.consumer.Exited?
  }

  /** A step that only waits: a push that finds the ring full, a pop that finds it empty, a done flag not yet up. */
  ghost predicate Waits(cfg: Config, s: State, a: Action) {
    match a
    case Produce(seen) => s.producer.LoadRead? && Full(Wrap64(s.written), Wrap64(seen), cfg.capacity)
    case Consume(seen, doneSeen) =>
      || (s.consumer == LoadWrite(false) && Wrap64(s.taken) == Wrap64(seen))
      || (s.consumer.CheckDone? && !doneSeen)
  }

  function ProducerRank(p: Producer): nat {
    match p
    case NextFrame => 2
    case LoadRead(_, _) => 5
    case WriteSlot(_, _) => 4
    case StoreWrite(_, _) => 3
    case StoreDone => 1
    case Stopped => 0
  }

  function BytesLeft(cfg: Config, s: State): int {
    match s.producer
    case NextFrame => |cfg.raw| - s.offset
    case LoadRead(_, next) => |cfg.raw| - next
    case WriteSlot(_, next) => |cfg.raw| - next
    case StoreWrite(_, next) => |cfg.raw| - next
    case StoreDone => 0
    case Stopped => 0
  }

  function ConsumerRank(c: Consumer): nat {
    match c
    case LoadWrite(last) => if last then 4 else 5
    case CheckDone => 5
    case ReadSlot => 3
    case StoreRead(_) => 2
    case Process(_) => 1
    case Exited => 0
  }

  /** Bytes still to decode, items still to process, and where the threads are. */
  ghost function Measure(cfg: Config, s: State): int {
    5 * BytesLeft(cfg, s) + ProducerRank(s.producer) + 6 * (|Messages(cfg.raw)| - s.processed)
      + ConsumerRank(s.consumer)
  }

  lemma MeasureIsNat(cfg: Config, s: State)
    requires Inv(cfg, s)
    ensures Measure(cfg, s) >= 0
    ensures Measure(cfg, s) == 0 ==> Final(s)
  {
    hide MessagesFrom, Messages, ApplyAll, CellsOk, RingSize;
    PushedIsPrefix(cfg, s);
  }

  lemma ProducerWorksOrWaits(cfg: Config, s: State, seen: nat)
    requires Inv(cfg, s) && Enabled(s, Produce(seen))
    ensures var t := ProducerStep(cfg, s, seen);
            if Waits(cfg, s, Produce(seen)) then Measure(cfg, t) == Measure(cfg, s)
               else Measure(cfg, t) < Measure(cfg, s)
  {
    hide Full, SlotOf, TrueSlot, RingSize, Wrap64, MessagesFrom, Messages, ApplyAll, ApplyMessage, CellsOk,
      ConsumerOk, Decode, ReadU16;
  }

  lemma ConsumerWorksOrWaits(cfg: Config, s: State, seen: nat, doneSeen: bool)
    requires Inv(cfg, s) && Enabled(s, Consume(seen, doneSeen))
    ensures var t := ConsumerStep(cfg, s, seen, doneSeen);
            if Waits(cfg, s, Consume(seen, doneSeen)) then Measure(cfg, t) == Measure(cfg, s)
               else Measure(cfg, t) < Measure(cfg, s)
  {
    hide Full, SlotOf, TrueSlot, RingSize, Wrap64, MessagesFrom, Messages, ApplyAll, ApplyMessage, CellsOk,
      ConsumerOk, CountsOk, ProducerOk, ProducerRank;
  }

  /**
   Every step but a waiting one brings the pipeline strictly closer to its end; a waiting
   one leaves it where it is.
   */
  lemma StepsWorkOrWait(cfg: Config, s: State, a: Action)
    requires Inv(cfg, s) && Enabled(s, a)
    ensures var t := Do(cfg, s, a);
            if Waits(cfg, s, a) then Measure(cfg, t) == Measure(cfg, s) else Measure(cfg, t) < Measure(cfg, s)
  {
    hide CountsOk, ProducerOk, ConsumerOk, CellsOk, Enabled, ProducerStep, ConsumerStep, Waits, Measure;
    match a
    case Produce(seen) => ProducerWorksOrWaits(cfg, s, seen);
    case Consume(seen, doneSeen) => ConsumerWorksOrWaits(cfg, s, seen, doneSeen);
  }

  ghost function WorkSteps(cfg: Config, s: State, run: seq<Action>): nat
    requires Shaped(cfg, s)
  {
    if run == [] then 0
    else
      var init, a := run[..|run| - 1], run[|run| - 1];
      WorkSteps(cfg, s, init) + if Waits(cfg, Exec(cfg, s, init), a) then 0 else 1
  }

  /** No run, however its loads lag behind, takes more working steps than the measure allows. */
  lemma {:induction false} WorkIsBounded(cfg: Config, s: State, run: seq<Action>)
    requires Inv(cfg, s) && Possible(cfg, s, run)
    ensures WorkSteps(cfg, s, run) + Measure(cfg, Exec(cfg, s, run)) <= Measure(cfg, s)
  {
    hide CountsOk, ProducerOk, ConsumerOk, CellsOk, Enabled, Waits, Measure, Do;
    if run != [] {
      var init, a := run[..|run| - 1], run[|run| - 1];
      WorkIsBounded(cfg, s, init);
      RunKeeps(cfg, s, init);
      StepsWorkOrWait(cfg, Exec(cfg, s, init), a);
    }
  }

  /** The loads of the step return what was last stored. */
  ghost predicate Fresh(s: State, a: Action) {
    match a
    case Produce(seen) => s.producer.LoadRead? ==> seen == s.taken
    case Consume(seen, doneSeen) =>
      (s.consumer.LoadWrite? ==> seen == s.written) && (s.consumer.CheckDone? ==> (doneSeen <==> s.done.Some?))
  }

  ghost predicate AllFresh(cfg: Config, s: State, run: seq<Action>)
    requires Shaped(cfg, s)
  {
    run == [] || (AllFresh(cfg, s, run[..|run| - 1]) && Fresh(Exec(cfg, s, run[..|run| - 1]), run[|run| - 1]))
  }

  function Produces(run: seq<Action>): nat {
    if run == [] then 0 else Produces(run[..|run| - 1]) + if run[|run| - 1].Produce? then 1 else 0
  }

  function Consumes(run: seq<Action>): nat {
    if run == [] then 0 else Consumes(run[..|run| - 1]) + if run[|run| - 1].Consume? then 1 else 0
  }

  ghost predicate RingFull(cfg: Config, s: State) {
    s.producer.LoadRead? && s.written - s.taken == cfg.capacity
  }

  /** The consumer's next step, its load being fresh, cannot be a waiting one. */
  ghost predicate ConsumerReady(s: State) {
    !(s.consumer == LoadWrite(false) && s.taken == s.written) && !(s.consumer.CheckDone? && s.done.None?)
  }

  /** What a waiting step with fresh loads means, and leaves. */
  lemma FreshWait(cfg: Config, s: State, a: Action)
    requires Inv(cfg, s) && Enabled(s, a) && Fresh(s, a)
    ensures a.Produce? ==> (Waits(cfg, s, a) <==> RingFull(cfg, s))
    ensures a.Consume? ==> (Waits(cfg, s, a) <==> !ConsumerReady(s))
    ensures Waits(cfg, s, a) ==>
              var t := Do(cfg, s, a);
              && t.producer == s.producer && t.written == s.written && t.taken == s.taken && t.done == s.done
              && (a.Produce? ==> t.consumer == s.consumer)
              && (a.Consume? ==> !t.consumer.Exited?)
              && (a.Consume? && (s.done.Some? || RingFull(cfg, s)) ==> ConsumerReady(t))
  {
    hide Full, SlotOf, TrueSlot, RingSize, Wrap64, MessagesFrom, Messages, ApplyAll, ApplyMessage, CellsOk,
      ConsumerOk, ProducerOk, Decode, ReadU16;
    Counters(cfg, s);
  }

  /** A run of waiting steps changes neither the producer nor the ring. */
  lemma {:induction false} WaitingRun(cfg: Config, s: State, run: seq<Action>)
    requires Inv(cfg, s) && Possible(cfg, s, run) && AllFresh(cfg, s, run)
    requires WorkSteps(cfg, s, run) == 0
    ensures var t := Exec(cfg, s, run);
            && t.producer == s.producer && t.written == s.written && t.taken == s.taken && t.done == s.done
    ensures Produces(run) > 0 ==> RingFull(cfg, s)
    ensures s.done.Some? || RingFull(cfg, s) ==>
              Consumes(run) <= 1 && (Consumes(run) == 1 ==> ConsumerReady(Exec(cfg, s, run)))
    ensures Consumes(run) == 0 ==> Exec(cfg, s, run).consumer == s.consumer
    ensures Exec(cfg, s, run).consumer.Exited? ==> s.consumer.Exited?
  {
    hide CountsOk, ProducerOk, ConsumerOk, CellsOk, Enabled, Waits, Do, Fresh;
    if run != [] {
      var init, a := run[..|run| - 1], run[|run| - 1];
      WaitingRun(cfg, s, init);
      RunKeeps(cfg, s, init);
      FreshWait(cfg, Exec(cfg, s, init), a);
    }
  }

  /** A stretch with fresh loads in which the producer steps once and the consumer twice, unless they have ended. */
  ghost predicate FairRound(cfg: Config, s: State, run: seq<Action>)
    requires Shaped(cfg, s)
  {
    && Possible(cfg, s, run) && AllFresh(cfg, s, run)
    && (Exec(cfg, s, run).producer.Stopped? || Produces(run) >= 1)
    && (Exec(cfg, s, run).consumer.Exited? || Consumes(run) >= 2)
  }

  /** No deadlock and no lost wake-up: every fair round contains a working step, unless all has ended. */
  lemma RoundMakesProgress(cfg: Config, s: State, run: seq<Action>)
    requires Inv(cfg, s) && !Final(s) && FairRound(cfg, s, run)
    ensures WorkSteps(cfg, s, run) >= 1
    ensures Measure(cfg, Exec(cfg, s, run)) < Measure(cfg, s)
  {
    hide ProducerOk, ConsumerOk, CellsOk, RingSize, Enabled, Do, Measure, Possible, AllFresh;
    if WorkSteps(cfg, s, run) == 0 {
      WaitingRun(cfg, s, run);
      assert false;
    }
    WorkIsBounded(cfg, s, run);
  }

  ghost function ExecRounds(cfg: Config, s: State, rounds: seq<seq<Action>>): (t: State)
    requires Shaped(cfg, s)
    ensures Shaped(cfg, t)
    decreases |rounds|
  {
    if rounds == [] then s else ExecRounds(cfg, Exec(cfg, s, rounds[0]), rounds[1..])
  }

  /** A fair run: fair rounds one after another. */
  ghost predicate FairRun(cfg: Config, s: State, rounds: seq<seq<Action>>)
    requires Shaped(cfg, s)
    decreases |rounds|
  {
    rounds != [] ==> FairRound(cfg, s, rounds[0]) && FairRun(cfg, Exec(cfg, s, rounds[0]), rounds[1..])
  }

  /** Nothing steps any more once both threads have ended. */
  lemma {:induction false} FinalStays(cfg: Config, s: State, run: seq<Action>)
    requires Shaped(cfg, s) && Final(s) && Possible(cfg, s, run)
    ensures run == []
  {
    hide Do, RingSize;
    if run != [] {
      FinalStays(cfg, s, run[..|run| - 1]);
    }
  }

  /** Every fair run of at least as many rounds as the measure counts has ended. */
  lemma {:induction false} FairRunEnds(cfg: Config, s: State, rounds: seq<seq<Action>>)
    requires Inv(cfg, s) && FairRun(cfg, s, rounds) && |rounds| >= Measure(cfg, s)
    ensures Final(ExecRounds(cfg, s, rounds))
    decreases |rounds|
  {
    hide CountsOk, ProducerOk, ConsumerOk, CellsOk, RingSize, Measure, Possible, AllFresh, Exec, Final;
    MeasureIsNat(cfg, s);
    if rounds != [] {
      var t := Exec(cfg, s, rounds[0]);
      RunKeeps(cfg, s, rounds[0]);
      if Final(s) {
        FinalStays(cfg, s, rounds[0]);
        FinalRunEnds(cfg, s, rounds);
      } else {
        RoundMakesProgress(cfg, s, rounds[0]);
        FairRunEnds(cfg, t, rounds[1..]);
      }
    }
  }

  lemma {:induction false} FinalRunEnds(cfg: Config, s: State, rounds: seq<seq<Action>>)
    requires Shaped(cfg, s) && Final(s) && FairRun(cfg, s, rounds)
    ensures ExecRounds(cfg, s, rounds) == s
    decreases |rounds|
  {
    hide RingSize, AllFresh, Final;
    if rounds != [] {
      FinalStays(cfg, s, rounds[0]);
      FinalRunEnds(cfg, s, rounds[1..]);
    }
  }

  lemma {:induction false} FirstStep(cfg: Config, s: State, a: Action, run: seq<Action>)
    requires Shaped(cfg, s) && Enabled(s, a) && Possible(cfg, Do(cfg, s, a), run)
    ensures Possible(cfg, s, [a] + run)
    ensures Exec(cfg, s, [a] + run) == Exec(cfg, Do(cfg, s, a), run)
  {
    hide Enabled, Do, RingSize;
    if run == [] {
      assert ([a] + run)[..0] == [];
    } else {
      FirstStep(cfg, s, a, run[..|run| - 1]);
      assert ([a] + run)[..|run|] == [a] + run[..|run| - 1];
    }
  }

  /** From every reachable state both threads can end. */
  lemma {:induction false} CanFinish(cfg: Config, s: State)
    requires Inv(cfg, s)
    ensures exists run :: Possible(cfg, s, run) && Final(Exec(cfg, s, run))
    decreases Measure(cfg, s), !ConsumerReady(s)
  {
    hide ProducerOk, ConsumerOk, CellsOk, RingSize, Do, Measure, Waits;
    MeasureIsNat(cfg, s);
    if Final(s) {
      assert Possible(cfg, s, []);
    } else {
      var a := if s.producer.Stopped? || RingFull(cfg, s) then Consume(s.written, s.done.Some?) else Produce(s.taken);
      FreshWait(cfg, s, a);
      StepsWorkOrWait(cfg, s, a);
      StepKeeps(cfg, s, a);
      CanFinish(cfg, Do(cfg, s, a));
      var run :| Possible(cfg, Do(cfg, s, a), run) && Final(Exec(cfg, Do(cfg, s, a), run));
      FirstStep(cfg, s, a, run);
    }
  }

  lemma LastStep(cfg: Config, s: State, run: seq<Action>, a: Action)
    requires Shaped(cfg, s) && Possible(cfg, s, run) && Enabled(Exec(cfg, s, run), a)
    ensures Possible(cfg, s, run + [a])
    ensures Exec(cfg, s, run + [a]) == Do(cfg, Exec(cfg, s, run), a)
  {
    hide Enabled, Do, RingSize;
    assert (run + [a])[..|run|] == run;
  }

  ghost predicate Reaches(cfg: Config, s: State, t: State)
    requires Shaped(cfg, s)
  {
    exists run :: Possible(cfg, s, run) && Exec(cfg, s, run) == t
  }

  lemma ReachesItself(cfg: Config, s: State)
    requires Shaped(cfg, s)
    ensures Reaches(cfg, s, s)
  {
    assert Possible(cfg, s, []) && Exec(cfg, s, []) == s;
  }

  lemma ReachesNext(cfg: Config, s: State, t: State, a: Action)
    requires Shaped(cfg, s) && Shaped(cfg, t) && Reaches(cfg, s, t) && Enabled(t, a)
    ensures Reaches(cfg, s, Do(cfg, t, a))
  {
    hide Enabled, Do, RingSize;
    var run :| Possible(cfg, s, run) && Exec(cfg, s, run) == t;
    LastStep(cfg, s, run, a);
  }

  // ----- why the consumer pops again after seeing the done flag -----

  /** A state that runs lead to; the invariant comes with it. */
  ghost predicate Reached(cfg: Config, t: State) {
    Inv(cfg, t) && Reaches(cfg, Start(cfg), t)
  }

  lemma ReachedNext(cfg: Config, t: State, a: Action)
    requires Reached(cfg, t) && Enabled(t, a)
    ensures Reached(cfg, Do(cfg, t, a))
  {
    hide CountsOk, ProducerOk, ConsumerOk, CellsOk, Enabled, Do, RingSize, Reaches;
    StepKeeps(cfg, t, a);
    ReachesNext(cfg, Start(cfg), t, a);
  }

  /** What the producer's own steps leave alone. */
  ghost predicate ConsumerSame(s: State, t: State) {
    && t.consumer == s.consumer && t.seenWrite == s.seenWrite && t.seenDone == s.seenDone
    && t.taken == s.taken && t.processed == s.processed
  }

  /** The producer passes over what does not decode, up to the next message or the end of the stream. */
  lemma {:induction false} NextMessage(cfg: Config, t: State)
    requires Reached(cfg, t) && t.producer.NextFrame?
    ensures exists u :: Reached(cfg, u) && ConsumerSame(t, u) && u.pushed == t.pushed && u.written == t.written
                        && (if MessagesFrom(cfg.raw, t.offset) == [] then u.producer.StoreDone?
                            else u.producer.LoadRead?)
    decreases |cfg.raw| - t.offset
  {
    hide CountsOk, ConsumerOk, CellsOk, RingSize, Reached, Decode, ReadU16, Messages;
    ReachedOk(cfg, t);
    var u := Do(cfg, t, Produce(0));
    ReachedNext(cfg, t, Produce(0));
    if u.producer.NextFrame? {
      assert MessagesFrom(cfg.raw, u.offset) == MessagesFrom(cfg.raw, t.offset);
      NextMessage(cfg, u);
      var v :| Reached(cfg, v) && ConsumerSame(u, v) && v.pushed == u.pushed && v.written == u.written
               && (if MessagesFrom(cfg.raw, u.offset) == [] then v.producer.StoreDone? else v.producer.LoadRead?);
      assert ConsumerSame(t, v);
    } else {
      assert ConsumerSame(t, u);
    }
  }

  lemma ReachedOk(cfg: Config, t: State)
    requires Reached(cfg, t)
    ensures Shaped(cfg, t) && CountsOk(cfg, t) && ProducerOk(cfg, t) && ConsumerOk(cfg, t)
  {
  }

  /** Into an empty ring it pushes at once. */
  lemma PushOne(cfg: Config, t: State)
    requires Reached(cfg, t) && t.producer.LoadRead? && t.written == t.taken
    ensures exists u :: Reached(cfg, u) && ConsumerSame(t, u) && u.producer.NextFrame?
                        && u.written == t.written + 1 && |u.pushed| == |t.pushed| + 1
  {
    hide ProducerOk, ConsumerOk, CellsOk, RingSize, Reached, SlotOf, TrueSlot, Full, Wrap64;
    ReachedOk(cfg, t);
    Counters(cfg, t);
    var t1 := Do(cfg, t, Produce(t.taken));
    ReachedNext(cfg, t, Produce(t.taken));
    var t2 := Do(cfg, t1, Produce(0));
    ReachedNext(cfg, t1, Produce(0));
    var t3 := Do(cfg, t2, Produce(0));
    ReachedNext(cfg, t2, Produce(0));
    assert ConsumerSame(t, t3);
  }

  /** The consumer takes and processes the one item that waits. */
  lemma TakeOne(cfg: Config, t: State)
    requires Reached(cfg, t) && t.producer.NextFrame? && t.consumer == LoadWrite(false) && t.written == t.taken + 1
    ensures exists u :: Reached(cfg, u) && u.producer.NextFrame? && u.consumer == LoadWrite(false)
                        && u.written == u.taken == t.written && !u.seenDone
  {
    hide ProducerOk, ConsumerOk, CellsOk, RingSize, Reached, SlotOf, TrueSlot, Full, Wrap64, ApplyMessage;
    ReachedOk(cfg, t);
    Counters(cfg, t);
    var pop := Consume(t.written, false);
    var t1 := Do(cfg, t, pop);
    ReachedNext(cfg, t, pop);
    var t2 := Do(cfg, t1, pop);
    ReachedNext(cfg, t1, pop);
    var t3 := Do(cfg, t2, pop);
    ReachedNext(cfg, t2, pop);
    ReachedNext(cfg, t3, pop);
  }

  /** All is quiet after `k` messages: each was pushed and processed before the next was decoded. */
  ghost predicate QuietAfter(cfg: Config, k: nat, t: State) {
    && Reached(cfg, t)
    && t.producer.NextFrame? && t.consumer == LoadWrite(false) && !t.seenDone
    && t.written == t.taken == k
  }

  lemma QuietHasMore(cfg: Config, t: State)
    requires Reached(cfg, t) && t.producer.NextFrame?
    ensures |t.pushed| == t.written
    ensures MessagesFrom(cfg.raw, t.offset) == [] <==> t.written == |Messages(cfg.raw)|
  {
    hide CellsOk, ConsumerOk, RingSize, Messages, MessagesFrom, Reaches;
  }

  /** Up to any number of messages the two threads can go in lock step. */
  lemma {:induction false} LockStep(cfg: Config, k: nat)
    requires RingSize(cfg.capacity) && cfg.capacity >= 1 && k <= |Messages(cfg.raw)|
    ensures exists t :: QuietAfter(cfg, k, t)
  {
    hide Reached, RingSize, Messages, MessagesFrom;
    if k == 0 {
      StartReached(cfg);
      assert QuietAfter(cfg, 0, Start(cfg));
    } else {
      LockStep(cfg, k - 1);
      var t :| QuietAfter(cfg, k - 1, t);
      QuietHasMore(cfg, t);
      NextMessage(cfg, t);
      var u :| Reached(cfg, u) && ConsumerSame(t, u) && u.pushed == t.pushed && u.written == t.written
        && u.producer.LoadRead?;
      PushOne(cfg, u);
      var v :| Reached(cfg, v) && ConsumerSame(u, v) && v.producer.NextFrame? && v.written == u.written + 1;
      TakeOne(cfg, v);
      var w :| Reached(cfg, w) && w.producer.NextFrame? && w.consumer == LoadWrite(false)
               && w.written == w.taken == v.written && !w.seenDone;
      assert QuietAfter(cfg, k, w);
    }
  }

  lemma StartReached(cfg: Config)
    requires RingSize(cfg.capacity) && cfg.capacity >= 1
    ensures Reached(cfg, Start(cfg))
  {
    hide RingSize, Inv, Reaches;
    StartHolds(cfg);
    ReachesItself(cfg, Start(cfg));
  }

  /** The consumer's pop fails; then the producer pushes the last message, stops, and the flag is seen. */
  lemma FlagWithOneWaiting(cfg: Config, t: State)
    requires Messages(cfg.raw) != [] && QuietAfter(cfg, |Messages(cfg.raw)| - 1, t)
    ensures exists u :: Reached(cfg, u) && u.consumer == LoadWrite(true)
                        && u.written == |Messages(cfg.raw)| && u.taken == |Messages(cfg.raw)| - 1
  {
    hide Reached, RingSize, Messages, MessagesFrom, ProducerOk, ConsumerOk, CellsOk, Wrap64, Full, SlotOf, TrueSlot,
      Decode, ReadU16;
    ReachedOk(cfg, t);
    QuietHasMore(cfg, t);
    var t1 := Do(cfg, t, Consume(t.written, false));
    ReachedNext(cfg, t, Consume(t.written, false));
    NextMessage(cfg, t1);
    var u :| Reached(cfg, u) && ConsumerSame(t1, u) && u.pushed == t1.pushed && u.written == t1.written
      && u.producer.LoadRead?;
    PushOne(cfg, u);
    var v :| Reached(cfg, v) && ConsumerSame(u, v) && v.producer.NextFrame? && v.written == u.written + 1;
    QuietHasMore(cfg, v);
    NextMessage(cfg, v);
    var w :| Reached(cfg, w) && ConsumerSame(v, w) && w.written == v.written && w.producer.StoreDone?;
    SeesFlag(cfg, w);
  }

  lemma SeesFlag(cfg: Config, w: State)
    requires Reached(cfg, w) && w.producer.StoreDone? && w.consumer.CheckDone? && !w.seenDone
    ensures exists u :: Reached(cfg, u) && u.consumer == LoadWrite(true) && u.written == w.written && u.taken == w.taken
  {
    hide Reached, RingSize;
    ReachedOk(cfg, w);
    var x := Do(cfg, w, Produce(0));
    ReachedNext(cfg, w, Produce(0));
    ReachedNext(cfg, x, Consume(0, true));
  }

  /**
   For every stream with a message there is a run in which the done flag is seen
   with everything pushed and the last message still waiting: leaving on the flag
   alone, after the failed pop that came before, would lose it.
   */
  lemma SecondPopMatters(cfg: Config)
    requires RingSize(cfg.capacity) && cfg.capacity >= 1 && Messages(cfg.raw) != []
    ensures exists run :: && Possible(cfg, Start(cfg), run)
                          && var t := Exec(cfg, Start(cfg), run);
                             t.consumer == LoadWrite(true) && t.pushed == Messages(cfg.raw)
                               && t.processed == |Messages(cfg.raw)| - 1
  {
    hide RingSize, Messages, MessagesFrom, Possible, Exec, Reached, Reaches, CountsOk, ProducerOk, ConsumerOk,
      CellsOk;
    LockStep(cfg, |Messages(cfg.raw)| - 1);
    var t :| QuietAfter(cfg, |Messages(cfg.raw)| - 1, t);
    FlagWithOneWaiting(cfg, t);
    var u :| Reached(cfg, u) && u.consumer == LoadWrite(true)
             && u.written == |Messages(cfg.raw)| && u.taken == |Messages(cfg.raw)| - 1;
    FlagFacts(cfg, u);
    ReachesBy(cfg, Start(cfg), u);
  }

  lemma FlagFacts(cfg: Config, u: State)
    requires Reached(cfg, u) && u.consumer.LoadWrite? && u.written == |Messages(cfg.raw)|
    ensures Shaped(cfg, u) && Reaches(cfg, Start(cfg), u)
    ensures u.pushed == Messages(cfg.raw) && u.processed == u.taken
  {
    hide RingSize, Messages, MessagesFrom, CellsOk, Reaches;
    PushedIsPrefix(cfg, u);
  }

  lemma ReachesBy(cfg: Config, s: State, t: State)
    requires Shaped(cfg, s) && Reaches(cfg, s, t)
    ensures exists run :: Possible(cfg, s, run) && Exec(cfg, s, run) == t
  {
  }
}
