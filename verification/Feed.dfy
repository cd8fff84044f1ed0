/**
 What a decoded message does to the book, and what a stream of them does: once
 to the real book's meaning and once to the reference map.
 */
module Feed {
  import opened BookSpec
  import opened Itch
  import opened Options
  import opened Reference

  /** The book operation of a message; none for those that do not touch displayed orders. */
  function OpOf(m: Message): Option<Op> {
    match m.payload
    case AddOrderPayload(ref, side, shares, _, price, _) => Some(AddOp(ref, price, shares, side == BUY))
    case OrderExecutedPayload(ref, shares, _) => Some(ExecuteOp(ref, shares))
    case OrderExecutedWithPricePayload(ref, shares, _, _, _) => Some(ExecuteOp(ref, shares))
    case OrderCancelPayload(ref, shares) => Some(CancelOp(ref, shares))
    case OrderDeletePayload(ref) => Some(DeleteOp(ref))
    case OrderReplacePayload(ref, newRef, shares, price) => Some(ReplaceOp(ref, newRef, shares, price))
    case SystemEventPayload(_) => None
    case StockDirectoryPayload(_) => None
    case TradePayload(_, _, _, _, _, _) => None
  }

  ghost function ApplyMessage(b: BookState, capacity: nat, m: Message): BookState {
    match OpOf(m)
    case None => b
    case Some(op) => Step(b, capacity, op).0
  }

  /** The book accepts the message: its operation, if any, succeeds. */
  ghost predicate Accepts(b: BookState, capacity: nat, m: Message) {
    OpOf(m).Some? ==> Step(b, capacity, OpOf(m).value).1
  }

  /** Applying the messages one after another. */
  ghost function ApplyAll(b: BookState, capacity: nat, ms: seq<Message>): BookState {
    if ms == [] then b else ApplyMessage(ApplyAll(b, capacity, ms[..|ms| - 1]), capacity, ms[|ms| - 1])
  }

  ghost predicate AcceptsAll(b: BookState, capacity: nat, ms: seq<Message>) {
    ms == []
      || (AcceptsAll(b, capacity, ms[..|ms| - 1])
          && Accepts(ApplyAll(b, capacity, ms[..|ms| - 1]), capacity, ms[|ms| - 1]))
  }

  /** The reference map after one message, and whether the operation succeeded. */
  function RefMessage(m: RefMap, msg: Message): (RefMap, bool) {
    match OpOf(msg)
    case None => (m, true)
    case Some(op) => RefStep(m, op)
  }

  /** The reference map after all messages, and whether every operation succeeded. */
  function Replay(ms: seq<Message>): (RefMap, bool) {
    if ms == [] then (map[], true)
    else
      var (m, ok) := Replay(ms[..|ms| - 1]);
      var (m', now) := RefMessage(m, ms[|ms| - 1]);
      (m', ok && now)
  }

  /** The reference never holds more than `capacity` orders on the way. */
  ghost predicate FitsOnTheWay(ms: seq<Message>, capacity: nat) {
    && |Replay(ms).0| <= capacity
    && (ms != [] ==> FitsOnTheWay(ms[..|ms| - 1], capacity))
  }

  /**
   What each message means, by its payload, on the reference map of the book:
   both execution messages take exactly their shares off the order, whatever the
   match number, the printable flag and the execution price say; a full book
   refuses an addition; three kinds of message leave the book alone.
   */
  lemma MessageMeaning(b: BookState, capacity: nat, m: Message)
    requires WellFormed(b, capacity)
    ensures var b' := ApplyMessage(b, capacity, m);
            var before, after, ok := MapOf(b.live), MapOf(b'.live), Accepts(b, capacity, m);
            match m.payload
            case AddOrderPayload(ref, side, shares, _, price, _) =>
              if |b.live| < capacity then (after, ok) == RefAdd(before, ref, price, shares, side == 0x42)
              else b' == b && !ok
            case OrderExecutedPayload(ref, shares, _) => (after, ok) == RefReduce(before, ref, shares)
            case OrderExecutedWithPricePayload(ref, shares, _, _, _) => (after, ok) == RefReduce(before, ref, shares)
            case OrderCancelPayload(ref, shares) => (after, ok) == RefReduce(before, ref, shares)
            case OrderDeletePayload(ref) => (after, ok) == RefDelete(before, ref)
            case OrderReplacePayload(ref, newRef, shares, price) =>
              (after, ok) == RefReplace(before, ref, newRef, shares, price)
            case SystemEventPayload(_) => b' == b && ok
            case StockDirectoryPayload(_) => b' == b && ok
            case TradePayload(_, _, _, _, _, _) => b' == b && ok
  {
    hide MapOf, Step, WellFormed, RefAdd, RefReduce, RefDelete, RefReplace;
    var op := OpOf(m);
    if op.Some? {
      StepAgrees(b, capacity, op.value);
      RefusalChangesNothing(MapOf(b.live), op.value);
      LiveCount(b, capacity);
    }
  }

  lemma LiveCount(b: BookState, capacity: nat)
    requires WellFormed(b, capacity)
    ensures |MapOf(b.live)| == |b.live|
  {
    MapOfSize(b.live);
  }

  lemma {:induction false} ApplyAllWellFormed(capacity: nat, ms: seq<Message>)
    ensures WellFormed(ApplyAll(EMPTY_BOOK, capacity, ms), capacity)
  {
    if ms == [] {
      EmptyBookWellFormed(capacity);
    } else {
      ApplyAllWellFormed(capacity, ms[..|ms| - 1]);
      var m := ms[|ms| - 1];
      if OpOf(m).Some? {
        StepWellFormed(ApplyAll(EMPTY_BOOK, capacity, ms[..|ms| - 1]), capacity, OpOf(m).value);
      }
    }
  }

  /**
   A stream whose operations all succeed on the reference, within the capacity,
   all succeed on the real book too, and leave it with the reference's orders.
   */
  lemma {:induction false} ReplayOnBook(capacity: nat, ms: seq<Message>)
    requires Replay(ms).1 && FitsOnTheWay(ms, capacity)
    ensures AcceptsAll(EMPTY_BOOK, capacity, ms)
    ensures MapOf(ApplyAll(EMPTY_BOOK, capacity, ms).live) == Replay(ms).0
  {
    hide MapOf, Step, RefStep;
    if ms == [] {
      EmptyMap();
    } else {
      var init, m := ms[..|ms| - 1], ms[|ms| - 1];
      ReplayOnBook(capacity, init);
      var b := ApplyAll(EMPTY_BOOK, capacity, init);
      ApplyAllWellFormed(capacity, init);
      if OpOf(m).Some? {
        StepAgrees(b, capacity, OpOf(m).value);
        AddGrows(MapOf(b.live), OpOf(m).value);
      }
    }
  }

  lemma AddGrows(m: RefMap, op: Op)
    ensures op.AddOp? && RefStep(m, op).1 ==> |RefStep(m, op).0| == |m| + 1
  {
  }

  lemma EmptyMap()
    ensures MapOf([]) == map[]
  {
  }
}
