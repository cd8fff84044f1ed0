/**
 The synthetic feed generator. Its random draws are an arbitrary sequence of
 choices, and the live order it picks is any live order; everything else is as
 generated: encoders that append byte by byte, and one loop of order flow.
 */
module Synth {
  import opened Feed
  import opened Itch
  import opened ItchTypes
  import opened Options
  import opened Reference
  import opened Words

  datatype LiveOrder = LiveOrder(symbol: nat, shares: Shares, price: Price4, side: u8)

  /** One turn's random draws, in the ranges of the source's distributions. */
  datatype Choice = Choice(symbol: nat, action: nat, side: u8, shares: Shares, jitter: int, withMpid: bool) {
    predicate InRange(symbols: nat) {
      && (symbol == 0 || symbol < symbols)
      && action < 100
      && (side == 0x42 || side == 0x53)
      && 10 <= shares <= 1000
    }
  }

  /** "EDGX" and "TEST". */
  const MPID: Bytes := [0x45, 0x44, 0x47, 0x58]
  const NO_SYMBOL: Bytes := [0x54, 0x45, 0x53, 0x54]

  // ----- appending to a message -----

  lemma {:induction false} WriteBEAt(v: nat, n: nat, i: nat)
    requires i < n
    ensures WriteBE(v, n)[i] == (v / Pow256(n - 1 - i)) % 256
  {
    if i < n - 1 {
      WriteBEAt(v / 256, n - 1, i);
      DivideByBytes(v, Pow256(n - 2 - i));
    }
  }

  /** The high byte first: shift right by `8 * j` and keep the low eight bits. */
  method AppendBE(buf: Bytes, v: nat, n: nat) returns (r: Bytes)
    ensures r == buf + WriteBE(v, n)
  {
    r := buf;
    var j := n;
    while j > 0
      invariant 0 <= j <= n
      invariant r == buf + WriteBE(v, n)[..n - j]
    {
      j := j - 1;
      WriteBEAt(v, n, n - 1 - j);
      r := r + [(v / Pow256(j)) % 256];
    }
  }

  method AppendPadded(buf: Bytes, s: Bytes, width: nat) returns (r: Bytes)
    ensures r == buf + Padded(s, width)
  {
    r := buf;
    for i := 0 to width
      invariant r == buf + Padded(s, width)[..i]
    {
      r := r + [if i < |s| then s[i] else 0x20];
    }
  }

  method AppendHeader(kind: MessageType, locate: u16, tracking: u16, ts: u64) returns (r: Bytes)
    ensures r == EncodeHeader(kind, locate, tracking, ts)
  {
    r := [Letter(kind)];
    r := AppendBE(r, locate, 2);
    r := AppendBE(r, tracking, 2);
    r := AppendBE(r, ts, 6);
  }

  method AddBytes(header: Bytes, ref: OrderRef, side: u8, shares: Shares, stock: Bytes, price: Price4, mpid: Bytes)
      returns (raw: Bytes)
    ensures raw == EncodeAdd(header, ref, side, shares, stock, price, mpid)
    ensures header <= raw
  {
    hide WriteBE, Padded;
    raw := AppendBE(header, ref, 8);
    raw := raw + [side];
    raw := AppendBE(raw, shares, 4);
    raw := AppendPadded(raw, stock, 8);
    raw := AppendBE(raw, price, 4);
    raw := raw + mpid;
  }

  method ExecutedBytes(header: Bytes, ref: OrderRef, shares: Shares, matchNumber: u64) returns (raw: Bytes)
    ensures raw == EncodeExecuted(header, ref, shares, matchNumber)
    ensures header <= raw
  {
    hide WriteBE;
    raw := AppendBE(header, ref, 8);
    raw := AppendBE(raw, shares, 4);
    raw := AppendBE(raw, matchNumber, 8);
  }

  method CancelBytes(header: Bytes, ref: OrderRef, shares: Shares) returns (raw: Bytes)
    ensures raw == EncodeCancel(header, ref, shares)
    ensures header <= raw
  {
    hide WriteBE;
    raw := AppendBE(header, ref, 8);
    raw := AppendBE(raw, shares, 4);
  }

  method ReplaceBytes(header: Bytes, ref: OrderRef, newRef: OrderRef, shares: Shares, price: Price4)
      returns (raw: Bytes)
    ensures raw == EncodeReplace(header, ref, newRef, shares, price)
    ensures header <= raw
  {
    hide WriteBE;
    raw := AppendBE(header, ref, 8);
    raw := AppendBE(raw, newRef, 8);
    raw := AppendBE(raw, shares, 4);
    raw := AppendBE(raw, price, 4);
  }

  method TradeBytes(header: Bytes, ref: OrderRef, side: u8, shares: Shares, stock: Bytes, price: Price4,
                    matchNumber: u64) returns (raw: Bytes)
    ensures raw == EncodeTrade(header, ref, side, shares, stock, price, matchNumber)
    ensures header <= raw
  {
    hide WriteBE, Padded;
    raw := AppendBE(header, ref, 8);
    raw := raw + [side];
    raw := AppendBE(raw, shares, 4);
    raw := AppendPadded(raw, stock, 8);
    raw := AppendBE(raw, price, 4);
    raw := AppendBE(raw, matchNumber, 8);
  }

  /** The codes after the symbol in a directory entry, a round lot of 100 among them; the same for every symbol. */
  const DIRECTORY_CODES: Bytes := [
    0x51, 0x4E, 0, 0, 0, 100, 0x59, 0x43, 0x20, 0x20, 0x50, 0x4E, 0x4E, 0x31, 0x4E, 0, 0, 0, 0, 0x4E]

  method DirectoryBytes(header: Bytes, symbol: Bytes) returns (raw: Bytes)
    ensures raw == header + Padded(symbol, 8) + DIRECTORY_CODES
  {
    hide WriteBE, Padded;
    LotBytes();
    raw := AppendPadded(header, symbol, 8);
    var codes := [0x51] + [0x4E];
    codes := AppendBE(codes, 100, 4);
    codes := codes + [0x59] + [0x43];
    codes := AppendPadded(codes, [], 2);
    codes := codes + [0x50] + [0x4E] + [0x4E] + [0x31] + [0x4E];
    codes := AppendBE(codes, 0, 4);
    codes := codes + [0x4E];
    raw := raw + codes;
  }

  lemma LotBytes()
    ensures WriteBE(100, 4) == [0, 0, 0, 100] && WriteBE(0, 4) == [0, 0, 0, 0] && Padded([], 2) == [0x20, 0x20]
  {
  }

  lemma DirectoryReadsBack(header: Bytes, symbol: Bytes)
    requires HeaderOf(StockDirectory, header)
    ensures var raw := header + Padded(symbol, 8) + DIRECTORY_CODES;
            && header <= raw
            && |raw| == 39
            && Decode(raw) == Some(Message(StockDirectory, DecodeHeader(raw),
                                           StockDirectoryPayload(Padded(symbol, 8) + DIRECTORY_CODES)))
  {
    hide Padded, DecodeHeader;
    var raw := header + Padded(symbol, 8) + DIRECTORY_CODES;
    TypeOfLetter(StockDirectory);
    assert |DIRECTORY_CODES| == 20;
    assert raw[11..39] == Padded(symbol, 8) + DIRECTORY_CODES;
  }

  // ----- what the generator keeps about its output -----

  function LiveMap(live: map<OrderRef, LiveOrder>): RefMap {
    map ref | ref in live :: RefOrder(live[ref].price, live[ref].shares, live[ref].side == BUY)
  }

  lemma LiveMapSize(live: map<OrderRef, LiveOrder>)
    ensures |LiveMap(live)| == |live|
  {
    assert LiveMap(live).Keys == live.Keys;
  }

  /**
   The output is the framed encoding of `sent`; replaying `sent` on the reference
   map succeeds throughout, passes through `lives`, one map per message boundary,
   and never holds more than `capacity` orders.
   */
  ghost predicate Faithful(out: Bytes, raws: seq<Bytes>, sent: seq<Message>, lives: seq<RefMap>, capacity: nat) {
    && out == Framed(raws)
    && (forall r :: r in raws ==> |r| < 0x1_0000)
    && DecodeAll(raws) == sent
    && |lives| == |sent| + 1
    && (forall k :: 0 <= k <= |sent| ==> ReplayedTo(sent, k, lives[k]))
    && FitsOnTheWay(sent, capacity)
  }

  ghost predicate ReplayedTo(sent: seq<Message>, k: nat, m: RefMap) {
    k <= |sent| && Replay(sent[..k]) == (m, true)
  }

  /** Exactly one message was sent, with this content, under the next tracking number and the time it was sent. */
  ghost predicate Appends(before: seq<Message>, after: seq<Message>, kind: MessageType, locate: int, tracking: u16,
                          ts: u64, payload: Payload)
  {
    && |after| == |before| + 1
    && before <= after
    && after[|before|] == Message(kind, Header(Wrap16(locate), tracking, ts % 0x1_0000_0000_0000), payload)
  }

  lemma AppendsGrows(before: seq<Message>, after: seq<Message>, kind: MessageType, locate: int, tracking: u16, ts: u64,
                     payload: Payload)
    requires Appends(before, after, kind, locate, tracking, ts, payload)
    ensures |after| == |before| + 1 && before <= after
    ensures Adds(after) == Adds(before) + (if payload.AddOrderPayload? then 1 else 0)
  {
    AddsGrow(before, after);
  }

  /** How many Add Order messages there are. */
  function Adds(ms: seq<Message>): nat {
    if ms == [] then 0 else Adds(ms[..|ms| - 1]) + (if ms[|ms| - 1].payload.AddOrderPayload? then 1 else 0)
  }

  lemma AddsGrow(before: seq<Message>, after: seq<Message>)
    requires |after| == |before| + 1 && before <= after
    ensures Adds(after) == Adds(before) + (if after[|before|].payload.AddOrderPayload? then 1 else 0)
  {
    assert after[..|before|] == before;
  }

  lemma FaithfulAtStart(capacity: nat)
    ensures Faithful([], [], [], [map[]], capacity)
  {
  }

  /** One more message, which takes the reference from the last map to `now`. */
  lemma FaithfulGrows(out: Bytes, raws: seq<Bytes>, sent: seq<Message>, lives: seq<RefMap>, capacity: nat, raw: Bytes,
                      now: RefMap)
    requires Faithful(out, raws, sent, lives, capacity)
    requires |raw| < 0x1_0000 && Decode(raw).Some?
    requires RefMessage(lives[|sent|], Decode(raw).value) == (now, true) && |now| <= capacity
    ensures Faithful(out + Frame(raw), raws + [raw], sent + [Decode(raw).value], lives + [now], capacity)
  {
    hide RefMessage, Decode, Frame;
    var m := Decode(raw).value;
    var sent' := sent + [m];
    assert (raws + [raw])[..|raws|] == raws;
    assert sent'[..|sent|] == sent && sent[..|sent|] == sent;
    assert ReplayedTo(sent, |sent|, lives[|sent|]);
    forall k | 0 <= k <= |sent'|
      ensures ReplayedTo(sent', k, (lives + [now])[k])
    {
      if k <= |sent| {
        assert ReplayedTo(sent, k, lives[k]);
        assert sent'[..k] == sent[..k];
      } else {
        assert sent'[..k] == sent';
      }
    }
  }

  // ----- each kind of message on the reference -----

  ghost predicate Tracked(live: map<OrderRef, LiveOrder>, nextRef: OrderRef) {
    forall ref :: ref in live ==> ref < nextRef && live[ref].shares > 0
  }

  /** Shares taken off a live order; nothing is left of an order with none. */
  function Taken(live: map<OrderRef, LiveOrder>, ref: OrderRef, delta: Shares): map<OrderRef, LiveOrder>
    requires ref in live && delta <= live[ref].shares
  {
    if live[ref].shares == delta then live - {ref}
    else live[ref := live[ref].(shares := live[ref].shares - delta)]
  }

  lemma AddTracked(live: map<OrderRef, LiveOrder>, nextRef: OrderRef, o: LiveOrder)
    requires Tracked(live, nextRef) && o.shares > 0
    ensures RefAdd(LiveMap(live), nextRef, o.price, o.shares, o.side == BUY) == (LiveMap(live[nextRef := o]), true)
    ensures |live[nextRef := o]| == |live| + 1
    ensures nextRef < 0xFFFF_FFFF_FFFF_FFFF ==> Tracked(live[nextRef := o], nextRef + 1)
  {
    hide LiveMap;
    assert nextRef !in live;
    LiveMapSet(live, nextRef, o);
    LiveMapHas(live, nextRef);
    assert live[nextRef := o].Keys == live.Keys + {nextRef};
  }

  lemma LiveMapSet(live: map<OrderRef, LiveOrder>, ref: OrderRef, o: LiveOrder)
    ensures LiveMap(live[ref := o]) == LiveMap(live)[ref := RefOrder(o.price, o.shares, o.side == BUY)]
  {
  }

  lemma TakeTracked(live: map<OrderRef, LiveOrder>, nextRef: OrderRef, ref: OrderRef, delta: Shares)
    requires Tracked(live, nextRef) && ref in live && 0 < delta <= live[ref].shares
    ensures RefReduce(LiveMap(live), ref, delta) == (LiveMap(Taken(live, ref, delta)), true)
    ensures Tracked(Taken(live, ref, delta), nextRef) && |Taken(live, ref, delta)| <= |live|
  {
    if live[ref].shares == delta {
      DeleteTracked(live, nextRef, ref);
    } else {
      var o := live[ref].(shares := live[ref].shares - delta);
      LiveMapSet(live, ref, o);
      LiveMapHas(live, ref);
      assert live[ref := o].Keys == live.Keys;
    }
  }

  lemma DeleteTracked(live: map<OrderRef, LiveOrder>, nextRef: OrderRef, ref: OrderRef)
    requires Tracked(live, nextRef) && ref in live
    ensures RefDelete(LiveMap(live), ref) == (LiveMap(live - {ref}), true)
    ensures Tracked(live - {ref}, nextRef) && |live - {ref}| == |live| - 1
  {
    assert LiveMap(live - {ref}) == LiveMap(live) - {ref};
    assert (live - {ref}).Keys == live.Keys - {ref};
  }

  lemma ReplaceTracked(live: map<OrderRef, LiveOrder>, nextRef: OrderRef, ref: OrderRef, o: LiveOrder)
    requires Tracked(live, nextRef) && ref in live && o.shares > 0 && o.side == live[ref].side
    ensures RefReplace(LiveMap(live), ref, nextRef, o.shares, o.price) == (LiveMap((live - {ref})[nextRef := o]), true)
    ensures |(live - {ref})[nextRef := o]| == |live|
    ensures nextRef < 0xFFFF_FFFF_FFFF_FFFF ==> Tracked((live - {ref})[nextRef := o], nextRef + 1)
  {
    hide LiveMap, Tracked;
    DeleteTracked(live, nextRef, ref);
    AddTracked(live - {ref}, nextRef, o);
    if nextRef in live {
      TrackedHas(live, nextRef, nextRef);
      assert false;
    }
    LiveMapHas(live, ref);
    LiveMapHas(live, nextRef);
  }

  lemma TrackedHas(live: map<OrderRef, LiveOrder>, nextRef: OrderRef, ref: OrderRef)
    requires Tracked(live, nextRef) && ref in live
    ensures ref < nextRef && live[ref].shares > 0
  {
  }

  lemma TrackedLater(live: map<OrderRef, LiveOrder>, nextRef: OrderRef)
    requires Tracked(live, nextRef) && nextRef < 0xFFFF_FFFF_FFFF_FFFF
    ensures Tracked(live, nextRef + 1)
  {
  }

  lemma LiveMapHas(live: map<OrderRef, LiveOrder>, ref: OrderRef)
    ensures ref in LiveMap(live) <==> ref in live
    ensures ref in live ==> LiveMap(live)[ref] == RefOrder(live[ref].price, live[ref].shares, live[ref].side == BUY)
  {
  }

  // ----- one turn of the order flow -----

  /** Everything the generator carries from one message to the next. */
  datatype Snapshot = Snapshot(tracking: u16, ts: u64, nextRef: OrderRef, nextMatch: u64,
                               live: map<OrderRef, LiveOrder>, added: nat)

  /** The symbol field of a message, "TEST" if there are no symbols. */
  function StockField(symbols: seq<Bytes>, c: Choice): Bytes
    requires c.InRange(|symbols|)
  {
    Padded(if symbols == [] then [0x54, 0x45, 0x53, 0x54] else symbols[c.symbol], 8)
  }

  /**
   One turn on the draw `c`: the message `m` sent takes the generator from `s` to
   `t`. Without a live order, or for 55 of 100 actions, it adds an order; otherwise
   it goes by the action, on some live order.
   */
  ghost predicate Turn(symbols: seq<Bytes>, basePrice: Price4, c: Choice, s: Snapshot, t: Snapshot, m: Message)
    requires c.InRange(|symbols|)
  {
    && m.header == Header(Wrap16(c.symbol + 1), s.tracking, t.ts % 0x1_0000_0000_0000)
    && t.tracking == Wrap16(s.tracking as int + 1) && t.ts == Wrap64(s.ts as int + 1000)
    && if s.live == map[] || c.action < 55 then AddTurn(symbols, basePrice, c, s, t, m)
       else exists ref :: ref in s.live && LiveTurn(symbols, c, s, t, m, ref)
  }

  ghost predicate AddTurn(symbols: seq<Bytes>, basePrice: Price4, c: Choice, s: Snapshot, t: Snapshot, m: Message)
    requires c.InRange(|symbols|)
  {
    var price := Wrap32(basePrice as int + c.jitter);
    && m.kind == (if c.withMpid then AddOrderMPID else AddOrder)
    && m.payload == AddOrderPayload(s.nextRef, c.side, c.shares, StockField(symbols, c), price,
                                    if c.withMpid then [0x45, 0x44, 0x47, 0x58] else [])
    && t.live == s.live[s.nextRef := LiveOrder(c.symbol, c.shares, price, c.side)]
    && t.nextRef == s.nextRef + 1 && t.nextMatch == s.nextMatch && t.added == s.added + 1
  }

  /** Executions and cancellations take the drawn shares, or all that are left; a trade touches no order. */
  ghost predicate LiveTurn(symbols: seq<Bytes>, c: Choice, s: Snapshot, t: Snapshot, m: Message, ref: OrderRef)
    requires c.InRange(|symbols|) && ref in s.live
  {
    var order := s.live[ref];
    var taken := if order.shares < c.shares then order.shares else c.shares;
    && t.added == s.added
    && if c.action < 70 then
         && m == Message(OrderExecuted, m.header, OrderExecutedPayload(ref, taken, s.nextMatch))
         && t.live == Taken(s.live, ref, taken)
         && t.nextRef == s.nextRef && t.nextMatch == Wrap64(s.nextMatch as int + 1)
       else if c.action < 80 then
         && m == Message(OrderCancel, m.header, OrderCancelPayload(ref, taken))
         && t.live == Taken(s.live, ref, taken)
         && t.nextRef == s.nextRef && t.nextMatch == s.nextMatch
       else if c.action < 90 then
         && m == Message(OrderDelete, m.header, OrderDeletePayload(ref))
         && t.live == s.live - {ref}
         && t.nextRef == s.nextRef && t.nextMatch == s.nextMatch
       else if c.action < 97 then
         var price := Wrap32(order.price as int + c.jitter);
         && m == Message(OrderReplace, m.header, OrderReplacePayload(ref, s.nextRef, c.shares, price))
         && t.live == (s.live - {ref})[s.nextRef := order.(shares := c.shares, price := price)]
         && t.nextRef == s.nextRef + 1 && t.nextMatch == s.nextMatch
       else
         && m == Message(Trade, m.header, TradePayload(s.nextRef, c.side, c.shares, StockField(symbols, c), order.price,
                                                       s.nextMatch))
         && t.live == s.live
         && t.nextRef == s.nextRef + 1 && t.nextMatch == Wrap64(s.nextMatch as int + 1)
  }

  lemma LiveTurnIsTurn(symbols: seq<Bytes>, basePrice: Price4, c: Choice, s: Snapshot, t: Snapshot, m: Message,
                       ref: OrderRef)
    requires c.InRange(|symbols|) && c.action >= 55 && ref in s.live && LiveTurn(symbols, c, s, t, m, ref)
    requires m.header == Header(Wrap16(c.symbol + 1), s.tracking, t.ts % 0x1_0000_0000_0000)
    requires t.tracking == Wrap16(s.tracking as int + 1) && t.ts == Wrap64(s.ts as int + 1000)
    ensures Turn(symbols, basePrice, c, s, t, m)
  {
  }

  lemma TurnHeader(symbols: seq<Bytes>, basePrice: Price4, c: Choice, s: Snapshot, t: Snapshot, m: Message)
    requires c.InRange(|symbols|) && Turn(symbols, basePrice, c, s, t, m)
    ensures m.header == Header(Wrap16(c.symbol + 1), s.tracking, Wrap64(s.ts as int + 1000) % 0x1_0000_0000_0000)
    ensures t.tracking == Wrap16(s.tracking as int + 1) && t.ts == Wrap64(s.ts as int + 1000)
  {
    hide Wrap16, Wrap64, AddTurn, LiveTurn;
  }

  // ----- the clock and the tracking number -----

  /** The k-th message has tracking number k + 1 and is sent 1000 after the one before, in 16 and 48 bits. */
  ghost predicate Stamped(sent: seq<Message>) {
    forall k :: 0 <= k < |sent| ==> StampedAt(sent[k], k)
  }

  ghost predicate StampedAt(m: Message, k: nat) {
    && m.header.trackingNumber == Wrap16(1 + k)
    && m.header.timestamp == Wrap64(1000 * (k + 1)) % 0x1_0000_0000_0000
  }

  /** The counters after so many messages. */
  ghost predicate CountersAfter(tracking: u16, ts: u64, n: nat) {
    tracking == Wrap16(1 + n) && ts == Wrap64(1000 * n)
  }

  lemma StartCounters()
    ensures Wrap16(1 + 1) == 2 && Wrap64(0 + 1000) == Wrap64(1000)
  {
  }

  lemma CountersMoveOn(tracking: u16, ts: u64, n: nat)
    requires CountersAfter(tracking, ts, n)
    ensures CountersAfter(Wrap16(tracking as int + 1), Wrap64(ts as int + 1000), n + 1)
  {
    hide Wrap16, Wrap64;
    WrapStep16(1 + n, 1);
    WrapStep64(1000 * n, 1000);
  }

  /** One more message, under the counters as they stood, moves them on. */
  lemma StampedGrows(before: seq<Message>, after: seq<Message>, tracking: u16, ts: u64)
    requires Stamped(before) && CountersAfter(tracking, ts, |before|)
    requires |after| == |before| + 1 && before <= after && after[|before|].header.trackingNumber == tracking
    requires after[|before|].header.timestamp == Wrap64(ts as int + 1000) % 0x1_0000_0000_0000
    ensures Stamped(after) && CountersAfter(Wrap16(tracking as int + 1), Wrap64(ts as int + 1000), |after|)
  {
    hide Wrap16, Wrap64;
    CountersMoveOn(tracking, ts, |before|);
    forall k | 0 <= k < |after|
      ensures StampedAt(after[k], k)
    {
      if k < |before| {
        assert StampedAt(before[k], k);
      }
    }
  }

  // ----- the whole stream -----

  /** The stream starts with the start event and `n` directory entries, under stock locates 0, 1, 2 and so on. */
  ghost predicate Opens(symbols: seq<Bytes>, n: nat, sent: seq<Message>)
    requires n <= |symbols|
  {
    && n < |sent|
    && sent[0] == Message(SystemEvent, sent[0].header, SystemEventPayload(0x4F)) && sent[0].header.stockLocate == 0
    && forall k :: 0 <= k < n ==> IsDirectoryOf(sent[1 + k], k, symbols[k])
  }

  ghost predicate IsDirectoryOf(m: Message, index: nat, symbol: Bytes) {
    && m == Message(StockDirectory, m.header, StockDirectoryPayload(Padded(symbol, 8) + DIRECTORY_CODES))
    && m.header.stockLocate == Wrap16(index + 1)
  }

  /**
   The draws, one after another, each give the next message after the directory
   and take the generator from one of `states` to the next; before each, fewer than
   `numOrders` orders had been added.
   */
  ghost predicate Flows(symbols: seq<Bytes>, basePrice: Price4, numOrders: nat, choices: seq<Choice>,
                        states: seq<Snapshot>, sent: seq<Message>)
  {
    && 1 <= |states| <= |choices| + 1 && |symbols| + |states| <= |sent|
    && forall i :: 0 <= i < |states| - 1
                   ==> FlowsAt(symbols, basePrice, numOrders, choices[i], states[i], states[i + 1], sent, i)
  }

  ghost predicate FlowsAt(symbols: seq<Bytes>, basePrice: Price4, numOrders: nat, c: Choice, s: Snapshot, t: Snapshot,
                          sent: seq<Message>, i: nat)
    requires 1 + |symbols| + i < |sent|
  {
    && c.InRange(|symbols|)
    && Turn(symbols, basePrice, c, s, t, sent[1 + |symbols| + i])
    && Adds(sent[..1 + |symbols| + i]) < numOrders
  }

  /** One more turn. */
  lemma FlowsGrow(symbols: seq<Bytes>, basePrice: Price4, numOrders: nat, choices: seq<Choice>, states: seq<Snapshot>,
                  sent: seq<Message>, sent': seq<Message>, t: Snapshot)
    requires Flows(symbols, basePrice, numOrders, choices, states, sent) && |states| <= |choices|
    requires |sent| == |symbols| + |states| && Adds(sent) < numOrders
    requires |sent'| == |sent| + 1 && sent <= sent' && choices[|states| - 1].InRange(|symbols|)
    requires Turn(symbols, basePrice, choices[|states| - 1], states[|states| - 1], t, sent'[|sent|])
    ensures Flows(symbols, basePrice, numOrders, choices, states + [t], sent')
  {
    hide Turn, Adds, Choice.InRange;
    var states' := states + [t];
    forall i | 0 <= i < |states'| - 1
      ensures FlowsAt(symbols, basePrice, numOrders, choices[i], states'[i], states'[i + 1], sent', i)
    {
      assert sent'[..1 + |symbols| + i] == sent[..1 + |symbols| + i];
      if i < |states| - 1 {
        assert FlowsAt(symbols, basePrice, numOrders, choices[i], states[i], states[i + 1], sent, i);
      } else {
        assert sent[..|sent|] == sent;
      }
    }
  }

  lemma FlowsStart(symbols: seq<Bytes>, basePrice: Price4, numOrders: nat, choices: seq<Choice>, s: Snapshot,
                   sent: seq<Message>)
    requires 1 + |symbols| <= |sent|
    ensures Flows(symbols, basePrice, numOrders, choices, [s], sent)
  {
  }

  /** What follows changes nothing about what was. */
  lemma FlowsOn(symbols: seq<Bytes>, basePrice: Price4, numOrders: nat, choices: seq<Choice>, states: seq<Snapshot>,
                sent: seq<Message>, sent': seq<Message>)
    requires Flows(symbols, basePrice, numOrders, choices, states, sent) && sent <= sent'
    ensures Flows(symbols, basePrice, numOrders, choices, states, sent')
  {
    hide Turn, Adds, Choice.InRange;
    forall i | 0 <= i < |states| - 1
      ensures FlowsAt(symbols, basePrice, numOrders, choices[i], states[i], states[i + 1], sent', i)
    {
      assert sent'[..1 + |symbols| + i] == sent[..1 + |symbols| + i];
      assert FlowsAt(symbols, basePrice, numOrders, choices[i], states[i], states[i + 1], sent, i);
    }
  }

  lemma OpensStart(symbols: seq<Bytes>, sent: seq<Message>)
    requires Appends([], sent, SystemEvent, 0, 1, Wrap64(1000), SystemEventPayload(0x4F))
    ensures Opens(symbols, 0, sent) && Stamped(sent) && CountersAfter(2, Wrap64(1000), 1)
  {
    StampedGrows([], sent, 1, 0);
  }

  /** One more directory entry. */
  lemma OpensGrow(symbols: seq<Bytes>, n: nat, sent: seq<Message>, sent': seq<Message>, tracking: u16, ts: u64)
    requires n < |symbols| && |sent| == 1 + n && Opens(symbols, n, sent)
    requires Stamped(sent) && CountersAfter(tracking, ts, |sent|)
    requires Appends(sent, sent', StockDirectory, n + 1, tracking, Wrap64(ts as int + 1000),
                     StockDirectoryPayload(Padded(symbols[n], 8) + DIRECTORY_CODES))
    ensures Opens(symbols, n + 1, sent')
    ensures Stamped(sent') && CountersAfter(Wrap16(tracking as int + 1), Wrap64(ts as int + 1000), |sent'|)
  {
    hide Padded, Wrap16, Wrap64, Stamped, CountersAfter;
    StampedGrows(sent, sent', tracking, ts);
  }

  lemma OpensOn(symbols: seq<Bytes>, n: nat, sent: seq<Message>, sent': seq<Message>)
    requires n <= |symbols| && Opens(symbols, n, sent) && sent <= sent'
    ensures Opens(symbols, n, sent')
  {
    hide IsDirectoryOf;
  }

  /** All of this together: the opening, the turns so far, and the stamps. */
  ghost predicate Streams(symbols: seq<Bytes>, basePrice: Price4, numOrders: nat, choices: seq<Choice>,
                          states: seq<Snapshot>, sent: seq<Message>)
  {
    && Opens(symbols, |symbols|, sent)
    && Flows(symbols, basePrice, numOrders, choices, states, sent)
    && Stamped(sent)
    && states[0].live == map[] && states[0].nextRef == 1 && states[0].nextMatch == 1
  }

  lemma StreamsStart(symbols: seq<Bytes>, basePrice: Price4, numOrders: nat, choices: seq<Choice>, s: Snapshot,
                     sent: seq<Message>)
    requires Opens(symbols, |symbols|, sent) && Stamped(sent)
    requires s.live == map[] && s.nextRef == 1 && s.nextMatch == 1
    ensures Streams(symbols, basePrice, numOrders, choices, [s], sent)
  {
    hide IsDirectoryOf, Stamped;
  }

  lemma StreamsGrow(symbols: seq<Bytes>, basePrice: Price4, numOrders: nat, choices: seq<Choice>,
                    states: seq<Snapshot>, sent: seq<Message>, sent': seq<Message>, t: Snapshot)
    requires 1 <= |states| <= |choices| && |sent| == |symbols| + |states| && Adds(sent) < numOrders
    requires Streams(symbols, basePrice, numOrders, choices, states, sent)
    requires |sent'| == |sent| + 1 && sent <= sent' && choices[|states| - 1].InRange(|symbols|)
    requires var s := states[|states| - 1];
             && CountersAfter(s.tracking, s.ts, |sent|)
             && Turn(symbols, basePrice, choices[|states| - 1], s, t, sent'[|sent|])
    ensures Streams(symbols, basePrice, numOrders, choices, states + [t], sent')
    ensures CountersAfter(t.tracking, t.ts, |sent'|)
  {
    hide Turn, Adds, Choice.InRange, Opens, Flows, Stamped, CountersAfter, Wrap16, Wrap64;
    var c, s, states' := choices[|states| - 1], states[|states| - 1], states + [t];
    OpensOn(symbols, |symbols|, sent, sent');
    FlowsGrow(symbols, basePrice, numOrders, choices, states, sent, sent', t);
    TurnHeader(symbols, basePrice, c, s, t, sent'[|sent|]);
    StampedGrows(sent, sent', s.tracking, s.ts);
    FlowsStates(symbols, basePrice, numOrders, choices, states, sent);
    assert states'[0] == states[0];
  }

  lemma FlowsStates(symbols: seq<Bytes>, basePrice: Price4, numOrders: nat, choices: seq<Choice>,
                    states: seq<Snapshot>, sent: seq<Message>)
    requires Flows(symbols, basePrice, numOrders, choices, states, sent)
    ensures 1 <= |states| <= |choices| + 1 && |symbols| + |states| <= |sent|
  {
  }

  /** The end event closes the stream. */
  lemma StreamsEnd(symbols: seq<Bytes>, basePrice: Price4, numOrders: nat, choices: seq<Choice>,
                   states: seq<Snapshot>, sent: seq<Message>, sent': seq<Message>, tracking: u16, ts: u64)
    requires Streams(symbols, basePrice, numOrders, choices, states, sent) && CountersAfter(tracking, ts, |sent|)
    requires Appends(sent, sent', SystemEvent, 0, tracking, Wrap64(ts as int + 1000), SystemEventPayload(0x43))
    ensures Streams(symbols, basePrice, numOrders, choices, states, sent')
    ensures IsEnd(sent'[|sent|])
  {
    hide Turn, Adds, Choice.InRange, Opens, Flows, Stamped, CountersAfter, Wrap64;
    OpensOn(symbols, |symbols|, sent, sent');
    FlowsOn(symbols, basePrice, numOrders, choices, states, sent, sent');
    StampedGrows(sent, sent', tracking, ts);
  }

  ghost predicate IsEnd(m: Message) {
    m == Message(SystemEvent, m.header, SystemEventPayload(0x43)) && m.header.stockLocate == 0
  }

  // ----- the generator -----

  class Generator {
    const symbols: seq<Bytes>
    const numOrders: nat
    const basePrice: Price4

    var tracking: u16
    var ts: u64
    var nextRef: OrderRef
    var nextMatch: u64
    var live: map<OrderRef, LiveOrder>
    var added: nat
    var out: Bytes

    /** The messages written, raw and decoded, and the live orders at every boundary between them. */
    ghost var raws: seq<Bytes>
    ghost var sent: seq<Message>
    ghost var lives: seq<RefMap>

    ghost predicate Valid()
      reads this
    {
      && Faithful(out, raws, sent, lives, numOrders)
      && lives[|sent|] == LiveMap(live)
      && Tracked(live, nextRef)
      && |live| <= added == Adds(sent) <= numOrders
    }

    ghost function Now(): Snapshot
      reads this
    {
      Snapshot(tracking, ts, nextRef, nextMatch, live, added)
    }

    constructor (symbols: seq<Bytes>, numOrders: nat, basePrice: Price4)
      ensures Valid() && out == [] && sent == [] && lives == [map[]] && Now() == Snapshot(1, 0, 1, 1, map[], 0)
      ensures this.symbols == symbols && this.numOrders == numOrders && this.basePrice == basePrice
    {
      this.symbols, this.numOrders, this.basePrice := symbols, numOrders, basePrice;
      tracking, ts, nextRef, nextMatch := 1, 0, 1, 1;
      live, added, out := map[], 0, [];
      raws, sent, lives := [], [], [map[]];
      new;
      FaithfulAtStart(numOrders);
    }

    /** The header of the next message; the tracking number and the clock move on. */
    method NextHeader(kind: MessageType, locate: u16) returns (header: Bytes)
      modifies `tracking, `ts
      ensures HeaderOf(kind, header) && header == EncodeHeader(kind, locate, old(tracking), ts)
      ensures ts == Wrap64(old(ts) + 1000) && tracking == Wrap16(old(tracking) + 1)
    {
      ts := Wrap64(ts as int + 1000);
      header := AppendHeader(kind, locate, tracking, ts);
      tracking := Wrap16(tracking as int + 1);
    }

    method WriteFramed(raw: Bytes, ghost now: RefMap)
      requires Faithful(out, raws, sent, lives, numOrders)
      requires |raw| < 0x1_0000 && Decode(raw).Some?
      requires RefMessage(lives[|sent|], Decode(raw).value) == (now, true) && |now| <= numOrders
      modifies `out, `raws, `sent, `lives
      ensures Faithful(out, raws, sent, lives, numOrders)
      ensures out == old(out) + Frame(raw)
      ensures sent == old(sent) + [Decode(raw).value] && lives == old(lives) + [now] && lives[|sent|] == now
    {
      hide Decode, RefMessage, Replay, FitsOnTheWay, Framed;
      FaithfulGrows(out, raws, sent, lives, numOrders, raw, now);
      var len := AppendBE([], |raw| % 0x1_0000, 2);
      out := out + (len + raw);
      raws := raws + [raw];
      sent := sent + [Decode(raw).value];
      lives := lives + [now];
    }

    method EmitSystemEvent(code: u8)
      requires Valid()
      modifies `tracking, `ts, `out, `raws, `sent, `lives
      ensures Valid() && lives == old(lives) + [LiveMap(live)]
      ensures ts == Wrap64(old(ts) + 1000) && tracking == Wrap16(old(tracking) + 1)
      ensures Appends(old(sent), sent, SystemEvent, 0, old(tracking), ts, SystemEventPayload(code))
    {
      hide Adds, EncodeHeader, DecodeHeader, Wrap64, Faithful, Tracked, LiveMap;
      LiveMapSize(live);
      var raw := NextHeader(SystemEvent, 0);
      raw := raw + [code];
      HeaderReadsBack(raw, SystemEvent, 0, old(tracking), ts);
      WriteFramed(raw, LiveMap(live));
      AddsGrow(old(sent), sent);
    }

    method EmitStockDirectory(index: nat)
      requires Valid() && index < |symbols|
      modifies `tracking, `ts, `out, `raws, `sent, `lives
      ensures Valid() && lives == old(lives) + [LiveMap(live)]
      ensures ts == Wrap64(old(ts) + 1000) && tracking == Wrap16(old(tracking) + 1)
      ensures Appends(old(sent), sent, StockDirectory, index + 1, old(tracking), ts,
                      StockDirectoryPayload(Padded(symbols[index], 8) + DIRECTORY_CODES))
    {
      hide Adds, EncodeHeader, DecodeHeader, Decode, Wrap16, Wrap64, Faithful, Tracked, LiveMap, Padded;
      LiveMapSize(live);
      var header := NextHeader(StockDirectory, Wrap16(index + 1));
      var raw := DirectoryBytes(header, symbols[index]);
      HeaderReadsBack(raw, StockDirectory, Wrap16(index + 1), old(tracking), ts);
      DirectoryReadsBack(header, symbols[index]);
      WriteFramed(raw, LiveMap(live));
      AddsGrow(old(sent), sent);
    }

    function SymbolName(c: Choice): Bytes
      requires c.InRange(|symbols|)
    {
      if symbols == [] then NO_SYMBOL else symbols[c.symbol]
    }

    /** The bytes of the next message of each kind, under the next header. */
    method AddMessage(c: Choice, price: Price4) returns (raw: Bytes)
      requires c.InRange(|symbols|)
      modifies `tracking, `ts
      ensures ts == Wrap64(old(ts) + 1000) && tracking == Wrap16(old(tracking) + 1)
      ensures |raw| < 0x1_0000 && Decode(raw) == Some(Message(
        if c.withMpid then AddOrderMPID else AddOrder,
        Header(Wrap16(c.symbol + 1), old(tracking), ts % 0x1_0000_0000_0000),
        AddOrderPayload(nextRef, c.side, c.shares, Padded(SymbolName(c), 8), price, if c.withMpid then MPID else [])))
    {
      hide SymbolName, Padded, EncodeHeader, DecodeHeader, Wrap16, Wrap64, Decode, EncodeAdd;
      var mpid := if c.withMpid then MPID else [];
      var kind := if c.withMpid then AddOrderMPID else AddOrder;
      var header := NextHeader(kind, Wrap16(c.symbol + 1));
      raw := AddBytes(header, nextRef, c.side, c.shares, SymbolName(c), price, mpid);
      HeaderReadsBack(raw, kind, Wrap16(c.symbol + 1), old(tracking), ts);
      AddReadsBack(kind, header, nextRef, c.side, c.shares, SymbolName(c), price, mpid);
    }

    method ExecutedMessage(c: Choice, ref: OrderRef, shares: Shares) returns (raw: Bytes)
      modifies `tracking, `ts
      ensures ts == Wrap64(old(ts) + 1000) && tracking == Wrap16(old(tracking) + 1)
      ensures |raw| < 0x1_0000 && Decode(raw) == Some(Message(
        OrderExecuted, Header(Wrap16(c.symbol + 1), old(tracking), ts % 0x1_0000_0000_0000),
        OrderExecutedPayload(ref, shares, nextMatch)))
    {
      hide EncodeHeader, DecodeHeader, Wrap16, Wrap64, Decode, EncodeExecuted;
      var header := NextHeader(OrderExecuted, Wrap16(c.symbol + 1));
      raw := ExecutedBytes(header, ref, shares, nextMatch);
      HeaderReadsBack(raw, OrderExecuted, Wrap16(c.symbol + 1), old(tracking), ts);
      ExecutedReadsBack(header, ref, shares, nextMatch);
    }

    method CancelMessage(c: Choice, ref: OrderRef, shares: Shares) returns (raw: Bytes)
      modifies `tracking, `ts
      ensures ts == Wrap64(old(ts) + 1000) && tracking == Wrap16(old(tracking) + 1)
      ensures |raw| < 0x1_0000 && Decode(raw) == Some(Message(
        OrderCancel, Header(Wrap16(c.symbol + 1), old(tracking), ts % 0x1_0000_0000_0000),
        OrderCancelPayload(ref, shares)))
    {
      hide EncodeHeader, DecodeHeader, Wrap16, Wrap64, Decode, EncodeCancel;
      var header := NextHeader(OrderCancel, Wrap16(c.symbol + 1));
      raw := CancelBytes(header, ref, shares);
      HeaderReadsBack(raw, OrderCancel, Wrap16(c.symbol + 1), old(tracking), ts);
      CancelReadsBack(header, ref, shares);
    }

    method ReplaceMessage(c: Choice, ref: OrderRef, price: Price4) returns (raw: Bytes)
      modifies `tracking, `ts
      ensures ts == Wrap64(old(ts) + 1000) && tracking == Wrap16(old(tracking) + 1)
      ensures |raw| < 0x1_0000 && Decode(raw) == Some(Message(
        OrderReplace, Header(Wrap16(c.symbol + 1), old(tracking), ts % 0x1_0000_0000_0000),
        OrderReplacePayload(ref, nextRef, c.shares, price)))
    {
      hide EncodeHeader, DecodeHeader, Wrap16, Wrap64, Decode, EncodeReplace;
      var header := NextHeader(OrderReplace, Wrap16(c.symbol + 1));
      raw := ReplaceBytes(header, ref, nextRef, c.shares, price);
      HeaderReadsBack(raw, OrderReplace, Wrap16(c.symbol + 1), old(tracking), ts);
      ReplaceReadsBack(header, ref, nextRef, c.shares, price);
    }

    method EmitAdd(c: Choice)
      requires Valid() && c.InRange(|symbols|) && added < numOrders && nextRef < 0xFFFF_FFFF_FFFF_FFFF
      modifies this
      ensures Valid() && lives == old(lives) + [LiveMap(live)]
      ensures nextMatch == old(nextMatch)
      ensures ts == Wrap64(old(ts) + 1000) && tracking == Wrap16(old(tracking) + 1)
      ensures Appends(old(sent), sent, if c.withMpid then AddOrderMPID else AddOrder, c.symbol + 1, old(tracking), ts,
                      AddOrderPayload(old(nextRef), c.side, c.shares, Padded(SymbolName(c), 8),
                                      Wrap32(basePrice + c.jitter),
                                      if c.withMpid then MPID else []))
      ensures nextRef == old(nextRef) + 1 && added == old(added) + 1
      ensures live == old(live)[old(nextRef) := LiveOrder(c.symbol, c.shares, Wrap32(basePrice + c.jitter), c.side)]
    {
      hide Adds, SymbolName, Padded, EncodeHeader, DecodeHeader, Wrap16, Wrap64, Faithful, LiveMap, Tracked, RefAdd,
        Decode, EncodeAdd, Wrap32;
      var price := Wrap32(basePrice + c.jitter);
      var raw := AddMessage(c, price);
      var order := LiveOrder(c.symbol, c.shares, price, c.side);
      AddTracked(live, nextRef, order);
      LiveMapSize(live[nextRef := order]);
      WriteFramed(raw, LiveMap(live[nextRef := order]));
      AddsGrow(old(sent), sent);
      live := live[nextRef := order];
      nextRef := nextRef + 1;
      added := added + 1;
    }

    /** Taking shares off an order, and the order off the live ones when none are left. */
    method TakeShares(ref: OrderRef, delta: Shares)
      requires ref in live && delta <= live[ref].shares
      modifies `live
      ensures live == Taken(old(live), ref, delta)
    {
      live := live[ref := live[ref].(shares := live[ref].shares - delta)];
      if live[ref].shares == 0 {
        live := live - {ref};
      }
    }

    method EmitExecuted(c: Choice, ref: OrderRef)
      requires Valid() && c.InRange(|symbols|) && ref in live
      modifies this
      ensures Valid() && lives == old(lives) + [LiveMap(live)]
      ensures nextMatch == Wrap64(old(nextMatch) + 1)
      ensures ts == Wrap64(old(ts) + 1000) && tracking == Wrap16(old(tracking) + 1)
      ensures Appends(old(sent), sent, OrderExecuted, c.symbol + 1, old(tracking), ts,
                      OrderExecutedPayload(ref, Min(old(live)[ref].shares, c.shares), old(nextMatch)))
      ensures nextRef == old(nextRef) && added == old(added)
      ensures live == Taken(old(live), ref, Min(old(live)[ref].shares, c.shares))
    {
      hide Adds, EncodeHeader, DecodeHeader, Wrap16, Wrap64, Faithful, LiveMap, Tracked, RefReduce, Decode,
        EncodeExecuted, Taken;
      TrackedHas(live, nextRef, ref);
      var executed := Min(live[ref].shares, c.shares);
      var raw := ExecutedMessage(c, ref, executed);
      TakeTracked(live, nextRef, ref, executed);
      LiveMapSize(Taken(live, ref, executed));
      WriteFramed(raw, LiveMap(Taken(live, ref, executed)));
      AddsGrow(old(sent), sent);
      nextMatch := Wrap64(nextMatch as int + 1);
      TakeShares(ref, executed);
    }

    method EmitCancel(c: Choice, ref: OrderRef)
      requires Valid() && c.InRange(|symbols|) && ref in live
      modifies this
      ensures Valid() && lives == old(lives) + [LiveMap(live)]
      ensures nextMatch == old(nextMatch)
      ensures ts == Wrap64(old(ts) + 1000) && tracking == Wrap16(old(tracking) + 1)
      ensures Appends(old(sent), sent, OrderCancel, c.symbol + 1, old(tracking), ts,
                      OrderCancelPayload(ref, Min(old(live)[ref].shares, c.shares)))
      ensures nextRef == old(nextRef) && added == old(added)
      ensures live == Taken(old(live), ref, Min(old(live)[ref].shares, c.shares))
    {
      hide Adds, EncodeHeader, DecodeHeader, Wrap16, Wrap64, Faithful, LiveMap, Tracked, RefReduce, Decode,
        EncodeCancel, Taken;
      TrackedHas(live, nextRef, ref);
      var cancelled := Min(live[ref].shares, c.shares);
      var raw := CancelMessage(c, ref, cancelled);
      TakeTracked(live, nextRef, ref, cancelled);
      LiveMapSize(Taken(live, ref, cancelled));
      WriteFramed(raw, LiveMap(Taken(live, ref, cancelled)));
      AddsGrow(old(sent), sent);
      TakeShares(ref, cancelled);
    }

    method EmitDelete(c: Choice, ref: OrderRef)
      requires Valid() && c.InRange(|symbols|) && ref in live
      modifies this
      ensures Valid() && lives == old(lives) + [LiveMap(live)]
      ensures nextMatch == old(nextMatch)
      ensures ts == Wrap64(old(ts) + 1000) && tracking == Wrap16(old(tracking) + 1)
      ensures Appends(old(sent), sent, OrderDelete, c.symbol + 1, old(tracking), ts, OrderDeletePayload(ref))
      ensures nextRef == old(nextRef) && added == old(added)
      ensures live == old(live) - {ref}
    {
      hide Adds, EncodeHeader, DecodeHeader, Wrap16, Wrap64, Faithful, LiveMap, Tracked, RefDelete, Decode;
      var header := NextHeader(OrderDelete, Wrap16(c.symbol + 1));
      var raw := AppendBE(header, ref, 8);
      HeaderReadsBack(raw, OrderDelete, Wrap16(c.symbol + 1), old(tracking), ts);
      DeleteReadsBack(header, ref);
      DeleteTracked(live, nextRef, ref);
      LiveMapSize(live - {ref});
      WriteFramed(raw, LiveMap(live - {ref}));
      AddsGrow(old(sent), sent);
      live := live - {ref};
    }

    method EmitReplace(c: Choice, ref: OrderRef)
      requires Valid() && c.InRange(|symbols|) && ref in live && nextRef < 0xFFFF_FFFF_FFFF_FFFF
      modifies this
      ensures Valid() && lives == old(lives) + [LiveMap(live)]
      ensures nextMatch == old(nextMatch)
      ensures ts == Wrap64(old(ts) + 1000) && tracking == Wrap16(old(tracking) + 1)
      ensures Appends(old(sent), sent, OrderReplace, c.symbol + 1, old(tracking), ts,
                      OrderReplacePayload(ref, old(nextRef), c.shares, Wrap32(old(live)[ref].price + c.jitter)))
      ensures nextRef == old(nextRef) + 1 && added == old(added)
      ensures var o := old(live)[ref];
              live == (old(live) - {ref})[old(nextRef) := o.(shares := c.shares, price := Wrap32(o.price + c.jitter))]
    {
      hide Adds, EncodeHeader, DecodeHeader, Wrap16, Wrap64, Faithful, LiveMap, Tracked, RefReplace, Decode,
        EncodeReplace, Wrap32;
      var price := Wrap32(live[ref].price + c.jitter);
      var raw := ReplaceMessage(c, ref, price);
      var replaced := live[ref].(shares := c.shares, price := price);
      ReplaceTracked(live, nextRef, ref, replaced);
      LiveMapSize((live - {ref})[nextRef := replaced]);
      WriteFramed(raw, LiveMap((live - {ref})[nextRef := replaced]));
      AddsGrow(old(sent), sent);
      live := (live - {ref})[nextRef := replaced];
      nextRef := nextRef + 1;
    }

    /** Not tied to a live order: it takes a fresh reference of its own. */
    method EmitTrade(c: Choice, ref: OrderRef)
      requires Valid() && c.InRange(|symbols|) && ref in live && nextRef < 0xFFFF_FFFF_FFFF_FFFF
      modifies this
      ensures Valid() && lives == old(lives) + [LiveMap(live)]
      ensures nextMatch == Wrap64(old(nextMatch) + 1)
      ensures ts == Wrap64(old(ts) + 1000) && tracking == Wrap16(old(tracking) + 1)
      ensures Appends(old(sent), sent, Trade, c.symbol + 1, old(tracking), ts,
                      TradePayload(old(nextRef), c.side, c.shares, Padded(SymbolName(c), 8), old(live)[ref].price,
                                   old(nextMatch)))
      ensures nextRef == old(nextRef) + 1 && added == old(added) && live == old(live)
    {
      hide Adds, EncodeHeader, DecodeHeader, Wrap16, Wrap64, Faithful, LiveMap, Tracked, Decode, EncodeTrade;
      var header := NextHeader(Trade, Wrap16(c.symbol + 1));
      var raw := TradeBytes(header, nextRef, c.side, c.shares, SymbolName(c), live[ref].price, nextMatch);
      HeaderReadsBack(raw, Trade, Wrap16(c.symbol + 1), old(tracking), ts);
      TradeReadsBack(header, nextRef, c.side, c.shares, SymbolName(c), live[ref].price, nextMatch);
      LiveMapSize(live);
      WriteFramed(raw, LiveMap(live));
      AddsGrow(old(sent), sent);
      TrackedLater(live, nextRef);
      nextMatch := Wrap64(nextMatch as int + 1);
      nextRef := nextRef + 1;
    }

    /** One turn of the order flow, on some live order where it needs one. */
    method OrderFlow(c: Choice)
      requires Valid() && c.InRange(|symbols|) && added < numOrders && nextRef < 0xFFFF_FFFF_FFFF_FFFF
      modifies this
      ensures Valid() && lives == old(lives) + [LiveMap(live)]
      ensures |sent| == |old(sent)| + 1 && old(sent) <= sent && nextRef <= old(nextRef) + 1
      ensures Turn(symbols, basePrice, c, old(Now()), Now(), sent[|old(sent)|])
    {
      hide Adds, Faithful, LiveMap, Tracked, Wrap16, Wrap32, Wrap64, Taken, Padded;
      ghost var s := Now();
      var action := if live == map[] then 0 else c.action;
      if action < 55 {
        EmitAdd(c);
        return;
      }
      var ref := PickLive();
      if action < 70 {
        EmitExecuted(c, ref);
      } else if action < 80 {
        EmitCancel(c, ref);
      } else if action < 90 {
        EmitDelete(c, ref);
      } else if action < 97 {
        EmitReplace(c, ref);
      } else {
        EmitTrade(c, ref);
      }
      LiveTurnIsTurn(symbols, basePrice, c, s, Now(), sent[|old(sent)|], ref);
    }

    method PickLive() returns (ref: OrderRef)
      requires live != map[]
      ensures ref in live
    {
      assert live.Keys != {};
      ref :| ref in live;
    }

    /** Start of messages, and the directory. */
    method Open()
      requires Valid() && sent == [] && Now() == Snapshot(1, 0, 1, 1, map[], 0)
      modifies this
      ensures Valid() && |sent| == 1 + |symbols| && Opens(symbols, |symbols|, sent)
      ensures Stamped(sent) && CountersAfter(tracking, ts, |sent|)
      ensures live == map[] && added == 0 && nextRef == 1 && nextMatch == 1
    {
      hide Adds, Faithful, LiveMap, Tracked, Padded, Opens, Stamped, CountersAfter, Wrap16, Wrap64, Appends;
      EmitSystemEvent(0x4F);
      AppendsGrows([], sent, SystemEvent, 0, 1, ts, SystemEventPayload(0x4F));
      OpensStart(symbols, sent);
      StartCounters();
      for i := 0 to |symbols|
        invariant Valid() && live == map[] && added == 0 && nextRef == 1 && nextMatch == 1
        invariant |sent| == 1 + i && Opens(symbols, i, sent)
        invariant Stamped(sent) && CountersAfter(tracking, ts, |sent|)
      {
        ghost var before, was := sent, Now();
        EmitStockDirectory(i);
        AppendsGrows(before, sent, StockDirectory, i + 1, was.tracking, ts,
                     StockDirectoryPayload(Padded(symbols[i], 8) + DIRECTORY_CODES));
        OpensGrow(symbols, i, before, sent, was.tracking, was.ts);
      }
    }

    /**
     The whole stream: start of messages, the directory, order flow until
     `numOrders` orders were added, end of messages. `finished` tells whether the
     choices lasted that long; `states` are the generator's before and after each
     turn. Every turn uses the next draw, and there is no turn more than needed.
     */
    method Generate(choices: seq<Choice>) returns (finished: bool, ghost states: seq<Snapshot>)
      requires Valid() && sent == [] && Now() == Snapshot(1, 0, 1, 1, map[], 0)
      requires |choices| < 0xFFFF_FFFF_FFFF_FFFF
      requires forall c :: c in choices ==> c.InRange(|symbols|)
      modifies this
      ensures Valid()
      ensures Streams(symbols, basePrice, numOrders, choices, states, sent)
      ensures finished <==> Adds(sent) == numOrders
      ensures 1 <= |states| && live == states[|states| - 1].live
      ensures !finished ==> |sent| == 1 + |symbols| + |choices| && |states| == |choices| + 1
      ensures finished ==> |sent| == 1 + |symbols| + |states| && IsEnd(sent[|sent| - 1])
      ensures Messages(out) == sent
      ensures Replay(sent) == (LiveMap(live), true)
    {
      hide Adds, Faithful, LiveMap, Tracked, Replay, Opens, Choice.InRange, Turn, Streams, CountersAfter, Stamped,
        Wrap16, Wrap64, Appends, IsEnd;
      Open();
      states := [Now()];
      StreamsStart(symbols, basePrice, numOrders, choices, Now(), sent);
      var next := 0;
      while added < numOrders && next < |choices|
        invariant Valid() && next <= |choices| && nextRef <= 1 + next
        invariant |states| == 1 + next && |sent| == |symbols| + |states| && states[next] == Now()
        invariant Streams(symbols, basePrice, numOrders, choices, states, sent)
        invariant CountersAfter(tracking, ts, |sent|)
        decreases |choices| - next
      {
        ghost var before := sent;
        OrderFlow(choices[next]);
        StreamsGrow(symbols, basePrice, numOrders, choices, states, before, sent, Now());
        states := states + [Now()];
        next := next + 1;
      }
      finished := added == numOrders;
      if finished {
        ghost var before, was := sent, Now();
        EmitSystemEvent(0x43);
        AppendsGrows(before, sent, SystemEvent, 0, was.tracking, ts, SystemEventPayload(0x43));
        StreamsEnd(symbols, basePrice, numOrders, choices, states, before, sent, was.tracking, was.ts);
      }
      FaithfulDecodes(out, raws, sent, lives, numOrders);
    }
  }

  // ----- what the stream does to a book -----

  lemma FaithfulDecodes(out: Bytes, raws: seq<Bytes>, sent: seq<Message>, lives: seq<RefMap>, capacity: nat)
    requires Faithful(out, raws, sent, lives, capacity)
    ensures Messages(out) == sent
    ensures Replay(sent) == (lives[|sent|], true)
  {
    FramedMessages(raws);
    assert ReplayedTo(sent, |sent|, lives[|sent|]);
    assert sent[..|sent|] == sent;
  }
}
