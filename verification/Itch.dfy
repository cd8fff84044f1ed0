/**
 The part of NASDAQ TotalView-ITCH 5.0 that the feed handler knows: ten message
 types over an 11-byte header, big-endian throughout, and the length-prefixed
 framing around them. Decoding follows the wire layout field by field.
 */
module Itch {
  import opened ItchTypes
  import opened Options
  import opened Words

  type Bytes = seq<u8>

  // ----- big-endian numbers -----

  function Pow256(n: nat): (p: nat)
    ensures p >= 1
  {
    if n == 0 then 1 else 256 * Pow256(n - 1)
  }

  function ReadBE(s: Bytes): nat {
    if s == [] then 0 else 256 * ReadBE(s[..|s| - 1]) + s[|s| - 1]
  }

  /** The low `8 * n` bits of `v`, most significant byte first. */
  function WriteBE(v: nat, n: nat): (s: Bytes)
    ensures |s| == n
  {
    if n == 0 then [] else WriteBE(v / 256, n - 1) + [v % 256]
  }

  lemma {:induction false} ReadBounds(s: Bytes)
    ensures ReadBE(s) < Pow256(|s|)
  {
    if s != [] {
      ReadBounds(s[..|s| - 1]);
    }
  }

  /** Reading back what was written gives the number, if it fits. */
  lemma {:induction false} ReadWrite(v: nat, n: nat)
    requires v < Pow256(n)
    ensures ReadBE(WriteBE(v, n)) == v
  {
    if n > 0 {
      ReadWrite(v / 256, n - 1);
      assert WriteBE(v, n)[..n - 1] == WriteBE(v / 256, n - 1);
    }
  }

  /** What does not fit is cut off at the top, as when a 64-bit time is written in six bytes. */
  lemma {:induction false} ReadWriteLow(v: nat, n: nat)
    ensures ReadBE(WriteBE(v, n)) == v % Pow256(n)
  {
    if n > 0 {
      ReadWriteLow(v / 256, n - 1);
      assert WriteBE(v, n)[..n - 1] == WriteBE(v / 256, n - 1);
      DivideByBytes(v, Pow256(n - 1));
    }
  }

  /** Dividing by 256 and then by `p` is dividing by `256 * p`. */
  lemma DivideByBytes(v: nat, p: nat)
    requires p >= 1
    ensures 256 * ((v / 256) % p) + v % 256 == v % (256 * p)
    ensures (v / 256) / p == v / (256 * p)
  {
    var h := v / 256;
    QuotientOf(v, h, v % 256, p, h / p, h % p);
  }

  lemma QuotientOf(v: nat, h: nat, s: nat, p: nat, q: nat, r: nat)
    requires v == 256 * h + s && s < 256 && h == p * q + r && r < p
    ensures 256 * r + s == v % (256 * p) && q == v / (256 * p)
  {
    assert 256 * (p * q) == (256 * p) * q;
    ModIsUnique(v, 256 * p, q, 256 * r + s);
  }

  lemma Pow256Values()
    ensures Pow256(2) == TWO_TO_16 && Pow256(4) == TWO_TO_32 && Pow256(6) == 0x1_0000_0000_0000
            && Pow256(8) == TWO_TO_64
  {
    assert Pow256(1) == 256 && Pow256(2) == 0x1_0000 && Pow256(3) == 0x100_0000 && Pow256(4) == 0x1_0000_0000;
    assert Pow256(5) == 0x100_0000_0000 && Pow256(6) == 0x1_0000_0000_0000;
    assert Pow256(7) == 0x100_0000_0000_0000 && Pow256(8) == 0x1_0000_0000_0000_0000;
  }

  function ReadU16(s: Bytes): u16
    requires |s| == 2
  {
    ReadBounds(s);
    Pow256Values();
    ReadBE(s)
  }

  function ReadU32(s: Bytes): u32
    requires |s| == 4
  {
    ReadBounds(s);
    Pow256Values();
    ReadBE(s)
  }

  function ReadU64(s: Bytes): u64
    requires |s| == 8
  {
    ReadBounds(s);
    Pow256Values();
    ReadBE(s)
  }

  lemma FieldsReadBack(a: u16, b: u32, c: u64)
    ensures ReadU16(WriteBE(a, 2)) == a && ReadU32(WriteBE(b, 4)) == b && ReadU64(WriteBE(c, 8)) == c
  {
    Pow256Values();
    ReadWrite(a, 2);
    ReadWrite(b, 4);
    ReadWrite(c, 8);
  }

  // ----- messages -----

  datatype MessageType =
    | SystemEvent | StockDirectory | AddOrder | AddOrderMPID | OrderExecuted | OrderExecutedWithPrice
    | OrderCancel | OrderDelete | OrderReplace | Trade

  /** The type letter of each supported message. */
  function Letter(t: MessageType): u8 {
    match t
    case SystemEvent => 0x53  // S
    case StockDirectory => 0x52  // R
    case AddOrder => 0x41  // A
    case AddOrderMPID => 0x46  // F
    case OrderExecuted => 0x45  // E
    case OrderExecutedWithPrice => 0x43  // C
    case OrderCancel => 0x58  // X
    case OrderDelete => 0x44  // D
    case OrderReplace => 0x55  // U
    case Trade => 0x50  // P
  }

  function TypeOf(letter: u8): Option<MessageType> {
    if letter == 0x53 then Some(SystemEvent)
    else if letter == 0x52 then Some(StockDirectory)
    else if letter == 0x41 then Some(AddOrder)
    else if letter == 0x46 then Some(AddOrderMPID)
    else if letter == 0x45 then Some(OrderExecuted)
    else if letter == 0x43 then Some(OrderExecutedWithPrice)
    else if letter == 0x58 then Some(OrderCancel)
    else if letter == 0x44 then Some(OrderDelete)
    else if letter == 0x55 then Some(OrderReplace)
    else if letter == 0x50 then Some(Trade)
    else None
  }

  /** Total length on the wire, type letter and header included. */
  function WireLength(t: MessageType): nat {
    match t
    case SystemEvent => 12
    case StockDirectory => 39
    case AddOrder => 36
    case AddOrderMPID => 40
    case OrderExecuted => 31
    case OrderExecutedWithPrice => 36
    case OrderCancel => 23
    case OrderDelete => 19
    case OrderReplace => 35
    case Trade => 44
  }

  const BUY: u8 := 0x42  // B

  datatype Header = Header(stockLocate: u16, trackingNumber: u16, timestamp: nat)

  datatype Payload =
    | SystemEventPayload(eventCode: u8)
    | StockDirectoryPayload(directory: Bytes)
    | AddOrderPayload(ref: OrderRef, side: u8, shares: Shares, stock: Bytes, price: Price4, attribution: Bytes)
    | OrderExecutedPayload(ref: OrderRef, shares: Shares, matchNumber: u64)
    | OrderExecutedWithPricePayload(ref: OrderRef, shares: Shares, matchNumber: u64, printable: u8,
                                    executionPrice: Price4)
    | OrderCancelPayload(ref: OrderRef, shares: Shares)
    | OrderDeletePayload(ref: OrderRef)
    | OrderReplacePayload(ref: OrderRef, newRef: OrderRef, shares: Shares, price: Price4)
    | TradePayload(ref: OrderRef, side: u8, shares: Shares, stock: Bytes, price: Price4, matchNumber: u64)

  datatype Message = Message(kind: MessageType, header: Header, payload: Payload)

  function DecodeHeader(raw: Bytes): Header
    requires |raw| >= 11
  {
    Header(ReadU16(raw[1..3]), ReadU16(raw[3..5]), ReadBE(raw[5..11]))
  }

  function DecodePayload(kind: MessageType, raw: Bytes): Payload
    requires |raw| >= WireLength(kind)
  {
    match kind
    case SystemEvent => SystemEventPayload(raw[11])
    case StockDirectory => StockDirectoryPayload(raw[11..39])
    case AddOrder =>
      AddOrderPayload(ReadU64(raw[11..19]), raw[19], ReadU32(raw[20..24]), raw[24..32], ReadU32(raw[32..36]), [])
    case AddOrderMPID =>
      AddOrderPayload(ReadU64(raw[11..19]), raw[19], ReadU32(raw[20..24]), raw[24..32], ReadU32(raw[32..36]),
                      raw[36..40])
    case OrderExecuted => OrderExecutedPayload(ReadU64(raw[11..19]), ReadU32(raw[19..23]), ReadU64(raw[23..31]))
    case OrderExecutedWithPrice =>
      OrderExecutedWithPricePayload(ReadU64(raw[11..19]), ReadU32(raw[19..23]), ReadU64(raw[23..31]), raw[31],
                                    ReadU32(raw[32..36]))
    case OrderCancel => OrderCancelPayload(ReadU64(raw[11..19]), ReadU32(raw[19..23]))
    case OrderDelete => OrderDeletePayload(ReadU64(raw[11..19]))
    case OrderReplace =>
      OrderReplacePayload(ReadU64(raw[11..19]), ReadU64(raw[19..27]), ReadU32(raw[27..31]), ReadU32(raw[31..35]))
    case Trade =>
      TradePayload(ReadU64(raw[11..19]), raw[19], ReadU32(raw[20..24]), raw[24..32], ReadU32(raw[32..36]),
                   ReadU64(raw[36..44]))
  }

  /** Nothing for an empty span, an unknown letter, or fewer bytes than the type needs. */
  function Decode(raw: Bytes): Option<Message> {
    if raw == [] then None
    else
      match TypeOf(raw[0])
      case None => None
      case Some(kind) =>
        if |raw| < WireLength(kind) then None else Some(Message(kind, DecodeHeader(raw), DecodePayload(kind, raw)))
  }

  /** Exactly the spans that start with a known letter and are long enough for it decode. */
  lemma DecodesExactly(raw: Bytes)
    ensures Decode(raw).Some? <==> raw != [] && exists kind :: raw[0] == Letter(kind) && |raw| >= WireLength(kind)
    ensures Decode(raw).Some?
            ==> raw[0] == Letter(Decode(raw).value.kind) && |raw| >= WireLength(Decode(raw).value.kind)
  {
    hide DecodePayload, DecodeHeader;
    forall kind: MessageType
      ensures TypeOf(Letter(kind)) == Some(kind)
    {
      TypeOfLetter(kind);
    }
    if raw != [] && TypeOf(raw[0]).Some? {
      assert raw[0] == Letter(TypeOf(raw[0]).value);
    }
  }

  // ----- the wire format, byte for byte -----

  /** The most significant byte comes first. */
  lemma BigEndian(a: u8, b: u8, c: u8, d: u8)
    ensures ReadBE([a, b]) == 0x100 * a + b
    ensures ReadBE([a, b, c, d]) == 0x100_0000 * a + 0x1_0000 * b + 0x100 * c + d
  {
    assert [a][..0] == [] && ReadBE([a]) == a;
    assert [a, b][..1] == [a] && [a, b, c][..2] == [a, b] && [a, b, c, d][..3] == [a, b, c];
  }

  /** A type letter and then the bytes 1, 2, 3 and so on, so that every byte after the letter is its own offset. */
  function Numbered(letter: u8, length: nat): Bytes
    requires length <= 44
  {
    seq(length, i requires 0 <= i < length => if i == 0 then letter else i)
  }

  /** The number whose `n` bytes are `at`, `at + 1` and so on. */
  function Counted(at: nat, n: nat): nat {
    if n == 0 then 0 else 0x100 * Counted(at, n - 1) + at + n - 1
  }

  lemma {:induction false} NumberedField(letter: u8, length: nat, at: nat, n: nat)
    requires 1 <= at && at + n <= length <= 44
    ensures ReadBE(Numbered(letter, length)[at..at + n]) == Counted(at, n)
  {
    var raw := Numbered(letter, length);
    if n > 0 {
      NumberedField(letter, length, at, n - 1);
      assert raw[at..at + n][..n - 1] == raw[at..at + n - 1];
    }
  }

  lemma NumberedHeader(letter: u8, length: nat)
    requires 11 <= length <= 44
    ensures DecodeHeader(Numbered(letter, length)) == Header(0x0102, 0x0304, 0x0506_0708_090A)
  {
    NumberedField(letter, length, 1, 2);
    NumberedField(letter, length, 3, 2);
    NumberedField(letter, length, 5, 6);
    assert Counted(1, 2) == 0x0102 && Counted(3, 2) == 0x0304 && Counted(5, 6) == 0x0506_0708_090A;
  }

  /**
   Letter, length and layout of every type, shown on bytes that are their own
   offsets: each field sits where it should, whole, and with its first byte most
   significant; with one byte less the message does not decode.
   */
  lemma WireLayout(kind: MessageType)
    ensures var (letter, length, payload) :=
              match kind
              case SystemEvent => (0x53, 12, SystemEventPayload(0x0B))
              case StockDirectory =>
                (0x52, 39, StockDirectoryPayload([0x0B, 0x0C, 0x0D, 0x0E, 0x0F, 0x10, 0x11, 0x12, 0x13, 0x14, 0x15,
                                                  0x16, 0x17, 0x18, 0x19, 0x1A, 0x1B, 0x1C, 0x1D, 0x1E, 0x1F, 0x20,
                                                  0x21, 0x22, 0x23, 0x24, 0x25, 0x26]))
              case AddOrder =>
                (0x41, 36, AddOrderPayload(0x0B0C_0D0E_0F10_1112, 0x13, 0x1415_1617,
                                           [0x18, 0x19, 0x1A, 0x1B, 0x1C, 0x1D, 0x1E, 0x1F], 0x2021_2223, []))
              case AddOrderMPID =>
                (0x46, 40, AddOrderPayload(0x0B0C_0D0E_0F10_1112, 0x13, 0x1415_1617,
                                           [0x18, 0x19, 0x1A, 0x1B, 0x1C, 0x1D, 0x1E, 0x1F], 0x2021_2223,
                                           [0x24, 0x25, 0x26, 0x27]))
              case OrderExecuted =>
                (0x45, 31, OrderExecutedPayload(0x0B0C_0D0E_0F10_1112, 0x1314_1516, 0x1718_191A_1B1C_1D1E))
              case OrderExecutedWithPrice =>
                (0x43, 36, OrderExecutedWithPricePayload(0x0B0C_0D0E_0F10_1112, 0x1314_1516, 0x1718_191A_1B1C_1D1E,
                                                         0x1F, 0x2021_2223))
              case OrderCancel => (0x58, 23, OrderCancelPayload(0x0B0C_0D0E_0F10_1112, 0x1314_1516))
              case OrderDelete => (0x44, 19, OrderDeletePayload(0x0B0C_0D0E_0F10_1112))
              case OrderReplace =>
                (0x55, 35, OrderReplacePayload(0x0B0C_0D0E_0F10_1112, 0x1314_1516_1718_191A, 0x1B1C_1D1E, 0x1F20_2122))
              case Trade =>
                (0x50, 44, TradePayload(0x0B0C_0D0E_0F10_1112, 0x13, 0x1415_1617,
                                        [0x18, 0x19, 0x1A, 0x1B, 0x1C, 0x1D, 0x1E, 0x1F], 0x2021_2223,
                                        0x2425_2627_2829_2A2B));
            && Decode(Numbered(letter, length))
               == Some(Message(kind, Header(0x0102, 0x0304, 0x0506_0708_090A), payload))
            && Decode(Numbered(letter, length - 1)) == None
  {
    hide ReadBE, Counted, DecodeHeader;
    var raw := Numbered(Letter(kind), WireLength(kind));
    NumberedHeader(Letter(kind), WireLength(kind));
    CountedValues();
    if kind != SystemEvent && kind != StockDirectory {
      NumberedField(Letter(kind), WireLength(kind), 11, 8);
    }
    match kind
    case SystemEvent =>
    case StockDirectory =>
      assert raw[11..39] == [0x0B, 0x0C, 0x0D, 0x0E, 0x0F, 0x10, 0x11, 0x12, 0x13, 0x14, 0x15, 0x16, 0x17, 0x18, 0x19,
                             0x1A, 0x1B, 0x1C, 0x1D, 0x1E, 0x1F, 0x20, 0x21, 0x22, 0x23, 0x24, 0x25, 0x26];
    case AddOrder =>
      NumberedAddFields(raw);
    case AddOrderMPID =>
      NumberedAddFields(raw);
      assert raw[36..40] == [0x24, 0x25, 0x26, 0x27];
    case OrderExecuted =>
      NumberedField(0x45, 31, 19, 4);
      NumberedField(0x45, 31, 23, 8);
    case OrderExecutedWithPrice =>
      NumberedField(0x43, 36, 19, 4);
      NumberedField(0x43, 36, 23, 8);
      NumberedField(0x43, 36, 32, 4);
    case OrderCancel =>
      NumberedField(0x58, 23, 19, 4);
    case OrderDelete =>
    case OrderReplace =>
      NumberedField(0x55, 35, 19, 8);
      NumberedField(0x55, 35, 27, 4);
      NumberedField(0x55, 35, 31, 4);
    case Trade =>
      NumberedAddFields(raw);
      NumberedField(0x50, 44, 36, 8);
  }

  /** The fields that Add Order, with or without attribution, and Trade have in the same places. */
  lemma NumberedAddFields(raw: Bytes)
    requires exists letter, length :: 36 <= length <= 44 && raw == Numbered(letter, length)
    ensures ReadBE(raw[20..24]) == 0x1415_1617 && ReadBE(raw[32..36]) == 0x2021_2223
    ensures raw[24..32] == [0x18, 0x19, 0x1A, 0x1B, 0x1C, 0x1D, 0x1E, 0x1F]
  {
    hide ReadBE, Counted;
    var letter, length :| 36 <= length <= 44 && raw == Numbered(letter, length);
    CountedValues();
    NumberedField(letter, length, 20, 4);
    NumberedField(letter, length, 32, 4);
  }

  lemma CountedValues()
    ensures Counted(11, 8) == 0x0B0C_0D0E_0F10_1112 && Counted(19, 8) == 0x1314_1516_1718_191A
    ensures Counted(23, 8) == 0x1718_191A_1B1C_1D1E && Counted(36, 8) == 0x2425_2627_2829_2A2B
    ensures Counted(19, 4) == 0x1314_1516 && Counted(20, 4) == 0x1415_1617 && Counted(27, 4) == 0x1B1C_1D1E
    ensures Counted(31, 4) == 0x1F20_2122 && Counted(32, 4) == 0x2021_2223
  {
  }

  /** Bytes beyond the length of the type are ignored, and no other letter decodes. */
  lemma DecodeIgnoresRest(raw: Bytes, more: Bytes)
    ensures Decode(raw).Some? ==> Decode(raw + more) == Decode(raw)
    ensures raw != [] && raw[0] !in {0x53, 0x52, 0x41, 0x46, 0x45, 0x43, 0x58, 0x44, 0x55, 0x50} ==> Decode(raw) == None
  {
    hide ReadBE;
    forall i, j | 0 <= i <= j <= |raw|
      ensures (raw + more)[i..j] == raw[i..j]
    {
    }
  }

  // ----- encoding, as the generator writes it -----

  function EncodeHeader(kind: MessageType, locate: u16, tracking: u16, ts: u64): (s: Bytes)
    ensures |s| == 11 && s[0] == Letter(kind)
  {
    [Letter(kind)] + WriteBE(locate, 2) + WriteBE(tracking, 2) + WriteBE(ts, 6)
  }

  /** The first `width` bytes of `s`, padded with spaces. */
  function Padded(s: Bytes, width: nat): (r: Bytes)
    ensures |r| == width
  {
    if |s| >= width then s[..width] else s + seq(width - |s|, _ => 0x20)
  }

  /** The text comes first, cut at the width; spaces fill the rest. */
  lemma PaddedAt(s: Bytes, width: nat, i: nat)
    requires i < width
    ensures Padded(s, width)[i] == if i < |s| then s[i] else 0x20
  {
  }

  function EncodeAdd(header: Bytes, ref: OrderRef, side: u8, shares: Shares, stock: Bytes, price: Price4,
                     mpid: Bytes): Bytes
  {
    header + WriteBE(ref, 8) + [side] + WriteBE(shares, 4) + Padded(stock, 8) + WriteBE(price, 4) + mpid
  }

  function EncodeExecuted(header: Bytes, ref: OrderRef, shares: Shares, matchNumber: u64): Bytes {
    header + WriteBE(ref, 8) + WriteBE(shares, 4) + WriteBE(matchNumber, 8)
  }

  function EncodeCancel(header: Bytes, ref: OrderRef, shares: Shares): Bytes {
    header + WriteBE(ref, 8) + WriteBE(shares, 4)
  }

  function EncodeDelete(header: Bytes, ref: OrderRef): Bytes {
    header + WriteBE(ref, 8)
  }

  function EncodeReplace(header: Bytes, ref: OrderRef, newRef: OrderRef, shares: Shares, price: Price4): Bytes {
    header + WriteBE(ref, 8) + WriteBE(newRef, 8) + WriteBE(shares, 4) + WriteBE(price, 4)
  }

  function EncodeTrade(header: Bytes, ref: OrderRef, side: u8, shares: Shares, stock: Bytes, price: Price4,
                       matchNumber: u64): Bytes
  {
    header + WriteBE(ref, 8) + [side] + WriteBE(shares, 4) + Padded(stock, 8) + WriteBE(price, 4)
      + WriteBE(matchNumber, 8)
  }

  lemma TypeOfLetter(kind: MessageType)
    ensures TypeOf(Letter(kind)) == Some(kind)
  {
  }

  /** The header of a message of this type: its letter, and its length. */
  ghost predicate HeaderOf(kind: MessageType, header: Bytes) {
    |header| == 11 && header[0] == Letter(kind)
  }

  /** The header fields survive; of the time only the low 48 bits are sent. */
  lemma HeaderReadsBack(raw: Bytes, kind: MessageType, locate: u16, tracking: u16, ts: u64)
    requires EncodeHeader(kind, locate, tracking, ts) <= raw
    ensures DecodeHeader(raw) == Header(locate, tracking, ts % 0x1_0000_0000_0000)
  {
    hide WriteBE, ReadU16;
    var header := EncodeHeader(kind, locate, tracking, ts);
    FieldsReadBack(locate, 0, 0);
    FieldsReadBack(tracking, 0, 0);
    ReadWriteLow(ts, 6);
    Pow256Values();
    assert raw[..11] == header;
    assert raw[1..3] == WriteBE(locate, 2);
    assert raw[3..5] == WriteBE(tracking, 2);
    assert raw[5..11] == WriteBE(ts, 6);
  }

  lemma AddReadsBack(kind: MessageType, header: Bytes, ref: OrderRef, side: u8, shares: Shares, stock: Bytes,
                     price: Price4, mpid: Bytes)
    requires HeaderOf(kind, header)
    requires (kind == AddOrder && mpid == []) || (kind == AddOrderMPID && |mpid| == 4)
    ensures var raw := EncodeAdd(header, ref, side, shares, stock, price, mpid);
            && |raw| == WireLength(kind)
            && Decode(raw)
               == Some(Message(kind, DecodeHeader(raw),
                               AddOrderPayload(ref, side, shares, Padded(stock, 8), price, mpid)))
  {
    hide ReadU16, ReadU32, ReadU64, WriteBE, Padded;
    var raw := EncodeAdd(header, ref, side, shares, stock, price, mpid);
    TypeOfLetter(kind);
    FieldsReadBack(0, shares, ref);
    FieldsReadBack(0, price, 0);
    assert raw[0] == header[0];
    assert raw[11..19] == WriteBE(ref, 8);
    assert raw[20..24] == WriteBE(shares, 4);
    assert raw[24..32] == Padded(stock, 8);
    assert raw[32..36] == WriteBE(price, 4);
    assert raw[36..] == mpid;
    assert kind == AddOrderMPID ==> raw[36..40] == mpid;
  }

  lemma ExecutedReadsBack(header: Bytes, ref: OrderRef, shares: Shares, matchNumber: u64)
    requires HeaderOf(OrderExecuted, header)
    ensures var raw := EncodeExecuted(header, ref, shares, matchNumber);
            && |raw| == WireLength(OrderExecuted)
            && Decode(raw)
               == Some(Message(OrderExecuted, DecodeHeader(raw), OrderExecutedPayload(ref, shares, matchNumber)))
  {
    hide ReadU16, ReadU32, ReadU64, WriteBE;
    var raw := EncodeExecuted(header, ref, shares, matchNumber);
    FieldsReadBack(0, shares, ref);
    FieldsReadBack(0, 0, matchNumber);
    assert raw[11..19] == WriteBE(ref, 8) && raw[19..23] == WriteBE(shares, 4)
           && raw[23..31] == WriteBE(matchNumber, 8);
  }

  lemma ExecutedWithPriceReadsBack(header: Bytes, ref: OrderRef, shares: Shares, matchNumber: u64, printable: u8,
                                   price: Price4)
    requires HeaderOf(OrderExecutedWithPrice, header)
    ensures var raw := EncodeExecuted(header, ref, shares, matchNumber) + [printable] + WriteBE(price, 4);
            && |raw| == WireLength(OrderExecutedWithPrice)
            && Decode(raw) == Some(Message(OrderExecutedWithPrice, DecodeHeader(raw),
                                           OrderExecutedWithPricePayload(ref, shares, matchNumber, printable, price)))
  {
    hide ReadU16, ReadU32, ReadU64, WriteBE;
    var raw := EncodeExecuted(header, ref, shares, matchNumber) + [printable] + WriteBE(price, 4);
    FieldsReadBack(0, shares, ref);
    FieldsReadBack(0, price, matchNumber);
    assert raw[11..19] == WriteBE(ref, 8) && raw[19..23] == WriteBE(shares, 4)
           && raw[23..31] == WriteBE(matchNumber, 8);
    assert raw[32..36] == WriteBE(price, 4);
  }

  lemma CancelReadsBack(header: Bytes, ref: OrderRef, shares: Shares)
    requires HeaderOf(OrderCancel, header)
    ensures var raw := EncodeCancel(header, ref, shares);
            && |raw| == WireLength(OrderCancel)
            && Decode(raw) == Some(Message(OrderCancel, DecodeHeader(raw), OrderCancelPayload(ref, shares)))
  {
    hide ReadU16, ReadU32, ReadU64, WriteBE;
    var raw := EncodeCancel(header, ref, shares);
    FieldsReadBack(0, shares, ref);
    assert raw[11..19] == WriteBE(ref, 8) && raw[19..23] == WriteBE(shares, 4);
  }

  lemma DeleteReadsBack(header: Bytes, ref: OrderRef)
    requires HeaderOf(OrderDelete, header)
    ensures var raw := EncodeDelete(header, ref);
            && |raw| == WireLength(OrderDelete)
            && Decode(raw) == Some(Message(OrderDelete, DecodeHeader(raw), OrderDeletePayload(ref)))
  {
    hide ReadU16, ReadU32, ReadU64, WriteBE;
    var raw := EncodeDelete(header, ref);
    FieldsReadBack(0, 0, ref);
    assert raw[11..19] == WriteBE(ref, 8);
  }

  lemma ReplaceReadsBack(header: Bytes, ref: OrderRef, newRef: OrderRef, shares: Shares, price: Price4)
    requires HeaderOf(OrderReplace, header)
    ensures var raw := EncodeReplace(header, ref, newRef, shares, price);
            && |raw| == WireLength(OrderReplace)
            && Decode(raw)
               == Some(Message(OrderReplace, DecodeHeader(raw), OrderReplacePayload(ref, newRef, shares, price)))
  {
    hide ReadU16, ReadU32, ReadU64, WriteBE;
    var raw := EncodeReplace(header, ref, newRef, shares, price);
    FieldsReadBack(0, shares, ref);
    FieldsReadBack(0, price, newRef);
    assert raw[11..19] == WriteBE(ref, 8) && raw[19..27] == WriteBE(newRef, 8);
    assert raw[27..31] == WriteBE(shares, 4);
    assert raw[31..] == WriteBE(price, 4);
    assert raw[31..35] == WriteBE(price, 4);
  }

  lemma TradeReadsBack(header: Bytes, ref: OrderRef, side: u8, shares: Shares, stock: Bytes, price: Price4,
                       matchNumber: u64)
    requires HeaderOf(Trade, header)
    ensures var raw := EncodeTrade(header, ref, side, shares, stock, price, matchNumber);
            && |raw| == WireLength(Trade)
            && Decode(raw)
               == Some(Message(Trade, DecodeHeader(raw),
                               TradePayload(ref, side, shares, Padded(stock, 8), price, matchNumber)))
  {
    hide ReadU16, ReadU32, ReadU64, WriteBE, Padded;
    var raw := EncodeTrade(header, ref, side, shares, stock, price, matchNumber);
    FieldsReadBack(0, shares, ref);
    FieldsReadBack(0, price, matchNumber);
    assert raw[11..19] == WriteBE(ref, 8) && raw[20..24] == WriteBE(shares, 4) && raw[24..32] == Padded(stock, 8);
    assert raw[32..36] == WriteBE(price, 4);
    assert raw[36..] == WriteBE(matchNumber, 8);
    assert raw[36..44] == WriteBE(matchNumber, 8);
  }

  // ----- framing -----

  /** `[2-byte length][message]`. */
  function Frame(raw: Bytes): Bytes {
    WriteBE(|raw| % 0x1_0000, 2) + raw
  }

  function Framed(raws: seq<Bytes>): Bytes {
    if raws == [] then [] else Framed(raws[..|raws| - 1]) + Frame(raws[|raws| - 1])
  }

  /** The messages that walking the frames from `offset` on yields, up to any truncated record. */
  function MessagesFrom(raw: Bytes, offset: nat): seq<Message>
    decreases |raw| - offset
  {
    if offset + 2 > |raw| then []
    else
      var start := offset + 2;
      var len := ReadU16(raw[offset..start]);
      if start + len > |raw| then []
      else
        var m := Decode(raw[start..start + len]);
        (if m.Some? then [m.value] else []) + MessagesFrom(raw, start + len)
  }

  function Messages(raw: Bytes): seq<Message> {
    MessagesFrom(raw, 0)
  }

  function DecodeAll(raws: seq<Bytes>): seq<Message> {
    if raws == [] then []
    else
      var m := Decode(raws[|raws| - 1]);
      DecodeAll(raws[..|raws| - 1]) + (if m.Some? then [m.value] else [])
  }

  /** Walking from inside a stream of complete frames continues into what follows it. */
  lemma {:induction false} FramesThenMore(raws: seq<Bytes>, tail: Bytes)
    requires forall r :: r in raws ==> |r| < 0x1_0000
    ensures Messages(Framed(raws) + tail) == DecodeAll(raws) + MessagesFrom(Framed(raws) + tail, |Framed(raws)|)
    decreases |raws|
  {
    hide Frame, Decode, MessagesFrom;
    if raws == [] {
      assert Framed(raws) + tail == tail;
      assert DecodeAll(raws) + MessagesFrom(tail, 0) == MessagesFrom(tail, 0);
    } else {
      var init, last := raws[..|raws| - 1], raws[|raws| - 1];
      var all := Framed(raws) + tail;
      assert all == Framed(init) + (Frame(last) + tail);
      FramesThenMore(init, Frame(last) + tail);
      OneFrame(all, |Framed(init)|, last);
      var one := if Decode(last).Some? then [Decode(last).value] else [];
      assert DecodeAll(raws) == DecodeAll(init) + one;
      assert DecodeAll(init) + (one + MessagesFrom(all, |Framed(raws)|))
             == DecodeAll(raws) + MessagesFrom(all, |Framed(raws)|);
    }
  }

  lemma OneFrame(all: Bytes, offset: nat, raw: Bytes)
    requires |raw| < 0x1_0000
    requires offset + |Frame(raw)| <= |all| && all[offset..offset + |Frame(raw)|] == Frame(raw)
    ensures MessagesFrom(all, offset)
            == (if Decode(raw).Some? then [Decode(raw).value] else []) + MessagesFrom(all, offset + |Frame(raw)|)
  {
    hide Decode, WriteBE;
    var frame := Frame(raw);
    var start := offset + 2;
    FieldsReadBack(|raw|, 0, 0);
    assert frame[..2] == WriteBE(|raw|, 2) && frame[2..] == raw;
    assert all[offset..start] == all[offset..offset + |frame|][..2];
    assert all[start..start + |raw|] == all[offset..offset + |frame|][2..];
  }

  /** A stream of complete frames decodes to its messages, in order. */
  lemma FramedMessages(raws: seq<Bytes>)
    requires forall r :: r in raws ==> |r| < 0x1_0000
    ensures Messages(Framed(raws)) == DecodeAll(raws)
  {
    FramesThenMore(raws, []);
    assert Framed(raws) + [] == Framed(raws);
    assert MessagesFrom(Framed(raws), |Framed(raws)|) == [];
  }

  // ----- a stream is complete records and a tail -----

  /** Too short for a length, or for the message whose length it declares. */
  predicate Incomplete(tail: Bytes) {
    |tail| < 2 || |tail| < 2 + 0x100 * (tail[0] as int) + tail[1] as int
  }

  /** The stream is the frames of these messages and then at most the beginning of another. */
  ghost predicate SplitsInto(raw: Bytes, raws: seq<Bytes>, tail: Bytes) {
    raw == Framed(raws) + tail && (forall r :: r in raws ==> |r| < 0x1_0000) && Incomplete(tail)
  }

  /** A frame is the length in two bytes, high byte first, and the message. */
  lemma FrameBytes(raw: Bytes)
    requires |raw| < 0x1_0000
    ensures var f := Frame(raw);
            |f| == 2 + |raw| && 0x100 * (f[0] as int) + f[1] as int == |raw| && f[2..] == raw
  {
    assert WriteBE(|raw|, 2) == WriteBE(|raw| / 256, 1) + [|raw| % 256];
    assert WriteBE(|raw| / 256, 1) == WriteBE(|raw| / 256 / 256, 0) + [|raw| / 256 % 256];
  }

  lemma FrameOf(raw: Bytes)
    requires !Incomplete(raw)
    ensures var len := 0x100 * (raw[0] as int) + raw[1] as int;
            Frame(raw[2..2 + len]) == raw[..2 + len]
  {
    hide Frame;
    var len := 0x100 * (raw[0] as int) + raw[1] as int;
    FrameBytes(raw[2..2 + len]);
    var f := Frame(raw[2..2 + len]);
    assert f == [f[0], f[1]] + f[2..];
    assert raw[..2 + len] == [raw[0], raw[1]] + raw[2..2 + len];
  }

  lemma {:induction false} FramedCons(r: Bytes, raws: seq<Bytes>)
    ensures Framed([r] + raws) == Frame(r) + Framed(raws)
  {
    hide Frame;
    if raws == [] {
      assert [r] + raws == [r] && Framed([r][..0]) == [];
    } else {
      FramedCons(r, raws[..|raws| - 1]);
      assert ([r] + raws)[..|raws|] == [r] + raws[..|raws| - 1];
    }
  }

  /** Every stream splits. */
  lemma {:induction false} StreamSplits(raw: Bytes) returns (raws: seq<Bytes>, tail: Bytes)
    ensures SplitsInto(raw, raws, tail)
    decreases |raw|
  {
    hide Frame;
    if Incomplete(raw) {
      raws, tail := [], raw;
      assert Framed([]) + raw == raw;
    } else {
      var len := 0x100 * (raw[0] as int) + raw[1] as int;
      var first := raw[2..2 + len];
      FrameOf(raw);
      var more;
      more, tail := StreamSplits(raw[2 + len..]);
      raws := [first] + more;
      FramedCons(first, more);
      assert raw == raw[..2 + len] + raw[2 + len..];
    }
  }

  /** And in one way only. */
  lemma {:induction false} StreamSplitsOnce(raw: Bytes, raws: seq<Bytes>, tail: Bytes, raws': seq<Bytes>, tail': Bytes)
    requires SplitsInto(raw, raws, tail) && SplitsInto(raw, raws', tail')
    ensures raws == raws' && tail == tail'
    decreases |raws|
  {
    hide Frame;
    assert [] + tail == tail && [] + tail' == tail';
    if raws != [] {
      FirstFrame(raw, raws, tail);
    }
    if raws' != [] {
      FirstFrame(raw, raws', tail');
    }
    if raws != [] && raws' != [] {
      StreamSplitsOnce(raw[2 + |raws[0]|..], raws[1..], tail, raws'[1..], tail');
      assert raws == [raws[0]] + raws[1..] && raws' == [raws'[0]] + raws'[1..];
    }
  }

  lemma FirstFrame(raw: Bytes, raws: seq<Bytes>, tail: Bytes)
    requires SplitsInto(raw, raws, tail) && raws != []
    ensures |raw| >= 2 && 0x100 * (raw[0] as int) + raw[1] as int == |raws[0]| && !Incomplete(raw)
    ensures raws[0] == raw[2..2 + |raws[0]|]
    ensures SplitsInto(raw[2 + |raws[0]|..], raws[1..], tail)
  {
    hide Frame;
    var f := Frame(raws[0]);
    assert raws == [raws[0]] + raws[1..];
    FramedCons(raws[0], raws[1..]);
    FrameBytes(raws[0]);
    var rest := Framed(raws[1..]) + tail;
    assert raw == f + rest;
    assert raw[..|f|] == f && raw[|f|..] == rest;
    assert raw[2..|f|] == f[2..];
  }

  /** A tail yields nothing, whatever its bytes: only complete records are decoded. */
  lemma TailIsDropped(raws: seq<Bytes>, tail: Bytes)
    requires (forall r :: r in raws ==> |r| < 0x1_0000) && Incomplete(tail)
    ensures Messages(Framed(raws) + tail) == DecodeAll(raws)
  {
    hide Framed, DecodeAll, Decode, ReadBE;
    FramesThenMore(raws, tail);
    var all, offset := Framed(raws) + tail, |Framed(raws)|;
    if |tail| >= 2 {
      assert all[offset..offset + 2] == [tail[0], tail[1]];
      BigEndian(tail[0], tail[1], 0, 0);
    }
    assert MessagesFrom(all, offset) == [];
  }

  /** However a stream is split, its messages are those of the complete records. */
  lemma StreamMessages(raw: Bytes)
    ensures exists raws, tail :: SplitsInto(raw, raws, tail)
    ensures forall raws, tail :: SplitsInto(raw, raws, tail) ==> Messages(raw) == DecodeAll(raws)
  {
    hide Framed, DecodeAll, MessagesFrom, Incomplete;
    var raws, tail := StreamSplits(raw);
    forall raws, tail | SplitsInto(raw, raws, tail)
      ensures Messages(raw) == DecodeAll(raws)
    {
      TailIsDropped(raws, tail);
    }
  }

  /** Every record is decoded on its own: one that does not decode takes no other with it. */
  lemma {:induction false} RecordsDecodeAlone(before: seq<Bytes>, r: Bytes, after: seq<Bytes>)
    ensures DecodeAll(before + [r] + after)
         == DecodeAll(before) + (if Decode(r).Some? then [Decode(r).value] else []) + DecodeAll(after)
    decreases |after|
  {
    hide Decode;
    var one := if Decode(r).Some? then [Decode(r).value] else [];
    var all := before + [r] + after;
    if after == [] {
      assert all == before + [r] && all[..|before|] == before;
    } else {
      var init, last := after[..|after| - 1], after[|after| - 1];
      RecordsDecodeAlone(before, r, init);
      assert all[..|all| - 1] == before + [r] + init;
      assert all[|all| - 1] == last;
    }
  }
}
