/** The integer widths of NASDAQ TotalView-ITCH 5.0 fields. */
module ItchTypes {
  import opened Words

  type OrderRef = u64
  type Price4 = u32
  type Shares = u32
  type TraderId = u32
}
