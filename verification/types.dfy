/** The value types of the exchange: fixed-width integers, the coded enumerations,
    commands, market-data events and trades.

    The source's scoped enumerations have a one-byte underlying type and its decoders
    cast any byte into them, so they are bytes here, with the named codes as constants. */
module Types {
  const W32: int := 0x1_0000_0000
  const W64: int := 0x1_0000_0000_0000_0000

  type u8 = x: int | 0 <= x < 256
  type u16 = x: int | 0 <= x < 65536
  type u32 = x: int | 0 <= x < 0x1_0000_0000
  type u64 = x: int | 0 <= x < 0x1_0000_0000_0000_0000
  type i64 = x: int | -0x8000_0000_0000_0000 <= x < 0x8000_0000_0000_0000

  type Bytes = seq<u8>

  datatype Option<+T> = None | Some(value: T) {
    function GetOr(default: T): T {
      if Some? then value else default
    }
  }

  const BUY: u8 := 1
  const SELL: u8 := 2

  const NEW: u8 := 1
  const CANCEL: u8 := 2
  const REPLACE: u8 := 3

  const GTC: u8 := 1
  const IOC: u8 := 2

  const ADD_EVENT: u8 := 1
  const CANCEL_EVENT: u8 := 2
  const EXECUTE_EVENT: u8 := 3
  const REPLACE_EVENT: u8 := 4
  const REJECT_EVENT: u8 := 5

  const NO_REJECT: u8 := 0
  const MALFORMED: u8 := 1
  const UNKNOWN_ORDER: u8 := 2
  const DUPLICATE_ORDER: u8 := 3
  const RISK_MAX_QTY: u8 := 4
  const RISK_MAX_NOTIONAL: u8 := 5
  const RISK_OPEN_ORDERS: u8 := 6
  const RISK_RATE_LIMIT: u8 := 7
  const INVALID_SYMBOL: u8 := 8
  const INVALID_QTY: u8 := 9
  const INVALID_PRICE: u8 := 10

  /** The books test a side by `side == Buy`: any other code is a sell to them. Only the validation
      of a command tells the two codes from others. */
  predicate IsBuy(side: u8) {
    side == BUY
  }

  datatype ClientCommand = ClientCommand(
    typ: u8, clientOrderId: u64, orderId: u64, cancelOrderId: u64, account: u32,
    symbol: u32, side: u8, price: i64, qty: u32, tif: u8, clientTs: u64)

  datatype SequencedCommand = SequencedCommand(seqNo: u64, recvTs: u64, cmd: ClientCommand)

  datatype MdEvent = MdEvent(
    seqNo: u64, typ: u8, symbol: u32, orderId: u64, newOrderId: u64, account: u32,
    side: u8, price: i64, qty: u32, reason: u8)

  datatype Trade = Trade(
    seqNo: u64, symbol: u32, restingId: u64, aggressorId: u64, price: i64, qty: u32)

  datatype Ack = Ack(seqNo: u64, clientOrderId: u64, orderId: u64, accepted: bool, reason: u8)

  datatype MatchOutput = MatchOutput(
    events: seq<MdEvent>, trades: seq<Trade>, remaining: u32, reject: u8)

  /** The price band of one book, as `OrderBook` receives it. */
  datatype Ladder = Ladder(minPrice: i64, maxPrice: i64) {
    /** What the `OrderBook` constructor accepts; it throws on anything else. */
    predicate Valid() {
      0 < minPrice <= maxPrice && maxPrice - minPrice + 1 <= 0xFFFF_FFFF
    }

    function Levels(): nat
      requires Valid()
    {
      maxPrice - minPrice + 1
    }

    predicate InBand(price: i64) {
      minPrice <= price <= maxPrice
    }
  }

  function Min(a: int, b: int): int {
    if a <= b then a else b
  }

  function Max(a: int, b: int): int {
    if a <= b then b else a
  }

  /** The value of unsigned 32-bit arithmetic. */
  function Wrap32(x: int): u32 {
    x % W32
  }

  /** `++x` on a 64-bit counter. */
  function Inc64(x: u64): u64 {
    if x == W64 - 1 then 0 else x + 1
  }

  ghost predicate NoDup<T>(s: seq<T>) {
    forall i, j :: 0 <= i < j < |s| ==> s[i] != s[j]
  }

  /** A repetition-free list of keys of a map is no longer than the map. */
  lemma {:induction false} NoDupFits<K, V>(s: seq<K>, m: map<K, V>)
    requires NoDup(s) && forall x :: x in s ==> x in m
    ensures |s| <= |m|
  {
    if s != [] {
      var last := |s| - 1;
      assert s[last] in m;
      NoDupFits(s[..last], m - {s[last]});
      assert m.Keys == (m - {s[last]}).Keys + {s[last]};
      assert |m.Keys| == |(m - {s[last]}).Keys| + 1;
    }
  }
}
