/** The risk gate: a sliding message window per account, order limits, and the accounting of
    open orders and open notional that market data drives. */
module Risk {
  import opened Types

  datatype Limits = Limits(maxOrderQty: u32, maxOrderNotional: u64, maxOpenOrders: u32, maxMsgs: u32, window: u64)

  datatype Account = Account(openOrders: u32, openNotional: u64, recent: seq<u64>)

  const NEW_ACCOUNT := Account(0, 0, [])

  /** `accounts_[a]`: a missing account is a new one. */
  function Get(accounts: map<u32, Account>, a: u32): Account {
    if a in accounts then accounts[a] else NEW_ACCOUNT
  }

  function Magnitude(price: int): nat {
    if price < 0 then -price else price
  }

  /** Price times quantity in unsigned 64-bit arithmetic. */
  function Notional(price: i64, qty: u32): u64 {
    Magnitude(price) * qty % W64
  }

  /** The messages still inside the window at `now`. */
  function InWindow(recent: seq<u64>, now: u64, window: u64): seq<u64>
    decreases |recent|
  {
    if recent != [] && now >= recent[0] && now - recent[0] > window
    then InWindow(recent[1..], now, window)
    else recent
  }

  /** The limits, once the rate limit has passed. */
  function CheckLimits(limits: Limits, a: Account, cmd: ClientCommand, known: bool): u8 {
    if cmd.typ == CANCEL then (if known then NO_REJECT else UNKNOWN_ORDER)
    else if cmd.typ == REPLACE && !known then UNKNOWN_ORDER
    else if cmd.qty > limits.maxOrderQty then RISK_MAX_QTY
    else if Notional(cmd.price, cmd.qty) > limits.maxOrderNotional then RISK_MAX_NOTIONAL
    else if a.openOrders >= limits.maxOpenOrders && cmd.typ == NEW then RISK_OPEN_ORDERS
    else NO_REJECT
  }

  datatype Checked = Checked(accounts: map<u32, Account>, reason: u8)

  /** `check`; `known` says whether the index holds the order a cancel or replace names. */
  function Check(limits: Limits, accounts: map<u32, Account>, cmd: ClientCommand, known: bool, now: u64): Checked {
    var a := Get(accounts, cmd.account);
    var recent := InWindow(a.recent, now, limits.window);
    if |recent| >= limits.maxMsgs then
      Checked(accounts[cmd.account := a.(recent := recent)], RISK_RATE_LIMIT)
    else
      var a' := a.(recent := recent + [now]);
      Checked(accounts[cmd.account := a'], CheckLimits(limits, a', cmd, known))
  }

  function SubFloor(a: nat, b: nat): nat {
    if a > b then a - b else 0
  }

  /** One event's effect on its account; `live` says whether the order is still indexed. */
  function Apply(a: Account, ev: MdEvent, live: bool): Account {
    var n := Notional(ev.price, ev.qty);
    if ev.typ == ADD_EVENT then
      a.(openOrders := Wrap32(a.openOrders + 1), openNotional := (a.openNotional + n) % W64)
    else if ev.typ == CANCEL_EVENT then
      a.(openOrders := SubFloor(a.openOrders, 1), openNotional := SubFloor(a.openNotional, n))
    else if ev.typ == EXECUTE_EVENT then
      a.(openOrders := if live then a.openOrders else SubFloor(a.openOrders, 1),
         openNotional := SubFloor(a.openNotional, n))
    else a
  }

  /** `on_market_data`. */
  function OnMarketData(accounts: map<u32, Account>, ev: MdEvent, live: bool): map<u32, Account> {
    accounts[ev.account := Apply(Get(accounts, ev.account), ev, live)]
  }

  /** What an event does to the figures: its own account's only, and no account's messages. An
      addition counts up and wraps; nothing is taken below zero. */
  lemma FiguresMove(accounts: map<u32, Account>, ev: MdEvent, live: bool, a: u32)
    ensures var was, now := Get(accounts, a), Get(OnMarketData(accounts, ev, live), a);
      var price: int := ev.price;
      var value := (if price < 0 then -price else price) * ev.qty % 0x1_0000_0000_0000_0000;
      && now.recent == was.recent
      && (a != ev.account || ev.typ !in {ADD_EVENT, CANCEL_EVENT, EXECUTE_EVENT} ==> now == was)
      && (a == ev.account && ev.typ == ADD_EVENT ==>
            && now.openOrders == (was.openOrders + 1) % 0x1_0000_0000
            && now.openNotional == (was.openNotional + value) % 0x1_0000_0000_0000_0000)
      && (a == ev.account && (ev.typ == CANCEL_EVENT || ev.typ == EXECUTE_EVENT) ==>
            && now.openOrders
               == (if ev.typ == EXECUTE_EVENT && live then was.openOrders else Max(was.openOrders - 1, 0))
            && now.openNotional == Max(was.openNotional - value, 0))
  {}

  class RiskEngine {
    const limits: Limits
    var accounts: map<u32, Account>

    constructor (limits: Limits)
      ensures this.limits == limits && accounts == map[]
    {
      this.limits := limits;
      accounts := map[];
    }

    method CheckCommand(cmd: ClientCommand, known: bool, now: u64) returns (reason: u8)
      modifies this
      ensures Checked(accounts, reason) == Check(limits, old(accounts), cmd, known, now)
    {
      var a := Get(accounts, cmd.account);
      while a.recent != [] && now >= a.recent[0] && now - a.recent[0] > limits.window
        invariant a == Get(accounts, cmd.account).(recent := a.recent)
        invariant InWindow(a.recent, now, limits.window)
          == InWindow(Get(accounts, cmd.account).recent, now, limits.window)
        decreases |a.recent|
      {
        a := a.(recent := a.recent[1..]);
      }
      if |a.recent| >= limits.maxMsgs {
        accounts := accounts[cmd.account := a];
        return RISK_RATE_LIMIT;
      }
      a := a.(recent := a.recent + [now]);
      accounts := accounts[cmd.account := a];

      if cmd.typ == CANCEL {
        return if known then NO_REJECT else UNKNOWN_ORDER;
      }
      if cmd.typ == REPLACE {
        if !known { return UNKNOWN_ORDER; }
      }
      if cmd.qty > limits.maxOrderQty { return RISK_MAX_QTY; }
      if Notional(cmd.price, cmd.qty) > limits.maxOrderNotional { return RISK_MAX_NOTIONAL; }
      if a.openOrders >= limits.maxOpenOrders && cmd.typ == NEW { return RISK_OPEN_ORDERS; }
      return NO_REJECT;
    }

    method OnEvent(ev: MdEvent, live: bool)
      modifies this
      ensures accounts == OnMarketData(old(accounts), ev, live)
    {
      var a := Get(accounts, ev.account);
      var n := Notional(ev.price, ev.qty);
      if ev.typ == ADD_EVENT {
        a := a.(openOrders := Wrap32(a.openOrders + 1), openNotional := (a.openNotional + n) % W64);
      } else if ev.typ == CANCEL_EVENT {
        if a.openOrders > 0 { a := a.(openOrders := a.openOrders - 1); }
        a := a.(openNotional := if a.openNotional > n then a.openNotional - n else 0);
      } else if ev.typ == EXECUTE_EVENT {
        if !live && a.openOrders > 0 { a := a.(openOrders := a.openOrders - 1); }
        a := a.(openNotional := if a.openNotional > n then a.openNotional - n else 0);
      }
      accounts := accounts[ev.account := a];
    }
  }
}
