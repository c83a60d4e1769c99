/**
 * The Modbus master: a three-state round-robin poller held in globals
 * (`u8state`, `u32wait`, `dstSlaveId`, `au16data`, `telegram`).
 *
 * The transport (`master.query`, `master.poll`, `master.getState`) and the
 * clock (`millis()`) are not modelled; each tick receives them as an `Input`:
 * the current time, the register value the transport wrote into the buffer
 * during this poll (if any), and whether the transport is back to idle.
 */
module MasterModbus {

  datatype Option<T> = None | Some(value: T)

  /** A 16-bit register value, as held in `uint16_t au16data[16]`. */
  type Word = x: int | 0 <= x < 0x1_0000

  const BufferSize: nat := 16
  /** Written into the first register before each request; still there afterwards means "no answer". */
  const Sentinel: Word := 0xFF
  /** Read Holding Registers, section 6.3 of the Modbus Application Protocol Specification V1.1b3. */
  const ReadHoldingRegisters: nat := 3
  const FirstSlave: nat := 1
  const LastSlave: nat := 7
  /** Idle gap before the first request, after setup. */
  const SetupDelayMs: nat := 1000
  /** Idle gap after each completed request/response cycle. */
  const CycleDelayMs: nat := 2000

  /** The request structure `modbus_t telegram` (its buffer pointer is always `au16data`). */
  datatype Telegram = Telegram(id: nat, fct: nat, regAdd: nat, coilsNo: nat)

  /** What a tick does to the world outside the poller. */
  datatype Event =
    | TxControl(high: bool)             // digitalWrite(SSerialTxControl, HIGH / LOW)
    | Query(telegram: Telegram)         // master.query(telegram)
    | Ping(slaveId: nat, isOk: bool)    // processSlavePing(slaveId, isOk)

  /** What a tick observes: the clock, and the transport's `poll()` outcome. */
  datatype Input = Input(now: nat, reply: Option<Word>, idle: bool)

  /** The globals of the poller: u8state, u32wait, dstSlaveId, au16data, telegram. */
  datatype PollerState = PollerState(state: nat, wait: nat, cursor: nat, regs: seq<Word>, telegram: Telegram)

  datatype Transition = Transition(next: PollerState, events: seq<Event>)

  /** The invariant every reachable poller state keeps. */
  predicate ValidState(s: PollerState) {
    s.state <= 2 && FirstSlave <= s.cursor <= LastSlave && |s.regs| == BufferSize
  }

  /** The cursor after one completed cycle: the next slave id, wrapping from the last slave back to the first. */
  function NextSlave(id: nat): (r: nat)
    ensures FirstSlave <= r <= LastSlave
    ensures id < LastSlave ==> r == id + 1
    ensures id >= LastSlave ==> r == FirstSlave
  {
    if id + 1 > LastSlave then FirstSlave else id + 1
  }

  /** The state after static initialisation of the globals followed by `modbus_setup()` at time `now`. */
  function Boot(now: nat): (s: PollerState)
    ensures ValidState(s)
    ensures s.state == 0 && s.wait == now + SetupDelayMs && s.cursor == FirstSlave
    ensures forall k :: 0 <= k < |s.regs| ==> s.regs[k] == 0
  {
    PollerState(0, now + SetupDelayMs, FirstSlave, seq(BufferSize, _ => 0), Telegram(0, 0, 0, 0))
  }

  /** One call of `modbus_loop()`. */
  function Step(s: PollerState, i: Input): (t: Transition)
    requires ValidState(s)
    ensures ValidState(t.next)
    // the only moves are 0 -> 1, 1 -> 2 and 2 -> 0
    ensures t.next.state == s.state || t.next.state == (s.state + 1) % 3
    ensures s.state == 0 && t.next.state == 1 ==> i.now > s.wait
    ensures s.state == 1 ==> t.next.state == 2
    ensures s.state == 2 && t.next.state == 0 ==> i.idle
    // waiting: nothing at all happens until the clock is strictly past the deadline
    ensures s.state == 0 && i.now <= s.wait ==> t == Transition(s, [])
    ensures s.state == 0 && i.now > s.wait ==> t == Transition(s.(state := 1), [])
    // sending: the sentinel is planted and exactly one framed request goes out for the cursor
    ensures s.state == 1 ==>
      && t.next.regs == s.regs[0 := Sentinel]
      && t.events == [TxControl(true), Query(Telegram(s.cursor, ReadHoldingRegisters, 0, 1)), TxControl(false)]
      && t.next.cursor == s.cursor && t.next.wait == s.wait
      && t.next.telegram == Telegram(s.cursor, ReadHoldingRegisters, 0, 1)
    // awaiting: only the transport's reply may change, until the transport is idle
    ensures s.state == 2 ==>
      t.next.regs == (if i.reply.Some? then s.regs[0 := i.reply.value] else s.regs)
    ensures s.state == 2 && !i.idle ==>
      t.events == [] && t.next == s.(regs := t.next.regs)
    // completion: one report for the cursor, health read from the first register, then advance
    ensures s.state == 2 && i.idle ==>
      && t.events == [Ping(s.cursor, t.next.regs[0] != Sentinel)]
      && t.next.state == 0
      && t.next.wait == i.now + CycleDelayMs
      && t.next.cursor == NextSlave(s.cursor)
      && t.next.telegram == s.telegram
  {
    if s.state == 0 then
      if i.now > s.wait then Transition(s.(state := 1), []) else Transition(s, [])
    else if s.state == 1 then
      var query := Telegram(s.cursor, ReadHoldingRegisters, 0, 1);
      Transition(s.(state := 2, regs := s.regs[0 := Sentinel], telegram := query),
                 [TxControl(true), Query(query), TxControl(false)])
    else
      var regs := if i.reply.Some? then s.regs[0 := i.reply.value] else s.regs;
      if i.idle then
        Transition(s.(state := 0, wait := i.now + CycleDelayMs, cursor := NextSlave(s.cursor), regs := regs),
                   [Ping(s.cursor, regs[0] != Sentinel)])
      else
        Transition(s.(regs := regs), [])
  }

  /** The poller's globals, updated in place by `modbus_setup` and `modbus_loop`. */
  class Poller {
    var state: nat                 // u8state
    var wait: nat                  // u32wait
    var dstSlaveId: nat
    const data: array<Word>        // au16data
    var telegram: Telegram

    function View(): PollerState
      reads this, data
    {
      PollerState(state, wait, dstSlaveId, data[..], telegram)
    }

    ghost predicate Valid()
      reads this, data
    {
      ValidState(View())
    }

    /** Static initialisation: every global zero, except `dstSlaveId = 1`. */
    constructor ()
      ensures Valid() && fresh(data)
      ensures state == 0 && wait == 0 && dstSlaveId == FirstSlave && telegram == Telegram(0, 0, 0, 0)
      ensures data[..] == seq(BufferSize, _ => 0)
    {
      state, wait, dstSlaveId := 0, 0, FirstSlave;
      data := new Word[BufferSize](_ => 0);
      telegram := Telegram(0, 0, 0, 0);
    }

    /** `modbus_setup()`: first deadline one second from now, back to the waiting state. */
    method Setup(now: nat)
      requires Valid()
      modifies this
      ensures Valid()
      ensures View() == old(View()).(state := 0, wait := now + SetupDelayMs)
    {
      wait := now + SetupDelayMs;
      state := 0;
    }

    /** `modbus_loop()`. */
    method Tick(now: nat, reply: Option<Word>, idle: bool) returns (events: seq<Event>)
      requires Valid()
      modifies this, data
      ensures Valid()
      ensures Transition(View(), events) == Step(old(View()), Input(now, reply, idle))
    {
      events := [];
      if state == 0 {
        if now > wait {
          state := state + 1;
        }
      } else if state == 1 {
        data[0] := Sentinel;
        telegram := Telegram(dstSlaveId, ReadHoldingRegisters, 0, 1);
        events := [TxControl(true), Query(telegram), TxControl(false)];
        state := state + 1;
      } else {
        if reply.Some? {
          data[0] := reply.value;   // master.poll() stored the slave's answer
        }
        if idle {
          state := 0;
          wait := now + CycleDelayMs;
          events := [Ping(dstSlaveId, data[0] != Sentinel)];
          dstSlaveId := dstSlaveId + 1;
          if dstSlaveId > LastSlave {
            dstSlaveId := FirstSlave;
          }
        }
      }
    }
  }
}
