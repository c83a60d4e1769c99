/**
 * Properties of the Modbus poller over any sequence of ticks: the deadline
 * gate, the strict alternation of one request and one report, round-robin
 * order of the reports, and how a completed cycle's health flag is derived.
 */
module PollerRuns {
  import opened MasterModbus

  /** Repeated calls of `modbus_loop()`, one per input. */
  function Run(s: PollerState, ins: seq<Input>): (t: Transition)
    requires ValidState(s)
    ensures ValidState(t.next)
    ensures forall k :: 0 <= k < |t.events| && t.events[k].Ping? ==>
              FirstSlave <= t.events[k].slaveId <= LastSlave
    decreases |ins|
  {
    if ins == [] then Transition(s, [])
    else
      var first := Step(s, ins[0]);
      var rest := Run(first.next, ins[1..]);
      Transition(rest.next, first.events + rest.events)
  }

  /** The slave ids handed to `processSlavePing`, in order. */
  function Reported(evs: seq<Event>): (ids: seq<nat>)
    ensures |ids| <= |evs|
  {
    if evs == [] then []
    else (if evs[0].Ping? then [evs[0].slaveId] else []) + Reported(evs[1..])
  }

  /** The pings handed to `processSlavePing`, in order, with their health flags. */
  function Pings(evs: seq<Event>): (ps: seq<Event>)
    ensures |ps| == |Reported(evs)|
    ensures forall j :: 0 <= j < |ps| ==> ps[j].Ping? && ps[j].slaveId == Reported(evs)[j]
  {
    if evs == [] then []
    else (if evs[0].Ping? then [evs[0]] else []) + Pings(evs[1..])
  }

  /** The `n` slaves visited from `c` onwards: c, NextSlave(c), ... */
  function Cycle(c: nat, n: nat): (ids: seq<nat>)
    ensures |ids| == n
    decreases n
  {
    if n == 0 then [] else [c] + Cycle(NextSlave(c), n - 1)
  }

  /** Traffic on the bus, without the direction-control line. */
  datatype BusOp = Request(id: nat) | Report(id: nat)

  function Bus(evs: seq<Event>): (ops: seq<BusOp>)
    ensures |ops| <= |evs|
  {
    if evs == [] then []
    else
      (match evs[0]
       case TxControl(_) => []
       case Query(t) => [Request(t.id)]
       case Ping(id, _) => [Report(id)]) + Bus(evs[1..])
  }

  /** The first `n` operations of the bus protocol from cursor `c`, with a request already outstanding or not. */
  function Protocol(c: nat, outstanding: bool, n: nat): (ops: seq<BusOp>)
    ensures |ops| == n
    decreases n
  {
    if n == 0 then []
    else if outstanding then [Report(c)] + Protocol(NextSlave(c), false, n - 1)
    else [Request(c)] + Protocol(c, true, n - 1)
  }

  /** The value left in the first register after the replies in `ins`, starting from `reg`. */
  function LastReply(ins: seq<Input>, reg: Word): Word
    decreases |ins|
  {
    if ins == [] then reg
    else LastReply(ins[1..], if ins[0].reply.Some? then ins[0].reply.value else reg)
  }

  /** The inputs of one wait for an answer: the transport is busy on every tick but the last. */
  predicate CompletesAtEnd(ins: seq<Input>) {
    |ins| > 0 && ins[|ins| - 1].idle && forall k :: 0 <= k < |ins| - 1 ==> !ins[k].idle
  }

  lemma {:induction false} RunSplit(s: PollerState, ins: seq<Input>)
    requires ValidState(s) && ins != []
    ensures Run(s, ins).events == Step(s, ins[0]).events + Run(Step(s, ins[0]).next, ins[1..]).events
    ensures Run(s, ins).next == Run(Step(s, ins[0]).next, ins[1..]).next
  {
  }

  lemma {:induction false} ReportedAppend(a: seq<Event>, b: seq<Event>)
    ensures Reported(a + b) == Reported(a) + Reported(b)
    decreases |a|
  {
    if a == [] {
      assert a + b == b;
    } else {
      var ab := a + b;
      assert ab[0] == a[0];
      assert ab[1..] == a[1..] + b;
      ReportedAppend(a[1..], b);
    }
  }

  lemma {:induction false} BusAppend(a: seq<Event>, b: seq<Event>)
    ensures Bus(a + b) == Bus(a) + Bus(b)
    decreases |a|
  {
    if a == [] {
      assert a + b == b;
    } else {
      assert (a + b)[1..] == a[1..] + b;
      BusAppend(a[1..], b);
    }
  }

  /** What one tick puts on the bus. */
  lemma StepTraffic(s: PollerState, i: Input)
    requires ValidState(s)
    ensures Reported(Step(s, i).events) == if s.state == 2 && i.idle then [s.cursor] else []
    ensures Bus(Step(s, i).events) ==
      if s.state == 1 then [Request(s.cursor)]
      else if s.state == 2 && i.idle then [Report(s.cursor)]
      else []
  {
    var t := Step(s, i);
    if s.state == 1 {
      var q := Telegram(s.cursor, ReadHoldingRegisters, 0, 1);
      var low: seq<Event> := [TxControl(false)];
      var sent: seq<Event> := [Query(q)] + low;
      assert t.events == [TxControl(true)] + sent;
      assert low[1..] == [] && sent[1..] == low && t.events[1..] == sent;
      assert Reported(low) == [] && Bus(low) == [];
      assert Reported(sent) == [] && Bus(sent) == [Request(s.cursor)];
    } else if s.state == 2 && i.idle {
      assert t.events[1..] == [];
    }
  }

  /**
   * Deadline gate: as long as the clock does not pass the deadline, the
   * waiting poller does nothing at all, however often it is ticked.
   */
  lemma {:induction false} NothingBeforeDeadline(s: PollerState, ins: seq<Input>)
    requires ValidState(s) && s.state == 0
    requires forall k :: 0 <= k < |ins| ==> ins[k].now <= s.wait
    ensures Run(s, ins) == Transition(s, [])
  {
    if ins != [] {
      NothingBeforeDeadline(s, ins[1..]);
    }
  }

  /**
   * Requests and reports strictly alternate: one request for the cursor,
   * one report for the same slave, then the next slave; never two requests
   * in flight on the shared bus.
   */
  lemma {:induction false} RequestsAndReportsAlternate(s: PollerState, ins: seq<Input>)
    requires ValidState(s)
    ensures Bus(Run(s, ins).events) == Protocol(s.cursor, s.state == 2, |Bus(Run(s, ins).events)|)
    decreases |ins|
  {
    if ins != [] {
      var first := Step(s, ins[0]);
      var rest := Run(first.next, ins[1..]);
      RunSplit(s, ins);
      BusAppend(first.events, rest.events);
      StepTraffic(s, ins[0]);
      RequestsAndReportsAlternate(first.next, ins[1..]);
    }
  }

  /**
   * Round robin: the reports of any run name the slaves in cyclic order
   * from the cursor, and the cursor ends up on the slave after the last one reported.
   */
  lemma {:induction false} ReportsRoundRobin(s: PollerState, ins: seq<Input>)
    requires ValidState(s)
    ensures Reported(Run(s, ins).events) == Cycle(s.cursor, |Reported(Run(s, ins).events)|)
    ensures Run(s, ins).next.cursor == Cycle(s.cursor, |Reported(Run(s, ins).events)| + 1)[|Reported(Run(s, ins).events)|]
    decreases |ins|
  {
    if ins != [] {
      var first := Step(s, ins[0]);
      var rest := Run(first.next, ins[1..]);
      RunSplit(s, ins);
      ReportedAppend(first.events, rest.events);
      StepTraffic(s, ins[0]);
      ReportsRoundRobin(first.next, ins[1..]);
    }
  }

  lemma {:induction false} CycleAt(c: nat, n: nat, j: nat)
    requires j < n
    ensures Cycle(c, n)[j] == Cycle(c, j + 1)[j]
    decreases n
  {
    if j > 0 {
      CycleAt(NextSlave(c), n - 1, j - 1);
    }
  }

  lemma {:induction false} CycleDrop(c: nat, n: nat, i: nat)
    requires i < n
    ensures Cycle(c, n)[i..] == Cycle(Cycle(c, n)[i], n - i)
    decreases n
  {
    if i > 0 {
      CycleDrop(NextSlave(c), n - 1, i - 1);
      assert Cycle(c, n)[i..] == Cycle(NextSlave(c), n - 1)[i - 1..];
    }
  }

  /** Seven consecutive visits from any slave meet every slave exactly once, each followed by its successor. */
  lemma SevenFromAnySlave(x: nat)
    requires FirstSlave <= x <= LastSlave
    ensures forall id :: FirstSlave <= id <= LastSlave ==> id in Cycle(x, 7)
    ensures forall j, k :: 0 <= j < k < 7 ==> Cycle(x, 7)[j] != Cycle(x, 7)[k]
  {
  }

  /**
   * Any seven consecutive completed cycles of a run report every slave
   * 1..7 exactly once, each slave followed by the next one (7 by 1).
   */
  lemma {:induction false} EverySevenReportsVisitAllSlaves(s: PollerState, ins: seq<Input>, i: nat)
    requires ValidState(s)
    requires i + 7 <= |Reported(Run(s, ins).events)|
    ensures var w := Reported(Run(s, ins).events)[i..i + 7];
      && (forall id :: FirstSlave <= id <= LastSlave ==> id in w)
      && (forall j, k :: 0 <= j < k < 7 ==> w[j] != w[k])
      && (forall j :: 0 <= j < 6 ==> w[j + 1] == NextSlave(w[j]))
  {
    var ids := Reported(Run(s, ins).events);
    var n := |ids|;
    ReportsRoundRobin(s, ins);
    CycleDrop(s.cursor, n, i);
    var x := Cycle(s.cursor, n)[i];
    CycleAt(s.cursor, n, i);
    CycleInRange(s.cursor, i + 1, i);
    var w := ids[i..i + 7];
    assert w == Cycle(x, n - i)[..7];
    CycleTake(x, n - i, 7);
    SevenFromAnySlave(x);
    CycleSuccessor(x, 7);
  }

  lemma {:induction false} CycleTake(c: nat, n: nat, m: nat)
    requires m <= n
    ensures Cycle(c, n)[..m] == Cycle(c, m)
    decreases n
  {
    if m > 0 {
      CycleTake(NextSlave(c), n - 1, m - 1);
      assert Cycle(c, n)[..m] == [c] + Cycle(NextSlave(c), n - 1)[..m - 1];
    }
  }

  lemma {:induction false} CycleInRange(c: nat, n: nat, j: nat)
    requires FirstSlave <= c <= LastSlave && j < n
    ensures FirstSlave <= Cycle(c, n)[j] <= LastSlave
    decreases n
  {
    if j > 0 {
      CycleInRange(NextSlave(c), n - 1, j - 1);
    }
  }

  lemma {:induction false} CycleSuccessor(c: nat, n: nat)
    ensures forall j :: 0 <= j < n - 1 ==> Cycle(c, n)[j + 1] == NextSlave(Cycle(c, n)[j])
    decreases n
  {
    if n > 1 {
      CycleSuccessor(NextSlave(c), n - 1);
      forall j | 0 <= j < n - 1
        ensures Cycle(c, n)[j + 1] == NextSlave(Cycle(c, n)[j])
      {
        if j > 0 {
          assert Cycle(c, n)[j + 1] == Cycle(NextSlave(c), n - 1)[j];
          assert Cycle(c, n)[j] == Cycle(NextSlave(c), n - 1)[j - 1];
        }
      }
    }
  }

  /**
   * Waiting for an answer: while the transport is busy the poller only
   * stores replies; when it turns idle, exactly one report is made for the
   * cursor, healthy exactly when the first register no longer holds the sentinel.
   */
  lemma {:induction false} AwaitUntilIdle(s: PollerState, ins: seq<Input>)
    requires ValidState(s) && s.state == 2
    requires CompletesAtEnd(ins)
    ensures Run(s, ins).events == [Ping(s.cursor, LastReply(ins, s.regs[0]) != Sentinel)]
    ensures Run(s, ins).next.state == 0
    ensures Run(s, ins).next.cursor == NextSlave(s.cursor)
    ensures Run(s, ins).next.wait == ins[|ins| - 1].now + CycleDelayMs
    decreases |ins|
  {
    var first := Step(s, ins[0]);
    RunSplit(s, ins);
    if |ins| == 1 {
      assert ins[0].idle;
    } else {
      assert !ins[0].idle;
      assert ins[1..][|ins| - 2] == ins[|ins| - 1];
      AwaitUntilIdle(first.next, ins[1..]);
    }
  }

  /**
   * One complete cycle from the sending state: the framed request for the
   * cursor, then one report whose health flag is "the last value the slave
   * sent is not 0xFF". No answer at all is reported as a failure.
   */
  lemma {:induction false} OneCycle(s: PollerState, send: Input, ins: seq<Input>)
    requires ValidState(s) && s.state == 1
    requires CompletesAtEnd(ins)
    ensures Run(s, [send] + ins).events ==
      [ TxControl(true), Query(Telegram(s.cursor, ReadHoldingRegisters, 0, 1)), TxControl(false),
        Ping(s.cursor, LastReply(ins, Sentinel) != Sentinel) ]
    ensures (forall k :: 0 <= k < |ins| ==> ins[k].reply.None?) ==>
      Run(s, [send] + ins).events[3] == Ping(s.cursor, false)
  {
    var first := Step(s, send);
    RunSplit(s, [send] + ins);
    assert ([send] + ins)[1..] == ins;
    AwaitUntilIdle(first.next, ins);
    if forall k :: 0 <= k < |ins| ==> ins[k].reply.None? {
      NoReplyKeepsRegister(ins, Sentinel);
    }
  }

  lemma {:induction false} NoReplyKeepsRegister(ins: seq<Input>, reg: Word)
    requires forall k :: 0 <= k < |ins| ==> ins[k].reply.None?
    ensures LastReply(ins, reg) == reg
    decreases |ins|
  {
    if ins != [] {
      NoReplyKeepsRegister(ins[1..], reg);
    }
  }

  lemma {:induction false} LastReplyEndsWith(ins: seq<Input>, reg: Word, v: Word)
    requires |ins| > 0 && ins[|ins| - 1].reply == Some(v)
    ensures LastReply(ins, reg) == v
    decreases |ins|
  {
    if |ins| > 1 {
      assert ins[1..][|ins| - 2] == ins[|ins| - 1];
      LastReplyEndsWith(ins[1..], if ins[0].reply.Some? then ins[0].reply.value else reg, v);
    }
  }

  /**
   * A slave that answers with the register value 0xFF is reported exactly
   * as if it had not answered: the sentinel and a genuine value are not told apart.
   */
  lemma {:induction false} SentinelAnswerReportedAsFailure(s: PollerState, send: Input, ins: seq<Input>)
    requires ValidState(s) && s.state == 1
    requires CompletesAtEnd(ins) && ins[|ins| - 1].reply == Some(Sentinel)
    ensures Run(s, [send] + ins).events ==
      [ TxControl(true), Query(Telegram(s.cursor, ReadHoldingRegisters, 0, 1)), TxControl(false),
        Ping(s.cursor, false) ]
  {
    OneCycle(s, send, ins);
    LastReplyEndsWith(ins, Sentinel, Sentinel);
  }
}
