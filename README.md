# modbus_alert — a Dafny model of the polling loop and the alarm correlator

The sketch runs on an Arduino. It is a Modbus RTU master on an RS-485 bus. The
master visits slaves 1 to 7 in turn. Each visit reads one holding register
(function code 3, Read Holding Registers, section 6.3 of the Modbus Application
Protocol Specification V1.1b3). The master then reports whether the slave
answered. Each slave has an acknowledgement button. When a ping fails while
that slave's button is pressed, the alarm LED blinks the slave's id
(100 ms on, 100 ms off, id times). When the button is not pressed, the failure
is only logged as "ignoring".

The project has three modules:

- `MasterModbus` (`master_modbus.dfy`) models `src/master_modbus.cpp`.
  - The globals `u8state`, `u32wait`, `dstSlaveId`, `au16data` and `telegram`
    become the class `Poller`. Its `Tick` method is `modbus_loop()`. `Setup` is
    `modbus_setup()`.
  - `Tick` is proved against the pure transition function `Step`. `Step`
    works on the value `PollerState` and returns the next state together with
    the tick's events. There are three kinds of event: the TX-control line
    going HIGH or LOW, the query sent, and the ping handed to `processSlavePing`.
  - The transport and the clock are parameters of each tick: the current time,
    the register value the transport stored during `master.poll()` (if any),
    and whether `master.getState()` is `COM_IDLE`.
- `PollerRuns` (`poller_runs.dfy`) covers any sequence of ticks (`Run`). It
  proves:
  - the deadline gate;
  - the strict alternation of one request and one report;
  - the round-robin order of reports, including "any seven consecutive reports
    visit every slave exactly once";
  - how the health flag of a completed cycle is derived.
- `ModbusAlert` (`modbus_alert.dfy`) models `src/modbus_alert.cpp`.
  - `processSlavePing` is the pure function `ProcessSlavePing`. It returns an
    `Effect`: `NoAction`, `Blink(pattern)` or `Ignoring`.
  - `setup()` and `loop()` are the class `App`. It holds the poller, the states
    of the seven buttons, their pins, and the pattern last started on the LED.
  - One `Loop` runs the poller tick first. A completion pings the correlator,
    which reads the button states sampled by the *previous* `automaton.run()`.
    Then `automaton.run()` samples the buttons again.

Three behaviours of the code are easy to misread:

- The waiting state moves on only when `millis() > u32wait`. The comparison is
  strict: a tick exactly at the deadline still waits.
- The health flag handed to `processSlavePing` is `au16data[0] != 0xFF`. It is
  not read from the transport's status. `modbus_loop` plants `0xFF` in
  `au16data[0]` just before each request. So no answer and an answer whose
  value is `0xFF` both give the same "not OK" report.
  `SentinelAnswerReportedAsFailure` proves this conflation.
- `processSlavePing` compares the button state with `PRESSED` alone. Every
  other debounced state counts as "not pressed".

## Model

| member | source | states |
|---|---|---|
| `MasterModbus.NextSlave` | src/master_modbus.cpp:132-134 | the advanced cursor always lies in 1..7; it is id + 1 below 7 and wraps to 1 from 7 |
| `MasterModbus.Boot` | src/master_modbus.cpp:93-94 | after static initialisation and setup at time `now`: state 0, deadline `now + 1000`, cursor 1, buffer all zero, and the state invariant holds |
| `MasterModbus.Step` | src/master_modbus.cpp:97-138 | one `modbus_loop()`. It keeps the invariant (state in {0,1,2}, cursor in 1..7, 16-word buffer). The only moves are 0→1 (only when `now > deadline`), 1→2 (always) and 2→0 (only when the transport is idle). While `now <= deadline`, nothing at all changes. A send plants 0xFF in register 0, stores the telegram (cursor, fct 3, address 0, count 1), and emits exactly TX HIGH, the query with that telegram, and TX LOW. While the transport is busy, only the stored reply changes. On completion there is exactly one ping, `(cursor, register 0 != 0xFF)`; the deadline becomes `now + 2000` and the cursor advances |
| `MasterModbus.Poller.constructor` | src/master_modbus.cpp:47-65 | static initialisation: every global is zero except `dstSlaveId = 1`; the buffer has 16 words |
| `MasterModbus.Poller.Setup` | src/master_modbus.cpp:93-94 | `modbus_setup()` sets the deadline to `now + 1000` and the state to 0, and changes nothing else |
| `MasterModbus.Poller.Tick` | src/master_modbus.cpp:97-138 | `modbus_loop()` on the globals: its new state and its events are exactly those of `Step`, and the invariant is kept |
| `PollerRuns.Run` | src/master_modbus.cpp:97-138 | any number of ticks keep the invariant, and every ping names a slave in 1..7 |
| `PollerRuns.NothingBeforeDeadline` | src/master_modbus.cpp:99-101 | however many ticks come while the clock has not passed the deadline, the waiting poller emits nothing and its state is unchanged |
| `PollerRuns.RequestsAndReportsAlternate` | src/master_modbus.cpp:102-136 | the bus traffic of any run is a prefix of: request for the cursor, report for the same slave, request for the next slave, and so on. There is never a second request before the report |
| `PollerRuns.ReportsRoundRobin` | src/master_modbus.cpp:130-134 | the reports of any run name the slaves in cyclic order from the cursor, with no skip or repeat; afterwards the cursor is on the slave after the last one reported |
| `PollerRuns.EverySevenReportsVisitAllSlaves` | src/master_modbus.cpp:130-134 | any seven consecutive reports of a run contain every slave 1..7 exactly once, each one followed by its successor (7 by 1) |
| `PollerRuns.AwaitUntilIdle` | src/master_modbus.cpp:117-135 | while the transport is busy, nothing is reported. When it turns idle, exactly one ping is made for the cursor; it is healthy exactly when the last value stored in register 0 is not 0xFF. Then state 0, cursor advanced, deadline `now + 2000` |
| `PollerRuns.OneCycle` | src/master_modbus.cpp:102-135 | a full cycle from the sending state emits exactly TX HIGH, the query, TX LOW and one ping for the same slave. The ping is OK exactly when the slave's last answer is not 0xFF; with no answer at all (a timeout) it is not OK |
| `PollerRuns.SentinelAnswerReportedAsFailure` | src/master_modbus.cpp:103-130 | a slave that answers with the value 0xFF is reported as failed, just like a slave that does not answer |
| `ModbusAlert.ProcessSlavePing` | src/modbus_alert.cpp:27-36 | no action exactly when the ping is OK. A blink exactly when the ping failed and that slave's button (index id − 1) is PRESSED, and then the blink is (100, 100, id). "ignoring" exactly when the ping failed and the button is not PRESSED |
| `ModbusAlert.LatestPattern` | src/modbus_alert.cpp:32 | the LED shows the last blink started (a later start replaces the earlier one, nothing is queued); with no blink it keeps its pattern |
| `ModbusAlert.RunPingsInTable` | src/modbus_alert.cpp:31 | every slave id the poller hands to `processSlavePing` indexes inside the 7-entry button table |
| `ModbusAlert.BlinkOnlyForReportedSlave` | src/master_modbus.cpp:130 | in one tick, a blink comes only from the completion of a failed cycle (the single event `Ping(cursor, false)`), only while the cursor's button is pressed, and it counts out the cursor's id |
| `ModbusAlert.AlertsMatchPings` | src/modbus_alert.cpp:27-36 | the j-th correlator decision is `processSlavePing` applied to the j-th ping, with that ping's slave id and health flag. So an OK ping gives no action, a failed ping with a pressed button gives exactly one blink counting out its id, and every other failure gives "ignoring". Every ping's id indexes inside the button table |
| `ModbusAlert.AlertsFollowRoundRobin` | src/master_modbus.cpp:130-134 | over any run, the j-th ping is about the j-th slave of the round robin, whatever button states it is decided on (one vector per ping, as sampled before it). The decision is no action exactly when the slave answered, and a blink (100, 100, that slave's id) exactly when the slave failed while its button was pressed |
| `ModbusAlert.App.constructor` | src/modbus_alert.cpp:12-25 | `setup()`: the poller is booted as in `Boot(now)`; buttons begin idle on pins A0, 13, 12, 11, 5, 4, 3; the LED is on pin 2; no blink has started |
| `ModbusAlert.App.Loop` | src/modbus_alert.cpp:38-41 | `loop()`: the poller tick runs first. Each of its pings is followed by the correlator's decision, made on the button states from the previous iteration. The LED takes the last blink started. `automaton.run()` runs last and samples the buttons anew |

## Left out

- The ModbusRtu transport behind `master.begin`, `query`, `poll`, `getState`, `getLastError`, `getErrCnt` and `setTimeOut(300)` is not modelled. That covers framing, CRC, byte timing and the 300 ms response timeout. Each tick receives the transport's outcome as input: an optional register value stored into `au16data[0]` and an idle flag. Only the first word can be written, because each request reads one register.
- Serial logging is not modelled: the "ModBus Master" banner and the per-cycle diagnostic line. The "...ignoring" line is kept only as the `Ignoring` effect.
- Pin and port set-up is not modelled: `SoftwareSerial`, the emulated power pins, `delay(10)`, and setting TX-control LOW during setup. The TX-control line appears only as the HIGH/LOW events framing each query.
- The Automaton library is not modelled: button debouncing, LED blink scheduling, and what `automaton.run()` does besides sampling the buttons. A started blink is recorded as the LED's current pattern (the last start wins).
- `MasterModbus.Step` uses unbounded `nat` for time, so `millis()` and `u32wait` never wrap after 2^32 ms. Near the wrap, the source's `millis() > u32wait` comparison behaves differently from the model.
- `MasterModbus.Boot` computes the first deadline `now + 1000` without the 32-bit wrap of `unsigned long`.
- `MasterModbus.Poller.Tick` keeps the cursor in 1..7 as an invariant, so the `uint8_t` overflow of `dstSlaveId++` cannot occur and is not modelled.
- The `au16reg` pointer of the telegram is not modelled; it always points at `au16data`.
