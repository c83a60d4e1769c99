/**
 * The alarm correlator and the sketch's `setup()` / `loop()`.
 *
 * Seven acknowledgement buttons, one per slave, and one alarm LED. A failed
 * ping makes the LED count out the failing slave's id, but only while that
 * slave's button is pressed. Debouncing and blink scheduling (the Automaton
 * library) are not modelled: the button states are an input sampled by each
 * `automaton.run()`, and a started blink is recorded as the LED's pattern.
 */
module ModbusAlert {
  import opened MasterModbus
  import opened PollerRuns

  /** `Atm_button slaves[7]`: one button per slave id 1..7, at index id - 1. */
  const SlaveCount: nat := LastSlave

  const BlinkOnMs: nat := 100
  const BlinkOffMs: nat := 100

  /** Debounced button state; only `Pressed` matters to the correlator. */
  datatype ButtonState = Idle | Pressed | Transient

  /** The board pins the buttons and the LED are attached to. */
  datatype Pin = Analog(a: nat) | Digital(d: nat)

  const SlavePins: seq<Pin> := [Analog(0), Digital(13), Digital(12), Digital(11), Digital(5), Digital(4), Digital(3)]
  const AlarmPin: Pin := Digital(2)

  /** `alarm.blink(on, off, count)`: `count` flashes of `on` ms separated by `off` ms. */
  datatype Pattern = Pattern(onMs: nat, offMs: nat, count: nat)

  /** What `processSlavePing` does. */
  datatype Effect =
    | NoAction            // the slave answered
    | Blink(pattern: Pattern)
    | Ignoring            // Serial.println("...ignoring")

  /** `processSlavePing(slaveId, isOk)` against the current button states. */
  function ProcessSlavePing(slaveId: nat, isOk: bool, slaves: seq<ButtonState>): (e: Effect)
    requires isOk || 1 <= slaveId <= |slaves|
    ensures isOk <==> e == NoAction
    ensures e.Blink? <==> !isOk && slaves[slaveId - 1] == Pressed
    ensures e.Blink? ==> e.pattern == Pattern(BlinkOnMs, BlinkOffMs, slaveId)
    ensures e == Ignoring <==> !isOk && slaves[slaveId - 1] != Pressed
  {
    if isOk then NoAction
    else if slaves[slaveId - 1] == Pressed then Blink(Pattern(BlinkOnMs, BlinkOffMs, slaveId))
    else Ignoring
  }

  /** Every ping names a slave that has a button. */
  predicate PingsInTable(evs: seq<Event>) {
    forall k :: 0 <= k < |evs| && evs[k].Ping? ==> 1 <= evs[k].slaveId <= SlaveCount
  }

  /** The correlator's decision for each ping among `evs`, in order. */
  function Alerts(evs: seq<Event>, slaves: seq<ButtonState>): (effects: seq<Effect>)
    requires |slaves| == SlaveCount && PingsInTable(evs)
    ensures |effects| == |Reported(evs)|
  {
    if evs == [] then []
    else
      (if evs[0].Ping? then [ProcessSlavePing(evs[0].slaveId, evs[0].isOk, slaves)] else [])
      + Alerts(evs[1..], slaves)
  }

  /** The pattern the LED shows: the last blink started wins, nothing is queued. */
  function LatestPattern(current: Option<Pattern>, effects: seq<Effect>): (p: Option<Pattern>)
    ensures (forall k :: 0 <= k < |effects| ==> !effects[k].Blink?) ==> p == current
    ensures (exists k :: 0 <= k < |effects| && effects[k].Blink?) ==>
      exists k :: 0 <= k < |effects| && effects[k].Blink? && p == Some(effects[k].pattern) &&
        forall m :: k < m < |effects| ==> !effects[m].Blink?
    decreases |effects|
  {
    if effects == [] then current
    else LatestPattern(if effects[0].Blink? then Some(effects[0].pattern) else current, effects[1..])
  }

  /** One iteration of `loop()`, as seen from outside. */
  datatype Activity =
    | Poll(event: Event)       // during modbus_loop()
    | Alert(effect: Effect)    // processSlavePing, called by modbus_loop()
    | AutomatonRun             // automaton.run()

  /** The activity of one `modbus_loop()`: each ping is followed by the correlator's decision. */
  function PollActivity(evs: seq<Event>, slaves: seq<ButtonState>): (log: seq<Activity>)
    requires |slaves| == SlaveCount && PingsInTable(evs)
    ensures |log| == |evs| + |Reported(evs)|
  {
    if evs == [] then []
    else
      [Poll(evs[0])]
      + (if evs[0].Ping? then [Alert(ProcessSlavePing(evs[0].slaveId, evs[0].isOk, slaves))] else [])
      + PollActivity(evs[1..], slaves)
  }

  lemma {:induction false} RunPingsInTable(s: PollerState, ins: seq<Input>)
    requires ValidState(s)
    ensures PingsInTable(Run(s, ins).events)
  {
  }

  /**
   * In one tick, an alarm is started only on the completion of a cycle that
   * failed while that slave's button was pressed, and it counts out exactly
   * the id of the slave just reported.
   */
  lemma BlinkOnlyForReportedSlave(s: PollerState, i: Input, slaves: seq<ButtonState>)
    requires ValidState(s) && |slaves| == SlaveCount
    ensures PingsInTable(Step(s, i).events)
    ensures forall e :: e in Alerts(Step(s, i).events, slaves) && e.Blink? ==>
      && Step(s, i).events == [Ping(s.cursor, false)]
      && slaves[s.cursor - 1] == Pressed
      && e.pattern == Pattern(BlinkOnMs, BlinkOffMs, s.cursor)
  {
  }

  /**
   * The j-th decision of the correlator is `processSlavePing` applied to the
   * j-th ping: its slave id and its health flag, nothing else.
   */
  lemma {:induction false} AlertsMatchPings(evs: seq<Event>, slaves: seq<ButtonState>)
    requires |slaves| == SlaveCount && PingsInTable(evs)
    ensures forall j :: 0 <= j < |Pings(evs)| ==> 1 <= Pings(evs)[j].slaveId <= SlaveCount
    ensures forall j :: 0 <= j < |Alerts(evs, slaves)| ==>
      Alerts(evs, slaves)[j] == ProcessSlavePing(Pings(evs)[j].slaveId, Pings(evs)[j].isOk, slaves)
    decreases |evs|
  {
    if evs != [] {
      var rest := evs[1..];
      assert PingsInTable(rest) by {
        forall k | 0 <= k < |rest| && rest[k].Ping?
          ensures 1 <= rest[k].slaveId <= SlaveCount
        {
          assert rest[k] == evs[k + 1];
        }
      }
      AlertsMatchPings(rest, slaves);
      if evs[0].Ping? {
        var effects := Alerts(evs, slaves);
        var ps := Pings(evs);
        assert effects == [ProcessSlavePing(evs[0].slaveId, evs[0].isOk, slaves)] + Alerts(rest, slaves);
        assert ps == [evs[0]] + Pings(rest);
        forall j | 1 <= j < |effects|
          ensures effects[j] == Alerts(rest, slaves)[j - 1] && ps[j] == Pings(rest)[j - 1]
        {
        }
      }
    }
  }

  /**
   * Over any run, the j-th ping is about the j-th slave of the round robin,
   * whatever the buttons read at that ping (`views[j]`, as sampled by the
   * preceding `automaton.run()`): it gives no action exactly when the slave
   * answered, and a blink counting out that slave's id exactly when it
   * failed while that slave's button was pressed.
   */
  lemma {:induction false} AlertsFollowRoundRobin(s: PollerState, ins: seq<Input>, views: seq<seq<ButtonState>>)
    requires ValidState(s)
    requires |views| <= |Pings(Run(s, ins).events)|
    requires forall k :: 0 <= k < |views| ==> |views[k]| == SlaveCount
    ensures forall j :: 0 <= j < |views| ==>
      var p := Pings(Run(s, ins).events)[j];
      var id := Cycle(s.cursor, |Pings(Run(s, ins).events)|)[j];
      && p.slaveId == id
      && 1 <= id <= SlaveCount
      && (ProcessSlavePing(id, p.isOk, views[j]) == NoAction <==> p.isOk)
      && (ProcessSlavePing(id, p.isOk, views[j]).Blink? <==> !p.isOk && views[j][id - 1] == Pressed)
      && (ProcessSlavePing(id, p.isOk, views[j]).Blink? ==>
            ProcessSlavePing(id, p.isOk, views[j]).pattern == Pattern(BlinkOnMs, BlinkOffMs, id))
  {
    var evs := Run(s, ins).events;
    var n := |Pings(evs)|;
    ReportsRoundRobin(s, ins);
    forall j | 0 <= j < |views|
      ensures FirstSlave <= Cycle(s.cursor, n)[j] <= LastSlave
    {
      CycleInRange(s.cursor, n, j);
    }
  }

  /** The sketch's globals: the poller, the buttons and the alarm LED. */
  class App {
    const poller: Poller
    var slaves: seq<ButtonState>   // the debounced state of each button, as of the last automaton.run()
    var pins: seq<Pin>             // the pin each button was begun on
    var alarmPin: Pin
    var alarm: Option<Pattern>     // the blink pattern last started on the LED

    ghost predicate Valid()
      reads this, poller, poller.data
    {
      poller.Valid() && |slaves| == SlaveCount && |pins| == SlaveCount
    }

    /** `setup()`: `modbus_setup()` at time `now`, then the seven buttons and the LED. */
    constructor (now: nat)
      ensures Valid() && fresh(poller) && fresh(poller.data)
      ensures poller.View() == Boot(now)
      ensures slaves == seq(SlaveCount, _ => Idle) && pins == SlavePins && alarmPin == AlarmPin
      ensures alarm == None
    {
      poller := new Poller();
      new;
      poller.Setup(now);
      slaves := seq(SlaveCount, _ => Idle);
      pins := SlavePins;
      alarmPin := AlarmPin;
      alarm := None;
    }

    /**
     * `loop()`: one poller tick, whose completion pings the correlator with
     * the button states of the previous iteration, then `automaton.run()`,
     * which samples the buttons anew.
     */
    method Loop(now: nat, reply: Option<Word>, idle: bool, sampled: seq<ButtonState>) returns (log: seq<Activity>)
      requires Valid() && |sampled| == SlaveCount
      modifies this, poller, poller.data
      ensures Valid()
      ensures var t := Step(old(poller.View()), Input(now, reply, idle));
        && PingsInTable(t.events)
        && poller.View() == t.next
        && log == PollActivity(t.events, old(slaves)) + [AutomatonRun]
        && alarm == LatestPattern(old(alarm), Alerts(t.events, old(slaves)))
      ensures slaves == sampled && pins == old(pins) && alarmPin == old(alarmPin)
    {
      ghost var before := poller.View();
      var events := poller.Tick(now, reply, idle);
      BlinkOnlyForReportedSlave(before, Input(now, reply, idle), slaves);
      log := PollActivity(events, slaves);
      alarm := LatestPattern(alarm, Alerts(events, slaves));
      slaves := sampled;
      log := log + [AutomatonRun];
    }
  }
}
