/** The safety sampler of the load cell (`LoadCellSensor`): the periodic poll,
    the overload check with its shutdown or pause reaction, the runtime policy
    command and the status the sensor reports. Time is in integer
    milliseconds; the printer's idle state and pause flag are inputs. */
module LoadCellSampler {
  import opened Results
  import opened HostParams
  import opened LoadCellHost
  import Decimal

  datatype Action = Shutdown | Pause

  /** The names `overload_action` accepts. */
  function ActionName(a: Action): string {
    match a
    case Shutdown => "shutdown"
    case Pause => "pause"
  }

  /** The ACTION parser: only the two names, exactly as written. */
  function ParseAction(s: string): (a: Option<Action>)
    ensures a.Some? <==> s == "shutdown" || s == "pause"
    ensures a.Some? ==> ActionName(a.value) == s
  {
    if s == "shutdown" then Some(Shutdown)
    else if s == "pause" then Some(Pause)
    else None
  }

  /** The configured options; the minimums `getfloat`/`getint` enforce are the
      field types and the invariant below. */
  datatype Config = Config(sampleInterval: nat, checkOnlyWhenPrinting: bool, defaultMaxForce: nat, defaultAction: Action)

  /** `sample_interval` of at least 0.1 s. */
  predicate ValidConfig(c: Config) {
    c.sampleInterval >= MIN_SAMPLE_INTERVAL_MS
  }

  const MIN_SAMPLE_INTERVAL_MS: nat := 100

  /** The options when the config section sets none of them. */
  const DefaultConfig: Config := Config(200, true, 900, Shutdown)

  /** The sensor's mutable policy and whether an observer is registered. */
  datatype Sensor = Sensor(config: Config, maxForce: int, action: Action, observed: bool)

  function NewSensor(c: Config): (s: Sensor)
    ensures s.maxForce == c.defaultMaxForce && s.action == c.defaultAction && !s.observed
  {
    Sensor(c, c.defaultMaxForce, c.defaultAction, false)
  }

  /** `setup_callback`. */
  function Observe(s: Sensor): (s': Sensor)
    ensures s'.observed && s'.maxForce == s.maxForce && s'.action == s.action && s'.config == s.config
  {
    s.(observed := true)
  }

  /** What the sampler sees of the printer: the `idle_timeout` state and
      whether `pause_resume` is paused. */
  datatype Printer = Printer(state: string, paused: bool)

  datatype Effect =
    | PollSent            // an `H7` went out without waiting for its reply
    | ShutdownInvoked     // `invoke_shutdown` with the overload message
    | PauseRequested      // `send_pause_command` and the `PAUSE` script
    | Observed(weight: int)   // the registered callback got the weight

  datatype Wake = Never | At(time: int)

  datatype Sample = Sample(effects: seq<Effect>, wake: Wake)

  /** The overload condition: strictly above the limit, and printing unless
      the check applies at all times. */
  predicate Overloaded(s: Sensor, weight: int, printer: Printer) {
    weight > s.maxForce && (!s.config.checkOnlyWhenPrinting || printer.state == "Printing")
  }

  /** `_sample`, the timer callback; `measured` is the clock reading after the check. */
  function SampleOnce(lc: LoadCell, s: Sensor, printer: Printer, measured: int): (r: Sample)
    ensures PollSent in r.effects <==> CMD_H7 in lc.supported && lc.active.None?
    ensures r.wake.Never? <==> Overloaded(s, lc.lastWeight, printer) && s.action == Shutdown
    ensures ShutdownInvoked in r.effects <==> r.wake.Never?
    ensures PauseRequested in r.effects <==>
      Overloaded(s, lc.lastWeight, printer) && s.action == Pause && !printer.paused
    ensures forall w :: Observed(w) in r.effects <==> s.observed && r.wake.At? && w == lc.lastWeight
    ensures r.wake.At? ==> r.wake.time == measured + s.config.sampleInterval
  {
    var weight := lc.lastWeight;
    var poll := if CMD_H7 in lc.supported && lc.active.None? then [PollSent] else [];
    if Overloaded(s, weight, printer) && s.action == Shutdown then
      Sample(poll + [ShutdownInvoked], Never)
    else
      var pause := if Overloaded(s, weight, printer) && !printer.paused then [PauseRequested] else [];
      var observe := if s.observed then [Observed(weight)] else [];
      assert PauseRequested !in poll && PauseRequested !in observe;
      assert PauseRequested in pause <==> Overloaded(s, weight, printer) && !printer.paused;
      assert Overloaded(s, weight, printer) ==> s.action == Pause;
      Sample(poll + pause + observe, At(measured + s.config.sampleInterval))
  }

  /** One timer firing: the device state and printer view then, and the clock. */
  datatype Tick = Tick(loadcell: LoadCell, printer: Printer, measured: int)

  /** The samples of successive timer firings; after `Never` the timer is not
      rescheduled and no further firing happens. */
  function Run(s: Sensor, ticks: seq<Tick>): (rs: seq<Sample>)
    ensures |rs| <= |ticks|
    ensures forall k :: 0 <= k < |rs| ==> rs[k] == SampleOnce(ticks[k].loadcell, s, ticks[k].printer, ticks[k].measured)
  {
    if |ticks| == 0 then []
    else
      var first := SampleOnce(ticks[0].loadcell, s, ticks[0].printer, ticks[0].measured);
      if first.wake.Never? then [first]
      else [first] + Run(s, ticks[1..])
  }

  /** Shutdown is final: across any run it happens at most once, in the last
      sample, and every earlier sample rescheduled the timer. */
  lemma {:induction false} ShutdownIsFinal(s: Sensor, ticks: seq<Tick>, k: nat)
    requires k < |Run(s, ticks)|
    ensures ShutdownInvoked in Run(s, ticks)[k].effects ==> k == |Run(s, ticks)| - 1
    ensures k < |Run(s, ticks)| - 1 ==> Run(s, ticks)[k].wake.At?
  {
    var rs := Run(s, ticks);
    if k > 0 {
      ShutdownIsFinal(s, ticks[1..], k - 1);
      assert rs[k] == Run(s, ticks[1..])[k - 1];
    }
  }

  /** A run stops early only at a shutdown. */
  lemma {:induction false} RunStopsOnlyAtShutdown(s: Sensor, ticks: seq<Tick>)
    ensures |Run(s, ticks)| < |ticks| ==>
      |Run(s, ticks)| > 0 && Run(s, ticks)[|Run(s, ticks)| - 1].wake.Never?
  {
    if |ticks| > 0 {
      var first := SampleOnce(ticks[0].loadcell, s, ticks[0].printer, ticks[0].measured);
      if !first.wake.Never? {
        RunStopsOnlyAtShutdown(s, ticks[1..]);
      }
    }
  }

  // -------------------------------------------------- SET_MAX_FORCE command

  datatype CommandError =
    | Unparsable(param: string)        // `int()` rejected the text
    | OutOfRange(param: string)        // below the minimum or above the maximum
    | BadAction                        // "Must be 'shutdown' or 'pause'"

  /** `gcmd.get_int(name, default, minval, maxval)` on the raw parameter text. */
  function GetInt(text: Option<string>, name: string, default: int, minval: int, maxval: Option<int>): (r: Result<int, CommandError>)
    ensures text.None? ==> r == Ok(default)
    ensures text.Some? && ParseIntLiteral(text.value).None? ==> r == Err(Unparsable(name))
    ensures r.Ok? && text.Some? ==>
      Some(r.value) == ParseIntLiteral(text.value) && minval <= r.value && (maxval.Some? ==> r.value <= maxval.value)
    ensures text.Some? && ParseIntLiteral(text.value).Some? ==>
      (r.Ok? <==> minval <= ParseIntLiteral(text.value).value
                  && (maxval.None? || ParseIntLiteral(text.value).value <= maxval.value))
  {
    match text
    case None => Ok(default)
    case Some(t) =>
      match ParseIntLiteral(t)
      case None => Err(Unparsable(name))
      case Some(v) =>
        if v < minval || (maxval.Some? && v > maxval.value) then Err(OutOfRange(name)) else Ok(v)
  }

  /** The parameters of one `FLASHFORGE_LOAD_CELL_SET_MAX_FORCE` line, as text. */
  datatype SetParams = SetParams(reset: Option<string>, force: Option<string>, action: Option<string>)

  /** `cmd_SET_LOADCELL_MAX_FORCE`: reset both to the configured defaults, or
      change whichever is given; any error leaves the sensor as it was. */
  function SetMaxForce(s: Sensor, p: SetParams): (r: Result<Sensor, CommandError>)
    ensures r.Ok? ==> r.value.config == s.config && r.value.observed == s.observed
    ensures r.Ok? && s.maxForce >= 0 ==> r.value.maxForce >= 0
    ensures GetInt(p.reset, "RESET", 0, 0, Some(1)) == Ok(1) ==>
      r == Ok(s.(maxForce := s.config.defaultMaxForce, action := s.config.defaultAction))
    ensures GetInt(p.reset, "RESET", 0, 0, Some(1)) == Ok(0) && r.Ok? ==>
      && (p.force.None? ==> r.value.maxForce == s.maxForce)
      && (p.force.Some? ==> Some(r.value.maxForce) == ParseIntLiteral(p.force.value))
      && (p.action.None? ==> r.value.action == s.action)
      && (p.action.Some? ==> ActionName(r.value.action) == p.action.value)
    ensures GetInt(p.reset, "RESET", 0, 0, Some(1)) == Ok(0) && p.action.Some? && ParseAction(p.action.value).None? ==>
      r.Err?
    ensures GetInt(p.reset, "RESET", 0, 0, Some(1)).Err? ==> r.Err?
    ensures GetInt(p.reset, "RESET", 0, 0, Some(1)) == Ok(0) ==>
      (r.Ok? <==> GetInt(p.force, "FORCE", s.maxForce, 0, None).Ok?
                  && (p.action.None? || ParseAction(p.action.value).Some?))
  {
    match GetInt(p.reset, "RESET", 0, 0, Some(1))
    case Err(e) => Err(e)
    case Ok(reset) =>
      if reset != 0 then Ok(s.(maxForce := s.config.defaultMaxForce, action := s.config.defaultAction))
      else
        match GetInt(p.force, "FORCE", s.maxForce, 0, None)
        case Err(e) => Err(e)
        case Ok(force) =>
          var action := if p.action.None? then Some(s.action) else ParseAction(p.action.value);
          if action.None? then Err(BadAction)
          else Ok(s.(maxForce := force, action := action.value))
  }

  /** A reset after any sequence of changes gives back the configured policy. */
  lemma ResetRestoresDefaults(s: Sensor, p: SetParams, q: SetParams)
    requires SetMaxForce(s, p).Ok?
    requires q.reset == Some("1")
    ensures var s1 := SetMaxForce(s, p).value;
      SetMaxForce(s1, q) == Ok(s1.(maxForce := s.config.defaultMaxForce, action := s.config.defaultAction))
  {
    assert ParseIntLiteral("1") == Some(1) by { ParseSignedNumeral(1); }
  }

  /** `FORCE` alone sets the force and keeps the overload action. */
  lemma ForceAloneApplied(s: Sensor, force: nat)
    ensures SetMaxForce(s, SetParams(None, Some(Decimal.SignedNumeral(force)), None))
      == Ok(s.(maxForce := force))
  {
    ParseSignedNumeral(force);
  }

  /** Setting a force and an action, then reading the policy, gives exactly
      what was written. */
  lemma SetThenRead(s: Sensor, force: nat, a: Action)
    ensures SetMaxForce(s, SetParams(None, Some(Decimal.SignedNumeral(force)), Some(ActionName(a))))
      == Ok(s.(maxForce := force, action := a))
  {
    ParseSignedNumeral(force);
  }

  // ---------------------------------------------------------------- status

  /** `FlashforgeLoadCell.get_status`. */
  function LoadCellStatus(lc: LoadCell): (m: map<string, int>)
    ensures m.Keys == {"force_g"} && m["force_g"] == lc.lastWeight
  {
    map["force_g" := lc.lastWeight]
  }

  /** `LoadCellSensor.get_status`: the temperature slot carries the weight too. */
  function SensorStatus(lc: LoadCell): (m: map<string, int>)
    ensures m.Keys == {"temperature", "force_g"}
    ensures m["temperature"] == m["force_g"] == lc.lastWeight
    ensures forall k :: k in LoadCellStatus(lc) ==> k in m && m[k] == LoadCellStatus(lc)[k]
  {
    LoadCellStatus(lc)["temperature" := lc.lastWeight]
  }

  /** `get_temp`: the weight as current value, 0 as target. */
  function Temperature(lc: LoadCell): (t: (int, int))
    ensures t.0 == SensorStatus(lc)["temperature"] && t.1 == 0
  {
    (lc.lastWeight, 0)
  }

  /** What the status shows after an unsolicited reply with no call
      pending: the reply's value when it is an ok `H7` reading, in both the
      force and the temperature slot; the earlier weight otherwise. */
  lemma StatusAfterReply(lc: LoadCell, p: Params)
    requires lc.active.None?
    ensures var m := SensorStatus(HandleReply(lc, p));
      m["force_g"] == m["temperature"] == Temperature(HandleReply(lc, p)).0
      == if IsReading(DecodeReply(p)) then DecodeReply(p).value else lc.lastWeight
  {
    UnsolicitedReply(lc, p);
  }

  /** `get_report_time_delta`. */
  function ReportDelta(s: Sensor): (d: nat)
    ensures ValidConfig(s.config) ==> d >= MIN_SAMPLE_INTERVAL_MS
  {
    s.config.sampleInterval
  }
}
