/** The host side of the load cell: decoding of `flashforge_loadcell_response`
    messages, the command registry resolved at connect time, the one-in-flight
    correlator (`_send_and_wait` and the reply handler), the weight query and
    the tare procedure. Time is in integer milliseconds; a call's replies are
    given as arrivals with their delay after the command went out. */
module LoadCellHost {
  import opened Results
  import opened HostParams

  // Message formats the host looks up in the firmware's command dictionary.
  const CMD_H1: string := "flashforge_loadcell_h1"
  const CMD_H2: string := "flashforge_loadcell_h2 weight=%u"
  const CMD_H3: string := "flashforge_loadcell_h3 weight=%u"
  const CMD_H7: string := "flashforge_loadcell_h7"
  const CMD_TEST: string := "flashforge_loadcell_test_cmd cmd=%*s"

  /** The commands resolved at connect, in the order they are looked up. */
  const REQUIRED: seq<string> := [CMD_H1, CMD_H2, CMD_H3, CMD_H7, CMD_TEST]

  /** `completion.wait(monotonic() + 0.6)` */
  const REPLY_TIMEOUT_MS: nat := 600

  /** `reactor.pause(monotonic() + 0.2)` between tare attempts. */
  const TARE_RETRY_DELAY_MS: nat := 200

  datatype Command = H1 | H2 | H3 | H7 | TEST

  /** The enum value, which is also the `command` tag the firmware echoes. */
  function Tag(c: Command): string {
    match c
    case H1 => "H1"
    case H2 => "H2"
    case H3 => "H3"
    case H7 => "H7"
    case TEST => "TEST"
  }

  /** `_MCU_CMD_MAP`: message format to command. */
  function CommandOf(name: string): (c: Option<Command>)
    ensures c.Some? <==> name in REQUIRED
  {
    if name == CMD_H1 then Some(H1)
    else if name == CMD_H2 then Some(H2)
    else if name == CMD_H3 then Some(H3)
    else if name == CMD_H7 then Some(H7)
    else if name == CMD_TEST then Some(TEST)
    else None
  }

  // ---------------------------------------------------------------- replies

  /** A decoded `flashforge_loadcell_response` (`MCUResponse`). */
  datatype Reply = Reply(command: string, status: string, raw: string, value: int)

  /** `MCUResponse(params)`: total, every missing or unusable field has a fallback. */
  function DecodeReply(p: Params): (r: Reply)
    ensures Get(p, "command") == Null ==> r.command == ""
    ensures Get(p, "status") == Null ==> r.status == "unknown"
    ensures Get(p, "raw_response") == Null ==> r.raw == ""
    ensures "value" !in p || PyInt(p["value"]).None? ==> r.value == 0
    ensures "value" in p && PyInt(p["value"]).Some? ==> r.value == PyInt(p["value"]).value
    ensures Get(p, "status").Bytes? && Get(p, "status").utf8.None? ==> r.status == "unknown"
  {
    var value :=
      if "value" !in p then 0
      else match PyInt(p["value"]) case Some(n) => n case None => 0;
    Reply(DecodeText(Get(p, "command"), ""),
          DecodeText(Get(p, "status"), "unknown"),
          DecodeText(Get(p, "raw_response"), ""),
          value)
  }

  /** The parameters of a response as the firmware's `sendf` delivers them:
      `%s` fields as bytes, `%i` as an int. */
  function WireReply(status: string, command: string, value: int, raw: string): Params {
    map["status" := Bytes(Some(status)), "command" := Bytes(Some(command)),
        "value" := Int(value), "raw_response" := Bytes(Some(raw))]
  }

  /** Decoding a well-formed response recovers every field the firmware sent. */
  lemma DecodeWireReply(status: string, command: string, value: int, raw: string)
    ensures DecodeReply(WireReply(status, command, value, raw)) == Reply(command, status, raw, value)
  {
  }

  // -------------------------------------------------------------- registry

  datatype Pending = Pending(cmd: Command, completion: Option<Reply>)

  /** The device state the correlator and the sampler share. */
  datatype LoadCell = LoadCell(supported: set<string>, active: Option<Pending>, lastWeight: int)

  const Initial: LoadCell := LoadCell({}, None, 0)

  datatype Connected = Connected(loadcell: LoadCell, missing: Option<string>)

  /** The required names from position `i` up to `k`. */
  function Names(i: nat, k: nat): set<string>
    requires i <= k <= |REQUIRED|
  {
    set j | i <= j < k :: REQUIRED[j]
  }

  /** `_handle_connect`: look up the required commands in order and stop at the
      first one the firmware lacks; `missing` is the command the raised error names. */
  function Connect(lc: LoadCell, available: set<string>): (r: Connected)
    ensures r.loadcell.active == lc.active && r.loadcell.lastWeight == lc.lastWeight
    ensures r.missing.None? <==> (forall j :: 0 <= j < |REQUIRED| ==> REQUIRED[j] in available)
    ensures r.missing.None? ==> r.loadcell.supported == lc.supported + Names(0, |REQUIRED|)
    ensures r.missing.Some? ==>
      exists k :: 0 <= k < |REQUIRED| && REQUIRED[k] == r.missing.value
        && REQUIRED[k] !in available
        && (forall j :: 0 <= j < k ==> REQUIRED[j] in available)
        && r.loadcell.supported == lc.supported + Names(0, k)
  {
    var r := ConnectFrom(lc, available, 0);
    assert r.missing.None? <==> FirstMissing(available, 0) == |REQUIRED|;
    r
  }

  /** The position of the first required name from `i` on that the firmware
      lacks, `|REQUIRED|` when it has them all. */
  function FirstMissing(available: set<string>, i: nat): (k: nat)
    requires i <= |REQUIRED|
    ensures i <= k <= |REQUIRED|
    ensures k < |REQUIRED| ==> REQUIRED[k] !in available
    ensures forall j :: i <= j < k ==> REQUIRED[j] in available
    decreases |REQUIRED| - i
  {
    if i == |REQUIRED| || REQUIRED[i] !in available then i else FirstMissing(available, i + 1)
  }

  /** The lookups from position `i` on: every name before the first missing
      one is registered, and that one is named. */
  function ConnectFrom(lc: LoadCell, available: set<string>, i: nat): (r: Connected)
    requires i <= |REQUIRED|
    ensures r.loadcell.active == lc.active && r.loadcell.lastWeight == lc.lastWeight
    ensures var k := FirstMissing(available, i);
      && r.missing == (if k < |REQUIRED| then Some(REQUIRED[k]) else None)
      && r.loadcell.supported == lc.supported + Names(i, k)
    decreases |REQUIRED| - i
  {
    if i == |REQUIRED| then Connected(lc, None)
    else if REQUIRED[i] !in available then
      assert Names(i, i) == {};
      Connected(lc, Some(REQUIRED[i]))
    else
      var r := ConnectFrom(lc.(supported := lc.supported + {REQUIRED[i]}), available, i + 1);
      NamesCons(i, FirstMissing(available, i + 1));
      r
  }

  /** The names from `i` are the name at `i` and those after it. */
  lemma NamesCons(i: nat, k: nat)
    requires i < k <= |REQUIRED|
    ensures Names(i, k) == {REQUIRED[i]} + Names(i + 1, k)
  {
    assert forall x :: x in Names(i, k) <==> x in {REQUIRED[i]} + Names(i + 1, k);
  }

  /** Connecting from the initial state registers exactly the five commands,
      or fails naming one that is missing. */
  lemma ConnectRegistersExactly(available: set<string>)
    ensures var r := Connect(Initial, available);
      && (r.missing.None? ==> r.loadcell.supported == set j | 0 <= j < |REQUIRED| :: REQUIRED[j])
      && (r.missing.Some? ==> r.missing.value in REQUIRED && r.missing.value !in available)
  {
  }

  // ------------------------------------------------------------ correlator

  /** The reply completes the pending call: its tag is the one being awaited. */
  predicate Matches(lc: LoadCell, reply: Reply) {
    lc.active.Some? && reply.command == Tag(lc.active.value.cmd)
  }

  /** An `H7` reply with status `ok`: a weight reading. */
  predicate IsReading(reply: Reply) {
    reply.command == "H7" && reply.status == "ok"
  }

  /** `_handle_flashforge_response` after `MCUResponse(params)`. */
  function Handle(lc: LoadCell, reply: Reply): (r: LoadCell)
    ensures r.supported == lc.supported
    ensures r.active.Some? == lc.active.Some?
    ensures r.active.Some? ==> r.active.value.cmd == lc.active.value.cmd
    ensures Matches(lc, reply) ==>
      && r.lastWeight == lc.lastWeight
      && r.active.value.completion ==
         (if lc.active.value.completion.Some? then lc.active.value.completion else Some(reply))
    ensures !Matches(lc, reply) ==> r.active == lc.active
    ensures !Matches(lc, reply) && IsReading(reply) ==> r.lastWeight == reply.value
    ensures !IsReading(reply) ==> r.lastWeight == lc.lastWeight
  {
    if Matches(lc, reply) then
      var pending := lc.active.value;
      if pending.completion.Some? then lc
      else lc.(active := Some(pending.(completion := Some(reply))))
    else if IsReading(reply) then lc.(lastWeight := reply.value)
    else lc
  }

  /** The handler registered for `flashforge_loadcell_response`: decode, then handle. */
  function HandleReply(lc: LoadCell, p: Params): (r: LoadCell)
    ensures r.supported == lc.supported
    ensures lc.active.None? ==> r.active.None?
    ensures !IsReading(DecodeReply(p)) || Matches(lc, DecodeReply(p)) ==> r.lastWeight == lc.lastWeight
    ensures IsReading(DecodeReply(p)) && !Matches(lc, DecodeReply(p)) ==> r.lastWeight == DecodeReply(p).value
  {
    Handle(lc, DecodeReply(p))
  }

  /** A response the handler receives `delay` ms after the pending command went
      out, already decoded by `DecodeReply`. */
  datatype Arrival = Arrival(delay: nat, reply: Reply)

  /** The arrival that completes a call for `tag`: the first one carrying the
      tag, unless an arrival at or after the reply timeout comes before it. */
  function Answer(arrivals: seq<Arrival>, tag: string): (a: Option<Arrival>)
    ensures a.Some? ==> a.value.delay < REPLY_TIMEOUT_MS && a.value.reply.command == tag
  {
    if |arrivals| == 0 || arrivals[0].delay >= REPLY_TIMEOUT_MS then None
    else if arrivals[0].reply.command == tag then Some(arrivals[0])
    else Answer(arrivals[1..], tag)
  }

  /** Every arrival up to index `k` comes before the reply timeout. */
  predicate OnTime(arrivals: seq<Arrival>, k: nat)
    requires k < |arrivals|
  {
    forall j :: 0 <= j <= k ==> arrivals[j].delay < REPLY_TIMEOUT_MS
  }

  /** The answer by position: the first arrival carrying the tag, all arrivals
      up to it on time; no answer when every arrival carrying the tag has a
      late one at or before it. */
  lemma {:induction false} AnswerIsFirstOnTime(arrivals: seq<Arrival>, tag: string)
    ensures Answer(arrivals, tag).Some? ==>
      exists k :: 0 <= k < |arrivals| && Answer(arrivals, tag).value == arrivals[k] && OnTime(arrivals, k)
        && forall j :: 0 <= j < k ==> arrivals[j].reply.command != tag
    ensures Answer(arrivals, tag).None? ==>
      forall k :: 0 <= k < |arrivals| && arrivals[k].reply.command == tag ==> !OnTime(arrivals, k)
  {
    if |arrivals| > 0 && arrivals[0].delay < REPLY_TIMEOUT_MS && arrivals[0].reply.command != tag {
      var rest := arrivals[1..];
      AnswerIsFirstOnTime(rest, tag);
      if Answer(arrivals, tag).Some? {
        var k :| 0 <= k < |rest| && Answer(rest, tag).value == rest[k] && OnTime(rest, k)
          && forall j :: 0 <= j < k ==> rest[j].reply.command != tag;
        assert arrivals[k + 1] == rest[k];
        assert OnTime(arrivals, k + 1) by {
          forall j | 0 <= j <= k + 1 ensures arrivals[j].delay < REPLY_TIMEOUT_MS {
            if j > 0 { assert arrivals[j] == rest[j - 1]; }
          }
        }
        assert forall j :: 0 <= j < k + 1 ==> arrivals[j].reply.command != tag by {
          forall j | 0 <= j < k + 1 ensures arrivals[j].reply.command != tag {
            if j > 0 { assert arrivals[j] == rest[j - 1]; }
          }
        }
      } else {
        forall k | 0 <= k < |arrivals| && arrivals[k].reply.command == tag
          ensures !OnTime(arrivals, k)
        {
          assert k > 0 && arrivals[k] == rest[k - 1];
          assert !OnTime(rest, k - 1);
          var j :| 0 <= j <= k - 1 && rest[j].delay >= REPLY_TIMEOUT_MS;
          assert arrivals[j + 1] == rest[j];
        }
      }
    } else if |arrivals| > 0 && arrivals[0].delay < REPLY_TIMEOUT_MS {
      assert OnTime(arrivals, 0);
    }
  }

  /** Where the caller resumes: the state once the wait ended and the time
      it waited. */
  datatype Waited = Waited(loadcell: LoadCell, elapsed: nat)

  /** `completion.wait(monotonic() + 0.6)` with a call pending: the reactor
      hands each arriving response to the handler until one completes the
      call or the reply timeout passes. */
  function Await(lc: LoadCell, arrivals: seq<Arrival>): (r: Waited)
    requires lc.active.Some? && lc.active.value.completion.None?
    ensures r.loadcell.supported == lc.supported
    ensures r.loadcell.active.Some? && r.loadcell.active.value.cmd == lc.active.value.cmd
    ensures r.elapsed <= REPLY_TIMEOUT_MS
    ensures lc.active.value.cmd == H7 ==> r.loadcell.lastWeight == lc.lastWeight
    decreases |arrivals|
  {
    if |arrivals| == 0 || arrivals[0].delay >= REPLY_TIMEOUT_MS then Waited(lc, REPLY_TIMEOUT_MS)
    else
      var next := Handle(lc, arrivals[0].reply);
      if next.active.value.completion.Some? then Waited(next, arrivals[0].delay)
      else Await(next, arrivals[1..])
  }

  /** The wait ends with the answer in the completion, at its arrival time,
      or with an empty completion after the full reply timeout. */
  lemma {:induction false} AwaitAnswer(lc: LoadCell, arrivals: seq<Arrival>)
    requires lc.active.Some? && lc.active.value.completion.None?
    ensures var r := Await(lc, arrivals);
      var answer := Answer(arrivals, Tag(lc.active.value.cmd));
      && (answer.None? ==> r.loadcell.active.value.completion.None? && r.elapsed == REPLY_TIMEOUT_MS)
      && (answer.Some? ==> r.loadcell.active.value.completion == Some(answer.value.reply) && r.elapsed == answer.value.delay)
    decreases |arrivals|
  {
    if |arrivals| > 0 && arrivals[0].delay < REPLY_TIMEOUT_MS {
      var next := Handle(lc, arrivals[0].reply);
      if next.active.value.completion.None? {
        AwaitAnswer(next, arrivals[1..]);
      }
    }
  }

  /** While a call waits, the last weight only ever changes to the value of
      an ok `H7` reply that arrived. */
  lemma {:induction false} WeightFromReading(lc: LoadCell, arrivals: seq<Arrival>)
    requires lc.active.Some? && lc.active.value.completion.None?
    ensures var r := Await(lc, arrivals);
      r.loadcell.lastWeight != lc.lastWeight ==>
        exists i :: 0 <= i < |arrivals| && IsReading(arrivals[i].reply) && r.loadcell.lastWeight == arrivals[i].reply.value
    decreases |arrivals|
  {
    if |arrivals| > 0 && arrivals[0].delay < REPLY_TIMEOUT_MS {
      var next := Handle(lc, arrivals[0].reply);
      if next.active.value.completion.None? {
        WeightFromReading(next, arrivals[1..]);
        var r := Await(next, arrivals[1..]);
        if r.loadcell.lastWeight != next.lastWeight {
          var i :| 0 <= i < |arrivals| - 1 && IsReading(arrivals[1..][i].reply) && r.loadcell.lastWeight == arrivals[1..][i].reply.value;
          assert arrivals[i + 1] == arrivals[1..][i];
        }
      }
    }
  }

  datatype CallError =
    | Busy                                                   // another command is in progress
    | NotFound(name: string)                                 // the command was not registered
    | TimedOut(tag: string)                                  // no reply within the reply timeout
    | Remote(command: string, status: string, raw: string)   // the firmware reported a non-ok status

  /** `_handle_mcu_error`: the reply's own command name, else the fallback. */
  function McuError(reply: Reply, fallback: string): (e: CallError)
    ensures e.Remote? && e.status == reply.status && e.raw == reply.raw
    ensures e.command == (if reply.command != "" then reply.command else fallback)
  {
    Remote(if reply.command != "" then reply.command else fallback, reply.status, reply.raw)
  }

  /** The end of a correlated call: state after it, the command transmitted (if
      any), its outcome and the time the caller resumes. */
  datatype Call = Call(loadcell: LoadCell, sent: Option<Command>, outcome: Result<Reply, CallError>, finished: int)

  predicate Resolvable(lc: LoadCell, name: string) {
    name in lc.supported && CommandOf(name).Some?
  }

  /** `_send_and_wait(name)` started at `now`, with the replies that reach the
      device after the command went out. */
  function SendAndWait(lc: LoadCell, name: string, now: int, arrivals: seq<Arrival>): (r: Call)
    ensures r.finished >= now && r.loadcell.supported == lc.supported
    ensures lc.active.Some? ==> r == Call(lc, None, Err(Busy), now)
    ensures lc.active.None? && !Resolvable(lc, name) ==> r == Call(lc, None, Err(NotFound(name)), now)
    ensures lc.active.None? ==> r.loadcell.active.None?
    ensures lc.active.None? && Resolvable(lc, name) ==> r.sent == CommandOf(name)
    ensures r.sent.Some? && r.sent.value == H7 ==> r.loadcell.lastWeight == lc.lastWeight
  {
    if lc.active.Some? then Call(lc, None, Err(Busy), now)
    else if !Resolvable(lc, name) then Call(lc, None, Err(NotFound(name)), now)
    else
      var cmd := CommandOf(name).value;
      var tag := Tag(cmd);
      var waited := Await(lc.(active := Some(Pending(cmd, None))), arrivals);
      var released := waited.loadcell.(active := None);
      match waited.loadcell.active.value.completion
      case None => Call(released, Some(cmd), Err(TimedOut(tag)), now + REPLY_TIMEOUT_MS)
      case Some(reply) =>
        var outcome := if reply.status == "ok" then Ok(reply) else Err(McuError(reply, name));
        Call(released, Some(cmd), outcome, now + waited.elapsed)
  }

  /** What `_send_and_wait(name)` yields when no call is pending: not found
      unless the name is registered and mapped, else a timeout without an
      answer, the answer itself when its status is `ok`, and an error carrying
      the answer's status and raw text otherwise. */
  function Expected(supported: set<string>, name: string, arrivals: seq<Arrival>): Result<Reply, CallError> {
    if name !in supported || CommandOf(name).None? then Err(NotFound(name))
    else
      var tag := Tag(CommandOf(name).value);
      match Answer(arrivals, tag)
      case None => Err(TimedOut(tag))
      case Some(a) =>
        if a.reply.status == "ok" then Ok(a.reply) else Err(Remote(tag, a.reply.status, a.reply.raw))
  }

  /** A call from the idle state ends as `Expected` says, when the answer
      arrives or after the full reply timeout. */
  lemma CallOutcome(lc: LoadCell, name: string, now: int, arrivals: seq<Arrival>)
    ensures var r := SendAndWait(lc, name, now, arrivals);
      lc.active.None? ==> r.outcome == Expected(lc.supported, name, arrivals)
    ensures var r := SendAndWait(lc, name, now, arrivals);
      r.sent.Some? ==>
        var answer := Answer(arrivals, Tag(r.sent.value));
        r.finished == now + (if answer.None? then REPLY_TIMEOUT_MS else answer.value.delay)
  {
    if lc.active.None? && Resolvable(lc, name) {
      AwaitAnswer(lc.(active := Some(Pending(CommandOf(name).value, None))), arrivals);
    }
  }

  /** The outcome of a call depends on the registry and the replies, not on
      the last weight or the start time (which only shifts `finished`). */
  lemma CallIgnoresWeightAndTime(lc: LoadCell, lc': LoadCell, name: string, now: int, now': int, arrivals: seq<Arrival>)
    requires lc.active.None? && lc'.active.None? && lc.supported == lc'.supported
    ensures SendAndWait(lc, name, now, arrivals).outcome == SendAndWait(lc', name, now', arrivals).outcome
    ensures SendAndWait(lc, name, now, arrivals).finished - now == SendAndWait(lc', name, now', arrivals).finished - now'
  {
    if Resolvable(lc, name) {
      var pending := Some(Pending(CommandOf(name).value, None));
      AwaitAnswer(lc.(active := pending), arrivals);
      AwaitAnswer(lc'.(active := pending), arrivals);
    }
  }

  /** A late reply, or any reply while nothing is pending, is an unsolicited
      sample: it updates the weight exactly when it is an ok `H7` reply. */
  lemma UnsolicitedReply(lc: LoadCell, p: Params)
    requires lc.active.None?
    ensures HandleReply(lc, p).active.None?
    ensures HandleReply(lc, p).lastWeight ==
      if IsReading(DecodeReply(p)) then DecodeReply(p).value else lc.lastWeight
  {
  }

  // --------------------------------------------------------- weight query

  datatype WeightCall = WeightCall(loadcell: LoadCell, outcome: Result<int, CallError>, finished: int)

  /** `cmd_GET_LOAD_CELL_WEIGHT`: a correlated `H7` whose value becomes the last weight. */
  function GetWeight(lc: LoadCell, now: int, arrivals: seq<Arrival>): (r: WeightCall)
    ensures lc.active.None? ==> r.loadcell.active.None?
    ensures r.loadcell.supported == lc.supported
    ensures r.outcome.Ok? ==>
      && r.loadcell.lastWeight == r.outcome.value
      && Answer(arrivals, "H7").Some?
      && IsReading(Answer(arrivals, "H7").value.reply)
      && r.outcome.value == Answer(arrivals, "H7").value.reply.value
    ensures r.outcome.Err? ==> r.loadcell.lastWeight == lc.lastWeight
    ensures lc.active.None? && CMD_H7 in lc.supported && Answer(arrivals, "H7").Some? && IsReading(Answer(arrivals, "H7").value.reply)
      ==> r.outcome.Ok?
  {
    CallOutcome(lc, CMD_H7, now, arrivals);
    var call := SendAndWait(lc, CMD_H7, now, arrivals);
    match call.outcome
    case Ok(reply) => WeightCall(call.loadcell.(lastWeight := reply.value), Ok(reply.value), call.finished)
    case Err(e) => WeightCall(call.loadcell, Err(e), call.finished)
  }

  // ------------------------------------------------------------------ tare

  function Abs(x: int): nat {
    if x < 0 then -x else x
  }

  /** The replies to one tare attempt's `H1` and `H7` calls. */
  datatype TareStep = TareStep(arm: seq<Arrival>, read: seq<Arrival>)

  datatype TareOutcome = Tared(weight: int) | StepFailed(error: CallError) | TareTimedOut

  /** How a tare ends: state, outcome, attempts started, and the clock then. */
  datatype TareRun = TareRun(loadcell: LoadCell, outcome: TareOutcome, attempts: nat, clock: int)

  /** The replies of attempt `i`; an attempt the script does not cover gets none. */
  function StepAt(script: seq<TareStep>, i: nat): TareStep {
    if i < |script| then script[i] else TareStep([], [])
  }

  /** One pass of the tare loop body: `H1`, then `H7` once `H1` succeeded. */
  datatype AttemptEnd = AttemptEnd(loadcell: LoadCell, reading: Result<int, CallError>, finished: int)

  function TareAttempt(lc: LoadCell, now: int, step: TareStep): (r: AttemptEnd)
    ensures r.finished >= now && r.loadcell.supported == lc.supported
    ensures lc.active.None? ==> r.loadcell.active.None? && r.reading == Reading(lc.supported, step)
    ensures lc.active.Some? ==> r == AttemptEnd(lc, Err(Busy), now)
  {
    CallOutcome(lc, CMD_H1, now, step.arm);
    var arm := SendAndWait(lc, CMD_H1, now, step.arm);
    if arm.outcome.Err? then AttemptEnd(arm.loadcell, Err(arm.outcome.error), arm.finished)
    else
      CallOutcome(arm.loadcell, CMD_H7, arm.finished, step.read);
      var read := SendAndWait(arm.loadcell, CMD_H7, arm.finished, step.read);
      AttemptEnd(read.loadcell, if read.outcome.Err? then Err(read.outcome.error) else Ok(read.outcome.value.value),
                 read.finished)
  }

  /** What one attempt reads when no call is pending: the `H7` value, or the
      error of the first failing call. */
  function Reading(supported: set<string>, step: TareStep): Result<int, CallError> {
    match Expected(supported, CMD_H1, step.arm)
    case Err(e) => Err(e)
    case Ok(_) =>
      match Expected(supported, CMD_H7, step.read)
      case Err(e) => Err(e)
      case Ok(reply) => Ok(reply.value)
  }

  /** An attempt that reads a value outside the threshold: the loop retries. */
  predicate Retries(supported: set<string>, step: TareStep, threshold: nat) {
    Reading(supported, step).Ok? && Abs(Reading(supported, step).value) > threshold
  }

  /** The body of the tare loop, as the loop relies on it: it keeps the
      registry, takes time and leaves no call pending, or reports `Busy`
      untouched when a call is already pending. */
  ghost predicate AttemptKeeps(attempt: (LoadCell, int, TareStep) -> AttemptEnd) {
    forall lc: LoadCell, now: int, step: TareStep ::
      && attempt(lc, now, step).finished >= now
      && attempt(lc, now, step).loadcell.supported == lc.supported
      && (lc.active.None? ==> attempt(lc, now, step).loadcell.active.None?)
      && (lc.active.Some? ==> attempt(lc, now, step) == AttemptEnd(lc, Err(Busy), now))
  }

  /** From the idle state the body reads what `readOf` says of the step. */
  ghost predicate AttemptReads(attempt: (LoadCell, int, TareStep) -> AttemptEnd,
                               readOf: (set<string>, TareStep) -> Result<int, CallError>) {
    forall lc: LoadCell, now: int, step: TareStep ::
      lc.active.None? ==> attempt(lc, now, step).reading == readOf(lc.supported, step)
  }

  /** `TareAttempt` is such a body ... */
  lemma TareAttemptKeeps()
    ensures AttemptKeeps(TareAttempt)
  {
  }

  /** ... and it reads `Reading`. */
  lemma TareAttemptReads()
    ensures AttemptReads(TareAttempt, Reading)
  {
  }

  /** `cmd_LOAD_CELL_TARE` started at `now` with the configured threshold and timeout. */
  function Tare(lc: LoadCell, threshold: nat, timeout: nat, now: int, script: seq<TareStep>): (r: TareRun)
    ensures lc.active.None? ==> r.loadcell.active.None?
    ensures r.loadcell.supported == lc.supported
    ensures r.outcome.Tared? ==> Abs(r.outcome.weight) <= threshold
    ensures r.attempts == 0 || (r.attempts - 1) * 200 < timeout
    ensures r.outcome.TareTimedOut? ==> r.clock >= now + timeout
    ensures lc.active.Some? && timeout > 0 ==> r.outcome == StepFailed(Busy) && r.loadcell == lc
  {
    TareAttemptKeeps();
    TareLoopBound(TareAttempt, lc, threshold, now + timeout, now, script, 0);
    TareLoop(TareAttempt, lc, threshold, now + timeout, now, script, 0)
  }

  /** The `while monotonic() < deadline` loop from attempt `i` on, the clock
      reading `now`, each pass running `attempt`. */
  function TareLoop(attempt: (LoadCell, int, TareStep) -> AttemptEnd, lc: LoadCell, threshold: nat, deadline: int,
                    now: int, script: seq<TareStep>, i: nat): (r: TareRun)
    requires AttemptKeeps(attempt)
    requires lc.active.None? || i == 0
    ensures lc.active.None? ==> r.loadcell.active.None?
    ensures r.loadcell.supported == lc.supported
    ensures r.attempts >= i
    ensures r.outcome.Tared? ==> Abs(r.outcome.weight) <= threshold
    ensures r.outcome.TareTimedOut? ==> r.clock >= deadline
    ensures lc.active.Some? && now < deadline ==> r.outcome == StepFailed(Busy) && r.loadcell == lc
    decreases deadline - now
  {
    if now >= deadline then TareRun(lc, TareTimedOut, i, now)
    else
      var a := attempt(lc, now, StepAt(script, i));
      match a.reading
      case Err(e) => TareRun(a.loadcell, StepFailed(e), i + 1, a.finished)
      case Ok(w) =>
        if Abs(w) <= threshold then TareRun(a.loadcell, Tared(w), i + 1, a.finished)
        else TareLoop(attempt, a.loadcell, threshold, deadline, a.finished + TARE_RETRY_DELAY_MS, script, i + 1)
  }

  /** Every attempt but the first starts at least the retry delay after the
      previous one, and only before the deadline: the number of attempts is
      bounded by the timeout. */
  lemma {:induction false} TareLoopBound(attempt: (LoadCell, int, TareStep) -> AttemptEnd, lc: LoadCell, threshold: nat,
                                         deadline: int, now: int, script: seq<TareStep>, i: nat)
    requires AttemptKeeps(attempt)
    requires lc.active.None? || i == 0
    ensures var r := TareLoop(attempt, lc, threshold, deadline, now, script, i);
      r.attempts > i ==> now + (r.attempts - 1 - i) * 200 < deadline
    decreases deadline - now
  {
    if now < deadline {
      var a := attempt(lc, now, StepAt(script, i));
      if a.reading.Ok? && Abs(a.reading.value) > threshold {
        TareLoopBound(attempt, a.loadcell, threshold, deadline, a.finished + TARE_RETRY_DELAY_MS, script, i + 1);
      }
    }
  }

  /** Attempt `j` of a tare that went on past it, or that ran out of time,
      read a value outside the threshold. */
  lemma TareRetried(lc: LoadCell, threshold: nat, timeout: nat, now: int, script: seq<TareStep>, j: nat)
    requires lc.active.None?
    requires var r := Tare(lc, threshold, timeout, now, script);
      j < r.attempts - 1 || (r.outcome.TareTimedOut? && j < r.attempts)
    ensures Retries(lc.supported, StepAt(script, j), threshold)
  {
    TareAttemptKeeps();
    TareAttemptReads();
    LoopRetried(TareAttempt, Reading, lc, threshold, now + timeout, now, script, 0, j);
  }

  lemma {:induction false} LoopRetried(attempt: (LoadCell, int, TareStep) -> AttemptEnd,
                                       readOf: (set<string>, TareStep) -> Result<int, CallError>, lc: LoadCell,
                                       threshold: nat, deadline: int, now: int, script: seq<TareStep>, i: nat, j: nat)
    requires AttemptKeeps(attempt) && AttemptReads(attempt, readOf)
    requires lc.active.None? && i <= j
    requires var r := TareLoop(attempt, lc, threshold, deadline, now, script, i);
      j < r.attempts - 1 || (r.outcome.TareTimedOut? && j < r.attempts)
    ensures readOf(lc.supported, StepAt(script, j)).Ok? && Abs(readOf(lc.supported, StepAt(script, j)).value) > threshold
    decreases deadline - now
  {
    var a := attempt(lc, now, StepAt(script, i));
    if j > i {
      LoopRetried(attempt, readOf, a.loadcell, threshold, deadline, a.finished + TARE_RETRY_DELAY_MS, script, i + 1, j);
    }
  }

  /** The last attempt decides: a tare that succeeded read its weight there,
      and one that failed got its error there, by what `readOf` says of its
      step. */
  predicate DecidedAt(readOf: (set<string>, TareStep) -> Result<int, CallError>, supported: set<string>,
                      script: seq<TareStep>, r: TareRun, i: nat) {
    r.outcome.Tared? || r.outcome.StepFailed? ==>
      && r.attempts > i
      && readOf(supported, StepAt(script, r.attempts - 1)) ==
         (if r.outcome.Tared? then Ok(r.outcome.weight) else Err(r.outcome.error))
  }

  lemma TareLastReading(lc: LoadCell, threshold: nat, timeout: nat, now: int, script: seq<TareStep>)
    requires lc.active.None?
    ensures DecidedAt(Reading, lc.supported, script, Tare(lc, threshold, timeout, now, script), 0)
  {
    AttemptLastReading(lc, threshold, now + timeout, now, script);
  }

  lemma AttemptLastReading(lc: LoadCell, threshold: nat, deadline: int, now: int, script: seq<TareStep>)
    requires lc.active.None?
    ensures DecidedAt(Reading, lc.supported, script, TareLoop(TareAttempt, lc, threshold, deadline, now, script, 0), 0)
  {
    TareAttemptKeeps();
    TareAttemptReads();
    LoopLastReading(TareAttempt, Reading, lc, threshold, deadline, now, script, 0);
  }

  lemma {:induction false} LoopLastReading(attempt: (LoadCell, int, TareStep) -> AttemptEnd,
                                           readOf: (set<string>, TareStep) -> Result<int, CallError>, lc: LoadCell,
                                           threshold: nat, deadline: int, now: int, script: seq<TareStep>, i: nat)
    requires AttemptKeeps(attempt) && AttemptReads(attempt, readOf)
    requires lc.active.None?
    ensures DecidedAt(readOf, lc.supported, script, TareLoop(attempt, lc, threshold, deadline, now, script, i), i)
    decreases deadline - now
  {
    if now < deadline {
      var a := attempt(lc, now, StepAt(script, i));
      if a.reading.Ok? && Abs(a.reading.value) > threshold {
        LoopLastReading(attempt, readOf, a.loadcell, threshold, deadline, a.finished + TARE_RETRY_DELAY_MS, script, i + 1);
      }
    }
  }
}
