/** The host side of the air-quality sensor: each `flashforge_tvoc_response`
    replaces the readings kept, which the status and the temperature-sensor
    interface then report. */
module TvocHost {
  import opened Results
  import opened HostParams
  import TvocScan
  import TvocFirmware

  /** `REPORT_TIME`, 0.5 s, in milliseconds. */
  const REPORT_TIME_MS: nat := 500

  /** The four `last_*` fields: status text and the three concentrations. */
  datatype Reading = Reading(status: string, tvoc: int, co2: int, hcho: int)

  /** `params.get(key, 0)`: a missing key reads as the integer 0. */
  function GetOrZero(p: Params, key: string): Field {
    if key in p then p[key] else Int(0)
  }

  /** `MCUResponse`: the status falls back to 'unknown'; the three numbers
      are converted one after another, and if any conversion raises, all
      three are 0. */
  function DecodeResponse(p: Params): (r: Reading)
    ensures Get(p, "status") == Null ==> r.status == "unknown"
    ensures (PyInt(GetOrZero(p, "tvoc")).Some? && PyInt(GetOrZero(p, "co2")).Some?
             && PyInt(GetOrZero(p, "hcho")).Some?)
            ==> r.tvoc == PyInt(GetOrZero(p, "tvoc")).value
                && r.co2 == PyInt(GetOrZero(p, "co2")).value
                && r.hcho == PyInt(GetOrZero(p, "hcho")).value
    ensures (PyInt(GetOrZero(p, "tvoc")).None? || PyInt(GetOrZero(p, "co2")).None?
             || PyInt(GetOrZero(p, "hcho")).None?)
            ==> r.tvoc == r.co2 == r.hcho == 0
  {
    var status := DecodeText(Get(p, "status"), "unknown");
    match PyInt(GetOrZero(p, "tvoc"))
    case None => Reading(status, 0, 0, 0)
    case Some(tvoc) =>
      match PyInt(GetOrZero(p, "co2"))
      case None => Reading(status, 0, 0, 0)
      case Some(co2) =>
        match PyInt(GetOrZero(p, "hcho"))
        case None => Reading(status, 0, 0, 0)
        case Some(hcho) => Reading(status, tvoc, co2, hcho)
  }

  /** The parameters of a firmware report as `sendf` delivers them: the
      reading as an int, the status as bytes. No other field is sent. */
  function WireParams(r: TvocFirmware.Report): Params {
    map["tvoc" := Int(r.tvoc), "status" := Bytes(Some(r.status))]
  }

  /** Every report decodes to what the firmware sent, and the two
      concentrations it never sends read as 0. */
  lemma DecodeWireParams(r: TvocFirmware.Report)
    ensures DecodeResponse(WireParams(r)) == Reading(r.status, r.tvoc, 0, 0)
  {
    assert GetOrZero(WireParams(r), "co2") == Int(0);
    assert GetOrZero(WireParams(r), "hcho") == Int(0);
  }

  /** A value present but of no convertible type zeroes all three numbers,
      the ones already converted included. */
  lemma UnconvertibleZeroesAll(p: Params, key: string)
    requires key in {"tvoc", "co2", "hcho"} && key in p && p[key] == Null
    ensures DecodeResponse(p).tvoc == DecodeResponse(p).co2 == DecodeResponse(p).hcho == 0
  {
    assert PyInt(GetOrZero(p, key)).None?;
  }

  datatype TvocState = TvocState(last: Reading)

  /** `FlashforgeTVOC.__init__`. */
  const Initial: TvocState := TvocState(Reading("unknown", 0, 0, 0))

  /** `_handle_tvoc_response`: all four fields are replaced, whatever the
      status. */
  function Handle(h: TvocState, p: Params): (h': TvocState)
    ensures h'.last.status == DecodeText(Get(p, "status"), "unknown")
  {
    TvocState(DecodeResponse(p))
  }

  /** Responses handled in the order they arrive. */
  function HandleAll(h: TvocState, ps: seq<Params>): TvocState
    decreases |ps|
  {
    if |ps| == 0 then h else HandleAll(Handle(h, ps[0]), ps[1..])
  }

  /** The state after a run of responses is the last response's reading
      alone: nothing from earlier responses or the initial state survives. */
  lemma {:induction false} LastResponseWins(h: TvocState, ps: seq<Params>)
    requires |ps| > 0
    decreases |ps|
    ensures HandleAll(h, ps) == TvocState(DecodeResponse(ps[|ps| - 1]))
  {
    if |ps| > 1 {
      LastResponseWins(Handle(h, ps[0]), ps[1..]);
    }
  }

  /** The firmware's checksum-error report sets the host's reading to 0,
      although the firmware itself keeps its last good reading. */
  lemma ChecksumErrorClearsReading(h: TvocState)
    ensures Handle(h, WireParams(TvocFirmware.ReportOf(TvocScan.ChecksumError))).last
            == Reading("checksum_error", 0, 0, 0)
  {
    DecodeWireParams(TvocFirmware.ReportOf(TvocScan.ChecksumError));
  }

  /** A status entry: a number or a text. */
  datatype StatusValue = Number(n: int) | Text(s: string)

  /** `FlashforgeTVOC.get_status`. */
  function Status(h: TvocState): (m: map<string, StatusValue>)
    ensures m.Keys == {"tvoc", "co2", "hcho", "status"}
    ensures m["tvoc"] == Number(h.last.tvoc) && m["co2"] == Number(h.last.co2)
    ensures m["hcho"] == Number(h.last.hcho) && m["status"] == Text(h.last.status)
  {
    map["tvoc" := Number(h.last.tvoc), "co2" := Number(h.last.co2),
        "hcho" := Number(h.last.hcho), "status" := Text(h.last.status)]
  }

  /** `TVOCSensor.get_temp`: the TVOC reading stands in as the current
      temperature, with target 0. */
  function Temperature(h: TvocState): (t: (int, int))
    ensures t.0 == h.last.tvoc && t.1 == 0
  {
    (h.last.tvoc, 0)
  }

  /** `TVOCSensor.get_status`: the device status with a `temperature` entry
      equal to the TVOC reading. */
  function SensorStatus(h: TvocState): (m: map<string, StatusValue>)
    ensures m.Keys == Status(h).Keys + {"temperature"}
    ensures m["temperature"] == Number(Temperature(h).0)
    ensures forall k :: k in Status(h) ==> m[k] == Status(h)[k]
  {
    map["temperature" := Number(h.last.tvoc)] + Status(h)
  }

  /** What the host shows after a firmware report: the status and the
      temperature interface carry the report's reading and status, and the
      two concentrations the firmware never sends read 0. */
  lemma StatusAfterReport(h: TvocState, r: TvocFirmware.Report)
    ensures var h' := Handle(h, WireParams(r));
      && Status(h') == map["tvoc" := Number(r.tvoc), "co2" := Number(0),
                           "hcho" := Number(0), "status" := Text(r.status)]
      && SensorStatus(h')["temperature"] == Number(r.tvoc)
      && Temperature(h') == (r.tvoc, 0)
  {
    DecodeWireParams(r);
  }

  /** One `_sample` timer run. */
  datatype Sampled = Sampled(reported: Option<int>, wake: int)

  /** `_sample`: the callback, when one is set, gets the TVOC reading, and
      the timer fires again `REPORT_TIME` after the time measured. */
  function Sample(h: TvocState, hasCallback: bool, measured: int): (s: Sampled)
    ensures s.wake == measured + REPORT_TIME_MS
    ensures s.reported.Some? <==> hasCallback
    ensures s.reported.Some? ==> s.reported.value == Temperature(h).0
  {
    Sampled(if hasCallback then Some(h.last.tvoc) else None, measured + REPORT_TIME_MS)
  }
}
