/** The firmware side of the load cell: a UART bridge between the host and
    the sensor. Host commands wait in a six-slot queue; one at a time is
    written to the transmit ring, and the reply line collected in the
    receive ring is turned into a `flashforge_loadcell_response` message.
    The interrupt handler, the task and the command handlers are functions
    over one `Bridge` state; the 32-bit timer reading is a parameter. */
module LoadCellBridge {
  import opened Results
  import opened Ring
  import opened BridgeText
  import Decimal

  const RXBUF_SIZE: nat := 64
  const TXBUF_SIZE: nat := 64
  const CMD_QUEUE_SIZE: nat := 6
  /** `cmd_name[16]` and `last_cmd_name[16]` keep at most 15 characters. */
  const NAME_MAX: nat := 15
  /** `cmd_data[32]`. */
  const DATA_SIZE: nat := 32

  // ----------------------------------------------------------------- timer

  const WORD: nat := 0x1_0000_0000
  const HALF: nat := 0x8000_0000

  /** A reading of the 32-bit system timer. */
  type Time = t: nat | t < WORD

  /** Timer ticks per microsecond. The clock frequency comes from the board
      configuration; 72 MHz is the STM32F103 rate. */
  const TICKS_PER_US: nat := 72
  /** `timer_from_us(500000)`. */
  const CMD_TIMEOUT: nat := 500000 * TICKS_PER_US

  /** `timer_is_before(t1, t2)`: the 32-bit difference, read as a signed
      number, is negative. */
  predicate TimerIsBefore(t1: Time, t2: Time) {
    (t1 - t2) % WORD >= HALF
  }

  /** Ticks from `since` to `now`, modulo the timer's wrap-around. */
  function Elapsed(since: Time, now: Time): (d: nat)
    ensures d < WORD
    ensures (since + d) % WORD == now
  {
    var d := (now - since) % WORD;
    assert since + d == now + (if now >= since then 0 else WORD);
    d
  }

  /** The deadline test of the task: the command has timed out exactly when
      more than the timeout, and at most half the timer range beyond it, has
      elapsed since it was sent. Later than that the signed comparison wraps
      and the command looks fresh again. */
  lemma TimeoutWindow(sent: Time, now: Time, limit: nat)
    requires limit < HALF
    ensures TimerIsBefore((sent + limit) % WORD, now) <==>
      limit < Elapsed(sent, now) <= limit + HALF
  {
    var d := Elapsed(sent, now);
    var t1 := (sent + limit) % WORD;
    assert (t1 - now) % WORD == (limit - d) % WORD by {
      assert sent + d == now + WORD * ((sent + d) / WORD);
      assert sent + limit == t1 + WORD * ((sent + limit) / WORD);
      ModShift(t1 - now, limit - d, (sent + limit) / WORD - (sent + d) / WORD);
    }
    if d <= limit {
      assert (limit - d) % WORD == limit - d;
    } else if d <= limit + HALF {
      assert (limit - d) % WORD == limit - d + WORD;
    } else {
      assert (limit - d) % WORD == limit - d + WORD;
    }
  }

  lemma ModShift(x: int, y: int, k: int)
    requires x == y - WORD * k
    ensures x % WORD == y % WORD
  {
    assert x + WORD * k == y;
  }

  // ----------------------------------------------------------------- state

  /** One `queued_cmd` slot: the name the reply is reported under and the
      bytes to transmit. */
  datatype Slot = Slot(name: seq<char>, data: seq<char>)

  datatype Phase = Idle | CmdSent

  datatype Bridge = Bridge(
    queue: Ring<Slot>,    // cmd_queue with cmdq_head / cmdq_tail
    rx: Ring<char>,       // bytes from the sensor
    tx: Ring<char>,       // bytes to the sensor
    phase: Phase,
    lastCmd: seq<char>,   // name of the command awaiting its reply
    sentAt: Time,         // timer reading when it was transmitted
    lineReady: bool,      // a '\n' arrived since the last line was processed
    rxOverflow: bool,     // a byte was lost to a full receive ring
    woken: bool)          // the task's wake flag

  /** A `flashforge_loadcell_response` message to the host. */
  datatype Response = Response(status: string, command: string, value: int, raw: string)

  /** A state and the messages sent while reaching it. */
  datatype Out = Out(bridge: Bridge, sent: seq<Response>)

  /** A C string as `strncpy` into a 16-byte field leaves it. */
  predicate IsName(s: seq<char>) {
    |s| <= NAME_MAX && NUL !in s
  }

  predicate SlotOk(s: Slot) {
    IsName(s.name) && |s.data| <= DATA_SIZE
  }

  /** The invariant every operation keeps: the buffers have their sizes,
      the names fit their fields and no slot holds more than 32 data bytes. */
  predicate WellFormed(b: Bridge) {
    && Valid(b.queue) && |b.queue.buf| == CMD_QUEUE_SIZE
    && Valid(b.rx) && |b.rx.buf| == RXBUF_SIZE
    && Valid(b.tx) && |b.tx.buf| == TXBUF_SIZE
    && (forall i :: 0 <= i < |b.queue.buf| ==> SlotOk(b.queue.buf[i]))
    && IsName(b.lastCmd)
  }

  /** The state `flashforge_loadcell_init` and the zeroed statics give. */
  function Init(): (b: Bridge)
    ensures WellFormed(b) && b.phase == Idle
    ensures Contents(b.queue) == [] && Contents(b.rx) == [] && Contents(b.tx) == []
  {
    Bridge(Empty(CMD_QUEUE_SIZE, Slot([], [])), Empty(RXBUF_SIZE, NUL), Empty(TXBUF_SIZE, NUL),
           Idle, [], 0, false, false, false)
  }

  /** `strncpy(dst, src, 15)` followed by `dst[15] = '\0'`, read back as a C string. */
  function CopyName(name: seq<char>): (c: seq<char>)
    ensures IsName(c)
    ensures NUL !in name && |name| <= NAME_MAX ==> c == name
  {
    Truncate(CStr(name), NAME_MAX)
  }

  // -------------------------------------------------------------- transmit

  /** `flashforge_loadcell_send`: bytes are appended until the ring is full;
      the rest of the data is dropped. */
  function Transmit(tx: Ring<char>, data: seq<char>): (tx': Ring<char>)
    requires Valid(tx)
    ensures Valid(tx') && |tx'.buf| == |tx.buf|
    decreases |data|
  {
    if |data| == 0 || Full(tx) then tx else Transmit(Push(tx, data[0]), data[1..])
  }

  function Min(a: nat, b: nat): nat {
    if a <= b then a else b
  }

  /** What is transmitted is the longest prefix of the data that fits in the
      ring's free space. */
  lemma {:induction false} TransmitAppends(tx: Ring<char>, data: seq<char>)
    requires Valid(tx)
    ensures Contents(Transmit(tx, data)) ==
      Contents(tx) + data[..Min(|data|, |tx.buf| - 1 - Count(tx))]
    decreases |data|
  {
    FullIffCount(tx);
    if |data| == 0 || Full(tx) {
    } else {
      var tx1 := Push(tx, data[0]);
      TransmitAppends(tx1, data[1..]);
      var k := Min(|data|, |tx.buf| - 1 - Count(tx));
      assert Count(tx1) == Count(tx) + 1 && |tx1.buf| == |tx.buf|;
      assert Min(|data[1..]|, |tx1.buf| - 1 - Count(tx1)) == k - 1;
      assert data[1..][..k - 1] == data[1..k];
      assert Contents(tx) + [data[0]] + data[1..k] == Contents(tx) + data[..k];
    }
  }

  /** The transmit interrupt: the oldest pending byte goes to the UART. */
  function TxByte(b: Bridge): (r: (Bridge, Option<char>))
    requires WellFormed(b)
    ensures WellFormed(r.0)
    ensures Count(b.tx) == 0 ==> r == (b, None)
    ensures Count(b.tx) > 0 ==> r.1 == Some(Contents(b.tx)[0]) && Contents(r.0.tx) == Contents(b.tx)[1..]
  {
    if Count(b.tx) == 0 then (b, None)
    else (b.(tx := Pop(b.tx)), Some(Front(b.tx)))
  }

  // ----------------------------------------------------------------- queue

  /** `enqueue_flashforge_command`: a full queue rejects the command with an
      error message; otherwise the command joins the back of the queue. The
      data kept is at most the 32 bytes the slot holds (see
      `BridgeLayout` for the copy as the source writes it). */
  function Enqueue(b: Bridge, name: seq<char>, data: seq<char>): (o: Out)
    requires WellFormed(b)
    ensures WellFormed(o.bridge)
    ensures Full(b.queue) ==>
      o == Out(b, [Response("error", CStr(name), 0, "MCU command queue overflow")])
    ensures !Full(b.queue) ==>
      && o.sent == []
      && o.bridge == b.(queue := o.bridge.queue)
      && Contents(o.bridge.queue) == Contents(b.queue) + [Slot(CopyName(name), Truncate(data, DATA_SIZE))]
  {
    if Full(b.queue) then
      Out(b, [Response("error", CStr(name), 0, "MCU command queue overflow")])
    else
      var slot := Slot(CopyName(name), Truncate(data, DATA_SIZE));
      var q := Push(b.queue, slot);
      Out(b.(queue := q), [])
  }

  /** `try_send_next_queued_command`: only while no reply is awaited, the
      oldest queued command is transmitted and becomes the one awaited. */
  function TrySendNext(b: Bridge, now: Time): (b': Bridge)
    requires WellFormed(b)
    ensures WellFormed(b')
    ensures b.phase == CmdSent || Count(b.queue) == 0 ==> b' == b
    ensures b.phase == Idle && Count(b.queue) > 0 ==>
      var next := Contents(b.queue)[0];
      && b'.phase == CmdSent && b'.sentAt == now
      && b'.lastCmd == next.name
      && Contents(b'.queue) == Contents(b.queue)[1..]
      && b'.tx == Transmit(b.tx, next.data)
      && b'.rx == b.rx && b'.lineReady == b.lineReady
      && b'.rxOverflow == b.rxOverflow && b'.woken == b.woken
  {
    if b.phase == Idle && Count(b.queue) > 0 then
      var slot := Front(b.queue);
      b.(phase := CmdSent, lastCmd := CopyName(slot.name), sentAt := now,
         tx := Transmit(b.tx, slot.data), queue := Pop(b.queue))
    else b
  }

  /** `send_flashforge_command`: enqueue, then try to transmit. */
  function Send(b: Bridge, name: seq<char>, data: seq<char>, now: Time): (o: Out)
    requires WellFormed(b)
    ensures WellFormed(o.bridge)
  {
    var e := Enqueue(b, name, data);
    Out(TrySendNext(e.bridge, now), e.sent)
  }

  /** Commands leave the queue in the order they entered it: with the
      bridge idle and the queue empty, a command sent is transmitted at
      once; with a reply outstanding, it waits behind the ones queued. */
  lemma SendOrder(b: Bridge, name: seq<char>, data: seq<char>, now: Time)
    requires WellFormed(b) && !Full(b.queue)
    ensures b.phase == Idle && Count(b.queue) == 0 ==>
      var o := Send(b, name, data, now);
      && o.bridge.phase == CmdSent && o.bridge.lastCmd == CopyName(name) && o.bridge.sentAt == now
      && o.bridge.woken == b.woken && o.bridge.rxOverflow == b.rxOverflow
      && o.bridge.tx == Transmit(b.tx, Truncate(data, DATA_SIZE))
      && Contents(o.bridge.queue) == [] && o.sent == []
    ensures b.phase == CmdSent ==>
      var o := Send(b, name, data, now);
      && o.bridge.phase == CmdSent && o.bridge.lastCmd == b.lastCmd && o.bridge.tx == b.tx
      && Contents(o.bridge.queue) == Contents(b.queue) + [Slot(CopyName(name), Truncate(data, DATA_SIZE))]
  {
  }

  // -------------------------------------------------------------- commands

  /** The payloads of the fixed commands, as `sizeof(...) - 1` bytes. */
  const H1_DATA: seq<char> := "H1 " + [NUL, NUL, NUL, NUL, NUL, NUL, NUL]
  const H7_DATA: seq<char> := "H7 " + [NUL, NUL, NUL, NUL, NUL, NUL, NUL]
  const H3_DATA: seq<char> := "H3 S200 " + [NUL, NUL]

  /** The command handlers: H1 tare, H2 calibrate, H3 save, H7 read weight
      and the raw test command. */
  datatype Request = TareReq | CalibrateReq(weight: Time) | SaveReq | WeightReq | TestReq(payload: seq<char>)

  function RequestName(q: Request): string {
    match q
    case TareReq => "H1"
    case CalibrateReq(_) => "H2"
    case SaveReq => "H3"
    case WeightReq => "H7"
    case TestReq(_) => "TEST"
  }

  /** The bytes a handler queues. */
  function RequestData(q: Request): (d: seq<char>)
    ensures q.CalibrateReq? ==> d == H2Text(q.weight)
    ensures !q.TestReq? ==> |d| <= DATA_SIZE
  {
    match q
    case TareReq => H1_DATA
    case CalibrateReq(w) =>
      DigitsOfWord(w);
      H2Text(w)
    case SaveReq => H3_DATA
    case WeightReq => H7_DATA
    case TestReq(p) => p
  }

  function Handle(b: Bridge, q: Request, now: Time): (o: Out)
    requires WellFormed(b)
    ensures WellFormed(o.bridge)
  {
    Send(b, RequestName(q), RequestData(q), now)
  }

  /** An idle bridge with nothing queued puts a fixed command's whole payload
      on the wire, and the H2 payload is the decimal weight after "H2 S". */
  lemma CommandBytes(b: Bridge, q: Request, now: Time)
    requires WellFormed(b) && b.phase == Idle && Count(b.queue) == 0 && Count(b.tx) == 0
    requires !q.TestReq?
    ensures var o := Handle(b, q, now);
      && o.sent == [] && o.bridge.phase == CmdSent && o.bridge.lastCmd == RequestName(q)
      && Contents(o.bridge.tx) == RequestData(q)
    ensures q.CalibrateReq? ==> Decimal.Value(RequestData(q)[4..]) == q.weight
  {
    var d := RequestData(q);
    FullIffCount(b.queue);
    SendOrder(b, RequestName(q), d, now);
    assert CopyName(RequestName(q)) == RequestName(q);
    assert Truncate(d, DATA_SIZE) == d;
    TransmitAppends(b.tx, d);
    assert d[..Min(|d|, |b.tx.buf| - 1 - Count(b.tx))] == d;
    if q.CalibrateReq? {
      Decimal.ValueOfDigits(q.weight);
      assert RequestData(q)[4..] == Decimal.Digits(q.weight);
    }
  }

  // --------------------------------------------------------------- receive

  /** The receive interrupt for one byte: kept when the ring has room, with
      a wake-up on '\n'; dropped otherwise, flagging the overflow with a
      wake-up. */
  function RxByte(b: Bridge, d: char): (b': Bridge)
    requires WellFormed(b)
    ensures WellFormed(b')
    ensures !Full(b.rx) ==> Contents(b'.rx) == Contents(b.rx) + [d] && b'.rxOverflow == b.rxOverflow
    ensures Full(b.rx) ==> b'.rx == b.rx && b'.rxOverflow
    ensures b'.woken <==> b.woken || d == '\n' || Full(b.rx)
    ensures b'.lineReady <==> b.lineReady || (d == '\n' && !Full(b.rx))
    ensures b'.phase == b.phase && b'.queue == b.queue && b'.tx == b.tx
  {
    if !Full(b.rx) then
      var b1 := b.(rx := Push(b.rx, d));
      if d == '\n' then b1.(lineReady := true, woken := true) else b1
    else b.(rxOverflow := true, woken := true)
  }

  /** The loop of `process_received_line` over the receive ring: from
      `tail` up to `head`, line breaks skipped, at most 63 bytes kept. */
  method ExtractLine(rx: Ring<char>) returns (line: seq<char>)
    requires Valid(rx)
    ensures line == LineOf(Contents(rx))
  {
    var n := |rx.buf|;
    var pos: nat := rx.tail;
    var taken: nat := 0;
    line := [];
    ghost var bytes := Contents(rx);
    while pos != rx.head && |line| < MAX_LINE
      invariant 0 <= taken <= |bytes| && PosAt(rx, pos, taken)
      invariant line == DropBreaks(bytes[..taken])
      invariant |line| <= MAX_LINE
      invariant pos == rx.head <==> taken == |bytes|
      decreases |bytes| - taken
    {
      ReadStep(rx, pos, taken);
      var c := rx.buf[pos];
      if c != '\r' && c != '\n' {
        line := line + [c];
      }
      pos := (pos + 1) % n;
      taken := taken + 1;
    }
    LineAfterCap(bytes, taken, line);
  }

  /** `pos` is the ring index `taken` elements after `tail`. */
  predicate PosAt(rx: Ring<char>, pos: nat, taken: nat) {
    pos == if rx.tail + taken < |rx.buf| then rx.tail + taken else rx.tail + taken - |rx.buf|
  }

  /** Reading the byte at `pos` and advancing `pos`: the byte is the next
      one held, the line grows by it unless it is a break, and `pos` reaches
      `head` exactly when everything held has been read. */
  lemma ReadStep(rx: Ring<char>, pos: nat, taken: nat)
    requires Valid(rx) && taken < Count(rx) && PosAt(rx, pos, taken)
    ensures pos < |rx.buf| && rx.buf[pos] == Contents(rx)[taken]
    ensures DropBreaks(Contents(rx)[..taken + 1]) == DropBreaks(Contents(rx)[..taken])
              + (if IsBreak(Contents(rx)[taken]) then [] else [Contents(rx)[taken]])
    ensures PosAt(rx, (pos + 1) % |rx.buf|, taken + 1)
    ensures (pos + 1) % |rx.buf| == rx.head <==> taken + 1 == Count(rx)
  {
    var n := |rx.buf|;
    ContentsAt(rx, taken);
    Wrap(rx.tail, taken, n);
    LineStep(Contents(rx), taken);
    NextPosition(rx, taken);
    Wrap(rx.tail, taken + 1, n);
  }

  /** One more byte read extends the line by that byte unless it is a break. */
  lemma LineStep(bytes: seq<char>, taken: nat)
    requires taken < |bytes|
    ensures DropBreaks(bytes[..taken + 1]) ==
      DropBreaks(bytes[..taken]) + (if IsBreak(bytes[taken]) then [] else [bytes[taken]])
  {
    assert bytes[..taken + 1] == bytes[..taken] + [bytes[taken]];
    DropBreaksSnoc(bytes[..taken], bytes[taken]);
  }

  /** Advancing the read position by one wraps like the index it stands for. */
  lemma NextPosition(rx: Ring<char>, taken: nat)
    requires Valid(rx) && taken < Count(rx)
    ensures ((rx.tail + taken) % |rx.buf| + 1) % |rx.buf| == (rx.tail + taken + 1) % |rx.buf|
    ensures (rx.tail + taken + 1) % |rx.buf| == rx.head <==> taken + 1 == Count(rx)
  {
    var n := |rx.buf|;
    Wrap(rx.tail, taken, n);
    Wrap(rx.tail, taken + 1, n);
    ModRange((rx.tail + taken) % n + 1, n);
    PositionOfHead(rx, taken + 1);
  }

  /** The ring position `taken` elements after `tail` is `head` exactly when
      all elements were passed. */
  lemma PositionOfHead(rx: Ring<char>, taken: nat)
    requires Valid(rx) && taken <= Count(rx)
    ensures (rx.tail + taken) % |rx.buf| == rx.head <==> taken == Count(rx)
  {
    HeadAfterCount(rx);
    Wrap(rx.tail, taken, |rx.buf|);
    Wrap(rx.tail, Count(rx), |rx.buf|);
  }

  lemma {:induction false} DropBreaksSnoc(s: seq<char>, c: char)
    ensures DropBreaks(s + [c]) == DropBreaks(s) + (if IsBreak(c) then [] else [c])
    decreases |s|
  {
    if |s| == 0 {
      assert s + [c] == [c];
    } else {
      assert (s + [c])[1..] == s[1..] + [c];
      DropBreaksSnoc(s[1..], c);
    }
  }

  /** Stopping at 63 kept bytes gives the same line as reading everything
      and cutting at 63. */
  lemma LineAfterCap(bytes: seq<char>, taken: nat, line: seq<char>)
    requires taken <= |bytes| && line == DropBreaks(bytes[..taken]) && |line| <= MAX_LINE
    requires taken == |bytes| || |line| == MAX_LINE
    ensures line == LineOf(bytes)
  {
    assert bytes == bytes[..taken] + bytes[taken..];
    DropBreaksAppend(bytes[..taken], bytes[taken..]);
  }

  lemma {:induction false} DropBreaksAppend(s: seq<char>, t: seq<char>)
    ensures DropBreaks(s + t) == DropBreaks(s) + DropBreaks(t)
    decreases |s|
  {
    if |s| == 0 {
      assert s + t == t;
    } else {
      assert (s + t)[1..] == s[1..] + t;
      DropBreaksAppend(s[1..], t);
    }
  }

  /** `process_received_line`: without an awaited reply the received bytes
      are discarded; otherwise they form one line, reported with its status
      and, for an answered H7, the weight it carries. The bridge is then
      idle and transmits the next queued command. */
  function ProcessLine(b: Bridge, now: Time): (o: Out)
    requires WellFormed(b)
    ensures WellFormed(o.bridge)
    ensures Contents(o.bridge.rx) == [] && !o.bridge.lineReady
    ensures Count(b.rx) == 0 || b.phase == Idle ==>
      o == Out(b.(lineReady := false, rx := ConsumeAll(b.rx)), [])
  {
    var b1 := b.(lineReady := false, rx := ConsumeAll(b.rx));
    if Count(b.rx) == 0 || b.phase != CmdSent then Out(b1, [])
    else
      var line := LineOf(Contents(b.rx));
      var status := Status(line);
      var weight := if b.lastCmd == "H7" && status == "ok" then ParseWeight(line) else 0;
      Out(TrySendNext(b1.(phase := Idle), now), [Response(status, b.lastCmd, weight, CStr(line))])
  }

  /** The message for an awaited reply: reported under the awaited command,
      "ok" exactly when "ok." appears, the weight only for an answered H7,
      the line itself as raw text. */
  lemma ReplyReported(b: Bridge, now: Time)
    requires WellFormed(b) && b.phase == CmdSent && Count(b.rx) > 0
    ensures var o := ProcessLine(b, now);
      var line := LineOf(Contents(b.rx));
      && |o.sent| == 1
      && o.sent[0].command == b.lastCmd
      && o.sent[0].raw == CStr(line)
      && (o.sent[0].status == "ok" <==> Contains(CStr(line), "ok."))
      && (o.sent[0].value != 0 ==> b.lastCmd == "H7" && o.sent[0].status == "ok")
      && (b.lastCmd == "H7" && o.sent[0].status == "ok" ==> o.sent[0].value == ParseWeight(line))
      && (Count(b.queue) == 0 ==> o.bridge.phase == Idle)
      && (Count(b.queue) > 0 ==> o.bridge.phase == CmdSent && o.bridge.lastCmd == Contents(b.queue)[0].name)
  {
  }

  /** A sensor reply of the shape "<f1> <f2> <f3> <f4> <weight> ... ok."
      to H7 reports the weight it carries. */
  lemma WeightReported(b: Bridge, now: Time, ws: seq<seq<char>>, v: int, rest: seq<char>)
    requires WellFormed(b) && b.phase == CmdSent && b.lastCmd == "H7"
    requires |ws| == 4 && forall j :: 0 <= j < 4 ==> IsWord(ws[j])
    requires |rest| > 0 && rest[0] == ' ' && NUL !in rest
    requires Contains(rest, "ok.")
    requires forall i :: 0 <= i < |rest| ==> !IsBreak(rest[i])
    requires forall j :: 0 <= j < 4 ==> forall i :: 0 <= i < |ws[j]| ==> !IsBreak(ws[j][i])
    requires var line := Fields(ws) + Decimal.SignedNumeral(v) + rest;
      |line| <= MAX_LINE && Contents(b.rx) == line + "\r\n"
    ensures var o := ProcessLine(b, now);
      |o.sent| == 1 && o.sent[0] == Response("ok", "H7", v, Fields(ws) + Decimal.SignedNumeral(v) + rest)
  {
    var line := Fields(ws) + Decimal.SignedNumeral(v) + rest;
    PlainLine(ws, v, rest);
    BreaksDropped(line, "\r\n");
    LineOfPlainText(line);
    assert LineOf(Contents(b.rx)) == line;
    ParseWeightOfLine(ws, v, rest);
    FieldsHaveNoNul(ws);
    CStrOfText(line);
    ContainsLater(Fields(ws) + Decimal.SignedNumeral(v), rest, "ok.");
  }

  lemma PlainLine(ws: seq<seq<char>>, v: int, rest: seq<char>)
    requires forall i :: 0 <= i < |rest| ==> !IsBreak(rest[i])
    requires forall j :: 0 <= j < |ws| ==> forall i :: 0 <= i < |ws[j]| ==> !IsBreak(ws[j][i])
    ensures var line := Fields(ws) + Decimal.SignedNumeral(v) + rest;
      forall i :: 0 <= i < |line| ==> !IsBreak(line[i])
  {
    FieldsPlain(ws);
    var n := Decimal.SignedNumeral(v);
    assert forall i :: 0 <= i < |n| ==> !IsBreak(n[i]) by {
      forall i | 0 <= i < |n| ensures !IsBreak(n[i]) {
        if v >= 0 || i > 0 {
          assert Decimal.IsDigit(n[i]);
        }
      }
    }
  }

  lemma {:induction false} FieldsPlain(ws: seq<seq<char>>)
    requires forall j :: 0 <= j < |ws| ==> forall i :: 0 <= i < |ws[j]| ==> !IsBreak(ws[j][i])
    ensures forall i :: 0 <= i < |Fields(ws)| ==> !IsBreak(Fields(ws)[i])
  {
    if |ws| > 0 {
      FieldsPlain(ws[1..]);
      assert Fields(ws) == ws[0] + " " + Fields(ws[1..]);
    }
  }

  lemma ContainsLater(s: seq<char>, t: seq<char>, p: seq<char>)
    requires Contains(t, p)
    ensures Contains(s + t, p)
  {
    var i: nat :| i <= |t| && OccursAt(t, p, i);
    assert (s + t)[|s| + i..|s| + i + |p|] == t[i..i + |p|];
    assert OccursAt(s + t, p, |s| + i);
  }

  // ------------------------------------------------------------------ task

  /** The receive-overflow branch at the top of the task: the ring is
      emptied and an awaited command fails with "RX buffer overflow". */
  function HandleOverflow(b: Bridge, now: Time): (o: Out)
    requires WellFormed(b)
    ensures WellFormed(o.bridge) && !o.bridge.rxOverflow
    ensures !b.rxOverflow ==> o == Out(b, [])
    ensures b.rxOverflow ==> Contents(o.bridge.rx) == []
    ensures b.rxOverflow && b.phase == CmdSent ==>
      o.sent == [Response("error", b.lastCmd, 0, "RX buffer overflow")]
    ensures b.rxOverflow && b.phase == Idle ==> o.sent == [] && o.bridge.phase == Idle
  {
    if !b.rxOverflow then Out(b, [])
    else
      var b1 := b.(rxOverflow := false, rx := DiscardAll(b.rx));
      if b.phase == CmdSent then
        Out(TrySendNext(b1.(phase := Idle), now), [Response("error", b.lastCmd, 0, "RX buffer overflow")])
      else Out(b1, [])
  }

  /** The timeout branch: an awaited command older than the timeout fails
      with "timeout" and the next queued command goes out. */
  function CheckTimeout(b: Bridge, now: Time): (o: Out)
    requires WellFormed(b)
    ensures WellFormed(o.bridge)
    ensures o.sent != [] <==> b.phase == CmdSent && TimerIsBefore((b.sentAt + CMD_TIMEOUT) % WORD, now)
    ensures o.sent != [] ==> o.sent == [Response("timeout", b.lastCmd, 0, "")]
    ensures o.sent == [] ==> o.bridge == b
  {
    if b.phase == CmdSent && TimerIsBefore((b.sentAt + CMD_TIMEOUT) % WORD, now) then
      Out(TrySendNext(b.(phase := Idle), now), [Response("timeout", b.lastCmd, 0, "")])
    else Out(b, [])
  }

  /** `flashforge_loadcell_task` as the source writes it: after the overflow
      branch, the task returns unless it was woken, so the timeout branch is
      reached only on a wake-up. */
  function TaskAsWritten(b: Bridge, now: Time): (o: Out)
    requires WellFormed(b)
    ensures WellFormed(o.bridge)
    ensures !b.woken ==> o == HandleOverflow(b, now)
  {
    var o1 := HandleOverflow(b, now);
    if !o1.bridge.woken then o1
    else
      var b2 := o1.bridge.(woken := false);
      var o2 := if b2.lineReady then ProcessLine(b2, now) else Out(b2, []);
      var o3 := CheckTimeout(o2.bridge, now);
      Out(o3.bridge, o1.sent + o2.sent + o3.sent)
  }

  /** The task with the deadline checked on every run, woken or not. */
  function Task(b: Bridge, now: Time): (o: Out)
    requires WellFormed(b)
    ensures WellFormed(o.bridge)
    ensures b.woken ==> o == TaskAsWritten(b, now)
  {
    var o1 := HandleOverflow(b, now);
    var o2 :=
      if !o1.bridge.woken then Out(o1.bridge, [])
      else
        var b2 := o1.bridge.(woken := false);
        if b2.lineReady then ProcessLine(b2, now) else Out(b2, []);
    var o3 := CheckTimeout(o2.bridge, now);
    Out(o3.bridge, o1.sent + o2.sent + o3.sent)
  }

  /** Runs of the task at the given timer readings with nothing received. */
  function RunAsWritten(b: Bridge, times: seq<Time>): (o: Out)
    requires WellFormed(b)
    ensures WellFormed(o.bridge)
    decreases |times|
  {
    if |times| == 0 then Out(b, [])
    else
      var o1 := TaskAsWritten(b, times[0]);
      var o2 := RunAsWritten(o1.bridge, times[1..]);
      Out(o2.bridge, o1.sent + o2.sent)
  }

  /** As written, a sensor that never answers is never timed out: with no
      byte received, however long the task keeps running, the bridge stays
      waiting for the reply, reports nothing and transmits nothing more. */
  lemma {:induction false} SilentSensorAsWritten(b: Bridge, times: seq<Time>)
    requires WellFormed(b) && b.phase == CmdSent && !b.woken && !b.rxOverflow
    ensures RunAsWritten(b, times) == Out(b, [])
    decreases |times|
  {
    if |times| > 0 {
      SilentSensorAsWritten(b, times[1..]);
    }
  }

  /** A concrete run: H7 transmitted at time 0 to a silent sensor, the task
      still waiting at the one-second mark, twice the timeout. */
  lemma SilentSensorExample()
    ensures var b := Handle(Init(), WeightReq, 0).bridge;
      && b.phase == CmdSent
      && TimerIsBefore((b.sentAt + CMD_TIMEOUT) % WORD, 2 * CMD_TIMEOUT)
      && TaskAsWritten(b, 2 * CMD_TIMEOUT) == Out(b, [])
  {
    WeightRequestSent();
    var b := Handle(Init(), WeightReq, 0).bridge;
    OverdueAtTwiceTimeout(b);
  }

  /** H7 from the initial state is transmitted at once, with no flag set. */
  lemma WeightRequestSent()
    ensures var b := Handle(Init(), WeightReq, 0).bridge;
      b.phase == CmdSent && b.sentAt == 0 && !b.woken && !b.rxOverflow
  {
    var b0 := Init();
    FullIffCount(b0.queue);
    SendOrder(b0, "H7", H7_DATA, 0);
  }

  lemma OverdueAtTwiceTimeout(b: Bridge)
    requires WellFormed(b) && b.phase == CmdSent && b.sentAt == 0 && !b.woken && !b.rxOverflow
    ensures TimerIsBefore((b.sentAt + CMD_TIMEOUT) % WORD, 2 * CMD_TIMEOUT)
    ensures TaskAsWritten(b, 2 * CMD_TIMEOUT) == Out(b, [])
  {
    TimeoutWindow(0, 2 * CMD_TIMEOUT, CMD_TIMEOUT);
  }

  /** With the deadline checked on every run, a silent sensor's command
      fails with "timeout" once the timeout has passed, and the bridge moves
      on to the next queued command. */
  lemma SilentSensorTimesOut(b: Bridge, now: Time)
    requires WellFormed(b) && b.phase == CmdSent && !b.woken && !b.rxOverflow
    requires CMD_TIMEOUT < Elapsed(b.sentAt, now) <= CMD_TIMEOUT + HALF
    ensures var o := Task(b, now);
      && o.sent == [Response("timeout", b.lastCmd, 0, "")]
      && (Count(b.queue) == 0 ==> o.bridge.phase == Idle)
      && (Count(b.queue) > 0 ==> o.bridge.phase == CmdSent && o.bridge.lastCmd == Contents(b.queue)[0].name)
  {
    TimeoutWindow(b.sentAt, now, CMD_TIMEOUT);
  }

  /** Before the timeout has passed, the task leaves a silent sensor's
      command waiting. */
  lemma NoEarlyTimeout(b: Bridge, now: Time)
    requires WellFormed(b) && b.phase == CmdSent && !b.woken && !b.rxOverflow
    requires Elapsed(b.sentAt, now) <= CMD_TIMEOUT
    ensures Task(b, now) == Out(b, [])
  {
    TimeoutWindow(b.sentAt, now, CMD_TIMEOUT);
  }
}
