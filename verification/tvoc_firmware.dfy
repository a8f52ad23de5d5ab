/** The air-quality sensor's firmware state: the receive interrupt fills a
    128-byte ring, and the task reports every packet found in it, keeps the
    last good reading, and recovers from a receive overflow by dropping
    everything held. */
module TvocFirmware {
  import opened Results
  import opened Ring
  import opened TvocPacket
  import opened TvocScan

  const RXBUF_SIZE: nat := 128

  /** `struct tvoc_state`, with the task's wake flag. */
  datatype Tvoc = Tvoc(rx: Ring<Byte>, packetReady: bool, rxOverflow: bool, woken: bool, last: U16)

  /** One `flashforge_tvoc_response` message. */
  datatype Report = Report(tvoc: U16, status: string)

  datatype Out = Out(tvoc: Tvoc, sent: seq<Report>)

  predicate WellFormed(t: Tvoc) {
    Valid(t.rx) && |t.rx.buf| == RXBUF_SIZE
  }

  /** `flashforge_tvoc_init`: the whole state zeroed. */
  function Init(): (t: Tvoc)
    ensures WellFormed(t) && Contents(t.rx) == []
    ensures !t.packetReady && !t.rxOverflow && !t.woken && t.last == 0
  {
    Tvoc(Empty(RXBUF_SIZE, 0), false, false, false, 0)
  }

  /** The receive interrupt: a byte is stored unless the ring is full, in
      which case the overflow flag is raised; either way the task is woken. */
  function RxByte(t: Tvoc, d: Byte): (t': Tvoc)
    requires WellFormed(t)
    ensures WellFormed(t') && t'.woken && t'.last == t.last
    ensures |Contents(t.rx)| < RXBUF_SIZE - 1 ==>
              Contents(t'.rx) == Contents(t.rx) + [d] && t'.packetReady && t'.rxOverflow == t.rxOverflow
    ensures |Contents(t.rx)| == RXBUF_SIZE - 1 ==>
              Contents(t'.rx) == Contents(t.rx) && t'.rxOverflow && t'.packetReady == t.packetReady
  {
    FullIffCount(t.rx);
    if !Full(t.rx) then t.(rx := Push(t.rx, d), packetReady := true, woken := true)
    else t.(rxOverflow := true, woken := true)
  }

  /** Bytes received one after another by the interrupt. */
  function RxBytes(t: Tvoc, ds: seq<Byte>): (t': Tvoc)
    requires WellFormed(t)
    ensures WellFormed(t') && t'.last == t.last
    decreases |ds|
  {
    if |ds| == 0 then t else RxBytes(RxByte(t, ds[0]), ds[1..])
  }

  /** While the ring has room, received bytes are appended in order and
      nothing overflows. */
  lemma {:induction false} RxBytesAppend(t: Tvoc, ds: seq<Byte>)
    requires WellFormed(t) && |Contents(t.rx)| + |ds| < RXBUF_SIZE
    decreases |ds|
    ensures Contents(RxBytes(t, ds).rx) == Contents(t.rx) + ds
    ensures RxBytes(t, ds).rxOverflow == t.rxOverflow
    ensures |ds| > 0 ==> RxBytes(t, ds).packetReady && RxBytes(t, ds).woken
  {
    if |ds| > 0 {
      var t1 := RxByte(t, ds[0]);
      RxBytesAppend(t1, ds[1..]);
      assert Contents(t.rx) + [ds[0]] + ds[1..] == Contents(t.rx) + ds;
      if |ds| == 1 {
        assert RxBytes(t, ds) == RxBytes(t1, []);
      }
    }
  }

  /** The message for one extracted packet. */
  function ReportOf(o: Outcome): (r: Report)
    ensures r.status == "ok" <==> o.Accepted?
    ensures o.Accepted? ==> r.tvoc == o.value
    ensures o.ChecksumError? ==> r == Report(0, "checksum_error")
  {
    match o
    case Accepted(v) => Report(v, "ok")
    case ChecksumError => Report(0, "checksum_error")
  }

  function Reports(outcomes: seq<Outcome>): (rs: seq<Report>)
    ensures |rs| == |outcomes|
    ensures forall i | 0 <= i < |rs| :: rs[i] == ReportOf(outcomes[i])
  {
    seq(|outcomes|, i requires 0 <= i < |outcomes| => ReportOf(outcomes[i]))
  }

  /** `last_tvoc_value` after handling the outcomes in order: each accepted
      packet overwrites it, a checksum error leaves it. */
  function LastValue(outcomes: seq<Outcome>, last: U16): U16 {
    if |outcomes| == 0 then last
    else LastValue(outcomes[1..], if outcomes[0].Accepted? then outcomes[0].value else last)
  }

  /** The value kept is the latest accepted one: one more accepted packet
      sets it, one more checksum error leaves it. */
  lemma {:induction false} LastValueSnoc(outcomes: seq<Outcome>, o: Outcome, last: U16)
    decreases |outcomes|
    ensures LastValue(outcomes + [o], last)
            == if o.Accepted? then o.value else LastValue(outcomes, last)
  {
    if |outcomes| > 0 {
      assert (outcomes + [o])[1..] == outcomes[1..] + [o];
      LastValueSnoc(outcomes[1..], o, if outcomes[0].Accepted? then outcomes[0].value else last);
    }
  }

  /** Without an accepted packet the value kept does not change. */
  lemma {:induction false} LastValueWithoutAccepted(outcomes: seq<Outcome>, last: U16)
    requires forall i | 0 <= i < |outcomes| :: outcomes[i].ChecksumError?
    ensures LastValue(outcomes, last) == last
  {
    if |outcomes| > 0 {
      LastValueWithoutAccepted(outcomes[1..], last);
    }
  }

  /** `process_tvoc_packet`: every packet found is reported, the reading kept
      is updated, and `rx_tail` moves past the last packet found. */
  function Process(t: Tvoc): (o: Out)
    requires WellFormed(t)
    ensures WellFormed(o.tvoc) && !o.tvoc.packetReady
    ensures o.tvoc.rxOverflow == t.rxOverflow && o.tvoc.woken == t.woken
    ensures |Contents(o.tvoc.rx)| <= |Contents(t.rx)|
    ensures Contents(o.tvoc.rx) == Contents(t.rx)[|Contents(t.rx)| - |Contents(o.tvoc.rx)|..]
  {
    var scan := ScanFrom(Contents(t.rx), 0);
    var rx := if scan.end.Some? then Skip(t.rx, scan.end.value) else t.rx;
    Out(t.(rx := rx, packetReady := false, last := LastValue(scan.outcomes, t.last)),
        Reports(scan.outcomes))
  }

  /** `flashforge_tvoc_task`: a pending overflow empties the ring and is
      reported first; then, if woken, received bytes are processed. */
  function Task(t: Tvoc): (o: Out)
    requires WellFormed(t)
    ensures WellFormed(o.tvoc) && !o.tvoc.rxOverflow && !o.tvoc.woken
    ensures t.rxOverflow ==> o.sent == [Report(0, "rx_overflow")] && Contents(o.tvoc.rx) == []
    ensures t.rxOverflow ==> o.tvoc.last == t.last
    ensures !t.rxOverflow && !t.woken ==> o == Out(t, [])
  {
    var t1 := if t.rxOverflow then t.(rxOverflow := false, rx := DiscardAll(t.rx)) else t;
    var sent1 := if t.rxOverflow then [Report(0, "rx_overflow")] else [];
    if !t1.woken then Out(t1, sent1)
    else
      var t2 := t1.(woken := false);
      if !t2.packetReady then Out(t2, sent1)
      else
        var o := Process(t2);
        Out(o.tvoc, sent1 + o.sent)
  }

  /** Bytes arriving after a packet is found are left for the next task run
      only when they hold no whole packet. */
  lemma ProcessLeavesNoPacket(t: Tvoc, k: nat)
    requires WellFormed(t)
    ensures !HeaderAt(Contents(Process(t).tvoc.rx), k)
  {
    var s := Contents(t.rx);
    var scan := ScanFrom(s, 0);
    ScanLeavesNoHeader(s, 0);
    var e := if scan.end.Some? then scan.end.value else 0;
    assert Contents(Process(t).tvoc.rx) == s[e..];
    HeaderShift(s, e, k);
  }

  /** An offset into the bytes left is an offset into the bytes held. */
  lemma HeaderShift(s: seq<Byte>, e: nat, k: nat)
    requires e <= |s|
    ensures HeaderAt(s[e..], k) <==> HeaderAt(s, e + k)
  {
  }

  /** A good packet behind bytes that cannot start one, followed by the start
      of the next packet: the reading is reported and kept, and only the
      start of the next packet stays in the ring. */
  lemma GoodPacketReported(t: Tvoc, junk: seq<Byte>, b2: Byte, b3: Byte, v: U16, b6: Byte, b7: Byte, rest: seq<Byte>)
    requires WellFormed(t)
    requires Contents(t.rx) == junk + Build(b2, b3, v, b6, b7) + rest
    requires HEADER_1 !in junk && |rest| < PACKET_SIZE
    ensures Process(t).sent == [Report(v, "ok")]
    ensures Process(t).tvoc.last == v
    ensures Contents(Process(t).tvoc.rx) == rest
  {
    var p := Build(b2, b3, v, b6, b7);
    ParseBuild(b2, b3, v, b6, b7);
    var scan := LonePacket(Contents(t.rx), junk, p, rest);
    assert scan.outcomes == [Accepted(v)];
    assert LastValue(scan.outcomes, t.last) == LastValue([], v);
  }

  /** The same with the checksum byte wrong: a checksum error is reported,
      the reading kept does not change, and the packet is consumed. */
  lemma CorruptPacketRejected(t: Tvoc, junk: seq<Byte>, p: Packet, rest: seq<Byte>)
    requires WellFormed(t)
    requires Contents(t.rx) == junk + p + rest
    requires p[0] == HEADER_1 && p[1] == HEADER_2 && p[8] != Checksum(p)
    requires HEADER_1 !in junk && |rest| < PACKET_SIZE
    ensures Process(t).sent == [Report(0, "checksum_error")]
    ensures Process(t).tvoc.last == t.last
    ensures Contents(Process(t).tvoc.rx) == rest
  {
    ChecksumIffZeroSum(p);
    var scan := LonePacket(Contents(t.rx), junk, p, rest);
    assert scan.outcomes == [ChecksumError];
    LastValueWithoutAccepted(scan.outcomes, t.last);
  }

  /** The scan of `junk + p + rest` finds `p` alone. */
  lemma LonePacket(s: seq<Byte>, junk: seq<Byte>, p: Packet, rest: seq<Byte>) returns (scan: Scanned)
    requires s == junk + p + rest
    requires p[0] == HEADER_1 && p[1] == HEADER_2
    requires HEADER_1 !in junk && |rest| < PACKET_SIZE
    ensures scan == ScanFrom(s, 0)
    ensures scan.outcomes == [Decode(p)] && scan.end == Some(|junk| + PACKET_SIZE)
    ensures s[|junk| + PACKET_SIZE..] == rest
  {
    var k := |junk|;
    assert s[k..k + PACKET_SIZE] == p;
    assert HeaderAt(s, k);
    forall j | 0 <= j < k
      ensures !HeaderAt(s, j)
    {
      assert s[j] == junk[j];
    }
    FirstHeaderIsFirst(s, 0);
    assert FirstHeader(s, 0) == Some(k);
    assert ScanFrom(s, k + PACKET_SIZE) == Scanned([], None);
    scan := ScanFrom(s, 0);
  }

  /** Fewer than nine bytes held: nothing is reported and nothing consumed,
      since they may be the start of a packet. */
  lemma PartialPacketKept(t: Tvoc)
    requires WellFormed(t) && |Contents(t.rx)| < PACKET_SIZE
    ensures Process(t).sent == []
    ensures Contents(Process(t).tvoc.rx) == Contents(t.rx)
    ensures Process(t).tvoc.last == t.last
  {
  }

  /** From start-up, one whole good packet received and the task run: its
      reading is reported and kept, and the ring is empty again. */
  lemma PacketAfterInit(b2: Byte, b3: Byte, v: U16, b6: Byte, b7: Byte)
    ensures var t := RxBytes(Init(), Build(b2, b3, v, b6, b7));
            Task(t).sent == [Report(v, "ok")] && Task(t).tvoc.last == v
            && Contents(Task(t).tvoc.rx) == []
  {
    var p := Build(b2, b3, v, b6, b7);
    var t := RxBytes(Init(), p);
    RxBytesAppend(Init(), p);
    assert Contents(t.rx) == [] + p + [];
    GoodPacketReported(t.(woken := false), [], b2, b3, v, b6, b7, []);
  }
}
