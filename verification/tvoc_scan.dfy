/** `process_tvoc_packet`: the search of the received bytes for packets.
    `ScanFrom` is the reference definition over the bytes the ring holds,
    offsets counted from `rx_tail`; `ProcessPackets` is the firmware's pair
    of loops over the ring itself, proved to compute the same. */
module TvocScan {
  import opened Results
  import opened Ring
  import opened TvocPacket

  /** What the firmware reports for one extracted packet. */
  datatype Outcome = Accepted(value: U16) | ChecksumError

  /** A packet may start at offset `k`: the two header bytes, and the whole
      packet already received. */
  predicate HeaderAt(s: seq<Byte>, k: nat) {
    k + PACKET_SIZE <= |s| && s[k] == HEADER_1 && s[k + 1] == HEADER_2
  }

  /** The first offset from `t` on where a packet starts. */
  function FirstHeader(s: seq<Byte>, t: nat): (r: Option<nat>)
    decreases |s| - t
    ensures r.Some? ==> t <= r.value && HeaderAt(s, r.value)
  {
    if t + PACKET_SIZE > |s| then None
    else if s[t] == HEADER_1 && s[t + 1] == HEADER_2 then Some(t)
    else FirstHeader(s, t + 1)
  }

  /** The header found is the first: none lies between `t` and it, and
      when none is found there is none from `t` on. */
  lemma {:induction false} FirstHeaderIsFirst(s: seq<Byte>, t: nat)
    decreases |s| - t
    ensures FirstHeader(s, t).Some? ==> forall k :: t <= k < FirstHeader(s, t).value ==> !HeaderAt(s, k)
    ensures FirstHeader(s, t).None? ==> forall k :: t <= k ==> !HeaderAt(s, k)
  {
    if t + PACKET_SIZE <= |s| && !(s[t] == HEADER_1 && s[t + 1] == HEADER_2) {
      FirstHeaderIsFirst(s, t + 1);
    }
  }

  /** A packet found behind a header fails only on its checksum. */
  function Decode(p: Packet): (o: Outcome)
    requires p[0] == HEADER_1 && p[1] == HEADER_2
    ensures o.ChecksumError? <==> Sum(p[1..9]) % 256 != 0
    ensures o.Accepted? ==> Parse(p) == Some(o.value)
  {
    match Parse(p)
    case Some(v) => Accepted(v)
    case None => ChecksumError
  }

  /** The outcomes of the packets found, in order, and the offset just past
      the last one (`None` when none was found). */
  datatype Scanned = Scanned(outcomes: seq<Outcome>, end: Option<nat>)

  function ScanFrom(s: seq<Byte>, t: nat): (r: Scanned)
    requires t <= |s|
    decreases |s| - t
    ensures r.end.Some? <==> |r.outcomes| > 0
    ensures r.end.Some? ==> t + PACKET_SIZE <= r.end.value <= |s|
    ensures 9 * |r.outcomes| <= |s| - t
  {
    if t + PACKET_SIZE > |s| then Scanned([], None)
    else match FirstHeader(s, t)
      case None => Scanned([], None)
      case Some(k) =>
        var rest := ScanFrom(s, k + PACKET_SIZE);
        Scanned([Decode(s[k..k + PACKET_SIZE])] + rest.outcomes,
                if rest.end.Some? then rest.end else Some(k + PACKET_SIZE))
  }

  /** Nothing that could be a packet is left behind: no header follows the
      last packet found, and when none was found there is no header at all. */
  lemma {:induction false} ScanLeavesNoHeader(s: seq<Byte>, t: nat)
    requires t <= |s|
    decreases |s| - t
    ensures var r := ScanFrom(s, t);
            forall k :: (if r.end.Some? then r.end.value else t) <= k ==> !HeaderAt(s, k)
  {
    FirstHeaderIsFirst(s, t);
    if t + PACKET_SIZE <= |s| && FirstHeader(s, t).Some? {
      ScanLeavesNoHeader(s, FirstHeader(s, t).value + PACKET_SIZE);
    }
  }

  /** The byte at offset `k` from `tail`, read from the ring's storage. */
  function At(r: Ring<Byte>, k: nat): (x: Byte)
    requires Valid(r) && k < Count(r)
    ensures x == Contents(r)[k]
  {
    ContentsAt(r, k);
    r.buf[(r.tail + k) % |r.buf|]
  }

  /** The inner loop of `process_tvoc_packet`: from the local tail up to
      `head`, look for the two header bytes with a whole packet behind
      them. */
  method FindHeader(r: Ring<Byte>, tail: nat) returns (found: bool, pos: nat)
    requires Valid(r) && tail <= Count(r)
    ensures found <==> FirstHeader(Contents(r), tail).Some?
    ensures found ==> pos == FirstHeader(Contents(r), tail).value
    ensures found ==> tail <= pos && pos + PACKET_SIZE <= Count(r)
  {
    ghost var s := Contents(r);
    var head := Count(r);
    var searchPos := tail;
    while searchPos != head
      invariant tail <= searchPos <= head == |s|
      invariant FirstHeader(s, searchPos) == FirstHeader(s, tail)
      decreases head - searchPos
    {
      if At(r, searchPos) == HEADER_1 {
        var nextPos := searchPos + 1;
        if nextPos != head && At(r, nextPos) == HEADER_2 {
          var remaining := head - searchPos;
          if remaining >= PACKET_SIZE {
            assert HeaderAt(s, searchPos);
            return true, searchPos;
          }
        }
      }
      NoHeaderHere(s, searchPos);
      searchPos := searchPos + 1;
    }
    return false, 0;
  }

  /** The nine bytes copied out of the ring from offset `pos`. */
  function Extract(r: Ring<Byte>, pos: nat): (p: Packet)
    requires Valid(r) && pos + PACKET_SIZE <= Count(r)
    ensures p == Contents(r)[pos..pos + PACKET_SIZE]
  {
    var p := seq(9, i requires 0 <= i < 9 => At(r, pos + i));
    forall i | 0 <= i < 9
      ensures p[i] == Contents(r)[pos..pos + 9][i]
    {
      assert p[i] == At(r, pos + i);
    }
    p
  }

  /** What a scan from the local tail `t` adds to the packets already
      handled and the tail already committed. */
  ghost function Pending(s: seq<Byte>, t: nat, outcomes: seq<Outcome>, end: Option<nat>): Scanned
    requires t <= |s|
  {
    var rest := ScanFrom(s, t);
    Scanned(outcomes + rest.outcomes, if rest.end.Some? then rest.end else end)
  }

  /** The outer loop of `process_tvoc_packet` on a snapshot of the ring: it
      runs while nine bytes remain past the local tail; a packet found moves
      the tail past it and commits it to `rx_tail` (`end`); when none is
      found the local tail alone advances by one byte. */
  method ProcessPackets(r: Ring<Byte>) returns (outcomes: seq<Outcome>, end: Option<nat>)
    requires Valid(r)
    ensures Scanned(outcomes, end) == ScanFrom(Contents(r), 0)
  {
    ghost var s := Contents(r);
    var head := Count(r);
    var tail := 0;
    outcomes := [];
    end := None;
    assert Pending(s, 0, [], None) == ScanFrom(s, 0);
    while head - tail >= PACKET_SIZE
      invariant tail <= head == |s|
      invariant Pending(s, tail, outcomes, end) == ScanFrom(s, 0)
      decreases head - tail
    {
      var found, searchPos := FindHeader(r, tail);
      if !found {
        // The firmware's other branch, taken when `tail == head`, cannot be
        // reached since nine bytes remain.
        PendingSkipsByte(s, tail, outcomes, end);
        tail := tail + 1;
      } else {
        var packet := Extract(r, searchPos);
        PendingTakesPacket(s, tail, searchPos, packet, outcomes, end);
        outcomes := outcomes + [Decode(packet)];
        tail := searchPos + PACKET_SIZE;
        end := Some(tail);
      }
    }
    PendingDone(s, tail, outcomes, end);
  }

  /** No header from `t` on: the local tail moves on and nothing changes. */
  lemma PendingSkipsByte(s: seq<Byte>, t: nat, outcomes: seq<Outcome>, end: Option<nat>)
    requires t < |s| && FirstHeader(s, t).None?
    ensures Pending(s, t + 1, outcomes, end) == Pending(s, t, outcomes, end)
  {
    ScanNothing(s, t);
  }

  /** The first packet from `t` on starts at `k`: it is handled and its end
      committed. */
  lemma PendingTakesPacket(s: seq<Byte>, t: nat, k: nat, p: Packet, outcomes: seq<Outcome>, end: Option<nat>)
    requires t <= |s| && FirstHeader(s, t) == Some(k)
    requires k + PACKET_SIZE <= |s| && p == s[k..k + PACKET_SIZE]
    ensures p[0] == HEADER_1 && p[1] == HEADER_2
    ensures Pending(s, k + PACKET_SIZE, outcomes + [Decode(p)], Some(k + PACKET_SIZE))
            == Pending(s, t, outcomes, end)
  {
    ScanStep(s, t, k);
    Regroup(outcomes, Decode(p), ScanFrom(s, k + PACKET_SIZE).outcomes);
  }

  /** Fewer than nine bytes past the local tail: nothing more is found. */
  lemma PendingDone(s: seq<Byte>, t: nat, outcomes: seq<Outcome>, end: Option<nat>)
    requires t <= |s| < t + PACKET_SIZE
    ensures Pending(s, t, outcomes, end) == Scanned(outcomes, end)
  {
  }

  lemma Regroup<T>(a: seq<T>, x: T, b: seq<T>)
    ensures (a + [x]) + b == a + ([x] + b)
  {
  }

  /** The search moves past an offset where no packet starts. */
  lemma NoHeaderHere(s: seq<Byte>, p: nat)
    requires p < |s| && !HeaderAt(s, p)
    ensures FirstHeader(s, p + 1) == FirstHeader(s, p)
  {
  }

  /** No header from `t` on: nothing is found from `t` or from `t + 1`. */
  lemma ScanNothing(s: seq<Byte>, t: nat)
    requires t < |s| && FirstHeader(s, t).None?
    ensures ScanFrom(s, t) == ScanFrom(s, t + 1) == Scanned([], None)
  {
    assert FirstHeader(s, t + 1).None?;
  }

  /** The first packet from `t` on starts at `k`. */
  lemma ScanStep(s: seq<Byte>, t: nat, k: nat)
    requires t <= k && HeaderAt(s, k) && FirstHeader(s, k) == FirstHeader(s, t)
    ensures ScanFrom(s, t).outcomes
            == [Decode(s[k..k + PACKET_SIZE])] + ScanFrom(s, k + PACKET_SIZE).outcomes
    ensures ScanFrom(s, t).end
            == if ScanFrom(s, k + PACKET_SIZE).end.Some? then ScanFrom(s, k + PACKET_SIZE).end
               else Some(k + PACKET_SIZE)
  {
    assert FirstHeader(s, k) == Some(k);
  }
}
