/** The command queue of the load-cell firmware at the level of its bytes:
    six `queued_cmd` records of a 16-byte name, a 32-byte data field and a
    4-byte length (`size_t` on the 32-bit Cortex-M), laid out back to back.
    `enqueue_flashforge_command` copies the caller's length of data into
    the 32-byte field without a bound; `StoreAsWritten` models that copy and
    `Store` the bounded one the rest of the model assumes. */
module BridgeLayout {
  import opened Results
  import opened BridgeText
  import LoadCellBridge

  const NAME_FIELD: nat := 16
  const DATA_FIELD: nat := 32
  const LEN_FIELD: nat := 4
  const SLOT_BYTES: nat := NAME_FIELD + DATA_FIELD + LEN_FIELD
  const SLOTS: nat := 6
  const QUEUE_BYTES: nat := SLOTS * SLOT_BYTES

  /** The bytes of `cmd_queue`. */
  type Memory = m: seq<char> | |m| == QUEUE_BYTES
    witness seq(QUEUE_BYTES, _ => NUL)

  /** Where record `i` starts. */
  function Offset(i: nat): (off: nat)
    ensures i < SLOTS ==> off + SLOT_BYTES <= QUEUE_BYTES
  {
    52 * i
  }

  /** Records do not overlap. */
  lemma SlotsApart(i: nat, j: nat)
    requires i < j
    ensures Offset(i) + SLOT_BYTES <= Offset(j)
  {
  }

  /** `bytes` written over `mem` from index `at`. */
  function Overwrite(mem: Memory, at: nat, bytes: seq<char>): Memory
    requires at + |bytes| <= QUEUE_BYTES
  {
    mem[..at] + bytes + mem[at + |bytes|..]
  }

  /** A range inside the written bytes reads what was written. */
  lemma ReadInside(mem: Memory, at: nat, bytes: seq<char>, lo: nat, hi: nat)
    requires at <= lo <= hi <= at + |bytes| <= QUEUE_BYTES
    ensures Overwrite(mem, at, bytes)[lo..hi] == bytes[lo - at..hi - at]
  {
    var r := Overwrite(mem, at, bytes);
    forall k | lo <= k < hi
      ensures r[k] == bytes[k - at]
    {
    }
  }

  /** A range outside the written bytes reads what was there before. */
  lemma ReadOutside(mem: Memory, at: nat, bytes: seq<char>, lo: nat, hi: nat)
    requires at + |bytes| <= QUEUE_BYTES && lo <= hi <= QUEUE_BYTES
    requires hi <= at || at + |bytes| <= lo
    ensures Overwrite(mem, at, bytes)[lo..hi] == mem[lo..hi]
  {
    var r := Overwrite(mem, at, bytes);
    forall k | lo <= k < hi
      ensures r[k] == mem[k]
    {
    }
  }

  /** Little-endian bytes of `n`, `k` of them. */
  function LittleEndian(n: nat, k: nat): (s: seq<char>)
    ensures |s| == k
  {
    if k == 0 then [] else [(n % 256) as char] + LittleEndian(n / 256, k - 1)
  }

  /** The number little-endian bytes hold (each byte read as unsigned). */
  function FromLittleEndian(s: seq<char>): nat {
    if |s| == 0 then 0 else (s[0] as nat) % 256 + 256 * FromLittleEndian(s[1..])
  }

  function Pow256(k: nat): (p: nat)
    ensures p >= 1
  {
    if k == 0 then 1 else 256 * Pow256(k - 1)
  }

  lemma Pow256Four()
    ensures Pow256(4) == 0x1_0000_0000
  {
    assert Pow256(1) == 256;
    assert Pow256(2) == 65536;
    assert Pow256(3) == 16777216;
  }

  /** The length field reads back the length stored in it. */
  lemma LengthField(n: nat)
    requires n < 0x1_0000_0000
    ensures FromLittleEndian(LittleEndian(n % 0x1_0000_0000, LEN_FIELD)) == n
  {
    assert n % 0x1_0000_0000 == n;
    Pow256Four();
    LittleEndianRoundTrip(n, 4);
  }

  /** A number that fits in `k` bytes is read back from them unchanged. */
  lemma {:induction false} LittleEndianRoundTrip(n: nat, k: nat)
    requires n < Pow256(k)
    ensures FromLittleEndian(LittleEndian(n, k)) == n
  {
    if k > 0 {
      LittleEndianRoundTrip(n / 256, k - 1);
      assert LittleEndian(n, k)[1..] == LittleEndian(n / 256, k - 1);
    }
  }

  /** The 16 name bytes `strncpy` and the terminating NUL leave. */
  function NameField(name: seq<char>): (f: seq<char>)
    ensures |f| == NAME_FIELD
  {
    var c := LoadCellBridge.CopyName(name);
    c + seq(NAME_FIELD - |c|, _ => NUL)
  }

  /** The copy as written: name, then `cmd_len` data bytes from the start of
      the data field, then the length. None when the copy runs past the end
      of `cmd_queue`. */
  function StoreAsWritten(mem: Memory, i: nat, name: seq<char>, data: seq<char>): (r: Option<Memory>)
    requires i < SLOTS
    ensures r.None? <==> Offset(i) + NAME_FIELD + |data| > QUEUE_BYTES
  {
    var off := Offset(i);
    if off + NAME_FIELD + |data| > QUEUE_BYTES then None
    else
      var m1 := Overwrite(mem, off, NameField(name));
      var m2 := Overwrite(m1, off + NAME_FIELD, data);
      Some(Overwrite(m2, off + NAME_FIELD + DATA_FIELD, LittleEndian(|data| % 0x1_0000_0000, LEN_FIELD)))
  }

  /** The copy bounded by the field: at most 32 data bytes are kept. */
  function Store(mem: Memory, i: nat, name: seq<char>, data: seq<char>): (r: Memory)
    requires i < SLOTS
    ensures |data| <= DATA_FIELD ==> StoreAsWritten(mem, i, name, data) == Some(r)
  {
    var d := Truncate(data, DATA_FIELD);
    assert Offset(i) + NAME_FIELD + |d| <= QUEUE_BYTES;
    StoreAsWritten(mem, i, name, d).value
  }

  /** The name `try_send_next_queued_command` copies out of slot `i`. */
  function NameAt(mem: Memory, i: nat): (n: seq<char>)
    requires i < SLOTS
    ensures |n| <= NAME_FIELD && NUL !in n
    ensures n == mem[Offset(i)..Offset(i) + |n|]
  {
    CStr(mem[Offset(i)..Offset(i) + NAME_FIELD])
  }

  /** The bytes `flashforge_loadcell_send(slot->cmd_data, slot->cmd_len)`
      reads: `cmd_len` bytes from the start of the data field; None when that
      runs past the end of `cmd_queue`. */
  function Load(mem: Memory, i: nat): (r: Option<seq<char>>)
    requires i < SLOTS
    ensures var len := FromLittleEndian(mem[Offset(i) + NAME_FIELD + DATA_FIELD..Offset(i) + SLOT_BYTES]);
      && (len <= DATA_FIELD ==> r.Some?)
      && (r.Some? ==> |r.value| == len && Offset(i) + NAME_FIELD + len <= QUEUE_BYTES && r.value == mem[Offset(i) + NAME_FIELD..Offset(i) + NAME_FIELD + len])
  {
    var off := Offset(i);
    var len := FromLittleEndian(mem[off + NAME_FIELD + DATA_FIELD..off + SLOT_BYTES]);
    if off + NAME_FIELD + len > QUEUE_BYTES then None
    else Some(mem[off + NAME_FIELD..off + NAME_FIELD + len])
  }

  /** The bytes of slot `j`. */
  function SlotBytes(mem: Memory, j: nat): seq<char>
    requires j < SLOTS
  {
    mem[Offset(j)..Offset(j) + SLOT_BYTES]
  }

  lemma NameFieldRead(name: seq<char>)
    ensures CStr(NameField(name)) == LoadCellBridge.CopyName(name)
  {
    var c := LoadCellBridge.CopyName(name);
    var f := NameField(name);
    var pad := seq(NAME_FIELD - |c|, _ => NUL);
    CStrOfPadded(c, pad);
  }

  lemma {:induction false} CStrOfPadded(c: seq<char>, pad: seq<char>)
    requires NUL !in c && |pad| > 0 && pad[0] == NUL
    ensures CStr(c + pad) == c
  {
    if |c| > 0 {
      assert (c + pad)[1..] == c[1..] + pad;
      CStrOfPadded(c[1..], pad);
    } else {
      assert c + pad == pad;
    }
  }

  /** Data that fits its field is read back as stored, under the stored
      name, and the other slots keep their bytes. */
  lemma StoreAsWrittenFits(mem: Memory, i: nat, name: seq<char>, data: seq<char>)
    requires i < SLOTS && |data| <= DATA_FIELD
    ensures StoreAsWritten(mem, i, name, data).Some?
    ensures var m := StoreAsWritten(mem, i, name, data).value;
      && Load(m, i) == Some(data)
      && NameAt(m, i) == LoadCellBridge.CopyName(name)
      && forall j :: 0 <= j < SLOTS && j != i ==> SlotBytes(m, j) == SlotBytes(mem, j)
  {
    DataKept(mem, i, name, data);
    NameKept(mem, i, name, data);
    forall j | 0 <= j < SLOTS && j != i
      ensures SlotBytes(StoreAsWritten(mem, i, name, data).value, j) == SlotBytes(mem, j)
    {
      OtherSlotKept(mem, i, j, name, data);
    }
  }

  lemma DataKept(mem: Memory, i: nat, name: seq<char>, data: seq<char>)
    requires i < SLOTS && |data| <= DATA_FIELD
    ensures StoreAsWritten(mem, i, name, data).Some?
    ensures Load(StoreAsWritten(mem, i, name, data).value, i) == Some(data)
  {
    var off := Offset(i);
    var m1 := Overwrite(mem, off, NameField(name));
    var m2 := Overwrite(m1, off + NAME_FIELD, data);
    var lenBytes := LittleEndian(|data| % 0x1_0000_0000, LEN_FIELD);
    var lenAt := off + NAME_FIELD + DATA_FIELD;
    var m := Overwrite(m2, lenAt, lenBytes);
    ReadInside(m2, lenAt, lenBytes, lenAt, lenAt + LEN_FIELD);
    assert lenBytes[0..LEN_FIELD] == lenBytes;
    LengthField(|data|);
    ReadOutside(m2, lenAt, lenBytes, off + NAME_FIELD, off + NAME_FIELD + |data|);
    ReadInside(m1, off + NAME_FIELD, data, off + NAME_FIELD, off + NAME_FIELD + |data|);
    assert data[0..|data|] == data;
    assert m[off + NAME_FIELD..off + NAME_FIELD + |data|] == data;
  }

  lemma NameKept(mem: Memory, i: nat, name: seq<char>, data: seq<char>)
    requires i < SLOTS && |data| <= DATA_FIELD
    ensures StoreAsWritten(mem, i, name, data).Some?
    ensures NameAt(StoreAsWritten(mem, i, name, data).value, i) == LoadCellBridge.CopyName(name)
  {
    var off := Offset(i);
    var m1 := Overwrite(mem, off, NameField(name));
    var m2 := Overwrite(m1, off + NAME_FIELD, data);
    var lenBytes := LittleEndian(|data| % 0x1_0000_0000, LEN_FIELD);
    var lenAt := off + NAME_FIELD + DATA_FIELD;
    ReadOutside(m2, lenAt, lenBytes, off, off + NAME_FIELD);
    ReadOutside(m1, off + NAME_FIELD, data, off, off + NAME_FIELD);
    ReadInside(mem, off, NameField(name), off, off + NAME_FIELD);
    NameFieldRead(name);
  }

  lemma OtherSlotKept(mem: Memory, i: nat, j: nat, name: seq<char>, data: seq<char>)
    requires i < SLOTS && j < SLOTS && i != j && |data| <= DATA_FIELD
    ensures StoreAsWritten(mem, i, name, data).Some?
    ensures SlotBytes(StoreAsWritten(mem, i, name, data).value, j) == SlotBytes(mem, j)
  {
    var off := Offset(i);
    var m1 := Overwrite(mem, off, NameField(name));
    var m2 := Overwrite(m1, off + NAME_FIELD, data);
    var lenBytes := LittleEndian(|data| % 0x1_0000_0000, LEN_FIELD);
    var lenAt := off + NAME_FIELD + DATA_FIELD;
    var lo, hi := Offset(j), Offset(j) + SLOT_BYTES;
    if i < j { SlotsApart(i, j); } else { SlotsApart(j, i); }
    ReadOutside(m2, lenAt, lenBytes, lo, hi);
    ReadOutside(m1, off + NAME_FIELD, data, lo, hi);
    ReadOutside(mem, off, NameField(name), lo, hi);
  }

  /** The corrected copy round-trips the first 32 data bytes in every slot,
      and leaves the other slots alone. */
  lemma StoreRoundTrip(mem: Memory, i: nat, name: seq<char>, data: seq<char>)
    requires i < SLOTS
    ensures Load(Store(mem, i, name, data), i) == Some(Truncate(data, DATA_FIELD))
    ensures NameAt(Store(mem, i, name, data), i) == LoadCellBridge.CopyName(name)
    ensures forall j :: 0 <= j < SLOTS && j != i ==>
      SlotBytes(Store(mem, i, name, data), j) == SlotBytes(mem, j)
  {
    StoreAsWrittenFits(mem, i, name, Truncate(data, DATA_FIELD));
  }

  /** The slot the bounded copy stores is the one the queue model keeps. */
  lemma StoreMatchesQueue(mem: Memory, i: nat, name: seq<char>, data: seq<char>)
    requires i < SLOTS
    ensures var m := Store(mem, i, name, data);
      Load(m, i).Some? &&
      LoadCellBridge.Slot(NameAt(m, i), Load(m, i).value) ==
        LoadCellBridge.Slot(LoadCellBridge.CopyName(name), Truncate(data, LoadCellBridge.DATA_SIZE))
  {
    StoreRoundTrip(mem, i, name, data);
  }

  /** As written, a 40-byte TEST payload stored in slot 0 comes back
      altered: its bytes 32 to 35 are replaced by the length field (byte 32
      reads 40), and bytes 36 to 39 land in slot 1's name. */
  lemma OverlongPayloadAsWritten(mem: Memory)
    ensures var data := seq(40, _ => 'A');
      && StoreAsWritten(mem, 0, "TEST", data).Some?
      && var m := StoreAsWritten(mem, 0, "TEST", data).value;
      && Load(m, 0).Some?
      && |Load(m, 0).value| == 40
      && Load(m, 0).value[32] == 40 as char
      && Load(m, 0).value != data
      && m[SLOT_BYTES..SLOT_BYTES + 4] == "AAAA"
  {
    var data := seq(40, _ => 'A');
    var m1 := Overwrite(mem, 0, NameField("TEST"));
    var m2 := Overwrite(m1, NAME_FIELD, data);
    var lenBytes := LittleEndian(40, LEN_FIELD);
    var m := Overwrite(m2, 48, lenBytes);
    assert m == StoreAsWritten(mem, 0, "TEST", data).value;
    ReadInside(m2, 48, lenBytes, 48, 52);
    assert lenBytes[0..LEN_FIELD] == lenBytes;
    LengthField(40);
    assert Load(m, 0) == Some(m[16..56]);
    ReadOutside(m2, 48, lenBytes, 52, 56);
    ReadInside(m1, NAME_FIELD, data, 52, 56);
    assert m[16..56][32] == m[48..52][0];
  }

  /** As written, the same payload in the last slot runs past the end of
      `cmd_queue`. */
  lemma OverlongPayloadLastSlot(mem: Memory)
    ensures StoreAsWritten(mem, SLOTS - 1, "TEST", seq(40, _ => 'A')).None?
  {
  }
}
