/** The read and write file operations of the aesd char device
    (aesd-char-driver/main.c) as state transitions over the device record:
    the ring of committed entries plus the pending, not yet terminated,
    write. Lock acquisition, `krealloc` and the user-space copies are
    modelled as boolean outcomes supplied by the caller. */
module CharDriver {
  import opened Base
  import opened CircularBuffer

  /** Linux error numbers the two operations return, negated, on failure. */
  const ENOMEM: int := 12
  const EFAULT: int := 14
  const ERESTARTSYS: int := 512

  /** `struct aesd_dev` without its mutex and cdev: the ring and the
      pending `add_entry` run that has not seen a newline yet. */
  datatype Device = Device(buffer: Ring, addEntry: seq<byte>)

  /** The logical byte stream a reader sees. */
  function Content(d: Device): seq<byte>
    requires WellFormed(d.buffer)
  {
    Concat(Live(d.buffer))
  }

  function Min(a: nat, b: nat): nat
  {
    if a <= b then a else b
  }

  /** Logical offset just past the entry that holds offset `off` of the
      stream of `es` (or the stream's length when `off` is past its end). */
  function EntryEnd(es: seq<Entry>, off: nat): nat
  {
    if |es| == 0 then 0
    else if off < es[0].Size() then es[0].Size()
    else es[0].Size() + EntryEnd(es[1..], off - es[0].Size())
  }

  lemma {:induction false} EntryEndAt(es: seq<Entry>, k: nat, o: nat)
    requires k < |es| && o < es[k].Size()
    ensures EntryEnd(es, Start(es, k) + o) == Start(es, k) + es[k].Size()
  {
    if k > 0 {
      ConcatCons(es[..k]);
      assert es[..k] == [es[0]] + es[1..][..k - 1];
      assert es[..k][1..] == es[1..][..k - 1];
      EntryEndAt(es[1..], k - 1, o);
    }
  }

  /** The device state after `aesd_init_module`: zeroed ring, no pending write. */
  function InitModule(): (d: Device)
    ensures Inv(d)
    ensures Live(d.buffer) == [] && Content(d) == [] && d.addEntry == []
  {
    Device(Init(), [])
  }

  // ---------------------------------------------------------------------
  // aesd_read

  /** What a read call hands back: its return value, the new `*f_pos`, and
      the bytes copied to the user buffer. */
  datatype ReadResult = ReadResult(retval: int, fpos: nat, out: seq<byte>)

  /** aesd_read. Reads at most `count` bytes from logical offset `fpos`,
      never past the end of the entry holding `fpos`; returns 0 at the end
      of the content and a negative errno, with `fpos` unchanged, when the
      lock wait is interrupted or the copy to user space faults. */
  function Read(d: Device, count: nat, fpos: nat, lockOk: bool, copyOk: bool): (r: ReadResult)
    requires WellFormed(d.buffer)
    ensures !lockOk ==> r == ReadResult(-ERESTARTSYS, fpos, [])
    ensures lockOk && fpos >= |Content(d)| ==> r == ReadResult(0, fpos, [])
    ensures lockOk && fpos < |Content(d)| && !copyOk ==> r == ReadResult(-EFAULT, fpos, [])
    ensures lockOk && fpos < |Content(d)| && copyOk ==>
              && fpos < EntryEnd(Live(d.buffer), fpos) <= |Content(d)|
              && r.retval == Min(count, EntryEnd(Live(d.buffer), fpos) - fpos)
              && r.fpos == fpos + r.retval
              && r.out == Content(d)[fpos..r.fpos]
  {
    if !lockOk then ReadResult(-ERESTARTSYS, fpos, [])
    else
      var found := FindEntryOffsetForFpos(Some(d.buffer), fpos, Some(0));
      match found.entry
      case None => ReadResult(0, fpos, [])
      case Some(slot) =>
        var entry := d.buffer.entry[slot];
        var entryOffset := found.rtn.value;
        var bytesToRead := Min(count, entry.Size() - entryOffset);
        if !copyOk then ReadResult(-EFAULT, fpos, [])
        else
          ReadFacts(d, fpos, slot, entryOffset, bytesToRead);
          ReadResult(bytesToRead, fpos + bytesToRead, entry.bytes[entryOffset..entryOffset + bytesToRead])
  }

  /** Ties the slot and offset the search returns to the logical stream. */
  lemma ReadFacts(d: Device, fpos: nat, slot: nat, entryOffset: nat, n: nat)
    requires WellFormed(d.buffer)
    requires FindEntryOffsetForFpos(Some(d.buffer), fpos, Some(0)) == FindResult(Some(slot), Some(entryOffset))
    requires n <= d.buffer.entry[slot].Size() - entryOffset
    ensures fpos < EntryEnd(Live(d.buffer), fpos) <= |Content(d)|
    ensures EntryEnd(Live(d.buffer), fpos) - fpos == d.buffer.entry[slot].Size() - entryOffset
    ensures Content(d)[fpos..fpos + n] == d.buffer.entry[slot].bytes[entryOffset..entryOffset + n]
  {
    var f := Locate(d.buffer, fpos).value;
    var live := Live(d.buffer);
    EntryEndAt(live, f.index, f.offset);
    ConcatSlice(live, f.index, f.offset, n);
    ConcatSlice(live, f.index, 0, live[f.index].Size());
  }

  /** A reader that calls `read` from offset 0 until it returns 0, as `cat`
      does, receives exactly the logical content of the ring. */
  method ReadToEnd(d: Device, count: nat) returns (content: seq<byte>)
    requires WellFormed(d.buffer) && count > 0
    ensures content == Content(d)
  {
    ghost var all := Content(d);
    content := [];
    var fpos: nat := 0;
    var r := Read(d, count, fpos, true, true);
    while r.retval != 0
      invariant fpos <= |all|
      invariant content == all[..fpos]
      invariant r == Read(d, count, fpos, true, true)
      decreases |all| - fpos
    {
      assert fpos < |all| && fpos < r.fpos <= |all| && r.out == all[fpos..r.fpos];
      assert all[..r.fpos] == all[..fpos] + all[fpos..r.fpos];
      content := content + r.out;
      fpos := r.fpos;
      r := Read(d, count, fpos, true, true);
    }
    assert fpos == |all|;
  }

  // ---------------------------------------------------------------------
  // aesd_write

  /** What a write call produces: its return value, the new device state,
      and the entry it releases (the evicted oldest entry, if any). */
  datatype WriteResult = WriteResult(retval: int, dev: Device, freed: Option<Entry>)

  /** aesd_write. The chunk is appended to the pending run; if the chunk
      holds a newline the whole pending run (including any bytes after the
      newline) is committed as one entry and the pending run is reset. On a
      full ring the commit overwrites, and releases, the slot at `inOffs`.
      The file position plays no part: the device only appends. */
  function Write(d: Device, chunk: seq<byte>, lockOk: bool, allocOk: bool, copyOk: bool): (r: WriteResult)
    requires WellFormed(d.buffer)
    ensures WellFormed(r.dev.buffer)
    ensures !lockOk ==> r == WriteResult(-ERESTARTSYS, d, None)
    ensures lockOk && !allocOk ==> r == WriteResult(-ENOMEM, d, None)
    ensures lockOk && allocOk && !copyOk ==> r == WriteResult(-EFAULT, d, None)
    ensures lockOk && allocOk && copyOk ==> r.retval == |chunk|
    ensures lockOk && allocOk && copyOk && Newline !in chunk ==>
              r.dev == Device(d.buffer, d.addEntry + chunk) && r.freed == None
    ensures lockOk && allocOk && copyOk && Newline in chunk ==>
              && r.dev.addEntry == []
              && (Valid(d.buffer) ==>
                    && Valid(r.dev.buffer)
                    && Live(r.dev.buffer) == (if d.buffer.full then Live(d.buffer)[1..] else Live(d.buffer)) + [Entry(d.addEntry + chunk)]
                    && r.freed == (if d.buffer.full then Some(Live(d.buffer)[0]) else None))
  {
    if !lockOk then WriteResult(-ERESTARTSYS, d, None)
    else if !allocOk then WriteResult(-ENOMEM, d, None)
    else if !copyOk then WriteResult(-EFAULT, d, None)
    else
      var pending := d.addEntry + chunk;
      if Newline in chunk then
        var entryToFree := if d.buffer.full then Some(d.buffer.entry[d.buffer.inOffs]) else None;
        assert Valid(d.buffer) && d.buffer.full ==> Live(d.buffer)[0] == d.buffer.entry[d.buffer.inOffs];
        WriteResult(|chunk|, Device(Add(d.buffer, Entry(pending)), []), entryToFree)
      else
        WriteResult(|chunk|, Device(d.buffer, pending), None)
  }

  // ---------------------------------------------------------------------
  // Device invariant

  /** Slots outside the live window hold nothing (NULL, size 0). */
  predicate UnusedSlotsEmpty(b: Ring)
    requires WellFormed(b)
  {
    forall k :: EntryCount(b) <= k < MaxWriteOperations ==> b.entry[Slot(b, k)] == EmptyEntry
  }

  /** The invariant the driver keeps between calls: a consistent ring whose
      unused slots are empty, whose every entry is a newline-terminated
      write, and a pending run that has not seen a newline. */
  predicate Inv(d: Device)
  {
    && Valid(d.buffer)
    && UnusedSlotsEmpty(d.buffer)
    && Newline !in d.addEntry
    && forall k :: 0 <= k < |Live(d.buffer)| ==> Newline in Live(d.buffer)[k].bytes
  }

  lemma AddKeepsUnusedEmpty(b: Ring, e: Entry)
    requires Valid(b) && UnusedSlotsEmpty(b)
    ensures UnusedSlotsEmpty(Add(b, e))
    ensures !b.full ==> b.entry[b.inOffs] == EmptyEntry
  {
    var r := Add(b, e);
    if !b.full {
      var n := EntryCount(b);
      assert b.entry[Slot(b, n)] == EmptyEntry;
      forall k | EntryCount(r) <= k < MaxWriteOperations
        ensures r.entry[Slot(r, k)] == EmptyEntry
      {
        assert Slot(r, k) == Slot(b, k);
        SlotInjective(b, k, n);
      }
    }
  }

  /** Every write outcome keeps the device invariant, and a commit never
      discards a live entry without handing it back: the slot it overwrites
      is either returned as `freed` or was empty. */
  lemma WritePreservesInv(d: Device, chunk: seq<byte>, lockOk: bool, allocOk: bool, copyOk: bool)
    requires Inv(d)
    ensures Inv(Write(d, chunk, lockOk, allocOk, copyOk).dev)
    ensures var r := Write(d, chunk, lockOk, allocOk, copyOk);
            r.dev.buffer != d.buffer ==>
              d.buffer.entry[d.buffer.inOffs] == (if r.freed.Some? then r.freed.value else EmptyEntry)
  {
    var r := Write(d, chunk, lockOk, allocOk, copyOk);
    if lockOk && allocOk && copyOk && Newline in chunk {
      var e := Entry(d.addEntry + chunk);
      AddKeepsUnusedEmpty(d.buffer, e);
      var live := Live(d.buffer);
      var live' := Live(r.dev.buffer);
      assert Newline in e.bytes;
      forall k | 0 <= k < |live'|
        ensures Newline in live'[k].bytes
      {
        if k < |live'| - 1 {
          assert live'[k] == (if d.buffer.full then live[k + 1] else live[k]);
        }
      }
    }
  }
}
