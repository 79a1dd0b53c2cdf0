/** The fixed-capacity ring of byte-run entries behind the aesd char device
    (aesd-char-driver/aesd-circular-buffer.c).

    A ring holds `MaxWriteOperations` slots, a write cursor `inOffs`, a read
    cursor `outOffs` and a `full` flag. Its meaning is the abstraction
    `Live(b)`: the entries from `outOffs` onwards, oldest first, and
    `Concat(Live(b))`, the logical byte stream that file offsets address. */
module CircularBuffer {
  import opened Base

  /** Number of slots (AESDCHAR_MAX_WRITE_OPERATIONS_SUPPORTED). */
  const MaxWriteOperations: nat := 10

  /** One committed write: its bytes; `Size()` is the C `size` field. */
  datatype Entry = Entry(bytes: seq<byte>)
  {
    function Size(): nat { |bytes| }
  }

  /** A zeroed slot: NULL `buffptr`, `size` 0. */
  const EmptyEntry := Entry([])

  datatype Ring = Ring(entry: seq<Entry>, inOffs: nat, outOffs: nat, full: bool)

  /** The shape every C access relies on: the slot array has its fixed
      length and both cursors index into it. */
  predicate WellFormed(b: Ring)
  {
    |b.entry| == MaxWriteOperations && b.inOffs < MaxWriteOperations && b.outOffs < MaxWriteOperations
  }

  /** The invariant every reachable ring keeps: a full ring has its two
      cursors on the same slot. */
  predicate Valid(b: Ring)
  {
    WellFormed(b) && (b.full ==> b.inOffs == b.outOffs)
  }

  /** Cursor advance `(i + 1) % AESDCHAR_MAX_WRITE_OPERATIONS_SUPPORTED`. */
  function Next(i: nat): (j: nat)
    requires i < MaxWriteOperations
    ensures j == if i + 1 == MaxWriteOperations then 0 else i + 1
  {
    (i + 1) % MaxWriteOperations
  }

  /** Physical slot of the `k`-th live entry, counting from the read cursor. */
  function Slot(b: Ring, k: nat): (s: nat)
    requires WellFormed(b) && k <= MaxWriteOperations
    ensures s < MaxWriteOperations
  {
    if b.outOffs + k < MaxWriteOperations then b.outOffs + k else b.outOffs + k - MaxWriteOperations
  }

  /** Number of live entries, computed as the search loop computes it. */
  function EntryCount(b: Ring): (n: nat)
    requires WellFormed(b)
    ensures n <= MaxWriteOperations
    ensures n == MaxWriteOperations <==> b.full
    ensures n == 0 <==> !b.full && b.inOffs == b.outOffs
    ensures Valid(b) ==> Slot(b, n) == b.inOffs
  {
    if b.full then MaxWriteOperations
    else if b.inOffs >= b.outOffs then b.inOffs - b.outOffs
    else MaxWriteOperations + b.inOffs - b.outOffs
  }

  /** The live entries, oldest first. */
  function Live(b: Ring): seq<Entry>
    requires WellFormed(b)
  {
    seq(EntryCount(b), k requires 0 <= k < EntryCount(b) => b.entry[Slot(b, k)])
  }

  /** The byte runs the entries hold, in order. */
  function Runs(es: seq<Entry>): seq<seq<byte>>
  {
    seq(|es|, i requires 0 <= i < |es| => es[i].bytes)
  }

  /** The bytes of `es` laid end to end: the logical stream of a ring. */
  function Concat(es: seq<Entry>): seq<byte>
  {
    Flatten(Runs(es))
  }

  /** Logical offset at which the `k`-th entry of `es` starts. */
  function Start(es: seq<Entry>, k: nat): nat
    requires k <= |es|
  {
    |Concat(es[..k])|
  }

  // ---------------------------------------------------------------------
  // Concatenation facts

  lemma ConcatAppend(a: seq<Entry>, c: seq<Entry>)
    ensures Concat(a + c) == Concat(a) + Concat(c)
  {
    assert Runs(a + c) == Runs(a) + Runs(c);
    FlattenAppend(Runs(a), Runs(c));
  }

  /** The stream of a non-empty list is its first entry's bytes followed by
      the stream of the rest. */
  lemma ConcatCons(es: seq<Entry>)
    requires |es| > 0
    ensures Concat(es) == es[0].bytes + Concat(es[1..])
  {
    assert Runs(es)[1..] == Runs(es[1..]);
  }

  /** The stream splits around the `k`-th entry. */
  lemma ConcatSplit(es: seq<Entry>, k: nat)
    requires k < |es|
    ensures Concat(es) == Concat(es[..k]) + es[k].bytes + Concat(es[k + 1..])
  {
    assert es == es[..k] + es[k..];
    ConcatAppend(es[..k], es[k..]);
    ConcatCons(es[k..]);
    assert es[k..][1..] == es[k + 1..];
  }

  /** Offset `o` inside entry `k` is byte `Start(es, k) + o` of the stream,
      and a run that stays inside the entry is a slice of the stream. */
  lemma ConcatSlice(es: seq<Entry>, k: nat, o: nat, n: nat)
    requires k < |es| && o + n <= es[k].Size()
    ensures Start(es, k) + o + n <= |Concat(es)|
    ensures Concat(es)[Start(es, k) + o .. Start(es, k) + o + n] == es[k].bytes[o .. o + n]
    ensures o < es[k].Size() ==> Start(es, k) + o < |Concat(es)| && Concat(es)[Start(es, k) + o] == es[k].bytes[o]
  {
    ConcatSplit(es, k);
  }

  /** The byte count of entries `i..k` splits off its first entry. */
  lemma ConcatRangeStep(es: seq<Entry>, i: nat, k: nat)
    requires i < k <= |es|
    ensures |Concat(es[i..k])| == es[i].Size() + |Concat(es[i + 1..k])|
  {
    ConcatCons(es[i..k]);
    assert es[i..k][1..] == es[i + 1..k];
  }

  // ---------------------------------------------------------------------
  // aesd_circular_buffer_init

  /** `memset(buffer, 0, sizeof *buffer)`: every slot empty, both cursors 0. */
  function Init(): (b: Ring)
    ensures Valid(b) && !b.full && b.inOffs == 0 && b.outOffs == 0
    ensures Live(b) == [] && Concat(Live(b)) == []
    ensures forall i :: 0 <= i < MaxWriteOperations ==> b.entry[i] == EmptyEntry
  {
    Ring(seq(MaxWriteOperations, _ => EmptyEntry), 0, 0, false)
  }

  // ---------------------------------------------------------------------
  // aesd_circular_buffer_find_entry_offset_for_fpos

  /** Where a logical offset lands: the `index`-th live entry, which sits in
      physical slot `slot`, at byte `offset` of that entry. */
  datatype Found = Found(index: nat, slot: nat, offset: nat)

  /** The search loop, one iteration per call: `i` entries have been passed,
      `index` is the slot of the next one, `charOffset` what is left of the
      requested offset. */
  function Search(b: Ring, i: nat, index: nat, charOffset: nat): (r: Option<Found>)
    requires WellFormed(b) && i <= EntryCount(b) && index == Slot(b, i)
    decreases EntryCount(b) - i
    ensures r.Some? <==> charOffset < |Concat(Live(b)[i..])|
    ensures r.Some? ==>
              && i <= r.value.index < EntryCount(b)
              && r.value.slot == Slot(b, r.value.index)
              && charOffset == |Concat(Live(b)[i..r.value.index])| + r.value.offset
              && r.value.offset < Live(b)[r.value.index].Size()
  {
    var live := Live(b);
    if i == EntryCount(b) then
      assert live[i..] == [];
      None
    else
      ConcatCons(live[i..]);
      assert live[i..][1..] == live[i + 1..];
      assert live[i] == b.entry[index];
      if charOffset < b.entry[index].Size() then
        assert live[i..i] == [];
        Some(Found(i, index, charOffset))
      else
        var r := Search(b, i + 1, Next(index), charOffset - b.entry[index].Size());
        if r.Some? then
          ConcatRangeStep(live, i, r.value.index);
          r
        else
          r
  }

  /** Everything the search says about a ring, stated on the live entries:
      the offset is found exactly when it lies inside the logical stream,
      and then it names the entry and in-entry byte that hold it. */
  function Locate(b: Ring, charOffset: nat): (r: Option<Found>)
    requires WellFormed(b)
    ensures r.Some? <==> charOffset < |Concat(Live(b))|
    ensures r.Some? ==>
              && r.value.index < |Live(b)|
              && r.value.slot == Slot(b, r.value.index)
              && b.entry[r.value.slot] == Live(b)[r.value.index]
              && charOffset == Start(Live(b), r.value.index) + r.value.offset
              && r.value.offset < Live(b)[r.value.index].Size()
              && Concat(Live(b))[charOffset] == Live(b)[r.value.index].bytes[r.value.offset]
  {
    var live := Live(b);
    assert live[0..] == live;
    var r := Search(b, 0, b.outOffs, charOffset);
    if r.Some? then
      assert live[0..r.value.index] == live[..r.value.index];
      ConcatSlice(live, r.value.index, r.value.offset, 0);
      r
    else
      r
  }

  /** What the C function hands back: a pointer to a slot (here its index,
      `None` for NULL) and the final value of `*entry_offset_byte_rtn`
      (`None` when the caller passed a NULL pointer). */
  datatype FindResult = FindResult(entry: Option<nat>, rtn: Option<nat>)

  /** aesd_circular_buffer_find_entry_offset_for_fpos. A NULL buffer yields
      NULL; otherwise the slot holding logical byte `charOffset`, or NULL at
      and past the end of the stream. The out-pointer is written only on
      success. The ring is a value, so the search cannot modify it. */
  function FindEntryOffsetForFpos(buffer: Option<Ring>, charOffset: nat, rtn: Option<nat>): (r: FindResult)
    requires buffer.Some? ==> WellFormed(buffer.value)
    ensures buffer.None? ==> r == FindResult(None, rtn)
    ensures buffer.Some? ==>
              var b := buffer.value;
              && (r.entry.Some? <==> charOffset < |Concat(Live(b))|)
              && (r.entry.None? ==> r.rtn == rtn)
              && (r.entry.Some? ==>
                    && r.entry.value < MaxWriteOperations
                    && (rtn.Some? ==> r.rtn.Some?)
                    && (rtn.None? ==> r.rtn.None?)
                    && (r.rtn.Some? ==>
                          && r.rtn.value < b.entry[r.entry.value].Size()
                          && Concat(Live(b))[charOffset] == b.entry[r.entry.value].bytes[r.rtn.value])
                    && var f := Locate(b, charOffset).value;
                       && r.entry.value == f.slot
                       && r.rtn == (if rtn.Some? then Some(f.offset) else None))
  {
    match buffer
    case None => FindResult(None, rtn)
    case Some(b) =>
      match Locate(b, charOffset)
      case None => FindResult(None, rtn)
      case Some(f) => FindResult(Some(f.slot), if rtn.Some? then Some(f.offset) else None)
  }

  /** Adding the `k`-th entry's bytes moves its start to the next one's. */
  lemma StartStep(es: seq<Entry>, k: nat)
    requires k < |es|
    ensures Start(es, k + 1) == Start(es, k) + es[k].Size()
  {
    assert es[..k + 1] == es[..k] + [es[k]];
    ConcatAppend(es[..k], [es[k]]);
    ConcatCons([es[k]]);
    assert [es[k]][1..] == [];
  }

  lemma {:induction false} StartMonotone(es: seq<Entry>, j: nat, k: nat)
    requires j <= k <= |es|
    ensures Start(es, j) <= Start(es, k)
    decreases k - j
  {
    if j < k {
      StartStep(es, j);
      StartMonotone(es, j + 1, k);
    }
  }

  /** The lookup inverts the layout of the stream: byte `o` of the `k`-th
      live entry is found in that entry's slot, at in-entry offset `o`. */
  lemma FindInvertsLayout(b: Ring, k: nat, o: nat, rtn: nat)
    requires WellFormed(b) && k < |Live(b)| && o < Live(b)[k].Size()
    ensures FindEntryOffsetForFpos(Some(b), Start(Live(b), k) + o, Some(rtn)) == FindResult(Some(Slot(b, k)), Some(o))
  {
    var live := Live(b);
    var off := Start(live, k) + o;
    ConcatSlice(live, k, o, 0);
    var f := Locate(b, off).value;
    if f.index < k {
      StartStep(live, f.index);
      StartMonotone(live, f.index + 1, k);
    } else if f.index > k {
      StartStep(live, k);
      StartMonotone(live, k + 1, f.index);
    }
  }

  // ---------------------------------------------------------------------
  // aesd_circular_buffer_add_entry

  /** Slots other than the written one keep their entries. */
  lemma SlotInjective(b: Ring, j: nat, k: nat)
    requires WellFormed(b) && j <= MaxWriteOperations && k <= MaxWriteOperations
    requires j != k && !(j == 0 && k == MaxWriteOperations) && !(k == 0 && j == MaxWriteOperations)
    ensures Slot(b, j) != Slot(b, k)
  {
  }

  lemma AddNotFullLive(b: Ring, e: Entry, r: Ring)
    requires Valid(b) && !b.full
    requires r == Ring(b.entry[b.inOffs := e], Next(b.inOffs), b.outOffs, Next(b.inOffs) == b.outOffs)
    ensures WellFormed(r) && EntryCount(r) == EntryCount(b) + 1
    ensures Live(r) == Live(b) + [e]
  {
  }

  lemma AddFullLive(b: Ring, e: Entry, r: Ring)
    requires Valid(b) && b.full
    requires r == Ring(b.entry[b.inOffs := e], Next(b.inOffs), Next(b.outOffs), true)
    ensures Valid(r) && EntryCount(r) == MaxWriteOperations
    ensures Live(r) == Live(b)[1..] + [e]
  {
  }

  /** The body of aesd_circular_buffer_add_entry for a non-NULL buffer and
      entry. Writes the slot at `inOffs`; on a full ring that slot is the
      oldest live entry, which is overwritten, and the read cursor moves on. */
  function Add(b: Ring, e: Entry): (r: Ring)
    requires WellFormed(b)
    ensures WellFormed(r)
    ensures Valid(b) ==> Valid(r)
    ensures b.full ==> r.full
    ensures !b.full ==> r.outOffs == b.outOffs
    ensures r.full <==> b.full || r.inOffs == r.outOffs
    ensures Valid(b) && !b.full ==> Live(r) == Live(b) + [e]
    ensures Valid(b) && b.full ==> Live(r) == Live(b)[1..] + [e]
    ensures Valid(b) ==> EntryCount(r) == if b.full then MaxWriteOperations else EntryCount(b) + 1
  {
    var entry := b.entry[b.inOffs := e];
    var inOffs := Next(b.inOffs);
    var outOffs := if b.full then Next(b.outOffs) else b.outOffs;
    var r := Ring(entry, inOffs, outOffs, b.full || inOffs == outOffs);
    if Valid(b) && !b.full then
      AddNotFullLive(b, e, r);
      r
    else if Valid(b) then
      AddFullLive(b, e, r);
      r
    else
      r
  }

  /** aesd_circular_buffer_add_entry, including its NULL guards: a NULL
      buffer or a NULL entry leaves everything as it was. */
  function AddEntry(buffer: Option<Ring>, addEntry: Option<Entry>): (r: Option<Ring>)
    requires buffer.Some? ==> WellFormed(buffer.value)
    ensures r.Some? <==> buffer.Some?
    ensures addEntry.None? ==> r == buffer
    ensures buffer.Some? && addEntry.Some? && Valid(buffer.value) ==>
              && Valid(r.value)
              && Live(r.value) == (if buffer.value.full then Live(buffer.value)[1..] else Live(buffer.value)) + [addEntry.value]
  {
    if buffer.Some? && addEntry.Some? then Some(Add(buffer.value, addEntry.value)) else buffer
  }

  // ---------------------------------------------------------------------
  // Sequences of insertions

  /** The last `n` elements of `s` (all of `s` when it is shorter). */
  function Keep(s: seq<Entry>, n: nat): (r: seq<Entry>)
  {
    if |s| <= n then s else s[|s| - n..]
  }

  /** The ring after inserting `es` in order. */
  function AddAll(b: Ring, es: seq<Entry>): (r: Ring)
    requires WellFormed(b)
    ensures WellFormed(r)
    ensures Valid(b) ==> Valid(r)
  {
    if |es| == 0 then b else Add(AddAll(b, es[..|es| - 1]), es[|es| - 1])
  }

  /** One insertion keeps the newest `MaxWriteOperations` entries. */
  lemma AddKeeps(b: Ring, e: Entry)
    requires Valid(b)
    ensures Live(Add(b, e)) == Keep(Live(b) + [e], MaxWriteOperations)
  {
  }

  lemma KeepKeep(x: seq<Entry>, e: Entry, n: nat)
    requires n > 0
    ensures Keep(Keep(x, n) + [e], n) == Keep(x + [e], n)
  {
  }

  /** Bounded eviction: after any run of insertions the ring holds exactly
      the newest `MaxWriteOperations` entries, oldest first. */
  lemma {:induction false} AddAllKeepsNewest(b: Ring, es: seq<Entry>)
    requires Valid(b)
    ensures Live(AddAll(b, es)) == Keep(Live(b) + es, MaxWriteOperations)
  {
    if |es| == 0 {
      assert Live(b) + es == Live(b);
    } else {
      var front := es[..|es| - 1];
      var last := es[|es| - 1];
      AddAllKeepsNewest(b, front);
      AddKeeps(AddAll(b, front), last);
      KeepKeep(Live(b) + front, last, MaxWriteOperations);
      assert Live(b) + front + [last] == Live(b) + es;
    }
  }

  /** From a freshly initialised ring, `find` answers NULL at every offset. */
  lemma InitFindsNothing(charOffset: nat, rtn: Option<nat>)
    ensures FindEntryOffsetForFpos(Some(Init()), charOffset, rtn) == FindResult(None, rtn)
  {
  }
}
