// The rebinding engine of tools/z3-bench/fishhook.c: a bump heap holding a linked
// list of batches, loops over load commands, sections and slots, and the two
// entry points.  Every method is tied to the value-level steps of Rebindings.dfy.
module Fishhook {
  import opened Common
  import opened Rebindings

  const HEAP_BYTES: nat := 16 * 1024
  const ENTRY_BYTES: nat := 24
  const REBINDING_BYTES: nat := 24

  // What the engine stores in its heap, by offset.
  datatype HeapStruct =
    | EntryStruct(rebindings: nat, nel: nat, next: Option<nat>)
    | RebindingStruct(rebinding: Rebinding)

  type Heap = map<nat, HeapStruct>

  // ---------- The list of batches in the heap ----------

  ghost predicate ArrayOk(heap: Heap, base: nat, nel: nat) {
    forall j :: 0 <= j < nel ==> base + REBINDING_BYTES * j in heap && heap[base + REBINDING_BYTES * j].RebindingStruct?
  }

  ghost function ArrayAt(heap: Heap, base: nat, nel: nat): (b: Batch)
    requires ArrayOk(heap, base, nel)
    ensures |b| == nel
  {
    seq(nel, j requires 0 <= j < nel => heap[base + REBINDING_BYTES * j].rebinding)
  }

  // The list starting at p lies below limit, each entry above the older ones.
  ghost predicate ListOk(heap: Heap, p: Option<nat>, limit: nat)
    decreases limit
  {
    p.Some? ==>
      var q := p.value;
      && q in heap && heap[q].EntryStruct?
      && q + ENTRY_BYTES <= heap[q].rebindings
      && heap[q].rebindings + REBINDING_BYTES * heap[q].nel <= limit
      && q < limit
      && ArrayOk(heap, heap[q].rebindings, heap[q].nel)
      && ListOk(heap, heap[q].next, q)
  }

  // The batches of a list, oldest first.
  ghost function ListLog(heap: Heap, p: Option<nat>, limit: nat): seq<Batch>
    requires ListOk(heap, p, limit)
    decreases limit
  {
    if p.None? then []
    else
      var e := heap[p.value];
      ListLog(heap, e.next, p.value) + [ArrayAt(heap, e.rebindings, e.nel)]
  }

  ghost predicate AgreeBelow(heap: Heap, heap': Heap, limit: nat) {
    forall a :: a < limit && a in heap ==> a in heap' && heap'[a] == heap[a]
  }

  // Writing at or above limit leaves the list below it alone.
  lemma {:induction false} ListFrame(heap: Heap, heap': Heap, p: Option<nat>, limit: nat)
    requires ListOk(heap, p, limit) && AgreeBelow(heap, heap', limit)
    ensures ListOk(heap', p, limit) && ListLog(heap', p, limit) == ListLog(heap, p, limit)
    decreases limit
  {
    if p.Some? {
      var e := heap[p.value];
      ListFrame(heap, heap', e.next, p.value);
      assert ArrayAt(heap', e.rebindings, e.nel) == ArrayAt(heap, e.rebindings, e.nel);
    }
  }

  lemma ListWiden(heap: Heap, p: Option<nat>, limit: nat, wider: nat)
    requires ListOk(heap, p, limit) && limit <= wider
    ensures ListOk(heap, p, wider) && ListLog(heap, p, wider) == ListLog(heap, p, limit)
  {
  }

  ghost predicate Copied(heap: Heap, base: nat, batch: Batch) {
    forall j :: 0 <= j < |batch| ==>
      base + REBINDING_BYTES * j in heap && heap[base + REBINDING_BYTES * j] == RebindingStruct(batch[j])
  }

  // A batch copied behind a new entry at p extends the list h below p.
  lemma NewEntryOk(before: Heap, copied: Heap, h: Option<nat>, p: nat, batch: Batch)
    requires ListOk(before, h, p) && AgreeBelow(before, copied, p)
    requires Copied(copied, p + ENTRY_BYTES, batch)
    ensures var heap := copied[p := EntryStruct(p + ENTRY_BYTES, |batch|, h)];
            var limit := p + ENTRY_BYTES + REBINDING_BYTES * |batch|;
            && AgreeBelow(before, heap, p)
            && ListOk(heap, Some(p), limit)
            && ListLog(heap, Some(p), limit) == ListLog(before, h, p) + [batch]
  {
    var base := p + ENTRY_BYTES;
    var heap := copied[p := EntryStruct(base, |batch|, h)];
    ListFrame(before, heap, h, p);
    assert Copied(heap, base, batch);
    CopiedArray(heap, base, batch);
  }

  lemma CopiedArray(heap: Heap, base: nat, batch: Batch)
    requires Copied(heap, base, batch)
    ensures ArrayOk(heap, base, |batch|) && ArrayAt(heap, base, |batch|) == batch
  {
    assert ArrayOk(heap, base, |batch|);
  }

  // The entry offsets met by following next.
  ghost function ListOffsets(heap: Heap, p: Option<nat>, limit: nat): seq<nat>
    requires ListOk(heap, p, limit)
    decreases limit
  {
    if p.None? then [] else [p.value] + ListOffsets(heap, heap[p.value].next, p.value)
  }

  // The list is acyclic: following next strictly descends through the heap.
  lemma {:induction false} ListDescends(heap: Heap, p: Option<nat>, limit: nat)
    requires ListOk(heap, p, limit)
    ensures var os := ListOffsets(heap, p, limit);
            && |os| == |ListLog(heap, p, limit)|
            && (forall i :: 0 <= i < |os| ==> os[i] < limit)
            && (forall i, j :: 0 <= i < j < |os| ==> os[j] + ENTRY_BYTES <= os[i])
    decreases limit
  {
    if p.Some? {
      ListDescends(heap, heap[p.value].next, p.value);
      ListEntriesBelow(heap, heap[p.value].next, p.value);
    }
  }

  lemma {:induction false} ListEntriesBelow(heap: Heap, p: Option<nat>, limit: nat)
    requires ListOk(heap, p, limit)
    ensures forall i :: 0 <= i < |ListOffsets(heap, p, limit)| ==> ListOffsets(heap, p, limit)[i] + ENTRY_BYTES <= limit
    decreases limit
  {
    if p.Some? {
      ListEntriesBelow(heap, heap[p.value].next, p.value);
    }
  }

  // ---------- Bump allocation ----------

  // Offsets given out for a sequence of sizes, or None once one does not fit.
  function Allocate(sizes: seq<nat>, start: nat): Option<seq<nat>> {
    if sizes == [] then Some([])
    else if start + sizes[0] > HEAP_BYTES then None
    else match Allocate(sizes[1..], start + sizes[0])
      case None => None
      case Some(os) => Some([start] + os)
  }

  function Sum(sizes: seq<nat>): nat {
    if sizes == [] then 0 else sizes[0] + Sum(sizes[1..])
  }

  lemma AllocationFits(sizes: seq<nat>, start: nat)
    requires start <= HEAP_BYTES
    ensures Allocate(sizes, start).Some? <==> start + Sum(sizes) <= HEAP_BYTES
  {
    BlocksDisjoint(sizes, start);
  }

  lemma AllocateTwo(a: nat, b: nat, start: nat)
    requires start + a + b <= HEAP_BYTES
    ensures Allocate([a, b], start) == Some([start, start + a])
  {
    assert [a, b][1..] == [b] && [b][1..] == [];
    assert Allocate([], start + a + b) == Some([]);
    assert [start + a] + [] == [start + a] && [start] + [start + a] == [start, start + a];
    assert Allocate([b], start + a) == Some([start + a]);
  }

  // Allocation succeeds exactly while the sizes fit, and then the blocks are
  // disjoint, in order, and inside the heap.
  lemma {:induction false} BlocksDisjoint(sizes: seq<nat>, start: nat)
    requires start <= HEAP_BYTES
    ensures Allocate(sizes, start).Some? <==> start + Sum(sizes) <= HEAP_BYTES
    ensures var r := Allocate(sizes, start);
            r.Some? ==>
              && |r.value| == |sizes|
              && (forall i :: 0 <= i < |sizes| ==> start <= r.value[i] && r.value[i] + sizes[i] <= HEAP_BYTES)
              && (forall i, j :: 0 <= i < j < |sizes| ==> r.value[i] + sizes[i] <= r.value[j])
  {
    if sizes != [] && start + sizes[0] <= HEAP_BYTES {
      BlocksDisjoint(sizes[1..], start + sizes[0]);
    }
  }

  // ---------- Images as laid out in memory ----------

  // Load commands by byte address, relative to the image header.
  function CommandOffset(cmds: seq<LoadCommand>, i: nat): nat
    requires i <= |cmds|
  {
    if i == 0 then HEADER_SIZE else CommandOffset(cmds, i - 1) + cmds[i - 1].cmdsize
  }

  // The first load command comes right behind the header, each other one behind
  // its predecessor.
  lemma OffsetsExactly(cmds: seq<LoadCommand>, i: nat)
    requires i < |cmds|
    ensures CommandOffset(cmds, 0) == 32
    ensures CommandOffset(cmds, i + 1) == CommandOffset(cmds, i) + cmds[i].cmdsize
  {
  }

  function LayOut(cmds: seq<LoadCommand>, i: nat): map<nat, LoadCommand>
    requires i <= |cmds|
  {
    if i == 0 then map[] else LayOut(cmds, i - 1)[CommandOffset(cmds, i - 1) := cmds[i - 1]]
  }

  lemma {:induction false} OffsetsIncrease(cmds: seq<LoadCommand>, k: nat, i: nat)
    requires k < i <= |cmds| && forall k :: 0 <= k < |cmds| ==> cmds[k].cmdsize > 0
    ensures CommandOffset(cmds, k) < CommandOffset(cmds, i)
  {
    if k < i - 1 {
      OffsetsIncrease(cmds, k, i - 1);
    }
  }

  // The byte cursor finds each load command where its predecessors' sizes put it.
  lemma {:induction false} LayOutFaithful(cmds: seq<LoadCommand>, i: nat, k: nat)
    requires k < i <= |cmds| && forall k :: 0 <= k < |cmds| ==> cmds[k].cmdsize > 0
    ensures CommandOffset(cmds, k) in LayOut(cmds, i) && LayOut(cmds, i)[CommandOffset(cmds, k)] == cmds[k]
  {
    if k < i - 1 {
      OffsetsIncrease(cmds, k, i - 1);
      LayOutFaithful(cmds, i - 1, k);
    }
  }

  lemma ImageLaidOut(img: Image)
    requires ImageOk(img)
    ensures LaidOut(img, LayOut(img.commands, |img.commands|))
  {
    forall k | 0 <= k < |img.commands| ensures CommandAt(img, LayOut(img.commands, |img.commands|), k) {
      LayOutFaithful(img.commands, |img.commands|, k);
    }
  }

  // The tables of an image cover its pointer sections.
  ghost predicate IndexOk(img: Image, k: nat) {
    k < |img.indirect| && (!IsSpecialIndex(img.indirect[k]) ==> img.indirect[k] < |img.symtab|)
  }

  ghost predicate SectionOk(img: Image, sec: Section) {
    forall k :: sec.reserved1 <= k < sec.reserved1 + sec.size / POINTER_SIZE ==> IndexOk(img, k)
  }

  ghost predicate ImageOk(img: Image) {
    && (forall i :: 0 <= i < |img.commands| ==> img.commands[i].cmdsize > 0)
    && (forall i, j :: 0 <= i < |img.commands| && img.commands[i].Segment? && 0 <= j < |img.commands[i].sections| ==>
          (IsDataSegment(img.commands[i]) && IsPointerSection(img.commands[i].sections[j]) ==>
             SectionOk(img, img.commands[i].sections[j])))
  }

  ghost predicate CommandAt(img: Image, at: map<nat, LoadCommand>, i: nat) {
    i < |img.commands| && CommandOffset(img.commands, i) in at && at[CommandOffset(img.commands, i)] == img.commands[i]
  }

  ghost predicate LaidOut(img: Image, at: map<nat, LoadCommand>) {
    forall i :: 0 <= i < |img.commands| ==> CommandAt(img, at, i)
  }

  // ---------- The engine ----------

  class Process {
    var heap: Heap
    var cur: nat
    var head: Option<nat>
    var mem: map<int, int>
    var calls: nat
    var images: seq<Image>
    var registrations: nat
    const protects: nat -> bool

    constructor (protection: nat -> bool)
      ensures Valid() && Abs() == Initial && protects == protection && cur == 0
    {
      heap, cur, head := map[], 0, None;
      mem, calls, images, registrations := map[], 0, [], 0;
      protects := protection;
    }

    ghost predicate Valid()
      reads this
    {
      && cur <= HEAP_BYTES
      && ListOk(heap, head, cur)
      && (forall i :: 0 <= i < |images| ==> ImageOk(images[i]) && SlotsMapped(images[i]))
    }

    ghost predicate SlotsMapped(img: Image)
      reads this`mem
    {
      MappedIn(TargetSlots(img), mem)
    }

    ghost function Log(): seq<Batch>
      requires ListOk(heap, head, cur)
      reads this
    {
      ListLog(heap, head, cur)
    }

    ghost function Words(): World
      reads this`mem, this`calls
    {
      World(mem, calls)
    }

    // The value-level state that this process represents.
    ghost function Abs(): State
      requires ListOk(heap, head, cur)
      reads this
    {
      State(Log(), images, Words(), registrations)
    }

    // None stands for abort().
    method Malloc(sz: nat) returns (p: Option<nat>)
      modifies this`cur
      ensures p == if old(cur) + sz > 16384 then None else Some(old(cur))
      ensures cur == if p.None? then old(cur) else old(cur) + sz
    {
      var next := cur + sz;
      if next > HEAP_BYTES {
        return None;
      }
      p := Some(cur);
      cur := next;
    }

    // Blocks of the given sizes, one after the other; None stands for abort().
    method MallocEach(sizes: seq<nat>) returns (r: Option<seq<nat>>)
      requires cur <= HEAP_BYTES
      modifies this`cur
      ensures r == Allocate(sizes, old(cur))
      ensures old(cur) <= cur <= HEAP_BYTES
      ensures r.Some? ==> cur == old(cur) + Sum(sizes)
    {
      var blocks: seq<nat> := [];
      ghost var all := Allocate(sizes, cur);
      assert all.Some? ==> blocks + all.value == all.value;
      assert sizes[0..] == sizes;
      for i := 0 to |sizes|
        invariant old(cur) <= cur <= HEAP_BYTES
        invariant cur + Sum(sizes[i..]) == old(cur) + Sum(sizes)
        invariant all
               == match Allocate(sizes[i..], cur)
                  case None => None
                  case Some(os) => Some(blocks + os)
      {
        assert sizes[i..][1..] == sizes[i + 1..];
        var p := Malloc(sizes[i]);
        if p.None? {
          return None;
        }
        ghost var later := Allocate(sizes[i + 1..], cur);
        assert later.Some? ==> blocks + ([p.value] + later.value) == blocks + [p.value] + later.value;
        blocks := blocks + [p.value];
      }
      assert sizes[|sizes|..] == [];
      assert blocks + [] == blocks;
      r := Some(blocks);
    }

    // Puts a batch in front of the list h; None stands for abort().
    method PrependRebindings(h: Option<nat>, batch: Batch) returns (r: Option<Option<nat>>)
      requires cur <= HEAP_BYTES && ListOk(heap, h, cur)
      modifies this`heap, this`cur
      ensures r.None? <==> old(cur) + 24 + 24 * |batch| > 16384
      ensures r.None? ==>
                heap == old(heap) && ListOk(heap, h, cur) && ListLog(heap, h, cur) == old(ListLog(heap, h, cur))
      ensures old(cur) <= cur <= HEAP_BYTES && AgreeBelow(old(heap), heap, old(cur))
      ensures r.Some? ==>
                && cur == old(cur) + 24 + 24 * |batch|
                && ListOk(heap, r.value, cur)
                && ListLog(heap, r.value, cur) == old(ListLog(heap, h, cur)) + [batch]
      ensures r.Some? ==>
                && r.value.Some? && r.value.value in heap && heap[r.value.value].EntryStruct?
                && Allocate([ENTRY_BYTES, REBINDING_BYTES * |batch|], old(cur))
                   == Some([r.value.value, heap[r.value.value].rebindings])
    {
      var entry := Malloc(ENTRY_BYTES);
      if entry.None? {
        return None;
      }
      var array' := Malloc(REBINDING_BYTES * |batch|);
      if array'.None? {
        ListWiden(heap, h, old(cur), cur);
        return None;
      }
      CopyBatch(array'.value, batch);
      ghost var copied := heap;
      heap := heap[entry.value := EntryStruct(array'.value, |batch|, h)];
      NewEntryOk(old(heap), copied, h, entry.value, batch);
      AllocateTwo(ENTRY_BYTES, REBINDING_BYTES * |batch|, old(cur));
      r := Some(Some(entry.value));
    }

    // memcpy of the caller's array.
    method CopyBatch(base: nat, batch: Batch)
      modifies this`heap
      ensures AgreeBelow(old(heap), heap, base)
      ensures Copied(heap, base, batch)
    {
      for j := 0 to |batch|
        invariant AgreeBelow(old(heap), heap, base)
        invariant forall i :: 0 <= i < j ==>
                    base + REBINDING_BYTES * i in heap && heap[base + REBINDING_BYTES * i] == RebindingStruct(batch[i])
      {
        heap := heap[base + REBINDING_BYTES * j := RebindingStruct(batch[j])];
      }
    }

    // Saves the binding at addr and writes the replacement if the page can be made writable.
    method WriteSlot(addr: int, r: Rebinding)
      requires addr in mem
      modifies this`mem, this`calls
      ensures Words() == Rewritten(protects, old(Words()), addr, r)
      ensures old(mem).Keys <= mem.Keys
    {
      if r.replaced.Some? && mem[addr] != r.replacement {
        mem := mem[r.replaced.value := mem[addr]];
      }
      var writable := protects(calls);
      calls := calls + 1;
      if writable {
        mem := mem[addr := r.replacement];
      }
    }

    // The first rebinding of one batch that names the symbol, or nel.
    method FindInEntry(base: nat, nel: nat, symbol: string) returns (j: nat)
      requires ArrayOk(heap, base, nel)
      ensures j <= nel
      ensures |symbol| > 1 ==> forall i :: 0 <= i < j ==> ArrayAt(heap, base, nel)[i].name != symbol[1..]
      ensures j < nel ==>
                && |symbol| > 1 && ArrayAt(heap, base, nel)[j].name == symbol[1..]
                && ArrayAt(heap, base, nel)[j] == heap[base + REBINDING_BYTES * j].rebinding
      ensures |symbol| <= 1 ==> j == nel
    {
      var longerThan1 := |symbol| > 1;
      ghost var batch := ArrayAt(heap, base, nel);
      j := 0;
      while j < nel
        invariant 0 <= j <= nel
        invariant longerThan1 ==> forall i :: 0 <= i < j ==> batch[i].name != symbol[1..]
      {
        var r := heap[base + REBINDING_BYTES * j].rebinding;
        assert batch[j] == r;
        if longerThan1 && symbol[1..] == r.name {
          return;
        }
        j := j + 1;
      }
    }

    // Walks the list, newest batch first, to the first rebinding of the symbol.
    method FindRebinding(list: Option<nat>, ghost limit: nat, symbol: string) returns (r: Option<Rebinding>)
      requires ListOk(heap, list, limit)
      ensures r == Decider(ListLog(heap, list, limit), EffectiveName(symbol))
    {
      ghost var name := EffectiveName(symbol);
      var e := list;
      ghost var lim := limit;
      ghost var tail := ListLog(heap, list, limit);
      ghost var all := tail;
      while e.Some?
        invariant ListOk(heap, e, lim) && tail == ListLog(heap, e, lim)
        invariant Decider(tail, name) == Decider(all, name)
        decreases if e.Some? then e.value + 1 else 0
      {
        var entry := heap[e.value];
        ghost var older := ListLog(heap, entry.next, e.value);
        ghost var batch := ArrayAt(heap, entry.rebindings, entry.nel);
        var j := FindInEntry(entry.rebindings, entry.nel, symbol);
        if j < entry.nel {
          FoundInBatch(older, batch, name, j);
          return Some(heap[entry.rebindings + REBINDING_BYTES * j].rebinding);
        }
        NotInBatch(older, batch, name);
        e, lim, tail := entry.next, e.value, older;
      }
      r := None;
    }

    // One slot: if some rebinding names the symbol, save and write.
    method RebindSlot(list: Option<nat>, ghost limit: nat, addr: int, symbol: string)
      requires ListOk(heap, list, limit) && addr in mem
      modifies this`mem, this`calls
      ensures Words() == SlotStep(ListLog(heap, list, limit), protects, old(Words()), NamedSlot(addr, symbol))
      ensures old(mem).Keys <= mem.Keys
    {
      SlotStepByDecider(ListLog(heap, list, limit), protects, Words(), NamedSlot(addr, symbol));
      var r := FindRebinding(list, limit, symbol);
      if r.Some? {
        WriteSlot(addr, r.value);
      }
    }

    // All slots of one section.
    method PerformRebindingWithSection(list: Option<nat>, ghost limit: nat, img: Image, sec: Section)
      requires ListOk(heap, list, limit) && SectionOk(img, sec) && MappedIn(SectionSlots(img, sec), mem)
      modifies this`mem, this`calls
      ensures Words() == Pass(ListLog(heap, list, limit), protects, old(Words()), SectionSlots(img, sec))
      ensures old(mem).Keys <= mem.Keys
    {
      ghost var log := ListLog(heap, list, limit);
      NoSlotsYet(img, sec, log, protects, Words());
      for i := 0 to sec.size / POINTER_SIZE
        invariant SlotsDone(img, sec, i, log, protects, old(Words()), Words())
        invariant old(mem).Keys <= mem.Keys
      {
        NextSlot(img, sec, i, log, protects, old(Words()), Words());
        var symtabIndex := img.indirect[sec.reserved1 + i];
        if IsSpecialIndex(symtabIndex) {
          continue;
        }
        var symbol := img.symtab[symtabIndex];
        RebindSlot(list, limit, sec.addr + POINTER_SIZE * i, symbol);
      }
      AllSlotsDone(img, sec, log, protects, old(Words()), Words());
    }

    // One section, if it holds lazy or non-lazy symbol pointers.
    method RebindSection(list: Option<nat>, ghost limit: nat, img: Image, sect: Section)
      requires ListOk(heap, list, limit)
      requires IsPointerSection(sect) ==> SectionOk(img, sect) && MappedIn(SectionSlots(img, sect), mem)
      modifies this`mem, this`calls
      ensures Words() == Pass(ListLog(heap, list, limit), protects, old(Words()),
                              if IsPointerSection(sect) then SectionSlots(img, sect) else [])
      ensures old(mem).Keys <= mem.Keys
    {
      if sect.flags % SECTION_TYPE_MODULUS == S_LAZY_SYMBOL_POINTERS {
        PerformRebindingWithSection(list, limit, img, sect);
      }
      if sect.flags % SECTION_TYPE_MODULUS == S_NON_LAZY_SYMBOL_POINTERS {
        PerformRebindingWithSection(list, limit, img, sect);
      }
    }

    // The sections of one segment; visited collects the pointer sections.
    method RebindSegment(list: Option<nat>, ghost limit: nat, img: Image, i: nat) returns (ghost visited: seq<Visit>)
      requires ListOk(heap, list, limit) && ImageOk(img)
      requires i < |img.commands| && IsDataSegment(img.commands[i])
      requires MappedIn(SectionsSlots(img, img.commands[i].sections), mem)
      modifies this`mem, this`calls
      ensures Words() == Pass(ListLog(heap, list, limit), protects, old(Words()),
                              SectionsSlots(img, img.commands[i].sections))
      ensures old(mem).Keys <= mem.Keys
      ensures visited == SectionVisits(i, img.commands[i].sections)
    {
      ghost var log := ListLog(heap, list, limit);
      var secs := img.commands[i].sections;
      visited := [];
      for j := 0 to |secs|
        invariant Words() == Pass(log, protects, old(Words()), SectionsSlots(img, secs[..j]))
        invariant old(mem).Keys <= mem.Keys
        invariant visited == SectionVisits(i, secs[..j])
      {
        NextSection(img, i, secs, j, log, protects, old(Words()), mem);
        RebindSection(list, limit, img, secs[j]);
        visited := visited + (if IsPointerSection(secs[j]) then [Visit(i, j)] else []);
      }
      assert secs[..|secs|] == secs;
    }

    // One load command, if it is a data segment.
    method RebindCommand(list: Option<nat>, ghost limit: nat, img: Image, i: nat) returns (ghost visited: seq<Visit>)
      requires ListOk(heap, list, limit) && ImageOk(img) && i < |img.commands|
      requires IsDataSegment(img.commands[i]) ==> MappedIn(SectionsSlots(img, img.commands[i].sections), mem)
      modifies this`mem, this`calls
      ensures Words() == Pass(ListLog(heap, list, limit), protects, old(Words()),
                              if IsDataSegment(img.commands[i])
                              then SectionsSlots(img, img.commands[i].sections) else [])
      ensures old(mem).Keys <= mem.Keys
      ensures visited == if IsDataSegment(img.commands[i]) then SectionVisits(i, img.commands[i].sections) else []
    {
      visited := [];
      if IsDataSegment(img.commands[i]) {
        visited := RebindSegment(list, limit, img, i);
      }
    }

    // One image: find its tables, then rebind the pointer sections of its data
    // segments.  at maps byte addresses to load commands.
    method RebindSymbolsForImage(list: Option<nat>, ghost limit: nat, img: Image, at: map<nat, LoadCommand>)
      returns (ghost visited: seq<Visit>)
      requires ListOk(heap, list, limit) && ImageOk(img) && LaidOut(img, at)
      requires MappedIn(TargetSlots(img), mem)
      modifies this`mem, this`calls
      ensures Words() == Pass(ListLog(heap, list, limit), protects, old(Words()), TargetSlots(img))
      ensures old(mem).Keys <= mem.Keys
      ensures visited == if IsSkipped(img) || !HasTables(img.commands) then [] else Visits(img.commands)
    {
      visited := [];
      if IsSkipped(img) {
        return;
      }
      var found := FindTables(img, at);
      if !found {
        return;
      }
      visited := RebindCommands(list, limit, img, at);
    }

    // The second pass over the load commands.
    method RebindCommands(list: Option<nat>, ghost limit: nat, img: Image, at: map<nat, LoadCommand>)
      returns (ghost visited: seq<Visit>)
      requires ListOk(heap, list, limit) && ImageOk(img) && LaidOut(img, at)
      requires MappedIn(CommandsSlots(img, img.commands), mem)
      modifies this`mem, this`calls
      ensures Words() == Pass(ListLog(heap, list, limit), protects, old(Words()), CommandsSlots(img, img.commands))
      ensures old(mem).Keys <= mem.Keys
      ensures visited == Visits(img.commands)
    {
      ghost var log := ListLog(heap, list, limit);
      var cmds := img.commands;
      visited := [];
      var cursor: nat := HEADER_SIZE;
      for i := 0 to |cmds|
        invariant CommandsDone(img, i, log, protects, old(Words()), Words(), visited, cursor)
        invariant old(mem).Keys <= mem.Keys
      {
        assert CommandAt(img, at, i);
        var cmd := at[cursor];
        ghost var slots, _ := NextCommand(img, i, log, protects, old(Words()), Words(), visited, cursor);
        SegmentMapped(img, cmds, i, mem);
        cursor := cursor + cmd.cmdsize;
        ghost var more := RebindCommand(list, limit, img, i);
        visited := visited + more;
      }
      assert cmds[..|cmds|] == cmds;
    }

    // The first pass over the load commands.
    method FindTables(img: Image, at: map<nat, LoadCommand>) returns (found: bool)
      requires LaidOut(img, at)
      ensures found == HasTables(img.commands)
    {
      var cmds := img.commands;
      var linkedit, symtab, indirect := false, false, 0;
      var cursor := HEADER_SIZE;
      for i := 0 to |cmds|
        invariant cursor == CommandOffset(cmds, i)
        invariant linkedit == HasLinkedit(cmds[..i])
        invariant symtab == HasSymtab(cmds[..i])
        invariant indirect == IndirectCount(cmds[..i])
      {
        assert CommandAt(img, at, i);
        var cmd := at[cursor];
        assert cmds[..i + 1][..i] == cmds[..i];
        if cmd.Segment? {
          if IsLinkedit(cmd) {
            linkedit := true;
          }
        } else if cmd.Symtab? {
          symtab := true;
        } else if cmd.Dysymtab? {
          indirect := cmd.nindirectsyms;
        }
        cursor := cursor + cmd.cmdsize;
      }
      assert cmds[..|cmds|] == cmds;
      found := symtab && linkedit && indirect != 0;
    }

    // The function handed to the loader: it reads the list at the time it is called.
    method Callback(img: Image)
      requires ListOk(heap, head, cur) && ImageOk(img) && SlotsMapped(img)
      modifies this`mem, this`calls
      ensures Words() == Pass(Log(), protects, old(Words()), TargetSlots(img))
      ensures old(mem).Keys <= mem.Keys
    {
      ImageLaidOut(img);
      var _ := RebindSymbolsForImage(head, cur, img, LayOut(img.commands, |img.commands|));
    }

    // The callback for every image loaded so far.
    method Sweep()
      requires Valid()
      modifies this`mem, this`calls
      ensures Valid() && Words() == Pass(Log(), protects, old(Words()), AllTargets(images))
    {
      for i := 0 to |images|
        invariant Valid() && ImagesDone(images, i, Log(), protects, old(Words()), Words())
      {
        NextImage(images, i, Log(), protects, old(Words()), Words());
        assert SlotsMapped(images[i]);
        Callback(images[i]);
      }
      assert images[..|images|] == images;
    }

    // The loader calls a newly registered function for the images it already has.
    method RegisterForAddImage()
      requires Valid()
      modifies this`mem, this`calls, this`registrations
      ensures Valid() && registrations == old(registrations) + 1
      ensures Words() == Pass(Log(), protects, old(Words()), AllTargets(images))
    {
      registrations := registrations + 1;
      Sweep();
    }

    // The first batch registers the callback, which also runs it for existing
    // images; later batches just run it.
    method RunOnImages()
      requires Valid() && head.Some?
      modifies this`mem, this`calls, this`registrations
      ensures Valid() && registrations == old(registrations) + (if |Log()| == 1 then 1 else 0)
      ensures Words() == Pass(Log(), protects, old(Words()), AllTargets(images))
    {
      ghost var older := ListLog(heap, heap[head.value].next, head.value);
      assert |Log()| == |older| + 1;
      if heap[head.value].next.None? {
        RegisterForAddImage();
      } else {
        Sweep();
      }
    }

    // None stands for abort(): the batch does not fit into the heap.
    method RebindSymbols(batch: Batch) returns (retval: Option<int>)
      requires Valid()
      modifies this`heap, this`cur, this`head, this`mem, this`calls, this`registrations
      ensures retval.None? <==> old(cur) + 24 + 24 * |batch| > 16384
      ensures Valid() && AgreeBelow(old(heap), heap, old(cur))
      ensures retval.None? ==> Abs() == old(Abs())
      ensures retval.Some? ==>
                && retval == Some(0) && cur == old(cur) + 24 + 24 * |batch|
                && Abs() == Step(old(Abs()), Rebind(batch), protects)
    {
      var newHead := PrependRebindings(head, batch);
      if newHead.None? {
        return None;
      }
      head := newHead.value;
      ghost var before := State(old(Log()), images, Words(), registrations);
      assert before == old(Abs());
      RunOnImages();
      assert Abs() == Step(before, Rebind(batch), protects);
      retval := Some(0);
    }

    // Rebinds one image from a private list; the global list is not involved.
    method RebindSymbolsImage(img: Image, batch: Batch) returns (retval: Option<int>)
      requires Valid() && ImageOk(img) && SlotsMapped(img)
      modifies this`heap, this`cur, this`mem, this`calls
      ensures retval.None? <==> old(cur) + 24 + 24 * |batch| > 16384
      ensures Valid() && AgreeBelow(old(heap), heap, old(cur))
      ensures retval.None? ==> Abs() == old(Abs())
      ensures retval.Some? ==>
                && retval == Some(0) && cur == old(cur) + 24 + 24 * |batch|
                && Abs() == old(Abs()).(world := Pass([batch], protects, old(Words()), TargetSlots(img)))
    {
      var list := PrependRebindings(None, batch);
      ListFrame(old(heap), heap, head, old(cur));
      ListWiden(heap, head, old(cur), cur);
      if list.None? {
        return None;
      }
      ghost var before := old(Abs());
      assert Abs() == before && [] + [batch] == [batch];
      ImageLaidOut(img);
      var _ := RebindSymbolsForImage(list.value, cur, img, LayOut(img.commands, |img.commands|));
      assert Abs() == before.(world := Pass([batch], protects, before.world, TargetSlots(img)));
      retval := Some(0);
    }

    // The loader maps a new image and then runs the registered callbacks for it.
    method LoadImage(img: Image)
      requires Valid() && ImageOk(img)
      requires MappedIn(TargetSlots(img), img.initial)
      modifies this`mem, this`calls, this`images
      ensures Valid() && Abs() == Step(old(Abs()), Load(img), protects)
    {
      images := images + [img];
      mem := mem + img.initial;
      ghost var start := Words();
      for n := 0 to registrations
        invariant Valid() && images == old(images) + [img]
        invariant Words() == Callbacks(n, Log(), protects, start, TargetSlots(img))
      {
        assert SlotsMapped(images[|images| - 1]);
        Callback(img);
      }
    }
  }

  // w is what the pass over the slots of the first i images makes of start.
  ghost predicate ImagesDone(images: seq<Image>, i: nat, log: seq<Batch>, protects: nat -> bool,
                             start: World, w: World) {
    i <= |images| && w == Pass(log, protects, start, AllTargets(images[..i]))
  }

  lemma NextImage(images: seq<Image>, i: nat, log: seq<Batch>, protects: nat -> bool, start: World, w: World)
    requires i < |images| && ImagesDone(images, i, log, protects, start, w)
    ensures ImagesDone(images, i + 1, log, protects, start, Pass(log, protects, w, TargetSlots(images[i])))
  {
    assert images[..i + 1][..i] == images[..i];
    PassAppend(log, protects, start, AllTargets(images[..i]), TargetSlots(images[i]));
  }

  // w is what the pass over the first i slots of the section makes of start.
  ghost predicate SlotsDone(img: Image, sec: Section, i: nat, log: seq<Batch>, protects: nat -> bool,
                            start: World, w: World) {
    i <= sec.size / POINTER_SIZE && w == Pass(log, protects, start, SectionSlots(img, sec)[..i])
  }

  lemma NoSlotsYet(img: Image, sec: Section, log: seq<Batch>, protects: nat -> bool, start: World)
    ensures SlotsDone(img, sec, 0, log, protects, start, start)
  {
  }

  lemma AllSlotsDone(img: Image, sec: Section, log: seq<Batch>, protects: nat -> bool, start: World, w: World)
    requires SlotsDone(img, sec, sec.size / POINTER_SIZE, log, protects, start, w)
    ensures w == Pass(log, protects, start, SectionSlots(img, sec))
  {
    assert SectionSlots(img, sec)[..sec.size / POINTER_SIZE] == SectionSlots(img, sec);
  }

  // Slot i comes next: its table entry exists, and its name is the symbol found there.
  lemma NextSlot(img: Image, sec: Section, i: nat, log: seq<Batch>, protects: nat -> bool, start: World, w: World)
    requires SectionOk(img, sec) && MappedIn(SectionSlots(img, sec), start.mem) && i < sec.size / POINTER_SIZE
    requires SlotsDone(img, sec, i, log, protects, start, w)
    ensures sec.addr + POINTER_SIZE * i in start.mem
    ensures var k := sec.reserved1 + i;
            && k < |img.indirect|
            && (if IsSpecialIndex(img.indirect[k]) then SlotsDone(img, sec, i + 1, log, protects, start, w)
                else
                  && img.indirect[k] < |img.symtab|
                  && SlotsDone(img, sec, i + 1, log, protects, start,
                               SlotStep(log, protects, w,
                                        NamedSlot(sec.addr + POINTER_SIZE * i, img.symtab[img.indirect[k]]))))
  {
    TableEntry(img, sec, i);
    PassSnoc(log, protects, start, SectionSlots(img, sec), i);
  }

  lemma TableEntry(img: Image, sec: Section, i: nat)
    requires SectionOk(img, sec) && i < sec.size / POINTER_SIZE
    ensures var k, addr := sec.reserved1 + i, sec.addr + POINTER_SIZE * i;
            && k < |img.indirect|
            && (!IsSpecialIndex(img.indirect[k]) ==> img.indirect[k] < |img.symtab|)
            && SectionSlots(img, sec)[i]
               == if IsSpecialIndex(img.indirect[k]) then Slot(addr, None)
                  else NamedSlot(addr, img.symtab[img.indirect[k]])
  {
    var k := sec.reserved1 + i;
    assert sec.reserved1 <= k < sec.reserved1 + sec.size / POINTER_SIZE;
    assert IndexOk(img, k);
  }

  // The slots of one section or segment are among the slots of all.
  lemma {:induction false} SectionMapped(img: Image, secs: seq<Section>, j: nat, mem: map<int, int>)
    requires j < |secs| && MappedIn(SectionsSlots(img, secs), mem)
    ensures IsPointerSection(secs[j]) ==> MappedIn(SectionSlots(img, secs[j]), mem)
  {
    var n := |secs| - 1;
    MappedParts(SectionsSlots(img, secs[..n]),
                if IsPointerSection(secs[n]) then SectionSlots(img, secs[n]) else [], mem);
    if j < n {
      SectionMapped(img, secs[..n], j, mem);
    }
  }

  lemma {:induction false} SegmentMapped(img: Image, cmds: seq<LoadCommand>, i: nat, mem: map<int, int>)
    requires i < |cmds| && MappedIn(CommandsSlots(img, cmds), mem)
    ensures IsDataSegment(cmds[i]) ==> MappedIn(SectionsSlots(img, cmds[i].sections), mem)
  {
    var n := |cmds| - 1;
    var own := if IsDataSegment(cmds[n]) then SectionsSlots(img, cmds[n].sections) else [];
    assert CommandsSlots(img, cmds) == CommandsSlots(img, cmds[..n]) + own;
    MappedParts(CommandsSlots(img, cmds[..n]), own, mem);
    if i < n {
      assert cmds[..n][i] == cmds[i];
      SegmentMapped(img, cmds[..n], i, mem);
    }
  }

  lemma MappedParts(a: seq<Slot>, b: seq<Slot>, mem: map<int, int>)
    requires MappedIn(a + b, mem)
    ensures MappedIn(a, mem) && MappedIn(b, mem)
  {
    forall i | 0 <= i < |a| ensures a[i].addr in mem {
      assert (a + b)[i] == a[i];
    }
    forall i | 0 <= i < |b| ensures b[i].addr in mem {
      assert (a + b)[|a| + i] == b[i];
    }
  }

  lemma CommandsSnoc(img: Image, cmds: seq<LoadCommand>, i: nat)
    requires i < |cmds|
    ensures CommandsSlots(img, cmds[..i + 1])
         == CommandsSlots(img, cmds[..i])
            + (if IsDataSegment(cmds[i]) then SectionsSlots(img, cmds[i].sections) else [])
    ensures Visits(cmds[..i + 1])
         == Visits(cmds[..i]) + (if IsDataSegment(cmds[i]) then SectionVisits(i, cmds[i].sections) else [])
    ensures CommandOffset(cmds, i + 1) == CommandOffset(cmds, i) + cmds[i].cmdsize
  {
    assert cmds[..i + 1][..i] == cmds[..i];
  }

  // The pass over the slots of the sections up to j, continued by those of section j.
  lemma NextSection(img: Image, i: nat, secs: seq<Section>, j: nat, log: seq<Batch>, protects: nat -> bool,
                    w: World, mem: map<int, int>)
    requires j < |secs| && MappedIn(SectionsSlots(img, secs), mem)
    ensures var pointers := IsPointerSection(secs[j]);
            && (pointers ==> MappedIn(SectionSlots(img, secs[j]), mem))
            && Pass(log, protects, w, SectionsSlots(img, secs[..j + 1]))
               == Pass(log, protects, Pass(log, protects, w, SectionsSlots(img, secs[..j])),
                       if pointers then SectionSlots(img, secs[j]) else [])
            && SectionVisits(i, secs[..j + 1]) == SectionVisits(i, secs[..j]) + (if pointers then [Visit(i, j)] else [])
  {
    assert secs[..j + 1][..j] == secs[..j];
    SectionMapped(img, secs, j, mem);
    PassAppend(log, protects, w, SectionsSlots(img, secs[..j]),
               if IsPointerSection(secs[j]) then SectionSlots(img, secs[j]) else []);
  }

  // w is what the pass over the slots of the first i commands makes of start.
  ghost predicate CommandsDone(img: Image, i: nat, log: seq<Batch>, protects: nat -> bool, start: World,
                               w: World, visited: seq<Visit>, cursor: nat) {
    && i <= |img.commands|
    && w == Pass(log, protects, start, CommandsSlots(img, img.commands[..i]))
    && visited == Visits(img.commands[..i])
    && cursor == CommandOffset(img.commands, i)
  }

  lemma NextCommand(img: Image, i: nat, log: seq<Batch>, protects: nat -> bool, start: World,
                    w: World, visited: seq<Visit>, cursor: nat) returns (slots: seq<Slot>, more: seq<Visit>)
    requires i < |img.commands| && CommandsDone(img, i, log, protects, start, w, visited, cursor)
    ensures var data := IsDataSegment(img.commands[i]);
            && slots == (if data then SectionsSlots(img, img.commands[i].sections) else [])
            && more == (if data then SectionVisits(i, img.commands[i].sections) else [])
    ensures CommandsDone(img, i + 1, log, protects, start, Pass(log, protects, w, slots), visited + more,
                         cursor + img.commands[i].cmdsize)
  {
    var data := IsDataSegment(img.commands[i]);
    slots := if data then SectionsSlots(img, img.commands[i].sections) else [];
    more := if data then SectionVisits(i, img.commands[i].sections) else [];
    CommandsSnoc(img, img.commands, i);
    PassAppend(log, protects, start, CommandsSlots(img, img.commands[..i]), slots);
  }

  // ---------- Which sections are visited ----------

  datatype Visit = Visit(command: nat, section: nat)

  function SectionVisits(i: nat, secs: seq<Section>): seq<Visit> {
    if secs == [] then []
    else
      var n := |secs| - 1;
      SectionVisits(i, secs[..n]) + (if IsPointerSection(secs[n]) then [Visit(i, n)] else [])
  }

  function Visits(cmds: seq<LoadCommand>): seq<Visit> {
    if cmds == [] then []
    else
      var n := |cmds| - 1;
      Visits(cmds[..n]) + (if IsDataSegment(cmds[n]) then SectionVisits(n, cmds[n].sections) else [])
  }

  predicate Before(a: Visit, b: Visit) {
    a.command < b.command || (a.command == b.command && a.section < b.section)
  }

  lemma {:induction false} SectionVisitsExact(i: nat, secs: seq<Section>)
    ensures forall v :: v in SectionVisits(i, secs) <==>
              v.command == i && v.section < |secs| && IsPointerSection(secs[v.section])
    ensures forall a, b :: 0 <= a < b < |SectionVisits(i, secs)| ==>
              Before(SectionVisits(i, secs)[a], SectionVisits(i, secs)[b])
  {
    if secs != [] {
      SectionVisitsExact(i, secs[..|secs| - 1]);
      assert forall v :: v in SectionVisits(i, secs[..|secs| - 1]) ==> v.section < |secs| - 1;
    }
  }

  // Exactly the lazy and non-lazy pointer sections of __DATA and __DATA_CONST
  // segments are visited, each once, in the order of the load commands.
  lemma {:induction false} VisitsExact(cmds: seq<LoadCommand>)
    ensures forall v :: v in Visits(cmds) <==>
              && v.command < |cmds| && IsDataSegment(cmds[v.command])
              && v.section < |cmds[v.command].sections|
              && IsPointerSection(cmds[v.command].sections[v.section])
    ensures forall a, b :: 0 <= a < b < |Visits(cmds)| ==> Before(Visits(cmds)[a], Visits(cmds)[b])
  {
    if cmds != [] {
      var n := |cmds| - 1;
      VisitsExact(cmds[..n]);
      if IsDataSegment(cmds[n]) {
        SectionVisitsExact(n, cmds[n].sections);
      }
      assert forall v :: v in Visits(cmds[..n]) ==> v.command < n;
    }
  }

  function EffectiveName(symbol: string): Option<string> {
    if |symbol| > 1 then Some(symbol[1..]) else None
  }

  function NamedSlot(addr: int, symbol: string): Slot {
    Slot(addr, EffectiveName(symbol))
  }

  // The rebinding that decides a name, if any.
  function Decider(log: seq<Batch>, name: Option<string>): Option<Rebinding> {
    if name == None || Lookup(log, name.value) == None then None
    else Some(At(log, Lookup(log, name.value).value))
  }

  lemma SlotStepByDecider(log: seq<Batch>, protects: nat -> bool, w: World, slot: Slot)
    requires slot.addr in w.mem
    ensures SlotStep(log, protects, w, slot)
         == match Decider(log, slot.name)
            case None => w
            case Some(r) => Rewritten(protects, w, slot.addr, r)
  {
  }

  lemma FoundInBatch(older: seq<Batch>, batch: Batch, name: Option<string>, j: nat)
    requires name.Some? && j < |batch| && batch[j].name == name.value
    requires forall i :: 0 <= i < j ==> batch[i].name != name.value
    ensures Decider(older + [batch], name) == Some(batch[j])
  {
    LookupExtend(older, batch, name.value);
    assert FindName(batch, name.value) == Some(j);
    assert (older + [batch])[|older|] == batch;
  }

  lemma NotInBatch(older: seq<Batch>, batch: Batch, name: Option<string>)
    requires name.Some? ==> forall i :: 0 <= i < |batch| ==> batch[i].name != name.value
    ensures Decider(older + [batch], name) == Decider(older, name)
  {
    if name.Some? {
      LookupExtend(older, batch, name.value);
      assert FindName(batch, name.value) == None;
      var r := Lookup(older, name.value);
      if r.Some? {
        assert (older + [batch])[r.value.batch] == older[r.value.batch];
      }
    }
  }
}
