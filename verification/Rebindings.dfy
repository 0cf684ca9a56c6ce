// Symbol rebinding as a state machine on values: batches of rebindings, images
// with pointer slots, and the words of memory that the engine writes.  The
// imperative engine of tools/z3-bench/fishhook.c is proved to take these steps
// in Fishhook.dfy.
module Rebindings {
  import opened Common

  // ---------- Rebindings ----------

  datatype Rebinding = Rebinding(name: string, replacement: int, replaced: Option<int>)

  type Batch = seq<Rebinding>

  // The lowest index of a batch that names a symbol.
  function FindName(batch: Batch, name: string): (r: Option<nat>)
    ensures r.Some? ==> r.value < |batch| && batch[r.value].name == name
    ensures r.Some? ==> forall j :: 0 <= j < r.value ==> batch[j].name != name
    ensures r.None? ==> forall j :: 0 <= j < |batch| ==> batch[j].name != name
  {
    if batch == [] then None
    else if batch[0].name == name then Some(0)
    else match FindName(batch[1..], name)
      case None => None
      case Some(j) => Some(j + 1)
  }

  datatype Position = Position(batch: nat, index: nat)

  ghost predicate ValidPosition(log: seq<Batch>, p: Position) {
    p.batch < |log| && p.index < |log[p.batch]|
  }

  function At(log: seq<Batch>, p: Position): Rebinding
    requires ValidPosition(log, p)
  {
    log[p.batch][p.index]
  }

  // The position that decides a symbol: newest batch first, log is oldest first.
  function Lookup(log: seq<Batch>, name: string): (r: Option<Position>)
    ensures r.Some? ==> ValidPosition(log, r.value) && At(log, r.value).name == name
    ensures r.Some? ==> FindName(log[r.value.batch], name) == Some(r.value.index)
    ensures r.Some? ==> forall k :: r.value.batch < k < |log| ==> FindName(log[k], name) == None
    ensures r.None? ==> forall k :: 0 <= k < |log| ==> FindName(log[k], name) == None
  {
    if log == [] then None
    else
      var n := |log| - 1;
      match FindName(log[n], name)
      case Some(j) => Some(Position(n, j))
      case None => Lookup(log[..n], name)
  }

  // ---------- Images ----------

  const INDIRECT_SYMBOL_LOCAL: nat := 0x8000_0000
  const INDIRECT_SYMBOL_ABS: nat := 0x4000_0000
  const SECTION_TYPE_MODULUS: nat := 0x100
  const S_NON_LAZY_SYMBOL_POINTERS: nat := 0x6
  const S_LAZY_SYMBOL_POINTERS: nat := 0x7
  const POINTER_SIZE: nat := 8
  const HEADER_SIZE: nat := 32

  datatype Section = Section(flags: nat, addr: int, size: nat, reserved1: nat)

  datatype LoadCommand =
    | Segment(segname: string, sections: seq<Section>, cmdsize: nat)
    | Symtab(cmdsize: nat)
    | Dysymtab(nindirectsyms: nat, cmdsize: nat)
    | OtherCommand(cmdsize: nat)

  // path is None when the image cannot be identified; initial holds the words of
  // the image when it is loaded.
  datatype Image = Image(path: Option<string>, commands: seq<LoadCommand>,
                         indirect: seq<nat>, symtab: seq<string>, initial: map<int, int>)

  // A pointer slot and the symbol name it is bound by, without the leading
  // character; None for slots that no rebinding can match.
  datatype Slot = Slot(addr: int, name: Option<string>)

  predicate IsSpecialIndex(k: nat) {
    k == INDIRECT_SYMBOL_ABS || k == INDIRECT_SYMBOL_LOCAL || k == INDIRECT_SYMBOL_LOCAL + INDIRECT_SYMBOL_ABS
  }

  function SlotName(img: Image, k: nat): Option<string> {
    if k >= |img.indirect| || IsSpecialIndex(img.indirect[k]) || img.indirect[k] >= |img.symtab| then None
    else
      var symbol := img.symtab[img.indirect[k]];
      if |symbol| > 1 then Some(symbol[1..]) else None
  }

  function SlotAt(img: Image, sec: Section, i: nat): Slot {
    Slot(sec.addr + POINTER_SIZE * i, SlotName(img, sec.reserved1 + i))
  }

  function SectionSlots(img: Image, sec: Section): (slots: seq<Slot>)
    ensures |slots| == sec.size / POINTER_SIZE
    ensures forall i :: 0 <= i < |slots| ==> slots[i] == SlotAt(img, sec, i)
  {
    seq(sec.size / POINTER_SIZE, i requires 0 <= i => SlotAt(img, sec, i))
  }

  predicate IsPointerSection(sec: Section) {
    var kind := sec.flags % SECTION_TYPE_MODULUS;
    kind == S_LAZY_SYMBOL_POINTERS || kind == S_NON_LAZY_SYMBOL_POINTERS
  }

  predicate IsDataSegment(cmd: LoadCommand) {
    cmd.Segment? && (cmd.segname == "__DATA" || cmd.segname == "__DATA_CONST")
  }

  function SectionsSlots(img: Image, secs: seq<Section>): seq<Slot> {
    if secs == [] then []
    else
      var n := |secs| - 1;
      SectionsSlots(img, secs[..n]) + (if IsPointerSection(secs[n]) then SectionSlots(img, secs[n]) else [])
  }

  function CommandsSlots(img: Image, cmds: seq<LoadCommand>): seq<Slot> {
    if cmds == [] then []
    else
      var n := |cmds| - 1;
      CommandsSlots(img, cmds[..n]) + (if IsDataSegment(cmds[n]) then SectionsSlots(img, cmds[n].sections) else [])
  }

  predicate IsSkipped(img: Image) {
    || img.path == None
    || img.path == Some("/usr/lib/system/libsystem_malloc.dylib")
    || img.path == Some("/usr/lib/system/libsystem_pthread.dylib")
  }

  // The last dynamic symbol table counts when there are several.
  function IndirectCount(cmds: seq<LoadCommand>): nat {
    if cmds == [] then 0
    else if cmds[|cmds| - 1].Dysymtab? then cmds[|cmds| - 1].nindirectsyms
    else IndirectCount(cmds[..|cmds| - 1])
  }

  predicate HasLinkedit(cmds: seq<LoadCommand>) {
    cmds != [] && (IsLinkedit(cmds[|cmds| - 1]) || HasLinkedit(cmds[..|cmds| - 1]))
  }

  predicate IsLinkedit(cmd: LoadCommand) {
    cmd.Segment? && cmd.segname == "__LINKEDIT"
  }

  predicate HasSymtab(cmds: seq<LoadCommand>) {
    cmds != [] && (cmds[|cmds| - 1].Symtab? || HasSymtab(cmds[..|cmds| - 1]))
  }

  predicate HasTables(cmds: seq<LoadCommand>) {
    HasLinkedit(cmds) && HasSymtab(cmds) && IndirectCount(cmds) != 0
  }

  // The slots that rebinding an image may write, in the order it visits them.
  function TargetSlots(img: Image): seq<Slot> {
    if IsSkipped(img) || !HasTables(img.commands) then [] else CommandsSlots(img, img.commands)
  }

  function AllTargets(images: seq<Image>): seq<Slot> {
    if images == [] then []
    else AllTargets(images[..|images| - 1]) + TargetSlots(images[|images| - 1])
  }

  // What the tables and target slots of an image are, without recursion.
  lemma {:induction false} LinkeditExact(cmds: seq<LoadCommand>)
    ensures HasLinkedit(cmds) <==> exists i :: 0 <= i < |cmds| && IsLinkedit(cmds[i])
  {
    if cmds != [] {
      LinkeditExact(cmds[..|cmds| - 1]);
    }
  }

  lemma {:induction false} SymtabExact(cmds: seq<LoadCommand>)
    ensures HasSymtab(cmds) <==> exists i :: 0 <= i < |cmds| && cmds[i].Symtab?
  {
    if cmds != [] {
      SymtabExact(cmds[..|cmds| - 1]);
    }
  }

  lemma {:induction false} LastDysymtabCounts(cmds: seq<LoadCommand>, i: nat)
    requires i < |cmds| && cmds[i].Dysymtab? && forall j :: i < j < |cmds| ==> !cmds[j].Dysymtab?
    ensures IndirectCount(cmds) == cmds[i].nindirectsyms
  {
    if i < |cmds| - 1 {
      LastDysymtabCounts(cmds[..|cmds| - 1], i);
    }
  }

  ghost predicate SlotOfSection(img: Image, cmds: seq<LoadCommand>, c: int, j: int, i: int, slot: Slot) {
    && 0 <= c < |cmds| && IsDataSegment(cmds[c])
    && 0 <= j < |cmds[c].sections| && IsPointerSection(cmds[c].sections[j])
    && 0 <= i < cmds[c].sections[j].size / POINTER_SIZE
    && slot == SlotAt(img, cmds[c].sections[j], i)
  }

  lemma {:induction false} SectionsSlotsExact(img: Image, secs: seq<Section>, slot: Slot)
    ensures slot in SectionsSlots(img, secs) <==>
              exists j, i :: 0 <= j < |secs| && IsPointerSection(secs[j])
                             && 0 <= i < secs[j].size / POINTER_SIZE && slot == SlotAt(img, secs[j], i)
  {
    if secs != [] {
      var n := |secs| - 1;
      SectionsSlotsExact(img, secs[..n], slot);
      if j, i :| 0 <= j < |secs| && IsPointerSection(secs[j])
                 && 0 <= i < secs[j].size / POINTER_SIZE && slot == SlotAt(img, secs[j], i) {
        if j == n {
          assert SectionSlots(img, secs[n])[i] == slot;
        } else {
          assert secs[..n][j] == secs[j];
        }
      }
    }
  }

  // A slot is visited exactly when some pointer section of some data segment contains it.
  lemma {:induction false} CommandsSlotsExact(img: Image, cmds: seq<LoadCommand>, slot: Slot)
    ensures slot in CommandsSlots(img, cmds) <==> exists c, j, i :: SlotOfSection(img, cmds, c, j, i, slot)
  {
    if cmds != [] {
      var n := |cmds| - 1;
      CommandsSlotsExact(img, cmds[..n], slot);
      if cmds[n].Segment? {
        SectionsSlotsExact(img, cmds[n].sections, slot);
      }
      if slot in CommandsSlots(img, cmds) {
        if slot in CommandsSlots(img, cmds[..n]) {
          var c, j, i :| SlotOfSection(img, cmds[..n], c, j, i, slot);
          assert SlotOfSection(img, cmds, c, j, i, slot);
        } else {
          var j, i :| 0 <= j < |cmds[n].sections| && IsPointerSection(cmds[n].sections[j])
                      && 0 <= i < cmds[n].sections[j].size / POINTER_SIZE
                      && slot == SlotAt(img, cmds[n].sections[j], i);
          assert SlotOfSection(img, cmds, n, j, i, slot);
        }
      }
      if c, j, i :| SlotOfSection(img, cmds, c, j, i, slot) {
        if c < n {
          assert SlotOfSection(img, cmds[..n], c, j, i, slot);
        }
      }
    }
  }

  // ---------- Rebinding slots ----------

  ghost predicate MappedIn(slots: seq<Slot>, mem: map<int, int>) {
    forall i :: 0 <= i < |slots| ==> slots[i].addr in mem
  }

  // mem maps the words that have been written: image words when their image is
  // loaded, replaced cells when a binding is saved in them.  calls counts the
  // requests to make a page writable.
  datatype World = World(mem: map<int, int>, calls: nat)

  function Decide(log: seq<Batch>, slot: Slot): (r: Option<Position>)
    ensures r.Some? ==> ValidPosition(log, r.value) && slot.name == Some(At(log, r.value).name)
  {
    if slot.name == None then None else Lookup(log, slot.name.value)
  }

  // Saving the word at addr for the rebinding r, then writing its replacement if
  // the request made for it succeeds; protects says which requests do.
  function Rewritten(protects: nat -> bool, w: World, addr: int, r: Rebinding): World
    requires addr in w.mem
  {
    var saved := if r.replaced.Some? && w.mem[addr] != r.replacement
                 then w.mem[r.replaced.value := w.mem[addr]] else w.mem;
    World(if protects(w.calls) then saved[addr := r.replacement] else saved, w.calls + 1)
  }

  function SlotStep(log: seq<Batch>, protects: nat -> bool, w: World, slot: Slot): World {
    match Decide(log, slot)
    case None => w
    case Some(p) =>
      if slot.addr !in w.mem then w else Rewritten(protects, w, slot.addr, At(log, p))
  }

  function Pass(log: seq<Batch>, protects: nat -> bool, w: World, slots: seq<Slot>): World {
    if slots == [] then w
    else SlotStep(log, protects, Pass(log, protects, w, slots[..|slots| - 1]), slots[|slots| - 1])
  }

  // ---------- Runs ----------

  datatype Event = Rebind(batch: Batch) | Load(image: Image)

  datatype State = State(log: seq<Batch>, images: seq<Image>, world: World, registrations: nat)

  const Initial: State := State([], [], World(map[], 0), 0)

  // The callback runs once for each time it was registered.
  function Callbacks(n: nat, log: seq<Batch>, protects: nat -> bool, w: World, slots: seq<Slot>): World {
    if n == 0 then w else Pass(log, protects, Callbacks(n - 1, log, protects, w, slots), slots)
  }

  function Step(s: State, e: Event, protects: nat -> bool): State {
    match e
    case Rebind(batch) =>
      var log := s.log + [batch];
      State(log, s.images, Pass(log, protects, s.world, AllTargets(s.images)),
            if |log| == 1 then s.registrations + 1 else s.registrations)
    case Load(img) =>
      var w := World(s.world.mem + img.initial, s.world.calls);
      State(s.log, s.images + [img],
            Callbacks(s.registrations, s.log, protects, w, TargetSlots(img)), s.registrations)
  }

  function Run(events: seq<Event>, protects: nat -> bool): State {
    if events == [] then Initial
    else Step(Run(events[..|events| - 1], protects), events[|events| - 1], protects)
  }

  // The batches handed over and the images loaded in a run.
  function Batches(events: seq<Event>): seq<Batch> {
    if events == [] then []
    else
      var e := events[|events| - 1];
      Batches(events[..|events| - 1]) + (if e.Rebind? then [e.batch] else [])
  }

  function Loaded(events: seq<Event>): seq<Image> {
    if events == [] then []
    else
      var e := events[|events| - 1];
      Loaded(events[..|events| - 1]) + (if e.Load? then [e.image] else [])
  }

  // The log and the images of a run do not depend on which requests succeed, and
  // the callback is registered once, by the first batch.
  lemma {:induction false} RunShape(events: seq<Event>, protects: nat -> bool)
    ensures Run(events, protects).log == Batches(events)
    ensures Run(events, protects).images == Loaded(events)
    ensures Run(events, protects).registrations == if Batches(events) == [] then 0 else 1
  {
    if events != [] {
      RunShape(events[..|events| - 1], protects);
    }
  }

  // One more event.
  lemma EventSnoc(events: seq<Event>, e: Event)
    ensures Batches(events + [e]) == Batches(events) + (if e.Rebind? then [e.batch] else [])
    ensures Loaded(events + [e]) == Loaded(events) + (if e.Load? then [e.image] else [])
    ensures forall protects :: Run(events + [e], protects) == Step(Run(events, protects), e, protects)
  {
    assert (events + [e])[..|events|] == events;
  }

  // ---------- Memory layout assumptions ----------

  ghost predicate IsCell(log: seq<Batch>, a: int) {
    exists p :: ValidPosition(log, p) && At(log, p).replaced == Some(a)
  }

  ghost predicate DistinctSlots(slots: seq<Slot>) {
    forall i, j :: 0 <= i < j < |slots| ==> slots[i].addr != slots[j].addr
  }

  ghost predicate DisjointImages(images: seq<Image>) {
    forall i, j :: 0 <= i < j < |images| ==> images[i].initial.Keys !! images[j].initial.Keys
  }

  // Images occupy disjoint memory that contains their slots, a slot has one
  // address, and no replaced cell lies inside an image's recorded words.
  ghost predicate Layout(images: seq<Image>, log: seq<Batch>) {
    && DisjointImages(images)
    && (forall i :: 0 <= i < |images| ==> ImageLayout(images[i]))
    && (forall i, a :: 0 <= i < |images| && a in images[i].initial ==> !IsCell(log, a))
  }

  ghost predicate ImageLayout(img: Image) {
    && DistinctSlots(TargetSlots(img))
    && MappedIn(TargetSlots(img), img.initial)
  }

  // The words of all images as they were loaded.
  function Original(images: seq<Image>): map<int, int> {
    if images == [] then map[] else Original(images[..|images| - 1]) + images[|images| - 1].initial
  }

  // ---------- Facts about the definitions ----------

  lemma {:induction false} PassAppend(log: seq<Batch>, protects: nat -> bool, w: World, a: seq<Slot>, b: seq<Slot>)
    ensures Pass(log, protects, w, a + b) == Pass(log, protects, Pass(log, protects, w, a), b)
  {
    if b == [] {
      assert a + b == a;
    } else {
      PassAppend(log, protects, w, a, b[..|b| - 1]);
      assert (a + b)[..|a + b| - 1] == a + b[..|b| - 1];
    }
  }

  lemma PassSnoc(log: seq<Batch>, protects: nat -> bool, w: World, slots: seq<Slot>, i: nat)
    requires i < |slots|
    ensures Pass(log, protects, w, slots[..i + 1])
         == SlotStep(log, protects, Pass(log, protects, w, slots[..i]), slots[i])
  {
    assert slots[..i + 1][..i] == slots[..i];
  }

  lemma LookupExtend(log: seq<Batch>, batch: Batch, name: string)
    ensures Lookup(log + [batch], name)
         == match FindName(batch, name)
            case Some(j) => Some(Position(|log|, j))
            case None => Lookup(log, name)
  {
    assert (log + [batch])[..|log|] == log;
  }

  lemma IsCellExtend(log: seq<Batch>, batch: Batch, a: int)
    requires IsCell(log, a)
    ensures IsCell(log + [batch], a)
  {
    var p :| ValidPosition(log, p) && At(log, p).replaced == Some(a);
    assert ValidPosition(log + [batch], p) && At(log + [batch], p) == At(log, p);
  }

  // Layouts of a later state hold earlier.
  lemma LayoutPrefix(images: seq<Image>, log: seq<Batch>, more: Event)
    requires more.Rebind? ==> Layout(images, log + [more.batch])
    requires more.Load? ==> Layout(images + [more.image], log)
    ensures Layout(images, log)
  {
    match more
    case Rebind(batch) =>
      forall i, a | 0 <= i < |images| && a in images[i].initial ensures !IsCell(log, a) {
        if IsCell(log, a) {
          IsCellExtend(log, batch, a);
        }
      }
    case Load(img) =>
      var all := images + [img];
      assert forall i :: 0 <= i < |images| ==> all[i] == images[i];
  }

  lemma {:induction false} OriginalAt(images: seq<Image>, i: nat, a: int)
    requires DisjointImages(images) && i < |images| && a in images[i].initial
    ensures a in Original(images) && Original(images)[a] == images[i].initial[a]
  {
    var n := |images| - 1;
    if i < n {
      assert a !in images[n].initial;
      OriginalAt(images[..n], i, a);
    }
  }

  lemma {:induction false} OriginalSource(images: seq<Image>, a: int) returns (i: nat)
    requires a in Original(images)
    ensures i < |images| && a in images[i].initial
  {
    var n := |images| - 1;
    if a in images[n].initial {
      i := n;
    } else {
      i := OriginalSource(images[..n], a);
    }
  }

  lemma OriginalWords(images: seq<Image>)
    requires DisjointImages(images)
    ensures forall i, a :: 0 <= i < |images| && a in images[i].initial ==>
              a in Original(images) && Original(images)[a] == images[i].initial[a]
    ensures forall a :: a in Original(images) ==> exists i :: 0 <= i < |images| && a in images[i].initial
  {
    forall i, a | 0 <= i < |images| && a in images[i].initial
      ensures a in Original(images) && Original(images)[a] == images[i].initial[a]
    {
      OriginalAt(images, i, a);
    }
    forall a | a in Original(images) ensures exists i :: 0 <= i < |images| && a in images[i].initial {
      var i := OriginalSource(images, a);
    }
  }

  lemma {:induction false} TargetOwner(images: seq<Image>, i: nat) returns (n: nat)
    requires forall k :: 0 <= k < |images| ==> ImageLayout(images[k])
    requires i < |AllTargets(images)|
    ensures n < |images| && AllTargets(images)[i].addr in images[n].initial
  {
    var last := |images| - 1;
    var init := AllTargets(images[..last]);
    if i < |init| {
      n := TargetOwner(images[..last], i);
    } else {
      n := last;
      assert ImageLayout(images[last]);
      assert AllTargets(images)[i] == TargetSlots(images[last])[i - |init|];
    }
  }

  lemma DistinctAppend(a: seq<Slot>, b: seq<Slot>)
    requires DistinctSlots(a) && DistinctSlots(b)
    requires forall i, j :: 0 <= i < |a| && 0 <= j < |b| ==> a[i].addr != b[j].addr
    ensures DistinctSlots(a + b)
  {
  }

  lemma {:induction false} TargetsDistinct(images: seq<Image>)
    requires DisjointImages(images) && forall k :: 0 <= k < |images| ==> ImageLayout(images[k])
    ensures DistinctSlots(AllTargets(images))
  {
    if images != [] {
      var last := |images| - 1;
      var init, new' := AllTargets(images[..last]), TargetSlots(images[last]);
      TargetsDistinct(images[..last]);
      assert ImageLayout(images[last]);
      forall i, j | 0 <= i < |init| && 0 <= j < |new'| ensures init[i].addr != new'[j].addr {
        LastTargetsApart(images, i, j);
      }
      DistinctAppend(init, new');
    }
  }

  lemma LastTargetsApart(images: seq<Image>, i: nat, j: nat)
    requires images != [] && DisjointImages(images) && forall k :: 0 <= k < |images| ==> ImageLayout(images[k])
    requires i < |AllTargets(images[..|images| - 1])| && j < |TargetSlots(images[|images| - 1])|
    ensures AllTargets(images[..|images| - 1])[i].addr != TargetSlots(images[|images| - 1])[j].addr
  {
    var last := |images| - 1;
    var n := TargetOwner(images[..last], i);
    assert images[n].initial.Keys !! images[last].initial.Keys;
    assert ImageLayout(images[last]);
    assert TargetSlots(images[last])[j].addr in images[last].initial;
  }

  // The slots of all images have distinct, recorded addresses.
  lemma TargetsLayout(images: seq<Image>, log: seq<Batch>)
    requires Layout(images, log)
    ensures DistinctSlots(AllTargets(images))
    ensures forall i :: 0 <= i < |AllTargets(images)| ==>
              AllTargets(images)[i].addr in Original(images) && !IsCell(log, AllTargets(images)[i].addr)
  {
    TargetsDistinct(images);
    forall i | 0 <= i < |AllTargets(images)|
      ensures AllTargets(images)[i].addr in Original(images) && !IsCell(log, AllTargets(images)[i].addr)
    {
      var n := TargetOwner(images, i);
      OriginalAt(images, n, AllTargets(images)[i].addr);
    }
  }
}
