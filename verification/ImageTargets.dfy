// Which pointers of an image are rebound, in the terms of its load commands: the
// names and numbers are those of the Mach-O format.
module ImageTargets {
  import opened Common
  import opened Rebindings
  import opened Fishhook
  import opened Precedence

  // ---------- Sections ----------

  // A section is visited exactly when it holds non-lazy (6) or lazy (7) symbol
  // pointers and its segment is called __DATA or __DATA_CONST.
  lemma VisitedSections(cmds: seq<LoadCommand>, i: nat, j: nat)
    ensures Visit(i, j) in Visits(cmds) <==>
              && i < |cmds| && cmds[i].Segment?
              && (cmds[i].segname == "__DATA" || cmds[i].segname == "__DATA_CONST")
              && j < |cmds[i].sections|
              && (cmds[i].sections[j].flags % 0x100 == 6 || cmds[i].sections[j].flags % 0x100 == 7)
    ensures forall a, b :: 0 <= a < b < |Visits(cmds)| ==>
              || Visits(cmds)[a].command < Visits(cmds)[b].command
              || (Visits(cmds)[a].command == Visits(cmds)[b].command
                  && Visits(cmds)[a].section < Visits(cmds)[b].section)
  {
    VisitsExact(cmds);
  }

  function VisitSlots(img: Image, v: Visit): seq<Slot> {
    if v.command < |img.commands| && img.commands[v.command].Segment?
       && v.section < |img.commands[v.command].sections|
    then SectionSlots(img, img.commands[v.command].sections[v.section]) else []
  }

  function VisitedSlots(img: Image, visits: seq<Visit>): seq<Slot> {
    if visits == [] then []
    else VisitedSlots(img, visits[..|visits| - 1]) + VisitSlots(img, visits[|visits| - 1])
  }

  lemma VisitedSnoc(img: Image, visits: seq<Visit>, v: Visit)
    ensures VisitedSlots(img, visits + [v]) == VisitedSlots(img, visits) + VisitSlots(img, v)
  {
    assert (visits + [v])[..|visits|] == visits;
  }

  lemma {:induction false} VisitedAppend(img: Image, a: seq<Visit>, b: seq<Visit>)
    ensures VisitedSlots(img, a + b) == VisitedSlots(img, a) + VisitedSlots(img, b)
  {
    if b == [] {
      assert a + b == a;
    } else {
      var init, v := b[..|b| - 1], b[|b| - 1];
      Unsnoc(b);
      Assoc(a, init, [v]);
      VisitedSnoc(img, a + init, v);
      VisitedAppend(img, a, init);
      Assoc(VisitedSlots(img, a), VisitedSlots(img, init), VisitSlots(img, v));
    }
  }

  // The slots come in the order of the sections that are visited.
  lemma SlotsInOrder(img: Image)
    ensures CommandsSlots(img, img.commands) == VisitedSlots(img, Visits(img.commands))
  {
    CommandsInOrder(img, |img.commands|);
    assert img.commands[..|img.commands|] == img.commands;
  }

  lemma {:induction false} CommandsInOrder(img: Image, i: nat)
    requires i <= |img.commands|
    ensures CommandsSlots(img, img.commands[..i]) == VisitedSlots(img, Visits(img.commands[..i]))
  {
    if i > 0 {
      CommandsInOrder(img, i - 1);
      CommandsSnoc(img, img.commands, i - 1);
      if IsDataSegment(img.commands[i - 1]) {
        SegmentInOrder(img, i - 1);
        VisitedAppend(img, Visits(img.commands[..i - 1]), SectionVisits(i - 1, img.commands[i - 1].sections));
      } else {
        assert Visits(img.commands[..i - 1]) + [] == Visits(img.commands[..i - 1]);
      }
    }
  }

  lemma SegmentInOrder(img: Image, i: nat)
    requires i < |img.commands| && img.commands[i].Segment?
    ensures VisitedSlots(img, SectionVisits(i, img.commands[i].sections))
         == SectionsSlots(img, img.commands[i].sections)
  {
    var secs := img.commands[i].sections;
    var visits, slots := [], [];
    for j := 0 to |secs|
      invariant InOrder(img, i, secs[..j], visits, slots)
    {
      visits, slots := NextInOrder(img, i, j, visits, slots);
    }
    assert secs[..|secs|] == secs;
  }

  // visits and slots are those of the sections secs.
  ghost predicate InOrder(img: Image, i: nat, secs: seq<Section>, visits: seq<Visit>, slots: seq<Slot>) {
    visits == SectionVisits(i, secs) && slots == SectionsSlots(img, secs) && VisitedSlots(img, visits) == slots
  }

  lemma NextInOrder(img: Image, i: nat, j: nat, visits: seq<Visit>, slots: seq<Slot>)
    returns (visits': seq<Visit>, slots': seq<Slot>)
    requires i < |img.commands| && img.commands[i].Segment? && j < |img.commands[i].sections|
    requires InOrder(img, i, img.commands[i].sections[..j], visits, slots)
    ensures InOrder(img, i, img.commands[i].sections[..j + 1], visits', slots')
  {
    var secs := img.commands[i].sections;
    SectionsSnoc(img, i, secs, j);
    visits', slots' := visits, slots;
    if IsPointerSection(secs[j]) {
      VisitedSnoc(img, visits, Visit(i, j));
      visits', slots' := visits + [Visit(i, j)], slots + SectionSlots(img, secs[j]);
    }
  }

  lemma SectionsSnoc(img: Image, i: nat, secs: seq<Section>, j: nat)
    requires j < |secs|
    ensures SectionVisits(i, secs[..j + 1])
         == if IsPointerSection(secs[j]) then SectionVisits(i, secs[..j]) + [Visit(i, j)]
            else SectionVisits(i, secs[..j])
    ensures SectionsSlots(img, secs[..j + 1])
         == if IsPointerSection(secs[j]) then SectionsSlots(img, secs[..j]) + SectionSlots(img, secs[j])
            else SectionsSlots(img, secs[..j])
  {
    assert secs[..j + 1][..j] == secs[..j];
  }

  // ---------- Tables and skipped images ----------

  // The tables are there exactly when some segment is called __LINKEDIT, some
  // command is a symbol table, and the last dynamic symbol table lists indirect symbols.
  lemma TablesExactly(cmds: seq<LoadCommand>)
    ensures HasTables(cmds) <==>
              && (exists a :: 0 <= a < |cmds| && cmds[a].Segment? && cmds[a].segname == "__LINKEDIT")
              && (exists b :: 0 <= b < |cmds| && cmds[b].Symtab?)
              && (exists d :: 0 <= d < |cmds| && cmds[d].Dysymtab? && cmds[d].nindirectsyms != 0
                              && forall e :: d < e < |cmds| ==> !cmds[e].Dysymtab?)
  {
    LinkeditExact(cmds);
    SymtabExact(cmds);
    if a :| 0 <= a < |cmds| && cmds[a].Segment? && cmds[a].segname == "__LINKEDIT" {
      assert IsLinkedit(cmds[a]);
    }
    if IndirectCount(cmds) != 0 {
      var d := LastDysymtab(cmds);
    }
    if d :| 0 <= d < |cmds| && cmds[d].Dysymtab? && cmds[d].nindirectsyms != 0
            && forall e :: d < e < |cmds| ==> !cmds[e].Dysymtab? {
      LastDysymtabCounts(cmds, d);
    }
  }

  lemma {:induction false} LastDysymtab(cmds: seq<LoadCommand>) returns (d: nat)
    requires IndirectCount(cmds) != 0
    ensures d < |cmds| && cmds[d].Dysymtab? && cmds[d].nindirectsyms == IndirectCount(cmds)
    ensures forall e :: d < e < |cmds| ==> !cmds[e].Dysymtab?
  {
    var n := |cmds| - 1;
    if cmds[n].Dysymtab? {
      d := n;
    } else {
      d := LastDysymtab(cmds[..n]);
    }
  }

  // Two system libraries, and images that cannot be identified, are left alone.
  lemma SkippedImages(img: Image)
    ensures IsSkipped(img) <==>
              || img.path == None
              || img.path == Some("/usr/lib/system/libsystem_malloc.dylib")
              || img.path == Some("/usr/lib/system/libsystem_pthread.dylib")
    ensures TargetSlots(img)
         == if IsSkipped(img) || !HasTables(img.commands) then [] else VisitedSlots(img, Visits(img.commands))
  {
    SlotsInOrder(img);
  }

  // ---------- Slots ----------

  // Slot i of a section is the word at eight times i behind its start.  Its symbol
  // is found through the indirect table, unless the entry there is one of the three
  // special ones; the first character of the symbol is dropped.
  lemma SectionSlotExactly(img: Image, sec: Section, i: nat)
    requires i < sec.size / 8
    ensures |SectionSlots(img, sec)| == sec.size / 8
    ensures SectionSlots(img, sec)[i].addr == sec.addr + 8 * i
    ensures var k := sec.reserved1 + i;
            SectionSlots(img, sec)[i].name
            == if k < |img.indirect| && img.indirect[k] !in {0x4000_0000, 0x8000_0000, 0xC000_0000}
                  && img.indirect[k] < |img.symtab| && |img.symtab[img.indirect[k]]| > 1
               then Some(img.symtab[img.indirect[k]][1..]) else None
  {
  }

  // A pointer in a non-lazy section of __DATA_CONST is rebound like one in a lazy
  // section of __DATA.
  lemma ConstSlotIsRebound(segname: string, flags: nat, a: int, word: int, replacement: int)
    requires segname == "__DATA" || segname == "__DATA_CONST"
    requires flags == 6 || flags == 7
    ensures var img := Image(Some("a.out"),
                             [Segment("__LINKEDIT", [], 1), Symtab(1), Dysymtab(1, 1),
                              Segment(segname, [Section(flags, a, 8, 0)], 1)],
                             [0], ["_malloc"], map[a := word]);
            var mem := Run([Load(img), Rebind([Rebinding("malloc", replacement, None)])], _ => true).world.mem;
            a in mem && mem[a] == replacement
  {
    var img, batch := SlotImage(segname, flags, a, "malloc", word), [Rebinding("malloc", replacement, None)];
    assert "_" + "malloc" == "_malloc";
    SlotImageTargets(segname, flags, a, "malloc", word);
    assert Layout([img], [batch]);
    FirstDecides(img, batch, 0, 0);
  }

  // What the engine takes for granted about an image: load commands have a size,
  // and the tables cover the pointer sections of the data segments.
  lemma LoadableImages(img: Image)
    requires forall i :: 0 <= i < |img.commands| ==> img.commands[i].cmdsize > 0
    requires forall i, j, k :: 0 <= i < |img.commands| && img.commands[i].Segment?
                               && (img.commands[i].segname == "__DATA" || img.commands[i].segname == "__DATA_CONST")
                               && 0 <= j < |img.commands[i].sections|
                               && InTable(img.commands[i].sections[j], k) ==>
               k < |img.indirect|
               && (img.indirect[k] in {0x4000_0000, 0x8000_0000, 0xC000_0000} || img.indirect[k] < |img.symtab|)
    ensures ImageOk(img)
  {
    forall i, j | 0 <= i < |img.commands| && img.commands[i].Segment? && 0 <= j < |img.commands[i].sections|
                  && IsDataSegment(img.commands[i]) && IsPointerSection(img.commands[i].sections[j])
      ensures SectionOk(img, img.commands[i].sections[j])
    {
      var sec := img.commands[i].sections[j];
      forall k | sec.reserved1 <= k < sec.reserved1 + sec.size / POINTER_SIZE ensures IndexOk(img, k) {
        assert InTable(sec, k);
      }
    }
  }

  // Entry k of the indirect table belongs to this pointer section.
  predicate InTable(sec: Section, k: int) {
    (sec.flags % 0x100 == 6 || sec.flags % 0x100 == 7) && sec.reserved1 <= k < sec.reserved1 + sec.size / 8
  }
}
