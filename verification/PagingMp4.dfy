/** MP4 demand paging: tables from the process pool, edited through the window that directory slot
    1023, the directory itself, opens at the top of the address space. */
module PagingMp4 {
  import opened FrameStates
  import opened PageWalk
  import opened PagingState

  const SELF := 1023
  const DIRECTORY_WINDOW := 0xFFFF_F000
  const TABLE_WINDOW := 0xFFC0_0000

  // ---------------------------------------------------------------- the recursive window

  /** With slot 1023 holding the directory itself, the top page of the address space is the directory. */
  lemma WindowReachesDirectory(mem: Memory, dir: nat, d: nat)
    requires dir < PAGES && d < ENTRIES && WordAt(mem, dir, 1023) == EntryFor(dir)
    ensures Resolve(mem, dir, 0xFFFF_F000 + 4 * d) == Mapped(dir * ENTRIES + d)
  {
    hide WordAt;
    var va: Word := DIRECTORY_WINDOW + 4 * d;
    assert va / PAGE_SIZE == SELF * ENTRIES + SELF && va % PAGE_SIZE / 4 == d;
  }

  /** And page `d` of the top 4 MB is the table of slot `d`, when that is present. */
  lemma WindowReachesTable(mem: Memory, dir: nat, d: nat, t: nat)
    requires dir < PAGES && d < ENTRIES && t < ENTRIES && WordAt(mem, dir, 1023) == EntryFor(dir)
    ensures Resolve(mem, dir, 0xFFC0_0000 + 0x1000 * d + 4 * t) ==
            match TargetOf(WordAt(mem, dir, d))
            case Unmapped => Unmapped
            case Mapped(table) => Mapped(table * ENTRIES + t)
  {
    hide WordAt;
    var va: Word := TABLE_WINDOW + 0x1000 * d + 4 * t;
    assert va / PAGE_SIZE == SELF * ENTRIES + d && va % PAGE_SIZE / 4 == t;
  }

  // ---------------------------------------------------------------- the invariant

  predicate InProcessUse(s: System, f: nat)
    requires Shape(s)
  {
    PROCESS_START <= f < PROCESS_START + PROCESS_SIZE && s.process[f - PROCESS_START] != Free
  }

  predicate TableOk(s: System, d: nat)
    requires Shape(s) && d < ENTRIES
  {
    if d == SELF then WordAt(s.mem, s.dir, d) == EntryFor(s.dir)
    else Table(s, d).Mapped? ==> InProcessUse(s, Table(s, d).frame)
  }

  /** Slot 1023 is the directory; the other tables present are process frames in use, all different;
      the pages below 1024 map to themselves. */
  ghost predicate Inv(s: System) {
    && Shape(s)
    && (forall d | 0 <= d < ENTRIES :: TableOk(s, d))
    && (forall d, e | 0 <= d < e < ENTRIES && Table(s, d).Mapped? :: Table(s, d) != Table(s, e))
    && (forall q | 0 <= q < ENTRIES :: Page(s, q) == Mapped(q))
  }

  /** Pages that are not in the window. */
  predicate Outside(q: int) {
    0 <= q < SELF * ENTRIES
  }

  lemma Bounds(s: System, page: nat)
    requires Inv(s) && Outside(page)
    ensures Shape(s) && page < PAGES
  {
  }

  // ---------------------------------------------------------------- the fault handler

  /** A frame of the process pool, as it is, becomes the table of slot `d`. */
  ghost function WithTable(s: System, d: nat): System
    requires Shape(s) && d < ENTRIES && HasFree(s.process)
  {
    s.(process := Marked(s.process, FirstFree(s.process), 1),
       mem := Stored(s.mem, s.dir, d, EntryFor(PROCESS_START + FirstFree(s.process))))
  }

  ghost function WithPage(s: System, page: nat): System
    requires Shape(s) && page < PAGES && HasFree(s.process)
    requires Table(s, page / ENTRIES).Mapped? && Table(s, page / ENTRIES).frame < FRAMES
  {
    s.(process := Marked(s.process, FirstFree(s.process), 1),
       mem := Stored(s.mem, Table(s, page / ENTRIES).frame, page % ENTRIES,
                     EntryFor(PROCESS_START + FirstFree(s.process))))
  }

  /** The pool has the one or two frames that a fault on `page` takes. */
  ghost predicate HasRoom(s: System, page: nat)
    requires page < PAGES
  {
    && HasFree(s.process)
    && (Table(s, page / ENTRIES).Mapped? || HasFree(Marked(s.process, FirstFree(s.process), 1)))
  }

  ghost function Fault(s: System, page: nat): System
    requires Shape(s) && page < PAGES && HasRoom(s, page)
    requires Table(s, page / ENTRIES).Mapped? ==> Table(s, page / ENTRIES).frame < FRAMES
  {
    if Table(s, page / ENTRIES).Mapped? then WithPage(s, page) else WithPage(WithTable(s, page / ENTRIES), page)
  }

  /** The frame that the faulting page is given. */
  ghost function Granted(s: System, page: nat): nat
    requires page < PAGES && HasRoom(s, page)
  {
    PROCESS_START + FirstFree(if Table(s, page / ENTRIES).Mapped? then s.process
                              else Marked(s.process, FirstFree(s.process), 1))
  }

  // ---------------------------------------------------------------- installing a table

  lemma TablesAfterInstall(s: System, d: nat, e: nat)
    requires Inv(s) && d < SELF && Table(s, d) == Unmapped && HasFree(s.process) && e < ENTRIES
    ensures Shape(WithTable(s, d)) && TableOk(WithTable(s, d), e)
    ensures Table(WithTable(s, d), e) == if e == d then Mapped(PROCESS_START + FirstFree(s.process)) else Table(s, e)
  {
    hide WordAt, Stored;
    assert TableOk(s, e);
    StoredAt(s.mem, s.dir, d, EntryFor(PROCESS_START + FirstFree(s.process)), s.dir, e);
  }

  /** The pages of the new table are what the frame happened to hold; the others are as before. */
  lemma PagesAfterInstall(s: System, d: nat, q: nat)
    requires Inv(s) && d < SELF && Table(s, d) == Unmapped && HasFree(s.process) && Outside(q)
    ensures Page(WithTable(s, d), q) ==
            if q / ENTRIES == d then TargetOf(WordAt(s.mem, PROCESS_START + FirstFree(s.process), q % ENTRIES))
            else Page(s, q)
  {
    hide WordAt, Stored;
    var (e, f) := (q / ENTRIES, PROCESS_START + FirstFree(s.process));
    TablesAfterInstall(s, d, e);
    assert TableOk(s, e);
    var g := if e == d then f else if Table(s, e).Mapped? then Table(s, e).frame else f;
    StoredAt(s.mem, s.dir, d, EntryFor(f), g, q % ENTRIES);
  }

  lemma InstallKeeps(s: System, d: nat)
    requires Inv(s) && d < SELF && Table(s, d) == Unmapped && HasFree(s.process)
    ensures Inv(WithTable(s, d))
  {
    hide Table, Page, WithTable, TableOk;
    var t := WithTable(s, d);
    forall e | 0 <= e < ENTRIES
      ensures Shape(t) && TableOk(t, e)
      ensures Table(t, e) == if e == d then Mapped(PROCESS_START + FirstFree(s.process)) else Table(s, e)
    {
      TablesAfterInstall(s, d, e);
    }
    forall e, g | 0 <= e < g < ENTRIES && Table(t, e).Mapped?
      ensures Table(t, e) != Table(t, g)
    {
      assert TableOk(s, e) && TableOk(s, g);
      TakenIsNew(s, e);
      TakenIsNew(s, g);
    }
    forall q | 0 <= q < ENTRIES
      ensures Page(t, q) == Mapped(q)
    {
      PagesAfterInstall(s, d, q);
      SlotZero(s);
    }
  }

  lemma SlotZero(s: System)
    requires Inv(s)
    ensures Table(s, 0).Mapped?
  {
    hide WordAt;
    assert Page(s, 0) == Mapped(0);
  }

  /** The next frame of the pool is not a table. */
  lemma TakenIsNew(s: System, e: nat)
    requires Inv(s) && HasFree(s.process) && e < ENTRIES
    ensures Table(s, e) != Mapped(PROCESS_START + FirstFree(s.process))
  {
    hide WordAt;
    assert TableOk(s, e);
  }

  // ---------------------------------------------------------------- mapping the page

  lemma TablesAfterMap(s: System, page: nat, e: nat)
    requires Inv(s) && Outside(page) && HasFree(s.process) && Table(s, page / ENTRIES).Mapped? && e < ENTRIES
    ensures Table(s, page / ENTRIES).frame < FRAMES && Shape(WithPage(s, page)) && TableOk(WithPage(s, page), e)
    ensures Table(WithPage(s, page), e) == Table(s, e)
  {
    hide WordAt, Stored;
    assert TableOk(s, page / ENTRIES) && TableOk(s, e);
    var f := PROCESS_START + FirstFree(s.process);
    StoredAt(s.mem, Table(s, page / ENTRIES).frame, page % ENTRIES, EntryFor(f), s.dir, e);
  }

  lemma PagesAfterMap(s: System, page: nat, q: nat)
    requires Inv(s) && Outside(page) && HasFree(s.process) && Table(s, page / ENTRIES).Mapped? && Outside(q)
    ensures Table(s, page / ENTRIES).frame < FRAMES
    ensures Page(WithPage(s, page), q) ==
            if q == page then Mapped(PROCESS_START + FirstFree(s.process)) else Page(s, q)
  {
    hide WordAt, Stored;
    var (d, e, f) := (page / ENTRIES, q / ENTRIES, PROCESS_START + FirstFree(s.process));
    TablesAfterMap(s, page, e);
    if Table(s, e).Mapped? {
      assert d < e ==> Table(s, d) != Table(s, e);
      assert e < d ==> Table(s, e) != Table(s, d);
      StoredAt(s.mem, Table(s, d).frame, page % ENTRIES, EntryFor(f), Table(s, e).frame, q % ENTRIES);
    }
  }

  lemma MapKeeps(s: System, page: nat)
    requires Inv(s) && Outside(page) && ENTRIES <= page && HasFree(s.process) && Table(s, page / ENTRIES).Mapped?
    ensures Table(s, page / ENTRIES).frame < FRAMES && Inv(WithPage(s, page))
  {
    hide Table, Page, TableOk;
    TablesAfterMap(s, page, 0);
    var t := WithPage(s, page);
    forall e | 0 <= e < ENTRIES
      ensures TableOk(t, e) && Table(t, e) == Table(s, e)
    {
      TablesAfterMap(s, page, e);
    }
    forall q | 0 <= q < ENTRIES
      ensures Page(t, q) == Mapped(q)
    {
      PagesAfterMap(s, page, q);
    }
  }

  // ---------------------------------------------------------------- the theorem of one fault

  /** What page `q` maps to after a fault on `page`. */
  ghost function After(s: System, page: nat, q: nat): Target
    requires Shape(s) && page < PAGES && HasRoom(s, page) && q < PAGES
  {
    if q == page then Mapped(Granted(s, page))
    else if q / ENTRIES == page / ENTRIES && Table(s, page / ENTRIES) == Unmapped
      then TargetOf(WordAt(s.mem, PROCESS_START + FirstFree(s.process), q % ENTRIES))
    else Page(s, q)
  }

  lemma FaultKeepsInv(s: System, page: nat)
    requires Inv(s) && Outside(page) && Page(s, page) == Unmapped && HasRoom(s, page)
    ensures Table(s, page / ENTRIES).Mapped? ==> Table(s, page / ENTRIES).frame < FRAMES
    ensures Inv(Fault(s, page))
  {
    assert ENTRIES <= page;
    hide Inv, Page, WordAt, FirstFree, HasFree;
    if Table(s, page / ENTRIES).Mapped? {
      MapKeeps(s, page);
    } else {
      InstallKeeps(s, page / ENTRIES);
      TablesAfterInstall(s, page / ENTRIES, page / ENTRIES);
      MapKeeps(WithTable(s, page / ENTRIES), page);
    }
  }

  lemma FaultMapsAt(s: System, page: nat, q: nat)
    requires Inv(s) && Outside(page) && Page(s, page) == Unmapped && HasRoom(s, page) && Outside(q)
    ensures Table(s, page / ENTRIES).Mapped? ==> Table(s, page / ENTRIES).frame < FRAMES
    ensures Page(Fault(s, page), q) == After(s, page, q)
  {
    FaultKeepsInv(s, page);
    hide Inv, Page, WordAt, FirstFree, HasFree;
    var d := page / ENTRIES;
    if Table(s, d).Mapped? {
      PagesAfterMap(s, page, q);
    } else {
      InstallKeeps(s, d);
      TablesAfterInstall(s, d, d);
      PagesAfterMap(WithTable(s, d), page, q);
      PagesAfterInstall(s, d, q);
    }
  }

  /** For a fault outside the window: the page gets a fresh frame; every other page keeps its
      translation, unless a new table was needed that covers it, and then it is whatever the frame of
      the table held. */
  lemma FaultMaps(s: System, page: nat)
    requires Inv(s) && Outside(page) && Page(s, page) == Unmapped && HasRoom(s, page)
    ensures Table(s, page / ENTRIES).Mapped? ==> Table(s, page / ENTRIES).frame < FRAMES
    ensures Inv(Fault(s, page))
    ensures forall q: nat | Outside(q) :: Page(Fault(s, page), q) == After(s, page, q)
  {
    FaultKeepsInv(s, page);
    hide Inv, Page, Fault, After;
    forall q: nat | Outside(q)
      ensures Page(Fault(s, page), q) == After(s, page, q)
    {
      FaultMapsAt(s, page, q);
    }
  }

  lemma UnmappedTable(s: System, q: nat)
    requires q < PAGES && Table(s, q / ENTRIES) == Unmapped
    ensures Page(s, q) == Unmapped
  {
  }

  /** Every translation outside the window that was present is kept. */
  lemma FaultKeepsPresent(s: System, page: nat, q: nat)
    requires Inv(s) && Outside(page) && Page(s, page) == Unmapped && HasRoom(s, page)
    requires Outside(q) && Page(s, q).Mapped?
    ensures Table(s, page / ENTRIES).Mapped? ==> Table(s, page / ENTRIES).frame < FRAMES
    ensures Page(Fault(s, page), q) == Page(s, q)
  {
    FaultMapsAt(s, page, q);
    hide Inv, Page, Fault, WordAt;
    if Table(s, q / ENTRIES) == Unmapped {
      UnmappedTable(s, q);
    }
  }

  /** All translations outside the window but that of `page` are the same in `t`. */
  ghost predicate SameBut(s: System, page: nat, t: System) {
    forall q: nat | Outside(q) && q != page :: Page(t, q) == Page(s, q)
  }

  predicate EmptyAt(mem: Memory, frame: nat, i: nat)
    requires i < ENTRIES
  {
    !Present(WordAt(mem, frame, i))
  }

  /** Entry `i` of slot `d` as a page number. */
  function PageNumber(d: nat, i: nat): (q: nat)
    requires d < ENTRIES && i < ENTRIES
    ensures q / ENTRIES == d && q % ENTRIES == i
  {
    d * ENTRIES + i
  }

  /** No word of the frame but word `k` looks like a present entry. */
  ghost predicate EmptyBut(mem: Memory, frame: nat, k: nat) {
    forall i: nat | i < ENTRIES && i != k :: EmptyAt(mem, frame, i)
  }

  /** What a page under a new table reads as, given that it was not mapped before. */
  lemma UnderNewTable(s: System, page: nat, q: nat)
    requires Inv(s) && Outside(page) && Page(s, page) == Unmapped && HasRoom(s, page)
    requires Table(s, page / ENTRIES) == Unmapped && Outside(q) && q != page && q / ENTRIES == page / ENTRIES
    ensures Page(Fault(s, page), q) == Page(s, q) <==> EmptyAt(s.mem, PROCESS_START + FirstFree(s.process), q % ENTRIES)
  {
    FaultMapsAt(s, page, q);
    hide Inv, Page, Fault, WordAt, FirstFree, HasFree;
    UnmappedTable(s, q);
  }

  lemma SameButWith(s: System, page: nat)
    requires Inv(s) && Outside(page) && Page(s, page) == Unmapped && HasRoom(s, page)
             && Table(s, page / ENTRIES).Mapped?
    ensures Table(s, page / ENTRIES).frame < FRAMES && SameBut(s, page, Fault(s, page))
  {
    FaultKeepsInv(s, page);
    hide Inv, Page, Fault, FirstFree, HasFree;
    forall q: nat | Outside(q) && q != page
      ensures Page(Fault(s, page), q) == Page(s, q)
    {
      FaultMapsAt(s, page, q);
    }
  }

  lemma SameButIfEmpty(s: System, page: nat)
    requires Inv(s) && Outside(page) && Page(s, page) == Unmapped && HasRoom(s, page)
             && Table(s, page / ENTRIES) == Unmapped
    requires EmptyBut(s.mem, PROCESS_START + FirstFree(s.process), page % ENTRIES)
    ensures SameBut(s, page, Fault(s, page))
  {
    hide Inv, Page, Fault, FirstFree, HasFree, EmptyAt, Table;
    Bounds(s, page);
    forall q: nat | Outside(q) && q != page
      ensures Page(Fault(s, page), q) == Page(s, q)
    {
      FaultMapsAt(s, page, q);
      if q / ENTRIES == page / ENTRIES {
        UnderNewTable(s, page, q);
      }
    }
  }

  lemma EmptyIfSameBut(s: System, page: nat)
    requires Inv(s) && Outside(page) && Page(s, page) == Unmapped && HasRoom(s, page)
             && Table(s, page / ENTRIES) == Unmapped
    requires SameBut(s, page, Fault(s, page))
    ensures EmptyBut(s.mem, PROCESS_START + FirstFree(s.process), page % ENTRIES)
  {
    hide Inv, Page, Fault, FirstFree, HasFree, EmptyAt, Table;
    Bounds(s, page);
    forall i: nat {:trigger EmptyAt(s.mem, PROCESS_START + FirstFree(s.process), i)}
      | i < ENTRIES && i != page % ENTRIES
      ensures EmptyAt(s.mem, PROCESS_START + FirstFree(s.process), i)
    {
      UnderNewTable(s, page, PageNumber(page / ENTRIES, i));
    }
  }

  /** The fault adds exactly the one translation if and only if the table was present already, or every
      other word of the frame that becomes the table happens not to be a present entry. */
  lemma AddsOneIff(s: System, page: nat)
    requires Inv(s) && Outside(page) && Page(s, page) == Unmapped && HasRoom(s, page)
    ensures Table(s, page / ENTRIES).Mapped? ==> Table(s, page / ENTRIES).frame < FRAMES
    ensures SameBut(s, page, Fault(s, page)) <==>
            Table(s, page / ENTRIES).Mapped? || EmptyBut(s.mem, PROCESS_START + FirstFree(s.process), page % ENTRIES)
  {
    hide Inv, Page, Fault, FirstFree, HasFree, EmptyBut, SameBut, Table, Shape;
    Bounds(s, page);
    if Table(s, page / ENTRIES).Mapped? {
      SameButWith(s, page);
    } else if SameBut(s, page, Fault(s, page)) {
      EmptyIfSameBut(s, page);
    } else if EmptyBut(s.mem, PROCESS_START + FirstFree(s.process), page % ENTRIES) {
      SameButIfEmpty(s, page);
    }
  }

  // ---------------------------------------------------------------- data frames

  ghost predicate FaultsAt(s: System, page: nat, t: System) {
    && Shape(s) && Outside(page) && HasRoom(s, page) && Page(s, page) == Unmapped
    && (Table(s, page / ENTRIES).Mapped? ==> Table(s, page / ENTRIES).frame < FRAMES)
    && t == Fault(s, page)
  }

  /** A process frame in use that is no table. */
  ghost predicate DataFrame(s: System, f: nat)
    requires Shape(s)
  {
    InProcessUse(s, f) && forall e | 0 <= e < ENTRIES :: Table(s, e) != Mapped(f)
  }

  lemma TablesAfterFault(s: System, page: nat, t: System, e: nat)
    requires Inv(s) && FaultsAt(s, page, t) && e < ENTRIES
    ensures Table(t, e) ==
            if e == page / ENTRIES && Table(s, e) == Unmapped then Mapped(PROCESS_START + FirstFree(s.process))
            else Table(s, e)
  {
    hide Inv, Page, WordAt, FirstFree, HasFree;
    var d := page / ENTRIES;
    if Table(s, d).Mapped? {
      TablesAfterMap(s, page, e);
    } else {
      InstallKeeps(s, d);
      TablesAfterInstall(s, d, d);
      TablesAfterInstall(s, d, e);
      TablesAfterMap(WithTable(s, d), page, e);
    }
  }

  /** The word that was stored for the page, and the one for a new table. */
  lemma EntriesAfterFault(s: System, page: nat, t: System)
    requires Inv(s) && FaultsAt(s, page, t)
    ensures var d := page / ENTRIES;
            && Table(t, d).Mapped?
            && WordAt(t.mem, Table(t, d).frame, page % ENTRIES) == EntryFor(Granted(s, page))
            && (Table(s, d) == Unmapped ==> WordAt(t.mem, t.dir, d) == EntryFor(PROCESS_START + FirstFree(s.process)))
  {
    hide Inv, Page, FirstFree, HasFree, WordAt, Stored, Table, EntryFor, Marked;
    Bounds(s, page);
    TablesAfterFault(s, page, t, page / ENTRIES);
    var (d, k) := (page / ENTRIES, PROCESS_START + FirstFree(s.process));
    if Table(s, d).Mapped? {
      StoredAt(s.mem, Table(s, d).frame, page % ENTRIES, EntryFor(k), Table(s, d).frame, page % ENTRIES);
    } else {
      TablesAfterInstall(s, d, d);
      StoredAt(WithTable(s, d).mem, k, page % ENTRIES, EntryFor(Granted(s, page)), k, page % ENTRIES);
      StoredAt(WithTable(s, d).mem, k, page % ENTRIES, EntryFor(Granted(s, page)), s.dir, d);
      StoredAt(s.mem, s.dir, d, EntryFor(k), s.dir, d);
    }
  }

  /** What a fault takes from the process pool: the lowest free frame for the page; if the directory has
      no table for it, the lowest free frame becomes the table, and the next one is for the page. What it
      stores is present and writable, for the kernel. */
  lemma FaultTakes(s: System, page: nat, t: System)
    requires Inv(s) && FaultsAt(s, page, t)
    ensures var d := page / 1024;
            && t.dir == s.dir && t.kernel == s.kernel && Table(t, d).Mapped? && Page(t, page).Mapped?
            && WordAt(t.mem, Table(t, d).frame, page % 1024) % 4096 == 3
            && (if Table(s, d).Mapped? then
                  Table(t, d) == Table(s, d) && TakesLowest(s.process, Page(t, page).frame - 1024, t.process)
                else
                  var g := Table(t, d).frame - 1024;
                  && 0 <= g < |s.process| && TakesLowest(s.process, g, s.process[g := HoS])
                  && TakesLowest(s.process[g := HoS], Page(t, page).frame - 1024, t.process)
                  && WordAt(t.mem, t.dir, d) % 4096 == 3)
    ensures forall e | 0 <= e < 1024 && e != page / 1024 :: Table(t, e) == Table(s, e)
  {
    hide Inv, Page, Table, WordAt, HasFree, FirstFree, EntryFor, Fault, Marked;
    GrantedPage(s, page, t);
    ProcessAfterFault(s, page);
    EntriesAfterFault(s, page, t);
    EntryWord(Granted(s, page));
    EntryWord(PROCESS_START + FirstFree(s.process));
    forall e | 0 <= e < 1024
      ensures Table(t, e) == if e == page / 1024 && Table(s, e) == Unmapped then Mapped(1024 + FirstFree(s.process))
                             else Table(s, e)
    {
      TablesAfterFault(s, page, t, e);
    }
    FirstFreeTaken(s.process);
    if Table(s, page / 1024) == Unmapped {
      FirstFreeTaken(Marked(s.process, FirstFree(s.process), 1));
    }
  }

  lemma GrantedPage(s: System, page: nat, t: System)
    requires Inv(s) && FaultsAt(s, page, t)
    ensures Page(t, page) == Mapped(Granted(s, page)) && t.dir == s.dir && t.kernel == s.kernel && Shape(s)
    ensures Table(s, page / ENTRIES).Mapped? ==> Table(s, page / ENTRIES).frame < FRAMES
  {
    hide Inv, Page, WordAt, HasFree, FirstFree, EntryFor, Marked;
    FaultMapsAt(s, page, page);
  }

  /** The frame given to the page was free, becomes a data frame, and data frames stay data frames. */
  lemma FaultGrantsData(s: System, page: nat, t: System, f: nat)
    requires Inv(s) && FaultsAt(s, page, t)
    ensures Shape(t) && DataFrame(t, Granted(s, page)) && !InProcessUse(s, Granted(s, page))
    ensures DataFrame(s, f) ==> DataFrame(t, f)
  {
    GrantedNow(s, page, t);
    hide Table, Page, Fault, Inv, Granted, InProcessUse, FaultsAt;
    forall e | 0 <= e < ENTRIES
      ensures Table(t, e) != Mapped(Granted(s, page)) && (DataFrame(s, f) ==> Table(t, e) != Mapped(f))
    {
      TableGivenApart(s, page, t, f, e);
    }
    if DataFrame(s, f) {
      StaysInUse(s, page, t, f);
    }
  }

  lemma GrantedNow(s: System, page: nat, t: System)
    requires Inv(s) && FaultsAt(s, page, t)
    ensures Shape(s) && Shape(t) && InProcessUse(t, Granted(s, page)) && !InProcessUse(s, Granted(s, page))
  {
    FaultKeepsInv(s, page);
    ProcessAfterFault(s, page);
    hide Table, Page, Fault, WordAt;
  }

  lemma StaysInUse(s: System, page: nat, t: System, f: nat)
    requires Shape(s) && Shape(t) && FaultsAt(s, page, t) && InProcessUse(s, f)
    ensures InProcessUse(t, f)
  {
    ProcessAfterFault(s, page);
    hide Table, Page, Fault, WordAt;
  }

  lemma TableInUse(s: System, e: nat)
    requires Inv(s) && e < ENTRIES
    ensures Shape(s)
    ensures Table(s, e).Mapped? && e != SELF ==> InProcessUse(s, Table(s, e).frame)
    ensures e == SELF ==> Table(s, e) == Mapped(s.dir)
  {
    assert TableOk(s, e);
  }

  lemma TableGivenApart(s: System, page: nat, t: System, f: nat, e: nat)
    requires Inv(s) && FaultsAt(s, page, t) && e < ENTRIES
    ensures Table(t, e) != Mapped(Granted(s, page))
    ensures DataFrame(s, f) ==> Table(t, e) != Mapped(f)
  {
    hide Table, Page, Fault, WordAt, Inv, HasFree, FirstFree, Marked;
    TableInUse(s, e);
    TablesAfterFault(s, page, t, e);
  }

  lemma ProcessAfterFault(s: System, page: nat)
    requires Shape(s) && page < PAGES && HasRoom(s, page)
    requires Table(s, page / ENTRIES).Mapped? ==> Table(s, page / ENTRIES).frame < FRAMES
    ensures var p := if Table(s, page / ENTRIES).Mapped? then s.process else Marked(s.process, FirstFree(s.process), 1);
            Fault(s, page).process == Marked(p, FirstFree(p), 1)
  {
  }

  /** The program's store at `va`. */
  function Written(s: System, va: Word, w: Word): System
    requires Page(s, va / PAGE_SIZE).Mapped? && Exists(s.mem, Page(s, va / PAGE_SIZE).frame)
  {
    s.(mem := Stored(s.mem, Page(s, va / PAGE_SIZE).frame, va % PAGE_SIZE / 4, w))
  }

  lemma StoreMissesTables(s: System, f: nat, i: nat, w: Word, e: nat)
    requires Inv(s) && DataFrame(s, f) && i < ENTRIES && e < ENTRIES
    ensures Exists(s.mem, f)
    ensures var t := s.(mem := Stored(s.mem, f, i, w));
            && Shape(t) && Table(t, e) == Table(s, e) && TableOk(t, e)
            && forall k: nat | k < ENTRIES && Table(s, e).Mapped? ::
                 WordAt(t.mem, Table(s, e).frame, k) == WordAt(s.mem, Table(s, e).frame, k)
  {
    assert TableOk(s, e) && Table(s, e) != Mapped(f);
    hide WordAt, Stored;
    StoredAt(s.mem, f, i, w, s.dir, e);
    if Table(s, e).Mapped? {
      forall k: nat | k < ENTRIES
        ensures WordAt(Stored(s.mem, f, i, w), Table(s, e).frame, k) == WordAt(s.mem, Table(s, e).frame, k)
      {
        StoredAt(s.mem, f, i, w, Table(s, e).frame, k);
      }
    }
  }

  /** A store to a data frame changes no translation, and data frames stay data frames. */
  lemma StoreKeeps(s: System, f: nat, i: nat, w: Word)
    requires Inv(s) && DataFrame(s, f) && i < ENTRIES
    ensures Exists(s.mem, f)
    ensures var t := s.(mem := Stored(s.mem, f, i, w));
            && Inv(t) && (forall q: nat | q < PAGES :: Page(t, q) == Page(s, q))
            && forall g: nat | DataFrame(s, g) :: DataFrame(t, g)
  {
    StoreMissesTables(s, f, i, w, 0);
    var t := s.(mem := Stored(s.mem, f, i, w));
    hide Table, WordAt, Stored, TableOk;
    forall e | 0 <= e < ENTRIES
      ensures Table(t, e) == Table(s, e) && TableOk(t, e)
    {
      StoreMissesTables(s, f, i, w, e);
    }
    forall q: nat | q < PAGES
      ensures Page(t, q) == Page(s, q)
    {
      StoreMissesPage(s, f, i, w, q);
    }
  }

  lemma StoreMissesPage(s: System, f: nat, i: nat, w: Word, q: nat)
    requires Inv(s) && DataFrame(s, f) && i < ENTRIES && q < PAGES && Exists(s.mem, f)
    ensures Page(s.(mem := Stored(s.mem, f, i, w)), q) == Page(s, q)
  {
    StoreMissesTables(s, f, i, w, q / ENTRIES);
    hide WordAt, Stored, Inv, TableOk, DataFrame;
  }

  /** A data frame is no table, not the directory, and not the next frame granted. */
  lemma DataApart(s: System, f: nat, d: nat)
    requires Inv(s) && DataFrame(s, f) && HasFree(s.process) && d < ENTRIES
    ensures Shape(s) && Table(s, d) != Mapped(f) && f != s.dir && f != PROCESS_START + FirstFree(s.process)
    ensures Table(s, d).Mapped? ==> Table(s, d).frame < FRAMES
  {
    assert TableOk(s, d) && TableOk(s, SELF);
  }

  /** A fault changes no word of a data frame. */
  lemma FaultMisses(s: System, page: nat, t: System, f: nat, i: nat)
    requires Inv(s) && FaultsAt(s, page, t) && DataFrame(s, f) && i < ENTRIES
    ensures WordAt(t.mem, f, i) == WordAt(s.mem, f, i)
  {
    hide WordAt, Stored, Inv, HasFree, FirstFree, DataFrame, Page, Table;
    var (d, k) := (page / ENTRIES, PROCESS_START + FirstFree(s.process));
    DataApart(s, f, d);
    if Table(s, d).Mapped? {
      StoredAt(s.mem, Table(s, d).frame, page % ENTRIES, EntryFor(k), f, i);
    } else {
      TablesAfterInstall(s, d, d);
      StoredAt(s.mem, s.dir, d, EntryFor(k), f, i);
      StoredAt(WithTable(s, d).mem, k, page % ENTRIES, EntryFor(Granted(s, page)), f, i);
    }
  }

  // ---------------------------------------------------------------- histories of faults and stores

  ghost predicate Happens(s: System, e: Event, t: System) {
    match e
    case PageFault(page) => FaultsAt(s, page, t)
    case Write(va, w) =>
      && va % 4 == 0 && Page(s, va / PAGE_SIZE).Mapped? && Exists(s.mem, Page(s, va / PAGE_SIZE).frame)
      && t == Written(s, va, w)
  }

  /** The page faulted before event `j`. */
  predicate FaultedIn(es: seq<Event>, j: nat, page: nat)
    requires j <= |es|
  {
    PageFault(page) in es[..j]
  }

  /** Faults outside the window, and stores by the program to pages that it faulted in. */
  ghost predicate IsHistory(ss: seq<System>, es: seq<Event>) {
    && |ss| == |es| + 1
    && (forall j | 0 <= j < |es| :: Happens(ss[j], es[j], ss[j + 1]))
    && forall j: nat | j < |es| && es[j].Write? :: FaultedIn(es, j, es[j].va / PAGE_SIZE)
  }

  /** Event `j` is a fault whose page is given frame `f`. */
  ghost predicate Gives(ss: seq<System>, es: seq<Event>, j: nat, f: nat)
    requires |ss| == |es| + 1 && j < |es|
  {
    && es[j].PageFault? && es[j].page < PAGES
    && HasRoom(ss[j], es[j].page) && f == Granted(ss[j], es[j].page)
  }

  /** Page `q` is mapped to a data frame. */
  ghost predicate OnData(s: System, q: nat)
    requires q < PAGES
  {
    Shape(s) && Page(s, q).Mapped? && DataFrame(s, Page(s, q).frame)
  }

  lemma PrefixIsHistory(ss: seq<System>, es: seq<Event>, j: nat)
    requires IsHistory(ss, es) && j <= |es|
    ensures IsHistory(ss[..j + 1], es[..j])
  {
    hide Happens;
    var (s1, e1) := (ss[..j + 1], es[..j]);
    forall i | 0 <= i < j
      ensures Happens(s1[i], e1[i], s1[i + 1])
    {
      assert s1[i] == ss[i] && s1[i + 1] == ss[i + 1] && e1[i] == es[i];
    }
    forall i: nat | i < j && e1[i].Write?
      ensures FaultedIn(e1, i, e1[i].va / PAGE_SIZE)
    {
      assert e1[i] == es[i] && e1[..i] == es[..i] && FaultedIn(es, i, es[i].va / PAGE_SIZE);
    }
  }

  lemma EventKeeps(s: System, e: Event, t: System)
    requires Inv(s) && Happens(s, e, t) && (e.Write? ==> OnData(s, e.va / PAGE_SIZE))
    ensures Inv(t)
    ensures forall q: nat | Outside(q) && Page(s, q).Mapped? :: Page(t, q) == Page(s, q)
    ensures forall f: nat | Shape(s) && DataFrame(s, f) :: Shape(t) && DataFrame(t, f)
    ensures e.PageFault? ==>
              && Outside(e.page) && HasRoom(s, e.page) && Page(s, e.page) == Unmapped
              && Page(t, e.page) == Mapped(Granted(s, e.page)) && OnData(t, e.page)
  {
    assert Shape(s);
    hide Inv, Page, Fault, Table, FirstFree, HasFree, DataFrame, Stored, HasRoom, Granted;
    match e
    case PageFault(page) =>
      FaultKeepsInv(s, page);
      FaultMapsAt(s, page, page);
      FaultGrantsData(s, page, t, 0);
      forall q: nat | Outside(q) && Page(s, q).Mapped?
        ensures Page(t, q) == Page(s, q)
      {
        FaultKeepsPresent(s, page, q);
      }
      forall f: nat | DataFrame(s, f)
        ensures DataFrame(t, f)
      {
        FaultGrantsData(s, page, t, f);
      }
    case Write(va, w) =>
      StoreKeeps(s, Page(s, va / PAGE_SIZE).frame, va % PAGE_SIZE / 4, w);
  }

  /** Over every history: translations that were present are kept, every faulted page stays mapped to the
      frame it was given, and that frame is no table. */
  lemma {:induction false} HistoryKeeps(ss: seq<System>, es: seq<Event>)
    requires IsHistory(ss, es) && Inv(ss[0])
    ensures Inv(ss[|es|])
    ensures forall q: nat | Outside(q) && Page(ss[0], q).Mapped? :: Page(ss[|es|], q) == Page(ss[0], q)
    ensures forall q: nat | PageFault(q) in es :: Outside(q) && OnData(ss[|es|], q)
    ensures forall j: nat, f: nat | j < |es| && Gives(ss, es, j, f) ::
              es[j].PageFault? && es[j].page < PAGES && Page(ss[|es|], es[j].page) == Mapped(f)
    decreases |es|
  {
    var n := |es|;
    if n > 0 {
      var (s, e, before) := (ss[n - 1], es[n - 1], es[..n - 1]);
      PrefixIsHistory(ss, es, n - 1);
      hide Inv, Page, Happens, OnData, Granted, HasRoom;
      HistoryKeeps(ss[..n], before);
      assert ss[..n][n - 1] == s && (e.Write? ==> FaultedIn(es, n - 1, e.va / PAGE_SIZE));
      EventKeeps(s, e, ss[n]);
      forall q: nat | PageFault(q) in es
        ensures Outside(q) && OnData(ss[n], q)
      {
        if PageFault(q) in before {
          StaysOnData(s, q, ss[n]);
        } else {
          assert e == PageFault(q);
        }
      }
      forall j: nat, f: nat | j < n && Gives(ss, es, j, f)
        ensures es[j].page < PAGES && Page(ss[n], es[j].page) == Mapped(f)
      {
        if j < n - 1 {
          assert ss[..n][j] == ss[j] && before[j] == es[j] && Gives(ss[..n], before, j, f);
          assert es[j] in before;
        }
      }
    }
  }

  lemma StaysOnData(s: System, q: nat, t: System)
    requires q < PAGES && OnData(s, q) && Page(t, q) == Page(s, q)
    requires forall f: nat | Shape(s) && DataFrame(s, f) :: Shape(t) && DataFrame(t, f)
    ensures OnData(t, q)
  {
    hide Page, DataFrame;
  }

  /** No frame is given twice in a history. */
  lemma GivenOnce(ss: seq<System>, es: seq<Event>, i: nat, j: nat, f: nat)
    requires IsHistory(ss, es) && Inv(ss[0]) && i < j < |es| && Gives(ss, es, i, f)
    ensures !Gives(ss, es, j, f)
  {
    PrefixIsHistory(ss, es, j);
    assert Happens(ss[j], es[j], ss[j + 1]);
    hide Inv, Page, Fault, HasRoom, Table, Granted;
    HistoryKeeps(ss[..j + 1], es[..j]);
    assert Gives(ss[..j + 1], es[..j], i, f) && ss[..j + 1][j] == ss[j] && es[..j][i] == es[i] && es[i] in es[..j];
    if es[j].PageFault? {
      FaultGrantsData(ss[j], es[j].page, ss[j + 1], f);
    }
  }

  lemma FaultGives(ss: seq<System>, es: seq<Event>, j: nat)
    requires IsHistory(ss, es) && j < |es| && es[j].PageFault?
    ensures exists f: nat :: Gives(ss, es, j, f)
  {
    hide Page, Fault, Granted, HasRoom;
    assert Happens(ss[j], es[j], ss[j + 1]);
    assert Gives(ss, es, j, Granted(ss[j], es[j].page));
  }

  /** Different faulted pages are mapped to different frames. */
  lemma OwnFrames(ss: seq<System>, es: seq<Event>, q: nat, r: nat)
    requires IsHistory(ss, es) && Inv(ss[0]) && PageFault(q) in es && PageFault(r) in es && q != r
    ensures Outside(q) && Outside(r) && Page(ss[|es|], q) != Page(ss[|es|], r)
  {
    hide Inv, Page, Happens, Gives, OnData;
    HistoryKeeps(ss, es);
    var i: nat :| i < |es| && es[i] == PageFault(q);
    var j: nat :| j < |es| && es[j] == PageFault(r);
    FaultGives(ss, es, i);
    FaultGives(ss, es, j);
    var f: nat :| Gives(ss, es, i, f);
    var g: nat :| Gives(ss, es, j, g);
    if i < j {
      GivenOnce(ss, es, i, j, f);
    } else {
      GivenOnce(ss, es, j, i, g);
    }
  }

  /** The word that virtual address `va` reads as. */
  function Contents(s: System, va: Word): Word
    requires Page(s, va / PAGE_SIZE).Mapped?
  {
    WordAt(s.mem, Page(s, va / PAGE_SIZE).frame, va % PAGE_SIZE / 4)
  }

  /** One event leaves a word of a faulted page alone unless it writes it. */
  lemma ContentsKept(ss: seq<System>, es: seq<Event>, va: Word, e: Event, t: System)
    requires IsHistory(ss, es) && Inv(ss[0]) && PageFault(va / PAGE_SIZE) in es && va % 4 == 0
    requires Happens(ss[|es|], e, t) && !Writes(e, va) && (e.Write? ==> PageFault(e.va / PAGE_SIZE) in es)
    ensures OnData(ss[|es|], va / PAGE_SIZE) && Page(t, va / PAGE_SIZE) == Page(ss[|es|], va / PAGE_SIZE)
    ensures Contents(t, va) == Contents(ss[|es|], va)
  {
    var (s, q) := (ss[|es|], va / PAGE_SIZE);
    HistoryKeeps(ss, es);
    if e.Write? && e.va / PAGE_SIZE != q {
      OwnFrames(ss, es, e.va / PAGE_SIZE, q);
    }
    hide Inv, Page, IsHistory, WordAt, Stored, Fault, DataFrame;
    EventKeeps(s, e, t);
    match e
    case PageFault(page) =>
      FaultMisses(s, page, t, Page(s, q).frame, va % PAGE_SIZE / 4);
    case Write(x, w) =>
      if x / PAGE_SIZE == q && x % PAGE_SIZE / 4 == va % PAGE_SIZE / 4 {
        SameWord(x, va);
      }
      StoredAt(s.mem, Page(s, x / PAGE_SIZE).frame, x % PAGE_SIZE / 4, w, Page(s, q).frame, va % PAGE_SIZE / 4);
  }

  lemma WrittenNow(s: System, e: Event, t: System)
    requires Inv(s) && Happens(s, e, t) && e.Write? && OnData(s, e.va / PAGE_SIZE)
    ensures Page(t, e.va / PAGE_SIZE) == Page(s, e.va / PAGE_SIZE) && Contents(t, e.va) == e.w
  {
    var (f, i) := (Page(s, e.va / PAGE_SIZE).frame, e.va % PAGE_SIZE / 4);
    StoreKeeps(s, f, i, e.w);
    hide Inv, Page, WordAt, Stored, DataFrame;
    StoredAt(s.mem, f, i, e.w, f, i);
  }

  /** A word of a faulted page reads as what was last stored there, whatever faults and other stores came
      in between, although new tables are not cleared. */
  lemma {:induction false} ReadsLastWritten(ss: seq<System>, es: seq<Event>, i: nat)
    requires IsHistory(ss, es) && Inv(ss[0]) && i < |es| && es[i].Write?
    requires forall j | i < j < |es| :: !Writes(es[j], es[i].va)
    ensures Page(ss[|es|], es[i].va / PAGE_SIZE).Mapped? && Contents(ss[|es|], es[i].va) == es[i].w
    decreases |es|
  {
    var (n, q) := (|es| - 1, es[i].va / PAGE_SIZE);
    PrefixIsHistory(ss, es, n);
    assert Happens(ss[n], es[n], ss[n + 1]) && ss[..n + 1][n] == ss[n] && es[i].va % 4 == 0 by {
      assert Happens(ss[i], es[i], ss[i + 1]);
    }
    assert FaultedIn(es, i, q);
    assert es[n].Write? ==> FaultedIn(es, n, es[n].va / PAGE_SIZE);
    hide Inv, Page, Happens, Contents, IsHistory, OnData;
    HistoryKeeps(ss[..n + 1], es[..n]);
    assert es[..i] <= es[..n] && PageFault(q) in es[..n];
    if i == n {
      WrittenNow(ss[n], es[n], ss[n + 1]);
    } else {
      assert es[..n][i] == es[i];
      ReadsLastWritten(ss[..n + 1], es[..n], i);
      ContentsKept(ss[..n + 1], es[..n], es[i].va, es[n], ss[n + 1]);
    }
  }

  // ---------------------------------------------------------------- the first page table

  /** What the constructor builds. Entries that are not present hold 2. */
  ghost function Built(mem: Memory, kernel: States, process: States): System
    requires |mem| == FRAMES * ENTRIES && |kernel| == KERNEL_SIZE && |process| == PROCESS_SIZE
    requires HasFree(kernel) && HasFree(process)
  {
    var d := KERNEL_START + FirstFree(kernel);
    var t := PROCESS_START + FirstFree(process);
    var m := Filled(Stored(mem, d, SELF, EntryFor(d)), t, 0, ENTRIES, IdentityRow());
    System(Filled(Stored(m, d, 0, EntryFor(t)), d, 1, SELF, Row(2)),
           d, Marked(kernel, FirstFree(kernel), 1), Marked(process, FirstFree(process), 1))
  }

  /** The words of the new directory and of its first table; no other frame is written. */
  lemma WordsOfBuilt(mem: Memory, kernel: States, process: States, g: nat, i: nat)
    requires |mem| == FRAMES * ENTRIES && |kernel| == KERNEL_SIZE && |process| == PROCESS_SIZE
    requires HasFree(kernel) && HasFree(process) && i < ENTRIES
    ensures var d := KERNEL_START + FirstFree(kernel);
            var t := PROCESS_START + FirstFree(process);
            WordAt(Built(mem, kernel, process).mem, g, i) ==
            if g == d then (if i == 0 then t * 4096 + 3 else if i == 1023 then d * 4096 + 3 else 2)
            else if g == t then i * 4096 + 3 else WordAt(mem, g, i)
  {
    hide WordAt, Stored, Filled;
    var (d, t) := (KERNEL_START + FirstFree(kernel), PROCESS_START + FirstFree(process));
    var m0 := Stored(mem, d, SELF, EntryFor(d));
    var m := Filled(m0, t, 0, ENTRIES, IdentityRow());
    FilledAt(Stored(m, d, 0, EntryFor(t)), d, 1, SELF, Row(2), g, i);
    StoredAt(m, d, 0, EntryFor(t), g, i);
    FilledAt(m0, t, 0, ENTRIES, IdentityRow(), g, i);
    StoredAt(mem, d, SELF, EntryFor(d), g, i);
  }

  lemma NoEntry()
    ensures TargetOf(2) == Unmapped
  {
  }

  lemma PagesOfBuilt(mem: Memory, kernel: States, process: States, q: nat)
    requires |mem| == FRAMES * ENTRIES && |kernel| == KERNEL_SIZE && |process| == PROCESS_SIZE
    requires HasFree(kernel) && HasFree(process) && Outside(q)
    ensures Page(Built(mem, kernel, process), q) == if q < ENTRIES then Mapped(q) else Unmapped
  {
    hide WordAt, Built, TargetOf, HasFree;
    NoEntry();
    EntryWord(KERNEL_START + FirstFree(kernel));
    EntryWord(PROCESS_START + FirstFree(process));
    EntryWord(q % ENTRIES);
    WordsOfBuilt(mem, kernel, process, KERNEL_START + FirstFree(kernel), q / ENTRIES);
    WordsOfBuilt(mem, kernel, process, PROCESS_START + FirstFree(process), q % ENTRIES);
    BuiltDirectory(mem, kernel, process);
  }

  lemma BuiltDirectory(mem: Memory, kernel: States, process: States)
    requires |mem| == FRAMES * ENTRIES && |kernel| == KERNEL_SIZE && |process| == PROCESS_SIZE
    requires HasFree(kernel) && HasFree(process)
    ensures Shape(Built(mem, kernel, process)) && Built(mem, kernel, process).dir == KERNEL_START + FirstFree(kernel)
    ensures Built(mem, kernel, process).process == Marked(process, FirstFree(process), 1)
  {
  }

  /** From any memory contents, the constructor leaves exactly the pages below 1024 mapped outside the
      window, each to itself. */
  lemma BuiltInv(mem: Memory, kernel: States, process: States)
    requires |mem| == FRAMES * ENTRIES && |kernel| == KERNEL_SIZE && |process| == PROCESS_SIZE
    requires HasFree(kernel) && HasFree(process)
    ensures Inv(Built(mem, kernel, process))
    ensures forall q: nat | Outside(q) ::
              Page(Built(mem, kernel, process), q) == if q < ENTRIES then Mapped(q) else Unmapped
  {
    hide WordAt, Built, Page;
    var s := Built(mem, kernel, process);
    BuiltDirectory(mem, kernel, process);
    forall e | 0 <= e < ENTRIES
      ensures TableOk(s, e) && (e != 0 && e != SELF ==> Table(s, e) == Unmapped)
    {
      WordsOfBuilt(mem, kernel, process, s.dir, e);
    }
    WordsOfBuilt(mem, kernel, process, s.dir, 0);
    forall q: nat | Outside(q)
      ensures Page(s, q) == if q < ENTRIES then Mapped(q) else Unmapped
    {
      PagesOfBuilt(mem, kernel, process, q);
    }
  }

  lemma FreshPool(process: States)
    requires |process| == PROCESS_SIZE && forall i | 0 <= i < PROCESS_SIZE :: process[i] == Free
    ensures HasFree(process) && FirstFree(process) == 0
    ensures var p := Marked(process, 0, 1);
            HasFree(p) && FirstFree(p) == 1 && HasFree(Marked(p, 1, 1))
  {
    assert process[0] == Free;
    var p := Marked(process, 0, 1);
    assert p[1] == Free && Marked(p, 1, 1)[2] == Free;
  }

  /** On fresh pools, what the frame of the first new table held decides about the second page. */
  lemma FirstFault(mem: Memory, kernel: States, process: States)
    requires |mem| == FRAMES * ENTRIES && |kernel| == KERNEL_SIZE && |process| == PROCESS_SIZE && HasFree(kernel)
    requires forall i | 0 <= i < PROCESS_SIZE :: process[i] == Free
    ensures HasFree(process)
    ensures var s := Built(mem, kernel, process);
            && Shape(s) && HasRoom(s, ENTRIES) && FaultsAt(s, ENTRIES, Fault(s, ENTRIES))
            && Page(s, ENTRIES + 1) == Unmapped
            && Page(Fault(s, ENTRIES), ENTRIES + 1) == TargetOf(WordAt(mem, PROCESS_START + 1, 1))
  {
    hide HasFree, FirstFree, Built, Page, Inv, Fault, WordAt;
    FreshPool(process);
    var s := Built(mem, kernel, process);
    BuiltInv(mem, kernel, process);
    BuiltDirectory(mem, kernel, process);
    WordsOfBuilt(mem, kernel, process, s.dir, 1);
    WordsOfBuilt(mem, kernel, process, PROCESS_START + 1, 1);
    assert Table(s, 1) == Unmapped;
    FaultMapsAt(s, ENTRIES, ENTRIES + 1);
  }

  /** A fault can map a page that nobody asked for: with memory full of words 3, the first fault above
      4 MB also maps the page after it, to frame 0. */
  lemma GarbageIsMapped()
    ensures exists mem: Memory, kernel: States, process: States, t: System ::
              && |mem| == FRAMES * ENTRIES && |kernel| == KERNEL_SIZE && |process| == PROCESS_SIZE
              && HasFree(kernel) && HasFree(process)
              && var s := Built(mem, kernel, process);
                 && FaultsAt(s, ENTRIES, t)
                 && Page(s, ENTRIES + 1) == Unmapped && Page(t, ENTRIES + 1) == Mapped(0)
  {
    hide FirstFree, Built, Page, Fault, FaultsAt;
    var mem: Memory := seq(FRAMES * ENTRIES, i => 3);
    var kernel: States := seq(KERNEL_SIZE, i => Free);
    var process: States := seq(PROCESS_SIZE, i => Free);
    assert kernel[0] == Free;
    FirstFault(mem, kernel, process);
  }

  // ---------------------------------------------------------------- the code

  lemma SlotFacts(s: System, d: nat)
    requires Inv(s) && d < ENTRIES
    ensures Shape(s) && WordAt(s.mem, s.dir, SELF) == EntryFor(s.dir)
    ensures Table(s, d).Mapped? ==> Table(s, d).frame < FRAMES
  {
    assert TableOk(s, SELF) && TableOk(s, d);
  }

  /** handle_fault for an address that some pool owns, outside the window. */
  method HandleFault(g: Paging, address: Word)
    requires g.Valid() && g.Running() && Inv(g.Now())
    requires Outside(address / PAGE_SIZE) && HasRoom(g.Now(), address / PAGE_SIZE)
    requires Page(g.Now(), address / PAGE_SIZE) == Unmapped
    modifies g.mmu.mem, g.process_mem_pool.bitmap
    ensures g.Valid() && g.Running()
    ensures FaultsAt(old(g.Now()), address / PAGE_SIZE, g.Now())
  {
    hide Inv, TableOk, WordAt, HasFree, FirstFree, Page, WithPage, Stored, Resolve, Table, Marked;
    ghost var s := g.Now();
    EnsureTable(g, address / 0x40_0000, s);
    MapPage(g, address / PAGE_SIZE, g.Now());
  }

  /** Installs a table when the directory has none for this range. */
  method EnsureTable(g: Paging, d: nat, ghost s: System)
    requires g.Valid() && g.Running() && s == g.Now() && Inv(s) && d < SELF && HasFree(s.process)
    modifies g.mmu.mem, g.process_mem_pool.bitmap
    ensures g.Valid() && g.Running() && Inv(g.Now()) && Table(g.Now(), d).Mapped?
    ensures Shape(s) && (Table(s, d).Mapped? ==> Table(s, d).frame < FRAMES)
    ensures g.Now() == if Table(s, d).Mapped? then s else WithTable(s, d)
  {
    hide Inv, TableOk, WordAt, HasFree, FirstFree, WithTable, Stored, Resolve, Table, Marked;
    SlotFacts(s, d);
    var entry := DirectoryEntry(g, d, s);
    if entry % 2 == 0 {
      InstallTable(g, d, s);
      InstallKeeps(s, d);
      TablesAfterInstall(s, d, d);
    }
  }

  lemma LowResolve(s: System, va: Word)
    requires Inv(s) && va % 4 == 0 && va < ENTRIES * PAGE_SIZE
    ensures Resolve(s.mem, s.dir, va) == Mapped(va / 4)
    ensures Shape(s)
  {
    assert Page(s, va / PAGE_SIZE) == Mapped(va / PAGE_SIZE);
  }

  /** Reads the directory at its physical address, which is mapped to itself. */
  method DirectoryEntry(g: Paging, d: nat, ghost s: System) returns (entry: Word)
    requires g.Valid() && g.Running() && s == g.Now() && Inv(s) && d < ENTRIES
    ensures entry % 2 == 0 <==> Table(s, d) == Unmapped
  {
    hide Inv, Resolve, TableOk;
    SlotFacts(s, d);
    LowResolve(s, g.mmu.cr3 + 4 * d);
    entry := g.mmu.Load(g.mmu.cr3 + 4 * d);
  }

  /** Stores a new table into the directory, through its window. */
  method InstallTable(g: Paging, d: nat, ghost s: System)
    requires g.Valid() && g.Running() && s == g.Now() && Inv(s) && d < SELF
    requires Table(s, d) == Unmapped && HasFree(s.process)
    modifies g.mmu.mem, g.process_mem_pool.bitmap
    ensures g.Valid() && g.Running() && Shape(s) && g.Now() == WithTable(s, d)
  {
    hide Inv, TableOk, WordAt, HasFree, FirstFree, Resolve;
    SlotFacts(s, d);
    WindowReachesDirectory(s.mem, s.dir, d);
    StoreFrame(g, DIRECTORY_WINDOW + 4 * d, s.dir * ENTRIES + d);
  }

  /** Stores a new frame into the table that covers `page`, through its window. */
  method MapPage(g: Paging, page: nat, ghost s: System)
    requires g.Valid() && g.Running() && s == g.Now() && Inv(s) && Outside(page)
    requires Table(s, page / ENTRIES).Mapped? && HasFree(s.process)
    modifies g.mmu.mem, g.process_mem_pool.bitmap
    ensures g.Valid() && g.Running()
    ensures Shape(s) && Table(s, page / ENTRIES).frame < FRAMES && g.Now() == WithPage(s, page)
  {
    hide Inv, TableOk, WordAt, HasFree, FirstFree, Resolve;
    var d, t := page / ENTRIES, page % ENTRIES;
    SlotFacts(s, d);
    WindowReachesTable(s.mem, s.dir, d, t);
    var va: Word := TABLE_WINDOW + 0x1000 * d + 4 * t;
    assert va % 4 == 0;
    StoreFrame(g, va, Table(s, d).frame * ENTRIES + t);
  }

  /** The stores of the constructor behind the one for slot 1023. */
  method BuildTables(g: Paging, directory: nat, table: nat)
    requires g.Valid() && !g.mmu.paging && directory < FRAMES && table < FRAMES
    modifies g.mmu.mem
    ensures g.mmu.mem[..] ==
            Filled(Stored(Filled(old(g.mmu.mem[..]), table, 0, ENTRIES, IdentityRow()), directory, 0, EntryFor(table)),
                   directory, 1, SELF, Row(2))
  {
    hide Filled, Stored;
    FillIdentity(g, table);
    StoreEntry(g, directory, 0, table * 0x1000 + 3);
    FillEntries(g, directory, 1, SELF, 2);
  }

  class PageTable {
    var page_directory: Word

    constructor (g: Paging)
      requires g.Valid() && !g.mmu.paging
      requires HasFree(g.kernel_mem_pool.View()) && HasFree(g.process_mem_pool.View())
      modifies g.mmu.mem, g.kernel_mem_pool.bitmap, g.process_mem_pool.bitmap
      ensures g.Valid() && page_directory % PAGE_SIZE == 0
      ensures var s := old(g.State(0));
              g.State(page_directory / PAGE_SIZE) == Built(s.mem, s.kernel, s.process)
    {
      hide HasFree, FirstFree, Filled, Stored;
      ghost var s := g.State(0);
      var directory := GetFrame(g.kernel_mem_pool);
      page_directory := directory * 0x1000;
      assert g.mmu.mem[..] == s.mem;
      StoreEntry(g, directory, SELF, directory * 0x1000 + 3);
      ghost var m0 := g.mmu.mem[..];
      var table := GetFrame(g.process_mem_pool);
      assert g.mmu.mem[..] == m0;
      BuildTables(g, directory, table);
    }
  }

  /** At start-up the directory is frame 514, behind the two info frames, and the first table frame 1024. */
  lemma BootPlaces(mem: Memory)
    requires |mem| == FRAMES * ENTRIES
    ensures HasFree(BootKernel()) && HasFree(BootProcess())
    ensures var s := Built(mem, BootKernel(), BootProcess()); s.dir == 514 && Table(s, 0) == Mapped(1024)
  {
    hide HasFree, FirstFree, Built, BootKernel, BootProcess, WordAt;
    BootKernelFree();
    BootProcessFree();
    BootStates();
    BuiltDirectory(mem, BootKernel(), BootProcess());
    WordsOfBuilt(mem, BootKernel(), BootProcess(), KERNEL_START + FirstFree(BootKernel()), 0);
    assert BootKernel()[2] == Free && BootProcess()[0] == Free;
  }

  /** Start-up: pools, page table, load and enable_paging. The handler can then be called, and exactly
      the low pages are mapped below the window. */
  method Boot(m: Mmu, kernel_info: array<bv8>, process_info: array<bv8>) returns (g: Paging)
    requires m.mem.Length == FRAMES * ENTRIES && !m.paging && kernel_info != process_info
    requires kernel_info.Length == process_info.Length == PAGE_SIZE
    requires m.mem as object !in {kernel_info as object, process_info}
    modifies m, m.mem, kernel_info, process_info
    ensures g.Valid() && g.Running() && g.mmu == m && Inv(g.Now())
    ensures m.paging && m.cr3 == 514 * 4096 && Table(g.Now(), 0) == Mapped(1024)
    ensures forall q: nat | Outside(q) :: Page(g.Now(), q) == if q < ENTRIES then Mapped(q) else Unmapped
  {
    hide Inv, Built, BootKernel, BootProcess, FirstFree, HasFree;
    g := MakePools(m, kernel_info, process_info);
    ghost var s := g.State(0);
    BootPlaces(s.mem);
    BuiltInv(s.mem, s.kernel, s.process);
    hide Page, Table;
    var table := new PageTable(g);
    g.Load(table.page_directory);
    g.EnablePaging();
    assert g.Now() == Built(s.mem, s.kernel, s.process);
  }
}
