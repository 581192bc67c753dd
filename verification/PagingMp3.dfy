/** MP3 demand paging: identity-mapped low memory, tables from the kernel pool, pages from the process
    pool. */
module PagingMp3 {
  import opened FrameStates
  import opened PageWalk
  import opened PagingState

  /** A frame of the kernel pool that is not free. */
  predicate KernelInUse(s: System, f: nat)
    requires Shape(s)
  {
    KERNEL_START <= f < KERNEL_START + KERNEL_SIZE && s.kernel[f - KERNEL_START] != Free
  }

  /** A frame of the process pool that is not free and not in the memory hole. */
  predicate ProcessInUse(s: System, f: nat)
    requires Shape(s)
  {
    && PROCESS_START <= f < PROCESS_START + PROCESS_SIZE && s.process[f - PROCESS_START] != Free
    && !(HOLE_START <= f < HOLE_START + HOLE_SIZE)
  }

  predicate TableOk(s: System, d: nat)
    requires Shape(s) && d < ENTRIES
  {
    Table(s, d).Mapped? ==> KernelInUse(s, Table(s, d).frame) && Table(s, d).frame != s.dir
  }

  /** Installed tables are kernel frames in use, different from each other and from the directory. */
  ghost predicate TablesOk(s: System)
    requires Shape(s)
  {
    && KernelInUse(s, s.dir)
    && (forall d | 0 <= d < ENTRIES :: TableOk(s, d))
    && (forall d, e | 0 <= d < e < ENTRIES && Table(s, d).Mapped? :: Table(s, d) != Table(s, e))
  }

  /** Pages below 1024 map to themselves; every other mapped page has a process frame in use. */
  predicate PageOk(s: System, q: nat)
    requires Shape(s) && q < PAGES
  {
    if q < ENTRIES then Page(s, q) == Mapped(q)
    else Page(s, q).Mapped? ==> ProcessInUse(s, Page(s, q).frame)
  }

  ghost predicate PagesOk(s: System)
    requires Shape(s)
  {
    forall q | 0 <= q < PAGES :: PageOk(s, q)
  }

  /** No two pages share a frame. */
  ghost predicate Injective(s: System) {
    forall q, r | 0 <= q < r < PAGES && Page(s, q).Mapped? :: Page(s, q) != Page(s, r)
  }

  ghost predicate HoleInUse(process: States)
    requires |process| == PROCESS_SIZE
  {
    forall i: nat | HOLE_START - PROCESS_START <= i < HOLE_START - PROCESS_START + HOLE_SIZE :: process[i] != Free
  }

  ghost predicate Inv(s: System) {
    Shape(s) && TablesOk(s) && PagesOk(s) && Injective(s) && HoleInUse(s.process)
  }

  // ---------------------------------------------------------------- the fault handler

  /** A zeroed frame of the kernel pool becomes the table of slot `d`. */
  ghost function WithTable(s: System, d: nat): System
    requires Shape(s) && d < ENTRIES && HasFree(s.kernel)
  {
    var f := KERNEL_START + FirstFree(s.kernel);
    s.(kernel := Marked(s.kernel, FirstFree(s.kernel), 1),
       mem := Stored(Filled(s.mem, f, 0, ENTRIES, Row(0)), s.dir, d, EntryFor(f)))
  }

  /** A frame of the process pool is stored in the entry of `page`. */
  ghost function WithPage(s: System, page: nat): System
    requires Shape(s) && page < PAGES && HasFree(s.process)
    requires Table(s, page / ENTRIES).Mapped? && Table(s, page / ENTRIES).frame < FRAMES
  {
    s.(process := Marked(s.process, FirstFree(s.process), 1),
       mem := Stored(s.mem, Table(s, page / ENTRIES).frame, page % ENTRIES,
                     EntryFor(PROCESS_START + FirstFree(s.process))))
  }

  /** The pools have the frames that a fault on `page` takes. */
  ghost predicate HasRoom(s: System, page: nat)
    requires page < PAGES
  {
    HasFree(s.process) && (Table(s, page / ENTRIES).Mapped? || HasFree(s.kernel))
  }

  /** What the handler does for a fault on `page`. */
  ghost function Fault(s: System, page: nat): System
    requires Shape(s) && page < PAGES && HasRoom(s, page)
    requires Table(s, page / ENTRIES).Mapped? ==> Table(s, page / ENTRIES).frame < FRAMES
  {
    if Table(s, page / ENTRIES).Mapped? then WithPage(s, page) else WithPage(WithTable(s, page / ENTRIES), page)
  }

  ghost predicate FaultsAt(s: System, page: nat, t: System) {
    && Shape(s) && page < PAGES && HasRoom(s, page) && Page(s, page) == Unmapped
    && (Table(s, page / ENTRIES).Mapped? ==> Table(s, page / ENTRIES).frame < FRAMES)
    && t == Fault(s, page)
  }

  // ---------------------------------------------------------------- installing a table

  lemma InvOf(s: System)
    requires Inv(s)
    ensures Shape(s) && TablesOk(s) && PagesOk(s) && Injective(s) && HoleInUse(s.process)
  {
  }

  lemma OfInv(s: System)
    requires Shape(s) && TablesOk(s) && PagesOk(s) && Injective(s) && HoleInUse(s.process)
    ensures Inv(s)
  {
  }

  lemma TablesAfterInstall(s: System, d: nat, e: nat)
    requires Inv(s) && d < ENTRIES && Table(s, d) == Unmapped && HasFree(s.kernel) && e < ENTRIES
    ensures Shape(WithTable(s, d))
    ensures Table(WithTable(s, d), e) == if e == d then Mapped(KERNEL_START + FirstFree(s.kernel)) else Table(s, e)
  {
    hide WordAt, Stored, Filled, PagesOk, Injective, HoleInUse;
    var f := KERNEL_START + FirstFree(s.kernel);
    StoredAt(Filled(s.mem, f, 0, ENTRIES, Row(0)), s.dir, d, EntryFor(f), s.dir, e);
    FilledAt(s.mem, f, 0, ENTRIES, Row(0), s.dir, e);
  }

  /** Installing an empty table changes no translation. */
  lemma PagesAfterInstall(s: System, d: nat, q: nat)
    requires Inv(s) && d < ENTRIES && Table(s, d) == Unmapped && HasFree(s.kernel) && q < PAGES
    ensures Page(WithTable(s, d), q) == Page(s, q)
  {
    hide WordAt, Stored, Filled, PagesOk, Injective, HoleInUse;
    var (e, f) := (q / ENTRIES, KERNEL_START + FirstFree(s.kernel));
    TablesAfterInstall(s, d, e);
    assert TableOk(s, e);
    var g := if e == d then f else if Table(s, e).Mapped? then Table(s, e).frame else 0;
    StoredAt(Filled(s.mem, f, 0, ENTRIES, Row(0)), s.dir, d, EntryFor(f), g, q % ENTRIES);
    FilledAt(s.mem, f, 0, ENTRIES, Row(0), g, q % ENTRIES);
  }

  lemma InstallKeeps(s: System, d: nat)
    requires Inv(s) && d < ENTRIES && Table(s, d) == Unmapped && HasFree(s.kernel)
    ensures Inv(WithTable(s, d))
    ensures forall q | 0 <= q < PAGES :: Page(WithTable(s, d), q) == Page(s, q)
  {
    hide Table, Page, Inv, TablesOk, HoleInUse;
    InvOf(s);
    var t := WithTable(s, d);
    assert Shape(t) && TablesOk(t) by {
      InstallKeepsTables(s, d);
    }
    forall q | 0 <= q < PAGES
      ensures Page(t, q) == Page(s, q)
    {
      PagesAfterInstall(s, d, q);
    }
    assert Inv(t) by {
      forall q | 0 <= q < PAGES
        ensures PageOk(t, q)
      {
        assert PageOk(s, q);
      }
      OfInv(t);
    }
  }

  lemma InstallKeepsTables(s: System, d: nat)
    requires Inv(s) && d < ENTRIES && Table(s, d) == Unmapped && HasFree(s.kernel)
    ensures Shape(WithTable(s, d)) && TablesOk(WithTable(s, d))
  {
    hide Table, PagesOk, Injective, HoleInUse;
    var t := WithTable(s, d);
    forall e | 0 <= e < ENTRIES
      ensures Table(t, e) == if e == d then Mapped(KERNEL_START + FirstFree(s.kernel)) else Table(s, e)
      ensures Shape(t) && TableOk(t, e)
    {
      assert TableOk(s, e);
      TablesAfterInstall(s, d, e);
    }
    forall e, g | 0 <= e < g < ENTRIES && Table(t, e).Mapped?
      ensures Table(t, e) != Table(t, g)
    {
      assert TableOk(s, e) && TableOk(s, g);
    }
  }

  // ---------------------------------------------------------------- mapping the page

  lemma TablesAfterMap(s: System, page: nat, e: nat)
    requires Inv(s) && page < PAGES && HasFree(s.process) && Table(s, page / ENTRIES).Mapped? && e < ENTRIES
    ensures Table(s, page / ENTRIES).frame < FRAMES && Shape(WithPage(s, page))
    ensures Table(WithPage(s, page), e) == Table(s, e)
  {
    hide WordAt, Stored, PagesOk, Injective, HoleInUse;
    assert TableOk(s, page / ENTRIES);
    var f := PROCESS_START + FirstFree(s.process);
    StoredAt(s.mem, Table(s, page / ENTRIES).frame, page % ENTRIES, EntryFor(f), s.dir, e);
  }

  /** Storing a frame for a page adds exactly that translation. */
  lemma PagesAfterMap(s: System, page: nat, q: nat)
    requires Inv(s) && page < PAGES && HasFree(s.process) && Table(s, page / ENTRIES).Mapped? && q < PAGES
    ensures Table(s, page / ENTRIES).frame < FRAMES
    ensures Page(WithPage(s, page), q) ==
            if q == page then Mapped(PROCESS_START + FirstFree(s.process)) else Page(s, q)
  {
    hide WordAt, Stored, PagesOk, Injective, HoleInUse;
    var (d, e, f) := (page / ENTRIES, q / ENTRIES, PROCESS_START + FirstFree(s.process));
    TablesAfterMap(s, page, e);
    if Table(s, e).Mapped? {
      assert d != e ==> Table(s, d) != Table(s, e);
      StoredAt(s.mem, Table(s, d).frame, page % ENTRIES, EntryFor(f), Table(s, e).frame, q % ENTRIES);
    }
  }

  lemma MapKeepsTables(s: System, page: nat)
    requires Inv(s) && page < PAGES && HasFree(s.process) && Table(s, page / ENTRIES).Mapped?
    ensures Table(s, page / ENTRIES).frame < FRAMES && Shape(WithPage(s, page)) && TablesOk(WithPage(s, page))
  {
    hide Table, PagesOk, Injective, HoleInUse;
    TablesAfterMap(s, page, 0);
    var t := WithPage(s, page);
    forall e | 0 <= e < ENTRIES
      ensures Table(t, e) == Table(s, e) && TableOk(t, e)
    {
      assert TableOk(s, e);
      TablesAfterMap(s, page, e);
    }
  }

  lemma MapKeeps(s: System, page: nat)
    requires Inv(s) && page < PAGES && HasFree(s.process) && Table(s, page / ENTRIES).Mapped?
             && Page(s, page) == Unmapped
    ensures Table(s, page / ENTRIES).frame < FRAMES && Inv(WithPage(s, page))
    ensures forall q | 0 <= q < PAGES ::
              Page(WithPage(s, page), q) ==
              if q == page then Mapped(PROCESS_START + FirstFree(s.process)) else Page(s, q)
  {
    hide Table, Page, Inv, TablesOk;
    InvOf(s);
    MapKeepsTables(s, page);
    var (t, f) := (WithPage(s, page), PROCESS_START + FirstFree(s.process));
    forall q | 0 <= q < PAGES
      ensures Page(t, q) == if q == page then Mapped(f) else Page(s, q)
    {
      PagesAfterMap(s, page, q);
    }
    assert Inv(t) by {
      assert s.process[f - PROCESS_START] == Free && ProcessInUse(t, f);
      assert PageOk(s, page);
      forall q | 0 <= q < PAGES
        ensures PageOk(t, q) && (Page(t, q) == Mapped(f) ==> q == page)
      {
        assert PageOk(s, q);
      }
      OfInv(t);
    }
  }

  // ---------------------------------------------------------------- the theorem of one fault

  /** A fault on an unmapped page, with frames left, keeps the invariant, gives the page a frame that
      was free, and changes no other translation. */
  lemma FaultAddsOne(s: System, page: nat)
    requires Inv(s) && page < PAGES && Page(s, page) == Unmapped && HasRoom(s, page)
    ensures Table(s, page / ENTRIES).Mapped? ==> Table(s, page / ENTRIES).frame < FRAMES
    ensures Inv(Fault(s, page))
    ensures forall q | 0 <= q < PAGES ::
              Page(Fault(s, page), q) == if q == page then Mapped(PROCESS_START + FirstFree(s.process)) else Page(s, q)
    ensures Fault(s, page).process == Marked(s.process, FirstFree(s.process), 1)
  {
    hide Inv, Page, PageOk;
    InvOf(s);
    if Table(s, page / ENTRIES).Mapped? {
      MapKeeps(s, page);
    } else {
      InstallKeeps(s, page / ENTRIES);
      TablesAfterInstall(s, page / ENTRIES, page / ENTRIES);
      MapKeeps(WithTable(s, page / ENTRIES), page);
    }
  }

  lemma TablesAfterFault(s: System, page: nat, e: nat)
    requires Inv(s) && page < PAGES && HasRoom(s, page) && e < ENTRIES
    ensures Table(s, page / ENTRIES).Mapped? ==> Table(s, page / ENTRIES).frame < FRAMES
    ensures Table(Fault(s, page), e) ==
            if e == page / ENTRIES && Table(s, e) == Unmapped then Mapped(KERNEL_START + FirstFree(s.kernel))
            else Table(s, e)
  {
    hide Inv, Page, FirstFree, HasFree, WordAt;
    var d := page / ENTRIES;
    if Table(s, d).Mapped? {
      TablesAfterMap(s, page, e);
    } else {
      InstallKeeps(s, d);
      TablesAfterInstall(s, d, d);
      TablesAfterInstall(s, d, e);
      TablesAfterMap(WithTable(s, d), page, e);
    }
  }

  /** The word that was stored for the page, and the one for a new table. */
  lemma EntriesAfterFault(s: System, page: nat)
    requires Inv(s) && page < PAGES && HasRoom(s, page)
    ensures Table(s, page / ENTRIES).Mapped? ==> Table(s, page / ENTRIES).frame < FRAMES
    ensures var (t, d) := (Fault(s, page), page / ENTRIES);
            && Table(t, d).Mapped?
            && WordAt(t.mem, Table(t, d).frame, page % ENTRIES) == EntryFor(PROCESS_START + FirstFree(s.process))
            && (Table(s, d) == Unmapped ==> WordAt(t.mem, t.dir, d) == EntryFor(KERNEL_START + FirstFree(s.kernel)))
  {
    hide Inv, Page, FirstFree, HasFree, WordAt, Stored, Filled;
    var (d, f) := (page / ENTRIES, PROCESS_START + FirstFree(s.process));
    InvShape(s);
    TablesAfterFault(s, page, d);
    if Table(s, d).Mapped? {
      StoredAt(s.mem, Table(s, d).frame, page % ENTRIES, EntryFor(f), Table(s, d).frame, page % ENTRIES);
    } else {
      var k := KERNEL_START + FirstFree(s.kernel);
      TablesAfterInstall(s, d, d);
      NewTableApart(s, d);
      StoredAt(WithTable(s, d).mem, k, page % ENTRIES, EntryFor(f), k, page % ENTRIES);
      StoredAt(WithTable(s, d).mem, k, page % ENTRIES, EntryFor(f), s.dir, d);
      StoredAt(Filled(s.mem, k, 0, ENTRIES, Row(0)), s.dir, d, EntryFor(k), s.dir, d);
    }
  }

  lemma InvShape(s: System)
    requires Inv(s)
    ensures Shape(s)
  {
  }

  lemma NewTableApart(s: System, d: nat)
    requires Inv(s) && HasFree(s.kernel)
    ensures Shape(s) && s.dir != KERNEL_START + FirstFree(s.kernel)
  {
  }

  /** What a fault takes: the lowest free process frame for the page, and, if the directory has no table
      for it, the lowest free kernel frame. What it stores is present and writable, for the kernel. */
  lemma FaultTakes(s: System, page: nat, t: System)
    requires Inv(s) && FaultsAt(s, page, t)
    ensures var d := page / 1024;
            && t.dir == s.dir && Table(t, d).Mapped? && Page(t, page).Mapped?
            && TakesLowest(s.process, Page(t, page).frame - 1024, t.process)
            && WordAt(t.mem, Table(t, d).frame, page % 1024) % 4096 == 3
            && (if Table(s, d).Mapped? then t.kernel == s.kernel && Table(t, d) == Table(s, d)
                else TakesLowest(s.kernel, Table(t, d).frame - 512, t.kernel) && WordAt(t.mem, t.dir, d) % 4096 == 3)
    ensures forall e | 0 <= e < 1024 && e != page / 1024 :: Table(t, e) == Table(s, e)
  {
    hide Inv, Page, Table, WordAt, HasFree;
    FaultAddsOne(s, page);
    EntriesAfterFault(s, page);
    EntryWord(PROCESS_START + FirstFree(s.process));
    if Table(s, page / 1024) == Unmapped {
      EntryWord(KERNEL_START + FirstFree(s.kernel));
    }
    forall e | 0 <= e < 1024
      ensures Table(t, e) == if e == page / 1024 && Table(s, e) == Unmapped then Mapped(512 + FirstFree(s.kernel))
                             else Table(s, e)
    {
      TablesAfterFault(s, page, e);
    }
    FirstFreeTaken(s.process);
    if Table(s, page / 1024) == Unmapped {
      FirstFreeTaken(s.kernel);
    }
  }

  // ---------------------------------------------------------------- contents of virtual memory

  /** A word-aligned address above the shared 4 MB whose page is mapped. */
  predicate Accessible(s: System, va: Word) {
    va % 4 == 0 && ENTRIES * PAGE_SIZE <= va && Page(s, va / PAGE_SIZE).Mapped?
  }

  function Contents(s: System, va: Word): Word
    requires Accessible(s, va)
  {
    WordAt(s.mem, Page(s, va / PAGE_SIZE).frame, va % PAGE_SIZE / 4)
  }

  /** A store by the running program. */
  function Written(s: System, va: Word, w: Word): System
    requires Accessible(s, va) && Exists(s.mem, Page(s, va / PAGE_SIZE).frame)
  {
    s.(mem := Stored(s.mem, Page(s, va / PAGE_SIZE).frame, va % PAGE_SIZE / 4, w))
  }

  lemma WriteKeepsPage(s: System, va: Word, w: Word, q: nat)
    requires Inv(s) && Accessible(s, va) && q < PAGES
    ensures Exists(s.mem, Page(s, va / PAGE_SIZE).frame)
    ensures Table(Written(s, va, w), q / ENTRIES) == Table(s, q / ENTRIES) && Page(Written(s, va, w), q) == Page(s, q)
  {
    hide WordAt, Stored, Injective, HoleInUse;
    assert PageOk(s, va / PAGE_SIZE) && TableOk(s, q / ENTRIES);
    var f := Page(s, va / PAGE_SIZE).frame;
    StoredAt(s.mem, f, va % PAGE_SIZE / 4, w, s.dir, q / ENTRIES);
    if Table(s, q / ENTRIES).Mapped? {
      StoredAt(s.mem, f, va % PAGE_SIZE / 4, w, Table(s, q / ENTRIES).frame, q % ENTRIES);
    }
  }

  /** A store by the program changes no translation, and no other word of virtual memory. */
  lemma WriteSets(s: System, va: Word, w: Word)
    requires Inv(s) && Accessible(s, va)
    ensures Exists(s.mem, Page(s, va / PAGE_SIZE).frame)
    ensures Inv(Written(s, va, w))
    ensures forall q | 0 <= q < PAGES :: Page(Written(s, va, w), q) == Page(s, q)
    ensures forall x: Word | Accessible(s, x) ::
              && Accessible(Written(s, va, w), x)
              && Contents(Written(s, va, w), x) == if x == va then w else Contents(s, x)
  {
    hide Table, Page, Inv, TablesOk, WordAt, Stored;
    WriteKeepsPage(s, va, w, 0);
    var t := Written(s, va, w);
    forall q | 0 <= q < PAGES
      ensures Page(t, q) == Page(s, q)
    {
      WriteKeepsPage(s, va, w, q);
    }
    assert Inv(t) by {
      WriteKeepsTables(s, va, w);
      InvOf(s);
      forall q | 0 <= q < PAGES
        ensures PageOk(t, q)
      {
        assert PageOk(s, q);
      }
      OfInv(t);
    }
    forall x: Word | Accessible(s, x)
      ensures Accessible(t, x) && Contents(t, x) == if x == va then w else Contents(s, x)
    {
      StoredAt(s.mem, Page(s, va / PAGE_SIZE).frame, va % PAGE_SIZE / 4, w, Page(s, x / PAGE_SIZE).frame,
               x % PAGE_SIZE / 4);
      if Page(s, va / PAGE_SIZE) == Page(s, x / PAGE_SIZE) && va % PAGE_SIZE / 4 == x % PAGE_SIZE / 4 {
        OwnWord(s, va, x);
      }
    }
  }

  lemma WriteKeepsTables(s: System, va: Word, w: Word)
    requires Inv(s) && Accessible(s, va)
    ensures Exists(s.mem, Page(s, va / PAGE_SIZE).frame) && Shape(Written(s, va, w)) && TablesOk(Written(s, va, w))
  {
    WriteKeepsPage(s, va, w, 0);
    hide Table, Page, PagesOk, Injective, HoleInUse, Stored;
    var t := Written(s, va, w);
    forall d | 0 <= d < ENTRIES
      ensures Table(t, d) == Table(s, d) && TableOk(t, d)
    {
      assert TableOk(s, d);
      WriteKeepsPage(s, va, w, d * ENTRIES);
    }
  }

  /** Two accessible addresses share a word only when they are equal. */
  lemma OwnWord(s: System, x: Word, y: Word)
    requires Inv(s) && Accessible(s, x) && Accessible(s, y)
    requires Page(s, x / PAGE_SIZE) == Page(s, y / PAGE_SIZE) && x % PAGE_SIZE / 4 == y % PAGE_SIZE / 4
    ensures x == y
  {
    InvOf(s);
    hide Inv, Page, TablesOk, PagesOk, HoleInUse;
    SameWord(x, y);
  }

  /** The stores of the handler miss every process frame that was in use. */
  lemma FaultMisses(s: System, page: nat, f: nat, i: nat)
    requires Inv(s) && page < PAGES && HasRoom(s, page) && PROCESS_START <= f && i < ENTRIES
    requires Table(s, page / ENTRIES).Mapped? ==> Table(s, page / ENTRIES).frame < FRAMES
    ensures WordAt(Fault(s, page).mem, f, i) == WordAt(s.mem, f, i)
  {
    assert TableOk(s, page / ENTRIES) && Shape(s);
    if Table(s, page / ENTRIES) == Unmapped {
      TablesAfterInstall(s, page / ENTRIES, page / ENTRIES);
    }
    hide WordAt, Stored, Filled, Inv, HasFree, FirstFree;
    var (d, e) := (page / ENTRIES, EntryFor(PROCESS_START + FirstFree(s.process)));
    if Table(s, d).Mapped? {
      StoredAt(s.mem, Table(s, d).frame, page % ENTRIES, e, f, i);
    } else {
      var k := KERNEL_START + FirstFree(s.kernel);
      FilledAt(s.mem, k, 0, ENTRIES, Row(0), f, i);
      StoredAt(Filled(s.mem, k, 0, ENTRIES, Row(0)), s.dir, d, EntryFor(k), f, i);
      StoredAt(WithTable(s, d).mem, k, page % ENTRIES, e, f, i);
    }
  }

  /** Handling a fault changes no word of virtual memory that was accessible. */
  lemma FaultKeepsContents(s: System, page: nat, x: Word)
    requires Inv(s) && page < PAGES && Page(s, page) == Unmapped && HasRoom(s, page) && Accessible(s, x)
    requires Table(s, page / ENTRIES).Mapped? ==> Table(s, page / ENTRIES).frame < FRAMES
    ensures Accessible(Fault(s, page), x) && Contents(Fault(s, page), x) == Contents(s, x)
  {
    assert PageOk(s, x / PAGE_SIZE);
    hide Page, WordAt, Table, Fault, Inv;
    FaultAddsOne(s, page);
    FaultMisses(s, page, Page(s, x / PAGE_SIZE).frame, x % PAGE_SIZE / 4);
  }

  // ---------------------------------------------------------------- histories of faults and stores

  ghost predicate Happens(s: System, e: Event, t: System) {
    match e
    case PageFault(page) => FaultsAt(s, page, t)
    case Write(va, w) => Accessible(s, va) && Exists(s.mem, Page(s, va / PAGE_SIZE).frame) && t == Written(s, va, w)
  }

  ghost predicate IsHistory(ss: seq<System>, es: seq<Event>) {
    |ss| == |es| + 1 && forall j | 0 <= j < |es| :: Happens(ss[j], es[j], ss[j + 1])
  }

  /** Event `j` is a fault whose page is granted frame `f`. */
  ghost predicate Gives(ss: seq<System>, es: seq<Event>, j: nat, f: nat)
    requires |ss| == |es| + 1 && j < |es|
  {
    && es[j].PageFault? && es[j].page < PAGES
    && HasFree(ss[j].process) && f == PROCESS_START + FirstFree(ss[j].process)
  }

  lemma EventKeeps(s: System, e: Event, t: System)
    requires Inv(s) && Happens(s, e, t)
    ensures Inv(t)
    ensures e.Write? ==> t.process == s.process && forall q | 0 <= q < PAGES :: Page(t, q) == Page(s, q)
    ensures e.PageFault? ==>
              && e.page < PAGES && HasFree(s.process) && t.process == Marked(s.process, FirstFree(s.process), 1)
              && forall q | 0 <= q < PAGES ::
                   Page(t, q) == if q == e.page then Mapped(PROCESS_START + FirstFree(s.process)) else Page(s, q)
  {
    hide Inv, Page, Fault, Table, FirstFree, HasFree, Accessible;
    match e
    case PageFault(page) => FaultAddsOne(s, page);
    case Write(va, w) => WriteSets(s, va, w);
  }

  /** Over every history of faults on unmapped pages and stores by the program the invariant holds; every
      faulted page stays mapped to the frame it was granted, every other page is as it was. */
  lemma {:induction false} HistoryKeeps(ss: seq<System>, es: seq<Event>)
    requires IsHistory(ss, es) && Inv(ss[0])
    ensures Inv(ss[|es|])
    ensures forall j: nat, f: nat | j < |es| && Gives(ss, es, j, f) ::
              es[j].PageFault? && es[j].page < PAGES && Page(ss[|es|], es[j].page) == Mapped(f)
    ensures forall q | 0 <= q < PAGES && PageFault(q) !in es :: Page(ss[|es|], q) == Page(ss[0], q)
    decreases |es|
  {
    hide Inv, Page, Happens, FirstFree, HasFree;
    var n := |es|;
    if n > 0 {
      var (s, e, before) := (ss[n - 1], es[n - 1], es[..n - 1]);
      HistoryKeeps(ss[..n], before);
      assert ss[..n][n - 1] == s;
      EventKeeps(s, e, ss[n]);
      forall j: nat, f: nat | j < n && Gives(ss, es, j, f)
        ensures Page(ss[n], es[j].page) == Mapped(f)
      {
        if j < n - 1 {
          assert ss[..n][j] == ss[j] && before[j] == es[j] && Gives(ss[..n], before, j, f);
          StaysMapped(ss, es, j);
        }
      }
      forall q | 0 <= q < PAGES && PageFault(q) !in es
        ensures Page(ss[n], q) == Page(ss[0], q)
      {
        assert e in es && PageFault(q) !in before;
      }
    }
  }

  /** A page that is mapped does not fault. */
  lemma StaysMapped(ss: seq<System>, es: seq<Event>, j: nat)
    requires IsHistory(ss, es) && j < |es| - 1 && es[j].PageFault? && es[j].page < PAGES
    requires Page(ss[|es| - 1], es[j].page).Mapped?
    ensures es[|es| - 1] != PageFault(es[j].page)
  {
    hide Page, Fault, HasRoom;
    assert Happens(ss[|es| - 1], es[|es| - 1], ss[|es|]);
  }

  /** Over every history of faults and stores, each accessible word stays accessible and keeps its
      value until it is written. */
  lemma {:induction false} MemoryKeeps(ss: seq<System>, es: seq<Event>, x: Word)
    requires IsHistory(ss, es) && Inv(ss[0]) && Accessible(ss[0], x)
    requires forall j | 0 <= j < |es| :: !Writes(es[j], x)
    ensures Inv(ss[|es|]) && Accessible(ss[|es|], x) && Contents(ss[|es|], x) == Contents(ss[0], x)
    decreases |es|
  {
    hide Inv, Accessible, Contents, Written;
    var n := |es|;
    if n > 0 {
      MemoryKeeps(ss[..n], es[..n - 1], x);
      assert ss[..n][n - 1] == ss[n - 1];
      var s := ss[n - 1];
      assert Happens(s, es[n - 1], ss[n]) && !Writes(es[n - 1], x);
      match es[n - 1]
      case PageFault(page) =>
        FaultAddsOne(s, page);
        FaultKeepsContents(s, page, x);
      case Write(va, w) =>
        WriteSets(s, va, w);
    }
  }

  /** A word reads as what was last stored there, whatever faults and other stores came in between. */
  lemma ReadsLastWritten(ss: seq<System>, es: seq<Event>, i: nat)
    requires IsHistory(ss, es) && i < |es| && es[i].Write? && Inv(ss[i])
    requires forall j | i < j < |es| :: !Writes(es[j], es[i].va)
    ensures Accessible(ss[|es|], es[i].va) && Contents(ss[|es|], es[i].va) == es[i].w
  {
    hide Inv, Accessible, Contents, Written;
    var (va, later) := (es[i].va, es[i + 1..]);
    assert Happens(ss[i], es[i], ss[i + 1]);
    WriteSets(ss[i], va, es[i].w);
    forall j | 0 <= j < |later|
      ensures Happens(ss[i + 1..][j], later[j], ss[i + 1..][j + 1]) && !Writes(later[j], va)
    {
      assert later[j] == es[i + 1 + j] && ss[i + 1..][j] == ss[i + 1 + j] && ss[i + 1..][j + 1] == ss[i + 2 + j];
      assert Happens(ss[i + 1 + j], es[i + 1 + j], ss[i + 2 + j]);
    }
    MemoryKeeps(ss[i + 1..], later, va);
  }

  // ---------------------------------------------------------------- the first page table

  /** What the constructor builds: a directory, and a table for the pages that map to themselves. */
  ghost function Built(mem: Memory, kernel: States, process: States): System
    requires |mem| == FRAMES * ENTRIES && |kernel| == KERNEL_SIZE
    requires HasFree(kernel) && HasFree(Marked(kernel, FirstFree(kernel), 1))
  {
    var k1 := Marked(kernel, FirstFree(kernel), 1);
    var (d, t) := (KERNEL_START + FirstFree(kernel), KERNEL_START + FirstFree(k1));
    System(Filled(Stored(Filled(mem, t, 0, ENTRIES, IdentityRow()), d, 0, EntryFor(t)), d, 1, ENTRIES, Row(0)),
           d, Marked(k1, FirstFree(k1), 1), process)
  }

  lemma TablesOfBuilt(mem: Memory, kernel: States, process: States, e: nat)
    requires |mem| == FRAMES * ENTRIES && |kernel| == KERNEL_SIZE && |process| == PROCESS_SIZE && e < ENTRIES
    requires HasFree(kernel) && HasFree(Marked(kernel, FirstFree(kernel), 1))
    ensures var k1 := Marked(kernel, FirstFree(kernel), 1);
            var s := Built(mem, kernel, process);
            Table(s, e) == if e == 0 then Mapped(KERNEL_START + FirstFree(k1)) else Unmapped
  {
    hide WordAt, Stored, Filled;
    var k1 := Marked(kernel, FirstFree(kernel), 1);
    var (d, t) := (KERNEL_START + FirstFree(kernel), KERNEL_START + FirstFree(k1));
    var m1 := Filled(mem, t, 0, ENTRIES, IdentityRow());
    FilledAt(Stored(m1, d, 0, EntryFor(t)), d, 1, ENTRIES, Row(0), d, e);
    StoredAt(m1, d, 0, EntryFor(t), d, e);
  }

  lemma PagesOfBuilt(mem: Memory, kernel: States, process: States, q: nat)
    requires |mem| == FRAMES * ENTRIES && |kernel| == KERNEL_SIZE && |process| == PROCESS_SIZE && q < PAGES
    requires HasFree(kernel) && HasFree(Marked(kernel, FirstFree(kernel), 1))
    ensures Page(Built(mem, kernel, process), q) == if q < ENTRIES then Mapped(q) else Unmapped
  {
    hide WordAt, Stored, Filled;
    TablesOfBuilt(mem, kernel, process, q / ENTRIES);
    var k1 := Marked(kernel, FirstFree(kernel), 1);
    var (d, t) := (KERNEL_START + FirstFree(kernel), KERNEL_START + FirstFree(k1));
    var m1 := Filled(mem, t, 0, ENTRIES, IdentityRow());
    FilledAt(Stored(m1, d, 0, EntryFor(t)), d, 1, ENTRIES, Row(0), t, q % ENTRIES);
    StoredAt(m1, d, 0, EntryFor(t), t, q % ENTRIES);
    FilledAt(mem, t, 0, ENTRIES, IdentityRow(), t, q % ENTRIES);
  }

  /** The words of the new directory and of its first table; no other frame is written. */
  lemma WordsOfBuilt(mem: Memory, kernel: States, process: States, g: nat, i: nat)
    requires |mem| == FRAMES * ENTRIES && |kernel| == KERNEL_SIZE && |process| == PROCESS_SIZE && i < 1024
    requires HasFree(kernel) && HasFree(Marked(kernel, FirstFree(kernel), 1))
    ensures var s := Built(mem, kernel, process);
            && TakesLowest(kernel, s.dir - 512, Marked(kernel, FirstFree(kernel), 1)) && Table(s, 0).Mapped?
            && TakesLowest(Marked(kernel, FirstFree(kernel), 1), Table(s, 0).frame - 512, s.kernel)
            && s.process == process
            && WordAt(s.mem, g, i) ==
               if g == s.dir then (if i == 0 then Table(s, 0).frame * 4096 + 3 else 0)
               else if g == Table(s, 0).frame then i * 4096 + 3 else WordAt(mem, g, i)
  {
    hide WordAt, Stored, Filled, HasFree;
    FirstFreeTaken(kernel);
    FirstFreeTaken(Marked(kernel, FirstFree(kernel), 1));
    TablesOfBuilt(mem, kernel, process, 0);
    var k1 := Marked(kernel, FirstFree(kernel), 1);
    var (d, t) := (KERNEL_START + FirstFree(kernel), KERNEL_START + FirstFree(k1));
    var m1 := Filled(mem, t, 0, ENTRIES, IdentityRow());
    FilledAt(Stored(m1, d, 0, EntryFor(t)), d, 1, ENTRIES, Row(0), g, i);
    StoredAt(m1, d, 0, EntryFor(t), g, i);
    FilledAt(mem, t, 0, ENTRIES, IdentityRow(), g, i);
  }

  /** From any memory contents, the constructor leaves exactly the pages below 1024 mapped, each to
      itself. */
  lemma BuiltInv(mem: Memory, kernel: States, process: States)
    requires |mem| == FRAMES * ENTRIES && |kernel| == KERNEL_SIZE && |process| == PROCESS_SIZE && HoleInUse(process)
    requires HasFree(kernel) && HasFree(Marked(kernel, FirstFree(kernel), 1))
    ensures Inv(Built(mem, kernel, process))
    ensures forall q | 0 <= q < PAGES ::
              Page(Built(mem, kernel, process), q) == if q < ENTRIES then Mapped(q) else Unmapped
  {
    hide Page, Table, HoleInUse;
    var s := Built(mem, kernel, process);
    forall e | 0 <= e < ENTRIES
      ensures TableOk(s, e) && (0 < e ==> Table(s, e) == Unmapped)
    {
      TablesOfBuilt(mem, kernel, process, e);
    }
    forall q | 0 <= q < PAGES
      ensures Page(s, q) == if q < ENTRIES then Mapped(q) else Unmapped
    {
      PagesOfBuilt(mem, kernel, process, q);
    }
  }

  /** After the constructor and any history, the directory has exactly the first table and those of the
      faulted pages. */
  lemma {:induction false} TablesExactly(ss: seq<System>, es: seq<Event>, mem: Memory, kernel: States, process: States,
                                         d: nat)
    requires |mem| == FRAMES * ENTRIES && |kernel| == KERNEL_SIZE && |process| == PROCESS_SIZE && HoleInUse(process)
    requires HasFree(kernel) && HasFree(Marked(kernel, FirstFree(kernel), 1)) && d < 1024
    requires IsHistory(ss, es) && ss[0] == Built(mem, kernel, process)
    ensures Table(ss[|es|], d).Mapped? <==> d == 0 || exists j :: 0 <= j < |es| && FaultsUnder(es[j], d)
    decreases |es|
  {
    hide Built, Page, Table, Happens, Inv, HasFree, FirstFree, HoleInUse;
    BuiltInv(mem, kernel, process);
    var n := |es|;
    if n == 0 {
      TablesOfBuilt(mem, kernel, process, d);
    } else {
      var (s, e, before) := (ss[n - 1], es[n - 1], es[..n - 1]);
      HistoryKeeps(ss[..n], before);
      TablesExactly(ss[..n], before, mem, kernel, process, d);
      assert ss[..n][n - 1] == s && Happens(s, e, ss[n]);
      TablesAfterEvent(s, e, ss[n], d);
      if j :| 0 <= j < n && FaultsUnder(es[j], d) && j < n - 1 {
        assert before[j] == es[j];
      }
    }
  }

  /** A fault on a page that slot `d` covers. */
  predicate FaultsUnder(e: Event, d: nat) {
    e.PageFault? && e.page / 1024 == d
  }

  lemma TablesAfterEvent(s: System, e: Event, t: System, d: nat)
    requires Inv(s) && Happens(s, e, t) && d < 1024
    ensures Table(t, d).Mapped? <==> Table(s, d).Mapped? || FaultsUnder(e, d)
  {
    hide Inv, Page, Table, Accessible, Fault, HasFree, FirstFree, HasRoom;
    match e
    case PageFault(page) => TablesAfterFault(s, page, d);
    case Write(va, w) => WriteKeepsPage(s, va, w, d * ENTRIES);
  }

  /** After the constructor and any history of faults and stores: the mapped pages are those below 1024,
      each to itself, and the faulted ones; no two of them share a frame. */
  lemma MappedExactly(ss: seq<System>, es: seq<Event>, mem: Memory, kernel: States, process: States)
    requires |mem| == FRAMES * ENTRIES && |kernel| == KERNEL_SIZE && |process| == PROCESS_SIZE && HoleInUse(process)
    requires HasFree(kernel) && HasFree(Marked(kernel, FirstFree(kernel), 1))
    requires IsHistory(ss, es) && ss[0] == Built(mem, kernel, process)
    ensures var s := ss[|es|];
            && (forall q: nat | q < 0x10_0000 :: Page(s, q).Mapped? <==> q < 1024 || PageFault(q) in es)
            && (forall q | 0 <= q < 1024 :: Page(s, q) == Mapped(q))
            && (forall q | 1024 <= q < 0x10_0000 && Page(s, q).Mapped? ::
                  1024 <= Page(s, q).frame < 8192 && !(3840 <= Page(s, q).frame < 4096))
            && Injective(s)
  {
    BuiltInv(mem, kernel, process);
    HistoryKeeps(ss, es);
    hide Page, TablesOk, HoleInUse, Happens, Built, HasFree, FirstFree;
    var s := ss[|es|];
    forall q: nat | q < PAGES
      ensures Page(s, q).Mapped? <==> q < ENTRIES || PageFault(q) in es
      ensures PageOk(s, q)
    {
      if PageFault(q) in es {
        var j :| 0 <= j < |es| && es[j] == PageFault(q);
        FaultGives(ss, es, j);
      }
    }
  }

  lemma FaultGives(ss: seq<System>, es: seq<Event>, j: nat)
    requires IsHistory(ss, es) && j < |es| && es[j].PageFault?
    ensures exists f: nat :: Gives(ss, es, j, f)
  {
    hide Page, Fault, FirstFree, HasFree;
    assert Happens(ss[j], es[j], ss[j + 1]);
    assert Gives(ss, es, j, PROCESS_START + FirstFree(ss[j].process));
  }

  /** Pool index of grant number `j`. */
  function Skipping(j: nat): nat {
    if PROCESS_START + j < HOLE_START then j else j + HOLE_SIZE
  }

  /** The first `n` frames outside the hole are taken, the rest are free. */
  ghost predicate TakenUpTo(process: States, n: nat) {
    |process| == PROCESS_SIZE &&
    forall i: nat | i < PROCESS_SIZE ::
      process[i] == Free <==> Skipping(n) <= i && !(HOLE_START <= PROCESS_START + i < HOLE_START + HOLE_SIZE)
  }

  lemma NextGrant(process: States, n: nat)
    requires TakenUpTo(process, n) && HasFree(process)
    ensures FirstFree(process) == Skipping(n)
    ensures TakenUpTo(Marked(process, FirstFree(process), 1), n + 1)
  {
    assert process[Skipping(n)] == Free;
  }

  function Faults(es: seq<Event>): nat {
    if es == [] then 0 else Faults(es[..|es| - 1]) + if es[|es| - 1].PageFault? then 1 else 0
  }

  lemma {:induction false} TakenInOrder(ss: seq<System>, es: seq<Event>)
    requires IsHistory(ss, es) && Inv(ss[0]) && ss[0].process == BootProcess()
    ensures TakenUpTo(ss[|es|].process, Faults(es))
    decreases |es|
  {
    var n := |es|;
    if n > 0 {
      hide Inv, Page, Happens, HoleInUse, TakenUpTo, FirstFree, HasFree;
      var (s, before) := (ss[n - 1], es[..n - 1]);
      HistoryKeeps(ss[..n], before);
      TakenInOrder(ss[..n], before);
      assert ss[..n][n - 1] == s;
      EventKeeps(s, es[n - 1], ss[n]);
      if es[n - 1].PageFault? {
        NextGrant(s.process, Faults(before));
      }
    }
  }

  /** From start-up, frames are granted in address order, from 4 MB on, stepping over the hole at 15 MB. */
  lemma GrantedInOrder(ss: seq<System>, es: seq<Event>, j: nat)
    requires IsHistory(ss, es) && Inv(ss[0]) && ss[0].process == BootProcess()
    requires j < |es| && es[j].PageFault?
    ensures var n := Faults(es[..j]); Gives(ss, es, j, if n < 2816 then 1024 + n else 1280 + n)
  {
    FaultGives(ss, es, j);
    hide Inv, Happens, TakenUpTo, FirstFree, HasFree;
    TakenInOrder(ss[..j + 1], es[..j]);
    assert ss[..j + 1][j] == ss[j];
    NextGrant(ss[j].process, Faults(es[..j]));
  }

  // ---------------------------------------------------------------- the code

  /** Below 4 MB a virtual address is the physical one, so the code reaches tables by their frames. */
  lemma LowResolve(s: System, va: Word)
    requires Inv(s) && va % 4 == 0 && va < ENTRIES * PAGE_SIZE
    ensures Resolve(s.mem, s.dir, va) == Mapped(va / 4)
  {
    hide Walk, TablesOk, Injective, HoleInUse;
    assert PageOk(s, va / PAGE_SIZE);
  }

  /** Filling a free frame changes no translation. */
  lemma FillKeepsLow(s: System, f: nat, n: nat, row: seq<Word>, va: Word)
    requires Inv(s) && KERNEL_START <= f < KERNEL_START + KERNEL_SIZE && s.kernel[f - KERNEL_START] == Free
    requires n <= ENTRIES == |row| && va % 4 == 0 && va < ENTRIES * PAGE_SIZE
    ensures Resolve(Filled(s.mem, f, 0, n, row), s.dir, va) == Mapped(va / 4)
  {
    hide WordAt, Filled, Injective, HoleInUse;
    var q := va / PAGE_SIZE;
    assert PageOk(s, q) && TableOk(s, q / ENTRIES);
    FilledAt(s.mem, f, 0, n, row, s.dir, q / ENTRIES);
    FilledAt(s.mem, f, 0, n, row, Table(s, q / ENTRIES).frame, q % ENTRIES);
  }

  /** Clears the new table in `frame`, which was free in `s`. */
  method ClearTable(g: Paging, ghost s: System, frame: nat)
    requires g.Valid() && g.Running() && Inv(s) && s.mem == g.mmu.mem[..] && s.dir == g.mmu.cr3 / PAGE_SIZE
    requires KERNEL_START <= frame < KERNEL_START + KERNEL_SIZE && s.kernel[frame - KERNEL_START] == Free
    modifies g.mmu.mem
    ensures g.mmu.mem[..] == Filled(s.mem, frame, 0, ENTRIES, Row(0))
  {
    InvOf(s);
    hide Inv, Resolve, Filled, WordAt, TablesOk, PagesOk, HoleInUse, Injective;
    FilledStep(s.mem, frame, 0, 0, Row(0));
    for i := 0 to ENTRIES
      invariant g.mmu.mem[..] == Filled(s.mem, frame, 0, i, Row(0))
    {
      FillKeepsLow(s, frame, i, Row(0), frame * 0x1000 + 4 * i);
      FilledStep(s.mem, frame, 0, i, Row(0));
      g.mmu.Store(frame * 0x1000 + 4 * i, 0);
    }
  }

  /** The branch of handle_fault for a directory entry that is not present. */
  method InstallTable(g: Paging, pd_index: nat, ghost s: System)
    requires g.Valid() && g.Running() && s == g.Now() && Inv(s) && pd_index < ENTRIES
    requires Table(s, pd_index) == Unmapped && HasFree(s.kernel)
    modifies g.mmu.mem, g.kernel_mem_pool.bitmap
    ensures g.Valid() && g.Running() && Shape(s) && g.Now() == WithTable(s, pd_index)
  {
    InvOf(s);
    hide Inv, Resolve, Filled, Stored, WordAt, HasFree, FirstFree, TablesOk, PagesOk, HoleInUse, Injective;
    var frame := GetFrame(g.kernel_mem_pool);
    assert g.mmu.mem[..] == s.mem;
    ClearAndStore(g, s, frame, pd_index);
  }

  /** Clears the new table and enters it in the directory. */
  method ClearAndStore(g: Paging, ghost s: System, frame: nat, pd_index: nat)
    requires g.Valid() && g.Running() && Inv(s) && s.mem == g.mmu.mem[..] && s.dir == g.mmu.cr3 / PAGE_SIZE
    requires KERNEL_START <= frame < KERNEL_START + KERNEL_SIZE && s.kernel[frame - KERNEL_START] == Free
    requires pd_index < ENTRIES
    modifies g.mmu.mem
    ensures g.mmu.mem[..] == Stored(Filled(s.mem, frame, 0, ENTRIES, Row(0)), s.dir, pd_index, EntryFor(frame))
  {
    InvOf(s);
    hide Inv, Resolve, Filled, WordAt, TablesOk, PagesOk, HoleInUse, Injective;
    ClearTable(g, s, frame);
    FillKeepsLow(s, frame, ENTRIES, Row(0), g.mmu.cr3 + 4 * pd_index);
    g.mmu.Store(g.mmu.cr3 + 4 * pd_index, frame * 0x1000 + 3);
  }

  /** Reads `pd[pd_index]`. */
  method DirectoryEntry(g: Paging, pd_index: nat, ghost s: System) returns (entry: Word)
    requires g.Valid() && g.Running() && s == g.Now() && Inv(s) && pd_index < ENTRIES
    ensures entry == WordAt(s.mem, s.dir, pd_index)
  {
    InvOf(s);
    hide Inv, Resolve, TablesOk, PagesOk, HoleInUse;
    LowResolve(s, g.mmu.cr3 + 4 * pd_index);
    entry := g.mmu.Load(g.mmu.cr3 + 4 * pd_index);
  }

  /** Allocates a frame and stores it through the table that covers `page`. */
  method MapPage(g: Paging, page: nat, ghost s: System)
    requires g.Valid() && g.Running() && s == g.Now() && Inv(s) && page < PAGES
    requires Table(s, page / ENTRIES).Mapped? && HasFree(s.process)
    modifies g.mmu.mem, g.process_mem_pool.bitmap
    ensures g.Valid() && g.Running()
    ensures Shape(s) && Table(s, page / ENTRIES).frame < FRAMES && g.Now() == WithPage(s, page)
  {
    InvOf(s);
    var pd_index, pt_index := page / ENTRIES, page % ENTRIES;
    assert TableOk(s, pd_index);
    hide Inv, Resolve, WordAt, HasFree, FirstFree, TablesOk, PagesOk, HoleInUse;
    var entry := DirectoryEntry(g, pd_index, s);
    var pt := entry / 0x1000 * 0x1000;
    LowResolve(s, pt + 4 * pt_index);
    StoreFrame(g, pt + 4 * pt_index, Table(s, pd_index).frame * ENTRIES + pt_index);
  }

  /** handle_fault, for the address in CR2. Every access goes through the loaded tables. */
  method HandleFault(g: Paging, fault_addr: Word)
    requires g.Valid() && g.Running() && Inv(g.Now())
    requires HasRoom(g.Now(), fault_addr / PAGE_SIZE)
    requires Page(g.Now(), fault_addr / PAGE_SIZE) == Unmapped
    modifies g.mmu.mem, g.kernel_mem_pool.bitmap, g.process_mem_pool.bitmap
    ensures g.Valid() && g.Running()
    ensures FaultsAt(old(g.Now()), fault_addr / PAGE_SIZE, g.Now())
  {
    hide Inv, WordAt, HasFree, FirstFree, Page, TablesOk, PagesOk, HoleInUse, WithPage, Filled, Stored;
    var pd_index := fault_addr / 0x40_0000;
    ghost var s := g.Now();
    InvOf(s);
    var entry := DirectoryEntry(g, pd_index, s);
    if entry % 2 == 0 {
      InstallTable(g, pd_index, s);
      InstallKeeps(s, pd_index);
      TablesAfterInstall(s, pd_index, pd_index);
    }
    MapPage(g, fault_addr / PAGE_SIZE, g.Now());
  }

  class PageTable {
    var page_directory: Word

    constructor (g: Paging)
      requires g.Valid() && !g.mmu.paging
      requires HasFree(g.kernel_mem_pool.View())
      requires HasFree(Marked(g.kernel_mem_pool.View(), FirstFree(g.kernel_mem_pool.View()), 1))
      modifies g.mmu.mem, g.kernel_mem_pool.bitmap
      ensures g.Valid() && page_directory % PAGE_SIZE == 0
      ensures var s := old(g.State(0));
              g.State(page_directory / PAGE_SIZE) == Built(s.mem, s.kernel, s.process)
    {
      hide HasFree, FirstFree, Filled, Stored;
      ghost var s := g.State(0);
      var directory := GetFrame(g.kernel_mem_pool);
      page_directory := directory * 0x1000;
      var table := GetFrame(g.kernel_mem_pool);
      assert g.mmu.mem[..] == s.mem;
      BuildTables(g, directory, table);
    }
  }

  /** The stores of the constructor. */
  method BuildTables(g: Paging, directory: nat, table: nat)
    requires g.Valid() && !g.mmu.paging && directory < FRAMES && table < FRAMES
    modifies g.mmu.mem
    ensures g.mmu.mem[..] ==
            Filled(Stored(Filled(old(g.mmu.mem[..]), table, 0, ENTRIES, IdentityRow()), directory, 0, EntryFor(table)),
                   directory, 1, ENTRIES, Row(0))
  {
    hide Filled, Stored;
    FillIdentity(g, table);
    StoreEntry(g, directory, 0, table * 0x1000 + 3);
    FillEntries(g, directory, 1, ENTRIES, 0);
  }

  /** At start-up the directory is frame 514 and the first table frame 515, behind the two info frames. */
  lemma BootPlaces(mem: Memory)
    requires |mem| == FRAMES * ENTRIES
    ensures HasFree(BootKernel()) && HasFree(Marked(BootKernel(), FirstFree(BootKernel()), 1))
    ensures var s := Built(mem, BootKernel(), BootProcess()); s.dir == 514 && Table(s, 0) == Mapped(515)
  {
    hide HasFree, FirstFree, Built, BootKernel, BootProcess, WordAt;
    BootKernelFree();
    BootStates();
    WordsOfBuilt(mem, BootKernel(), BootProcess(), 0, 0);
    var s := Built(mem, BootKernel(), BootProcess());
    assert BootKernel()[2] == Free && TakesLowest(BootKernel(), s.dir - 512, BootKernel()[s.dir - 512 := HoS]);
    assert BootKernel()[2 := HoS][3] == Free;
  }

  /** Start-up as in kernel.C: pools, page table, load and enable_paging. The handler can then be called,
      and exactly the low pages are mapped. */
  method Boot(m: Mmu, kernel_info: array<bv8>, process_info: array<bv8>) returns (g: Paging)
    requires m.mem.Length == FRAMES * ENTRIES && !m.paging && kernel_info != process_info
    requires kernel_info.Length == process_info.Length == PAGE_SIZE
    requires m.mem as object !in {kernel_info as object, process_info}
    modifies m, m.mem, kernel_info, process_info
    ensures g.Valid() && g.Running() && g.mmu == m && Inv(g.Now()) && g.Now().process == BootProcess()
    ensures m.paging && m.cr3 == 514 * 4096 && Table(g.Now(), 0) == Mapped(515)
    ensures forall q | 0 <= q < PAGES :: Page(g.Now(), q) == if q < ENTRIES then Mapped(q) else Unmapped
  {
    hide Inv, Built, BootKernel, BootProcess, FirstFree, HasFree;
    g := MakePools(m, kernel_info, process_info);
    ghost var s := g.State(0);
    BootPlaces(s.mem);
    BootHole();
    BuiltInv(s.mem, s.kernel, s.process);
    hide Page, Table;
    var table := new PageTable(g);
    g.Load(table.page_directory);
    g.EnablePaging();
    assert g.Now() == Built(s.mem, s.kernel, s.process);
  }

  lemma BootHole()
    ensures HoleInUse(BootProcess())
  {
  }
}
