/** The sharing invariant behind copy on write, and what each step on page tables means for the pages an
    address space sees (kernel/paging.cpp, kernel/terminal.cpp). */
module CopyOnWrite {
  import opened PageTables
  import opened PageGrowth
  import opened PageCopy
  import opened PageClean

  type Pages = map<nat, Page>

  /** The space sees exactly these pages. */
  ghost predicate Shows(s: Memory, a: Space, pages: Pages) {
    && (forall v :: v in pages ==> InUser(v))
    && (forall v: nat :: InUser(v) ==> ShowsPage(s, a, pages, v))
  }

  ghost predicate ShowsPage(s: Memory, a: Space, pages: Pages, v: nat) {
    && (v in pages <==> Leaf(s, a, v).present)
    && (v in pages ==> pages[v] == PageAt(s, a, v))
  }

  /** A page looks the same before and after. */
  ghost predicate SamePage(s: Memory, s': Memory, b: Space, v: nat) {
    && (Leaf(s', b, v).present <==> Leaf(s, b, v).present)
    && (Leaf(s, b, v).present ==> PageAt(s', b, v) == PageAt(s, b, v))
  }

  lemma ShowsStill(s: Memory, s': Memory, b: Space, pages: Pages)
    requires Shows(s, b, pages) && forall v: nat :: InUser(v) ==> SamePage(s, s', b, v)
    ensures Shows(s', b, pages)
  {
    forall v: nat | InUser(v)
      ensures ShowsPage(s', b, pages, v)
    {
      assert ShowsPage(s, b, pages, v) && SamePage(s, s', b, v);
    }
  }

  /** The template whose pages a space may borrow; `home` maps each running task to its file. */
  function HomeOf(home: map<nat, nat>, a: Space): Space {
    if a.App? && a.task in home then Template(home[a.task]) else a
  }

  /** A template owns its pages and never lets them be written; an application owns exactly its writable
      pages and borrows the others from the same place of its template. */
  ghost predicate LeafShared(s: Memory, home: map<nat, nat>, a: Space, v: nat) {
    var e, own := Leaf(s, a, v), Pos(a, 0, v);
    e.present ==>
      if a.Template? then
        own in s.node && !e.writable
      else if own in s.node then
        e.writable
      else
        && !e.writable
        && Pos(HomeOf(home, a), 0, v) in s.node && e.addr == s.node[Pos(HomeOf(home, a), 0, v)]
  }

  ghost predicate Live(files: set<nat>, home: map<nat, nat>, a: Space) {
    match a
    case Template(f) => f in files
    case App(t) => t in home
  }

  ghost predicate Sharing(s: Memory, files: set<nat>, home: map<nat, nat>) {
    && (forall p {:trigger p in s.node} :: p in s.node ==> Live(files, home, p.space))
    && (forall a {:trigger Live(files, home, a)} :: Live(files, home, a) ==> Root(a) in s.node)
    && (forall t :: t in home ==> home[t] in files)
    && (forall a, v {:trigger LeafShared(s, home, a, v)} :: Live(files, home, a) && InUser(v) ==> LeafShared(s, home, a, v))
  }

  /** The frame behind every page is a data frame in use: it is no table of any space. */
  lemma LeafFrame(s: Memory, files: set<nat>, home: map<nat, nat>, a: Space, v: nat)
    requires Tree(s) && Sharing(s, files, home) && Live(files, home, a) && InUser(v) && Leaf(s, a, v).present
    ensures var f := Leaf(s, a, v).addr;
      && f in s.mem && f in s.role && f in Alloc(s)
      && (s.role[f] == Pos(a, 0, v) || (a.App? && !Leaf(s, a, v).writable && s.role[f] == Pos(HomeOf(home, a), 0, v)))
      && (Leaf(s, a, v).writable ==> s.role[f] == Pos(a, 0, v))
  {
    var p := Pos(a, 1, v / 512);
    assert LeafShared(s, home, a, v);
    assert SlotOk(s, p, v % 512);
    assert Child(p, v % 512) == Pos(a, 0, v);
    var h := Pos(HomeOf(home, a), 0, v);
    assert h in s.node ==> NodeOk(s, h);
    assert Pos(a, 0, v) in s.node ==> NodeOk(s, Pos(a, 0, v));
  }

  /** The heart of copy on write: a frame under a writable entry has exactly one entry pointing at it, in all
      address spaces and templates together. */
  lemma WritableFrameUnshared(s: Memory, files: set<nat>, home: map<nat, nat>, a: Space, v: nat, b: Space, w: nat)
    requires Tree(s) && Sharing(s, files, home) && Live(files, home, a) && Live(files, home, b) && InUser(v)
    requires InUser(w)
    requires Leaf(s, a, v).present && Leaf(s, a, v).writable
    requires Leaf(s, b, w).present && Leaf(s, b, w).addr == Leaf(s, a, v).addr
    ensures a == b && v == w
  {
    LeafFrame(s, files, home, a, v);
    LeafFrame(s, files, home, b, w);
    assert LeafShared(s, home, a, v);
  }

  /** Growth of one space hides nothing from and adds nothing to the others. */
  lemma OthersKept(s: Memory, s': Memory, files: set<nat>, home: map<nat, nat>, a: Space, b: Space)
    requires Tree(s) && Tree(s') && Sharing(s, files, home) && Extends(s, s', a) && Live(files, home, b) && a != b
    ensures forall v: nat :: InUser(v) ==> Leaf(s', b, v) == Leaf(s, b, v) && (Pos(b, 0, v) in s'.node <==> Pos(b, 0, v) in s.node)
    ensures forall v: nat :: InUser(v) ==> SamePage(s, s', b, v)
  {
    forall v: nat | InUser(v)
      ensures Leaf(s', b, v) == Leaf(s, b, v) && SamePage(s, s', b, v)
    {
      OtherLeavesKept(s, s', a, b, v);
      if Leaf(s, b, v).present {
        LeafFrame(s, files, home, b, v);
      }
    }
  }

  /** Growth of a space keeps the sharing of every other space. */
  lemma SharingOfOthers(s: Memory, s': Memory, files: set<nat>, home: map<nat, nat>, a: Space, b: Space, v: nat)
    requires Tree(s) && Tree(s') && Sharing(s, files, home) && Extends(s, s', a) && Live(files, home, b) && a != b
    requires InUser(v)
    ensures LeafShared(s', home, b, v)
  {
    OthersKept(s, s', files, home, a, b);
    assert LeafShared(s, home, b, v);
    var h := Pos(HomeOf(home, b), 0, v);
    assert h in s.node ==> h in s'.node && s'.node[h] == s.node[h];
  }

  lemma GrowthKeepsLive(s: Memory, s': Memory, files: set<nat>, home: map<nat, nat>, a: Space)
    requires Sharing(s, files, home) && Extends(s, s', a) && Live(files, home, a)
    ensures forall p {:trigger p in s'.node} :: p in s'.node ==> Live(files, home, p.space)
    ensures forall b {:trigger Live(files, home, b)} :: Live(files, home, b) ==> Root(b) in s'.node
  {}

  /** No page of the range is a borrowed one. */
  ghost predicate NoneBorrowed(s: Memory, a: Space, lo: nat, hi: nat) {
    forall v: nat :: lo <= v < hi && InUser(v) && Leaf(s, a, v).present ==> Leaf(s, a, v).writable
  }

  /** Mapping writable pages in an application keeps the sharing invariant exactly when none of them is a page
      it borrows from its template: on a borrowed page the right would be raised without a copy. */
  lemma MapWritableShares(s: Memory, s': Memory, files: set<nat>, home: map<nat, nat>, a: Space, lo: nat, hi: nat)
    requires Tree(s) && Tree(s') && Sharing(s, files, home) && Live(files, home, a) && a.App?
    requires MapsRange(s, s', a, lo, hi, true)
    ensures Sharing(s', files, home) <==> NoneBorrowed(s, a, lo, hi)
  {
    GrowthKeepsLive(s, s', files, home, a);
    if NoneBorrowed(s, a, lo, hi) {
      forall b, v: nat | Live(files, home, b) && InUser(v)
        ensures LeafShared(s', home, b, v)
      {
        if b != a {
          SharingOfOthers(s, s', files, home, a, b, v);
        } else {
          assert PageMapped(s, s', a, v, lo <= v < hi, true);
          assert LeafShared(s, home, a, v);
        }
      }
    } else {
      var v: nat :| lo <= v < hi && InUser(v) && Leaf(s, a, v).present && !Leaf(s, a, v).writable;
      assert PageMapped(s, s', a, v, true, true);
      assert LeafShared(s, home, a, v);
      assert !LeafShared(s', home, a, v);
    }
  }

  /** Mapping read-only pages in a template always keeps it. */
  lemma MapTemplateShares(s: Memory, s': Memory, files: set<nat>, home: map<nat, nat>, a: Space, lo: nat, hi: nat)
    requires Tree(s) && Tree(s') && Sharing(s, files, home) && Live(files, home, a) && a.Template?
    requires MapsRange(s, s', a, lo, hi, false)
    ensures Sharing(s', files, home)
  {
    GrowthKeepsLive(s, s', files, home, a);
    forall b, v: nat | Live(files, home, b) && InUser(v)
      ensures LeafShared(s', home, b, v)
    {
      if b != a {
        SharingOfOthers(s, s', files, home, a, b, v);
      } else {
        assert PageMapped(s, s', a, v, lo <= v < hi, false);
        assert LeafShared(s, home, a, v);
      }
    }
  }

  /** The pages of `[lo, hi)` that are not there yet appear, zeroed. */
  ghost function WithZeroPages(pages: Pages, lo: nat, hi: nat): Pages {
    if hi <= lo then pages
    else
      var front := WithZeroPages(pages, lo, hi - 1);
      if hi - 1 in front then front else front[hi - 1 := ZeroPage()]
  }

  lemma {:induction false} WithZeroPagesAt(pages: Pages, lo: nat, hi: nat)
    ensures forall v: nat :: v in WithZeroPages(pages, lo, hi) <==> v in pages || lo <= v < hi
    ensures forall v: nat :: v in WithZeroPages(pages, lo, hi) ==>
      WithZeroPages(pages, lo, hi)[v] == if v in pages then pages[v] else ZeroPage()
  {
    if lo < hi {
      WithZeroPagesAt(pages, lo, hi - 1);
    }
  }

  lemma MapRangeShows(s: Memory, s': Memory, files: set<nat>, home: map<nat, nat>, a: Space, lo: nat, hi: nat, w: bool, pages: Pages)
    requires Tree(s) && Tree(s') && Sharing(s, files, home) && Live(files, home, a)
    requires MapsRange(s, s', a, lo, hi, w) && Shows(s, a, pages) && USER_LO <= lo && hi <= USER_HI
    ensures Shows(s', a, WithZeroPages(pages, lo, hi))
  {
    WithZeroPagesAt(pages, lo, hi);
    forall v: nat | InUser(v)
      ensures ShowsPage(s', a, WithZeroPages(pages, lo, hi), v)
    {
      MapRangePage(s, s', files, home, a, lo, hi, w, v);
      assert ShowsPage(s, a, pages, v);
    }
  }

  lemma MapRangePage(s: Memory, s': Memory, files: set<nat>, home: map<nat, nat>, a: Space, lo: nat, hi: nat, w: bool, v: nat)
    requires Tree(s) && Tree(s') && Sharing(s, files, home) && Live(files, home, a)
    requires MapsRange(s, s', a, lo, hi, w) && InUser(v)
    ensures Leaf(s', a, v).present <==> Leaf(s, a, v).present || lo <= v < hi
    ensures Leaf(s', a, v).present ==> PageAt(s', a, v) == if Leaf(s, a, v).present then PageAt(s, a, v) else ZeroPage()
  {
    assert PageMapped(s, s', a, v, lo <= v < hi, w);
    if Leaf(s, a, v).present {
      LeafFrame(s, files, home, a, v);
    }
  }

  /** Sharing the template's pages with a new application, which sees nothing yet, shows it exactly what the
      template holds. */
  lemma CopyShares(s: Memory, s': Memory, files: set<nat>, home: map<nat, nat>, a: Space, pages: Pages)
    requires Tree(s) && Tree(s') && Sharing(s, files, home) && Live(files, home, a) && a.App?
    requires CopiesRange(s, s', a, HomeOf(home, a), USER_LO, USER_HI)
    requires forall v: nat :: InUser(v) ==> !Leaf(s, a, v).present && Pos(a, 0, v) !in s.node
    requires Shows(s, HomeOf(home, a), pages)
    ensures Sharing(s', files, home) && Shows(s', a, pages)
  {
    GrowthKeepsLive(s, s', files, home, a);
    forall b, v: nat | Live(files, home, b) && InUser(v)
      ensures LeafShared(s', home, b, v)
    {
      if b != a {
        SharingOfOthers(s, s', files, home, a, b, v);
      } else {
        CopiedPage(s, s', files, home, a, v);
      }
    }
    forall v: nat | InUser(v)
      ensures ShowsPage(s', a, pages, v)
    {
      CopiedPage(s, s', files, home, a, v);
      assert ShowsPage(s, HomeOf(home, a), pages, v);
    }
  }

  lemma CopiedPage(s: Memory, s': Memory, files: set<nat>, home: map<nat, nat>, a: Space, v: nat)
    requires Tree(s) && Tree(s') && Sharing(s, files, home) && Live(files, home, a) && a.App? && InUser(v)
    requires CopiesRange(s, s', a, HomeOf(home, a), USER_LO, USER_HI)
    requires !Leaf(s, a, v).present && Pos(a, 0, v) !in s.node
    ensures LeafShared(s', home, a, v)
    ensures var t := HomeOf(home, a);
      && (Leaf(s', a, v).present <==> Leaf(s, t, v).present)
      && (Leaf(s, t, v).present ==> PageAt(s', a, v) == PageAt(s, t, v))
  {
    var t := HomeOf(home, a);
    assert Live(files, home, t);
    assert PageCopied(s, s', a, t, v, true);
    assert LeafShared(s, home, t, v);
    if Leaf(s, t, v).present {
      LeafFrame(s, files, home, t, v);
    }
    assert SlotOk(s, Pos(t, 1, v / 512), v % 512) || Pos(t, 1, v / 512) !in s.node;
    assert Child(Pos(t, 1, v / 512), v % 512) == Pos(t, 0, v);
    assert Pos(t, 0, v) in s.node ==> NodeOk(s, Pos(t, 0, v));
  }

  /** Taking a private copy is invisible: every space sees what it saw. */
  lemma TakeShares(s: Memory, s': Memory, files: set<nat>, home: map<nat, nat>, a: Space, v: nat)
    requires Tree(s) && Tree(s') && Sharing(s, files, home) && Live(files, home, a) && a.App? && InUser(v)
    requires PageTaken(s, s', a, v) && Leaf(s, a, v).present && !Leaf(s, a, v).writable
    ensures Sharing(s', files, home) && forall w: nat :: InUser(w) ==> SamePage(s, s', a, w)
    ensures Leaf(s', a, v).present && Leaf(s', a, v).writable && Leaf(s', a, v).user
  {
    GrowthKeepsLive(s, s', files, home, a);
    forall b, w: nat | Live(files, home, b) && InUser(w)
      ensures LeafShared(s', home, b, w)
    {
      if b != a {
        SharingOfOthers(s, s', files, home, a, b, w);
      } else {
        assert LeafShared(s, home, a, w);
      }
    }
    forall w: nat | InUser(w)
      ensures SamePage(s, s', a, w)
    {
      if Leaf(s, a, w).present {
        LeafFrame(s, files, home, a, w);
      }
    }
  }

  /** The frame of page `v` holds `page`. */
  ghost function WritePage(s: Memory, a: Space, v: nat, page: Page): Memory {
    s.(mem := s.mem[Leaf(s, a, v).addr := page])
  }

  /** The kernel may write the page: the space owns it and no other space borrows it. */
  ghost predicate MayWrite(s: Memory, home: map<nat, nat>, a: Space, v: nat) {
    && InUser(v) && Leaf(s, a, v).present
    && if a.App? then Leaf(s, a, v).writable else forall t :: t in home ==> home[t] != a.file
  }

  lemma WriteShares(s: Memory, files: set<nat>, home: map<nat, nat>, a: Space, v: nat, page: Page)
    requires Tree(s) && Sharing(s, files, home) && Live(files, home, a) && MayWrite(s, home, a, v)
    ensures var s' := WritePage(s, a, v, page);
      && Tree(s') && Sharing(s', files, home) && s'.mem.Keys == s.mem.Keys
      && (forall g :: g in s.base && g in s.mem ==> s'.mem[g] == s.mem[g])
      && (forall p, i: nat :: p in s.node && p.level > 0 ==> Slot(s', p, i) == Slot(s, p, i))
  {
    var s', f := WritePage(s, a, v, page), Leaf(s, a, v).addr;
    LeafFrame(s, files, home, a, v);
    DataWriteTree(s, f, page);
    forall b, w: nat | Live(files, home, b) && InUser(w)
      ensures LeafShared(s', home, b, w)
    {
      assert LeafShared(s, home, b, w);
    }
  }

  lemma WritePageAt(s: Memory, files: set<nat>, home: map<nat, nat>, a: Space, v: nat, page: Page, b: Space, w: nat)
    requires Tree(s) && Sharing(s, files, home) && Live(files, home, a) && MayWrite(s, home, a, v)
    requires Live(files, home, b)
    requires InUser(w)
    ensures var s' := WritePage(s, a, v, page);
      && Leaf(s', b, w) == Leaf(s, b, w)
      && (Leaf(s, b, w).present ==> PageAt(s', b, w) == if b == a && w == v then page else PageAt(s, b, w))
  {
    var s' := WritePage(s, a, v, page);
    LeafFrame(s, files, home, a, v);
    DataWriteTree(s, Leaf(s, a, v).addr, page);
    assert LeafShared(s, home, a, v);
    var p := Pos(b, 1, w / 512);
    assert p in s.node ==> Slot(s', p, w % 512) == Slot(s, p, w % 512);
    if Leaf(s, b, w).present {
      LeafFrame(s, files, home, b, w);
    }
  }

  /** Writing a page the space owns changes that page of that space and nothing else. */
  lemma WriteShows(s: Memory, files: set<nat>, home: map<nat, nat>, a: Space, v: nat, page: Page, b: Space, pages: Pages)
    requires Tree(s) && Sharing(s, files, home) && Live(files, home, a) && MayWrite(s, home, a, v)
    requires Live(files, home, b)
    requires Shows(s, b, pages)
    ensures Shows(WritePage(s, a, v, page), b, if b == a then pages[v := page] else pages)
  {
    hide Tree, Sharing, Leaf, PageAt, WritePage;
    var s', pages' := WritePage(s, a, v, page), if b == a then pages[v := page] else pages;
    forall w: nat | InUser(w)
      ensures ShowsPage(s', b, pages', w)
    {
      assert ShowsPage(s, b, pages, w);
      WritePageAt(s, files, home, a, v, page, b, w);
    }
  }

  /** Writing a data frame changes no page table. */
  lemma DataWriteTree(s: Memory, f: nat, page: Page)
    requires Tree(s) && f in s.mem && f in s.role && s.role[f].level == 0
    ensures var s' := s.(mem := s.mem[f := page]);
      Tree(s') && forall p, i: nat :: p in s.node && p.level > 0 ==> Slot(s', p, i) == Slot(s, p, i)
  {
    var s' := s.(mem := s.mem[f := page]);
    forall p, i: nat | p in s.node && p.level > 0
      ensures Slot(s', p, i) == Slot(s, p, i)
    {
      assert NodeOk(s, p);
    }
    forall p | p in s'.node
      ensures NodeOk(s', p)
    {
      assert NodeOk(s, p);
    }
    forall p, i: nat | p in s'.node && p.level > 0 && FirstIndex(p.level) <= i < ENTRIES
      ensures SlotOk(s', p, i)
    {
      assert SlotOk(s, p, i);
    }
  }
}
