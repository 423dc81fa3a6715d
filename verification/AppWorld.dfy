/** How the effects on page tables read as steps of the application model. */
module AppWorld {
  import opened PageTables
  import opened PageGrowth
  import opened PageCopy
  import opened PageClean
  import opened CopyOnWrite
  import opened SpaceLifecycle
  import opened AppModel

  /** The system has a space: a cached image or a running task. */
  ghost predicate Has(sys: System, a: Space) {
    match a
    case Template(f) => f in sys.images
    case App(t) => t in sys.apps
  }

  ghost function PagesOf(sys: System, a: Space): Pages {
    match a
    case Template(f) => if f in sys.images then sys.images[f].pages else map[]
    case App(t) => if t in sys.apps then sys.apps[t].pages else map[]
  }

  /** The system with the pages of one space replaced. */
  ghost function WithPages(sys: System, a: Space, pages: Pages): System {
    match a
    case Template(f) => if f in sys.images then sys.(images := sys.images[f := sys.images[f].(pages := pages)]) else sys
    case App(t) => if t in sys.apps then sys.(apps := sys.apps[t := sys.apps[t].(pages := pages)]) else sys
  }

  /** The invariant of the whole system: the page tables are sound and show every space its pages; `home` is
      the file each running task borrows from. */
  ghost predicate World(s: Memory, home: map<nat, nat>, kernel: Kernel, sys: System) {
    && Tree(s)
    && Sharing(s, sys.images.Keys, home)
    && KernelHalf(s, sys.images.Keys, home, kernel)
    && sys.apps.Keys == home.Keys
    && (forall a {:trigger PagesOf(sys, a)} :: Has(sys, a) ==> Shows(s, a, PagesOf(sys, a)))
  }

  lemma HasIsLive(sys: System, home: map<nat, nat>, a: Space)
    requires sys.apps.Keys == home.Keys
    ensures Has(sys, a) <==> Live(sys.images.Keys, home, a)
  {}

  lemma WithPagesKeys(sys: System, a: Space, pages: Pages)
    requires Has(sys, a)
    ensures var sys' := WithPages(sys, a, pages);
      && sys'.images.Keys == sys.images.Keys && sys'.apps.Keys == sys.apps.Keys
      && PagesOf(sys', a) == pages
      && forall b :: b != a ==> PagesOf(sys', b) == PagesOf(sys, b)
  {
    var sys' := WithPages(sys, a, pages);
    match a
    case Template(f) => assert sys'.images.Keys == sys.images.Keys + {f};
    case App(t) => assert sys'.apps.Keys == sys.apps.Keys + {t};
  }

  lemma WithPagesTwice(sys: System, a: Space, p: Pages, q: Pages)
    ensures WithPages(WithPages(sys, a, p), a, q) == WithPages(sys, a, q)
  {
    match a
    case Template(f) => if f in sys.images {
      assert sys.images[f := sys.images[f].(pages := p)][f := sys.images[f].(pages := q)]
          == sys.images[f := sys.images[f].(pages := q)];
    }
    case App(t) => if t in sys.apps {
      assert sys.apps[t := sys.apps[t].(pages := p)][t := sys.apps[t].(pages := q)] == sys.apps[t := sys.apps[t].(pages := q)];
    }
  }

  lemma WithSamePages(sys: System, a: Space)
    ensures WithPages(sys, a, PagesOf(sys, a)) == sys
  {
    match a
    case Template(f) => if f in sys.images { assert sys.images[f := sys.images[f]] == sys.images; }
    case App(t) => if t in sys.apps { assert sys.apps[t := sys.apps[t]] == sys.apps; }
  }

  lemma HasSame(sys: System, sys': System)
    requires sys'.images.Keys == sys.images.Keys && sys'.apps.Keys == sys.apps.Keys
    ensures forall a :: Has(sys', a) <==> Has(sys, a)
  {}

  // ----- steps

  /** Growth of one space: only what that space sees may be new. */
  lemma WorldGrows(s: Memory, s': Memory, home: map<nat, nat>, kernel: Kernel, sys: System, a: Space, pages: Pages)
    requires World(s, home, kernel, sys) && Tree(s') && Has(sys, a) && Extends(s, s', a)
    requires Sharing(s', sys.images.Keys, home) && Shows(s', a, pages)
    ensures World(s', home, kernel, WithPages(sys, a, pages))
    ensures forall b :: b != a ==> FramesOf(s', b) == FramesOf(s, b)
  {
    hide Tree, KernelHalf, Sharing, Extends, Shows, FramesOf, WithPages, SamePage;
    var files, sys' := sys.images.Keys, WithPages(sys, a, pages);
    HasIsLive(sys, home, a);
    WithPagesKeys(sys, a, pages);
    HasSame(sys, sys');
    ExtendsKernel(s, s', files, home, a, kernel);
    forall b {:trigger PagesOf(sys', b)} | Has(sys', b)
      ensures Shows(s', b, PagesOf(sys', b))
    {
      if b != a {
        HasIsLive(sys, home, b);
        OthersKept(s, s', files, home, a, b);
        ShowsStill(s, s', b, PagesOf(sys, b));
      }
    }
    forall b | b != a
      ensures FramesOf(s', b) == FramesOf(s, b)
    {
      ExtendsFrames(s, s', a, b);
    }
  }

  /** Mapping fresh pages in an application, or in a template. */
  lemma WorldMaps(s: Memory, s': Memory, home: map<nat, nat>, kernel: Kernel, sys: System, a: Space, lo: nat, hi: nat)
    requires World(s, home, kernel, sys) && Tree(s') && Has(sys, a) && USER_LO <= lo && hi <= USER_HI
    requires MapsRange(s, s', a, lo, hi, a.App?) && (a.App? ==> NoneBorrowed(s, a, lo, hi))
    ensures World(s', home, kernel, WithPages(sys, a, WithZeroPages(PagesOf(sys, a), lo, hi)))
    ensures forall b :: b != a ==> FramesOf(s', b) == FramesOf(s, b)
  {
    hide Tree, KernelHalf, Shows, WithZeroPages;
    HasIsLive(sys, home, a);
    assert Shows(s, a, PagesOf(sys, a));
    if a.App? {
      MapWritableShares(s, s', sys.images.Keys, home, a, lo, hi);
    } else {
      MapTemplateShares(s, s', sys.images.Keys, home, a, lo, hi);
    }
    MapRangeShows(s, s', sys.images.Keys, home, a, lo, hi, a.App?, PagesOf(sys, a));
    WorldGrows(s, s', home, kernel, sys, a, WithZeroPages(PagesOf(sys, a), lo, hi));
  }

  /** Sharing the template with a new application. */
  lemma WorldCopies(s: Memory, s': Memory, home: map<nat, nat>, kernel: Kernel, sys: System, t: nat)
    requires World(s, home, kernel, sys) && Tree(s') && t in home && home[t] in sys.images
    requires CopiesRange(s, s', App(t), Template(home[t]), USER_LO, USER_HI)
    requires NoPages(s, App(t))
    ensures World(s', home, kernel, WithPages(sys, App(t), PagesOf(sys, Template(home[t]))))
    ensures forall b :: b != App(t) ==> FramesOf(s', b) == FramesOf(s, b)
  {
    hide Tree, Sharing, KernelHalf, Shows;
    assert Has(sys, App(t)) && Has(sys, Template(home[t]));
    HasIsLive(sys, home, App(t));
    assert Shows(s, Template(home[t]), PagesOf(sys, Template(home[t])));
    CopyShares(s, s', sys.images.Keys, home, App(t), PagesOf(sys, Template(home[t])));
    WorldGrows(s, s', home, kernel, sys, App(t), PagesOf(sys, Template(home[t])));
  }

  /** Copy on write is invisible. */
  lemma WorldTakes(s: Memory, s': Memory, home: map<nat, nat>, kernel: Kernel, sys: System, t: nat, v: nat)
    requires World(s, home, kernel, sys) && Tree(s') && t in home && InUser(v)
    requires PageTaken(s, s', App(t), v) && Leaf(s, App(t), v).present && !Leaf(s, App(t), v).writable
    ensures World(s', home, kernel, sys)
    ensures MayWrite(s', home, App(t), v)
    ensures forall b :: b != App(t) ==> FramesOf(s', b) == FramesOf(s, b)
  {
    hide Tree, Sharing, KernelHalf, Shows;
    assert Has(sys, App(t));
    HasIsLive(sys, home, App(t));
    assert Shows(s, App(t), PagesOf(sys, App(t)));
    TakeShares(s, s', sys.images.Keys, home, App(t), v);
    ShowsStill(s, s', App(t), PagesOf(sys, App(t)));
    WorldGrows(s, s', home, kernel, sys, App(t), PagesOf(sys, App(t)));
    WithSamePages(sys, App(t));
  }

  /** Writing a page the space owns. */
  lemma WorldWrites(s: Memory, home: map<nat, nat>, kernel: Kernel, sys: System, a: Space, v: nat, page: Page)
    requires World(s, home, kernel, sys) && Has(sys, a) && MayWrite(s, home, a, v)
    ensures var s' := WritePage(s, a, v, page);
      && World(s', home, kernel, WithPages(sys, a, PagesOf(sys, a)[v := page]))
      && s'.role == s.role && s'.node == s.node && s'.mem.Keys == s.mem.Keys
  {
    hide Tree, Sharing, KernelHalf, Shows, WithPages, MayWrite, Leaf;
    var files, s' := sys.images.Keys, WritePage(s, a, v, page);
    var sys' := WithPages(sys, a, PagesOf(sys, a)[v := page]);
    HasIsLive(sys, home, a);
    WriteShares(s, files, home, a, v, page);
    WriteKernel(s, files, home, kernel, a, v, page);
    WithPagesKeys(sys, a, PagesOf(sys, a)[v := page]);
    HasSame(sys, sys');
    forall b {:trigger PagesOf(sys', b)} | Has(sys', b)
      ensures Shows(s', b, PagesOf(sys', b))
    {
      HasIsLive(sys, home, b);
      assert Shows(s, b, PagesOf(sys, b));
      WriteShows(s, files, home, a, v, page, b, PagesOf(sys, b));
    }
  }

  lemma WriteKernel(s: Memory, files: set<nat>, home: map<nat, nat>, kernel: Kernel, a: Space, v: nat, page: Page)
    requires Tree(s) && Sharing(s, files, home) && Live(files, home, a) && MayWrite(s, home, a, v)
    requires KernelHalf(s, files, home, kernel)
    ensures var s' := WritePage(s, a, v, page);
      && KernelHalf(s', files, home, kernel) && s'.role == s.role && s'.node == s.node && s'.mem.Keys == s.mem.Keys
  {
    hide Tree, Sharing, MayWrite, Leaf, Slot;
    WriteShares(s, files, home, a, v, page);
    forall b {:trigger Live(files, home, b)} | Live(files, home, b)
      ensures forall i :: 0 <= i < USER_INDEX ==> Slot(WritePage(s, a, v, page), Root(b), i) == kernel.half[i]
    {
      LiveRoot(s, files, home, b);
    }
  }

  // ----- creation and exit

  ghost predicate NoPages(s: Memory, a: Space) {
    forall v: nat :: InUser(v) ==> !Leaf(s, a, v).present && Pos(a, 0, v) !in s.node
  }

  lemma NewRootEmpty(s: Memory, a: Space, f: nat, page: Page)
    requires CanAddRoot(s, a, f, page)
    ensures NoPages(AddRoot(s, a, f, page), a) && EmptyFrom(AddRoot(s, a, f, page), Root(a), USER_INDEX)
    ensures Shows(AddRoot(s, a, f, page), a, map[])
  {
    AddRootPages(s, a, f, page, a);
    AddRootTree(s, a, f, page);
  }

  lemma NoPlaces(s: Memory, files: set<nat>, home: map<nat, nat>, a: Space)
    requires Sharing(s, files, home) && !Live(files, home, a)
    ensures forall p :: p in s.node ==> p.space != a
  {}

  /** The system with an empty new space. */
  ghost predicate Adds(sys: System, sys': System, home: map<nat, nat>, home': map<nat, nat>, a: Space) {
    match a
    case Template(f) =>
      f !in sys.images && home' == home && sys'.apps == sys.apps
      && f in sys'.images && sys' == sys.(images := sys.images[f := sys'.images[f]]) && sys'.images[f].pages == map[]
    case App(t) =>
      t !in sys.apps && t in home' && home' == home[t := home'[t]] && home'[t] in sys.images && sys'.images == sys.images
      && t in sys'.apps && sys' == sys.(apps := sys.apps[t := sys'.apps[t]]) && sys'.apps[t].pages == map[]
  }

  /** A new space without pages. */
  lemma WorldAdds(s: Memory, home: map<nat, nat>, kernel: Kernel, sys: System, a: Space, f: nat, page: Page,
                  home': map<nat, nat>, sys': System)
    requires World(s, home, kernel, sys) && Adds(sys, sys', home, home', a)
    requires f in s.mem && f !in Alloc(s) && page[..USER_INDEX] == kernel.half
    requires forall i :: USER_INDEX <= i < ENTRIES ==> !page[i].present
    ensures Root(a) !in s.node
    ensures var s' := AddRoot(s, a, f, page);
      && World(s', home', kernel, sys')
      && NoPages(s', a) && EmptyFrom(s', Root(a), USER_INDEX)
      && (forall b :: b != a ==> FramesOf(s', b) == FramesOf(s, b))
      && Alloc(s') == Alloc(s) + {f}
  {
    hide Tree, Sharing, KernelHalf, AddRoot, Leaf, FramesOf, Alloc, NoPages, EmptyFrom, Shows;
    var files, s' := sys.images.Keys, AddRoot(s, a, f, page);
    HasIsLive(sys, home, a);
    NoPlaces(s, files, home, a);
    var file := if a.App? then home'[a.task] else 0;
    AddRootShares(s, files, home, a, f, page, file);
    AddedKeys(sys, sys', home, home', a);
    AddRootTree(s, a, f, page);
    NewRootEmpty(s, a, f, page);
    AddRootOthers(s, home, kernel, sys, a, f, page, home', sys');
  }

  lemma AddedKeys(sys: System, sys': System, home: map<nat, nat>, home': map<nat, nat>, a: Space)
    requires Adds(sys, sys', home, home', a) && sys.apps.Keys == home.Keys
    ensures sys'.images.Keys == FilesWith(sys.images.Keys, a)
    ensures home' == HomeWith(home, a, if a.App? then home'[a.task] else 0) && sys'.apps.Keys == home'.Keys
    ensures forall b :: Has(sys', b) <==> b == a || Has(sys, b)
    ensures forall b :: b != a ==> PagesOf(sys', b) == PagesOf(sys, b)
    ensures PagesOf(sys', a) == map[]
  {
    match a
    case Template(f) => assert sys'.images.Keys == sys.images.Keys + {f};
    case App(t) => assert sys'.apps.Keys == sys.apps.Keys + {t} && home'.Keys == home.Keys + {t};
  }

  lemma AddRootOthers(s: Memory, home: map<nat, nat>, kernel: Kernel, sys: System, a: Space, f: nat, page: Page,
                      home': map<nat, nat>, sys': System)
    requires World(s, home, kernel, sys) && Adds(sys, sys', home, home', a) && CanAddRoot(s, a, f, page)
    requires page[..USER_INDEX] == kernel.half
    ensures var s' := AddRoot(s, a, f, page);
      && KernelHalf(s', sys'.images.Keys, home', kernel)
      && (forall b {:trigger PagesOf(sys', b)} :: Has(sys', b) ==> Shows(s', b, PagesOf(sys', b)))
      && (forall b :: b != a ==> FramesOf(s', b) == FramesOf(s, b))
  {
    var s' := AddRoot(s, a, f, page);
    AddedKeys(sys, sys', home, home', a);
    AddRootKernel(s, home, kernel, sys, a, f, page, home', sys');
    hide Tree, KernelHalf, Sharing, Shows, FramesOf, SamePage, AddRoot, Adds, Leaf, CanAddRoot;
    HasIsLive(sys, home, a);
    NewRootEmpty(s, a, f, page);
    forall b {:trigger PagesOf(sys', b)} | Has(sys', b)
      ensures Shows(s', b, PagesOf(sys', b))
    {
      if b != a {
        HasIsLive(sys, home, b);
        AddRootShows(s, sys.images.Keys, home, a, f, page, b);
        ShowsStill(s, s', b, PagesOf(sys, b));
      }
    }
    forall b | b != a
      ensures FramesOf(s', b) == FramesOf(s, b)
    {
      AddRootPages(s, a, f, page, b);
    }
  }

  lemma AddRootKernel(s: Memory, home: map<nat, nat>, kernel: Kernel, sys: System, a: Space, f: nat, page: Page,
                      home': map<nat, nat>, sys': System)
    requires World(s, home, kernel, sys) && Adds(sys, sys', home, home', a) && CanAddRoot(s, a, f, page)
    requires page[..USER_INDEX] == kernel.half
    ensures KernelHalf(AddRoot(s, a, f, page), sys'.images.Keys, home', kernel)
    ensures !Has(sys, a)
  {
    var s' := AddRoot(s, a, f, page);
    AddedKeys(sys, sys', home, home', a);
    AddRootTree(s, a, f, page);
    AddRootBase(s, a, f, page, kernel.root);
    hide Tree, Sharing, Shows, Slot, Adds, CanAddRoot, AddRoot;
    forall b {:trigger Live(sys'.images.Keys, home', b)} | Live(sys'.images.Keys, home', b)
      ensures forall i :: 0 <= i < USER_INDEX ==> Slot(s', Root(b), i) == kernel.half[i]
    {
      HasIsLive(sys', home', b);
      if b != a {
        HasIsLive(sys, home, b);
        LiveRoot(s, sys.images.Keys, home, b);
      } else {
        assert forall i :: 0 <= i < USER_INDEX ==> page[i] == page[..USER_INDEX][i];
      }
    }
  }

  lemma AddRootBase(s: Memory, a: Space, f: nat, page: Page, g: nat)
    requires f !in Alloc(s) && g in s.base && g in s.mem
    ensures var s' := AddRoot(s, a, f, page); g in s'.base && g in s'.mem && s'.mem[g] == s.mem[g]
  {}

  lemma LiveRoot(s: Memory, files: set<nat>, home: map<nat, nat>, b: Space)
    requires Sharing(s, files, home) && Live(files, home, b)
    ensures Root(b) in s.node
  {}

  /** The exit of an application. */
  lemma WorldExits(s: Memory, s': Memory, home: map<nat, nat>, kernel: Kernel, sys: System, t: nat)
    requires World(s, home, kernel, sys) && Tree(s') && t in home
    requires Cleans(s, s', App(t), 4, USER_LO, USER_HI) && Root(App(t)) in s'.node
    ensures var s'' := RemoveRoot(s', App(t));
      && World(s'', home - {t}, kernel, sys.(apps := sys.apps - {t}))
      && Alloc(s'') == Alloc(s) - FramesOf(s, App(t))
      && (forall b :: b != App(t) ==> FramesOf(s'', b) == FramesOf(s, b))
      && FramesOf(s'', App(t)) == {}
  {
    hide Tree, Sharing, KernelHalf, RemoveRoot, FramesOf, Alloc, Cleans, Shows;
    HasIsLive(sys, home, App(t));
    ExitShares(s, s', sys.images.Keys, home, t);
    ExitFrames(s, s', App(t));
    ExitOthers(s, s', home, kernel, sys, t);
  }

  lemma ExitOthers(s: Memory, s': Memory, home: map<nat, nat>, kernel: Kernel, sys: System, t: nat)
    requires World(s, home, kernel, sys) && Tree(s') && t in home
    requires Cleans(s, s', App(t), 4, USER_LO, USER_HI) && Root(App(t)) in s'.node
    ensures var s'', sys' := RemoveRoot(s', App(t)), sys.(apps := sys.apps - {t});
      && KernelHalf(s'', sys.images.Keys, home - {t}, kernel)
      && forall b {:trigger PagesOf(sys', b)} :: Has(sys', b) ==> Shows(s'', b, PagesOf(sys', b))
  {
    hide Tree, Sharing, RemoveRoot, Cleans, Leaf, PageAt, Slot, Shows;
    var a, s'', home', files := App(t), RemoveRoot(s', App(t)), home - {t}, sys.images.Keys;
    var sys' := sys.(apps := sys.apps - {t});
    HasIsLive(sys, home, a);
    ExitBase(s, s', a, kernel.root);
    forall b {:trigger PagesOf(sys', b)} | Has(sys', b)
      ensures Shows(s'', b, PagesOf(sys', b))
    {
      HasIsLive(sys, home, b);
      ExitPages(s, s', files, home, a, b);
      assert Shows(s, b, PagesOf(sys, b));
      ShowsStill(s, s'', b, PagesOf(sys, b));
    }
    forall b {:trigger Live(files, home', b)} | Live(files, home', b)
      ensures forall i :: 0 <= i < USER_INDEX ==> Slot(s'', Root(b), i) == kernel.half[i]
    {
      assert Live(files, home, b);
      ExitPages(s, s', files, home, a, b);
    }
  }

  // ----- facts the kernel code relies on

  lemma WorldTree(s: Memory, home: map<nat, nat>, kernel: Kernel, sys: System)
    requires World(s, home, kernel, sys)
    ensures Tree(s) && sys.apps.Keys == home.Keys
    ensures forall t :: t in home ==> home[t] in sys.images
  {}

  lemma WorldRoot(s: Memory, home: map<nat, nat>, kernel: Kernel, sys: System, a: Space)
    requires World(s, home, kernel, sys) && Has(sys, a)
    ensures Root(a) in s.node && s.node[Root(a)] in s.mem && s.node[Root(a)] in s.role && s.node[Root(a)] in Alloc(s)
    ensures s.mem[s.node[Root(a)]][..USER_INDEX] == kernel.half
  {
    HasIsLive(sys, home, a);
    assert NodeOk(s, Root(a));
    forall i | 0 <= i < USER_INDEX
      ensures s.mem[s.node[Root(a)]][i] == kernel.half[i]
    {
      assert Slot(s, Root(a), i) == kernel.half[i];
    }
  }

  lemma WorldKernelRoot(s: Memory, home: map<nat, nat>, kernel: Kernel, sys: System)
    requires World(s, home, kernel, sys)
    ensures kernel.root in s.mem && kernel.root in Alloc(s) && s.mem[kernel.root][..USER_INDEX] == kernel.half
  {}

  /** The page walk of a live space finds exactly the pages of the model, all user accessible. */
  lemma WorldWalk(s: Memory, home: map<nat, nat>, kernel: Kernel, sys: System, a: Space, v: nat)
    requires World(s, home, kernel, sys) && Has(sys, a) && InUser(v)
    ensures Root(a) in s.node
    ensures var e := Leaf(s, a, v);
      && Walk(s.mem, s.node[Root(a)], 4, v, true, true) == (if e.present then Mapped(e.addr, e.writable, true) else NotPresent)
      && (e.present <==> v in PagesOf(sys, a))
      && (e.present ==> e.addr in s.mem && s.mem[e.addr] == PagesOf(sys, a)[v])
      && (e.present ==> e.addr in Alloc(s))
      && (a.App? && e.present ==> (Pos(a, 0, v) in s.node <==> e.writable))
  {
    HasIsLive(sys, home, a);
    assert Shows(s, a, PagesOf(sys, a));
    assert ShowsPage(s, a, PagesOf(sys, a), v);
    WalkIsLeaf(s, a, 4, v);
    if Leaf(s, a, v).present {
      LeafFrame(s, sys.images.Keys, home, a, v);
      assert LeafShared(s, home, a, v);
      var p := Pos(a, 1, v / 512);
      assert SlotOk(s, p, v % 512);
    }
  }

  /** None of the pages `[lo, hi)` is there. */
  ghost predicate Absent(pages: Pages, lo: nat, hi: nat) {
    forall v: nat :: lo <= v < hi ==> v !in pages
  }

  /** Pages the application does not have are not borrowed. */
  lemma AbsentNotBorrowed(s: Memory, home: map<nat, nat>, kernel: Kernel, sys: System, t: nat, lo: nat, hi: nat)
    requires World(s, home, kernel, sys) && t in sys.apps && Absent(PagesOf(sys, App(t)), lo, hi)
    ensures NoneBorrowed(s, App(t), lo, hi)
  {
    assert Has(sys, App(t));
    assert Shows(s, App(t), PagesOf(sys, App(t)));
    assert forall v: nat :: InUser(v) ==> ShowsPage(s, App(t), PagesOf(sys, App(t)), v);
  }

  lemma FramesByRole(s: Memory, s': Memory)
    requires s'.role == s.role
    ensures forall b :: FramesOf(s', b) == FramesOf(s, b)
  {}
}
