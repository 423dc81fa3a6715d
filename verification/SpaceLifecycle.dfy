/** Creating and tearing down an address space (kernel/terminal.cpp: SetupPML4, FreePML4 and the exit path of
    ExecuteFile), seen from every other space. */
module SpaceLifecycle {
  import opened PageTables
  import opened PageGrowth
  import opened PageCopy
  import opened PageClean
  import opened CopyOnWrite

  /** The frames an address space owns: its tables and its own pages. */
  ghost function FramesOf(s: Memory, a: Space): set<nat> {
    set f | f in s.role && s.role[f].space == a
  }

  /** The kernel's own root table and the entries of its lower half. */
  datatype Kernel = Kernel(root: nat, half: seq<Word>)

  /** The kernel half of every root is that of the kernel's own root. */
  ghost predicate KernelHalf(s: Memory, files: set<nat>, home: map<nat, nat>, kernel: Kernel) {
    && |kernel.half| == USER_INDEX
    && kernel.root in s.base && kernel.root in s.mem && s.mem[kernel.root][..USER_INDEX] == kernel.half
    && forall b {:trigger Live(files, home, b)} :: Live(files, home, b) ==>
         forall i :: 0 <= i < USER_INDEX ==> Slot(s, Root(b), i) == kernel.half[i]
  }

  lemma ExtendsFrames(s: Memory, s': Memory, a: Space, b: Space)
    requires Tree(s) && Tree(s') && Extends(s, s', a) && a != b
    ensures FramesOf(s', b) == FramesOf(s, b)
  {
    RolesKept(s, s', a);
    forall f | f in s'.role && s'.role[f].space == b
      ensures f in s.role
    {
      assert NodeOk(s, s'.role[f]);
    }
  }

  lemma ExtendsKernel(s: Memory, s': Memory, files: set<nat>, home: map<nat, nat>, a: Space, kernel: Kernel)
    requires Tree(s) && Sharing(s, files, home) && Extends(s, s', a) && Live(files, home, a)
    requires KernelHalf(s, files, home, kernel)
    ensures KernelHalf(s', files, home, kernel)
  {
    forall b | Live(files, home, b)
      ensures forall i :: 0 <= i < USER_INDEX ==> Slot(s', Root(b), i) == kernel.half[i]
    {
      assert NodeOk(s, Root(b));
      assert b != a ==> !IsTableOf(s, a, s.node[Root(b)]);
      assert s'.node[Root(b)] == s.node[Root(b)];
      assert forall i :: 0 <= i < USER_INDEX ==> Slot(s', Root(b), i) == Slot(s, Root(b), i);
    }
  }

  // ----- creation

  ghost function AddRoot(s: Memory, a: Space, f: nat, page: Page): Memory {
    Memory(s.mem[f := page], s.node[Root(a) := f], s.role[f := Root(a)], s.base)
  }

  ghost predicate CanAddRoot(s: Memory, a: Space, f: nat, page: Page) {
    && Tree(s) && f in s.mem && f !in Alloc(s)
    && (forall p :: p in s.node ==> p.space != a)
    && forall i :: USER_INDEX <= i < ENTRIES ==> !page[i].present
  }

  lemma AddRootTree(s: Memory, a: Space, f: nat, page: Page)
    requires CanAddRoot(s, a, f, page)
    ensures var s' := AddRoot(s, a, f, page);
      && Tree(s') && Alloc(s') == Alloc(s) + {f}
      && (forall p, i: nat :: p in s.node ==> Slot(s', p, i) == Slot(s, p, i))
      && (forall i: nat :: i < ENTRIES ==> Slot(s', Root(a), i) == page[i])
  {
    var s' := AddRoot(s, a, f, page);
    forall p, i: nat | p in s.node
      ensures Slot(s', p, i) == Slot(s, p, i)
    {
      assert NodeOk(s, p);
    }
    forall p | p in s'.node
      ensures NodeOk(s', p)
    {
      assert p in s.node ==> NodeOk(s, p);
    }
    forall p, i: nat | p in s'.node && p.level > 0 && FirstIndex(p.level) <= i < ENTRIES
      ensures SlotOk(s', p, i)
    {
      assert p in s.node ==> SlotOk(s, p, i);
    }
  }

  /** A new space sees nothing; the others see what they saw. */
  lemma AddRootPages(s: Memory, a: Space, f: nat, page: Page, b: Space)
    requires CanAddRoot(s, a, f, page)
    ensures var s' := AddRoot(s, a, f, page);
      && (forall v: nat :: InUser(v) ==> Leaf(s', b, v) == Leaf(s, b, v))
      && (forall v: nat :: Pos(b, 0, v) in s'.node <==> Pos(b, 0, v) in s.node)
      && (a != b ==> FramesOf(s', b) == FramesOf(s, b))
      && (forall v: nat :: !Leaf(s', a, v).present && Pos(a, 0, v) !in s'.node)
  {
    AddRootTree(s, a, f, page);
  }

  /** The live spaces after `a` was added; `file` is the file a new application borrows from. */
  function FilesWith(files: set<nat>, a: Space): set<nat> {
    if a.Template? then files + {a.file} else files
  }

  function HomeWith(home: map<nat, nat>, a: Space, file: nat): map<nat, nat> {
    if a.App? then home[a.task := file] else home
  }

  lemma AddRootPage(s: Memory, files: set<nat>, home: map<nat, nat>, a: Space, f: nat, page: Page, file: nat, b: Space, v: nat)
    requires CanAddRoot(s, a, f, page) && Sharing(s, files, home) && !Live(files, home, a)
    requires a.App? ==> file in files
    requires Live(FilesWith(files, a), HomeWith(home, a, file), b) && InUser(v)
    ensures LeafShared(AddRoot(s, a, f, page), HomeWith(home, a, file), b, v)
    ensures b != a ==> Live(files, home, b)
  {
    AddRootPages(s, a, f, page, b);
    if b != a {
      assert Live(files, home, b);
      assert LeafShared(s, home, b, v);
      assert HomeOf(HomeWith(home, a, file), b) == HomeOf(home, b);
      var h := Pos(HomeOf(home, b), 0, v);
      AddRootPages(s, a, f, page, HomeOf(home, b));
      assert h in s.node ==> AddRoot(s, a, f, page).node[h] == s.node[h];
    }
  }

  lemma AddRootShares(s: Memory, files: set<nat>, home: map<nat, nat>, a: Space, f: nat, page: Page, file: nat)
    requires CanAddRoot(s, a, f, page) && Sharing(s, files, home) && !Live(files, home, a)
    requires a.App? ==> file in files
    ensures Sharing(AddRoot(s, a, f, page), FilesWith(files, a), HomeWith(home, a, file))
  {
    var s', files', home' := AddRoot(s, a, f, page), FilesWith(files, a), HomeWith(home, a, file);
    forall b, v: nat | Live(files', home', b) && InUser(v)
      ensures LeafShared(s', home', b, v)
    {
      AddRootPage(s, files, home, a, f, page, file, b, v);
    }
    forall b | Live(files', home', b)
      ensures Root(b) in s'.node
    {
      assert b != a ==> Live(files, home, b);
    }
  }

  lemma AddRootShows(s: Memory, files: set<nat>, home: map<nat, nat>, a: Space, f: nat, page: Page, b: Space)
    requires CanAddRoot(s, a, f, page) && Sharing(s, files, home) && !Live(files, home, a) && Live(files, home, b)
    ensures forall v: nat :: InUser(v) ==> SamePage(s, AddRoot(s, a, f, page), b, v)
  {
    var s' := AddRoot(s, a, f, page);
    AddRootPages(s, a, f, page, b);
    forall v: nat | InUser(v)
      ensures SamePage(s, s', b, v)
    {
      if Leaf(s, b, v).present {
        LeafFrame(s, files, home, b, v);
      }
    }
  }

  // ----- exit

  ghost function RemoveRoot(s: Memory, a: Space): Memory
    requires Root(a) in s.node
  {
    s.(node := s.node - {Root(a)}, role := s.role - {s.node[Root(a)]})
  }

  lemma RemoveRootTree(s: Memory, a: Space)
    requires Tree(s) && Root(a) in s.node && forall p :: p in s.node && p.space == a ==> p == Root(a)
    ensures Tree(RemoveRoot(s, a))
    ensures Alloc(RemoveRoot(s, a)) == Alloc(s) - {s.node[Root(a)]}
  {
    var s' := RemoveRoot(s, a);
    assert NodeOk(s, Root(a));
    forall p | p in s'.node
      ensures NodeOk(s', p)
    {
      assert NodeOk(s, p);
    }
    forall p, i: nat | p in s'.node && p.level > 0 && FirstIndex(p.level) <= i < ENTRIES
      ensures SlotOk(s', p, i)
    {
      assert SlotOk(s, p, i) && NodeOk(s, p);
    }
  }

  /** After its user half is cleaned a space has only its root left. */
  lemma OnlyRootLeft(s: Memory, s': Memory, a: Space)
    requires Tree(s) && Cleans(s, s', a, 4, USER_LO, USER_HI)
    ensures forall p :: p in s'.node && p.space == a ==> p == Root(a)
  {
    forall p | p in s'.node && p.space == a
      ensures p == Root(a)
    {
      assert NodeOk(s, p);
    }
  }

  lemma AppOwnsWritable(s: Memory, files: set<nat>, home: map<nat, nat>, a: Space)
    requires Sharing(s, files, home) && Live(files, home, a) && a.App?
    ensures LeavesOwned(s, a)
  {
    forall v: nat | InUser(v) && Leaf(s, a, v).present
      ensures Leaf(s, a, v).writable <==> Pos(a, 0, v) in s.node
    {
      assert LeafShared(s, home, a, v);
    }
  }

  lemma ExitNodes(s: Memory, s': Memory, a: Space, p: Pos)
    requires Tree(s) && Cleans(s, s', a, 4, USER_LO, USER_HI) && Root(a) in s'.node && p.space != a
    ensures var s'' := RemoveRoot(s', a);
      && (p in s''.node <==> p in s.node)
      && (p in s.node ==> s''.node[p] == s.node[p])
      && (p in s.node && p.level > 0 ==> forall i :: 0 <= i < ENTRIES ==> Slot(s'', p, i) == Slot(s, p, i))
  {
    assert p in s.node ==> NodeOk(s, p);
  }

  lemma ExitBase(s: Memory, s': Memory, a: Space, f: nat)
    requires Tree(s) && Cleans(s, s', a, 4, USER_LO, USER_HI) && Root(a) in s'.node && f in s.base && f in s.mem
    ensures var s'' := RemoveRoot(s', a); s''.base == s.base && f in s''.mem && s''.mem[f] == s.mem[f]
  {}

  /** An application's exit is invisible to every other space. */
  lemma ExitPages(s: Memory, s': Memory, files: set<nat>, home: map<nat, nat>, a: Space, b: Space)
    requires Tree(s) && Tree(s') && Sharing(s, files, home) && Live(files, home, a) && a.App?
    requires Cleans(s, s', a, 4, USER_LO, USER_HI) && Root(a) in s'.node
    requires Live(files, home, b) && b != a
    ensures var s'' := RemoveRoot(s', a);
      && (forall v: nat :: InUser(v) ==> Leaf(s'', b, v) == Leaf(s, b, v) && (Pos(b, 0, v) in s''.node <==> Pos(b, 0, v) in s.node))
      && (forall v: nat :: InUser(v) ==> SamePage(s, s'', b, v))
      && (forall i :: 0 <= i < USER_INDEX ==> Slot(s'', Root(b), i) == Slot(s, Root(b), i))
  {
    ExitNodes(s, s', a, Root(b));
    forall v: nat | InUser(v)
      ensures var s'' := RemoveRoot(s', a); Leaf(s'', b, v) == Leaf(s, b, v) && (Pos(b, 0, v) in s''.node <==> Pos(b, 0, v) in s.node)
    {
      ExitNodes(s, s', a, Pos(b, 1, v / 512));
      ExitNodes(s, s', a, Pos(b, 0, v));
    }
    forall v: nat | InUser(v)
      ensures SamePage(s, RemoveRoot(s', a), b, v)
    {
      if Leaf(s, b, v).present {
        LeafFrame(s, files, home, b, v);
      }
    }
  }

  /** The frames the application owned are exactly the ones that are free after its exit. */
  lemma ExitFrames(s: Memory, s': Memory, a: Space)
    requires Tree(s) && Tree(s') && Cleans(s, s', a, 4, USER_LO, USER_HI) && Root(a) in s'.node
    ensures Tree(RemoveRoot(s', a))
    ensures Alloc(RemoveRoot(s', a)) == Alloc(s) - FramesOf(s, a)
    ensures forall b :: b != a ==> FramesOf(RemoveRoot(s', a), b) == FramesOf(s, b)
    ensures FramesOf(RemoveRoot(s', a), a) == {}
  {
    var s'' := RemoveRoot(s', a);
    OnlyRootLeft(s, s', a);
    RemoveRootTree(s', a);
    forall f
      ensures f in s''.role <==> f in s.role && s.role[f].space != a
      ensures f in s''.role ==> s''.role[f] == s.role[f]
    {
      ExitRole(s, s', a, f);
    }
  }

  lemma ExitRole(s: Memory, s': Memory, a: Space, f: nat)
    requires Tree(s) && Tree(s') && Cleans(s, s', a, 4, USER_LO, USER_HI) && Root(a) in s'.node
    requires Tree(RemoveRoot(s', a)) && forall p :: p in s'.node && p.space == a ==> p == Root(a)
    ensures var s'' := RemoveRoot(s', a);
      && (f in s''.role <==> f in s.role && s.role[f].space != a)
      && (f in s''.role ==> s''.role[f] == s.role[f])
  {
    var s'' := RemoveRoot(s', a);
    if f in s''.role {
      ExitNodes(s, s', a, s''.role[f]);
      assert NodeOk(s, s''.role[f]);
    }
    if f in s.role && s.role[f].space != a {
      ExitNodes(s, s', a, s.role[f]);
      assert NodeOk(s'', s.role[f]);
    }
  }

  lemma ExitShares(s: Memory, s': Memory, files: set<nat>, home: map<nat, nat>, t: nat)
    requires Tree(s) && Tree(s') && Sharing(s, files, home) && Live(files, home, App(t))
    requires Cleans(s, s', App(t), 4, USER_LO, USER_HI) && Root(App(t)) in s'.node
    ensures Sharing(RemoveRoot(s', App(t)), files, home - {t})
  {
    var a, s'', home' := App(t), RemoveRoot(s', App(t)), home - {t};
    OnlyRootLeft(s, s', a);
    forall b, v: nat | Live(files, home', b) && InUser(v)
      ensures LeafShared(s'', home', b, v)
    {
      assert LeafShared(s, home, b, v);
      ExitPages(s, s', files, home, a, b);
      assert Live(files, home, HomeOf(home, b));
      ExitPages(s, s', files, home, a, HomeOf(home, b));
    }
    forall b | Live(files, home', b)
      ensures Root(b) in s''.node
    {
      assert Live(files, home, b);
    }
  }
}
