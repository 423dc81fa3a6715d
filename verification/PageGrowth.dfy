/** What building page tables does to memory: one-entry updates, and the effect of mapping a page range. */
module PageGrowth {
  import opened PageTables

  /** `f` holds a table, at some level, of the space. */
  ghost predicate IsTableOf(s: Memory, space: Space, f: nat) {
    f in s.role && s.role[f].space == space && s.role[f].level > 0
  }

  /** Only `space` grew: its new places use frames that were free, and no allocated frame changed except
      the space's own tables; the kernel half of its root is intact. */
  ghost predicate Extends(s: Memory, s': Memory, space: Space) {
    && s'.base == s.base && s'.mem.Keys == s.mem.Keys
    && (forall p :: p in s.node ==> p in s'.node && s'.node[p] == s.node[p])
    && (forall p :: p in s'.node && p !in s.node ==> p.space == space && p.level < 4 && s'.node[p] !in Alloc(s))
    && (forall f :: f in s.mem && f in Alloc(s) && !IsTableOf(s, space, f) ==> s'.mem[f] == s.mem[f])
    && (forall i :: 0 <= i < USER_INDEX ==> Slot(s', Root(space), i) == Slot(s, Root(space), i))
  }

  /** Exactly the pages `[lo, hi)` were mapped with the given right: those already present keep their frame,
      the others have a new zeroed frame of their own; the other pages keep their entry. */
  ghost predicate PagesMapped(s: Memory, s': Memory, space: Space, lo: nat, hi: nat, writable: bool) {
    forall v: nat :: InUser(v) ==> PageMapped(s, s', space, v, lo <= v < hi, writable)
  }

  ghost predicate PageMapped(s: Memory, s': Memory, space: Space, v: nat, covered: bool, writable: bool) {
    var e, e', c := Leaf(s, space, v), Leaf(s', space, v), Pos(space, 0, v);
    if covered then
      && e'.present && e'.user && e'.writable == writable
      && if e.present then
           e'.addr == e.addr && (c in s'.node <==> c in s.node)
         else
           c in s'.node && s'.node[c] == e'.addr && s'.mem.Keys >= {e'.addr} && s'.mem[e'.addr] == ZeroPage()
    else
      e' == e && (c in s'.node <==> c in s.node)
  }

  /** Growth of one space that maps exactly `[lo, hi)`. */
  ghost predicate MapsRange(s: Memory, s': Memory, space: Space, lo: nat, hi: nat, writable: bool) {
    Extends(s, s', space) && PagesMapped(s, s', space, lo, hi, writable)
  }

  lemma ChildInUser(p: Pos, i: nat)
    requires 0 < p.level <= 4 && (p.level == 4 ==> p.k == 0) && (p.level < 4 ==> InUser(First(p.level, p.k)))
    requires FirstIndex(p.level) <= i < ENTRIES
    ensures InUser(First(p.level - 1, p.k * ENTRIES + i))
  {}

  lemma ParentOfChild(p: Pos, i: nat)
    requires p.level > 0 && i < ENTRIES
    ensures Parent(Child(p, i)) == p
    ensures forall q: Pos, j: nat :: q.level > 0 && j < ENTRIES && Child(q, j) == Child(p, i) ==> q == p && j == i
  {
    forall q: Pos, j: nat | q.level > 0 && j < ENTRIES && Child(q, j) == Child(p, i)
      ensures q == p && j == i
    {
      assert q.k * ENTRIES + j == p.k * ENTRIES + i;
    }
  }

  /** The free frame `f`, filled with `page`, may become the child of entry `i`, which owns none yet. */
  ghost predicate CanAddChild(s: Memory, p: Pos, i: nat, f: nat, e: Word, page: Page) {
    && Tree(s) && p in s.node && 0 < p.level && FirstIndex(p.level) <= i < ENTRIES
    && f in s.mem && f !in Alloc(s) && Child(p, i) !in s.node && (p.level > 1 ==> page == ZeroPage())
    && e.present && e.user && e.addr == f && (p.level > 1 ==> e.writable)
    && s.node[p] in s.mem
  }

  ghost function AddChildTo(s: Memory, p: Pos, i: nat, f: nat, e: Word, page: Page): Memory
    requires CanAddChild(s, p, i, f, e, page)
  {
    var t, c := s.node[p], Child(p, i);
    s.(mem := s.mem[f := page][t := s.mem[t][i := e]], node := s.node[c := f], role := s.role[f := c])
  }

  lemma AddChildSlots(s: Memory, p: Pos, i: nat, f: nat, e: Word, page: Page)
    requires CanAddChild(s, p, i, f, e, page)
    ensures var s' := AddChildTo(s, p, i, f, e, page);
      && Child(p, i) !in s.node && s'.node == s.node[Child(p, i) := f] && s'.role == s.role[f := Child(p, i)]
      && s'.base == s.base && s'.mem.Keys == s.mem.Keys
      && (forall g :: g in s.mem && g != f && g != s.node[p] ==> s'.mem[g] == s.mem[g])
      && s.node[p] != f
      && s'.mem[f] == page
      && (forall q, j: nat :: q in s.node && j < ENTRIES ==> Slot(s', q, j) == if q == p && j == i then e else Slot(s, q, j))
      && (p.level > 1 ==> forall j :: 0 <= j < ENTRIES ==> Slot(s', Child(p, i), j) == NULL_WORD)
  {
    var s' := AddChildTo(s, p, i, f, e, page);
    assert NodeOk(s, p) && SlotOk(s, p, i);
    forall q, j: nat | q in s.node && j < ENTRIES
      ensures Slot(s', q, j) == if q == p && j == i then e else Slot(s, q, j)
    {
      assert NodeOk(s, q);
    }
  }

  lemma AddChildTree(s: Memory, p: Pos, i: nat, f: nat, e: Word, page: Page)
    requires CanAddChild(s, p, i, f, e, page)
    ensures Tree(AddChildTo(s, p, i, f, e, page))
  {
    var c, s' := Child(p, i), AddChildTo(s, p, i, f, e, page);
    AddChildSlots(s, p, i, f, e, page);
    ParentOfChild(p, i);
    forall q | q in s'.node
      ensures NodeOk(s', q)
    {
      if q != c {
        assert NodeOk(s, q);
      } else {
        assert NodeOk(s, p);
        ChildInUser(p, i);
      }
    }
    forall q, j: nat | q in s'.node && q.level > 0 && FirstIndex(q.level) <= j < ENTRIES
      ensures SlotOk(s', q, j)
    {
      if q != c {
        assert SlotOk(s, q, j);
      } else {
        ParentOfChild(c, j);
        assert Child(c, j) in s.node ==> NodeOk(s, Child(c, j));
      }
    }
  }

  lemma AddChildExtends(s: Memory, p: Pos, i: nat, f: nat, e: Word, page: Page)
    requires CanAddChild(s, p, i, f, e, page)
    ensures Extends(s, AddChildTo(s, p, i, f, e, page), p.space)
  {
    AddChildSlots(s, p, i, f, e, page);
    assert NodeOk(s, p);
  }

  /** Adding a child maps one page when the child is a page, and no page when it is a table. */
  lemma AddChildMaps(s: Memory, p: Pos, i: nat, f: nat, e: Word, page: Page)
    requires CanAddChild(s, p, i, f, e, page) && page == ZeroPage() && !Slot(s, p, i).present
    ensures var s' := AddChildTo(s, p, i, f, e, page);
      && (p.level == 1 ==> PagesMapped(s, s', p.space, Child(p, i).k, Child(p, i).k + 1, e.writable))
      && (p.level > 1 ==> forall lo, w :: PagesMapped(s, s', p.space, lo, lo, w))
  {
    AddChildSlots(s, p, i, f, e, page);
  }

  lemma AddChildSound(s: Memory, p: Pos, i: nat, f: nat, e: Word, page: Page)
    requires CanAddChild(s, p, i, f, e, page) && page == ZeroPage() && !Slot(s, p, i).present
    ensures var s' := AddChildTo(s, p, i, f, e, page);
      && Tree(s')
      && (p.level == 1 ==> MapsRange(s, s', p.space, Child(p, i).k, Child(p, i).k + 1, e.writable))
      && (p.level > 1 ==> forall lo, w :: MapsRange(s, s', p.space, lo, lo, w))
  {
    AddChildTree(s, p, i, f, e, page);
    AddChildExtends(s, p, i, f, e, page);
    AddChildMaps(s, p, i, f, e, page);
  }

  /** The last-level entry `i` of the table at `p` becomes `e`. */
  ghost function SetLeaf(s: Memory, p: Pos, i: nat, e: Word): Memory
    requires p in s.node && s.node[p] in s.mem && i < ENTRIES
  {
    s.(mem := s.mem[s.node[p] := s.mem[s.node[p]][i := e]])
  }

  /** `e` may be stored as entry `i`: it does not detach a page the space owns. */
  ghost predicate CanSetLeaf(s: Memory, p: Pos, i: nat, e: Word) {
    && Tree(s) && p in s.node && s.node[p] in s.mem && p.level == 1 && i < ENTRIES
    && (Child(p, i) in s.node ==> e.present && e.addr == s.node[Child(p, i)])
    && (e.present ==> e.user && e.addr in s.mem)
  }

  lemma SetLeafTree(s: Memory, p: Pos, i: nat, e: Word)
    requires CanSetLeaf(s, p, i, e)
    ensures var s' := SetLeaf(s, p, i, e);
      && Tree(s') && Extends(s, s', p.space)
      && (forall q, j: nat :: q in s.node && j < ENTRIES ==> Slot(s', q, j) == if q == p && j == i then e else Slot(s, q, j))
  {
    var s' := SetLeaf(s, p, i, e);
    assert NodeOk(s, p);
    forall q, j: nat | q in s.node && j < ENTRIES
      ensures Slot(s', q, j) == if q == p && j == i then e else Slot(s, q, j)
    {
      assert NodeOk(s, q);
    }
    forall q | q in s'.node
      ensures NodeOk(s', q)
    {
      assert NodeOk(s, q);
    }
    forall q, j: nat | q in s'.node && q.level > 0 && FirstIndex(q.level) <= j < ENTRIES
      ensures SlotOk(s', q, j)
    {
      assert SlotOk(s, q, j);
    }
  }

  /** Setting the right of a present page. */
  lemma SetRightSound(s: Memory, p: Pos, i: nat, writable: bool)
    requires Tree(s) && p in s.node && s.node[p] in s.mem && p.level == 1 && i < ENTRIES && Slot(s, p, i).present
    ensures var s' := SetLeaf(s, p, i, Slot(s, p, i).(user := true, writable := writable));
      Tree(s') && MapsRange(s, s', p.space, Child(p, i).k, Child(p, i).k + 1, writable)
  {
    assert SlotOk(s, p, i);
    SetLeafTree(s, p, i, Slot(s, p, i).(user := true, writable := writable));
  }

  /** Growth keeps every role, so every allocated frame stays allocated. */
  lemma RolesKept(s: Memory, s': Memory, space: Space)
    requires Tree(s) && Tree(s') && Extends(s, s', space)
    ensures forall f :: f in s.role ==> f in s'.role && s'.role[f] == s.role[f]
    ensures forall f :: f in s'.role && f !in s.role ==> f !in s.base
  {
    forall f | f in s.role
      ensures f in s'.role && s'.role[f] == s.role[f]
    {
      assert NodeOk(s', s.role[f]);
    }
  }

  lemma ExtendsTransitive(s: Memory, s': Memory, s'': Memory, space: Space)
    requires Tree(s) && Tree(s') && Extends(s, s', space) && Extends(s', s'', space)
    ensures Extends(s, s'', space)
  {
    RolesKept(s, s', space);
  }

  lemma MapsNothing(s: Memory, space: Space, lo: nat, writable: bool)
    ensures MapsRange(s, s, space, lo, lo, writable)
  {}

  lemma MapsKeep(s: Memory, s': Memory, space: Space, lo: nat, hi: nat, writable: bool, p: Pos)
    requires MapsRange(s, s', space, lo, hi, writable) && p in s.node
    ensures p in s'.node && s'.node[p] == s.node[p]
  {}

  lemma MapsJoin(s: Memory, s': Memory, s'': Memory, space: Space, lo: nat, mid: nat, hi: nat, writable: bool)
    requires Tree(s) && Tree(s') && Tree(s'') && lo <= mid <= hi
    requires MapsRange(s, s', space, lo, mid, writable) && MapsRange(s', s'', space, mid, hi, writable)
    ensures MapsRange(s, s'', space, lo, hi, writable)
  {
    ExtendsTransitive(s, s', s'', space);
    forall v: nat | InUser(v)
      ensures PageMapped(s, s'', space, v, lo <= v < hi, writable)
    {
      assert PageMapped(s, s', space, v, lo <= v < mid, writable);
      assert PageMapped(s', s'', space, v, mid <= v < hi, writable);
      if lo <= v < mid && !Leaf(s, space, v).present {
        assert NodeOk(s', Pos(space, 0, v));
      }
    }
  }

  /** The space got its own copy of page `v`, in a frame that was free; nothing else is visible. */
  ghost predicate PageTaken(s: Memory, s': Memory, space: Space, v: nat) {
    && Extends(s, s', space)
    && (forall p :: p in s'.node && p !in s.node ==> p == Pos(space, 0, v))
    && Pos(space, 0, v) in s'.node && s'.node[Pos(space, 0, v)] in s'.mem && Leaf(s', space, v).present
    && Leaf(s', space, v).addr == s'.node[Pos(space, 0, v)] && Leaf(s', space, v).writable && Leaf(s', space, v).user
    && s'.mem[s'.node[Pos(space, 0, v)]] == PageAt(s, space, v)
    && (forall w: nat :: InUser(w) && w != v ==> Leaf(s', space, w) == Leaf(s, space, w))
  }

  /** The frame of the last-level table for the page of `a`. */
  ghost function TableOf(s: Memory, space: Space, a: LinearAddress): nat {
    var p := Pos(space, 1, a.PageNumber() / 512);
    if p in s.node then s.node[p] else 0
  }

  /** Memory and bookkeeping after the page of `a` moved to the frame `f`. */
  ghost function TakeTo(s: Memory, space: Space, a: LinearAddress, f: nat): Memory
    requires a.Valid() && TableOf(s, space, a) in s.mem
  {
    var c := Pos(space, 0, a.PageNumber());
    Memory(RetargetLeaf(s.mem[f := PageAt(s, space, a.PageNumber())], TableOf(s, space, a), a.page, f),
           s.node[c := f], s.role[f := c], s.base)
  }

  lemma TakePage(s: Memory, space: Space, a: LinearAddress, f: nat)
    requires Tree(s) && a.Valid() && InUser(a.PageNumber()) && Leaf(s, space, a.PageNumber()).present
    requires Pos(space, 0, a.PageNumber()) !in s.node && f in s.mem && f !in Alloc(s)
    requires TableOf(s, space, a) in s.mem
    ensures var s' := TakeTo(s, space, a, f);
      Tree(s') && PageTaken(s, s', space, a.PageNumber()) && Alloc(s') == Alloc(s) + {f} && s'.mem.Keys == s.mem.Keys
  {
    var v := a.PageNumber();
    var p, i := Pos(space, 1, v / 512), v % 512;
    var e, page := Slot(s, p, i).(addr := f, writable := true), PageAt(s, space, v);
    TakeReady(s, space, v);
    PartIsIndex(a, 1);
    assert CanAddChild(s, p, i, f, e, page) by {
      assert NodeOk(s, p) && SlotOk(s, p, i);
    }
    TakeChild(s, p, i, f, e, page);
    assert TakeTo(s, space, a, f).mem == AddChildTo(s, p, i, f, e, page).mem;
  }

  lemma TakeChild(s: Memory, p: Pos, i: nat, f: nat, e: Word, page: Page)
    requires CanAddChild(s, p, i, f, e, page) && p.level == 1
    requires e.writable && page == PageAt(s, p.space, Child(p, i).k)
    ensures var s' := AddChildTo(s, p, i, f, e, page); Tree(s') && PageTaken(s, s', p.space, Child(p, i).k)
  {
    AddChildSlots(s, p, i, f, e, page);
    AddChildTree(s, p, i, f, e, page);
    AddChildExtends(s, p, i, f, e, page);
    var v := Child(p, i).k;
    assert v / 512 == p.k && v % 512 == i;
  }

  /** In a memory that differs only in frames that are not part of any tree, a page of the space that is
      present is still found, at the same frame. */
  lemma UserFrameMapped(s: Memory, mem: map<nat, Page>, space: Space, a: LinearAddress)
    requires Tree(s) && a.Valid() && InUser(a.PageNumber()) && Leaf(s, space, a.PageNumber()).present
    requires Root(space) in s.node && mem.Keys == s.mem.Keys
    requires forall f :: f in s.role && f in s.mem ==> mem[f] == s.mem[f]
    ensures var v := a.PageNumber();
      Walk(mem, s.node[Root(space)], 4, v, true, true)
        == Mapped(Leaf(s, space, v).addr, Leaf(s, space, v).writable, Leaf(s, space, v).user)
  {
    var v := a.PageNumber();
    WalkAgrees(s, mem, space, 4, v, true, true);
    WalkIsLeaf(s, space, 4, v);
  }

  /** The walk only reads tables of the space. */
  lemma {:induction false} WalkAgrees(s: Memory, mem: map<nat, Page>, space: Space, level: nat, v: nat, w: bool, u: bool)
    requires Tree(s) && InUser(v) && 1 <= level <= 4 && Pos(space, level, Ancestor(v, level)) in s.node
    requires mem.Keys == s.mem.Keys && forall f :: f in s.role && f in s.mem ==> mem[f] == s.mem[f]
    ensures var t := s.node[Pos(space, level, Ancestor(v, level))]; Walk(mem, t, level, v, w, u) == Walk(s.mem, t, level, v, w, u)
  {
    var p := Pos(space, level, Ancestor(v, level));
    var i := Index(v, level);
    assert NodeOk(s, p);
    UserEntry(v, level);
    assert SlotOk(s, p, i);
    if level > 1 && Slot(s, p, i).present {
      AncestorStep(level - 1, v);
      var e := Slot(s, p, i);
      WalkAgrees(s, mem, space, level - 1, v, w && e.writable, u && e.user);
    }
  }

  /** Entry `i` of the table in frame `t` points, writable, at `content`. */
  function RetargetLeaf(mem: map<nat, Page>, t: nat, i: nat, content: nat): map<nat, Page>
    requires t in mem && i < ENTRIES
  {
    mem[t := mem[t][i := mem[t][i].(addr := content, writable := true)]]
  }

  lemma TakeReady(s: Memory, space: Space, v: nat)
    requires Tree(s) && InUser(v) && Leaf(s, space, v).present
    ensures var p := Pos(space, 1, v / 512); p in s.node && s.node[p] in s.mem && s.node[p] in s.role && Child(p, v % 512) == Pos(space, 0, v)
    ensures Leaf(s, space, v).user && Leaf(s, space, v).addr in s.mem
    ensures Ancestor(v, 4) == 0
  {
    var p := Pos(space, 1, v / 512);
    assert NodeOk(s, p) && SlotOk(s, p, v % 512);
  }
}
