/** What sharing page tables does to memory: the effect of `CopyPageMaps` (kernel/paging.cpp). */
module PageCopy {
  import opened PageTables
  import opened PageGrowth

  /** In the pages `[lo, hi)` the space `a` borrowed the pages of `t`, read-only; it owns no new page, and
      its new tables cover those pages only. */
  ghost predicate CopiesRange(s: Memory, s': Memory, a: Space, t: Space, lo: nat, hi: nat) {
    && Extends(s, s', a)
    && (forall p :: p in s'.node && p !in s.node ==> lo <= First(p.level, p.k) < hi)
    && (forall v: nat :: InUser(v) ==> PageCopied(s, s', a, t, v, lo <= v < hi))
  }

  ghost predicate PageCopied(s: Memory, s': Memory, a: Space, t: Space, v: nat, covered: bool) {
    && Leaf(s', a, v) == (if covered && Leaf(s, t, v).present then Leaf(s, t, v).(writable := false) else Leaf(s, a, v))
    && (Pos(a, 0, v) in s'.node <==> Pos(a, 0, v) in s.node)
  }

  /** The entries of the table at `p` from `i` on are empty. */
  ghost predicate EmptyFrom(s: Memory, p: Pos, i: nat) {
    forall j :: i <= j < ENTRIES ==> !Slot(s, p, j).present
  }

  lemma OtherLeavesKept(s: Memory, s': Memory, a: Space, t: Space, v: nat)
    requires Tree(s) && Extends(s, s', a) && a != t
    ensures Leaf(s', t, v) == Leaf(s, t, v)
  {
    var p := Pos(t, 1, v / 512);
    if p in s.node {
      assert NodeOk(s, p);
    }
  }

  lemma CopiesJoin(s: Memory, s': Memory, s'': Memory, a: Space, t: Space, lo: nat, mid: nat, hi: nat)
    requires Tree(s) && Tree(s') && Tree(s'') && a != t && lo <= mid <= hi
    requires CopiesRange(s, s', a, t, lo, mid) && CopiesRange(s', s'', a, t, mid, hi)
    ensures CopiesRange(s, s'', a, t, lo, hi)
  {
    ExtendsTransitive(s, s', s'', a);
    forall v: nat | InUser(v)
      ensures PageCopied(s, s'', a, t, v, lo <= v < hi)
    {
      OtherLeavesKept(s, s', a, t, v);
      assert PageCopied(s, s', a, t, v, lo <= v < mid);
      assert PageCopied(s', s'', a, t, v, mid <= v < hi);
    }
  }

  /** A range in which `t` has no page needs no copying. */
  lemma CopiesNothing(s: Memory, a: Space, t: Space, lo: nat, hi: nat)
    requires forall v: nat :: lo <= v < hi && InUser(v) ==> !Leaf(s, t, v).present
    ensures CopiesRange(s, s, a, t, lo, hi)
  {}

  lemma CopyLeaf(s: Memory, p: Pos, q: Pos, i: nat)
    requires Tree(s) && p in s.node && q in s.node && p.level == 1 && q.level == 1 && p.k == q.k && p.space != q.space
    requires i < ENTRIES && !Slot(s, p, i).present && Slot(s, q, i).present && s.node[p] in s.mem
    ensures var s' := SetLeaf(s, p, i, Slot(s, q, i).(writable := false));
      && Tree(s') && CopiesRange(s, s', p.space, q.space, Child(p, i).k, Child(p, i).k + 1)
      && (forall j :: 0 <= j < ENTRIES && j != i ==> Slot(s', p, j) == Slot(s, p, j))
  {
    assert SlotOk(s, p, i) && SlotOk(s, q, i);
    SetLeafTree(s, p, i, Slot(s, q, i).(writable := false));
    var s' := SetLeaf(s, p, i, Slot(s, q, i).(writable := false));
    forall v: nat | InUser(v)
      ensures PageCopied(s, s', p.space, q.space, v, Child(p, i).k <= v < Child(p, i).k + 1)
    {
      assert v == Child(p, i).k ==> v / 512 == p.k && v % 512 == i;
    }
  }

  lemma AddTableCopies(s: Memory, p: Pos, i: nat, f: nat, e: Word, t: Space)
    requires CanAddChild(s, p, i, f, e, ZeroPage()) && p.level > 1
    ensures var s' := AddChildTo(s, p, i, f, e, ZeroPage());
      Tree(s') && EmptyFrom(s', Child(p, i), 0) && Child(p, i) in s'.node
      && Extends(s, s', p.space) && (forall v: nat :: InUser(v) ==> PageCopied(s, s', p.space, t, v, false))
      && (forall q :: q in s'.node && q !in s.node ==> q == Child(p, i))
      && (forall j :: 0 <= j < ENTRIES && j != i ==> Slot(s', p, j) == Slot(s, p, j))
  {
    AddChildSlots(s, p, i, f, e, ZeroPage());
    AddChildTree(s, p, i, f, e, ZeroPage());
    AddChildExtends(s, p, i, f, e, ZeroPage());
  }

  /** A new table followed by the copy of the entries below it. */
  lemma CopiesChild(s: Memory, s': Memory, s'': Memory, p: Pos, i: nat, t: Space)
    requires Tree(s) && Tree(s') && Tree(s'') && 1 < p.level <= 4 && i < ENTRIES && p.space != t
    requires Extends(s, s', p.space) && (forall v: nat :: InUser(v) ==> PageCopied(s, s', p.space, t, v, false))
    requires forall q :: q in s'.node && q !in s.node ==> q == Child(p, i)
    requires CopiesRange(s', s'', p.space, t, First(p.level - 1, Child(p, i).k), First(p.level - 1, Child(p, i).k + 1))
    ensures CopiesRange(s, s'', p.space, t, First(p.level - 1, Child(p, i).k), First(p.level - 1, Child(p, i).k + 1))
  {
    var lo, hi := First(p.level - 1, Child(p, i).k), First(p.level - 1, Child(p, i).k + 1);
    ExtendsTransitive(s, s', s'', p.space);
    Spans(p.level - 1, Child(p, i).k);
    forall v: nat | InUser(v)
      ensures PageCopied(s, s'', p.space, t, v, lo <= v < hi)
    {
      OtherLeavesKept(s, s', p.space, t, v);
      assert PageCopied(s, s', p.space, t, v, false);
      assert PageCopied(s', s'', p.space, t, v, lo <= v < hi);
    }
  }

  /** Copying below entry `i` leaves the later entries of the table empty. */
  lemma EmptyKept(s: Memory, s': Memory, p: Pos, i: nat, t: Space)
    requires Tree(s) && Tree(s') && 1 < p.level <= 4 && FirstIndex(p.level) <= i < ENTRIES && p in s.node
    requires p in s'.node
    requires EmptyFrom(s, p, i + 1)
    requires CopiesRange(s, s', p.space, t, First(p.level - 1, Child(p, i).k), First(p.level - 1, Child(p, i).k + 1))
    ensures EmptyFrom(s', p, i + 1)
  {
    forall j | i + 1 <= j < ENTRIES
      ensures !Slot(s', p, j).present
    {
      assert SlotOk(s, p, j) && SlotOk(s', p, j);
      FirstMonotone(p.level - 1, Child(p, i).k + 1, Child(p, j).k);
    }
  }

  /** Nothing is mapped below an entry that is not present. */
  lemma NothingBelow(s: Memory, q: Pos, i: nat)
    requires Tree(s) && q in s.node && 1 <= q.level <= 4 && FirstIndex(q.level) <= i < ENTRIES && !Slot(s, q, i).present
    ensures forall v: nat :: First(q.level - 1, Child(q, i).k) <= v < First(q.level - 1, Child(q, i).k + 1) && InUser(v) ==>
      !Leaf(s, q.space, v).present
  {
    assert SlotOk(s, q, i) && NodeOk(s, q);
    forall v: nat | First(q.level - 1, Child(q, i).k) <= v < First(q.level - 1, Child(q, i).k + 1) && InUser(v)
      ensures !Leaf(s, q.space, v).present
    {
      Spans(q.level - 1, Child(q, i).k);
      AncestorFirst(q.level - 1, v, Child(q, i).k);
      if q.level > 1 {
        NoNodeNoLeaf(s, q.space, q.level - 1, v);
      } else {
        assert v == Child(q, i).k && v / 512 == q.k && v % 512 == i;
      }
    }
  }

  lemma CopiesKeep(s: Memory, s': Memory, a: Space, t: Space, lo: nat, hi: nat)
    requires CopiesRange(s, s', a, t, lo, hi)
    ensures Extends(s, s', a)
  {}

  lemma ExtendsKeeps(s: Memory, s': Memory, a: Space, p: Pos)
    requires Extends(s, s', a) && p in s.node
    ensures p in s'.node && s'.node[p] == s.node[p]
  {}

  lemma TableInMemory(s: Memory, p: Pos)
    requires Tree(s) && p in s.node
    ensures s.node[p] in s.mem
  {
    assert NodeOk(s, p);
  }

  lemma PresentChild(s: Memory, p: Pos, i: nat)
    requires Tree(s) && p in s.node && 1 < p.level && FirstIndex(p.level) <= i < ENTRIES && Slot(s, p, i).present
    ensures Child(p, i) in s.node && s.node[Child(p, i)] == Slot(s, p, i).addr
  {
    assert SlotOk(s, p, i);
  }

  lemma EmptyLater(s: Memory, p: Pos, i: nat)
    requires EmptyFrom(s, p, i)
    ensures EmptyFrom(s, p, i + 1)
  {}

  lemma EntryRange(p: Pos, i: nat)
    requires 1 <= p.level <= 4
    ensures First(p.level - 1, p.k * ENTRIES + i) <= First(p.level - 1, p.k * ENTRIES + i + 1)
    ensures p.level == 1 ==> First(p.level - 1, p.k * ENTRIES + i) == p.k * ENTRIES + i
    ensures p.level == 1 ==> First(p.level - 1, p.k * ENTRIES + i + 1) == p.k * ENTRIES + i + 1
  {}
}
