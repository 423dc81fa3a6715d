/** What tearing page tables down does to memory: the effect of `CleanPageMap` (kernel/paging.cpp). */
module PageClean {
  import opened PageTables
  import opened PageGrowth
  import opened PageCopy

  /** Entry `i` of the table at `p` is cleared, and the frame it owned, if any, loses its role. */
  ghost function RemoveChild(s: Memory, p: Pos, i: nat): Memory
    requires p in s.node && s.node[p] in s.mem && i < ENTRIES && p.level > 0
  {
    var t, c := s.node[p], Child(p, i);
    s.(mem := s.mem[t := s.mem[t][i := NULL_WORD]],
       node := if c in s.node then s.node - {c} else s.node,
       role := if c in s.node then s.role - {s.node[c]} else s.role)
  }

  ghost predicate Removed(p: Pos, a: Space, level: nat, lo: nat, hi: nat) {
    p.space == a && p.level < level && lo <= First(p.level, p.k) < hi
  }

  /** Exactly the places of `a` below `level` within the pages `[lo, hi)` are gone; the other pages keep
      their entry, and no frame changed except tables of `a`. */
  ghost predicate Cleans(s: Memory, s': Memory, a: Space, level: nat, lo: nat, hi: nat) {
    && s'.base == s.base && s'.mem.Keys == s.mem.Keys
    && (forall p :: p in s'.node <==> p in s.node && !Removed(p, a, level, lo, hi))
    && (forall p :: p in s'.node ==> s'.node[p] == s.node[p])
    && (forall f :: f in s.mem && !IsTableOf(s, a, f) ==> s'.mem[f] == s.mem[f])
    && (forall i :: 0 <= i < USER_INDEX ==> Slot(s', Root(a), i) == Slot(s, Root(a), i))
    && (forall v: nat :: InUser(v) ==> PageCleaned(s, s', a, v, lo <= v < hi))
  }

  ghost predicate PageCleaned(s: Memory, s': Memory, a: Space, v: nat, covered: bool) {
    if covered then !Leaf(s', a, v).present else Leaf(s', a, v) == Leaf(s, a, v)
  }

  /** A page of the space is writable exactly when the space owns its frame. */
  ghost predicate LeavesOwned(s: Memory, a: Space) {
    forall v: nat :: InUser(v) && Leaf(s, a, v).present ==> (Leaf(s, a, v).writable <==> Pos(a, 0, v) in s.node)
  }

  ghost predicate CanRemove(s: Memory, p: Pos, i: nat) {
    && Tree(s) && p in s.node && s.node[p] in s.mem && 1 <= p.level <= 4 && FirstIndex(p.level) <= i < ENTRIES
    && (p.level > 1 && Child(p, i) in s.node ==> EmptyFrom(s, Child(p, i), 0))
  }

  lemma RemoveChildSlots(s: Memory, p: Pos, i: nat)
    requires CanRemove(s, p, i)
    ensures var s' := RemoveChild(s, p, i);
      && p != Child(p, i)
      && (forall q :: q in s'.node <==> q in s.node && q != Child(p, i))
      && (forall q, j: nat :: q in s'.node && j < ENTRIES ==> Slot(s', q, j) == if q == p && j == i then NULL_WORD else Slot(s, q, j))
  {
    var s' := RemoveChild(s, p, i);
    assert NodeOk(s, p);
    forall q, j: nat | q in s'.node && j < ENTRIES
      ensures Slot(s', q, j) == if q == p && j == i then NULL_WORD else Slot(s, q, j)
    {
      assert NodeOk(s, q);
    }
  }

  lemma ChildOfParent(q: Pos, c: Pos)
    requires c.level > 0
    ensures Parent(q) == c ==> q == Child(c, q.k % ENTRIES)
  {}

  lemma NoChildren(s: Memory, p: Pos, i: nat, q: Pos)
    requires CanRemove(s, p, i) && q in s.node && Child(p, i) in s.node
    ensures Parent(q) != Child(p, i)
  {
    var c := Child(p, i);
    if c.level > 0 {
      ChildOfParent(q, c);
      assert SlotOk(s, c, q.k % ENTRIES);
    } else {
      assert Parent(q).level > 0;
    }
  }

  lemma RemoveChildTree(s: Memory, p: Pos, i: nat)
    requires CanRemove(s, p, i)
    ensures Tree(RemoveChild(s, p, i))
  {
    var s', c := RemoveChild(s, p, i), Child(p, i);
    RemoveChildSlots(s, p, i);
    ParentOfChild(p, i);
    assert c in s.node ==> NodeOk(s, c);
    forall q | q in s'.node
      ensures NodeOk(s', q)
    {
      assert NodeOk(s, q);
      if c in s.node {
        NoChildren(s, p, i, q);
      }
    }
    forall q, j: nat | q in s'.node && q.level > 0 && FirstIndex(q.level) <= j < ENTRIES
      ensures SlotOk(s', q, j)
    {
      assert SlotOk(s, q, j);
    }
  }

  lemma RemoveLeafCleans(s: Memory, p: Pos, i: nat)
    requires CanRemove(s, p, i) && p.level == 1
    ensures Cleans(s, RemoveChild(s, p, i), p.space, 1, Child(p, i).k, Child(p, i).k + 1)
  {
    var s', c := RemoveChild(s, p, i), Child(p, i);
    RemoveChildSlots(s, p, i);
    assert NodeOk(s, p);
    forall v: nat | InUser(v)
      ensures PageCleaned(s, s', p.space, v, v == c.k)
    {
      assert v == c.k ==> v / 512 == p.k && v % 512 == i;
    }
  }

  /** After everything below entry `i` is cleaned, removing the entry completes its range. */
  lemma RemoveTableCleans(s: Memory, s': Memory, p: Pos, i: nat)
    requires Tree(s) && Tree(s') && p in s.node && 1 < p.level <= 4 && FirstIndex(p.level) <= i < ENTRIES
    requires Child(p, i) in s.node
    requires Cleans(s, s', p.space, p.level - 1, First(p.level - 1, Child(p, i).k), First(p.level - 1, Child(p, i).k + 1))
    ensures CanRemove(s', p, i) && Child(p, i) in s'.node && Slot(s', p, i).present && Slot(s', p, i).writable
    ensures Cleans(s, RemoveChild(s', p, i), p.space, p.level, First(p.level - 1, Child(p, i).k), First(p.level - 1, Child(p, i).k + 1))
  {
    CleanedIsEmpty(s, s', p, i);
    RemovedWithTable(Child(p, i), First(p.level - 1, Child(p, i).k), First(p.level - 1, Child(p, i).k + 1));
    RemoveTableLeaves(s, s', p, i);
    RemoveChildSlots(s', p, i);
    hide First;
    assert NodeOk(s, p) && SlotOk(s', p, i);
  }

  lemma RemovedWithTable(c: Pos, lo: nat, hi: nat)
    requires c.level < 4 && lo == First(c.level, c.k) && hi == First(c.level, c.k + 1)
    ensures forall q: Pos :: Removed(q, c.space, c.level + 1, lo, hi) <==> q == c || Removed(q, c.space, c.level, lo, hi)
  {
    forall q: Pos
      ensures Removed(q, c.space, c.level + 1, lo, hi) <==> q == c || Removed(q, c.space, c.level, lo, hi)
    {
      FirstMonotone(c.level, c.k, c.k + 1);
      FirstMonotone(c.level, c.k, q.k);
      FirstMonotone(c.level, q.k, c.k + 1);
      FirstMonotone(c.level, c.k + 1, q.k);
    }
  }

  lemma RemoveTableLeaves(s: Memory, s': Memory, p: Pos, i: nat)
    requires CanRemove(s', p, i) && 1 < p.level
    requires Cleans(s, s', p.space, p.level - 1, First(p.level - 1, Child(p, i).k), First(p.level - 1, Child(p, i).k + 1))
    ensures forall v: nat :: InUser(v) ==>
      PageCleaned(s, RemoveChild(s', p, i), p.space, v, First(p.level - 1, Child(p, i).k) <= v < First(p.level - 1, Child(p, i).k + 1))
  {
    var c, s'' := Child(p, i), RemoveChild(s', p, i);
    RemoveChildSlots(s', p, i);
    forall v: nat | InUser(v)
      ensures PageCleaned(s, s'', p.space, v, First(c.level, c.k) <= v < First(c.level, c.k + 1))
    {
      assert PageCleaned(s, s', p.space, v, First(c.level, c.k) <= v < First(c.level, c.k + 1));
      if c.level == 1 {
        AncestorFirst(1, v, c.k);
        Spans(1, c.k);
      }
    }
  }

  /** What lies below a table is in its range. */
  lemma ChildRange(c: Pos, j: nat)
    requires 1 <= c.level <= 3 && j < ENTRIES
    ensures First(c.level, c.k) <= First(c.level - 1, Child(c, j).k) < First(c.level, c.k + 1)
    ensures Child(c, j).k / ENTRIES == c.k && Child(c, j).k % ENTRIES == j
  {
    var d := Child(c, j);
    Spans(c.level, c.k);
    FirstMonotone(d.level, c.k * ENTRIES, d.k);
    FirstMonotone(d.level, d.k, c.k * ENTRIES + ENTRIES);
  }

  lemma CleanedIsEmpty(s: Memory, s': Memory, p: Pos, i: nat)
    requires Tree(s) && Tree(s') && p in s.node && 1 < p.level <= 4 && FirstIndex(p.level) <= i < ENTRIES
    requires Child(p, i) in s.node
    requires Cleans(s, s', p.space, p.level - 1, First(p.level - 1, Child(p, i).k), First(p.level - 1, Child(p, i).k + 1))
    ensures p in s'.node && s'.node[p] in s'.mem && Child(p, i) in s'.node && EmptyFrom(s', Child(p, i), 0)
  {
    var c := Child(p, i);
    assert NodeOk(s, p) && NodeOk(s, c);
    assert c in s'.node && p in s'.node;
    forall j: nat | j < ENTRIES
      ensures !Slot(s', c, j).present
    {
      assert SlotOk(s', c, j);
      ChildRange(c, j);
      if c.level == 1 {
        ChildInUser(c, j);
        assert PageCleaned(s, s', p.space, Child(c, j).k, true);
      }
    }
  }

  lemma CleansJoin(s: Memory, s': Memory, s'': Memory, a: Space, level: nat, lo: nat, mid: nat, hi: nat)
    requires Tree(s) && Tree(s') && lo <= mid <= hi
    requires Cleans(s, s', a, level, lo, mid) && Cleans(s', s'', a, level, mid, hi)
    ensures Cleans(s, s'', a, level, lo, hi)
  {
    forall f | f in s.mem && !IsTableOf(s, a, f)
      ensures s''.mem[f] == s.mem[f]
    {
      if IsTableOf(s', a, f) {
        assert NodeOk(s, s'.role[f]);
      }
    }
    forall v: nat | InUser(v)
      ensures PageCleaned(s, s'', a, v, lo <= v < hi)
    {
      assert PageCleaned(s, s', a, v, lo <= v < mid);
      assert PageCleaned(s', s'', a, v, mid <= v < hi);
    }
  }

  lemma CleansKeepsOwned(s: Memory, s': Memory, a: Space, level: nat, lo: nat, hi: nat)
    requires LeavesOwned(s, a) && Cleans(s, s', a, level, lo, hi)
    ensures LeavesOwned(s', a)
  {
    forall v: nat | InUser(v) && Leaf(s', a, v).present
      ensures Leaf(s', a, v).writable <==> Pos(a, 0, v) in s'.node
    {
      assert PageCleaned(s, s', a, v, lo <= v < hi);
    }
  }

  lemma CleansNothing(s: Memory, a: Space, level: nat, lo: nat)
    ensures Cleans(s, s, a, level, lo, lo)
  {}

  lemma CleansKeeps(s: Memory, s': Memory, p: Pos, level: nat, lo: nat, hi: nat)
    requires Cleans(s, s', p.space, level, lo, hi) && p in s.node && p.level >= level
    ensures p in s'.node && s'.node[p] == s.node[p]
  {}

  /** A place lies below its ancestor's entry: nothing exists in the range of an absent entry. */
  lemma {:induction false} RangeEmpty(s: Memory, p: Pos, i: nat, q: Pos)
    requires Tree(s) && p in s.node && 1 <= p.level <= 4 && FirstIndex(p.level) <= i < ENTRIES && !Slot(s, p, i).present
    requires q in s.node
    ensures !Removed(q, p.space, p.level, First(p.level - 1, Child(p, i).k), First(p.level - 1, Child(p, i).k + 1))
    decreases p.level - q.level
  {
    var c := Child(p, i);
    assert NodeOk(s, q) && SlotOk(s, p, i);
    if q.space == p.space && q.level < p.level {
      if q.level == c.level {
        FirstMonotone(c.level, c.k, q.k);
        FirstMonotone(c.level, c.k + 1, q.k);
        FirstMonotone(c.level, q.k, c.k);
      } else {
        RangeEmpty(s, p, i, Parent(q));
        ParentRange(q.level, q.k, c.level, c.k);
        ParentRange(q.level, q.k, c.level, c.k + 1);
      }
    }
  }

  /** Going to the parent does not leave the range of a higher table. */
  lemma ParentRange(level: nat, k: nat, high: nat, j: nat)
    requires level < high <= 4
    ensures First(high, j) <= First(level, k) <==> First(high, j) <= First(level + 1, k / ENTRIES)
  {
    FirstAsMultiple(level + 1, high, j);
    FirstMonotone(level + 1, MultipleOf(level + 1, high, j), k / ENTRIES);
    Spans(level + 1, MultipleOf(level + 1, high, j));
    FirstMonotone(level, MultipleOf(level + 1, high, j) * ENTRIES, k);
  }

  /** The number at `level` of the first table below table `j` of the level `high`. */
  function MultipleOf(level: nat, high: nat, j: nat): nat
    decreases high - level
  {
    if level >= high then j else MultipleOf(level + 1, high, j) * ENTRIES
  }

  lemma {:induction false} FirstAsMultiple(level: nat, high: nat, j: nat)
    requires level <= high <= 4
    ensures First(high, j) == First(level, MultipleOf(level, high, j))
    decreases high - level
  {
    if level < high {
      FirstAsMultiple(level + 1, high, j);
      Spans(level + 1, MultipleOf(level + 1, high, j));
    }
  }

  lemma AbsentCleans(s: Memory, p: Pos, i: nat)
    requires Tree(s) && p in s.node && 1 <= p.level <= 4 && FirstIndex(p.level) <= i < ENTRIES && !Slot(s, p, i).present
    ensures Cleans(s, s, p.space, p.level, First(p.level - 1, Child(p, i).k), First(p.level - 1, Child(p, i).k + 1))
  {
    forall q | q in s.node
      ensures !Removed(q, p.space, p.level, First(p.level - 1, Child(p, i).k), First(p.level - 1, Child(p, i).k + 1))
    {
      RangeEmpty(s, p, i, q);
    }
    NothingBelow(s, p, i);
  }

  lemma LeafReady(s: Memory, p: Pos, i: nat)
    requires Tree(s) && LeavesOwned(s, p.space) && p in s.node && p.level == 1 && i < ENTRIES && Slot(s, p, i).present
    ensures CanRemove(s, p, i) && (Slot(s, p, i).writable <==> Child(p, i) in s.node)
  {
    assert NodeOk(s, p);
    ChildInUser(p, i);
    var v := Child(p, i).k;
    assert v / 512 == p.k && v % 512 == i && InUser(v);
  }

  lemma RemoveReady(s: Memory, p: Pos, i: nat)
    requires CanRemove(s, p, i)
    ensures p in s.node && s.node[p] in s.mem && i < ENTRIES && p.level > 0
    ensures s.role.Keys !! s.base
    ensures Child(p, i) in s.node ==>
      Slot(s, p, i).addr == s.node[Child(p, i)] && s.node[Child(p, i)] in s.role && s.node[Child(p, i)] in s.mem
  {
    assert SlotOk(s, p, i);
    assert Child(p, i) in s.node ==> NodeOk(s, Child(p, i));
  }
}
