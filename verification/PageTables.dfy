/** Four-level page tables stored in physical memory (kernel/paging.hpp, kernel/paging.cpp).
    A frame holds 512 words; a word read by the page walker is a page-map entry. */
module PageTables {
  const ENTRIES: nat := 512
  const USER_INDEX: nat := 256
  const USER_LO: nat := 256 * 512 * 512 * 512
  const USER_HI: nat := 512 * 512 * 512 * 512

  /** A 64-bit word of a frame with the fields of `PageMapEntry`; `addr` is a frame number and `attr` the
      bits the kernel never touches. */
  datatype Word = Word(present: bool, writable: bool, user: bool, attr: nat, addr: nat)

  const NULL_WORD := Word(false, false, false, 0, 0)

  type Page = p: seq<Word> | |p| == ENTRIES witness seq(ENTRIES, _ => NULL_WORD)

  function ZeroPage(): Page { seq(ENTRIES, _ => NULL_WORD) }

  /** The parts of a virtual address; the sixteen sign-extension bits are not kept. */
  datatype LinearAddress = LinearAddress(pml4: nat, pdp: nat, dir: nat, page: nat, offset: nat) {
    ghost predicate Valid() {
      pml4 < ENTRIES && pdp < ENTRIES && dir < ENTRIES && page < ENTRIES && offset < 4096
    }

    function Part(level: nat): nat {
      match level
      case 0 => offset
      case 1 => page
      case 2 => dir
      case 3 => pdp
      case 4 => pml4
      case _ => 0
    }

    function SetPart(level: nat, value: nat): LinearAddress {
      match level
      case 0 => this.(offset := value)
      case 1 => this.(page := value)
      case 2 => this.(dir := value)
      case 3 => this.(pdp := value)
      case 4 => this.(pml4 := value)
      case _ => this
    }

    function PageNumber(): nat {
      ((pml4 * 512 + pdp) * 512 + dir) * 512 + page
    }
  }

  /** The address whose low 48 bits are page `v` and byte `offset` of it. */
  function AddressOf(v: nat, offset: nat): LinearAddress {
    LinearAddress(Index(v, 4), Index(v, 3), Index(v, 2), Index(v, 1), offset)
  }

  /** An address space: the template kept for an application file, or the space of a running task. */
  datatype Space = Template(file: nat) | App(task: nat)

  /** A place in the tree of an address space: the table at `level` (4 is the root) with number `k` among
      the tables of that level; level 0 is a data page, and `k` its page number. */
  datatype Pos = Pos(space: Space, level: nat, k: nat)

  function Child(p: Pos, i: nat): Pos
    requires p.level > 0
  {
    Pos(p.space, p.level - 1, p.k * ENTRIES + i)
  }

  function Parent(p: Pos): Pos {
    Pos(p.space, p.level + 1, p.k / ENTRIES)
  }

  function Root(space: Space): Pos {
    Pos(space, 4, 0)
  }

  /** The number of pages below a table entry at `level + 1`, that is, below a table at `level`. */
  function Span(level: nat): nat {
    match level
    case 0 => 1
    case 1 => 512
    case 2 => 512 * 512
    case 3 => 512 * 512 * 512
    case _ => 512 * 512 * 512 * 512
  }

  /** The first page below table number `k` of `level`. */
  function First(level: nat, k: nat): nat {
    match level
    case 0 => k
    case 1 => k * 512
    case 2 => k * (512 * 512)
    case 3 => k * (512 * 512 * 512)
    case _ => k * (512 * 512 * 512 * 512)
  }

  /** The index at which the walk for page `v` reads a table at `level`. */
  function Index(v: nat, level: nat): (i: nat)
    ensures i < ENTRIES
  {
    match level
    case 1 => v % 512
    case 2 => v / 512 % 512
    case 3 => v / 512 / 512 % 512
    case _ => v / 512 / 512 / 512 % 512
  }

  /** The number of the table at `level` through which the walk for page `v` passes. */
  function Ancestor(v: nat, level: nat): nat {
    match level
    case 0 => v
    case 1 => v / 512
    case 2 => v / 512 / 512
    case 3 => v / 512 / 512 / 512
    case _ => v / 512 / 512 / 512 / 512
  }

  /** Physical memory with its bookkeeping: which frame holds which place of which tree, the inverse, and
      the allocated frames that belong to no address space. */
  datatype Memory = Memory(mem: map<nat, Page>, node: map<Pos, nat>, role: map<nat, Pos>, base: set<nat>)

  ghost function Alloc(s: Memory): set<nat> {
    s.base + s.role.Keys
  }

  /** Entry `i` of the table at `p`. */
  ghost function Slot(s: Memory, p: Pos, i: nat): Word {
    if p in s.node && s.node[p] in s.mem && i < ENTRIES then s.mem[s.node[p]][i] else NULL_WORD
  }

  /** The last-level entry for page `v`. */
  ghost function Leaf(s: Memory, space: Space, v: nat): Word {
    Slot(s, Pos(space, 1, v / 512), v % 512)
  }

  ghost function PageAt(s: Memory, space: Space, v: nat): Page {
    if Leaf(s, space, v).addr in s.mem then s.mem[Leaf(s, space, v).addr] else ZeroPage()
  }

  ghost predicate InUser(v: nat) {
    USER_LO <= v < USER_HI
  }

  ghost predicate NodeOk(s: Memory, p: Pos)
    requires p in s.node
  {
    && p.level <= 4
    && s.node[p] in s.mem
    && s.node[p] in s.role && s.role[s.node[p]] == p
    && (p.level == 4 ==> p.k == 0)
    && (p.level < 4 ==> Parent(p) in s.node && InUser(First(p.level, p.k)))
  }

  ghost predicate SlotOk(s: Memory, p: Pos, i: nat)
    requires p.level > 0
  {
    var e, c := Slot(s, p, i), Child(p, i);
    if p.level >= 2 then
      && (e.present <==> c in s.node)
      && (e.present ==> e.addr == s.node[c] && e.writable && e.user)
    else
      && (c in s.node ==> e.present && e.addr == s.node[c])
      && (e.present ==> e.user && e.addr in s.mem)
  }

  /** The first entry of a table at `level` that belongs to the user half. */
  function FirstIndex(level: nat): nat {
    if level == 4 then USER_INDEX else 0
  }

  /** The user halves of all address spaces are trees over disjoint frames. */
  ghost predicate Tree(s: Memory) {
    && (forall p {:trigger NodeOk(s, p)} :: p in s.node ==> NodeOk(s, p))
    && (forall f :: f in s.role ==> s.role[f] in s.node && s.node[s.role[f]] == f)
    && s.role.Keys !! s.base
    && (forall p, i {:trigger SlotOk(s, p, i)} :: p in s.node && p.level > 0 && FirstIndex(p.level) <= i < ENTRIES ==> SlotOk(s, p, i))
  }

  // ----- page arithmetic

  lemma Spans(level: nat, k: nat)
    requires level <= 4
    ensures First(level, k + 1) == First(level, k) + Span(level)
    ensures level > 0 ==> First(level, k) == First(level - 1, k * ENTRIES)
    ensures level > 0 ==> First(level, k + 1) == First(level - 1, k * ENTRIES + ENTRIES)
  {}

  lemma FirstMonotone(level: nat, j: nat, k: nat)
    requires level <= 4
    ensures j <= k <==> First(level, j) <= First(level, k)
    ensures j < k <==> First(level, j) + Span(level) <= First(level, k)
  {}

  lemma {:induction false} AncestorAtLeast(level: nat, v: nat, j: nat)
    requires level <= 4
    ensures Ancestor(v, level) >= j <==> v >= First(level, j)
  {
    if level > 0 {
      AncestorAtLeast(level - 1, v, j * ENTRIES);
      assert Ancestor(v, level) == Ancestor(v, level - 1) / 512;
    }
  }

  lemma AncestorFirst(level: nat, v: nat, k: nat)
    requires level <= 4
    ensures Ancestor(v, level) == k <==> First(level, k) <= v < First(level, k) + Span(level)
  {
    AncestorAtLeast(level, v, k);
    AncestorAtLeast(level, v, k + 1);
    Spans(level, k);
  }

  lemma AncestorStep(level: nat, v: nat)
    requires level < 4
    ensures Ancestor(v, level) == Ancestor(v, level + 1) * ENTRIES + Index(v, level + 1)
  {}

  // ----- the page walk

  /** What the MMU finds for a page: no translation, or a frame with the rights granted at every level. */
  datatype Translation = NotPresent | Mapped(frame: nat, writable: bool, user: bool)

  function Walk(mem: map<nat, Page>, table: nat, level: nat, v: nat, writable: bool, user: bool): Translation
    decreases level
  {
    if level == 0 then
      Mapped(table, writable, user)
    else if table !in mem || !mem[table][Index(v, level)].present then
      NotPresent
    else
      var e := mem[table][Index(v, level)];
      Walk(mem, e.addr, level - 1, v, writable && e.writable, user && e.user)
  }

  /** The walk from the root of a space reads exactly the last-level entry of the page. */
  lemma {:induction false} WalkIsLeaf(s: Memory, space: Space, level: nat, v: nat)
    requires Tree(s) && InUser(v) && 1 <= level <= 4
    requires Pos(space, level, Ancestor(v, level)) in s.node
    ensures var e := Leaf(s, space, v);
      Walk(s.mem, s.node[Pos(space, level, Ancestor(v, level))], level, v, true, true)
        == if e.present then Mapped(e.addr, e.writable, e.user) else NotPresent
  {
    var p := Pos(space, level, Ancestor(v, level));
    var i := Index(v, level);
    AncestorStep(level - 1, v);
    assert NodeOk(s, p);
    assert FirstIndex(level) <= i;
    assert SlotOk(s, p, i);
    assert Child(p, i) == Pos(space, level - 1, Ancestor(v, level - 1));
    if level > 1 {
      if Slot(s, p, i).present {
        WalkIsLeaf(s, space, level - 1, v);
      } else {
        NoNodeNoLeaf(s, space, level - 1, v);
      }
    }
  }

  lemma {:induction false} NoNodeNoLeaf(s: Memory, space: Space, level: nat, v: nat)
    requires Tree(s) && 1 <= level <= 4
    requires Pos(space, level, Ancestor(v, level)) !in s.node
    ensures Pos(space, 1, v / 512) !in s.node && !Leaf(s, space, v).present
    decreases level
  {
    if level > 1 {
      var c := Pos(space, level - 1, Ancestor(v, level - 1));
      assert Parent(c) == Pos(space, level, Ancestor(v, level));
      assert c in s.node ==> NodeOk(s, c);
      NoNodeNoLeaf(s, space, level - 1, v);
    }
  }

  lemma PartIsIndex(a: LinearAddress, level: nat)
    requires a.Valid() && 1 <= level <= 4
    ensures a.Part(level) == Index(a.PageNumber(), level)
    ensures a.PageNumber() < USER_HI
  {
    var v := a.PageNumber();
    assert v / 512 == (a.pml4 * 512 + a.pdp) * 512 + a.dir;
    assert v / 512 / 512 == a.pml4 * 512 + a.pdp;
    assert v / 512 / 512 / 512 == a.pml4;
  }

  /** Parts `level` down to 1 become zero. */
  function ClearParts(a: LinearAddress, level: nat): LinearAddress
    decreases level
  {
    if level == 0 then a else ClearParts(a.SetPart(level, 0), level - 1)
  }

  /** Stepping entry `i` at `level` and clearing the lower parts gives the first page below the next entry. */
  lemma NextEntry(a: LinearAddress, level: nat, i: nat)
    requires a.Valid() && 1 <= level <= 4 && i == a.Part(level) && i + 1 < ENTRIES
    ensures var b := ClearParts(a.SetPart(level, i + 1), level - 1);
      && b.Valid()
      && b.PageNumber() == First(level - 1, Ancestor(a.PageNumber(), level - 1) + 1)
  {
    var v := a.PageNumber();
    assert v / 512 == (a.pml4 * 512 + a.pdp) * 512 + a.dir;
    assert v / 512 / 512 == a.pml4 * 512 + a.pdp;
    assert v / 512 / 512 / 512 == a.pml4;
    var b := a.SetPart(level, i + 1);
    if level == 2 {
      assert ClearParts(b, 1) == b.SetPart(1, 0);
    } else if level == 3 {
      assert ClearParts(b, 2) == ClearParts(b.SetPart(2, 0), 1) == b.SetPart(2, 0).SetPart(1, 0);
    } else if level == 4 {
      assert ClearParts(b, 3) == ClearParts(b.SetPart(3, 0), 2) == ClearParts(b.SetPart(3, 0).SetPart(2, 0), 1)
        == b.SetPart(3, 0).SetPart(2, 0).SetPart(1, 0);
    }
  }

  lemma EntryArithmetic(level: nat, k: nat, v: nat)
    requires 1 <= level <= 4 && (if level == 4 then k == 0 else InUser(First(level, k)))
    requires InUser(v) && First(level, k) <= v < First(level, k) + Span(level)
    ensures var c := k * ENTRIES + Index(v, level);
      && FirstIndex(level) <= Index(v, level)
      && Ancestor(v, level - 1) == c
      && First(level - 1, c) <= v < First(level - 1, c + 1)
      && First(level - 1, c + 1) == First(level - 1, c) + Span(level - 1)
      && First(level - 1, c + 1) <= First(level, k) + Span(level) <= USER_HI
      && (Index(v, level) == ENTRIES - 1 <==> First(level - 1, c + 1) == First(level, k) + Span(level))
      && (level == 1 ==> c == v && First(level - 1, c + 1) == v + 1)
  {
    hide First, Span, Ancestor;
    var c := k * ENTRIES + Index(v, level);
    AncestorFirst(level, v, k);
    AncestorStep(level - 1, v);
    AncestorFirst(level - 1, v, c);
    Spans(level - 1, c);
    Spans(level, k);
    FirstMonotone(level - 1, c + 1, k * ENTRIES + ENTRIES);
    FirstMonotone(level - 1, k * ENTRIES + ENTRIES, c + 1);
    EndInUser(level, k);
    UserEntry(v, level);
    if level == 1 {
      AncestorFirst(0, v, v);
      FirstOfPage(v);
      FirstOfPage(v + 1);
    }
  }

  lemma FirstOfPage(v: nat)
    ensures First(0, v) == v && Ancestor(v, 0) == v
  {}

  lemma EndInUser(level: nat, k: nat)
    requires 1 <= level <= 4 && (if level == 4 then k == 0 else InUser(First(level, k)))
    ensures First(level, k) + Span(level) <= USER_HI
  {}

  lemma UserEntry(v: nat, level: nat)
    requires InUser(v)
    ensures FirstIndex(level) <= Index(v, level)
  {}

  /** The entry read for the page of `a` in the table at `p` leads to the child that covers the page. */
  lemma EntryOfPage(s: Memory, p: Pos, a: LinearAddress)
    requires Tree(s) && p in s.node && 1 <= p.level <= 4
    requires a.Valid() && InUser(a.PageNumber())
    requires First(p.level, p.k) <= a.PageNumber() < First(p.level, p.k) + Span(p.level)
    ensures var v, i := a.PageNumber(), a.Part(p.level);
      && FirstIndex(p.level) <= i < ENTRIES
      && Ancestor(v, p.level - 1) == Child(p, i).k
      && First(p.level - 1, Child(p, i).k) <= v < First(p.level - 1, Child(p, i).k + 1)
      && First(p.level - 1, Child(p, i).k + 1) == First(p.level - 1, Child(p, i).k) + Span(p.level - 1)
      && First(p.level - 1, Child(p, i).k + 1) <= First(p.level, p.k) + Span(p.level) <= USER_HI
      && (i == ENTRIES - 1 <==> First(p.level - 1, Child(p, i).k + 1) == First(p.level, p.k) + Span(p.level))
      && (p.level == 1 ==> Child(p, i).k == v && First(p.level - 1, Child(p, i).k + 1) == v + 1)
  {
    assert NodeOk(s, p);
    PartIsIndex(a, p.level);
    EntryArithmetic(p.level, p.k, a.PageNumber());
  }

  /** How many of `num` pages do not fit in `room`. */
  function Left(num: nat, room: int): nat {
    if num <= room then 0 else if room < 0 then num else num - room
  }

  /** Every table on the way from `table` at `level` to the last-level table of `a` is in memory. */
  predicate PathInMemory(mem: map<nat, Page>, table: nat, level: nat, a: LinearAddress)
    requires a.Valid()
    decreases level
  {
    table in mem && (level > 1 ==> level <= 4 && PathInMemory(mem, mem[table][a.Part(level)].addr, level - 1, a))
  }

  function LastTable(mem: map<nat, Page>, table: nat, level: nat, a: LinearAddress): nat
    requires a.Valid() && PathInMemory(mem, table, level, a)
    decreases level
  {
    if level <= 1 then table else LastTable(mem, mem[table][a.Part(level)].addr, level - 1, a)
  }

  /** In any memory that agrees on the frames in use, the walk reaches the last-level table of the space. */
  lemma {:induction false} ReachLastTable(s: Memory, mem: map<nat, Page>, space: Space, level: nat, a: LinearAddress)
    requires Tree(s) && a.Valid() && InUser(a.PageNumber()) && 1 <= level <= 4
    requires Pos(space, 1, a.PageNumber() / 512) in s.node
    requires forall f :: f in s.role && f in s.mem ==> f in mem && mem[f] == s.mem[f]
    ensures var p := Pos(space, level, Ancestor(a.PageNumber(), level));
      && p in s.node && PathInMemory(mem, s.node[p], level, a)
      && LastTable(mem, s.node[p], level, a) == s.node[Pos(space, 1, a.PageNumber() / 512)]
  {
    var v := a.PageNumber();
    var p := Pos(space, level, Ancestor(v, level));
    if p !in s.node {
      NoNodeNoLeaf(s, space, level, v);
    }
    assert NodeOk(s, p);
    if level > 1 {
      ReachLastTable(s, mem, space, level - 1, a);
      PartIsIndex(a, level);
      AncestorStep(level - 1, v);
      UserEntry(v, level);
      assert SlotOk(s, p, a.Part(level));
      assert Child(p, a.Part(level)) == Pos(space, level - 1, Ancestor(v, level - 1));
    }
  }
}
