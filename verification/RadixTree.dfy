/** Four-level radix trees in physical memory.

    The EPT, the boot page tables and the guest's own page tables have one shape: bit 0 of an
    entry says it is present, bit 7 says that a level 1 or 2 entry maps a large page, and bits
    12 to 51 hold an address. Walk is the lookup in such a tree; Tree is the invariant that a
    builder keeps; the lemmas say what linking an empty table and setting a leaf do to every
    lookup. */
module RadixTree {
  import opened Bits
  import opened Paging
  import opened PhysicalMemory
  import opened Outcomes

  /** A successful lookup: the level and value of the final entry, and the access rights
      accumulated along the path (writable everywhere, execution disabled somewhere). */
  datatype Hit = Hit(level: nat, entry: u64, writable: bool, noExecute: bool)

  predicate IsLeaf(e: nat, level: nat) {
    level == 0 || (level <= 2 && Large(e))
  }

  function Walk(m: Memory, table: nat, level: nat, a: nat): Option<Hit>
    requires level <= 3
    decreases level
  {
    var e := At(m, table)[Index(a, level)];
    if !Present(e) then None
    else if IsLeaf(e, level) then Some(Hit(level, e, Writable(e), NoExecute(e)))
    else
      match Walk(m, Base(e), level - 1, a)
      case None => None
      case Some(h) => Some(h.(writable := h.writable && Writable(e), noExecute := h.noExecute || NoExecute(e)))
  }

  lemma WalkLevel(m: Memory, table: nat, level: nat, a: nat)
    requires level <= 3
    ensures Walk(m, table, level, a).Some? ==> Walk(m, table, level, a).value.level <= 2
  {
  }

  /** The lookup from the root of a tree, and the physical address it yields. */
  function Lookup(m: Memory, root: nat, a: nat): (r: Option<Hit>)
    ensures r.Some? ==> r.value.level <= 2
  {
    WalkLevel(m, root, 3, a);
    Walk(m, root, 3, a)
  }

  function Target(h: Hit, a: nat): nat
    requires h.level <= 2
  {
    BaseAt(h.entry, h.level) + a % Span(h.level)
  }

  function Translate(m: Memory, root: nat, a: nat): Option<nat> {
    match Lookup(m, root, a)
    case None => None
    case Some(h) => Some(Target(h, a))
  }

  function TargetAt(w: Option<Hit>, a: nat): Option<nat> {
    if w.Some? && w.value.level <= 2 then Some(Target(w.value, a)) else None
  }

  lemma WalkTarget(m: Memory, table: nat, level: nat, g: nat)
    requires level <= 3
    ensures var e := At(m, table)[Index(g, level)];
            TargetAt(Walk(m, table, level, g), g)
            == if !Present(e) then None
               else if IsLeaf(e, level) then Some(BaseAt(e, level) + g % Span(level))
               else TargetAt(Walk(m, Base(e), level - 1, g), g)
  {
  }

  lemma TranslateTarget(m: Memory, root: nat, a: nat)
    ensures Translate(m, root, a) == TargetAt(Walk(m, root, 3, a), a)
  {
  }

  /** The table at Node(k, p) serves the addresses a with a / Span(k + 1) == p. */
  datatype Node = Node(level: nat, prefix: nat)

  const ROOT: Node := Node(3, 0)

  function NodeOf(a: nat, level: nat): Node
    requires level <= 3
  {
    Node(level, a / Span(level + 1))
  }

  function Child(n: Node, i: nat): Node
    requires n.level > 0
  {
    Node(n.level - 1, n.prefix * PAGE_TABLE_ENTRIES + i)
  }

  /** What entry i of the table at n must look like. */
  ghost predicate SlotOk(m: Memory, tables: map<Node, nat>, n: Node, i: nat)
    requires n in tables && i < PAGE_TABLE_ENTRIES && n.level > 0
  {
    var e := At(m, tables[n])[i];
    if Present(e) && !IsLeaf(e, n.level) then
      Child(n, i) in tables && tables[Child(n, i)] == Base(e) && Writable(e) && !NoExecute(e)
    else
      Child(n, i) !in tables
  }

  ghost predicate NodesOk(tables: map<Node, nat>) {
    && ROOT in tables
    && (forall n :: n in tables ==> n.level <= 3 && IsPage(tables[n]) && (n.level == 3 ==> n == ROOT))
    && (forall n, n' :: n in tables && n' in tables && tables[n] == tables[n'] ==> n == n')
    && (forall n :: n in tables && n.level < 3 ==> Node(n.level + 1, n.prefix / PAGE_TABLE_ENTRIES) in tables)
  }

  /** tables names the page of every table of the tree; no page serves two nodes. */
  ghost predicate Tree(m: Memory, tables: map<Node, nat>) {
    && NodesOk(tables)
    && (forall n, i: nat {:trigger SlotOk(m, tables, n, i)} ::
          n in tables && n.level > 0 && i < PAGE_TABLE_ENTRIES ==> SlotOk(m, tables, n, i))
  }

  predicate AllZero(p: Page) {
    forall i :: 0 <= i < PAGE_TABLE_ENTRIES ==> p[i] == 0
  }

  /** A fresh zeroed page is a tree without mappings. */
  lemma EmptyTree(m: Memory, root: nat)
    requires IsPage(root) && AllZero(At(m, root))
    ensures Tree(m, map[ROOT := root])
    ensures forall a: nat :: Lookup(m, root, a) == None
  {
  }

  // --- one step of a lookup ------------------------------------------------------

  lemma ChildOnPath(a: nat, level: nat)
    requires 0 < level <= 3
    ensures Child(NodeOf(a, level), Index(a, level)) == NodeOf(a, level - 1)
  {
    SpanStep(a, level);
  }

  /** At a table of the tree the lookup either goes on in the child table or is decided by the entry. */
  lemma WalkStep(m: Memory, tables: map<Node, nat>, a: nat, level: nat)
    requires Tree(m, tables) && 0 < level <= 3 && NodeOf(a, level) in tables
    ensures var w := Walk(m, tables[NodeOf(a, level)], level, a);
            var e := At(m, tables[NodeOf(a, level)])[Index(a, level)];
            if NodeOf(a, level - 1) in tables then
              && Present(e) && !IsLeaf(e, level) && Base(e) == tables[NodeOf(a, level - 1)]
              && w == Walk(m, tables[NodeOf(a, level - 1)], level - 1, a)
            else
              w == if Present(e) then Some(Hit(level, e, Writable(e), NoExecute(e))) else None
  {
    ChildOnPath(a, level);
    assert SlotOk(m, tables, NodeOf(a, level), Index(a, level));
  }

  // --- linking an empty table -------------------------------------------------

  ghost predicate CanLink(m: Memory, tables: map<Node, nat>, n: Node, i: nat, e: u64) {
    && n in tables && 0 < n.level <= 3 && i < PAGE_TABLE_ENTRIES
    && !Present(At(m, tables[n])[i])
    && Present(e) && !Large(e) && Writable(e) && !NoExecute(e)
    && Base(e) !in tables.Values && AllZero(At(m, Base(e)))
  }

  lemma {:induction false} LinkKeepsWalk(m: Memory, tables: map<Node, nat>, n: Node, i: nat, e: u64, a: nat, level: nat)
    requires Tree(m, tables) && CanLink(m, tables, n, i, e)
    requires a < SPACE && level <= 3 && NodeOf(a, level) in tables
    ensures Walk(WriteWord(m, tables[n], i, e), tables[NodeOf(a, level)], level, a)
            == Walk(m, tables[NodeOf(a, level)], level, a)
  {
    if level > 0 {
      if NodeOf(a, level - 1) in tables {
        LinkKeepsWalk(m, tables, n, i, e, a, level - 1);
        LinkKeepsWalkAbove(m, tables, n, i, e, a, level);
      } else {
        LinkKeepsWalkHere(m, tables, n, i, e, a, level);
      }
    } else {
      WordsAfterWrite(m, tables, n, i, e, NodeOf(a, level), Index(a, level));
    }
  }

  lemma LinkKeepsWalkAbove(m: Memory, tables: map<Node, nat>, n: Node, i: nat, e: u64, a: nat, level: nat)
    requires Tree(m, tables) && CanLink(m, tables, n, i, e)
    requires a < SPACE && 0 < level <= 3 && NodeOf(a, level) in tables && NodeOf(a, level - 1) in tables
    requires Walk(WriteWord(m, tables[n], i, e), tables[NodeOf(a, level - 1)], level - 1, a)
             == Walk(m, tables[NodeOf(a, level - 1)], level - 1, a)
    ensures Walk(WriteWord(m, tables[n], i, e), tables[NodeOf(a, level)], level, a)
            == Walk(m, tables[NodeOf(a, level)], level, a)
  {
    hide NodeOf, Index, WriteWord, At, Tree, BaseAt;
    WalkStep(m, tables, a, level);
    TreeNodes(m, tables);
    WordsAfterWrite(m, tables, n, i, e, NodeOf(a, level), Index(a, level));
  }

  lemma TreeNodes(m: Memory, tables: map<Node, nat>)
    requires Tree(m, tables)
    ensures NodesOk(tables)
  {
  }

  lemma LinkKeepsWalkHere(m: Memory, tables: map<Node, nat>, n: Node, i: nat, e: u64, a: nat, level: nat)
    requires Tree(m, tables) && CanLink(m, tables, n, i, e)
    requires a < SPACE && 0 < level <= 3 && NodeOf(a, level) in tables && NodeOf(a, level - 1) !in tables
    ensures Walk(WriteWord(m, tables[n], i, e), tables[NodeOf(a, level)], level, a)
            == Walk(m, tables[NodeOf(a, level)], level, a)
  {
    var m' := WriteWord(m, tables[n], i, e);
    WordsAfterWrite(m, tables, n, i, e, NodeOf(a, level), Index(a, level));
    WalkStep(m, tables, a, level);
    assert At(m', Base(e)) == At(m, Base(e));
    assert Walk(m', Base(e), level - 1, a) == None;
  }

  lemma WordsAfterWrite(m: Memory, tables: map<Node, nat>, n: Node, i: nat, e: u64, n': Node, j: nat)
    requires NodesOk(tables) && n in tables && n' in tables && i < PAGE_TABLE_ENTRIES && j < PAGE_TABLE_ENTRIES
    ensures At(WriteWord(m, tables[n], i, e), tables[n'])[j] == if n' == n && j == i then e else At(m, tables[n'])[j]
  {
  }

  lemma NoOrphan(tables: map<Node, nat>, n: Node, j: nat)
    requires NodesOk(tables) && 0 < n.level <= 3 && n !in tables && j < PAGE_TABLE_ENTRIES
    ensures Child(n, j) !in tables
  {
    assert Child(n, j).prefix / PAGE_TABLE_ENTRIES == n.prefix;
  }

  lemma LinkKeepsNodes(tables: map<Node, nat>, n: Node, i: nat, page: nat)
    requires NodesOk(tables) && n in tables && n.level > 0 && i < PAGE_TABLE_ENTRIES
    requires IsPage(page) && page !in tables.Values && Child(n, i) !in tables
    ensures NodesOk(tables[Child(n, i) := page])
  {
    assert Child(n, i).prefix / PAGE_TABLE_ENTRIES == n.prefix;
  }

  lemma LinkKeepsSlot(m: Memory, tables: map<Node, nat>, n: Node, i: nat, e: u64, n': Node, j: nat)
    requires Tree(m, tables) && CanLink(m, tables, n, i, e)
    requires n' in tables && n'.level > 0 && j < PAGE_TABLE_ENTRIES
    ensures SlotOk(WriteWord(m, tables[n], i, e), tables[Child(n, i) := Base(e)], n', j)
  {
    WordsAfterWrite(m, tables, n, i, e, n', j);
    assert SlotOk(m, tables, n, i);
    assert SlotOk(m, tables, n', j);
    if n' != n || j != i {
      assert Child(n', j) != Child(n, i);
    }
  }

  lemma LinkKeepsTree(m: Memory, tables: map<Node, nat>, n: Node, i: nat, e: u64)
    requires Tree(m, tables) && CanLink(m, tables, n, i, e)
    ensures Tree(WriteWord(m, tables[n], i, e), tables[Child(n, i) := Base(e)])
  {
    var m' := WriteWord(m, tables[n], i, e);
    var child := Child(n, i);
    var tables' := tables[child := Base(e)];
    assert SlotOk(m, tables, n, i);
    LinkKeepsNodes(tables, n, i, Base(e));
    forall n', j: nat | n' in tables' && n'.level > 0 && j < PAGE_TABLE_ENTRIES
      ensures SlotOk(m', tables', n', j)
    {
      if n' == child {
        assert At(m', Base(e)) == At(m, Base(e));
        NoOrphan(tables, child, j);
      } else {
        LinkKeepsSlot(m, tables, n, i, e, n', j);
      }
    }
  }

  lemma LinkKeepsLookup(m: Memory, tables: map<Node, nat>, n: Node, i: nat, e: u64, a: nat)
    requires Tree(m, tables) && CanLink(m, tables, n, i, e) && a < SPACE
    ensures Lookup(WriteWord(m, tables[n], i, e), tables[ROOT], a) == Lookup(m, tables[ROOT], a)
  {
    assert NodeOf(a, 3) == ROOT;
    LinkKeepsWalk(m, tables, n, i, e, a, 3);
  }

  /** Linking an empty table changes no lookup. */
  lemma LinkKeepsLookups(m: Memory, tables: map<Node, nat>, n: Node, i: nat, e: u64)
    requires Tree(m, tables) && CanLink(m, tables, n, i, e)
    ensures var m' := WriteWord(m, tables[n], i, e);
            && Tree(m', tables[Child(n, i) := Base(e)])
            && forall a: nat :: a < SPACE ==> Lookup(m', tables[ROOT], a) == Lookup(m, tables[ROOT], a)
  {
    LinkKeepsTree(m, tables, n, i, e);
    forall a: nat | a < SPACE
      ensures Lookup(WriteWord(m, tables[n], i, e), tables[ROOT], a) == Lookup(m, tables[ROOT], a)
    {
      LinkKeepsLookup(m, tables, n, i, e, a);
    }
  }

  // --- setting a leaf ---------------------------------------------------------

  function LeafHit(e: u64): Hit {
    Hit(0, e, Writable(e), NoExecute(e))
  }

  lemma PathClosed(tables: map<Node, nat>, a: nat, low: nat, high: nat)
    requires NodesOk(tables) && low <= high <= 3 && NodeOf(a, low) in tables
    ensures NodeOf(a, high) in tables
    decreases high - low
  {
    if low < high {
      SpanStep(a, low + 1);
      PathClosed(tables, a, low + 1, high);
    }
  }

  lemma LeafKeepsTree(m: Memory, tables: map<Node, nat>, n: Node, i: nat, e: u64)
    requires Tree(m, tables) && n in tables && n.level == 0 && i < PAGE_TABLE_ENTRIES
    ensures Tree(WriteWord(m, tables[n], i, e), tables)
  {
    var m' := WriteWord(m, tables[n], i, e);
    forall n', j: nat | n' in tables && n'.level > 0 && j < PAGE_TABLE_ENTRIES
      ensures SlotOk(m', tables, n', j)
    {
      assert SlotOk(m, tables, n', j);
      assert tables[n'] != tables[n];
    }
  }

  lemma {:induction false} LeafWalk(m: Memory, tables: map<Node, nat>, n: Node, i: nat, e: u64, a: nat, level: nat)
    requires Tree(m, tables) && n in tables && n.level == 0 && i < PAGE_TABLE_ENTRIES && Present(e)
    requires a < SPACE && level <= 3 && NodeOf(a, level) in tables
    ensures Walk(WriteWord(m, tables[n], i, e), tables[NodeOf(a, level)], level, a)
            == if NodeOf(a, 0) == n && Index(a, 0) == i then Some(LeafHit(e))
               else Walk(m, tables[NodeOf(a, level)], level, a)
  {
    var m' := WriteWord(m, tables[n], i, e);
    if level > 0 {
      LeafKeepsTree(m, tables, n, i, e);
      WalkStep(m, tables, a, level);
      WalkStep(m', tables, a, level);
      if NodeOf(a, level - 1) in tables {
        LeafWalk(m, tables, n, i, e, a, level - 1);
      } else {
        assert tables[NodeOf(a, level)] != tables[n];
        if NodeOf(a, 0) == n {
          PathClosed(tables, a, 0, level - 1);
        }
      }
    }
  }

  /** Setting a leaf changes the lookups of exactly one page. */
  lemma LeafChangesOnePage(m: Memory, tables: map<Node, nat>, n: Node, i: nat, e: u64)
    requires Tree(m, tables) && n in tables && n.level == 0 && i < PAGE_TABLE_ENTRIES && Present(e)
    ensures var m' := WriteWord(m, tables[n], i, e);
            && Tree(m', tables)
            && forall a: nat :: a < SPACE ==>
                 Lookup(m', tables[ROOT], a)
                 == if a / PAGE_SIZE == n.prefix * PAGE_TABLE_ENTRIES + i then Some(LeafHit(e))
                    else Lookup(m, tables[ROOT], a)
  {
    LeafKeepsTree(m, tables, n, i, e);
    var m' := WriteWord(m, tables[n], i, e);
    forall a: nat | a < SPACE
      ensures Lookup(m', tables[ROOT], a)
              == if a / PAGE_SIZE == n.prefix * PAGE_TABLE_ENTRIES + i then Some(LeafHit(e))
                 else Lookup(m, tables[ROOT], a)
    {
      assert NodeOf(a, 3) == ROOT;
      LeafWalk(m, tables, n, i, e, a, 3);
      SpanStep(a, 0);
    }
  }

  // --- framing ----------------------------------------------------------------

  lemma TreeFrame0(m: Memory, m': Memory, tables: map<Node, nat>)
    requires Tree(m, tables)
    requires forall n :: n in tables ==> SameAt(m, m', tables[n])
    ensures Tree(m', tables)
  {
    forall n, i: nat | n in tables && n.level > 0 && i < PAGE_TABLE_ENTRIES
      ensures SlotOk(m', tables, n, i)
    {
      assert SlotOk(m, tables, n, i) && SameAt(m, m', tables[n]);
    }
  }

  lemma {:induction false} WalkFrame(m: Memory, m': Memory, tables: map<Node, nat>, a: nat, level: nat)
    requires Tree(m, tables) && a < SPACE && level <= 3 && NodeOf(a, level) in tables
    requires forall n :: n in tables ==> SameAt(m, m', tables[n])
    ensures Walk(m', tables[NodeOf(a, level)], level, a) == Walk(m, tables[NodeOf(a, level)], level, a)
  {
    assert SameAt(m, m', tables[NodeOf(a, level)]);
    if level > 0 {
      TreeFrame0(m, m', tables);
      WalkStep(m, tables, a, level);
      WalkStep(m', tables, a, level);
      if NodeOf(a, level - 1) in tables {
        WalkFrame(m, m', tables, a, level - 1);
      }
    }
  }

  /** A tree and its lookups depend on the pages of its tables only. */
  lemma TreeFrame(m: Memory, m': Memory, tables: map<Node, nat>)
    requires Tree(m, tables)
    requires forall n :: n in tables ==> SameAt(m, m', tables[n])
    ensures Tree(m', tables)
    ensures forall a: nat :: a < SPACE ==> Lookup(m', tables[ROOT], a) == Lookup(m, tables[ROOT], a)
  {
    TreeFrame0(m, m', tables);
    forall a: nat | a < SPACE
      ensures Lookup(m', tables[ROOT], a) == Lookup(m, tables[ROOT], a)
    {
      assert NodeOf(a, 3) == ROOT;
      WalkFrame(m, m', tables, a, 3);
    }
  }

  // --- descending from the root ------------------------------------------------

  /** The lookup of a passes through the table of every node of its path that exists. */
  lemma {:induction false} WalkThrough(m: Memory, tables: map<Node, nat>, a: nat, level: nat)
    requires Tree(m, tables) && a < SPACE && level <= 3 && NodeOf(a, level) in tables
    ensures Lookup(m, tables[ROOT], a) == Walk(m, tables[NodeOf(a, level)], level, a)
    decreases 3 - level
  {
    if level < 3 {
      PathClosed(tables, a, level, level + 1);
      WalkThrough(m, tables, a, level + 1);
      WalkStep(m, tables, a, level + 1);
    } else {
      assert NodeOf(a, 3) == ROOT;
    }
  }

  /** The entry of a on an existing table of its path decides the lookup when it is absent or a leaf. */
  lemma MappingDecided(m: Memory, tables: map<Node, nat>, a: nat, level: nat)
    requires Tree(m, tables) && a < SPACE && level <= 3 && NodeOf(a, level) in tables
    ensures var e := At(m, tables[NodeOf(a, level)])[Index(a, level)];
            && (!Present(e) ==> Lookup(m, tables[ROOT], a) == None)
            && (Present(e) && IsLeaf(e, level) ==>
                Lookup(m, tables[ROOT], a) == Some(Hit(level, e, Writable(e), NoExecute(e))))
  {
    WalkThrough(m, tables, a, level);
  }
}
