/** The arena allocator (hv/src/memory_management/arena.c): one page per arena, headers in a
    doubly linked list, bump allocation behind the header.

    A header lives in the first bytes of its page, so pointers between headers are page
    addresses and the headers form a dictionary keyed by page. Sub-arenas are never created
    by the source (it panics instead), so the list of sub-arenas is always empty. */
module Arena {
  import opened Paging
  import opened Outcomes

  const SIZEOF_HEADER: nat := 32

  datatype Header = Header(prev: Option<nat>, next: Option<nat>, usedSize: nat)

  datatype Block = Block(address: nat, size: nat)

  // --- the doubly linked list ------------------------------------------------------

  ghost predicate LinkedAt(live: seq<nat>, headers: map<nat, Header>, i: nat)
    requires i < |live|
  {
    && live[i] in headers
    && headers[live[i]].prev == (if i == 0 then None else Some(live[i - 1]))
    && headers[live[i]].next == (if i == |live| - 1 then None else Some(live[i + 1]))
  }

  /** The list from head runs through exactly the pages of live, forwards and backwards. */
  ghost predicate Linked(live: seq<nat>, headers: map<nat, Header>, head: Option<nat>) {
    && (forall i, j :: 0 <= i < j < |live| ==> live[i] != live[j])
    && (forall i: nat :: i < |live| ==> LinkedAt(live, headers, i))
    && head == (if live == [] then None else Some(live[0]))
  }

  lemma PushKeepsLinked(live: seq<nat>, headers: map<nat, Header>, head: Option<nat>,
                        live': seq<nat>, headers': map<nat, Header>, page: nat)
    requires Linked(live, headers, head) && page !in live && live' == [page] + live
    requires page in headers' && headers'[page].prev == None && headers'[page].next == head
    requires forall p :: p in live ==> p in headers && p in headers' && headers'[p].next == headers[p].next
    requires forall p :: p in live && Some(p) != head ==> headers'[p].prev == headers[p].prev
    requires head.Some? && head.value in live ==> headers'[head.value].prev == Some(page)
    ensures Linked(live', headers', Some(page))
  {
    forall i: nat | i < |live'|
      ensures LinkedAt(live', headers', i)
    {
      if i > 0 {
        assert LinkedAt(live, headers, i - 1);
        assert live'[i] == live[i - 1];
        if i < |live| {
          assert live'[i + 1] == live[i];
        }
      }
    }
  }

  /** What unlinking live[i] does to the header of live[j]. */
  ghost predicate Moved(live: seq<nat>, headers: map<nat, Header>, headers': map<nat, Header>, i: nat, j: nat)
    requires i < |live| && j < |live|
  {
    && live[i] in headers && live[j] in headers && live[j] in headers'
    && headers'[live[j]].prev == (if j == i + 1 then headers[live[i]].prev else headers[live[j]].prev)
    && headers'[live[j]].next == (if j + 1 == i then headers[live[i]].next else headers[live[j]].next)
  }

  /** The two header updates of arena_destroy. */
  function Unlink(headers: map<nat, Header>, page: nat): map<nat, Header>
    requires page in headers
    requires headers[page].next.Some? ==> headers[page].next.value in headers
    requires headers[page].prev.Some? ==> headers[page].prev.value in headers
  {
    var h := headers[page];
    var headers1 := if h.next.Some? then headers[h.next.value := headers[h.next.value].(prev := h.prev)] else headers;
    if h.prev.Some? then headers1[h.prev.value := headers1[h.prev.value].(next := h.next)] else headers1
  }

  lemma NeighboursLinked(live: seq<nat>, headers: map<nat, Header>, head: Option<nat>, i: nat)
    requires Linked(live, headers, head) && i < |live|
    ensures LinkedAt(live, headers, i)
    ensures var h := headers[live[i]];
            && (h.next.Some? ==>
                  h.next.value in headers && headers[h.next.value].prev == Some(live[i]) && h.next.value in live)
            && (h.prev.Some? ==>
                  h.prev.value in headers && headers[h.prev.value].next == Some(live[i]) && h.prev.value in live)
            && (h.prev.Some? <==> head != Some(live[i]))
  {
    assert LinkedAt(live, headers, i);
    assert i > 0 ==> LinkedAt(live, headers, i - 1);
    assert i + 1 < |live| ==> LinkedAt(live, headers, i + 1);
  }

  lemma UnlinkMoves(live: seq<nat>, headers: map<nat, Header>, head: Option<nat>, i: nat, j: nat)
    requires Linked(live, headers, head) && i < |live| && j < |live| && i != j && LinkedAt(live, headers, i)
    requires headers[live[i]].next.Some? ==> headers[live[i]].next.value in headers
    requires headers[live[i]].prev.Some? ==> headers[live[i]].prev.value in headers
    ensures Moved(live, headers, Unlink(headers, live[i]), i, j)
  {
    assert LinkedAt(live, headers, j);
    assert j != i + 1 && i + 1 < |live| ==> live[j] != live[i + 1];
    assert j + 1 != i && i > 0 ==> live[j] != live[i - 1];
  }

  lemma RemoveKeepsLinkAt(live: seq<nat>, headers: map<nat, Header>, headers': map<nat, Header>, i: nat, k: nat)
    requires i < |live| && k < |live| - 1 && LinkedAt(live, headers, i)
    requires var j := if k < i then k else k + 1; LinkedAt(live, headers, j) && Moved(live, headers, headers', i, j)
    ensures LinkedAt(live[..i] + live[i + 1..], headers', k)
  {
    var live' := live[..i] + live[i + 1..];
    assert live'[k] == live[if k < i then k else k + 1];
    assert k > 0 ==> live'[k - 1] == live[if k - 1 < i then k - 1 else k];
    assert k < |live'| - 1 ==> live'[k + 1] == live[if k + 1 < i then k + 1 else k + 2];
  }

  lemma RemoveKeepsLinked(live: seq<nat>, headers: map<nat, Header>, head: Option<nat>, i: nat,
                          headers': map<nat, Header>, head': Option<nat>)
    requires Linked(live, headers, head) && i < |live|
    requires forall j: nat :: j < |live| ==> LinkedAt(live, headers, j)
    requires forall j: nat :: j < |live| && j != i ==> Moved(live, headers, headers', i, j)
    requires LinkedAt(live, headers, 0) && head' == if i == 0 then headers[live[0]].next else head
    ensures Linked(live[..i] + live[i + 1..], headers', head')
  {
    var live' := live[..i] + live[i + 1..];
    forall k: nat | k < |live'|
      ensures LinkedAt(live', headers', k)
    {
      var j := if k < i then k else k + 1;
      assert LinkedAt(live, headers, i) && LinkedAt(live, headers, j) && Moved(live, headers, headers', i, j);
      RemoveKeepsLinkAt(live, headers, headers', i, k);
    }
    assert LinkedAt(live, headers, 0);
    if i > 0 {
      assert live'[0] == live[0];
    } else if |live| > 1 {
      assert live'[0] == live[1];
    }
  }

  lemma UnlinkKeepsLinked(live: seq<nat>, headers: map<nat, Header>, head: Option<nat>, i: nat)
    requires Linked(live, headers, head) && i < |live| && live[i] in headers
    requires headers[live[i]].next.Some? ==> headers[live[i]].next.value in headers
    requires headers[live[i]].prev.Some? ==> headers[live[i]].prev.value in headers
    ensures Linked(live[..i] + live[i + 1..], Unlink(headers, live[i]),
                   if head == Some(live[i]) then headers[live[i]].next else head)
    ensures forall p :: p in headers ==>
              p in Unlink(headers, live[i]) && Unlink(headers, live[i])[p].usedSize == headers[p].usedSize
    ensures forall p :: p in live[..i] + live[i + 1..] <==> p in live && p != live[i]
  {
    var headers' := Unlink(headers, live[i]);
    NeighboursLinked(live, headers, head, i);
    forall j: nat | j < |live| && j != i
      ensures Moved(live, headers, headers', i, j)
    {
      UnlinkMoves(live, headers, head, i, j);
    }
    assert LinkedAt(live, headers, 0);
    RemoveKeepsLinked(live, headers, head, i, headers', if head == Some(live[i]) then headers[live[i]].next else head);
    RemoveIsMinus(live, i);
  }

  lemma RemoveIsMinus(live: seq<nat>, i: nat)
    requires i < |live| && forall j, k :: 0 <= j < k < |live| ==> live[j] != live[k]
    ensures forall p :: p in live[..i] + live[i + 1..] <==> p in live && p != live[i]
  {
    forall p | p in live && p != live[i]
      ensures p in live[..i] + live[i + 1..]
    {
      var j :| 0 <= j < |live| && live[j] == p;
      assert if j < i then live[..i][j] == p else live[i + 1..][j - i - 1] == p;
    }
  }

  lemma UsedSizesKeepLinked(live: seq<nat>, headers: map<nat, Header>, head: Option<nat>, headers': map<nat, Header>)
    requires Linked(live, headers, head)
    requires forall p :: p in headers ==>
               p in headers' && headers'[p].prev == headers[p].prev && headers'[p].next == headers[p].next
    ensures Linked(live, headers', head)
  {
    forall i: nat | i < |live|
      ensures LinkedAt(live, headers', i)
    {
      assert LinkedAt(live, headers, i);
    }
  }

  // --- the blocks of one arena --------------------------------------------------------

  /** Blocks are disjoint, inside their page, behind its header and within the used bytes. */
  ghost predicate BlocksOk(page: nat, used: nat, blocks: seq<Block>) {
    && used <= PAGE_SIZE - SIZEOF_HEADER
    && (forall k :: 0 <= k < |blocks| ==>
          && page + SIZEOF_HEADER <= blocks[k].address
          && blocks[k].address + blocks[k].size <= page + SIZEOF_HEADER + used)
    && (forall j, k :: 0 <= j < k < |blocks| ==> blocks[j].address + blocks[j].size <= blocks[k].address)
  }

  class ArenaList {
    var head: Option<nat>
    var headers: map<nat, Header>
    ghost var live: seq<nat>
    ghost var blocks: map<nat, seq<Block>>

    ghost predicate Valid()
      reads this
    {
      && Linked(live, headers, head)
      && forall p :: p in live ==> p in headers && p in blocks && BlocksOk(p, headers[p].usedSize, blocks[p])
    }

    constructor ()
      ensures Valid() && live == []
    {
      head, headers := None, map[];
      live, blocks := [], map[];
    }

    /** The bytes of an arena that are not used yet. */
    ghost function Room(arena: nat): int
      reads `headers
    {
      if arena in headers then PAGE_SIZE - SIZEOF_HEADER - headers[arena].usedSize else 0
    }

    /** mm_page_used_by_arena: walks the list. */
    method UsedBy(page: nat) returns (used: bool)
      requires Valid()
      ensures used <==> page in live
    {
      var it := head;
      ghost var i := 0;
      while it.Some?
        invariant 0 <= i <= |live|
        invariant it == if i == |live| then None else Some(live[i])
        invariant page !in live[..i]
        decreases |live| - i
      {
        if page == it.value {
          return true;
        }
        assert live[..i + 1] == live[..i] + [live[i]];
        assert LinkedAt(live, headers, i);
        it := headers[it.value].next;
        i := i + 1;
      }
      assert live[..i] == live;
      return false;
    }

    /** arena_create, on the page it obtained from the page allocator. */
    method Create(page: nat) returns (r: Outcome<nat>)
      requires Valid() && page !in live
      modifies this
      ensures r == Ok(page) && Valid()
      ensures live == [page] + old(live)
      ensures headers[page].usedSize == 0 && Room(page) == PAGE_SIZE - SIZEOF_HEADER
      ensures blocks == old(blocks)[page := []]
      ensures forall p :: p in old(live) ==> p in headers && headers[p].usedSize == old(headers)[p].usedSize
    {
      headers := headers[page := Header(None, head, 0)];
      if head.Some? {
        assert LinkedAt(live, old(headers), 0);
        if headers[head.value].prev.Some? {
          return Panic(CorruptedArenaList);
        }
        headers := headers[head.value := headers[head.value].(prev := Some(page))];
      }
      PushKeepsLinked(live, old(headers), head, [page] + live, headers, page);
      head := Some(page);
      live := [page] + live;
      blocks := blocks[page := []];
      return Ok(page);
    }

    /** arena_allocate: the bytes behind those already used, or PANIC when they do not fit.
        The subtraction of the size check never wraps: usedSize is at most the room of a page. */
    method Allocate(arena: nat, size: nat) returns (r: Outcome<nat>)
      requires Valid() && arena in live
      modifies this`headers, this`blocks
      ensures Valid()
      ensures r.Panic? <==> size > PAGE_SIZE - SIZEOF_HEADER - old(headers)[arena].usedSize
      ensures r.Panic? <==> size > old(Room(arena))
      ensures r.Ok? ==> Room(arena) == old(Room(arena)) - size
      ensures r.Panic? ==>
                && r.reason == ArenaFull && headers == old(headers) && blocks == old(blocks)
                && Room(arena) == old(Room(arena))
      ensures r.Ok? ==>
                && arena in headers && headers[arena].usedSize == old(headers)[arena].usedSize + size
                && r.value == arena + SIZEOF_HEADER + old(headers)[arena].usedSize
                && blocks == old(blocks)[arena := old(blocks)[arena] + [Block(r.value, size)]]
      ensures forall p :: p in old(live) && p != arena ==> p in headers && headers[p] == old(headers)[p]
    {
      if PAGE_SIZE - (headers[arena].usedSize + SIZEOF_HEADER) < size {
        return Panic(ArenaFull);
      }
      var block := arena + (headers[arena].usedSize + SIZEOF_HEADER);
      headers := headers[arena := headers[arena].(usedSize := headers[arena].usedSize + size)];
      blocks := blocks[arena := blocks[arena] + [Block(block, size)]];
      UsedSizesKeepLinked(live, old(headers), head, headers);
      return Ok(block);
    }

    /** arena_destroy: unlinks the header; none of its corruption checks can fail. */
    method Destroy(arena: nat) returns (r: Outcome<()>)
      requires Valid() && arena in live
      modifies this
      ensures r.Ok? && Valid()
      ensures forall p :: p in live <==> p in old(live) && p != arena
      ensures blocks == old(blocks)
      ensures forall p :: p in live ==> p in headers && headers[p].usedSize == old(headers)[p].usedSize
    {
      ghost var i :| 0 <= i < |live| && live[i] == arena;
      NeighboursLinked(live, headers, head, i);
      var header := headers[arena];
      if header.next.Some? {
        var next := header.next.value;
        if headers[next].prev != Some(arena) {
          return Panic(CorruptedArenaList);
        }
        headers := headers[next := headers[next].(prev := header.prev)];
      }
      if header.prev.Some? {
        var prev := header.prev.value;
        if headers[prev].next != Some(arena) {
          return Panic(CorruptedArenaList);
        }
        headers := headers[prev := headers[prev].(next := header.next)];
      }
      if head == Some(arena) {
        if header.prev.Some? {
          return Panic(CorruptedArenaList);
        }
        head := header.next;
      }
      UnlinkKeepsLinked(live, old(headers), old(head), i);
      live := live[..i] + live[i + 1..];
      return Ok(());
    }
  }
}
