/**
 * The allocator: `myMalloc` finds a block by first fit, then scans the backing
 * store for a run of usable bytes, claims it and carves a used block out of
 * the head; `myFree` marks a block free and coalesces it with its neighbours.
 */
module Allocator {
  import opened Wrappers
  import opened BlockList
  import opened BackingStore

  /** The arena, the store and the returned handle after a call of `myMalloc`. */
  datatype Outcome = Outcome(arena: Arena, mem: seq<char>, ptr: Option<nat>)

  /**
   * The carve always takes its bytes from the head, whichever block passed the
   * first-fit test; it is safe when the head holds the request whenever the
   * carve is reached, i.e. whenever both the first fit and the scan succeed.
   */
  ghost predicate CarveSafe(a: Arena, mem: seq<char>, n: nat, h: nat)
    requires Listed(a)
  {
    n > 0 && FirstFit(a.blocks, a.order, n + h, 0).Some? && FirstClaim(mem, n, 0).Some? ==> HeadHolds(a, n, h)
  }

  /**
   * `myMalloc(n)`: NULL for a zero request, when no listed block passes the
   * first-fit test, or when the scan finds no run to claim; otherwise the run
   * `[i - n, i)` ending at the first claimable index `i` is claimed, a block is
   * carved out of the head and the address of its payload is returned.
   */
  ghost function MallocSpec(a: Arena, mem: seq<char>, n: nat, h: nat): Outcome
    requires Valid(a, h) && CarveSafe(a, mem, n, h)
  {
    if n == 0 || FirstFit(a.blocks, a.order, n + h, 0).None? then Outcome(a, mem, None)
    else match FirstClaim(mem, n, 0)
      case None => Outcome(a, mem, None)
      case Some(i) => Outcome(Carve(a, n, h), Claim(mem, i - n, i), Some(CarvedAt(a, n, h) + h))
  }

  /** A successful `myMalloc` is the carve of the head together with the claim of the scan's run. */
  lemma MallocSucceeds(a: Arena, mem: seq<char>, n: nat, h: nat)
    requires Valid(a, h) && CarveSafe(a, mem, n, h)
    requires MallocSpec(a, mem, n, h).ptr.Some?
    ensures HeadHolds(a, n, h)
    ensures MallocSpec(a, mem, n, h).arena == Carve(a, n, h)
    ensures MallocSpec(a, mem, n, h).ptr == Some(CarvedAt(a, n, h) + h)
  {
  }

  /** The outcome of `myMalloc` once the first fit and the scan have both succeeded. */
  lemma MallocTakes(a: Arena, mem: seq<char>, n: nat, h: nat, i: nat)
    requires Valid(a, h) && CarveSafe(a, mem, n, h)
    requires n > 0 && FirstFit(a.blocks, a.order, n + h, 0).Some? && FirstClaim(mem, n, 0) == Some(i)
    ensures HeadHolds(a, n, h) && n <= i
    ensures MallocSpec(a, mem, n, h) == Outcome(Carve(a, n, h), Claim(mem, i - n, i), Some(CarvedAt(a, n, h) + h))
  {
  }

  /**
   * `myMalloc` fails exactly for a zero request, when no listed block is free
   * with room for the request and a header, or when no index is claimable;
   * a failure changes neither the arena nor the store.
   */
  lemma MallocFails(a: Arena, mem: seq<char>, n: nat, h: nat)
    requires Valid(a, h) && CarveSafe(a, mem, n, h)
    ensures MallocSpec(a, mem, n, h).ptr.None? <==>
            || n == 0
            || (forall t :: 0 <= t < |a.order| ==> !Fits(a.blocks[a.order[t]], n + h))
            || (forall i :: !Claimable(mem, n, i))
    ensures MallocSpec(a, mem, n, h).ptr.None? ==> MallocSpec(a, mem, n, h).arena == a && MallocSpec(a, mem, n, h).mem == mem
  {
    var fit := FirstFit(a.blocks, a.order, n + h, 0);
    var claim := FirstClaim(mem, n, 0);
    if fit.Some? {
      assert !Fits(a.blocks[a.order[fit.value]], n + h) ==> false;
    }
    if claim.Some? {
      assert !Claimable(mem, n, claim.value) ==> false;
    }
  }

  /**
   * A successful `myMalloc` claims the run before the first claimable index:
   * those bytes were usable, and every other byte is left as it was.
   */
  lemma MallocClaims(a: Arena, mem: seq<char>, n: nat, h: nat)
    requires Valid(a, h) && CarveSafe(a, mem, n, h)
    requires MallocSpec(a, mem, n, h).ptr.Some?
    ensures exists i: nat ::
              && Claimable(mem, n, i)
              && (forall j :: 0 <= j < i ==> !Claimable(mem, n, j))
              && MallocSpec(a, mem, n, h).mem == Claim(mem, i - n, i)
  {
    var i := FirstClaim(mem, n, 0).value;
    assert MallocSpec(a, mem, n, h).mem == Claim(mem, i - n, i);
  }

  /**
   * A successful `myMalloc(n)` shrinks the head by `n` and a header, places a
   * used block of `n` bytes right where the head's payload now ends, links it
   * directly after the head with the rest of the list unchanged, and returns
   * the address just past its header; the arena stays valid.
   */
  lemma MallocCarves(a: Arena, mem: seq<char>, n: nat, h: nat)
    requires Valid(a, h) && CarveSafe(a, mem, n, h)
    requires MallocSpec(a, mem, n, h).ptr.Some?
    ensures MallocSpec(a, mem, n, h).ptr.value >= h
    ensures var r, at := MallocSpec(a, mem, n, h).arena, MallocSpec(a, mem, n, h).ptr.value - h;
            && Valid(r, h)
            && r.blocks[0].size + n + h == a.blocks[0].size
            && at == h + r.blocks[0].size
            && r.blocks[at] == Block(n, false, a.blocks[0].next)
            && r.blocks[0].next == Some(at)
            && r.order == [0, at] + a.order[1..]
            && (forall t :: 1 <= t < |a.order| ==> r.blocks[a.order[t]] == a.blocks[a.order[t]])
  {
    MallocSucceeds(a, mem, n, h);
    CarveValid(a, n, h);
    AfterHead(a, h);
    assert Step(a, h, 0);
  }

  /** `myMalloc` keeps the arena valid and conserves its bytes, whatever the outcome. */
  lemma MallocValid(a: Arena, mem: seq<char>, n: nat, h: nat)
    requires Valid(a, h) && CarveSafe(a, mem, n, h)
    ensures Valid(MallocSpec(a, mem, n, h).arena, h)
    ensures Footprint(MallocSpec(a, mem, n, h).arena.blocks, MallocSpec(a, mem, n, h).arena.order, h) == MEMORY_SIZE
  {
    if MallocSpec(a, mem, n, h).ptr.Some? {
      MallocSucceeds(a, mem, n, h);
      CarveValid(a, n, h);
    }
    Conservation(MallocSpec(a, mem, n, h).arena, h);
  }

  /**
   * The allocator's state: the header size, the metadata arena with its
   * block list, and the backing store `large_memory`.
   */
  class Heap {
    /** `sizeof(Block)`. */
    const H: nat
    /** `large_memory`. */
    const store: array<char>
    /** The headers in the metadata arena `memory`, by offset. */
    var blocks: map<nat, Block>
    /** The block list from `freeList`, as offsets in link order. */
    ghost var order: seq<nat>

    ghost function State(): Arena
      reads this
    {
      Arena(blocks, order)
    }

    /** The block list is well formed and the backing store has the source's length. */
    ghost predicate Valid()
      reads this
    {
      BlockList.Valid(State(), H) && store.Length == LARGE_MEMORY_SIZE
    }

    /** `initializeMemory`, with the header size and the backing store it works on. */
    constructor (h: nat, store: array<char>)
      requires 0 < h <= MEMORY_SIZE && store.Length == LARGE_MEMORY_SIZE
      ensures Valid() && State() == Init(h)
      ensures H == h && this.store == store
    {
      H := h;
      this.store := store;
      blocks := map[0 := Block(MEMORY_SIZE - h, true, None)];
      order := [0];
    }

    /** The first-fit walk of `myMalloc`: the first listed block that is free and holds `need` bytes. */
    method FindFit(need: nat) returns (found: Option<nat>)
      requires Valid()
      ensures found.None? <==> FirstFit(blocks, order, need, 0).None?
      ensures found.Some? ==> found.value == order[FirstFit(blocks, order, need, 0).value]
    {
      var head: Option<nat> := Some(0);
      ghost var t := 0;
      while head.Some?
        invariant t <= |order|
        invariant head == if t < |order| then Some(order[t]) else None
        invariant FirstFit(blocks, order, need, t) == FirstFit(blocks, order, need, 0)
        decreases |order| - t
      {
        assert Step(State(), H, t);
        if blocks[head.value].size >= need && blocks[head.value].free {
          return head;
        }
        head := blocks[head.value].next;
        t := t + 1;
      }
      return None;
    }

    /** The scan of `myMalloc` over the backing store: the first index at which `n` usable bytes have been counted and one more usable byte is seen. */
    method Scan(n: nat) returns (found: Option<nat>)
      requires store.Length == LARGE_MEMORY_SIZE
      ensures found == FirstClaim(store[..], n, 0)
    {
      var good := 0;
      for i := 0 to LARGE_MEMORY_SIZE
        invariant good == Run(store[..], i, n)
        invariant FirstClaim(store[..], n, i) == FirstClaim(store[..], n, 0)
      {
        ClaimableByRun(store[..], n, i);
        if store[i] == BAD_BLOCK || store[i] == CLAIMED {
          good := 0;
        } else if good != n {
          good := good + 1;
        } else {
          return Some(i);
        }
      }
      return None;
    }

    /** Marks the bytes in `[lo, hi)` claimed. */
    method ClaimRun(lo: nat, hi: nat)
      requires lo <= hi <= store.Length
      modifies store
      ensures store[..] == Claim(old(store[..]), lo, hi)
    {
      for j := lo to hi
        invariant forall x :: 0 <= x < store.Length ==> store[x] == if lo <= x < j then CLAIMED else old(store[x])
      {
        store[j] := CLAIMED;
      }
    }

    /** `myMalloc(n)`; NULL is `None`, a payload address in the arena is `Some`. */
    method Malloc(n: nat) returns (ptr: Option<nat>)
      requires Valid() && CarveSafe(State(), store[..], n, H)
      modifies this, store
      ensures Valid()
      ensures Outcome(State(), store[..], ptr) == MallocSpec(old(State()), old(store[..]), n, H)
    {
      if n == 0 {
        return None;
      }
      var fit := FindFit(n + H);
      if fit.None? {
        return None;
      }
      var found := Scan(n);
      if found.None? {
        return None;
      }
      var i := found.value;
      ghost var a, mem := State(), store[..];
      MallocTakes(a, mem, n, H, i);
      ClaimRun(i - n, i);
      ptr := CarveHead(n);
      CarveValid(a, n, H);
    }

    /**
     * The carve of `myMalloc`: the head gives up the request and a header; the
     * new block's header sits where the head's payload now ends and is linked
     * right after the head. Returns the address of the new block's payload.
     */
    method CarveHead(n: nat) returns (ptr: Option<nat>)
      requires BlockList.Valid(State(), H) && HeadHolds(State(), n, H)
      modifies this
      ensures State() == Carve(old(State()), n, H)
      ensures ptr == Some(CarvedAt(old(State()), n, H) + H)
    {
      blocks := blocks[0 := blocks[0].(size := blocks[0].size - n - H)];
      var at := H + blocks[0].size;
      var temp := blocks[0].next;
      blocks := blocks[0 := blocks[0].(next := Some(at))][at := Block(n, false, temp)];
      order := [0, at] + order[1..];
      ptr := Some(blocks[0].size + 2 * H);
    }

    /** The predecessor walk of `myFree`: the block whose link is `b`, for `b` at list position `k`. */
    method FindPredecessor(b: nat, ghost k: nat) returns (p: nat)
      requires Listed(State()) && forall t :: 0 <= t < |order| ==> LinkAt(State(), t)
      requires 1 <= k < |order| && order[k] == b && forall t :: 0 <= t < k ==> order[t] != b
      requires order[0] == 0
      ensures p == order[k - 1]
    {
      p := 0;
      ghost var t := 0;
      assert LinkAt(State(), 0);
      while blocks[p].next != Some(b)
        invariant t < k && p == order[t]
        invariant LinkAt(State(), t)
        decreases k - t
      {
        p := blocks[p].next.value;
        t := t + 1;
        assert LinkAt(State(), t);
      }
    }

    /** The coalescing step of `myFree`, once `b` at list position `k` is marked free and its predecessor `p` found. */
    method Coalesce(b: nat, p: nat, ghost a: Arena, ghost k: nat)
      requires BlockList.Valid(a, H) && 1 <= k < |a.order|
      requires b == a.order[k] && p == a.order[k - 1]
      requires blocks == Marked(a, k) && order == a.order
      modifies this
      ensures State() == Release(a, k, H)
    {
      Around(a, k, H);
      var target := blocks[b];
      if blocks[p].free {
        blocks := blocks[p := blocks[p].(size := blocks[p].size + target.size + H, next := target.next)];
        if target.next.Some? && blocks[target.next.value].free {
          // the successor is absorbed too; the link becomes the successor's (NULL at the end)
          var succ := blocks[target.next.value];
          blocks := blocks[p := blocks[p].(size := blocks[p].size + succ.size + H, next := succ.next)];
          order := order[..k] + order[k + 2..];
          assert State() == Release(a, k, H);
        } else {
          order := order[..k] + order[k + 1..];
          assert State() == Release(a, k, H);
        }
      } else if target.next.Some? && blocks[target.next.value].free {
        var succ := blocks[target.next.value];
        blocks := blocks[b := target.(size := target.size + succ.size + H, next := succ.next)];
        order := order[..k + 1] + order[k + 2..];
        assert State() == Release(a, k, H);
      } else {
        assert State() == Release(a, k, H);
      }
    }

    /** `myFree(ptr)`; never touches the backing store. */
    method Free(ptr: Option<nat>)
      requires Valid() && Freeable(State(), ptr, H)
      modifies this
      ensures Valid()
      ensures State() == FreeSpec(old(State()), ptr, H)
      ensures store[..] == old(store[..])
    {
      if ptr.None? {
        return;
      }
      var b := ptr.value - H;
      if blocks[b].free {
        return;
      }
      ghost var a := State();
      FreeIsRelease(a, ptr, H);
      ghost var k := IndexOf(order, b);
      MarkFreeKeepsLinks(a, b, H, Arena(Marked(a, k), a.order));
      blocks := blocks[b := blocks[b].(free := true)];
      var p := FindPredecessor(b, k);
      Coalesce(b, p, a, k);
      ReleaseValid(a, k, H);
    }
  }
}
