/**
 * The metadata arena of the allocator: a 256-byte region holding `Block`
 * headers that form one singly linked list rooted at offset 0 (`freeList`).
 *
 * Raw pointers become byte offsets into the arena: a record lives in `blocks`
 * under the offset of its header, `next` is the offset of the following
 * record, and `order` is the list itself, the offsets reached from the root.
 * The header size `sizeof(Block)` is the parameter `h`.
 */
module BlockList {
  import opened Wrappers

  /** Size in bytes of the metadata arena (`MEMORY_SIZE`). */
  const MEMORY_SIZE: nat := 256

  /** A block header: payload capacity, free flag and link to the next header. */
  datatype Block = Block(size: nat, free: bool, next: Option<nat>)

  /** The arena's records by offset, and the list of offsets in link order. */
  datatype Arena = Arena(blocks: map<nat, Block>, order: seq<nat>)

  /** The first offset past the payload of the record at `o`. */
  function End(blocks: map<nat, Block>, o: nat, h: nat): nat
    requires o in blocks
  {
    o + h + blocks[o].size
  }

  /** The list is non-empty and every listed offset holds a record. */
  ghost predicate Listed(a: Arena) {
    |a.order| > 0 && forall t :: 0 <= t < |a.order| ==> a.order[t] in a.blocks
  }

  /**
   * The block at list position `t` links to the one after it, which starts
   * where its payload ends and is not also free; the last block ends the list
   * and the arena.
   */
  ghost predicate Step(a: Arena, h: nat, t: nat)
    requires Listed(a) && t < |a.order|
  {
    var b := a.blocks[a.order[t]];
    if t + 1 < |a.order| then
      && b.next == Some(a.order[t + 1])
      && a.order[t + 1] == End(a.blocks, a.order[t], h)
      && !(b.free && a.blocks[a.order[t + 1]].free)
    else
      b.next == None && End(a.blocks, a.order[t], h) == MEMORY_SIZE
  }

  /** The link of the block at list position `t`: the next position, or none after the last. */
  ghost predicate LinkAt(a: Arena, t: nat)
    requires Listed(a) && t < |a.order|
  {
    a.blocks[a.order[t]].next == if t + 1 < |a.order| then Some(a.order[t + 1]) else None
  }

  /** A record that is no longer on the list (it was merged away) is marked free. */
  ghost predicate OffListFree(a: Arena) {
    forall o :: o in a.blocks && o !in a.order ==> a.blocks[o].free
  }

  /**
   * The invariant that initialisation establishes and allocation and release
   * keep: the list starts with the free head at offset 0, its blocks lie back
   * to back up to the end of the arena, no two neighbours are both free, and
   * records off the list are free.
   */
  ghost predicate Valid(a: Arena, h: nat) {
    && h > 0
    && Listed(a)
    && a.order[0] == 0
    && a.blocks[0].free
    && (forall t :: 0 <= t < |a.order| ==> Step(a, h, t))
    && OffListFree(a)
  }

  /** `initializeMemory`: one free block whose header sits at offset 0 and whose payload fills the rest of the arena. */
  function Init(h: nat): (a: Arena)
    requires 0 < h <= MEMORY_SIZE
    ensures Valid(a, h)
    ensures Footprint(a.blocks, a.order, h) == MEMORY_SIZE
  {
    Arena(map[0 := Block(MEMORY_SIZE - h, true, None)], [0])
  }

  /** The bytes the listed blocks account for: each payload plus its header. */
  function Footprint(blocks: map<nat, Block>, order: seq<nat>, h: nat): nat
    requires forall t :: 0 <= t < |order| ==> order[t] in blocks
  {
    if order == [] then 0 else blocks[order[0]].size + h + Footprint(blocks, order[1..], h)
  }

  lemma {:induction false} FootprintFrom(a: Arena, h: nat, t: nat)
    requires Valid(a, h) && t < |a.order|
    ensures Footprint(a.blocks, a.order[t..], h) + a.order[t] == MEMORY_SIZE
    decreases |a.order| - t
  {
    var rest := a.order[t..];
    assert rest[0] == a.order[t];
    assert Step(a, h, t);
    if t < |a.order| - 1 {
      FootprintFrom(a, h, t + 1);
      assert rest[1..] == a.order[t + 1..];
    } else {
      assert rest[1..] == [];
    }
  }

  /** Conservation: the listed blocks with their headers account for exactly the whole arena. */
  lemma Conservation(a: Arena, h: nat)
    requires Valid(a, h)
    ensures Footprint(a.blocks, a.order, h) == MEMORY_SIZE
  {
    FootprintFrom(a, h, 0);
    assert a.order[0..] == a.order;
  }

  /** Listed offsets strictly increase and stay inside the arena, so the list has no repeats and no cycle. */
  lemma Increasing(a: Arena, h: nat)
    requires Valid(a, h)
    ensures forall s, t :: 0 <= s < t < |a.order| ==> a.order[s] < a.order[t]
    ensures forall t :: 0 <= t < |a.order| ==> End(a.blocks, a.order[t], h) <= MEMORY_SIZE
  {
    forall s, t | 0 <= s < t < |a.order|
      ensures a.order[s] < a.order[t]
    {
      var u := s + 1;
      assert Step(a, h, s);
      while u < t
        invariant s < u <= t
        invariant a.order[s] < a.order[u]
      {
        assert Step(a, h, u);
        u := u + 1;
      }
    }
    forall t | 0 <= t < |a.order|
      ensures End(a.blocks, a.order[t], h) <= MEMORY_SIZE
    {
      assert Step(a, h, t);
      assert Step(a, h, |a.order| - 1);
    }
  }

  /** Every block after the head lies at or past the end of the head's payload. */
  lemma AfterHead(a: Arena, h: nat)
    requires Valid(a, h)
    ensures forall s :: 1 <= s < |a.order| ==> End(a.blocks, 0, h) <= a.order[s]
  {
    Increasing(a, h);
    assert Step(a, h, 0);
  }

  /** The offset at list position `s` appears nowhere else on the list. */
  lemma Apart(a: Arena, h: nat, s: nat)
    requires Valid(a, h) && s < |a.order|
    ensures forall t :: 0 <= t < |a.order| && t != s ==> a.order[t] != a.order[s]
  {
    Increasing(a, h);
  }

  /** Marking a record free leaves every link of the list as it was. */
  lemma MarkFreeKeepsLinks(a: Arena, b: nat, h: nat, a': Arena)
    requires Valid(a, h) && b in a.blocks
    requires a' == Arena(a.blocks[b := a.blocks[b].(free := true)], a.order)
    ensures Listed(a')
    ensures forall t :: 0 <= t < |a'.order| ==> LinkAt(a', t)
  {
    forall t | 0 <= t < |a'.order|
      ensures LinkAt(a', t)
    {
      assert Step(a, h, t);
    }
  }

  /** The first-fit test of `myMalloc`: the block is free and holds at least `need` bytes. */
  predicate Fits(b: Block, need: nat) {
    b.size >= need && b.free
  }

  /** First fit: the position of the first listed block from `from` on that is free and holds `need` bytes. */
  function FirstFit(blocks: map<nat, Block>, order: seq<nat>, need: nat, from: nat): (r: Option<nat>)
    requires forall t :: 0 <= t < |order| ==> order[t] in blocks
    decreases |order| - from
    ensures r.Some? ==> from <= r.value < |order| && Fits(blocks[order[r.value]], need)
    ensures r.Some? ==> forall t :: from <= t < r.value ==> !Fits(blocks[order[t]], need)
    ensures r.None? ==> forall t :: from <= t < |order| ==> !Fits(blocks[order[t]], need)
  {
    if from >= |order| then None
    else if Fits(blocks[order[from]], need) then Some(from)
    else FirstFit(blocks, order, need, from + 1)
  }

  /** The position of `x` in a list without repeats before it. */
  function IndexOf(s: seq<nat>, x: nat): (k: nat)
    requires x in s
    ensures k < |s| && s[k] == x
    ensures forall j :: 0 <= j < k ==> s[j] != x
  {
    if s[0] == x then 0 else 1 + IndexOf(s[1..], x)
  }

  // ---------------------------------------------------------------- allocation

  /** The head can give up `n` payload bytes and one header. */
  predicate HeadHolds(a: Arena, n: nat, h: nat) {
    0 in a.blocks && a.blocks[0].size >= n + h
  }

  /** The header offset of the block carved out of the end of the head's payload. */
  function CarvedAt(a: Arena, n: nat, h: nat): nat
    requires HeadHolds(a, n, h)
  {
    h + (a.blocks[0].size - n - h)
  }

  /**
   * The carve of `myMalloc`: the head shrinks by `n` plus a header, a used
   * block of `n` bytes is written where the head's payload now ends and is
   * linked directly after the head.
   */
  function Carve(a: Arena, n: nat, h: nat): Arena
    requires HeadHolds(a, n, h) && |a.order| > 0
  {
    var head := a.blocks[0];
    var at := CarvedAt(a, n, h);
    Arena(a.blocks[0 := head.(size := head.size - n - h, next := Some(at))][at := Block(n, false, head.next)],
          [0, at] + a.order[1..])
  }

  /** The carved block sits inside the head's old payload, before every later block, which all keep their records. */
  lemma CarveKeeps(a: Arena, n: nat, h: nat)
    requires Valid(a, h) && HeadHolds(a, n, h)
    ensures 0 < CarvedAt(a, n, h) && CarvedAt(a, n, h) + h + n == End(a.blocks, 0, h)
    ensures forall s :: 1 <= s < |a.order| ==>
              CarvedAt(a, n, h) < a.order[s] && Carve(a, n, h).blocks[a.order[s]] == a.blocks[a.order[s]]
    ensures Listed(Carve(a, n, h))
  {
    AfterHead(a, h);
    var r := Carve(a, n, h);
    assert forall t :: 2 <= t < |r.order| ==> r.order[t] == a.order[t - 1];
  }

  lemma CarveStep(a: Arena, n: nat, h: nat, t: nat)
    requires Valid(a, h) && HeadHolds(a, n, h)
    requires Listed(Carve(a, n, h)) && t < |Carve(a, n, h).order|
    ensures Step(Carve(a, n, h), h, t)
  {
    var o, o' := a.order, Carve(a, n, h).order;
    CarveKeeps(a, n, h);
    assert Step(a, h, 0);
    if t >= 2 {
      assert o'[t] == o[t - 1];
      assert Step(a, h, t - 1);
      if t + 1 < |o'| { assert o'[t + 1] == o[t]; }
    } else if t == 1 && 2 < |o'| {
      assert o'[2] == o[1];
    }
  }

  /** Carving keeps the arena valid, and so the conservation of its bytes. */
  lemma CarveValid(a: Arena, n: nat, h: nat)
    requires Valid(a, h) && HeadHolds(a, n, h)
    ensures Valid(Carve(a, n, h), h)
    ensures Footprint(Carve(a, n, h).blocks, Carve(a, n, h).order, h) == Footprint(a.blocks, a.order, h)
  {
    var r := Carve(a, n, h);
    CarveKeeps(a, n, h);
    forall t | 0 <= t < |r.order|
      ensures Step(r, h, t)
    {
      CarveStep(a, n, h, t);
    }
    assert OffListFree(r) by {
      forall x | x in r.blocks && x !in r.order
        ensures r.blocks[x].free
      {
      }
    }
    Conservation(a, h);
    Conservation(r, h);
  }

  // ------------------------------------------------------------------ release

  /** The conditions under which `Absorb` merges list positions `i - 1` .. `j - 1` into the record `x`. */
  ghost predicate Absorbable(a: Arena, h: nat, i: nat, j: nat, x: Block, m: map<nat, Block>) {
    && Valid(a, h) && 1 <= i <= j <= |a.order|
    && m.Keys == a.blocks.Keys
    && m[a.order[i - 1]] == x && x.free
    && (forall t :: 0 <= t < |a.order| && (t < i - 1 || j <= t) ==> m[a.order[t]] == a.blocks[a.order[t]])
    && (forall t :: i <= t < j ==> m[a.order[t]].free)
    && (forall o :: o in m && o !in a.order ==> m[o].free)
    && x.next == (if j < |a.order| then Some(a.order[j]) else None)
    && a.order[i - 1] + h + x.size == (if j < |a.order| then a.order[j] else MEMORY_SIZE)
    && (i >= 2 ==> !a.blocks[a.order[i - 2]].free)
    && (j < |a.order| ==> !a.blocks[a.order[j]].free)
  }

  lemma AbsorbStep(a: Arena, h: nat, i: nat, j: nat, x: Block, m: map<nat, Block>, t: nat)
    requires Absorbable(a, h, i, j, x, m)
    requires Listed(Arena(m, a.order[..i] + a.order[j..]))
    requires t < i + |a.order| - j
    ensures t < |a.order[..i] + a.order[j..]|
    ensures Step(Arena(m, a.order[..i] + a.order[j..]), h, t)
  {
    var o := a.order;
    var o' := o[..i] + o[j..];
    assert |o'| == i + |o| - j;
    if t >= i {
      assert o'[t] == o[t + j - i];
      assert Step(a, h, t + j - i);
      if t + 1 < |o'| { assert o'[t + 1] == o[t + 1 + j - i]; }
    } else if t == i - 1 {
      assert o'[t] == o[i - 1];
      if t + 1 < |o'| { assert o'[t + 1] == o[j]; }
    } else {
      assert o'[t] == o[t] && o'[t + 1] == o[t + 1];
      assert Step(a, h, t);
    }
  }

  /**
   * The general merge step. The record at list position `i - 1` is replaced by
   * the free record `x`, which spans exactly up to list position `j`; positions
   * `i` .. `j - 1` leave the list, and their records are free. If neither
   * neighbour of `x` is free, the arena stays valid.
   */
  lemma Absorb(a: Arena, h: nat, i: nat, j: nat, x: Block, m: map<nat, Block>)
    requires Absorbable(a, h, i, j, x, m)
    ensures Valid(Arena(m, a.order[..i] + a.order[j..]), h)
  {
    var o := a.order;
    var o' := o[..i] + o[j..];
    var r := Arena(m, o');
    assert |o'| == i + |o| - j;
    assert Listed(r) by {
      forall t | 0 <= t < |o'| ensures o'[t] in m {
        if t < i { assert o'[t] == o[t]; } else { assert o'[t] == o[t + j - i]; }
      }
    }
    forall t | 0 <= t < |o'|
      ensures Step(r, h, t)
    {
      AbsorbStep(a, h, i, j, x, m, t);
    }
    assert OffListFree(r);
    assert o'[0] == 0;
    assert m[0].free by {
      if i >= 2 { assert m[o[0]] == a.blocks[o[0]]; }
    }
  }

  /** The records with the block at list position `k` marked free. */
  ghost function Marked(a: Arena, k: nat): (m: map<nat, Block>)
    requires Listed(a) && k < |a.order|
    ensures m.Keys == a.blocks.Keys && m[a.order[k]].free
  {
    a.blocks[a.order[k] := a.blocks[a.order[k]].(free := true)]
  }

  /** The record `x` grown over the block `y` that follows it: its header and payload, and its link. */
  function Merged(x: Block, y: Block, h: nat): Block {
    x.(size := x.size + y.size + h, next := y.next)
  }

  /**
   * The coalescing of `myFree` for the block at list position `k`: it is
   * marked free; a free predecessor absorbs it, and then also a free
   * successor; otherwise a free successor is absorbed into it. Merged-away
   * blocks leave the list but their records stay in the arena.
   */
  ghost function Release(a: Arena, k: nat, h: nat): Arena
    requires Listed(a) && 1 <= k < |a.order|
  {
    var o, m := a.order, Marked(a, k);
    var p, b := o[k - 1], o[k];
    var nextFree := k + 1 < |o| && m[o[k + 1]].free;
    if m[p].free then
      if nextFree then Arena(m[p := Merged(Merged(m[p], m[b], h), m[o[k + 1]], h)], o[..k] + o[k + 2..])
      else Arena(m[p := Merged(m[p], m[b], h)], o[..k] + o[k + 1..])
    else if nextFree then Arena(m[b := Merged(m[b], m[o[k + 1]], h)], o[..k + 1] + o[k + 2..])
    else Arena(m, o)
  }

  /** The block at list position `k` links to the next position, and its neighbours sit at lower and higher offsets. */
  lemma Around(a: Arena, k: nat, h: nat)
    requires Valid(a, h) && 1 <= k < |a.order|
    ensures a.blocks[a.order[k]].next == if k + 1 < |a.order| then Some(a.order[k + 1]) else None
    ensures a.order[k - 1] < a.order[k]
    ensures k + 1 < |a.order| ==> a.order[k] < a.order[k + 1]
  {
    assert Step(a, h, k - 1);
    assert Step(a, h, k);
  }

  /** The neighbourhood of list position `k` that `Release` looks at. */
  lemma Neighbours(a: Arena, k: nat, h: nat)
    requires Valid(a, h) && 1 <= k < |a.order|
    ensures a.blocks[a.order[k]].next == if k + 1 < |a.order| then Some(a.order[k + 1]) else None
    ensures a.blocks[a.order[k - 1]].next == Some(a.order[k])
    ensures a.order[k] == End(a.blocks, a.order[k - 1], h)
    ensures k + 1 < |a.order| ==> a.order[k + 1] == End(a.blocks, a.order[k], h)
    ensures k + 1 < |a.order| ==> a.blocks[a.order[k + 1]].next == if k + 2 < |a.order| then Some(a.order[k + 2]) else None
    ensures k + 1 < |a.order| ==> End(a.blocks, a.order[k + 1], h) == if k + 2 < |a.order| then a.order[k + 2] else MEMORY_SIZE
    ensures k + 1 >= |a.order| ==> End(a.blocks, a.order[k], h) == MEMORY_SIZE
    ensures a.blocks[a.order[k - 1]].free && k >= 2 ==> !a.blocks[a.order[k - 2]].free
    ensures k + 1 < |a.order| && a.blocks[a.order[k + 1]].free && k + 2 < |a.order| ==> !a.blocks[a.order[k + 2]].free
  {
    assert Step(a, h, k - 1);
    assert Step(a, h, k);
    if k >= 2 { assert Step(a, h, k - 2); }
    if k + 1 < |a.order| { assert Step(a, h, k + 1); }
  }

  // Each of the four outcomes of `Release` is an instance of `Absorb`. For
  // each, one lemma establishes the conditions of `Absorb`, one shows that
  // `Release` takes that branch, and one puts the two together.

  lemma BothAbsorbable(a: Arena, k: nat, h: nat)
    requires Valid(a, h) && 1 <= k < |a.order| - 1
    requires a.blocks[a.order[k - 1]].free && a.blocks[a.order[k + 1]].free
    ensures var o, m := a.order, Marked(a, k);
            var x := Merged(Merged(m[o[k - 1]], m[o[k]], h), m[o[k + 1]], h);
            Absorbable(a, h, k, k + 2, x, m[o[k - 1] := x])
  {
    var o, m := a.order, Marked(a, k);
    var x := Merged(Merged(m[o[k - 1]], m[o[k]], h), m[o[k + 1]], h);
    var m' := m[o[k - 1] := x];
    Neighbours(a, k, h);
    Apart(a, h, k - 1);
    Apart(a, h, k);
    Apart(a, h, k + 1);
    assert forall t :: 0 <= t < |o| && (t < k - 1 || k + 2 <= t) ==> m'[o[t]] == a.blocks[o[t]];
    assert forall t :: k <= t < k + 2 ==> m'[o[t]].free;
    assert forall y :: y in m' && y !in o ==> m'[y].free;
  }

  lemma BothShape(a: Arena, k: nat, h: nat)
    requires Valid(a, h) && 1 <= k < |a.order| - 1
    requires a.blocks[a.order[k - 1]].free && a.blocks[a.order[k + 1]].free
    ensures var o, m := a.order, Marked(a, k);
            Release(a, k, h) == Arena(m[o[k - 1] := Merged(Merged(m[o[k - 1]], m[o[k]], h), m[o[k + 1]], h)], o[..k] + o[k + 2..])
  {
    Around(a, k, h);
  }

  lemma ReleaseIntoBoth(a: Arena, k: nat, h: nat)
    requires Valid(a, h) && 1 <= k < |a.order| - 1
    requires a.blocks[a.order[k - 1]].free && a.blocks[a.order[k + 1]].free
    ensures Valid(Release(a, k, h), h)
  {
    var o, m := a.order, Marked(a, k);
    var x := Merged(Merged(m[o[k - 1]], m[o[k]], h), m[o[k + 1]], h);
    BothAbsorbable(a, k, h);
    Absorb(a, h, k, k + 2, x, m[o[k - 1] := x]);
    BothShape(a, k, h);
  }

  lemma PredAbsorbable(a: Arena, k: nat, h: nat)
    requires Valid(a, h) && 1 <= k < |a.order|
    requires a.blocks[a.order[k - 1]].free && !(k + 1 < |a.order| && a.blocks[a.order[k + 1]].free)
    ensures var o, m := a.order, Marked(a, k);
            var x := Merged(m[o[k - 1]], m[o[k]], h);
            Absorbable(a, h, k, k + 1, x, m[o[k - 1] := x])
  {
    var o, m := a.order, Marked(a, k);
    var x := Merged(m[o[k - 1]], m[o[k]], h);
    var m' := m[o[k - 1] := x];
    Neighbours(a, k, h);
    Apart(a, h, k - 1);
    Apart(a, h, k);
    assert forall t :: 0 <= t < |o| && (t < k - 1 || k + 1 <= t) ==> m'[o[t]] == a.blocks[o[t]];
    assert forall y :: y in m' && y !in o ==> m'[y].free;
  }

  lemma PredShape(a: Arena, k: nat, h: nat)
    requires Valid(a, h) && 1 <= k < |a.order|
    requires a.blocks[a.order[k - 1]].free && !(k + 1 < |a.order| && a.blocks[a.order[k + 1]].free)
    ensures var o, m := a.order, Marked(a, k);
            Release(a, k, h) == Arena(m[o[k - 1] := Merged(m[o[k - 1]], m[o[k]], h)], o[..k] + o[k + 1..])
  {
    Around(a, k, h);
  }

  lemma ReleaseIntoPred(a: Arena, k: nat, h: nat)
    requires Valid(a, h) && 1 <= k < |a.order|
    requires a.blocks[a.order[k - 1]].free && !(k + 1 < |a.order| && a.blocks[a.order[k + 1]].free)
    ensures Valid(Release(a, k, h), h)
  {
    var o, m := a.order, Marked(a, k);
    var x := Merged(m[o[k - 1]], m[o[k]], h);
    PredAbsorbable(a, k, h);
    Absorb(a, h, k, k + 1, x, m[o[k - 1] := x]);
    PredShape(a, k, h);
  }

  lemma NextAbsorbable(a: Arena, k: nat, h: nat)
    requires Valid(a, h) && 1 <= k < |a.order| - 1
    requires !a.blocks[a.order[k - 1]].free && a.blocks[a.order[k + 1]].free
    ensures var o, m := a.order, Marked(a, k);
            var x := Merged(m[o[k]], m[o[k + 1]], h);
            Absorbable(a, h, k + 1, k + 2, x, m[o[k] := x])
  {
    var o, m := a.order, Marked(a, k);
    var x := Merged(m[o[k]], m[o[k + 1]], h);
    var m' := m[o[k] := x];
    Neighbours(a, k, h);
    Apart(a, h, k);
    Apart(a, h, k + 1);
    assert forall t :: 0 <= t < |o| && (t < k || k + 2 <= t) ==> m'[o[t]] == a.blocks[o[t]];
    assert forall y :: y in m' && y !in o ==> m'[y].free;
  }

  lemma NextShape(a: Arena, k: nat, h: nat)
    requires Valid(a, h) && 1 <= k < |a.order| - 1
    requires !a.blocks[a.order[k - 1]].free && a.blocks[a.order[k + 1]].free
    ensures var o, m := a.order, Marked(a, k);
            Release(a, k, h) == Arena(m[o[k] := Merged(m[o[k]], m[o[k + 1]], h)], o[..k + 1] + o[k + 2..])
  {
    Around(a, k, h);
  }

  lemma ReleaseNext(a: Arena, k: nat, h: nat)
    requires Valid(a, h) && 1 <= k < |a.order| - 1
    requires !a.blocks[a.order[k - 1]].free && a.blocks[a.order[k + 1]].free
    ensures Valid(Release(a, k, h), h)
  {
    var o, m := a.order, Marked(a, k);
    var x := Merged(m[o[k]], m[o[k + 1]], h);
    NextAbsorbable(a, k, h);
    Absorb(a, h, k + 1, k + 2, x, m[o[k] := x]);
    NextShape(a, k, h);
  }

  lemma AloneAbsorbable(a: Arena, k: nat, h: nat)
    requires Valid(a, h) && 1 <= k < |a.order|
    requires !a.blocks[a.order[k - 1]].free && !(k + 1 < |a.order| && a.blocks[a.order[k + 1]].free)
    ensures Absorbable(a, h, k + 1, k + 1, Marked(a, k)[a.order[k]], Marked(a, k))
  {
    var o, m := a.order, Marked(a, k);
    Neighbours(a, k, h);
    Apart(a, h, k);
    assert forall t :: 0 <= t < |o| && t != k ==> m[o[t]] == a.blocks[o[t]];
    assert forall y :: y in m && y !in o ==> m[y].free;
  }

  lemma AloneShape(a: Arena, k: nat, h: nat)
    requires Valid(a, h) && 1 <= k < |a.order|
    requires !a.blocks[a.order[k - 1]].free && !(k + 1 < |a.order| && a.blocks[a.order[k + 1]].free)
    ensures Release(a, k, h) == Arena(Marked(a, k), a.order[..k + 1] + a.order[k + 1..])
  {
    Around(a, k, h);
    assert a.order[..k + 1] + a.order[k + 1..] == a.order;
  }

  lemma ReleaseAlone(a: Arena, k: nat, h: nat)
    requires Valid(a, h) && 1 <= k < |a.order|
    requires !a.blocks[a.order[k - 1]].free && !(k + 1 < |a.order| && a.blocks[a.order[k + 1]].free)
    ensures Valid(Release(a, k, h), h)
  {
    AloneAbsorbable(a, k, h);
    Absorb(a, h, k + 1, k + 1, Marked(a, k)[a.order[k]], Marked(a, k));
    AloneShape(a, k, h);
  }

  /** Releasing keeps the arena valid, and so the conservation of its bytes. */
  lemma ReleaseValid(a: Arena, k: nat, h: nat)
    requires Valid(a, h) && 1 <= k < |a.order|
    ensures Valid(Release(a, k, h), h)
    ensures Footprint(Release(a, k, h).blocks, Release(a, k, h).order, h) == MEMORY_SIZE
    ensures Release(a, k, h).blocks.Keys == a.blocks.Keys
  {
    var o := a.order;
    var predFree := a.blocks[o[k - 1]].free;
    var nextFree := k + 1 < |o| && a.blocks[o[k + 1]].free;
    if predFree && nextFree {
      ReleaseIntoBoth(a, k, h);
    } else if predFree {
      ReleaseIntoPred(a, k, h);
    } else if nextFree {
      ReleaseNext(a, k, h);
    } else {
      ReleaseAlone(a, k, h);
    }
    Conservation(Release(a, k, h), h);
  }

  /**
   * The outcomes of coalescing, in terms of the records before the call: a
   * free predecessor grows by the block and its header, and by a free
   * successor and its header too; otherwise the block itself, now free, grows
   * by a free successor and its header. Every merged-away block leaves the list,
   * and every record other than the block's and its predecessor's is unchanged.
   */
  lemma ReleaseOutcomes(a: Arena, k: nat, h: nat)
    requires Valid(a, h) && 1 <= k < |a.order|
    ensures var o, r := a.order, Release(a, k, h);
            var p, b := o[k - 1], o[k];
            var nextFree := k + 1 < |o| && a.blocks[o[k + 1]].free;
            var absorbed := if nextFree then a.blocks[o[k + 1]].size + h else 0;
            var rest := if nextFree then k + 2 else k + 1;
            && p in r.blocks && b in r.blocks
            && (a.blocks[p].free ==>
                  && r.blocks[p].size == a.blocks[p].size + a.blocks[b].size + h + absorbed
                  && r.order == o[..k] + o[rest..])
            && (!a.blocks[p].free ==>
                  && r.blocks[b].size == a.blocks[b].size + absorbed
                  && r.blocks[b].free
                  && r.order == o[..k + 1] + o[rest..])
            && (forall x :: x in a.blocks && x != p && x != b ==> x in r.blocks && r.blocks[x] == a.blocks[x])
  {
    var o := a.order;
    var predFree := a.blocks[o[k - 1]].free;
    var nextFree := k + 1 < |o| && a.blocks[o[k + 1]].free;
    Around(a, k, h);
    if predFree && nextFree {
      BothShape(a, k, h);
    } else if predFree {
      PredShape(a, k, h);
    } else if nextFree {
      NextShape(a, k, h);
    } else {
      AloneShape(a, k, h);
    }
  }

  /**
   * The released bytes end up inside one free listed block: the predecessor's
   * when the predecessor was free (it absorbed the block), otherwise the
   * block's own, which stays at its list position.
   */
  lemma ReleaseCovers(a: Arena, k: nat, h: nat)
    requires Valid(a, h) && 1 <= k < |a.order|
    ensures var r, t := Release(a, k, h), if a.blocks[a.order[k - 1]].free then k - 1 else k;
            && Listed(r) && t < |r.order|
            && r.order[t] <= a.order[k]
            && End(a.blocks, a.order[k], h) <= End(r.blocks, r.order[t], h)
            && r.blocks[r.order[t]].free
  {
    var o := a.order;
    var predFree := a.blocks[o[k - 1]].free;
    var nextFree := k + 1 < |o| && a.blocks[o[k + 1]].free;
    Neighbours(a, k, h);
    ReleaseValid(a, k, h);
    if predFree && nextFree {
      BothShape(a, k, h);
    } else if predFree {
      PredShape(a, k, h);
    } else if nextFree {
      NextShape(a, k, h);
    } else {
      AloneShape(a, k, h);
    }
  }

  /** The handle may be passed to `myFree`: NULL, or a payload address whose header is in the arena. */
  predicate Freeable(a: Arena, ptr: Option<nat>, h: nat) {
    ptr.Some? ==> ptr.value >= h && ptr.value - h in a.blocks
  }

  /**
   * `myFree`: NULL and an already free block are left alone; otherwise the
   * header one header-size before the handle is released at its list position.
   */
  ghost function FreeSpec(a: Arena, ptr: Option<nat>, h: nat): Arena
    requires Valid(a, h) && Freeable(a, ptr, h)
  {
    if ptr.None? then a
    else
      var b := ptr.value - h;
      if a.blocks[b].free then a
      else Release(a, IndexOf(a.order, b), h)
  }

  /** A used block is on the list and is not the head, so it has a predecessor. */
  lemma UsedIsListed(a: Arena, b: nat, h: nat)
    requires Valid(a, h) && b in a.blocks && !a.blocks[b].free
    ensures b in a.order && 1 <= IndexOf(a.order, b)
  {
  }

  /** Freeing a block in use is its release at its list position. */
  lemma FreeIsRelease(a: Arena, ptr: Option<nat>, h: nat)
    requires Valid(a, h) && Freeable(a, ptr, h) && ptr.Some? && !a.blocks[ptr.value - h].free
    ensures ptr.value - h in a.order && 1 <= IndexOf(a.order, ptr.value - h)
    ensures FreeSpec(a, ptr, h) == Release(a, IndexOf(a.order, ptr.value - h), h)
  {
    UsedIsListed(a, ptr.value - h, h);
  }

  /** Every outcome of `myFree` keeps the arena valid and conserves its bytes. */
  lemma FreeValid(a: Arena, ptr: Option<nat>, h: nat)
    requires Valid(a, h) && Freeable(a, ptr, h)
    ensures Valid(FreeSpec(a, ptr, h), h)
    ensures FreeSpec(a, ptr, h).blocks.Keys == a.blocks.Keys
    ensures Footprint(FreeSpec(a, ptr, h).blocks, FreeSpec(a, ptr, h).order, h) == MEMORY_SIZE
  {
    if ptr.None? || a.blocks[ptr.value - h].free {
      assert FreeSpec(a, ptr, h) == a;
      Conservation(a, h);
    } else {
      FreeIsRelease(a, ptr, h);
      ReleaseValid(a, IndexOf(a.order, ptr.value - h), h);
    }
  }

  /** Whichever merge happens, the released record reads as free afterwards. */
  lemma ReleaseMarksFree(a: Arena, k: nat, h: nat)
    requires Listed(a) && 1 <= k < |a.order| && a.order[k - 1] != a.order[k]
    ensures a.order[k] in Release(a, k, h).blocks
    ensures Release(a, k, h).blocks[a.order[k]].free
  {
  }

  /** After `myFree` the released header reads as free, whichever merge happened. */
  lemma FreeMarksFree(a: Arena, ptr: Option<nat>, h: nat)
    requires Valid(a, h) && Freeable(a, ptr, h) && ptr.Some?
    ensures ptr.value - h in FreeSpec(a, ptr, h).blocks
    ensures FreeSpec(a, ptr, h).blocks[ptr.value - h].free
  {
    var b := ptr.value - h;
    if !a.blocks[b].free {
      FreeIsRelease(a, ptr, h);
      var k := IndexOf(a.order, b);
      Around(a, k, h);
      ReleaseMarksFree(a, k, h);
    }
  }

  /** `myFree` changes the arena exactly when it is handed a block in use: NULL and free blocks are left alone. */
  lemma FreeChanges(a: Arena, ptr: Option<nat>, h: nat)
    requires Valid(a, h) && Freeable(a, ptr, h)
    ensures FreeSpec(a, ptr, h) != a <==> ptr.Some? && !a.blocks[ptr.value - h].free
  {
    if ptr.Some? {
      FreeMarksFree(a, ptr, h);
    }
  }

  /** A second `myFree` of the same handle changes nothing. */
  lemma FreeIdempotent(a: Arena, ptr: Option<nat>, h: nat)
    requires Valid(a, h) && Freeable(a, ptr, h)
    ensures Valid(FreeSpec(a, ptr, h), h) && Freeable(FreeSpec(a, ptr, h), ptr, h)
    ensures FreeSpec(FreeSpec(a, ptr, h), ptr, h) == FreeSpec(a, ptr, h)
  {
    FreeValid(a, ptr, h);
    if ptr.Some? {
      FreeMarksFree(a, ptr, h);
    }
  }

  /** The block carved out of the head sits at list position 1 and is in use. */
  lemma CarvedSecond(a: Arena, n: nat, h: nat)
    requires Valid(a, h) && HeadHolds(a, n, h)
    ensures Listed(Carve(a, n, h)) && 1 < |Carve(a, n, h).order|
    ensures IndexOf(Carve(a, n, h).order, CarvedAt(a, n, h)) == 1
    ensures Freeable(Carve(a, n, h), Some(CarvedAt(a, n, h) + h), h)
    ensures !Carve(a, n, h).blocks[CarvedAt(a, n, h)].free
  {
    assert Carve(a, n, h).order[1] == CarvedAt(a, n, h);
  }

  /** Releasing list position 1 of the carved arena merges the carved block back into the head. */
  lemma CarveThenRelease(a: Arena, n: nat, h: nat)
    requires Valid(a, h) && HeadHolds(a, n, h)
    requires Listed(Carve(a, n, h)) && 1 < |Carve(a, n, h).order|
    ensures Release(Carve(a, n, h), 1, h) == Arena(a.blocks[CarvedAt(a, n, h) := Block(n, true, a.blocks[0].next)], a.order)
  {
    var c := Carve(a, n, h);
    var at := CarvedAt(a, n, h);
    var o := a.order;
    var head := a.blocks[0];
    var m := Marked(c, 1);
    assert m == c.blocks[at := Block(n, true, head.next)];
    assert m[0].free && m[0].size + n + h == head.size;
    assert !(2 < |c.order| && m[c.order[2]].free) by {
      AfterHead(a, h);
      assert Step(a, h, 0);
      if 2 < |c.order| {
        assert c.order[2] == o[1] && o[1] != at && !a.blocks[o[1]].free;
      }
    }
    assert Release(c, 1, h) == Arena(m[0 := head], c.order[..1] + c.order[2..]);
    assert c.order[..1] + c.order[2..] == o;
    assert m[0 := head] == a.blocks[at := Block(n, true, head.next)];
  }

  /**
   * Freeing the block just carved out of the head merges it straight back:
   * the list and every listed record are as before the carve, and only the
   * merged-away header remains in the arena, marked free.
   */
  lemma CarveReleaseRoundTrip(a: Arena, n: nat, h: nat)
    requires Valid(a, h) && HeadHolds(a, n, h)
    ensures Valid(Carve(a, n, h), h) && Freeable(Carve(a, n, h), Some(CarvedAt(a, n, h) + h), h)
    ensures FreeSpec(Carve(a, n, h), Some(CarvedAt(a, n, h) + h), h)
            == Arena(a.blocks[CarvedAt(a, n, h) := Block(n, true, a.blocks[0].next)], a.order)
  {
    CarveValid(a, n, h);
    CarvedSecond(a, n, h);
    FreeIsRelease(Carve(a, n, h), Some(CarvedAt(a, n, h) + h), h);
    CarveThenRelease(a, n, h);
  }
}
