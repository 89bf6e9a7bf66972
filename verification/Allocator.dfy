/** A first-fit allocator whose chunk headers form a chain inside its arena
    (binr/preload/alloc.c:25-100).  Addresses are offsets from mem_start_p. */
module Allocator {
  import opened Lists

  const MCB_SIZE: nat := 8
  const INT_MAX: nat := 0x7FFF_FFFF

  /** A header as it reads at some offset; untouched memory reads as zeros. */
  datatype Mcb = Mcb(available: int, size: int)
  const ZEROS := Mcb(0, 0)

  /** A chunk of the chain, header included. */
  datatype Chunk = Chunk(start: nat, size: nat, used: bool)

  function At(mem: map<nat, Mcb>, o: nat): Mcb {
    if o in mem then mem[o] else ZEROS
  }

  /** Where the chain ends: the first offset never handed out. */
  function Frontier(cs: seq<Chunk>): nat {
    if cs == [] then 0 else cs[|cs| - 1].start + cs[|cs| - 1].size
  }

  function InUse(cs: seq<Chunk>): nat {
    if cs == [] then 0 else InUse(cs[..|cs| - 1]) + if cs[|cs| - 1].used then cs[|cs| - 1].size else 0
  }

  function CountUsed(cs: seq<Chunk>): nat {
    if cs == [] then 0 else CountUsed(cs[..|cs| - 1]) + if cs[|cs| - 1].used then 1 else 0
  }

  /** The chunks tile the arena from its start, each with room for its header. */
  ghost predicate Tiles(cs: seq<Chunk>) {
    && (forall i :: 0 <= i < |cs| ==> cs[i].size >= MCB_SIZE)
    && (cs != [] ==> cs[0].start == 0)
    && (forall i :: 0 < i < |cs| ==> cs[i].start == cs[i - 1].start + cs[i - 1].size)
  }

  /** Memory holds the headers of the chunks, and zeros behind them. */
  ghost predicate Headers(mem: map<nat, Mcb>, cs: seq<Chunk>) {
    && (forall i :: 0 <= i < |cs| ==> At(mem, cs[i].start) == Mcb(if cs[i].used then 1 else 0, cs[i].size))
    && (forall o: nat :: o >= Frontier(cs) ==> At(mem, o) == ZEROS)
  }

  lemma {:induction false} StartsGrow(cs: seq<Chunk>, i: nat, j: nat)
    requires Tiles(cs) && i < j < |cs|
    ensures cs[i].start + cs[i].size <= cs[j].start
    decreases j
  {
    if i < j - 1 { StartsGrow(cs, i, j - 1); }
  }

  lemma EndsBelowFrontier(cs: seq<Chunk>, i: nat)
    requires Tiles(cs) && i < |cs|
    ensures cs[i].start + cs[i].size <= Frontier(cs)
  {
    if i < |cs| - 1 { StartsGrow(cs, i, |cs| - 1); }
  }

  lemma {:induction false} InUseBounds(cs: seq<Chunk>)
    requires Tiles(cs)
    ensures InUse(cs) <= Frontier(cs)
    ensures forall i :: 0 <= i < |cs| && !cs[i].used ==> InUse(cs) + cs[i].size <= Frontier(cs)
  {
    if cs != [] { InUseBounds(cs[..|cs| - 1]); }
  }

  lemma {:induction false} UsedSet(cs: seq<Chunk>, i: nat, used: bool)
    requires i < |cs| && cs[i].used != used
    ensures used ==> InUse(cs[i := cs[i].(used := used)]) == InUse(cs) + cs[i].size
    ensures used ==> CountUsed(cs[i := cs[i].(used := used)]) == CountUsed(cs) + 1
    ensures !used ==> InUse(cs[i := cs[i].(used := used)]) == InUse(cs) - cs[i].size
    ensures !used ==> CountUsed(cs[i := cs[i].(used := used)]) == CountUsed(cs) - 1
  {
    var cs' := cs[i := cs[i].(used := used)];
    if i == |cs| - 1 {
      assert cs'[..i] == cs[..i];
    } else {
      assert cs'[..|cs| - 1] == cs[..|cs| - 1][i := cs[i].(used := used)];
      UsedSet(cs[..|cs| - 1], i, used);
    }
  }

  lemma UsedAppend(cs: seq<Chunk>, c: Chunk)
    ensures InUse(cs + [c]) == InUse(cs) + (if c.used then c.size else 0)
    ensures CountUsed(cs + [c]) == CountUsed(cs) + (if c.used then 1 else 0)
  {
    assert (cs + [c])[..|cs|] == cs;
  }

  /** Chunk i can take an allocation of need bytes, header included. */
  predicate Fits(cs: seq<Chunk>, i: nat, need: nat) {
    i < |cs| && !cs[i].used && cs[i].size >= need
  }

  /** i is the first chunk that can. */
  ghost predicate FirstFit(cs: seq<Chunk>, i: nat, need: nat) {
    Fits(cs, i, need) && forall j: nat :: j < i ==> !Fits(cs, j, need)
  }

  ghost predicate NoFit(cs: seq<Chunk>, need: nat) {
    forall i: nat :: !Fits(cs, i, need)
  }

  class Heap {
    const max: nat
    var mem: map<nat, Mcb>
    var allocatedMem: int
    var mcbCount: int
    ghost var cs: seq<Chunk>

    ghost predicate Valid()
      reads this
    {
      && Tiles(cs) && Headers(mem, cs) && (cs == [] || Frontier(cs) < max) && max <= INT_MAX
      && mcbCount == CountUsed(cs) && allocatedMem + mcbCount * MCB_SIZE == InUse(cs)
    }

    /** InitMem. */
    constructor (size: nat)
      requires size <= INT_MAX
      ensures Valid() && cs == [] && max == size
    {
      max := size;
      mem, allocatedMem, mcbCount, cs := map[], 0, 0, [];
    }

    /** The walk of r_malloc along the headers: it ends at the first free chunk that is large
        enough, at the frontier, or where the request would reach the end of the arena. */
    method Walk(need: nat) returns (found: bool, p: nat, ghost i: nat)
      requires Valid() && need >= MCB_SIZE
      ensures i <= |cs| && p == if i < |cs| then cs[i].start else Frontier(cs)
      ensures found && i < |cs| ==> FirstFit(cs, i, need)
      ensures found && i == |cs| ==> NoFit(cs, need) && p + need < max
      ensures !found ==> NoFit(cs, need) && Frontier(cs) + need >= max
    {
      found, p, i := false, 0, 0;
      while max > p + need
        invariant i <= |cs| && p == if i < |cs| then cs[i].start else Frontier(cs)
        invariant forall j: nat :: j < i ==> !Fits(cs, j, need)
        decreases |cs| - i
      {
        if At(mem, p).available == 0 {
          if At(mem, p).size == 0 { return true, p, i; }
          if At(mem, p).size >= need { return true, p, i; }
        }
        p := p + At(mem, p).size;
        i := i + 1;
      }
      NoneBehind(cs, max, i, p, need);
    }

    /** Behind the walk: the chunk found is free and is handed out whole. */
    method Reuse(p: nat, ghost i: nat)
      requires Valid() && i < |cs| && !cs[i].used && p == cs[i].start
      modifies this
      ensures Valid() && cs == old(cs)[i := old(cs)[i].(used := true)]
    {
      UsedSet(cs, i, true);
      HeadersAfterReuse(mem, cs, i, true);
      var payload := At(mem, p).size - MCB_SIZE;
      mem := mem[p := At(mem, p).(available := 1)];
      mcbCount, allocatedMem := mcbCount + 1, allocatedMem + payload;
      cs := cs[i := cs[i].(used := true)];
    }

    /** Behind the walk: a new chunk at the frontier. */
    method Extend(p: nat, need: nat)
      requires Valid() && need >= MCB_SIZE && p == Frontier(cs) && p + need < max
      modifies this
      ensures Valid() && cs == old(cs) + [Chunk(Frontier(old(cs)), need, true)]
    {
      UsedAppend(cs, Chunk(p, need, true));
      HeadersAfterExtend(mem, cs, need);
      mem := mem[p := Mcb(1, need)];
      mcbCount, allocatedMem := mcbCount + 1, allocatedMem + need - MCB_SIZE;
      cs := cs + [Chunk(p, need, true)];
    }

    /** r_malloc: the first free chunk that is large enough, whole; else a new chunk at the
        frontier; else nothing.  The offset returned is that of the payload. */
    method Malloc(elem: nat) returns (r: Option<nat>)
      requires Valid() && elem + MCB_SIZE <= INT_MAX
      modifies this
      ensures Valid()
      ensures forall i: nat :: FirstFit(old(cs), i, elem + MCB_SIZE) ==>
        r == Some(old(cs)[i].start + MCB_SIZE) && cs == old(cs)[i := old(cs)[i].(used := true)]
      ensures NoFit(old(cs), elem + MCB_SIZE) && Frontier(old(cs)) + elem + MCB_SIZE < max ==>
        r == Some(Frontier(old(cs)) + MCB_SIZE) && cs == old(cs) + [Chunk(Frontier(old(cs)), elem + MCB_SIZE, true)]
      ensures NoFit(old(cs), elem + MCB_SIZE) && Frontier(old(cs)) + elem + MCB_SIZE >= max ==>
        r == None && cs == old(cs) && mem == old(mem) && allocatedMem == old(allocatedMem) && mcbCount == old(mcbCount)
    {
      var need := elem + MCB_SIZE;
      if need > max - (allocatedMem + mcbCount * MCB_SIZE) {
        EarlyTestRight(cs, max, need);
        return None;
      }
      var found, p;
      ghost var i;
      found, p, i := Walk(need);
      if !found { return None; }
      r := Some(p + MCB_SIZE);
      if At(mem, p).size != 0 { Reuse(p, i); } else { Extend(p, need); }
    }

    /** r_free of the payload of chunk i: freeing twice changes nothing. */
    method Free(p: nat, ghost i: nat)
      requires Valid() && i < |cs| && p == cs[i].start + MCB_SIZE
      modifies this
      ensures Valid() && cs == old(cs)[i := old(cs)[i].(used := false)]
      ensures !old(cs)[i].used ==> mem == old(mem) && allocatedMem == old(allocatedMem) && mcbCount == old(mcbCount)
    {
      var h := p - MCB_SIZE;
      if At(mem, h).available != 0 {
        UsedSet(cs, i, false);
        HeadersAfterReuse(mem, cs, i, false);
        mcbCount := mcbCount - 1;
        allocatedMem := allocatedMem - (At(mem, h).size - MCB_SIZE);
        mem := mem[h := At(mem, h).(available := 0)];
        cs := cs[i := cs[i].(used := false)];
      } else {
        assert cs == cs[i := cs[i].(used := false)];
      }
    }

    /** A client writes n bytes inside a payload it owns: whatever headers would read there, the
        allocator's state is not affected. */
    method ClientWrite(ghost i: nat, o: nat, n: nat, mem': map<nat, Mcb>)
      requires Valid() && i < |cs| && cs[i].start + MCB_SIZE <= o && o + n <= cs[i].start + cs[i].size
      requires forall a: nat :: a + MCB_SIZE <= o || o + n <= a ==> At(mem', a) == At(mem, a)
      modifies this`mem
      ensures Valid()
    {
      EndsBelowFrontier(cs, i);
      forall j | 0 <= j < |cs| ensures At(mem', cs[j].start) == At(mem, cs[j].start) {
        if i < j { StartsGrow(cs, i, j); } else if j < i { StartsGrow(cs, j, i); }
      }
      mem := mem';
    }
  }

  /** The early capacity test never turns away a request that would fit. */
  lemma EarlyTestRight(cs: seq<Chunk>, max: nat, need: nat)
    requires Tiles(cs) && (cs == [] || Frontier(cs) < max) && need > max - InUse(cs)
    ensures NoFit(cs, need) && Frontier(cs) + need >= max
  {
    InUseBounds(cs);
    forall i: nat ensures !Fits(cs, i, need) {
      if i < |cs| && !cs[i].used { EndsBelowFrontier(cs, i); }
    }
  }

  /** Once a request no longer fits before the end of the arena, no later chunk can take it. */
  lemma NoneBehind(cs: seq<Chunk>, max: nat, i: nat, p: nat, need: nat)
    requires Tiles(cs) && (cs == [] || Frontier(cs) < max) && i <= |cs| && max <= p + need
    requires p == if i < |cs| then cs[i].start else Frontier(cs)
    requires forall j: nat :: j < i ==> !Fits(cs, j, need)
    ensures NoFit(cs, need) && Frontier(cs) + need >= max
  {
    if i < |cs| { EndsBelowFrontier(cs, i); }
    forall j: nat ensures !Fits(cs, j, need) {
      if i <= j < |cs| {
        EndsBelowFrontier(cs, j);
        if i < j { StartsGrow(cs, i, j); }
      }
    }
  }

  lemma HeadersAfterReuse(mem: map<nat, Mcb>, cs: seq<Chunk>, i: nat, used: bool)
    requires Tiles(cs) && Headers(mem, cs) && i < |cs|
    ensures Tiles(cs[i := cs[i].(used := used)]) && Frontier(cs[i := cs[i].(used := used)]) == Frontier(cs)
    ensures Headers(mem[cs[i].start := Mcb(if used then 1 else 0, cs[i].size)], cs[i := cs[i].(used := used)])
  {
    var cs' := cs[i := cs[i].(used := used)];
    EndsBelowFrontier(cs, i);
    assert forall j :: 0 <= j < |cs| ==> cs'[j].start == cs[j].start && cs'[j].size == cs[j].size;
    forall j | 0 <= j < |cs| && j != i ensures cs[j].start != cs[i].start {
      if i < j { StartsGrow(cs, i, j); } else { StartsGrow(cs, j, i); }
    }
    var mem' := mem[cs[i].start := Mcb(if used then 1 else 0, cs[i].size)];
    forall j | 0 <= j < |cs'| ensures At(mem', cs'[j].start) == Mcb(if cs'[j].used then 1 else 0, cs'[j].size) {
      if j != i { assert cs'[j] == cs[j] && cs[j].start != cs[i].start; }
    }
    forall o: nat | o >= Frontier(cs') ensures At(mem', o) == ZEROS { assert At(mem, o) == ZEROS; }
  }

  lemma HeadersAfterExtend(mem: map<nat, Mcb>, cs: seq<Chunk>, need: nat)
    requires Tiles(cs) && Headers(mem, cs) && need >= MCB_SIZE
    ensures Tiles(cs + [Chunk(Frontier(cs), need, true)])
    ensures Headers(mem[Frontier(cs) := Mcb(1, need)], cs + [Chunk(Frontier(cs), need, true)])
  {
    forall j | 0 <= j < |cs| ensures cs[j].start < Frontier(cs) { EndsBelowFrontier(cs, j); }
    var cs' := cs + [Chunk(Frontier(cs), need, true)];
    forall j | 0 < j < |cs'| ensures cs'[j].start == cs'[j - 1].start + cs'[j - 1].size {
      assert cs'[j - 1] == cs[j - 1] && (j < |cs| ==> cs'[j] == cs[j]);
    }
    var mem' := mem[Frontier(cs) := Mcb(1, need)];
    forall j | 0 <= j < |cs'| ensures At(mem', cs'[j].start) == Mcb(if cs'[j].used then 1 else 0, cs'[j].size) {
      if j < |cs| { assert cs'[j] == cs[j] && cs[j].start < Frontier(cs); }
    }
    forall o: nat | o >= Frontier(cs') ensures At(mem', o) == ZEROS { assert At(mem, o) == ZEROS; }
  }

  /** The payloads of different chunks do not overlap, and lie inside the arena. */
  lemma PayloadsApart(cs: seq<Chunk>, max: nat, i: nat, j: nat)
    requires Tiles(cs) && (cs == [] || Frontier(cs) < max) && i < j < |cs|
    ensures cs[i].start + cs[i].size <= cs[j].start < cs[j].start + MCB_SIZE <= cs[j].start + cs[j].size < max
  {
    StartsGrow(cs, i, j);
    EndsBelowFrontier(cs, j);
  }
}
