/** Instruction offsets of a basic block (libr/anal/bb.c:48-96) and what splitting and merging
    blocks does to them (libr/anal/block.c:370-392, 421-426). */
module Offsets {

  const UT16_MAX: nat := 0xFFFF

  /** op_pos holds the offsets of instructions 1, 2, ...; the first offset is always 0.  Only
      ninstr instructions are in use; the table may be longer. */
  datatype Ops = Ops(ninstr: nat, pos: seq<nat>)

  /** r_anal_bb_offset_inst. */
  function OffsetInst(t: Ops, i: int): nat {
    if i < 0 || i >= t.ninstr then UT16_MAX
    else if i > 0 && i - 1 < |t.pos| then t.pos[i - 1]
    else 0
  }

  /** A block of that many bytes: instructions start inside it at increasing offsets, which are
      all representable, and are all stored. */
  ghost predicate WellFormed(t: Ops, size: nat) {
    && t.ninstr <= |t.pos|
    && (forall i :: 0 < i < t.ninstr ==> OffsetInst(t, i - 1) < OffsetInst(t, i))
    && (forall i :: 0 <= i < t.ninstr ==> OffsetInst(t, i) < size && OffsetInst(t, i) < UT16_MAX)
  }

  lemma {:induction false} Increasing(t: Ops, size: nat, i: nat, j: nat)
    requires WellFormed(t, size) && i < j < t.ninstr
    ensures OffsetInst(t, i) < OffsetInst(t, j)
    decreases j
  {
    if i < j - 1 { Increasing(t, size, i, j - 1); }
    assert OffsetInst(t, j - 1) < OffsetInst(t, j);
  }

  /** r_anal_bb_set_offset: the value is cut to 16 bits; the table doubles when it is too short,
      and refuses to grow to UT16_MAX entries. */
  method SetOffset(t: Ops, i: nat, v: int) returns (ok: bool, t': Ops)
    ensures t'.ninstr == t.ninstr && |t.pos| <= |t'.pos|
    ensures ok <==> i == 0 || v % 0x1_0000 == 0 || i < |t.pos| || i * 2 < UT16_MAX
    ensures ok && i > 0 && v % 0x1_0000 != 0 ==>
      && |t'.pos| == (if i >= |t.pos| then i * 2 else |t.pos|)
      && t'.pos[i - 1] == v % 0x1_0000 && forall k :: 0 <= k < |t.pos| && k != i - 1 ==> t'.pos[k] == t.pos[k]
    ensures !ok || i == 0 || v % 0x1_0000 == 0 ==> t' == t
  {
    t' := t;
    var v16 := v % 0x1_0000;
    if i > 0 && v16 > 0 {
      if i >= |t.pos| {
        var newSize := i * 2;
        if newSize >= UT16_MAX { return false, t; }
        t' := t.(pos := t.pos + seq(newSize - |t.pos|, k => 0));
      }
      t' := t'.(pos := t'.pos[i - 1 := v16]);
    }
    ok := true;
  }

  /** A fresh block has room for DFLT_NINSTR entries; doubling from there passes exactly these. */
  const FRESH := Ops(0, [0, 0, 0])
  const LENGTHS: set<nat> := {3, 6, 12, 24, 48, 96, 192, 384, 768, 1536, 3072, 6144, 12288, 24576, 49152}
  const MOST: nat := 49152

  /** The index of the first instruction at or past an offset. */
  method FirstFrom(t: Ops, delta: nat) returns (i: nat)
    ensures i <= t.ninstr && (i < t.ninstr ==> delta <= OffsetInst(t, i))
    ensures forall k :: 0 <= k < i ==> OffsetInst(t, k) < delta
  {
    i := 0;
    while i < t.ninstr && OffsetInst(t, i) < delta
      invariant i <= t.ninstr && forall k :: 0 <= k < i ==> OffsetInst(t, k) < delta
    {
      i := i + 1;
    }
  }

  /** The instructions of t from index first on, moved down by delta. */
  ghost predicate Tail(t: Ops, first: nat, delta: nat, u: Ops) {
    && first + u.ninstr <= t.ninstr
    && forall k :: 0 <= k < u.ninstr ==> OffsetInst(u, k) == OffsetInst(t, first + k) - delta
  }

  ghost predicate Roomy(t: Ops) {
    t.ninstr <= |t.pos| && |t.pos| in LENGTHS && t.ninstr <= MOST
  }

  /** Appending one more offset: everything before it reads as before. */
  method Append(t: Ops, v: int) returns (ok: bool, t': Ops)
    ensures t'.ninstr == (if ok then t.ninstr + 1 else t.ninstr)
    ensures !ok ==> t' == t
    ensures Roomy(t) && 0 <= v < UT16_MAX && (t.ninstr == 0 <==> v == 0) ==>
      && (ok <==> t.ninstr < MOST)
      && (ok ==> Roomy(t') && OffsetInst(t', t.ninstr) == v
                 && forall k :: 0 <= k < t.ninstr ==> OffsetInst(t', k) == OffsetInst(t, k))
  {
    ok, t' := SetOffset(t, t.ninstr, v);
    if ok { t' := t'.(ninstr := t.ninstr + 1); }
  }

  /** The halves of a block's instructions when it is cut at offset delta: the first keeps those
      before delta, the second has the others if one of them starts at delta, as far as a fresh
      table holds them. */
  ghost predicate Halves(t: Ops, size: nat, delta: nat, a: Ops, b: Ops) {
    && a.pos == t.pos && a.ninstr <= t.ninstr && WellFormed(a, delta)
    && (forall k :: 0 <= k < a.ninstr ==> OffsetInst(a, k) == OffsetInst(t, k))
    && (a.ninstr < t.ninstr ==> delta <= OffsetInst(t, a.ninstr))
    && Tail(t, a.ninstr, delta, b) && delta <= size && WellFormed(b, size - delta)
    && (StartsAt(t, delta) ==> b.ninstr == (if t.ninstr - a.ninstr <= MOST then t.ninstr - a.ninstr else MOST))
    && (!StartsAt(t, delta) ==> b.ninstr == 0)
  }

  ghost predicate StartsAt(t: Ops, delta: nat) {
    exists k :: 0 <= k < t.ninstr && OffsetInst(t, k) == delta
  }

  /** The instruction part of r_anal_block_split at offset delta of a block of that size. */
  method SplitOffsets(t: Ops, size: nat, delta: nat) returns (a: Ops, b: Ops)
    requires 0 < delta < size
    ensures WellFormed(t, size) ==> Halves(t, size, delta, a, b)
  {
    var first := FirstFrom(t, delta);
    b := FRESH;
    var i := first;
    if OffsetInst(t, i) == delta {
      while i < t.ninstr
        invariant first <= i <= t.ninstr && b.ninstr == i - first
        invariant WellFormed(t, size) && first < t.ninstr ==> Roomy(b) && Tail(t, first, delta, b)
        invariant i == first ==> b == FRESH
      {
        var off := OffsetInst(t, i);
        if off >= size { break; }
        ghost var was := b;
        if i > first && WellFormed(t, size) { Increasing(t, size, first, i); }
        var ok;
        ok, b := Append(b, off - delta);
        if !ok { break; }
        if WellFormed(t, size) {
          forall k | 0 <= k < b.ninstr ensures OffsetInst(b, k) == OffsetInst(t, first + k) - delta {
            if k < was.ninstr { assert OffsetInst(b, k) == OffsetInst(was, k); }
          }
        }
        i := i + 1;
      }
    }
    a := t.(ninstr := first);
    if WellFormed(t, size) {
      TailWellFormed(t, size, first, delta, b);
      PrefixWellFormed(t, size, first, delta);
      forall k: nat | first < k < t.ninstr ensures OffsetInst(t, first) < OffsetInst(t, k) {
        Increasing(t, size, first, k);
      }
    }
  }

  lemma PrefixWellFormed(t: Ops, size: nat, first: nat, delta: nat)
    requires WellFormed(t, size) && first <= t.ninstr
    requires forall k :: 0 <= k < first ==> OffsetInst(t, k) < delta
    ensures WellFormed(t.(ninstr := first), delta)
    ensures forall k :: 0 <= k < first ==> OffsetInst(t.(ninstr := first), k) == OffsetInst(t, k)
  {
    var a := t.(ninstr := first);
    forall k: nat | k < first ensures OffsetInst(a, k) == OffsetInst(t, k) < delta {}
    forall k: nat | 0 < k < first ensures OffsetInst(a, k - 1) < OffsetInst(a, k) {
      assert OffsetInst(t, k - 1) < OffsetInst(t, k);
    }
  }

  lemma TailWellFormed(t: Ops, size: nat, first: nat, delta: nat, u: Ops)
    requires WellFormed(t, size) && Tail(t, first, delta, u) && u.ninstr <= |u.pos| && delta <= size
    requires first < t.ninstr ==> delta <= OffsetInst(t, first)
    ensures WellFormed(u, size - delta)
  {
    forall k: nat | k < u.ninstr
      ensures OffsetInst(u, k) < size - delta && OffsetInst(u, k) < UT16_MAX
      ensures k > 0 ==> OffsetInst(u, k - 1) < OffsetInst(u, k)
    {
      assert OffsetInst(t, first + k) < size;
      if k > 0 { assert OffsetInst(t, first + k - 1) < OffsetInst(t, first + k); }
    }
  }

  /** b's offsets can be appended to a's table as they are. */
  ghost predicate Room(a: Ops, sizeA: nat, b: Ops) {
    && 0 < a.ninstr && 0 < sizeA && a.ninstr + b.ninstr <= |a.pos|
    && forall k :: 0 <= k < b.ninstr ==> sizeA + OffsetInst(b, k) < 0x1_0000
  }

  /** r holds a's instructions followed by b's, moved up by a's size. */
  ghost predicate Joined(a: Ops, sizeA: nat, b: Ops, r: Ops) {
    && r.ninstr == a.ninstr + b.ninstr && |r.pos| == |a.pos|
    && (forall k :: 0 <= k < a.ninstr ==> OffsetInst(r, k) == OffsetInst(a, k))
    && forall k :: 0 <= k < b.ninstr ==> OffsetInst(r, a.ninstr + k) == sizeA + OffsetInst(b, k)
  }

  /** The instruction part of r_anal_block_merge: b's offsets are appended behind a's, moved up
      by a's size.  ninstr grows even when an offset cannot be stored. */
  method MergeOffsets(a: Ops, sizeA: nat, b: Ops) returns (r: Ops)
    ensures a.ninstr <= r.ninstr <= a.ninstr + b.ninstr
    ensures Room(a, sizeA, b) ==> Joined(a, sizeA, b, r)
  {
    r := a;
    var i := 0;
    while i < b.ninstr
      invariant i <= b.ninstr && r.ninstr == a.ninstr + i
      invariant Room(a, sizeA, b) ==> |r.pos| == |a.pos|
      invariant Room(a, sizeA, b) ==> forall k :: 0 <= k < a.ninstr ==> OffsetInst(r, k) == OffsetInst(a, k)
      invariant Room(a, sizeA, b) ==> forall k :: 0 <= k < i ==> OffsetInst(r, a.ninstr + k) == sizeA + OffsetInst(b, k)
    {
      ghost var was := r;
      var at := r.ninstr;
      var ok, r' := SetOffset(r.(ninstr := at + 1), at, sizeA + OffsetInst(b, i));
      r := r';
      if !ok { return; }
      forall k | Room(a, sizeA, b) && 0 <= k < at ensures OffsetInst(r, k) == OffsetInst(was, k) {}
      i := i + 1;
    }
  }

  /** Cutting at delta and joining the halves gives back every offset exactly as far as an
      instruction starts at delta and the second half fits a fresh table; the halves always have
      room for each other. */
  lemma HalvesJoin(t: Ops, size: nat, delta: nat, a: Ops, b: Ops)
    requires WellFormed(t, size) && Halves(t, size, delta, a, b) && 0 < delta < size && 0 < t.ninstr
    ensures Room(a, delta, b)
    ensures forall r :: Joined(a, delta, b, r) ==>
      && (forall k :: 0 <= k < r.ninstr ==> OffsetInst(r, k) == OffsetInst(t, k))
      && (r.ninstr == t.ninstr <==> a.ninstr == t.ninstr || (StartsAt(t, delta) && t.ninstr - a.ninstr <= MOST))
  {
    assert OffsetInst(t, 0) == 0;
    forall k | 0 <= k < b.ninstr ensures delta + OffsetInst(b, k) == OffsetInst(t, a.ninstr + k) < 0x1_0000 {
      if k > 0 { Increasing(t, size, a.ninstr, a.ninstr + k); }
    }
    forall r, k | Joined(a, delta, b, r) && a.ninstr <= k < r.ninstr ensures OffsetInst(r, k) == OffsetInst(t, k) {
      assert OffsetInst(r, a.ninstr + (k - a.ninstr)) == delta + OffsetInst(b, k - a.ninstr);
    }
  }

  // ---------------------------------------------------------------- reading the table

  /** The instruction at index i covers offset rel. */
  ghost predicate Occupies(t: Ops, i: nat, rel: nat) {
    i < t.ninstr && OffsetInst(t, i) <= rel && (i + 1 < t.ninstr ==> rel < OffsetInst(t, i + 1))
  }

  /** r_anal_bb_opaddr_at, relative to the block's address: the offset asked for is cut to 16 bits. */
  method OpAt(t: Ops, size: nat, rel: nat) returns (inside: bool, off: nat)
    ensures inside <==> rel < size
    ensures inside && WellFormed(t, size) && t.ninstr > 0 ==>
      exists i: nat :: Occupies(t, i, rel % 0x1_0000) && off == OffsetInst(t, i)
  {
    if rel >= size { return false, 0; }
    inside := true;
    var want, last, i := rel % 0x1_0000, 0, 0;
    while i < t.ninstr
      invariant i <= t.ninstr && last == (if i == 0 then 0 else OffsetInst(t, i - 1))
      invariant forall k :: 0 <= k < i ==> OffsetInst(t, k) <= want
    {
      var delta := OffsetInst(t, i);
      if delta > want {
        assert i > 0 ==> Occupies(t, i - 1, want);
        return true, last;
      }
      last := delta;
      i := i + 1;
    }
    assert i > 0 ==> Occupies(t, i - 1, want);
    off := last;
  }

  /** The answer is the covering instruction exactly if the offset fits 16 bits, or its low 16 bits
      still lie in the last instruction. */
  lemma OpAtExact(t: Ops, size: nat, rel: nat, i: nat, j: nat)
    requires WellFormed(t, size) && Occupies(t, i, rel % 0x1_0000) && Occupies(t, j, rel)
    ensures i == j <==> rel < 0x1_0000 || OffsetInst(t, t.ninstr - 1) <= rel % 0x1_0000
  {
    var low := rel % 0x1_0000;
    if i < j { OneCovers(t, size, i, j, low); }
    if rel >= 0x1_0000 {
      if i + 1 < t.ninstr { LastIsGreatest(t, size, i + 1); }
    } else if j < i {
      OneCovers(t, size, j, i, rel);
    }
  }

  lemma LastIsGreatest(t: Ops, size: nat, i: nat)
    requires WellFormed(t, size) && i < t.ninstr
    ensures OffsetInst(t, i) <= OffsetInst(t, t.ninstr - 1)
  {
    if i < t.ninstr - 1 { Increasing(t, size, i, t.ninstr - 1); }
  }

  lemma OneCovers(t: Ops, size: nat, i: nat, j: nat, rel: nat)
    requires WellFormed(t, size) && i < j < t.ninstr && Occupies(t, i, rel)
    ensures rel < OffsetInst(t, j)
  {
    if i + 1 < j { Increasing(t, size, i + 1, j); }
  }

  /** r_anal_bb_size_i of a valid index. */
  function SizeI(t: Ops, size: nat, i: nat): int {
    var next := OffsetInst(t, i + 1);
    if next != UT16_MAX then next - OffsetInst(t, i) else size - OffsetInst(t, i)
  }

  function TotalSize(t: Ops, size: nat, n: nat): int {
    if n == 0 then 0 else TotalSize(t, size, n - 1) + SizeI(t, size, n - 1)
  }

  /** The instruction sizes are positive and tile the block. */
  lemma {:induction false} SizesTile(t: Ops, size: nat, n: nat)
    requires WellFormed(t, size) && n <= t.ninstr && 0 < t.ninstr
    ensures TotalSize(t, size, n) == if n < t.ninstr then OffsetInst(t, n) else size
    ensures forall i :: 0 <= i < n ==> SizeI(t, size, i) > 0
  {
    assert OffsetInst(t, 0) == 0;
    if n > 0 {
      SizesTile(t, size, n - 1);
      assert OffsetInst(t, n - 1) < size;
      if n < t.ninstr { assert OffsetInst(t, n) < UT16_MAX && OffsetInst(t, n - 1) < OffsetInst(t, n); }
    }
  }
}
