/** Shortest paths to any address (libr/anal/block.c:754-832). */
module AddressPaths {
  import opened Lists
  import opened Cfg
  import opened Blocks
  import opened ShortestPath
  import B = BlockLookup
  import T = AddressTree

  /** r_anal_block_shortest_path: the destination is any address and stands for the first block
      that contains it, or for a block of its own if none does. */
  method ShortestPathTo(t: T.Tree, bs: BbTree, refs: Refs, start: nat, x: nat) returns (path: Option<seq<nat>>)
    requires NONE !in bs && B.Holds(t, bs) && start in bs
    ensures var g, dst := CfgOf(bs), B.Target(t, x);
      && (path.Some? ==> Route(g, refs, path.value, start, dst) && NoShorter(g, refs, start, dst, |path.value|))
      && (path.None? ==> forall p :: !Route(g, refs, p, start, dst))
    ensures path.Some? && (exists b :: b in bs && B.Contains(bs, b, x)) ==>
              path.value != [] && path.value[|path.value| - 1] in bs
              && B.Contains(bs, path.value[|path.value| - 1], x)
  {
    var dst := B.BbAddrFor(t, bs, x);
    B.TargetContains(t, bs, x);
    path := FindShortest(CfgOf(bs), refs, start, dst);
  }
}
