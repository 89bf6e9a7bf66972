/** r_anal_block_recurse_depth_first (libr/anal/block.c:557-619): an explicit path of blocks, each
    with a cursor into its switch cases, and an enter and an exit callback. */
module DepthFirst {
  import opened Lists
  import opened Cfg

  datatype Event = Enter(addr: nat) | Exit(addr: nat)

  /** One entry of the path: a block and how far its switch cases have been tried. */
  datatype Frame = Frame(addr: nat, cursor: Option<nat>)

  /** The cases before the first that leads to no block. */
  function Found(g: Graph, cases: seq<nat>): (r: seq<nat>)
    ensures |r| <= |cases| && r == cases[..|r|] && forall i :: 0 <= i < |r| ==> r[i] in g
    ensures |r| < |cases| ==> cases[|r|] !in g
  {
    if cases == [] || cases[0] !in g then [] else [cases[0]] + Found(g, cases[1..])
  }

  /** What the walk sees of a block: it turns back at the first successor without a block. */
  function Seen(g: Graph, b: Block): Block {
    if b.jump != NONE && b.jump !in g then Block(NONE, NONE, None)
    else if b.fail != NONE && b.fail !in g then Block(b.jump, NONE, None)
    else if b.cases.Some? then Block(b.jump, b.fail, Some(Found(g, b.cases.value)))
    else b
  }

  function SeenCfg(g: Graph): Graph { map u | u in g :: Seen(g, g[u]) }

  /** Every successor of every block has a block. */
  ghost predicate ClosedCfg(g: Graph) {
    forall u :: u in g ==>
      && (g[u].jump != NONE ==> g[u].jump in g)
      && (g[u].fail != NONE ==> g[u].fail in g)
      && (g[u].cases.Some? ==> forall i :: 0 <= i < |g[u].cases.value| ==> g[u].cases.value[i] in g)
  }

  lemma SeenClosed(g: Graph)
    ensures ClosedCfg(SeenCfg(g))
  {
  }

  predicate IsSucc(b: Block, v: nat) {
    v != NONE && (v == b.jump || v == b.fail || (b.cases.Some? && v in b.cases.value))
  }

  lemma SuccsOf(b: Block, v: nat)
    ensures v in Succs(b) <==> IsSucc(b, v)
  {
    if b.cases.Some? { AllPresentMembers(b.cases.value, v); }
  }

  function Addrs(path: seq<Frame>): seq<nat> { seq(|path|, i requires 0 <= i < |path| => path[i].addr) }

  /** The stack of open blocks after a list of events; None when an exit does not close the
      innermost open block. */
  function Replay(events: seq<Event>): Option<seq<nat>> {
    if events == [] then Some([])
    else match Replay(events[..|events| - 1])
      case None => None
      case Some(open) =>
        match events[|events| - 1]
        case Enter(a) => Some(open + [a])
        case Exit(a) => if open != [] && open[|open| - 1] == a then Some(open[..|open| - 1]) else None
  }

  ghost predicate Once(events: seq<Event>) {
    forall i, j :: 0 <= i < j < |events| ==> events[i] != events[j]
  }

  /** When u is left, every successor has been entered before. */
  ghost predicate SuccsEntered(g: Graph, events: seq<Event>) {
    forall i :: 0 <= i < |events| && events[i].Exit? ==> AllEntered(g, events[i].addr, events[..i])
  }

  ghost predicate AllEntered(g: Graph, u: nat, before: seq<Event>) {
    forall v :: Edge(g, u, v) ==> Enter(v) in before
  }

  lemma ReplaySnoc(events: seq<Event>, e: Event)
    ensures Replay(events + [e]) == match Replay(events)
      case None => None
      case Some(open) =>
        match e
        case Enter(a) => Some(open + [a])
        case Exit(a) => if open != [] && open[|open| - 1] == a then Some(open[..|open| - 1]) else None
  {
    assert (events + [e])[..|events|] == events;
  }

  lemma EdgesOf(g: Graph, u: nat)
    requires u in g && ClosedCfg(g)
    ensures forall v :: Edge(g, u, v) <==> IsSucc(g[u], v)
  {
    forall v ensures Edge(g, u, v) <==> IsSucc(g[u], v) { SuccsOf(g[u], v); }
  }

  /** The block an iteration turns to, and the cursor it leaves: jump, then fail, then the next
      case.  The first case is taken even if it was visited; later ones are skipped over.  If
      there is no block at the address chosen, what is left is not tried. */
  method NextBlock(g: Graph, u: nat, at: Option<nat>, visited: set<nat>)
      returns (next: Option<nat>, cursor: Option<nat>)
    requires u in g && visited <= g.Keys && CasesTried(Seen(g, g[u]), at, visited)
    ensures next.Some? ==> IsSucc(Seen(g, g[u]), next.value)
    ensures next.None? ==> forall v :: IsSucc(Seen(g, g[u]), v) ==> v in visited
    ensures next.Some? && next.value in visited ==> at.None? && cursor.Some?
    ensures next.Some? ==> CasesTried(Seen(g, g[u]), cursor, visited + {next.value})
  {
    var b := g[u];
    var v := NONE;
    cursor := at;
    if b.jump != NONE && b.jump !in visited {
      v := b.jump;
    } else if b.fail != NONE && b.fail !in visited {
      v := b.fail;
    } else if b.cases.Some? && cursor.None? {
      if b.cases.value != [] { v, cursor := b.cases.value[0], Some(0); }
    } else if cursor.Some? {
      var i := NextCase(b.cases.value, cursor.value + 1, visited);
      if i < |b.cases.value| { v, cursor := b.cases.value[i], Some(i); }
    }
    next := if v in g then Some(v) else None;
  }

  /** The next case that leads to an unvisited block. */
  method NextCase(cases: seq<nat>, from: nat, visited: set<nat>) returns (i: nat)
    requires from <= |cases|
    ensures from <= i <= |cases| && (i < |cases| ==> cases[i] !in visited)
    ensures forall j :: from <= j < i ==> cases[j] in visited
  {
    i := from;
    while i < |cases| && cases[i] in visited
      invariant from <= i <= |cases|
      invariant forall j :: from <= j < i ==> cases[j] in visited
    {
      i := i + 1;
    }
  }

  /** The cases up to the cursor have been visited. */
  ghost predicate CasesTried(b: Block, cursor: Option<nat>, visited: set<nat>) {
    cursor.Some? ==>
      && b.cases.Some? && cursor.value < |b.cases.value|
      && forall j :: 0 <= j <= cursor.value ==> b.cases.value[j] in visited
  }

  /** The events tell the open blocks, and which blocks were entered and left. */
  ghost predicate Recorded(g: Graph, open: seq<nat>, visited: set<nat>, events: seq<Event>) {
    && Once(events) && SuccsEntered(g, events)
    && Replay(events) == Some(open) && Distinct(open) && Marked(visited, open, events)
  }

  ghost predicate Known(g: Graph, start: nat, visited: set<nat>) {
    start in visited && forall b :: b in visited ==> b in g && Reach(g, start, b)
  }

  ghost predicate Tried(g: Graph, path: seq<Frame>, visited: set<nat>) {
    forall f :: f in path ==> f.addr in visited && f.addr in g && CasesTried(g[f.addr], f.cursor, visited)
  }

  /** What holds between two rounds: the open blocks are the path, and every block that was
      entered is either on the path or was left. */
  ghost predicate Walking(g: Graph, start: nat, path: seq<Frame>, visited: set<nat>, events: seq<Event>) {
    Recorded(g, Addrs(path), visited, events) && Known(g, start, visited) && Tried(g, path, visited)
  }

  ghost predicate Marked(visited: set<nat>, open: seq<nat>, events: seq<Event>) {
    && (forall b :: b in visited <==> Enter(b) in events)
    && (forall b :: Exit(b) in events <==> b in visited && b !in open)
  }

  lemma MarkEnter(visited: set<nat>, open: seq<nat>, events: seq<Event>, v: nat)
    requires Marked(visited, open, events) && v !in visited
    ensures Marked(visited + {v}, open + [v], events + [Enter(v)])
  {
  }

  lemma MarkExit(visited: set<nat>, open: seq<nat>, events: seq<Event>, u: nat)
    requires Marked(visited, open + [u], events) && u in visited && u !in open
    ensures Marked(visited, open, events + [Exit(u)]) && Exit(u) !in events
  {
    forall b ensures b in open + [u] <==> b in open || b == u {}
  }

  lemma OnceSnoc(events: seq<Event>, e: Event)
    requires Once(events) && e !in events
    ensures Once(events + [e])
  {
  }

  lemma EnteredSnoc(g: Graph, events: seq<Event>, e: Event)
    requires SuccsEntered(g, events) && (e.Exit? ==> AllEntered(g, e.addr, events))
    ensures SuccsEntered(g, events + [e])
  {
    forall i | 0 <= i < |events + [e]| && (events + [e])[i].Exit?
      ensures AllEntered(g, (events + [e])[i].addr, (events + [e])[..i])
    {
      assert (events + [e])[..i] == events[..i];
    }
  }

  lemma AddrsSnoc(path: seq<Frame>, f: Frame)
    ensures Addrs(path + [f]) == Addrs(path) + [f.addr]
  {
  }

  lemma RecordEnter(g: Graph, open: seq<nat>, visited: set<nat>, events: seq<Event>, v: nat)
    requires Recorded(g, open, visited, events) && v !in visited && v !in open
    ensures Recorded(g, open + [v], visited + {v}, events + [Enter(v)])
  {
    ReplaySnoc(events, Enter(v));
    OnceSnoc(events, Enter(v));
    EnteredSnoc(g, events, Enter(v));
    MarkEnter(visited, open, events, v);
  }

  lemma RecordExit(g: Graph, open: seq<nat>, u: nat, visited: set<nat>, events: seq<Event>)
    requires Recorded(g, open + [u], visited, events) && u in visited && AllEntered(g, u, events)
    ensures Recorded(g, open, visited, events + [Exit(u)])
  {
    DistinctInit(open, u);
    MarkExit(visited, open, events, u);
    ReplaySnoc(events, Exit(u));
    OnceSnoc(events, Exit(u));
    EnteredSnoc(g, events, Exit(u));
  }

  /** With all its successors met, a block may be left. */
  lemma SuccsDone(g: Graph, u: nat, visited: set<nat>, open: seq<nat>, events: seq<Event>)
    requires u in g && ClosedCfg(g) && Marked(visited, open, events)
    requires forall v :: IsSucc(g[u], v) ==> v in visited
    ensures AllEntered(g, u, events)
  {
    EdgesOf(g, u);
  }

  lemma DistinctInit(a: seq<nat>, u: nat)
    requires Distinct(a + [u])
    ensures Distinct(a) && u !in a && (a + [u])[..|a|] == a && (a + [u])[|a|] == u
  {
    forall i, j | 0 <= i < j < |a| ensures a[i] != a[j] {
      assert (a + [u])[i] == a[i] && (a + [u])[j] == a[j];
    }
    forall i | 0 <= i < |a| ensures a[i] != u {
      assert (a + [u])[i] == a[i] && (a + [u])[|a|] == u;
    }
  }

  lemma TriedInit(g: Graph, path: seq<Frame>, f: Frame, visited: set<nat>)
    requires Tried(g, path + [f], visited)
    ensures Tried(g, path, visited) && f.addr in visited && f.addr in g
  {
    assert (path + [f])[|path|] == f;
    forall e | e in path ensures e in path + [f] {}
  }

  lemma CursorStep(g: Graph, path: seq<Frame>, f: Frame, visited: set<nat>, c: Option<nat>, v: nat)
    requires Tried(g, path + [f], visited) && f.addr in g && CasesTried(g[f.addr], c, visited + {v})
    ensures Tried(g, path + [Frame(f.addr, c)], visited + {v})
    ensures Addrs(path + [Frame(f.addr, c)]) == Addrs(path + [f]) == Addrs(path) + [f.addr]
  {
    TriedInit(g, path, f, visited);
    AddrsSnoc(path, f);
    AddrsSnoc(path, Frame(f.addr, c));
  }

  /** The round that enters v from f: the cursor of f moves, and v is put on the path. */
  lemma EnterStep(g: Graph, start: nat, path: seq<Frame>, f: Frame, visited: set<nat>, events: seq<Event>,
                  c: Option<nat>, v: nat)
    requires Walking(g, start, path + [f], visited, events) && v !in visited && v in g && ClosedCfg(g)
    requires f.addr in g && IsSucc(g[f.addr], v) && CasesTried(g[f.addr], c, visited + {v})
    ensures Walking(g, start, path + [Frame(f.addr, c)] + [Frame(v, None)], visited + {v}, events + [Enter(v)])
  {
    var open, path' := Addrs(path + [f]), path + [Frame(f.addr, c)];
    CursorStep(g, path, f, visited, c, v);
    AddrsSnoc(path', Frame(v, None));
    assert v !in open by {
      assert forall i :: 0 <= i < |open| ==> (path + [f])[i] in path + [f] && open[i] == (path + [f])[i].addr;
    }
    RecordEnter(g, open, visited, events, v);
    assert Known(g, start, visited + {v}) by {
      TriedInit(g, path, f, visited);
      EdgesOf(g, f.addr);
      ReachStep(g, start, f.addr, v);
    }
  }

  /** The round that only moves the cursor: the first case has been visited. */
  lemma StayStep(g: Graph, start: nat, path: seq<Frame>, f: Frame, visited: set<nat>, events: seq<Event>,
                 c: Option<nat>, v: nat)
    requires Walking(g, start, path + [f], visited, events) && v in visited
    requires f.addr in g && CasesTried(g[f.addr], c, visited + {v})
    ensures Walking(g, start, path + [Frame(f.addr, c)], visited, events)
  {
    assert visited + {v} == visited;
    CursorStep(g, path, f, visited, c, v);
  }

  /** The round that leaves the last block of the path. */
  lemma ExitStep(g: Graph, start: nat, path: seq<Frame>, f: Frame, visited: set<nat>, events: seq<Event>)
    requires Walking(g, start, path + [f], visited, events) && ClosedCfg(g)
    requires f.addr in g && forall v :: IsSucc(g[f.addr], v) ==> v in visited
    ensures Walking(g, start, path, visited, events + [Exit(f.addr)])
  {
    var open := Addrs(path);
    AddrsSnoc(path, f);
    TriedInit(g, path, f, visited);
    assert Recorded(g, open, visited, events + [Exit(f.addr)]) by {
      SuccsDone(g, f.addr, visited, open + [f.addr], events);
      RecordExit(g, open, f.addr, visited, events);
    }
  }

  lemma LeftEntered(g: Graph, start: nat, visited: set<nat>, events: seq<Event>, u: nat, v: nat)
    requires Walking(g, start, [], visited, events) && u in visited && Edge(g, u, v)
    ensures v in visited
  {
    assert u !in Addrs([]);
    var i :| 0 <= i < |events| && events[i] == Exit(u);
    assert AllEntered(g, u, events[..i]);
  }

  lemma WalkStart(g: Graph, start: nat)
    requires start in g && Reach(g, start, start)
    ensures Walking(g, start, [Frame(start, None)], {start}, [Enter(start)])
  {
    ReplaySnoc([], Enter(start));
    assert [] + [Enter(start)] == [Enter(start)];
    assert Replay([]) == Some([]) && [] + [start] == [start];
    assert Addrs([Frame(start, None)]) == [start];
  }

  function Untried(path: seq<Frame>): nat {
    if path != [] && path[|path| - 1].cursor.None? then 1 else 0
  }

  /** One round of the loop, with the last entry of the path apart. */
  method Round(g: Graph, ghost start: nat, path: seq<Frame>, top: Frame, visited: set<nat>, events: seq<Event>)
      returns (path': seq<Frame>, visited': set<nat>, events': seq<Event>)
    requires Walking(SeenCfg(g), start, path + [top], visited, events)
    ensures Walking(SeenCfg(g), start, path', visited', events')
    ensures visited < visited' <= g.Keys
            || (visited' == visited && path' == path)
            || (visited' == visited && |path'| == |path| + 1 && top.cursor.None? && Untried(path') == 0)
  {
    SeenClosed(g);
    TriedInit(SeenCfg(g), path, top, visited);
    var next, cursor := NextBlock(g, top.addr, top.cursor, visited);
    if next.Some? {
      var v := next.value;
      if v !in visited {
        EnterStep(SeenCfg(g), start, path, top, visited, events, cursor, v);
        path' := path + [Frame(top.addr, cursor)] + [Frame(v, None)];
        visited', events' := visited + {v}, events + [Enter(v)];
      } else {
        StayStep(SeenCfg(g), start, path, top, visited, events, cursor, v);
        path', visited', events' := path + [Frame(top.addr, cursor)], visited, events;
      }
    } else {
      ExitStep(SeenCfg(g), start, path, top, visited, events);
      path', visited', events' := path, visited, events + [Exit(top.addr)];
    }
  }

  /** With callbacks that never stop it, the walk enters and leaves every block reachable in the
      part of the graph it sees exactly once, properly nested, and leaves a block only after all
      its successors there were entered: each of them has been left already or is still open. */
  method Walk(g: Graph, start: nat) returns (events: seq<Event>)
    requires start in g
    ensures Once(events) && Replay(events) == Some([]) && SuccsEntered(SeenCfg(g), events)
    ensures forall b :: Enter(b) in events <==> Reach(SeenCfg(g), start, b)
    ensures forall b :: Exit(b) in events <==> Reach(SeenCfg(g), start, b)
  {
    var path, visited := [Frame(start, None)], {start};
    events := [Enter(start)];
    ghost var seen := SeenCfg(g);
    ReachSelf(seen, start);
    WalkStart(seen, start);
    while path != []
      invariant Walking(seen, start, path, visited, events)
      decreases g.Keys - visited, |path|, Untried(path)
    {
      var rest, top := path[..|path| - 1], path[|path| - 1];
      assert path == rest + [top];
      path, visited, events := Round(g, start, rest, top, visited, events);
    }
    forall u, v | u in visited && Edge(seen, u, v) ensures v in visited {
      LeftEntered(seen, start, visited, events, u, v);
    }
    ClosedReach(seen, visited, start);
  }

  lemma SeenEdge(g: Graph, u: nat, v: nat)
    requires Edge(SeenCfg(g), u, v)
    ensures Edge(g, u, v)
  {
    SuccsOf(g[u], v);
    SuccsOf(Seen(g, g[u]), v);
  }

  lemma SeenReach(g: Graph, a: nat, b: nat)
    requires Reach(SeenCfg(g), a, b)
    ensures Reach(g, a, b)
  {
    var p :| PathFromTo(SeenCfg(g), p, a, b);
    forall i | 0 < i < |p| ensures Edge(g, p[i - 1], p[i]) { SeenEdge(g, p[i - 1], p[i]); }
    assert PathFromTo(g, p, a, b);
  }

  /** Every successor of a block met is met, if not from there then in some other way. */
  ghost predicate NothingHidden(g: Graph, start: nat) {
    forall u, v :: Reach(SeenCfg(g), start, u) && Edge(g, u, v) ==> Reach(SeenCfg(g), start, v)
  }

  /** The blocks entered are reachable, and they are all the reachable ones if and only if nothing
      is hidden behind a successor without a block. */
  lemma SeenAllIff(g: Graph, start: nat)
    requires start in g
    ensures forall b :: Reach(SeenCfg(g), start, b) ==> Reach(g, start, b)
    ensures (forall b :: Reach(g, start, b) ==> Reach(SeenCfg(g), start, b)) <==> NothingHidden(g, start)
    ensures ClosedCfg(g) ==> SeenCfg(g) == g
  {
    forall b | Reach(SeenCfg(g), start, b) ensures Reach(g, start, b) { SeenReach(g, start, b); }
    if NothingHidden(g, start) {
      var s := set b | b in g && Reach(SeenCfg(g), start, b);
      ReachSelf(SeenCfg(g), start);
      ClosedReach(g, s, start);
    }
    if forall b :: Reach(g, start, b) ==> Reach(SeenCfg(g), start, b) {
      forall u, v | Reach(SeenCfg(g), start, u) && Edge(g, u, v) ensures Reach(SeenCfg(g), start, v) {
        ReachStep(g, start, u, v);
      }
    }
    if ClosedCfg(g) {
      forall u | u in g ensures Seen(g, g[u]) == g[u] {
        if g[u].cases.Some? { assert Found(g, g[u].cases.value) == g[u].cases.value; }
      }
    }
  }

  /** A jump to no block hides the fail branch from this walk, but not from Cfg.Recurse. */
  lemma JumpHidesFail()
    ensures var g: Graph := map[0 := Block(8, 4, None), 4 := Block(NONE, NONE, None)];
      Reach(g, 0, 4) && !Reach(SeenCfg(g), 0, 4)
  {
    var g: Graph := map[0 := Block(8, 4, None), 4 := Block(NONE, NONE, None)];
    ReachSelf(g, 0);
    ReachStep(g, 0, 0, 4);
    ClosedReach(SeenCfg(g), {0}, 0);
  }
}
