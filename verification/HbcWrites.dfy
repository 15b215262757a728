/**
 Splitting command blocks: a transition that writes several values becomes a chain of transitions through
 intermediate states, one write each. Between the states of the program nothing changes.
 */
module HbcWrites {
  import opened Wrappers
  import opened HbcGraph

  predicate Splittable(d: Diagram, f: nat) {
    Is(d, f, Command) && d.vertices[f].contents.Commands? && |d.vertices[f].contents.block.commands| > 1
  }

  const IF_TRUE: Condition := Always(1)

  /** `commandBlockHead` and `commandBlockTail`. */
  function Head(b: Block): Block
    requires b.commands != []
  {
    b.(commands := b.commands[..1])
  }

  function Tail(b: Block): Block
    requires b.commands != []
  {
    b.(commands := b.commands[1..])
  }

  /** The graph after `splitTransition` at command `f`, with the next three numbers after `m` for the new vertices. */
  function SplitWrite(d: Diagram, f: nat, m: nat): Diagram
    requires Shape(d) && Splittable(d, f)
  {
    assert CommandOk(d, f);
    var n, t, machineId, block := |d.vertices|, d.outs[f][0], d.vertices[f].machineId, d.vertices[f].contents.block;
    var d1 := WithoutEdge(WithContents(d, f, Commands(Head(block))), f, t);
    var d2 := WithEdge(WithVertex(d1, Vertex(machineId, m + 1, State, NO_CONTENTS)), f, n);
    var d3 := WithEdge(WithVertex(d2, Vertex(machineId, m + 2, Cond, Guard(IF_TRUE))), n, n + 1);
    var d4 := WithVertex(d3, Vertex(machineId, m + 3, Command, Commands(Tail(block))));
    WithEdge(WithEdge(d4, n + 1, n + 2), n + 2, t)
  }

  lemma SplitWriteSound(d: Diagram, f: nat, m: nat)
    requires Shape(d) && Splittable(d, f)
    ensures Sound(SplitWrite(d, f, m))
  {
    assert CommandOk(d, f);
    var n, t, machineId, block := |d.vertices|, d.outs[f][0], d.vertices[f].machineId, d.vertices[f].contents.block;
    assert t in d.outs[f];
    ContentsKeeps(d, f, Commands(Head(block)));
    var d0 := WithContents(d, f, Commands(Head(block)));
    NoEdgeKeeps(d0, f, t);
    var d1 := WithoutEdge(d0, f, t);
    VertexKeeps(d1, Vertex(machineId, m + 1, State, NO_CONTENTS));
    var d2 := WithVertex(d1, Vertex(machineId, m + 1, State, NO_CONTENTS));
    EdgeKeeps(d2, f, n);
    var d3 := WithEdge(d2, f, n);
    VertexKeeps(d3, Vertex(machineId, m + 2, Cond, Guard(IF_TRUE)));
    var d4 := WithVertex(d3, Vertex(machineId, m + 2, Cond, Guard(IF_TRUE)));
    EdgeKeeps(d4, n, n + 1);
    var d5 := WithEdge(d4, n, n + 1);
    VertexKeeps(d5, Vertex(machineId, m + 3, Command, Commands(Tail(block))));
    var d6 := WithVertex(d5, Vertex(machineId, m + 3, Command, Commands(Tail(block))));
    EdgeKeeps(d6, n + 1, n + 2);
    EdgeKeeps(WithEdge(d6, n + 1, n + 2), n + 2, t);
  }

  /** What a split leaves: `f` writes the first value and leads through a new state and a true condition to the rest. */
  ghost predicate WriteSplit(d: Diagram, f: nat, e: Diagram, m: nat)
    requires Sized(d) && Splittable(d, f)
  {
    var n, block, machineId := |d.vertices|, d.vertices[f].contents.block, d.vertices[f].machineId;
    && Sized(e) && |e.vertices| == n + 3
    && (forall u: nat :: u < n && u != f ==> e.vertices[u] == d.vertices[u] && e.outs[u] == d.outs[u])
    && (forall u: nat :: u < n && d.outs[f] != [u] ==> e.ins[u] == d.ins[u])
    && e.vertices[f] == d.vertices[f].(contents := Commands(Head(block)))
    && e.vertices[n] == Vertex(machineId, m + 1, State, NO_CONTENTS)
    && e.vertices[n + 1] == Vertex(machineId, m + 2, Cond, Guard(IF_TRUE))
    && e.vertices[n + 2] == Vertex(machineId, m + 3, Command, Commands(Tail(block)))
    && e.outs[f] == [n] && e.outs[n] == [n + 1] && e.outs[n + 1] == [n + 2] && e.outs[n + 2] == d.outs[f]
    && e.ins[n] == [f] && e.ins[n + 1] == [n] && e.ins[n + 2] == [n + 1]
  }

  lemma SplitWriteEdges(d: Diagram, f: nat, m: nat)
    requires Shape(d) && Splittable(d, f)
    ensures WriteSplit(d, f, SplitWrite(d, f, m), m)
  {
    assert CommandOk(d, f);
    assert d.outs[f] == [d.outs[f][0]] + [];
    assert Without(d.outs[f], d.outs[f][0]) == Without([], d.outs[f][0]);
  }

  lemma WriteSplitVertex(d: Diagram, f: nat, e: Diagram, m: nat, v: nat)
    requires Shape(d) && Splittable(d, f) && WriteSplit(d, f, e, m)
    ensures Is(e, v, Cond) ==> CondOk(e, v)
    ensures Is(e, v, Command) ==> CommandOk(e, v)
  {
    if Is(d, v, Cond) {
      assert CondOk(d, v);
    } else if Is(d, v, Command) {
      assert CommandOk(d, v);
    }
    assert CommandOk(d, f);
  }

  lemma WriteSplitState(d: Diagram, f: nat, e: Diagram, m: nat, s: nat, v: nat)
    requires Shape(d) && Splittable(d, f) && WriteSplit(d, f, e, m) && Is(e, s, State) && v in e.outs[s]
    ensures Is(e, v, Cond)
  {
    if s < |d.vertices| {
      assert v in d.outs[s];
      assert Is(d, v, Cond);
    }
  }

  lemma WriteSplitShape(d: Diagram, f: nat, e: Diagram, m: nat)
    requires Shape(d) && Splittable(d, f) && WriteSplit(d, f, e, m) && Sound(e)
    ensures Shape(e)
  {
    forall v: nat ensures (Is(e, v, Cond) ==> CondOk(e, v)) && (Is(e, v, Command) ==> CommandOk(e, v)) {
      WriteSplitVertex(d, f, e, m, v);
    }
    forall s: nat, v: nat {:trigger v in e.outs[s]} | Is(e, s, State) && v in e.outs[s] ensures Is(e, v, Cond) {
      WriteSplitState(d, f, e, m, s, v);
    }
  }

  /** The transitions after a split: one goes to the new state, one goes on from there, the others are as before. */
  lemma WriteSplitMoves(d: Diagram, f: nat, e: Diagram, m: nat, v: nat)
    requires Shape(d) && Splittable(d, f) && WriteSplit(d, f, e, m)
    ensures CommandOk(d, f) && MoveOf(d, d.ins[f][0]).Some?
    ensures var c, n := d.ins[f][0], |d.vertices|;
      var move := MoveOf(d, c).value;
      && |move.writes| > 1
      && MoveOf(e, v) ==
        if v == c then Some(move.(writes := move.writes[..1], target := n))
        else if v == n + 1 then Some(Move(n, IF_TRUE, move.writes[1..], move.target))
        else if v < n then MoveOf(d, v) else None
  {
    assert CommandOk(d, f);
    var c := d.ins[f][0];
    MoveOfShape(d, c);
    assert c in d.ins[f];
    if Is(d, v, Cond) {
      MoveOfShape(d, v);
    }
  }

  /** The two transitions that take the place of the one that was split. */
  lemma TwoSteps(d: Diagram, f: nat, e: Diagram, m: nat, n: nat, p: seq<nat>, envs: seq<Env>, t: nat, trace: seq<Write>)
    requires Shape(d) && Splittable(d, f) && WriteSplit(d, f, e, m) && n <= |d.vertices|
    requires CommandOk(d, f) && MoveOf(d, d.ins[f][0]).Some?
    requires var move := MoveOf(d, d.ins[f][0]).value;
      && move.writes <= trace && Leaves(n, envs, move.source, move.guard)
      && Runs(e, n, p, Left(n, envs, move.source), move.target, t, trace[|move.writes|..])
    ensures Runs(e, n, [d.ins[f][0]] + ([|d.vertices| + 1] + p), envs, MoveOf(d, d.ins[f][0]).value.source, t, trace)
  {
    var c, k := d.ins[f][0], |d.vertices| + 1;
    var move := MoveOf(d, c).value;
    WriteSplitMoves(d, f, e, m, c);
    WriteSplitMoves(d, f, e, m, k);
    var rest := Left(n, envs, move.source);
    assert trace[1..][|move.writes| - 1..] == trace[|move.writes|..];
    assert move.writes[1..] <= trace[1..];
    RunsCons(e, n, k, p, rest, |d.vertices|, t, trace[1..]);
    RunsCons(e, n, c, [k] + p, envs, move.source, t, trace);
  }

  /** A run before the split is a run after it, with the new condition after each use of the old. */
  lemma {:induction false} RunAfterSplit(d: Diagram, f: nat, e: Diagram, m: nat, n: nat, path: seq<nat>,
        envs: seq<Env>, s: nat, t: nat, trace: seq<Write>) returns (p: seq<nat>)
    requires Shape(d) && Splittable(d, f) && WriteSplit(d, f, e, m) && n <= |d.vertices|
    requires Runs(d, n, path, envs, s, t, trace)
    ensures Runs(e, n, p, envs, s, t, trace)
    decreases |path|
  {
    if path == [] {
      return [];
    }
    var v := path[0];
    WriteSplitMoves(d, f, e, m, v);
    var move := MoveOf(d, v).value;
    MoveOfShape(d, v);
    p := RunAfterSplit(d, f, e, m, n, path[1..], Left(n, envs, s), move.target, t, trace[|move.writes|..]);
    if v == d.ins[f][0] {
      TwoSteps(d, f, e, m, n, p, envs, t, trace);
      p := [v] + ([|d.vertices| + 1] + p);
    } else {
      RunsCons(e, n, v, p, envs, s, t, trace);
      p := [v] + p;
    }
  }

  /** A run after the split between old states is a run before it. */
  lemma {:induction false} RunBeforeSplit(d: Diagram, f: nat, e: Diagram, m: nat, n: nat, path: seq<nat>,
        envs: seq<Env>, s: nat, t: nat, trace: seq<Write>) returns (p: seq<nat>)
    requires Shape(d) && Splittable(d, f) && WriteSplit(d, f, e, m) && n <= |d.vertices|
    requires Runs(e, n, path, envs, s, t, trace)
    requires s < |d.vertices| && t < |d.vertices|
    ensures Runs(d, n, p, envs, s, t, trace)
    decreases |path|
  {
    if path == [] {
      return [];
    }
    var v := path[0];
    WriteSplitMoves(d, f, e, m, v);
    MoveOfShape(d, v);
    var move := MoveOf(d, v).value;
    var rest := Left(n, envs, s);
    if v == d.ins[f][0] {
      var q := path[1..];
      assert Runs(e, n, q, rest, |d.vertices|, t, trace[1..]);
      WriteSplitMoves(d, f, e, m, q[0]);
      OnlyWayOn(d, f, e, m, q[0]);
      assert trace[1..][|move.writes| - 1..] == trace[|move.writes|..];
      assert move.writes == move.writes[..1] + move.writes[1..];
      p := RunBeforeSplit(d, f, e, m, n, q[1..], rest, move.target, t, trace[|move.writes|..]);
    } else {
      p := RunBeforeSplit(d, f, e, m, n, path[1..], rest, move.target, t, trace[|move.writes|..]);
    }
    RunsCons(d, n, v, p, envs, s, t, trace);
    p := [v] + p;
  }

  /** The new state is left only through the new condition. */
  lemma OnlyWayOn(d: Diagram, f: nat, e: Diagram, m: nat, v: nat)
    requires Shape(d) && Splittable(d, f) && WriteSplit(d, f, e, m)
    requires MoveOf(e, v).Some? && MoveOf(e, v).value.source == |d.vertices|
    ensures v == |d.vertices| + 1
  {
    WriteSplitMoves(d, f, e, m, v);
    if v < |d.vertices| {
      MoveOfShape(d, v);
    }
  }

  /** Between states below `n` the machines of both graphs do the same. */
  ghost predicate SameBetween(d: Diagram, e: Diagram, n: nat) {
    forall envs, s: nat, t: nat, trace ::
      s < n && t < n ==> (Behaves(e, n, envs, s, t, trace) <==> Behaves(d, n, envs, s, t, trace))
  }

  lemma SameBetweenTwice(d: Diagram, e: Diagram, f: Diagram, n: nat)
    requires SameBetween(d, e, n) && SameBetween(e, f, n)
    ensures SameBetween(d, f, n)
  {
  }

  lemma WriteSplitSame(d: Diagram, f: nat, e: Diagram, m: nat, n: nat)
    requires Shape(d) && Splittable(d, f) && WriteSplit(d, f, e, m) && n <= |d.vertices|
    ensures SameBetween(d, e, n)
  {
    forall envs, s: nat, t: nat, trace | s < n && t < n
      ensures Behaves(e, n, envs, s, t, trace) <==> Behaves(d, n, envs, s, t, trace)
    {
      if Behaves(d, n, envs, s, t, trace) {
        var path :| Runs(d, n, path, envs, s, t, trace);
        var p := RunAfterSplit(d, f, e, m, n, path, envs, s, t, trace);
      }
      if Behaves(e, n, envs, s, t, trace) {
        var path :| Runs(e, n, path, envs, s, t, trace);
        var p := RunBeforeSplit(d, f, e, m, n, path, envs, s, t, trace);
      }
    }
  }

  // ---------------------------------------------------------------- one command vertex

  /**
   From condition `c` the writes `ws` are made one by one, through intermediate states that are entered and left
   once and left without a test, and then state `t` is reached. Intermediate states come after the first `n` vertices.
   */
  ghost predicate Chain(d: Diagram, n: nat, c: nat, ws: seq<Write>, t: nat)
    decreases |ws|
  {
    var m := MoveOf(d, c);
    && m.Some?
    && if |ws| <= 1 then m.value.writes == ws && m.value.target == t
       else
         var q := m.value.target;
         && m.value.writes == ws[..1] && q >= n && Is(d, q, State) && |d.ins[q]| == 1 && |d.outs[q]| == 1
         && MoveOf(d, d.outs[q][0]).Some? && MoveOf(d, d.outs[q][0]).value.source == q &&
           MoveOf(d, d.outs[q][0]).value.guard == IF_TRUE
         && Chain(d, n, d.outs[q][0], ws[1..], t)
  }

  lemma {:induction false} ChainFrom(d: Diagram, n: nat, n': nat, c: nat, ws: seq<Write>, t: nat)
    requires Chain(d, n, c, ws, t) && n' <= n
    ensures Chain(d, n', c, ws, t)
    decreases |ws|
  {
    if |ws| > 1 {
      ChainFrom(d, n, n', d.outs[MoveOf(d, c).value.target][0], ws[1..], t);
    }
  }

  /** Only `v` changed, new vertices follow, and none of them has more than one write. */
  ghost predicate OnlyNode(d: Diagram, v: nat, e: Diagram, m: nat) {
    && Shape(d) && Shape(e) && Is(d, v, Command) && |e.vertices| >= |d.vertices|
    && (forall u: nat :: u < |d.vertices| && u != v ==> e.vertices[u] == d.vertices[u] && e.outs[u] == d.outs[u])
    && (forall u: nat :: u < |d.vertices| && d.outs[v] != [u] ==> e.ins[u] == d.ins[u])
    && e.vertices[v] == d.vertices[v].(contents := e.vertices[v].contents) && |WritesAt(e, v)| == 1
    && (forall u: nat ::
      |d.vertices| <= u < |e.vertices| ==>
      e.vertices[u].vertexId == m + 1 + u - |d.vertices| && |WritesAt(e, u)| <= 1)
  }

  /** A transition that does not lead through `v` stays. */
  lemma MoveStays(d: Diagram, v: nat, e: Diagram, m: nat, c: nat)
    requires OnlyNode(d, v, e, m) && MoveOf(d, c).Some? && d.ins[v] != [c]
    ensures MoveOf(e, c) == MoveOf(d, c)
  {
    assert CommandOk(d, v);
    MoveOfShape(d, c);
  }

  /** So does a state that `v` does not lead to. */
  lemma StateStays(d: Diagram, v: nat, e: Diagram, m: nat, q: nat)
    requires OnlyNode(d, v, e, m) && Is(d, q, State) && d.outs[v] != [q]
    ensures Is(e, q, State) && e.ins[q] == d.ins[q] && e.outs[q] == d.outs[q]
  {
  }

  /** Each write is made as often as before. */
  ghost predicate SameWrites(d: Diagram, e: Diagram) {
    forall w :: Made(e.vertices, w) == Made(d.vertices, w)
  }

  lemma WriteSplitVertices(d: Diagram, f: nat, e: Diagram, m: nat)
    requires Sized(d) && Splittable(d, f) && WriteSplit(d, f, e, m)
    ensures var block, machineId := d.vertices[f].contents.block, d.vertices[f].machineId;
      e.vertices == d.vertices[f := d.vertices[f].(contents := Commands(Head(block)))] +
        [Vertex(machineId, m + 1, State, NO_CONTENTS)] + [Vertex(machineId, m + 2, Cond, Guard(IF_TRUE))] +
        [Vertex(machineId, m + 3, Command, Commands(Tail(block)))]
  {
  }

  /** The first write and the others are all the writes. */
  lemma WriteSplitMade(d: Diagram, f: nat, e: Diagram, m: nat)
    requires Sized(d) && Splittable(d, f) && WriteSplit(d, f, e, m)
    ensures SameWrites(d, e)
  {
    var block, machineId := d.vertices[f].contents.block, d.vertices[f].machineId;
    var first := d.vertices[f].(contents := Commands(Head(block)));
    var s := Vertex(machineId, m + 1, State, NO_CONTENTS);
    var c := Vertex(machineId, m + 2, Cond, Guard(IF_TRUE));
    var k := Vertex(machineId, m + 3, Command, Commands(Tail(block)));
    var vs := d.vertices[f := first];
    WriteSplitVertices(d, f, e, m);
    assert block.commands == Head(block).commands + Tail(block).commands;
    forall w ensures Made(e.vertices, w) == Made(d.vertices, w) {
      MadeUpdated(d.vertices, f, first, w);
      MadeAppended(vs, s, w);
      MadeAppended(vs + [s], c, w);
      MadeAppended(vs + [s] + [c], k, w);
    }
  }

  /** The transition through command `v` of `d` is a chain in `e`, and nothing else changed. */
  ghost predicate NodeExpanded(d: Diagram, v: nat, e: Diagram, m: nat) {
    && OnlyNode(d, v, e, m) && |d.ins[v]| == 1 && |d.outs[v]| == 1
    && Chain(e, |d.vertices|, d.ins[v][0], WritesAt(d, v), d.outs[v][0])
    && SameWrites(d, e) && forall n: nat :: n <= |d.vertices| ==> SameBetween(d, e, n)
  }

  lemma SplitOnce(d: Diagram, f: nat, e: Diagram, m: nat)
    requires Shape(d) && Splittable(d, f) && WriteSplit(d, f, e, m) && Shape(e) && |WritesAt(d, f)| == 2
    ensures NodeExpanded(d, f, e, m)
  {
    assert CommandOk(d, f);
    var c, n := d.ins[f][0], |d.vertices|;
    WriteSplitMoves(d, f, e, m, c);
    WriteSplitMoves(d, f, e, m, n + 1);
    assert Chain(e, n, n + 1, WritesAt(d, f)[1..], d.outs[f][0]);
    WriteSplitMade(d, f, e, m);
    forall k: nat | k <= n ensures SameBetween(d, e, k) {
      WriteSplitSame(d, f, e, m, k);
    }
  }

  lemma NodeChain(d: Diagram, v: nat, e: Diagram, m: nat, n: nat, c: nat, ws: seq<Write>, t: nat)
    requires NodeExpanded(d, v, e, m) && n <= |d.vertices| && d.ins[v] == [c] && WritesAt(d, v) == ws
    requires d.outs[v] == [t]
    ensures Chain(e, n, c, ws, t)
  {
    ChainFrom(e, |d.vertices|, n, c, ws, t);
  }

  /** The first link of the chain is not touched when the rest is split. */
  lemma SplitMoreMove(d: Diagram, f: nat, d1: Diagram, e: Diagram, m: nat, c: nat)
    requires Shape(d) && Splittable(d, f) && WriteSplit(d, f, d1, m) && d.ins[f] == [c]
    requires OnlyNode(d1, |d.vertices| + 2, e, m + 3)
    ensures MoveOf(e, c).Some? && MoveOf(e, c).value.writes == WritesAt(d, f)[..1]
    ensures MoveOf(e, c).value.target == |d.vertices|
  {
    WriteSplitMoves(d, f, d1, m, c);
    MoveOfShape(d, c);
    assert c in d.ins[f];
    MoveStays(d1, |d.vertices| + 2, e, m + 3, c);
  }

  lemma SplitMoreState(d: Diagram, f: nat, d1: Diagram, e: Diagram, m: nat)
    requires Shape(d) && Splittable(d, f) && WriteSplit(d, f, d1, m) && CommandOk(d, f)
    requires OnlyNode(d1, |d.vertices| + 2, e, m + 3) && MoveOf(e, |d.vertices| + 1).Some?
    ensures var n := |d.vertices|;
      && Is(e, n, State) && |e.ins[n]| == 1 && e.outs[n] == [n + 1]
      && MoveOf(e, n + 1).value.source == n && MoveOf(e, n + 1).value.guard == IF_TRUE
  {
    var n := |d.vertices|;
    StateStays(d1, n + 2, e, m + 3, n);
    assert e.vertices[n + 1] == d1.vertices[n + 1];
    assert d1.outs[n + 2] == d.outs[f] && d1.outs[n + 2] != [n + 1];
  }

  lemma SplitMoreChain(d: Diagram, f: nat, d1: Diagram, e: Diagram, m: nat, c: nat, t: nat)
    requires Shape(d) && Splittable(d, f) && WriteSplit(d, f, d1, m) && CommandOk(d, f) && d.ins[f] == [c]
    requires OnlyNode(d1, |d.vertices| + 2, e, m + 3)
    requires Chain(e, |d.vertices|, |d.vertices| + 1, WritesAt(d, f)[1..], t)
    ensures Chain(e, |d.vertices|, c, WritesAt(d, f), t)
  {
    SplitMoreMove(d, f, d1, e, m, c);
    SplitMoreState(d, f, d1, e, m);
  }

  lemma OnlyNodeTwice(d: Diagram, f: nat, d1: Diagram, e: Diagram, m: nat)
    requires Shape(d) && Splittable(d, f) && WriteSplit(d, f, d1, m) && OnlyNode(d1, |d.vertices| + 2, e, m + 3)
    ensures OnlyNode(d, f, e, m)
  {
    var n := |d.vertices|;
    assert CommandOk(d, f);
    forall u: nat | n <= u < |e.vertices| ensures e.vertices[u].vertexId == m + 1 + u - n && |WritesAt(e, u)| <= 1 {
      assert u == n || u == n + 1 || u == n + 2 || u >= n + 3;
    }
  }

  lemma SplitMoreSame(d: Diagram, f: nat, d1: Diagram, e: Diagram, m: nat)
    requires Shape(d) && Splittable(d, f) && WriteSplit(d, f, d1, m)
    requires forall n: nat :: n <= |d.vertices| ==> SameBetween(d1, e, n)
    ensures forall n: nat :: n <= |d.vertices| ==> SameBetween(d, e, n)
  {
    forall k: nat | k <= |d.vertices| ensures SameBetween(d, e, k) {
      WriteSplitSame(d, f, d1, m, k);
      SameBetweenTwice(d, d1, e, k);
    }
  }

  lemma SplitMore(d: Diagram, f: nat, d1: Diagram, e: Diagram, m: nat)
    requires Shape(d) && Splittable(d, f) && WriteSplit(d, f, d1, m) && NodeExpanded(d1, |d.vertices| + 2, e, m + 3)
    ensures NodeExpanded(d, f, e, m)
  {
    assert CommandOk(d, f);
    var n, c, t := |d.vertices|, d.ins[f][0], d.outs[f][0];
    OnlyNodeTwice(d, f, d1, e, m);
    NodeChain(d1, n + 2, e, m + 3, n, n + 1, WritesAt(d, f)[1..], t);
    SplitMoreChain(d, f, d1, e, m, c, t);
    WriteSplitMade(d, f, d1, m);
    SplitMoreSame(d, f, d1, e, m);
  }

  lemma SplitWriteKeeps(d: Diagram, f: nat, m: nat)
    requires Shape(d) && Splittable(d, f)
    ensures Shape(SplitWrite(d, f, m)) && WriteSplit(d, f, SplitWrite(d, f, m), m)
  {
    SplitWriteSound(d, f, m);
    SplitWriteEdges(d, f, m);
    WriteSplitShape(d, f, SplitWrite(d, f, m), m);
  }

  /** `splitTransition` */
  method SplitTransition(g: Graph, from: nat, to: nat, commands: Block, m: nat) returns (newCommand: nat)
    requires Shape(g.d) && Splittable(g.d, from) && g.d.outs[from] == [to]
    requires commands == g.d.vertices[from].contents.block
    modifies g
    ensures g.d == SplitWrite(old(g.d), from, m) && newCommand == |old(g.d).vertices| + 2
  {
    assert CommandOk(g.d, from);
    assert to in g.d.outs[from];
    var machineId := g.d.vertices[from].machineId;
    g.SetContents(from, Commands(Head(commands)));
    g.RemoveEdge(from, to);
    var newState := g.AddVertex(machineId, m + 1, State, NO_CONTENTS);
    g.AddEdge(from, newState);
    var newIf := g.AddVertex(machineId, m + 2, Cond, Guard(IF_TRUE));
    g.AddEdge(newState, newIf);
    newCommand := g.AddVertex(machineId, m + 3, Command, Commands(Tail(commands)));
    g.AddEdge(newIf, newCommand);
    g.AddEdge(newCommand, to);
  }

  /** `expandMultipleWriteNode`: the tail of a block is split further while it has more than one write. */
  method ExpandMultipleWriteNode(g: Graph, v: nat, m: nat) returns (m': nat)
    requires Shape(g.d) && Splittable(g.d, v)
    modifies g
    ensures NodeExpanded(old(g.d), v, g.d, m) && m' == m + |g.d.vertices| - |old(g.d).vertices|
    decreases |WritesAt(g.d, v)|
  {
    assert CommandOk(g.d, v);
    ghost var d := g.d;
    var block := g.d.vertices[v].contents.block;
    SplitWriteKeeps(d, v, m);
    var newCommand := SplitTransition(g, v, g.d.outs[v][0], block, m);
    m' := m + 3;
    ghost var d1 := g.d;
    if |g.d.vertices[newCommand].contents.block.commands| > 1 {
      m' := ExpandMultipleWriteNode(g, newCommand, m');
      SplitMore(d, v, d1, g.d, m);
    } else {
      SplitOnce(d, v, d1, m);
    }
  }

  // ---------------------------------------------------------------- the whole pass

  /** What holds after the commands among the first `i` vertices were looked at; `m` is the largest number before. */
  ghost predicate Unfolded(d0: Diagram, d: Diagram, m: nat, i: nat) {
    var n := |d0.vertices|;
    && Shape(d0) && Shape(d) && n <= |d.vertices|
    && (forall u: nat ::
      u < n && (u >= i || d0.vertices[u].kind != Command) ==>
      d.vertices[u] == d0.vertices[u] && d.outs[u] == d0.outs[u])
    && (forall u: nat :: u < n && d0.vertices[u].kind != State ==> d.ins[u] == d0.ins[u])
    && (forall u: nat :: u < n ==> d.vertices[u] == d0.vertices[u].(contents := d.vertices[u].contents))
    && (forall u: nat {:trigger Is(d, u, Command)} :: Is(d, u, Command) && (u < i || u >= n) ==> |WritesAt(d, u)| <= 1)
    && (forall u: nat :: n <= u < |d.vertices| ==> d.vertices[u].vertexId > m)
    && (forall u: nat :: u < |d.vertices| ==> d.vertices[u].vertexId <= m + |d.vertices| - n)
  }

  /** The transition through each command among the first `i` vertices has become a chain. */
  ghost predicate Chained(d0: Diagram, d: Diagram, i: nat)
    requires Sized(d0)
  {
    forall k: nat {:trigger Is(d0, k, Command)} :: k < i && Is(d0, k, Command) ==>
      CommandOk(d0, k) && Chain(d, |d0.vertices|, d0.ins[k][0], WritesAt(d0, k), d0.outs[k][0])
  }

  /** An intermediate state neither follows an old command nor leads to its condition. */
  lemma ChainAway(d0: Diagram, d: Diagram, m0: nat, i: nat, v: nat, q: nat, c: nat)
    requires Unfolded(d0, d, m0, i) && Is(d0, v, Command) && v >= i && Is(d, q, State) && q >= |d0.vertices|
    requires d.outs[q] == [c] && MoveOf(d, c).Some? && MoveOf(d, c).value.source == q
    ensures d.outs[v] != [q] && d.ins[v] != [c] && q != v
  {
    assert CommandOk(d0, v);
    var c0 := d0.ins[v][0];
    assert CondOk(d0, c0);
  }

  lemma {:induction false} ChainStays(d0: Diagram, d: Diagram, m0: nat, i: nat, v: nat, e: Diagram, m: nat, c: nat,
        ws: seq<Write>, t: nat)
    requires Unfolded(d0, d, m0, i) && OnlyNode(d, v, e, m) && i <= v < |d0.vertices|
    requires Chain(d, |d0.vertices|, c, ws, t) && d.ins[v] != [c]
    ensures Chain(e, |d0.vertices|, c, ws, t)
    decreases |ws|
  {
    MoveStays(d, v, e, m, c);
    if |ws| > 1 {
      var q := MoveOf(d, c).value.target;
      var c' := d.outs[q][0];
      ChainAway(d0, d, m0, i, v, q, c');
      StateStays(d, v, e, m, q);
      MoveStays(d, v, e, m, c');
      ChainStays(d0, d, m0, i, v, e, m, c', ws[1..], t);
    }
  }

  lemma UnfoldMore(d0: Diagram, d: Diagram, m: nat, i: nat, e: Diagram)
    requires Unfolded(d0, d, m, i) && i < |d0.vertices| && OnlyNode(d, i, e, m + |d.vertices| - |d0.vertices|)
    ensures Unfolded(d0, e, m, i + 1)
  {
    assert CommandOk(d, i);
    assert Is(d0, i, Command);
    forall u: nat | u < |d0.vertices| && d0.vertices[u].kind != State ensures e.ins[u] == d0.ins[u] {
      assert d.outs[i] != [u] by {
        assert Is(d, d.outs[i][0], State);
      }
    }
    forall u: nat | Is(e, u, Command) && (u < i + 1 || u >= |d0.vertices|) ensures |WritesAt(e, u)| <= 1 {
      if u != i && u < |d.vertices| {
        assert Is(d, u, Command);
      }
    }
  }

  lemma ChainMore(d0: Diagram, d: Diagram, m: nat, i: nat, e: Diagram)
    requires Unfolded(d0, d, m, i) && Chained(d0, d, i) && i < |d0.vertices|
    requires NodeExpanded(d, i, e, m + |d.vertices| - |d0.vertices|)
    ensures Chained(d0, e, i + 1)
  {
    assert Is(d0, i, Command);
    assert CommandOk(d0, i);
    NodeChain(d, i, e, m + |d.vertices| - |d0.vertices|, |d0.vertices|, d0.ins[i][0], WritesAt(d0, i), d0.outs[i][0]);
    forall k: nat | k < i && Is(d0, k, Command)
      ensures CommandOk(d0, k) && Chain(e, |d0.vertices|, d0.ins[k][0], WritesAt(d0, k), d0.outs[k][0])
    {
      assert CommandOk(d0, k);
      OwnCondition(d0, k, i);
      ChainStays(d0, d, m, i, i, e, m + |d.vertices| - |d0.vertices|, d0.ins[k][0], WritesAt(d0, k), d0.outs[k][0]);
    }
  }

  /** Two commands have two conditions. */
  lemma OwnCondition(d: Diagram, k: nat, l: nat)
    requires Shape(d) && Is(d, k, Command) && Is(d, l, Command) && k != l
    ensures CommandOk(d, k) && CommandOk(d, l) && d.ins[k][0] != d.ins[l][0]
  {
    assert CommandOk(d, k) && CommandOk(d, l);
    var c := d.ins[k][0];
    assert CondOk(d, c);
    assert c in d.ins[k];
    assert k in d.outs[c];
    assert d.ins[l][0] in d.ins[l];
    assert l in d.outs[d.ins[l][0]];
  }

  /** A block of at most one write is a chain as it is. */
  lemma ShortChain(d0: Diagram, d: Diagram, m: nat, i: nat)
    requires Unfolded(d0, d, m, i) && Chained(d0, d, i) && Is(d0, i, Command) && |WritesAt(d0, i)| <= 1
    ensures Unfolded(d0, d, m, i + 1) && Chained(d0, d, i + 1)
  {
    assert CommandOk(d0, i) && CommandOk(d, i);
    MoveOfShape(d, d.ins[i][0]);
    assert d.ins[i][0] in d.ins[i];
    assert i in d.outs[d.ins[i][0]];
  }

  /** The numbers of the new vertices do not collide. */
  lemma UniqueMore(d: Diagram, v: nat, e: Diagram, m: nat)
    requires OnlyNode(d, v, e, m) && Unique(d.vertices) && forall u: nat ::
      u < |d.vertices| ==> d.vertices[u].vertexId <= m
    ensures Unique(e.vertices)
  {
    forall u: nat, w: nat | u < w < |e.vertices| && e.vertices[u].kind == e.vertices[w].kind &&
      e.vertices[u].machineId == e.vertices[w].machineId
      ensures e.vertices[u].vertexId != e.vertices[w].vertexId
    {
      if w < |d.vertices| {
        assert d.vertices[u].vertexId == e.vertices[u].vertexId && d.vertices[w].vertexId == e.vertices[w].vertexId;
      }
    }
  }

  /** Everything that holds after the first `i` vertices. */
  ghost predicate WritesProgress(d0: Diagram, d: Diagram, m: nat, i: nat) {
    && Unfolded(d0, d, m, i) && Chained(d0, d, i) && Unique(d.vertices)
    && SameWrites(d0, d) && SameBetween(d0, d, |d0.vertices|)
  }

  lemma ExpandProgress(d0: Diagram, d: Diagram, m: nat, i: nat, e: Diagram)
    requires WritesProgress(d0, d, m, i) && i < |d0.vertices| && NodeExpanded(d, i, e, m + |d.vertices| - |d0.vertices|)
    ensures WritesProgress(d0, e, m, i + 1)
  {
    UnfoldMore(d0, d, m, i, e);
    ChainMore(d0, d, m, i, e);
    UniqueMore(d, i, e, m + |d.vertices| - |d0.vertices|);
    SameBetweenTwice(d0, d, e, |d0.vertices|);
  }

  lemma SkipProgress(d0: Diagram, d: Diagram, m: nat, i: nat)
    requires WritesProgress(d0, d, m, i) && i < |d0.vertices| && !Splittable(d, i)
    ensures WritesProgress(d0, d, m, i + 1)
  {
    if Is(d0, i, Command) {
      assert CommandOk(d0, i);
      ShortChain(d0, d, m, i);
    } else {
      assert Is(d0, i, Cond) ==> CondOk(d0, i);
    }
  }

  /**
   `expandMultipleWrites`: every transition of the graph is afterwards a chain of transitions with one write each,
   or is as before if it writes at most once; no command vertex has more than one write; each write is made as often
   as before; and between the states of the graph the machines do the same as before.
   */
  method ExpandMultipleWrites(g: Graph) returns (ghost m: nat)
    requires Shape(g.d) && Unique(g.d.vertices)
    modifies g
    ensures WritesProgress(old(g.d), g.d, m, |old(g.d).vertices|)
  {
    var maxId := MaxVertexId(g);
    m := maxId;
    ghost var d0 := g.d;
    var i, end := 0, |g.d.vertices|;
    assert WritesProgress(d0, d0, m, 0);
    while i < end
      invariant 0 <= i <= end == |d0.vertices| && maxId == m + |g.d.vertices| - |d0.vertices|
      invariant WritesProgress(d0, g.d, m, i)
    {
      ghost var d := g.d;
      if g.d.vertices[i].kind == Command && g.d.vertices[i].contents.Commands? &&
        |g.d.vertices[i].contents.block.commands| > 1 {
        maxId := ExpandMultipleWriteNode(g, i, maxId);
        ExpandProgress(d0, d, m, i, g.d);
      } else {
        SkipProgress(d0, d, m, i);
      }
      i := i + 1;
    }
  }
}
