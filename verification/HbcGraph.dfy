/**
 The graph of the Hexabus compiler: states, conditions and commands of all state machines, how they are
 linked, and what a run through them tests and writes.
 */
module HbcGraph {
  import opened Wrappers

  // ---------------------------------------------------------------- syntax

  datatype Name = Known(name: string) | Placeholder(placeholder: string)

  datatype BoolOp = And | Or

  datatype Condition =
    | Always(number: nat)
    | Atomic(device: Name, endpoint: Name, op: string, constant: string)
    | Timeout(seconds: string)
    | Timer(field: string, op: string, constant: string)
    | Compound(a: Condition, boolOp: BoolOp, b: Condition)

  datatype Write = Write(device: Name, endpoint: Name, constant: string)

  datatype Block = Block(commands: seq<Write>, target: string)

  // ---------------------------------------------------------------- vertices and edges

  datatype Kind = State | Cond | Command

  datatype Contents = Guard(condition: Condition) | Commands(block: Block)

  /** A vertex that is added without contents gets the default of the variant. */
  const NO_CONTENTS: Contents := Guard(Always(0))

  datatype Vertex = Vertex(machineId: nat, vertexId: nat, kind: Kind, contents: Contents)

  /** A bidirectional adjacency list. */
  datatype Diagram = Diagram(vertices: seq<Vertex>, outs: seq<seq<nat>>, ins: seq<seq<nat>>)

  const EMPTY: Diagram := Diagram([], [], [])

  predicate Sized(d: Diagram) {
    |d.outs| == |d.vertices| == |d.ins|
  }

  predicate Is(d: Diagram, v: nat, kind: Kind) {
    v < |d.vertices| && d.vertices[v].kind == kind
  }

  /** A condition comes from one state and leads to one command. */
  ghost predicate CondOk(d: Diagram, v: nat)
    requires Sized(d)
  {
    && v < |d.vertices| && d.vertices[v].contents.Guard? && |d.ins[v]| == 1 && |d.outs[v]| == 1
    && Is(d, d.ins[v][0], State) && Is(d, d.outs[v][0], Command)
  }

  /** A command comes from one condition and leads to one state. */
  ghost predicate CommandOk(d: Diagram, v: nat)
    requires Sized(d)
  {
    && v < |d.vertices| && d.vertices[v].contents.Commands? && |d.ins[v]| == 1 && |d.outs[v]| == 1
    && Is(d, d.ins[v][0], Cond) && Is(d, d.outs[v][0], State)
  }

  ghost predicate Linked(d: Diagram)
    requires Sized(d)
  {
    && (forall u: nat, v: nat {:trigger v in d.outs[u]} ::
      u < |d.vertices| && v in d.outs[u] ==> v < |d.vertices| && u in d.ins[v])
    && (forall u: nat, v: nat {:trigger u in d.ins[v]} ::
      v < |d.vertices| && u in d.ins[v] ==> u < |d.vertices| && v in d.outs[u])
  }

  /** Edges stay within a machine. */
  ghost predicate Local(d: Diagram)
    requires Sized(d)
  {
    forall u: nat, v: nat {:trigger v in d.outs[u]} ::
      u < |d.vertices| && v in d.outs[u] && v < |d.vertices| ==> d.vertices[v].machineId == d.vertices[u].machineId
  }

  /** The graphs the compiler works on: state, condition, command, state. */
  ghost predicate Shape(d: Diagram) {
    && Sized(d) && Linked(d) && Local(d)
    && (forall v: nat {:trigger CondOk(d, v)} :: Is(d, v, Cond) ==> CondOk(d, v))
    && (forall v: nat {:trigger CommandOk(d, v)} :: Is(d, v, Command) ==> CommandOk(d, v))
    && (forall s: nat, v: nat {:trigger v in d.outs[s]} :: Is(d, s, State) && v in d.outs[s] ==> Is(d, v, Cond))
    && (forall s: nat :: s < |d.vertices| ==> NoRepeats(d.outs[s]))
  }

  ghost predicate NoRepeats(s: seq<nat>) {
    forall i, j :: 0 <= i < j < |s| ==> s[i] != s[j]
  }

  /** Vertices of one kind and machine have different numbers. */
  ghost predicate Unique(vs: seq<Vertex>) {
    forall u: nat, v: nat ::
      u < v < |vs| && vs[u].kind == vs[v].kind && vs[u].machineId == vs[v].machineId ==>
      vs[u].vertexId != vs[v].vertexId
  }

  // ---------------------------------------------------------------- runs

  /** An environment: the elementary conditions that hold. */
  type Env = iset<Condition>

  ghost predicate Holds(c: Condition, env: Env) {
    match c
    case Always(_) => true
    case Compound(a, And, b) => Holds(a, env) && Holds(b, env)
    case Compound(a, Or, b) => Holds(a, env) || Holds(b, env)
    case _ => c in env
  }

  /** A transition: where it starts, what it tests, what it writes and where it ends. */
  datatype Move = Move(source: nat, guard: Condition, writes: seq<Write>, target: nat)

  function WritesAt(d: Diagram, v: nat): seq<Write> {
    if v < |d.vertices| && d.vertices[v].contents.Commands? then d.vertices[v].contents.block.commands else []
  }

  predicate IsOrCondition(c: Condition) {
    c.Compound? && c.boolOp == Or
  }

  lemma OrIs(c: Condition)
    ensures IsOrCondition(c) <==> exists a, b :: c == Compound(a, Or, b)
  {
    if IsOrCondition(c) {
      assert c == Compound(c.a, Or, c.b);
    }
  }

  predicate IsOr(d: Diagram, c: nat) {
    Is(d, c, Cond) && d.vertices[c].contents.Guard? && IsOrCondition(d.vertices[c].contents.condition)
  }

  /** The transition of condition `c`; there is one for every condition vertex. */
  function MoveOf(d: Diagram, c: nat): Option<Move> {
    if Sized(d) && Is(d, c, Cond) && d.vertices[c].contents.Guard? && |d.ins[c]| == 1 && |d.outs[c]| == 1 then
      var k := d.outs[c][0];
      if k < |d.vertices| && |d.outs[k]| == 1 then
        Some(Move(d.ins[c][0], d.vertices[c].contents.condition, WritesAt(d, k), d.outs[k][0]))
      else None
    else None
  }

  /**
   The conditions in `path` lead from `s` to `t` and write `trace`. Each state below `n` that is passed tests
   one environment; the others are intermediate states, which are left without a test.
   */
  ghost predicate Runs(d: Diagram, n: nat, path: seq<nat>, envs: seq<Env>, s: nat, t: nat, trace: seq<Write>)
    decreases |path|
  {
    if path == [] then envs == [] && trace == [] && s == t
    else
      var m := MoveOf(d, path[0]);
      && m.Some? && m.value.source == s && m.value.writes <= trace
      && if s < n then
           envs != [] && Holds(m.value.guard, envs[0]) &&
             Runs(d, n, path[1..], envs[1..], m.value.target, t, trace[|m.value.writes|..])
         else
           m.value.guard.Always? && Runs(d, n, path[1..], envs, m.value.target, t, trace[|m.value.writes|..])
  }

  /** Whether a state can be left by a transition, and the environments that are left then. */
  ghost predicate Leaves(n: nat, envs: seq<Env>, s: nat, guard: Condition) {
    if s < n then envs != [] && Holds(guard, envs[0]) else guard.Always?
  }

  function Left(n: nat, envs: seq<Env>, s: nat): seq<Env> {
    if s < n && envs != [] then envs[1..] else envs
  }

  /** A run is a transition and a run. */
  lemma RunsCons(d: Diagram, n: nat, v: nat, p: seq<nat>, envs: seq<Env>, s: nat, t: nat, trace: seq<Write>)
    requires MoveOf(d, v).Some? && MoveOf(d, v).value.source == s && MoveOf(d, v).value.writes <= trace
    requires Leaves(n, envs, s, MoveOf(d, v).value.guard)
    requires Runs(d, n, p, Left(n, envs, s), MoveOf(d, v).value.target, t, trace[|MoveOf(d, v).value.writes|..])
    ensures Runs(d, n, [v] + p, envs, s, t, trace)
  {
    assert ([v] + p)[1..] == p;
  }

  /** Some run from `s` to `t` passes the environments and writes the trace. */
  ghost predicate Behaves(d: Diagram, n: nat, envs: seq<Env>, s: nat, t: nat, trace: seq<Write>) {
    exists path :: Runs(d, n, path, envs, s, t, trace)
  }

  lemma MoveOfShape(d: Diagram, c: nat)
    requires Shape(d) && Is(d, c, Cond)
    ensures CondOk(d, c) && CommandOk(d, d.outs[c][0]) && MoveOf(d, c).Some?
    ensures d.ins[d.outs[c][0]] == [c] && Is(d, MoveOf(d, c).value.source, State)
    ensures Is(d, MoveOf(d, c).value.target, State)
  {
    assert CondOk(d, c);
    var k := d.outs[c][0];
    assert CommandOk(d, k);
    assert k in d.outs[c];
    assert c in d.ins[k];
  }

  // ---------------------------------------------------------------- counting writes

  /** How often a vertex makes write `w`. */
  ghost function MadeAt(v: Vertex, w: Write): nat {
    if v.kind == Command && v.contents.Commands? then multiset(v.contents.block.commands)[w] else 0
  }

  /** How often the commands of a graph make write `w`. */
  ghost function Made(vs: seq<Vertex>, w: Write): nat {
    if vs == [] then 0 else Made(vs[..|vs| - 1], w) + MadeAt(vs[|vs| - 1], w)
  }

  lemma MadeAppended(vs: seq<Vertex>, v: Vertex, w: Write)
    ensures Made(vs + [v], w) == Made(vs, w) + MadeAt(v, w)
  {
    assert (vs + [v])[..|vs|] == vs;
  }

  lemma {:induction false} MadeUpdated(vs: seq<Vertex>, c: nat, v: Vertex, w: Write)
    requires c < |vs|
    ensures Made(vs[c := v], w) + MadeAt(vs[c], w) == Made(vs, w) + MadeAt(v, w)
  {
    var n := |vs| - 1;
    if c == n {
      assert vs[c := v][..n] == vs[..n];
    } else {
      MadeUpdated(vs[..n], c, v, w);
      assert vs[c := v][..n] == vs[..n][c := v];
    }
  }

  /** How often the first `n` vertices ask for write `w`, if each transition guarded by an OR counts twice. */
  ghost function Asked(d: Diagram, n: nat, w: Write): nat {
    if n == 0 then 0 else Asked(d, n - 1, w) + AskedAt(d, n - 1, w)
  }

  ghost function AskedAt(d: Diagram, v: nat, w: Write): nat {
    if Is(d, v, Command) then multiset(WritesAt(d, v))[w] else AskedAgain(d, v, w)
  }

  /** An OR asks for the writes of its transition once more. */
  ghost function AskedAgain(d: Diagram, v: nat, w: Write): nat {
    if IsOr(d, v) && MoveOf(d, v).Some? then multiset(MoveOf(d, v).value.writes)[w] else 0
  }

  // ---------------------------------------------------------------- changing a graph

  function WithVertex(d: Diagram, v: Vertex): Diagram {
    Diagram(d.vertices + [v], d.outs + [[]], d.ins + [[]])
  }

  function WithEdge(d: Diagram, u: nat, v: nat): Diagram
    requires Sized(d) && u < |d.vertices| && v < |d.vertices|
  {
    d.(outs := d.outs[u := d.outs[u] + [v]], ins := d.ins[v := d.ins[v] + [u]])
  }

  function Without(s: seq<nat>, x: nat): seq<nat> {
    if s == [] then [] else if s[0] == x then Without(s[1..], x) else [s[0]] + Without(s[1..], x)
  }

  lemma {:induction false} InWithout(s: seq<nat>, x: nat, y: nat)
    ensures y in Without(s, x) <==> y in s && y != x
  {
    if s != [] {
      InWithout(s[1..], x, y);
      assert s == [s[0]] + s[1..];
    }
  }

  /** `remove_edge` removes all edges from `u` to `v`. */
  function WithoutEdge(d: Diagram, u: nat, v: nat): Diagram
    requires Sized(d) && u < |d.vertices| && v < |d.vertices|
  {
    d.(outs := d.outs[u := Without(d.outs[u], v)], ins := d.ins[v := Without(d.ins[v], u)])
  }

  function WithContents(d: Diagram, v: nat, c: Contents): Diagram
    requires v < |d.vertices|
  {
    d.(vertices := d.vertices[v := d.vertices[v].(contents := c)])
  }

  /** Both ends of every edge know it, and the edge stays within a machine. */
  ghost predicate Sound(d: Diagram) {
    Sized(d) && Linked(d) && Local(d)
  }

  lemma InAppended(s: seq<nat>, x: nat, y: nat)
    ensures y in s + [x] <==> y in s || y == x
  {
    if y == x {
      assert (s + [x])[|s|] == y;
    }
  }

  lemma VertexKeeps(d: Diagram, v: Vertex)
    requires Sound(d)
    ensures Sound(WithVertex(d, v))
  {
    var e := WithVertex(d, v);
    forall x: nat, y: nat {:trigger y in e.outs[x]} | x < |e.vertices| && y in e.outs[x]
      ensures y < |e.vertices| && x in e.ins[y] && e.vertices[y].machineId == e.vertices[x].machineId
    {
      assert x < |d.vertices| && y in d.outs[x];
      assert x in d.ins[y];
    }
    forall x: nat, y: nat {:trigger x in e.ins[y]} | y < |e.vertices| && x in e.ins[y]
      ensures x < |e.vertices| && y in e.outs[x]
    {
      assert y < |d.vertices| && x in d.ins[y];
      assert y in d.outs[x];
    }
  }

  lemma EdgeKeeps(d: Diagram, u: nat, v: nat)
    requires Sound(d) && u < |d.vertices| && v < |d.vertices| && d.vertices[u].machineId == d.vertices[v].machineId
    ensures Sound(WithEdge(d, u, v))
  {
    var e := WithEdge(d, u, v);
    forall x: nat, y: nat {:trigger y in e.outs[x]} | x < |e.vertices| && y in e.outs[x]
      ensures y < |e.vertices| && x in e.ins[y] && e.vertices[y].machineId == e.vertices[x].machineId
    {
      InAppended(d.outs[x], v, y);
      InAppended(d.ins[v], u, x);
    }
    forall x: nat, y: nat {:trigger x in e.ins[y]} | y < |e.vertices| && x in e.ins[y]
      ensures x < |e.vertices| && y in e.outs[x]
    {
      InAppended(d.ins[y], u, x);
      InAppended(d.outs[u], v, y);
    }
  }

  lemma NoEdgeKeeps(d: Diagram, u: nat, v: nat)
    requires Sound(d) && u < |d.vertices| && v < |d.vertices|
    ensures Sound(WithoutEdge(d, u, v))
  {
    var e := WithoutEdge(d, u, v);
    forall x: nat, y: nat {:trigger y in e.outs[x]} | x < |e.vertices| && y in e.outs[x]
      ensures y < |e.vertices| && x in e.ins[y] && e.vertices[y].machineId == e.vertices[x].machineId
    {
      InWithout(d.outs[x], v, y);
      InWithout(d.ins[v], u, x);
    }
    forall x: nat, y: nat {:trigger x in e.ins[y]} | y < |e.vertices| && x in e.ins[y]
      ensures x < |e.vertices| && y in e.outs[x]
    {
      InWithout(d.ins[y], u, x);
      InWithout(d.outs[u], v, y);
    }
  }

  lemma ContentsKeeps(d: Diagram, v: nat, c: Contents)
    requires Sound(d) && v < |d.vertices|
    ensures Sound(WithContents(d, v, c))
  {
  }

  // ---------------------------------------------------------------- adding a transition

  /** The graph with a new condition `c` and a new command `k` between states `s` and `t`. */
  function WithTransition(d: Diagram, s: nat, t: nat, c: Vertex, k: Vertex): Diagram
    requires Sized(d) && s < |d.vertices| && t < |d.vertices|
  {
    var n := |d.vertices|;
    WithEdge(WithEdge(WithEdge(WithVertex(WithVertex(d, c), k), s, n), n, n + 1), n + 1, t)
  }

  ghost predicate CanAdd(d: Diagram, s: nat, t: nat, c: Vertex, k: Vertex) {
    && Shape(d) && Is(d, s, State) && Is(d, t, State) && c.kind == Cond && k.kind == Command && c.contents.Guard? &&
      k.contents.Commands?
    && d.vertices[s].machineId == d.vertices[t].machineId == c.machineId == k.machineId
  }

  /** The edges after a transition was added. */
  lemma TransitionEdges(d: Diagram, s: nat, t: nat, c: Vertex, k: Vertex)
    requires Sized(d) && s < |d.vertices| && t < |d.vertices|
    ensures var n, e := |d.vertices|, WithTransition(d, s, t, c, k);
      && Sized(e) && e.vertices == d.vertices + [c, k]
      && (forall u: nat :: u < n ==> e.outs[u] == if u == s then d.outs[s] + [n] else d.outs[u])
      && (forall u: nat :: u < n ==> e.ins[u] == if u == t then d.ins[t] + [n + 1] else d.ins[u])
      && e.outs[n] == [n + 1] && e.ins[n] == [s] && e.outs[n + 1] == [t] && e.ins[n + 1] == [n]
  {
  }

  lemma TransitionSound(d: Diagram, s: nat, t: nat, c: Vertex, k: Vertex)
    requires CanAdd(d, s, t, c, k)
    ensures Sound(WithTransition(d, s, t, c, k))
  {
    var n := |d.vertices|;
    VertexKeeps(d, c);
    VertexKeeps(WithVertex(d, c), k);
    var d2 := WithVertex(WithVertex(d, c), k);
    EdgeKeeps(d2, s, n);
    EdgeKeeps(WithEdge(d2, s, n), n, n + 1);
    EdgeKeeps(WithEdge(WithEdge(d2, s, n), n, n + 1), n + 1, t);
  }

  lemma TransitionVertex(d: Diagram, s: nat, t: nat, c: Vertex, k: Vertex, v: nat)
    requires CanAdd(d, s, t, c, k) && v < |d.vertices| + 2
    ensures Sized(WithTransition(d, s, t, c, k)) && |WithTransition(d, s, t, c, k).vertices| == |d.vertices| + 2
    ensures Is(WithTransition(d, s, t, c, k), v, Cond) ==> CondOk(WithTransition(d, s, t, c, k), v)
    ensures Is(WithTransition(d, s, t, c, k), v, Command) ==> CommandOk(WithTransition(d, s, t, c, k), v)
    ensures NoRepeats(WithTransition(d, s, t, c, k).outs[v])
  {
    TransitionEdges(d, s, t, c, k);
    if Is(d, v, Cond) {
      assert CondOk(d, v);
    } else if Is(d, v, Command) {
      assert CommandOk(d, v);
    }
    if v < |d.vertices| {
      assert NoRepeats(d.outs[v]);
      assert forall i :: 0 <= i < |d.outs[v]| ==> d.outs[v][i] in d.outs[v];
    }
  }

  lemma TransitionState(d: Diagram, s: nat, t: nat, c: Vertex, k: Vertex, u: nat, v: nat)
    requires CanAdd(d, s, t, c, k)
    ensures Sized(WithTransition(d, s, t, c, k))
    ensures Is(WithTransition(d, s, t, c, k), u, State) && v in WithTransition(d, s, t, c, k).outs[u] ==>
      Is(WithTransition(d, s, t, c, k), v, Cond)
  {
    TransitionEdges(d, s, t, c, k);
    if u < |d.vertices| {
      InAppended(d.outs[u], |d.vertices|, v);
    }
  }

  lemma TransitionShape(d: Diagram, s: nat, t: nat, c: Vertex, k: Vertex)
    requires CanAdd(d, s, t, c, k)
    ensures Shape(WithTransition(d, s, t, c, k))
  {
    var e := WithTransition(d, s, t, c, k);
    TransitionSound(d, s, t, c, k);
    TransitionEdges(d, s, t, c, k);
    forall v: nat | v < |e.vertices|
      ensures (Is(e, v, Cond) ==> CondOk(e, v)) && (Is(e, v, Command) ==> CommandOk(e, v)) && NoRepeats(e.outs[v])
    {
      TransitionVertex(d, s, t, c, k, v);
    }
    forall u: nat, v: nat {:trigger v in e.outs[u]} | Is(e, u, State) && v in e.outs[u] ensures Is(e, v, Cond) {
      TransitionState(d, s, t, c, k, u, v);
    }
  }

  /** The transitions are the old ones and the new one. */
  lemma TransitionMoves(d: Diagram, s: nat, t: nat, c: Vertex, k: Vertex, v: nat)
    requires CanAdd(d, s, t, c, k)
    ensures MoveOf(WithTransition(d, s, t, c, k), v) ==
      if v == |d.vertices| then Some(Move(s, c.contents.condition, k.contents.block.commands, t))
      else if v < |d.vertices| then MoveOf(d, v) else None
  {
    TransitionEdges(d, s, t, c, k);
    if Is(d, v, Cond) {
      MoveOfShape(d, v);
    }
  }

  /** Vertex `v` is the first with this number. */
  ghost predicate IsFirst(vs: seq<Vertex>, machineId: nat, vertexId: nat, v: nat) {
    && v < |vs| && vs[v].machineId == machineId && vs[v].vertexId == vertexId
    && forall u :: 0 <= u < v ==> !(vs[u].machineId == machineId && vs[u].vertexId == vertexId)
  }

  /** The graph that the passes share and change in place. */
  class Graph {
    var d: Diagram

    constructor ()
      ensures d == EMPTY
    {
      d := EMPTY;
    }

    method AddVertex(machineId: nat, vertexId: nat, kind: Kind, contents: Contents) returns (v: nat)
      requires Sized(d)
      modifies this
      ensures v == |old(d).vertices| && d == WithVertex(old(d), Vertex(machineId, vertexId, kind, contents)) && Sized(d)
    {
      v := |d.vertices|;
      d := WithVertex(d, Vertex(machineId, vertexId, kind, contents));
    }

    method AddEdge(u: nat, v: nat)
      requires Sized(d) && u < |d.vertices| && v < |d.vertices|
      modifies this
      ensures d == WithEdge(old(d), u, v) && Sized(d)
    {
      d := WithEdge(d, u, v);
    }

    method RemoveEdge(u: nat, v: nat)
      requires Sized(d) && u < |d.vertices| && v < |d.vertices|
      modifies this
      ensures d == WithoutEdge(old(d), u, v) && Sized(d)
    {
      d := WithoutEdge(d, u, v);
    }

    method SetContents(v: nat, c: Contents)
      requires v < |d.vertices|
      modifies this
      ensures d == WithContents(old(d), v, c)
    {
      d := WithContents(d, v, c);
    }

    /** `find_vertex`: the first vertex with this number, of whatever kind. */
    method FindVertex(machineId: nat, vertexId: nat) returns (found: Option<nat>)
      ensures found.Some? ==> IsFirst(d.vertices, machineId, vertexId, found.value)
      ensures found.None? ==> forall v: nat :: !IsFirst(d.vertices, machineId, vertexId, v)
    {
      var v := 0;
      while v < |d.vertices|
        invariant 0 <= v <= |d.vertices|
        invariant forall u ::
          0 <= u < v ==> !(d.vertices[u].machineId == machineId && d.vertices[u].vertexId == vertexId)
      {
        if d.vertices[v].machineId == machineId && d.vertices[v].vertexId == vertexId {
          return Some(v);
        }
        v := v + 1;
      }
      return None;
    }
  }

  lemma OneFirst(vs: seq<Vertex>, machineId: nat, vertexId: nat, u: nat, v: nat)
    requires IsFirst(vs, machineId, vertexId, u) && IsFirst(vs, machineId, vertexId, v)
    ensures u == v
  {
  }

  /** The largest number of a vertex. */
  method MaxVertexId(g: Graph) returns (m: nat)
    ensures forall v :: 0 <= v < |g.d.vertices| ==> g.d.vertices[v].vertexId <= m
  {
    m := 0;
    var i := 0;
    while i < |g.d.vertices|
      invariant 0 <= i <= |g.d.vertices|
      invariant forall v :: 0 <= v < i ==> g.d.vertices[v].vertexId <= m
    {
      if g.d.vertices[i].vertexId >= m {
        m := g.d.vertices[i].vertexId;
      }
      i := i + 1;
    }
  }
}
