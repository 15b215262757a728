/**
 Building the program graph from the state machines: states first, then a condition and a command for every
 guarded block. The transitions of the graph are exactly the guarded blocks of the machines.
 */
module HbcBuilder {
  import opened Wrappers
  import opened HbcGraph

  datatype GuardedBlock = GuardedBlock(condition: Condition, block: Block)

  datatype IfClause = IfClause(ifBlock: GuardedBlock, elseIfBlocks: seq<GuardedBlock>)

  datatype InClause = InClause(name: string, ifClauses: seq<IfClause>)

  datatype StateMachine = StateMachine(name: string, states: seq<string>, inClauses: seq<InClause>)

  datatype BuildError = DuplicateEntry | MissingInit | NonexistentState

  // ---------------------------------------------------------------- what a machine says

  /** A guarded block with the name of the state it belongs to. */
  datatype Clause = Clause(from: string, guarded: GuardedBlock)

  function ClausesOfIf(from: string, c: IfClause): seq<Clause> {
    [Clause(from, c.ifBlock)] +
      seq(|c.elseIfBlocks|, i requires 0 <= i < |c.elseIfBlocks| => Clause(from, c.elseIfBlocks[i]))
  }

  function ClausesOfIfs(from: string, cs: seq<IfClause>): seq<Clause> {
    if cs == [] then [] else ClausesOfIfs(from, cs[..|cs| - 1]) + ClausesOfIf(from, cs[|cs| - 1])
  }

  function ClausesOf(ins: seq<InClause>): seq<Clause> {
    if ins == [] then [] else ClausesOf(ins[..|ins| - 1]) + ClausesOfIfs(ins[|ins| - 1].name, ins[|ins| - 1].ifClauses)
  }

  /** The number of the first state of this name. */
  function StateNumber(states: seq<string>, name: string): (i: nat)
    requires name in states
    ensures i < |states| && states[i] == name && forall j :: 0 <= j < i ==> states[j] != name
  {
    if states[0] == name then 0 else 1 + StateNumber(states[1..], name)
  }

  predicate Resolved(states: seq<string>, c: Clause) {
    c.from in states && c.guarded.block.target in states
  }

  /** `find_state_vertex_id` */
  method FindState(states: seq<string>, name: string) returns (found: Option<nat>)
    ensures found == if name in states then Some(StateNumber(states, name)) else None
  {
    var i := 0;
    while i < |states|
      invariant 0 <= i <= |states| && forall j :: 0 <= j < i ==> states[j] != name
    {
      if states[i] == name {
        return Some(i);
      }
      i := i + 1;
    }
    return None;
  }

  // ---------------------------------------------------------------- what is built

  /** Machine `id` was added behind the vertices of `d0`: its states, and transitions for the clauses. */
  ghost predicate Built(d0: Diagram, d: Diagram, id: nat, states: seq<string>, clauses: seq<Clause>) {
    var b := |d0.vertices| + |states|;
    && Shape(d) && Unique(d.vertices) && |d.vertices| == b + 2 * |clauses|
    && (forall v: nat :: v < |d0.vertices| ==> d.vertices[v] == d0.vertices[v] && d.vertices[v].machineId < id)
    && (forall v: nat :: |d0.vertices| <= v < b ==> d.vertices[v] == Vertex(id, v - |d0.vertices|, State, NO_CONTENTS))
    && (forall v: nat :: b <= v < |d.vertices| ==> 
         d.vertices[v].machineId == id && d.vertices[v].vertexId == (v - b) / 2 &&
           d.vertices[v].kind == if (v - b) % 2 == 0 then Cond else Command)
    && (forall v: nat :: v < |d0.vertices| ==> MoveOf(d, v) == MoveOf(d0, v))
    && (forall k: nat :: k < |clauses| ==> Resolved(states, clauses[k]))
    && (forall v: nat ::
      b <= v < |d.vertices| && (v - b) % 2 == 0 ==>
      MoveOf(d, v) == MoveOfClause(|d0.vertices|, states, clauses[(v - b) / 2]))
  }

  /** The transition that a clause stands for, if its states exist; states are counted from vertex `base`. */
  function MoveOfClause(base: nat, states: seq<string>, c: Clause): Option<Move> {
    if Resolved(states, c) then
      Some(Move(base + StateNumber(states, c.from), c.guarded.condition, c.guarded.block.commands,
        base + StateNumber(states, c.guarded.block.target)))
    else None
  }

  /** The graph with the vertices of the states. */
  function WithStates(d: Diagram, id: nat, n: nat): (e: Diagram)
  {
    if n == 0 then d else WithVertex(WithStates(d, id, n - 1), Vertex(id, n - 1, State, NO_CONTENTS))
  }

  lemma {:induction false} StatesBuilt(d: Diagram, id: nat, states: seq<string>, n: nat)
    requires Shape(d) && Unique(d.vertices) && n <= |states| && forall v: nat ::
      v < |d.vertices| ==> d.vertices[v].machineId < id
    ensures Built(d, WithStates(d, id, n), id, states[..n], [])
  {
    if n > 0 {
      StatesBuilt(d, id, states, n - 1);
      var e := WithStates(d, id, n - 1);
      StateShape(e, Vertex(id, n - 1, State, NO_CONTENTS));
      forall v: nat ensures MoveOf(WithStates(d, id, n), v) == MoveOf(e, v) {
        StateMoves(e, Vertex(id, n - 1, State, NO_CONTENTS), v);
      }
    }
  }

  lemma StateShape(d: Diagram, s: Vertex)
    requires Shape(d) && s.kind == State
    ensures Shape(WithVertex(d, s))
  {
    var e := WithVertex(d, s);
    VertexKeeps(d, s);
    forall v: nat ensures (Is(e, v, Cond) ==> CondOk(e, v)) && (Is(e, v, Command) ==> CommandOk(e, v)) {
      assert Is(d, v, Cond) ==> CondOk(d, v);
      assert Is(d, v, Command) ==> CommandOk(d, v);
    }
    forall u: nat, v: nat {:trigger v in e.outs[u]} | Is(e, u, State) && v in e.outs[u] ensures Is(e, v, Cond) {
      assert u < |d.vertices| && v in d.outs[u];
    }
    forall u: nat | u < |e.vertices| ensures NoRepeats(e.outs[u]) {
      assert u < |d.vertices| ==> NoRepeats(d.outs[u]);
    }
  }

  lemma StateMoves(d: Diagram, s: Vertex, v: nat)
    requires Shape(d) && s.kind == State
    ensures MoveOf(WithVertex(d, s), v) == MoveOf(d, v)
  {
    if Is(d, v, Cond) {
      MoveOfShape(d, v);
    }
  }

  function CondOf(id: nat, k: nat, c: Clause): Vertex {
    Vertex(id, k, Cond, Guard(c.guarded.condition))
  }

  function CommandOf(id: nat, k: nat, c: Clause): Vertex {
    Vertex(id, k, Command, Commands(c.guarded.block))
  }

  lemma ClauseCanBeAdded(d0: Diagram, d: Diagram, id: nat, states: seq<string>, clauses: seq<Clause>, c: Clause)
    requires Built(d0, d, id, states, clauses) && Resolved(states, c)
    ensures var s, t := |d0.vertices| + StateNumber(states, c.from),
      |d0.vertices| + StateNumber(states, c.guarded.block.target);
      CanAdd(d, s, t, CondOf(id, |clauses|, c), CommandOf(id, |clauses|, c))
  {
  }

  ghost predicate OneMoreMove(d: Diagram, e: Diagram, move: Option<Move>) {
    forall v: nat :: MoveOf(e, v) ==
      (if v == |d.vertices| then move else if v < |d.vertices| then MoveOf(d, v) else None)
  }

  lemma BuiltMoves(d0: Diagram, d: Diagram, e: Diagram, id: nat, states: seq<string>, clauses: seq<Clause>, c: Clause)
    requires Built(d0, d, id, states, clauses) && Resolved(states, c) && |e.vertices| == |d.vertices| + 2
    requires OneMoreMove(d, e, MoveOfClause(|d0.vertices|, states, c))
    ensures var b := |d0.vertices| + |states|;
      && (forall v: nat :: v < |d0.vertices| ==> MoveOf(e, v) == MoveOf(d0, v))
      && (forall v: nat ::
        b <= v < |e.vertices| && (v - b) % 2 == 0 ==>
        MoveOf(e, v) == MoveOfClause(|d0.vertices|, states, (clauses + [c])[(v - b) / 2]))
  {
  }

  lemma BuiltFrom(d0: Diagram, d: Diagram, e: Diagram, id: nat, states: seq<string>, clauses: seq<Clause>, c: Clause)
    requires Built(d0, d, id, states, clauses) && Resolved(states, c)
    requires Shape(e) && e.vertices == d.vertices + [CondOf(id, |clauses|, c), CommandOf(id, |clauses|, c)]
    requires OneMoreMove(d, e, MoveOfClause(|d0.vertices|, states, c))
    ensures Built(d0, e, id, states, clauses + [c])
  {
    BuiltMoves(d0, d, e, id, states, clauses, c);
    UniqueWithTransition(d, |d0.vertices| + |states|, id, |clauses|, CondOf(id, |clauses|, c),
      CommandOf(id, |clauses|, c));
  }

  lemma TransitionIsOneMore(d: Diagram, s: nat, t: nat, c: Vertex, k: Vertex)
    requires CanAdd(d, s, t, c, k)
    ensures OneMoreMove(d, WithTransition(d, s, t, c, k),
      Some(Move(s, c.contents.condition, k.contents.block.commands, t)))
  {
    forall v: nat ensures MoveOf(WithTransition(d, s, t, c, k), v) ==
      if v == |d.vertices| then Some(Move(s, c.contents.condition, k.contents.block.commands, t))
      else if v < |d.vertices| then MoveOf(d, v) else None
    {
      TransitionMoves(d, s, t, c, k, v);
    }
  }

  /** `Built`, where it is only passed on. */
  ghost predicate SealedBuilt(seal: nat, d0: Diagram, d: Diagram, id: nat, states: seq<string>, clauses: seq<Clause>) {
    if seal > 0 then SealedBuilt(seal - 1, d0, d, id, states, clauses) else Built(d0, d, id, states, clauses)
  }

  lemma {:induction false} BuiltMeans(seal: nat, d0: Diagram, d: Diagram, id: nat, states: seq<string>,
        clauses: seq<Clause>)
    ensures SealedBuilt(seal, d0, d, id, states, clauses) <==> Built(d0, d, id, states, clauses)
  {
    if seal > 0 {
      BuiltMeans(seal - 1, d0, d, id, states, clauses);
    }
  }

  lemma ClauseAdds(d0: Diagram, d: Diagram, e: Diagram, id: nat, states: seq<string>, clauses: seq<Clause>, c: Clause,
      s: nat, t: nat)
    requires CanAdd(d, s, t, CondOf(id, |clauses|, c), CommandOf(id, |clauses|, c)) && Resolved(states, c)
    requires s == |d0.vertices| + StateNumber(states, c.from)
    requires t == |d0.vertices| + StateNumber(states, c.guarded.block.target)
    requires e == WithTransition(d, s, t, CondOf(id, |clauses|, c), CommandOf(id, |clauses|, c))
    ensures Shape(e) && OneMoreMove(d, e, MoveOfClause(|d0.vertices|, states, c))
    ensures e.vertices == d.vertices + [CondOf(id, |clauses|, c), CommandOf(id, |clauses|, c)]
  {
    var cond, command := CondOf(id, |clauses|, c), CommandOf(id, |clauses|, c);
    TransitionShape(d, s, t, cond, command);
    TransitionIsOneMore(d, s, t, cond, command);
    TransitionEdges(d, s, t, cond, command);
  }

  /** A clause whose states exist adds its transition. */
  lemma {:induction false} BuiltMore(seal: nat, d0: Diagram, d: Diagram, e: Diagram, id: nat, states: seq<string>,
      clauses: seq<Clause>, c: Clause, s: nat, t: nat)
    requires SealedBuilt(seal, d0, d, id, states, clauses) && Resolved(states, c) && Sized(d)
    requires s == |d0.vertices| + StateNumber(states, c.from)
    requires t == |d0.vertices| + StateNumber(states, c.guarded.block.target)
    requires s < |d.vertices| && t < |d.vertices|
    requires e == WithTransition(d, s, t, CondOf(id, |clauses|, c), CommandOf(id, |clauses|, c))
    ensures SealedBuilt(seal, d0, e, id, states, clauses + [c])
  {
    if seal > 0 {
      BuiltMore(seal - 1, d0, d, e, id, states, clauses, c, s, t);
    } else {
      ClauseCanBeAdded(d0, d, id, states, clauses, c);
      ClauseAdds(d0, d, e, id, states, clauses, c, s, t);
      BuiltFrom(d0, d, e, id, states, clauses, c);
    }
  }

  lemma UniqueWithTransition(d: Diagram, b: nat, id: nat, k: nat, cond: Vertex, command: Vertex)
    requires Unique(d.vertices) && b <= |d.vertices| == b + 2 * k && cond.kind == Cond && command.kind == Command
    requires cond.machineId == command.machineId == id && cond.vertexId == command.vertexId == k
    requires forall v: nat :: v < b ==> d.vertices[v].kind == State || d.vertices[v].machineId < id
    requires forall v: nat :: b <= v < |d.vertices| ==> d.vertices[v].vertexId == (v - b) / 2
    ensures Unique(d.vertices + [cond, command])
  {
  }

  /** The calls of the builder come in another order than those of `WithTransition`. */
  lemma SameTransition(d: Diagram, s: nat, t: nat, c: Vertex, k: Vertex)
    requires Sized(d) && s < |d.vertices| && t < |d.vertices|
    ensures var n := |d.vertices|;
      WithEdge(WithEdge(WithVertex(WithEdge(WithVertex(d, c), s, n), k), n, n + 1), n + 1, t) ==
        WithTransition(d, s, t, c, k)
  {
    var n := |d.vertices|;
    var e, f := WithEdge(WithVertex(d, c), s, n), WithEdge(WithVertex(WithVertex(d, c), k), s, n);
    assert WithVertex(e, k).outs == f.outs;
    assert WithVertex(e, k).ins == f.ins;
  }

  /** `find_vertex` on the number of a state finds the vertex of the state. */
  lemma StateIsFirst(d0: Diagram, d: Diagram, id: nat, states: seq<string>, clauses: seq<Clause>, i: nat)
    requires Built(d0, d, id, states, clauses) && i < |states|
    ensures IsFirst(d.vertices, id, i, |d0.vertices| + i)
  {
  }

  lemma {:induction false} StatesAreFirst(seal: nat, d0: Diagram, d: Diagram, id: nat, states: seq<string>,
      clauses: seq<Clause>, i: nat, j: nat)
    requires SealedBuilt(seal, d0, d, id, states, clauses) && i < |states| && j < |states|
    ensures Sized(d) && IsFirst(d.vertices, id, i, |d0.vertices| + i) && IsFirst(d.vertices, id, j, |d0.vertices| + j)
  {
    if seal > 0 {
      StatesAreFirst(seal - 1, d0, d, id, states, clauses, i, j);
    } else {
      StateIsFirst(d0, d, id, states, clauses, i);
      StateIsFirst(d0, d, id, states, clauses, j);
    }
  }

  lemma OneMoreClause(clauses: seq<Clause>, all: seq<Clause>, i: nat)
    requires i < |all|
    ensures clauses + all[..i] + [all[i]] == clauses + all[..i + 1]
  {
  }

  lemma IfsAppended(from: string, cs: seq<IfClause>, i: nat)
    requires i < |cs|
    ensures ClausesOfIfs(from, cs[..i + 1]) == ClausesOfIfs(from, cs[..i]) + ClausesOfIf(from, cs[i])
  {
    assert cs[..i + 1][..i] == cs[..i];
  }

  /** These clauses and those of the first `i` of `cs`. */
  ghost function WithIfs(clauses: seq<Clause>, from: string, cs: seq<IfClause>, i: nat): seq<Clause>
    requires i <= |cs|
  {
    clauses + ClausesOfIfs(from, cs[..i])
  }

  lemma NoIfs(clauses: seq<Clause>, from: string, cs: seq<IfClause>)
    ensures WithIfs(clauses, from, cs, 0) == clauses
  {
  }

  lemma AllIfs(clauses: seq<Clause>, from: string, cs: seq<IfClause>)
    ensures WithIfs(clauses, from, cs, |cs|) == clauses + ClausesOfIfs(from, cs)
  {
    assert cs[..|cs|] == cs;
  }

  lemma MoreIfs(clauses: seq<Clause>, from: string, cs: seq<IfClause>, i: nat)
    requires i < |cs|
    ensures WithIfs(clauses, from, cs, i + 1) == WithIfs(clauses, from, cs, i) + ClausesOfIf(from, cs[i])
    ensures ClausesOfIfs(from, cs[..i + 1]) == ClausesOfIfs(from, cs[..i]) + ClausesOfIf(from, cs[i])
  {
    IfsAppended(from, cs, i);
  }

  lemma {:induction false} BuiltResolved(seal: nat, d0: Diagram, d: Diagram, id: nat, states: seq<string>,
        clauses: seq<Clause>)
    requires SealedBuilt(seal, d0, d, id, states, clauses)
    ensures forall x :: x in clauses ==> Resolved(states, x)
  {
    if seal > 0 {
      BuiltResolved(seal - 1, d0, d, id, states, clauses);
    }
  }

  /** All states that are named exist. */
  ghost predicate AllResolved(states: seq<string>, ins: seq<InClause>) {
    && (forall j :: 0 <= j < |ins| ==> ins[j].name in states)
    && (forall x :: x in ClausesOf(ins) ==> Resolved(states, x))
  }

  lemma InsAppended(ins: seq<InClause>, i: nat)
    requires i < |ins|
    ensures ClausesOf(ins[..i + 1]) == ClausesOf(ins[..i]) + ClausesOfIfs(ins[i].name, ins[i].ifClauses)
  {
    assert ins[..i + 1][..i] == ins[..i];
  }

  lemma {:induction false} IfsInAll(from: string, cs: seq<IfClause>, i: nat)
    requires i <= |cs|
    ensures forall x :: x in ClausesOfIfs(from, cs[..i]) ==> x in ClausesOfIfs(from, cs)
    decreases |cs| - i
  {
    if i < |cs| {
      IfsAppended(from, cs, i);
      IfsInAll(from, cs, i + 1);
    } else {
      assert cs[..i] == cs;
    }
  }

  lemma {:induction false} InsInAll(ins: seq<InClause>, i: nat)
    requires i <= |ins|
    ensures forall x :: x in ClausesOf(ins[..i]) ==> x in ClausesOf(ins)
    decreases |ins| - i
  {
    if i < |ins| {
      InsAppended(ins, i);
      InsInAll(ins, i + 1);
    } else {
      assert ins[..i] == ins;
    }
  }

  lemma MoreValues(m: map<nat, string>, id: nat, name: string)
    requires id !in m
    ensures m[id := name].Values == m.Values + {name}
  {
    forall x | x in m.Values ensures x in m[id := name].Values {
      var i :| i in m && m[i] == x;
      assert m[id := name][i] == x;
    }
    assert m[id := name][id] == name;
  }

  // ---------------------------------------------------------------- the blocks of a machine, one by one

  /** In-clause `i`, `if` number `j` in it, and of that the `if` block (0) or an `else if` block (from 1 on). */
  datatype Place = Place(i: nat, j: nat, k: nat)

  predicate IsIf(cs: seq<IfClause>, p: Place) {
    p.j < |cs| && p.k <= |cs[p.j].elseIfBlocks|
  }

  predicate IsPlace(ins: seq<InClause>, p: Place) {
    p.i < |ins| && IsIf(ins[p.i].ifClauses, p)
  }

  predicate Before(p: Place, q: Place) {
    p.i < q.i || (p.i == q.i && (p.j < q.j || (p.j == q.j && p.k < q.k)))
  }

  function BlockOfIf(cs: seq<IfClause>, p: Place): GuardedBlock
    requires IsIf(cs, p)
  {
    if p.k == 0 then cs[p.j].ifBlock else cs[p.j].elseIfBlocks[p.k - 1]
  }

  function BlockAt(ins: seq<InClause>, p: Place): GuardedBlock
    requires IsPlace(ins, p)
  {
    BlockOfIf(ins[p.i].ifClauses, p)
  }

  ghost predicate InOrder(places: seq<Place>) {
    forall m, n :: 0 <= m < n < |places| ==> Before(places[m], places[n])
  }

  /** All blocks of the machine, in order and so each once. */
  ghost predicate Lists(ins: seq<InClause>, places: seq<Place>) {
    InOrder(places) && forall p :: p in places <==> IsPlace(ins, p)
  }

  ghost predicate ListsIfs(i: nat, cs: seq<IfClause>, places: seq<Place>) {
    InOrder(places) && forall p :: p in places <==> p.i == i && IsIf(cs, p)
  }

  /** All states that the blocks name exist. */
  ghost predicate StatesExist(states: seq<string>, ins: seq<InClause>) {
    && (forall i :: 0 <= i < |ins| ==> ins[i].name in states)
    && (forall p :: IsPlace(ins, p) ==> BlockAt(ins, p).block.target in states)
  }

  /** The condition vertex number `n` of the machine has the guard, the writes, the source and the target of a block. */
  ghost predicate HasBlock(base: nat, d: Diagram, states: seq<string>, n: nat, from: string, g: GuardedBlock) {
    && from in states && g.block.target in states
    && MoveOf(d, base + |states| + 2 * n) == Some(Move(base + StateNumber(states, from), g.condition, g.block.commands,
         base + StateNumber(states, g.block.target)))
  }

  /** The machine has one condition and one command for each of its blocks, and no more. */
  ghost predicate HasBlocks(d0: Diagram, d: Diagram, sm: StateMachine) {
    exists places :: Lists(sm.inClauses, places)
      && |d.vertices| == |d0.vertices| + |sm.states| + 2 * |places|
      && forall n: nat :: n < |places| ==>
           var p := places[n];
           IsPlace(sm.inClauses, p) &&
           HasBlock(|d0.vertices|, d, sm.states, n, sm.inClauses[p.i].name, BlockAt(sm.inClauses, p))
  }

  lemma JoinOrdered(a: seq<Place>, b: seq<Place>)
    requires InOrder(a) && InOrder(b) && forall p, q :: p in a && q in b ==> Before(p, q)
    ensures InOrder(a + b)
  {
    forall m, n | 0 <= m < n < |a + b| ensures Before((a + b)[m], (a + b)[n]) {
      assert m < |a| ==> a[m] in a;
      assert n >= |a| ==> b[n - |a|] in b;
    }
  }

  /** The places of one `if`. */
  lemma PlacesOfIf(i: nat, from: string, cs: seq<IfClause>, j: nat) returns (places: seq<Place>)
    requires j < |cs|
    ensures InOrder(places) && forall p :: p in places <==> p.i == i && p.j == j && IsIf(cs, p)
    ensures SaidByIfs(from, cs, places, ClausesOfIf(from, cs[j]))
  {
    places := seq(1 + |cs[j].elseIfBlocks|, k requires 0 <= k => Place(i, j, k));
    forall p: Place | p.i == i && p.j == j && IsIf(cs, p) ensures p in places {
      assert places[p.k] == p;
    }
  }

  lemma MoreOfIfs(i: nat, cs: seq<IfClause>, m: nat, front: seq<Place>, last: seq<Place>)
    requires m < |cs| && ListsIfs(i, cs[..m], front)
    requires InOrder(last) && forall p :: p in last <==> p.i == i && p.j == m && IsIf(cs, p)
    ensures ListsIfs(i, cs[..m + 1], front + last)
  {
    JoinOrdered(front, last);
    forall p ensures p in front + last <==> p.i == i && IsIf(cs[..m + 1], p) {
      assert p in front <==> p.i == i && IsIf(cs[..m], p);
    }
  }

  lemma MoreOfIns(ins: seq<InClause>, m: nat, front: seq<Place>, last: seq<Place>)
    requires m < |ins| && Lists(ins[..m], front) && ListsIfs(m, ins[m].ifClauses, last)
    ensures Lists(ins[..m + 1], front + last)
  {
    JoinOrdered(front, last);
    forall p ensures p in front + last <==> IsPlace(ins[..m + 1], p) {
      assert p in front <==> IsPlace(ins[..m], p);
    }
  }

  /** The blocks at these places of in-clause `i` are what these clauses say. */
  ghost predicate SaidByIfs(from: string, cs: seq<IfClause>, places: seq<Place>, clauses: seq<Clause>) {
    && |places| == |clauses|
    && forall n :: 0 <= n < |places| ==> IsIf(cs, places[n]) && clauses[n] == Clause(from, BlockOfIf(cs, places[n]))
  }

  ghost predicate SaidBy(ins: seq<InClause>, places: seq<Place>, clauses: seq<Clause>) {
    && |places| == |clauses|
    && forall n :: 0 <= n < |places| ==>
         IsPlace(ins, places[n]) && clauses[n] == Clause(ins[places[n].i].name, BlockAt(ins, places[n]))
  }

  lemma SaidJoined(from: string, cs: seq<IfClause>, a: seq<Place>, b: seq<Place>, x: seq<Clause>, y: seq<Clause>)
    requires SaidByIfs(from, cs, a, x) && SaidByIfs(from, cs, b, y)
    ensures SaidByIfs(from, cs, a + b, x + y)
  {
  }

  lemma SaidByBoth(ins: seq<InClause>, i: nat, a: seq<Place>, b: seq<Place>, x: seq<Clause>, y: seq<Clause>)
    requires i < |ins| && SaidBy(ins, a, x) && ListsIfs(i, ins[i].ifClauses, b)
    requires SaidByIfs(ins[i].name, ins[i].ifClauses, b, y)
    ensures SaidBy(ins, a + b, x + y)
  {
    forall n | 0 <= n < |b| ensures b[n].i == i {
      assert b[n] in b;
    }
  }

  lemma {:induction false} PlacesOfIfs(i: nat, from: string, cs: seq<IfClause>, m: nat) returns (places: seq<Place>)
    requires m <= |cs|
    ensures ListsIfs(i, cs[..m], places) && SaidByIfs(from, cs, places, ClausesOfIfs(from, cs[..m]))
  {
    if m == 0 {
      places := [];
    } else {
      var front := PlacesOfIfs(i, from, cs, m - 1);
      var last := PlacesOfIf(i, from, cs, m - 1);
      IfsAppended(from, cs, m - 1);
      MoreOfIfs(i, cs, m - 1, front, last);
      SaidJoined(from, cs, front, last, ClausesOfIfs(from, cs[..m - 1]), ClausesOfIf(from, cs[m - 1]));
      places := front + last;
    }
  }

  lemma {:induction false} PlacesOf(ins: seq<InClause>, m: nat) returns (places: seq<Place>)
    requires m <= |ins|
    ensures Lists(ins[..m], places) && SaidBy(ins, places, ClausesOf(ins[..m]))
  {
    if m == 0 {
      places := [];
    } else {
      var c := ins[m - 1];
      var front := PlacesOf(ins, m - 1);
      var last := PlacesOfIfs(m - 1, c.name, c.ifClauses, |c.ifClauses|);
      assert c.ifClauses[..|c.ifClauses|] == c.ifClauses;
      InsAppended(ins, m - 1);
      MoreOfIns(ins, m - 1, front, last);
      SaidByBoth(ins, m - 1, front, last, ClausesOf(ins[..m - 1]), ClausesOfIfs(c.name, c.ifClauses));
      places := front + last;
    }
  }

  /** The clauses found by going through the machine name the states that its blocks name. */
  lemma ResolvedIff(states: seq<string>, ins: seq<InClause>)
    ensures AllResolved(states, ins) <==> StatesExist(states, ins)
  {
    var places := PlacesOf(ins, |ins|);
    assert ins[..|ins|] == ins;
    if AllResolved(states, ins) {
      forall p | IsPlace(ins, p) ensures BlockAt(ins, p).block.target in states {
        var n :| 0 <= n < |places| && places[n] == p;
        assert ClausesOf(ins)[n] in ClausesOf(ins);
      }
    }
    if StatesExist(states, ins) {
      forall x | x in ClausesOf(ins) ensures Resolved(states, x) {
        var n :| 0 <= n < |places| && ClausesOf(ins)[n] == x;
      }
    }
  }

  lemma BlocksBuilt(d0: Diagram, d: Diagram, id: nat, sm: StateMachine)
    requires Built(d0, d, id, sm.states, ClausesOf(sm.inClauses))
    ensures HasBlocks(d0, d, sm)
  {
    var ins := sm.inClauses;
    var places := PlacesOf(ins, |ins|);
    assert ins[..|ins|] == ins;
    forall n: nat | n < |places| ensures
      HasBlock(|d0.vertices|, d, sm.states, n, ins[places[n].i].name, BlockAt(ins, places[n]))
    {
      BlockBuilt(d0, d, id, sm.states, ClausesOf(ins), n);
    }
  }

  lemma BlockBuilt(d0: Diagram, d: Diagram, id: nat, states: seq<string>, clauses: seq<Clause>, n: nat)
    requires Built(d0, d, id, states, clauses) && n < |clauses|
    ensures HasBlock(|d0.vertices|, d, states, n, clauses[n].from, clauses[n].guarded)
  {
    var v := |d0.vertices| + |states| + 2 * n;
    assert (v - (|d0.vertices| + |states|)) / 2 == n;
    assert Resolved(states, clauses[n]);
  }

  class GraphBuilder {
    const graph: Graph
    var machine: nat
    var machines: map<nat, string>

    constructor ()
      ensures fresh(graph) && machine == 0 && machines == map[] && Ready() && Numbered()
    {
      graph := new Graph();
      machine, machines := 0, map[];
    }

    /** The graph has the shape of a program and all its machines were numbered before. */
    ghost predicate Ready()
      reads this, graph
    {
      Shape(graph.d) && Unique(graph.d.vertices) && forall v: nat ::
        v < |graph.d.vertices| ==> graph.d.vertices[v].machineId < machine
    }

    /** Machines are entered under the numbers they were given. */
    ghost predicate Numbered()
      reads this
    {
      forall i :: i in machines ==> i < machine
    }

    /** The vertices and edges of a guarded block between two states, which are found by their numbers. */
    method Link(id: nat, k: nat, originating: nat, target: nat, cond: Vertex, command: Vertex, ghost s: nat,
          ghost t: nat)
      requires Sized(graph.d) && IsFirst(graph.d.vertices, id, originating, s)
      requires IsFirst(graph.d.vertices, id, target, t)
      modifies graph
      ensures graph.d == WithTransition(old(graph.d), s, t, cond, command)
    {
      ghost var d := graph.d;
      var c := graph.AddVertex(cond.machineId, cond.vertexId, cond.kind, cond.contents);
      assert IsFirst(graph.d.vertices, id, originating, s);
      var fromState := graph.FindVertex(id, originating);
      OneFirst(graph.d.vertices, id, originating, s, fromState.value);
      graph.AddEdge(fromState.value, c);
      var k := graph.AddVertex(command.machineId, command.vertexId, command.kind, command.contents);
      graph.AddEdge(c, k);
      assert IsFirst(graph.d.vertices, id, target, t);
      var toState := graph.FindVertex(id, target);
      OneFirst(graph.d.vertices, id, target, t, toState.value);
      graph.AddEdge(k, toState.value);
      SameTransition(d, s, t, cond, command);
    }

    /** A guarded block: the `if` and `else if` branches of `first_pass`. */
    method AddBlock(ghost d0: Diagram, id: nat, states: seq<string>, ghost clauses: seq<Clause>, k: nat,
          originating: nat, ghost from: string, g: GuardedBlock) returns (ok: bool)
      requires SealedBuilt(SEAL, d0, graph.d, id, states, clauses) && k == |clauses| && from in states
      requires originating == StateNumber(states, from)
      modifies graph
      ensures ok <==> g.block.target in states
      ensures ok ==> SealedBuilt(SEAL, d0, graph.d, id, states, clauses + [Clause(from, g)])
    {
      var target := FindState(states, g.block.target);
      if target.None? {
        return false;
      }
      ghost var d, s, t := graph.d, |d0.vertices| + originating, |d0.vertices| + target.value;
      StatesAreFirst(SEAL, d0, d, id, states, clauses, originating, target.value);
      Link(id, k, originating, target.value, Vertex(id, k, Cond, Guard(g.condition)),
        Vertex(id, k, Command, Commands(g.block)), s, t);
      BuiltMore(SEAL, d0, d, graph.d, id, states, clauses, Clause(from, g), s, t);
      ok := true;
    }

    /** An `if` with its `else if`s. */
    method AddIfClause(ghost d0: Diagram, id: nat, states: seq<string>, ghost clauses: seq<Clause>, k: nat,
          originating: nat, ghost from: string, c: IfClause) returns (ok: bool, k': nat)
      requires SealedBuilt(SEAL, d0, graph.d, id, states, clauses) && k == |clauses| && from in states
      requires originating == StateNumber(states, from)
      modifies graph
      ensures ok ==>
        SealedBuilt(SEAL, d0, graph.d, id, states, clauses + ClausesOfIf(from, c)) &&
        k' == |clauses + ClausesOfIf(from, c)|
      ensures !ok ==> exists x :: x in ClausesOfIf(from, c) && !Resolved(states, x)
    {
      ghost var all := ClausesOfIf(from, c);
      k' := k;
      ok := AddBlock(d0, id, states, clauses, k', originating, from, c.ifBlock);
      if !ok {
        assert all[0] in all;
        return;
      }
      k' := k' + 1;
      var i := 0;
      assert clauses + all[..1] == clauses + [all[0]];
      while i < |c.elseIfBlocks|
        invariant 0 <= i <= |c.elseIfBlocks| && k' == k + 1 + i
        invariant SealedBuilt(SEAL, d0, graph.d, id, states, clauses + all[..i + 1])
      {
        ok := AddBlock(d0, id, states, clauses + all[..i + 1], k', originating, from, c.elseIfBlocks[i]);
        assert all[i + 1] == Clause(from, c.elseIfBlocks[i]);
        if !ok {
          assert all[i + 1] in all;
          return;
        }
        OneMoreClause(clauses, all, i + 1);
        k' := k' + 1;
        i := i + 1;
      }
      assert all[..i + 1] == all;
      ok := true;
    }

    /** An `in` clause. */
    method AddInClause(ghost d0: Diagram, id: nat, states: seq<string>, ghost clauses: seq<Clause>, k: nat,
          c: InClause) returns (ok: bool, k': nat)
      requires SealedBuilt(SEAL, d0, graph.d, id, states, clauses) && k == |clauses|
      modifies graph
      ensures ok ==>
        c.name in states && SealedBuilt(SEAL, d0, graph.d, id, states, clauses + ClausesOfIfs(c.name, c.ifClauses)) &&
        k' == |clauses + ClausesOfIfs(c.name, c.ifClauses)|
      ensures !ok ==> c.name !in states || exists x :: x in ClausesOfIfs(c.name, c.ifClauses) && !Resolved(states, x)
    {
      k' := k;
      var originating := FindState(states, c.name);
      if originating.None? {
        return false, k';
      }
      var i := 0;
      ghost var all := clauses;
      NoIfs(clauses, c.name, c.ifClauses);
      while i < |c.ifClauses|
        invariant 0 <= i <= |c.ifClauses| && all == WithIfs(clauses, c.name, c.ifClauses, i)
        invariant k' == |all| && SealedBuilt(SEAL, d0, graph.d, id, states, all)
      {
        MoreIfs(clauses, c.name, c.ifClauses, i);
        ok, k' := AddIfClause(d0, id, states, all, k', originating.value, c.name, c.ifClauses[i]);
        if !ok {
          IfsInAll(c.name, c.ifClauses, i + 1);
          return;
        }
        all := all + ClausesOfIf(c.name, c.ifClauses[i]);
        i := i + 1;
      }
      AllIfs(clauses, c.name, c.ifClauses);
      ok := true;
    }

    /** The `in` clauses of a machine. */
    method AddInClauses(ghost d0: Diagram, id: nat, states: seq<string>, ins: seq<InClause>) returns (ok: bool)
      requires SealedBuilt(SEAL, d0, graph.d, id, states, [])
      modifies graph
      ensures ok <==> AllResolved(states, ins)
      ensures ok ==> SealedBuilt(SEAL, d0, graph.d, id, states, ClausesOf(ins))
    {
      var i, k := 0, 0;
      while i < |ins|
        invariant 0 <= i <= |ins| && k == |ClausesOf(ins[..i])|
        invariant SealedBuilt(SEAL, d0, graph.d, id, states, ClausesOf(ins[..i]))
        invariant forall j :: 0 <= j < i ==> ins[j].name in states
      {
        InsAppended(ins, i);
        ok, k := AddInClause(d0, id, states, ClausesOf(ins[..i]), k, ins[i]);
        if !ok {
          InsInAll(ins, i + 1);
          return;
        }
        i := i + 1;
      }
      assert ins[..i] == ins;
      BuiltResolved(SEAL, d0, graph.d, id, states, ClausesOf(ins));
      ok := true;
    }

    /** A vertex for each state. */
    method AddStates(id: nat, states: seq<string>)
      requires Shape(graph.d) && Unique(graph.d.vertices)
      requires forall v: nat :: v < |graph.d.vertices| ==> graph.d.vertices[v].machineId < id
      modifies graph
      ensures SealedBuilt(SEAL, old(graph.d), graph.d, id, states, [])
    {
      ghost var d0 := graph.d;
      var i := 0;
      while i < |states|
        invariant 0 <= i <= |states| && graph.d == WithStates(d0, id, i) && Sized(graph.d)
      {
        var v := graph.AddVertex(id, i, State, NO_CONTENTS);
        i := i + 1;
      }
      StatesBuilt(d0, id, states, |states|);
      BuiltMeans(SEAL, d0, graph.d, id, states, []);
      assert states[..|states|] == states;
    }

    /** `operator()` for a state machine. */
    method AddStateMachine(sm: StateMachine) returns (r: Result<nat, BuildError>)
      requires Ready() && Numbered()
      modifies this, graph
      ensures machine == old(machine) + 1 && Numbered()
      ensures r == Failure(DuplicateEntry) <==> sm.name in old(machines).Values
      ensures machines == if r == Failure(DuplicateEntry) then old(machines) else old(machines)[old(machine) := sm.name]
      ensures machines.Values == old(machines).Values + {sm.name}
      ensures r == Failure(MissingInit) <==> sm.name !in old(machines).Values && "init" !in sm.states
      ensures r.Success? <==>
        sm.name !in old(machines).Values && "init" in sm.states && StatesExist(sm.states, sm.inClauses)
      ensures r.Success? ==> r.value == old(machine) && Ready()
      ensures r.Success? ==> Built(old(graph.d), graph.d, r.value, sm.states, ClausesOf(sm.inClauses))
      ensures r.Success? ==> HasBlocks(old(graph.d), graph.d, sm)
    {
      var id := machine;
      machine := machine + 1;
      if sm.name in machines.Values {
        return Failure(DuplicateEntry);
      }
      machines := machines[id := sm.name];
      MoreValues(old(machines), id, sm.name);
      ResolvedIff(sm.states, sm.inClauses);
      ghost var d0 := graph.d;
      AddStates(id, sm.states);
      var init := FindState(sm.states, "init");
      if init.None? {
        return Failure(MissingInit);
      }
      var ok := AddInClauses(d0, id, sm.states, sm.inClauses);
      if !ok {
        return Failure(NonexistentState);
      }
      BuiltMeans(SEAL, d0, graph.d, id, sm.states, ClausesOf(sm.inClauses));
      BlocksBuilt(d0, graph.d, id, sm);
      return Success(id);
    }
  }
}
