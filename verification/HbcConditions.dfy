/**
 Splitting OR conditions: a transition guarded by `a or b` becomes two transitions, guarded by `a` and by `b`.
 What the machine can do does not change.
 */
module HbcConditions {
  import opened Wrappers
  import opened HbcGraph

  /** The condition of the left operand takes the place of the OR. */
  function LeftOf(d: Diagram, c: nat): Diagram
    requires IsOr(d, c)
  {
    WithContents(d, c, Guard(d.vertices[c].contents.condition.a))
  }

  /** The graph after condition `c` was split, with the next two numbers after `m` for the new vertices. */
  function SplitOr(d: Diagram, c: nat, m: nat): Diagram
    requires Shape(d) && IsOr(d, c)
  {
    MoveOfShape(d, c);
    var s, k := d.ins[c][0], d.outs[c][0];
    WithTransition(LeftOf(d, c), s, d.outs[k][0],
      Vertex(d.vertices[s].machineId, m + 1, Cond, Guard(d.vertices[c].contents.condition.b)),
      Vertex(d.vertices[s].machineId, m + 2, Command, d.vertices[k].contents))
  }

  lemma LeftShape(d: Diagram, c: nat)
    requires Shape(d) && IsOr(d, c)
    ensures Shape(LeftOf(d, c))
  {
    var e := LeftOf(d, c);
    forall v: nat ensures (Is(e, v, Cond) ==> CondOk(e, v)) && (Is(e, v, Command) ==> CommandOk(e, v)) {
      assert Is(d, v, Cond) ==> CondOk(d, v);
      assert Is(d, v, Command) ==> CommandOk(d, v);
    }
    forall s: nat, v: nat {:trigger v in e.outs[s]} | Is(e, s, State) && v in e.outs[s] ensures Is(e, v, Cond) {
      assert v in d.outs[s];
    }
  }

  lemma LeftMoves(d: Diagram, c: nat, v: nat)
    requires Shape(d) && IsOr(d, c)
    ensures MoveOf(d, c).Some?
    ensures MoveOf(LeftOf(d, c), v) ==
      if v == c then Some(MoveOf(d, c).value.(guard := d.vertices[c].contents.condition.a)) else MoveOf(d, v)
  {
    MoveOfShape(d, c);
    if Is(d, v, Cond) {
      MoveOfShape(d, v);
    }
  }

  /** The ends of the new transition are those of the old. */
  lemma SplitOrCanAdd(d: Diagram, c: nat, m: nat)
    requires Shape(d) && IsOr(d, c)
    ensures CondOk(d, c) && CommandOk(d, d.outs[c][0])
    ensures var s, k := d.ins[c][0], d.outs[c][0];
      CanAdd(LeftOf(d, c), s, d.outs[k][0],
        Vertex(d.vertices[s].machineId, m + 1, Cond, Guard(d.vertices[c].contents.condition.b)),
        Vertex(d.vertices[s].machineId, m + 2, Command, d.vertices[k].contents))
  {
    LeftShape(d, c);
    MoveOfShape(d, c);
    var s, k := d.ins[c][0], d.outs[c][0];
    assert s in d.ins[c] && k in d.outs[c] && d.outs[k][0] in d.outs[k];
    assert c in d.outs[s];
  }

  /** What a split does to the vertices. */
  function SplitVertices(vs: seq<Vertex>, c: nat, m: nat, machineId: nat, block: Contents): seq<Vertex>
    requires OrAt(vs, c)
  {
    vs[c := vs[c].(contents := Guard(vs[c].contents.condition.a))]
      + [Vertex(machineId, m + 1, Cond, Guard(vs[c].contents.condition.b)), Vertex(machineId, m + 2, Command, block)]
  }

  predicate OrAt(vs: seq<Vertex>, v: nat) {
    v < |vs| && vs[v].kind == Cond && vs[v].contents.Guard? && IsOrCondition(vs[v].contents.condition)
  }

  lemma SplitOrShape(d: Diagram, c: nat, m: nat)
    requires Shape(d) && IsOr(d, c)
    ensures Shape(SplitOr(d, c, m)) && |SplitOr(d, c, m).vertices| == |d.vertices| + 2
    ensures CondOk(d, c) && CommandOk(d, d.outs[c][0])
    ensures SplitOr(d, c, m).vertices ==
      SplitVertices(d.vertices, c, m, d.vertices[d.ins[c][0]].machineId, d.vertices[d.outs[c][0]].contents)
  {
    SplitOrCanAdd(d, c, m);
    var s, k := d.ins[c][0], d.outs[c][0];
    TransitionShape(LeftOf(d, c), s, d.outs[k][0],
      Vertex(d.vertices[s].machineId, m + 1, Cond, Guard(d.vertices[c].contents.condition.b)),
      Vertex(d.vertices[s].machineId, m + 2, Command, d.vertices[k].contents));
  }

  /** The transitions after the split: the old ones, with the left operand as guard, and one with the right. */
  lemma SplitOrMoves(d: Diagram, c: nat, m: nat, v: nat)
    requires Shape(d) && IsOr(d, c)
    ensures MoveOf(d, c).Some?
    ensures var cond, move := d.vertices[c].contents.condition, MoveOf(d, c).value;
      MoveOf(SplitOr(d, c, m), v) ==
        if v == c then Some(move.(guard := cond.a))
        else if v == |d.vertices| then Some(move.(guard := cond.b))
        else if v < |d.vertices| then MoveOf(d, v) else None
  {
    SplitOrCanAdd(d, c, m);
    MoveOfShape(d, c);
    LeftMoves(d, c, v);
    var s, k := d.ins[c][0], d.outs[c][0];
    TransitionMoves(LeftOf(d, c), s, d.outs[k][0],
      Vertex(d.vertices[s].machineId, m + 1, Cond, Guard(d.vertices[c].contents.condition.b)),
      Vertex(d.vertices[s].machineId, m + 2, Command, d.vertices[k].contents), v);
  }

  /** A run before the split is a run after it: where the OR held, take an operand that holds. */
  lemma {:induction false} RunAfterSplit(d: Diagram, c: nat, m: nat, n: nat, path: seq<nat>, envs: seq<Env>, s: nat,
        t: nat, trace: seq<Write>) returns (p: seq<nat>)
    requires Shape(d) && IsOr(d, c) && n >= |d.vertices| && Runs(d, n, path, envs, s, t, trace)
    ensures Runs(SplitOr(d, c, m), n, p, envs, s, t, trace)
    decreases |path|
  {
    if path == [] {
      return [];
    }
    var v := path[0];
    var move := MoveOf(d, v).value;
    MoveOfShape(d, v);
    var w := if v == c && !Holds(d.vertices[c].contents.condition.a, envs[0]) then |d.vertices| else v;
    SplitOrMoves(d, c, m, w);
    p := RunAfterSplit(d, c, m, n, path[1..], envs[1..], move.target, t, trace[|move.writes|..]);
    RunsCons(SplitOr(d, c, m), n, w, p, envs, s, t, trace);
    p := [w] + p;
  }

  /** A run after the split is a run before it. */
  lemma {:induction false} RunBeforeSplit(d: Diagram, c: nat, m: nat, n: nat, path: seq<nat>, envs: seq<Env>, s: nat,
        t: nat, trace: seq<Write>) returns (p: seq<nat>)
    requires Shape(d) && IsOr(d, c) && n >= |d.vertices| && Runs(SplitOr(d, c, m), n, path, envs, s, t, trace)
    ensures Runs(d, n, p, envs, s, t, trace)
    decreases |path|
  {
    if path == [] {
      return [];
    }
    var v := path[0];
    SplitOrMoves(d, c, m, v);
    var move := MoveOf(SplitOr(d, c, m), v).value;
    var w := if v == |d.vertices| then c else v;
    MoveOfShape(d, w);
    p := RunBeforeSplit(d, c, m, n, path[1..], envs[1..], move.target, t, trace[|move.writes|..]);
    RunsCons(d, n, w, p, envs, s, t, trace);
    p := [w] + p;
  }

  /** Splitting an OR changes nothing that the machines can do. */
  lemma SplitOrBehaves(d: Diagram, c: nat, m: nat, n: nat, envs: seq<Env>, s: nat, t: nat, trace: seq<Write>)
    requires Shape(d) && IsOr(d, c) && n >= |d.vertices|
    ensures Behaves(SplitOr(d, c, m), n, envs, s, t, trace) <==> Behaves(d, n, envs, s, t, trace)
  {
    if Behaves(d, n, envs, s, t, trace) {
      var path :| Runs(d, n, path, envs, s, t, trace);
      var p := RunAfterSplit(d, c, m, n, path, envs, s, t, trace);
    }
    if Behaves(SplitOr(d, c, m), n, envs, s, t, trace) {
      var path :| Runs(SplitOr(d, c, m), n, path, envs, s, t, trace);
      var p := RunBeforeSplit(d, c, m, n, path, envs, s, t, trace);
    }
  }

  // ---------------------------------------------------------------- the transitions after the whole pass

  /** The number of ORs among the first `n` vertices. */
  ghost function Ors(vs: seq<Vertex>, n: nat): nat {
    if n == 0 then 0 else Ors(vs, n - 1) + if OrAt(vs, n - 1) then 1 else 0
  }

  /** Where the condition for the right operand of the OR at `c` is put. */
  ghost function RightPlace(vs: seq<Vertex>, c: nat): nat {
    |vs| + 2 * Ors(vs, c)
  }

  /** The transition of `c` with the left operand for its guard. */
  ghost function LeftMove(d: Diagram, c: nat): Option<Move> {
    if IsOr(d, c) && MoveOf(d, c).Some? then
      Some(MoveOf(d, c).value.(guard := d.vertices[c].contents.condition.a))
    else MoveOf(d, c)
  }

  /** The transition of `c` with the right operand for its guard. */
  ghost function RightMove(d: Diagram, c: nat): Option<Move> {
    if IsOr(d, c) && MoveOf(d, c).Some? then
      Some(MoveOf(d, c).value.(guard := d.vertices[c].contents.condition.b))
    else None
  }

  /** The condition at `w` is the right operand of one of the first `i` vertices, and has its transition. */
  ghost predicate IsRight(d0: Diagram, d: Diagram, i: nat, w: nat) {
    exists c: nat :: c < i && IsOr(d0, c) && w == RightPlace(d0.vertices, c) && MoveOf(d, w) == RightMove(d0, c)
  }

  /**
   The transitions after the first `i` vertices were looked at. A transition whose guard is an OR has become two, with
   its source, its writes and its target: one guarded by the left operand in its place, and one guarded by the right
   operand at a place of its own. All others are as they were, and there are no more.
   */
  ghost predicate MovesSplit(d0: Diagram, d: Diagram, i: nat) {
    && |d.vertices| == |d0.vertices| + 2 * Ors(d0.vertices, i)
    && (forall v: nat :: v < |d0.vertices| ==> MoveOf(d, v) == if v < i then LeftMove(d0, v) else MoveOf(d0, v))
    && (forall c: nat :: c < i && IsOr(d0, c) ==> IsRight(d0, d, i, RightPlace(d0.vertices, c)))
    && (forall w: nat :: w >= |d0.vertices| && MoveOf(d, w).Some? ==> IsRight(d0, d, i, w))
  }

  /** The right operands of different ORs have different places. */
  lemma {:induction false} RightPlaces(vs: seq<Vertex>, c: nat, c': nat)
    requires c < c' && OrAt(vs, c)
    ensures RightPlace(vs, c) < RightPlace(vs, c')
  {
    if c + 1 < c' {
      RightPlaces(vs, c, c' - 1);
    }
  }

  lemma MovesStill(d0: Diagram, d: Diagram, e: Diagram, i: nat, w: nat)
    requires Shape(d0) && Shape(d) && MovesSplit(d0, d, i) && i < |d0.vertices| && IsOr(d0, i) && IsOr(d, i)
    requires d.vertices[i].contents == d0.vertices[i].contents
    requires forall v: nat :: MoveOf(e, v) ==
               if v == i then LeftMove(d, i)
               else if v == |d.vertices| then RightMove(d, i)
               else if v < |d.vertices| then MoveOf(d, v) else None
    requires IsRight(d0, d, i, w) && w < |d.vertices| && w != i
    ensures IsRight(d0, e, i + 1, w)
  {
    var c: nat :| c < i && IsOr(d0, c) && w == RightPlace(d0.vertices, c) && MoveOf(d, w) == RightMove(d0, c);
    assert MoveOf(e, w) == MoveOf(d, w);
  }

  lemma MovesMore(d0: Diagram, d: Diagram, i: nat, m: nat)
    requires Shape(d0) && Shape(d) && MovesSplit(d0, d, i) && i < |d0.vertices| && IsOr(d0, i) && IsOr(d, i)
    requires d.vertices[i].contents == d0.vertices[i].contents
    ensures MovesSplit(d0, SplitOr(d, i, m), i + 1)
  {
    var e := SplitOr(d, i, m);
    SplitOrShape(d, i, m);
    forall v: nat ensures MoveOf(e, v) ==
      if v == i then LeftMove(d, i)
      else if v == |d.vertices| then RightMove(d, i)
      else if v < |d.vertices| then MoveOf(d, v) else None
    {
      SplitOrMoves(d, i, m, v);
    }
    assert MoveOf(d, i) == MoveOf(d0, i);
    assert IsRight(d0, e, i + 1, |d.vertices|) by {
      assert MoveOf(e, |d.vertices|) == RightMove(d0, i);
    }
    forall c: nat | c < i + 1 && IsOr(d0, c) ensures IsRight(d0, e, i + 1, RightPlace(d0.vertices, c)) {
      if c < i {
        RightPlaces(d0.vertices, c, i);
        MovesStill(d0, d, e, i, RightPlace(d0.vertices, c));
      }
    }
    forall w: nat | w >= |d0.vertices| && MoveOf(e, w).Some? ensures IsRight(d0, e, i + 1, w) {
      if w < |d.vertices| {
        MovesStill(d0, d, e, i, w);
      }
    }
  }

  lemma MovesSame(d0: Diagram, d: Diagram, i: nat)
    requires MovesSplit(d0, d, i) && i < |d0.vertices| && !IsOr(d0, i)
    ensures MovesSplit(d0, d, i + 1)
  {
    forall w: nat | IsRight(d0, d, i, w) ensures IsRight(d0, d, i + 1, w) {
      var c: nat :| c < i && IsOr(d0, c) && w == RightPlace(d0.vertices, c) && MoveOf(d, w) == RightMove(d0, c);
    }
  }

  // ---------------------------------------------------------------- the writes after the whole pass

  /** The writes that the ORs among the first `i` vertices ask for once more. */
  ghost function Again(d: Diagram, i: nat, w: Write): nat {
    if i == 0 then 0 else Again(d, i - 1, w) + AskedAgain(d, i - 1, w)
  }

  /** Each write is made as often as before, and once more for each OR that leads to it. */
  ghost predicate WritesCounted(d0: Diagram, d: Diagram, i: nat) {
    forall w :: Made(d.vertices, w) == Made(d0.vertices, w) + Again(d0, i, w)
  }

  lemma SplitMade(vs: seq<Vertex>, c: nat, m: nat, machineId: nat, block: Contents, w: Write)
    requires OrAt(vs, c) && block.Commands?
    ensures Made(SplitVertices(vs, c, m, machineId, block), w) == Made(vs, w) + multiset(block.block.commands)[w]
  {
    var left := vs[c].(contents := Guard(vs[c].contents.condition.a));
    var newCond := Vertex(machineId, m + 1, Cond, Guard(vs[c].contents.condition.b));
    var newCommand := Vertex(machineId, m + 2, Command, block);
    MadeUpdated(vs, c, left, w);
    MadeAppended(vs[c := left], newCond, w);
    MadeAppended(vs[c := left] + [newCond], newCommand, w);
    assert SplitVertices(vs, c, m, machineId, block) == vs[c := left] + [newCond] + [newCommand];
  }

  lemma CountedMore(d0: Diagram, d: Diagram, i: nat, m: nat)
    requires Shape(d) && MovesSplit(d0, d, i) && WritesCounted(d0, d, i) && i < |d0.vertices| && IsOr(d0, i)
    requires IsOr(d, i)
    ensures WritesCounted(d0, SplitOr(d, i, m), i + 1)
  {
    SplitOrShape(d, i, m);
    MoveOfShape(d, i);
    assert MoveOf(d, i) == MoveOf(d0, i);
    forall w ensures Made(SplitOr(d, i, m).vertices, w) == Made(d0.vertices, w) + Again(d0, i + 1, w) {
      SplitMade(d.vertices, i, m, d.vertices[d.ins[i][0]].machineId, d.vertices[d.outs[i][0]].contents, w);
    }
  }

  /** What commands make and what ORs ask for once more is what is asked for. */
  lemma {:induction false} AskedIsMade(d: Diagram, n: nat, w: Write)
    requires Shape(d) && n <= |d.vertices|
    ensures Asked(d, n, w) == Made(d.vertices[..n], w) + Again(d, n, w)
  {
    if n > 0 {
      AskedIsMade(d, n - 1, w);
      MadeAppended(d.vertices[..n - 1], d.vertices[n - 1], w);
      assert d.vertices[..n] == d.vertices[..n - 1] + [d.vertices[n - 1]];
    }
  }

  /** After the pass each write is made as often as it was asked for. */
  lemma AllCounted(d0: Diagram, d: Diagram, w: Write)
    requires Shape(d0) && WritesCounted(d0, d, |d0.vertices|)
    ensures Made(d.vertices, w) == Asked(d0, |d0.vertices|, w)
  {
    AskedIsMade(d0, |d0.vertices|, w);
    assert d0.vertices[..|d0.vertices|] == d0.vertices;
  }

  // ---------------------------------------------------------------- the whole pass

  /** No state is added, the others keep their numbers, and the new vertices have new numbers. */
  ghost predicate Grown(vs: seq<Vertex>, ws: seq<Vertex>, m: nat) {
    && |ws| >= |vs|
    && (forall v: nat :: v < |vs| ==> ws[v] == vs[v].(contents := ws[v].contents))
    && (forall v: nat :: |vs| <= v < |ws| ==> ws[v].kind != State && ws[v].vertexId > m)
    && (forall v: nat :: v < |ws| ==> ws[v].vertexId <= m + |ws| - |vs|)
  }

  lemma GrownMore(vs: seq<Vertex>, ws: seq<Vertex>, m: nat, c: nat, machineId: nat, block: Contents)
    requires Grown(vs, ws, m) && c < |vs| && OrAt(ws, c) && Unique(ws)
    ensures var us := SplitVertices(ws, c, m + |ws| - |vs|, machineId, block);
      Grown(vs, us, m) && Unique(us)
  {
  }

  /** Vertex `w` tests the right operand of the OR that was at `v`. */
  ghost predicate RightOf(vs: seq<Vertex>, ws: seq<Vertex>, v: nat, w: nat) {
    && OrAt(vs, v) && |vs| <= w < |ws| && ws[w].kind == Cond
    && ws[w].contents == Guard(vs[v].contents.condition.b)
  }

  predicate NewCondition(vs: seq<Vertex>, ws: seq<Vertex>, w: nat) {
    |vs| <= w < |ws| && ws[w].kind == Cond
  }

  /**
   The guards after the first `i` vertices: of an OR its left operand in place and its right operand at a new
   vertex, of others the guard itself.
   */
  ghost predicate GuardsOf(vs: seq<Vertex>, ws: seq<Vertex>, i: nat) {
    && i <= |vs| <= |ws|
    && (forall v: nat :: v < |vs| && vs[v].kind == Cond ==>
         ws[v] == if v < i && OrAt(vs, v) then vs[v].(contents := Guard(vs[v].contents.condition.a)) else vs[v])
    && (forall v: nat {:trigger OrAt(vs, v)} :: v < i && OrAt(vs, v) ==> exists w: nat :: RightOf(vs, ws, v, w))
    && (forall w: nat {:trigger NewCondition(vs, ws, w)} ::
      NewCondition(vs, ws, w) ==> exists v: nat :: v < i && RightOf(vs, ws, v, w))
  }

  lemma GuardsMore(vs: seq<Vertex>, ws: seq<Vertex>, i: nat, m: nat, machineId: nat, block: Contents)
    requires i < |vs| && OrAt(vs, i) && GuardsOf(vs, ws, i)
    ensures OrAt(ws, i) && GuardsOf(vs, SplitVertices(ws, i, m, machineId, block), i + 1)
  {
    var us := SplitVertices(ws, i, m, machineId, block);
    assert RightOf(vs, us, i, |ws|);
    forall v: nat | v < i && OrAt(vs, v) ensures exists w: nat :: RightOf(vs, us, v, w) {
      var w: nat :| RightOf(vs, ws, v, w);
      assert RightOf(vs, us, v, w);
    }
    forall w: nat | NewCondition(vs, us, w) ensures exists v: nat :: v < i + 1 && RightOf(vs, us, v, w) {
      if w < |ws| {
        assert NewCondition(vs, ws, w);
        var v: nat :| v < i && RightOf(vs, ws, v, w);
        assert RightOf(vs, us, v, w);
      }
    }
  }

  lemma GuardsSame(vs: seq<Vertex>, ws: seq<Vertex>, i: nat)
    requires i < |vs| && !OrAt(vs, i) && GuardsOf(vs, ws, i)
    ensures GuardsOf(vs, ws, i + 1)
  {
    forall w: nat | NewCondition(vs, ws, w) ensures exists v: nat :: v < i + 1 && RightOf(vs, ws, v, w) {
      var v: nat :| v < i && RightOf(vs, ws, v, w);
    }
  }

  /** An OR whose operand is an OR. */
  ghost predicate Nested(vs: seq<Vertex>, c: nat) {
    OrAt(vs, c) && (IsOrCondition(vs[c].contents.condition.a) || IsOrCondition(vs[c].contents.condition.b))
  }

  /** A guard is an OR after the pass exactly if an OR had an OR as an operand: new conditions are not revisited. */
  lemma OrsLeft(vs: seq<Vertex>, ws: seq<Vertex>, m: nat)
    requires GuardsOf(vs, ws, |vs|) && Grown(vs, ws, m)
    ensures (exists v: nat :: OrAt(ws, v)) <==> exists c: nat :: Nested(vs, c)
  {
    if v: nat :| OrAt(ws, v) {
      OrWasOperand(vs, ws, v, m);
    }
    if c: nat :| Nested(vs, c) {
      var w: nat :| RightOf(vs, ws, c, w);
      assert OrAt(ws, c) || OrAt(ws, w);
    }
  }

  lemma OrWasOperand(vs: seq<Vertex>, ws: seq<Vertex>, v: nat, m: nat)
    requires GuardsOf(vs, ws, |vs|) && OrAt(ws, v) && Grown(vs, ws, m)
    ensures exists c: nat :: Nested(vs, c)
  {
    if v < |vs| {
      assert ws[v] == vs[v].(contents := ws[v].contents);
      assert OrAt(vs, v);
      assert Nested(vs, v);
    } else {
      assert NewCondition(vs, ws, v);
      var c: nat :| c < |vs| && RightOf(vs, ws, c, v);
      assert Nested(vs, c);
    }
  }

  /** An OR somewhere in a condition. */
  ghost predicate HasOr(c: Condition) {
    c.Compound? && (c.boolOp == Or || HasOr(c.a) || HasOr(c.b))
  }

  /** A guard with an OR in it, or with one in an operand. */
  ghost predicate HasOrAt(vs: seq<Vertex>, v: nat) {
    v < |vs| && vs[v].kind == Cond && vs[v].contents.Guard? && HasOr(vs[v].contents.condition)
  }

  ghost predicate OrBelow(vs: seq<Vertex>, c: nat) {
    && HasOrAt(vs, c)
    && (HasOr(vs[c].contents.condition.a) || HasOr(vs[c].contents.condition.b))
  }

  /** A guard has an OR in it after the pass exactly if one had an OR in an operand, be it of an OR or of an AND. */
  lemma OrsBelowLeft(vs: seq<Vertex>, ws: seq<Vertex>, m: nat)
    requires GuardsOf(vs, ws, |vs|) && Grown(vs, ws, m)
    ensures (exists v: nat :: HasOrAt(ws, v)) <==> exists c: nat :: OrBelow(vs, c)
  {
    if v: nat :| HasOrAt(ws, v) {
      OrWasBelow(vs, ws, v, m);
    }
    if c: nat :| OrBelow(vs, c) {
      if OrAt(vs, c) {
        var w: nat :| RightOf(vs, ws, c, w);
        assert HasOrAt(ws, c) || HasOrAt(ws, w);
      } else {
        assert HasOrAt(ws, c);
      }
    }
  }

  lemma OrWasBelow(vs: seq<Vertex>, ws: seq<Vertex>, v: nat, m: nat)
    requires GuardsOf(vs, ws, |vs|) && HasOrAt(ws, v) && Grown(vs, ws, m)
    ensures exists c: nat :: OrBelow(vs, c)
  {
    if v < |vs| {
      assert ws[v] == vs[v].(contents := ws[v].contents);
      assert OrBelow(vs, v);
    } else {
      assert NewCondition(vs, ws, v);
      var c: nat :| c < |vs| && RightOf(vs, ws, c, v);
      assert OrBelow(vs, c);
    }
  }

  /** The machines of both graphs do the same: same environments, same states, same writes. */
  ghost predicate SameBehaviour(d: Diagram, e: Diagram) {
    forall n: nat, envs, s: nat, t: nat, trace ::
      n >= |e.vertices| ==> (Behaves(e, n, envs, s, t, trace) <==> Behaves(d, n, envs, s, t, trace))
  }

  lemma SameTwice(d: Diagram, e: Diagram, f: Diagram)
    requires SameBehaviour(d, e) && SameBehaviour(e, f) && |e.vertices| <= |f.vertices|
    ensures SameBehaviour(d, f)
  {
  }

  lemma SplitOrSame(d: Diagram, c: nat, m: nat)
    requires Shape(d) && IsOr(d, c)
    ensures SameBehaviour(d, SplitOr(d, c, m))
  {
    SplitOrShape(d, c, m);
    forall n: nat, envs, s: nat, t: nat, trace | n >= |d.vertices|
      ensures Behaves(SplitOr(d, c, m), n, envs, s, t, trace) <==> Behaves(d, n, envs, s, t, trace)
    {
      SplitOrBehaves(d, c, m, n, envs, s, t, trace);
    }
  }

  /** The OR branch of `expandComplexConditions` at condition `c`. */
  method SplitCondition(g: Graph, c: nat, m: nat) returns (ghost machineId: nat, ghost block: Contents)
    requires Shape(g.d) && IsOr(g.d, c)
    modifies g
    ensures Shape(g.d) && SameBehaviour(old(g.d), g.d) && g.d == SplitOr(old(g.d), c, m)
    ensures g.d.vertices == SplitVertices(old(g.d).vertices, c, m, machineId, block)
  {
    MoveOfShape(g.d, c);
    SplitOrShape(g.d, c, m);
    SplitOrSame(g.d, c, m);
    var cond := g.d.vertices[c].contents.condition;
    var command := g.d.outs[c][0];
    var origin := g.d.ins[c][0];
    var target := g.d.outs[command][0];
    machineId, block := g.d.vertices[origin].machineId, g.d.vertices[command].contents;
    g.SetContents(c, Guard(cond.a));
    var newCond := g.AddVertex(g.d.vertices[origin].machineId, m + 1, Cond, Guard(cond.b));
    var newCommand := g.AddVertex(g.d.vertices[origin].machineId, m + 2, Command, g.d.vertices[command].contents);
    g.AddEdge(origin, newCond);
    g.AddEdge(newCond, newCommand);
    g.AddEdge(newCommand, target);
    assert g.d == SplitOr(old(g.d), c, m);
  }

  /** Everything that holds after the first `i` vertices of `d0` were looked at. */
  ghost predicate Visited(seal: nat, d0: Diagram, d: Diagram, m: nat, i: nat) {
    if seal > 0 then Visited(seal - 1, d0, d, m, i)
    else Shape(d0) && Shape(d) && Progress(d0, d, m, i) && MovesSplit(d0, d, i) && WritesCounted(d0, d, i)
  }

  lemma {:induction false} VisitedMeans(seal: nat, d0: Diagram, d: Diagram, m: nat, i: nat)
    ensures Visited(seal, d0, d, m, i) <==> Visited(0, d0, d, m, i)
  {
    if seal > 0 {
      VisitedMeans(seal - 1, d0, d, m, i);
    }
  }

  lemma VisitedShape(d0: Diagram, d: Diagram, m: nat, i: nat)
    requires Visited(SEAL, d0, d, m, i) && i < |d0.vertices|
    ensures Shape(d) && i < |d.vertices|
  {
    VisitedMeans(SEAL, d0, d, m, i);
  }

  lemma {:induction false} VisitedSplit(seal: nat, d0: Diagram, d: Diagram, m: nat, i: nat, maxId: nat,
        machineId: nat, block: Contents)
    requires Visited(seal, d0, d, m, i) && i < |d0.vertices| && Shape(d) && IsOr(d, i)
    requires maxId == m + |d.vertices| - |d0.vertices|
    requires SplitOr(d, i, maxId).vertices == SplitVertices(d.vertices, i, maxId, machineId, block)
    requires Shape(SplitOr(d, i, maxId)) && SameBehaviour(d, SplitOr(d, i, maxId))
    ensures Visited(seal, d0, SplitOr(d, i, maxId), m, i + 1)
  {
    if seal > 0 {
      VisitedSplit(seal - 1, d0, d, m, i, maxId, machineId, block);
    } else {
      SameVertex(d0, d, m, i);
      SplitProgress(d0, d, SplitOr(d, i, maxId), m, i, machineId, block);
      MovesMore(d0, d, i, maxId);
      CountedMore(d0, d, i, maxId);
    }
  }

  lemma {:induction false} VisitedSame(seal: nat, d0: Diagram, d: Diagram, m: nat, i: nat)
    requires Visited(seal, d0, d, m, i) && i < |d0.vertices| && !IsOr(d, i)
    ensures Visited(seal, d0, d, m, i + 1)
  {
    if seal > 0 {
      VisitedSame(seal - 1, d0, d, m, i);
    } else {
      SameVertex(d0, d, m, i);
      SkipProgress(d0, d, m, i);
      MovesSame(d0, d, i);
    }
  }

  /** The pass at one vertex. */
  method VisitCondition(g: Graph, i: nat, maxId: nat, ghost d0: Diagram, ghost m: nat) returns (maxId': nat)
    requires Visited(SEAL, d0, g.d, m, i) && i < |d0.vertices| && maxId == m + |g.d.vertices| - |d0.vertices|
    modifies g
    ensures Visited(SEAL, d0, g.d, m, i + 1) && maxId' == m + |g.d.vertices| - |d0.vertices|
  {
    ghost var d := g.d;
    VisitedShape(d0, d, m, i);
    if IsOr(g.d, i) {
      ghost var machineId, block := SplitCondition(g, i, maxId);
      VisitedSplit(SEAL, d0, d, m, i, maxId, machineId, block);
      maxId' := maxId + 2;
    } else {
      VisitedSame(SEAL, d0, d, m, i);
      maxId' := maxId;
    }
  }

  /**
   `expandComplexConditions`: every OR of the graph is split once. The machines still do the same, and which
   guards and which transitions there are is stated exactly.
   */
  method ExpandComplexConditions(g: Graph) returns (ghost m: nat)
    requires Shape(g.d) && Unique(g.d.vertices)
    modifies g
    ensures Shape(g.d) && Unique(g.d.vertices) && SameBehaviour(old(g.d), g.d)
    ensures Grown(old(g.d).vertices, g.d.vertices, m)
    ensures GuardsOf(old(g.d).vertices, g.d.vertices, |old(g.d).vertices|)
    ensures MovesSplit(old(g.d), g.d, |old(g.d).vertices|) && WritesCounted(old(g.d), g.d, |old(g.d).vertices|)
  {
    var maxId := MaxVertexId(g);
    m := maxId;
    ghost var d0 := g.d;
    VisitedMeans(SEAL, d0, d0, m, 0);
    var i, end := 0, |g.d.vertices|;
    while i < end
      invariant 0 <= i <= end == |d0.vertices| && maxId == m + |g.d.vertices| - |d0.vertices|
      invariant Visited(SEAL, d0, g.d, m, i)
    {
      maxId := VisitCondition(g, i, maxId, d0, m);
      i := i + 1;
    }
    VisitedMeans(SEAL, d0, g.d, m, i);
  }

  /** What holds after the conditions among the first `i` vertices were looked at. */
  ghost predicate Progress(d0: Diagram, d: Diagram, m: nat, i: nat) {
    && Unique(d.vertices) && SameBehaviour(d0, d)
    && Grown(d0.vertices, d.vertices, m) && GuardsOf(d0.vertices, d.vertices, i)
  }

  lemma VerticesMore(vs: seq<Vertex>, ws: seq<Vertex>, us: seq<Vertex>, m: nat, i: nat, machineId: nat, block: Contents)
    requires i < |vs| && OrAt(vs, i) && OrAt(ws, i) && Grown(vs, ws, m) && GuardsOf(vs, ws, i) && Unique(ws)
    requires us == SplitVertices(ws, i, m + |ws| - |vs|, machineId, block)
    ensures Grown(vs, us, m) && Unique(us) && GuardsOf(vs, us, i + 1)
  {
    GrownMore(vs, ws, m, i, machineId, block);
    GuardsMore(vs, ws, i, m + |ws| - |vs|, machineId, block);
  }

  /** A vertex that was not looked at yet is as it was, if it is a condition. */
  lemma SameVertex(d0: Diagram, d: Diagram, m: nat, i: nat)
    requires Progress(d0, d, m, i) && i < |d0.vertices|
    ensures i < |d.vertices| && d.vertices[i].kind == d0.vertices[i].kind
    ensures d0.vertices[i].kind == Cond ==> d.vertices[i] == d0.vertices[i]
    ensures IsOr(d, i) <==> IsOr(d0, i)
  {
    assert d.vertices[i] == d0.vertices[i].(contents := d.vertices[i].contents);
  }

  lemma StillOr(d0: Diagram, d: Diagram, m: nat, i: nat)
    requires Progress(d0, d, m, i) && i < |d0.vertices| && IsOr(d, i)
    ensures OrAt(d0.vertices, i) && OrAt(d.vertices, i)
  {
    assert d.vertices[i] == d0.vertices[i].(contents := d.vertices[i].contents);
  }

  lemma SplitProgress(d0: Diagram, d: Diagram, e: Diagram, m: nat, i: nat, machineId: nat, block: Contents)
    requires Progress(d0, d, m, i) && i < |d0.vertices| && IsOr(d, i) && SameBehaviour(d, e)
    requires e.vertices == SplitVertices(d.vertices, i, m + |d.vertices| - |d0.vertices|, machineId, block)
    ensures Progress(d0, e, m, i + 1)
  {
    StillOr(d0, d, m, i);
    VerticesMore(d0.vertices, d.vertices, e.vertices, m, i, machineId, block);
    SameTwice(d0, d, e);
  }

  lemma SkipProgress(d0: Diagram, d: Diagram, m: nat, i: nat)
    requires Progress(d0, d, m, i) && i < |d0.vertices| && !IsOr(d, i)
    ensures Progress(d0, d, m, i + 1)
  {
    assert d.vertices[i] == d0.vertices[i].(contents := d.vertices[i].contents);
    GuardsSame(d0.vertices, d.vertices, i);
  }

  lemma LoneState(s: Vertex)
    requires s.kind == State
    ensures Shape(WithVertex(EMPTY, s))
  {
    var d := WithVertex(EMPTY, s);
    assert d.vertices == [s] && d.outs == [[]] && d.ins == [[]];
  }

  lemma LoneTransition(s: Vertex, c: Vertex, k: Vertex)
    requires s.kind == State && c.kind == Cond && k.kind == Command && c.contents.Guard? && k.contents.Commands?
    requires s.machineId == c.machineId == k.machineId
    ensures var d := WithTransition(WithVertex(EMPTY, s), 0, 0, c, k);
      Shape(d) && Unique(d.vertices) && d.vertices == [s, c, k]
  {
    var e := WithVertex(EMPTY, s);
    LoneState(s);
    TransitionShape(e, 0, 0, c, k);
    ThreeUnique(s, c, k);
    assert WithTransition(e, 0, 0, c, k).vertices == [s] + [c] + [k] == [s, c, k];
  }

  lemma ThreeUnique(s: Vertex, c: Vertex, k: Vertex)
    requires s.kind == State && c.kind == Cond && k.kind == Command
    ensures Unique([s, c, k])
  {
  }

  /** A machine of one state with a transition guarded by `(a or b) or c`: after the pass a guard is an OR. */
  method NestedOrStays(a: Condition, b: Condition, c: Condition, block: Block) returns (g: Graph)
    ensures exists v: nat :: OrAt(g.d.vertices, v)
  {
    var guard := Guard(Compound(Compound(a, Or, b), Or, c));
    g := new Graph();
    var s := g.AddVertex(0, 0, State, NO_CONTENTS);
    var cond := g.AddVertex(0, 0, Cond, guard);
    var command := g.AddVertex(0, 0, Command, Commands(block));
    g.AddEdge(s, cond);
    g.AddEdge(cond, command);
    g.AddEdge(command, s);
    LoneTransition(Vertex(0, 0, State, NO_CONTENTS), Vertex(0, 0, Cond, guard), Vertex(0, 0, Command, Commands(block)));
    ghost var vs := g.d.vertices;
    assert Nested(vs, 1);
    ghost var m := ExpandComplexConditions(g);
    OrsLeft(vs, g.d.vertices, m);
  }
}
