/**
 The simplification of all device graphs, and what the compiler promises for a device: its graph writes, through
 the same states, exactly what the machine of the program writes to that device.
 */
module HbcSimplification {
  import opened Wrappers
  import opened HbcGraph
  import opened HbcConditions
  import opened HbcWrites
  import opened HbcSlicing
  import opened HbcTransformation

  /** The OR conditions of `d` were split. */
  ghost predicate ConditionsExpanded(d: Diagram, e: Diagram) {
    exists m: nat :: ExpandedFrom(d, e, m)
  }

  ghost predicate ExpandedFrom(d: Diagram, e: Diagram, m: nat) {
    && Shape(e) && Unique(e.vertices) && SameBehaviour(d, e)
    && Grown(d.vertices, e.vertices, m) && GuardsOf(d.vertices, e.vertices, |d.vertices|)
    && MovesSplit(d, e, |d.vertices|) && WritesCounted(d, e, |d.vertices|)
  }

  /** The command blocks of `d` were split. */
  ghost predicate WritesExpanded(d: Diagram, e: Diagram) {
    exists m: nat :: WritesProgress(d, e, m, |d.vertices|)
  }

  ghost predicate Deleted(d: Diagram, name: string, e: Diagram) {
    e == Sliced(d, name) && !HasPlaceholder(d)
  }

  ghost predicate Ready(d: Diagram) {
    Shape(d) && Unique(d.vertices)
  }

  /** Graph `e` is the graph `d` of device `name` after all three passes. */
  ghost predicate Simplified(d: Diagram, name: string, e: Diagram) {
    exists d2 :: ConditionsExpanded(Sliced(d, name), d2) && WritesExpanded(d2, e)
  }

  /** One of the three passes. */
  datatype Pass = Deletion | Splitting | Unfolding

  /** Graph `e` is the graph `d` of device `name` after it. */
  ghost predicate Passed(seal: nat, pass: Pass, d: Diagram, name: string, e: Diagram) {
    if seal > 0 then Passed(seal - 1, pass, d, name, e)
    else match pass
      case Deletion => Deleted(d, name, e)
      case Splitting => ConditionsExpanded(d, e)
      case Unfolding => WritesExpanded(d, e)
  }

  lemma {:induction false} PassedMeans(seal: nat, pass: Pass, d: Diagram, name: string, e: Diagram)
    ensures Passed(seal, pass, d, name, e) <==> Passed(0, pass, d, name, e)
  {
    if seal > 0 {
      PassedMeans(seal - 1, pass, d, name, e);
    }
  }

  ghost predicate SealedReady(seal: nat, d: Diagram) {
    if seal > 0 then SealedReady(seal - 1, d) else Ready(d)
  }

  lemma {:induction false} SealedReadyMeans(seal: nat, d: Diagram)
    ensures SealedReady(seal, d) <==> Ready(d)
  {
    if seal > 0 {
      SealedReadyMeans(seal - 1, d);
    }
  }

  /** All graphs but those in `left` are after the pass. */
  ghost predicate Each(pass: Pass, before: map<string, Diagram>, after: map<string, Diagram>, left: set<string>) {
    && before.Keys == after.Keys && left <= after.Keys
    && (forall name :: name in left ==> after[name] == before[name])
    && (forall name :: name in after && name !in left ==> Passed(SEAL, pass, before[name], name, after[name]))
  }

  lemma EachMore(pass: Pass, before: map<string, Diagram>, after: map<string, Diagram>, left: set<string>,
        name: string, e: Diagram)
    requires Each(pass, before, after, left) && name in left && Passed(SEAL, pass, before[name], name, e)
    ensures Each(pass, before, after[name := e], left - {name})
  {
  }

  ghost predicate AllReady(graphs: map<string, Diagram>) {
    forall name :: name in graphs ==> SealedReady(SEAL, graphs[name])
  }

  ghost predicate AllSimplified(before: map<string, Diagram>, after: map<string, Diagram>) {
    before.Keys == after.Keys && forall name :: name in after ==> Simplified(before[name], name, after[name])
  }

  lemma DeletedReady(before: map<string, Diagram>, after: map<string, Diagram>)
    requires AllReady(before) && Each(Deletion, before, after, {})
    ensures AllReady(after)
  {
    forall name | name in after ensures SealedReady(SEAL, after[name]) {
      PassedMeans(SEAL, Deletion, before[name], name, after[name]);
      SealedReadyMeans(SEAL, before[name]);
      SealedReadyMeans(SEAL, after[name]);
      SlicedShape(before[name], name);
    }
  }

  lemma SplitReady(before: map<string, Diagram>, after: map<string, Diagram>)
    requires Each(Splitting, before, after, {})
    ensures AllReady(after)
  {
    forall name | name in after ensures SealedReady(SEAL, after[name]) {
      PassedMeans(SEAL, Splitting, before[name], name, after[name]);
      SealedReadyMeans(SEAL, after[name]);
    }
  }

  lemma UnfoldedReady(before: map<string, Diagram>, after: map<string, Diagram>)
    requires Each(Unfolding, before, after, {})
    ensures AllReady(after)
  {
    forall name | name in after ensures SealedReady(SEAL, after[name]) {
      PassedMeans(SEAL, Unfolding, before[name], name, after[name]);
      SealedReadyMeans(SEAL, after[name]);
    }
  }

  lemma ThreePasses(m0: map<string, Diagram>, m1: map<string, Diagram>, m2: map<string, Diagram>,
        m3: map<string, Diagram>)
    requires Each(Deletion, m0, m1, {}) && Each(Splitting, m1, m2, {}) && Each(Unfolding, m2, m3, {})
    ensures AllSimplified(m0, m3)
  {
    forall name | name in m3 ensures Simplified(m0[name], name, m3[name]) {
      PassedMeans(SEAL, Deletion, m0[name], name, m1[name]);
      PassedMeans(SEAL, Splitting, m1[name], name, m2[name]);
      PassedMeans(SEAL, Unfolding, m2[name], name, m3[name]);
    }
  }

  method SplitConditions(g: Graph, ghost name: string)
    requires SealedReady(SEAL, g.d)
    modifies g
    ensures Passed(SEAL, Splitting, old(g.d), name, g.d)
  {
    SealedReadyMeans(SEAL, g.d);
    ghost var m := ExpandComplexConditions(g);
    assert ExpandedFrom(old(g.d), g.d, m);
    PassedMeans(SEAL, Splitting, old(g.d), name, g.d);
  }

  method SplitBlocks(g: Graph, ghost name: string)
    requires SealedReady(SEAL, g.d)
    modifies g
    ensures Passed(SEAL, Unfolding, old(g.d), name, g.d)
  {
    SealedReadyMeans(SEAL, g.d);
    ghost var m := ExpandMultipleWrites(g);
    PassedMeans(SEAL, Unfolding, old(g.d), name, g.d);
  }

  method DeleteWrites(g: Graph, name: string) returns (ok: bool)
    requires SealedReady(SEAL, g.d)
    modifies g
    ensures ok <==> !HasPlaceholder(old(g.d))
    ensures ok ==> Passed(SEAL, Deletion, old(g.d), name, g.d)
  {
    SealedReadyMeans(SEAL, g.d);
    ok := DeleteOthersWrites(g, name);
    PassedMeans(SEAL, Deletion, old(g.d), name, g.d);
  }

  class GraphSimplification {
    const stateMachines: map<string, Graph>

    constructor (stateMachines: map<string, Graph>)
      ensures this.stateMachines == stateMachines
    {
      this.stateMachines := stateMachines;
    }

    /** The first pass: the writes to other devices are deleted. */
    method DeleteAll() returns (ok: bool)
      requires SeparateGraphs(stateMachines) && AllReady(Diagrams(stateMachines))
      modifies stateMachines.Values
      ensures !ok ==> exists name :: name in stateMachines && HasPlaceholder(old(stateMachines[name].d))
      ensures ok ==> Each(Deletion, old(Diagrams(stateMachines)), Diagrams(stateMachines), {})
    {
      var left := stateMachines.Keys;
      ghost var before := Diagrams(stateMachines);
      while left != {}
        invariant Each(Deletion, before, Diagrams(stateMachines), left)
        decreases |left|
      {
        var name :| name in left;
        ghost var after := Diagrams(stateMachines);
        assert SealedReady(SEAL, before[name]);
        ok := DeleteWrites(stateMachines[name], name);
        if !ok {
          return;
        }
        EachMore(Deletion, before, after, left, name, stateMachines[name].d);
        assert Diagrams(stateMachines) == after[name := stateMachines[name].d];
        left := left - {name};
      }
      ok := true;
    }

    /** The second pass: the OR conditions are split. */
    method ExpandAllConditions()
      requires SeparateGraphs(stateMachines) && AllReady(Diagrams(stateMachines))
      modifies stateMachines.Values
      ensures Each(Splitting, old(Diagrams(stateMachines)), Diagrams(stateMachines), {})
    {
      var left := stateMachines.Keys;
      ghost var before := Diagrams(stateMachines);
      while left != {}
        invariant Each(Splitting, before, Diagrams(stateMachines), left)
        decreases |left|
      {
        var name :| name in left;
        ghost var after := Diagrams(stateMachines);
        assert SealedReady(SEAL, before[name]);
        SplitConditions(stateMachines[name], name);
        EachMore(Splitting, before, after, left, name, stateMachines[name].d);
        assert Diagrams(stateMachines) == after[name := stateMachines[name].d];
        left := left - {name};
      }
    }

    /** The third pass: the command blocks are split. */
    method ExpandAllWrites()
      requires SeparateGraphs(stateMachines) && AllReady(Diagrams(stateMachines))
      modifies stateMachines.Values
      ensures Each(Unfolding, old(Diagrams(stateMachines)), Diagrams(stateMachines), {})
    {
      var left := stateMachines.Keys;
      ghost var before := Diagrams(stateMachines);
      while left != {}
        invariant Each(Unfolding, before, Diagrams(stateMachines), left)
        decreases |left|
      {
        var name :| name in left;
        ghost var after := Diagrams(stateMachines);
        assert SealedReady(SEAL, before[name]);
        SplitBlocks(stateMachines[name], name);
        EachMore(Unfolding, before, after, left, name, stateMachines[name].d);
        assert Diagrams(stateMachines) == after[name := stateMachines[name].d];
        left := left - {name};
      }
    }

    /** `operator()` */
    method Simplify() returns (ok: bool)
      requires SeparateGraphs(stateMachines) && AllReady(Diagrams(stateMachines))
      modifies stateMachines.Values
      ensures ok <==> forall name :: name in stateMachines ==> !HasPlaceholder(old(stateMachines[name].d))
      ensures ok ==>
        AllReady(Diagrams(stateMachines)) && AllSimplified(old(Diagrams(stateMachines)), Diagrams(stateMachines))
    {
      ghost var m0 := Diagrams(stateMachines);
      ok := DeleteAll();
      if !ok {
        return;
      }
      ghost var m1 := Diagrams(stateMachines);
      DeletedReady(m0, m1);
      ExpandAllConditions();
      ghost var m2 := Diagrams(stateMachines);
      SplitReady(m1, m2);
      ExpandAllWrites();
      ghost var m3 := Diagrams(stateMachines);
      UnfoldedReady(m2, m3);
      ThreePasses(m0, m1, m2, m3);
      forall name | name in stateMachines ensures !HasPlaceholder(old(stateMachines[name].d)) {
        PassedMeans(SEAL, Deletion, m0[name], name, m1[name]);
      }
    }
  }

  // ---------------------------------------------------------------- what is promised for a device

  /**
   The compiled graph `e` of device `name`: between any two states of its machine it passes the same environments
   as the program does, and what it writes is the program's trace projected to the device.
   */
  lemma CompiledBehaves(d: Diagram, m: nat, name: string, c: Diagram, e: Diagram, envs: seq<Env>, s: nat, t: nat,
        trace: seq<Write>) returns (d2: Diagram)
    requires Shape(d) && Copied(d, Machine(d, m), c) && Simplified(c, name, e) && s < |Machine(d, m)|
    requires t < |Machine(d, m)|
    ensures |c.vertices| <= |d2.vertices| <= |e.vertices|
    ensures Behaves(e, |d2.vertices|, envs, s, t, trace) <==>
      exists full :: Behaves(d, |d.vertices|, envs, Machine(d, m)[s], Machine(d, m)[t], full) &&
        OnlyOf(full, name) == trace
  {
    var list := Machine(d, m);
    d2 :| ConditionsExpanded(Sliced(c, name), d2) && WritesExpanded(d2, e);
    var n := |d2.vertices|;
    CopiedShape(d, list, c);
    assert SameBetween(d2, e, n);
    assert Behaves(e, n, envs, s, t, trace) <==> Behaves(d2, n, envs, s, t, trace);
    assert Behaves(d2, n, envs, s, t, trace) <==> Behaves(Sliced(c, name), n, envs, s, t, trace);
    SlicedBehaves(c, name, n, envs, s, t, trace);
    forall full ensures Behaves(c, n, envs, s, t, full) <==> Behaves(d, |d.vertices|, envs, list[s], list[t], full) {
      CopiedBehaves(d, list, c, |d.vertices|, n, envs, s, t, full);
    }
  }
}
