/**
 Giving each device a copy of its state machine. It fails exactly if a command names a placeholder or a device is
 written to by two machines.
 */
module HbcTransformation {
  import opened Wrappers
  import opened HbcGraph

  // ---------------------------------------------------------------- machines and devices

  /** The vertices of machine `m` among the first `n`, in order. */
  function VerticesOf(d: Diagram, m: nat, n: nat): (list: seq<nat>)
    requires n <= |d.vertices|
    ensures forall v: nat :: v in list <==> v < n && d.vertices[v].machineId == m
    ensures NoRepeats(list)
  {
    if n == 0 then []
    else if d.vertices[n - 1].machineId == m then VerticesOf(d, m, n - 1) + [n - 1]
    else VerticesOf(d, m, n - 1)
  }

  /** `generateMachineMap` */
  method GenerateMachineMap(d: Diagram) returns (machines: map<nat, seq<nat>>)
    ensures forall m: nat :: m in machines <==> exists v :: 0 <= v < |d.vertices| && d.vertices[v].machineId == m
    ensures forall m: nat :: m in machines ==> machines[m] == VerticesOf(d, m, |d.vertices|)
  {
    machines := map[];
    var v := 0;
    while v < |d.vertices|
      invariant 0 <= v <= |d.vertices|
      invariant forall m: nat :: m in machines <==> exists u :: 0 <= u < v && d.vertices[u].machineId == m
      invariant forall m: nat :: m in machines ==> machines[m] == VerticesOf(d, m, v)
    {
      var m := d.vertices[v].machineId;
      if m in machines {
        machines := machines[m := machines[m] + [v]];
      } else {
        NoVertices(d, m, v);
        machines := machines[m := [v]];
      }
      v := v + 1;
    }
  }

  lemma {:induction false} NoVertices(d: Diagram, m: nat, n: nat)
    requires n <= |d.vertices| && forall u :: 0 <= u < n ==> d.vertices[u].machineId != m
    ensures VerticesOf(d, m, n) == []
  {
    if n > 0 {
      NoVertices(d, m, n - 1);
    }
  }

  /** Command `v` writes to device `name`. */
  ghost predicate WritesTo(d: Diagram, v: nat, name: string) {
    Is(d, v, Command) && exists w :: w in WritesAt(d, v) && w.device == Known(name)
  }

  ghost predicate NamesPlaceholder(d: Diagram, v: nat) {
    Is(d, v, Command) && exists w :: w in WritesAt(d, v) && w.device.Placeholder?
  }

  ghost predicate Distinct(names: seq<string>) {
    forall i, j :: 0 <= i < j < |names| ==> names[i] != names[j]
  }

  /** The devices that one command adds to those found so far. */
  method AddDevices(commands: seq<Write>, found: seq<string>) returns (devices: Option<seq<string>>)
    ensures devices.None? <==> exists w :: w in commands && w.device.Placeholder?
    ensures devices.Some? ==>
      forall name :: name in devices.value <==> name in found || exists w :: w in commands && w.device == Known(name)
    ensures devices.Some? && Distinct(found) ==> Distinct(devices.value)
  {
    var names := found;
    var i := 0;
    while i < |commands|
      invariant 0 <= i <= |commands|
      invariant forall w :: w in commands[..i] ==> !w.device.Placeholder?
      invariant forall name ::
        name in names <==> name in found || exists w :: w in commands[..i] && w.device == Known(name)
      invariant Distinct(found) ==> Distinct(names)
    {
      assert commands[..i + 1] == commands[..i] + [commands[i]];
      if commands[i].device.Placeholder? {
        return None;
      }
      var name := commands[i].device.name;
      if name !in names {
        names := names + [name];
      }
      i := i + 1;
    }
    assert commands[..i] == commands;
    return Some(names);
  }

  ghost predicate SomeWriter(d: Diagram, list: seq<nat>, name: string) {
    exists v :: v in list && WritesTo(d, v, name)
  }

  lemma WritersAppended(d: Diagram, list: seq<nat>, v: nat)
    ensures forall name :: SomeWriter(d, list + [v], name) <==> SomeWriter(d, list, name) || WritesTo(d, v, name)
  {
    forall name ensures SomeWriter(d, list + [v], name) <==> SomeWriter(d, list, name) || WritesTo(d, v, name) {
      if WritesTo(d, v, name) {
        InAppended(list, v, v);
      }
      if u :| u in list && WritesTo(d, u, name) {
        InAppended(list, v, u);
      }
    }
  }

  /** `findDevices`: the devices written to by these vertices; a placeholder is an error. */
  method FindDevices(d: Diagram, list: seq<nat>) returns (devices: Option<seq<string>>)
    requires Shape(d) && forall v :: v in list ==> v < |d.vertices|
    ensures devices.None? <==> exists v :: v in list && NamesPlaceholder(d, v)
    ensures devices.Some? ==>
      Distinct(devices.value) && forall name :: name in devices.value <==> SomeWriter(d, list, name)
  {
    var names := [];
    var i := 0;
    while i < |list|
      invariant 0 <= i <= |list|
      invariant forall v :: v in list[..i] ==> !NamesPlaceholder(d, v)
      invariant Distinct(names) && forall name :: name in names <==> SomeWriter(d, list[..i], name)
    {
      var v := list[i];
      assert v in list;
      assert list[..i + 1] == list[..i] + [v];
      WritersAppended(d, list[..i], v);
      if d.vertices[v].kind == Command {
        assert CommandOk(d, v);
        var more := AddDevices(d.vertices[v].contents.block.commands, names);
        if more.None? {
          assert NamesPlaceholder(d, v);
          return None;
        }
        names := more.value;
      }
      i := i + 1;
    }
    assert list[..i] == list;
    return Some(names);
  }

  // ---------------------------------------------------------------- copying a machine

  /** A list of vertices that no edge leaves or enters. */
  ghost predicate Closed(d: Diagram, list: seq<nat>) {
    && Shape(d) && NoRepeats(list)
    && (forall k: nat :: k < |list| ==> list[k] < |d.vertices|)
    && (forall u: nat, v: nat {:trigger v in d.outs[u]} ::
      u < |d.vertices| && v in d.outs[u] ==> (u in list <==> v in list))
  }

  lemma MachineClosed(d: Diagram, m: nat)
    requires Shape(d)
    ensures Closed(d, VerticesOf(d, m, |d.vertices|))
  {
    var list := VerticesOf(d, m, |d.vertices|);
    forall k: nat | k < |list| ensures list[k] < |d.vertices| {
      assert list[k] in list;
    }
  }

  /** Where a vertex stands in a list. */
  function Pos(list: seq<nat>, v: nat): (k: nat)
    requires v in list
    ensures k < |list| && list[k] == v
  {
    if list[0] == v then 0 else 1 + Pos(list[1..], v)
  }

  lemma PosOf(list: seq<nat>, k: nat)
    requires NoRepeats(list) && k < |list|
    ensures list[k] in list && Pos(list, list[k]) == k
  {
  }

  /** The positions `ps` in the list stand for the vertices `vs`. */
  ghost predicate Image(list: seq<nat>, vs: seq<nat>, ps: seq<nat>) {
    |ps| == |vs| && forall j :: 0 <= j < |vs| ==> ps[j] < |list| && list[ps[j]] == vs[j]
  }

  /** The edges into `v` that are copied when all edges of the first `cu` vertices and `cj` edges of the next are. */
  ghost predicate Reached(d: Diagram, list: seq<nat>, v: nat, cu: nat, cj: nat) {
    && v < |d.ins| && |d.ins[v]| == 1 && d.ins[v][0] in list && d.ins[v][0] < |d.outs|
    && (Pos(list, d.ins[v][0]) < cu ||
      (Pos(list, d.ins[v][0]) == cu && cj <= |d.outs[d.ins[v][0]]| && v in d.outs[d.ins[v][0]][..cj]))
  }

  /** The copy while edges are added. */
  ghost predicate Linking(d: Diagram, list: seq<nat>, e: Diagram, cu: nat, cj: nat) {
    && Closed(d, list) && Sound(e) && |e.vertices| == |list|
    && (cu < |list| ==> cj <= |d.outs[list[cu]]|)
    && (forall k: nat :: k < |list| ==> e.vertices[k] == d.vertices[list[k]])
    && (forall k: nat :: k < |list| ==>
         Image(list, if k < cu then d.outs[list[k]] else if k == cu then d.outs[list[k]][..cj] else [], e.outs[k]))
    && (forall k: nat :: k < |list| && d.vertices[list[k]].kind != State ==>
         e.ins[k] == if Reached(d, list, list[k], cu, cj) then [Pos(list, d.ins[list[k]][0])] else [])
  }

  lemma InsInList(d: Diagram, list: seq<nat>, v: nat)
    requires Closed(d, list) && v in list && d.vertices[v].kind != State
    ensures |d.ins[v]| == 1 && d.ins[v][0] in list && d.ins[v][0] < |d.vertices| && v in d.outs[d.ins[v][0]]
  {
    assert Is(d, v, Cond) ==> CondOk(d, v);
    assert Is(d, v, Command) ==> CommandOk(d, v);
    assert d.ins[v][0] in d.ins[v];
  }

  lemma NotBefore(s: seq<nat>, j: nat)
    requires NoRepeats(s) && j < |s|
    ensures s[j] !in s[..j]
  {
  }

  /** A condition or command is entered from one vertex only. */
  lemma OneParent(d: Diagram, u: nat, v: nat)
    requires Shape(d) && u < |d.vertices| && v in d.outs[u] && v < |d.vertices| && d.vertices[v].kind != State
    ensures d.ins[v] == [u]
  {
    assert Is(d, v, Cond) ==> CondOk(d, v);
    assert Is(d, v, Command) ==> CommandOk(d, v);
    assert u in d.ins[v];
  }

  /** The edge number `cj` of `u` is the one that reaches its target. */
  lemma ReachedNext(d: Diagram, list: seq<nat>, w: nat, cu: nat, cj: nat, u: nat)
    requires Closed(d, list) && cu < |list| && list[cu] == u && cj < |d.outs[u]| && w in list
    requires d.vertices[w].kind != State
    ensures |d.ins[w]| == 1 && d.ins[w][0] in list
    ensures Reached(d, list, w, cu, cj + 1) <==> Reached(d, list, w, cu, cj) || w == d.outs[u][cj]
    ensures w == d.outs[u][cj] ==> !Reached(d, list, w, cu, cj) && Pos(list, d.ins[w][0]) == cu
  {
    InsInList(d, list, w);
    PosOf(list, cu);
    var v, p := d.outs[u][cj], d.ins[w][0];
    if w == v {
      assert v in d.outs[u];
      OneParent(d, u, v);
      NotBefore(d.outs[u], cj);
    }
    if p == u {
      InAppended(d.outs[u][..cj], v, w);
      assert d.outs[u][..cj + 1] == d.outs[u][..cj] + [v];
    }
  }

  lemma ImageNext(list: seq<nat>, vs: seq<nat>, j: nat, ps: seq<nat>)
    requires j < |vs| && Image(list, vs[..j], ps) && vs[j] in list
    ensures Image(list, vs[..j + 1], ps + [Pos(list, vs[j])])
  {
  }

  lemma LinkOneIn(d: Diagram, list: seq<nat>, e: Diagram, cu: nat, cj: nat, u: nat, v: nat, k: nat)
    requires Linking(d, list, e, cu, cj) && cu < |list| && list[cu] == u && cj < |d.outs[u]|
    requires v == d.outs[u][cj] && v in list
    requires k < |list| && d.vertices[list[k]].kind != State
    ensures WithEdge(e, cu, Pos(list, v)).ins[k] == if Reached(d, list, list[k], cu, cj + 1) then
      [Pos(list, d.ins[list[k]][0])] else []
  {
    assert list[k] in list;
    ReachedNext(d, list, list[k], cu, cj, u);
    PosOf(list, k);
  }

  lemma LinkOneOut(d: Diagram, list: seq<nat>, e: Diagram, cu: nat, cj: nat, u: nat, v: nat, k: nat)
    requires Linking(d, list, e, cu, cj) && cu < |list| && list[cu] == u && cj < |d.outs[u]|
    requires v == d.outs[u][cj] && v in list && k < |list|
    ensures Image(list, if k < cu then d.outs[list[k]] else if k == cu then d.outs[list[k]][..cj + 1]
      else [], WithEdge(e, cu, Pos(list, v)).outs[k])
  {
    if k == cu {
      ImageNext(list, d.outs[u], cj, e.outs[cu]);
    }
  }

  /** One more edge. */
  lemma LinkOne(d: Diagram, list: seq<nat>, e: Diagram, cu: nat, cj: nat, u: nat, v: nat)
    requires Linking(d, list, e, cu, cj) && cu < |list| && list[cu] == u && cj < |d.outs[u]| && v == d.outs[u][cj]
    ensures v in list && Linking(d, list, WithEdge(e, cu, Pos(list, v)), cu, cj + 1)
  {
    assert list[cu] in list && v in d.outs[u];
    var p := Pos(list, v);
    assert d.vertices[v].machineId == d.vertices[u].machineId;
    EdgeKeeps(e, cu, p);
    forall k: nat | k < |list|
      ensures Image(list, if k < cu then d.outs[list[k]] else if k == cu then d.outs[list[k]][..cj + 1]
        else [], WithEdge(e, cu, p).outs[k])
    {
      LinkOneOut(d, list, e, cu, cj, u, v, k);
    }
    forall k: nat | k < |list| && d.vertices[list[k]].kind != State
      ensures WithEdge(e, cu, p).ins[k] == if Reached(d, list, list[k], cu, cj + 1) then
        [Pos(list, d.ins[list[k]][0])] else []
    {
      LinkOneIn(d, list, e, cu, cj, u, v, k);
    }
  }

  /** All edges of one vertex are there. */
  lemma LinkNext(d: Diagram, list: seq<nat>, e: Diagram, cu: nat, u: nat)
    requires cu < |list| && list[cu] == u && u < |d.outs| && Linking(d, list, e, cu, |d.outs[u]|)
    ensures Linking(d, list, e, cu + 1, 0)
  {
    assert d.outs[u][..|d.outs[u]|] == d.outs[u];
    PosOf(list, cu);
    forall k: nat | k < |list| && d.vertices[list[k]].kind != State
      ensures Reached(d, list, list[k], cu, |d.outs[u]|) <==> Reached(d, list, list[k], cu + 1, 0)
    {
      assert list[k] in list;
      InsInList(d, list, list[k]);
    }
  }

  /** The finished copy. */
  ghost predicate Copied(d: Diagram, list: seq<nat>, e: Diagram) {
    && Closed(d, list) && Sound(e) && |e.vertices| == |list|
    && (forall k: nat {:trigger e.vertices[k]} :: k < |list| ==> e.vertices[k] == d.vertices[list[k]])
    && (forall k: nat {:trigger e.outs[k]} :: k < |list| ==> Image(list, d.outs[list[k]], e.outs[k]))
    && (forall k: nat {:trigger e.ins[k]} ::
      k < |list| && d.vertices[list[k]].kind != State ==> Image(list, d.ins[list[k]], e.ins[k]))
  }

  lemma LinkingDone(d: Diagram, list: seq<nat>, e: Diagram)
    requires Linking(d, list, e, |list|, 0)
    ensures Copied(d, list, e)
  {
    forall k: nat | k < |list| && d.vertices[list[k]].kind != State ensures Image(list, d.ins[list[k]], e.ins[k]) {
      InsDone(d, list, e, k);
    }
  }

  lemma InsDone(d: Diagram, list: seq<nat>, e: Diagram, k: nat)
    requires Linking(d, list, e, |list|, 0) && k < |list| && d.vertices[list[k]].kind != State
    ensures Image(list, d.ins[list[k]], e.ins[k])
  {
    assert list[k] in list;
    InsInList(d, list, list[k]);
    assert Reached(d, list, list[k], |list|, 0);
    OneImage(list, d.ins[list[k]], e.ins[k]);
  }

  lemma OneImage(list: seq<nat>, vs: seq<nat>, ps: seq<nat>)
    requires |vs| == 1 && vs[0] in list && ps == [Pos(list, vs[0])]
    ensures Image(list, vs, ps)
  {
  }

  /** The copies of the vertices, before there are edges. */
  method CopyVertices(d: Diagram, list: seq<nat>) returns (out: Graph, mapping: map<nat, nat>)
    requires Closed(d, list)
    ensures fresh(out) && Linking(d, list, out.d, 0, 0)
    ensures forall v: nat :: v in list ==> v in mapping && mapping[v] == Pos(list, v)
  {
    out := new Graph();
    mapping := map[];
    var i := 0;
    while i < |list|
      invariant 0 <= i <= |list| && Sound(out.d) && |out.d.vertices| == i
      invariant forall k: nat ::
        k < i ==> out.d.vertices[k] == d.vertices[list[k]] && out.d.outs[k] == [] && out.d.ins[k] == []
      invariant forall k: nat :: k < i ==> list[k] in mapping && mapping[list[k]] == k
    {
      var inV := d.vertices[list[i]];
      VertexKeeps(out.d, Vertex(inV.machineId, inV.vertexId, inV.kind, inV.contents));
      var v := out.AddVertex(inV.machineId, inV.vertexId, inV.kind, inV.contents);
      mapping := mapping[list[i] := v];
      i := i + 1;
    }
    forall v: nat | v in list ensures v in mapping && mapping[v] == Pos(list, v) {
      assert list[Pos(list, v)] == v;
    }
    NothingReached(d, list, out.d);
  }

  lemma NothingReached(d: Diagram, list: seq<nat>, e: Diagram)
    requires Closed(d, list) && Sound(e) && |e.vertices| == |list|
    requires forall k: nat :: k < |list| ==> e.vertices[k] == d.vertices[list[k]] && e.outs[k] == [] && e.ins[k] == []
    ensures Linking(d, list, e, 0, 0)
  {
  }

  /** `reconstructGraph` */
  method ReconstructGraph(d: Diagram, list: seq<nat>) returns (out: Graph)
    requires Closed(d, list)
    ensures fresh(out) && Copied(d, list, out.d)
  {
    var mapping;
    out, mapping := CopyVertices(d, list);
    var cu := 0;
    while cu < |list|
      invariant 0 <= cu <= |list| && Linking(d, list, out.d, cu, 0)
      invariant forall v: nat :: v in list ==> v in mapping && mapping[v] == Pos(list, v)
    {
      var u := list[cu];
      var cj := 0;
      while cj < |d.outs[u]|
        invariant 0 <= cj <= |d.outs[u]| && Linking(d, list, out.d, cu, cj)
      {
        assert u in list;
        LinkOne(d, list, out.d, cu, cj, u, d.outs[u][cj]);
        PosOf(list, cu);
        out.AddEdge(mapping[u], mapping[d.outs[u][cj]]);
        cj := cj + 1;
      }
      LinkNext(d, list, out.d, cu, u);
      cu := cu + 1;
    }
    LinkingDone(d, list, out.d);
  }

  // ---------------------------------------------------------------- the copy does the same

  lemma CopiedVertex(d: Diagram, list: seq<nat>, e: Diagram, k: nat)
    requires Copied(d, list, e) && k < |list|
    ensures Is(e, k, Cond) ==> CondOk(e, k)
    ensures Is(e, k, Command) ==> CommandOk(e, k)
    ensures NoRepeats(e.outs[k])
  {
    var v := list[k];
    if Is(e, k, Cond) {
      assert Is(d, v, Cond);
      assert CondOk(d, v);
    } else if Is(e, k, Command) {
      assert Is(d, v, Command);
      assert CommandOk(d, v);
    }
    assert NoRepeats(d.outs[v]);
  }

  lemma CopiedState(d: Diagram, list: seq<nat>, e: Diagram, s: nat, v: nat)
    requires Copied(d, list, e) && Is(e, s, State) && v in e.outs[s]
    ensures Is(e, v, Cond)
  {
    var j :| 0 <= j < |e.outs[s]| && e.outs[s][j] == v;
    assert d.outs[list[s]][j] in d.outs[list[s]];
    assert Is(d, list[s], State);
    assert Is(d, list[v], Cond);
  }

  /** The copy has the shape of the program graph, and different numbers stay different. */
  lemma CopiedShape(d: Diagram, list: seq<nat>, e: Diagram)
    requires Copied(d, list, e)
    ensures Shape(e) && (Unique(d.vertices) ==> Unique(e.vertices))
  {
    forall k: nat | k < |list|
      ensures (Is(e, k, Cond) ==> CondOk(e, k)) && (Is(e, k, Command) ==> CommandOk(e, k)) && NoRepeats(e.outs[k])
    {
      CopiedVertex(d, list, e, k);
    }
    forall s: nat, v: nat {:trigger v in e.outs[s]} | Is(e, s, State) && v in e.outs[s] ensures Is(e, v, Cond) {
      CopiedState(d, list, e, s, v);
    }
    if Unique(d.vertices) {
      CopiedUnique(d, list, e);
    }
  }

  lemma CopiedUnique(d: Diagram, list: seq<nat>, e: Diagram)
    requires Copied(d, list, e) && Unique(d.vertices)
    ensures Unique(e.vertices)
  {
    forall u: nat, v: nat | u < v < |e.vertices| && e.vertices[u].kind == e.vertices[v].kind &&
      e.vertices[u].machineId == e.vertices[v].machineId
      ensures e.vertices[u].vertexId != e.vertices[v].vertexId
    {
      assert list[u] != list[v];
    }
  }

  /** The transitions of the copy are those of the machine. */
  lemma CopiedMove(d: Diagram, list: seq<nat>, e: Diagram, k: nat)
    requires Copied(d, list, e) && k < |list|
    ensures MoveOf(e, k).Some? <==> Is(d, list[k], Cond)
    ensures MoveOf(e, k).Some? ==>
      var m, m0 := MoveOf(e, k).value, MoveOf(d, list[k]);
      && m0.Some? && m.source < |list| && m.target < |list|
      && m0.value == Move(list[m.source], m.guard, m.writes, list[m.target])
  {
    var v := list[k];
    if Is(d, v, Cond) {
      MoveOfShape(d, v);
      CopiedVertex(d, list, e, k);
      var c := e.outs[k][0];
      assert list[c] == d.outs[v][0];
      CopiedVertex(d, list, e, c);
    }
  }

  /** The vertices of the program that positions of a copy stand for. */
  function Original(list: seq<nat>, path: seq<nat>): (r: seq<nat>)
    requires forall i :: 0 <= i < |path| ==> path[i] < |list|
    ensures |r| == |path| && forall i :: 0 <= i < |path| ==> r[i] == list[path[i]]
  {
    seq(|path|, i requires 0 <= i < |path| => list[path[i]])
  }

  lemma {:induction false} RunOfCopy(d: Diagram, list: seq<nat>, e: Diagram, n: nat, n': nat, path: seq<nat>,
        envs: seq<Env>, s: nat, t: nat, trace: seq<Write>)
    requires Copied(d, list, e) && n >= |d.vertices| && n' >= |e.vertices| && s < |list| && t < |list|
    requires Runs(e, n', path, envs, s, t, trace)
    ensures forall i :: 0 <= i < |path| ==> path[i] < |list|
    ensures Runs(d, n, Original(list, path), envs, list[s], list[t], trace)
    decreases |path|
  {
    if path != [] {
      var k := path[0];
      CopiedMove(d, list, e, k);
      var move := MoveOf(e, k).value;
      RunOfCopy(d, list, e, n, n', path[1..], Left(n', envs, s), move.target, t, trace[|move.writes|..]);
      RunsCons(d, n, list[k], Original(list, path[1..]), envs, list[s], list[t], trace);
      assert Original(list, path) == [list[k]] + Original(list, path[1..]);
    }
  }

  lemma {:induction false} RunInCopy(d: Diagram, list: seq<nat>, e: Diagram, n: nat, n': nat, path: seq<nat>,
        envs: seq<Env>, s: nat, t: nat, trace: seq<Write>) returns (p: seq<nat>)
    requires Copied(d, list, e) && n >= |d.vertices| && n' >= |e.vertices| && s < |list| && t < |list|
    requires Runs(d, n, path, envs, list[s], list[t], trace)
    ensures Runs(e, n', p, envs, s, t, trace)
    decreases |path|
  {
    if path == [] {
      return [];
    }
    var c := path[0];
    var move := MoveOf(d, c).value;
    MoveOfShape(d, c);
    assert list[s] in list && list[s] in d.ins[c];
    assert c in d.outs[list[s]];
    var k := Pos(list, c);
    CopiedMove(d, list, e, k);
    var m := MoveOf(e, k).value;
    p := RunInCopy(d, list, e, n, n', path[1..], Left(n, envs, list[s]), m.target, t, trace[|move.writes|..]);
    RunsCons(e, n', k, p, envs, s, t, trace);
    p := [k] + p;
  }

  /** A copy does what its machine does in the program. */
  lemma CopiedBehaves(d: Diagram, list: seq<nat>, e: Diagram, n: nat, n': nat, envs: seq<Env>, s: nat, t: nat,
        trace: seq<Write>)
    requires Copied(d, list, e) && n >= |d.vertices| && n' >= |e.vertices| && s < |list| && t < |list|
    ensures Behaves(e, n', envs, s, t, trace) <==> Behaves(d, n, envs, list[s], list[t], trace)
  {
    if Behaves(e, n', envs, s, t, trace) {
      var path :| Runs(e, n', path, envs, s, t, trace);
      RunOfCopy(d, list, e, n, n', path, envs, s, t, trace);
    }
    if Behaves(d, n, envs, list[s], list[t], trace) {
      var path :| Runs(d, n, path, envs, list[s], list[t], trace);
      var p := RunInCopy(d, list, e, n, n', path, envs, s, t, trace);
    }
  }

  // ---------------------------------------------------------------- the graphs of all devices

  function Machine(d: Diagram, m: nat): seq<nat> {
    VerticesOf(d, m, |d.vertices|)
  }

  /** Machine `m` writes to device `name`. */
  ghost predicate Drives(d: Diagram, m: nat, name: string) {
    SomeWriter(d, Machine(d, m), name)
  }

  ghost predicate Unresolved(d: Diagram, m: nat) {
    exists v :: v in Machine(d, m) && NamesPlaceholder(d, v)
  }

  /** `graphs` holds, for every device that one of the machines `done` writes to, a copy of that machine. */
  ghost predicate GraphsFor(d: Diagram, done: set<nat>, graphs: map<string, Diagram>) {
    && (forall m :: m in done ==> !Unresolved(d, m))
    && (forall m, m', name :: m in done && m' in done && Drives(d, m, name) && Drives(d, m', name) ==> m == m')
    && (forall name :: name in graphs <==> exists m :: m in done && Drives(d, m, name))
    && (forall m, name :: m in done && Drives(d, m, name) ==> name in graphs && Copied(d, Machine(d, m), graphs[name]))
  }

  /** Some machine cannot be given to its devices. */
  ghost predicate Unassignable(d: Diagram) {
    || (exists m :: Unresolved(d, m))
    || (exists m, m', name :: m != m' && Drives(d, m, name) && Drives(d, m', name))
  }

  function Diagrams(graphs: map<string, Graph>): (r: map<string, Diagram>)
    reads graphs.Values
  {
    map name | name in graphs :: graphs[name].d
  }

  lemma MachineKeys(d: Diagram, machines: map<nat, seq<nat>>)
    requires forall m: nat :: m in machines <==> exists v :: 0 <= v < |d.vertices| && d.vertices[v].machineId == m
    ensures machines.Keys == Machines(d)
  {
  }

  function Machines(d: Diagram): set<nat> {
    set v | 0 <= v < |d.vertices| :: d.vertices[v].machineId
  }

  lemma SharedDevice(d: Diagram, m: nat, devices: seq<string>, done: set<nat>, before: map<string, Diagram>)
    requires GraphsFor(d, done, before) && m !in done && forall name :: name in devices <==> Drives(d, m, name)
    requires exists name :: name in devices && name in before
    ensures Unassignable(d)
  {
    var name :| name in devices && name in before;
    var k :| k in done && Drives(d, k, name);
    assert Drives(d, m, name);
  }

  lemma AllAssigned(d: Diagram, graphs: map<string, Diagram>)
    requires GraphsFor(d, Machines(d), graphs)
    ensures !Unassignable(d)
  {

    forall m: nat | m !in Machines(d) ensures !Unresolved(d, m) && forall name :: !Drives(d, m, name) {
      assert forall v: nat :: v in Machine(d, m) ==> false;
    }
  }

  ghost predicate SeparateGraphs(graphs: map<string, Graph>) {
    forall a, b {:trigger graphs[a], graphs[b]} :: a in graphs && b in graphs && a != b ==> graphs[a] != graphs[b]
  }

  /** Graphs for the devices `added` of machine `m` were put to those in `before`. */
  ghost predicate Adding(d: Diagram, m: nat, before: map<string, Diagram>, added: seq<string>,
        after: map<string, Diagram>) {
    && (forall a :: a in after <==> a in before || a in added)
    && (forall a :: a in before ==> a !in added && after[a] == before[a])
    && (forall a :: a in added ==> Copied(d, Machine(d, m), after[a]))
  }

  lemma NotBeforeName(names: seq<string>, i: nat)
    requires Distinct(names) && i < |names|
    ensures names[i] !in names[..i]
  {
  }

  lemma AddedOne(d: Diagram, m: nat, before: map<string, Diagram>, devices: seq<string>, i: nat,
        graphs: map<string, Diagram>, after: map<string, Diagram>)
    requires i < |devices| && Adding(d, m, before, devices[..i], graphs) && devices[i] !in graphs && devices[i] in after
    requires after == graphs[devices[i] := after[devices[i]]] && Copied(d, Machine(d, m), after[devices[i]])
    ensures Adding(d, m, before, devices[..i + 1], after)
  {
    assert devices[..i + 1] == devices[..i] + [devices[i]];
  }

  lemma MoreGraphs(d: Diagram, m: nat, devices: seq<string>, done: set<nat>, before: map<string, Diagram>,
        after: map<string, Diagram>)
    requires m !in done && !Unresolved(d, m) && GraphsFor(d, done, before) && Adding(d, m, before, devices, after)
    requires forall name :: name in devices <==> Drives(d, m, name)
    ensures GraphsFor(d, done + {m}, after)
  {
    forall k, name | k in done + {m} && Drives(d, k, name)
      ensures name in after && Copied(d, Machine(d, k), after[name])
    {
      if k == m {
        assert name in devices;
      } else {
        assert name in before;
      }
    }
    forall k, l, name | k in done + {m} && l in done + {m} && Drives(d, k, name) && Drives(d, l, name) ensures k == l {
      assert k in done ==> name in before;
      assert l in done ==> name in before;
    }
  }

  class GraphTransformation {
    var deviceGraphs: map<string, Graph>

    constructor ()
      ensures deviceGraphs == map[]
    {
      deviceGraphs := map[];
    }

    /** A copy of one machine for one of its devices; if the device already has a graph it is an error. */
    method AddDevice(d: Diagram, m: nat, name: string) returns (ok: bool)
      requires Shape(d) && SeparateGraphs(deviceGraphs)
      modifies this
      ensures ok <==> name !in old(deviceGraphs)
      ensures !ok ==> deviceGraphs == old(deviceGraphs)
      ensures ok ==>
        name in deviceGraphs && deviceGraphs == old(deviceGraphs)[name := deviceGraphs[name]] &&
        fresh(deviceGraphs[name])
      ensures ok ==>
        Diagrams(deviceGraphs) == old(Diagrams(deviceGraphs))[name := deviceGraphs[name].d] &&
        Copied(d, Machine(d, m), deviceGraphs[name].d)
      ensures SeparateGraphs(deviceGraphs)
    {
      MachineClosed(d, m);
      var g := ReconstructGraph(d, Machine(d, m));
      if name in deviceGraphs {
        return false;
      }
      deviceGraphs := deviceGraphs[name := g];
      ok := true;
    }

    /** Copies of one machine for all its devices. */
    method AddMachine(d: Diagram, m: nat, devices: seq<string>) returns (ok: bool)
      requires Shape(d) && Distinct(devices) && SeparateGraphs(deviceGraphs)
      modifies this
      ensures !ok ==> exists name :: name in devices && name in old(deviceGraphs)
      ensures ok ==> Adding(d, m, old(Diagrams(deviceGraphs)), devices, Diagrams(deviceGraphs))
      ensures SeparateGraphs(deviceGraphs)
    {
      var i := 0;
      ghost var before := Diagrams(deviceGraphs);
      while i < |devices|
        invariant 0 <= i <= |devices| && SeparateGraphs(deviceGraphs)
        invariant Adding(d, m, before, devices[..i], Diagrams(deviceGraphs))
      {
        ghost var graphs := Diagrams(deviceGraphs);
        ok := AddDevice(d, m, devices[i]);
        NotBeforeName(devices, i);
        if !ok {
          assert devices[i] in graphs && devices[i] in devices;
          assert devices[i] in before;
          return;
        }
        AddedOne(d, m, before, devices, i, graphs, Diagrams(deviceGraphs));
        i := i + 1;
      }
      assert devices[..i] == devices;
      ok := true;
    }

    /** One machine is given to all its devices. */
    method AssignMachine(d: Diagram, m: nat, list: seq<nat>, ghost done: set<nat>) returns (ok: bool)
      requires Shape(d) && list == Machine(d, m) && m !in done
      requires GraphsFor(d, done, Diagrams(deviceGraphs)) && SeparateGraphs(deviceGraphs)
      modifies this
      ensures !ok ==> Unassignable(d)
      ensures ok ==> GraphsFor(d, done + {m}, Diagrams(deviceGraphs))
      ensures SeparateGraphs(deviceGraphs)
    {
      ghost var before := Diagrams(deviceGraphs);
      var devices := FindDevices(d, list);
      if devices.None? {
        assert Unresolved(d, m);
        return false;
      }
      ok := AddMachine(d, m, devices.value);
      if ok {
        MoreGraphs(d, m, devices.value, done, before, Diagrams(deviceGraphs));
      } else {
        SharedDevice(d, m, devices.value, done, before);
      }
    }

    /** All machines are given to their devices. */
    method AssignAll(d: Diagram, machines: map<nat, seq<nat>>) returns (ok: bool)
      requires Shape(d) && deviceGraphs == map[] && forall m: nat :: m in machines ==> machines[m] == Machine(d, m)
      modifies this
      ensures !ok ==> Unassignable(d)
      ensures ok ==> GraphsFor(d, machines.Keys, Diagrams(deviceGraphs)) && SeparateGraphs(deviceGraphs)
    {
      var left := machines.Keys;
      ghost var done: set<nat> := {};
      while left != {}
        invariant left == machines.Keys - done
        invariant done <= machines.Keys
        invariant GraphsFor(d, done, Diagrams(deviceGraphs)) && SeparateGraphs(deviceGraphs)
        decreases |left|
      {
        var m :| m in left;
        ok := AssignMachine(d, m, machines[m], done);
        if !ok {
          return;
        }
        done := done + {m};
        left := left - {m};
      }
      assert done == machines.Keys;
      ok := true;
    }

    /** `operator()`: the program is left alone and each device gets a copy of the machine that writes to it. */
    method Transform(g: Graph) returns (ok: bool)
      requires Shape(g.d) && deviceGraphs == map[]
      modifies this
      ensures ok <==> !Unassignable(g.d)
      ensures ok ==> GraphsFor(g.d, Machines(g.d), Diagrams(deviceGraphs)) && SeparateGraphs(deviceGraphs)
    {
      var machines := GenerateMachineMap(g.d);
      MachineKeys(g.d, machines);
      ok := AssignAll(g.d, machines);
      if ok {
        AllAssigned(g.d, Diagrams(deviceGraphs));
      }
    }
  }
}
