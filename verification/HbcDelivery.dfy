/**
 Where the writes of the program end up: in the final graph of the device they are for and in no other, as often as
 the program makes them, and once more for each OR that leads to them.
 */
module HbcDelivery {
  import opened Wrappers
  import opened HbcGraph
  import opened HbcConditions
  import opened HbcWrites
  import opened HbcSlicing
  import opened HbcTransformation
  import opened HbcSimplification

  // ---------------------------------------------------------------- in the graph of one device

  lemma {:induction false} OnlyOfCount(ws: seq<Write>, name: string, w: Write)
    ensures multiset(OnlyOf(ws, name))[w] == if w.device == Known(name) then multiset(ws)[w] else 0
  {
    if ws != [] {
      OnlyOfCount(ws[1..], name, w);
      assert ws == [ws[0]] + ws[1..];
    }
  }

  lemma SlicedAskedAt(d: Diagram, name: string, v: nat, w: Write)
    requires Shape(d)
    ensures AskedAt(Sliced(d, name), v, w) == if w.device == Known(name) then AskedAt(d, v, w) else 0
  {
    SlicedMove(d, name, v);
    if Is(d, v, Command) {
      assert CommandOk(d, v);
      OnlyOfCount(WritesAt(d, v), name, w);
    } else if MoveOf(d, v).Some? {
      OnlyOfCount(MoveOf(d, v).value.writes, name, w);
    }
  }

  lemma {:induction false} SumOfAsked(d: Diagram, e: Diagram, kept: bool, n: nat, w: Write)
    requires forall v: nat :: v < n ==> AskedAt(e, v, w) == if kept then AskedAt(d, v, w) else 0
    ensures Asked(e, n, w) == if kept then Asked(d, n, w) else 0
  {
    if n > 0 {
      SumOfAsked(d, e, kept, n - 1, w);
    }
  }

  lemma SlicedAsked(d: Diagram, name: string, n: nat, w: Write)
    requires Shape(d)
    ensures Asked(Sliced(d, name), n, w) == if w.device == Known(name) then Asked(d, n, w) else 0
  {
    forall v: nat ensures AskedAt(Sliced(d, name), v, w) == if w.device == Known(name) then AskedAt(d, v, w) else 0 {
      SlicedAskedAt(d, name, v, w);
    }
    SumOfAsked(d, Sliced(d, name), w.device == Known(name), n, w);
  }

  lemma CopiedAskedAt(d: Diagram, list: seq<nat>, c: Diagram, k: nat, w: Write)
    requires Copied(d, list, c) && k < |list|
    ensures AskedAt(c, k, w) == AskedAt(d, list[k], w)
  {
    CopiedMove(d, list, c, k);
  }

  /** What the vertices in a list ask for. */
  ghost function AskedBy(d: Diagram, list: seq<nat>, w: Write): nat {
    if list == [] then 0 else AskedBy(d, list[..|list| - 1], w) + AskedAt(d, list[|list| - 1], w)
  }

  lemma {:induction false} CopiedAsked(d: Diagram, list: seq<nat>, c: Diagram, k: nat, w: Write)
    requires Copied(d, list, c) && k <= |list|
    ensures Asked(c, k, w) == AskedBy(d, list[..k], w)
  {
    if k > 0 {
      CopiedAsked(d, list, c, k - 1, w);
      CopiedAskedAt(d, list, c, k - 1, w);
      assert list[..k][..k - 1] == list[..k - 1];
    }
  }

  /** If no other machine asks for a write, its machine asks for it as often as the program. */
  lemma {:induction false} OneMachineAsks(d: Diagram, m: nat, n: nat, w: Write)
    requires n <= |d.vertices| && forall v: nat :: v < n && d.vertices[v].machineId != m ==> AskedAt(d, v, w) == 0
    ensures AskedBy(d, VerticesOf(d, m, n), w) == Asked(d, n, w)
  {
    if n > 0 {
      OneMachineAsks(d, m, n - 1, w);
      var list := VerticesOf(d, m, n - 1);
      assert (list + [n - 1])[..|list|] == list;
    }
  }

  // ---------------------------------------------------------------- in the graphs of all devices

  /** Who asks for a write drives the device it is for. */
  lemma AskingDrives(d: Diagram, v: nat, w: Write)
    requires Shape(d) && v < |d.vertices| && AskedAt(d, v, w) > 0
    ensures w.device.Placeholder? ==> Unresolved(d, d.vertices[v].machineId)
    ensures w.device.Known? ==> Drives(d, d.vertices[v].machineId, w.device.name)
  {
    var m := d.vertices[v].machineId;
    var k := v;
    if !Is(d, v, Command) {
      MoveOfShape(d, v);
      k := d.outs[v][0];
      assert k in d.outs[v];
    }
    assert k in Machine(d, m) && Is(d, k, Command) && w in WritesAt(d, k);
    if w.device.Placeholder? {
      assert NamesPlaceholder(d, k);
    } else {
      assert WritesTo(d, k, w.device.name);
    }
  }

  lemma {:induction false} SomeoneAsks(d: Diagram, n: nat, w: Write) returns (v: nat)
    requires n <= |d.vertices| && Asked(d, n, w) > 0
    ensures v < n && AskedAt(d, v, w) > 0
  {
    if AskedAt(d, n - 1, w) > 0 {
      v := n - 1;
    } else {
      v := SomeoneAsks(d, n - 1, w);
    }
  }

  /** Every write of the program is for a device that has a graph. */
  lemma AskedHasGraph(d: Diagram, graphs: map<string, Diagram>, w: Write)
    requires Shape(d) && GraphsFor(d, Machines(d), graphs) && Asked(d, |d.vertices|, w) > 0
    ensures w.device.Known? && w.device.name in graphs
  {
    var v := SomeoneAsks(d, |d.vertices|, w);
    AskingDrives(d, v, w);
    assert d.vertices[v].machineId in Machines(d);
  }

  lemma GraphShape(d: Diagram, graphs: map<string, Diagram>, name: string)
    requires Shape(d) && GraphsFor(d, Machines(d), graphs) && name in graphs
    ensures Shape(graphs[name])
  {
    var m :| m in Machines(d) && Drives(d, m, name);
    CopiedShape(d, Machine(d, m), graphs[name]);
  }

  /** The graph of a device asks for each write to the device as often as the program. */
  lemma GraphAsks(d: Diagram, graphs: map<string, Diagram>, name: string, w: Write)
    requires Shape(d) && GraphsFor(d, Machines(d), graphs) && name in graphs && w.device == Known(name)
    ensures Asked(graphs[name], |graphs[name].vertices|, w) == Asked(d, |d.vertices|, w)
  {
    var m :| m in Machines(d) && Drives(d, m, name);
    var list, c := Machine(d, m), graphs[name];
    CopiedAsked(d, list, c, |list|, w);
    assert list[..|list|] == list;
    forall v: nat | v < |d.vertices| && d.vertices[v].machineId != m ensures AskedAt(d, v, w) == 0 {
      assert d.vertices[v].machineId in Machines(d);
      if AskedAt(d, v, w) > 0 {
        AskingDrives(d, v, w);
      }
    }
    OneMachineAsks(d, m, |d.vertices|, w);
  }

  /** The three passes leave of each write to the device as much as was asked for, and nothing of the others. */
  lemma SimplifiedMakes(c: Diagram, name: string, e: Diagram, w: Write)
    requires Shape(c) && Simplified(c, name, e)
    ensures Made(e.vertices, w) == if w.device == Known(name) then Asked(c, |c.vertices|, w) else 0
  {
    var d2 :| ConditionsExpanded(Sliced(c, name), d2) && WritesExpanded(d2, e);
    SlicedShape(c, name);
    AllCounted(Sliced(c, name), d2, w);
    SlicedAsked(c, name, |c.vertices|, w);
  }

  /**
   The final graph `e` of a device makes the writes of the program to this device, each as often as the program and
   once more for each OR that leads to it, and no others.
   */
  lemma WritesDelivered(d: Diagram, graphs: map<string, Diagram>, name: string, e: Diagram, w: Write)
    requires Shape(d) && GraphsFor(d, Machines(d), graphs) && name in graphs && Simplified(graphs[name], name, e)
    ensures Made(e.vertices, w) == if w.device == Known(name) then Asked(d, |d.vertices|, w) else 0
  {
    GraphShape(d, graphs, name);
    SimplifiedMakes(graphs[name], name, e, w);
    if w.device == Known(name) {
      GraphAsks(d, graphs, name, w);
    }
  }

  /**
   Every write that the program asks for has exactly one final graph that makes it, and it is made there as often as
   it is asked for; each command of a final graph makes at most one write.
   */
  lemma EveryWriteOnce(d: Diagram, graphs: map<string, Diagram>, finals: map<string, Diagram>, w: Write)
    requires Shape(d) && GraphsFor(d, Machines(d), graphs) && AllSimplified(graphs, finals)
    ensures Asked(d, |d.vertices|, w) > 0 ==>
      w.device.Known? && w.device.name in finals && Made(finals[w.device.name].vertices, w) == Asked(d, |d.vertices|, w)
    ensures forall name :: name in finals && w.device != Known(name) ==> Made(finals[name].vertices, w) == 0
    ensures forall name, k: nat :: name in finals && Is(finals[name], k, Command) ==> |WritesAt(finals[name], k)| <= 1
  {
    if Asked(d, |d.vertices|, w) > 0 {
      AskedHasGraph(d, graphs, w);
      WritesDelivered(d, graphs, w.device.name, finals[w.device.name], w);
    }
    forall name | name in finals && w.device != Known(name) ensures Made(finals[name].vertices, w) == 0 {
      WritesDelivered(d, graphs, name, finals[name], w);
    }
    forall name | name in finals
      ensures forall k: nat :: Is(finals[name], k, Command) ==> |WritesAt(finals[name], k)| <= 1
    {
      OneWriteEach(graphs[name], name, finals[name]);
    }
  }

  lemma OneWriteEach(c: Diagram, name: string, e: Diagram)
    requires Simplified(c, name, e)
    ensures forall k: nat :: Is(e, k, Command) ==> |WritesAt(e, k)| <= 1
  {
    var d2 :| ConditionsExpanded(Sliced(c, name), d2) && WritesExpanded(d2, e);
    var m: nat :| WritesProgress(d2, e, m, |d2.vertices|);
  }
}
