/**
 Slicing the program by devices: each device gets a copy of the machine that writes to it, and from the copy all
 writes to other devices are deleted.
 */
module HbcSlicing {
  import opened Wrappers
  import opened HbcGraph

  // ---------------------------------------------------------------- deleting the writes of other devices

  /** The writes of a trace that go to device `name`, in order. */
  function OnlyOf(ws: seq<Write>, name: string): seq<Write> {
    if ws == [] then [] else (if ws[0].device == Known(name) then [ws[0]] else []) + OnlyOf(ws[1..], name)
  }

  lemma {:induction false} OnlyOfConcat(a: seq<Write>, b: seq<Write>, name: string)
    ensures OnlyOf(a + b, name) == OnlyOf(a, name) + OnlyOf(b, name)
  {
    if a == [] {
      assert a + b == b;
    } else {
      OnlyOfConcat(a[1..], b, name);
      assert (a + b)[1..] == a[1..] + b;
    }
  }

  /** The erasing loop of `deleteOthersWrites`; a placeholder in place of a device is an error. */
  method EraseOthers(commands: seq<Write>, name: string) returns (kept: Option<seq<Write>>)
    ensures kept.None? <==> exists w :: w in commands && w.device.Placeholder?
    ensures kept.Some? ==> kept.value == OnlyOf(commands, name)
  {
    var cmds := commands;
    var i := 0;
    ghost var k := 0;
    while i < |cmds|
      invariant 0 <= i <= |cmds| && 0 <= k <= |commands| && cmds[i..] == commands[k..]
      invariant forall w :: w in commands[..k] ==> !w.device.Placeholder?
      invariant cmds[..i] == OnlyOf(commands[..k], name)
      decreases |cmds| - i
    {
      assert cmds[i] == cmds[i..][0] == commands[k];
      if cmds[i].device.Placeholder? {
        return None;
      }
      assert commands[..k + 1] == commands[..k] + [commands[k]];
      OnlyOfConcat(commands[..k], [commands[k]], name);
      assert cmds[i + 1..] == cmds[i..][1..];
      if cmds[i].device.name != name {
        cmds := cmds[..i] + cmds[i + 1..];
      } else {
        assert cmds[..i + 1] == cmds[..i] + [cmds[i]];
        i := i + 1;
      }
      k := k + 1;
    }
    assert commands[..k] == commands;
    assert cmds[..i] == cmds;
    return Some(cmds);
  }

  function SlicedVertex(v: Vertex, name: string): Vertex {
    if v.kind == Command && v.contents.Commands? then
      v.(contents := Commands(v.contents.block.(commands := OnlyOf(v.contents.block.commands, name))))
    else v
  }

  /** The graph without the writes to other devices. */
  function Sliced(d: Diagram, name: string): Diagram {
    d.(vertices := seq(|d.vertices|, i requires 0 <= i < |d.vertices| => SlicedVertex(d.vertices[i], name)))
  }

  /** Some command names a placeholder instead of a device. */
  ghost predicate HasPlaceholder(d: Diagram) {
    exists v: nat, w :: Is(d, v, Command) && w in WritesAt(d, v) && w.device.Placeholder?
  }

  /** `deleteOthersWrites` */
  method DeleteOthersWrites(g: Graph, name: string) returns (ok: bool)
    requires Shape(g.d)
    modifies g
    ensures ok <==> !HasPlaceholder(old(g.d))
    ensures ok ==> g.d == Sliced(old(g.d), name)
  {
    ghost var d := g.d;
    var i := 0;
    while i < |g.d.vertices|
      invariant 0 <= i <= |g.d.vertices| == |d.vertices| && g.d.outs == d.outs && g.d.ins == d.ins
      invariant forall v :: i <= v < |d.vertices| ==> g.d.vertices[v] == d.vertices[v]
      invariant forall v :: 0 <= v < i ==> g.d.vertices[v] == SlicedVertex(d.vertices[v], name)
      invariant forall v: nat, w :: v < i && Is(d, v, Command) && w in WritesAt(d, v) ==> !w.device.Placeholder?
    {
      if g.d.vertices[i].kind == Command {
        assert CommandOk(d, i);
        var block := g.d.vertices[i].contents.block;
        var kept := EraseOthers(block.commands, name);
        if kept.None? {
          assert exists w :: w in WritesAt(d, i) && w.device.Placeholder?;
          return false;
        }
        g.SetContents(i, Commands(block.(commands := kept.value)));
      }
      i := i + 1;
    }
    assert g.d.vertices == Sliced(d, name).vertices;
    ok := true;
  }

  lemma SlicedShape(d: Diagram, name: string)
    requires Shape(d)
    ensures Shape(Sliced(d, name))
  {
    var e := Sliced(d, name);
    forall v: nat | Is(e, v, Cond) ensures CondOk(e, v) {
      assert Is(d, v, Cond) && CondOk(d, v);
    }
    forall v: nat | Is(e, v, Command) ensures CommandOk(e, v) {
      assert Is(d, v, Command) && CommandOk(d, v);
    }
    forall s: nat, v: nat {:trigger v in e.outs[s]} | Is(e, s, State) && v in e.outs[s] ensures Is(e, v, Cond) {
      assert v in d.outs[s];
    }
  }

  lemma SlicedMove(d: Diagram, name: string, c: nat)
    requires Shape(d)
    ensures MoveOf(d, c).None? ==> MoveOf(Sliced(d, name), c).None?
    ensures MoveOf(d, c).Some? ==>
      MoveOf(Sliced(d, name), c) == Some(MoveOf(d, c).value.(writes := OnlyOf(MoveOf(d, c).value.writes, name)))
  {
    if Is(d, c, Cond) {
      MoveOfShape(d, c);
    }
  }

  /** Along every path the slice writes what the machine writes to the device, in the same order. */
  lemma {:induction false} SlicedRun(d: Diagram, name: string, n: nat, path: seq<nat>, envs: seq<Env>, s: nat, t: nat,
        trace: seq<Write>)
    requires Shape(d) && Runs(d, n, path, envs, s, t, trace)
    ensures Runs(Sliced(d, name), n, path, envs, s, t, OnlyOf(trace, name))
    decreases |path|
  {
    if path != [] {
      var v := path[0];
      var move := MoveOf(d, v).value;
      SlicedMove(d, name, v);
      SlicedRun(d, name, n, path[1..], Left(n, envs, s), move.target, t, trace[|move.writes|..]);
      assert trace == move.writes + trace[|move.writes|..];
      OnlyOfConcat(move.writes, trace[|move.writes|..], name);
      var rest := OnlyOf(trace, name)[|OnlyOf(move.writes, name)|..];
      assert rest == OnlyOf(trace[|move.writes|..], name);
      RunsCons(Sliced(d, name), n, v, path[1..], envs, s, t, OnlyOf(trace, name));
      assert [v] + path[1..] == path;
    }
  }

  /** Every run of the slice is a run of the machine with the other devices' writes left out. */
  lemma {:induction false} SliceOfRun(d: Diagram, name: string, n: nat, path: seq<nat>, envs: seq<Env>, s: nat,
        t: nat, trace: seq<Write>) returns (full: seq<Write>)
    requires Shape(d) && Runs(Sliced(d, name), n, path, envs, s, t, trace)
    ensures Runs(d, n, path, envs, s, t, full) && OnlyOf(full, name) == trace
    decreases |path|
  {
    if path == [] {
      return [];
    }
    var v := path[0];
    SlicedMove(d, name, v);
    var move := MoveOf(d, v).value;
    var mine := OnlyOf(move.writes, name);
    full := SliceOfRun(d, name, n, path[1..], Left(n, envs, s), move.target, t, trace[|mine|..]);
    OnlyOfConcat(move.writes, full, name);
    assert trace == mine + trace[|mine|..];
    var rest := full;
    full := move.writes + rest;
    assert full[|move.writes|..] == rest;
    RunsCons(d, n, v, path[1..], envs, s, t, full);
    assert [v] + path[1..] == path;
  }

  /** Slicing is projection. */
  lemma SlicedBehaves(d: Diagram, name: string, n: nat, envs: seq<Env>, s: nat, t: nat, trace: seq<Write>)
    requires Shape(d)
    ensures Behaves(Sliced(d, name), n, envs, s, t, trace) <==>
      exists full :: Behaves(d, n, envs, s, t, full) && OnlyOf(full, name) == trace
  {
    if Behaves(Sliced(d, name), n, envs, s, t, trace) {
      var path :| Runs(Sliced(d, name), n, path, envs, s, t, trace);
      var full := SliceOfRun(d, name, n, path, envs, s, t, trace);
      assert Behaves(d, n, envs, s, t, full);
    }
    if full :| Behaves(d, n, envs, s, t, full) && OnlyOf(full, name) == trace {
      var path :| Runs(d, n, path, envs, s, t, full);
      SlicedRun(d, name, n, path, envs, s, t, full);
    }
  }
}
