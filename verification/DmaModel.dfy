/** Devices as the completion analysis sees them, and what really happens to their
  completion contexts and buffers while a run executes.
 */
module DmaModel {
  import opened Basics
  import opened ControlFlow
  import opened Programs

  datatype Kind = Empty | Issue | Wait | Rotate

  datatype Action = Action(kind: Kind, names: seq<string>, async: bool, declaration: bool)

  datatype AccessKind = READ | WRITE

  datatype Access = Access(kind: AccessKind, stmt: NodeId, buffer: string, local: bool,
                           allocation: bool, initializesWholeBuffer: bool)

  /** One device function. `names` lists the private contexts, so a context and the
    handle declared for it share an index. */
  datatype Device = Device(
    root: Stmt,
    names: seq<string>,
    actions: map<NodeId, Action>,
    log: map<NodeId, seq<Access>>,
    participantLocal: bool,
    participantLevels: set<ParallelLevel>,
    participantScopes: nat,
    fallback: string)
  {
    /** Buffer effects are collected only by the participant-local report. */
    function Effects(id: NodeId): seq<Access> {
      if participantLocal && id in log then log[id] else []
    }

    function Visible(): set<NodeId> {
      actions.Keys + if participantLocal then log.Keys else {}
    }

    ghost predicate Valid() {
      && (forall i, j :: 0 <= i < j < |names| ==> names[i] != names[j])
      && (forall id :: id in actions && (actions[id].kind == Issue || actions[id].kind == Empty) ==>
          |actions[id].names| == 1)
    }
  }

  datatype ParallelLevel = BLOCK | GROUPx4 | GROUP | THREAD

  /** The known contexts among the names of an action. */
  function Handles(names: seq<string>, wanted: seq<string>): (h: seq<nat>)
    ensures forall k :: 0 <= k < |h| ==> h[k] < |names|
    ensures |h| <= |wanted|
  {
    if wanted == [] then []
    else
      var rest := Handles(names, wanted[1..]);
      match IndexOf(names, wanted[0])
      case None => rest
      case Some(i) => [i] + rest
  }

  // ----- bindings -----

  /** Which context each handle currently denotes. */
  type Binding = seq<nat>

  ghost predicate IsPermutation(b: Binding)
  {
    && (forall i :: 0 <= i < |b| ==> b[i] < |b|)
    && (forall i, j :: 0 <= i < j < |b| ==> b[i] != b[j])
  }

  function Identity(n: nat): (b: Binding)
    ensures |b| == n && (forall i :: 0 <= i < n ==> b[i] == i)
  {
    seq(n, i => i)
  }

  /** Each handle takes over the context of its successor in `h`; `first` goes to the last. */
  function Shift(b: Binding, h: seq<nat>, first: nat): (r: Binding)
    requires h != [] && forall k :: 0 <= k < |h| ==> h[k] < |b|
    ensures |r| == |b|
    decreases |h|
  {
    if |h| == 1 then b[h[0] := first]
    else Shift(b[h[0] := b[h[1]]], h[1..], first)
  }

  function RotateBinding(b: Binding, h: seq<nat>): (r: Binding)
    requires forall k :: 0 <= k < |h| ==> h[k] < |b|
    ensures |r| == |b|
  {
    if |h| > 1 then Shift(b, h, b[h[0]]) else b
  }

  // ----- concrete execution -----

  /** What holds at one moment of a run: which context each handle denotes, the transfer in
    flight on each context and not yet waited for, the contexts that hold a transfer nobody can
    wait for any more because the context was reused, and the buffers that are fully initialised.
    A run that leaves the modelled protocol is frozen as `escaped`. */
  datatype State = State(binding: Binding, live: seq<Option<NodeId>>, lost: set<nat>,
                         initialized: set<string>, escaped: bool)
  {
    predicate Pending(i: nat) {
      (i < |live| && live[i].Some?) || i in lost
    }

    function LiveSet(): (s: set<nat>)
    {
      set i | 0 <= i < |live| && live[i].Some?
    }
  }

  function Start(n: nat): State {
    State(Identity(n), seq(n, _ => None), {}, {}, false)
  }

  /** The buffers a transfer fills completely. */
  function Written(dev: Device, issue: NodeId): (w: set<string>)
  {
    set a | a in dev.Effects(issue) && a.kind == WRITE && a.initializesWholeBuffer :: a.buffer
  }

  /** Executing the buffer accesses of a statement in order. */
  function AfterAccesses(accesses: seq<Access>, initialized: set<string>): set<string>
    decreases |accesses|
  {
    if accesses == [] then initialized
    else
      var last := accesses[|accesses| - 1];
      var before := AfterAccesses(accesses[..|accesses| - 1], initialized);
      if !last.allocation then before
      else if last.initializesWholeBuffer then before + {last.buffer}
      else before - {last.buffer}
  }

  /** Waiting on a context completes the transfer in flight there. */
  function Complete(dev: Device, s: State, owner: nat): (r: State)
    requires owner < |s.live|
    ensures |r.live| == |s.live| && r.binding == s.binding
  {
    if s.live[owner].None? then s
    else s.(live := s.live[owner := None],
            initialized := s.initialized + Written(dev, s.live[owner].value))
  }

  function CompleteAll(dev: Device, s: State, h: seq<nat>): (r: State)
    requires |s.binding| == |s.live| && forall k :: 0 <= k < |h| ==> h[k] < |s.live|
    requires forall k :: 0 <= k < |s.live| ==> s.binding[k] < |s.live|
    ensures |r.live| == |s.live| && r.binding == s.binding
    decreases |h|
  {
    if h == [] then s else CompleteAll(dev, Complete(dev, s, s.binding[h[0]]), h[1..])
  }

  /** Reusing a context while a transfer is in flight on it loses that transfer. */
  function Vacate(s: State, owner: nat): State
    requires owner < |s.live|
  {
    if s.live[owner].None? then s
    else s.(live := s.live[owner := None], lost := s.lost + {owner})
  }

  ghost predicate Fits(s: State, n: nat)
  {
    |s.binding| == n && |s.live| == n && IsPermutation(s.binding)
  }

  /** The context the statement reuses, if it issues a transfer or declares a placeholder. */
  function Reused(dev: Device, id: NodeId, binding: Binding): (r: Option<nat>)
    requires |binding| == |dev.names| && forall k :: 0 <= k < |binding| ==> binding[k] < |binding|
    ensures r.Some? ==> r.value < |binding|
  {
    if id !in dev.actions then None
    else
      var a := dev.actions[id];
      var h := Handles(dev.names, a.names);
      if a.kind == Wait || a.kind == Rotate || h == [] then None else Some(binding[h[0]])
  }

  /** A rotation through a foreign context. */
  predicate RotatesAcross(dev: Device, id: NodeId) {
    id in dev.actions && dev.actions[id].kind == Rotate
    && |Handles(dev.names, dev.actions[id].names)| != |dev.actions[id].names|
  }

  /** A rotation through a foreign context, or a declaration executed again after its context
    was rotated away: the analysis has no model of either. */
  predicate Escapes(dev: Device, id: NodeId, binding: Binding)
    requires |binding| == |dev.names|
  {
    id in dev.actions &&
    var a := dev.actions[id];
    var h := Handles(dev.names, a.names);
    match a.kind
    case Rotate => |h| != |a.names|
    case Wait => false
    case _ => h != [] && a.declaration && binding[h[0]] != h[0]
  }

  /** The state in the middle of a statement: its accesses are done and, if it issues a
    transfer, that transfer is in flight even when the statement will wait for it itself. */
  function During(dev: Device, id: NodeId, s: State): (r: State)
    requires Fits(s, |dev.names|)
    ensures Fits(r, |dev.names|)
  {
    if s.escaped then s
    else if Escapes(dev, id, s.binding) then s.(escaped := true)
    else
      var s := s.(initialized := AfterAccesses(dev.Effects(id), s.initialized));
      match Reused(dev, id, s.binding)
      case None => s
      case Some(owner) =>
        var v := Vacate(s, owner);
        if dev.actions[id].kind == Issue then v.(live := v.live[owner := Some(id)]) else v
  }

  /** Executing one statement of a run. */
  function Step(dev: Device, id: NodeId, s: State): (r: State)
    requires Fits(s, |dev.names|)
    ensures Fits(r, |dev.names|)
  {
    var d := During(dev, id, s);
    if d.escaped || id !in dev.actions then d
    else
      var a := dev.actions[id];
      var h := Handles(dev.names, a.names);
      match a.kind
      case Rotate => RotationKeepsPermutation(d.binding, h); d.(binding := RotateBinding(d.binding, h))
      case Wait => CompleteAll(dev, d, h)
      case Issue => if h != [] && !a.async then Complete(dev, d, d.binding[h[0]]) else d
      case Empty => d
  }

  /** The state a run has reached after executing the statements of its trace. */
  function After(dev: Device, t: seq<NodeId>): (s: State)
    ensures Fits(s, |dev.names|)
  {
    if t == [] then Start(|dev.names|) else Step(dev, t[|t| - 1], After(dev, t[..|t| - 1]))
  }

  // ----- facts about rotation -----

  /** Whatever the list of handles, duplicates included, a rotation permutes the contexts. */
  lemma RotationKeepsPermutation(b: Binding, h: seq<nat>)
    requires IsPermutation(b) && forall k :: 0 <= k < |h| ==> h[k] < |b|
    ensures IsPermutation(RotateBinding(b, h))
  {
    if |h| > 1 {
      assert b[h[0] := b[h[0]]] == b;
      ShiftFillsHole(b, h, b[h[0]]);
    }
  }

  lemma SwapKeepsPermutation(b: Binding, i: nat, j: nat)
    requires IsPermutation(b) && i < |b| && j < |b|
    ensures IsPermutation(b[i := b[j]][j := b[i]])
  {
    var c := b[i := b[j]][j := b[i]];
    forall k, l | 0 <= k < l < |c|
      ensures c[k] != c[l]
    {
      var k', l' := if k == j then i else if k == i then j else k, if l == j then i else if l == i then j else l;
      assert c[k] == b[k'] && c[l] == b[l'] && k' != l';
    }
  }

  /** While contexts move, putting `first` at the vacated handle always gives a permutation. */
  lemma {:induction false} ShiftFillsHole(b: Binding, h: seq<nat>, first: nat)
    requires h != [] && forall k :: 0 <= k < |h| ==> h[k] < |b|
    requires first < |b| && IsPermutation(b[h[0] := first])
    ensures IsPermutation(Shift(b, h, first))
    decreases |h|
  {
    if |h| > 1 {
      var c := b[h[0] := b[h[1]]];
      var was, now := b[h[0] := first], c[h[1] := first];
      SwapKeepsPermutation(was, h[0], h[1]);
      assert now == was[h[0] := was[h[1]]][h[1] := was[h[0]]];
      ShiftFillsHole(c, h[1..], first);
    }
  }

  /** Handle `h[k]` of `r` has taken over the context of its successor in `b`. */
  ghost predicate Moved(b: Binding, h: seq<nat>, r: Binding, k: nat)
    requires k + 1 < |h| && h[k] < |r| && h[k + 1] < |b|
  {
    r[h[k]] == b[h[k + 1]]
  }

  /** A rotation of distinct handles is a cyclic shift and touches no other handle. */
  lemma {:induction false} RotationIsCyclicShift(b: Binding, h: seq<nat>)
    requires |h| > 1 && forall k :: 0 <= k < |h| ==> h[k] < |b|
    requires forall i, j :: 0 <= i < j < |h| ==> h[i] != h[j]
    ensures forall k :: 0 <= k < |h| - 1 ==> Moved(b, h, RotateBinding(b, h), k)
    ensures RotateBinding(b, h)[h[|h| - 1]] == b[h[0]]
    ensures forall i :: 0 <= i < |b| && i !in h ==> RotateBinding(b, h)[i] == b[i]
  {
    forall i: nat | i < |b| && i !in h ensures RotateBinding(b, h)[i] == b[i]
    {
      ShiftLeaves(b, h, b[h[0]], i);
    }
    forall k: nat | k < |h| - 1 ensures Moved(b, h, RotateBinding(b, h), k)
    {
      ShiftMoves(b, h, b[h[0]], k);
    }
    ShiftEnds(b, h, b[h[0]]);
  }

  lemma {:induction false} ShiftLeaves(b: Binding, h: seq<nat>, first: nat, i: nat)
    requires h != [] && forall k :: 0 <= k < |h| ==> h[k] < |b|
    requires i < |b| && i !in h
    ensures Shift(b, h, first)[i] == b[i]
    decreases |h|
  {
    if |h| > 1 { ShiftLeaves(b[h[0] := b[h[1]]], h[1..], first, i); }
  }

  lemma {:induction false} ShiftEnds(b: Binding, h: seq<nat>, first: nat)
    requires h != [] && forall k :: 0 <= k < |h| ==> h[k] < |b|
    ensures Shift(b, h, first)[h[|h| - 1]] == first
    decreases |h|
  {
    if |h| > 1 { ShiftEnds(b[h[0] := b[h[1]]], h[1..], first); }
  }

  lemma {:induction false} ShiftMoves(b: Binding, h: seq<nat>, first: nat, k: nat)
    requires k + 1 < |h| && forall l :: 0 <= l < |h| ==> h[l] < |b|
    requires forall i, j :: 0 <= i < j < |h| ==> h[i] != h[j]
    ensures Moved(b, h, Shift(b, h, first), k)
    decreases |h|
  {
    var c, rest := b[h[0] := b[h[1]]], h[1..];
    if k == 0 {
      ShiftLeaves(c, rest, first, h[0]);
    } else {
      ShiftMoves(c, rest, first, k - 1);
    }
  }

  // ----- what handles and accesses mean -----

  /** The wanted names that are known, in order. */
  function Known(names: seq<string>, wanted: seq<string>): seq<string> {
    if wanted == [] then []
    else (if wanted[0] in names then [wanted[0]] else []) + Known(names, wanted[1..])
  }

  /** The handles of an action spell the known names among its names. */
  lemma {:induction false} HandlesSpell(names: seq<string>, wanted: seq<string>)
    ensures var h := Handles(names, wanted);
            |h| == |Known(names, wanted)| && forall k :: 0 <= k < |h| ==> names[h[k]] == Known(names, wanted)[k]
  {
    if wanted != [] { HandlesSpell(names, wanted[1..]); }
  }

  lemma {:induction false} KnownAll(names: seq<string>, wanted: seq<string>)
    ensures |Known(names, wanted)| <= |wanted|
    ensures |Known(names, wanted)| == |wanted| <==> forall n :: n in wanted ==> n in names
  {
    if wanted != [] {
      KnownAll(names, wanted[1..]);
      assert wanted == [wanted[0]] + wanted[1..];
    }
  }

  lemma KnownOne(names: seq<string>, wanted: seq<string>)
    requires |wanted| == 1
    ensures Known(names, wanted) == if wanted[0] in names then wanted else []
  {
    assert wanted[1..] == [] && wanted == [wanted[0]];
    assert Known(names, []) == [];
  }

  /** The action's only name is the one of context `k`. */
  ghost predicate NamesContext(dev: Device, id: NodeId, k: nat) {
    id in dev.actions && |dev.actions[id].names| == 1 && k < |dev.names| && dev.names[k] == dev.actions[id].names[0]
  }

  lemma OnlyHandle(dev: Device, id: NodeId, k: nat)
    requires dev.Valid() && id in dev.actions && |dev.actions[id].names| == 1
    ensures NamesContext(dev, id, k) <==> Handles(dev.names, dev.actions[id].names) == [k]
    ensures |Handles(dev.names, dev.actions[id].names)| <= 1
  {
    hide Handles, Known;
    var wanted := dev.actions[id].names;
    HandlesSpell(dev.names, wanted);
    KnownAll(dev.names, wanted);
    KnownOne(dev.names, wanted);
    var h := Handles(dev.names, wanted);
    if |h| == 1 {
      assert h == [h[0]] && dev.names[h[0]] == wanted[0];
    }
  }

  /** A transfer or a placeholder reuses the context that its name denotes at that moment; waits and rotations
    reuse none, and neither does a transfer on a foreign context. */
  lemma ReusedIs(dev: Device, id: NodeId, binding: Binding, owner: nat)
    requires dev.Valid() && |binding| == |dev.names| && forall k :: 0 <= k < |binding| ==> binding[k] < |binding|
    ensures Reused(dev, id, binding) == Some(owner) <==>
              && id in dev.actions && dev.actions[id].kind in {Issue, Empty}
              && exists k: nat :: NamesContext(dev, id, k) && binding[k] == owner
  {
    hide Handles;
    if id in dev.actions && dev.actions[id].kind in {Issue, Empty} {
      var h := Handles(dev.names, dev.actions[id].names);
      forall k: nat ensures NamesContext(dev, id, k) <==> h == [k] {
        OnlyHandle(dev, id, k);
      }
      OnlyHandle(dev, id, 0);
      if h != [] {
        assert h == [h[0]];
        assert NamesContext(dev, id, h[0]);
      }
    }
  }

  /** There is no model of a rotation that names a foreign context, and of a declaration executed while its handle
    denotes another context than its own. */
  lemma EscapesIff(dev: Device, id: NodeId, binding: Binding)
    requires dev.Valid() && |binding| == |dev.names|
    ensures RotatesAcross(dev, id) <==>
              id in dev.actions && dev.actions[id].kind == Rotate
              && exists n :: n in dev.actions[id].names && n !in dev.names
    ensures Escapes(dev, id, binding) <==>
              || RotatesAcross(dev, id)
              || (id in dev.actions && dev.actions[id].kind in {Issue, Empty} && dev.actions[id].declaration
                  && exists k: nat :: NamesContext(dev, id, k) && binding[k] != k)
  {
    hide Handles;
    if id in dev.actions {
      var wanted := dev.actions[id].names;
      HandlesSpell(dev.names, wanted);
      KnownAll(dev.names, wanted);
      if dev.actions[id].kind in {Issue, Empty} {
        var h := Handles(dev.names, wanted);
        forall k: nat ensures NamesContext(dev, id, k) <==> h == [k] {
          OnlyHandle(dev, id, k);
        }
        OnlyHandle(dev, id, 0);
        if h != [] {
          assert h == [h[0]];
          assert NamesContext(dev, id, h[0]);
        }
      }
    }
  }

  /** Statements that do something to a context or a buffer have a node of their own, and no others. */
  lemma VisibleIffActive(dev: Device, id: NodeId)
    requires forall x :: x in dev.log ==> dev.log[x] != []
    ensures id in dev.Visible() <==> id in dev.actions || dev.Effects(id) != []
    ensures dev.Effects(id) == if dev.participantLocal && id in dev.log then dev.log[id] else []
  {
    if id in dev.log { assert dev.log[id] != []; }
  }

  ghost predicate WritesWhole(dev: Device, issue: NodeId, buffer: string, k: nat) {
    && k < |dev.Effects(issue)|
    && var a := dev.Effects(issue)[k]; a.kind == WRITE && a.initializesWholeBuffer && a.buffer == buffer
  }

  /** A transfer fills what one of its accesses writes as a whole; what it reads or writes in part it does not. */
  lemma FilledIff(dev: Device, issue: NodeId, buffer: string)
    ensures buffer in Written(dev, issue) <==> exists k: nat :: WritesWhole(dev, issue, buffer, k)
  {
    var effects := dev.Effects(issue);
    if buffer in Written(dev, issue) {
      var a :| a in effects && a.kind == WRITE && a.initializesWholeBuffer && a.buffer == buffer;
      var k: nat :| k < |effects| && effects[k] == a;
      assert WritesWhole(dev, issue, buffer, k);
    }
    if k: nat :| WritesWhole(dev, issue, buffer, k) {
      assert effects[k] in effects;
    }
  }

  /** The last allocation of the buffer among the accesses. */
  ghost predicate IsLastAllocation(accesses: seq<Access>, buffer: string, k: nat) {
    && k < |accesses| && accesses[k].allocation && accesses[k].buffer == buffer
    && forall l :: k < l < |accesses| ==> !(accesses[l].allocation && accesses[l].buffer == buffer)
  }

  /** A buffer is initialised after some accesses if its last allocation initialises it, or if it was initialised
    before and is not allocated anew; other accesses have no part in it. */
  lemma {:induction false} LastAllocationDecides(accesses: seq<Access>, initialized: set<string>, buffer: string)
    ensures buffer in AfterAccesses(accesses, initialized) <==>
              || (exists k: nat :: IsLastAllocation(accesses, buffer, k) && accesses[k].initializesWholeBuffer)
              || (buffer in initialized && forall k: nat :: !IsLastAllocation(accesses, buffer, k))
    decreases |accesses|
  {
    if accesses != [] {
      var last := |accesses| - 1;
      var before := accesses[..last];
      LastAllocationDecides(before, initialized, buffer);
      if accesses[last].allocation && accesses[last].buffer == buffer {
        assert IsLastAllocation(accesses, buffer, last);
      } else {
        forall k: nat ensures IsLastAllocation(accesses, buffer, k) <==> IsLastAllocation(before, buffer, k) {
          assert k < last ==> before[k] == accesses[k];
          if IsLastAllocation(before, buffer, k) {
            forall l | k < l < |accesses| ensures !(accesses[l].allocation && accesses[l].buffer == buffer) {
              if l < last { assert before[l] == accesses[l]; }
            }
          }
        }
      }
    }
  }
}
