/** The facts the completion analysis keeps for one program point and one binding, how a
  statement transforms them, and why the transformed facts still cover every run.
 */
module DmaFacts {
  import opened Basics
  import opened ControlFlow
  import opened DmaModel
  import opened Programs

  /** `pending` and `transfers` hold on some run; `must` and `initialized` hold on every run. */
  datatype Fact = Fact(pending: seq<bool>, must: seq<bool>, transfers: seq<set<NodeId>>, initialized: set<string>)

  function NoFact(n: nat): Fact {
    Fact(seq(n, _ => false), seq(n, _ => false), seq(n, _ => {}), {})
  }

  ghost predicate FactOk(dev: Device, issues: set<NodeId>, f: Fact)
  {
    var n := |dev.names|;
    && |f.pending| == n && |f.must| == n && |f.transfers| == n
    && (forall i :: 0 <= i < n ==> f.must[i] ==> f.pending[i])
    && (forall i :: 0 <= i < n ==> f.transfers[i] <= issues)
    && (dev.participantLocal ==> forall i :: 0 <= i < n ==> (f.pending[i] <==> f.transfers[i] != {}))
    && (!dev.participantLocal ==> f.initialized == {}
                                  && forall i :: 0 <= i < n ==> !f.must[i] && f.transfers[i] == {})
  }

  /** The buffers every one of these issues fills completely. */
  function Common(dev: Device, issues: set<NodeId>): set<string>
  {
    set i, b | i in issues && b in Written(dev, i) && (forall j :: j in issues ==> b in Written(dev, j)) :: b
  }

  function FactComplete(dev: Device, f: Fact, owner: nat): (r: Fact)
    requires owner < |f.pending| && |f.pending| == |f.must| == |f.transfers|
    ensures |r.pending| == |r.must| == |r.transfers| == |f.pending|
  {
    Fact(f.pending[owner := false], f.must[owner := false], f.transfers[owner := {}],
         if f.must[owner] then f.initialized + Common(dev, f.transfers[owner]) else f.initialized)
  }

  function FactCompleteAll(dev: Device, f: Fact, b: Binding, h: seq<nat>): (r: Fact)
    requires |b| == |f.pending| == |f.must| == |f.transfers|
    requires forall k :: 0 <= k < |b| ==> b[k] < |b|
    requires forall k :: 0 <= k < |h| ==> h[k] < |b|
    ensures |r.pending| == |r.must| == |r.transfers| == |f.pending|
    decreases |h|
  {
    if h == [] then f else FactCompleteAll(dev, FactComplete(dev, f, b[h[0]]), b, h[1..])
  }

  function FactIssue(dev: Device, f: Fact, id: NodeId, owner: nat, async: bool): (r: Fact)
    requires owner < |f.pending| && |f.pending| == |f.must| == |f.transfers|
    ensures |r.pending| == |r.must| == |r.transfers| == |f.pending|
  {
    if dev.participantLocal
    then Fact(f.pending[owner := async], f.must[owner := true],
              f.transfers[owner := f.transfers[owner] + {id}], f.initialized)
    else f.(pending := f.pending[owner := async])
  }

  function FactAccesses(dev: Device, id: NodeId, f: Fact): Fact {
    f.(initialized := AfterAccesses(dev.Effects(id), f.initialized))
  }

  /** How a statement transforms binding and facts, provided it stays inside the protocol. */
  function Transfer(dev: Device, id: NodeId, b: Binding, f: Fact): (r: (Binding, Fact))
    requires |b| == |dev.names| == |f.pending| == |f.must| == |f.transfers|
    requires forall k :: 0 <= k < |b| ==> b[k] < |b|
    ensures |r.0| == |dev.names| && |r.1.pending| == |r.1.must| == |r.1.transfers| == |f.pending|
  {
    var f := FactAccesses(dev, id, f);
    if id !in dev.actions then (b, f)
    else
      var a := dev.actions[id];
      var h := Handles(dev.names, a.names);
      match a.kind
      case Rotate => (RotateBinding(b, h), f)
      case Wait => (b, FactCompleteAll(dev, f, b, h))
      case Issue =>
        if h == [] then (b, f)
        else
          var g := FactIssue(dev, f, id, b[h[0]], a.async);
          (b, if a.async then g else FactComplete(dev, g, b[h[0]]))
      case Empty => (b, if h == [] then f else FactComplete(dev, f, b[h[0]]))
  }

  /** `f` is covered by `g`: `g` allows more and promises less. */
  ghost predicate Leq(f: Fact, g: Fact)
  {
    && |f.pending| == |g.pending| && |f.must| == |g.must| && |f.transfers| == |g.transfers|
    && (forall i :: 0 <= i < |f.pending| ==> f.pending[i] ==> g.pending[i])
    && (forall i :: 0 <= i < |f.must| ==> g.must[i] ==> f.must[i])
    && (forall i :: 0 <= i < |f.transfers| ==> f.transfers[i] <= g.transfers[i])
    && g.initialized <= f.initialized
  }

  // ----- covering a run -----

  /** The facts hold of the state a run has reached. */
  ghost predicate Covers(dev: Device, s: State, b: Binding, f: Fact)
  {
    var n := |dev.names|;
    && Fits(s, n) && !s.escaped && s.binding == b
    && |f.pending| == n && |f.must| == n && |f.transfers| == n
    && (forall i :: 0 <= i < n ==> s.live[i].Some? ==> f.pending[i])
    && (forall i :: 0 <= i < n ==> f.must[i] ==> s.live[i].Some?)
    && (dev.participantLocal ==>
          forall i :: 0 <= i < n ==> s.live[i].Some? ==> s.live[i].value in f.transfers[i])
    && (s.lost == {} ==> f.initialized <= s.initialized)
  }

  lemma AccessesMonotone(accesses: seq<Access>, small: set<string>, large: set<string>)
    requires small <= large
    ensures AfterAccesses(accesses, small) <= AfterAccesses(accesses, large)
    decreases |accesses|
  {
    if accesses != [] {
      AccessesMonotone(accesses[..|accesses| - 1], small, large);
    }
  }

  lemma CompleteCovers(dev: Device, issues: set<NodeId>, s: State, b: Binding, f: Fact, owner: nat)
    requires Covers(dev, s, b, f) && owner < |dev.names|
    requires !dev.participantLocal ==> !f.must[owner]
    ensures Covers(dev, Complete(dev, s, owner), b, FactComplete(dev, f, owner))
  {
    if f.must[owner] {
      var x := s.live[owner].value;
      assert Common(dev, f.transfers[owner]) <= Written(dev, x);
    }
  }

  lemma {:induction false} CompleteAllCovers(dev: Device, issues: set<NodeId>, s: State, b: Binding, f: Fact,
                                             h: seq<nat>)
    requires Covers(dev, s, b, f) && FactOk(dev, issues, f)
    requires forall k :: 0 <= k < |h| ==> h[k] < |dev.names|
    ensures Covers(dev, CompleteAll(dev, s, h), b, FactCompleteAll(dev, f, b, h))
    ensures FactOk(dev, issues, FactCompleteAll(dev, f, b, h))
    ensures CompleteAll(dev, s, h).lost == s.lost
    ensures forall i :: 0 <= i < |dev.names| ==> CompleteAll(dev, s, h).live[i].Some? ==> s.live[i].Some?
    decreases |h|
  {
    if h != [] {
      CompleteCovers(dev, issues, s, b, f, b[h[0]]);
      CompleteAllCovers(dev, issues, Complete(dev, s, b[h[0]]), b, FactComplete(dev, f, b[h[0]]), h[1..]);
    }
  }

  lemma AccessesCover(dev: Device, id: NodeId, s: State, b: Binding, f: Fact)
    requires Covers(dev, s, b, f)
    ensures Covers(dev, s.(initialized := AfterAccesses(dev.Effects(id), s.initialized)), b, FactAccesses(dev, id, f))
  {
    if s.lost == {} { AccessesMonotone(dev.Effects(id), f.initialized, s.initialized); }
  }

  lemma IssueCovers(dev: Device, issues: set<NodeId>, id: NodeId, s: State, b: Binding, f: Fact, owner: nat,
                    async: bool)
    requires Covers(dev, s, b, f) && FactOk(dev, issues, f) && owner < |dev.names|
    ensures var v := Vacate(s, owner);
            var d := v.(live := v.live[owner := Some(id)]);
            var g := FactIssue(dev, f, id, owner, async);
            if async then Covers(dev, d, b, g)
            else Covers(dev, Complete(dev, d, owner), b, FactComplete(dev, g, owner))
  {
    var v := Vacate(s, owner);
    var d := v.(live := v.live[owner := Some(id)]);
    var up := FactIssue(dev, f, id, owner, true);
    assert Covers(dev, d, b, up);
    if !async {
      CompleteCovers(dev, issues, d, b, up, owner);
      assert FactComplete(dev, up, owner) == FactComplete(dev, FactIssue(dev, f, id, owner, false), owner);
    }
  }

  lemma IssueStepCovers(dev: Device, issues: set<NodeId>, id: NodeId, s: State, b: Binding, f: Fact)
    requires Covers(dev, s, b, f) && FactOk(dev, issues, f)
    requires !Escapes(dev, id, b) && id in dev.actions && dev.actions[id].kind == Issue
    ensures var r := Transfer(dev, id, b, f); Covers(dev, Step(dev, id, s), r.0, r.1)
  {
    AccessesCover(dev, id, s, b, f);
    AccessesOk(dev, issues, id, f);
    var h := Handles(dev.names, dev.actions[id].names);
    if h != [] {
      var d := s.(initialized := AfterAccesses(dev.Effects(id), s.initialized));
      IssueCovers(dev, issues, id, d, b, FactAccesses(dev, id, f), b[h[0]], dev.actions[id].async);
    }
  }

  lemma WaitStepCovers(dev: Device, issues: set<NodeId>, id: NodeId, s: State, b: Binding, f: Fact)
    requires Covers(dev, s, b, f) && FactOk(dev, issues, f)
    requires id in dev.actions && dev.actions[id].kind == Wait
    ensures var r := Transfer(dev, id, b, f); Covers(dev, Step(dev, id, s), r.0, r.1)
  {
    AccessesCover(dev, id, s, b, f);
    AccessesOk(dev, issues, id, f);
    var d := s.(initialized := AfterAccesses(dev.Effects(id), s.initialized));
    CompleteAllCovers(dev, issues, d, b, FactAccesses(dev, id, f), Handles(dev.names, dev.actions[id].names));
  }

  lemma QuietStepCovers(dev: Device, issues: set<NodeId>, id: NodeId, s: State, b: Binding, f: Fact)
    requires Covers(dev, s, b, f) && FactOk(dev, issues, f)
    requires !Escapes(dev, id, b) && id in dev.actions && dev.actions[id].kind == Empty
    ensures var r := Transfer(dev, id, b, f); Covers(dev, Step(dev, id, s), r.0, r.1)
  {
    AccessesCover(dev, id, s, b, f);
  }

  /** The facts a statement leaves cover the state it leaves. */
  lemma StepCovers(dev: Device, issues: set<NodeId>, id: NodeId, s: State, b: Binding, f: Fact)
    requires Covers(dev, s, b, f) && FactOk(dev, issues, f)
    requires !Escapes(dev, id, b)
    ensures var r := Transfer(dev, id, b, f); Covers(dev, Step(dev, id, s), r.0, r.1)
  {
    if id !in dev.actions {
      AccessesCover(dev, id, s, b, f);
    } else {
      match dev.actions[id].kind
      case Issue => IssueStepCovers(dev, issues, id, s, b, f);
      case Wait => WaitStepCovers(dev, issues, id, s, b, f);
      case Empty => QuietStepCovers(dev, issues, id, s, b, f);
      case Rotate =>
        AccessesCover(dev, id, s, b, f);
        RotationKeepsPermutation(b, Handles(dev.names, dev.actions[id].names));
    }
  }

  lemma AccessesOk(dev: Device, issues: set<NodeId>, id: NodeId, f: Fact)
    requires FactOk(dev, issues, f)
    ensures FactOk(dev, issues, FactAccesses(dev, id, f))
  {
    if !dev.participantLocal { assert dev.Effects(id) == []; }
  }

  /** The invariants of the facts survive every statement. */
  lemma TransferOk(dev: Device, issues: set<NodeId>, id: NodeId, b: Binding, f: Fact)
    requires FactOk(dev, issues, f) && id in issues && |b| == |dev.names| && IsPermutation(b)
    requires !Escapes(dev, id, b)
    ensures var r := Transfer(dev, id, b, f); FactOk(dev, issues, r.1) && IsPermutation(r.0)
  {
    AccessesOk(dev, issues, id, f);
    var g := FactAccesses(dev, id, f);
    if id in dev.actions {
      var h := Handles(dev.names, dev.actions[id].names);
      match dev.actions[id].kind
      case Rotate => RotationKeepsPermutation(b, h);
      case Wait => CompleteAllOk(dev, issues, g, b, h);
      case _ =>
    }
  }

  lemma {:induction false} CompleteAllOk(dev: Device, issues: set<NodeId>, f: Fact, b: Binding, h: seq<nat>)
    requires FactOk(dev, issues, f) && |b| == |dev.names| && IsPermutation(b)
    requires forall k :: 0 <= k < |h| ==> h[k] < |b|
    ensures FactOk(dev, issues, FactCompleteAll(dev, f, b, h))
    decreases |h|
  {
    if h != [] {
      CompleteAllOk(dev, issues, FactComplete(dev, f, b[h[0]]), b, h[1..]);
    }
  }

  // ----- the pending facts are exact along a single run -----

  lemma {:induction false} CompleteAllKeeps(dev: Device, s: State, b: Binding, f: Fact, h: seq<nat>, i: nat)
    requires Fits(s, |dev.names|) && s.binding == b
    requires |f.pending| == |f.must| == |f.transfers| == |dev.names|
    requires forall k :: 0 <= k < |h| ==> h[k] < |dev.names|
    requires i < |dev.names| && (f.pending[i] ==> s.live[i].Some?)
    requires FactCompleteAll(dev, f, b, h).pending[i]
    ensures CompleteAll(dev, s, h).live[i].Some?
    decreases |h|
  {
    if h != [] {
      CompleteAllKeeps(dev, Complete(dev, s, b[h[0]]), b, FactComplete(dev, f, b[h[0]]), h[1..], i);
    }
  }

  /** A context that may be pending after a statement really is pending after it on any run
    where it was pending before whenever it might have been. */
  lemma PendingIsReal(dev: Device, id: NodeId, s: State, f: Fact, i: nat)
    requires Fits(s, |dev.names|) && !s.escaped && !Escapes(dev, id, s.binding)
    requires |f.pending| == |f.must| == |f.transfers| == |dev.names|
    requires i < |dev.names| && (f.pending[i] ==> s.live[i].Some?)
    requires Transfer(dev, id, s.binding, f).1.pending[i]
    ensures Step(dev, id, s).live[i].Some?
  {
    if id in dev.actions && dev.actions[id].kind == Wait {
      var h := Handles(dev.names, dev.actions[id].names);
      CompleteAllKeeps(dev, During(dev, id, s), s.binding, FactAccesses(dev, id, f), h, i);
    }
  }

  /** Transfer `x` is in flight on context `i`, unless some transfer has been lost. */
  ghost predicate Carries(s: State, i: nat, x: NodeId) {
    (i < |s.live| && s.live[i] == Some(x)) || s.lost != {}
  }

  lemma {:induction false} CompleteAllCarries(dev: Device, s: State, b: Binding, f: Fact, h: seq<nat>, i: nat,
                                              x: NodeId)
    requires Fits(s, |dev.names|) && s.binding == b
    requires |f.pending| == |f.must| == |f.transfers| == |dev.names|
    requires forall k :: 0 <= k < |h| ==> h[k] < |dev.names|
    requires i < |dev.names| && (x in f.transfers[i] ==> Carries(s, i, x))
    requires x in FactCompleteAll(dev, f, b, h).transfers[i]
    ensures Carries(CompleteAll(dev, s, h), i, x)
    decreases |h|
  {
    if h != [] {
      CompleteAllCarries(dev, Complete(dev, s, b[h[0]]), b, FactComplete(dev, f, b[h[0]]), h[1..], i, x);
    }
  }

  /** A transfer that may be in flight after a statement really is in flight after it on any run
    where it was in flight before whenever it might have been, unless a transfer has been lost. */
  lemma TransferIsReal(dev: Device, id: NodeId, s: State, f: Fact, i: nat, x: NodeId)
    requires Fits(s, |dev.names|) && !s.escaped && !Escapes(dev, id, s.binding)
    requires |f.pending| == |f.must| == |f.transfers| == |dev.names|
    requires i < |dev.names| && (x in f.transfers[i] ==> Carries(s, i, x))
    requires x in Transfer(dev, id, s.binding, f).1.transfers[i]
    ensures Carries(Step(dev, id, s), i, x)
  {
    if id in dev.actions && dev.actions[id].kind == Wait {
      var h := Handles(dev.names, dev.actions[id].names);
      CompleteAllCarries(dev, During(dev, id, s), s.binding, FactAccesses(dev, id, f), h, i, x);
    }
  }

  // ----- the protocol goes on -----

  lemma {:induction false} CompleteAllKeepsProtocol(dev: Device, s: State, h: seq<nat>)
    requires Fits(s, |dev.names|) && forall k :: 0 <= k < |h| ==> h[k] < |dev.names|
    ensures CompleteAll(dev, s, h).escaped == s.escaped && CompleteAll(dev, s, h).lost == s.lost
    ensures CompleteAll(dev, s, h).LiveSet() <= s.LiveSet()
    decreases |h|
  {
    if h != [] {
      CompleteAllKeepsProtocol(dev, Complete(dev, s, s.binding[h[0]]), h[1..]);
    }
  }

  lemma StepBinding(dev: Device, id: NodeId, s: State, f: Fact)
    requires Fits(s, |dev.names|) && !s.escaped && !Escapes(dev, id, s.binding)
    requires |f.pending| == |f.must| == |f.transfers| == |dev.names|
    ensures !Step(dev, id, s).escaped && Step(dev, id, s).binding == Transfer(dev, id, s.binding, f).0
  {
    var d := During(dev, id, s);
    if id in dev.actions && dev.actions[id].kind == Wait {
      CompleteAllKeepsProtocol(dev, d, Handles(dev.names, dev.actions[id].names));
    }
  }

  // ----- how often a join can change facts -----

  function Count(s: seq<bool>): nat
    decreases |s|
  {
    if s == [] then 0 else Count(s[..|s| - 1]) + if s[|s| - 1] then 1 else 0
  }

  lemma {:induction false} CountIsCardinality(s: seq<bool>)
    ensures Count(s) == |set i | 0 <= i < |s| && s[i]| && Count(s) <= |s|
    decreases |s|
  {
    var all := set i | 0 <= i < |s| && s[i];
    if s != [] {
      var p := s[..|s| - 1];
      CountIsCardinality(p);
      var part := set i | 0 <= i < |p| && p[i];
      assert all == part + if s[|s| - 1] then {|s| - 1} else {};
    } else {
      assert all == {};
    }
  }

  lemma {:induction false} CountMonotone(s: seq<bool>, t: seq<bool>)
    requires |s| == |t| && forall i :: 0 <= i < |s| ==> s[i] ==> t[i]
    ensures Count(s) <= Count(t)
    ensures s != t ==> Count(s) < Count(t)
    decreases |s|
  {
    if s != [] {
      CountMonotone(s[..|s| - 1], t[..|s| - 1]);
      assert s == s[..|s| - 1] + [s[|s| - 1]] && t == t[..|s| - 1] + [t[|s| - 1]];
    }
  }

  ghost function Room(transfers: seq<set<NodeId>>, issues: set<NodeId>): nat
    decreases |transfers|
  {
    if transfers == [] then 0
    else Room(transfers[..|transfers| - 1], issues) + |issues - transfers[|transfers| - 1]|
  }

  lemma {:induction false} RoomShrinks(s: seq<set<NodeId>>, t: seq<set<NodeId>>, issues: set<NodeId>)
    requires |s| == |t| && forall i :: 0 <= i < |s| ==> s[i] <= t[i] <= issues
    ensures Room(t, issues) <= Room(s, issues)
    ensures s != t ==> Room(t, issues) < Room(s, issues)
    decreases |s|
  {
    if s != [] {
      var last := |s| - 1;
      RoomShrinks(s[..last], t[..last], issues);
      assert s == s[..last] + [s[last]] && t == t[..last] + [t[last]];
      SmallerSet(issues - t[last], issues - s[last]);
      if s[last] != t[last] {
        var x :| x in t[last] && x !in s[last];
        assert x in issues - s[last] && x !in issues - t[last];
      }
    }
  }

  lemma {:induction false} SmallerSet<T>(a: set<T>, b: set<T>)
    requires a <= b
    ensures |a| <= |b| && (a != b ==> |a| < |b|)
  {
    assert b == a + (b - a);
  }

  /** How many more times the facts can change. */
  ghost function Slack(f: Fact, issues: set<NodeId>): int {
    |f.pending| - Count(f.pending) + Count(f.must) + Room(f.transfers, issues) + |f.initialized|
  }

  lemma SlackBounds(dev: Device, issues: set<NodeId>, f: Fact, g: Fact)
    requires FactOk(dev, issues, f) && FactOk(dev, issues, g) && Leq(f, g)
    ensures 0 <= Slack(g, issues) <= Slack(f, issues)
    ensures f != g ==> Slack(g, issues) < Slack(f, issues)
  {
    CountIsCardinality(g.pending);
    CountMonotone(f.pending, g.pending);
    CountMonotone(g.must, f.must);
    RoomShrinks(f.transfers, g.transfers, issues);
    SmallerSet(g.initialized, f.initialized);
  }

  /** Merging newly arrived facts into recorded ones. */
  function Merge(dev: Device, known: Fact, arriving: Fact): (r: Fact)
    requires |known.pending| == |known.must| == |known.transfers|
    requires |arriving.pending| == |arriving.must| == |arriving.transfers| == |known.pending|
    ensures |r.pending| == |r.must| == |r.transfers| == |known.pending|
  {
    var n := |known.pending|;
    var pending := seq(n, i requires 0 <= i < n => known.pending[i] || arriving.pending[i]);
    if dev.participantLocal then
      Fact(pending,
           seq(n, i requires 0 <= i < n => known.must[i] && arriving.must[i]),
           seq(n, i requires 0 <= i < n => known.transfers[i] + arriving.transfers[i]),
           known.initialized * arriving.initialized)
    else known.(pending := pending)
  }

  lemma MergeCovers(dev: Device, issues: set<NodeId>, known: Fact, arriving: Fact)
    requires FactOk(dev, issues, known) && FactOk(dev, issues, arriving)
    ensures var m := Merge(dev, known, arriving);
            FactOk(dev, issues, m) && Leq(known, m) && Leq(arriving, m)
  {
  }
}
