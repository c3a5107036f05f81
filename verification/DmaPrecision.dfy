/** How much the facts of the completion analysis say: no fact that a statement leaves could be sharper, a join
  is the least one, and facts about a single state stay facts about a single state.
 */
module DmaPrecision {
  import opened Basics
  import opened ControlFlow
  import opened DmaFacts
  import opened DmaModel
  import opened Programs

  // ----- completing several contexts -----

  function Owners(b: Binding, h: seq<nat>): set<nat>
    requires forall k :: 0 <= k < |h| ==> h[k] < |b|
  {
    set k | 0 <= k < |h| :: b[h[k]]
  }

  /** Where the facts promise a transfer on a context that is completed, all candidates fill the buffer. */
  ghost predicate Fills(dev: Device, f: Fact, owners: set<nat>, buffer: string)
    requires |f.must| == |f.transfers|
  {
    exists i :: i in owners && i < |f.must| && f.must[i] && buffer in Common(dev, f.transfers[i])
  }

  lemma OwnersSplit(b: Binding, h: seq<nat>)
    requires h != [] && forall k :: 0 <= k < |h| ==> h[k] < |b|
    ensures Owners(b, h) == {b[h[0]]} + Owners(b, h[1..])
  {
    forall i | i in Owners(b, h) ensures i in {b[h[0]]} + Owners(b, h[1..]) {
      var k :| 0 <= k < |h| && b[h[k]] == i;
      if k > 0 { assert h[1..][k - 1] == h[k]; }
    }
    forall i | i in Owners(b, h[1..]) ensures i in Owners(b, h) {
      var k :| 0 <= k < |h[1..]| && b[h[1..][k]] == i;
      assert h[k + 1] == h[1..][k];
    }
  }

  lemma {:induction false} FactsCompleted(dev: Device, f: Fact, b: Binding, h: seq<nat>)
    requires |b| == |f.pending| == |f.must| == |f.transfers| && forall k :: 0 <= k < |b| ==> b[k] < |b|
    requires forall k :: 0 <= k < |h| ==> h[k] < |b|
    ensures var r, owners := FactCompleteAll(dev, f, b, h), Owners(b, h);
            && (forall i :: 0 <= i < |b| ==> (r.pending[i] <==> f.pending[i] && i !in owners))
            && (forall i :: 0 <= i < |b| ==> (r.must[i] <==> f.must[i] && i !in owners))
            && (forall i :: 0 <= i < |b| ==> r.transfers[i] == if i in owners then {} else f.transfers[i])
            && (forall buffer :: buffer in r.initialized <==> buffer in f.initialized || Fills(dev, f, owners, buffer))
    decreases |h|
  {
    if h != [] {
      hide Common;
      OwnersSplit(b, h);
      var g, owners := FactComplete(dev, f, b[h[0]]), Owners(b, h[1..]);
      FactsCompleted(dev, g, b, h[1..]);
      forall buffer
        ensures Fills(dev, f, Owners(b, h), buffer)
                <==> (f.must[b[h[0]]] && buffer in Common(dev, f.transfers[b[h[0]]])) || Fills(dev, g, owners, buffer)
      {
      }
    }
  }

  ghost predicate Filled(dev: Device, s: State, owners: set<nat>, buffer: string) {
    exists i :: i in owners && i < |s.live| && s.live[i].Some? && buffer in Written(dev, s.live[i].value)
  }

  lemma FilledSplit(dev: Device, s: State, first: nat, owners: set<nat>, buffer: string)
    requires first < |s.live|
    ensures Filled(dev, s, {first} + owners, buffer)
            <==> || (s.live[first].Some? && buffer in Written(dev, s.live[first].value))
                 || Filled(dev, Complete(dev, s, first), owners, buffer)
  {
    hide Written;
  }

  lemma {:induction false} StateCompleted(dev: Device, s: State, h: seq<nat>)
    requires Fits(s, |dev.names|) && forall k :: 0 <= k < |h| ==> h[k] < |dev.names|
    ensures var r, owners := CompleteAll(dev, s, h), Owners(s.binding, h);
            && r.lost == s.lost && r.escaped == s.escaped
            && (forall i :: 0 <= i < |s.live| ==> r.live[i] == if i in owners then None else s.live[i])
            && (forall buffer :: buffer in r.initialized <==> buffer in s.initialized || Filled(dev, s, owners, buffer))
    decreases |h|
  {
    if h != [] {
      hide Written, Filled, Owners, IsPermutation;
      OwnersSplit(s.binding, h);
      var first := s.binding[h[0]];
      var next, owners := Complete(dev, s, first), Owners(s.binding, h[1..]);
      StateCompleted(dev, next, h[1..]);
      forall buffer
        ensures buffer in CompleteAll(dev, s, h).initialized <==>
                  buffer in s.initialized || Filled(dev, s, Owners(s.binding, h), buffer)
      {
        FilledSplit(dev, s, first, owners, buffer);
      }
    }
  }

  // ----- what a statement does, in one form -----

  /** The statement puts a context to a new use that may be busy. */
  predicate ReusesBusy(dev: Device, id: NodeId, b: Binding, f: Fact)
    requires |b| == |dev.names| == |f.pending| && forall k :: 0 <= k < |b| ==> b[k] < |b|
  {
    Reused(dev, id, b).Some? && f.pending[Reused(dev, id, b).value]
  }

  /** The contexts a statement waits for. */
  function Awaited(dev: Device, id: NodeId, b: Binding): set<nat>
    requires |b| == |dev.names|
  {
    if id in dev.actions && dev.actions[id].kind == Wait then Owners(b, Handles(dev.names, dev.actions[id].names))
    else {}
  }

  predicate IssuesOn(dev: Device, id: NodeId, b: Binding, i: nat, async: bool)
    requires |b| == |dev.names| && forall k :: 0 <= k < |b| ==> b[k] < |b|
  {
    id in dev.actions && dev.actions[id].kind == Issue && dev.actions[id].async == async
    && Reused(dev, id, b) == Some(i)
  }

  /** The buffers that a synchronous transfer of this statement fills. */
  function FilledAtOnce(dev: Device, id: NodeId, b: Binding): set<string>
    requires |b| == |dev.names| && forall k :: 0 <= k < |b| ==> b[k] < |b|
  {
    if Reused(dev, id, b).Some? && IssuesOn(dev, id, b, Reused(dev, id, b).value, false) then Written(dev, id) else {}
  }

  lemma StepForm(dev: Device, id: NodeId, s: State)
    requires Fits(s, |dev.names|) && !s.escaped && s.lost == {} && !Escapes(dev, id, s.binding)
    requires Reused(dev, id, s.binding).Some? ==> s.live[Reused(dev, id, s.binding).value].None?
    ensures var r, owners := Step(dev, id, s), Awaited(dev, id, s.binding);
            && r.lost == {} && !r.escaped
            && (forall i :: 0 <= i < |s.live| && IssuesOn(dev, id, s.binding, i, true) ==> i !in owners)
            && (forall i :: 0 <= i < |s.live| ==>
                  r.live[i] == if i in owners then None
                               else if IssuesOn(dev, id, s.binding, i, true) then Some(id) else s.live[i])
            && (forall buffer :: buffer in r.initialized <==>
                  || buffer in AfterAccesses(dev.Effects(id), s.initialized)
                  || Filled(dev, s, owners, buffer) || buffer in FilledAtOnce(dev, id, s.binding))
  {
    hide Written, AfterAccesses;
    if id in dev.actions && dev.actions[id].kind == Wait {
      var d := During(dev, id, s);
      StateCompleted(dev, d, Handles(dev.names, dev.actions[id].names));
    }
  }

  lemma OneIssue(dev: Device, id: NodeId)
    ensures Common(dev, {id}) == Written(dev, id) && (!dev.participantLocal ==> Written(dev, id) == {})
  {
  }

  lemma TransferForm(dev: Device, issues: set<NodeId>, id: NodeId, b: Binding, f: Fact)
    requires FactOk(dev, issues, f) && |b| == |dev.names| && IsPermutation(b) && !ReusesBusy(dev, id, b, f)
    ensures var r, owners := Transfer(dev, id, b, f).1, Awaited(dev, id, b);
            && (forall i :: 0 <= i < |b| && IssuesOn(dev, id, b, i, true) ==> f.transfers[i] == {})
            && (forall i :: 0 <= i < |b| ==>
                  (r.pending[i] <==> (f.pending[i] && i !in owners) || IssuesOn(dev, id, b, i, true)))
            && (dev.participantLocal ==> forall i :: 0 <= i < |b| ==>
                  (r.must[i] <==> (f.must[i] && i !in owners) || IssuesOn(dev, id, b, i, true)))
            && (dev.participantLocal ==> forall i :: 0 <= i < |b| ==>
                  r.transfers[i] == (if i in owners then {} else f.transfers[i])
                                    + if IssuesOn(dev, id, b, i, true) then {id} else {})
            && (forall buffer :: buffer in r.initialized <==>
                  || buffer in AfterAccesses(dev.Effects(id), f.initialized)
                  || Fills(dev, f, owners, buffer) || buffer in FilledAtOnce(dev, id, b))
  {
    hide Written, AfterAccesses;
    var g := FactAccesses(dev, id, f);
    if id in dev.actions && dev.actions[id].kind == Wait {
      FactsCompleted(dev, g, b, Handles(dev.names, dev.actions[id].names));
      assert forall buffer, owners :: Fills(dev, g, owners, buffer) == Fills(dev, f, owners, buffer);
    } else if Reused(dev, id, b).Some? && IssuesOn(dev, id, b, Reused(dev, id, b).value, false) {
      OneIssue(dev, id);
    }
  }

  // ----- no fact could be sharper -----

  /** A state without a lost transfer of which the facts hold. */
  ghost predicate Lossless(dev: Device, s: State, b: Binding, f: Fact) {
    Covers(dev, s, b, f) && s.lost == {}
  }

  ghost predicate LiveAfter(dev: Device, id: NodeId, s: State, i: nat, x: Option<NodeId>)
    requires Fits(s, |dev.names|)
  {
    i < |dev.names| && Step(dev, id, s).live[i].Some? && (x.Some? ==> Step(dev, id, s).live[i] == x)
  }

  ghost predicate MayBeLive(dev: Device, id: NodeId, b: Binding, f: Fact, i: nat, x: Option<NodeId>) {
    exists s :: Lossless(dev, s, b, f) && LiveAfter(dev, id, s, i, x)
  }

  ghost predicate MustBeLive(dev: Device, id: NodeId, b: Binding, f: Fact, i: nat) {
    forall s :: Lossless(dev, s, b, f) ==> LiveAfter(dev, id, s, i, None)
  }

  ghost predicate MustBeInitialized(dev: Device, id: NodeId, b: Binding, f: Fact, buffer: string) {
    forall s :: Lossless(dev, s, b, f) ==> buffer in Step(dev, id, s).initialized
  }

  /** The facts `r` say what holds after the statement in all the states that the facts before it allow, and no more
    than happens in some of them. */
  ghost predicate IsBest(dev: Device, id: NodeId, b: Binding, f: Fact, r: Fact)
    requires |r.pending| == |r.must| == |r.transfers| == |dev.names|
  {
    && (forall i :: 0 <= i < |dev.names| ==> (r.pending[i] <==> MayBeLive(dev, id, b, f, i, None)))
    && (forall buffer :: buffer in r.initialized <==> MustBeInitialized(dev, id, b, f, buffer))
    && (dev.participantLocal ==>
          && (forall i :: 0 <= i < |dev.names| ==> (r.must[i] <==> MustBeLive(dev, id, b, f, i)))
          && (forall i, x :: 0 <= i < |dev.names| ==>
                (x in r.transfers[i] <==> MayBeLive(dev, id, b, f, i, Some(x)))))
  }

  /** One of the transfers, one that does not fill the buffer if there is such. */
  ghost function Avoid(dev: Device, issues: set<NodeId>, buffer: string): (x: NodeId)
    requires issues != {}
    ensures x in issues && (buffer !in Common(dev, issues) ==> buffer !in Written(dev, x))
  {
    if x :| x in issues && buffer !in Written(dev, x) then x else var x :| x in issues; x
  }

  /** A state with a transfer that avoids the buffer on each context that must be busy, none on others. */
  ghost function Avoiding(dev: Device, b: Binding, f: Fact, buffer: string): State
    requires |f.must| == |f.transfers| == |b| && forall i :: 0 <= i < |b| && f.must[i] ==> f.transfers[i] != {}
  {
    State(b, seq(|b|, i requires 0 <= i < |b| => if f.must[i] then Some(Avoid(dev, f.transfers[i], buffer)) else None),
          {}, f.initialized, false)
  }

  lemma AvoidingIsLossless(dev: Device, issues: set<NodeId>, b: Binding, f: Fact, buffer: string, i: nat, x: NodeId)
    returns (s: State, t: State)
    requires FactOk(dev, issues, f) && |b| == |dev.names| && IsPermutation(b)
    ensures Lossless(dev, s, b, f) && s.initialized == f.initialized
    ensures forall k :: 0 <= k < |b| ==>
              if f.must[k] then s.live[k].Some? && (buffer !in Common(dev, f.transfers[k])
                                                    ==> buffer !in Written(dev, s.live[k].value))
              else s.live[k].None?
    ensures i < |b| && f.pending[i] && (dev.participantLocal ==> x in f.transfers[i]) ==>
              Lossless(dev, t, b, f) && t.live[i] == Some(x)
  {
    hide Common, Written;
    s := Avoiding(dev, b, f, buffer);
    t := if i < |b| then s.(live := s.live[i := Some(x)]) else s;
  }

  lemma MayBeLiveIs(dev: Device, issues: set<NodeId>, id: NodeId, b: Binding, f: Fact, i: nat, x: Option<NodeId>)
    requires FactOk(dev, issues, f) && |b| == |dev.names| && IsPermutation(b) && i < |b|
    requires !Escapes(dev, id, b) && !ReusesBusy(dev, id, b, f)
    ensures x.None? ==> (MayBeLive(dev, id, b, f, i, x) <==> Transfer(dev, id, b, f).1.pending[i])
    ensures dev.participantLocal && x.Some? ==>
              (MayBeLive(dev, id, b, f, i, x) <==> x.value in Transfer(dev, id, b, f).1.transfers[i])
  {
    hide Transfer, Step, Common, Written, Filled, Fills, Awaited, IssuesOn, Escapes;
    TransferForm(dev, issues, id, b, f);
    forall s | Lossless(dev, s, b, f)
      ensures LiveAfter(dev, id, s, i, x) ==>
                if x.None? then Transfer(dev, id, b, f).1.pending[i]
                else dev.participantLocal ==> x.value in Transfer(dev, id, b, f).1.transfers[i]
    {
      StepForm(dev, id, s);
    }
    var y := if x.Some? then x.value else if f.transfers[i] != {} then Avoid(dev, f.transfers[i], "") else 0;
    var s, t := AvoidingIsLossless(dev, issues, b, f, "", i, y);
    StepForm(dev, id, s);
    assert LiveAfter(dev, id, s, i, x) ==> MayBeLive(dev, id, b, f, i, x);
    if f.pending[i] && (dev.participantLocal ==> y in f.transfers[i]) {
      StepForm(dev, id, t);
      assert LiveAfter(dev, id, t, i, x) ==> MayBeLive(dev, id, b, f, i, x);
    }
  }

  lemma MustBeLiveIs(dev: Device, issues: set<NodeId>, id: NodeId, b: Binding, f: Fact, i: nat)
    requires FactOk(dev, issues, f) && |b| == |dev.names| && IsPermutation(b) && i < |b| && dev.participantLocal
    requires !Escapes(dev, id, b) && !ReusesBusy(dev, id, b, f)
    ensures MustBeLive(dev, id, b, f, i) <==> Transfer(dev, id, b, f).1.must[i]
  {
    hide Transfer, Step, Common, Written, Filled, Fills, Awaited, IssuesOn, Escapes;
    TransferForm(dev, issues, id, b, f);
    forall s | Lossless(dev, s, b, f) && Transfer(dev, id, b, f).1.must[i] ensures LiveAfter(dev, id, s, i, None)
    {
      StepForm(dev, id, s);
      assert s.binding == b && i < |s.live|;
      assert Step(dev, id, s).live[i].Some?;
    }
    var s, t := AvoidingIsLossless(dev, issues, b, f, "", i, 0);
    StepForm(dev, id, s);
  }

  lemma MustBeInitializedIs(dev: Device, issues: set<NodeId>, id: NodeId, b: Binding, f: Fact, buffer: string)
    requires FactOk(dev, issues, f) && |b| == |dev.names| && IsPermutation(b)
    requires !Escapes(dev, id, b) && !ReusesBusy(dev, id, b, f)
    ensures MustBeInitialized(dev, id, b, f, buffer) <==> buffer in Transfer(dev, id, b, f).1.initialized
  {
    hide Transfer, Step, Common, Written, Awaited, IssuesOn, Escapes, AfterAccesses, FilledAtOnce;
    TransferForm(dev, issues, id, b, f);
    forall s | Lossless(dev, s, b, f)
      ensures buffer in Transfer(dev, id, b, f).1.initialized ==> buffer in Step(dev, id, s).initialized
    {
      StepForm(dev, id, s);
      AccessesMonotone(dev.Effects(id), f.initialized, s.initialized);
      if Fills(dev, f, Awaited(dev, id, b), buffer) {
        var i :| i in Awaited(dev, id, b) && i < |f.must| && f.must[i] && buffer in Common(dev, f.transfers[i]);
        CommonIsWritten(dev, f.transfers[i], s, i, buffer);
      }
    }
    var s, t := AvoidingIsLossless(dev, issues, b, f, buffer, 0, 0);
    StepForm(dev, id, s);
  }

  lemma CommonIsWritten(dev: Device, issues: set<NodeId>, s: State, i: nat, buffer: string)
    requires buffer in Common(dev, issues) && i < |s.live| && s.live[i].Some?
    requires dev.participantLocal ==> s.live[i].value in issues
    ensures buffer in Written(dev, s.live[i].value)
  {
  }

  /** Unless it reuses a context that may be busy, a statement leaves the sharpest facts there are. */
  lemma TransferIsBest(dev: Device, issues: set<NodeId>, id: NodeId, b: Binding, f: Fact)
    requires FactOk(dev, issues, f) && |b| == |dev.names| && IsPermutation(b)
    requires !Escapes(dev, id, b) && !ReusesBusy(dev, id, b, f)
    ensures IsBest(dev, id, b, f, Transfer(dev, id, b, f).1)
  {
    hide Transfer, MayBeLive, MustBeLive, MustBeInitialized, Escapes, ReusesBusy;
    forall i | 0 <= i < |b|
      ensures Transfer(dev, id, b, f).1.pending[i] <==> MayBeLive(dev, id, b, f, i, None)
      ensures dev.participantLocal ==> (Transfer(dev, id, b, f).1.must[i] <==> MustBeLive(dev, id, b, f, i))
    {
      MayBeLiveIs(dev, issues, id, b, f, i, None);
      if dev.participantLocal { MustBeLiveIs(dev, issues, id, b, f, i); }
    }
    forall i, x | 0 <= i < |b| && dev.participantLocal
      ensures x in Transfer(dev, id, b, f).1.transfers[i] <==> MayBeLive(dev, id, b, f, i, Some(x))
    {
      MayBeLiveIs(dev, issues, id, b, f, i, Some(x));
    }
    forall buffer
      ensures buffer in Transfer(dev, id, b, f).1.initialized <==> MustBeInitialized(dev, id, b, f, buffer)
    {
      MustBeInitializedIs(dev, issues, id, b, f, buffer);
    }
  }

  // ----- joins -----

  /** A join is the least of the facts that lie above both. */
  lemma MergeIsLeast(dev: Device, issues: set<NodeId>, known: Fact, arriving: Fact, above: Fact)
    requires FactOk(dev, issues, known) && FactOk(dev, issues, arriving) && FactOk(dev, issues, above)
    ensures Leq(Merge(dev, known, arriving), above) <==> Leq(known, above) && Leq(arriving, above)
  {
    MergeCovers(dev, issues, known, arriving);
  }

  // ----- more facts before, more facts after -----

  lemma CommonShrinks(dev: Device, some: set<NodeId>, more: set<NodeId>)
    requires some <= more && some != {}
    ensures Common(dev, more) <= Common(dev, some)
  {
    var x :| x in some;
  }

  ghost predicate Promised(f: Fact) {
    |f.must| == |f.transfers| && forall i :: 0 <= i < |f.must| && f.must[i] ==> f.transfers[i] != {}
  }

  lemma CompleteMonotone(dev: Device, f: Fact, g: Fact, owner: nat)
    requires Leq(f, g) && Promised(f) && owner < |f.pending| && |f.pending| == |f.must|
    requires |g.must| == |g.transfers| == |g.pending|
    ensures Leq(FactComplete(dev, f, owner), FactComplete(dev, g, owner)) && Promised(FactComplete(dev, f, owner))
  {
    hide Common;
    if g.must[owner] { CommonShrinks(dev, f.transfers[owner], g.transfers[owner]); }
  }

  lemma {:induction false} CompleteAllMonotone(dev: Device, f: Fact, g: Fact, b: Binding, h: seq<nat>)
    requires Leq(f, g) && Promised(f) && |b| == |f.pending| == |f.must| && |g.must| == |g.transfers| == |g.pending|
    requires (forall k :: 0 <= k < |b| ==> b[k] < |b|) && forall k :: 0 <= k < |h| ==> h[k] < |b|
    ensures Leq(FactCompleteAll(dev, f, b, h), FactCompleteAll(dev, g, b, h))
    decreases |h|
  {
    if h != [] {
      hide Leq, FactComplete;
      CompleteMonotone(dev, f, g, b[h[0]]);
      CompleteAllMonotone(dev, FactComplete(dev, f, b[h[0]]), FactComplete(dev, g, b[h[0]]), b, h[1..]);
    }
  }

  lemma TransferMonotone(dev: Device, issues: set<NodeId>, id: NodeId, b: Binding, f: Fact, g: Fact)
    requires FactOk(dev, issues, f) && FactOk(dev, issues, g) && Leq(f, g) && |b| == |dev.names| && IsPermutation(b)
    ensures Transfer(dev, id, b, f).0 == Transfer(dev, id, b, g).0
    ensures Leq(Transfer(dev, id, b, f).1, Transfer(dev, id, b, g).1)
  {
    hide AfterAccesses, Common, FactComplete;
    AccessesMonotone(dev.Effects(id), g.initialized, f.initialized);
    var f', g' := FactAccesses(dev, id, f), FactAccesses(dev, id, g);
    if id in dev.actions {
      var a := dev.actions[id];
      var h := Handles(dev.names, a.names);
      match a.kind
      case Wait => CompleteAllMonotone(dev, f', g', b, h);
      case Issue =>
        if h != [] {
          CompleteMonotone(dev, FactIssue(dev, f', id, b[h[0]], a.async), FactIssue(dev, g', id, b[h[0]], a.async),
                           b[h[0]]);
        }
      case Empty => if h != [] { CompleteMonotone(dev, f', g', b[h[0]]); }
      case Rotate =>
    }
  }

  // ----- facts about one state -----

  /** All there is to say about a state. */
  function FactsOf(dev: Device, s: State): Fact {
    var n := |s.live|;
    var live := seq(n, i requires 0 <= i < n => s.live[i].Some?);
    if dev.participantLocal then
      Fact(live, live, seq(n, i requires 0 <= i < n => if s.live[i].Some? then {s.live[i].value} else {}),
           s.initialized)
    else Fact(live, seq(n, _ => false), seq(n, _ => {}), {})
  }

  ghost predicate IsExact(s: State) {
    !s.escaped && s.lost == {}
  }

  /** A statement that loses no transfer takes all there is to say about one state to all there is about the next. */
  lemma FactsOfStep(dev: Device, issues: set<NodeId>, id: NodeId, s: State)
    requires Fits(s, |dev.names|) && IsExact(s) && !Escapes(dev, id, s.binding) && Step(dev, id, s).lost == {}
    requires FactOk(dev, issues, FactsOf(dev, s)) && id in issues
    ensures Transfer(dev, id, s.binding, FactsOf(dev, s)) == (Step(dev, id, s).binding, FactsOf(dev, Step(dev, id, s)))
  {
    hide Transfer, Common, Written, Awaited, IssuesOn, Escapes, AfterAccesses, FilledAtOnce, Filled, Fills, Step,
         Reused;
    var f, t := FactsOf(dev, s), Step(dev, id, s);
    NothingReused(dev, id, s);
    StepBinding(dev, id, s, f);
    TransferForm(dev, issues, id, s.binding, f);
    TransferOk(dev, issues, id, s.binding, f);
    StepForm(dev, id, s);
    var r := Transfer(dev, id, s.binding, f).1;
    assert r.pending == FactsOf(dev, t).pending;
    assert r.must == FactsOf(dev, t).must;
    if dev.participantLocal {
      var owners := Awaited(dev, id, s.binding);
      forall buffer ensures Fills(dev, f, owners, buffer) <==> Filled(dev, s, owners, buffer) {
        FillsIsFilled(dev, s, owners, buffer);
      }
      assert r.initialized == t.initialized;
      forall i | 0 <= i < |dev.names| ensures r.transfers[i] == FactsOf(dev, t).transfers[i] {
        assert IssuesOn(dev, id, s.binding, i, true) ==> f.transfers[i] == {};
      }
      assert r.transfers == FactsOf(dev, t).transfers;
    } else {
      assert r.transfers == FactsOf(dev, t).transfers;
    }
  }

  lemma FillsIsFilled(dev: Device, s: State, owners: set<nat>, buffer: string)
    requires dev.participantLocal
    ensures Fills(dev, FactsOf(dev, s), owners, buffer) <==> Filled(dev, s, owners, buffer)
  {
    hide Written, Common;
    var f := FactsOf(dev, s);
    forall i | i in owners && i < |s.live| && s.live[i].Some?
      ensures Common(dev, f.transfers[i]) == Written(dev, s.live[i].value)
    {
      OneIssue(dev, s.live[i].value);
    }
  }

  lemma NothingReused(dev: Device, id: NodeId, s: State)
    requires Fits(s, |dev.names|) && IsExact(s) && !Escapes(dev, id, s.binding) && Step(dev, id, s).lost == {}
    ensures Reused(dev, id, s.binding).Some? ==> s.live[Reused(dev, id, s.binding).value].None?
  {
    hide Written, AfterAccesses;
  }
}
