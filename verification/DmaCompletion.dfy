/** The completion analysis of a device function, and its guarantees over every run. */
module DmaCompletion {
  import opened Basics
  import opened ControlFlow
  import opened DmaAnalysis
  import opened DmaCertificate
  import opened DmaFacts
  import opened DmaModel
  import opened DmaPrecision
  import opened Programs

  // ----- guarantees -----

  /** Contexts whose slots may be shared never hold transfers at the same time, on any run,
    even on runs that misuse a context. */
  ghost predicate SharingIsSafe(dev: Device, info: Info)
  {
    forall s, i: nat, j: nat ::
      Moment(dev, s) && i < |dev.names| && j < |dev.names| && i != j && s.Pending(i) && s.Pending(j) ==>
      info.Interferes(dev.names[i], dev.names[j])
  }

  /** A context has a finding exactly when some run misuses it, and the findings say, each once, which statements
    reuse it and whether it is left pending. */
  ghost predicate FindingsAreExact(dev: Device, info: Info)
  {
    && (forall i :: 0 <= i < |dev.names| ==> (HasFinding(dev, info.findings, i) <==> Misused(dev, i)))
    && (forall f :: f in info.findings <==> FindingHappens(dev, f)) && Unrepeated(info.findings)
  }

  /** Two contexts conflict exactly when some run has both in flight or misuses one of them. */
  ghost predicate ConflictsAreExact(dev: Device, info: Info)
  {
    forall i: nat, j: nat :: i < |dev.names| && j < |dev.names| && i != j ==>
      ({dev.names[i], dev.names[j]} in info.conflicts
       <==> BusyTogether(dev, i, j) || BusyTogether(dev, j, i) || Misused(dev, i) || Misused(dev, j))
  }

  /** Never more transfers in flight than the bound, and none lost without a finding: without findings the
    bound is one on all contexts that hold transfers. */
  ghost predicate BoundHolds(dev: Device, info: Info)
  {
    forall s :: Moment(dev, s) ==> |s.LiveSet()| <= info.pendingBound && (info.findings == [] ==> s.lost == {})
  }

  /** Access `k` of statement `id` reads a local buffer nothing has initialised. */
  ghost predicate ReadsUninitialized(dev: Device, s: State, id: NodeId, k: nat)
  {
    && k < |dev.Effects(id)|
    && var a := dev.Effects(id)[k];
       a.kind == READ && a.local && !a.allocation && a.buffer !in AfterAccesses(dev.Effects(id)[..k], s.initialized)
  }

  /** Every race is reported, and so is every uninitialised read unless a completion finding
    already says that the run cannot be trusted. */
  ghost predicate BuffersAreReported(dev: Device, info: Info)
  {
    forall t, id :: DeviceRun(dev, t + [id]) ==>
      && (forall k: nat, issue :: Races(dev, After(dev, t), id, k, issue) ==>
            var a := dev.Effects(id)[k];
            BufferFinding(a.stmt, Some(issue), a.buffer, ClashCode(a)) in info.bufferFindings)
      && (info.findings == [] ==>
            forall k: nat :: ReadsUninitialized(dev, After(dev, t), id, k) ==>
              var a := dev.Effects(id)[k];
              BufferFinding(a.stmt, None, a.buffer, "BUFFER_INITIALIZATION_UNPROVEN") in info.bufferFindings)
  }

  /** When no context is misused, every race that is reported happens on some run. */
  ghost predicate RacesAreReal(dev: Device, info: Info)
  {
    info.findings == [] ==>
      forall b :: b in info.bufferFindings && b.issue.Some? ==> HasRace(dev, b)
  }

  ghost predicate HasRace(dev: Device, b: BufferFinding)
  {
    exists t, id, k: nat, issue ::
      DeviceRun(dev, t + [id]) && Races(dev, After(dev, t), id, k, issue) && b == RaceFinding(dev.Effects(id)[k], issue)
  }

  /** The least facts that hold at the entry and are carried over by every statement. */
  ghost predicate IsLeast(dev: Device, cfg: seq<Node>, entry: nat, table: Table)
  {
    && IsSolution(dev, cfg, entry, Sources(cfg), table)
    && forall k :: k in table ==> IsNeeded(dev, cfg, entry, Sources(cfg), k, table[k])
  }

  /** The buffer findings are those of the least facts. */
  ghost predicate BuffersAreExact(dev: Device, cfg: seq<Node>, entry: nat, info: Info)
    requires WellLinked(cfg)
  {
    && (exists table :: IsLeast(dev, cfg, entry, table))
    && forall table, b :: IsLeast(dev, cfg, entry, table) ==>
         (b in info.bufferFindings <==> exists k :: k in table && Reports(dev, cfg, k, table[k], b))
  }

  ghost predicate PendsOnSomePath(dev: Device, cfg: seq<Node>, entry: nat, k: Key, i: nat)
    requires i < |dev.names|
  {
    exists p :: Reaches(dev, cfg, entry, p, k) && After(dev, Trace(cfg, p)).live[i].Some?
  }

  /** The contexts with a transfer in flight on some path to `k`. */
  ghost function MayBePending(dev: Device, cfg: seq<Node>, entry: nat, k: Key): set<nat>
  {
    set i: nat | i < |dev.names| && PendsOnSomePath(dev, cfg, entry, k, i)
  }

  /** The bound is the largest number of contexts that may hold a transfer where one is issued. */
  ghost predicate BoundIsExact(dev: Device, cfg: seq<Node>, entry: nat, info: Info)
  {
    && (forall k, owner: nat :: IsReached(dev, cfg, entry, k) && IssuesAt(dev, cfg, k, owner) ==>
          |MayBePending(dev, cfg, entry, k) + {owner}| <= info.pendingBound)
    && (info.pendingBound == 0 || exists k, owner: nat ::
          IsReached(dev, cfg, entry, k) && IssuesAt(dev, cfg, k, owner)
          && |MayBePending(dev, cfg, entry, k) + {owner}| == info.pendingBound)
  }

  /** Paths that lead to the same point with the same binding leave everything in the same state. */
  ghost predicate PathsAgree(dev: Device, cfg: seq<Node>, entry: nat)
  {
    forall k, p, q :: Reaches(dev, cfg, entry, p, k) && Reaches(dev, cfg, entry, q, k) ==>
      After(dev, Trace(cfg, p)) == After(dev, Trace(cfg, q))
  }

  ghost predicate HasRead(dev: Device, b: BufferFinding)
  {
    exists t, id, k: nat ::
      DeviceRun(dev, t + [id]) && ReadsUninitialized(dev, After(dev, t), id, k)
      && b == BufferFinding(dev.Effects(id)[k].stmt, None, dev.Effects(id)[k].buffer, "BUFFER_INITIALIZATION_UNPROVEN")
  }

  /** Where paths agree and no context is misused, a read is reported exactly if it reads a buffer that nothing has
    initialised on some run. */
  ghost predicate ReadsAreExact(dev: Device, cfg: seq<Node>, entry: nat, info: Info)
  {
    info.findings == [] && PathsAgree(dev, cfg, entry) ==>
      forall b: BufferFinding :: b.issue.None? ==> (b in info.bufferFindings <==> HasRead(dev, b))
  }

  // ----- from certificates to guarantees -----

  ghost predicate Proved(dev: Device, cfg: seq<Node>, entry: nat, table: Table, info: Info, unproven: set<nat>)
  {
    && Certified(dev, cfg, entry, Sources(cfg), table, info, unproven) && Earned(dev, info, unproven)
    && Grounded(dev, cfg, entry, Sources(cfg), info)
  }

  lemma RunCovered(dev: Device, cfg: seq<Node>, entry: nat, table: Table, info: Info, unproven: set<nat>,
                   t: seq<NodeId>)
    returns (p: seq<nat>)
    requires Proved(dev, cfg, entry, table, info, unproven) && DeviceRun(dev, t)
    ensures IsPath(cfg, p) && p[0] == entry && Trace(cfg, p) == t
    ensures Covered(dev, table, info, unproven, p[|p| - 1], After(dev, t))
  {
    GraphIsExact(dev.Visible(), cfg, dev.root, entry, t);
    p :| IsPath(cfg, p) && p[0] == entry && Trace(cfg, p) == t;
    PathCovered(dev, cfg, entry, Sources(cfg), table, info, unproven, p);
  }

  lemma StatementCovered(dev: Device, cfg: seq<Node>, entry: nat, table: Table, info: Info, unproven: set<nat>,
                         t: seq<NodeId>, id: NodeId)
    returns (pc: nat)
    requires Proved(dev, cfg, entry, table, info, unproven) && DeviceRun(dev, t + [id])
    ensures 0 < pc < |cfg| && cfg[pc].source == Some(id)
    ensures Covered(dev, table, info, unproven, pc, After(dev, t))
    ensures Accounted(dev, info, unproven, During(dev, id, After(dev, t)))
  {
    hide IsNeeded, Witnessed, Traced, Earned, Grounded, Settled, Step;
    var p := RunCovered(dev, cfg, entry, table, info, unproven, t + [id]);
    LastHop(dev, cfg, p);
    var q := p[..|p| - 1];
    pc := q[|q| - 1];
    assert Trace(cfg, p)[|p| - 2] == id;
    assert Trace(cfg, q) == t by { assert Trace(cfg, p)[..|p| - 2] == t; }
    PathCovered(dev, cfg, entry, Sources(cfg), table, info, unproven, q);
    HopCovered(dev, cfg, entry, Sources(cfg), table, info, unproven, pc, p[|p| - 1], After(dev, t));
  }

  lemma MomentAccounted(dev: Device, cfg: seq<Node>, entry: nat, table: Table, info: Info, unproven: set<nat>, s: State)
    requires Proved(dev, cfg, entry, table, info, unproven) && Moment(dev, s)
    ensures Accounted(dev, info, unproven, s)
  {
    if t :| DeviceRun(dev, t) && s == After(dev, t) {
      var p := RunCovered(dev, cfg, entry, table, info, unproven, t);
    } else {
      var t, id :| DeviceRun(dev, t + [id]) && s == During(dev, id, After(dev, t));
      var pc := StatementCovered(dev, cfg, entry, table, info, unproven, t, id);
    }
  }

  lemma MisuseIsSuspected(dev: Device, cfg: seq<Node>, entry: nat, table: Table, info: Info, unproven: set<nat>, i: nat)
    requires Proved(dev, cfg, entry, table, info, unproven) && i < |dev.names| && Misused(dev, i)
    ensures i in unproven
  {
    if t :| DeviceRun(dev, t) && i in After(dev, t).lost {
      var p := RunCovered(dev, cfg, entry, table, info, unproven, t);
    } else {
      var t :| FinishedDeviceRun(dev, t) && i in After(dev, t).LiveSet();
      GraphIsExact(dev.Visible(), cfg, dev.root, entry, t);
      var p :| IsPath(cfg, p) && p[0] == entry && Trace(cfg, p) == t && p[|p| - 1] == 0;
      PathCovered(dev, cfg, entry, Sources(cfg), table, info, unproven, p);
      var k := Key(0, After(dev, t).binding);
      assert Settled(dev, cfg, table, info, unproven, k);
    }
  }

  /** The final table is exact: its keys are the points and bindings some path reaches, a context
    is marked pending at a key exactly when some path reaches that key with a transfer in flight
    on it, and every promised fact holds on all of those paths. */
  lemma TableIsExact(dev: Device, cfg: seq<Node>, entry: nat, table: Table, info: Info, unproven: set<nat>, k: Key)
    requires Proved(dev, cfg, entry, table, info, unproven)
    ensures k in table <==> exists p :: Reaches(dev, cfg, entry, p, k)
    ensures k in table ==> IsPermutation(k.binding) && |table[k].pending| == |table[k].must| == |dev.names|
    ensures k in table ==> forall i :: 0 <= i < |dev.names| ==>
              (table[k].pending[i] <==>
                exists p :: Reaches(dev, cfg, entry, p, k) && After(dev, Trace(cfg, p)).live[i].Some?)
    ensures k in table ==> forall i, p :: 0 <= i < |dev.names| && table[k].must[i] && Reaches(dev, cfg, entry, p, k) ==>
              After(dev, Trace(cfg, p)).live[i].Some?
  {
    forall p | Reaches(dev, cfg, entry, p, k)
      ensures k in table && Covers(dev, After(dev, Trace(cfg, p)), k.binding, table[k])
    {
      PathCovered(dev, cfg, entry, Sources(cfg), table, info, unproven, p);
    }
    if k in table {
      assert EntryOk(dev, cfg, entry, Sources(cfg), k, table[k]);
    }
  }

  /** The report after suspect contexts have been made to conflict with every other. */
  ghost predicate Final(dev: Device, info: Info, info': Info, unproven: set<nat>)
  {
    && info'.findings == info.findings && info'.bufferFindings == info.bufferFindings
    && info'.pendingBound == info.pendingBound && info'.fallback == info.fallback
    && (forall c :: c in info'.conflicts <==> c in info.conflicts || SuspectPair(dev, unproven, c))
  }

  ghost predicate SuspectPair(dev: Device, unproven: set<nat>, c: set<string>)
  {
    exists i: nat, j: nat :: i in unproven && i < |dev.names| && j < |dev.names| && i != j
                             && c == {dev.names[i], dev.names[j]}
  }

  lemma SharingProved(dev: Device, cfg: seq<Node>, entry: nat, table: Table, info: Info, info': Info,
                      unproven: set<nat>)
    requires Proved(dev, cfg, entry, table, info, unproven) && Final(dev, info, info', unproven) && dev.Valid()
    ensures SharingIsSafe(dev, info') && NoRunEscapes(dev) && BoundHolds(dev, info')
  {
    MatchedSuspects(dev, info.findings, unproven);
    forall s | Moment(dev, s)
      ensures Accounted(dev, info, unproven, s)
    {
      MomentAccounted(dev, cfg, entry, table, info, unproven, s);
    }
    forall s, i: nat, j: nat
      | Moment(dev, s) && i < |dev.names| && j < |dev.names| && i != j && s.Pending(i) && s.Pending(j)
      ensures info'.Interferes(dev.names[i], dev.names[j])
    {
      PendingPair(dev, info, info', unproven, s, i, j);
    }
  }

  lemma PendingPair(dev: Device, info: Info, info': Info, unproven: set<nat>, s: State, i: nat, j: nat)
    requires Accounted(dev, info, unproven, s) && Final(dev, info, info', unproven)
    requires i < |dev.names| && j < |dev.names| && i != j && s.Pending(i) && s.Pending(j)
    ensures {dev.names[i], dev.names[j]} in info'.conflicts
  {
    if i in s.lost {
      assert SuspectPair(dev, unproven, {dev.names[i], dev.names[j]});
    } else if j in s.lost {
      assert {dev.names[i], dev.names[j]} == {dev.names[j], dev.names[i]};
      assert SuspectPair(dev, unproven, {dev.names[i], dev.names[j]});
    }
  }

  lemma FindingsProved(dev: Device, cfg: seq<Node>, entry: nat, table: Table, info: Info, unproven: set<nat>)
    requires Proved(dev, cfg, entry, table, info, unproven) && dev.Valid()
    ensures FindingsAreExact(dev, info)
    ensures info.findings == [] <==> unproven == {}
    ensures forall i :: 0 <= i < |dev.names| ==> (i in unproven <==> Misused(dev, i))
    ensures forall i :: i in unproven ==> i < |dev.names|
  {
    MatchedSuspects(dev, info.findings, unproven);
    forall i | 0 <= i < |dev.names| && Misused(dev, i) ensures i in unproven
    {
      MisuseIsSuspected(dev, cfg, entry, table, info, unproven, i);
    }
    forall f | FindingHappens(dev, f) ensures f in info.findings
    {
      FindingIsRecorded(dev, cfg, entry, table, info, unproven, f);
    }
  }

  lemma FindingIsRecorded(dev: Device, cfg: seq<Node>, entry: nat, table: Table, info: Info, unproven: set<nat>,
                          f: Finding)
    requires Proved(dev, cfg, entry, table, info, unproven) && FindingHappens(dev, f)
    ensures f in info.findings
  {
    hide Earned, Grounded, TableOk;
    var i: nat :| i < |dev.names| && IsShown(dev, f, i);
    if f.source.None? {
      var t :| FinishedDeviceRun(dev, t) && i in After(dev, t).LiveSet();
      GraphIsExact(dev.Visible(), cfg, dev.root, entry, t);
      var p :| IsPath(cfg, p) && p[0] == entry && Trace(cfg, p) == t && p[|p| - 1] == 0;
      PathCovered(dev, cfg, entry, Sources(cfg), table, info, unproven, p);
      assert Settled(dev, cfg, table, info, unproven, Key(0, After(dev, t).binding));
    } else {
      var id := f.source.value;
      var t :| DeviceRun(dev, t + [id]) && !After(dev, t).escaped
        && Reused(dev, id, After(dev, t).binding) == Some(i) && i in After(dev, t).LiveSet();
      var pc := StatementCovered(dev, cfg, entry, table, info, unproven, t, id);
      assert Settled(dev, cfg, table, info, unproven, Key(pc, After(dev, t).binding));
    }
  }

  lemma MatchedSuspects(dev: Device, findings: seq<Finding>, unproven: set<nat>)
    requires Matched(dev, findings, unproven) && dev.Valid()
    ensures forall i :: 0 <= i < |dev.names| ==> (HasFinding(dev, findings, i) <==> i in unproven)
    ensures findings == [] <==> unproven == {}
    ensures forall i :: i in unproven ==> i < |dev.names|
  {
    forall i | 0 <= i < |dev.names| && HasFinding(dev, findings, i) ensures i in unproven
    {
      var f :| f in findings && f.resource == dev.names[i];
      assert Blames(dev, f, unproven);
    }
    if unproven != {} {
      var i :| i in unproven;
      assert HasFinding(dev, findings, i);
    }
    if findings != [] {
      assert Blames(dev, findings[0], unproven);
    }
  }

  lemma ConflictsProved(dev: Device, cfg: seq<Node>, entry: nat, table: Table, info: Info, info': Info,
                        unproven: set<nat>)
    requires Proved(dev, cfg, entry, table, info, unproven) && Final(dev, info, info', unproven) && dev.Valid()
    ensures ConflictsAreExact(dev, info')
  {
    FindingsProved(dev, cfg, entry, table, info, unproven);
    forall i: nat, j: nat | i < |dev.names| && j < |dev.names| && i != j
      ensures {dev.names[i], dev.names[j]} in info'.conflicts
              <==> BusyTogether(dev, i, j) || BusyTogether(dev, j, i) || Misused(dev, i) || Misused(dev, j)
    {
      FinalPair(dev, info, info', unproven, i, j);
      if BusyTogether(dev, i, j) || BusyTogether(dev, j, i) {
        BusyConflicts(dev, cfg, entry, table, info, unproven, i, j);
      }
      if {dev.names[i], dev.names[j]} in info.conflicts {
        EarnedPair(dev, i, j);
      }
    }
  }

  lemma EarnedPair(dev: Device, i: nat, j: nat)
    requires dev.Valid() && i < |dev.names| && j < |dev.names| && i != j
    requires EarnedConflict(dev, {dev.names[i], dev.names[j]})
    ensures BusyTogether(dev, i, j) || BusyTogether(dev, j, i)
  {
    var a: nat, b: nat :| a < |dev.names| && b < |dev.names| && a != b
                          && {dev.names[i], dev.names[j]} == {dev.names[a], dev.names[b]} && BusyTogether(dev, a, b);
    SamePair(dev, i, j, a, b);
  }

  lemma FinalPair(dev: Device, info: Info, info': Info, unproven: set<nat>, i: nat, j: nat)
    requires dev.Valid() && i < |dev.names| && j < |dev.names| && i != j && Final(dev, info, info', unproven)
    ensures var c := {dev.names[i], dev.names[j]};
            c in info'.conflicts <==> c in info.conflicts || i in unproven || j in unproven
  {
    var c := {dev.names[i], dev.names[j]};
    assert c == {dev.names[j], dev.names[i]};
    if i in unproven || j in unproven {
      assert SuspectPair(dev, unproven, c);
    }
    if SuspectPair(dev, unproven, c) {
      var a: nat, b: nat :| a in unproven && a < |dev.names| && b < |dev.names| && a != b
                            && c == {dev.names[a], dev.names[b]};
      SamePair(dev, i, j, a, b);
    }
  }

  lemma SamePair(dev: Device, i: nat, j: nat, a: nat, b: nat)
    requires dev.Valid() && i < |dev.names| && j < |dev.names| && a < |dev.names| && b < |dev.names| && i != j
    requires {dev.names[i], dev.names[j]} == {dev.names[a], dev.names[b]}
    ensures (a == i && b == j) || (a == j && b == i)
  {
    assert dev.names[i] in {dev.names[a], dev.names[b]} && dev.names[j] in {dev.names[a], dev.names[b]};
  }

  lemma BusyConflicts(dev: Device, cfg: seq<Node>, entry: nat, table: Table, info: Info, unproven: set<nat>, i: nat,
                      j: nat)
    requires Proved(dev, cfg, entry, table, info, unproven) && i < |dev.names| && j < |dev.names| && i != j
    requires BusyTogether(dev, i, j) || BusyTogether(dev, j, i)
    ensures {dev.names[i], dev.names[j]} in info.conflicts
  {
    var a, b := if BusyTogether(dev, i, j) then i else j, if BusyTogether(dev, i, j) then j else i;
    var t, id :| DeviceRun(dev, t + [id])
      && a in During(dev, id, After(dev, t)).LiveSet() && b in During(dev, id, After(dev, t)).LiveSet();
    var pc := StatementCovered(dev, cfg, entry, table, info, unproven, t, id);
    assert {dev.names[i], dev.names[j]} == {dev.names[a], dev.names[b]};
  }

  lemma BuffersProved(dev: Device, cfg: seq<Node>, entry: nat, table: Table, info: Info, unproven: set<nat>)
    requires Proved(dev, cfg, entry, table, info, unproven) && dev.Valid()
    ensures BuffersAreReported(dev, info)
  {
    FindingsProved(dev, cfg, entry, table, info, unproven);
    forall t, id | DeviceRun(dev, t + [id])
      ensures forall k: nat, issue :: Races(dev, After(dev, t), id, k, issue) ==>
                var a := dev.Effects(id)[k];
                BufferFinding(a.stmt, Some(issue), a.buffer, ClashCode(a)) in info.bufferFindings
      ensures info.findings == [] ==>
                forall k: nat :: ReadsUninitialized(dev, After(dev, t), id, k) ==>
                  var a := dev.Effects(id)[k];
                  BufferFinding(a.stmt, None, a.buffer, "BUFFER_INITIALIZATION_UNPROVEN") in info.bufferFindings
    {
      var pc := StatementCovered(dev, cfg, entry, table, info, unproven, t, id);
      var s := After(dev, t);
      var k := Key(pc, s.binding);
      assert Settled(dev, cfg, table, info, unproven, k);
      assert AccessFindings(dev, table[k], dev.Effects(id)) <= info.bufferFindings;
      forall j: nat, issue | Races(dev, s, id, j, issue)
        ensures var a := dev.Effects(id)[j];
                BufferFinding(a.stmt, Some(issue), a.buffer, ClashCode(a)) in info.bufferFindings
      {
        RaceFound(dev, s, table[k], id, j, issue);
      }
      if info.findings == [] {
        forall j: nat | ReadsUninitialized(dev, s, id, j)
          ensures var a := dev.Effects(id)[j];
                  BufferFinding(a.stmt, None, a.buffer, "BUFFER_INITIALIZATION_UNPROVEN") in info.bufferFindings
        {
          ReadFound(dev, s, table[k], id, j);
        }
      }
    }
  }

  lemma RacesProved(dev: Device, cfg: seq<Node>, entry: nat, table: Table, info: Info, unproven: set<nat>)
    requires Proved(dev, cfg, entry, table, info, unproven) && dev.Valid()
    ensures RacesAreReal(dev, info)
  {
    hide Certified, Races;
    FindingsProved(dev, cfg, entry, table, info, unproven);
    if info.findings == [] {
      forall b | b in info.bufferFindings && b.issue.Some? ensures HasRace(dev, b)
      {
        assert EarnedRace(dev, b);
        var t, id, k: nat, issue :| RaceShown(dev, b, t, id, k, issue);
        var pc := StatementCovered(dev, cfg, entry, table, info, unproven, t, id);
        assert After(dev, t).lost <= unproven;
      }
    }
  }

  lemma {:induction false} FindingsOfAccess(dev: Device, f: Fact, accesses: seq<Access>, k: nat)
    requires |f.pending| == |f.transfers| && k < |accesses|
    ensures ClashFindings(dev, f, accesses[k]) <= AccessFindings(dev, f, accesses)
    ensures NeedsInitialized(accesses[k]) && accesses[k].buffer !in AfterAccesses(accesses[..k], f.initialized) ==>
              BufferFinding(accesses[k].stmt, None, accesses[k].buffer, "BUFFER_INITIALIZATION_UNPROVEN")
              in AccessFindings(dev, f, accesses)
    decreases |accesses|
  {
    var before := accesses[..|accesses| - 1];
    if k < |accesses| - 1 {
      FindingsOfAccess(dev, f, before, k);
      assert before[..k] == accesses[..k];
    }
  }

  lemma RaceFound(dev: Device, s: State, f: Fact, id: NodeId, k: nat, issue: NodeId)
    requires Covers(dev, s, s.binding, f) && Races(dev, s, id, k, issue)
    ensures var a := dev.Effects(id)[k];
            BufferFinding(a.stmt, Some(issue), a.buffer, ClashCode(a)) in AccessFindings(dev, f, dev.Effects(id))
  {
    var a := dev.Effects(id)[k];
    var i :| 0 <= i < |s.live| && s.live[i] == Some(issue);
    var transfer :| transfer in dev.Effects(issue) && Clash(transfer, a);
    FindingsOfAccess(dev, f, dev.Effects(id), k);
    assert BufferFinding(a.stmt, Some(issue), a.buffer, ClashCode(a)) in ClashFindings(dev, f, a);
  }

  lemma ReadFound(dev: Device, s: State, f: Fact, id: NodeId, k: nat)
    requires Covers(dev, s, s.binding, f) && s.lost == {} && ReadsUninitialized(dev, s, id, k)
    ensures var a := dev.Effects(id)[k];
            BufferFinding(a.stmt, None, a.buffer, "BUFFER_INITIALIZATION_UNPROVEN")
              in AccessFindings(dev, f, dev.Effects(id))
  {
    AccessesMonotone(dev.Effects(id)[..k], f.initialized, s.initialized);
    FindingsOfAccess(dev, f, dev.Effects(id), k);
  }

  // ----- the buffer findings are exact -----

  lemma {:induction false} MoreFindings(dev: Device, f: Fact, g: Fact, accesses: seq<Access>)
    requires |f.pending| == |f.transfers| && |g.pending| == |g.transfers| && Leq(f, g)
    ensures AccessFindings(dev, f, accesses) <= AccessFindings(dev, g, accesses)
    decreases |accesses|
  {
    hide AfterAccesses;
    if accesses != [] {
      var last, before := accesses[|accesses| - 1], accesses[..|accesses| - 1];
      MoreFindings(dev, f, g, before);
      AccessesMonotone(before, g.initialized, f.initialized);
      assert ClashFindings(dev, f, last) <= ClashFindings(dev, g, last);
    }
  }

  lemma LeastIsUnique(dev: Device, cfg: seq<Node>, entry: nat, a: Table, b: Table)
    requires IsLeast(dev, cfg, entry, a) && IsLeast(dev, cfg, entry, b)
    ensures a == b
  {
    hide IsSolution, Leq;
    forall k | k in a ensures k in b && a[k] == b[k] {
      assert IsNeeded(dev, cfg, entry, Sources(cfg), k, a[k]) && IsNeeded(dev, cfg, entry, Sources(cfg), k, b[k]);
      LeqAntisymmetric(a[k], b[k]);
    }
    forall k | k in b ensures k in a {
      assert IsNeeded(dev, cfg, entry, Sources(cfg), k, b[k]);
    }
  }

  lemma LeqAntisymmetric(f: Fact, g: Fact)
    requires Leq(f, g) && Leq(g, f)
    ensures f == g
  {
    assert f.pending == g.pending && f.must == g.must;
    forall i | 0 <= i < |f.transfers| ensures f.transfers[i] == g.transfers[i] {}
    assert f.transfers == g.transfers;
  }

  lemma BufferFindingsProved(dev: Device, cfg: seq<Node>, entry: nat, table: Table, info: Info, unproven: set<nat>)
    requires Proved(dev, cfg, entry, table, info, unproven)
    ensures WellLinked(cfg) && IsLeast(dev, cfg, entry, table) && BuffersAreExact(dev, cfg, entry, info)
  {
    hide EntryOk, AccessFindings, IsSolution, IsNeeded, Earned;
    CertifiedIsLeast(dev, cfg, entry, Sources(cfg), table, info, unproven);
    forall b ensures b in info.bufferFindings <==> exists k :: k in table && Reports(dev, cfg, k, table[k], b) {
      if b in info.bufferFindings {
        var k := ReportedAtKey(dev, cfg, entry, table, info, b);
      }
      forall k | k in table && Reports(dev, cfg, k, table[k], b) ensures b in info.bufferFindings {
        assert Settled(dev, cfg, table, info, unproven, k);
      }
    }
    forall other, b | IsLeast(dev, cfg, entry, other)
      ensures b in info.bufferFindings <==> exists k :: k in other && Reports(dev, cfg, k, other[k], b)
    {
      LeastIsUnique(dev, cfg, entry, table, other);
    }
  }

  lemma ReportedAtKey(dev: Device, cfg: seq<Node>, entry: nat, table: Table, info: Info, b: BufferFinding)
    returns (k: Key)
    requires IsSolution(dev, cfg, entry, Sources(cfg), table) && Grounded(dev, cfg, entry, Sources(cfg), info)
    requires b in info.bufferFindings
    ensures WellLinked(cfg) && k in table && Reports(dev, cfg, k, table[k], b)
  {
    hide Witnessed, Traced, AccessFindings;
    assert IsGrounded(dev, cfg, entry, Sources(cfg), b);
    var x: Key, f: Fact :| EntryOk(dev, cfg, entry, Sources(cfg), x, f) && Reports(dev, cfg, x, f, b);
    k := x;
    assert IsNeeded(dev, cfg, entry, Sources(cfg), k, f);
    assert Solves(dev, cfg, Sources(cfg), table, k);
    MoreFindings(dev, f, table[k], dev.Effects(cfg[k.pc].source.value));
  }

  // ----- the bound is exact -----

  lemma DemandIsSize(f: Fact, owner: nat)
    requires owner < |f.pending|
    ensures var may := set i: nat | i < |f.pending| && f.pending[i]; Demand(f, owner) == |may + {owner}|
  {
    var may := set i: nat | i < |f.pending| && f.pending[i];
    assert may == set i | 0 <= i < |f.pending| && f.pending[i];
    CountIsCardinality(f.pending);
    if f.pending[owner] { assert may + {owner} == may; }
  }

  lemma DemandMonotone(f: Fact, g: Fact, owner: nat)
    requires Leq(f, g) && owner < |f.pending|
    ensures Demand(f, owner) <= Demand(g, owner)
  {
    DemandIsSize(f, owner);
    DemandIsSize(g, owner);
    SmallerSet((set i: nat | i < |f.pending| && f.pending[i]) + {owner},
               (set i: nat | i < |g.pending| && g.pending[i]) + {owner});
  }

  lemma DemandAt(dev: Device, cfg: seq<Node>, entry: nat, table: Table, info: Info, unproven: set<nat>, k: Key,
                 owner: nat)
    requires Proved(dev, cfg, entry, table, info, unproven) && k in table && owner < |dev.names|
    ensures |table[k].pending| == |dev.names|
    ensures Demand(table[k], owner) == |MayBePending(dev, cfg, entry, k) + {owner}|
  {
    hide Proved, Demand;
    TableIsExact(dev, cfg, entry, table, info, unproven, k);
    DemandIsSize(table[k], owner);
    assert MayBePending(dev, cfg, entry, k) == set i: nat | i < |table[k].pending| && table[k].pending[i];
  }

  lemma BoundProved(dev: Device, cfg: seq<Node>, entry: nat, table: Table, info: Info, unproven: set<nat>)
    requires Proved(dev, cfg, entry, table, info, unproven)
    ensures BoundIsExact(dev, cfg, entry, info)
  {
    hide MayBePending, Demand, Witnessed, Traced, Earned, IsNeeded, Leq, Linked;
    forall k, owner: nat | IsReached(dev, cfg, entry, k) && IssuesAt(dev, cfg, k, owner)
      ensures |MayBePending(dev, cfg, entry, k) + {owner}| <= info.pendingBound
    {
      TableIsExact(dev, cfg, entry, table, info, unproven, k);
      assert Settled(dev, cfg, table, info, unproven, k);
      DemandAt(dev, cfg, entry, table, info, unproven, k, owner);
    }
    if info.pendingBound != 0 {
      var k, f, owner: nat :| DemandedAt(dev, cfg, entry, Sources(cfg), k, f, owner, info.pendingBound);
      BoundIsAttained(dev, cfg, entry, table, info, unproven, k, f, owner);
    }
  }

  lemma BoundIsAttained(dev: Device, cfg: seq<Node>, entry: nat, table: Table, info: Info, unproven: set<nat>, k: Key,
                        f: Fact, owner: nat)
    requires Proved(dev, cfg, entry, table, info, unproven)
    requires DemandedAt(dev, cfg, entry, Sources(cfg), k, f, owner, info.pendingBound)
    ensures IsReached(dev, cfg, entry, k) && IssuesAt(dev, cfg, k, owner)
    ensures |MayBePending(dev, cfg, entry, k) + {owner}| == info.pendingBound
  {
    hide MayBePending, Demand, Traced, Earned, Leq, Linked;
    CertifiedIsLeast(dev, cfg, entry, Sources(cfg), table, info, unproven);
    assert IsNeeded(dev, cfg, entry, Sources(cfg), k, f);
    assert k in table && Leq(f, table[k]) && Settled(dev, cfg, table, info, unproven, k);
    DemandMonotone(f, table[k], owner);
    DemandAt(dev, cfg, entry, table, info, unproven, k, owner);
  }

  // ----- reads are exact where paths agree -----

  ghost function SomePath(dev: Device, cfg: seq<Node>, entry: nat, k: Key): (p: seq<nat>)
    requires IsReached(dev, cfg, entry, k)
    ensures Reaches(dev, cfg, entry, p, k)
  {
    var p :| Reaches(dev, cfg, entry, p, k); p
  }

  /** The state at a key that is reached, and facts that say all about it. */
  ghost function FactsAt(dev: Device, cfg: seq<Node>, entry: nat, k: Key): Fact
    requires IsReached(dev, cfg, entry, k)
  {
    FactsOf(dev, After(dev, Trace(cfg, SomePath(dev, cfg, entry, k))))
  }

  lemma FactsAtIsOk(dev: Device, cfg: seq<Node>, entry: nat, table: Table, info: Info, unproven: set<nat>, k: Key)
    requires Proved(dev, cfg, entry, table, info, unproven) && k in table
    ensures IsReached(dev, cfg, entry, k) && FactOk(dev, Sources(cfg), FactsAt(dev, cfg, entry, k))
    ensures k.pc < |cfg| && |k.binding| == |dev.names| && IsPermutation(k.binding)
  {
    hide Traced, IsNeeded, Earned, Grounded, Settled;
    assert EntryOk(dev, cfg, entry, Sources(cfg), k, table[k]);
    var p := SomePath(dev, cfg, entry, k);
    PathCovered(dev, cfg, entry, Sources(cfg), table, info, unproven, p);
  }

  lemma FactsAtStep(dev: Device, cfg: seq<Node>, entry: nat, table: Table, info: Info, unproven: set<nat>, k: Key,
                    j: nat)
    requires Proved(dev, cfg, entry, table, info, unproven) && k in table && unproven == {}
    requires PathsAgree(dev, cfg, entry) && IsReached(dev, cfg, entry, k)
    requires 0 < k.pc < |cfg| && WellLinked(cfg) && j < |cfg[k.pc].successors|
    requires |k.binding| == |dev.names| && IsPermutation(k.binding)
    ensures var f := FactsAt(dev, cfg, entry, k);
            && |f.pending| == |f.must| == |f.transfers| == |dev.names|
            && var r := Transfer(dev, cfg[k.pc].source.value, k.binding, f);
               var to := Key(cfg[k.pc].successors[j], r.0);
               to in table && IsReached(dev, cfg, entry, to) && r.1 == FactsAt(dev, cfg, entry, to)
  {
    hide Transfer, FactsOf, Step, EntryOk;
    var p, id := SomePath(dev, cfg, entry, k), cfg[k.pc].source.value;
    var s, to := After(dev, Trace(cfg, p)), cfg[k.pc].successors[j];
    PathCovered(dev, cfg, entry, Sources(cfg), table, info, unproven, p);
    assert Settled(dev, cfg, table, info, unproven, k);
    FactsAtIsOk(dev, cfg, entry, table, info, unproven, k);
    WitnessOne(dev, cfg, entry, k, FactsAt(dev, cfg, entry, k), to, p);
    PathCovered(dev, cfg, entry, Sources(cfg), table, info, unproven, p + [to]);
    FactsOfStep(dev, Sources(cfg), id, s);
  }

  /** Where paths agree, the least facts say all about the state at each key. */
  lemma FactsAtSolve(dev: Device, cfg: seq<Node>, entry: nat, table: Table, info: Info, unproven: set<nat>)
    requires Proved(dev, cfg, entry, table, info, unproven) && unproven == {} && PathsAgree(dev, cfg, entry)
    ensures forall k :: k in table ==> IsReached(dev, cfg, entry, k) && Leq(table[k], FactsAt(dev, cfg, entry, k))
  {
    hide FactsAt, Leq, FactOk, Settled, TableOk, Earned, Grounded, Solves, PathsAgree;
    forall k | k in table
      ensures IsReached(dev, cfg, entry, k) && FactOk(dev, Sources(cfg), FactsAt(dev, cfg, entry, k))
      ensures k.pc < |cfg| && |k.binding| == |dev.names| && IsPermutation(k.binding)
    {
      FactsAtIsOk(dev, cfg, entry, table, info, unproven, k);
    }
    var facts: Table := map k | k in table :: FactsAt(dev, cfg, entry, k);
    StartIsSolved(dev, cfg, entry, table, info, unproven);
    forall k | k in facts ensures Solves(dev, cfg, Sources(cfg), facts, k) {
      FactsAtLinked(dev, cfg, entry, table, info, unproven, k, facts);
    }
    assert IsSolution(dev, cfg, entry, Sources(cfg), facts);
    BufferFindingsProved(dev, cfg, entry, table, info, unproven);
  }

  lemma StartIsSolved(dev: Device, cfg: seq<Node>, entry: nat, table: Table, info: Info, unproven: set<nat>)
    requires Proved(dev, cfg, entry, table, info, unproven) && PathsAgree(dev, cfg, entry)
    ensures var start := Key(entry, Identity(|dev.names|));
            && WellLinked(cfg) && start in table && IsReached(dev, cfg, entry, start)
            && Leq(NoFact(|dev.names|), FactsAt(dev, cfg, entry, start))
  {
    var start := Key(entry, Identity(|dev.names|));
    assert Trace(cfg, [entry]) == [];
    assert Reaches(dev, cfg, entry, [entry], start);
    assert After(dev, Trace(cfg, SomePath(dev, cfg, entry, start))) == Start(|dev.names|);
  }

  lemma FactsAtLinked(dev: Device, cfg: seq<Node>, entry: nat, table: Table, info: Info, unproven: set<nat>, k: Key,
                      facts: Table)
    requires Proved(dev, cfg, entry, table, info, unproven) && unproven == {} && PathsAgree(dev, cfg, entry)
    requires k in table && facts.Keys == table.Keys
    requires forall x :: x in table ==> IsReached(dev, cfg, entry, x) && facts[x] == FactsAt(dev, cfg, entry, x)
    ensures Solves(dev, cfg, Sources(cfg), facts, k)
  {
    hide FactsAt, EntryOk, Logged, Transfer, Leq;
    FactsAtIsOk(dev, cfg, entry, table, info, unproven, k);
    if k.pc != 0 {
      var r := Transfer(dev, cfg[k.pc].source.value, k.binding, facts[k]);
      forall j | 0 <= j < |cfg[k.pc].successors|
        ensures var to := Key(cfg[k.pc].successors[j], r.0); to in facts && Leq(r.1, facts[to])
      {
        FactsAtStep(dev, cfg, entry, table, info, unproven, k, j);
        LeqReflexive(r.1);
      }
    }
  }

  lemma LeqReflexive(f: Fact)
    requires |f.pending| == |f.must| == |f.transfers|
    ensures Leq(f, f)
  {
  }

  lemma {:induction false} ReadOfAccess(dev: Device, f: Fact, accesses: seq<Access>, b: BufferFinding) returns (k: nat)
    requires |f.pending| == |f.transfers| && b in AccessFindings(dev, f, accesses) && b.issue.None?
    ensures k < |accesses| && NeedsInitialized(accesses[k])
    ensures accesses[k].buffer !in AfterAccesses(accesses[..k], f.initialized)
    ensures b == BufferFinding(accesses[k].stmt, None, accesses[k].buffer, "BUFFER_INITIALIZATION_UNPROVEN")
    decreases |accesses|
  {
    var before := accesses[..|accesses| - 1];
    if b in AccessFindings(dev, f, before) {
      k := ReadOfAccess(dev, f, before, b);
      assert before[..k] == accesses[..k];
    } else {
      k := |accesses| - 1;
    }
  }

  lemma ReadsProved(dev: Device, cfg: seq<Node>, entry: nat, table: Table, info: Info, unproven: set<nat>)
    requires Proved(dev, cfg, entry, table, info, unproven) && dev.Valid()
    ensures ReadsAreExact(dev, cfg, entry, info)
  {
    hide Proved, AccessFindings, ReadsUninitialized;
    FindingsProved(dev, cfg, entry, table, info, unproven);
    BuffersProved(dev, cfg, entry, table, info, unproven);
    if info.findings == [] && PathsAgree(dev, cfg, entry) {
      forall b: BufferFinding | b.issue.None? && b in info.bufferFindings ensures HasRead(dev, b) {
        ReadIsReal(dev, cfg, entry, table, info, unproven, b);
      }
    }
  }

  lemma ReadIsReal(dev: Device, cfg: seq<Node>, entry: nat, table: Table, info: Info, unproven: set<nat>,
                   b: BufferFinding)
    requires Proved(dev, cfg, entry, table, info, unproven) && unproven == {} && PathsAgree(dev, cfg, entry)
    requires b.issue.None? && b in info.bufferFindings
    ensures HasRead(dev, b)
  {
    hide AccessFindings, AfterAccesses, Step, EntryOk, IsNeeded;
    BufferFindingsProved(dev, cfg, entry, table, info, unproven);
    FactsAtSolve(dev, cfg, entry, table, info, unproven);
    var k := ReportedAtKey(dev, cfg, entry, table, info, b);
    var p, id := SomePath(dev, cfg, entry, k), cfg[k.pc].source.value;
    var s := After(dev, Trace(cfg, p));
    var q := Extend(dev, cfg, entry, p, cfg[k.pc].successors[0]);
    var n := ReadOfAccess(dev, table[k], dev.Effects(id), b);
    if dev.participantLocal {
      AccessesMonotone(dev.Effects(id)[..n], s.initialized, table[k].initialized);
    }
    assert ReadsUninitialized(dev, s, id, n);
    assert DeviceRun(dev, Trace(cfg, p) + [id]);
  }

  // ----- a small device -----

  /** A transfer fills a local buffer, the device waits for it and reads the buffer. */
  function FillWaitRead(): Device {
    Device(Seq([Leaf(1), Leaf(2), Leaf(3)]), ["f"],
           map[1 := Action(Issue, ["f"], true, false), 2 := Action(Wait, ["f"], false, false)],
           map[1 := [Access(WRITE, 1, "b", true, false, true)], 3 := [Access(READ, 3, "b", true, false, false)]],
           true, {THREAD}, 1, "")
  }

  lemma FillingState()
    ensures After(FillWaitRead(), [1]) == State([0], [Some(1)], {}, {}, false)
  {
    hide AfterAccesses, Handles, Written, IndexOf, RotateBinding;
    var dev := FillWaitRead();
    OneHandle();
    assert [1][..0] == [] && After(dev, [1]) == Step(dev, 1, After(dev, []));
    LastAllocationDecides(dev.Effects(1), {}, "b");
    NoAllocation(dev.Effects(1), {});
    assert Start(1).live == [None] && Start(1).binding == [0];
  }

  lemma {:induction false} NoAllocation(accesses: seq<Access>, initialized: set<string>)
    requires forall k :: 0 <= k < |accesses| ==> !accesses[k].allocation
    ensures AfterAccesses(accesses, initialized) == initialized
    decreases |accesses|
  {
    if accesses != [] { NoAllocation(accesses[..|accesses| - 1], initialized); }
  }

  lemma OneHandle()
    ensures Handles(["f"], ["f"]) == [0]
  {
    assert IndexOf(["f"], "f") == Some(0) && ["f"][1..] == [];
  }

  lemma FilledState()
    ensures After(FillWaitRead(), [1, 2]) == State([0], [None], {}, {"b"}, false)
  {
    hide AfterAccesses;
    var dev := FillWaitRead();
    FillingState();
    OneHandle();
    assert [1, 2][..1] == [1];
    var s := After(dev, [1]);
    assert dev.Effects(2) == [];
    NoAllocation(dev.Effects(2), {});
    assert During(dev, 2, s) == s;
    assert Written(dev, 1) == {"b"} by { assert dev.Effects(1)[0] in dev.Effects(1); }
    assert CompleteAll(dev, s, [0]) == CompleteAll(dev, Complete(dev, s, 0), []) by { assert [0][1..] == []; }
  }

  /** Before the wait the read races with the transfer and finds nothing initialised, after it neither. */
  lemma WaitMakesReadSafe()
    ensures var dev, filling, filled := FillWaitRead(), After(FillWaitRead(), [1]), After(FillWaitRead(), [1, 2]);
            && Races(dev, filling, 3, 0, 1) && ReadsUninitialized(dev, filling, 3, 0)
            && !Races(dev, filled, 3, 0, 1) && !ReadsUninitialized(dev, filled, 3, 0)
            && ClashCode(dev.Effects(3)[0]) == "BUFFER_READ_BEFORE_DMA_COMPLETE"
            && ClashCode(dev.Effects(1)[0]) == "BUFFER_WRITE_WHILE_DMA_PENDING"
  {
    hide After;
    var dev := FillWaitRead();
    FillingState();
    FilledState();
    assert After(dev, [1]).live[0] == Some(1);
    assert dev.Effects(1)[0] in dev.Effects(1) && Clash(dev.Effects(1)[0], dev.Effects(3)[0]);
    assert dev.Effects(3)[..0] == [];
  }

  /** Reads clash with writes of the same buffer, and with nothing else; writes clash with both. */
  lemma ClashesOf(a: Access, b: Access)
    ensures Clash(a, b) == Clash(b, a) && (Clash(a, b) ==> a.buffer == b.buffer)
    ensures a.buffer == b.buffer ==> (Clash(a, b) <==> WRITE in {a.kind, b.kind})
  {
    assert a.kind == READ || a.kind == WRITE;
  }

  // ----- the analysis -----

  /** Makes every suspect context conflict with every other one. */
  method AddSuspects(dev: Device, unproven: set<nat>, known: set<set<string>>) returns (conflicts: set<set<string>>)
    requires forall i :: i in unproven ==> i < |dev.names|
    ensures forall c :: c in conflicts <==> c in known || SuspectPair(dev, unproven, c)
  {
    conflicts := known;
    var left := unproven;
    while left != {}
      invariant left <= unproven
      invariant forall c :: c in conflicts <==> c in known || SuspectPair(dev, unproven - left, c)
      decreases |left|
    {
      var owner :| owner in left;
      ghost var before := conflicts;
      for other := 0 to |dev.names|
        invariant forall c :: c in conflicts <==>
                    c in before || exists j: nat :: j < other && j != owner && c == {dev.names[owner], dev.names[j]}
      {
        if owner != other {
          conflicts := conflicts + {{dev.names[owner], dev.names[other]}};
        }
      }
      SuspectsSplit(dev, unproven - left, owner);
      assert unproven - (left - {owner}) == (unproven - left) + {owner};
      left := left - {owner};
    }
    assert unproven - {} == unproven;
  }

  lemma SuspectsSplit(dev: Device, done: set<nat>, owner: nat)
    requires owner < |dev.names|
    ensures forall c :: SuspectPair(dev, done + {owner}, c) <==>
              || SuspectPair(dev, done, c)
              || exists j: nat :: j < |dev.names| && j != owner && c == {dev.names[owner], dev.names[j]}
  {
  }

  predicate NamesForeignContext(dev: Device, id: NodeId)
    requires id in dev.actions
  {
    exists k :: 0 <= k < |dev.actions[id].names| && dev.actions[id].names[k] !in dev.names
  }

  /** A participant-local device that needs completions has one scope at thread level. */
  predicate HasOneThreadScope(dev: Device) {
    dev.participantLocal && dev.names != [] ==> dev.participantScopes == 1 && dev.participantLevels == {THREAD}
  }

  /** The checks made before any control flow is looked at; an empty string lets the analysis run. */
  function Precheck(dev: Device): (fallback: string)
    ensures fallback == "" <==> dev.fallback == "" && |dev.participantLevels| <= 1 && HasOneThreadScope(dev)
  {
    if dev.participantLocal && dev.names != [] && (dev.participantScopes != 1 || dev.participantLevels != {THREAD})
    then "completion requires one lexical THREAD participant scope"
    else if |dev.participantLevels| > 1 then "completion uses different participant levels"
    else dev.fallback
  }

  /** The control flow is looked at: the checks pass, there is something to analyse, and a participant-local
    device names no context that is not its own. */
  predicate IsLookedAt(dev: Device) {
    && Precheck(dev) == "" && (dev.participantLocal || dev.names != [])
    && (dev.participantLocal ==> forall id :: id in dev.actions ==> !NamesForeignContext(dev, id))
  }

  /** A certified table justifies the final report. */
  lemma ReportProved(dev: Device, cfg: seq<Node>, entry: nat, table: Table, info: Info, info': Info, unproven: set<nat>)
    requires Proved(dev, cfg, entry, table, info, unproven) && Final(dev, info, info', unproven) && dev.Valid()
    ensures SharingIsSafe(dev, info') && NoRunEscapes(dev) && BoundHolds(dev, info')
    ensures FindingsAreExact(dev, info') && ConflictsAreExact(dev, info')
    ensures BuffersAreReported(dev, info') && RacesAreReal(dev, info')
    ensures BoundIsExact(dev, cfg, entry, info')
  {
    hide Proved, ConflictsAreExact, SharingIsSafe, BoundHolds, MayBePending, NoRunEscapes, Races, ReadsUninitialized,
         HasRace, HasFinding, Misused;
    SharingProved(dev, cfg, entry, table, info, info', unproven);
    FindingsProved(dev, cfg, entry, table, info, unproven);
    ConflictsProved(dev, cfg, entry, table, info, info', unproven);
    BuffersProved(dev, cfg, entry, table, info, unproven);
    RacesProved(dev, cfg, entry, table, info, unproven);
    BoundProved(dev, cfg, entry, table, info, unproven);
  }

  lemma SameBuffers(dev: Device, cfg: seq<Node>, entry: nat, info: Info, info': Info)
    requires WellLinked(cfg) && BuffersAreExact(dev, cfg, entry, info) && ReadsAreExact(dev, cfg, entry, info)
    requires info'.findings == info.findings && info'.bufferFindings == info.bufferFindings
    ensures BuffersAreExact(dev, cfg, entry, info') && ReadsAreExact(dev, cfg, entry, info')
  {
    hide IsLeast, PathsAgree, HasRead, Reports;
  }

  /** Solves the fixed point over the control flow and completes the conflicts. It gives up exactly when some
    run executes a statement without a model, or too many points and bindings are reached. */
  method AnalyzeFlow(dev: Device) returns (info: Info, ghost cfg: seq<Node>, ghost entry: nat)
    requires dev.Valid()
    ensures IsGraphOf(dev.Visible(), cfg, dev.root, entry)
    ensures info.analyzed <==> NoRunEscapes(dev) && !TooManyKeys(dev, cfg, entry)
    ensures info.analyzed ==>
              && info.fallback == "" && SharingIsSafe(dev, info) && BoundHolds(dev, info)
              && FindingsAreExact(dev, info) && ConflictsAreExact(dev, info)
              && BuffersAreReported(dev, info) && RacesAreReal(dev, info)
    ensures info.analyzed ==> WellLinked(cfg) && BuffersAreExact(dev, cfg, entry, info)
    ensures info.analyzed ==> ReadsAreExact(dev, cfg, entry, info) && BoundIsExact(dev, cfg, entry, info)
    ensures !info.analyzed ==> info.fallback != "" && GaveUpRightly(dev, cfg, entry, info)
  {
    hide SharingIsSafe, FindingsAreExact, ConflictsAreExact, BuffersAreReported, RacesAreReal, BoundHolds, NoRunEscapes,
         Moment, Certified, TooManyKeys, SomeRunEscapes, BuffersAreExact, ReadsAreExact, BoundIsExact;
    var graph, first := BuildGraph(dev.Visible(), dev.root);
    cfg, entry := graph, first;
    var analysis := new Analysis(dev, graph, first);
    var ok := analysis.Solve();
    info := analysis.info.(analyzed := ok);
    if !ok {
      return;
    }
    ghost var solved := analysis.info;
    var conflicts := AddSuspects(dev, analysis.unproven, info.conflicts);
    info := info.(conflicts := conflicts);
    ReportProved(dev, cfg, entry, analysis.incoming, solved, info, analysis.unproven);
    BufferFindingsProved(dev, cfg, entry, analysis.incoming, solved, analysis.unproven);
    ReadsProved(dev, cfg, entry, analysis.incoming, solved, analysis.unproven);
    SameBuffers(dev, cfg, entry, solved, info);
    KeysFit(dev, cfg, entry, analysis.incoming, solved, analysis.unproven);
  }

  /** A certified table within the limit has an entry for every reached key. */
  lemma KeysFit(dev: Device, cfg: seq<Node>, entry: nat, table: Table, info: Info, unproven: set<nat>)
    requires Proved(dev, cfg, entry, table, info, unproven) && |table| <= PARTITION_LIMIT
    ensures !TooManyKeys(dev, cfg, entry)
  {
    hide Certified;
    forall keys: set<Key> | forall k :: k in keys ==> IsReached(dev, cfg, entry, k)
      ensures |keys| <= PARTITION_LIMIT
    {
      forall k | k in keys ensures k in table.Keys {
        TableIsExact(dev, cfg, entry, table, info, unproven, k);
      }
      SmallerSet(keys, table.Keys);
      assert |table.Keys| == |table|;
    }
  }

  method Analyze(dev: Device) returns (info: Info, ghost cfg: seq<Node>, ghost entry: nat)
    requires dev.Valid()
    ensures SharingIsSafe(dev, info)
    ensures IsLookedAt(dev) ==> IsGraphOf(dev.Visible(), cfg, dev.root, entry)
    ensures info.analyzed <==> IsLookedAt(dev) && NoRunEscapes(dev) && !TooManyKeys(dev, cfg, entry)
    ensures info.analyzed ==> info.fallback == "" && BoundHolds(dev, info)
    ensures info.analyzed ==> FindingsAreExact(dev, info) && ConflictsAreExact(dev, info)
    ensures info.analyzed ==> BuffersAreReported(dev, info) && RacesAreReal(dev, info)
    ensures info.analyzed ==> WellLinked(cfg) && BuffersAreExact(dev, cfg, entry, info)
    ensures info.analyzed ==> ReadsAreExact(dev, cfg, entry, info) && BoundIsExact(dev, cfg, entry, info)
    ensures !info.analyzed ==> info.fallback != "" || (dev.names == [] && !dev.participantLocal)
    ensures Precheck(dev) != "" ==> info.fallback == Precheck(dev)
    ensures IsLookedAt(dev) && !info.analyzed ==> info.fallback != "" && GaveUpRightly(dev, cfg, entry, info)
    ensures !IsLookedAt(dev) ==>
              !info.dedicatedFallback && (info.fallback == "" <==> Precheck(dev) == "" && !dev.participantLocal)
  {
    hide FindingsAreExact, ConflictsAreExact, BuffersAreReported, RacesAreReal, BoundHolds, NoRunEscapes, Moment,
         TooManyKeys, GaveUpRightly, BuffersAreExact, ReadsAreExact, BoundIsExact;
    cfg, entry := [], 0;
    info := Info(false, [], {}, {}, Precheck(dev), false, 0);
    if info.fallback != "" || (!dev.participantLocal && dev.names == []) {
      return;
    }
    if dev.participantLocal && exists id :: id in dev.actions && NamesForeignContext(dev, id) {
      info := info.(fallback := "completion references an external context");
      return;
    }
    info, cfg, entry := AnalyzeFlow(dev);
  }
}
