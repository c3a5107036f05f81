/** The worklist fixed point over program points and binding permutations. */
module DmaAnalysis {
  import opened Basics
  import opened ControlFlow
  import opened DmaCertificate
  import opened DmaFacts
  import opened DmaModel
  import opened Programs

  ghost function Sources(cfg: seq<Node>): set<NodeId> {
    set k | 0 <= k < |cfg| && cfg[k].source.Some? :: cfg[k].source.value
  }

  /** Everything recorded so far stays recorded. */
  ghost predicate Grows(a: Info, b: Info) {
    && (forall f :: f in a.findings ==> f in b.findings)
    && a.bufferFindings <= b.bufferFindings && a.conflicts <= b.conflicts
    && a.pendingBound <= b.pendingBound
  }

  lemma SettledGrows(dev: Device, cfg: seq<Node>, table: Table, table': Table, info: Info, info': Info,
                     unproven: set<nat>, unproven': set<nat>, k: Key)
    requires Settled(dev, cfg, table, info, unproven, k)
    requires Grows(info, info') && unproven <= unproven'
    requires k in table' && table'[k] == table[k]
    requires forall x :: x in table ==> x in table' && Leq(table[x], table'[x])
    ensures Settled(dev, cfg, table', info', unproven', k)
  {
    LinkedGrows(dev, cfg, table, table', k);
  }

  lemma LinkedGrows(dev: Device, cfg: seq<Node>, table: Table, table': Table, k: Key)
    requires WellLinked(cfg) && k in table && k.pc < |cfg| && |k.binding| == |dev.names| && IsPermutation(k.binding)
    requires |table[k].pending| == |table[k].must| == |table[k].transfers| == |dev.names|
    requires Linked(dev, cfg, k, table[k], table)
    requires forall x :: x in table ==> x in table' && Leq(table[x], table'[x])
    ensures Linked(dev, cfg, k, table[k], table')
  {
    if k.pc != 0 {
      var r := Transfer(dev, cfg[k.pc].source.value, k.binding, table[k]);
      forall j | 0 <= j < |cfg[k.pc].successors|
        ensures var to := Key(cfg[k.pc].successors[j], r.0); to in table' && Leq(r.1, table'[to])
      {
        var to := Key(cfg[k.pc].successors[j], r.0);
        assert to in table && Leq(r.1, table[to]) && Leq(table[to], table'[to]);
      }
    }
  }

  // ----- the termination measure -----

  ghost function TotalSlack(table: Table, issues: set<NodeId>): int
    decreases |table|
  {
    if table == map[] then 0
    else
      var k :| k in table;
      Slack(table[k], issues) + TotalSlack(table - {k}, issues)
  }

  lemma {:induction false} TotalSlackSplit(table: Table, issues: set<NodeId>, k: Key)
    requires k in table
    ensures TotalSlack(table, issues) == Slack(table[k], issues) + TotalSlack(table - {k}, issues)
    decreases |table|
  {
    var x :| x in table && TotalSlack(table, issues) == Slack(table[x], issues) + TotalSlack(table - {x}, issues);
    if x != k {
      TotalSlackSplit(table - {x}, issues, k);
      TotalSlackSplit(table - {k}, issues, x);
      assert table - {x} - {k} == table - {k} - {x};
    }
  }

  lemma {:induction false} TotalSlackNonNegative(dev: Device, table: Table, issues: set<NodeId>)
    requires forall k :: k in table ==> FactOk(dev, issues, table[k])
    ensures TotalSlack(table, issues) >= 0
    decreases |table|
  {
    if table != map[] {
      var k :| k in table && TotalSlack(table, issues) == Slack(table[k], issues) + TotalSlack(table - {k}, issues);
      SlackBounds(dev, issues, table[k], table[k]);
      TotalSlackNonNegative(dev, table - {k}, issues);
    }
  }

  lemma TotalSlackDrops(dev: Device, table: Table, issues: set<NodeId>, k: Key, f: Fact)
    requires k in table && FactOk(dev, issues, table[k]) && FactOk(dev, issues, f)
    requires Leq(table[k], f) && table[k] != f
    ensures TotalSlack(table[k := f], issues) < TotalSlack(table, issues)
  {
    SlackBounds(dev, issues, table[k], f);
    TotalSlackSplit(table, issues, k);
    TotalSlackSplit(table[k := f], issues, k);
    assert table[k := f] - {k} == table - {k};
  }

  // ----- pieces of a statement's effect on the facts -----

  /** The buffers filled by every transfer that may have been issued on a context. */
  method IntersectWritten(dev: Device, issues: set<NodeId>) returns (initialized: set<string>)
    ensures initialized == Common(dev, issues)
  {
    initialized := {};
    var first, left := true, issues;
    while left != {}
      invariant left <= issues
      invariant first <==> left == issues
      invariant initialized == Common(dev, issues - left)
      decreases |left|
    {
      var issue :| issue in left;
      var written := Written(dev, issue);
      CommonGrows(dev, issues - left, issue);
      assert issues - left + {issue} == issues - (left - {issue});
      initialized := if first then written else initialized * written;
      first, left := false, left - {issue};
    }
    assert issues - left == issues;
  }

  lemma CommonGrows(dev: Device, done: set<NodeId>, issue: NodeId)
    requires issue !in done
    ensures Common(dev, done + {issue})
            == if done == {} then Written(dev, issue) else Common(dev, done) * Written(dev, issue)
  {
    if done != {} {
      var d :| d in done;
      assert forall b :: b in Common(dev, done) ==> b in Written(dev, d);
    }
  }

  method CompleteContext(dev: Device, f: Fact, owner: nat) returns (r: Fact)
    requires owner < |f.pending| && |f.pending| == |f.must| == |f.transfers|
    ensures r == FactComplete(dev, f, owner)
  {
    var initialized := IntersectWritten(dev, f.transfers[owner]);
    r := f;
    if r.must[owner] {
      r := r.(initialized := r.initialized + initialized);
    }
    r := r.(must := r.must[owner := false]);
    r := r.(transfers := r.transfers[owner := {}]);
    r := r.(pending := r.pending[owner := false]);
  }

  method WaitAll(dev: Device, f: Fact, b: Binding, h: seq<nat>) returns (r: Fact)
    requires |b| == |f.pending| == |f.must| == |f.transfers|
    requires forall k :: 0 <= k < |b| ==> b[k] < |b|
    requires forall k :: 0 <= k < |h| ==> h[k] < |b|
    ensures r == FactCompleteAll(dev, f, b, h)
  {
    r := f;
    for i := 0 to |h|
      invariant |r.pending| == |r.must| == |r.transfers| == |b|
      invariant FactCompleteAll(dev, f, b, h) == FactCompleteAll(dev, r, b, h[i..])
    {
      r := CompleteContext(dev, r, b[h[i]]);
    }
  }

  method RotateHandles(b: Binding, h: seq<nat>) returns (r: Binding)
    requires forall k :: 0 <= k < |h| ==> h[k] < |b|
    ensures r == RotateBinding(b, h)
  {
    r := b;
    if |h| > 1 {
      var first := r[h[0]];
      for i := 1 to |h|
        invariant |r| == |b|
        invariant Shift(b, h, first) == Shift(r, h[i - 1..], first)
      {
        r := r[h[i - 1] := r[h[i]]];
      }
      r := r[h[|h| - 1] := first];
    }
  }

  /** The effect on context `owner` of an issue or a placeholder declaration. */
  method Occupy(dev: Device, f: Fact, source: NodeId, owner: nat, action: Action) returns (r: Fact)
    requires owner < |f.pending| && |f.pending| == |f.must| == |f.transfers|
    ensures action.kind == Issue ==>
              r == (var g := FactIssue(dev, f, source, owner, action.async);
                    if action.async then g else FactComplete(dev, g, owner))
    ensures action.kind != Issue ==> r == FactComplete(dev, f, owner)
  {
    r := f;
    if action.kind == Issue {
      if dev.participantLocal {
        r := r.(transfers := r.transfers[owner := r.transfers[owner] + {source}]);
        r := r.(must := r.must[owner := true]);
      }
      r := r.(pending := r.pending[owner := action.async]);
      if !action.async {
        r := CompleteContext(dev, r, owner);
      }
    } else {
      r := CompleteContext(dev, r, owner);
    }
  }

  /** How many contexts may be pending. */
  method CountPending(s: seq<bool>) returns (n: nat)
    ensures n == Count(s)
  {
    n := 0;
    for i := 0 to |s|
      invariant n == Count(s[..i])
    {
      assert s[..i + 1][..i] == s[..i];
      n := n + if s[i] then 1 else 0;
    }
    assert s[..|s|] == s;
  }

  method MergeInto(dev: Device, known: Fact, arriving: Fact) returns (r: Fact, changed: bool)
    requires |known.pending| == |known.must| == |known.transfers|
    requires |arriving.pending| == |arriving.must| == |arriving.transfers| == |known.pending|
    ensures r == Merge(dev, known, arriving) && (changed <==> r != known)
  {
    var n := |known.pending|;
    r, changed := known, false;
    for i := 0 to n
      invariant r == known.(pending := r.pending) && |r.pending| == n
      invariant forall k :: 0 <= k < i ==> r.pending[k] == (known.pending[k] || arriving.pending[k])
      invariant forall k :: i <= k < n ==> r.pending[k] == known.pending[k]
      invariant changed <==> r.pending != known.pending
    {
      if arriving.pending[i] && !r.pending[i] {
        r := r.(pending := r.pending[i := true]);
        changed := true;
      }
    }
    if dev.participantLocal {
      ghost var pending := r.pending;
      for i := 0 to n
        invariant r.pending == pending && r.initialized == known.initialized
        invariant |r.must| == n && |r.transfers| == n
        invariant forall k :: 0 <= k < i ==> r.must[k] == (known.must[k] && arriving.must[k])
        invariant forall k :: 0 <= k < i ==> r.transfers[k] == known.transfers[k] + arriving.transfers[k]
        invariant forall k :: i <= k < n ==> r.must[k] == known.must[k] && r.transfers[k] == known.transfers[k]
        invariant changed <==> r != known
      {
        var must := r.must[i] && arriving.must[i];
        changed := changed || must != r.must[i];
        r := r.(must := r.must[i := must]);
        var transfers := r.transfers[i] + arriving.transfers[i];
        changed := changed || transfers != r.transfers[i];
        r := r.(transfers := r.transfers[i := transfers]);
      }
      var initialized := r.initialized * arriving.initialized;
      changed := changed || initialized != r.initialized;
      r := r.(initialized := initialized);
    }
    var m := Merge(dev, known, arriving);
    assert r.pending == m.pending && r.must == m.must && r.transfers == m.transfers;
  }

  // ----- what one statement adds to the report -----

  function WithFinding(info: Info, f: Finding): Info {
    if f in info.findings then info else info.(findings := info.findings + [f])
  }

  function ConflictsUpTo(dev: Device, f: Fact, owner: nat, n: nat): set<set<string>>
    requires n <= |f.pending| == |dev.names| && owner < |dev.names|
  {
    set i | 0 <= i < n && f.pending[i] && i != owner :: {dev.names[owner], dev.names[i]}
  }

  /** Issuing on `owner` conflicts with every other context that may be pending. */
  function IssueConflicts(dev: Device, f: Fact, owner: nat): set<set<string>>
    requires |f.pending| == |dev.names| && owner < |dev.names|
  {
    ConflictsUpTo(dev, f, owner, |f.pending|)
  }

  lemma NextConflict(dev: Device, f: Fact, owner: nat, n: nat)
    requires n < |f.pending| == |dev.names| && owner < |dev.names|
    ensures ConflictsUpTo(dev, f, owner, n + 1)
            == ConflictsUpTo(dev, f, owner, n)
               + if f.pending[n] && n != owner then {{dev.names[owner], dev.names[n]}} else {}
  {
  }

  /** The report after a statement puts context `owner` to a new use. */
  function ReuseReport(dev: Device, source: NodeId, f: Fact, owner: nat, issue: bool, info: Info): Info
    requires |f.pending| == |dev.names| && owner < |dev.names|
  {
    var info := if f.pending[owner]
                then WithFinding(info, OverwriteFinding(dev, source, owner))
                else info;
    if issue then
      info.(conflicts := info.conflicts + IssueConflicts(dev, f, owner),
            pendingBound := Max(info.pendingBound, Demand(f, owner)))
    else info
  }

  function ReuseSuspects(f: Fact, reused: Option<nat>): set<nat>
    requires reused.Some? ==> reused.value < |f.pending|
  {
    if reused.Some? && f.pending[reused.value] then {reused.value} else {}
  }

  function StatementReport(dev: Device, id: NodeId, b: Binding, f: Fact, info: Info): Info
    requires |b| == |f.pending| == |f.transfers| == |dev.names| && forall i :: 0 <= i < |b| ==> b[i] < |b|
  {
    var info := info.(bufferFindings := info.bufferFindings + AccessFindings(dev, f, dev.Effects(id)));
    match Reused(dev, id, b)
    case None => info
    case Some(owner) => ReuseReport(dev, id, f, owner, dev.actions[id].kind == Issue, info)
  }

  function ExitReport(dev: Device, f: Fact, n: nat, info: Info, unproven: set<nat>): (Info, set<nat>)
    requires n <= |f.pending| == |dev.names|
  {
    if n == 0 then (info, unproven)
    else
      var (info, unproven) := ExitReport(dev, f, n - 1, info, unproven);
      if f.pending[n - 1]
      then (WithFinding(info, ExitFinding(dev, n - 1)), unproven + {n - 1})
      else (info, unproven)
  }

  predicate SameFallback(info: Info, info': Info) {
    info'.fallback == info.fallback && info'.dedicatedFallback == info.dedicatedFallback
  }

  lemma {:induction false} ExitLogged(dev: Device, f: Fact, n: nat, info: Info, unproven: set<nat>)
    requires n <= |f.pending| == |dev.names|
    ensures var after := ExitReport(dev, f, n, info, unproven);
            && Grows(info, after.0) && SameFallback(info, after.0) && after.0.conflicts == info.conflicts
            && after.0.bufferFindings == info.bufferFindings && after.0.pendingBound == info.pendingBound
            && after.1 == unproven + (set i | 0 <= i < n && f.pending[i])
            && (forall i :: 0 <= i < n && f.pending[i] ==> ExitFinding(dev, i) in after.0.findings)
            && (forall x :: x in after.0.findings && x !in info.findings ==>
                  exists i :: 0 <= i < n && f.pending[i] && x == ExitFinding(dev, i))
            && (Unrepeated(info.findings) ==> Unrepeated(after.0.findings))
  {
    if n > 0 {
      ExitLogged(dev, f, n - 1, info, unproven);
    }
  }

  lemma ExitEarned(dev: Device, f: Fact, info: Info, unproven: set<nat>)
    requires |f.pending| == |dev.names| && Earned(dev, info, unproven)
    requires forall i :: 0 <= i < |f.pending| && f.pending[i] ==> Misused(dev, i) && LeavesPending(dev, i)
    ensures Earned(dev, ExitReport(dev, f, |f.pending|, info, unproven).0,
              ExitReport(dev, f, |f.pending|, info, unproven).1)
  {
    var after := ExitReport(dev, f, |f.pending|, info, unproven);
    ExitLogged(dev, f, |f.pending|, info, unproven);
    var exits := set i | 0 <= i < |f.pending| && f.pending[i];
    forall i | i in exits ensures HasFinding(dev, after.0.findings, i)
    {
      assert ExitFinding(dev, i) in after.0.findings;
    }
    forall x | x in after.0.findings && x !in info.findings ensures Blames(dev, x, exits)
    {
      var i :| 0 <= i < |f.pending| && f.pending[i] && x == ExitFinding(dev, i);
      assert i in exits;
    }
    MatchedGrows(dev, info.findings, after.0.findings, unproven, exits);
    forall x | x in after.0.findings ensures FindingHappens(dev, x)
    {
      if x !in info.findings {
        var i: nat :| i < |f.pending| && f.pending[i] && x == ExitFinding(dev, i);
        assert IsShown(dev, x, i);
      }
    }
  }

  /** The table after facts `f` arrive at `to`. */
  function Received(dev: Device, table: Table, to: Key, f: Fact): Table
    requires |f.pending| == |f.must| == |f.transfers| == |dev.names|
    requires to in table ==> |table[to].pending| == |table[to].must| == |table[to].transfers| == |dev.names|
  {
    table[to := if to in table then Merge(dev, table[to], f) else f]
  }

  lemma MatchedGrows(dev: Device, findings: seq<Finding>, findings': seq<Finding>, unproven: set<nat>, more: set<nat>)
    requires Matched(dev, findings, unproven)
    requires forall f :: f in findings ==> f in findings'
    requires forall i :: i in more ==> HasFinding(dev, findings', i)
    requires forall f :: f in findings' && f !in findings ==> Blames(dev, f, more)
    ensures Matched(dev, findings', unproven + more)
  {
    forall i | i in unproven ensures HasFinding(dev, findings', i)
    {
      assert HasFinding(dev, findings, i);
    }
    forall f | f in findings' ensures Blames(dev, f, unproven + more)
    {
      if f in findings {
        assert Blames(dev, f, unproven);
      } else {
        assert Blames(dev, f, more);
      }
    }
  }

  lemma FindingEarned(dev: Device, info: Info, unproven: set<nat>, owner: nat, f: Finding)
    requires Earned(dev, info, unproven) && owner < |dev.names| && Misused(dev, owner)
    requires f.resource == dev.names[owner] && FindingHappens(dev, f)
    ensures Earned(dev, WithFinding(info, f), unproven + {owner})
  {
    hide Misused, EarnedConflict, EarnedRace, Matched, FindingHappens;
    assert f in WithFinding(info, f).findings;
    assert Blames(dev, f, {owner});
    MatchedGrows(dev, info.findings, WithFinding(info, f).findings, unproven, {owner});
  }

  lemma ConflictsEarned(dev: Device, info: Info, info': Info, unproven: set<nat>, f: Fact, owner: nat)
    requires Earned(dev, info, unproven) && owner < |dev.names| == |f.pending|
    requires forall i :: 0 <= i < |f.pending| ==> f.pending[i] ==> BusyTogether(dev, owner, i)
    requires info'.findings == info.findings && info'.conflicts == info.conflicts + IssueConflicts(dev, f, owner)
    requires info'.bufferFindings == info.bufferFindings
    ensures Earned(dev, info', unproven)
  {
    forall c | c in info'.conflicts ensures EarnedConflict(dev, c)
    {
      if c !in info.conflicts {
        var i :| 0 <= i < |f.pending| && f.pending[i] && i != owner && c == {dev.names[owner], dev.names[i]};
        assert BusyTogether(dev, owner, i);
      }
    }
  }

  lemma StatementEarned(dev: Device, id: NodeId, b: Binding, f: Fact, info: Info, unproven: set<nat>)
    requires |b| == |f.pending| == |f.transfers| == |dev.names| && forall i :: 0 <= i < |b| ==> b[i] < |b|
    requires !Escapes(dev, id, b) && UsesAreReal(dev, id, b, f) && ClashesAreReal(dev, id, f)
             && Earned(dev, info, unproven)
    ensures Earned(dev, StatementReport(dev, id, b, f, info), unproven + ReuseSuspects(f, Reused(dev, id, b)))
  {
    var read := info.(bufferFindings := info.bufferFindings + AccessFindings(dev, f, dev.Effects(id)));
    match Reused(dev, id, b)
    case None => assert unproven + {} == unproven;
    case Some(owner) =>
      var found, marked := read, unproven + ReuseSuspects(f, Some(owner));
      if f.pending[owner] {
        var finding := OverwriteFinding(dev, id, owner);
        assert IsShown(dev, finding, owner);
        FindingEarned(dev, read, unproven, owner, finding);
        found := WithFinding(read, finding);
      } else {
        assert marked == unproven;
      }
      if dev.actions[id].kind == Issue {
        ConflictsEarned(dev, found, StatementReport(dev, id, b, f, info), marked, f, owner);
      }
  }

  lemma StatementGrounded(dev: Device, cfg: seq<Node>, entry: nat, k: Key, f: Fact, info: Info)
    requires WellLinked(cfg) && k.pc != 0 && EntryOk(dev, cfg, entry, Sources(cfg), k, f)
    requires Grounded(dev, cfg, entry, Sources(cfg), info)
    ensures Grounded(dev, cfg, entry, Sources(cfg), StatementReport(dev, cfg[k.pc].source.value, k.binding, f, info))
  {
    hide Witnessed, Traced, IsNeeded, AccessFindings;
    var id := cfg[k.pc].source.value;
    var info' := StatementReport(dev, id, k.binding, f, info);
    assert info'.bufferFindings == info.bufferFindings + AccessFindings(dev, f, dev.Effects(id));
    forall b | b in info'.bufferFindings ensures IsGrounded(dev, cfg, entry, Sources(cfg), b) {
      if b !in info.bufferFindings { assert Reports(dev, cfg, k, f, b); }
    }
    var reused := Reused(dev, id, k.binding);
    if info'.pendingBound != info.pendingBound {
      assert DemandedAt(dev, cfg, entry, Sources(cfg), k, f, reused.value, info'.pendingBound);
    }
  }

  lemma StatementLogged(dev: Device, cfg: seq<Node>, k: Key, f: Fact, info: Info, unproven: set<nat>)
    requires WellLinked(cfg) && 0 < k.pc < |cfg|
    requires |k.binding| == |f.pending| == |f.transfers| == |dev.names|
    requires forall i :: 0 <= i < |k.binding| ==> k.binding[i] < |k.binding|
    requires !Escapes(dev, cfg[k.pc].source.value, k.binding)
    ensures var id := cfg[k.pc].source.value;
            var info' := StatementReport(dev, id, k.binding, f, info);
            && Logged(dev, cfg, k, f, info', unproven + ReuseSuspects(f, Reused(dev, id, k.binding)))
            && Grows(info, info') && SameFallback(info, info')
  {
  }

  /** A transfer may be pending on `owner` when the statement at `k` reuses it: some run loses it. */
  lemma ReuseIsMisuse(dev: Device, cfg: seq<Node>, entry: nat, k: Key, f: Fact, owner: nat)
    requires IsGraphOf(dev.Visible(), cfg, dev.root, entry) && 0 < k.pc < |cfg|
    requires |k.binding| == |dev.names| && IsPermutation(k.binding)
    requires |f.pending| == |dev.names| && Witnessed(dev, cfg, entry, k, f)
    requires !Escapes(dev, cfg[k.pc].source.value, k.binding)
    requires Reused(dev, cfg[k.pc].source.value, k.binding) == Some(owner) && f.pending[owner]
    ensures Misused(dev, owner) && Overwrites(dev, cfg[k.pc].source.value, owner)
  {
    var p :| Reaches(dev, cfg, entry, p, k) && After(dev, Trace(cfg, p)).live[owner].Some?;
    var q := Extend(dev, cfg, entry, p, cfg[k.pc].successors[0]);
    LostWhenReused(dev, cfg[k.pc].source.value, After(dev, Trace(cfg, p)), owner);
    assert DeviceRun(dev, Trace(cfg, q)) && owner in After(dev, Trace(cfg, q)).lost;
    assert DeviceRun(dev, Trace(cfg, p) + [cfg[k.pc].source.value]);
  }

  lemma LostWhenReused(dev: Device, id: NodeId, s: State, owner: nat)
    requires Fits(s, |dev.names|) && !s.escaped && !Escapes(dev, id, s.binding)
    requires Reused(dev, id, s.binding) == Some(owner) && s.live[owner].Some?
    ensures owner in Step(dev, id, s).lost
  {
    DuringEffect(dev, id, s);
    StepOnlyCompletes(dev, id, s);
  }

  /** A transfer may be pending on `other` when the statement at `k` issues on `owner`. */
  lemma IssueIsBusy(dev: Device, cfg: seq<Node>, entry: nat, k: Key, f: Fact, owner: nat, other: nat)
    requires IsGraphOf(dev.Visible(), cfg, dev.root, entry) && 0 < k.pc < |cfg|
    requires |k.binding| == |dev.names| && IsPermutation(k.binding)
    requires |f.pending| == |dev.names| && Witnessed(dev, cfg, entry, k, f)
    requires !Escapes(dev, cfg[k.pc].source.value, k.binding)
    requires Reused(dev, cfg[k.pc].source.value, k.binding) == Some(owner)
    requires dev.actions[cfg[k.pc].source.value].kind == Issue
    requires other < |dev.names| && f.pending[other]
    ensures BusyTogether(dev, owner, other)
  {
    var id := cfg[k.pc].source.value;
    var p :| Reaches(dev, cfg, entry, p, k) && After(dev, Trace(cfg, p)).live[other].Some?;
    var q := Extend(dev, cfg, entry, p, cfg[k.pc].successors[0]);
    DuringEffect(dev, id, After(dev, Trace(cfg, p)));
    assert DeviceRun(dev, Trace(cfg, p) + [id]);
  }

  lemma ExitIsMisuse(dev: Device, cfg: seq<Node>, entry: nat, k: Key, f: Fact, owner: nat)
    requires IsGraphOf(dev.Visible(), cfg, dev.root, entry) && k.pc == 0
    requires |f.pending| == |dev.names| && Witnessed(dev, cfg, entry, k, f)
    requires owner < |dev.names| && f.pending[owner]
    ensures Misused(dev, owner) && LeavesPending(dev, owner)
  {
    var p :| Reaches(dev, cfg, entry, p, k) && After(dev, Trace(cfg, p)).live[owner].Some?;
    PathIsRun(dev.Visible(), cfg, dev.root, entry, p);
    assert FinishedDeviceRun(dev, Trace(cfg, p)) && owner in After(dev, Trace(cfg, p)).LiveSet();
  }

  /** What the facts before a statement say about reuse is shown by real runs. */
  ghost predicate UsesAreReal(dev: Device, id: NodeId, b: Binding, f: Fact)
    requires |b| == |f.pending| == |dev.names| && forall i :: 0 <= i < |b| ==> b[i] < |b|
  {
    !Escapes(dev, id, b) && Reused(dev, id, b).Some? ==>
      var owner := Reused(dev, id, b).value;
      && (f.pending[owner] ==> Misused(dev, owner) && Overwrites(dev, id, owner))
      && (dev.actions[id].kind == Issue ==>
            forall i :: 0 <= i < |f.pending| ==> f.pending[i] ==> BusyTogether(dev, owner, i))
  }

  lemma WitnessedUsesAreReal(dev: Device, cfg: seq<Node>, entry: nat, k: Key, f: Fact)
    requires IsGraphOf(dev.Visible(), cfg, dev.root, entry) && 0 < k.pc < |cfg|
    requires |k.binding| == |dev.names| && IsPermutation(k.binding)
    requires |f.pending| == |dev.names| && Witnessed(dev, cfg, entry, k, f)
    ensures UsesAreReal(dev, cfg[k.pc].source.value, k.binding, f)
  {
    var id := cfg[k.pc].source.value;
    if !Escapes(dev, id, k.binding) && Reused(dev, id, k.binding).Some? {
      var owner := Reused(dev, id, k.binding).value;
      if f.pending[owner] { ReuseIsMisuse(dev, cfg, entry, k, f, owner); }
      if dev.actions[id].kind == Issue {
        forall i | 0 <= i < |f.pending| && f.pending[i] ensures BusyTogether(dev, owner, i)
        {
          IssueIsBusy(dev, cfg, entry, k, f, owner, i);
        }
      }
    }
  }

  /** Every clash the facts before a statement allow is shown by a run. */
  ghost predicate ClashesAreReal(dev: Device, id: NodeId, f: Fact)
    requires |f.pending| == |f.transfers|
  {
    forall b :: b in AccessFindings(dev, f, dev.Effects(id)) && b.issue.Some? ==> EarnedRace(dev, b)
  }

  lemma {:induction false} ClashOfAccess(dev: Device, f: Fact, accesses: seq<Access>, b: BufferFinding) returns (k: nat)
    requires |f.pending| == |f.transfers| && b in AccessFindings(dev, f, accesses) && b.issue.Some?
    ensures k < |accesses| && b in ClashFindings(dev, f, accesses[k])
    decreases |accesses|
  {
    var before := accesses[..|accesses| - 1];
    if b in AccessFindings(dev, f, before) {
      k := ClashOfAccess(dev, f, before, b);
    } else {
      k := |accesses| - 1;
    }
  }

  lemma TracedClashesAreReal(dev: Device, cfg: seq<Node>, entry: nat, k: Key, f: Fact)
    requires IsGraphOf(dev.Visible(), cfg, dev.root, entry) && 0 < k.pc < |cfg|
    requires |f.pending| == |f.transfers| == |dev.names| && Traced(dev, cfg, entry, k, f)
    ensures ClashesAreReal(dev, cfg[k.pc].source.value, f)
  {
    hide AccessFindings, Step;
    var id := cfg[k.pc].source.value;
    forall b | b in AccessFindings(dev, f, dev.Effects(id)) && b.issue.Some? ensures EarnedRace(dev, b)
    {
      var n := ClashOfAccess(dev, f, dev.Effects(id), b);
      var access := dev.Effects(id)[n];
      var owner: nat, issue, transfer :| owner < |f.pending| && issue in f.transfers[owner]
        && transfer in dev.Effects(issue) && Clash(transfer, access) && b == RaceFinding(access, issue);
      TracedRace(dev, cfg, entry, k, f, owner, issue, n, transfer);
    }
  }

  lemma TracedRace(dev: Device, cfg: seq<Node>, entry: nat, k: Key, f: Fact, owner: nat, issue: NodeId, n: nat,
                   transfer: Access)
    requires IsGraphOf(dev.Visible(), cfg, dev.root, entry) && 0 < k.pc < |cfg|
    requires |f.transfers| == |dev.names| && Traced(dev, cfg, entry, k, f) && owner < |f.transfers|
             && issue in f.transfers[owner]
    requires n < |dev.Effects(cfg[k.pc].source.value)|
    requires transfer in dev.Effects(issue) && Clash(transfer, dev.Effects(cfg[k.pc].source.value)[n])
    ensures EarnedRace(dev, RaceFinding(dev.Effects(cfg[k.pc].source.value)[n], issue))
  {
    hide Step;
    var id := cfg[k.pc].source.value;
    assert Shown(dev, cfg, entry, k, owner, issue);
    var p :| Reaches(dev, cfg, entry, p, k) && Carries(After(dev, Trace(cfg, p)), owner, issue);
    var q := Extend(dev, cfg, entry, p, cfg[k.pc].successors[0]);
    var t := Trace(cfg, p);
    assert RaceShown(dev, RaceFinding(dev.Effects(id)[n], issue), t, id, n, issue);
  }

  // ----- the table stays in order -----

  lemma InitialTable(dev: Device, cfg: seq<Node>, entry: nat)
    requires WellLinked(cfg) && entry < |cfg|
    ensures var n := |dev.names|; TableOk(dev, cfg, entry, Sources(cfg), map[Key(entry, Identity(n)) := NoFact(n)])
  {
    assert Trace(cfg, [entry]) == [];
    assert Reaches(dev, cfg, entry, [entry], Key(entry, Identity(|dev.names|)));
  }

  lemma TableGains(dev: Device, cfg: seq<Node>, entry: nat, table: Table, k: Key, f: Fact)
    requires TableOk(dev, cfg, entry, Sources(cfg), table) && EntryOk(dev, cfg, entry, Sources(cfg), k, f)
    ensures TableOk(dev, cfg, entry, Sources(cfg), table[k := f])
  {
  }

  lemma MergedEntry(dev: Device, cfg: seq<Node>, entry: nat, k: Key, known: Fact, arriving: Fact)
    requires EntryOk(dev, cfg, entry, Sources(cfg), k, known) && EntryOk(dev, cfg, entry, Sources(cfg), k, arriving)
    ensures var m := Merge(dev, known, arriving);
            EntryOk(dev, cfg, entry, Sources(cfg), k, m) && Leq(known, m) && Leq(arriving, m)
  {
    MergeCovers(dev, Sources(cfg), known, arriving);
    NeededMerge(dev, cfg, entry, Sources(cfg), k, known, arriving);
    var m := Merge(dev, known, arriving);
    forall i | 0 <= i < |m.pending| && m.pending[i]
      ensures exists p :: Reaches(dev, cfg, entry, p, k) && After(dev, Trace(cfg, p)).live[i].Some?
    {
      assert known.pending[i] || arriving.pending[i];
    }
    forall i: nat, x | i < |m.transfers| && x in m.transfers[i] ensures Shown(dev, cfg, entry, k, i, x)
    {
      assert x in known.transfers[i] || x in arriving.transfers[i];
    }
  }

  /** The facts a statement passes on belong in the table. */
  lemma PassedOn(dev: Device, cfg: seq<Node>, entry: nat, k: Key, f: Fact, j: nat)
    requires IsGraphOf(dev.Visible(), cfg, dev.root, entry)
    requires 0 < k.pc < |cfg| && j < |cfg[k.pc].successors|
    requires EntryOk(dev, cfg, entry, Sources(cfg), k, f)
    requires !Escapes(dev, cfg[k.pc].source.value, k.binding)
    ensures var r := Transfer(dev, cfg[k.pc].source.value, k.binding, f);
            EntryOk(dev, cfg, entry, Sources(cfg), Key(cfg[k.pc].successors[j], r.0), r.1)
  {
    TransferOk(dev, Sources(cfg), cfg[k.pc].source.value, k.binding, f);
    WitnessStep(dev, cfg, entry, k, f, cfg[k.pc].successors[j]);
    TraceStep(dev, cfg, entry, k, f, cfg[k.pc].successors[j]);
    NeededStep(dev, cfg, entry, Sources(cfg), k, f, j);
  }

  // ----- the loop invariants -----

  /** Every recorded key is waiting to be processed again or accounted for. */
  ghost predicate Solving(dev: Device, cfg: seq<Node>, entry: nat, table: Table, work: seq<Key>,
                          info: Info, unproven: set<nat>)
  {
    && IsGraphOf(dev.Visible(), cfg, dev.root, entry)
    && TableOk(dev, cfg, entry, Sources(cfg), table)
    && (forall k :: k in work ==> k in table)
    && (forall k {:trigger Settled(dev, cfg, table, info, unproven, k)} :: k in table && k !in work ==>
        Settled(dev, cfg, table, info, unproven, k))
  }

  /** The same while the first `j` successors of `k` have received `(b, g)`. */
  ghost predicate Passing(dev: Device, cfg: seq<Node>, entry: nat, table: Table, work: seq<Key>,
                          info: Info, unproven: set<nat>, k: Key, f: Fact, j: nat)
  {
    && IsGraphOf(dev.Visible(), cfg, dev.root, entry)
    && TableOk(dev, cfg, entry, Sources(cfg), table)
    && (forall x :: x in work ==> x in table)
    && k in table && EntryOk(dev, cfg, entry, Sources(cfg), k, f)
    && k.pc != 0 && j <= |cfg[k.pc].successors|
    && (forall x {:trigger Settled(dev, cfg, table, info, unproven, x)} :: x in table && x !in work && x != k ==>
        Settled(dev, cfg, table, info, unproven, x))
    && (k !in work ==> table[k] == f)
    && Logged(dev, cfg, k, f, info, unproven)
    && (var r := Transfer(dev, cfg[k.pc].source.value, k.binding, f);
        forall i :: 0 <= i < j ==> var to := Key(cfg[k.pc].successors[i], r.0); to in table && Leq(r.1, table[to]))
  }

  lemma PassedToAll(dev: Device, cfg: seq<Node>, entry: nat, table: Table, work: seq<Key>,
                    info: Info, unproven: set<nat>, k: Key, f: Fact)
    requires k.pc < |cfg| && Passing(dev, cfg, entry, table, work, info, unproven, k, f, |cfg[k.pc].successors|)
    ensures Solving(dev, cfg, entry, table, work, info, unproven)
  {
    if k !in work {
      assert Linked(dev, cfg, k, f, table);
      assert Settled(dev, cfg, table, info, unproven, k);
    }
  }

  /** Raising the facts of one key, and scheduling it, leaves every other key settled. */
  lemma StaySettled(dev: Device, cfg: seq<Node>, entry: nat, table: Table, work: seq<Key>, work': seq<Key>,
                    info: Info, unproven: set<nat>, k: Key, to: Key, g: Fact)
    requires WellLinked(cfg) && TableOk(dev, cfg, entry, Sources(cfg), table)
    requires forall x {:trigger Settled(dev, cfg, table, info, unproven, x)} :: x in table && x !in work && x != k ==>
               Settled(dev, cfg, table, info, unproven, x)
    requires to in table ==> Leq(table[to], g)
    requires forall x :: x in work ==> x in work'
    requires table[to := g] != table ==> to in work'
    ensures forall x :: x in table && x !in work' && x != k ==>
              x in table[to := g] && Settled(dev, cfg, table[to := g], info, unproven, x)
  {
    var table' := table[to := g];
    forall x | x in table && x !in work' && x != k
      ensures Settled(dev, cfg, table', info, unproven, x)
    {
      assert EntryOk(dev, cfg, entry, Sources(cfg), x, table[x]);
      assert Settled(dev, cfg, table, info, unproven, x);
      forall y | y in table ensures Leq(table[y], table'[y])
      {
        assert EntryOk(dev, cfg, entry, Sources(cfg), y, table[y]);
      }
      SettledGrows(dev, cfg, table, table', info, info, unproven, unproven, x);
    }
  }

  /** The edges already served keep their target covered. */
  lemma StayServed(dev: Device, cfg: seq<Node>, k: Key, b: Binding, f: Fact, table: Table, to: Key, g: Fact, j: nat)
    requires k.pc < |cfg| && j < |cfg[k.pc].successors| && to == Key(cfg[k.pc].successors[j], b)
    requires forall i :: 0 <= i < j ==> var x := Key(cfg[k.pc].successors[i], b); x in table && Leq(f, table[x])
    requires Leq(f, g) && (to in table ==> Leq(table[to], g))
    ensures forall i :: 0 <= i < j + 1 ==>
              var x := Key(cfg[k.pc].successors[i], b); x in table[to := g] && Leq(f, table[to := g][x])
  {
  }

  lemma PassOn(dev: Device, cfg: seq<Node>, entry: nat, table: Table, work: seq<Key>, work': seq<Key>,
               info: Info, unproven: set<nat>, k: Key, f: Fact, j: nat, to: Key, b: Binding, arriving: Fact)
    requires k.pc < |cfg| && j < |cfg[k.pc].successors|
    requires Passing(dev, cfg, entry, table, work, info, unproven, k, f, j)
    requires (b, arriving) == Transfer(dev, cfg[k.pc].source.value, k.binding, f)
    requires to == Key(cfg[k.pc].successors[j], b)
    requires to in table ==> |table[to].pending| == |table[to].must| == |table[to].transfers| == |dev.names|
    requires work' == if Received(dev, table, to, arriving) == table then work else work + [to]
    ensures Passing(dev, cfg, entry, Received(dev, table, to, arriving), work', info, unproven, k, f, j + 1)
  {
    PassedOn(dev, cfg, entry, k, f, j);
    if to in table {
      assert EntryOk(dev, cfg, entry, Sources(cfg), to, table[to]);
      MergedEntry(dev, cfg, entry, to, table[to], arriving);
    }
    var table' := Received(dev, table, to, arriving);
    TableGains(dev, cfg, entry, table, to, table'[to]);
    StaySettled(dev, cfg, entry, table, work, work', info, unproven, k, to, table'[to]);
    StayServed(dev, cfg, k, b, arriving, table, to, table'[to], j);
  }

  ghost predicate Rises(dev: Device, table: Table, table': Table)
  {
    forall x :: x in table ==> x in table' && Leq(table[x], table'[x])
  }

  /** Receiving facts only raises the table, and uses up slack unless nothing changes. */
  lemma ReceivedRises(dev: Device, cfg: seq<Node>, entry: nat, table: Table, to: Key, f: Fact)
    requires TableOk(dev, cfg, entry, Sources(cfg), table) && EntryOk(dev, cfg, entry, Sources(cfg), to, f)
    ensures to in table ==> |table[to].pending| == |table[to].must| == |table[to].transfers| == |dev.names|
    ensures Rises(dev, table, Received(dev, table, to, f))
    ensures to in table ==>
              || Received(dev, table, to, f) == table
              || TotalSlack(Received(dev, table, to, f), Sources(cfg)) < TotalSlack(table, Sources(cfg))
  {
    hide Witnessed, Traced, Merge, TotalSlack, IsPermutation, Sources;
    if to in table {
      MergedEntry(dev, cfg, entry, to, table[to], f);
      var m := Merge(dev, table[to], f);
      if m != table[to] {
        TotalSlackDrops(dev, table, Sources(cfg), to, m);
      }
    }
    forall x | x in table ensures Leq(table[x], Received(dev, table, to, f)[x])
    {
      assert EntryOk(dev, cfg, entry, Sources(cfg), x, table[x]);
    }
  }

  /** Work done between two moments: more partitions, or less slack, or nothing at all. */
  ghost predicate Progress(partitions: nat, slack: int, work: seq<Key>, partitions': nat, slack': int, work': seq<Key>)
  {
    || partitions < partitions'
    || (partitions == partitions' && slack' < slack)
    || (partitions == partitions' && slack' == slack && work' == work)
  }

  /** Key `k` has been taken off the worklist. */
  ghost predicate Popped(dev: Device, cfg: seq<Node>, entry: nat, table: Table, work: seq<Key>,
                         info: Info, unproven: set<nat>, k: Key)
  {
    && IsGraphOf(dev.Visible(), cfg, dev.root, entry)
    && TableOk(dev, cfg, entry, Sources(cfg), table)
    && k in table && (forall x :: x in work ==> x in table)
    && (forall x {:trigger Settled(dev, cfg, table, info, unproven, x)} :: x in table && x !in work && x != k ==>
        Settled(dev, cfg, table, info, unproven, x))
  }

  lemma PoppedGrows(dev: Device, cfg: seq<Node>, entry: nat, table: Table, work: seq<Key>, info: Info, info': Info,
                    unproven: set<nat>, unproven': set<nat>, k: Key)
    requires Popped(dev, cfg, entry, table, work, info, unproven, k)
    requires Grows(info, info') && unproven <= unproven'
    ensures Popped(dev, cfg, entry, table, work, info', unproven', k)
  {
    forall x | x in table && x !in work && x != k ensures Settled(dev, cfg, table, info', unproven', x)
    {
      assert EntryOk(dev, cfg, entry, Sources(cfg), x, table[x]);
      forall y | y in table ensures Leq(table[y], table[y]) {}
      SettledGrows(dev, cfg, table, table, info, info', unproven, unproven', x);
    }
  }

  lemma ExitSettles(dev: Device, cfg: seq<Node>, entry: nat, table: Table, work: seq<Key>, info: Info,
                    unproven: set<nat>, k: Key)
    requires Popped(dev, cfg, entry, table, work, info, unproven, k) && k.pc == 0
    requires forall i :: 0 <= i < |table[k].pending| == |dev.names| && table[k].pending[i] ==>
               i in unproven && ExitFinding(dev, i) in info.findings
    ensures Solving(dev, cfg, entry, table, work, info, unproven)
  {
    assert EntryOk(dev, cfg, entry, Sources(cfg), k, table[k]);
    assert Settled(dev, cfg, table, info, unproven, k);
  }

  lemma ExitIsReal(dev: Device, cfg: seq<Node>, entry: nat, k: Key, f: Fact)
    requires IsGraphOf(dev.Visible(), cfg, dev.root, entry) && k.pc == 0
    requires |f.pending| == |dev.names| && Witnessed(dev, cfg, entry, k, f)
    ensures forall i :: 0 <= i < |f.pending| && f.pending[i] ==> Misused(dev, i) && LeavesPending(dev, i)
  {
    forall i | 0 <= i < |f.pending| && f.pending[i] ensures Misused(dev, i) && LeavesPending(dev, i)
    {
      ExitIsMisuse(dev, cfg, entry, k, f, i);
    }
  }

  /** A statement without a model at a recorded key has no model on some run. */
  lemma EscapeHappens(dev: Device, cfg: seq<Node>, entry: nat, k: Key, f: Fact)
    requires IsGraphOf(dev.Visible(), cfg, dev.root, entry) && 0 < k.pc < |cfg|
    requires EntryOk(dev, cfg, entry, Sources(cfg), k, f) && Escapes(dev, cfg[k.pc].source.value, k.binding)
    ensures !NoRunEscapes(dev) && SomeRunEscapes(dev, RotatesAcross(dev, cfg[k.pc].source.value))
  {
    var p :| Reaches(dev, cfg, entry, p, k);
    var to := cfg[k.pc].successors[0];
    var q := Extend(dev, cfg, entry, p, to);
    var t, id := Trace(cfg, p), cfg[k.pc].source.value;
    assert DeviceRun(dev, t + [id]) && Moment(dev, During(dev, id, After(dev, t)));
  }

  lemma RecordedKeysAreReached(dev: Device, cfg: seq<Node>, entry: nat, table: Table)
    requires TableOk(dev, cfg, entry, Sources(cfg), table) && |table| > PARTITION_LIMIT
    ensures TooManyKeys(dev, cfg, entry)
  {
    forall k | k in table.Keys ensures IsReached(dev, cfg, entry, k) {
      assert EntryOk(dev, cfg, entry, Sources(cfg), k, table[k]);
    }
    assert |table.Keys| == |table|;
  }

  lemma RisesReflexive(dev: Device, cfg: seq<Node>, entry: nat, table: Table)
    requires TableOk(dev, cfg, entry, Sources(cfg), table)
    ensures Rises(dev, table, table)
  {
    forall x | x in table ensures Leq(table[x], table[x])
    {
      assert EntryOk(dev, cfg, entry, Sources(cfg), x, table[x]);
    }
  }

  lemma RisesTransitive(dev: Device, a: Table, b: Table, c: Table)
    requires Rises(dev, a, b) && Rises(dev, b, c)
    ensures Rises(dev, a, c)
  {
    forall x | x in a ensures x in c && Leq(a[x], c[x])
    {
      assert x in b && Leq(a[x], b[x]) && Leq(b[x], c[x]);
    }
  }

  lemma StartStays(dev: Device, table: Table, table': Table, start: Key)
    requires Rises(dev, table, table') && start in table && Leq(NoFact(|dev.names|), table[start])
    ensures start in table' && Leq(NoFact(|dev.names|), table'[start])
  {
    assert Leq(table[start], table'[start]);
  }

  lemma SlackIsBounded(dev: Device, cfg: seq<Node>, entry: nat, table: Table)
    requires TableOk(dev, cfg, entry, Sources(cfg), table)
    ensures TotalSlack(table, Sources(cfg)) >= 0
  {
    forall k | k in table ensures FactOk(dev, Sources(cfg), table[k])
    {
      assert EntryOk(dev, cfg, entry, Sources(cfg), k, table[k]);
    }
    TotalSlackNonNegative(dev, table, Sources(cfg));
  }

  // ----- the fixed point -----

  /** The mutable state of one analysis; lambdas of the original become methods here. */
  class Analysis {
    const dev: Device
    const cfg: seq<Node>
    const entry: nat
    var info: Info
    var unproven: set<nat>
    var incoming: Table
    var work: seq<Key>
    var partitions: nat

    constructor (dev: Device, cfg: seq<Node>, entry: nat)
      requires WellLinked(cfg) && entry < |cfg|
      ensures this.dev == dev && this.cfg == cfg && this.entry == entry
      ensures info == Info(false, [], {}, {}, "", false, 0) && unproven == {}
      ensures var k := Key(entry, Identity(|dev.names|)); incoming == map[k := NoFact(|dev.names|)] && work == [k]
      ensures TableOk(dev, cfg, entry, Sources(cfg), incoming)
      ensures partitions == 1
    {
      this.dev, this.cfg, this.entry := dev, cfg, entry;
      info := Info(false, [], {}, {}, "", false, 0);
      unproven := {};
      var k := Key(entry, Identity(|dev.names|));
      incoming := map[k := NoFact(|dev.names|)];
      work := [k];
      partitions := 1;
      InitialTable(dev, cfg, entry);
    }

    /** Reports a finding once and marks the context as unproven. */
    method Diagnose(source: Option<NodeId>, owner: nat, reason: string)
      requires owner < |dev.names|
      modifies this`info, this`unproven
      ensures info == WithFinding(old(info), Finding(source, dev.names[owner], reason))
      ensures unproven == old(unproven) + {owner}
    {
      var f := Finding(source, dev.names[owner], reason);
      if f !in info.findings {
        info := info.(findings := info.findings + [f]);
      }
      unproven := unproven + {owner};
    }

    /** At the device exit every context that may still be pending is a finding. */
    method LeaveDevice(f: Fact)
      requires |f.pending| == |dev.names|
      modifies this`info, this`unproven
      ensures (info, unproven) == ExitReport(dev, f, |f.pending|, old(info), old(unproven))
    {
      for i := 0 to |f.pending|
        invariant (info, unproven) == ExitReport(dev, f, i, old(info), old(unproven))
      {
        if f.pending[i] {
          Diagnose(None, i, "may exit with pending DMA");
        }
      }
    }

    /** Reports every access of the statement that a pending transfer or a missing
      initialisation makes unsafe, and returns the buffers initialised afterwards. */
    method Inspect(id: NodeId, f: Fact) returns (initialized: set<string>)
      requires |f.pending| == |f.transfers|
      modifies this`info
      ensures initialized == AfterAccesses(dev.Effects(id), f.initialized)
      ensures info == old(info).(bufferFindings := old(info).bufferFindings + AccessFindings(dev, f, dev.Effects(id)))
    {
      initialized := f.initialized;
      var accesses, found := dev.Effects(id), info.bufferFindings;
      for i := 0 to |accesses|
        invariant initialized == AfterAccesses(accesses[..i], f.initialized)
        invariant found == info.bufferFindings + AccessFindings(dev, f, accesses[..i])
      {
        var access := accesses[i];
        assert accesses[..i + 1][..i] == accesses[..i];
        found := found + ClashFindings(dev, f, access);
        if access.allocation {
          initialized := initialized - {access.buffer};
          if access.initializesWholeBuffer {
            initialized := initialized + {access.buffer};
          }
        } else if access.kind == READ && access.local {
          if access.buffer !in initialized {
            found := found + {BufferFinding(access.stmt, None, access.buffer, "BUFFER_INITIALIZATION_UNPROVEN")};
          }
        }
      }
      assert accesses[..|accesses|] == accesses;
      info := info.(bufferFindings := found);
    }

    /** A statement puts context `owner` to a new use. */
    method Reuse(source: NodeId, f: Fact, owner: nat, issue: bool)
      requires |f.pending| == |dev.names| && owner < |dev.names|
      modifies this`info, this`unproven
      ensures info == ReuseReport(dev, source, f, owner, issue, old(info))
      ensures unproven == old(unproven) + ReuseSuspects(f, Some(owner))
    {
      if f.pending[owner] {
        Diagnose(Some(source), owner, "may overwrite pending DMA");
      }
      assert unproven == old(unproven) + ReuseSuspects(f, Some(owner));
      if issue {
        ghost var before := info;
        for i := 0 to |f.pending|
          invariant unproven == old(unproven) + ReuseSuspects(f, Some(owner))
          invariant info == before.(conflicts := before.conflicts + ConflictsUpTo(dev, f, owner, i))
        {
          if f.pending[i] && i != owner {
            info := info.(conflicts := info.conflicts + {{dev.names[owner], dev.names[i]}});
          }
          NextConflict(dev, f, owner, i);
        }
        var demand := CountPending(f.pending);
        info := info.(pendingBound := Max(info.pendingBound, demand + if f.pending[owner] then 0 else 1));
      }
    }

    method Abandon(reason: string, dedicated: bool) returns (ok: bool)
      modifies this`info
      ensures !ok
      ensures info == old(info).(fallback := reason, dedicatedFallback := dedicated || old(info).dedicatedFallback)
    {
      info := info.(fallback := reason, dedicatedFallback := dedicated || info.dedicatedFallback);
      ok := false;
    }

    /** Executes the statement at `k` on facts `f`. It fails exactly when the statement has no model. */
    method Execute(k: Key, f: Fact) returns (ok: bool, b: Binding, g: Fact)
      requires WellLinked(cfg) && 0 < k.pc < |cfg|
      requires |k.binding| == |f.pending| == |f.must| == |f.transfers| == |dev.names|
      requires forall i :: 0 <= i < |k.binding| ==> k.binding[i] < |k.binding|
      modifies this`info, this`unproven
      ensures ok <==> !Escapes(dev, cfg[k.pc].source.value, k.binding)
      ensures ok ==>
                && (b, g) == Transfer(dev, cfg[k.pc].source.value, k.binding, f)
                && info == StatementReport(dev, cfg[k.pc].source.value, k.binding, f, old(info))
                && unproven == old(unproven) + ReuseSuspects(f, Reused(dev, cfg[k.pc].source.value, k.binding))
      ensures !ok ==> info.dedicatedFallback ==
                        (old(info).dedicatedFallback || !RotatesAcross(dev, cfg[k.pc].source.value))
      ensures !ok ==> info.fallback == if RotatesAcross(dev, cfg[k.pc].source.value)
                                       then "rotation across context families"
                                       else "reinitialized rotating context binding"
    {
      var source := cfg[k.pc].source.value;
      b, g := k.binding, f;
      var initialized := Inspect(source, f);
      g := g.(initialized := initialized);
      if source in dev.actions {
        var action := dev.actions[source];
        var handles := Handles(dev.names, action.names);
        if action.kind == Rotate {
          if |handles| != |action.names| {
            ok := Abandon("rotation across context families", false);
            return;
          }
          b := RotateHandles(b, handles);
        } else if action.kind == Wait {
          g := WaitAll(dev, g, b, handles);
        } else if handles != [] {
          var handle := handles[0];
          if action.declaration && b[handle] != handle {
            ok := Abandon("reinitialized rotating context binding", true);
            return;
          }
          Reuse(source, f, b[handle], action.kind == Issue);
          g := Occupy(dev, g, source, b[handle], action);
        }
      }
      ok := true;
    }

    /** Merges facts arriving at `to`, and schedules it again when they say something new. */
    method Propagate(to: Key, f: Fact) returns (ok: bool)
      requires |f.pending| == |f.must| == |f.transfers| == |dev.names|
      requires to in incoming ==>
                 |incoming[to].pending| == |incoming[to].must| == |incoming[to].transfers| == |dev.names|
      modifies this`incoming, this`work, this`partitions, this`info
      ensures incoming == Received(dev, old(incoming), to, f)
      ensures ok ==> info == old(info)
      ensures ok ==> work == if incoming == old(incoming) then old(work) else old(work) + [to]
      ensures partitions == old(partitions) + if to in old(incoming) then 0 else 1
      ensures to !in old(incoming) ==> (ok <==> partitions <= PARTITION_LIMIT)
      ensures to in old(incoming) ==> ok
      ensures !ok ==> info.fallback == "completion binding analysis budget exceeded" && info.dedicatedFallback
    {
      var changed := to !in incoming;
      if changed {
        incoming := incoming[to := f];
        partitions := partitions + 1;
        if partitions > PARTITION_LIMIT {
          ok := Abandon("completion binding analysis budget exceeded", true);
          return;
        }
      } else {
        var merged;
        merged, changed := MergeInto(dev, incoming[to], f);
        incoming := incoming[to := merged];
      }
      if changed {
        work := work + [to];
      }
      ok := true;
    }

    /** Processes a key just taken off the worklist at the device exit. */
    method VisitExit(k: Key)
      requires Popped(dev, cfg, entry, incoming, work, info, unproven, k) && k.pc == 0
      requires Earned(dev, info, unproven) && Grounded(dev, cfg, entry, Sources(cfg), info)
      modifies this`info, this`unproven
      ensures Solving(dev, cfg, entry, incoming, work, info, unproven) && Earned(dev, info, unproven)
      ensures Grounded(dev, cfg, entry, Sources(cfg), info)
      ensures SameFallback(old(info), info)
    {
      var f := incoming[k];
      assert EntryOk(dev, cfg, entry, Sources(cfg), k, f);
      ExitIsReal(dev, cfg, entry, k, f);
      ExitEarned(dev, f, info, unproven);
      ExitLogged(dev, f, |f.pending|, info, unproven);
      LeaveDevice(f);
      PoppedGrows(dev, cfg, entry, incoming, work, old(info), info, old(unproven), unproven, k);
      ExitSettles(dev, cfg, entry, incoming, work, info, unproven, k);
    }

    /** Executes the statement of a key just taken off the worklist. */
    method VisitStatement(k: Key) returns (ok: bool, b: Binding, g: Fact)
      requires Popped(dev, cfg, entry, incoming, work, info, unproven, k) && k.pc != 0
      requires Earned(dev, info, unproven) && Grounded(dev, cfg, entry, Sources(cfg), info)
      requires !info.dedicatedFallback
      modifies this`info, this`unproven
      ensures ok ==>
                && Passing(dev, cfg, entry, incoming, work, info, unproven, k, incoming[k], 0)
                && (b, g) == Transfer(dev, cfg[k.pc].source.value, k.binding, incoming[k])
                && Earned(dev, info, unproven) && SameFallback(old(info), info)
                && Grounded(dev, cfg, entry, Sources(cfg), info)
      ensures !ok ==> !NoRunEscapes(dev) && SomeRunEscapes(dev, !info.dedicatedFallback)
      ensures !ok ==> info.fallback == if info.dedicatedFallback then "reinitialized rotating context binding"
                                       else "rotation across context families"
    {
      var f := incoming[k];
      assert EntryOk(dev, cfg, entry, Sources(cfg), k, f);
      WitnessedUsesAreReal(dev, cfg, entry, k, f);
      TracedClashesAreReal(dev, cfg, entry, k, f);
      ok, b, g := Execute(k, f);
      if ok {
        StatementEarned(dev, cfg[k.pc].source.value, k.binding, f, old(info), old(unproven));
        StatementGrounded(dev, cfg, entry, k, f, old(info));
        StatementLogged(dev, cfg, k, f, old(info), old(unproven));
        PoppedGrows(dev, cfg, entry, incoming, work, old(info), info, old(unproven), unproven, k);
      } else {
        EscapeHappens(dev, cfg, entry, k, f);
      }
    }

    method PassToOne(k: Key, ghost f: Fact, b: Binding, g: Fact, j: nat) returns (ok: bool)
      requires k.pc < |cfg| && j < |cfg[k.pc].successors|
      requires Passing(dev, cfg, entry, incoming, work, info, unproven, k, f, j)
      requires (b, g) == Transfer(dev, cfg[k.pc].source.value, k.binding, f)
      requires partitions == |incoming| <= PARTITION_LIMIT
      modifies this`incoming, this`work, this`partitions, this`info
      ensures !ok ==> info.fallback == "completion binding analysis budget exceeded" && info.dedicatedFallback
      ensures !ok ==> TooManyKeys(dev, cfg, entry)
      ensures ok ==>
                && Passing(dev, cfg, entry, incoming, work, info, unproven, k, f, j + 1) && info == old(info)
                && Rises(dev, old(incoming), incoming)
                && partitions == |incoming| <= PARTITION_LIMIT
                && Progress(old(partitions), TotalSlack(old(incoming), Sources(cfg)), old(work),
                            partitions, TotalSlack(incoming, Sources(cfg)), work)
    {
      hide Witnessed, Traced, TotalSlack, Transfer, Merge;
      var to := Key(cfg[k.pc].successors[j], b);
      PassedOn(dev, cfg, entry, k, f, j);
      ReceivedRises(dev, cfg, entry, incoming, to, g);
      ok := Propagate(to, g);
      if ok {
        PassOn(dev, cfg, entry, old(incoming), old(work), work, info, unproven, k, f, j, to, b, g);
      } else {
        TableGains(dev, cfg, entry, old(incoming), to, g);
        RecordedKeysAreReached(dev, cfg, entry, incoming);
      }
    }

    /** Hands the result of the statement at `k` to each of its successors. */
    method PassToSuccessors(k: Key, ghost f: Fact, b: Binding, g: Fact) returns (ok: bool)
      requires k.pc < |cfg| && Passing(dev, cfg, entry, incoming, work, info, unproven, k, f, 0)
      requires (b, g) == Transfer(dev, cfg[k.pc].source.value, k.binding, f)
      requires partitions == |incoming| <= PARTITION_LIMIT
      modifies this`incoming, this`work, this`partitions, this`info
      ensures !ok ==> info.fallback == "completion binding analysis budget exceeded" && info.dedicatedFallback
      ensures !ok ==> TooManyKeys(dev, cfg, entry)
      ensures ok ==>
                && Solving(dev, cfg, entry, incoming, work, info, unproven) && info == old(info)
                && Rises(dev, old(incoming), incoming)
                && partitions == |incoming| <= PARTITION_LIMIT
                && Progress(old(partitions), TotalSlack(old(incoming), Sources(cfg)), old(work),
                            partitions, TotalSlack(incoming, Sources(cfg)), work)
    {
      hide Witnessed, Traced, TotalSlack, Transfer, Logged, Linked, Settled, Leq;
      var successors := cfg[k.pc].successors;
      RisesReflexive(dev, cfg, entry, incoming);
      for j := 0 to |successors|
        invariant Passing(dev, cfg, entry, incoming, work, info, unproven, k, f, j) && info == old(info)
        invariant Rises(dev, old(incoming), incoming)
        invariant partitions == |incoming| <= PARTITION_LIMIT
        invariant Progress(old(partitions), TotalSlack(old(incoming), Sources(cfg)), old(work),
                           partitions, TotalSlack(incoming, Sources(cfg)), work)
      {
        ghost var table := incoming;
        ok := PassToOne(k, f, b, g, j);
        if !ok {
          return;
        }
        RisesTransitive(dev, old(incoming), table, incoming);
      }
      PassedToAll(dev, cfg, entry, incoming, work, info, unproven, k, f);
      ok := true;
    }

    /** The worklist loop. */
    method Solve() returns (ok: bool)
      requires Solving(dev, cfg, entry, incoming, work, info, unproven) && Earned(dev, info, unproven)
      requires Grounded(dev, cfg, entry, Sources(cfg), info)
      requires partitions == |incoming| <= PARTITION_LIMIT && info.fallback == "" && !info.dedicatedFallback
      requires var start := Key(entry, Identity(|dev.names|));
               start in incoming && Leq(NoFact(|dev.names|), incoming[start])
      modifies this
      ensures ok ==> Certified(dev, cfg, entry, Sources(cfg), incoming, info, unproven)
                     && Earned(dev, info, unproven) && Grounded(dev, cfg, entry, Sources(cfg), info)
                     && info.fallback == "" && |incoming| <= PARTITION_LIMIT
      ensures !ok ==> info.fallback != "" && (!NoRunEscapes(dev) || TooManyKeys(dev, cfg, entry))
      ensures !ok ==> GaveUpRightly(dev, cfg, entry, info)
    {
      hide Witnessed, Traced, TotalSlack, Transfer, Logged, Linked, Earned, Leq, Identity, NoFact;
      ghost var start := Key(entry, Identity(|dev.names|));
      while work != []
        invariant Solving(dev, cfg, entry, incoming, work, info, unproven) && Earned(dev, info, unproven)
        invariant Grounded(dev, cfg, entry, Sources(cfg), info)
        invariant partitions == |incoming| <= PARTITION_LIMIT && info.fallback == "" && !info.dedicatedFallback
        invariant start in incoming && Leq(NoFact(|dev.names|), incoming[start])
        decreases PARTITION_LIMIT - partitions, TotalSlack(incoming, Sources(cfg)), |work|
      {
        SlackIsBounded(dev, cfg, entry, incoming);
        var k := work[0];
        work := work[1..];
        if k.pc == 0 {
          VisitExit(k);
        } else {
          var b, g;
          ok, b, g := VisitStatement(k);
          if !ok {
            return;
          }
          ghost var table := incoming;
          ok := PassToSuccessors(k, incoming[k], b, g);
          if !ok {
            return;
          }
          StartStays(dev, table, incoming, start);
        }
      }
      ok := true;
    }
  }
}
