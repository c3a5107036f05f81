/** What the completion analysis reports, when a table of facts certifies a report, and what
  a certified report says about every run of the device function.
 */
module DmaCertificate {
  import opened Basics
  import opened ControlFlow
  import opened DmaFacts
  import opened DmaModel
  import opened DmaPrecision
  import opened Programs

  datatype Finding = Finding(source: Option<NodeId>, resource: string, reason: string)

  datatype BufferFinding = BufferFinding(access: NodeId, issue: Option<NodeId>, buffer: string, code: string)

  /** An unordered pair of context names is a set of two names. */
  datatype Info = Info(analyzed: bool, findings: seq<Finding>, bufferFindings: set<BufferFinding>,
                       conflicts: set<set<string>>, fallback: string, dedicatedFallback: bool,
                       pendingBound: nat)
  {
    predicate Interferes(a: string, b: string) {
      fallback != "" || {a, b} in conflicts
    }
  }

  datatype Key = Key(pc: nat, binding: Binding)

  type Table = map<Key, Fact>

  // ----- buffer findings -----

  predicate Clash(transfer: Access, access: Access) {
    transfer.buffer == access.buffer && !(transfer.kind == READ && access.kind == READ)
  }

  function ClashCode(access: Access): string {
    if access.kind == READ then "BUFFER_READ_BEFORE_DMA_COMPLETE" else "BUFFER_WRITE_WHILE_DMA_PENDING"
  }

  function ClashFindings(dev: Device, f: Fact, access: Access): set<BufferFinding>
    requires |f.pending| == |f.transfers|
  {
    set owner, issue, transfer |
      0 <= owner < |f.pending| && f.pending[owner] && issue in f.transfers[owner]
      && transfer in dev.Effects(issue) && Clash(transfer, access)
      :: BufferFinding(access.stmt, Some(issue), access.buffer, ClashCode(access))
  }

  predicate NeedsInitialized(access: Access) {
    !access.allocation && access.kind == READ && access.local
  }

  function AccessFindings(dev: Device, f: Fact, accesses: seq<Access>): set<BufferFinding>
    requires |f.pending| == |f.transfers|
    decreases |accesses|
  {
    if accesses == [] then {}
    else
      var last, before := accesses[|accesses| - 1], accesses[..|accesses| - 1];
      AccessFindings(dev, f, before)
      + ClashFindings(dev, f, last)
      + if NeedsInitialized(last) && last.buffer !in AfterAccesses(before, f.initialized)
        then {BufferFinding(last.stmt, None, last.buffer, "BUFFER_INITIALIZATION_UNPROVEN")} else {}
  }

  // ----- what runs can do -----

  ghost predicate DeviceRun(dev: Device, t: seq<NodeId>) {
    IsRun(dev.Visible(), dev.root, t)
  }

  ghost predicate FinishedDeviceRun(dev: Device, t: seq<NodeId>) {
    IsFinishedRun(dev.Visible(), dev.root, t)
  }

  /** The state of some run between two statements or in the middle of one. */
  ghost predicate Moment(dev: Device, s: State)
  {
    || (exists t :: DeviceRun(dev, t) && s == After(dev, t))
    || (exists t, id :: DeviceRun(dev, t + [id]) && s == During(dev, id, After(dev, t)))
  }

  /** No statement of any run lacks a model. */
  ghost predicate NoRunEscapes(dev: Device)
  {
    forall s :: Moment(dev, s) ==> !s.escaped
  }

  /** Some run comes to a statement without a model: a rotation across context families, or a declaration of a
    context that was rotated away. */
  ghost predicate SomeRunEscapes(dev: Device, rotating: bool)
  {
    exists t, id :: DeviceRun(dev, t + [id]) && !After(dev, t).escaped && Escapes(dev, id, After(dev, t).binding)
                    && RotatesAcross(dev, id) == rotating
  }

  /** Some run reuses context `i` while a transfer is in flight on it, or ends with one in flight. */
  ghost predicate Misused(dev: Device, i: nat)
  {
    || (exists t :: DeviceRun(dev, t) && i in After(dev, t).lost)
    || (exists t :: FinishedDeviceRun(dev, t) && i in After(dev, t).LiveSet())
  }

  function OverwriteFinding(dev: Device, id: NodeId, i: nat): Finding
    requires i < |dev.names|
  {
    Finding(Some(id), dev.names[i], "may overwrite pending DMA")
  }

  function ExitFinding(dev: Device, i: nat): Finding
    requires i < |dev.names|
  {
    Finding(None, dev.names[i], "may exit with pending DMA")
  }

  /** On some run statement `id` reuses context `i` while a transfer is in flight on it. */
  ghost predicate Overwrites(dev: Device, id: NodeId, i: nat)
  {
    exists t :: DeviceRun(dev, t + [id]) && !After(dev, t).escaped
                && Reused(dev, id, After(dev, t).binding) == Some(i) && i in After(dev, t).LiveSet()
  }

  /** Some run ends with a transfer in flight on context `i`. */
  ghost predicate LeavesPending(dev: Device, i: nat)
  {
    exists t :: FinishedDeviceRun(dev, t) && i in After(dev, t).LiveSet()
  }

  ghost predicate IsShown(dev: Device, f: Finding, i: nat)
    requires i < |dev.names|
  {
    match f.source
    case None => f == ExitFinding(dev, i) && LeavesPending(dev, i)
    case Some(id) => f == OverwriteFinding(dev, id, i) && Overwrites(dev, id, i)
  }

  /** Some run does what the finding says. */
  ghost predicate FindingHappens(dev: Device, f: Finding)
  {
    exists i: nat :: i < |dev.names| && IsShown(dev, f, i)
  }

  /** On some run a statement executes with transfers in flight on both contexts. */
  ghost predicate BusyTogether(dev: Device, i: nat, j: nat)
  {
    exists t, id :: DeviceRun(dev, t + [id])
      && i in During(dev, id, After(dev, t)).LiveSet() && j in During(dev, id, After(dev, t)).LiveSet()
  }

  // ----- certificates -----

  /** The report accounts for everything the facts `f` at `k` allow the statement there to do. */
  ghost predicate Logged(dev: Device, cfg: seq<Node>, k: Key, f: Fact, info: Info, unproven: set<nat>)
    requires k.pc < |cfg| && WellLinked(cfg)
    requires |k.binding| == |f.pending| == |f.transfers| == |dev.names|
    requires forall i :: 0 <= i < |k.binding| ==> k.binding[i] < |k.binding|
  {
    if k.pc == 0 then
      forall i :: 0 <= i < |f.pending| && f.pending[i] ==> i in unproven && ExitFinding(dev, i) in info.findings
    else
      var id := cfg[k.pc].source.value;
      && AccessFindings(dev, f, dev.Effects(id)) <= info.bufferFindings
      && !Escapes(dev, id, k.binding)
      && match Reused(dev, id, k.binding)
         case None => true
         case Some(owner) =>
           && (f.pending[owner] ==> owner in unproven && OverwriteFinding(dev, id, owner) in info.findings)
           && (dev.actions[id].kind == Issue ==>
                 && (forall i :: 0 <= i < |f.pending| ==> f.pending[i] && i != owner ==>
                       {dev.names[owner], dev.names[i]} in info.conflicts)
                 && Demand(f, owner) <= info.pendingBound)
  }

  /** Whatever the statement at `k` passes on is covered at each of its successors. */
  ghost predicate Linked(dev: Device, cfg: seq<Node>, k: Key, f: Fact, table: Table)
    requires k.pc < |cfg| && WellLinked(cfg)
    requires |k.binding| == |f.pending| == |f.must| == |f.transfers| == |dev.names|
    requires forall i :: 0 <= i < |k.binding| ==> k.binding[i] < |k.binding|
  {
    k.pc != 0 ==>
      var r := Transfer(dev, cfg[k.pc].source.value, k.binding, f);
      forall j :: 0 <= j < |cfg[k.pc].successors| ==>
        var to := Key(cfg[k.pc].successors[j], r.0);
        to in table && Leq(r.1, table[to])
  }

  /** Path `p` from the entry reaches `k` without leaving the protocol. */
  ghost predicate Reaches(dev: Device, cfg: seq<Node>, entry: nat, p: seq<nat>, k: Key)
  {
    && IsPath(cfg, p) && p[0] == entry && p[|p| - 1] == k.pc
    && !After(dev, Trace(cfg, p)).escaped && After(dev, Trace(cfg, p)).binding == k.binding
  }

  ghost predicate IsReached(dev: Device, cfg: seq<Node>, entry: nat, k: Key)
  {
    exists p :: Reaches(dev, cfg, entry, p, k)
  }

  const PARTITION_LIMIT := 32768

  /** Paths reach more points and bindings than the analysis is willing to record. */
  ghost predicate TooManyKeys(dev: Device, cfg: seq<Node>, entry: nat)
  {
    exists keys: set<Key> :: |keys| > 32768 && forall k :: k in keys ==> IsReached(dev, cfg, entry, k)
  }

  /** The contexts are kept apart after a declaration of a rotated context or a table that is too large, and left
    to the older protocol after a rotation across context families. */
  ghost predicate GaveUpRightly(dev: Device, cfg: seq<Node>, entry: nat, info: Info)
  {
    if !info.dedicatedFallback then info.fallback == "rotation across context families" && SomeRunEscapes(dev, true)
    else || (info.fallback == "reinitialized rotating context binding" && SomeRunEscapes(dev, false))
         || (info.fallback == "completion binding analysis budget exceeded" && TooManyKeys(dev, cfg, entry))
  }

  /** Every may-fact is witnessed by a path. */
  ghost predicate Witnessed(dev: Device, cfg: seq<Node>, entry: nat, k: Key, f: Fact)
    requires |f.pending| == |dev.names|
  {
    && IsReached(dev, cfg, entry, k)
    && (forall i :: 0 <= i < |f.pending| ==> f.pending[i] ==>
          exists p :: Reaches(dev, cfg, entry, p, k) && After(dev, Trace(cfg, p)).live[i].Some?)
  }

  /** Some path brings the transfer to context `i` at `k`, or a lost transfer. */
  ghost predicate Shown(dev: Device, cfg: seq<Node>, entry: nat, k: Key, i: nat, x: NodeId)
  {
    exists p :: Reaches(dev, cfg, entry, p, k) && Carries(After(dev, Trace(cfg, p)), i, x)
  }

  /** Every transfer that may be in flight is shown by a path. */
  ghost predicate Traced(dev: Device, cfg: seq<Node>, entry: nat, k: Key, f: Fact)
  {
    forall i: nat, x :: i < |f.transfers| && x in f.transfers[i] ==> Shown(dev, cfg, entry, k, i, x)
  }

  /** Facts that hold at the entry, and that every statement carries over to its successors. */
  ghost predicate IsSolution(dev: Device, cfg: seq<Node>, entry: nat, issues: set<NodeId>, table: Table)
  {
    var start := Key(entry, Identity(|dev.names|));
    && WellLinked(cfg) && start in table && Leq(NoFact(|dev.names|), table[start])
    && forall k {:trigger Solves(dev, cfg, issues, table, k)} :: k in table ==> Solves(dev, cfg, issues, table, k)
  }

  ghost predicate Solves(dev: Device, cfg: seq<Node>, issues: set<NodeId>, table: Table, k: Key)
  {
    && k in table && k.pc < |cfg| && WellLinked(cfg) && |k.binding| == |dev.names| && IsPermutation(k.binding)
    && FactOk(dev, issues, table[k]) && Linked(dev, cfg, k, table[k], table)
  }

  /** Every solution has the key, with facts above these. */
  ghost predicate IsNeeded(dev: Device, cfg: seq<Node>, entry: nat, issues: set<NodeId>, k: Key, f: Fact)
  {
    forall table :: IsSolution(dev, cfg, entry, issues, table) ==> k in table && Leq(f, table[k])
  }

  ghost predicate EntryOk(dev: Device, cfg: seq<Node>, entry: nat, issues: set<NodeId>, k: Key, f: Fact)
  {
    && k.pc < |cfg| && |k.binding| == |dev.names| && IsPermutation(k.binding)
    && FactOk(dev, issues, f)
    && Witnessed(dev, cfg, entry, k, f)
    && Traced(dev, cfg, entry, k, f)
    && IsNeeded(dev, cfg, entry, issues, k, f)
  }

  ghost predicate TableOk(dev: Device, cfg: seq<Node>, entry: nat, issues: set<NodeId>, table: Table)
  {
    forall k {:trigger EntryOk(dev, cfg, entry, issues, k, table[k])} :: k in table ==>
             EntryOk(dev, cfg, entry, issues, k, table[k])
  }

  /** Facts that every solution allows at some statement report this. */
  ghost predicate IsGrounded(dev: Device, cfg: seq<Node>, entry: nat, issues: set<NodeId>, b: BufferFinding)
  {
    WellLinked(cfg) && exists k: Key, f: Fact :: EntryOk(dev, cfg, entry, issues, k, f) && Reports(dev, cfg, k, f, b)
  }

  /** The facts at the statement of `k` report this. */
  ghost predicate Reports(dev: Device, cfg: seq<Node>, k: Key, f: Fact, b: BufferFinding)
    requires WellLinked(cfg)
  {
    0 < k.pc < |cfg| && |f.pending| == |f.transfers| && b in AccessFindings(dev, f, dev.Effects(cfg[k.pc].source.value))
  }

  /** The statement at `k` issues a transfer on context `owner`. */
  ghost predicate IssuesAt(dev: Device, cfg: seq<Node>, k: Key, owner: nat)
  {
    && WellLinked(cfg) && 0 < k.pc < |cfg| && |k.binding| == |dev.names| && IsPermutation(k.binding)
    && var id := cfg[k.pc].source.value;
       id in dev.actions && dev.actions[id].kind == Issue && Reused(dev, id, k.binding) == Some(owner)
  }

  /** How many transfers may be in flight once one has been issued on `owner`. */
  function Demand(f: Fact, owner: nat): nat
    requires owner < |f.pending|
  {
    Count(f.pending) + if f.pending[owner] then 0 else 1
  }

  /** Facts that belong in the table demand the bound. */
  ghost predicate BoundIsDemanded(dev: Device, cfg: seq<Node>, entry: nat, issues: set<NodeId>, bound: nat)
  {
    bound == 0 || exists k, f, owner: nat :: DemandedAt(dev, cfg, entry, issues, k, f, owner, bound)
  }

  ghost predicate DemandedAt(dev: Device, cfg: seq<Node>, entry: nat, issues: set<NodeId>, k: Key, f: Fact, owner: nat,
                             bound: nat)
  {
    EntryOk(dev, cfg, entry, issues, k, f) && IssuesAt(dev, cfg, k, owner) && Demand(f, owner) == bound
  }

  ghost predicate Grounded(dev: Device, cfg: seq<Node>, entry: nat, issues: set<NodeId>, info: Info)
  {
    && (forall b :: b in info.bufferFindings ==> IsGrounded(dev, cfg, entry, issues, b))
    && BoundIsDemanded(dev, cfg, entry, issues, info.pendingBound)
  }

  ghost predicate HasFinding(dev: Device, findings: seq<Finding>, i: nat)
  {
    i < |dev.names| && exists f :: f in findings && f.resource == dev.names[i]
  }

  ghost predicate Blames(dev: Device, f: Finding, unproven: set<nat>)
  {
    exists i :: i in unproven && i < |dev.names| && f.resource == dev.names[i]
  }

  /** The suspect contexts are exactly those with a finding. */
  ghost predicate Matched(dev: Device, findings: seq<Finding>, unproven: set<nat>)
  {
    && (forall i :: i in unproven ==> HasFinding(dev, findings, i))
    && (forall f :: f in findings ==> Blames(dev, f, unproven))
  }

  /** The transfer `issue` in flight at `s` clashes with access `k` of statement `id`. */
  ghost predicate Races(dev: Device, s: State, id: NodeId, k: nat, issue: NodeId)
  {
    && k < |dev.Effects(id)|
    && (exists i :: 0 <= i < |s.live| && s.live[i] == Some(issue))
    && (exists transfer :: transfer in dev.Effects(issue) && Clash(transfer, dev.Effects(id)[k]))
  }

  function RaceFinding(access: Access, issue: NodeId): BufferFinding {
    BufferFinding(access.stmt, Some(issue), access.buffer, ClashCode(access))
  }

  /** Some run has the race that is reported, or has lost a transfer by then. */
  ghost predicate EarnedRace(dev: Device, b: BufferFinding)
  {
    exists t, id, k: nat, issue :: RaceShown(dev, b, t, id, k, issue)
  }

  ghost predicate RaceShown(dev: Device, b: BufferFinding, t: seq<NodeId>, id: NodeId, k: nat, issue: NodeId)
  {
    && DeviceRun(dev, t + [id]) && k < |dev.Effects(id)| && b == RaceFinding(dev.Effects(id)[k], issue)
    && (Races(dev, After(dev, t), id, k, issue) || After(dev, t).lost != {})
  }

  ghost predicate Unrepeated(findings: seq<Finding>)
  {
    forall i, j :: 0 <= i < j < |findings| ==> findings[i] != findings[j]
  }

  /** Nothing is reported without a run that shows it. */
  ghost predicate Earned(dev: Device, info: Info, unproven: set<nat>)
  {
    && Matched(dev, info.findings, unproven) && Unrepeated(info.findings)
    && (forall f :: f in info.findings ==> FindingHappens(dev, f))
    && (forall i :: i in unproven ==> Misused(dev, i))
    && (forall c :: c in info.conflicts ==> EarnedConflict(dev, c))
    && (forall b :: b in info.bufferFindings && b.issue.Some? ==> EarnedRace(dev, b))
  }

  ghost predicate EarnedConflict(dev: Device, c: set<string>)
  {
    exists i: nat, j: nat :: i < |dev.names| && j < |dev.names| && i != j
      && c == {dev.names[i], dev.names[j]} && BusyTogether(dev, i, j)
  }

  ghost predicate Shaped(dev: Device, cfg: seq<Node>, k: Key, f: Fact)
  {
    && k.pc < |cfg| && |k.binding| == |dev.names| && IsPermutation(k.binding)
    && |f.pending| == |f.must| == |f.transfers| == |dev.names|
  }

  ghost predicate Settled(dev: Device, cfg: seq<Node>, table: Table, info: Info, unproven: set<nat>, k: Key)
  {
    && WellLinked(cfg) && k in table && Shaped(dev, cfg, k, table[k])
    && Logged(dev, cfg, k, table[k], info, unproven) && Linked(dev, cfg, k, table[k], table)
  }

  ghost predicate Certified(dev: Device, cfg: seq<Node>, entry: nat, issues: set<NodeId>, table: Table,
                            info: Info, unproven: set<nat>)
  {
    && IsGraphOf(dev.Visible(), cfg, dev.root, entry)
    && TableOk(dev, cfg, entry, issues, table)
    && Key(entry, Identity(|dev.names|)) in table
    && Leq(NoFact(|dev.names|), table[Key(entry, Identity(|dev.names|))])
    && (forall k {:trigger Settled(dev, cfg, table, info, unproven, k)} :: k in table ==>
        Settled(dev, cfg, table, info, unproven, k))
  }

  // ----- following a path -----

  lemma Extend(dev: Device, cfg: seq<Node>, entry: nat, p: seq<nat>, to: nat) returns (q: seq<nat>)
    requires IsGraphOf(dev.Visible(), cfg, dev.root, entry)
    requires IsPath(cfg, p) && p[0] == entry && p[|p| - 1] != 0 && to in cfg[p[|p| - 1]].successors
    ensures IsPath(cfg, q) && q == p + [to] && q[0] == entry
    ensures Trace(cfg, q) == Trace(cfg, p) + [cfg[p[|p| - 1]].source.value]
    ensures DeviceRun(dev, Trace(cfg, p) + [cfg[p[|p| - 1]].source.value])
    ensures After(dev, Trace(cfg, q)) == Step(dev, cfg[p[|p| - 1]].source.value, After(dev, Trace(cfg, p)))
  {
    q := p + [to];
    PathIsRun(dev.Visible(), cfg, dev.root, entry, q);
    assert Trace(cfg, q)[..|p| - 1] == Trace(cfg, p);
  }

  /** The statement at `k` hands witnessed facts to its successors. */
  lemma WitnessStep(dev: Device, cfg: seq<Node>, entry: nat, k: Key, f: Fact, to: nat)
    requires IsGraphOf(dev.Visible(), cfg, dev.root, entry)
    requires 0 < k.pc < |cfg| && to in cfg[k.pc].successors && |k.binding| == |dev.names|
    requires |f.pending| == |f.must| == |f.transfers| == |dev.names|
    requires IsPermutation(k.binding) && Witnessed(dev, cfg, entry, k, f)
    requires !Escapes(dev, cfg[k.pc].source.value, k.binding)
    ensures var r := Transfer(dev, cfg[k.pc].source.value, k.binding, f);
            Witnessed(dev, cfg, entry, Key(to, r.0), r.1)
  {
    var id := cfg[k.pc].source.value;
    var r := Transfer(dev, id, k.binding, f);
    var p :| Reaches(dev, cfg, entry, p, k);
    WitnessOne(dev, cfg, entry, k, f, to, p);
    forall i | 0 <= i < |r.1.pending| && r.1.pending[i]
      ensures exists q :: Reaches(dev, cfg, entry, q, Key(to, r.0)) && After(dev, Trace(cfg, q)).live[i].Some?
    {
      var p :| Reaches(dev, cfg, entry, p, k) && (f.pending[i] ==> After(dev, Trace(cfg, p)).live[i].Some?);
      WitnessPending(dev, cfg, entry, k, f, to, p, i);
    }
  }

  lemma TraceStep(dev: Device, cfg: seq<Node>, entry: nat, k: Key, f: Fact, to: nat)
    requires IsGraphOf(dev.Visible(), cfg, dev.root, entry)
    requires 0 < k.pc < |cfg| && to in cfg[k.pc].successors && |k.binding| == |dev.names|
    requires |f.pending| == |f.must| == |f.transfers| == |dev.names|
    requires IsPermutation(k.binding) && Witnessed(dev, cfg, entry, k, f) && Traced(dev, cfg, entry, k, f)
    requires !Escapes(dev, cfg[k.pc].source.value, k.binding)
    ensures var r := Transfer(dev, cfg[k.pc].source.value, k.binding, f);
            Traced(dev, cfg, entry, Key(to, r.0), r.1)
  {
    hide Step, Transfer, Carries, Escapes, Fits;
    var id := cfg[k.pc].source.value;
    var r := Transfer(dev, id, k.binding, f);
    forall i: nat, x | i < |r.1.transfers| && x in r.1.transfers[i] ensures Shown(dev, cfg, entry, Key(to, r.0), i, x)
    {
      if x in f.transfers[i] {
        assert Shown(dev, cfg, entry, k, i, x);
      }
      var p :| Reaches(dev, cfg, entry, p, k) && (x in f.transfers[i] ==> Carries(After(dev, Trace(cfg, p)), i, x));
      WitnessOne(dev, cfg, entry, k, f, to, p);
      TransferIsReal(dev, id, After(dev, Trace(cfg, p)), f, i, x);
    }
  }

  /** What is needed before a statement makes what it leaves needed at its successors. */
  lemma NeededStep(dev: Device, cfg: seq<Node>, entry: nat, issues: set<NodeId>, k: Key, f: Fact, j: nat)
    requires 0 < k.pc < |cfg| && WellLinked(cfg) && j < |cfg[k.pc].successors| && |k.binding| == |dev.names|
    requires IsPermutation(k.binding) && FactOk(dev, issues, f) && IsNeeded(dev, cfg, entry, issues, k, f)
    ensures var r := Transfer(dev, cfg[k.pc].source.value, k.binding, f);
            IsNeeded(dev, cfg, entry, issues, Key(cfg[k.pc].successors[j], r.0), r.1)
  {
    hide Transfer, Leq;
    var id := cfg[k.pc].source.value;
    var r := Transfer(dev, id, k.binding, f);
    var to := Key(cfg[k.pc].successors[j], r.0);
    forall table | IsSolution(dev, cfg, entry, issues, table) ensures to in table && Leq(r.1, table[to])
    {
      assert Solves(dev, cfg, issues, table, k);
      TransferMonotone(dev, issues, id, k.binding, f, table[k]);
      var above := Transfer(dev, id, k.binding, table[k]).1;
      assert to in table && Leq(above, table[to]);
      LeqTransitive(r.1, above, table[to]);
    }
  }

  lemma LeqTransitive(f: Fact, g: Fact, h: Fact)
    requires Leq(f, g) && Leq(g, h)
    ensures Leq(f, h)
  {
  }

  lemma NeededMerge(dev: Device, cfg: seq<Node>, entry: nat, issues: set<NodeId>, k: Key, known: Fact, arriving: Fact)
    requires FactOk(dev, issues, known) && FactOk(dev, issues, arriving)
    requires IsNeeded(dev, cfg, entry, issues, k, known) && IsNeeded(dev, cfg, entry, issues, k, arriving)
    ensures IsNeeded(dev, cfg, entry, issues, k, Merge(dev, known, arriving))
  {
    hide Merge, Leq;
    forall table | IsSolution(dev, cfg, entry, issues, table)
      ensures k in table && Leq(Merge(dev, known, arriving), table[k])
    {
      assert Solves(dev, cfg, issues, table, k);
      MergeIsLeast(dev, issues, known, arriving, table[k]);
    }
  }

  /** The final table is a solution, and the least one. */
  lemma CertifiedIsLeast(dev: Device, cfg: seq<Node>, entry: nat, issues: set<NodeId>, table: Table, info: Info,
                         unproven: set<nat>)
    requires Certified(dev, cfg, entry, issues, table, info, unproven)
    ensures IsSolution(dev, cfg, entry, issues, table)
    ensures forall k :: k in table ==> IsNeeded(dev, cfg, entry, issues, k, table[k])
  {
    hide Witnessed, Traced, IsNeeded, Leq, Linked, Logged, FactOk;
    forall k | k in table ensures Solves(dev, cfg, issues, table, k) && IsNeeded(dev, cfg, entry, issues, k, table[k])
    {
      assert EntryOk(dev, cfg, entry, issues, k, table[k]) && Settled(dev, cfg, table, info, unproven, k);
    }
  }

  lemma WitnessPending(dev: Device, cfg: seq<Node>, entry: nat, k: Key, f: Fact, to: nat, p: seq<nat>, i: nat)
    requires IsGraphOf(dev.Visible(), cfg, dev.root, entry)
    requires 0 < k.pc < |cfg| && to in cfg[k.pc].successors && |k.binding| == |dev.names|
    requires |f.pending| == |f.must| == |f.transfers| == |dev.names|
    requires IsPermutation(k.binding) && Reaches(dev, cfg, entry, p, k)
    requires !Escapes(dev, cfg[k.pc].source.value, k.binding)
    requires i < |dev.names| && (f.pending[i] ==> After(dev, Trace(cfg, p)).live[i].Some?)
    requires Transfer(dev, cfg[k.pc].source.value, k.binding, f).1.pending[i]
    ensures var b := Transfer(dev, cfg[k.pc].source.value, k.binding, f).0;
            exists q :: Reaches(dev, cfg, entry, q, Key(to, b)) && After(dev, Trace(cfg, q)).live[i].Some?
  {
    WitnessOne(dev, cfg, entry, k, f, to, p);
    PendingIsReal(dev, cfg[k.pc].source.value, After(dev, Trace(cfg, p)), f, i);
  }

  lemma WitnessOne(dev: Device, cfg: seq<Node>, entry: nat, k: Key, f: Fact, to: nat, p: seq<nat>)
    requires IsGraphOf(dev.Visible(), cfg, dev.root, entry)
    requires 0 < k.pc < |cfg| && to in cfg[k.pc].successors && |k.binding| == |dev.names|
    requires |f.pending| == |f.must| == |f.transfers| == |dev.names|
    requires IsPermutation(k.binding) && Reaches(dev, cfg, entry, p, k)
    requires !Escapes(dev, cfg[k.pc].source.value, k.binding)
    ensures var id := cfg[k.pc].source.value;
            && Reaches(dev, cfg, entry, p + [to], Key(to, Transfer(dev, id, k.binding, f).0))
            && After(dev, Trace(cfg, p + [to])) == Step(dev, id, After(dev, Trace(cfg, p)))
  {
    var q := Extend(dev, cfg, entry, p, to);
    StepBinding(dev, cfg[k.pc].source.value, After(dev, Trace(cfg, p)), f);
  }

  // ----- what a certificate says about one path -----

  ghost predicate Paired(dev: Device, info: Info, live: set<nat>)
  {
    forall i, j :: i in live && j in live && i != j && i < |dev.names| && j < |dev.names| ==>
      {dev.names[i], dev.names[j]} in info.conflicts
  }

  ghost predicate Accounted(dev: Device, info: Info, unproven: set<nat>, s: State)
  {
    && !s.escaped && s.lost <= unproven
    && Paired(dev, info, s.LiveSet()) && |s.LiveSet()| <= info.pendingBound
  }

  /** Which contexts are in flight, and which transfers are lost, in the middle of a statement. */
  lemma DuringEffect(dev: Device, id: NodeId, s: State)
    requires Fits(s, |dev.names|) && !s.escaped && !Escapes(dev, id, s.binding)
    ensures var d := During(dev, id, s);
            && !d.escaped && |d.live| == |s.live|
            && match Reused(dev, id, s.binding)
               case None => d.LiveSet() == s.LiveSet() && d.lost == s.lost
               case Some(owner) =>
                 && d.LiveSet() == (if dev.actions[id].kind == Issue then s.LiveSet() + {owner}
                    else s.LiveSet() - {owner})
                 && d.lost == (if owner in s.LiveSet() then s.lost + {owner} else s.lost)
  {
  }

  /** A statement at a settled key is accounted for while it executes. */
  lemma DuringAccounted(dev: Device, cfg: seq<Node>, k: Key, f: Fact, info: Info, unproven: set<nat>, s: State)
    requires WellLinked(cfg) && 0 < k.pc < |cfg|
    requires Covers(dev, s, k.binding, f) && Accounted(dev, info, unproven, s)
    requires Logged(dev, cfg, k, f, info, unproven)
    ensures Accounted(dev, info, unproven, During(dev, cfg[k.pc].source.value, s))
  {
    var id := cfg[k.pc].source.value;
    DuringEffect(dev, id, s);
    ReuseAccounted(dev, k, f, info, unproven, s, Reused(dev, id, k.binding),
                   id in dev.actions && dev.actions[id].kind == Issue, During(dev, id, s));
  }

  lemma ReuseAccounted(dev: Device, k: Key, f: Fact, info: Info, unproven: set<nat>, s: State,
                       reused: Option<nat>, issue: bool, d: State)
    requires Covers(dev, s, k.binding, f) && Accounted(dev, info, unproven, s)
    requires !d.escaped && |d.live| == |dev.names|
    requires reused.None? ==> d.LiveSet() == s.LiveSet() && d.lost == s.lost
    requires reused.Some? ==>
               && reused.value < |dev.names|
               && d.LiveSet() == (if issue then s.LiveSet() + {reused.value} else s.LiveSet() - {reused.value})
               && d.lost == (if reused.value in s.LiveSet() then s.lost + {reused.value} else s.lost)
               && (f.pending[reused.value] ==> reused.value in unproven)
    requires reused.Some? && issue ==>
               && (forall i :: 0 <= i < |f.pending| ==> f.pending[i] && i != reused.value ==>
                     {dev.names[reused.value], dev.names[i]} in info.conflicts)
               && Demand(f, reused.value) <= info.pendingBound
    ensures Accounted(dev, info, unproven, d)
  {
    if reused.Some? && issue {
      IssueAccounted(dev, k, f, info, s, reused.value, d);
    } else {
      SmallerSet(d.LiveSet(), s.LiveSet());
    }
  }

  /** And it is accounted for afterwards, since it then at most completes transfers. */
  lemma StepAccounted(dev: Device, info: Info, unproven: set<nat>, id: NodeId, s: State)
    requires Fits(s, |dev.names|) && Accounted(dev, info, unproven, During(dev, id, s))
    ensures Accounted(dev, info, unproven, Step(dev, id, s))
  {
    StepOnlyCompletes(dev, id, s);
    SmallerSet(Step(dev, id, s).LiveSet(), During(dev, id, s).LiveSet());
  }

  lemma IssueAccounted(dev: Device, k: Key, f: Fact, info: Info, s: State, owner: nat, d: State)
    requires Covers(dev, s, k.binding, f) && owner < |dev.names| && |d.live| == |dev.names|
    requires Paired(dev, info, s.LiveSet())
    requires d.LiveSet() == s.LiveSet() + {owner}
    requires forall i :: 0 <= i < |f.pending| ==> f.pending[i] && i != owner ==>
               {dev.names[owner], dev.names[i]} in info.conflicts
    requires Demand(f, owner) <= info.pendingBound
    ensures Paired(dev, info, d.LiveSet()) && |d.LiveSet()| <= info.pendingBound
  {
    var may := set i | 0 <= i < |f.pending| && f.pending[i];
    CountIsCardinality(f.pending);
    SmallerSet(d.LiveSet(), may + {owner});
    forall i, j | i in d.LiveSet() && j in d.LiveSet() && i != j && i < |dev.names| && j < |dev.names|
      ensures {dev.names[i], dev.names[j]} in info.conflicts
    {
      assert {dev.names[i], dev.names[j]} == {dev.names[j], dev.names[i]};
    }
  }

  lemma StepOnlyCompletes(dev: Device, id: NodeId, s: State)
    requires Fits(s, |dev.names|)
    ensures var d := During(dev, id, s);
            && Step(dev, id, s).lost == d.lost && Step(dev, id, s).escaped == d.escaped
            && Step(dev, id, s).LiveSet() <= d.LiveSet()
  {
    if id in dev.actions && dev.actions[id].kind == Wait {
      CompleteAllKeepsProtocol(dev, During(dev, id, s), Handles(dev.names, dev.actions[id].names));
    }
  }

  /** The table covers state `s` of a run standing at node `pc`. */
  ghost predicate Covered(dev: Device, table: Table, info: Info, unproven: set<nat>, pc: nat, s: State)
  {
    var k := Key(pc, s.binding);
    k in table && Covers(dev, s, s.binding, table[k]) && Accounted(dev, info, unproven, s)
  }

  lemma HopCovered(dev: Device, cfg: seq<Node>, entry: nat, issues: set<NodeId>, table: Table,
                   info: Info, unproven: set<nat>, pc: nat, to: nat, s: State)
    requires Certified(dev, cfg, entry, issues, table, info, unproven)
    requires Covered(dev, table, info, unproven, pc, s)
    requires 0 < pc < |cfg| && to in cfg[pc].successors
    ensures Covered(dev, table, info, unproven, to, Step(dev, cfg[pc].source.value, s))
    ensures Accounted(dev, info, unproven, During(dev, cfg[pc].source.value, s))
  {
    var k, id := Key(pc, s.binding), cfg[pc].source.value;
    assert EntryOk(dev, cfg, entry, issues, k, table[k]) && Settled(dev, cfg, table, info, unproven, k);
    StepCovers(dev, issues, id, s, k.binding, table[k]);
    DuringAccounted(dev, cfg, k, table[k], info, unproven, s);
    StepAccounted(dev, info, unproven, id, s);
    var j :| 0 <= j < |cfg[pc].successors| && cfg[pc].successors[j] == to;
    CoversMonotone(dev, Step(dev, id, s), Transfer(dev, id, k.binding, table[k]).0,
                   Transfer(dev, id, k.binding, table[k]).1, table[Key(to, Step(dev, id, s).binding)]);
  }

  lemma CoversMonotone(dev: Device, s: State, b: Binding, f: Fact, g: Fact)
    requires Covers(dev, s, b, f) && Leq(f, g)
    ensures Covers(dev, s, b, g)
  {
  }

  lemma EntryCovered(dev: Device, cfg: seq<Node>, entry: nat, issues: set<NodeId>, table: Table,
                     info: Info, unproven: set<nat>)
    requires Certified(dev, cfg, entry, issues, table, info, unproven)
    ensures Covered(dev, table, info, unproven, entry, After(dev, []))
  {
    var s := Start(|dev.names|);
    assert s.LiveSet() == {};
    CoversMonotone(dev, s, s.binding, NoFact(|dev.names|), table[Key(entry, s.binding)]);
  }

  lemma LastHop(dev: Device, cfg: seq<Node>, p: seq<nat>)
    requires IsPath(cfg, p) && |p| > 1 && WellLinked(cfg)
    ensures var q := p[..|p| - 1];
            && IsPath(cfg, q) && 0 < q[|q| - 1] < |cfg| && p[|p| - 1] in cfg[q[|q| - 1]].successors
            && After(dev, Trace(cfg, p)) == Step(dev, cfg[q[|q| - 1]].source.value, After(dev, Trace(cfg, q)))
  {
    var q := p[..|p| - 1];
    assert Trace(cfg, p)[..|p| - 2] == Trace(cfg, q);
  }

  /** A certified table covers every run: the facts recorded where a path stands hold there. */
  lemma {:induction false} PathCovered(dev: Device, cfg: seq<Node>, entry: nat, issues: set<NodeId>, table: Table,
                                       info: Info, unproven: set<nat>, p: seq<nat>)
    requires Certified(dev, cfg, entry, issues, table, info, unproven)
    requires IsPath(cfg, p) && p[0] == entry
    ensures Covered(dev, table, info, unproven, p[|p| - 1], After(dev, Trace(cfg, p)))
    decreases |p|
  {
    if |p| == 1 {
      assert Trace(cfg, p) == [];
      EntryCovered(dev, cfg, entry, issues, table, info, unproven);
    } else {
      PathCovered(dev, cfg, entry, issues, table, info, unproven, p[..|p| - 1]);
      LastHop(dev, cfg, p);
      HopCovered(dev, cfg, entry, issues, table, info, unproven, p[|p| - 2], p[|p| - 1],
                 After(dev, Trace(cfg, p[..|p| - 1])));
    }
  }
}
