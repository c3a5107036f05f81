/** Waits for asynchronous matrix operations on the runs of a program with branches and loops: their notes
  are made in the order of the text, and are enough on every run when no conditional body disturbs what
  stands around it.
 */
module MmaRuns {
  import opened Basics
  import opened MmaWaits
  import opened Programs

  // ----- runs on hardware -----

  /** The operations issued by a run, in order. */
  function OpsOf(events: Events, t: seq<NodeId>): seq<Op>
    decreases |t|
  {
    if t == [] then []
    else
      var before, id := OpsOf(events, t[..|t| - 1]), t[|t| - 1];
      if id in events && events[id].Issue? then before + [Op(events[id].future, events[id].queue)] else before
  }

  function LastIssue(ops: seq<Op>, future: string): (i: Option<nat>)
    ensures i.Some? ==> i.value < |ops| && ops[i.value].future == future
    decreases |ops|
  {
    if ops == [] then None
    else if ops[|ops| - 1].future == future then Some(|ops| - 1)
    else LastIssue(ops[..|ops| - 1], future)
  }

  /** The future has been issued, and its last operation retired. */
  ghost predicate IsComplete(ops: seq<Op>, unit: string -> string, now: string -> nat, future: string) {
    var i := LastIssue(ops, future);
    i.Some? && Retired(ops, unit, now, i.value)
  }

  /** A wait with a depth leaves at most that many operations of its target's unit running; one that is
    noted as done before waits for nothing. */
  ghost predicate Waits(events: Events, notes: Notes, unit: string -> string, ops: seq<Op>, now: string -> nat,
                        id: NodeId) {
    id in events && events[id].Wait? && NoteAt(notes, id).WaitDepth? ==>
      var i := LastIssue(ops, events[id].future);
      i.Some? ==>
        var u := unit(ops[i.value].queue);
        now(u) + NoteAt(notes, id).depth >= Load(ops, unit, u)
  }

  /** How many operations the units have retired before the run and after each statement: never fewer than
    before, and as many as the waits ask for. */
  ghost predicate Behaves(events: Events, notes: Notes, unit: string -> string, t: seq<NodeId>, retired: Progress)
  {
    && |retired| == |t| + 1
    && (forall k {:trigger NoLess(retired[k], retired[k + 1])} :: 0 <= k < |t| ==> NoLess(retired[k], retired[k + 1]))
    && (forall k {:trigger WaitsAt(events, notes, unit, t, retired, k)} :: 0 <= k < |t| ==>
          WaitsAt(events, notes, unit, t, retired, k))
  }

  ghost predicate WaitsAt(events: Events, notes: Notes, unit: string -> string, t: seq<NodeId>, retired: Progress,
                          k: nat)
    requires k < |t| && |retired| == |t| + 1
  {
    Waits(events, notes, unit, OpsOf(events, t[..k]), retired[k + 1], t[k])
  }

  /** If statement `k` of the run is a wait, its target is complete after it. */
  ghost predicate WaitIsDone(events: Events, unit: string -> string, t: seq<NodeId>, retired: Progress, k: nat)
    requires k < |t| && |retired| == |t| + 1
  {
    t[k] in events && events[t[k]].Wait? ==>
      IsComplete(OpsOf(events, t[..k + 1]), unit, retired[k + 1], events[t[k]].future)
  }

  // ----- the condition -----

  /** How many operations of its queue, itself included, come after those before it. */
  function FromEnd(b: Book, future: string): Option<nat> {
    if future !in b.futures then None
    else
      var queue := QueueOf(b, b.futures[future].queue);
      var p := IndexOf(queue, future);
      if p.Some? then Some(|queue| - p.value) else None
  }

  /** Nothing that the book says about these futures has changed. */
  predicate Undisturbed(b: Book, b': Book, futures: set<string>) {
    forall f :: f in futures ==>
      && f in b.futures && f in b'.futures && b.futures[f] == b'.futures[f]
      && (b.futures[f].completion == Pending ==> FromEnd(b, f) == FromEnd(b', f))
  }

  /** The futures that have been issued whenever what follows is reached: those issued outside conditional bodies. */
  function Issues(events: Events, s: Stmt, known: set<string>): set<string>
    decreases s
  {
    match s
    case Seq(stmts) => IssuesOfAll(events, stmts, known)
    case Block(body) => Issues(events, body, known)
    case Leaf(id) => if id in events && events[id].Issue? then known + {events[id].future} else known
    case _ => known
  }

  function IssuesOfAll(events: Events, stmts: seq<Stmt>, known: set<string>): set<string>
    decreases stmts
  {
    if stmts == [] then known else IssuesOfAll(events, stmts[1..], Issues(events, stmts[0], known))
  }

  /** Every issue is of a new future, every wait for a future that has been issued whenever it is reached,
    and visiting a conditional body disturbs none of the futures issued before it. */
  predicate WellScoped(events: Events, s: Stmt, b: Book, known: set<string>)
    decreases s
  {
    match s
    case Seq(stmts) => AllWellScoped(events, stmts, b, known)
    case If(id, thn, els) =>
      var b1 := Visited(events, thn, b);
      && id !in events && WellScoped(events, thn, b, known) && Undisturbed(b, b1, known)
      && WellScoped(events, els, b1, known) && Undisturbed(b, Visited(events, els, b1), known)
    case Loop(id, body) =>
      id !in events && WellScoped(events, body, b, known) && Undisturbed(b, Visited(events, body, b), known)
    case InThreads(id, body) =>
      id !in events && WellScoped(events, body, b, known) && Undisturbed(b, Visited(events, body, b), known)
    case Block(body) => WellScoped(events, body, b, known)
    case Leaf(id) =>
      id in events ==> if events[id].Issue? then events[id].future !in b.futures else events[id].future in known
    case Return(id) => id !in events
    case Break(id) => id !in events
    case Continue(id) => id !in events
    case Absent => true
  }

  predicate AllWellScoped(events: Events, stmts: seq<Stmt>, b: Book, known: set<string>)
    decreases stmts
  {
    stmts != [] ==>
      && WellScoped(events, stmts[0], b, known)
      && AllWellScoped(events, stmts[1..], Visited(events, stmts[0], b), Issues(events, stmts[0], known))
  }

  // ----- the book on a run -----

  /** What the book says of a future is true of the run: it has been issued, if emitted then retired, and if
    pending then at least as many operations of its unit came after it as of its queue. */
  ghost predicate TracksOne(b: Book, ops: seq<Op>, unit: string -> string, now: string -> nat, f: string) {
    var i := LastIssue(ops, f);
    && f in b.futures && i.Some? && ops[i.value].queue == b.futures[f].queue
    && (b.futures[f].completion == Emitted ==> Retired(ops, unit, now, i.value))
    && (b.futures[f].completion == Pending ==>
          && FromEnd(b, f).Some?
          && var u := unit(ops[i.value].queue);
             Load(ops[..i.value], unit, u) + FromEnd(b, f).value <= Load(ops, unit, u))
  }

  ghost predicate Tracks(b: Book, known: set<string>, ops: seq<Op>, unit: string -> string, now: string -> nat) {
    forall f :: f in known ==> TracksOne(b, ops, unit, now, f)
  }

  /** The futures issued between two points of a run are new to the book. */
  ghost predicate IssuesNew(events: Events, t: seq<NodeId>, a: nat, c: nat, b: Book)
    requires c <= |t|
  {
    forall k :: a <= k < c && t[k] in events && events[t[k]].Issue? ==> events[t[k]].future !in b.futures
  }

  lemma UndisturbedTracks(b: Book, b': Book, known: set<string>, ops: seq<Op>, unit: string -> string,
                          now: string -> nat)
    requires Tracks(b, known, ops, unit, now) && Undisturbed(b, b', known)
    ensures Tracks(b', known, ops, unit, now)
  {
    hide FromEnd, Retired, Load, LastIssue;
    forall f | f in known ensures TracksOne(b', ops, unit, now, f) {
      assert TracksOne(b, ops, unit, now, f);
    }
  }

  lemma OpsNext(events: Events, t: seq<NodeId>, k: nat)
    requires k < |t|
    ensures OpsOf(events, t[..k + 1]) == OpsOf(events, t[..k]) +
              if t[k] in events && events[t[k]].Issue? then [Op(events[t[k]].future, events[t[k]].queue)] else []
  {
    assert t[..k + 1][..k] == t[..k];
  }

  /** One more operation, of another future, and more retired. */
  lemma TracksAfterOther(b: Book, ops: seq<Op>, op: Op, unit: string -> string, was: string -> nat, now: string -> nat,
                         f: string)
    requires TracksOne(b, ops, unit, was, f) && NoLess(was, now) && op.future != f
    ensures TracksOne(b, ops + [op], unit, now, f)
    ensures LastIssue(ops + [op], f) == LastIssue(ops, f)
    ensures Load(ops + [op], unit, unit(op.queue)) == Load(ops, unit, unit(op.queue)) + 1
  {
    hide FromEnd;
    var more := ops + [op];
    assert more[..|ops|] == ops;
    var i := LastIssue(ops, f).value;
    assert more[..i] == ops[..i];
  }

  /** While the futures the book knows are not issued again, what it says of them stays true. */
  lemma {:induction false} TracksLater(events: Events, unit: string -> string, notes: Notes, t: seq<NodeId>,
                                       retired: Progress,
                                       a: nat, c: nat, b: Book, known: set<string>)
    requires Behaves(events, notes, unit, t, retired) && a <= c <= |t|
    requires Tracks(b, known, OpsOf(events, t[..a]), unit, retired[a]) && IssuesNew(events, t, a, c, b)
    ensures Tracks(b, known, OpsOf(events, t[..c]), unit, retired[c])
    decreases c
  {
    hide TracksOne, OpsOf, WaitsAt;
    if a < c {
      TracksLater(events, unit, notes, t, retired, a, c - 1, b, known);
      OpsNext(events, t, c - 1);
      assert NoLess(retired[c - 1], retired[c - 1 + 1]);
      forall f | f in known ensures TracksOne(b, OpsOf(events, t[..c]), unit, retired[c], f) {
        TracksOneLater(events, t, c - 1, b, unit, retired[c - 1], retired[c], f);
      }
    }
  }

  lemma TracksOneLater(events: Events, t: seq<NodeId>, k: nat, b: Book, unit: string -> string,
                       was: string -> nat, now: string -> nat, f: string)
    requires k < |t| && TracksOne(b, OpsOf(events, t[..k]), unit, was, f) && NoLess(was, now)
    requires t[k] in events && events[t[k]].Issue? ==> events[t[k]].future !in b.futures
    ensures TracksOne(b, OpsOf(events, t[..k + 1]), unit, now, f)
  {
    hide OpsOf, FromEnd;
    OpsNext(events, t, k);
    var ops := OpsOf(events, t[..k]);
    if t[k] in events && events[t[k]].Issue? {
      TracksAfterOther(b, ops, Op(events[t[k]].future, events[t[k]].queue), unit, was, now, f);
    } else {
      assert ops + [] == ops;
    }
  }

  // ----- one event -----

  /** Each queue holds the pending futures of its scope once. */
  ghost predicate Orderly(b: Book) {
    forall q :: NoRepeats(QueueOf(b, q)) && forall k :: 0 <= k < |QueueOf(b, q)| ==>
      QueueOf(b, q)[k] in b.futures && b.futures[QueueOf(b, q)[k]] == FutureState(q, Pending)
  }

  lemma NotBefore(names: seq<string>, name: string, k: nat)
    requires k <= |names| && name !in names[..k]
    ensures forall j :: 0 <= j < k ==> names[j] != name
  {
    forall j | 0 <= j < k ensures names[j] != name { assert names[j] == names[..k][j]; }
  }

  lemma IndexIs(names: seq<string>, name: string, k: nat)
    requires k < |names| && names[k] == name && name !in names[..k]
    ensures IndexOf(names, name) == Some(k)
  {
    hide IndexOf;
    var i := IndexOf(names, name).value;
    NotBefore(names, name, k);
    NotBefore(names, name, i);
  }

  lemma IndexInMore(names: seq<string>, name: string, last: string)
    requires name in names
    ensures IndexOf(names + [last], name) == IndexOf(names, name)
  {
    hide IndexOf;
    var k := IndexOf(names, name).value;
    assert (names + [last])[..k] == names[..k];
    IndexIs(names + [last], name, k);
  }

  lemma IndexInRest(names: seq<string>, name: string, n: nat)
    requires n <= |names| && name in names && name !in names[..n]
    ensures IndexOf(names, name).Some? && IndexOf(names, name).value >= n
    ensures IndexOf(names[n..], name) == Some(IndexOf(names, name).value - n)
  {
    hide IndexOf;
    var k := IndexOf(names, name).value;
    NotBefore(names, name, n);
    NotBefore(names, name, k);
    IndexIs(names[n..], name, k - n);
  }

  lemma IssueIsOrderly(b: Book, future: string, queue: string)
    requires Orderly(b) && future !in b.futures
    ensures Orderly(AfterIssue(b, future, queue))
  {
    var b' := AfterIssue(b, future, queue);
    forall q
      ensures NoRepeats(QueueOf(b', q))
      ensures forall k :: 0 <= k < |QueueOf(b', q)| ==>
                QueueOf(b', q)[k] in b'.futures && b'.futures[QueueOf(b', q)[k]] == FutureState(q, Pending)
    {
      assert NoRepeats(QueueOf(b, q));
      assert QueueOf(b', q) == if q == queue then QueueOf(b, q) + [future] else QueueOf(b, q);
    }
  }

  lemma IssueTracks(b: Book, known: set<string>, ops: seq<Op>, unit: string -> string, was: string -> nat,
                    now: string -> nat,
                    future: string, queue: string)
    requires Tracks(b, known, ops, unit, was) && NoLess(was, now) && Orderly(b) && future !in b.futures
    ensures Tracks(AfterIssue(b, future, queue), known + {future}, ops + [Op(future, queue)], unit, now)
  {
    hide Tracks, TracksOne, Orderly;
    forall f | f in known + {future}
      ensures TracksOne(AfterIssue(b, future, queue), ops + [Op(future, queue)], unit, now, f)
    {
      if f == future {
        NewIsTracked(b, ops, unit, now, future, queue);
      } else {
        assert TracksOne(b, ops, unit, was, f) by { assert f in known; KnownIsTracked(b, known, ops, unit, was, f); }
        OtherIsTracked(b, ops, unit, was, now, future, queue, f);
      }
    }
    EachIsTracked(AfterIssue(b, future, queue), known + {future}, ops + [Op(future, queue)], unit, now);
  }

  lemma KnownIsTracked(b: Book, known: set<string>, ops: seq<Op>, unit: string -> string, now: string -> nat, f: string)
    requires Tracks(b, known, ops, unit, now) && f in known
    ensures TracksOne(b, ops, unit, now, f)
  {
  }

  lemma EachIsTracked(b: Book, known: set<string>, ops: seq<Op>, unit: string -> string, now: string -> nat)
    requires forall f :: f in known ==> TracksOne(b, ops, unit, now, f)
    ensures Tracks(b, known, ops, unit, now)
  {
  }

  lemma NewIsTracked(b: Book, ops: seq<Op>, unit: string -> string, now: string -> nat, future: string, queue: string)
    requires Orderly(b) && future !in b.futures
    ensures TracksOne(AfterIssue(b, future, queue), ops + [Op(future, queue)], unit, now, future)
  {
    hide IndexOf;
    var more, q := ops + [Op(future, queue)], QueueOf(b, queue);
    assert more[..|ops|] == ops;
    assert (q + [future])[..|q|] == q;
    IndexIs(q + [future], future, |q|);
  }

  lemma OtherIsTracked(b: Book, ops: seq<Op>, unit: string -> string, was: string -> nat, now: string -> nat,
                       future: string, queue: string, f: string)
    requires TracksOne(b, ops, unit, was, f) && NoLess(was, now) && Orderly(b) && future != f
    ensures TracksOne(AfterIssue(b, future, queue), ops + [Op(future, queue)], unit, now, f)
  {
    hide IndexOf, Load, NoLess, LastIssue;
    TracksAfterOther(b, ops, Op(future, queue), unit, was, now, f);
    var q := QueueOf(b, b.futures[f].queue);
    if b.futures[f].completion == Pending && b.futures[f].queue == queue {
      IndexInMore(q, f, future);
      assert (ops + [Op(future, queue)])[..LastIssue(ops, f).value] == ops[..LastIssue(ops, f).value];
    }
  }

  lemma WaitIsOrderly(b: Book, future: string)
    requires Orderly(b)
    ensures Orderly(AfterWait(b, future).0)
  {
    hide IndexOf;
    var b' := AfterWait(b, future).0;
    if AfterWait(b, future).1.WaitDepth? {
      var scope := b.futures[future].queue;
      var queue, n := QueueOf(b, scope), IndexOf(QueueOf(b, scope), future).value + 1;
      forall q
        ensures NoRepeats(QueueOf(b', q))
        ensures forall k :: 0 <= k < |QueueOf(b', q)| ==>
                  QueueOf(b', q)[k] in b'.futures && b'.futures[QueueOf(b', q)[k]] == FutureState(q, Pending)
      {
        assert NoRepeats(QueueOf(b, q));
        assert QueueOf(b', q) == if q == scope then queue[n..] else QueueOf(b, q);
        forall k | 0 <= k < |QueueOf(b', q)|
          ensures QueueOf(b', q)[k] in b'.futures && b'.futures[QueueOf(b', q)[k]] == FutureState(q, Pending)
        {
          var x := QueueOf(b', q)[k];
          assert x in b.futures && b.futures[x] == FutureState(q, Pending);
          assert x !in queue[..n];
        }
      }
    }
  }

  lemma WaitTracks(b: Book, known: set<string>, ops: seq<Op>, unit: string -> string, was: string -> nat,
                   now: string -> nat,
                   future: string)
    requires Tracks(b, known, ops, unit, was) && NoLess(was, now) && Orderly(b) && future in known
    requires AfterWait(b, future).1.WaitDepth? && LastIssue(ops, future).Some? ==>
               var u := unit(ops[LastIssue(ops, future).value].queue);
               now(u) + AfterWait(b, future).1.depth >= Load(ops, unit, u)
    ensures Tracks(AfterWait(b, future).0, known, ops, unit, now) && IsComplete(ops, unit, now, future)
  {
    hide Tracks, TracksOne, Orderly, Load, AfterWait, IndexOf;
    KnownIsTracked(b, known, ops, unit, was, future);
    forall f | f in known ensures TracksOne(AfterWait(b, future).0, ops, unit, now, f) {
      KnownIsTracked(b, known, ops, unit, was, f);
      StillTracked(b, ops, unit, was, now, future, f);
    }
    EachIsTracked(AfterWait(b, future).0, known, ops, unit, now);
    StillTracked(b, ops, unit, was, now, future, future);
    WaitedIsEmitted(b, ops, unit, was, future);
    EmittedIsDone(AfterWait(b, future).0, ops, unit, now, future);
  }

  lemma WaitedIsEmitted(b: Book, ops: seq<Op>, unit: string -> string, now: string -> nat, future: string)
    requires TracksOne(b, ops, unit, now, future)
    ensures IsEmitted(AfterWait(b, future).0, future)
  {
    hide IndexOf, Load;
    if b.futures[future].completion == Pending {
      var queue := QueueOf(b, b.futures[future].queue);
      var p := IndexOf(queue, future).value;
      assert queue[..p + 1][p] == future;
    }
  }

  lemma EmittedIsDone(b: Book, ops: seq<Op>, unit: string -> string, now: string -> nat, future: string)
    requires TracksOne(b, ops, unit, now, future) && IsEmitted(b, future)
    ensures IsComplete(ops, unit, now, future)
  {
  }

  lemma StillTracked(b: Book, ops: seq<Op>, unit: string -> string, was: string -> nat, now: string -> nat,
                     future: string, f: string)
    requires TracksOne(b, ops, unit, was, f) && TracksOne(b, ops, unit, was, future) && NoLess(was, now) && Orderly(b)
    requires AfterWait(b, future).1.WaitDepth? ==>
               var u := unit(ops[LastIssue(ops, future).value].queue);
               now(u) + AfterWait(b, future).1.depth >= Load(ops, unit, u)
    ensures TracksOne(AfterWait(b, future).0, ops, unit, now, f)
  {
    hide IndexOf, Load, LastIssue;
    if b.futures[future].completion == Pending && b.futures[f].completion == Pending
       && b.futures[f].queue == b.futures[future].queue {
      var queue := QueueOf(b, b.futures[f].queue);
      var n, p := IndexOf(queue, future).value + 1, IndexOf(queue, f).value;
      if f in queue[..n] {
        NotBefore(queue, f, p);
      } else {
        IndexInRest(queue, f, n);
      }
    } else if b.futures[f].completion == Pending && b.futures[f].queue != b.futures[future].queue {
      OtherScope(b, b.futures[future].queue, f);
    }
  }

  /** A pending future stands in no queue but its own scope's. */
  lemma OtherScope(b: Book, q: string, f: string)
    requires Orderly(b) && f in b.futures && b.futures[f].queue != q
    ensures f !in QueueOf(b, q)
  {
  }

  // ----- along a run -----

  /** Everything that is fixed along a run of a program. */
  datatype Setting = Setting(events: Events, notes: Notes, unit: string -> string, t: seq<NodeId>, retired: Progress)
  {
    ghost predicate Valid() {
      Behaves(events, notes, unit, t, retired)
    }

    /** The book and the run agree at a point of the run. */
    ghost predicate At(b: Book, known: set<string>, k: nat) {
      k <= |t| < |retired| && Orderly(b) && Tracks(b, known, OpsOf(events, t[..k]), unit, retired[k])
    }

    /** Between two points every wait is done, and no future in the book is issued. */
    ghost predicate Sound(b: Book, a: nat, c: nat) {
      && c <= |t| && |retired| == |t| + 1
      && (forall k :: a <= k < c ==> WaitIsDone(events, unit, t, retired, k))
      && IssuesNew(events, t, a, c, b)
    }
  }

  lemma Joins(s: Setting, b: Book, b': Book, a: nat, i: nat, c: nat)
    requires s.Sound(b, a, i) && s.Sound(b', i, c) && b.futures.Keys <= b'.futures.Keys
    ensures s.Sound(b, a, c)
  {
    hide WaitIsDone;
  }

  /** A control statement does nothing to the matrix operations. */
  lemma ControlIsSilent(s: Setting, b: Book, known: set<string>, a: nat)
    requires s.Valid() && a < |s.t| && s.t[a] !in s.events
    ensures s.Sound(b, a, a + 1)
    ensures s.At(b, known, a) ==> s.At(b, known, a + 1)
  {
    hide Tracks, Waits, IsComplete;
    if s.At(b, known, a) {
      TracksLater(s.events, s.unit, s.notes, s.t, s.retired, a, a + 1, b, known);
    }
  }

  /** Facts about the futures in the book outlive any stretch that issues only new ones. */
  lemma Outlives(s: Setting, b: Book, b': Book, known: set<string>, a: nat, c: nat)
    requires s.Valid() && s.At(b, known, a) && s.Sound(b, a, c) && a <= c
    requires Undisturbed(b, b', known) && Orderly(b')
    ensures s.At(b', known, c)
  {
    hide Tracks, Behaves, WaitIsDone;
    TracksLater(s.events, s.unit, s.notes, s.t, s.retired, a, c, b, known);
    UndisturbedTracks(b, b', known, OpsOf(s.events, s.t[..c]), s.unit, s.retired[c]);
  }

  lemma {:induction false} VisitIsOrderly(events: Events, s: Stmt, b: Book, known: set<string>)
    requires WellScoped(events, s, b, known) && Orderly(b)
    ensures Orderly(Visited(events, s, b)) && b.futures.Keys <= Visited(events, s, b).futures.Keys
    decreases s
  {
    hide Orderly, AfterIssue, AfterWait, Undisturbed;
    match s {
      case Seq(stmts) => VisitAllIsOrderly(events, stmts, b, known);
      case If(_, thn, els) =>
        VisitIsOrderly(events, thn, b, known);
        VisitIsOrderly(events, els, Visited(events, thn, b), known);
      case Loop(_, body) => VisitIsOrderly(events, body, b, known);
      case InThreads(_, body) => VisitIsOrderly(events, body, b, known);
      case Block(body) => VisitIsOrderly(events, body, b, known);
      case Leaf(id) =>
        if id in events {
          BookGrows(b, events[id]);
          if events[id].Issue? {
            IssueIsOrderly(b, events[id].future, events[id].queue);
          } else {
            WaitIsOrderly(b, events[id].future);
          }
        }
      case _ =>
    }
  }

  lemma BookGrows(b: Book, e: Event)
    ensures b.futures.Keys <= AfterEvent(b, e).futures.Keys
  {
  }

  lemma {:induction false} VisitAllIsOrderly(events: Events, stmts: seq<Stmt>, b: Book, known: set<string>)
    requires AllWellScoped(events, stmts, b, known) && Orderly(b)
    ensures Orderly(VisitedAll(events, stmts, b)) && b.futures.Keys <= VisitedAll(events, stmts, b).futures.Keys
    decreases stmts
  {
    hide Orderly, Visited, WellScoped, Issues;
    if stmts != [] {
      VisitIsOrderly(events, stmts[0], b, known);
      VisitAllIsOrderly(events, stmts[1..], Visited(events, stmts[0], b), Issues(events, stmts[0], known));
    }
  }

  /** An executed event moves the book and the run together. */
  lemma LeafFollows(s: Setting, b: Book, known: set<string>, a: nat, id: NodeId)
    requires s.Valid() && a < |s.t| && s.t[a] == id && s.At(b, known, a)
    requires WellScoped(s.events, Leaf(id), b, known) && Annotated(s.events, Leaf(id), b, s.notes)
    ensures s.Sound(b, a, a + 1)
    ensures s.At(Visited(s.events, Leaf(id), b), Issues(s.events, Leaf(id), known), a + 1)
  {
    hide Tracks, Orderly, AfterWait, AfterIssue, IsComplete;
    assert NoLess(s.retired[a], s.retired[a + 1]) && WaitsAt(s.events, s.notes, s.unit, s.t, s.retired, a);
    OpsNext(s.events, s.t, a);
    if id !in s.events {
      ControlIsSilent(s, b, known, a);
    } else if s.events[id].Issue? {
      IssueIsOrderly(b, s.events[id].future, s.events[id].queue);
      var e := s.events[id];
      IssueTracks(b, known, OpsOf(s.events, s.t[..a]), s.unit, s.retired[a], s.retired[a + 1], e.future, e.queue);
    } else {
      WaitIsOrderly(b, s.events[id].future);
      assert OpsOf(s.events, s.t[..a + 1]) == OpsOf(s.events, s.t[..a]);
      WaitTracks(b, known, OpsOf(s.events, s.t[..a]), s.unit, s.retired[a], s.retired[a + 1], s.events[id].future);
    }
  }

  /** Along any run of a well-scoped statement every wait is done, and where it runs to its end the book
    after the visit agrees with the run. */
  lemma {:induction false} Follows(s: Setting, p: Stmt, b: Book, known: set<string>, a: nat, c: nat, o: Outcome)
    requires s.Valid() && a <= c <= |s.t| && Exec(s.events.Keys, p, s.t[a..c], o) && s.At(b, known, a)
    requires WellScoped(s.events, p, b, known) && Annotated(s.events, p, b, s.notes)
    ensures s.Sound(b, a, c)
    ensures o == Normal ==> s.At(Visited(s.events, p, b), Issues(s.events, p, known), c)
    decreases c - a, p
  {
    hide Tracks, Orderly, Behaves, Undisturbed, WaitIsDone, AfterEvent;
    NothingBetween(s, b, a);
    var t := s.t[a..c];
    match p {
      case Absent =>
      case Seq(stmts) => FollowsAll(s, stmts, b, known, a, c, o);
      case If(id, thn, els) =>
        if t != [] {
          IfFollows(s, p, b, known, a, c, o);
        }
      case Loop(id, body) =>
        if t != [] {
          LoopFollows(s, p, b, known, a, c, o);
        }
      case InThreads(id, body) =>
        if t != [] {
          ControlIsSilent(s, b, known, a);
          assert t[1..] == s.t[a + 1..c];
          VisitIsOrderly(s.events, body, b, known);
          if Exec(s.events.Keys, body, t[1..], o) {
            Follows(s, body, b, known, a + 1, c, o);
            Joins(s, b, b, a, a + 1, c);
          }
          Outlives(s, b, Visited(s.events, body, b), known, a, c);
        }
      case Block(body) => Follows(s, body, b, known, a, c, o);
      case Leaf(id) =>
        if t != [] { LeafFollows(s, b, known, a, id); }
      case Return(id) => if t != [] { ControlIsSilent(s, b, known, a); }
      case Break(id) => if t != [] { ControlIsSilent(s, b, known, a); }
      case Continue(id) => if t != [] { ControlIsSilent(s, b, known, a); }
    }
  }

  lemma {:induction false} IfFollows(s: Setting, p: Stmt, b: Book, known: set<string>, a: nat, c: nat, o: Outcome)
    requires s.Valid() && a < c <= |s.t| && p.If? && Exec(s.events.Keys, p, s.t[a..c], o) && s.At(b, known, a)
    requires WellScoped(s.events, p, b, known) && Annotated(s.events, p, b, s.notes)
    ensures s.Sound(b, a, c)
    ensures o == Normal ==> s.At(Visited(s.events, p, b), known, c)
    decreases c - a, p, 0
  {
    hide Tracks, Orderly, Behaves, Undisturbed, WaitIsDone;
    ControlIsSilent(s, b, known, a);
    var t, b1 := s.t[a..c], Visited(s.events, p.thn, b);
    assert t[1..] == s.t[a + 1..c];
    VisitIsOrderly(s.events, p.thn, b, known);
    VisitIsOrderly(s.events, p.els, b1, known);
    if Exec(s.events.Keys, p.thn, t[1..], o) {
      Follows(s, p.thn, b, known, a + 1, c, o);
      Joins(s, b, b, a, a + 1, c);
    } else {
      NothingBetween(s, b, a + 1);
      Outlives(s, b, b1, known, a + 1, a + 1);
      Follows(s, p.els, b1, known, a + 1, c, o);
      Joins(s, b, b1, a, a + 1, c);
    }
    Outlives(s, b, Visited(s.events, p.els, b1), known, a, c);
  }

  lemma NothingBetween(s: Setting, b: Book, a: nat)
    requires s.Valid() && a <= |s.t|
    ensures s.Sound(b, a, a)
  {
  }

  lemma {:induction false} LoopFollows(s: Setting, p: Stmt, b: Book, known: set<string>, a: nat, c: nat, o: Outcome)
    requires s.Valid() && a < c <= |s.t| && p.Loop? && Exec(s.events.Keys, p, s.t[a..c], o) && s.At(b, known, a)
    requires WellScoped(s.events, p, b, known) && Annotated(s.events, p, b, s.notes)
    ensures s.Sound(b, a, c)
    ensures o == Normal ==> s.At(Visited(s.events, p, b), known, c)
    decreases c - a, p, 0
  {
    hide Tracks, Orderly, Behaves, Undisturbed, WaitIsDone, Exec, IssuesNew, AfterEvent;
    var t := s.t[a..c];
    var i, within := LoopRuns(s.events.Keys, p, t, o);
    ControlIsSilent(s, b, known, a);
    VisitIsOrderly(s.events, p.body, b, known);
    if i > 0 {
      assert t[1..i] == s.t[a + 1..a + i] && t[i..] == s.t[a + i..c];
      Follows(s, p.body, b, known, a + 1, a + i, within);
      Joins(s, b, b, a, a + 1, a + i);
      KeepsAgreeing(s, b, known, a, a + i);
      Follows(s, p, b, known, a + i, c, o);
      Joins(s, b, b, a, a + i, c);
    } else if |t| > 1 {
      assert t[1..] == s.t[a + 1..c];
      Follows(s, p.body, b, known, a + 1, c, within);
      Joins(s, b, b, a, a + 1, c);
    }
    Outlives(s, b, Visited(s.events, p.body, b), known, a, c);
  }

  /** A run of a loop that has begun: a first iteration that ends at `i` and the rest of the loop, or one
    iteration that is not followed by another test, or none. */
  lemma LoopRuns(visible: set<NodeId>, p: Stmt, t: seq<NodeId>, o: Outcome) returns (i: nat, within: Outcome)
    requires p.Loop? && t != [] && Exec(visible, p, t, o)
    ensures i <= |t| && t[0] == p.id
    ensures i > 0 ==> Exec(visible, p.body, t[1..i], within) && Exec(visible, p, t[i..], o)
    ensures i == 0 && |t| > 1 ==> Exec(visible, p.body, t[1..], within)
  {
    if k: nat :| Iterates(visible, p, t, o, k) {
      i, within := k, if Exec(visible, p.body, t[1..k], Normal) then Normal else Continued;
    } else {
      i, within := 0, if o == Normal then Broke else o;
    }
  }

  lemma KeepsAgreeing(s: Setting, b: Book, known: set<string>, a: nat, c: nat)
    requires s.Valid() && s.At(b, known, a) && s.Sound(b, a, c) && a <= c
    ensures s.At(b, known, c)
  {
    hide Tracks, Behaves, WaitIsDone;
    TracksLater(s.events, s.unit, s.notes, s.t, s.retired, a, c, b, known);
  }

  lemma {:induction false} FollowsAll(s: Setting, stmts: seq<Stmt>, b: Book, known: set<string>, a: nat, c: nat,
                                      o: Outcome)
    requires s.Valid() && a <= c <= |s.t| && ExecSeq(s.events.Keys, stmts, s.t[a..c], o) && s.At(b, known, a)
    requires AllWellScoped(s.events, stmts, b, known) && AllAnnotated(s.events, stmts, b, s.notes)
    ensures s.Sound(b, a, c)
    ensures o == Normal ==> s.At(VisitedAll(s.events, stmts, b), IssuesOfAll(s.events, stmts, known), c)
    decreases c - a, stmts
  {
    hide Tracks, Orderly, Behaves, WaitIsDone, Visited, Issues, WellScoped, Annotated, Exec, IssuesNew;
    NothingBetween(s, b, a);
    var t := s.t[a..c];
    if stmts != [] {
      var b1, known1 := Visited(s.events, stmts[0], b), Issues(s.events, stmts[0], known);
      if o != Normal && Exec(s.events.Keys, stmts[0], t, o) {
        Follows(s, stmts[0], b, known, a, c, o);
      } else {
        var i: nat :| i <= |t| && Exec(s.events.Keys, stmts[0], t[..i], Normal)
          && ExecSeq(s.events.Keys, stmts[1..], t[i..], o);
        assert t[..i] == s.t[a..a + i] && t[i..] == s.t[a + i..c];
        Follows(s, stmts[0], b, known, a, a + i, Normal);
        FollowsAll(s, stmts[1..], b1, known1, a + i, c, o);
        VisitIsOrderly(s.events, stmts[0], b, known);
        Joins(s, b, b1, a, a + i, c);
      }
    }
  }

  const NOTHING := Book(map[], map[])

  /** At every moment of every run of a well-scoped program, on hardware that retires in order and heeds the
    notes, every wait that has been executed has left its future complete. */
  lemma WaitsComplete(s: Setting, p: Stmt, k: nat)
    requires s.Valid() && IsRun(s.events.Keys, p, s.t) && k < |s.t|
    requires WellScoped(s.events, p, NOTHING, {}) && Annotated(s.events, p, NOTHING, s.notes)
    ensures WaitIsDone(s.events, s.unit, s.t, s.retired, k)
  {
    hide WellScoped, Annotated, WaitIsDone;
    var o :| Exec(s.events.Keys, p, s.t, o);
    assert s.t[0..|s.t|] == s.t;
    Follows(s, p, NOTHING, {}, 0, |s.t|, o);
  }

  // ----- bodies with scopes of their own -----

  /** Nothing is issued to these queues. */
  predicate IssuesElsewhere(events: Events, s: Stmt, queues: set<string>)
    decreases s
  {
    match s
    case Seq(stmts) => AllIssueElsewhere(events, stmts, queues)
    case If(_, thn, els) => IssuesElsewhere(events, thn, queues) && IssuesElsewhere(events, els, queues)
    case Loop(_, body) => IssuesElsewhere(events, body, queues)
    case InThreads(_, body) => IssuesElsewhere(events, body, queues)
    case Block(body) => IssuesElsewhere(events, body, queues)
    case Leaf(id) => id in events && events[id].Issue? ==> events[id].queue !in queues
    case _ => true
  }

  predicate AllIssueElsewhere(events: Events, stmts: seq<Stmt>, queues: set<string>)
    decreases stmts
  {
    stmts != [] ==> IssuesElsewhere(events, stmts[0], queues) && AllIssueElsewhere(events, stmts[1..], queues)
  }

  /** A pending future is in its queue. */
  predicate IsPlaced(b: Book, f: string) {
    f in b.futures && (b.futures[f].completion == Pending ==> FromEnd(b, f).Some?)
  }

  /** The future stays what it was, or is retired. */
  predicate KeepsPlace(b: Book, b': Book, f: string) {
    && f in b.futures && f in b'.futures && b'.futures[f].queue == b.futures[f].queue
    && (b.futures[f].completion == Emitted ==> b'.futures[f].completion == Emitted)
    && (b'.futures[f].completion == Pending ==> FromEnd(b', f) == FromEnd(b, f))
  }

  lemma WaitKeepsPlace(b: Book, future: string, f: string)
    requires Orderly(b) && IsPlaced(b, f)
    ensures IsPlaced(AfterWait(b, future).0, f) && KeepsPlace(b, AfterWait(b, future).0, f)
  {
    hide IndexOf;
    var note := AfterWait(b, future).1;
    if note.WaitDepth? && b.futures[f].completion == Pending {
      var queue := QueueOf(b, b.futures[future].queue);
      var n := IndexOf(queue, future).value + 1;
      if b.futures[f].queue != b.futures[future].queue {
        OtherScope(b, b.futures[future].queue, f);
      } else if f !in queue[..n] {
        IndexInRest(queue, f, n);
      }
    }
  }

  lemma IssueKeepsPlace(b: Book, future: string, queue: string, f: string)
    requires IsPlaced(b, f) && future !in b.futures && queue != b.futures[f].queue
    ensures IsPlaced(AfterIssue(b, future, queue), f) && KeepsPlace(b, AfterIssue(b, future, queue), f)
  {
    hide IndexOf;
  }

  lemma PlacesChain(b: Book, b': Book, b'': Book, f: string)
    requires KeepsPlace(b, b', f) && KeepsPlace(b', b'', f)
    ensures KeepsPlace(b, b'', f)
  {
    hide FromEnd;
  }

  lemma {:induction false} VisitKeepsPlace(events: Events, s: Stmt, b: Book, known: set<string>, f: string)
    requires WellScoped(events, s, b, known) && Orderly(b) && IsPlaced(b, f)
    requires IssuesElsewhere(events, s, {b.futures[f].queue})
    ensures var b' := Visited(events, s, b); IsPlaced(b', f) && KeepsPlace(b, b', f)
    decreases s
  {
    hide Orderly, AfterIssue, AfterWait, Undisturbed, FromEnd;
    match s {
      case Seq(stmts) => VisitAllKeepsPlace(events, stmts, b, known, f);
      case If(_, thn, els) =>
        var b1 := Visited(events, thn, b);
        VisitKeepsPlace(events, thn, b, known, f);
        VisitIsOrderly(events, thn, b, known);
        VisitKeepsPlace(events, els, b1, known, f);
        PlacesChain(b, b1, Visited(events, els, b1), f);
      case Loop(_, body) => VisitKeepsPlace(events, body, b, known, f);
      case InThreads(_, body) => VisitKeepsPlace(events, body, b, known, f);
      case Block(body) => VisitKeepsPlace(events, body, b, known, f);
      case Leaf(id) =>
        if id in events && events[id].Issue? {
          IssueKeepsPlace(b, events[id].future, events[id].queue, f);
        } else if id in events {
          WaitKeepsPlace(b, events[id].future, f);
        }
      case _ =>
    }
  }

  lemma {:induction false} VisitAllKeepsPlace(events: Events, stmts: seq<Stmt>, b: Book, known: set<string>, f: string)
    requires AllWellScoped(events, stmts, b, known) && Orderly(b) && IsPlaced(b, f)
    requires AllIssueElsewhere(events, stmts, {b.futures[f].queue})
    ensures var b' := VisitedAll(events, stmts, b); IsPlaced(b', f) && KeepsPlace(b, b', f)
    decreases stmts
  {
    hide Orderly, FromEnd, Visited, WellScoped, Issues, IssuesElsewhere;
    if stmts != [] {
      var b1 := Visited(events, stmts[0], b);
      VisitKeepsPlace(events, stmts[0], b, known, f);
      VisitIsOrderly(events, stmts[0], b, known);
      VisitAllKeepsPlace(events, stmts[1..], b1, Issues(events, stmts[0], known), f);
      PlacesChain(b, b1, VisitedAll(events, stmts[1..], b1), f);
    }
  }

  function QueuesOf(b: Book, futures: set<string>): set<string> {
    set f | f in futures && f in b.futures :: b.futures[f].queue
  }

  /** A body that issues to queues of its own disturbs the futures before it exactly if it retires one of them. */
  lemma OwnScopesDisturbIffRetire(events: Events, body: Stmt, b: Book, known: set<string>)
    requires WellScoped(events, body, b, known) && Orderly(b) && forall f :: f in known ==> IsPlaced(b, f)
    requires IssuesElsewhere(events, body, QueuesOf(b, known))
    ensures var b' := Visited(events, body, b);
            Undisturbed(b, b', known) <==> forall f :: f in known && IsEmitted(b', f) ==> IsEmitted(b, f)
  {
    hide Orderly, FromEnd, Visited, WellScoped, IssuesElsewhere;
    var b' := Visited(events, body, b);
    forall f | f in known ensures f in b.futures && KeepsPlace(b, b', f) {
      FewerQueues(events, body, QueuesOf(b, known), {b.futures[f].queue});
      VisitKeepsPlace(events, body, b, known, f);
    }
  }

  lemma {:induction false} FewerQueues(events: Events, s: Stmt, queues: set<string>, some: set<string>)
    requires IssuesElsewhere(events, s, queues) && some <= queues
    ensures IssuesElsewhere(events, s, some)
    decreases s
  {
    match s {
      case Seq(stmts) => AllFewerQueues(events, stmts, queues, some);
      case If(_, thn, els) =>
        FewerQueues(events, thn, queues, some);
        FewerQueues(events, els, queues, some);
      case Loop(_, body) => FewerQueues(events, body, queues, some);
      case InThreads(_, body) => FewerQueues(events, body, queues, some);
      case Block(body) => FewerQueues(events, body, queues, some);
      case _ =>
    }
  }

  lemma {:induction false} AllFewerQueues(events: Events, stmts: seq<Stmt>, queues: set<string>, some: set<string>)
    requires AllIssueElsewhere(events, stmts, queues) && some <= queues
    ensures AllIssueElsewhere(events, stmts, some)
    decreases stmts
  {
    if stmts != [] {
      FewerQueues(events, stmts[0], queues, some);
      AllFewerQueues(events, stmts[1..], queues, some);
    }
  }

  // ----- where the order of the text misleads -----

  lemma {:induction false} ExecThen(visible: set<NodeId>, front: seq<Stmt>, rest: seq<Stmt>, t: seq<NodeId>,
                                    u: seq<NodeId>, o: Outcome)
    requires ExecSeq(visible, front, t, Normal) && ExecSeq(visible, rest, u, o)
    ensures ExecSeq(visible, front + rest, t + u, o)
    decreases |front|
  {
    hide Exec;
    if front == [] {
      assert front + rest == rest && t + u == u;
    } else {
      var i :| 0 <= i <= |t| && Exec(visible, front[0], t[..i], Normal) && ExecSeq(visible, front[1..], t[i..], Normal);
      ExecThen(visible, front[1..], rest, t[i..], u, o);
      assert (front + rest)[1..] == front[1..] + rest;
      assert (t + u)[..i] == t[..i] && (t + u)[i..] == t[i..] + u;
    }
  }

  lemma {:induction false} AnnotatedThen(events: Events, front: seq<Stmt>, rest: seq<Stmt>, b: Book, notes: Notes)
    requires AllAnnotated(events, front + rest, b, notes)
    ensures AllAnnotated(events, rest, VisitedAll(events, front, b), notes)
    decreases |front|
  {
    if front == [] {
      assert front + rest == rest;
    } else {
      assert (front + rest)[1..] == front[1..] + rest;
      AnnotatedThen(events, front[1..], rest, Visited(events, front[0], b), notes);
    }
  }

  /** A statement that issues nothing, and waits for nothing. */
  predicate IsIdle(events: Events, notes: Notes, id: NodeId) {
    id in events ==> events[id].Wait? && !NoteAt(notes, id).WaitDepth?
  }

  /** A run that goes on while the hardware retires nothing more. */
  ghost function Idling(s: Setting, more: seq<NodeId>): Setting
    requires s.retired != []
  {
    s.(t := s.t + more, retired := s.retired + seq(|more|, _ => s.retired[|s.retired| - 1]))
  }

  /** A statement that retires a future issued before it takes the wait away from the runs that pass it without
    doing anything: whenever such a run comes by with the future still running, the next wait for it does
    nothing. The statement may be a branch with or without an else arm, a loop or an in-threads block. */
  lemma SkippedBodyLosesFuture(s: Setting, front: seq<Stmt>, p: Stmt, skip: seq<NodeId>, wait: NodeId)
    requires s.Valid() && ExecSeq(s.events.Keys, front, s.t, Normal)
    requires Exec(s.events.Keys, p, skip, Normal) && forall k :: 0 <= k < |skip| ==> skip[k] !in s.events
    requires wait in s.events && s.events[wait].Wait?
    requires AllAnnotated(s.events, front + [p, Leaf(wait)], NOTHING, s.notes)
    requires IsEmitted(Visited(s.events, p, VisitedAll(s.events, front, NOTHING)), s.events[wait].future)
    requires !IsComplete(OpsOf(s.events, s.t), s.unit, s.retired[|s.t|], s.events[wait].future)
    ensures var s' := Idling(s, skip + [wait]);
            && s'.Valid() && IsRun(s.events.Keys, Seq(front + [p, Leaf(wait)]), s'.t)
            && !WaitIsDone(s.events, s.unit, s'.t, s'.retired, |s.t + skip|)
  {
    hide IsComplete, Exec, WaitIsDone, OpsOf, Visited, Annotated, WaitsAt;
    AnnotatedThen(s.events, front, [p, Leaf(wait)], NOTHING, s.notes);
    WaitIsNotedDone(s.events, VisitedAll(s.events, front, NOTHING), p, wait, s.notes);
    SkippingRuns(s.events.Keys, p, skip, wait);
    ExecThen(s.events.Keys, front, [p, Leaf(wait)], s.t, skip + [wait], Normal);
    SeqIsRun(s.events.Keys, front + [p, Leaf(wait)], s.t + (skip + [wait]));
    StaysValid(s, skip + [wait]);
    StaysRunning(s, skip, wait);
  }

  lemma WaitIsNotedDone(events: Events, b: Book, p: Stmt, wait: NodeId, notes: Notes)
    requires wait in events && events[wait].Wait? && AllAnnotated(events, [p, Leaf(wait)], b, notes)
    requires IsEmitted(Visited(events, p, b), events[wait].future)
    ensures NoteAt(notes, wait) == AlreadyEmitted
  {
    var rest := [p, Leaf(wait)];
    var b1 := Visited(events, p, b);
    assert AllAnnotated(events, rest[1..], b1, notes) && rest[1..][0] == Leaf(wait);
    assert Annotated(events, Leaf(wait), b1, notes);
  }

  lemma SeqIsRun(visible: set<NodeId>, stmts: seq<Stmt>, t: seq<NodeId>)
    requires ExecSeq(visible, stmts, t, Normal)
    ensures IsRun(visible, Seq(stmts), t)
  {
    assert Exec(visible, Seq(stmts), t, Normal);
  }

  lemma {:induction false} IdleOps(events: Events, t: seq<NodeId>, more: seq<NodeId>)
    requires forall k :: 0 <= k < |more| && more[k] in events ==> events[more[k]].Wait?
    ensures OpsOf(events, t + more) == OpsOf(events, t)
    decreases |more|
  {
    if more == [] {
      assert t + more == t;
    } else {
      var n := |more| - 1;
      IdleOps(events, t, more[..n]);
      assert (t + more)[..|t| + n] == t + more[..n];
    }
  }

  lemma StaysRunning(s: Setting, skip: seq<NodeId>, wait: NodeId)
    requires |s.retired| == |s.t| + 1 && wait in s.events && s.events[wait].Wait?
    requires forall k :: 0 <= k < |skip| ==> skip[k] !in s.events
    requires !IsComplete(OpsOf(s.events, s.t), s.unit, s.retired[|s.t|], s.events[wait].future)
    ensures var s' := Idling(s, skip + [wait]); !WaitIsDone(s.events, s.unit, s'.t, s'.retired, |s.t + skip|)
  {
    hide IsComplete, OpsOf;
    var t, n := s.t + (skip + [wait]), |s.t + skip|;
    IdleOps(s.events, s.t, skip + [wait]);
    assert t[..n + 1] == t && t[n] == wait;
  }

  lemma SkippingRuns(visible: set<NodeId>, p: Stmt, skip: seq<NodeId>, wait: NodeId)
    requires wait in visible && Exec(visible, p, skip, Normal)
    ensures ExecSeq(visible, [p, Leaf(wait)], skip + [wait], Normal)
  {
    hide Exec;
    var t, n := skip + [wait], |skip|;
    assert t[..n] == skip && t[n..] == [wait] && t[n..][..1] == [wait] && t[n..][1..] == [];
    LeafRuns(visible, wait);
    assert ExecSeq(visible, [], t[n..][1..], Normal);
    assert [p, Leaf(wait)][1..] == [Leaf(wait)] && [Leaf(wait)][1..] == [];
    assert ExecSeq(visible, [Leaf(wait)], t[n..], Normal);
  }

  lemma LeafRuns(visible: set<NodeId>, id: NodeId)
    requires id in visible
    ensures Exec(visible, Leaf(id), [id], Normal)
  {
  }

  lemma StaysValid(s: Setting, more: seq<NodeId>)
    requires s.Valid() && forall k :: 0 <= k < |more| ==> IsIdle(s.events, s.notes, more[k])
    ensures Idling(s, more).Valid()
  {
    hide OpsOf, Load;
    var s' := Idling(s, more);
    forall k: nat | k < |s'.t|
      ensures NoLess(s'.retired[k], s'.retired[k + 1]) && WaitsAt(s.events, s.notes, s.unit, s'.t, s'.retired, k)
    {
      if k < |s.t| {
        assert s'.t[..k] == s.t[..k] && s'.retired[k + 1] == s.retired[k + 1];
        assert NoLess(s.retired[k], s.retired[k + 1]) && WaitsAt(s.events, s.notes, s.unit, s.t, s.retired, k);
      } else {
        assert IsIdle(s.events, s.notes, more[k - |s.t|]);
      }
    }
  }

  /** Two operations in one scope, a branch that waits for the second, and a wait for the first behind it. */
  function Misleading(f: string, g: string, q: string): (Events, Stmt, Notes) {
    (map[0 := Issue(f, q), 1 := Issue(g, q), 3 := Wait(g), 4 := Wait(f)],
     Seq([Leaf(0), Leaf(1)] + [If(2, Leaf(3), Absent), Leaf(4)]),
     map[3 := WaitDepth(0), 4 := AlreadyEmitted])
  }

  lemma TwoInOneScope(f: string, g: string, q: string)
    requires f != g
    ensures var b := AfterIssue(AfterIssue(NOTHING, f, q), g, q);
            && AfterWait(b, g).1 == WaitDepth(0)
            && IsEmitted(AfterWait(b, g).0, f) && AfterWait(AfterWait(b, g).0, f).1 == AlreadyEmitted
  {
    hide IndexOf;
    var b := AfterIssue(AfterIssue(NOTHING, f, q), g, q);
    assert QueueOf(b, q) == [f, g] && [f, g][..1] == [f];
    IndexIs([f, g], g, 1);
    assert [f, g][..2] == [f, g];
  }

  lemma MisleadingVisit(f: string, g: string, q: string)
    requires f != g
    ensures var (events, p, notes) := Misleading(f, g, q);
            && Annotated(events, p, NOTHING, notes) && AllAnnotated(events, p.stmts, NOTHING, notes)
            && var b := VisitedAll(events, [Leaf(0), Leaf(1)], NOTHING);
               IsEmitted(Visited(events, If(2, Leaf(3), Absent), b), f)
  {
    hide AfterIssue, AfterWait, IsEmitted;
    TwoInOneScope(f, g, q);
    var (events, p, notes) := Misleading(f, g, q);
    var b0 := AfterIssue(NOTHING, f, q);
    var b := AfterIssue(b0, g, q);
    var b' := AfterWait(b, g).0;
    var last, branch: Stmt := Leaf(4), If(2, Leaf(3), Absent);
    assert Visited(events, branch, b) == b' by { assert Visited(events, Leaf(3), b) == b'; }
    OneMore(events, last, [], b', notes);
    OneMore(events, branch, [last], b, notes);
    OneMore(events, Leaf(1), [branch, last], b0, notes);
    OneMore(events, Leaf(0), [Leaf(1), branch, last], NOTHING, notes);
    assert p.stmts == [Leaf(0)] + [Leaf(1), branch, last];
    assert [Leaf(1)] + [branch, last] == [Leaf(1), branch, last] && [branch] + [last] == [branch, last];
    OneMore(events, Leaf(1), [], b0, notes);
    OneMore(events, Leaf(0), [Leaf(1)], NOTHING, notes);
    assert [Leaf(0)] + [Leaf(1)] == [Leaf(0), Leaf(1)];
  }

  lemma OneMore(events: Events, s: Stmt, rest: seq<Stmt>, b: Book, notes: Notes)
    ensures Annotated(events, s, b, notes) && AllAnnotated(events, rest, Visited(events, s, b), notes)
            ==> AllAnnotated(events, [s] + rest, b, notes)
    ensures VisitedAll(events, [s] + rest, b) == VisitedAll(events, rest, Visited(events, s, b))
  {
    assert ([s] + rest)[1..] == rest;
  }

  /** The run that skips the branch ends with the first operation still running after its wait. */
  lemma FirstFutureIsLost(f: string, g: string, q: string, unit: string -> string)
    requires f != g
    ensures var (events, p, notes) := Misleading(f, g, q);
            var s := Setting(events, notes, unit, [0, 1] + [2, 4], StandStill());
            && Annotated(events, p, NOTHING, notes) && s.Valid() && IsRun(events.Keys, p, s.t)
            && !WaitIsDone(events, unit, s.t, s.retired, 3)
  {
    hide Behaves, IsComplete, Exec, ExecSeq, WaitIsDone, OpsOf, Visited, VisitedAll, IsRun, Annotated, AllAnnotated,
         IsEmitted;
    var (events, p, notes) := Misleading(f, g, q);
    MisleadingVisit(f, g, q);
    var none: string -> nat := NoneRetired;
    var s := Setting(events, notes, unit, [0, 1], [none, none, none]);
    TwoIssued(f, g, q, unit);
    BranchIsSkipped(events.Keys);
    SkippedBodyLosesFuture(s, [Leaf(0), Leaf(1)], If(2, Leaf(3), Absent), [2], 4);
    assert StandStill() == Idling(s, [2] + [4]).retired && [2] + [4] == [2, 4];
  }

  lemma BranchIsSkipped(visible: set<NodeId>)
    ensures Exec(visible, If(2, Leaf(3), Absent), [2], Normal)
  {
    var t: seq<NodeId> := [2];
    assert t[1..] == [];
    assert Exec(visible, Absent, t[1..], Normal);
  }

  function NoneRetired(u: string): nat {
    0
  }

  /** Hardware on which nothing is ever retired. */
  function StandStill(): Progress {
    [NoneRetired, NoneRetired, NoneRetired, NoneRetired, NoneRetired]
  }

  lemma TwoIssued(f: string, g: string, q: string, unit: string -> string)
    requires f != g
    ensures var (events, _, notes) := Misleading(f, g, q);
            && Behaves(events, notes, unit, [0, 1], [NoneRetired, NoneRetired, NoneRetired])
            && ExecSeq(events.Keys, [Leaf(0), Leaf(1)], [0, 1], Normal)
            && !IsComplete(OpsOf(events, [0, 1]), unit, NoneRetired, f)
  {
    hide OpsOf, IsComplete, Exec;
    TwoLeaves(Misleading(f, g, q).0.Keys);
    FirstRuns(f, g, q, unit);
  }

  lemma TwoLeaves(visible: set<NodeId>)
    requires 0 in visible && 1 in visible
    ensures ExecSeq(visible, [Leaf(0), Leaf(1)], [0, 1], Normal)
  {
    var t: seq<NodeId> := [0, 1];
    assert t[..1] == [0] && t[1..] == [1] && t[1..][..1] == [1] && t[1..][1..] == [];
    assert Exec(visible, Leaf(0), t[..1], Normal) && Exec(visible, Leaf(1), t[1..][..1], Normal);
    assert ExecSeq(visible, [], t[1..][1..], Normal);
    assert [Leaf(0), Leaf(1)][1..] == [Leaf(1)];
    assert ExecSeq(visible, [Leaf(1)], t[1..], Normal);
  }

  lemma FirstRuns(f: string, g: string, q: string, unit: string -> string)
    requires f != g
    ensures !IsComplete(OpsOf(Misleading(f, g, q).0, [0, 1]), unit, NoneRetired, f)
  {
    var events := Misleading(f, g, q).0;
    var t: seq<NodeId> := [0, 1];
    var ops := OpsOf(events, t);
    OpsNext(events, t, 0);
    OpsNext(events, t, 1);
    assert t[..2] == t && t[..0] == [];
    assert ops == [Op(f, q), Op(g, q)];
    assert ops[..1] == [Op(f, q)] && LastIssue(ops[..1], f) == Some(0) && LastIssue(ops, f) == Some(0);
    assert ops[..0] == [];
  }
}
