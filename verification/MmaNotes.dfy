/** What the notes on waits say about the program text: the depth is the number of operations issued to the same
  scope after the target, and no greater depth is safe.
 */
module MmaNotes {
  import opened Basics
  import opened MmaWaits
  import opened Programs

  // ----- what has been waited for -----

  /** One of the events waits for operation `i` or for a later one of its scope. */
  ghost predicate Covered(events: seq<Event>, i: nat)
    requires i < |Issued(events)|
  {
    exists k, j: nat :: 0 <= k < |events| && events[k].Wait? && Covers(events, i, k, j)
  }

  /** The wait at `k` is for operation `j`, which stands behind `i` in the scope of `i`. */
  ghost predicate Covers(events: seq<Event>, i: nat, k: nat, j: nat)
    requires i < |Issued(events)| && k < |events| && events[k].Wait?
  {
    && i <= j < |Issued(events[..k])|
    && Issued(events[..k])[j].queue == Issued(events)[i].queue
    && Issued(events[..k])[j].future == events[k].future
  }

  /** A future is marked emitted exactly if it is covered. */
  ghost predicate MarksCovered(events: seq<Event>) {
    Records(Run(events), Issued(events)) &&
    forall i: nat :: i < |Issued(events)| ==> (IsEmitted(Run(events), Issued(events)[i].future) <==> Covered(events, i))
  }

  lemma OneMoreEvent(events: seq<Event>, e: Event)
    ensures (events + [e])[..|events|] == events && (events + [e])[|events|] == e
    ensures Issued(events + [e]) == Issued(events) + if e.Issue? then [Op(e.future, e.queue)] else []
    ensures forall k :: 0 <= k <= |events| ==> (events + [e])[..k] == events[..k]
  {
    forall k | 0 <= k <= |events| ensures (events + [e])[..k] == events[..k] {}
  }

  /** A wait for this future would cover operation `i`. */
  ghost predicate WouldCover(ops: seq<Op>, i: nat, future: string)
    requires i < |ops|
  {
    exists j: nat :: i <= j < |ops| && ops[j].queue == ops[i].queue && ops[j].future == future
  }

  lemma CoveredByMore(events: seq<Event>, e: Event, i: nat)
    requires i < |Issued(events)|
    ensures i < |Issued(events + [e])|
    ensures Covered(events + [e], i) <==> Covered(events, i) || (e.Wait? && WouldCover(Issued(events), i, e.future))
  {
    hide Issued;
    var more := events + [e];
    OneMoreEvent(events, e);
    if Covered(events, i) {
      var k, j: nat :| 0 <= k < |events| && events[k].Wait? && Covers(events, i, k, j);
      assert more[..k] == events[..k] && more[k] == events[k];
      assert Covers(more, i, k, j);
    }
    if e.Wait? && WouldCover(Issued(events), i, e.future) {
      var ops := Issued(events);
      var j: nat :| i <= j < |ops| && ops[j].queue == ops[i].queue && ops[j].future == e.future;
      assert more[..|events|] == events && Covers(more, i, |events|, j);
    }
    if Covered(more, i) {
      var k, j: nat :| 0 <= k < |more| && more[k].Wait? && Covers(more, i, k, j);
      assert more[..k] == events[..k];
      if k < |events| {
        assert more[k] == events[k] && Covers(events, i, k, j);
      } else {
        assert events[..k] == events;
      }
    }
  }

  /** The operation just issued has not been waited for. */
  lemma NewIsNotCovered(events: seq<Event>, future: string, queue: string)
    ensures |Issued(events)| < |Issued(events + [Issue(future, queue)])|
    ensures !Covered(events + [Issue(future, queue)], |Issued(events)|)
  {
    var more := events + [Issue(future, queue)];
    OneMoreEvent(events, Issue(future, queue));
    forall k, j: nat | 0 <= k < |more| && more[k].Wait?
      ensures !Covers(more, |Issued(events)|, k, j)
    {
      IssuedGrows(events, k);
      assert more[..k] == events[..k];
    }
  }

  lemma {:induction false} IssuedGrows(events: seq<Event>, k: nat)
    requires k <= |events|
    ensures Issued(events[..k]) <= Issued(events)
    decreases |events|
  {
    if k == |events| {
      assert events[..k] == events;
    } else {
      var init := events[..|events| - 1];
      IssuedGrows(init, k);
      assert init[..k] == events[..k];
    }
  }

  // ----- places in a queue -----

  /** The queue up to operation `j` holds the pending operations up to `j`. */
  lemma {:induction false} PendingUpTo(ops: seq<Op>, futures: map<string, FutureState>, q: string, j: nat)
    requires j <= |ops|
    ensures PendingOf(ops[..j], futures, q) <= PendingOf(ops, futures, q)
    decreases |ops|
  {
    if j == |ops| {
      assert ops[..j] == ops;
    } else {
      var init := ops[..|ops| - 1];
      PendingUpTo(init, futures, q, j);
      assert init[..j] == ops[..j];
    }
  }

  lemma SuffixIndex(s: seq<string>, prefix: seq<string>, x: string)
    requires NoRepeats(s) && prefix <= s && |prefix| > 0 && prefix[|prefix| - 1] == x
    ensures IndexOf(s, x) == Some(|prefix| - 1)
  {
    assert s[|prefix| - 1] == x;
    assert IndexOf(s, x).Some?;
  }

  /** Where the target of a wait stands in its queue, and what is up to there. */
  lemma PlaceOfTarget(ops: seq<Op>, futures: map<string, FutureState>, j: nat)
    requires Distinct(ops) && j < |ops| && ops[j].future in futures && futures[ops[j].future].completion == Pending
    ensures var q := ops[j].queue;
            && PendingOf(ops[..j + 1], futures, q) <= PendingOf(ops, futures, q)
            && |PendingOf(ops[..j + 1], futures, q)| > 0
            && IndexOf(PendingOf(ops, futures, q), ops[j].future) == Some(|PendingOf(ops[..j + 1], futures, q)| - 1)
  {
    var q := ops[j].queue;
    PendingUpTo(ops, futures, q, j + 1);
    PendingAreDistinct(ops, futures, q);
    assert ops[..j + 1][..j] == ops[..j];
    SuffixIndex(PendingOf(ops, futures, q), PendingOf(ops[..j + 1], futures, q), ops[j].future);
  }

  /** Operation `i` stands in the queue of `q` up to `j` exactly if it belongs there. */
  lemma InQueueUpTo(ops: seq<Op>, futures: map<string, FutureState>, q: string, j: nat, i: nat)
    requires Distinct(ops) && j < |ops| && i < |ops| && ops[i].future in futures
    ensures ops[i].future in PendingOf(ops[..j + 1], futures, q) <==>
              i <= j && ops[i].queue == q && futures[ops[i].future].completion == Pending
  {
    var upTo := ops[..j + 1];
    if ops[i].future in PendingOf(upTo, futures, q) {
      var p: nat :| p < |PendingOf(upTo, futures, q)| && PendingOf(upTo, futures, q)[p] == ops[i].future;
      var k := PendingComeFromOps(upTo, futures, q, p);
      assert upTo[k] == ops[k];
      assert k == i;
      PendingIsPending(upTo, futures, q, p);
    }
    if i <= j && ops[i].queue == q && futures[ops[i].future].completion == Pending {
      assert upTo[i] == ops[i];
      PendingIsQueued(upTo, futures, i);
    }
  }

  lemma {:induction false} PendingIsPending(ops: seq<Op>, futures: map<string, FutureState>, q: string, p: nat)
    requires p < |PendingOf(ops, futures, q)|
    ensures PendingOf(ops, futures, q)[p] in futures
    ensures futures[PendingOf(ops, futures, q)[p]].completion == Pending
    decreases |ops|
  {
    var before := PendingOf(ops[..|ops| - 1], futures, q);
    if p < |before| { PendingIsPending(ops[..|ops| - 1], futures, q, p); }
  }

  /** What a wait for operation `j` marks: the pending operations of its scope up to `j`. */
  lemma WaitMarksUpTo(b: Book, ops: seq<Op>, j: nat, i: nat)
    requires Records(b, ops) && QueuesExact(b, ops) && Distinct(ops) && i < |ops| && j < |ops|
    requires b.futures[ops[j].future].completion == Pending
    ensures IsEmitted(AfterWait(b, ops[j].future).0, ops[i].future) <==>
              IsEmitted(b, ops[i].future) || (i <= j && ops[i].queue == ops[j].queue)
  {
    hide Names, PendingOf, Distinct;
    var q := ops[j].queue;
    assert QueueOf(b, q) == PendingOf(ops, b.futures, q);
    PlaceOfTarget(ops, b.futures, j);
    InQueueUpTo(ops, b.futures, q, j, i);
    var p := IndexOf(QueueOf(b, q), ops[j].future).value;
    assert QueueOf(b, q)[..p + 1] == PendingOf(ops[..j + 1], b.futures, q);
  }

  // ----- emitted is covered -----

  lemma IssueKeepsMarks(events: seq<Event>, future: string, queue: string)
    requires MarksCovered(events) && Distinct(Issued(events + [Issue(future, queue)]))
    requires Records(Run(events + [Issue(future, queue)]), Issued(events + [Issue(future, queue)]))
    ensures MarksCovered(events + [Issue(future, queue)])
  {
    hide Covered, Names, Records;
    var more := events + [Issue(future, queue)];
    OneMoreEvent(events, Issue(future, queue));
    NewIsNotCovered(events, future, queue);
    forall i: nat | i < |Issued(more)|
      ensures IsEmitted(Run(more), Issued(more)[i].future) <==> Covered(more, i)
    {
      if i < |Issued(events)| {
        CoveredByMore(events, Issue(future, queue), i);
        assert Issued(more)[i].future != Issued(more)[|Issued(events)|].future;
      }
    }
  }

  lemma WaitKeepsMarks(events: seq<Event>, future: string)
    requires MarksCovered(events) && Distinct(Issued(events))
    requires Records(Run(events), Issued(events)) && QueuesExact(Run(events), Issued(events))
    requires Records(Run(events + [Wait(future)]), Issued(events + [Wait(future)]))
    ensures MarksCovered(events + [Wait(future)])
  {
    hide Covered, AfterWait, Distinct, QueuesExact;
    var b, ops, more := Run(events), Issued(events), events + [Wait(future)];
    OneMoreEvent(events, Wait(future));
    assert Run(more) == AfterWait(b, future).0;
    forall i: nat | i < |ops|
      ensures IsEmitted(Run(more), ops[i].future) <==> Covered(more, i)
    {
      CoveredByMore(events, Wait(future), i);
      WaitMarks(events, future, i);
    }
  }

  lemma WaitMarks(events: seq<Event>, future: string, i: nat)
    requires MarksCovered(events) && Distinct(Issued(events)) && i < |Issued(events)|
    requires Records(Run(events), Issued(events)) && QueuesExact(Run(events), Issued(events))
    ensures IsEmitted(AfterWait(Run(events), future).0, Issued(events)[i].future) <==>
              Covered(events, i) || WouldCover(Issued(events), i, future)
  {
    hide Covered, Run, Issued, QueuesExact;
    var b, ops := Run(events), Issued(events);
    if future in b.futures {
      var op :| op in ops && op.future == future;
      var j: nat :| j < |ops| && ops[j] == op;
      assert forall l: nat :: l < |ops| && ops[l].future == future ==> l == j;
      if b.futures[future].completion == Pending {
        WaitMarksUpTo(b, ops, j, i);
      } else {
        assert AfterWait(b, future).0 == b;
        assert Covered(events, j);
        if i <= j && ops[i].queue == ops[j].queue { CoversEarlier(events, i, j); }
      }
    } else {
      assert AfterWait(b, future).0 == b;
      forall j: nat | j < |ops| ensures ops[j].future != future { assert ops[j] in ops; }
    }
  }

  lemma CoversEarlier(events: seq<Event>, i: nat, j: nat)
    requires i <= j < |Issued(events)| && Issued(events)[i].queue == Issued(events)[j].queue && Covered(events, j)
    ensures Covered(events, i)
  {
    hide Issued;
    var k, l: nat :| 0 <= k < |events| && events[k].Wait? && Covers(events, j, k, l);
    assert Covers(events, i, k, l);
  }

  /** After any events that issue each future once, the futures marked emitted are those that a wait was for, and
    those issued before such a one to the same scope. */
  lemma {:induction false} EmittedIffCovered(events: seq<Event>)
    requires Distinct(Issued(events))
    ensures MarksCovered(events)
    decreases |events|
  {
    hide Covered, Names, QueuesExact, MarksCovered, Distinct, Records;
    QueuesHoldPending(events);
    if events == [] {
      NothingIsMarked();
    } else {
      var before, last := events[..|events| - 1], events[|events| - 1];
      assert events == before + [last];
      OneMoreEvent(before, last);
      PrefixIsDistinct(events, |events| - 1);
      QueuesHoldPending(before);
      EmittedIffCovered(before);
      match last
      case Issue(future, queue) => IssueKeepsMarks(before, future, queue);
      case Wait(future) => WaitKeepsMarks(before, future);
    }
  }

  lemma NothingIsMarked()
    ensures MarksCovered([])
  {
  }

  // ----- the depth -----

  /** The operations issued after `i` to the scope of `i`. */
  function LaterInScope(ops: seq<Op>, i: nat): set<nat>
    requires i < |ops|
  {
    set j: nat | i < j < |ops| && ops[j].queue == ops[i].queue
  }

  lemma LaterGrows(ops: seq<Op>, i: nat)
    requires i + 1 < |ops|
    ensures var last := |ops| - 1;
            |LaterInScope(ops, i)| == |LaterInScope(ops[..last], i)| + if ops[last].queue == ops[i].queue then 1 else 0
  {
    var last := |ops| - 1;
    var earlier := LaterInScope(ops[..last], i);
    if ops[last].queue == ops[i].queue {
      assert LaterInScope(ops, i) == earlier + {last};
    } else {
      assert LaterInScope(ops, i) == earlier;
    }
  }

  lemma NoneLater(ops: seq<Op>)
    requires ops != []
    ensures LaterInScope(ops, |ops| - 1) == {}
  {
  }

  /** A queue in which everything after `i` is pending holds as many names after `i` as there are operations. */
  lemma {:induction false} PendingAfter(ops: seq<Op>, futures: map<string, FutureState>, i: nat)
    requires i < |ops|
    requires forall j :: i < j < |ops| && ops[j].queue == ops[i].queue ==>
               ops[j].future in futures && futures[ops[j].future].completion == Pending
    ensures |PendingOf(ops, futures, ops[i].queue)|
            == |PendingOf(ops[..i + 1], futures, ops[i].queue)| + |LaterInScope(ops, i)|
    decreases |ops|
  {
    hide LaterInScope;
    if i == |ops| - 1 {
      assert ops[..i + 1] == ops;
      NoneLater(ops);
    } else {
      var init := ops[..|ops| - 1];
      PendingAfter(init, futures, i);
      assert init[..i + 1] == ops[..i + 1];
      LaterGrows(ops, i);
    }
  }

  /** A wait for operation `i` is noted as emitted before exactly if a wait before it was for `i` or for a later
    operation of its scope. Otherwise its depth is the number of operations issued after `i` to that scope. */
  lemma NoteOfWait(events: seq<Event>, i: nat)
    requires Distinct(Issued(events)) && i < |Issued(events)|
    ensures LastNote(events + [Wait(Issued(events)[i].future)])
            == if Covered(events, i) then AlreadyEmitted else WaitDepth(|LaterInScope(Issued(events), i)|)
  {
    hide Covered, Names, QueuesExact, Distinct, LaterInScope;
    var b, ops := Run(events), Issued(events);
    OneMoreEvent(events, Wait(ops[i].future));
    QueuesHoldPending(events);
    EmittedIffCovered(events);
    if !Covered(events, i) {
      DepthOfWait(events, i);
    }
  }

  lemma DepthOfWait(events: seq<Event>, i: nat)
    requires Distinct(Issued(events)) && i < |Issued(events)| && MarksCovered(events) && !Covered(events, i)
    requires Records(Run(events), Issued(events)) && QueuesExact(Run(events), Issued(events))
    ensures AfterWait(Run(events), Issued(events)[i].future).1 == WaitDepth(|LaterInScope(Issued(events), i)|)
  {
    hide Covered, Names, Distinct, LaterInScope, Run, Issued, PendingOf;
    var b, ops := Run(events), Issued(events);
    var q := ops[i].queue;
    assert QueueOf(b, q) == PendingOf(ops, b.futures, q);
    PlaceOfTarget(ops, b.futures, i);
    forall j | i < j < |ops| && ops[j].queue == q
      ensures ops[j].future in b.futures && b.futures[ops[j].future].completion == Pending
    {
      if Covered(events, j) { CoversEarlier(events, i, j); }
    }
    PendingAfter(ops, b.futures, i);
  }

  /** A wait for a future that has not been issued gets no note. */
  lemma NoNoteUnissued(events: seq<Event>, future: string)
    requires Distinct(Issued(events)) && forall i :: 0 <= i < |Issued(events)| ==> Issued(events)[i].future != future
    ensures LastNote(events + [Wait(future)]) == NoNote
  {
    OneMoreEvent(events, Wait(future));
    QueuesHoldPending(events);
  }

  /** No greater depth is safe: hardware with one unit per scope may leave the target running after a wait that
    allows one more operation to be outstanding. */
  lemma GreaterDepthIsUnsafe(ops: seq<Op>, i: nat)
    requires i < |ops|
    ensures var now := (u: string) => Load(ops[..i], q => q, u);
            && now(ops[i].queue) + |LaterInScope(ops, i)| + 1 >= Load(ops, q => q, ops[i].queue)
            && !Retired(ops, q => q, now, i)
  {
    var unit := (q: string) => q;
    LoadAfter(ops, unit, i);
    assert ops[..i + 1][..i] == ops[..i];
  }

  lemma {:induction false} LoadAfter(ops: seq<Op>, unit: string -> string, i: nat)
    requires i < |ops| && forall q :: unit(q) == q
    ensures Load(ops, unit, ops[i].queue) == Load(ops[..i + 1], unit, ops[i].queue) + |LaterInScope(ops, i)|
    decreases |ops|
  {
    hide LaterInScope;
    if i == |ops| - 1 {
      assert ops[..i + 1] == ops;
      NoneLater(ops);
    } else {
      var init := ops[..|ops| - 1];
      LoadAfter(init, unit, i);
      assert init[..i + 1] == ops[..i + 1];
      LaterGrows(ops, i);
    }
  }

  // ----- the order of the text -----

  /** The leaves of a statement in the order of the text: the first arm of a branch before the second. */
  function Text(s: Stmt): seq<NodeId>
    decreases s
  {
    match s
    case Seq(stmts) => TextOfAll(stmts)
    case If(_, thn, els) => Text(thn) + Text(els)
    case Loop(_, body) => Text(body)
    case InThreads(_, body) => Text(body)
    case Block(body) => Text(body)
    case Leaf(id) => [id]
    case _ => []
  }

  function TextOfAll(stmts: seq<Stmt>): seq<NodeId>
    decreases stmts
  {
    if stmts == [] then [] else Text(stmts[0]) + TextOfAll(stmts[1..])
  }

  /** What the leaves do, one after the other. */
  function EventsOf(events: Events, ids: seq<NodeId>): seq<Event>
    decreases |ids|
  {
    if ids == [] then []
    else
      var last := ids[|ids| - 1];
      EventsOf(events, ids[..|ids| - 1]) + if last in events then [events[last]] else []
  }

  lemma {:induction false} EventsOfBoth(events: Events, ids: seq<NodeId>, more: seq<NodeId>)
    ensures EventsOf(events, ids + more) == EventsOf(events, ids) + EventsOf(events, more)
    decreases |more|
  {
    if more == [] {
      assert ids + more == ids;
    } else {
      EventsOfBoth(events, ids, more[..|more| - 1]);
      assert (ids + more)[..|ids + more| - 1] == ids + more[..|more| - 1];
    }
  }

  lemma RunOneMore(es: seq<Event>, e: Event)
    ensures Run(es + [e]) == AfterEvent(Run(es), e)
  {
    assert (es + [e])[..|es|] == es;
  }

  /** The book after a visit is the book after the events of the text. */
  lemma {:induction false} VisitedIsRun(events: Events, s: Stmt, es: seq<Event>)
    ensures Visited(events, s, Run(es)) == Run(es + EventsOf(events, Text(s)))
    decreases s
  {
    hide Run, AfterEvent, EventsOf;
    match s {
      case Seq(stmts) => VisitedAllIsRun(events, stmts, es);
      case If(_, thn, els) =>
        VisitedIsRun(events, thn, es);
        VisitedIsRun(events, els, es + EventsOf(events, Text(thn)));
        EventsOfBoth(events, Text(thn), Text(els));
        assert es + EventsOf(events, Text(thn)) + EventsOf(events, Text(els)) == es + EventsOf(events, Text(s));
      case Loop(_, body) => VisitedIsRun(events, body, es);
      case InThreads(_, body) => VisitedIsRun(events, body, es);
      case Block(body) => VisitedIsRun(events, body, es);
      case Leaf(id) => LeafIsRun(events, id, es);
      case _ =>
        NoEvents(events);
        assert es + [] == es;
    }
  }

  lemma NoEvents(events: Events)
    ensures EventsOf(events, []) == []
  {
  }

  lemma LeafIsRun(events: Events, id: NodeId, es: seq<Event>)
    ensures EventsOf(events, [id]) == if id in events then [events[id]] else []
    ensures Visited(events, Leaf(id), Run(es)) == Run(es + EventsOf(events, [id]))
  {
    hide Run, AfterEvent;
    assert [id][..0] == [];
    if id in events {
      RunOneMore(es, events[id]);
    } else {
      assert es + [] == es;
    }
  }

  lemma {:induction false} VisitedAllIsRun(events: Events, stmts: seq<Stmt>, es: seq<Event>)
    ensures VisitedAll(events, stmts, Run(es)) == Run(es + EventsOf(events, TextOfAll(stmts)))
    decreases stmts
  {
    hide Run, AfterEvent, EventsOf, Visited;
    if stmts == [] {
      NoEvents(events);
      assert es + [] == es;
    } else {
      var first := EventsOf(events, Text(stmts[0]));
      VisitedIsRun(events, stmts[0], es);
      VisitedAllIsRun(events, stmts[1..], es + first);
      EventsOfBoth(events, Text(stmts[0]), TextOfAll(stmts[1..]));
      assert es + first + EventsOf(events, TextOfAll(stmts[1..])) == es + EventsOf(events, TextOfAll(stmts));
    }
  }

  /** The wait at place `k` of the text carries the note of a wait after the events before that place. */
  ghost predicate NotedAt(events: Events, ids: seq<NodeId>, es: seq<Event>, notes: Notes, k: nat)
    requires k < |ids|
  {
    ids[k] in events && events[ids[k]].Wait? ==>
      NoteAt(notes, ids[k]) == LastNote(es + EventsOf(events, ids[..k]) + [events[ids[k]]])
  }

  ghost predicate NotedInText(events: Events, ids: seq<NodeId>, es: seq<Event>, notes: Notes) {
    forall k: nat :: k < |ids| ==> NotedAt(events, ids, es, notes, k)
  }

  lemma NotedBoth(events: Events, first: seq<NodeId>, second: seq<NodeId>, es: seq<Event>, notes: Notes)
    ensures NotedInText(events, first + second, es, notes) <==>
              NotedInText(events, first, es, notes) && NotedInText(events, second, es + EventsOf(events, first), notes)
  {
    hide EventsOf, LastNote;
    var ids := first + second;
    forall k: nat | k < |ids|
      ensures NotedAt(events, ids, es, notes, k) <==>
                if k < |first| then NotedAt(events, first, es, notes, k)
                else NotedAt(events, second, es + EventsOf(events, first), notes, k - |first|)
    {
      if k < |first| {
        assert ids[..k] == first[..k];
      } else {
        assert ids[..k] == first + second[..k - |first|];
        EventsOfBoth(events, first, second[..k - |first|]);
        assert es + EventsOf(events, ids[..k])
               == es + EventsOf(events, first) + EventsOf(events, second[..k - |first|]);
      }
    }
    if NotedInText(events, ids, es, notes) {
      forall k: nat | k < |second|
        ensures NotedAt(events, second, es + EventsOf(events, first), notes, k)
      {
        assert NotedAt(events, ids, es, notes, |first| + k);
      }
    }
  }

  /** A program is annotated exactly if every wait of it carries the note of a wait after the events before it in
    the text. */
  lemma {:induction false} AnnotatedIffNoted(events: Events, s: Stmt, es: seq<Event>, notes: Notes)
    ensures Annotated(events, s, Run(es), notes) <==> NotedInText(events, Text(s), es, notes)
    decreases s
  {
    hide Run, AfterWait, EventsOf, LastNote, NotedInText, Visited;
    match s {
      case Seq(stmts) => AllAnnotatedIffNoted(events, stmts, es, notes);
      case If(_, thn, els) =>
        VisitedIsRun(events, thn, es);
        AnnotatedIffNoted(events, thn, es, notes);
        AnnotatedIffNoted(events, els, es + EventsOf(events, Text(thn)), notes);
        NotedBoth(events, Text(thn), Text(els), es, notes);
      case Loop(_, body) => AnnotatedIffNoted(events, body, es, notes);
      case InThreads(_, body) => AnnotatedIffNoted(events, body, es, notes);
      case Block(body) => AnnotatedIffNoted(events, body, es, notes);
      case Leaf(id) => LeafIsNoted(events, id, es, notes);
      case _ => NothingToNote(events, es, notes);
    }
  }

  lemma NothingToNote(events: Events, es: seq<Event>, notes: Notes)
    ensures NotedInText(events, [], es, notes)
  {
  }

  lemma LeafIsNoted(events: Events, id: NodeId, es: seq<Event>, notes: Notes)
    ensures Annotated(events, Leaf(id), Run(es), notes) <==> NotedInText(events, [id], es, notes)
  {
    hide Run, AfterWait;
    var ids := [id];
    assert ids[..0] == [] && ids[0] == id && es + [] == es;
    if id in events {
      assert (es + [events[id]])[..|es|] == es;
    }
    assert NotedInText(events, ids, es, notes) <==> NotedAt(events, ids, es, notes, 0);
  }

  lemma {:induction false} AllAnnotatedIffNoted(events: Events, stmts: seq<Stmt>, es: seq<Event>, notes: Notes)
    ensures AllAnnotated(events, stmts, Run(es), notes) <==> NotedInText(events, TextOfAll(stmts), es, notes)
    decreases stmts
  {
    hide Run, EventsOf, LastNote, NotedInText, Visited, Annotated;
    if stmts == [] {
      NothingToNote(events, es, notes);
    } else {
      VisitedIsRun(events, stmts[0], es);
      AnnotatedIffNoted(events, stmts[0], es, notes);
      AllAnnotatedIffNoted(events, stmts[1..], es + EventsOf(events, Text(stmts[0])), notes);
      NotedBoth(events, Text(stmts[0]), TextOfAll(stmts[1..]), es, notes);
    }
  }
}
