/** Wait depths for asynchronous matrix operations, and why a wait of that depth is enough on
  hardware that retires operations in issue order.
 */
module MmaWaits {
  import opened Basics
  import opened Programs

  datatype Completion = Pending | Emitted

  datatype FutureState = FutureState(queue: string, completion: Completion)

  /** Per scope, the futures not yet waited for; per future, its scope and completion. */
  datatype Book = Book(queues: map<string, seq<string>>, futures: map<string, FutureState>)

  datatype Note = NoNote | AlreadyEmitted | WaitDepth(depth: nat)

  datatype Event = Issue(future: string, queue: string) | Wait(future: string)

  function QueueOf(b: Book, queue: string): seq<string> {
    if queue in b.queues then b.queues[queue] else []
  }

  function AfterIssue(b: Book, future: string, queue: string): Book {
    Book(b.queues[queue := QueueOf(b, queue) + [future]], b.futures[future := FutureState(queue, Pending)])
  }

  function Mark(futures: map<string, FutureState>, names: seq<string>): map<string, FutureState> {
    map f | f in futures :: if f in names then futures[f].(completion := Emitted) else futures[f]
  }

  lemma MarkNone(futures: map<string, FutureState>)
    ensures Mark(futures, []) == futures
  {
    assert forall f :: f in futures ==> Mark(futures, [])[f] == futures[f];
  }

  lemma MarkOneMore(futures: map<string, FutureState>, names: seq<string>, name: string)
    requires name in futures
    ensures var m := Mark(futures, names);
            m.Keys == futures.Keys && Mark(futures, names + [name]) == m[name := m[name].(completion := Emitted)]
  {
    var m, more := Mark(futures, names), Mark(futures, names + [name]);
    var marked := m[name := m[name].(completion := Emitted)];
    assert more.Keys == marked.Keys;
    forall f | f in more ensures more[f] == marked[f]
    {
      assert f in names + [name] <==> f in names || f == name;
    }
  }

  /** A wait for a pending future retires it and everything issued before it in its scope. */
  function AfterWait(b: Book, future: string): (r: (Book, Note)) {
    if future !in b.futures then (b, NoNote)
    else
      var state := b.futures[future];
      var queue := QueueOf(b, state.queue);
      if state.completion == Emitted then (b, AlreadyEmitted)
      else match IndexOf(queue, future)
           case None => (b, NoNote)
           case Some(p) =>
             var rest := b.queues[state.queue := queue[p + 1..]];
             (Book(rest, Mark(b.futures, queue[..p + 1])), WaitDepth(|queue| - p - 1))
  }

  // ----- visiting a program -----

  /** What the leaves of a program do; a wait for several futures is several leaves. */
  type Events = map<NodeId, Event>

  function AfterEvent(b: Book, e: Event): Book {
    match e
    case Issue(future, queue) => AfterIssue(b, future, queue)
    case Wait(future) => AfterWait(b, future).0
  }

  /** The book after every statement has been visited once, in the order of the text. */
  function Visited(events: Events, s: Stmt, b: Book): Book
    decreases s
  {
    match s
    case Seq(stmts) => VisitedAll(events, stmts, b)
    case If(_, thn, els) => Visited(events, els, Visited(events, thn, b))
    case Loop(_, body) => Visited(events, body, b)
    case InThreads(_, body) => Visited(events, body, b)
    case Block(body) => Visited(events, body, b)
    case Leaf(id) => if id in events then AfterEvent(b, events[id]) else b
    case _ => b
  }

  function VisitedAll(events: Events, stmts: seq<Stmt>, b: Book): Book
    decreases stmts
  {
    if stmts == [] then b else VisitedAll(events, stmts[1..], Visited(events, stmts[0], b))
  }

  type Notes = map<NodeId, Note>

  function NoteAt(notes: Notes, id: NodeId): Note {
    if id in notes then notes[id] else NoNote
  }

  /** Every wait carries the note it gets when it is visited. */
  ghost predicate Annotated(events: Events, s: Stmt, b: Book, notes: Notes)
    decreases s
  {
    match s
    case Seq(stmts) => AllAnnotated(events, stmts, b, notes)
    case If(_, thn, els) => Annotated(events, thn, b, notes) && Annotated(events, els, Visited(events, thn, b), notes)
    case Loop(_, body) => Annotated(events, body, b, notes)
    case InThreads(_, body) => Annotated(events, body, b, notes)
    case Block(body) => Annotated(events, body, b, notes)
    case Leaf(id) => id in events && events[id].Wait? ==> NoteAt(notes, id) == AfterWait(b, events[id].future).1
    case _ => true
  }

  ghost predicate AllAnnotated(events: Events, stmts: seq<Stmt>, b: Book, notes: Notes)
    decreases stmts
  {
    stmts != [] ==>
      Annotated(events, stmts[0], b, notes) && AllAnnotated(events, stmts[1..], Visited(events, stmts[0], b), notes)
  }

  /** The leaves of a statement. */
  function Leaves(s: Stmt): set<NodeId>
    decreases s
  {
    match s
    case Seq(stmts) => LeavesOfAll(stmts)
    case If(_, thn, els) => Leaves(thn) + Leaves(els)
    case Loop(_, body) => Leaves(body)
    case InThreads(_, body) => Leaves(body)
    case Block(body) => Leaves(body)
    case Leaf(id) => {id}
    case _ => {}
  }

  function LeavesOfAll(stmts: seq<Stmt>): set<NodeId>
    decreases stmts
  {
    if stmts == [] then {} else Leaves(stmts[0]) + LeavesOfAll(stmts[1..])
  }

  ghost predicate LeavesDiffer(s: Stmt)
    decreases s
  {
    match s
    case Seq(stmts) => AllLeavesDiffer(stmts)
    case If(_, thn, els) => LeavesDiffer(thn) && LeavesDiffer(els) && Leaves(thn) !! Leaves(els)
    case Loop(_, body) => LeavesDiffer(body)
    case InThreads(_, body) => LeavesDiffer(body)
    case Block(body) => LeavesDiffer(body)
    case _ => true
  }

  ghost predicate AllLeavesDiffer(stmts: seq<Stmt>)
    decreases stmts
  {
    stmts != [] ==> LeavesDiffer(stmts[0]) && AllLeavesDiffer(stmts[1..]) && Leaves(stmts[0]) !! LeavesOfAll(stmts[1..])
  }

  ghost predicate SameOn(ids: set<NodeId>, a: Notes, b: Notes) {
    forall id :: id in ids ==> NoteAt(a, id) == NoteAt(b, id)
  }

  lemma {:induction false} StillAnnotated(events: Events, s: Stmt, b: Book, notes: Notes, notes': Notes)
    requires Annotated(events, s, b, notes) && SameOn(Leaves(s), notes, notes')
    ensures Annotated(events, s, b, notes')
    decreases s
  {
    hide AfterWait, NoteAt, Visited;
    match s {
      case Seq(stmts) => AllStillAnnotated(events, stmts, b, notes, notes');
      case If(_, thn, els) =>
        StillAnnotated(events, thn, b, notes, notes');
        StillAnnotated(events, els, Visited(events, thn, b), notes, notes');
      case Loop(_, body) => StillAnnotated(events, body, b, notes, notes');
      case InThreads(_, body) => StillAnnotated(events, body, b, notes, notes');
      case Block(body) => StillAnnotated(events, body, b, notes, notes');
      case _ =>
    }
  }

  lemma {:induction false} AllStillAnnotated(events: Events, stmts: seq<Stmt>, b: Book, notes: Notes, notes': Notes)
    requires AllAnnotated(events, stmts, b, notes) && SameOn(LeavesOfAll(stmts), notes, notes')
    ensures AllAnnotated(events, stmts, b, notes')
    decreases stmts
  {
    hide Visited;
    if stmts != [] {
      StillAnnotated(events, stmts[0], b, notes, notes');
      AllStillAnnotated(events, stmts[1..], Visited(events, stmts[0], b), notes, notes');
    }
  }

  // ----- the visitor -----

  class AsyncOpGraph {
    var queues: map<string, seq<string>>
    var futures: map<string, FutureState>
    var notes: Notes

    constructor ()
      ensures Valid() && Contents() == Book(map[], map[]) && notes == map[]
    {
      queues, futures, notes := map[], map[], map[];
    }

    function Contents(): Book
      reads this`queues, this`futures
    {
      Book(queues, futures)
    }

    /** Every queued name has a state. */
    ghost predicate Valid()
      reads this`queues, this`futures
    {
      forall q, k :: q in queues && 0 <= k < |queues[q]| ==> queues[q][k] in futures
    }

    method IssueMMA(future: string, queue: string)
      requires Valid()
      modifies this`queues, this`futures
      ensures Valid() && Contents() == AfterIssue(old(Contents()), future, queue)
    {
      if queue !in queues {
        queues := queues[queue := []];
      }
      queues := queues[queue := queues[queue] + [future]];
      futures := futures[future := FutureState(queue, Pending)];
    }

    method ResolveMMAWait(future: string) returns (note: Note)
      requires Valid()
      modifies this`queues, this`futures
      ensures Valid() && (Contents(), note) == AfterWait(old(Contents()), future)
    {
      if future !in futures {
        return NoNote;
      }
      var state := futures[future];
      if state.completion != Pending {
        return AlreadyEmitted;
      }
      var queue := if state.queue in queues then queues[state.queue] else [];
      var found := IndexOf(queue, future);
      if found.None? {
        return NoNote;
      }
      var end := found.value + 1;
      note := WaitDepth(|queue| - end);
      RetireFirst(queue, end);
      queues := queues[state.queue := queue[end..]];
    }

    method RetireFirst(queue: seq<string>, end: nat)
      requires end <= |queue| && forall k :: 0 <= k < |queue| ==> queue[k] in futures
      modifies this`futures
      ensures futures == Mark(old(futures), queue[..end])
    {
      hide Mark;
      ghost var were := futures;
      MarkNone(were);
      for i := 0 to end
        invariant futures == Mark(were, queue[..i]) && futures.Keys == were.Keys
      {
        MarkOneMore(were, queue[..i], queue[i]);
        assert queue[..i + 1] == queue[..i] + [queue[i]];
        futures := futures[queue[i] := futures[queue[i]].(completion := Emitted)];
      }
    }

    /** Visits a program and leaves on every wait its note. */
    method Visit(events: Events, s: Stmt)
      requires Valid() && LeavesDiffer(s) && Leaves(s) !! notes.Keys
      modifies this
      ensures Valid() && Contents() == Visited(events, s, old(Contents()))
      ensures Annotated(events, s, old(Contents()), notes)
      ensures old(notes.Keys) <= notes.Keys <= old(notes.Keys) + Leaves(s)
      ensures forall id :: id in old(notes) ==> notes[id] == old(notes)[id]
      decreases s
    {
      hide AfterIssue, AfterWait;
      match s {
        case Seq(stmts) => VisitAll(events, stmts);
        case If(_, thn, els) =>
          ghost var b := Contents();
          Visit(events, thn);
          ghost var first := notes;
          Visit(events, els);
          StillAnnotated(events, thn, b, first, notes);
        case Loop(_, body) => Visit(events, body);
        case InThreads(_, body) => Visit(events, body);
        case Block(body) => Visit(events, body);
        case Leaf(id) =>
          if id in events {
            if events[id].Issue? {
              IssueMMA(events[id].future, events[id].queue);
            } else {
              var note := ResolveMMAWait(events[id].future);
              if note != NoNote { notes := notes[id := note]; }
            }
          }
        case _ =>
      }
    }

    method VisitAll(events: Events, stmts: seq<Stmt>)
      requires Valid() && AllLeavesDiffer(stmts) && LeavesOfAll(stmts) !! notes.Keys
      modifies this
      ensures Valid() && Contents() == VisitedAll(events, stmts, old(Contents()))
      ensures AllAnnotated(events, stmts, old(Contents()), notes)
      ensures old(notes.Keys) <= notes.Keys <= old(notes.Keys) + LeavesOfAll(stmts)
      ensures forall id :: id in old(notes) ==> notes[id] == old(notes)[id]
      decreases stmts
    {
      hide Visited, Annotated, Leaves, LeavesDiffer, Valid;
      if stmts != [] {
        ghost var b := Contents();
        Visit(events, stmts[0]);
        ghost var first := notes;
        VisitAll(events, stmts[1..]);
        StillAnnotated(events, stmts[0], b, first, notes);
      }
    }
  }

  // ----- runs -----

  function Run(events: seq<Event>): Book
    decreases |events|
  {
    if events == [] then Book(map[], map[])
    else
      var b := Run(events[..|events| - 1]);
      match events[|events| - 1]
      case Issue(future, queue) => AfterIssue(b, future, queue)
      case Wait(future) => AfterWait(b, future).0
  }

  /** What a wait at the end of the events is annotated with. */
  function LastNote(events: seq<Event>): Note
    requires events != []
  {
    var b := Run(events[..|events| - 1]);
    match events[|events| - 1]
    case Issue(_, _) => NoNote
    case Wait(future) => AfterWait(b, future).1
  }

  datatype Op = Op(future: string, queue: string)

  /** The operations issued, in order. */
  function Issued(events: seq<Event>): seq<Op>
    decreases |events|
  {
    if events == [] then []
    else
      var before := Issued(events[..|events| - 1]);
      match events[|events| - 1]
      case Issue(future, queue) => before + [Op(future, queue)]
      case Wait(_) => before
  }

  ghost predicate Distinct(ops: seq<Op>) {
    forall i, j :: 0 <= i < j < |ops| ==> ops[i].future != ops[j].future
  }

  // ----- queues hold the pending operations in issue order -----

  function PendingOf(ops: seq<Op>, futures: map<string, FutureState>, queue: string): seq<string>
    decreases |ops|
  {
    if ops == [] then []
    else
      var before, op := PendingOf(ops[..|ops| - 1], futures, queue), ops[|ops| - 1];
      if op.queue == queue && op.future in futures && futures[op.future].completion == Pending
      then before + [op.future] else before
  }

  /** The names issued. */
  function Names(ops: seq<Op>): set<string> {
    set op | op in ops :: op.future
  }

  /** The book knows exactly the futures issued, with their scopes. */
  ghost predicate Records(b: Book, ops: seq<Op>) {
    && b.futures.Keys == Names(ops)
    && (forall i :: 0 <= i < |ops| ==> ops[i].future in b.futures && b.futures[ops[i].future].queue == ops[i].queue)
  }

  /** Every queue holds exactly its pending operations, in issue order. */
  ghost predicate QueuesExact(b: Book, ops: seq<Op>) {
    forall q :: QueueOf(b, q) == PendingOf(ops, b.futures, q)
  }

  function Without(s: seq<string>, names: seq<string>): (r: seq<string>)
    decreases |s|
  {
    if s == [] then []
    else
      var before := Without(s[..|s| - 1], names);
      if s[|s| - 1] in names then before else before + [s[|s| - 1]]
  }

  lemma {:induction false} MarkingRemoves(ops: seq<Op>, futures: map<string, FutureState>, names: seq<string>,
                                          q: string)
    ensures PendingOf(ops, Mark(futures, names), q) == Without(PendingOf(ops, futures, q), names)
    decreases |ops|
  {
    if ops != [] {
      MarkingRemoves(ops[..|ops| - 1], futures, names, q);
      var before, op := PendingOf(ops[..|ops| - 1], futures, q), ops[|ops| - 1];
      assert (before + [op.future])[..|before|] == before;
    }
  }

  lemma {:induction false} WithoutNone(s: seq<string>, names: seq<string>)
    requires forall x :: x in s ==> x !in names
    ensures Without(s, names) == s
    decreases |s|
  {
    if s != [] { WithoutNone(s[..|s| - 1], names); }
  }

  lemma {:induction false} WithoutAll(s: seq<string>, names: seq<string>)
    requires forall x :: x in s ==> x in names
    ensures Without(s, names) == []
    decreases |s|
  {
    if s != [] { WithoutAll(s[..|s| - 1], names); }
  }

  lemma {:induction false} WithoutPrefix(s: seq<string>, k: nat, n: nat)
    requires k <= n <= |s| && NoRepeats(s)
    ensures Without(s[..n], s[..k]) == s[k..n]
    decreases n
  {
    if n == k {
      WithoutAll(s[..k], s[..k]);
    } else {
      WithoutPrefix(s, k, n - 1);
      assert s[..n][..n - 1] == s[..n - 1] && s[n - 1] !in s[..k];
    }
  }

  lemma {:induction false} PendingComeFromOps(ops: seq<Op>, futures: map<string, FutureState>, q: string, p: nat)
    returns (i: nat)
    requires p < |PendingOf(ops, futures, q)|
    ensures i < |ops| && ops[i].future == PendingOf(ops, futures, q)[p] && ops[i].queue == q
    decreases |ops|
  {
    var before := PendingOf(ops[..|ops| - 1], futures, q);
    if p < |before| {
      i := PendingComeFromOps(ops[..|ops| - 1], futures, q, p);
    } else {
      i := |ops| - 1;
    }
  }

  ghost predicate NoRepeats(s: seq<string>) {
    forall i, j :: 0 <= i < j < |s| ==> s[i] != s[j]
  }

  lemma AppendingFresh(s: seq<string>, x: string)
    requires NoRepeats(s) && forall k :: 0 <= k < |s| ==> s[k] != x
    ensures NoRepeats(s + [x])
  {
  }

  lemma InitIsDistinct(ops: seq<Op>)
    requires Distinct(ops) && ops != []
    ensures Distinct(ops[..|ops| - 1])
  {
  }

  lemma {:induction false} PendingAreDistinct(ops: seq<Op>, futures: map<string, FutureState>, q: string)
    requires Distinct(ops)
    ensures NoRepeats(PendingOf(ops, futures, q))
    decreases |ops|
  {
    if ops != [] {
      InitIsDistinct(ops);
      PendingAreDistinct(ops[..|ops| - 1], futures, q);
      var before := PendingOf(ops[..|ops| - 1], futures, q);
      forall k: nat | k < |before| ensures before[k] != ops[|ops| - 1].future
      {
        var i := PendingComeFromOps(ops[..|ops| - 1], futures, q, k);
        assert ops[i].future != ops[|ops| - 1].future;
      }
      AppendingFresh(before, ops[|ops| - 1].future);
    }
  }

  /** The maps say the same about the operations. */
  ghost predicate AgreeOn(ops: seq<Op>, futures: map<string, FutureState>, futures': map<string, FutureState>) {
    forall i :: 0 <= i < |ops| ==>
      ops[i].future in futures && ops[i].future in futures' && futures[ops[i].future] == futures'[ops[i].future]
  }

  lemma {:induction false} PendingIgnoresOthers(ops: seq<Op>, futures: map<string, FutureState>,
                                                futures': map<string, FutureState>, q: string)
    requires AgreeOn(ops, futures, futures')
    ensures PendingOf(ops, futures, q) == PendingOf(ops, futures', q)
    decreases |ops|
  {
    if ops != [] { PendingIgnoresOthers(ops[..|ops| - 1], futures, futures', q); }
  }

  lemma IssueIsRecorded(b: Book, ops: seq<Op>, future: string, queue: string)
    requires Records(b, ops) && Distinct(ops + [Op(future, queue)])
    ensures Records(AfterIssue(b, future, queue), ops + [Op(future, queue)])
    ensures forall i :: 0 <= i < |ops| ==> ops[i].future != future
  {
    var more := ops + [Op(future, queue)];
    assert more[|ops|] == Op(future, queue);
    forall i | 0 <= i < |ops| ensures ops[i].future != future
    {
      assert more[i] == ops[i];
    }
    forall f ensures f in Names(more) <==> f in Names(ops) || f == future
    {
      if f == future { assert more[|ops|] in more; }
      if f in Names(ops) {
        var op :| op in ops && op.future == f;
        assert op in more;
      }
    }
  }

  lemma IssueKeepsQueues(b: Book, b': Book, ops: seq<Op>, more: seq<Op>, future: string, queue: string)
    requires Records(b, ops) && QueuesExact(b, ops) && forall i :: 0 <= i < |ops| ==> ops[i].future != future
    requires more == ops + [Op(future, queue)] && b' == AfterIssue(b, future, queue)
    ensures QueuesExact(b', more)
  {
    hide Records, PendingOf, Names;
    OthersAgree(b, ops, future, queue);
    forall q ensures QueueOf(b', q) == PendingOf(more, b'.futures, q)
    {
      PendingIgnoresOthers(ops, b.futures, b'.futures, q);
      assert QueueOf(b, q) == PendingOf(ops, b.futures, q);
      PendingOfMore(ops, b'.futures, Op(future, queue), q);
    }
  }

  lemma OthersAgree(b: Book, ops: seq<Op>, future: string, queue: string)
    requires Records(b, ops) && forall i :: 0 <= i < |ops| ==> ops[i].future != future
    ensures AgreeOn(ops, b.futures, AfterIssue(b, future, queue).futures)
  {
    hide Names, QueueOf;
  }

  lemma PendingOfMore(ops: seq<Op>, futures: map<string, FutureState>, op: Op, q: string)
    requires op.future in futures && futures[op.future].completion == Pending
    ensures PendingOf(ops + [op], futures, q) == PendingOf(ops, futures, q) + if op.queue == q then [op.future] else []
  {
    assert (ops + [op])[..|ops|] == ops;
  }

  lemma WaitIsRecorded(b: Book, ops: seq<Op>, future: string)
    requires Records(b, ops)
    ensures Records(AfterWait(b, future).0, ops)
  {
  }

  lemma WaitKeepsQueues(b: Book, ops: seq<Op>, future: string)
    requires Records(b, ops) && QueuesExact(b, ops) && Distinct(ops)
    ensures QueuesExact(AfterWait(b, future).0, ops)
  {
    hide PendingOf, Distinct, Names, Mark;
    if AfterWait(b, future).1.WaitDepth? {
      var scope := b.futures[future].queue;
      var b', n := AfterWait(b, future).0, IndexOf(QueueOf(b, scope), future).value + 1;
      forall q ensures QueueOf(b', q) == PendingOf(ops, b'.futures, q)
      {
        QueueAfterMarking(b, ops, q, scope, n);
      }
    }
  }

  lemma QueueAfterMarking(b: Book, ops: seq<Op>, q: string, scope: string, n: nat)
    requires QueuesExact(b, ops) && Distinct(ops) && n <= |QueueOf(b, scope)|
    ensures PendingOf(ops, Mark(b.futures, QueueOf(b, scope)[..n]), q)
            == if q == scope then QueueOf(b, scope)[n..] else QueueOf(b, q)
  {
    var queue, done := QueueOf(b, scope), QueueOf(b, scope)[..n];
    MarkingRemoves(ops, b.futures, done, q);
    assert QueueOf(b, q) == PendingOf(ops, b.futures, q) && queue == PendingOf(ops, b.futures, scope);
    PendingAreDistinct(ops, b.futures, scope);
    if q == scope {
      WithoutPrefix(queue, n, |queue|);
      assert queue[..|queue|] == queue;
    } else {
      forall x | x in QueueOf(b, q) ensures x !in done
      {
        OneScopeEach(b, ops, q, scope, x);
      }
      WithoutNone(QueueOf(b, q), done);
    }
  }

  lemma OneScopeEach(b: Book, ops: seq<Op>, q: string, scope: string, x: string)
    requires QueuesExact(b, ops) && Distinct(ops) && q != scope && x in QueueOf(b, q)
    ensures x !in QueueOf(b, scope)
  {
    assert QueueOf(b, q) == PendingOf(ops, b.futures, q) && QueueOf(b, scope) == PendingOf(ops, b.futures, scope);
    var k: nat :| k < |QueueOf(b, q)| && QueueOf(b, q)[k] == x;
    var i := PendingComeFromOps(ops, b.futures, q, k);
    if x in QueueOf(b, scope) {
      var l: nat :| l < |QueueOf(b, scope)| && QueueOf(b, scope)[l] == x;
      var j := PendingComeFromOps(ops, b.futures, scope, l);
    }
  }

  lemma NothingYet()
    ensures Records(Book(map[], map[]), []) && QueuesExact(Book(map[], map[]), [])
  {
  }

  /** After any events that issue each future once, every queue holds exactly its pending
    operations in issue order. */
  lemma {:induction false} QueuesHoldPending(events: seq<Event>)
    requires Distinct(Issued(events))
    ensures Records(Run(events), Issued(events)) && QueuesExact(Run(events), Issued(events))
    decreases |events|
  {
    hide Names, QueueOf, AfterIssue, AfterWait, Records, QueuesExact, Distinct;
    if events == [] {
      NothingYet();
    } else {
      var before, last := events[..|events| - 1], events[|events| - 1];
      PrefixIsDistinct(events, |events| - 1);
      QueuesHoldPending(before);
      match last
      case Issue(future, queue) =>
        IssueIsRecorded(Run(before), Issued(before), future, queue);
        IssueKeepsQueues(Run(before), Run(events), Issued(before), Issued(events), future, queue);
      case Wait(future) =>
        WaitIsRecorded(Run(before), Issued(before), future);
        WaitKeepsQueues(Run(before), Issued(before), future);
    }
  }

  // ----- hardware -----

  /** How many of the operations went to a hardware unit; scopes may share one. */
  function Load(ops: seq<Op>, unit: string -> string, u: string): nat
    decreases |ops|
  {
    if ops == [] then 0
    else Load(ops[..|ops| - 1], unit, u) + if unit(ops[|ops| - 1].queue) == u then 1 else 0
  }

  lemma {:induction false} LoadGrows(ops: seq<Op>, unit: string -> string, u: string, i: nat, j: nat)
    requires i <= j <= |ops|
    ensures Load(ops[..i], unit, u) <= Load(ops[..j], unit, u)
    decreases j
  {
    if i < j {
      LoadGrows(ops, unit, u, i, j - 1);
      assert ops[..j][..j - 1] == ops[..j - 1];
    }
  }

  /** How many operations each unit has retired, in issue order, after each event. */
  type Progress = seq<string -> nat>

  ghost predicate NoLess(was: string -> nat, now: string -> nat) {
    forall u :: was(u) <= now(u)
  }

  /** Units never un-retire, and a wait of depth `d` leaves at most the newest `d` operations of
    the unit of its target outstanding. */
  ghost predicate InOrder(events: seq<Event>, unit: string -> string, retired: Progress)
  {
    && |retired| == |events| + 1
    && (forall k {:trigger NoLess(retired[k], retired[k + 1])} :: 0 <= k < |events| ==>
        NoLess(retired[k], retired[k + 1]))
    && (forall k {:trigger Obeyed(events[..k + 1], unit, retired[k + 1])} :: 0 <= k < |events| ==>
          Obeyed(events[..k + 1], unit, retired[k + 1]))
  }

  ghost predicate Obeyed(events: seq<Event>, unit: string -> string, now: string -> nat)
    requires events != []
  {
    var note := LastNote(events);
    note.WaitDepth? ==>
      var target := events[|events| - 1].future;
      target in Run(events).futures &&
      var u := unit(Run(events).futures[target].queue);
      now(u) + note.depth >= Load(Issued(events), unit, u)
  }

  /** Operation `i` has been retired by its unit. */
  ghost predicate Retired(ops: seq<Op>, unit: string -> string, now: string -> nat, i: nat)
    requires i < |ops|
  {
    Load(ops[..i], unit, unit(ops[i].queue)) < now(unit(ops[i].queue))
  }

  /** Behind the operation at position `p` of its queue, its unit has at least the rest of the queue. */
  lemma {:induction false} QueueIsBehind(ops: seq<Op>, futures: map<string, FutureState>, unit: string -> string,
                                         q: string,
                                         p: nat, i: nat)
    requires Distinct(ops) && p < |PendingOf(ops, futures, q)|
    requires i < |ops| && ops[i].future == PendingOf(ops, futures, q)[p] && ops[i].queue == q
    ensures Load(ops[..i], unit, unit(q)) + (|PendingOf(ops, futures, q)| - p) <= Load(ops, unit, unit(q))
    decreases |ops|
  {
    var init, last := ops[..|ops| - 1], ops[|ops| - 1];
    var before := PendingOf(init, futures, q);
    if p < |before| {
      var j := PendingComeFromOps(init, futures, q, p);
      assert ops[j].future == ops[i].future;
      assert j == i;
      InitIsDistinct(ops);
      QueueIsBehind(init, futures, unit, q, p, i);
      assert init[..i] == ops[..i];
    } else {
      assert ops[i].future == last.future;
      assert i == |ops| - 1;
    }
  }

  /** Whatever a wait of the noted depth leaves running, its target and everything it marks are retired. */
  lemma WaitRetires(b: Book, ops: seq<Op>, unit: string -> string, now: string -> nat, future: string, i: nat)
    requires Records(b, ops) && QueuesExact(b, ops) && Distinct(ops) && AfterWait(b, future).1.WaitDepth?
    requires var u := unit(b.futures[future].queue); now(u) + AfterWait(b, future).1.depth >= Load(ops, unit, u)
    requires i < |ops| && b.futures[ops[i].future].completion == Pending
    requires AfterWait(b, future).0.futures[ops[i].future].completion == Emitted
    ensures Retired(ops, unit, now, i)
  {
    var scope := b.futures[future].queue;
    var queue := QueueOf(b, scope);
    var p := IndexOf(queue, future).value;
    assert queue == PendingOf(ops, b.futures, scope);
    assert ops[i].future in queue[..p + 1];
    var k: nat :| k <= p && queue[k] == ops[i].future;
    var j := PendingComeFromOps(ops, b.futures, scope, k);
    assert j == i;
    QueueIsBehind(ops, b.futures, unit, scope, k, i);
  }

  ghost predicate IsEmitted(b: Book, future: string) {
    future in b.futures && b.futures[future].completion == Emitted
  }

  ghost predicate EmittedAreRetired(b: Book, ops: seq<Op>, unit: string -> string, now: string -> nat) {
    forall i :: 0 <= i < |ops| && IsEmitted(b, ops[i].future) ==> Retired(ops, unit, now, i)
  }

  lemma InOrderAt(events: seq<Event>, unit: string -> string, retired: Progress, k: nat)
    requires InOrder(events, unit, retired) && k < |events|
    ensures NoLess(retired[k], retired[k + 1]) && Obeyed(events[..k + 1], unit, retired[k + 1])
  {
    hide NoLess, Obeyed;
  }

  /** On in-order hardware, however scopes share units, every future marked emitted is complete
    at every point of every run. */
  lemma {:induction false} EmittedIsComplete(events: seq<Event>, unit: string -> string, retired: Progress, n: nat)
    requires Distinct(Issued(events)) && InOrder(events, unit, retired) && n <= |events|
    ensures EmittedAreRetired(Run(events[..n]), Issued(events[..n]), unit, retired[n])
    decreases n
  {
    hide Obeyed, Distinct, Records, QueuesExact, AfterIssue, AfterWait, EmittedAreRetired;
    PrefixIsDistinct(events, n);
    if n == 0 {
      NothingEmitted(unit, retired[0]);
    } else {
      EmittedIsComplete(events, unit, retired, n - 1);
      var before, now := events[..n - 1], events[..n];
      assert now[..n - 1] == before && now[n - 1] == events[n - 1];
      InOrderAt(events, unit, retired, n - 1);
      PrefixIsDistinct(events, n - 1);
      QueuesHoldPending(before);
      match events[n - 1]
      case Issue(future, queue) =>
        IssueKeepsRetired(Run(before), Issued(before), unit, retired[n - 1], retired[n], future, queue);
      case Wait(future) =>
        WaitIsObeyed(now, unit, retired[n]);
        WaitKeepsRetired(Run(before), Issued(before), unit, retired[n - 1], retired[n], future);
    }
  }

  lemma NothingEmitted(unit: string -> string, now: string -> nat)
    ensures EmittedAreRetired(Book(map[], map[]), [], unit, now)
  {
  }

  lemma IssueKeepsRetired(b: Book, ops: seq<Op>, unit: string -> string, was: string -> nat, now: string -> nat,
                          future: string, queue: string)
    requires EmittedAreRetired(b, ops, unit, was) && NoLess(was, now) && Records(b, ops)
    requires Distinct(ops + [Op(future, queue)])
    ensures EmittedAreRetired(AfterIssue(b, future, queue), ops + [Op(future, queue)], unit, now)
  {
    var more := ops + [Op(future, queue)];
    forall i | 0 <= i < |more| && IsEmitted(AfterIssue(b, future, queue), more[i].future)
      ensures Retired(more, unit, now, i)
    {
      assert more[|ops|].future == future && more[i].future != future;
      assert i < |ops| && more[i] == ops[i] && more[..i] == ops[..i];
      assert Retired(ops, unit, was, i);
    }
  }

  /** The wait leaves no more of its target's unit running than its note says. */
  ghost predicate Heeded(b: Book, ops: seq<Op>, unit: string -> string, now: string -> nat, future: string) {
    AfterWait(b, future).1.WaitDepth? ==>
      var u := unit(b.futures[future].queue);
      now(u) + AfterWait(b, future).1.depth >= Load(ops, unit, u)
  }

  lemma WaitIsObeyed(events: seq<Event>, unit: string -> string, now: string -> nat)
    requires events != [] && events[|events| - 1].Wait? && Obeyed(events, unit, now)
    ensures var before := events[..|events| - 1];
            Heeded(Run(before), Issued(before), unit, now, events[|events| - 1].future)
  {
    hide Load;
    var b, future := Run(events[..|events| - 1]), events[|events| - 1].future;
    if AfterWait(b, future).1.WaitDepth? {
      assert Run(events) == AfterWait(b, future).0 && LastNote(events) == AfterWait(b, future).1;
      assert Run(events).futures[future].queue == b.futures[future].queue;
    }
  }

  lemma WaitKeepsRetired(b: Book, ops: seq<Op>, unit: string -> string, was: string -> nat, now: string -> nat,
                         future: string)
    requires EmittedAreRetired(b, ops, unit, was) && NoLess(was, now)
    requires Records(b, ops) && QueuesExact(b, ops) && Distinct(ops) && Heeded(b, ops, unit, now, future)
    ensures EmittedAreRetired(AfterWait(b, future).0, ops, unit, now)
  {
    hide Load, PendingOf, QueuesExact, Distinct;
    forall i | 0 <= i < |ops| && IsEmitted(AfterWait(b, future).0, ops[i].future) ensures Retired(ops, unit, now, i)
    {
      if IsEmitted(b, ops[i].future) {
        assert Retired(ops, unit, was, i);
      } else {
        WaitRetires(b, ops, unit, now, future, i);
      }
    }
  }

  lemma {:induction false} PrefixIsDistinct(events: seq<Event>, n: nat)
    requires n <= |events| && Distinct(Issued(events))
    ensures Issued(events[..n]) <= Issued(events) && Distinct(Issued(events[..n]))
    decreases |events|
  {
    if n < |events| {
      var init := events[..|events| - 1];
      assert Issued(init) <= Issued(events);
      PrefixIsDistinct(init, n);
      assert init[..n] == events[..n];
    } else {
      assert events[..n] == events;
    }
  }

  lemma {:induction false} PendingIsQueued(ops: seq<Op>, futures: map<string, FutureState>, i: nat)
    requires i < |ops| && ops[i].future in futures && futures[ops[i].future].completion == Pending
    ensures ops[i].future in PendingOf(ops, futures, ops[i].queue)
    decreases |ops|
  {
    if i < |ops| - 1 {
      PendingIsQueued(ops[..|ops| - 1], futures, i);
    }
  }

  /** A wait for an issued future leaves it marked emitted. */
  lemma WaitEmitsItsTarget(b: Book, ops: seq<Op>, i: nat)
    requires Records(b, ops) && QueuesExact(b, ops) && i < |ops|
    ensures IsEmitted(AfterWait(b, ops[i].future).0, ops[i].future)
  {
    hide PendingOf, Names;
    var future := ops[i].future;
    if b.futures[future].completion == Pending {
      var queue := QueueOf(b, ops[i].queue);
      assert queue == PendingOf(ops, b.futures, ops[i].queue);
      PendingIsQueued(ops, b.futures, i);
      var p := IndexOf(queue, future);
      assert p.Some? && future == queue[..p.value + 1][p.value];
    }
  }

  /** After a wait for any future issued before it, that future is complete. */
  lemma WaitedIsComplete(events: seq<Event>, unit: string -> string, retired: Progress, n: nat, i: nat)
    requires Distinct(Issued(events)) && InOrder(events, unit, retired) && 0 < n <= |events|
    requires i < |Issued(events[..n])| && events[n - 1] == Wait(Issued(events[..n])[i].future)
    ensures Retired(Issued(events[..n]), unit, retired[n], i)
  {
    hide InOrder, Distinct, Records, QueuesExact, AfterWait, Retired;
    var before, now := events[..n - 1], events[..n];
    assert now[..n - 1] == before && now[n - 1] == events[n - 1];
    EmittedIsComplete(events, unit, retired, n);
    PrefixIsDistinct(events, n - 1);
    QueuesHoldPending(before);
    WaitEmitsItsTarget(Run(before), Issued(before), i);
  }
}
