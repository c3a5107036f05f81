/** The control-flow graph the completion analysis runs on: its construction from
  a structured program, and the proof that its paths are exactly the runs.
 */
module ControlFlow {
  import opened Basics
  import opened Programs

  datatype Node = Node(source: Option<NodeId>, successors: seq<nat>)

  ghost predicate NodeAt(cfg: seq<Node>, lo: nat, e: nat, id: NodeId, successors: seq<nat>)
  {
    lo <= e < |cfg| && cfg[e] == Node(Some(id), successors)
  }

  /** `e` is the entry of a subgraph of `cfg` for `s`, all of whose own nodes lie at or
    above `lo`, which leaves to `next`, `brk`, `cont` or the device exit 0. */
  ghost predicate Fragment(visible: set<NodeId>, cfg: seq<Node>, lo: nat, s: Stmt, e: nat,
                           next: nat, brk: nat, cont: nat)
    decreases s, 1
  {
    match s
    case Absent => e == next
    case Seq(stmts) => FragmentSeq(visible, cfg, lo, stmts, e, next, brk, cont)
    case Return(id) => NodeAt(cfg, lo, e, id, [0])
    case Break(id) => NodeAt(cfg, lo, e, id, [brk])
    case Continue(id) => NodeAt(cfg, lo, e, id, [cont])
    case If(id, thn, els) =>
      && lo <= e < |cfg| && cfg[e].source == Some(id) && |cfg[e].successors| == 2
      && Fragment(visible, cfg, lo, thn, cfg[e].successors[0], next, brk, cont)
      && Fragment(visible, cfg, lo, els, cfg[e].successors[1], next, brk, cont)
    case Loop(id, body) =>
      && lo <= e < |cfg| && cfg[e].source == Some(id) && |cfg[e].successors| == 2
      && cfg[e].successors[1] == next
      && Fragment(visible, cfg, lo, body, cfg[e].successors[0], e, next, e)
    case InThreads(id, body) =>
      && lo <= e < |cfg| && cfg[e].source == Some(id) && |cfg[e].successors| == 2
      && cfg[e].successors[1] == next
      && Fragment(visible, cfg, lo, body, cfg[e].successors[0], next, brk, cont)
    case Block(body) => Fragment(visible, cfg, lo, body, e, next, brk, cont)
    case Leaf(id) => if id in visible then NodeAt(cfg, lo, e, id, [next]) else e == next
  }

  ghost predicate FragmentSeq(visible: set<NodeId>, cfg: seq<Node>, lo: nat, stmts: seq<Stmt>, e: nat,
                              next: nat, brk: nat, cont: nat)
    decreases stmts, 0
  {
    if stmts == [] then e == next
    else exists mid: nat ::
      && FragmentSeq(visible, cfg, lo, stmts[1..], mid, next, brk, cont)
      && Fragment(visible, cfg, lo, stmts[0], e, mid, brk, cont)
  }

  /** A fragment survives any change of the graph below `lo` and any extension above it. */
  lemma FragmentFrame(visible: set<NodeId>, cfg: seq<Node>, cfg': seq<Node>, lo: nat, lo': nat, s: Stmt,
                      e: nat, next: nat, brk: nat, cont: nat)
    requires Fragment(visible, cfg, lo, s, e, next, brk, cont)
    requires lo' <= lo && |cfg| <= |cfg'|
    requires forall k :: lo <= k < |cfg| ==> cfg'[k] == cfg[k]
    ensures Fragment(visible, cfg', lo', s, e, next, brk, cont)
    decreases s, 1
  {
    match s
    case Seq(stmts) => FragmentSeqFrame(visible, cfg, cfg', lo, lo', stmts, e, next, brk, cont);
    case If(id, thn, els) =>
      FragmentFrame(visible, cfg, cfg', lo, lo', thn, cfg[e].successors[0], next, brk, cont);
      FragmentFrame(visible, cfg, cfg', lo, lo', els, cfg[e].successors[1], next, brk, cont);
    case Loop(id, body) =>
      FragmentFrame(visible, cfg, cfg', lo, lo', body, cfg[e].successors[0], e, next, e);
    case InThreads(id, body) =>
      FragmentFrame(visible, cfg, cfg', lo, lo', body, cfg[e].successors[0], next, brk, cont);
    case Block(body) => FragmentFrame(visible, cfg, cfg', lo, lo', body, e, next, brk, cont);
    case _ =>
  }

  lemma FragmentSeqFrame(visible: set<NodeId>, cfg: seq<Node>, cfg': seq<Node>, lo: nat, lo': nat,
                         stmts: seq<Stmt>, e: nat, next: nat, brk: nat, cont: nat)
    requires FragmentSeq(visible, cfg, lo, stmts, e, next, brk, cont)
    requires lo' <= lo && |cfg| <= |cfg'|
    requires forall k :: lo <= k < |cfg| ==> cfg'[k] == cfg[k]
    ensures FragmentSeq(visible, cfg', lo', stmts, e, next, brk, cont)
    decreases stmts, 0
  {
    if stmts != [] {
      var mid: nat :| && FragmentSeq(visible, cfg, lo, stmts[1..], mid, next, brk, cont)
                      && Fragment(visible, cfg, lo, stmts[0], e, mid, brk, cont);
      FragmentSeqFrame(visible, cfg, cfg', lo, lo', stmts[1..], mid, next, brk, cont);
      FragmentFrame(visible, cfg, cfg', lo, lo', stmts[0], e, mid, brk, cont);
    }
  }

  ghost predicate WellLinked(cfg: seq<Node>)
  {
    && |cfg| > 0
    && cfg[0] == Node(None, [])
    && (forall k :: 0 < k < |cfg| ==> cfg[k].source.Some?)
    && (forall k, j :: 0 <= k < |cfg| && 0 <= j < |cfg[k].successors| ==> cfg[k].successors[j] < |cfg|)
  }

  /** The graph under construction; index zero is the common device exit. */
  class Builder {
    const visible: set<NodeId>
    var cfg: seq<Node>

    constructor (visible: set<NodeId>)
      ensures this.visible == visible && cfg == [Node(None, [])] && WellLinked(cfg)
    {
      this.visible := visible;
      cfg := [Node(None, [])];
    }

    method Add(source: NodeId, successors: seq<nat>) returns (index: nat)
      requires WellLinked(cfg)
      requires forall j :: 0 <= j < |successors| ==> successors[j] < |cfg|
      modifies this
      ensures index == old(|cfg|) && cfg == old(cfg) + [Node(Some(source), successors)]
      ensures WellLinked(cfg)
    {
      index := |cfg|;
      cfg := cfg + [Node(Some(source), successors)];
    }

    /** Appends the subgraph of `s` and returns its entry; nothing already built changes. */
    method Build(s: Stmt, next: nat, brk: nat, cont: nat) returns (e: nat)
      requires WellLinked(cfg) && next < |cfg| && brk < |cfg| && cont < |cfg|
      modifies this
      ensures WellLinked(cfg) && old(cfg) <= cfg && e < |cfg|
      ensures Fragment(visible, cfg, old(|cfg|), s, e, next, brk, cont)
      ensures forall k :: old(|cfg|) <= k < |cfg| ==> cfg[k].successors != []
      decreases s, 1
    {
      match s
      case Absent => e := next;
      case Seq(stmts) => e := BuildSeq(stmts, next, brk, cont);
      case Return(id) => e := Add(id, [0]);
      case Break(id) => e := Add(id, [brk]);
      case Continue(id) => e := Add(id, [cont]);
      case If(_, _, _) => e := BuildBranch(s, next, brk, cont);
      case Loop(_, _) => e := BuildLoop(s, next, brk, cont);
      case InThreads(id, body) =>
        var b := Build(body, next, brk, cont);
        ghost var low := cfg;
        e := Add(id, [b, next]);
        FragmentFrame(visible, low, cfg, old(|cfg|), old(|cfg|), body, b, next, brk, cont);
      case Block(body) => e := Build(body, next, brk, cont);
      case Leaf(id) =>
        if id in visible {
          e := Add(id, [next]);
        } else {
          e := next;
        }
    }

    method BuildBranch(s: Stmt, next: nat, brk: nat, cont: nat) returns (e: nat)
      requires s.If?
      requires WellLinked(cfg) && next < |cfg| && brk < |cfg| && cont < |cfg|
      modifies this
      ensures WellLinked(cfg) && old(cfg) <= cfg && e < |cfg|
      ensures Fragment(visible, cfg, old(|cfg|), s, e, next, brk, cont)
      ensures forall k :: old(|cfg|) <= k < |cfg| ==> cfg[k].successors != []
      decreases s, 0
    {
      var a := Build(s.thn, next, brk, cont);
      ghost var mid := cfg;
      var b := Build(s.els, next, brk, cont);
      ghost var low := cfg;
      e := Add(s.id, [a, b]);
      FragmentFrame(visible, mid, cfg, old(|cfg|), old(|cfg|), s.thn, a, next, brk, cont);
      FragmentFrame(visible, low, cfg, |mid|, old(|cfg|), s.els, b, next, brk, cont);
    }

    method BuildLoop(s: Stmt, next: nat, brk: nat, cont: nat) returns (e: nat)
      requires s.Loop?
      requires WellLinked(cfg) && next < |cfg| && brk < |cfg| && cont < |cfg|
      modifies this
      ensures WellLinked(cfg) && old(cfg) <= cfg && e < |cfg|
      ensures Fragment(visible, cfg, old(|cfg|), s, e, next, brk, cont)
      ensures forall k :: old(|cfg|) <= k < |cfg| ==> cfg[k].successors != []
      decreases s, 0
    {
      e := Add(s.id, []);
      ghost var mid := |cfg|;
      var b := Build(s.body, e, next, e);
      ghost var low := cfg;
      cfg := cfg[e := Node(Some(s.id), [b, next])];
      FragmentFrame(visible, low, cfg, mid, e, s.body, b, e, next, e);
    }

    method BuildSeq(stmts: seq<Stmt>, next: nat, brk: nat, cont: nat) returns (e: nat)
      requires WellLinked(cfg) && next < |cfg| && brk < |cfg| && cont < |cfg|
      modifies this
      ensures WellLinked(cfg) && old(cfg) <= cfg && e < |cfg|
      ensures FragmentSeq(visible, cfg, old(|cfg|), stmts, e, next, brk, cont)
      ensures forall k :: old(|cfg|) <= k < |cfg| ==> cfg[k].successors != []
      decreases stmts, 0
    {
      e := next;
      var i := |stmts|;
      assert stmts[i..] == [];
      while i > 0
        invariant 0 <= i <= |stmts| && e < |cfg|
        invariant WellLinked(cfg) && old(cfg) <= cfg
        invariant forall k :: old(|cfg|) <= k < |cfg| ==> cfg[k].successors != []
        invariant FragmentSeq(visible, cfg, old(|cfg|), stmts[i..], e, next, brk, cont)
      {
        i := i - 1;
        ghost var before, mid := cfg, e;
        e := Build(stmts[i], e, brk, cont);
        FragmentSeqFrame(visible, before, cfg, old(|cfg|), old(|cfg|), stmts[i + 1..], mid, next, brk, cont);
        FragmentFrame(visible, cfg, cfg, |before|, old(|cfg|), stmts[i], e, mid, brk, cont);
        assert stmts[i..][0] == stmts[i] && stmts[i..][1..] == stmts[i + 1..];
      }
      assert stmts[0..] == stmts;
    }
  }

  ghost predicate IsGraphOf(visible: set<NodeId>, cfg: seq<Node>, root: Stmt, entry: nat)
  {
    && WellLinked(cfg) && entry < |cfg|
    && Fragment(visible, cfg, 1, root, entry, 0, 0, 0)
    && (forall k :: 0 < k < |cfg| ==> cfg[k].successors != [])
  }

  method BuildGraph(visible: set<NodeId>, root: Stmt) returns (cfg: seq<Node>, entry: nat)
    ensures IsGraphOf(visible, cfg, root, entry)
  {
    var builder := new Builder(visible);
    entry := builder.Build(root, 0, 0, 0);
    cfg := builder.cfg;
  }

  /** A path of the graph; its trace is the sources of the nodes it has left. */
  ghost predicate IsPath(cfg: seq<Node>, p: seq<nat>)
  {
    && |p| > 0
    && (forall i :: 0 <= i < |p| ==> p[i] < |cfg|)
    && (forall i :: 0 <= i < |p| - 1 ==> p[i + 1] in cfg[p[i]].successors && cfg[p[i]].source.Some?)
  }

  ghost function Trace(cfg: seq<Node>, p: seq<nat>): (t: seq<NodeId>)
    requires IsPath(cfg, p)
    ensures |t| == |p| - 1
  {
    seq(|p| - 1, i requires 0 <= i < |p| - 1 => cfg[p[i]].source.value)
  }

  ghost function Target(o: Outcome, next: nat, brk: nat, cont: nat): nat
    requires o != Cut
  {
    match o case Normal => next case Broke => brk case Continued => cont case Returned => 0
  }

  /** Two paths meeting at a node make one path, and traces add up. */
  lemma Join(cfg: seq<Node>, p: seq<nat>, q: seq<nat>) returns (r: seq<nat>)
    requires IsPath(cfg, p) && IsPath(cfg, q) && p[|p| - 1] == q[0]
    ensures IsPath(cfg, r) && Trace(cfg, r) == Trace(cfg, p) + Trace(cfg, q)
    ensures r[0] == p[0] && r[|r| - 1] == q[|q| - 1] && |r| == |p| + |q| - 1
  {
    r := p + q[1..];
    forall i | 0 <= i < |r| - 1
      ensures r[i + 1] in cfg[r[i]].successors && cfg[r[i]].source.Some?
    {
      if i >= |p| - 1 {
        assert r[i] == q[i - (|p| - 1)] && r[i + 1] == q[i - (|p| - 1) + 1];
      }
    }
  }

  lemma Hop(cfg: seq<Node>, e: nat, to: nat) returns (p: seq<nat>)
    requires e < |cfg| && to < |cfg| && cfg[e].source.Some? && to in cfg[e].successors
    ensures IsPath(cfg, p) && p == [e, to] && Trace(cfg, p) == [cfg[e].source.value]
  {
    p := [e, to];
  }

  /** Every run of a statement is a path through its fragment that ends where the outcome says. */
  lemma {:induction false} RunsArePaths(visible: set<NodeId>, cfg: seq<Node>, lo: nat, s: Stmt, t: seq<NodeId>,
                                        o: Outcome, e: nat, next: nat, brk: nat, cont: nat)
    returns (p: seq<nat>)
    requires WellLinked(cfg) && next < |cfg| && brk < |cfg| && cont < |cfg| && e < |cfg|
    requires Fragment(visible, cfg, lo, s, e, next, brk, cont) && Exec(visible, s, t, o)
    ensures IsPath(cfg, p) && p[0] == e && Trace(cfg, p) == t
    ensures o != Cut ==> p[|p| - 1] == Target(o, next, brk, cont)
    decreases |t|, s, 2
  {
    if t == [] && o == Cut { p := [e]; return; }
    match s
    case Absent => p := [e];
    case Seq(stmts) => p := SeqRunsArePaths(visible, cfg, lo, stmts, t, o, e, next, brk, cont);
    case Return(id) => p := Hop(cfg, e, 0);
    case Break(id) => p := Hop(cfg, e, brk);
    case Continue(id) => p := Hop(cfg, e, cont);
    case If(_, _, _) => p := BranchRunsArePaths(visible, cfg, lo, s, t, o, e, next, brk, cont);
    case Loop(id, body) => p := LoopRunsArePaths(visible, cfg, lo, s, t, o, e, next, brk, cont);
    case InThreads(_, _) => p := BranchRunsArePaths(visible, cfg, lo, s, t, o, e, next, brk, cont);
    case Block(body) => p := RunsArePaths(visible, cfg, lo, body, t, o, e, next, brk, cont);
    case Leaf(id) =>
      if id in visible {
        p := Hop(cfg, e, next);
      } else {
        p := [e];
      }
  }

  lemma {:induction false} BranchRunsArePaths(visible: set<NodeId>, cfg: seq<Node>, lo: nat, s: Stmt, t: seq<NodeId>,
                                              o: Outcome, e: nat, next: nat, brk: nat, cont: nat)
    returns (p: seq<nat>)
    requires WellLinked(cfg) && next < |cfg| && brk < |cfg| && cont < |cfg| && e < |cfg|
    requires (s.If? || s.InThreads?) && t != []
    requires Fragment(visible, cfg, lo, s, e, next, brk, cont) && Exec(visible, s, t, o)
    ensures IsPath(cfg, p) && p[0] == e && Trace(cfg, p) == t
    ensures o != Cut ==> p[|p| - 1] == Target(o, next, brk, cont)
    decreases |t|, s, 0
  {
    if s.InThreads? && |t| == 1 && o == Normal {
      p := Hop(cfg, e, next);
    } else {
      var first := s.InThreads? || Exec(visible, s.thn, t[1..], o);
      var to := cfg[e].successors[if first then 0 else 1];
      var branch := if s.InThreads? then s.body else if first then s.thn else s.els;
      var q := RunsArePaths(visible, cfg, lo, branch, t[1..], o, to, next, brk, cont);
      var h := Hop(cfg, e, to);
      p := Join(cfg, h, q);
    }
  }

  lemma {:induction false} IterationIsPath(visible: set<NodeId>, cfg: seq<Node>, lo: nat, s: Stmt, t: seq<NodeId>,
                                           o: Outcome, i: nat, e: nat, next: nat, brk: nat, cont: nat)
    returns (p: seq<nat>)
    requires WellLinked(cfg) && next < |cfg| && brk < |cfg| && cont < |cfg| && e < |cfg|
    requires s.Loop? && t != [] && t[0] == s.id && Iterates(visible, s, t, o, i)
    requires Fragment(visible, cfg, lo, s, e, next, brk, cont)
    ensures IsPath(cfg, p) && p[0] == e && Trace(cfg, p) == t
    ensures o != Cut ==> p[|p| - 1] == Target(o, next, brk, cont)
    decreases |t|, s, 0
  {
    var to := cfg[e].successors[0];
    var h := Hop(cfg, e, to);
    var how := if Exec(visible, s.body, t[1..i], Normal) then Normal else Continued;
    var q := RunsArePaths(visible, cfg, lo, s.body, t[1..i], how, to, e, next, e);
    var r := RunsArePaths(visible, cfg, lo, s, t[i..], o, e, next, brk, cont);
    p := Join(cfg, h, q);
    p := Join(cfg, p, r);
    assert t == [s.id] + t[1..i] + t[i..];
  }

  lemma {:induction false} LoopRunsArePaths(visible: set<NodeId>, cfg: seq<Node>, lo: nat, s: Stmt, t: seq<NodeId>,
                                            o: Outcome, e: nat, next: nat, brk: nat, cont: nat)
    returns (p: seq<nat>)
    requires WellLinked(cfg) && next < |cfg| && brk < |cfg| && cont < |cfg| && e < |cfg|
    requires s.Loop? && t != []
    requires Fragment(visible, cfg, lo, s, e, next, brk, cont) && Exec(visible, s, t, o)
    ensures IsPath(cfg, p) && p[0] == e && Trace(cfg, p) == t
    ensures o != Cut ==> p[|p| - 1] == Target(o, next, brk, cont)
    decreases |t|, s, 1
  {
    var body := s.body;
    var to := cfg[e].successors[0];
    var h := Hop(cfg, e, to);
    if |t| == 1 && o == Normal {
      p := Hop(cfg, e, next);
    } else if o == Normal && Exec(visible, body, t[1..], Broke) {
      var q := RunsArePaths(visible, cfg, lo, body, t[1..], Broke, to, e, next, e);
      p := Join(cfg, h, q);
    } else if (o == Cut || o == Returned) && Exec(visible, body, t[1..], o) {
      var q := RunsArePaths(visible, cfg, lo, body, t[1..], o, to, e, next, e);
      p := Join(cfg, h, q);
    } else {
      var i: nat :| Iterates(visible, s, t, o, i);
      p := IterationIsPath(visible, cfg, lo, s, t, o, i, e, next, brk, cont);
    }
  }

  lemma {:induction false} SeqRunsArePaths(visible: set<NodeId>, cfg: seq<Node>, lo: nat, stmts: seq<Stmt>,
                                           t: seq<NodeId>, o: Outcome, e: nat, next: nat, brk: nat, cont: nat)
    returns (p: seq<nat>)
    requires WellLinked(cfg) && next < |cfg| && brk < |cfg| && cont < |cfg| && e < |cfg|
    requires FragmentSeq(visible, cfg, lo, stmts, e, next, brk, cont) && ExecSeq(visible, stmts, t, o)
    ensures IsPath(cfg, p) && p[0] == e && Trace(cfg, p) == t
    ensures o != Cut ==> p[|p| - 1] == Target(o, next, brk, cont)
    decreases |t|, stmts, 0
  {
    if stmts == [] {
      p := [e];
    } else {
      var mid: nat :| && FragmentSeq(visible, cfg, lo, stmts[1..], mid, next, brk, cont)
                      && Fragment(visible, cfg, lo, stmts[0], e, mid, brk, cont);
      SeqEntryInRange(visible, cfg, lo, stmts[1..], mid, next, brk, cont);
      if o != Normal && Exec(visible, stmts[0], t, o) {
        p := RunsArePaths(visible, cfg, lo, stmts[0], t, o, e, mid, brk, cont);
      } else {
        var i :| 0 <= i <= |t| && Exec(visible, stmts[0], t[..i], Normal) && ExecSeq(visible, stmts[1..], t[i..], o);
        var q := RunsArePaths(visible, cfg, lo, stmts[0], t[..i], Normal, e, mid, brk, cont);
        var r := SeqRunsArePaths(visible, cfg, lo, stmts[1..], t[i..], o, mid, next, brk, cont);
        p := Join(cfg, q, r);
        assert t == t[..i] + t[i..];
      }
    }
  }

  lemma EntryInRange(visible: set<NodeId>, cfg: seq<Node>, lo: nat, s: Stmt, e: nat,
                     next: nat, brk: nat, cont: nat)
    requires next < |cfg| && Fragment(visible, cfg, lo, s, e, next, brk, cont)
    ensures e < |cfg|
    decreases s, 1
  {
    match s
    case Seq(stmts) => SeqEntryInRange(visible, cfg, lo, stmts, e, next, brk, cont);
    case Block(body) => EntryInRange(visible, cfg, lo, body, e, next, brk, cont);
    case _ =>
  }

  lemma SeqEntryInRange(visible: set<NodeId>, cfg: seq<Node>, lo: nat, stmts: seq<Stmt>, e: nat,
                        next: nat, brk: nat, cont: nat)
    requires next < |cfg| && FragmentSeq(visible, cfg, lo, stmts, e, next, brk, cont)
    ensures e < |cfg|
    decreases stmts, 0
  {
    if stmts != [] {
      var mid: nat :| && FragmentSeq(visible, cfg, lo, stmts[1..], mid, next, brk, cont)
                      && Fragment(visible, cfg, lo, stmts[0], e, mid, brk, cont);
      SeqEntryInRange(visible, cfg, lo, stmts[1..], mid, next, brk, cont);
      EntryInRange(visible, cfg, lo, stmts[0], e, mid, brk, cont);
    }
  }

  /** A path is a path from any of its nodes, with the rest of its trace. */
  lemma Suffix(cfg: seq<Node>, p: seq<nat>, i: nat)
    requires IsPath(cfg, p) && i < |p|
    ensures IsPath(cfg, p[i..]) && Trace(cfg, p[i..]) == Trace(cfg, p)[i..]
  {
  }

  /** Whether the first `i` steps of `p` are a run of a statement with outcome `o`. */
  ghost predicate Leaves(cfg: seq<Node>, lo: nat, p: seq<nat>, o: Outcome, i: nat, next: nat, brk: nat, cont: nat)
  {
    i < |p| && if o == Cut then i == |p| - 1 && lo <= p[i] else p[i] == Target(o, next, brk, cont)
  }

  /** Every path entering a fragment is a run of its statement, up to the point where it leaves. */
  lemma {:induction false} PathsAreRuns(visible: set<NodeId>, cfg: seq<Node>, lo: nat, s: Stmt, p: seq<nat>,
                                        e: nat, next: nat, brk: nat, cont: nat)
    returns (o: Outcome, i: nat)
    requires IsPath(cfg, p) && p[0] == e
    requires Fragment(visible, cfg, lo, s, e, next, brk, cont)
    ensures Leaves(cfg, lo, p, o, i, next, brk, cont)
    ensures Exec(visible, s, Trace(cfg, p)[..i], o)
    decreases |p|, s, 1
  {
    var t := Trace(cfg, p);
    if |p| == 1 && s != Absent && !s.Seq? && !s.Block? && !(s.Leaf? && s.id !in visible) {
      return Cut, 0;
    }
    match s
    case Absent => o, i := Normal, 0;
    case Seq(stmts) => o, i := SeqPathsAreRuns(visible, cfg, lo, stmts, p, e, next, brk, cont);
    case Return(id) => o, i := Returned, 1;
    case Break(id) => o, i := Broke, 1;
    case Continue(id) => o, i := Continued, 1;
    case If(_, _, _) => o, i := BranchPathsAreRuns(visible, cfg, lo, s, p, e, next, brk, cont);
    case Loop(id, body) => o, i := LoopPathsAreRuns(visible, cfg, lo, s, p, e, next, brk, cont);
    case InThreads(_, _) => o, i := BranchPathsAreRuns(visible, cfg, lo, s, p, e, next, brk, cont);
    case Block(body) => o, i := PathsAreRuns(visible, cfg, lo, body, p, e, next, brk, cont);
    case Leaf(id) =>
      if id in visible {
        o, i := Normal, 1;
      } else {
        o, i := Normal, 0;
      }
  }

  lemma {:induction false} BranchPathsAreRuns(visible: set<NodeId>, cfg: seq<Node>, lo: nat, s: Stmt, p: seq<nat>,
                                              e: nat, next: nat, brk: nat, cont: nat)
    returns (o: Outcome, i: nat)
    requires IsPath(cfg, p) && p[0] == e && |p| > 1 && (s.If? || s.InThreads?)
    requires Fragment(visible, cfg, lo, s, e, next, brk, cont)
    ensures Leaves(cfg, lo, p, o, i, next, brk, cont)
    ensures Exec(visible, s, Trace(cfg, p)[..i], o)
    decreases |p|, s, 0
  {
    var t := Trace(cfg, p);
    if s.InThreads? && p[1] == next {
      return Normal, 1;
    }
    Suffix(cfg, p, 1);
    var branch := if s.InThreads? then s.body else if p[1] == cfg[e].successors[0] then s.thn else s.els;
    o, i := PathsAreRuns(visible, cfg, lo, branch, p[1..], p[1], next, brk, cont);
    assert t[..i + 1][1..] == t[1..][..i];
    i := i + 1;
  }

  lemma LoopAgain(visible: set<NodeId>, s: Stmt, t: seq<NodeId>, o: Outcome, j: nat, i: nat)
    requires s.Loop? && 1 <= j && j + i <= |t| && t[0] == s.id
    requires Exec(visible, s.body, t[1..][..j - 1], Normal) || Exec(visible, s.body, t[1..][..j - 1], Continued)
    requires Exec(visible, s, t[j..][..i], o)
    ensures Exec(visible, s, t[..j + i], o)
  {
    var u := t[..j + i];
    assert u[1..j] == t[1..][..j - 1] && u[j..] == t[j..][..i];
    assert Iterates(visible, s, u, o, j);
  }

  lemma {:induction false} LoopPathsAreRuns(visible: set<NodeId>, cfg: seq<Node>, lo: nat, s: Stmt, p: seq<nat>,
                                            e: nat, next: nat, brk: nat, cont: nat)
    returns (o: Outcome, i: nat)
    requires IsPath(cfg, p) && p[0] == e && |p| > 1 && s.Loop?
    requires Fragment(visible, cfg, lo, s, e, next, brk, cont)
    ensures Leaves(cfg, lo, p, o, i, next, brk, cont)
    ensures Exec(visible, s, Trace(cfg, p)[..i], o)
    decreases |p|, s, 0
  {
    var t, body := Trace(cfg, p), s.body;
    if p[1] == next {
      return Normal, 1;
    }
    Suffix(cfg, p, 1);
    o, i := PathsAreRuns(visible, cfg, lo, body, p[1..], p[1], e, next, e);
    var j := i + 1;
    if o == Normal || o == Continued {
      Suffix(cfg, p, j);
      o, i := PathsAreRuns(visible, cfg, lo, s, p[j..], e, next, brk, cont);
      LoopAgain(visible, s, t, o, j, i);
      i := j + i;
    } else {
      LoopLeft(visible, s, t, o, j);
      o, i := if o == Broke then Normal else o, j;
    }
  }

  lemma LoopLeft(visible: set<NodeId>, s: Stmt, t: seq<NodeId>, o: Outcome, j: nat)
    requires s.Loop? && 1 <= j <= |t| && t[0] == s.id && (o == Broke || o == Returned || o == Cut)
    requires Exec(visible, s.body, t[1..][..j - 1], o)
    ensures Exec(visible, s, t[..j], if o == Broke then Normal else o)
  {
    assert t[..j][1..] == t[1..][..j - 1];
  }

  lemma {:induction false} SeqPathsAreRuns(visible: set<NodeId>, cfg: seq<Node>, lo: nat, stmts: seq<Stmt>,
                                           p: seq<nat>, e: nat, next: nat, brk: nat, cont: nat)
    returns (o: Outcome, i: nat)
    requires IsPath(cfg, p) && p[0] == e
    requires FragmentSeq(visible, cfg, lo, stmts, e, next, brk, cont)
    ensures Leaves(cfg, lo, p, o, i, next, brk, cont)
    ensures ExecSeq(visible, stmts, Trace(cfg, p)[..i], o)
    decreases |p|, stmts, 0
  {
    var t := Trace(cfg, p);
    if stmts == [] {
      o, i := Normal, 0;
    } else {
      var mid: nat :| && FragmentSeq(visible, cfg, lo, stmts[1..], mid, next, brk, cont)
                      && Fragment(visible, cfg, lo, stmts[0], e, mid, brk, cont);
      o, i := PathsAreRuns(visible, cfg, lo, stmts[0], p, e, mid, brk, cont);
      if o == Normal {
        var j := i;
        Suffix(cfg, p, j);
        o, i := SeqPathsAreRuns(visible, cfg, lo, stmts[1..], p[j..], mid, next, brk, cont);
        var u := t[..j + i];
        assert u[..j] == t[..j] && u[j..] == t[j..][..i];
        i := j + i;
      }
    }
  }

  /** The traces of paths from the entry are exactly the traces of runs, and the traces of
    paths that reach the device exit are exactly the traces of finished runs. */
  lemma GraphIsExact(visible: set<NodeId>, cfg: seq<Node>, root: Stmt, entry: nat, t: seq<NodeId>)
    requires IsGraphOf(visible, cfg, root, entry)
    ensures IsRun(visible, root, t) <==>
            exists p :: IsPath(cfg, p) && p[0] == entry && Trace(cfg, p) == t
    ensures IsFinishedRun(visible, root, t) <==>
            exists p :: IsPath(cfg, p) && p[0] == entry && Trace(cfg, p) == t && p[|p| - 1] == 0
  {
    if IsRun(visible, root, t) {
      var o :| Exec(visible, root, t, o);
      var p := RunsArePaths(visible, cfg, 1, root, t, o, entry, 0, 0, 0);
    }
    if IsFinishedRun(visible, root, t) {
      var o :| o != Cut && Exec(visible, root, t, o);
      var p := RunsArePaths(visible, cfg, 1, root, t, o, entry, 0, 0, 0);
    }
    forall p | IsPath(cfg, p) && p[0] == entry && Trace(cfg, p) == t
      ensures IsRun(visible, root, t) && (p[|p| - 1] == 0 ==> IsFinishedRun(visible, root, t))
    {
      PathIsRun(visible, cfg, root, entry, p);
    }
  }

  lemma PathIsRun(visible: set<NodeId>, cfg: seq<Node>, root: Stmt, entry: nat, p: seq<nat>)
    requires IsGraphOf(visible, cfg, root, entry)
    requires IsPath(cfg, p) && p[0] == entry
    ensures IsRun(visible, root, Trace(cfg, p))
    ensures p[|p| - 1] == 0 ==> IsFinishedRun(visible, root, Trace(cfg, p))
  {
    var o, i := PathsAreRuns(visible, cfg, 1, root, p, entry, 0, 0, 0);
    assert i == |p| - 1;
    assert Trace(cfg, p)[..i] == Trace(cfg, p);
  }
}
