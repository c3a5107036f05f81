/** Structured device programs and what it means to run them.

  A run is described by its trace: the identities of the statements it has
  executed so far, in order. Control statements always appear in the trace; a
  leaf statement appears only when it is `visible`, that is when it carries a
  completion action or a buffer effect.
 */
module Programs {
  type NodeId = nat

  datatype Stmt =
    | Absent                                        // a null body or a missing else
    | Seq(stmts: seq<Stmt>)                         // MultiNodes
    | Return(id: NodeId)
    | Break(id: NodeId)
    | Continue(id: NodeId)
    | If(id: NodeId, thn: Stmt, els: Stmt)
    | Loop(id: NodeId, body: Stmt)                  // while and foreach
    | InThreads(id: NodeId, body: Stmt)
    | Block(body: Stmt)                             // any other statement with a body
    | Leaf(id: NodeId)

  /** How far a run of a statement got. `Cut` is a run still inside the statement. */
  datatype Outcome = Normal | Broke | Continued | Returned | Cut

  /** `Exec(v, s, t, o)`: some run of `s` has produced trace `t` and stands at `o`. */
  ghost predicate Exec(visible: set<NodeId>, s: Stmt, t: seq<NodeId>, o: Outcome)
    decreases |t|, s, 1
  {
    match s
    case Absent => t == [] && (o == Normal || o == Cut)
    case Seq(stmts) => ExecSeq(visible, stmts, t, o)
    case Return(id) => (t == [] && o == Cut) || (t == [id] && o == Returned)
    case Break(id) => (t == [] && o == Cut) || (t == [id] && o == Broke)
    case Continue(id) => (t == [] && o == Cut) || (t == [id] && o == Continued)
    case If(id, thn, els) =>
      if t == [] then o == Cut else
      t[0] == id && (Exec(visible, thn, t[1..], o) || Exec(visible, els, t[1..], o))
    case Loop(id, body) =>
      if t == [] then o == Cut else
      && t[0] == id
      && (|| (|t| == 1 && o == Normal)
          || (o == Normal && Exec(visible, body, t[1..], Broke))
          || ((o == Cut || o == Returned) && Exec(visible, body, t[1..], o))
          || (exists i: nat :: Iterates(visible, s, t, o, i)))
    case InThreads(id, body) =>
      if t == [] then o == Cut else
      t[0] == id && ((|t| == 1 && o == Normal) || Exec(visible, body, t[1..], o))
    case Block(body) => Exec(visible, body, t, o)
    case Leaf(id) =>
      if id in visible then (t == [] && o == Cut) || (t == [id] && o == Normal)
      else t == [] && (o == Normal || o == Cut)
  }

  /** The first iteration of loop `s` completes at `i` and the loop test is evaluated again. */
  ghost predicate Iterates(visible: set<NodeId>, s: Stmt, t: seq<NodeId>, o: Outcome, i: nat)
    requires s.Loop? && t != []
    decreases |t|, s, 0
  {
    && 1 <= i <= |t|
    && (Exec(visible, s.body, t[1..i], Normal) || Exec(visible, s.body, t[1..i], Continued))
    && Exec(visible, s, t[i..], o)
  }

  ghost predicate ExecSeq(visible: set<NodeId>, stmts: seq<Stmt>, t: seq<NodeId>, o: Outcome)
    decreases |t|, stmts, 0
  {
    if stmts == [] then t == [] && (o == Normal || o == Cut)
    else
      || (o != Normal && Exec(visible, stmts[0], t, o))
      || (exists i :: 0 <= i <= |t| && Exec(visible, stmts[0], t[..i], Normal)
                      && ExecSeq(visible, stmts[1..], t[i..], o))
  }

  /** Every moment of every run, finished or not. */
  ghost predicate IsRun(visible: set<NodeId>, s: Stmt, t: seq<NodeId>)
  {
    exists o :: Exec(visible, s, t, o)
  }

  /** The runs that have left the program, normally or by return, break or continue. */
  ghost predicate IsFinishedRun(visible: set<NodeId>, s: Stmt, t: seq<NodeId>)
  {
    exists o :: o != Cut && Exec(visible, s, t, o)
  }
}
