/** Union-find with path compression over the numbers below a fixed count. */
module UnionFind {
  /** `rep` names the root of every element and `level` grows strictly towards it. */
  ghost predicate NodeOk(parent: seq<nat>, rep: seq<nat>, level: seq<nat>, top: nat, x: nat)
    requires |parent| == |rep| == |level| && x < |parent|
  {
    && parent[x] < |parent| && rep[x] < |parent|
    && rep[parent[x]] == rep[x] && rep[rep[x]] == rep[x] && parent[rep[x]] == rep[x]
    && level[x] <= top
    && (parent[x] == x ==> rep[x] == x)
    && (parent[x] != x ==> level[x] < level[parent[x]])
    && (rep[x] != x ==> level[x] < level[rep[x]])
  }

  ghost predicate ForestOk(parent: seq<nat>, rep: seq<nat>, level: seq<nat>, top: nat)
  {
    && |parent| == |rep| == |level|
    && (forall x: nat {:trigger NodeOk(parent, rep, level, top, x)} :: x < |parent| ==>
        NodeOk(parent, rep, level, top, x))
  }

  ghost function Relabel(rep: seq<nat>, from: nat, to: nat): (r: seq<nat>)
    ensures |r| == |rep| && forall x :: 0 <= x < |rep| ==> r[x] == if rep[x] == from then to else rep[x]
  {
    seq(|rep|, x requires 0 <= x < |rep| => if rep[x] == from then to else rep[x])
  }

  /** Lifts the whole class of `root` above another tree. */
  ghost function Raise(rep: seq<nat>, level: seq<nat>, root: nat, lift: nat): (r: seq<nat>)
    requires |rep| == |level|
    ensures |r| == |rep| && forall x :: 0 <= x < |rep| ==> r[x] == if rep[x] == root then level[x] + lift else level[x]
  {
    seq(|rep|, x requires 0 <= x < |rep| => if rep[x] == root then level[x] + lift else level[x])
  }

  /** Pointing an element straight at its root changes no class. */
  lemma CompressionKeepsForest(parent: seq<nat>, rep: seq<nat>, level: seq<nat>, top: nat, v: nat)
    requires ForestOk(parent, rep, level, top) && v < |parent| && parent[v] != v
    ensures rep[v] < |parent| && ForestOk(parent[v := rep[v]], rep, level, top)
  {
    assert NodeOk(parent, rep, level, top, v);
    var p := parent[v := rep[v]];
    forall x: nat {:trigger NodeOk(p, rep, level, top, x)} | x < |p| ensures NodeOk(p, rep, level, top, x)
    {
      assert NodeOk(parent, rep, level, top, x);
    }
  }

  /** Hanging one root under another joins their classes. */
  lemma LinkingKeepsForest(parent: seq<nat>, rep: seq<nat>, level: seq<nat>, top: nat, l: nat, r: nat)
    requires ForestOk(parent, rep, level, top) && l < |parent| && r < |parent| && l != r
    requires rep[l] == l && rep[r] == r
    ensures ForestOk(parent[r := l], Relabel(rep, r, l), Raise(rep, level, l, level[r] + 1), top + top + 1)
  {
    assert NodeOk(parent, rep, level, top, l) && NodeOk(parent, rep, level, top, r);
    var p, m, h := parent[r := l], Relabel(rep, r, l), Raise(rep, level, l, level[r] + 1);
    forall x: nat {:trigger NodeOk(p, m, h, top + top + 1, x)} | x < |p| ensures NodeOk(p, m, h, top + top + 1, x)
    {
      assert NodeOk(parent, rep, level, top, x);
    }
  }

  lemma RootsInRange(parent: seq<nat>, rep: seq<nat>, level: seq<nat>, top: nat)
    requires ForestOk(parent, rep, level, top)
    ensures forall x :: 0 <= x < |rep| ==> rep[x] < |rep|
  {
    forall x: nat | x < |rep| ensures rep[x] < |rep|
    {
      assert NodeOk(parent, rep, level, top, x);
    }
  }

  class Forest {
    const parent: array<nat>
    ghost var rep: seq<nat>
    ghost var level: seq<nat>
    ghost var top: nat  // an upper bound on every level

    ghost predicate Valid()
      reads this, parent
    {
      ForestOk(parent[..], rep, level, top)
    }

    constructor (count: nat)
      ensures Valid() && fresh(parent) && parent.Length == count && rep == seq(count, i => i)
    {
      parent := new nat[count](i => i);
      rep := seq(count, i => i);
      level := seq(count, _ => 0);
      top := 0;
    }

    method Find(value: nat) returns (root: nat)
      requires Valid() && value < parent.Length
      modifies parent
      ensures Valid() && root < parent.Length && root == rep[value] && rep[root] == root
    {
      root := value;
      while parent[root] != root
        invariant Valid() && parent[..] == old(parent[..])
        invariant root < parent.Length && rep[root] == rep[value]
        decreases top - level[root]
      {
        assert NodeOk(parent[..], rep, level, top, root);
        root := parent[root];
        assert NodeOk(parent[..], rep, level, top, root);
      }
      assert NodeOk(parent[..], rep, level, top, root);
      var v: nat := value;
      while parent[v] != v
        invariant Valid() && v < parent.Length && rep[v] == root
        decreases top - level[v]
      {
        ghost var before := parent[..];
        assert NodeOk(before, rep, level, top, v);
        CompressionKeepsForest(before, rep, level, top, v);
        var next := parent[v];
        parent[v] := root;
        assert parent[..] == before[v := root];
        assert NodeOk(before, rep, level, top, next);
        v := next;
      }
    }

    /** Joins the classes of two elements; all others keep their class. */
    method Unite(lhs: nat, rhs: nat)
      requires Valid() && lhs < parent.Length && rhs < parent.Length
      modifies this`rep, this`level, this`top, parent
      ensures Valid() && rep == Relabel(old(rep), old(rep[rhs]), old(rep[lhs]))
    {
      var l := Find(lhs);
      var r := Find(rhs);
      if l != r {
        LinkingKeepsForest(parent[..], rep, level, top, l, r);
        ghost var before, was := parent[..], rep;
        parent[r] := l;
        assert parent[..] == before[r := l];
        rep := Relabel(was, r, l);
        level := Raise(was, level, l, level[r] + 1);
        top := top + top + 1;
      } else {
        assert rep == Relabel(rep, r, l);
      }
    }
  }
}
