/** Splitting an allocation into independent roots. */
module HeapRoots {
  import opened Basics
  import opened HeapSimulator
  import opened Sorting
  import opened UnionFind

  datatype RootResult = RootResult(roots: map<string, nat>, offsets: map<string, nat>, rootSizes: seq<nat>,
                                   heapSize: nat)

  datatype Component = Component(parent: nat, begin: nat, end: nat)

  // ----- connected chunks -----

  /** The bytes of each chunk, in the order the chunks are given. */
  ghost predicate Spans(chunks: seq<Buffer>, offsets: map<string, nat>, spans: seq<Span>)
  {
    && |spans| == |chunks|
    && (forall i :: 0 <= i < |chunks| ==>
          && chunks[i].id in offsets && spans[i].0 == offsets[chunks[i].id]
          && spans[i].1 == offsets[chunks[i].id] + chunks[i].size)
  }

  predicate Touch(a: Span, b: Span) {
    a.0 < b.1 && b.0 < a.1
  }

  predicate HasByte(a: Span, x: nat) {
    a.0 <= x < a.1
  }

  ghost predicate SharesByte(a: Span, b: Span) {
    exists x: nat :: HasByte(a, x) && HasByte(b, x)
  }

  /** Chunks of positive size overlap exactly if they have a byte in common; adjacent ones do not. A chunk of size 0
    overlaps what lies around it on both sides. */
  lemma TouchIffSharesByte(a: Span, b: Span)
    ensures a.0 < a.1 && b.0 < b.1 ==> (Touch(a, b) <==> SharesByte(a, b))
    ensures a.0 == a.1 ==> (Touch(a, b) <==> b.0 < a.0 < b.1)
    ensures Touch(a, b) == Touch(b, a)
  {
    if a.0 < a.1 && b.0 < b.1 && Touch(a, b) {
      var x := Max(a.0, b.0);
      assert HasByte(a, x) && HasByte(b, x);
    }
  }

  /** A chain of chunks, each overlapping the next. */
  ghost predicate Chain(spans: seq<Span>, path: seq<nat>)
  {
    && |path| > 0
    && (forall k :: 0 <= k < |path| ==> path[k] < |spans|)
    && (forall k :: 0 <= k < |path| - 1 ==> Touch(spans[path[k]], spans[path[k + 1]]))
  }

  ghost predicate Connects(spans: seq<Span>, path: seq<nat>, i: nat, j: nat)
  {
    Chain(spans, path) && path[0] == i && path[|path| - 1] == j
  }

  ghost predicate Connected(spans: seq<Span>, i: nat, j: nat)
  {
    exists path :: Connects(spans, path, i, j)
  }

  lemma {:induction false} ConnectedBack(spans: seq<Span>, path: seq<nat>, i: nat, j: nat)
    requires Connects(spans, path, i, j)
    ensures Connected(spans, j, i)
    decreases |path|
  {
    if |path| == 1 {
      assert Connects(spans, path, j, i);
    } else {
      ConnectedBack(spans, path[1..], path[1], j);
      var back :| Connects(spans, back, j, path[1]);
      assert Connects(spans, back + [i], j, i);
    }
  }

  lemma ConnectedThrough(spans: seq<Span>, i: nat, j: nat, k: nat)
    requires Connected(spans, i, j) && Connected(spans, j, k)
    ensures Connected(spans, i, k)
  {
    var p :| Connects(spans, p, i, j);
    var q :| Connects(spans, q, j, k);
    var r := p + q[1..];
    forall n | 0 <= n < |r| - 1 ensures Touch(spans[r[n]], spans[r[n + 1]])
    {
      if n >= |p| - 1 {
        assert r[n] == q[n - (|p| - 1)] && r[n + 1] == q[n - (|p| - 1) + 1];
      }
    }
    assert Connects(spans, r, i, k);
  }

  lemma ConnectedSelf(spans: seq<Span>, i: nat)
    requires i < |spans|
    ensures Connected(spans, i, i)
  {
    assert Connects(spans, [i], i, i);
  }

  lemma TouchConnects(spans: seq<Span>, i: nat, j: nat)
    requires i < |spans| && j < |spans| && Touch(spans[i], spans[j])
    ensures Connected(spans, i, j) && Connected(spans, j, i)
  {
    assert Connects(spans, [i, j], i, j);
    assert Connects(spans, [j, i], j, i);
  }

  /** The classes found so far: pairs before `(i, j)` that touch are together, and everything
    together is connected. */
  ghost predicate Classes(spans: seq<Span>, rep: seq<nat>, i: nat, j: nat)
    requires |rep| == |spans|
  {
    && (forall x, y :: 0 <= x < |spans| && 0 <= y < |spans| && rep[x] == rep[y] ==> Connected(spans, x, y))
    && (forall x, y :: 0 <= x < y < |spans| && (x < i || (x == i && y < j)) && Touch(spans[x], spans[y]) ==>
        rep[x] == rep[y])
  }

  lemma UniteClasses(spans: seq<Span>, rep: seq<nat>, i: nat, j: nat)
    requires |rep| == |spans| && i < j < |spans| && Classes(spans, rep, i, j) && Touch(spans[i], spans[j])
    ensures Classes(spans, Relabel(rep, rep[j], rep[i]), i, j + 1)
  {
    var rep' := Relabel(rep, rep[j], rep[i]);
    TouchConnects(spans, i, j);
    forall x: nat, y: nat | x < |spans| && y < |spans| && rep'[x] == rep'[y] ensures Connected(spans, x, y)
    {
      var x', y' := if rep[x] == rep[j] then j else i, if rep[y] == rep[j] then j else i;
      if rep[x] != rep[y] {
        assert Connected(spans, x, x') && Connected(spans, y', y);
        ConnectedThrough(spans, x, x', y');
        ConnectedThrough(spans, x, y', y);
      }
    }
  }

  method FindClasses(chunks: seq<Buffer>, offsets: map<string, nat>, ghost spans: seq<Span>) returns (forest: Forest)
    requires Spans(chunks, offsets, spans)
    ensures fresh(forest) && fresh(forest.parent) && forest.Valid() && forest.parent.Length == |chunks|
    ensures |forest.rep| == |spans| && Classes(spans, forest.rep, |spans|, 0)
  {
    var count := |chunks|;
    forest := new Forest(count);
    forall x: nat | x < count ensures Connected(spans, x, x) { ConnectedSelf(spans, x); }
    for i := 0 to count
      invariant forest.Valid() && forest.parent.Length == count == |forest.rep|
      invariant Classes(spans, forest.rep, i, 0)
    {
      var iBegin := offsets[chunks[i].id];
      var iEnd := iBegin + chunks[i].size;
      for j := i + 1 to count
        invariant forest.Valid() && forest.parent.Length == count == |forest.rep|
        invariant Classes(spans, forest.rep, i, j)
      {
        var jBegin := offsets[chunks[j].id];
        var jEnd := jBegin + chunks[j].size;
        if iBegin < jEnd && jBegin < iEnd {
          UniteClasses(spans, forest.rep, i, j);
          forest.Unite(i, j);
        }
      }
    }
  }

  // ----- the bytes of a class are contiguous -----

  /** A chain starting at or before byte `p` and ending after it passes over it. */
  lemma {:induction false} ChainCovers(spans: seq<Span>, path: seq<nat>, p: nat) returns (k: nat)
    requires Chain(spans, path) && Proper(spans)
    requires spans[path[0]].0 <= p < spans[path[|path| - 1]].1
    ensures k < |path| && spans[path[k]].0 <= p < spans[path[k]].1
    ensures spans[path[0]].0 < p ==> spans[path[k]].0 < p
    decreases |path|
  {
    if p < spans[path[0]].1 {
      k := 0;
    } else {
      assert Touch(spans[path[0]], spans[path[1]]);
      k := ChainCovers(spans, path[1..], p);
      k := k + 1;
    }
  }

  lemma {:induction false} ChainIsConnected(spans: seq<Span>, path: seq<nat>, k: nat)
    requires Chain(spans, path) && k < |path|
    ensures Connected(spans, path[0], path[k])
  {
    assert Connects(spans, path[..k + 1], path[0], path[k]);
  }

  /** `c` is the least interval holding every span of class `c.parent`. */
  ghost predicate Hull(spans: seq<Span>, rep: seq<nat>, c: Component)
    requires |rep| == |spans|
  {
    && (forall x :: 0 <= x < |spans| && rep[x] == c.parent ==> c.begin <= spans[x].0 && spans[x].1 <= c.end)
    && (exists x :: 0 <= x < |spans| && rep[x] == c.parent && spans[x].0 == c.begin)
    && (exists x :: 0 <= x < |spans| && rep[x] == c.parent && spans[x].1 == c.end)
  }

  /** Some chunk of the class lies over byte `p`, if the hull does. */
  lemma HullCovers(spans: seq<Span>, rep: seq<nat>, c: Component, p: nat) returns (x: nat)
    requires |rep| == |spans| && Proper(spans) && Classes(spans, rep, |spans|, 0)
    requires Hull(spans, rep, c) && c.begin <= p < c.end
    ensures x < |spans| && rep[x] == c.parent && spans[x].0 <= p < spans[x].1
    ensures c.begin < p ==> spans[x].0 < p
  {
    var a: nat :| a < |spans| && rep[a] == c.parent && spans[a].0 == c.begin;
    var b: nat :| b < |spans| && rep[b] == c.parent && spans[b].1 == c.end;
    assert Connected(spans, a, b);
    var path :| Connects(spans, path, a, b);
    var k := ChainCovers(spans, path, p);
    x := path[k];
    ChainIsConnected(spans, path, k);
    ConnectedIsTogether(spans, rep, path[..k + 1]);
  }

  lemma {:induction false} ConnectedIsTogether(spans: seq<Span>, rep: seq<nat>, path: seq<nat>)
    requires |rep| == |spans| && Classes(spans, rep, |spans|, 0) && Chain(spans, path)
    ensures rep[path[0]] == rep[path[|path| - 1]]
    decreases |path|
  {
    if |path| > 1 {
      assert Touch(spans[path[0]], spans[path[1]]);
      TouchIsTogether(spans, rep, path[0], path[1]);
      ConnectedIsTogether(spans, rep, path[1..]);
    }
  }

  lemma TouchIsTogether(spans: seq<Span>, rep: seq<nat>, x: nat, y: nat)
    requires |rep| == |spans| && Classes(spans, rep, |spans|, 0) && x < |spans| && y < |spans|
    requires Touch(spans[x], spans[y])
    ensures rep[x] == rep[y]
  {
    if y < x {
      assert Touch(spans[y], spans[x]);
    }
  }

  /** The hulls of two classes do not overlap. */
  lemma HullsAreApart(spans: seq<Span>, rep: seq<nat>, c: Component, d: Component)
    requires |rep| == |spans| && Proper(spans) && Classes(spans, rep, |spans|, 0)
    requires Hull(spans, rep, c) && Hull(spans, rep, d) && c.parent != d.parent
    ensures c.end <= d.begin || d.end <= c.begin
  {
    if c.begin <= d.begin < c.end && c.begin < d.end {
      HullMeets(spans, rep, c, d);
    } else if d.begin <= c.begin < d.end && d.begin < c.end {
      HullMeets(spans, rep, d, c);
    }
  }

  lemma HullMeets(spans: seq<Span>, rep: seq<nat>, c: Component, d: Component)
    requires |rep| == |spans| && Proper(spans) && Classes(spans, rep, |spans|, 0)
    requires Hull(spans, rep, c) && Hull(spans, rep, d)
    requires c.begin <= d.begin < c.end && c.begin < d.end
    ensures c.parent == d.parent
  {
    var x := HullCovers(spans, rep, c, d.begin);
    var y: nat;
    if c.begin < d.begin {
      y :| y < |spans| && rep[y] == d.parent && spans[y].0 == d.begin;
    } else {
      y := HullCovers(spans, rep, d, d.begin);
    }
    TouchIsTogether(spans, rep, x, y);
  }

  // ----- components -----

  ghost predicate HullUpTo(spans: seq<Span>, rep: seq<nat>, c: Component, n: nat)
    requires |rep| == |spans| && n <= |spans|
  {
    && (forall x :: 0 <= x < n && rep[x] == c.parent ==> c.begin <= spans[x].0 && spans[x].1 <= c.end)
    && (exists x :: 0 <= x < n && rep[x] == c.parent && spans[x].0 == c.begin)
    && (exists x :: 0 <= x < n && rep[x] == c.parent && spans[x].1 == c.end)
  }

  ghost predicate Components(spans: seq<Span>, rep: seq<nat>, components: map<nat, Component>, n: nat)
    requires |rep| == |spans| && n <= |spans|
  {
    && (forall x :: 0 <= x < n ==> rep[x] in components)
    && (forall p :: p in components ==> components[p].parent == p && HullUpTo(spans, rep, components[p], n))
  }

  function Widen(c: Component, begin: nat, end: nat): Component {
    Component(c.parent, if begin < c.begin then begin else c.begin, Max(c.end, end))
  }

  lemma ComponentGrows(spans: seq<Span>, rep: seq<nat>, components: map<nat, Component>, n: nat)
    requires |rep| == |spans| && n < |spans| && Components(spans, rep, components, n)
    ensures var c := if rep[n] in components then Widen(components[rep[n]], spans[n].0, spans[n].1)
                     else Component(rep[n], spans[n].0, spans[n].1);
            Components(spans, rep, components[rep[n] := c], n + 1)
  {
    var c := if rep[n] in components then Widen(components[rep[n]], spans[n].0, spans[n].1)
             else Component(rep[n], spans[n].0, spans[n].1);
    var components' := components[rep[n] := c];
    forall p | p in components' ensures HullUpTo(spans, rep, components'[p], n + 1)
    {
      if p in components {
        WidenHull(spans, rep, components[p], n);
      } else {
        assert forall x :: 0 <= x < n ==> rep[x] != p;
        assert rep[n] == p && spans[n].0 == c.begin && spans[n].1 == c.end;
      }
    }
  }

  lemma WidenHull(spans: seq<Span>, rep: seq<nat>, c: Component, n: nat)
    requires |rep| == |spans| && n < |spans| && HullUpTo(spans, rep, c, n)
    ensures HullUpTo(spans, rep, if rep[n] == c.parent then Widen(c, spans[n].0, spans[n].1) else c, n + 1)
  {
    var a: nat :| a < n && rep[a] == c.parent && spans[a].0 == c.begin;
    var b: nat :| b < n && rep[b] == c.parent && spans[b].1 == c.end;
    if rep[n] == c.parent {
      var w := Widen(c, spans[n].0, spans[n].1);
      var a', b' := if spans[n].0 < c.begin then n else a, if c.end < spans[n].1 then n else b;
      assert rep[a'] == w.parent && spans[a'].0 == w.begin;
      assert rep[b'] == w.parent && spans[b'].1 == w.end;
    }
  }

  lemma NoComponents(spans: seq<Span>, rep: seq<nat>)
    requires |rep| == |spans|
    ensures Components(spans, rep, map[], 0)
  {
  }

  method CollectComponents(forest: Forest, chunks: seq<Buffer>, offsets: map<string, nat>, ghost spans: seq<Span>)
    returns (components: map<nat, Component>)
    requires forest.Valid() && forest.parent.Length == |chunks| == |forest.rep| && Spans(chunks, offsets, spans)
    modifies forest.parent
    ensures forest.Valid() && Components(spans, forest.rep, components, |spans|)
  {
    hide HullUpTo, Components;
    components := map[];
    NoComponents(spans, forest.rep);
    for i := 0 to |chunks|
      invariant forest.Valid()
      invariant Components(spans, forest.rep, components, i)
    {
      var root := forest.Find(i);
      var begin := offsets[chunks[i].id];
      var end := begin + chunks[i].size;
      ComponentGrows(spans, forest.rep, components, i);
      if root !in components {
        components := components[root := Component(root, begin, end)];
      } else {
        components := components[root := Widen(components[root], begin, end)];
      }
    }
  }

  predicate BeginsBefore(a: Component, b: Component) {
    a.begin < b.begin
  }

  /** The hulls of all classes, one for each, by where they begin. */
  ghost predicate Ordered(spans: seq<Span>, rep: seq<nat>, ordered: seq<Component>)
    requires |rep| == |spans|
  {
    && (forall k :: 0 <= k < |ordered| ==> Hull(spans, rep, ordered[k]))
    && DistinctParents(ordered)
    && (forall k, l :: 0 <= k < l < |ordered| ==> ordered[k].begin <= ordered[l].begin)
    && (forall x :: 0 <= x < |spans| ==> HasComponent(ordered, rep[x]))
  }

  ghost predicate HasComponent(ordered: seq<Component>, p: nat)
  {
    exists k :: 0 <= k < |ordered| && ordered[k].parent == p
  }

  /** The components in the order of their keys. */
  method ListComponents(components: map<nat, Component>, count: nat) returns (list: seq<Component>)
    requires forall p :: p in components ==> components[p].parent == p && p < count
    ensures forall p :: p in components ==> HasComponent(list, p)
    ensures forall c :: c in list ==> c.parent in components && components[c.parent] == c
    ensures forall k, l :: 0 <= k < l < |list| ==> list[k].parent < list[l].parent
  {
    list := [];
    for p: nat := 0 to count
      invariant forall q: nat :: q < p && q in components ==> HasComponent(list, q)
      invariant forall c :: c in list ==> c.parent in components && components[c.parent] == c && c.parent < p
      invariant forall k, l :: 0 <= k < l < |list| ==> list[k].parent < list[l].parent
    {
      if p in components {
        ghost var before := list;
        list := list + [components[p]];
        forall q: nat | q < p + 1 && q in components ensures HasComponent(list, q)
        {
          if q < p {
            assert HasComponent(before, q);
            var k :| 0 <= k < |before| && before[k].parent == q;
            assert list[k].parent == q;
          } else {
            assert list[|before|].parent == q;
          }
        }
      }
    }
  }

  ghost predicate DistinctParents(s: seq<Component>)
  {
    forall k, l :: 0 <= k < l < |s| ==> s[k].parent != s[l].parent
  }

  lemma {:induction false} InsertKeepsDistinct(x: Component, s: seq<Component>)
    requires DistinctParents(s) && forall k :: 0 <= k < |s| ==> s[k].parent != x.parent
    ensures DistinctParents(Insert(x, s, BeginsBefore))
  {
    if s != [] && !BeginsBefore(x, s[0]) {
      InsertKeepsDistinct(x, s[1..]);
      var rest := Insert(x, s[1..], BeginsBefore);
      forall k | 0 <= k < |rest| ensures rest[k].parent != s[0].parent
      {
        assert rest[k] in multiset(rest);
        assert rest[k] == x || rest[k] in s[1..];
      }
    }
  }

  lemma {:induction false} SortKeepsDistinct(s: seq<Component>)
    requires DistinctParents(s)
    ensures DistinctParents(Sort(s, BeginsBefore))
  {
    if s != [] {
      var rest := Sort(s[1..], BeginsBefore);
      SortKeepsDistinct(s[1..]);
      SameElements(s[1..], rest);
      forall k | 0 <= k < |rest| ensures rest[k].parent != s[0].parent
      {
        assert rest[k] in s[1..];
      }
      InsertKeepsDistinct(s[0], rest);
    }
  }

  lemma SortedList(list: seq<Component>)
    requires forall k, l :: 0 <= k < l < |list| ==> list[k].parent < list[l].parent
    ensures var ordered := Sort(list, BeginsBefore);
            && DistinctParents(ordered) && (forall c :: c in list <==> c in ordered)
            && (forall k, l :: 0 <= k < l < |ordered| ==> ordered[k].begin <= ordered[l].begin)
  {
    var ordered := Sort(list, BeginsBefore);
    SortKeepsDistinct(list);
    SortSorts(list, BeginsBefore);
    SameElements(list, ordered);
    forall k, l | 0 <= k < l < |ordered| ensures ordered[k].begin <= ordered[l].begin
    {
      assert !BeginsBefore(ordered[l], ordered[k]);
    }
  }

  lemma SortedComponents(spans: seq<Span>, rep: seq<nat>, components: map<nat, Component>, list: seq<Component>)
    requires |rep| == |spans| && Components(spans, rep, components, |spans|)
    requires forall p :: p in components ==> HasComponent(list, p)
    requires forall c :: c in list ==> c.parent in components && components[c.parent] == c
    requires forall k, l :: 0 <= k < l < |list| ==> list[k].parent < list[l].parent
    ensures Ordered(spans, rep, Sort(list, BeginsBefore))
  {
    hide HullUpTo, Hull, Sort;
    var ordered := Sort(list, BeginsBefore);
    SortedList(list);
    forall k | 0 <= k < |ordered| ensures Hull(spans, rep, ordered[k])
    {
      assert ordered[k] in list;
      HullOfAll(spans, rep, components[ordered[k].parent]);
    }
    forall x | 0 <= x < |spans| ensures HasComponent(ordered, rep[x])
    {
      HasSame(list, ordered, rep[x]);
    }
  }

  lemma HasSame(list: seq<Component>, ordered: seq<Component>, p: nat)
    requires HasComponent(list, p) && forall c :: c in list <==> c in ordered
    ensures HasComponent(ordered, p)
  {
    var k :| 0 <= k < |list| && list[k].parent == p;
    assert list[k] in ordered;
  }

  lemma HullOfAll(spans: seq<Span>, rep: seq<nat>, c: Component)
    requires |rep| == |spans| && HullUpTo(spans, rep, c, |spans|)
    ensures Hull(spans, rep, c)
  {
  }

  // ----- the sizes of the roots -----

  /** An allocation made with this alignment: aligned offsets, and a heap that holds every chunk. */
  ghost predicate AllocatedWith(spans: seq<Span>, alignment: nat, heapSize: nat)
  {
    && Aligned(heapSize, alignment)
    && (forall x :: 0 <= x < |spans| ==> Aligned(spans[x].0, alignment) && spans[x].1 <= heapSize)
  }

  ghost predicate EndsBy(ordered: seq<Component>, n: nat, bound: nat)
    requires n <= |ordered|
  {
    forall k :: 0 <= k < n ==> ordered[k].end <= bound
  }

  /** The roots so far take no more room than the bytes up to the last of them. */
  lemma RootFits(spans: seq<Span>, rep: seq<nat>, ordered: seq<Component>, n: nat, alignment: nat, used: nat, last: nat)
    returns (last': nat)
    requires |rep| == |spans| && Proper(spans) && Classes(spans, rep, |spans|, 0) && Ordered(spans, rep, ordered)
    requires n < |ordered| && Aligned(ordered[n].begin, alignment)
    requires EndsBy(ordered, n, last) && (last == 0 || exists k :: 0 <= k < n && ordered[k].end == last)
    requires used <= AlignUp(last, alignment)
    ensures ordered[n].begin <= ordered[n].end
    ensures EndsBy(ordered, n + 1, last') && (last' == 0 || exists k :: 0 <= k < n + 1 && ordered[k].end == last')
    ensures used + AlignUp(ordered[n].end - ordered[n].begin, alignment) <= AlignUp(last', alignment)
  {
    hide AlignUp, Aligned, Classes;
    var c := ordered[n];
    HullIsProper(spans, rep, c);
    last' := Max(last, c.end);
    if c.begin < c.end {
      forall k | 0 <= k < n ensures ordered[k].end <= c.begin
      {
        HullsAreApart(spans, rep, ordered[k], c);
      }
      AlignUpIsLeast(last, alignment);
      AlignUpShifts(c.begin, c.end - c.begin, alignment);
    } else {
      AlignUpZero(alignment);
      AlignUpMonotone(last, last', alignment);
    }
  }

  lemma HullIsProper(spans: seq<Span>, rep: seq<nat>, c: Component)
    requires |rep| == |spans| && Proper(spans) && Hull(spans, rep, c)
    ensures c.begin <= c.end
  {
    var a: nat :| a < |spans| && rep[a] == c.parent && spans[a].0 == c.begin;
    assert spans[a].0 <= spans[a].1 <= c.end;
  }

  lemma ComponentIsProper(spans: seq<Span>, rep: seq<nat>, ordered: seq<Component>, k: nat)
    requires |rep| == |spans| && Proper(spans) && Ordered(spans, rep, ordered) && k < |ordered|
    ensures ordered[k].begin <= ordered[k].end && forall l :: 0 <= l < k ==> ordered[l].parent != ordered[k].parent
  {
    HullIsProper(spans, rep, ordered[k]);
  }

  /** The roots so far fit below `last`, where one of them ends. */
  ghost predicate RootsFit(ordered: seq<Component>, n: nat, alignment: nat, used: nat, last: nat)
    requires n <= |ordered|
  {
    && EndsBy(ordered, n, last) && (last == 0 || exists k :: 0 <= k < n && ordered[k].end == last)
    && used <= AlignUp(last, alignment)
  }

  ghost predicate Numbers(ordered: seq<Component>, n: nat, alignment: nat, roots: map<nat, nat>, begins: map<nat, nat>,
                          sizes: seq<nat>)
    requires n <= |ordered|
  {
    && |sizes| == n
    && (forall k :: 0 <= k < n ==>
          && ordered[k].parent in roots && roots[ordered[k].parent] == k
          && ordered[k].parent in begins && begins[ordered[k].parent] == ordered[k].begin
          && ordered[k].begin <= ordered[k].end
          && sizes[k] == AlignUp(ordered[k].end - ordered[k].begin, alignment))
  }

  /** Numbers the roots and adds up their sizes. */
  method NumberRoots(ordered: seq<Component>, alignment: nat, ghost spans: seq<Span>, ghost rep: seq<nat>)
    returns (roots: map<nat, nat>, begins: map<nat, nat>, sizes: seq<nat>, heapSize: nat, ghost last: nat)
    requires |rep| == |spans| && Proper(spans) && Classes(spans, rep, |spans|, 0) && Ordered(spans, rep, ordered)
    ensures Numbers(ordered, |ordered|, alignment, roots, begins, sizes) && heapSize == Sum(sizes)
    ensures (forall k :: 0 <= k < |ordered| ==> Aligned(ordered[k].begin, alignment)) ==>
              RootsFit(ordered, |ordered|, alignment, heapSize, last)
  {
    hide AlignUp, Aligned, Classes, Ordered;
    roots, begins, sizes, heapSize, last := map[], map[], [], 0, 0;
    AlignUpZero(alignment);
    ghost var aligned := forall k :: 0 <= k < |ordered| ==> Aligned(ordered[k].begin, alignment);
    for root := 0 to |ordered|
      invariant Numbers(ordered, root, alignment, roots, begins, sizes) && heapSize == Sum(sizes)
      invariant aligned ==> RootsFit(ordered, root, alignment, heapSize, last)
    {
      var component := ordered[root];
      ComponentIsProper(spans, rep, ordered, root);
      if aligned {
        last := RootFits(spans, rep, ordered, root, alignment, heapSize, last);
      }
      roots := roots[component.parent := root];
      begins := begins[component.parent := component.begin];
      var size := AlignUp(component.end - component.begin, alignment);
      assert (sizes + [size])[..|sizes|] == sizes;
      sizes := sizes + [size];
      heapSize := heapSize + size;
    }
  }

  // ----- the partition -----

  ghost predicate IsPartition(chunks: seq<Buffer>, spans: seq<Span>, alignment: nat, r: RootResult)
    requires |spans| == |chunks|
  {
    && r.roots.Keys == r.offsets.Keys == Ids(chunks)
    && (forall i :: 0 <= i < |chunks| ==> FitsItsRoot(chunks, r, i))
    && (forall i, j :: 0 <= i < |chunks| && 0 <= j < |chunks| ==> KeepsPlace(chunks, spans, r, i, j))
    && r.heapSize == Sum(r.rootSizes)
  }

  ghost predicate FitsItsRoot(chunks: seq<Buffer>, r: RootResult, i: nat)
    requires i < |chunks|
  {
    var id := chunks[i].id;
    && id in r.roots && id in r.offsets && r.roots[id] < |r.rootSizes|
    && r.offsets[id] + chunks[i].size <= r.rootSizes[r.roots[id]]
  }

  /** Chunks share a root exactly when a chain of overlapping chunks joins them, and then they
    keep their displacement. */
  ghost predicate KeepsPlace(chunks: seq<Buffer>, spans: seq<Span>, r: RootResult, i: nat, j: nat)
    requires i < |chunks| && j < |chunks| && |spans| == |chunks|
  {
    var a, b := chunks[i].id, chunks[j].id;
    && a in r.roots && b in r.roots && a in r.offsets && b in r.offsets
    && (r.roots[a] == r.roots[b] <==> Connected(spans, i, j))
    && (r.roots[a] == r.roots[b] ==> r.offsets[a] as int - r.offsets[b] as int == spans[i].0 as int - spans[j].0 as int)
  }

  /** Every root reaches, aligned up, from the first byte of its chunks to the last, and the roots are numbered by
    where they begin. */
  ghost predicate RootsAreTight(chunks: seq<Buffer>, spans: seq<Span>, alignment: nat, r: RootResult)
    requires |spans| == |chunks|
  {
    && (forall k :: 0 <= k < |r.rootSizes| ==> IsTight(chunks, spans, alignment, r, k))
    && (forall i, j :: 0 <= i < |chunks| && 0 <= j < |chunks| ==> BeginsInOrder(chunks, spans, r, i, j))
  }

  ghost predicate IsTight(chunks: seq<Buffer>, spans: seq<Span>, alignment: nat, r: RootResult, k: nat)
    requires |spans| == |chunks| && k < |r.rootSizes|
  {
    exists a: nat, b: nat :: Reaches(chunks, spans, alignment, r, k, a, b)
  }

  /** Chunk `a` is at the beginning of root `k` and chunk `b` at its end. */
  ghost predicate Reaches(chunks: seq<Buffer>, spans: seq<Span>, alignment: nat, r: RootResult, k: nat, a: nat, b: nat)
    requires |spans| == |chunks| && k < |r.rootSizes|
  {
    && a < |chunks| && b < |chunks| && HasRoot(chunks, r, a, k) && HasRoot(chunks, r, b, k)
    && chunks[a].id in r.offsets && r.offsets[chunks[a].id] == 0
    && (forall i :: 0 <= i < |chunks| && HasRoot(chunks, r, i, k) ==>
          spans[a].0 <= spans[i].0 && spans[i].1 <= spans[b].1)
    && spans[a].0 <= spans[b].1 && r.rootSizes[k] == AlignUp(spans[b].1 - spans[a].0, alignment)
  }

  predicate HasRoot(chunks: seq<Buffer>, r: RootResult, i: nat, k: nat)
    requires i < |chunks|
  {
    chunks[i].id in r.roots && r.roots[chunks[i].id] == k
  }

  ghost predicate BeginsInOrder(chunks: seq<Buffer>, spans: seq<Span>, r: RootResult, i: nat, j: nat)
    requires i < |chunks| == |spans| && j < |chunks|
  {
    var a, b := chunks[i].id, chunks[j].id;
    a in r.roots && b in r.roots && r.roots[a] < r.roots[b] ==>
      a in r.offsets && b in r.offsets && (r.offsets[a] == 0 == r.offsets[b] ==> spans[i].0 <= spans[j].0)
  }

  /** Root and offset of every chunk, from the component it belongs to. */
  method Rebase(forest: Forest, chunks: seq<Buffer>, offsets: map<string, nat>, ghost spans: seq<Span>,
                ghost ordered: seq<Component>, ghost alignment: nat, roots: map<nat, nat>, begins: map<nat, nat>,
                  ghost sizes: seq<nat>)
    returns (chunkRoots: map<string, nat>, chunkOffsets: map<string, nat>)
    requires forest.Valid() && forest.parent.Length == |chunks| == |forest.rep| && Spans(chunks, offsets, spans)
    requires UniqueIds(chunks) && Ordered(spans, forest.rep, ordered)
    requires Numbers(ordered, |ordered|, alignment, roots, begins, sizes)
    modifies forest.parent
    ensures forest.rep == old(forest.rep)
    ensures Rebased(chunks, spans, forest.rep, ordered, |chunks|, chunkRoots, chunkOffsets)
  {
    hide Ordered, Numbers, Rebased;
    chunkRoots, chunkOffsets := map[], map[];
    NothingRebased(chunks, spans, forest.rep, ordered);
    for i := 0 to |chunks|
      invariant forest.Valid()
      invariant Rebased(chunks, spans, forest.rep, ordered, i, chunkRoots, chunkOffsets)
    {
      var component := forest.Find(i);
      var id := chunks[i].id;
      ghost var k := ComponentOf(spans, forest.rep, ordered, i);
      NumberOf(ordered, alignment, roots, begins, sizes, k);
      RebaseNext(chunks, spans, forest.rep, ordered, i, chunkRoots, chunkOffsets, k);
      chunkRoots := chunkRoots[id := roots[component]];
      chunkOffsets := chunkOffsets[id := offsets[id] - begins[component]];
    }
  }

  lemma NothingRebased(chunks: seq<Buffer>, spans: seq<Span>, rep: seq<nat>, ordered: seq<Component>)
    requires |chunks| == |spans| == |rep|
    ensures Rebased(chunks, spans, rep, ordered, 0, map[], map[])
  {
    assert chunks[..0] == [];
  }

  lemma NumberOf(ordered: seq<Component>, alignment: nat, roots: map<nat, nat>, begins: map<nat, nat>, sizes: seq<nat>,
                 k: nat)
    requires Numbers(ordered, |ordered|, alignment, roots, begins, sizes) && k < |ordered|
    ensures ordered[k].parent in roots && roots[ordered[k].parent] == k
    ensures ordered[k].parent in begins && begins[ordered[k].parent] == ordered[k].begin
    ensures k < |sizes| && ordered[k].begin <= ordered[k].end
            && sizes[k] == AlignUp(ordered[k].end - ordered[k].begin, alignment)
  {
  }

  lemma ComponentOf(spans: seq<Span>, rep: seq<nat>, ordered: seq<Component>, i: nat) returns (k: nat)
    requires |rep| == |spans| && i < |spans| && Ordered(spans, rep, ordered)
    ensures k < |ordered| && ordered[k].parent == rep[i]
    ensures ordered[k].begin <= spans[i].0 && spans[i].1 <= ordered[k].end
  {
    assert HasComponent(ordered, rep[i]);
    k :| 0 <= k < |ordered| && ordered[k].parent == rep[i];
    assert Hull(spans, rep, ordered[k]);
  }

  ghost predicate RebasedOne(chunks: seq<Buffer>, spans: seq<Span>, rep: seq<nat>, ordered: seq<Component>, i: nat,
                             chunkRoots: map<string, nat>, chunkOffsets: map<string, nat>)
    requires i < |chunks| == |spans| == |rep|
  {
    var id := chunks[i].id;
    && id in chunkRoots && id in chunkOffsets && chunkRoots[id] < |ordered|
    && ordered[chunkRoots[id]].parent == rep[i]
    && chunkOffsets[id] + ordered[chunkRoots[id]].begin == spans[i].0
  }

  ghost predicate Rebased(chunks: seq<Buffer>, spans: seq<Span>, rep: seq<nat>, ordered: seq<Component>, n: nat,
                          chunkRoots: map<string, nat>, chunkOffsets: map<string, nat>)
    requires n <= |chunks| == |spans| == |rep|
  {
    && chunkRoots.Keys == chunkOffsets.Keys == Ids(chunks[..n])
    && (forall i :: 0 <= i < n ==> RebasedOne(chunks, spans, rep, ordered, i, chunkRoots, chunkOffsets))
  }

  lemma RebaseNext(chunks: seq<Buffer>, spans: seq<Span>, rep: seq<nat>, ordered: seq<Component>, n: nat,
                   chunkRoots: map<string, nat>, chunkOffsets: map<string, nat>, k: nat)
    requires n < |chunks| == |spans| == |rep| && UniqueIds(chunks)
    requires Rebased(chunks, spans, rep, ordered, n, chunkRoots, chunkOffsets)
    requires k < |ordered| && ordered[k].parent == rep[n] && ordered[k].begin <= spans[n].0
    ensures Rebased(chunks, spans, rep, ordered, n + 1, chunkRoots[chunks[n].id := k],
                    chunkOffsets[chunks[n].id := spans[n].0 - ordered[k].begin])
  {
    IdsGrow(chunks, n);
    var roots', offsets' := chunkRoots[chunks[n].id := k], chunkOffsets[chunks[n].id := spans[n].0 - ordered[k].begin];
    forall i | 0 <= i < n + 1 ensures RebasedOne(chunks, spans, rep, ordered, i, roots', offsets')
    {
      if i < n {
        assert RebasedOne(chunks, spans, rep, ordered, i, chunkRoots, chunkOffsets);
      }
    }
  }

  lemma RebasedIsPartition(chunks: seq<Buffer>, spans: seq<Span>, rep: seq<nat>, ordered: seq<Component>,
                           alignment: nat,
                           roots: map<nat, nat>, begins: map<nat, nat>, r: RootResult)
    requires |chunks| == |spans| == |rep| && Classes(spans, rep, |spans|, 0) && Ordered(spans, rep, ordered)
    requires forall i :: 0 <= i < |chunks| ==> spans[i].0 + chunks[i].size == spans[i].1
    requires Numbers(ordered, |ordered|, alignment, roots, begins, r.rootSizes) && r.heapSize == Sum(r.rootSizes)
    requires Rebased(chunks, spans, rep, ordered, |chunks|, r.roots, r.offsets)
    ensures IsPartition(chunks, spans, alignment, r)
  {
    hide AlignUp, Classes, Ordered, Numbers, RebasedOne, FitsItsRoot, KeepsPlace;
    assert chunks[..|chunks|] == chunks;
    forall i: nat | i < |chunks| ensures FitsItsRoot(chunks, r, i)
    {
      RebasedFits(chunks, spans, rep, ordered, alignment, roots, begins, r, i);
    }
    forall i: nat, j: nat | i < |chunks| && j < |chunks| ensures KeepsPlace(chunks, spans, r, i, j)
    {
      RebasedKeeps(chunks, spans, rep, ordered, r, i, j);
    }
  }

  lemma RebasedFits(chunks: seq<Buffer>, spans: seq<Span>, rep: seq<nat>, ordered: seq<Component>, alignment: nat,
                    roots: map<nat, nat>, begins: map<nat, nat>, r: RootResult, i: nat)
    requires i < |chunks| == |spans| == |rep| && Ordered(spans, rep, ordered)
    requires spans[i].0 + chunks[i].size == spans[i].1
    requires Numbers(ordered, |ordered|, alignment, roots, begins, r.rootSizes)
    requires RebasedOne(chunks, spans, rep, ordered, i, r.roots, r.offsets)
    ensures FitsItsRoot(chunks, r, i)
  {
    hide AlignUp, Numbers;
    var k := r.roots[chunks[i].id];
    NumberOf(ordered, alignment, roots, begins, r.rootSizes, k);
    assert Hull(spans, rep, ordered[k]);
    AlignUpIsLeast(ordered[k].end - ordered[k].begin, alignment);
  }

  lemma RebasedKeeps(chunks: seq<Buffer>, spans: seq<Span>, rep: seq<nat>, ordered: seq<Component>, r: RootResult,
                     i: nat, j: nat)
    requires i < |chunks| == |spans| == |rep| && j < |chunks|
    requires Classes(spans, rep, |spans|, 0) && Ordered(spans, rep, ordered)
    requires RebasedOne(chunks, spans, rep, ordered, i, r.roots, r.offsets)
    requires RebasedOne(chunks, spans, rep, ordered, j, r.roots, r.offsets)
    ensures KeepsPlace(chunks, spans, r, i, j)
  {
    hide Classes, Hull;
    SameRoot(ordered, r.roots[chunks[i].id], r.roots[chunks[j].id]);
    SameClass(spans, rep, i, j);
  }

  lemma RebasedIsTight(chunks: seq<Buffer>, spans: seq<Span>, rep: seq<nat>, ordered: seq<Component>, alignment: nat,
                       roots: map<nat, nat>, begins: map<nat, nat>, r: RootResult)
    requires |chunks| == |spans| == |rep| && Ordered(spans, rep, ordered)
    requires Numbers(ordered, |ordered|, alignment, roots, begins, r.rootSizes)
    requires Rebased(chunks, spans, rep, ordered, |chunks|, r.roots, r.offsets)
    ensures RootsAreTight(chunks, spans, alignment, r)
  {
    hide AlignUp, Hull, Reaches, RebasedOne;
    forall k: nat | k < |r.rootSizes| ensures IsTight(chunks, spans, alignment, r, k) {
      var a, b := ReachesOfRoot(chunks, spans, rep, ordered, alignment, roots, begins, r, k);
    }
    forall i: nat, j: nat | i < |chunks| && j < |chunks| ensures BeginsInOrder(chunks, spans, r, i, j) {
      RootsInOrder(chunks, spans, rep, ordered, r, i, j);
    }
  }

  lemma RootsInOrder(chunks: seq<Buffer>, spans: seq<Span>, rep: seq<nat>, ordered: seq<Component>, r: RootResult,
                     i: nat, j: nat)
    requires i < |chunks| == |spans| == |rep| && j < |chunks| && Ordered(spans, rep, ordered)
    requires RebasedOne(chunks, spans, rep, ordered, i, r.roots, r.offsets)
    requires RebasedOne(chunks, spans, rep, ordered, j, r.roots, r.offsets)
    ensures BeginsInOrder(chunks, spans, r, i, j)
  {
    hide Hull;
  }

  lemma ReachesOfRoot(chunks: seq<Buffer>, spans: seq<Span>, rep: seq<nat>, ordered: seq<Component>, alignment: nat,
                      roots: map<nat, nat>, begins: map<nat, nat>, r: RootResult, k: nat)
    returns (a: nat, b: nat)
    requires |chunks| == |spans| == |rep| && Ordered(spans, rep, ordered) && k < |r.rootSizes|
    requires Numbers(ordered, |ordered|, alignment, roots, begins, r.rootSizes)
    requires Rebased(chunks, spans, rep, ordered, |chunks|, r.roots, r.offsets)
    ensures Reaches(chunks, spans, alignment, r, k, a, b)
  {
    hide AlignUp, RebasedOne;
    var c := ordered[k];
    assert Hull(spans, rep, c);
    a :| a < |spans| && rep[a] == c.parent && spans[a].0 == c.begin;
    b :| b < |spans| && rep[b] == c.parent && spans[b].1 == c.end;
    forall i: nat | i < |chunks| ensures HasRoot(chunks, r, i, k) <==> rep[i] == c.parent {
      RootOfClass(chunks, spans, rep, ordered, r, i, k);
    }
    RootOfClass(chunks, spans, rep, ordered, r, a, k);
  }

  lemma RootOfClass(chunks: seq<Buffer>, spans: seq<Span>, rep: seq<nat>, ordered: seq<Component>, r: RootResult,
                    i: nat, k: nat)
    requires i < |chunks| == |spans| == |rep| && DistinctParents(ordered) && k < |ordered|
    requires Rebased(chunks, spans, rep, ordered, |chunks|, r.roots, r.offsets)
    ensures HasRoot(chunks, r, i, k) <==> rep[i] == ordered[k].parent
    ensures HasRoot(chunks, r, i, k) ==>
              chunks[i].id in r.offsets && r.offsets[chunks[i].id] + ordered[k].begin == spans[i].0
  {
    assert RebasedOne(chunks, spans, rep, ordered, i, r.roots, r.offsets);
    SameRoot(ordered, r.roots[chunks[i].id], k);
  }

  lemma SameRoot(ordered: seq<Component>, k: nat, l: nat)
    requires DistinctParents(ordered) && k < |ordered| && l < |ordered|
    ensures k == l <==> ordered[k].parent == ordered[l].parent
  {
  }

  lemma SameClass(spans: seq<Span>, rep: seq<nat>, i: nat, j: nat)
    requires |rep| == |spans| && Classes(spans, rep, |spans|, 0) && i < |spans| && j < |spans|
    ensures rep[i] == rep[j] <==> Connected(spans, i, j)
  {
    if Connected(spans, i, j) {
      var path :| Connects(spans, path, i, j);
      ConnectedIsTogether(spans, rep, path);
    }
  }

  /** The summed root sizes never exceed the heap they came from. */
  lemma RootsFitHeap(spans: seq<Span>, rep: seq<nat>, ordered: seq<Component>, alignment: nat, used: nat, last: nat,
                     heapSize: nat)
    requires |rep| == |spans| && Ordered(spans, rep, ordered) && AllocatedWith(spans, alignment, heapSize)
    requires RootsFit(ordered, |ordered|, alignment, used, last)
    ensures used <= heapSize
  {
    AlignUpZero(alignment);
    AlignUpIsLeast(last, alignment);
    if last != 0 {
      var k :| 0 <= k < |ordered| && ordered[k].end == last;
      assert Hull(spans, rep, ordered[k]);
    }
  }

  ghost predicate StaysAligned(chunks: seq<Buffer>, alignment: nat, r: RootResult)
  {
    forall i :: 0 <= i < |chunks| ==> chunks[i].id in r.offsets && Aligned(r.offsets[chunks[i].id], alignment)
  }

  lemma RebasedStaysAligned(chunks: seq<Buffer>, spans: seq<Span>, rep: seq<nat>, ordered: seq<Component>,
                            alignment: nat,
                            heapSize: nat, r: RootResult)
    requires |chunks| == |spans| == |rep| && Ordered(spans, rep, ordered) && AllocatedWith(spans, alignment, heapSize)
    requires Rebased(chunks, spans, rep, ordered, |chunks|, r.roots, r.offsets)
    ensures StaysAligned(chunks, alignment, r)
  {
    hide Aligned, Ordered;
    BeginsAreAligned(spans, rep, ordered, alignment, heapSize);
    forall i | 0 <= i < |chunks| ensures chunks[i].id in r.offsets && Aligned(r.offsets[chunks[i].id], alignment)
    {
      assert RebasedOne(chunks, spans, rep, ordered, i, r.roots, r.offsets);
      AlignedDifference(spans[i].0, ordered[r.roots[chunks[i].id]].begin, alignment);
    }
  }

  lemma AlignedDifference(x: nat, y: nat, alignment: nat)
    requires y <= x && Aligned(x, alignment) && Aligned(y, alignment)
    ensures Aligned(x - y, alignment)
  {
    if alignment != 0 {
      MultipleDifference(x / alignment, y / alignment, alignment);
    }
  }

  lemma MultipleDifference(p: nat, q: nat, a: nat)
    requires a != 0 && q * a <= p * a
    ensures (p * a - q * a) % a == 0
  {
    if p < q { QuotientGap(a, p, q); }
    assert (p - q) * a == p * a - q * a;
    MultipleIsAligned(p - q, a);
  }

  /** An allocation keeps its promises to a partition made with the same alignment. */
  lemma AllocationIsUsable(chunks: seq<Buffer>, cb: Callbacks, alignment: nat, r: Result)
    requires UniqueIds(chunks) && IsAllocation(chunks, cb, alignment, r)
    ensures Ids(chunks) <= r.offsets.Keys && AllocatedWith(SpansOf(chunks, r.offsets), alignment, r.heapSize)
  {
    hide IsAllocation, AlignUp, Aligned;
    HeapIsUsable(chunks, cb, alignment, r);
    forall i: nat | i < |chunks|
      ensures chunks[i].id in r.offsets && Aligned(r.offsets[chunks[i].id], alignment)
      ensures r.offsets[chunks[i].id] + chunks[i].size <= r.heapSize
    {
      ChunkIsUsable(chunks, cb, alignment, r, i);
    }
  }

  lemma HeapIsUsable(chunks: seq<Buffer>, cb: Callbacks, alignment: nat, r: Result)
    requires IsAllocation(chunks, cb, alignment, r)
    ensures Aligned(r.heapSize, alignment)
  {
    hide AlignUp, Aligned, BestFit, Sum, AlignedSizes, Topped;
    var order := PlacementOrder(chunks);
    var top: nat :| Topped(order, Positions(order, r.offsets), top, |order|) && r.heapSize == AlignUp(top, alignment);
    AlignUpIsLeast(top, alignment);
  }

  lemma ChunkIsUsable(chunks: seq<Buffer>, cb: Callbacks, alignment: nat, r: Result, i: nat)
    requires UniqueIds(chunks) && IsAllocation(chunks, cb, alignment, r) && i < |chunks|
    ensures chunks[i].id in r.offsets && Aligned(r.offsets[chunks[i].id], alignment)
    ensures r.offsets[chunks[i].id] + chunks[i].size <= r.heapSize
  {
    hide AlignUp, Aligned, Sum, AlignedSizes, Fitted, BestFit;
    var order := PlacementOrder(chunks);
    var at := Positions(order, r.offsets);
    PlacedAreAligned(order, cb, alignment, at, |order|);
    var k := OffsetOf(chunks, r, chunks[i]);
    var top: nat :| Topped(order, at, top, |order|) && r.heapSize == AlignUp(top, alignment);
    AlignUpIsLeast(top, alignment);
  }

  method PartitionAllocationRoots(chunks: seq<Buffer>, allocation: Result, alignment: nat) returns (r: RootResult)
    requires UniqueIds(chunks) && Ids(chunks) <= allocation.offsets.Keys
    ensures IsPartition(chunks, SpansOf(chunks, allocation.offsets), alignment, r)
    ensures RootsAreTight(chunks, SpansOf(chunks, allocation.offsets), alignment, r)
    ensures AllocatedWith(SpansOf(chunks, allocation.offsets), alignment, allocation.heapSize) ==>
              r.heapSize <= allocation.heapSize && StaysAligned(chunks, alignment, r)
  {
    hide AlignUp, Aligned, Classes, Hull, Rebased, Components, RootsAreTight;
    ghost var spans := SpansOf(chunks, allocation.offsets);
    var forest := FindClasses(chunks, allocation.offsets, spans);
    var components := CollectComponents(forest, chunks, allocation.offsets, spans);
    RootsInRange(forest.parent[..], forest.rep, forest.level, forest.top);
    ComponentKeys(spans, forest.rep, components);
    var list := ListComponents(components, |chunks|);
    var ordered := Sort(list, BeginsBefore);
    SortedComponents(spans, forest.rep, components, list);
    var roots, begins, sizes, heapSize;
    ghost var last;
    roots, begins, sizes, heapSize, last := NumberRoots(ordered, alignment, spans, forest.rep);
    var chunkRoots, chunkOffsets := Rebase(forest, chunks, allocation.offsets, spans, ordered, alignment, roots,
        begins, sizes);
    r := RootResult(chunkRoots, chunkOffsets, sizes, heapSize);
    RebasedIsPartition(chunks, spans, forest.rep, ordered, alignment, roots, begins, r);
    RebasedIsTight(chunks, spans, forest.rep, ordered, alignment, roots, begins, r);
    if AllocatedWith(spans, alignment, allocation.heapSize) {
      BeginsAreAligned(spans, forest.rep, ordered, alignment, allocation.heapSize);
      RootsFitHeap(spans, forest.rep, ordered, alignment, heapSize, last, allocation.heapSize);
      RebasedStaysAligned(chunks, spans, forest.rep, ordered, alignment, allocation.heapSize, r);
    }
  }

  ghost function SpansOf(chunks: seq<Buffer>, offsets: map<string, nat>): (spans: seq<Span>)
    requires Ids(chunks) <= offsets.Keys
    ensures Spans(chunks, offsets, spans) && Proper(spans)
  {
    seq(|chunks|, i requires 0 <= i < |chunks| =>
      (assert chunks[i].id in Ids(chunks); (offsets[chunks[i].id], offsets[chunks[i].id] + chunks[i].size)))
  }

  lemma ComponentKeys(spans: seq<Span>, rep: seq<nat>, components: map<nat, Component>)
    requires |rep| == |spans| && Components(spans, rep, components, |spans|)
    requires forall x :: 0 <= x < |spans| ==> rep[x] < |spans|
    ensures forall p :: p in components ==> components[p].parent == p && p < |spans|
  {
    forall p | p in components ensures p < |spans|
    {
      assert HullUpTo(spans, rep, components[p], |spans|);
    }
  }

  lemma BeginsAreAligned(spans: seq<Span>, rep: seq<nat>, ordered: seq<Component>, alignment: nat, heapSize: nat)
    requires |rep| == |spans| && Ordered(spans, rep, ordered) && AllocatedWith(spans, alignment, heapSize)
    ensures forall k :: 0 <= k < |ordered| ==> Aligned(ordered[k].begin, alignment)
  {
    hide Aligned;
    forall k | 0 <= k < |ordered| ensures Aligned(ordered[k].begin, alignment)
    {
      assert Hull(spans, rep, ordered[k]);
    }
  }
}
