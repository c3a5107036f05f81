/** Which storage a name stands for: resolution through futures, aliases and bindings, which may be
  cyclic, and the closure of a set of names over several such relations.
 */
module Resolution {

  /** How names relate: an alias has one source, a binding several members, a future several
    (source, destination) pairs, and a no-storage alias is replaced by its source everywhere. */
  datatype Tracker = Tracker(
    alias: map<string, string>,
    noStorage: map<string, string>,
    bindings: map<string, set<string>>,
    futures: map<string, set<(string, string)>>
  )

  // ----- no-storage aliases -----

  /** The end of the alias chain from `name`, using each link once. */
  function ChainEnd(m: map<string, string>, name: string): string
    decreases |m.Keys|
  {
    if name in m then ChainEnd(m - {name}, m[name]) else name
  }

  /** Following links from any name leaves the map. */
  ghost predicate IsAcyclic(m: map<string, string>) {
    forall name :: ChainEnd(m, name) !in m
  }

  method ResolveNoStorageAlias(m: map<string, string>, name: string) returns (current: string)
    requires IsAcyclic(m)
    ensures current == ChainEnd(m, name) && current !in m
  {
    current := name;
    ghost var unused := m;
    while current in m
      invariant unused.Keys <= m.Keys && (forall k :: k in unused ==> unused[k] == m[k])
      invariant ChainEnd(unused, current) == ChainEnd(m, name)
      decreases |unused.Keys|
    {
      assert ChainEnd(m, name) !in m;
      unused := unused - {current};
      current := m[current];
    }
  }

  /** Names of the map whose links lead to one another: somewhere among them is a cycle. */
  ghost predicate IsTrap(s: set<string>, m: map<string, string>) {
    s != {} && forall name :: name in s ==> name in m && m[name] in s
  }

  lemma {:induction false} ChainStaysInTrap(m: map<string, string>, rest: map<string, string>, s: set<string>,
                                            name: string)
    requires IsTrap(s, m) && name in s && forall k :: k in rest ==> k in m && rest[k] == m[k]
    ensures ChainEnd(rest, name) in s
    decreases |rest.Keys|
  {
    if name in rest { ChainStaysInTrap(m, rest - {name}, s, m[name]); }
  }

  /** A chain that ends inside the map has gone around a cycle. */
  lemma {:induction false} ChainFindsTrap(m: map<string, string>, rest: map<string, string>, name: string)
    returns (s: set<string>)
    requires forall k :: k in rest ==> k in m && rest[k] == m[k]
    requires forall k :: k in m.Keys - rest.Keys ==> m[k] == name || m[k] in m.Keys - rest.Keys
    ensures ChainEnd(rest, name) in m ==> IsTrap(s, m)
    decreases |rest.Keys|
  {
    if name in rest {
      var fewer := rest - {name};
      assert m.Keys - fewer.Keys == m.Keys - rest.Keys + {name};
      s := ChainFindsTrap(m, fewer, m[name]);
    } else {
      s := m.Keys - rest.Keys;
      if name in m {
        assert name in s;
        forall k | k in s ensures k in m && m[k] in s
        {
          assert k in m.Keys - rest.Keys;
        }
      }
    }
  }

  /** A map is acyclic exactly when no set of its names is closed under its links. */
  lemma AcyclicIffNoTrap(m: map<string, string>)
    ensures IsAcyclic(m) <==> forall s :: !IsTrap(s, m)
  {
    if IsAcyclic(m) {
      forall s ensures !IsTrap(s, m)
      {
        if IsTrap(s, m) {
          var name :| name in s;
          ChainStaysInTrap(m, m, s, name);
        }
      }
    } else {
      var name :| ChainEnd(m, name) in m;
      var s := ChainFindsTrap(m, m, name);
    }
  }

  // ----- what a name leads to -----

  /** Futures lead to their named destinations only; they come before aliases, and those before bindings. */
  function Links(t: Tracker, name: string): set<string> {
    if name in t.futures then set p | p in t.futures[name] && p.1 != "" :: p.1
    else if name in t.alias then {t.alias[name]}
    else if name in t.bindings then t.bindings[name]
    else {}
  }

  predicate OwnsStorage(t: Tracker, name: string) {
    name !in t.futures && name !in t.alias && name !in t.bindings
  }

  function Canonical(t: Tracker, name: string): string {
    ChainEnd(t.noStorage, name)
  }

  ghost predicate Leads(t: Tracker, a: string, b: string) {
    exists link :: link in Links(t, a) && Canonical(t, link) == b
  }

  ghost predicate IsTrail(t: Tracker, trail: seq<string>) {
    trail != [] && forall k :: 0 <= k < |trail| - 1 ==> Leads(t, trail[k], trail[k + 1])
  }

  ghost predicate Reaches(t: Tracker, a: string, b: string) {
    exists trail :: IsTrail(t, trail) && trail[0] == a && trail[|trail| - 1] == b
  }

  lemma ReachesItself(t: Tracker, a: string)
    ensures Reaches(t, a, a)
  {
    assert IsTrail(t, [a]);
  }

  lemma ReachesFurther(t: Tracker, a: string, b: string, c: string)
    requires Leads(t, a, b) && Reaches(t, b, c)
    ensures Reaches(t, a, c)
  {
    var trail :| IsTrail(t, trail) && trail[0] == b && trail[|trail| - 1] == c;
    assert IsTrail(t, [a] + trail);
  }

  /** Everything reachable lies in a set that holds the start and all it leads to. */
  lemma {:induction false} TrailStaysInside(t: Tracker, names: set<string>, trail: seq<string>)
    requires IsTrail(t, trail) && trail[0] in names && forall v :: v in names ==> Expanded(t, names, v)
    ensures trail[|trail| - 1] in names
    decreases |trail|
  {
    if |trail| > 1 {
      assert Leads(t, trail[0], trail[1]) && Expanded(t, names, trail[0]);
      assert IsTrail(t, trail[1..]) by {
        forall k | 0 <= k < |trail| - 2 ensures Leads(t, trail[1..][k], trail[1..][k + 1])
        {
          assert Leads(t, trail[k + 1], trail[k + 1 + 1]);
        }
      }
      TrailStaysInside(t, names, trail[1..]);
    }
  }

  ghost predicate Expanded(t: Tracker, names: set<string>, name: string) {
    forall link :: link in Links(t, name) ==> Canonical(t, link) in names
  }

  // ----- the names there are -----

  ghost function Mentioned(t: Tracker): set<string> {
    t.noStorage.Values + t.alias.Values
    + (set k, v | k in t.bindings && v in t.bindings[k] :: v)
    + (set k, p | k in t.futures && p in t.futures[k] :: p.1)
  }

  lemma LinksAreMentioned(t: Tracker, name: string)
    ensures Links(t, name) <= Mentioned(t)
  {
  }

  lemma {:induction false} ChainEndIsNamed(m: map<string, string>, name: string)
    ensures ChainEnd(m, name) == name || ChainEnd(m, name) in m.Values
    decreases |m.Keys|
  {
    if name in m {
      ChainEndIsNamed(m - {name}, m[name]);
      assert (m - {name}).Values <= m.Values;
    }
  }

  // ----- the resolver -----

  class Resolver {
    const t: Tracker
    var visited: set<string>
    var result: set<string>

    constructor (tracker: Tracker)
      ensures t == tracker && visited == {} && result == {}
    {
      t, visited, result := tracker, {}, {};
    }

    ghost predicate CollectsOwners()
      reads this
    {
      forall x :: x in result <==> x in visited && OwnsStorage(t, x)
    }

    /** Visits everything reachable that is not already visited. */
    method Resolve(candidate: string, ghost names: set<string>)
      requires IsAcyclic(t.noStorage) && CollectsOwners()
      requires Mentioned(t) <= names && candidate in names && visited <= names
      modifies this`visited, this`result
      ensures CollectsOwners() && visited <= names
      ensures old(visited) <= visited && Canonical(t, candidate) in visited
      ensures forall v :: v in visited - old(visited) ==>
                Expanded(t, visited, v) && Reaches(t, Canonical(t, candidate), v)
      decreases |names - visited|
    {
      var current := ResolveNoStorageAlias(t.noStorage, candidate);
      if current in visited {
        return;
      }
      ChainEndIsNamed(t.noStorage, candidate);
      assert names - visited > names - (visited + {current});
      Shrinks(names - (visited + {current}), names - visited);
      visited := visited + {current};
      ReachesItself(t, current);
      if OwnsStorage(t, current) {
        result := result + {current};
        return;
      }
      LinksAreMentioned(t, current);
      var todo := Links(t, current);
      ghost var start := visited;
      while todo != {}
        invariant todo <= Links(t, current) && CollectsOwners() && start <= visited <= names
        invariant forall link :: link in Links(t, current) - todo ==> Canonical(t, link) in visited
        invariant forall v :: v in visited - start ==> Expanded(t, visited, v) && Reaches(t, current, v)
        decreases |todo|
      {
        var link :| link in todo;
        ghost var before := visited;
        Shrinks(names - visited, names - start);
        Resolve(link, names);
        StillExpanded(t, before - start, before, visited);
        ReachedThrough(t, current, link, visited - before);
        todo := todo - {link};
      }
      assert Expanded(t, visited, current);
    }
  }

  lemma StillExpanded(t: Tracker, names: set<string>, before: set<string>, after: set<string>)
    requires before <= after && forall v :: v in names ==> Expanded(t, before, v)
    ensures forall v :: v in names ==> Expanded(t, after, v)
  {
  }

  lemma ReachedThrough(t: Tracker, current: string, link: string, names: set<string>)
    requires link in Links(t, current) && forall v :: v in names ==> Reaches(t, Canonical(t, link), v)
    ensures forall v :: v in names ==> Reaches(t, current, v)
  {
    forall v | v in names ensures Reaches(t, current, v)
    {
      assert Leads(t, current, Canonical(t, link));
      ReachesFurther(t, current, Canonical(t, link), v);
    }
  }

  lemma Shrinks(a: set<string>, b: set<string>)
    requires a <= b
    ensures |a| <= |b| && (a < b ==> |a| < |b|)
    decreases b
  {
    if a < b {
      var x :| x in b && x !in a;
      Shrinks(a, b - {x});
    } else {
      assert a == b;
    }
  }

  /** Exactly the storage-owning names reachable from the name, cyclic or not. */
  method ResolveBuffers(t: Tracker, name: string) returns (result: set<string>)
    requires IsAcyclic(t.noStorage)
    ensures forall x :: x in result <==> OwnsStorage(t, x) && Reaches(t, Canonical(t, name), x)
  {
    var resolver := new Resolver(t);
    resolver.Resolve(name, Mentioned(t) + {name});
    result := resolver.result;
    ghost var visited := resolver.visited;
    forall x | OwnsStorage(t, x) && Reaches(t, Canonical(t, name), x) ensures x in visited
    {
      var trail :| IsTrail(t, trail) && trail[0] == Canonical(t, name) && trail[|trail| - 1] == x;
      TrailStaysInside(t, visited, trail);
    }
  }

  // ----- closure over several maps -----

  /** A relation that gives one name, or a set of names. */
  datatype Relation = One(one: map<string, string>) | Many(many: map<string, set<string>>)

  function Next(r: Relation, name: string): set<string> {
    match r
    case One(m) => if name in m then {m[name]} else {}
    case Many(m) => if name in m then m[name] else {}
  }

  ghost predicate ClosedAt(names: set<string>, maps: seq<Relation>, name: string) {
    forall k :: 0 <= k < |maps| ==> Next(maps[k], name) <= names
  }

  ghost predicate Closed(names: set<string>, maps: seq<Relation>) {
    forall name :: name in names ==> ClosedAt(names, maps, name)
  }

  /** No closed superset of the input leaves out a collected name. */
  ghost predicate Needed(names: set<string>, vars: set<string>, maps: seq<Relation>) {
    forall s :: Closed(s, maps) && vars <= s ==> names <= s
  }

  ghost function Elements(s: seq<string>): set<string> {
    set x | x in s
  }

  lemma ElementsOfBoth(a: seq<string>, b: seq<string>)
    ensures Elements(a + b) == Elements(a) + Elements(b)
  {
    forall x ensures x in Elements(a + b) <==> x in Elements(a) || x in Elements(b)
    {
    }
  }

  lemma FirstAndRest(s: seq<string>)
    ensures Elements(s) == if s == [] then {} else {s[0]} + Elements(s[1..])
  {
    if s != [] {
      assert s == [s[0]] + s[1..];
      ElementsOfBoth([s[0]], s[1..]);
    }
  }

  lemma InputIsNeeded(vars: set<string>, maps: seq<Relation>)
    ensures Needed(vars, vars, maps)
  {
  }

  ghost function AllNames(maps: seq<Relation>): set<string> {
    if maps == [] then {}
    else AllNames(maps[1..]) + match maps[0]
                               case One(m) => m.Values
                               case Many(m) => set k, v | k in m && v in m[k] :: v
  }

  lemma {:induction false} NextIsNamed(maps: seq<Relation>, k: nat, name: string)
    requires k < |maps|
    ensures Next(maps[k], name) <= AllNames(maps)
    decreases |maps|
  {
    if k > 0 { NextIsNamed(maps[1..], k - 1, name); }
  }

  /** One map's contribution for the current name. */
  method ProcessMap(current: string, r: Relation, result: set<string>, processed: set<string>, queue: seq<string>)
    returns (result': set<string>, queue': seq<string>)
    requires processed <= result
    ensures result' == result + Next(r, current)
    ensures queue <= queue' && Elements(queue'[|queue|..]) == Next(r, current) - processed
  {
    result', queue' := result, queue;
    var todo := Next(r, current);
    while todo != {}
      invariant todo <= Next(r, current) && result' == result + (Next(r, current) - todo)
      invariant queue <= queue' && Elements(queue'[|queue|..]) == Next(r, current) - todo - processed
    {
      var next :| next in todo;
      if next !in processed {
        ElementsOfBoth(queue'[|queue|..], [next]);
        assert (queue' + [next])[|queue|..] == queue'[|queue|..] + [next];
        result', queue' := result' + {next}, queue' + [next];
      }
      todo := todo - {next};
    }
  }

  /** Every map's contribution for the current name. */
  method ProcessMaps(current: string, maps: seq<Relation>, ghost vars: set<string>, result: set<string>,
                     processed: set<string>, queue: seq<string>)
    returns (result': set<string>, queue': seq<string>)
    requires Elements(queue) + processed == result && current in processed && Needed(result, vars, maps)
    ensures Elements(queue') + processed == result' && result <= result' <= result + AllNames(maps)
    ensures ClosedAt(result', maps, current) && Needed(result', vars, maps)
  {
    hide Elements, Needed, Next;
    result', queue' := result, queue;
    for k := 0 to |maps|
      invariant result <= result' <= result + AllNames(maps) && Needed(result', vars, maps)
      invariant Elements(queue') + processed == result'
      invariant forall j :: 0 <= j < k ==> Next(maps[j], current) <= result'
    {
      NextIsNamed(maps, k, current);
      NextIsNeeded(result', vars, maps, k, current);
      ghost var was := queue';
      result', queue' := ProcessMap(current, maps[k], result', processed, queue');
      ElementsOfBoth(was, queue'[|was|..]);
      assert queue' == was + queue'[|was|..];
    }
  }

  /** The least superset of the names closed under all the maps. */
  method TransitiveClosure(vars: set<string>, maps: seq<Relation>) returns (result: set<string>)
    ensures vars <= result && Closed(result, maps) && Needed(result, vars, maps)
  {
    hide ClosedAt, Next, AllNames, Elements, Needed;
    InputIsNeeded(vars, maps);
    result := vars;
    var processed: set<string> := {};
    var queue := ListOf(vars);
    ghost var names := vars + AllNames(maps);
    FirstAndRest([]);
    while queue != []
      invariant vars <= result && Needed(result, vars, maps)
      invariant Elements(queue) + processed == result <= names
      invariant forall name :: name in processed ==> ClosedAt(result, maps, name)
      decreases |names - processed|, |queue|
    {
      var current := queue[0];
      FirstAndRest(queue);
      queue := queue[1..];
      if current in processed {
        continue;
      }
      Shrinks(names - (processed + {current}), names - processed);
      ghost var before := result;
      processed := processed + {current};
      result, queue := ProcessMaps(current, maps, vars, result, processed, queue);
      StillClosed(before, result, maps, processed - {current});
    }
  }

  lemma StillClosed(before: set<string>, after: set<string>, maps: seq<Relation>, names: set<string>)
    requires before <= after && forall name :: name in names ==> ClosedAt(before, maps, name)
    ensures forall name :: name in names ==> ClosedAt(after, maps, name)
  {
  }

  lemma NextIsNeeded(names: set<string>, vars: set<string>, maps: seq<Relation>, k: nat, name: string)
    requires Needed(names, vars, maps) && name in names && k < |maps|
    ensures Needed(names + Next(maps[k], name), vars, maps)
  {
    forall s | Closed(s, maps) && vars <= s ensures names + Next(maps[k], name) <= s
    {
      assert names <= s && ClosedAt(s, maps, name);
    }
  }

  method ListOf(names: set<string>) returns (list: seq<string>)
    ensures Elements(list) == names
  {
    list := [];
    var todo := names;
    while todo != {}
      invariant todo <= names && Elements(list) == names - todo
    {
      var x :| x in todo;
      ElementsOfBoth(list, [x]);
      list, todo := list + [x], todo - {x};
    }
  }
}
