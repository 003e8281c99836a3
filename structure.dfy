/** `structure.py`: the molecular graph (`Graph`) and the `Chemistry`
    helpers that build atoms from the periodic table.

    Atoms are graph vertices by value: `Atom` is a frozen dataclass, so two
    atoms with equal fields are the same dictionary key.  `Graph.add_edge`
    takes two atoms and no bond label, so the model keeps no labels. */
module Structure {
  import opened Wrappers
  import opened PyStr
  import opened Orbitals
  import opened Atomic
  import opened BracketAtoms

  /** No element repeats an earlier one. */
  predicate Distinct<T(==)>(s: seq<T>) {
    forall i, j :: 0 <= i < j < |s| ==> s[i] != s[j]
  }

  function Elems<T(==)>(s: seq<T>): set<T> {
    set x | x in s
  }

  /** The lists of a list of lists, one after the other. */
  function Concat<T>(ss: seq<seq<T>>): seq<T> {
    if |ss| == 0 then [] else Concat(ss[..|ss| - 1]) + ss[|ss| - 1]
  }

  lemma DistinctAppend<T>(a: seq<T>, b: seq<T>)
    requires Distinct(a) && Distinct(b) && Elems(a) !! Elems(b)
    ensures Distinct(a + b)
  {
    forall i, j | 0 <= i < j < |a + b| ensures (a + b)[i] != (a + b)[j] {
      if i < |a| && j >= |a| {
        assert (a + b)[i] in Elems(a) && (a + b)[j] in Elems(b);
      }
    }
  }

  // ---------------------------------------------------------------------
  // The adjacency dictionary as a value
  // ---------------------------------------------------------------------

  /** `adjacency_list`: its keys in insertion order and the list of each. */
  datatype Adjacency = Adjacency(keys: seq<Atom>, lists: map<Atom, seq<Atom>>)

  ghost predicate WellFormed(g: Adjacency) {
    Distinct(g.keys) && forall a :: a in g.lists <==> a in g.keys
  }

  /** Every neighbour is itself a key. */
  ghost predicate NeighboursAreKeys(g: Adjacency) {
    forall a, b :: a in g.lists && b in g.lists[a] ==> b in g.lists
  }

  /** How often `b` occurs in the list of `a`. */
  function Count(g: Adjacency, a: Atom, b: Atom): nat {
    multiset(ListOf(g, a))[b]
  }

  /** `b` occurs in the list of `a` as often as `a` in the list of `b`. */
  ghost predicate Symmetric(g: Adjacency) {
    forall a, b :: Count(g, a, b) == Count(g, b, a)
  }

  /** What every graph built by `add_edge` satisfies. */
  ghost predicate Consistent(g: Adjacency) {
    WellFormed(g) && NeighboursAreKeys(g) && Symmetric(g)
  }

  /** `adjacency_list.get(a, [])`. */
  function ListOf(g: Adjacency, a: Atom): seq<Atom> {
    if a in g.lists then g.lists[a] else []
  }

  /** One half of `add_edge`: the key `x` with an empty list when it is
      not there yet, then `y` appended to the list of `x`. */
  function Append(g: Adjacency, x: Atom, y: Atom): (r: Adjacency)
    ensures r.keys == g.keys + (if x in g.lists then [] else [x])
    ensures r.lists == g.lists[x := ListOf(g, x) + [y]]
  {
    if x in g.lists then Adjacency(g.keys, g.lists[x := g.lists[x] + [y]])
    else
      assert ListOf(g, x) + [y] == [y];
      Adjacency(g.keys + [x], g.lists[x := [y]])
  }

  lemma AppendWellFormed(g: Adjacency, x: Atom, y: Atom)
    requires WellFormed(g)
    ensures WellFormed(Append(g, x, y))
  {
    var r := Append(g, x, y);
    if x !in g.lists {
      forall i, j | 0 <= i < j < |r.keys| ensures r.keys[i] != r.keys[j] {
        if j == |g.keys| { assert r.keys[i] in g.keys; }
      }
    }
  }

  /** `add_edge(a, b)`: missing keys are added with empty lists (first
      `a`, then `b`), then `b` is appended to the list of `a` and `a` to the
      list of `b`. */
  function Connect(g: Adjacency, a: Atom, b: Atom): (r: Adjacency)
    ensures r.lists.Keys == g.lists.Keys + {a, b}
  {
    Append(Append(g, a, b), b, a)
  }

  /** The keys are those of `g`, then `a` if new, then `b` if new. */
  lemma ConnectKeys(g: Adjacency, a: Atom, b: Atom)
    requires WellFormed(g)
    ensures WellFormed(Connect(g, a, b))
    ensures Connect(g, a, b).keys == g.keys + (if a in g.lists then [] else [a])
                                            + (if b in g.lists || b == a then [] else [b])
  {
    AppendWellFormed(g, a, b);
    AppendWellFormed(Append(g, a, b), b, a);
  }

  /** How often `y` occurs in the list of `x` after `add_edge(a, b)`: once
      more when `x, y` is `a, b`, once more when it is `b, a` (so twice more
      for a self-loop), and as before otherwise. */
  lemma ConnectCount(g: Adjacency, a: Atom, b: Atom, x: Atom, y: Atom)
    ensures Count(Connect(g, a, b), x, y)
      == Count(g, x, y) + (if x == a && y == b then 1 else 0) + (if x == b && y == a then 1 else 0)
  {
    var h := Append(g, a, b);
    assert ListOf(h, x) == if x == a then ListOf(g, a) + [b] else ListOf(g, x);
    var r := Append(h, b, a);
    assert ListOf(r, x) == if x == b then ListOf(h, b) + [a] else ListOf(h, x);
  }

  /** Nothing but the lists of `a` and `b` changes. */
  lemma ConnectOthers(g: Adjacency, a: Atom, b: Atom, x: Atom)
    requires x != a && x != b
    ensures ListOf(Connect(g, a, b), x) == ListOf(g, x)
  {
  }

  /** Adding an edge keeps the graph consistent. */
  lemma ConnectConsistent(g: Adjacency, a: Atom, b: Atom)
    requires Consistent(g)
    ensures Consistent(Connect(g, a, b))
  {
    var r := Connect(g, a, b);
    ConnectKeys(g, a, b);
    forall x, y ensures Count(r, x, y) == Count(r, y, x) {
      ConnectCount(g, a, b, x, y);
      ConnectCount(g, a, b, y, x);
    }
    ConnectNeighboursAreKeys(g, a, b);
  }

  lemma ConnectNeighboursAreKeys(g: Adjacency, a: Atom, b: Atom)
    requires NeighboursAreKeys(g)
    ensures NeighboursAreKeys(Connect(g, a, b))
  {
    var r := Connect(g, a, b);
    forall x, y | x in r.lists && y in r.lists[x] ensures y in r.lists {
      ConnectCount(g, a, b, x, y);
      assert Count(r, x, y) > 0;
      assert y in ListOf(g, x) || y == a || y == b;
    }
  }

  /** The key `x` with an empty list when it is not there yet. */
  function WithKey(g: Adjacency, x: Atom): (r: Adjacency)
    ensures x in r.lists
  {
    if x in g.lists then g else Adjacency(g.keys + [x], g.lists[x := []])
  }

  /** The order of `add_edge` itself: both keys first, then both appends. */
  lemma EnsureThenAppend(g: Adjacency, a: Atom, b: Atom)
    ensures var h := WithKey(WithKey(g, a), b);
      var once := h.lists[a := h.lists[a] + [b]];
      Connect(g, a, b) == Adjacency(h.keys, once[b := once[b] + [a]])
  {
    var h := WithKey(WithKey(g, a), b);
    var once := h.lists[a := h.lists[a] + [b]];
    var r := Connect(g, a, b);
    var m := once[b := once[b] + [a]];
    var h1 := Append(g, a, b);
    assert r == Append(h1, b, a);
    assert b in h1.lists <==> b in g.lists || b == a;
    forall x | x in m ensures m[x] == r.lists[x] {
      if x == b {
        assert once[b] == ListOf(h1, b);
      } else if x == a {
        assert m[a] == ListOf(h1, a) == r.lists[a];
      } else {
        assert m[x] == ListOf(g, x) == ListOf(h1, x);
      }
    }
    assert m.Keys == r.lists.Keys;
    assert m == r.lists;
  }

  /** The sum of the list lengths over `keys`. */
  function DegreeSum(keys: seq<Atom>, lists: map<Atom, seq<Atom>>): nat
    requires forall k :: k in keys ==> k in lists
  {
    if |keys| == 0 then 0
    else DegreeSum(keys[..|keys| - 1], lists) + |lists[keys[|keys| - 1]]|
  }

  /** The total length of all adjacency lists. */
  function Degree(g: Adjacency): nat
    requires WellFormed(g)
  {
    DegreeSum(g.keys, g.lists)
  }

  lemma {:induction false} DegreeSumUpdate(keys: seq<Atom>, lists: map<Atom, seq<Atom>>, k: Atom, v: seq<Atom>)
    requires Distinct(keys)
    requires forall x :: x in keys ==> x in lists
    ensures k !in keys ==> DegreeSum(keys, lists[k := v]) == DegreeSum(keys, lists)
    ensures k in keys ==> DegreeSum(keys, lists[k := v]) == DegreeSum(keys, lists) - |lists[k]| + |v|
    decreases |keys|
  {
    if |keys| > 0 {
      var p := keys[..|keys| - 1];
      assert Distinct(p);
      DegreeSumUpdate(p, lists, k, v);
      assert k in keys <==> k in p || k == keys[|keys| - 1];
      assert k == keys[|keys| - 1] ==> k !in p;
    }
  }

  lemma AppendDegree(g: Adjacency, x: Atom, y: Atom)
    requires WellFormed(g)
    ensures WellFormed(Append(g, x, y)) && Degree(Append(g, x, y)) == Degree(g) + 1
  {
    var r := Append(g, x, y);
    AppendWellFormed(g, x, y);
    DegreeSumUpdate(g.keys, g.lists, x, ListOf(g, x) + [y]);
    if x !in g.lists {
      assert r.keys[..|r.keys| - 1] == g.keys;
    }
  }

  /** Each `add_edge` adds exactly two list entries, one per endpoint (two
      to the same list for a self-loop). */
  lemma ConnectDegree(g: Adjacency, a: Atom, b: Atom)
    requires WellFormed(g)
    ensures WellFormed(Connect(g, a, b)) && Degree(Connect(g, a, b)) == Degree(g) + 2
  {
    AppendDegree(g, a, b);
    AppendDegree(Append(g, a, b), b, a);
  }

  // ---------------------------------------------------------------------
  // Connected components
  // ---------------------------------------------------------------------

  /** Every neighbour of `x` lies in `s`. */
  predicate NeighboursIn(g: Adjacency, x: Atom, s: set<Atom>) {
    forall y :: y in ListOf(g, x) ==> y in s
  }

  /** A set closed under taking neighbours. */
  predicate ClosedSet(g: Adjacency, s: set<Atom>) {
    forall x :: x in s ==> NeighboursIn(g, x, s)
  }

  /** The atom at `k` is a neighbour of an atom before it. */
  predicate EarlierNeighbour(g: Adjacency, s: seq<Atom>, k: nat)
    requires k < |s|
  {
    exists j :: 0 <= j < k && s[k] in ListOf(g, s[j])
  }

  /** Each atom after the first is a neighbour of an earlier one: the
      order in which a depth-first search discovers atoms. */
  predicate Linked(g: Adjacency, s: seq<Atom>) {
    forall k :: 0 < k < |s| ==> EarlierNeighbour(g, s, k)
  }

  /** A list whose members have all their neighbours in the same list and
      are discovered one from another. */
  predicate Component(g: Adjacency, s: seq<Atom>) {
    |s| > 0 && Distinct(s) && Linked(g, s) && forall x :: x in s ==> NeighboursIn(g, x, Elems(s))
  }

  /** A walk along the adjacency lists. */
  predicate IsPath(g: Adjacency, p: seq<Atom>) {
    |p| > 0 && forall i :: 0 <= i < |p| - 1 ==> p[i + 1] in ListOf(g, p[i])
  }

  /** `y` can be reached from `x` along the edges. */
  ghost predicate Reachable(g: Adjacency, x: Atom, y: Atom) {
    exists p :: IsPath(g, p) && p[0] == x && p[|p| - 1] == y
  }

  /** Every atom of `s` can be reached from its first one. */
  ghost predicate Connected(g: Adjacency, s: seq<Atom>) {
    |s| > 0 && forall x :: x in s ==> Reachable(g, s[0], x)
  }

  /** A walk extended by one more edge. */
  lemma PathSnoc(g: Adjacency, p: seq<Atom>, y: Atom)
    requires IsPath(g, p) && y in ListOf(g, p[|p| - 1])
    ensures IsPath(g, p + [y])
  {
    var q := p + [y];
    forall i | 0 <= i < |q| - 1 ensures q[i + 1] in ListOf(g, q[i]) {
      if i < |p| - 1 {
        assert q[i + 1] == p[i + 1] && q[i] == p[i];
      } else {
        assert q[i] == p[|p| - 1] && q[i + 1] == y;
      }
    }
  }

  /** Every atom of a linked list is reachable from its first atom. */
  lemma {:induction false} LinkedReachable(g: Adjacency, s: seq<Atom>, k: nat)
    requires Linked(g, s) && k < |s|
    ensures Reachable(g, s[0], s[k])
    decreases k
  {
    if k == 0 {
      assert IsPath(g, [s[0]]);
    } else {
      assert EarlierNeighbour(g, s, k);
      var j :| 0 <= j < k && s[k] in ListOf(g, s[j]);
      LinkedReachable(g, s, j);
      var p :| IsPath(g, p) && p[0] == s[0] && p[|p| - 1] == s[j];
      PathSnoc(g, p, s[k]);
      var q := p + [s[k]];
      assert q[0] == s[0] && q[|q| - 1] == s[k];
    }
  }

  /** So a linked list is connected. */
  lemma LinkedConnected(g: Adjacency, s: seq<Atom>)
    requires Linked(g, s) && |s| > 0
    ensures Connected(g, s)
  {
    forall x | x in s ensures Reachable(g, s[0], x) {
      var k :| 0 <= k < |s| && s[k] == x;
      LinkedReachable(g, s, k);
    }
  }

  /** A list found from `a` followed by one found from a neighbour of `a`
      is still linked. */
  lemma LinkedAppend(g: Adjacency, a: seq<Atom>, b: seq<Atom>)
    requires Linked(g, a) && Linked(g, b) && |a| > 0 && |b| > 0 && b[0] in ListOf(g, a[0])
    ensures Linked(g, a + b)
  {
    var s := a + b;
    forall k | 0 < k < |s| ensures EarlierNeighbour(g, s, k) {
      if k < |a| {
        assert EarlierNeighbour(g, a, k);
        var j :| 0 <= j < k && a[k] in ListOf(g, a[j]);
        assert s[j] == a[j] && s[k] == a[k];
      } else if k == |a| {
        assert s[0] == a[0] && s[k] == b[0];
      } else {
        assert EarlierNeighbour(g, b, k - |a|);
        var j :| 0 <= j < k - |a| && b[k - |a|] in ListOf(g, b[j]);
        assert s[|a| + j] == b[j] && s[k] == b[k - |a|];
      }
    }
  }

  /** An edge cannot leave a neighbour-closed set: adjacency is symmetric. */
  lemma NoEdgeIntoClosed(g: Adjacency, visited: set<Atom>, x: Atom, y: Atom)
    requires Consistent(g) && ClosedSet(g, visited)
    requires x !in visited && y in ListOf(g, x)
    ensures y !in visited
  {
    assert x in g.lists && y in g.lists;
    assert Count(g, y, x) == Count(g, x, y) > 0;
    assert x in ListOf(g, y);
    assert y in visited ==> x in visited;
  }

  lemma AppendAssoc<T>(a: seq<T>, b: seq<T>, c: seq<T>)
    ensures (a + b) + c == a + (b + c)
  {
  }

  lemma ElemsAppend<T>(a: seq<T>, b: seq<T>)
    ensures Elems(a + b) == Elems(a) + Elems(b)
  {
  }

  /** One recursive visit appends what it marks, once each, and nothing
      marked before. */
  lemma DfsStep(visited: set<Atom>, seen: set<Atom>, added: seq<Atom>, more: seq<Atom>)
    requires seen == visited + Elems(added) && Distinct(added) && Elems(added) !! visited
    requires Distinct(more) && Elems(more) !! seen
    ensures seen + Elems(more) == visited + Elems(added + more)
    ensures Distinct(added + more) && Elems(added + more) !! visited
  {
    ElemsAppend(added, more);
    DistinctAppend(added, more);
  }

  /** Every atom of `seen` outside `visited`, other than `atom`, has all
      its neighbours in `seen`. */
  ghost predicate ClosedBeyond(g: Adjacency, seen: set<Atom>, visited: set<Atom>, atom: Atom) {
    forall x :: x in seen && x !in visited && x != atom ==> NeighboursIn(g, x, seen)
  }

  /** A recursive visit from `seen` to `seen'` keeps the invariant: the
      older atoms' neighbours are still marked, the new ones are closed. */
  lemma ClosureStep(g: Adjacency, visited: set<Atom>, atom: Atom, seen: set<Atom>, seen': set<Atom>)
    requires ClosedBeyond(g, seen, visited, atom) && seen <= seen'
    requires forall x :: x in seen' && x !in seen ==> NeighboursIn(g, x, seen')
    ensures ClosedBeyond(g, seen', visited, atom)
  {
  }

  /** The first `i` atoms of `ns` are marked. */
  predicate Marked<V>(ns: seq<V>, i: nat, seen: set<V>)
    requires i <= |ns|
  {
    forall j :: 0 <= j < i ==> ns[j] in seen
  }

  lemma MarkedGrow<V>(ns: seq<V>, i: nat, seen: set<V>, seen': set<V>)
    requires i <= |ns| && Marked(ns, i, seen) && seen <= seen'
    ensures Marked(ns, i, seen')
  {
  }

  lemma MarkedNext<V>(ns: seq<V>, i: nat, seen: set<V>)
    requires i < |ns| && Marked(ns, i, seen) && ns[i] in seen
    ensures Marked(ns, i + 1, seen)
  {
  }

  /** Once every neighbour of `atom` is marked, every atom marked since
      `visited` has all its neighbours marked. */
  lemma ClosureDone(g: Adjacency, visited: set<Atom>, atom: Atom, seen: set<Atom>)
    requires ClosedBeyond(g, seen, visited, atom)
    requires Marked(ListOf(g, atom), |ListOf(g, atom)|, seen)
    ensures forall x :: x in seen && x !in visited ==> NeighboursIn(g, x, seen)
  {
    var ns := ListOf(g, atom);
    forall y | y in ns ensures y in seen {
      var j :| 0 <= j < |ns| && ns[j] == y;
    }
  }

  /** Marking one more key leaves fewer keys to visit. */
  lemma FewerUnmarked<V>(keys: set<V>, visited: set<V>, seen: set<V>, atom: V)
    requires visited <= seen && atom in seen && atom !in visited && atom in keys
    ensures |keys - seen| < |keys - visited|
  {
    var d, e := keys - seen, keys - visited;
    assert e == d + (e - d) && d * (e - d) == {};
    assert atom in e - d;
  }

  /** The nested `dfs` of `get_acyclic_subgraphs`.  It closes over the
      adjacency dictionary, which it never changes, so it receives it as a
      value.  It marks `atom`, appends it, then visits each unmarked
      neighbour in list order.  The atoms it appends after `current`
      (`added`) are exactly the atoms it marks, starting with `atom`, each
      once, and each of them has all its neighbours marked. */
  method Dfs(g: Adjacency, atom: Atom, visited: set<Atom>, current: seq<Atom>)
    returns (seen: set<Atom>, path: seq<Atom>, ghost added: seq<Atom>)
    requires NeighboursAreKeys(g)
    requires atom in g.lists && atom !in visited && visited <= g.lists.Keys
    ensures path == current + added && |added| > 0 && added[0] == atom
    ensures seen == visited + Elems(added) && seen <= g.lists.Keys
    ensures Distinct(added) && Elems(added) !! visited
    ensures forall x :: x in seen && x !in visited ==> NeighboursIn(g, x, seen)
    ensures Linked(g, added)
    decreases |g.lists.Keys - visited|
  {
    seen := visited + {atom};
    path := current + [atom];
    added := [atom];
    assert Linked(g, added);
    var neighbours := ListOf(g, atom);
    var i := 0;
    while i < |neighbours|
      invariant 0 <= i <= |neighbours|
      invariant path == current + added && |added| > 0 && added[0] == atom
      invariant seen == visited + Elems(added) && seen <= g.lists.Keys
      invariant Distinct(added) && Elems(added) !! visited
      invariant Marked(neighbours, i, seen)
      invariant ClosedBeyond(g, seen, visited, atom)
      invariant Linked(g, added)
    {
      var y := neighbours[i];
      if y !in seen {
        FewerUnmarked(g.lists.Keys, visited, seen, atom);
        ghost var marked := seen;
        ghost var more;
        seen, path, more := Dfs(g, y, seen, path);
        ClosureStep(g, visited, atom, marked, seen);
        MarkedGrow(neighbours, i, marked, seen);
        DfsStep(visited, marked, added, more);
        LinkedAppend(g, added, more);
        AppendAssoc(current, added, more);
        added := added + more;
      }
      MarkedNext(neighbours, i, seen);
      i := i + 1;
    }
    ClosureDone(g, visited, atom, seen);
  }

  /** The state of the outer loop of `get_acyclic_subgraphs` after the
      first `i` keys: the lists found so far mark exactly `visited`, once
      each; `visited` is closed under neighbours; each list is a component
      started at key `heads[k]`, in key order, with every earlier key
      already in an earlier list. */
  ghost predicate Sweep(g: Adjacency, comps: seq<seq<Atom>>, heads: seq<nat>, visited: set<Atom>, i: nat) {
    && i <= |g.keys|
    && visited == Elems(Concat(comps)) && visited <= g.lists.Keys
    && Distinct(Concat(comps))
    && ClosedSet(g, visited)
    && Marked(g.keys, i, visited)
    && (forall k :: 0 <= k < |comps| ==> Component(g, comps[k]))
    && |heads| == |comps|
    && (forall k :: 0 <= k < |comps| ==> |comps[k]| > 0 && heads[k] < i && comps[k][0] == g.keys[heads[k]])
    && (forall k, m :: 0 <= k < m < |comps| ==> heads[k] < heads[m])
    && (forall k, j :: 0 <= k < |comps| && 0 <= j < heads[k] ==> g.keys[j] in Concat(comps[..k]))
  }

  lemma SweepStart(g: Adjacency)
    ensures Sweep(g, [], [], {}, 0)
  {
    assert Concat<Atom>([]) == [];
  }

  /** A key already visited is skipped. */
  lemma SweepSkip(g: Adjacency, comps: seq<seq<Atom>>, heads: seq<nat>, visited: set<Atom>, i: nat)
    requires Sweep(g, comps, heads, visited, i) && i < |g.keys| && g.keys[i] in visited
    ensures Sweep(g, comps, heads, visited, i + 1)
  {
    MarkedNext(g.keys, i, visited);
  }

  /** The atoms one `dfs` marks form a component: their neighbours are
      all marked, and none of them lies in the closed set marked before. */
  lemma VisitIsComponent(g: Adjacency, visited: set<Atom>, seen: set<Atom>, sub: seq<Atom>)
    requires Consistent(g) && ClosedSet(g, visited)
    requires |sub| > 0 && Distinct(sub) && Elems(sub) !! visited && Linked(g, sub)
    requires seen == visited + Elems(sub)
    requires forall x :: x in seen && x !in visited ==> NeighboursIn(g, x, seen)
    ensures Component(g, sub) && ClosedSet(g, seen)
  {
    forall x, y | x in sub && y in ListOf(g, x) ensures y in Elems(sub) {
      assert x in Elems(sub);
      NoEdgeIntoClosed(g, visited, x, y);
    }
  }

  /** Appending a list started at key `i`, which holds no earlier key,
      keeps the heads in order and every earlier key in an earlier list. */
  lemma HeadsAppend(keys: seq<Atom>, comps: seq<seq<Atom>>, heads: seq<nat>, i: nat, sub: seq<Atom>)
    requires |heads| == |comps| && i <= |keys|
    requires forall k :: 0 <= k < |comps| ==> heads[k] < i
    requires forall k, m :: 0 <= k < m < |comps| ==> heads[k] < heads[m]
    requires forall k, j :: 0 <= k < |comps| && 0 <= j < heads[k] ==> keys[j] in Concat(comps[..k])
    requires forall j :: 0 <= j < i ==> keys[j] in Concat(comps)
    ensures forall k, m :: 0 <= k < m < |comps| + 1 ==> (heads + [i])[k] < (heads + [i])[m]
    ensures forall k, j :: 0 <= k < |comps| + 1 && 0 <= j < (heads + [i])[k] ==> keys[j] in Concat((comps + [sub])[..k])
  {
    var comps', heads' := comps + [sub], heads + [i];
    forall k | 0 <= k <= |comps| ensures comps'[..k] == comps[..k] {
    }
    forall k, j | 0 <= k < |comps'| && 0 <= j < heads'[k] ensures keys[j] in Concat(comps'[..k]) {
      if k == |comps| {
        assert comps'[..k] == comps;
      }
    }
  }

  /** Appending the list a `dfs` from an unvisited key returns keeps the
      loop state. */
  lemma SweepAdd(g: Adjacency, comps: seq<seq<Atom>>, heads: seq<nat>, visited: set<Atom>, i: nat,
                 seen: set<Atom>, sub: seq<Atom>)
    requires Consistent(g)
    requires Sweep(g, comps, heads, visited, i) && i < |g.keys| && g.keys[i] !in visited
    requires |sub| > 0 && sub[0] == g.keys[i]
    requires seen == visited + Elems(sub) && seen <= g.lists.Keys
    requires Distinct(sub) && Elems(sub) !! visited && Linked(g, sub)
    requires forall x :: x in seen && x !in visited ==> NeighboursIn(g, x, seen)
    ensures Sweep(g, comps + [sub], heads + [i], seen, i + 1)
  {
    VisitIsComponent(g, visited, seen, sub);
    assert Concat(comps + [sub]) == Concat(comps) + sub by {
      assert (comps + [sub])[..|comps|] == comps;
    }
    DistinctAppend(Concat(comps), sub);
    ElemsAppend(Concat(comps), sub);
    MarkedGrow(g.keys, i, visited, seen);
    MarkedNext(g.keys, i, seen);
    HeadsAppend(g.keys, comps, heads, i, sub);
  }

  /** After the last key, every key is in exactly one list. */
  lemma SweepDone(g: Adjacency, comps: seq<seq<Atom>>, heads: seq<nat>, visited: set<Atom>)
    requires WellFormed(g) && Sweep(g, comps, heads, visited, |g.keys|)
    ensures Distinct(Concat(comps)) && Elems(Concat(comps)) == g.lists.Keys
    ensures forall k :: 0 <= k < |comps| ==> Component(g, comps[k])
    ensures |heads| == |comps|
    ensures forall k :: 0 <= k < |comps| ==> |comps[k]| > 0 && heads[k] < |g.keys| && comps[k][0] == g.keys[heads[k]]
    ensures forall k, m :: 0 <= k < m < |comps| ==> heads[k] < heads[m]
    ensures forall k, j :: 0 <= k < |comps| && 0 <= j < heads[k] ==> g.keys[j] in Concat(comps[..k])
  {
    forall a | a in g.lists ensures a in visited {
      var j :| 0 <= j < |g.keys| && g.keys[j] == a;
    }
  }

  class Graph {
    var keys: seq<Atom>
    var lists: map<Atom, seq<Atom>>
    var cycles: seq<seq<Atom>>

    /** The adjacency dictionary as a value. */
    function Shape(): Adjacency
      reads this
    {
      Adjacency(keys, lists)
    }

    ghost predicate Valid()
      reads this
    {
      Consistent(Shape())
    }

    /** `Graph()`: no vertex, no cycle. */
    constructor ()
      ensures Valid()
      ensures keys == [] && lists == map[] && cycles == []
    {
      keys := [];
      lists := map[];
      cycles := [];
    }

    /** `add_cycle`: the cycle goes at the end; nothing else changes. */
    method AddCycle(cycle: seq<Atom>)
      modifies this
      ensures cycles == old(cycles) + [cycle]
      ensures keys == old(keys) && lists == old(lists)
    {
      cycles := cycles + [cycle];
    }

    /** `add_edge(atom1, atom2)`. */
    method AddEdge(atom1: Atom, atom2: Atom)
      requires Valid()
      modifies this
      ensures Valid()
      ensures Shape() == Connect(old(Shape()), atom1, atom2)
      ensures cycles == old(cycles)
    {
      ghost var g := Shape();
      if atom1 !in lists {
        keys := keys + [atom1];
        lists := lists[atom1 := []];
      }
      assert Shape() == WithKey(g, atom1);
      if atom2 !in lists {
        keys := keys + [atom2];
        lists := lists[atom2 := []];
      }
      assert Shape() == WithKey(WithKey(g, atom1), atom2);
      lists := lists[atom1 := lists[atom1] + [atom2]];
      lists := lists[atom2 := lists[atom2] + [atom1]];
      EnsureThenAppend(g, atom1, atom2);
      ConnectConsistent(g, atom1, atom2);
    }

    /** `get_acyclic_subgraphs`: the connected components.  Every key lies
        in exactly one list, every neighbour of a member lies in the same
        list, and the lists come in key insertion order, each starting with
        the first key no earlier list holds (`heads[k]` is its position). */
    method GetAcyclicSubgraphs() returns (comps: seq<seq<Atom>>, ghost heads: seq<nat>)
      requires Valid()
      ensures Distinct(Concat(comps)) && Elems(Concat(comps)) == lists.Keys
      ensures forall k :: 0 <= k < |comps| ==> Component(Shape(), comps[k])
      ensures forall k :: 0 <= k < |comps| ==> Connected(Shape(), comps[k])
      ensures |heads| == |comps|
      ensures forall k :: 0 <= k < |comps| ==> |comps[k]| > 0 && heads[k] < |keys| && comps[k][0] == keys[heads[k]]
      ensures forall k, m :: 0 <= k < m < |comps| ==> heads[k] < heads[m]
      ensures forall k, j :: 0 <= k < |comps| && 0 <= j < heads[k] ==> keys[j] in Concat(comps[..k])
    {
      var g := Shape();
      var visited: set<Atom> := {};
      comps, heads := [], [];
      var i := 0;
      SweepStart(g);
      while i < |g.keys|
        invariant Sweep(g, comps, heads, visited, i)
      {
        var atom := g.keys[i];
        if atom !in visited {
          var seen, sub, added := Dfs(g, atom, visited, []);
          assert sub == added;
          SweepAdd(g, comps, heads, visited, i, seen, sub);
          comps := comps + [sub];
          heads := heads + [i];
          visited := seen;
        } else {
          SweepSkip(g, comps, heads, visited, i);
        }
        i := i + 1;
      }
      SweepDone(g, comps, heads, visited);
      forall k | 0 <= k < |comps| ensures Connected(g, comps[k]) {
        LinkedConnected(g, comps[k]);
      }
    }

    /** `check_valency_for_aba`: True exactly when every bracket atom of
        the graph satisfies `compute_valency()`; plain atoms are ignored and
        an empty graph passes. */
    method CheckValencyForAba() returns (ok: bool)
      requires Valid()
      ensures ok <==> forall a :: a in lists && a.bracket.Some? ==> ComputeValency(a, 0)
    {
      var comps, heads := GetAcyclicSubgraphs();
      var bracketAtoms := BracketAtomsOf(Concat(comps));
      ok := AllValent(bracketAtoms);
      if !ok {
        var j :| 0 <= j < |bracketAtoms| && !ComputeValency(bracketAtoms[j], 0);
        assert bracketAtoms[j] in Elems(Concat(comps));
      } else {
        forall a | a in lists && a.bracket.Some? ensures ComputeValency(a, 0) {
          assert a in Elems(Concat(comps));
          var j :| 0 <= j < |bracketAtoms| && bracketAtoms[j] == a;
        }
      }
    }

    /** `huckel`: True exactly when every recorded cycle satisfies
        Hückel's 4n + 2 rule; True when there is no cycle. */
    method Huckel() returns (ok: bool)
      ensures ok <==> forall i :: 0 <= i < |cycles| ==> HuckelRule(cycles[i])
    {
      var i := 0;
      while i < |cycles|
        invariant 0 <= i <= |cycles|
        invariant forall j :: 0 <= j < i ==> HuckelRule(cycles[j])
      {
        var piElectrons := PiElectrons(cycles[i]);
        if (piElectrons - 2) % 4 != 0 {
          return false;
        }
        i := i + 1;
      }
      return true;
    }
  }

  /** The bracket atoms of a list, in order (the comprehension with
      `isinstance(atom, BracketAtom)`). */
  /** The loop of `check_valency_for_aba` over its bracket atoms: False at
      the first one failing `compute_valency()`, True otherwise. */
  method AllValent(atoms: seq<Atom>) returns (ok: bool)
    requires forall j :: 0 <= j < |atoms| ==> atoms[j].bracket.Some?
    ensures ok <==> forall j :: 0 <= j < |atoms| ==> ComputeValency(atoms[j], 0)
  {
    var i := 0;
    while i < |atoms|
      invariant 0 <= i <= |atoms|
      invariant forall j :: 0 <= j < i ==> ComputeValency(atoms[j], 0)
    {
      if !ComputeValency(atoms[i], 0) {
        return false;
      }
      i := i + 1;
    }
    return true;
  }

  function BracketAtomsOf(s: seq<Atom>): (r: seq<Atom>)
    ensures forall a :: a in r <==> a in s && a.bracket.Some?
  {
    if |s| == 0 then []
    else BracketAtomsOf(s[..|s| - 1]) + (if s[|s| - 1].bracket.Some? then [s[|s| - 1]] else [])
  }

  /** The p-subshell electrons of the atoms of a cycle. */
  function PiElectrons(cycle: seq<Atom>): int {
    if |cycle| == 0 then 0
    else PiElectrons(cycle[..|cycle| - 1]) + TotalElectronsInSubshell(cycle[|cycle| - 1], "p")
  }

  /** `(pi_electrons - 2) % 4 == 0`; Python's `%` with a positive divisor
      agrees with Dafny's. */
  predicate HuckelRule(cycle: seq<Atom>) {
    (PiElectrons(cycle) - 2) % 4 == 0
  }

  /** The test is Hückel's rule: 4n + 2 pi electrons for some integer n. */
  lemma HuckelFourNPlusTwo(cycle: seq<Atom>)
    ensures HuckelRule(cycle) <==> exists n: int :: PiElectrons(cycle) == 4 * n + 2
  {
    var p := PiElectrons(cycle);
    if HuckelRule(cycle) {
      assert p == 4 * ((p - 2) / 4) + 2;
    }
    forall n: int | p == 4 * n + 2 ensures HuckelRule(cycle) {
      assert p - 2 == 4 * n;
    }
  }

  /** The `p`-subshell electron total of each atom of a cycle. */
  function PCounts(cycle: seq<Atom>): (s: seq<int>)
    ensures |s| == |cycle| && forall i :: 0 <= i < |cycle| ==> s[i] == SumLetter(cycle[i].subshells, P)
  {
    seq(|cycle|, i requires 0 <= i < |cycle| => SumLetter(cycle[i].subshells, P))
  }

  /** The pi electrons of a cycle are the electrons of its `p` subshells. */
  lemma {:induction false} PiElectronsArePSubshells(cycle: seq<Atom>)
    ensures PiElectrons(cycle) == SumSeq(PCounts(cycle))
    decreases |cycle|
  {
    if |cycle| > 0 {
      var p := cycle[..|cycle| - 1];
      PiElectronsArePSubshells(p);
      var s := PCounts(cycle);
      assert s[..|s| - 1] == PCounts(p);
      assert SubshellOf("p") == Some(P);
      assert s[..|s| - 1] + [s[|s| - 1]] == s;
      SumSeqSnoc(PCounts(p), s[|s| - 1]);
    }
  }

  // ---------------------------------------------------------------------
  // Chemistry
  // ---------------------------------------------------------------------

  /** The periodic table the `Chemistry` object loads: `pt_symbols` in
      table order, and the electron configuration of each symbol of
      `look_up_table`. */
  datatype PeriodicTable = PeriodicTable(symbols: seq<string>, configurations: map<string, string>)

  /** `number_of_electrons_per_bond`: a single, double, triple or
      quadruple bond shares 1, 2, 3 or 4 electrons, a dot none; any other
      symbol raises. */
  function NumberOfElectronsPerBond(bond: string): (r: Result<nat>)
    ensures r.Ok? <==> bond in ["=", "#", "$", "/", "\\", "-", "."]
    ensures r.Err? ==> r.error == Raised("Invalid Bond " + bond)
    ensures bond in ["/", "\\", "-"] ==> r == Ok(1)
    ensures bond == "=" ==> r == Ok(2)
    ensures bond == "#" ==> r == Ok(3)
    ensures bond == "$" ==> r == Ok(4)
    ensures bond == "." ==> r == Ok(0)
  {
    if bond == "=" then Ok(2)
    else if bond == "#" then Ok(3)
    else if bond == "$" then Ok(4)
    else if bond == "/" || bond == "\\" || bond == "-" then Ok(1)
    else if bond == "." then Ok(0)
    else Err(Raised("Invalid Bond " + bond))
  }

  /** `Chemistry.Atom`: the symbol is title-cased first, then looked up. */
  function ChemAtom(t: PeriodicTable, symbol: string, aromatic: bool): (r: Result<Atom>)
    ensures TitleCase(symbol) !in t.symbols ==> r == Err(Raised("Invalid Symbol " + TitleCase(symbol)))
    ensures TitleCase(symbol) in t.symbols && TitleCase(symbol) !in t.configurations ==> r == Err(Builtin("KeyError"))
    ensures r.Ok? ==> r.value.symbol == TitleCase(symbol) && r.value.bracket.None? && r.value.aromatic == aromatic
    ensures r.Ok? ==> r.value == MakeAtom(TitleCase(symbol), t.configurations[TitleCase(symbol)], aromatic)
  {
    var s := TitleCase(symbol);
    if s !in t.symbols then Err(Raised("Invalid Symbol " + s))
    else if s !in t.configurations then Err(Builtin("KeyError"))
    else Ok(MakeAtom(s, t.configurations[s], aromatic))
  }

  /** Writing a symbol in upper or lower case changes nothing for
      `Chemistry.Atom`: it accepts a symbol exactly when it accepts the
      title-cased one, and builds the same atom. */
  lemma ChemAtomIgnoresCase(t: PeriodicTable, symbol: string, aromatic: bool)
    ensures ChemAtom(t, symbol, aromatic) == ChemAtom(t, TitleCase(symbol), aromatic)
    ensures ChemAtom(t, symbol, aromatic).Ok? ==> TitleCase(ChemAtom(t, symbol, aromatic).value.symbol) == ChemAtom(t, symbol, aromatic).value.symbol
  {
    TitleCaseIdempotent(symbol);
  }

  /** `Chemistry.BracketAtom`: the raw symbol is looked up first; only then
      is it title-cased, and a symbol that changes is marked aromatic. */
  function ChemBracketAtom(t: PeriodicTable, symbol: string, aromatic: bool, fields: BracketFields): (r: Result<Atom>)
    ensures symbol !in t.symbols ==> r == Err(Raised("Invalid Symbol " + symbol))
    ensures symbol in t.symbols && symbol !in t.configurations ==> r == Err(Builtin("KeyError"))
    ensures r.Ok? ==> r.value.symbol == TitleCase(symbol) && r.value.bracket == Some(fields)
    ensures r.Ok? ==> r.value.aromatic == (aromatic || TitleCase(symbol) != symbol)
    ensures r.Ok? ==> r.value == MakeBracketAtom(TitleCase(symbol), t.configurations[symbol], r.value.aromatic, fields)
  {
    if symbol !in t.symbols then Err(Raised("Invalid Symbol " + symbol))
    else if symbol !in t.configurations then Err(Builtin("KeyError"))
    else
      var s := TitleCase(symbol);
      Ok(MakeBracketAtom(s, t.configurations[symbol], if s != symbol then true else aromatic, fields))
  }

  /** With a table of title-case symbols, as the periodic table is, the
      raw lookup comes first, so `Chemistry.BracketAtom` rejects every
      symbol that title-casing would change (an aromatic `c` or `n`), and
      never reaches the branch that marks the atom aromatic. */
  lemma BracketRejectsUntitled(t: PeriodicTable, symbol: string, aromatic: bool, fields: BracketFields)
    requires forall x :: x in t.symbols ==> TitleCase(x) == x
    requires TitleCase(symbol) != symbol
    ensures ChemBracketAtom(t, symbol, aromatic, fields) == Err(Raised("Invalid Symbol " + symbol))
  {
  }

  /** `validate_valency_bracket`: a bracket atom with the given charge and
      hydrogen count (absent ones are 0) must satisfy `compute_valency()`;
      the isotope, chirality and map take no part. */
  function ValidateValencyBracket(t: PeriodicTable, isotope: Option<int>, symbol: string, chiral: Option<int>,
                                 hcount: Option<int>, charge: Option<int>, molMap: Option<int>): (r: Result<bool>)
    ensures r.Err? <==> symbol !in t.symbols || symbol !in t.configurations
    ensures r.Ok? ==> var a := MakeBracketAtom(TitleCase(symbol), t.configurations[symbol], TitleCase(symbol) != symbol,
                                               BracketFields(Some(hcount.GetOr(0)), Some(charge.GetOr(0)), None, None, None));
      r.value <==> a.electronsInValency + hcount.GetOr(0) == (if a.valencyLayer == 1 then 2 else 8)
  {
    var fields := BracketFields(Some(hcount.GetOr(0)), Some(charge.GetOr(0)), None, None, None);
    var a :- ChemBracketAtom(t, symbol, false, fields);
    ComputeValencyExactly(a, 0);
    Ok(ComputeValency(a, 0))
  }

  /** `validate_aromacity`, with the molecule's graph passed in: Hückel's
      rule on every cycle, then the valency of every bracket atom. */
  method ValidateAromacity(g: Graph) returns (ok: bool)
    requires g.Valid()
    ensures ok <==> (forall i :: 0 <= i < |g.cycles| ==> HuckelRule(g.cycles[i]))
                    && (forall a :: a in g.lists && a.bracket.Some? ==> ComputeValency(a, 0))
  {
    ok := g.Huckel();
    if ok {
      ok := g.CheckValencyForAba();
    }
  }
}
