/**
 * The generator of Helpers.cs: `generateProfile` appends one rolled vertex per
 * call, `generateEdge` rolls the edges of one vertex per call while keeping the
 * table `connected` of vertices known to be reachable from vertex 0, and
 * `buildGraph` reads the data file and runs both. Random numbers come from
 * the injected source of UnityRandom, threaded as the count of draws so far.
 */
module Helpers {
  import opened Options
  import opened HashTables
  import opened Paths
  import opened Graphs
  import opened UnityRandom
  import opened Sections

  /** Bucket count of the generator's tables (usedNames, usedMisc, connected). */
  const HelperTableSize := 7

  /** The integers 0 .. n - 1. */
  ghost function Below(n: nat): (r: set<int>)
    ensures |r| == n
    ensures forall i :: i in r <==> 0 <= i < n
  {
    if n == 0 then {} else Below(n - 1) + {n - 1}
  }

  /** Fewer than n used values leave one of 0 .. n - 1 free. */
  lemma FreeValue(used: set<int>, n: nat) returns (u: int)
    requires |used| < n
    ensures 0 <= u < n && u !in used
  {
    var all := Below(n);
    assert used == (all * used) + (used - all);
    assert all == (all * used) + (all - used);
    assert |all - used| > 0;
    u :| u in all - used;
  }

  /** The `while (t.searchItem(x)) x = Random.Range(0, n);` loops of generateProfile:
      x is kept when it is free, and otherwise replaced by the first draw that is. */
  method RollUnused(t: HashTable, x: int, n: int, raw: Raw, d: nat) returns (y: int, d': nat)
    requires t.Valid() && t.tableSize > 0 && Fair(raw)
    requires 0 <= x < n && |t.Contents| < n
    ensures 0 <= y < n && y !in t.Contents && d' >= d
    ensures x !in t.Contents ==> y == x && d' == d
    ensures x in t.Contents ==> d' > d && y == Range(raw, d' - 1, 0, n)
    ensures forall k :: d <= k < d' - 1 ==> Range(raw, k, 0, n) in t.Contents
  {
    y, d' := x, d;
    var taken := t.SearchItem(y);
    ghost var hit: nat := d;
    if taken {
      var u := FreeValue(t.Contents, n);
      assert Hits(raw, d, u);
      hit :| d <= hit && raw(hit) == u;
    }
    while taken
      invariant 0 <= y < n && d' >= d
      invariant taken <==> y in t.Contents
      invariant taken ==> d' <= hit && Range(raw, hit, 0, n) !in t.Contents
      invariant d' == d ==> y == x
      invariant x !in t.Contents ==> d' == d
      invariant d' > d ==> y == Range(raw, d' - 1, 0, n)
      invariant forall k :: d <= k < d' - 1 ==> Range(raw, k, 0, n) in t.Contents
      decreases hit - d'
    {
      y := Range(raw, d', 0, n);
      d' := d' + 1;
      taken := t.SearchItem(y);
    }
  }

  /** A roll as above, after which the value drawn is marked as used. */
  method TakeUnused(t: HashTable, x: int, n: int, raw: Raw, d: nat) returns (y: int, d': nat)
    requires t.Valid() && t.tableSize > 0 && Fair(raw)
    requires 0 <= x < n && |t.Contents| < n
    modifies t, t.table
    ensures t.Valid() && t.Contents == old(t.Contents) + {y} && |t.Contents| == |old(t.Contents)| + 1
    ensures 0 <= y < n && y !in old(t.Contents) && d' >= d
    ensures x !in old(t.Contents) ==> y == x && d' == d
    ensures x in old(t.Contents) ==> d' > d && y == Range(raw, d' - 1, 0, n)
    ensures forall k :: d <= k < d' - 1 ==> Range(raw, k, 0, n) in old(t.Contents)
  {
    y, d' := RollUnused(t, x, n, raw, d);
    t.InsertItem(y);
  }

  /** The state of the misc loop after |picked| rounds: the picks are distinct,
      all recorded in `used`, the first is `first`, and each filled slot holds
      the misc string of its pick. */
  ghost predicate FactsSoFar(used: set<int>, slots: seq<string>, picked: seq<int>,
                             misc: seq<string>, first: int)
  {
    && |picked| <= |slots|
    && |used| == |picked|
    && (forall k :: 0 <= k < |picked| ==>
          picked[k] in used && 0 <= picked[k] < |misc| && slots[k] == misc[picked[k]])
    && (forall k, l :: 0 <= k < l < |picked| ==> picked[k] != picked[l])
    && (|picked| > 0 ==> picked[0] == first)
  }

  /** One round of the misc loop keeps FactsSoFar: a fresh index, written to
      the next slot. */
  lemma FactsStep(used: set<int>, slots: seq<string>, picked: seq<int>,
                  misc: seq<string>, first: int, y: int)
    requires FactsSoFar(used, slots, picked, misc, first)
    requires |picked| < |slots| && 0 <= y < |misc| && y !in used
    requires |picked| == 0 ==> y == first
    ensures FactsSoFar(used + {y}, slots[|picked| := misc[y]], picked + [y], misc, first)
  {
    var slots', picked' := slots[|picked| := misc[y]], picked + [y];
    forall k | 0 <= k < |picked'|
      ensures picked'[k] in used + {y} && 0 <= picked'[k] < |misc| && slots'[k] == misc[picked'[k]]
    {
      if k < |picked| { assert picked'[k] == picked[k]; }
    }
  }

  /** The misc loop of generateProfile: three misc indices, pairwise distinct, the
      first being the one drawn up front; their strings fill a new three-slot array. */
  method RollFacts(misc: seq<string>, first: int, raw: Raw, d: nat)
    returns (newMisc: array<string>, d': nat, ghost picked: seq<int>)
    requires 3 <= |misc| && 0 <= first < |misc| && Fair(raw)
    ensures fresh(newMisc) && newMisc.Length == 3 && d' >= d
    ensures |picked| == 3 && picked[0] == first
    ensures picked[0] != picked[1] && picked[0] != picked[2] && picked[1] != picked[2]
    ensures forall k :: 0 <= k < 3 ==> 0 <= picked[k] < |misc| && newMisc[k] == misc[picked[k]]
  {
    var usedMisc := new HashTable(HelperTableSize);
    newMisc := new string[3];
    var miscIndex := first;
    var miscCount := 0;
    d' := d;
    picked := [];
    while miscCount != 3
      invariant 0 <= miscCount <= 3 && |picked| == miscCount && d' >= d
      invariant usedMisc.Valid() && usedMisc.tableSize == HelperTableSize
      invariant FactsSoFar(usedMisc.Contents, newMisc[..], picked, misc, first)
      invariant 0 <= miscIndex < |misc|
      invariant miscCount == 0 ==> miscIndex == first
    {
      ghost var used, slots := usedMisc.Contents, newMisc[..];
      miscIndex, d' := TakeUnused(usedMisc, miscIndex, |misc|, raw, d');
      FactsStep(used, slots, picked, misc, first, miscIndex);
      newMisc[miscCount] := misc[miscIndex];
      assert newMisc[..] == slots[miscCount := misc[miscIndex]];
      picked := picked + [miscIndex];
      miscCount := miscCount + 1;
    }
  }

  /** How many vertices generateProfile appends when called with `count`. */
  function ProfilesAdded(size: nat, count: int): nat
  {
    if count + 1 < size then size - count else 1
  }

  /** The access flags with exactly field f open. */
  function OpenFlags(f: int): (flags: seq<bool>)
    ensures |flags| == FieldCount && forall k :: 0 <= k < FieldCount ==> (flags[k] <==> k == f)
  {
    [f == 0, f == 1, f == 2, f == 3, f == 4]
  }

  /** Exactly field f of the vertex is open. */
  ghost predicate OnlyOpen(v: Vertex, f: int)
    reads v.fieldAccess
  {
    v.fieldAccess[..] == OpenFlags(f)
  }

  /** The end of generateProfile's body: the vertex is appended and field `field` opened. */
  method AppendProfile(g: Graph, name: string, country: string, misc: seq<string>, field: int)
    requires g.Valid() && 1 <= field < 4
    modifies g
    ensures g.Valid() && g.Edges == old(g.Edges)
    ensures forall o :: o in g.Repr && o !in old(g.Repr) ==> fresh(o)
    ensures |g.vertices| == |old(g.vertices)| + 1 && g.vertices == old(g.vertices) + [g.vertices[|old(g.vertices)|]]
    ensures var v := g.vertices[|old(g.vertices)|];
      v.name == name && v.country == country && v.misc == misc && OnlyOpen(v, field)
  {
    ghost var n0 := |g.vertices|;
    g.AddVertex(name, country, misc);
    var v := g.vertices[n0];
    assert forall k :: 0 <= k < FieldCount ==> !g.CheckField(n0, k) by {
      assert v.fieldAccess[..] == [false, false, false, false, false];
      forall k | 0 <= k < FieldCount
        ensures !g.CheckField(n0, k)
      {
        assert v.fieldAccess[k] == v.fieldAccess[..][k];
      }
    }
    g.OpenField(g.GetCount() - 1, field);
    assert g.vertices[n0] == v && v.fieldAccess.Length == FieldCount;
    assert g.vertices == old(g.vertices) + [v];
    forall k | 0 <= k < FieldCount
      ensures v.fieldAccess[..][k] == OpenFlags(field)[k]
    {
      assert g.CheckField(n0, k) == v.fieldAccess[k];
    }
  }

  /** Vertex v is a profile rolled from the data: its name is names[pick], its
      country one of the countries and its three facts the distinct misc entries `fact`. */
  ghost predicate Profile(v: Vertex, names: seq<string>, countries: seq<string>, misc: seq<string>,
                          pick: int, fact: seq<int>)
  {
    && 0 <= pick < |names| && v.name == names[pick]
    && v.country in countries
    && |fact| == 3 && |v.misc| == 3
    && fact[0] != fact[1] && fact[0] != fact[2] && fact[1] != fact[2]
    && (forall m :: 0 <= m < 3 ==> 0 <= fact[m] < |misc| && v.misc[m] == misc[fact[m]])
  }

  lemma AppendAssoc<T>(a: seq<T>, b: seq<T>, c: seq<T>)
    ensures (a + b) + c == a + (b + c)
  {
  }

  /** A profile put in front of a run of profiles whose name indices it does not share. */
  lemma ProfilesCons(v: Vertex, names: seq<string>, countries: seq<string>, misc: seq<string>, pick: int, fact: seq<int>,
                     rest: seq<Vertex>, restPicks: seq<int>, restFacts: seq<seq<int>>)
    requires Profile(v, names, countries, misc, pick, fact) && Profiles(rest, names, countries, misc, restPicks, restFacts)
    requires Distinct(restPicks) && pick !in restPicks
    ensures Profiles([v] + rest, names, countries, misc, [pick] + restPicks, [fact] + restFacts)
    ensures Distinct([pick] + restPicks)
    ensures forall x :: x in [pick] + restPicks <==> x == pick || x in restPicks
  {
    assert ([v] + rest)[1..] == rest;
    assert ([pick] + restPicks)[1..] == restPicks;
    assert ([fact] + restFacts)[1..] == restFacts;
  }

  /** Each vertex of vs is the profile given by the matching entries of picks and facts. */
  ghost predicate Profiles(vs: seq<Vertex>, names: seq<string>, countries: seq<string>, misc: seq<string>,
                           picks: seq<int>, facts: seq<seq<int>>)
    decreases |vs|
  {
    && |picks| == |facts| == |vs|
    && (|vs| > 0 ==>
         && Profile(vs[0], names, countries, misc, picks[0], facts[0])
         && Profiles(vs[1..], names, countries, misc, picks[1..], facts[1..]))
  }

  /** The k-th vertex of a run of profiles. */
  lemma {:induction false} ProfileAt(vs: seq<Vertex>, names: seq<string>, countries: seq<string>, misc: seq<string>,
                                     picks: seq<int>, facts: seq<seq<int>>, k: int)
    requires Profiles(vs, names, countries, misc, picks, facts) && 0 <= k < |vs|
    ensures Profile(vs[k], names, countries, misc, picks[k], facts[k])
    decreases |vs|
  {
    if k > 0 {
      ProfileAt(vs[1..], names, countries, misc, picks[1..], facts[1..], k - 1);
    }
  }

  /** No value occurs twice in s. */
  ghost predicate Distinct(s: seq<int>)
    decreases |s|
  {
    |s| > 0 ==> s[0] !in s[1..] && Distinct(s[1..])
  }

  /** Entries at different places of a distinct sequence differ. */
  lemma {:induction false} DistinctAt(s: seq<int>, k: int, l: int)
    requires Distinct(s) && 0 <= k < l < |s|
    ensures s[k] != s[l]
    decreases |s|
  {
    if k == 0 {
      assert s[l] == s[1..][l - 1];
    } else {
      DistinctAt(s[1..], k - 1, l - 1);
    }
  }

  /** One pass of generateProfile's body: a name index not yet in `used`, three
      distinct misc indices, a country and an open field 1..3 are rolled, the name
      is marked as used and the vertex appended. */
  method NewProfile(g: Graph, used: HashTable, names: seq<string>, countries: seq<string>,
                    misc: seq<string>, raw: Raw, d: nat)
    returns (d': nat, ghost v: Vertex, ghost pick: int, ghost fact: seq<int>, ghost field: int)
    requires g.Valid() && Fair(raw) && 0 < |countries| && 3 <= |misc|
    requires used.Valid() && used.tableSize > 0 && used !in g.Repr && used.table !in g.Repr
    requires |used.Contents| < |names|
    modifies g, used, used.table
    ensures g.Valid() && g.Edges == old(g.Edges)
    ensures forall o :: o in g.Repr && o !in old(g.Repr) ==> fresh(o)
    ensures g.vertices == old(g.vertices) + [v]
    ensures Profile(v, names, countries, misc, pick, fact) && 1 <= field < 4 && OnlyOpen(v, field)
    ensures used.Valid() && pick !in old(used.Contents) && used.Contents == old(used.Contents) + {pick}
    ensures |used.Contents| == |old(used.Contents)| + 1
  {
    var miscIndex := Range(raw, d, 0, |misc|);
    var nameIndex := Range(raw, d + 1, 0, |names|);
    d' := d + 2;
    nameIndex, d' := TakeUnused(used, nameIndex, |names|, raw, d');
    var newMisc;
    newMisc, d', fact := RollFacts(misc, miscIndex, raw, d');
    var country := Range(raw, d', 0, |countries|);
    d' := d' + 1;
    var shownField := Range(raw, d', 1, 4);
    d' := d' + 1;
    AppendProfile(g, names[nameIndex], countries[country], newMisc[..], shownField);
    v, pick, field := g.vertices[|g.vertices| - 1], nameIndex, shownField;
  }

  /** generateProfile: on the first call (no table yet) it starts the table of
      used names, then appends the profiles. The ghost results record, per
      appended vertex, its name index, its misc indices and its open field. */
  method GenerateProfile(g: Graph, usedNames: HashTable?, names: seq<string>, countries: seq<string>,
                         misc: seq<string>, count: int, raw: Raw, d: nat)
    returns (d': nat, ghost added: seq<Vertex>, ghost picks: seq<int>, ghost facts: seq<seq<int>>)
    requires g.Valid() && Fair(raw) && 0 < |countries| && 3 <= |misc|
    requires usedNames != null ==>
      && usedNames.Valid() && usedNames.tableSize > 0
      && usedNames !in g.Repr && usedNames.table !in g.Repr
    requires (if usedNames == null then 0 else |usedNames.Contents|) + ProfilesAdded(g.size, count) <= |names|
    modifies g
    modifies if usedNames == null then {} else {usedNames as object, usedNames.table}
    ensures g.Valid() && g.Edges == old(g.Edges)
    ensures forall o :: o in g.Repr && o !in old(g.Repr) ==> fresh(o)
    ensures g.vertices == old(g.vertices) + added && |added| == ProfilesAdded(g.size, count)
    ensures Profiles(added, names, countries, misc, picks, facts) && Distinct(picks)
    ensures usedNames != null ==>
      usedNames.Valid() && Recorded(old(usedNames.Contents), usedNames.Contents, picks)
  {
    var used: HashTable;
    if usedNames == null {
      used := new HashTable(HelperTableSize);
    } else {
      used := usedNames;
    }
    d', added, picks, facts := ProfilesFrom(g, used, names, countries, misc, count, raw, d);
  }

  /** The table `after` holds what `before` held plus the new picks, none of
      which it held before. */
  ghost predicate Recorded(before: set<int>, after: set<int>, picks: seq<int>)
  {
    && (forall k :: 0 <= k < |picks| ==> picks[k] !in before)
    && (forall x :: x in after <==> x in before || x in picks)
  }

  /** A pick recorded first, then more picks on top of it. */
  lemma RecordedCons(before: set<int>, pick: int, mid: set<int>, after: set<int>, rest: seq<int>)
    requires pick !in before && mid == before + {pick} && Recorded(mid, after, rest)
    ensures pick !in rest && Recorded(before, after, [pick] + rest)
  {
    var picks := [pick] + rest;
    forall k | 0 <= k < |picks|
      ensures picks[k] !in before
    {
      if k > 0 { assert picks[k] == rest[k - 1]; }
    }
    forall x
      ensures x in after <==> x in before || x in picks
    {
      assert x in picks <==> x == pick || x in rest;
    }
  }

  /** The recursion of generateProfile once the table of used names exists:
      one rolled profile per call until `count` reaches the graph size. */
  method ProfilesFrom(g: Graph, used: HashTable, names: seq<string>, countries: seq<string>,
                      misc: seq<string>, count: int, raw: Raw, d: nat)
    returns (d': nat, ghost added: seq<Vertex>, ghost picks: seq<int>, ghost facts: seq<seq<int>>)
    requires g.Valid() && Fair(raw) && 0 < |countries| && 3 <= |misc|
    requires used.Valid() && used.tableSize > 0 && used !in g.Repr && used.table !in g.Repr
    requires |used.Contents| + ProfilesAdded(g.size, count) <= |names|
    modifies g, used, used.table
    decreases if count < g.size then g.size - count else 0
    ensures g.Valid() && g.Edges == old(g.Edges)
    ensures forall o :: o in g.Repr && o !in old(g.Repr) ==> fresh(o)
    ensures g.vertices == old(g.vertices) + added && |added| == ProfilesAdded(g.size, count)
    ensures Profiles(added, names, countries, misc, picks, facts) && Distinct(picks)
    ensures used.Valid() && Recorded(old(used.Contents), used.Contents, picks)
  {
    ghost var v, pick, fact, field;
    d', v, pick, fact, field := NewProfile(g, used, names, countries, misc, raw, d);
    added, picks, facts := [v], [pick], [fact];
    var next := count + 1;
    if next < g.GetSize() {
      ghost var usedMid := used.Contents;
      ghost var rest, restPicks, restFacts;
      d', rest, restPicks, restFacts := ProfilesFrom(g, used, names, countries, misc, next, raw, d');
      RecordedCons(old(used.Contents), pick, usedMid, used.Contents, restPicks);
      ProfilesCons(v, names, countries, misc, pick, fact, rest, restPicks, restFacts);
      AppendAssoc(old(g.vertices), [v], rest);
      added, picks, facts := added + rest, picks + restPicks, facts + restFacts;
    }
  }

  /** The invariant of generateEdge: every member of `connected` is reachable from
      vertex 0, and every index below k has joined it. */
  ghost predicate Joined(E: set<Edge>, connected: set<int>, k: int)
  {
    && (forall c :: c in connected ==> 0 <= c && Reachable(E, 0, c))
    && (forall j :: 0 <= j < k ==> j in connected)
  }

  /** An edge from a connected vertex `a` brings `b` in, and more edges lose nothing. */
  lemma JoinedAfterEdge(E: set<Edge>, connected: set<int>, k: int, a: int, b: int)
    requires Joined(E, connected, k) && a in connected && 0 <= b
    ensures Joined(E + {(a, b), (b, a)}, connected + {b}, k)
  {
    var E' := E + {(a, b), (b, a)};
    forall c | c in connected
      ensures Reachable(E', 0, c)
    {
      ReachableMono(E, E', 0, c);
    }
    ReachableStep(E', 0, a, b);
  }

  /** A member k of the table lets the invariant cover index k too. */
  lemma JoinedNext(E: set<Edge>, connected: set<int>, k: int)
    requires Joined(E, connected, k) && k in connected
    ensures Joined(E, connected, k + 1)
  {
  }

  /** Once every vertex has joined, the graph is connected. */
  lemma JoinedAll(E: set<Edge>, connected: set<int>, n: int)
    requires Joined(E, connected, n)
    ensures ConnectedFrom(E, 0, n)
  {
  }

  /** Edges added by the generator at vertex `index`: each joins it to another vertex. */
  ghost predicate GrownAt(E0: set<Edge>, E: set<Edge>, index: int)
  {
    && E0 <= E
    && forall i, j :: (i, j) in E && (i, j) !in E0 ==> i != j && (i == index || j == index)
  }

  /** An edge between `index` and another vertex keeps the growth at `index`. */
  lemma GrownAfterEdge(E0: set<Edge>, E: set<Edge>, index: int, i: int)
    requires GrownAt(E0, E, index) && i != index
    ensures GrownAt(E0, E + {(index, i), (i, index)}, index)
  {
  }

  /** One link of the roll loop: the edge between `index` and `i`, with `i` joining `connected`. */
  method Link(g: Graph, connected: HashTable, index: int, i: int)
    requires g.Valid() && 0 <= index < g.size <= |g.vertices| && 0 <= i < g.size && i != index
    requires connected.Valid() && connected.tableSize > 0
    requires connected !in g.Repr && connected.table !in g.Repr
    requires Joined(g.Edges, connected.Contents, index + 1)
    modifies g`Edges, g.matrix, g.vertices`edgeCount, connected, connected.table
    ensures g.Valid() && connected.Valid()
    ensures g.Edges == old(g.Edges) + {(index, i), (i, index)}
    ensures Joined(g.Edges, connected.Contents, index + 1)
    ensures Degree(old(g.Edges), index, g.size) <= Degree(g.Edges, index, g.size) <= Degree(old(g.Edges), index, g.size) + 1
  {
    ghost var E, C := g.Edges, connected.Contents;
    JoinedAfterEdge(E, C, index + 1, index, i);
    DegreeStep(E, index, i, g.size);
    connected.InsertItem(i);
    g.InsertEdge(index, i);
  }

  /** The state of generateEdge's roll loop: the edges so far, the draws taken,
      the edge counts read by the cap checks, and whether a check read four. */
  datatype RollRun = RollRun(edges: set<Edge>, draws: nat, checks: seq<int>, stop: bool)

  /** The roll loop at vertex `v`: unless a check has read four, or `v` is `index`
      itself, a draw from [v / 2, n) adds the edge between `index` and `v` when it
      answers `v`, and the check then reads the degree of `index`. */
  ghost function RollStep(r: RollRun, index: int, raw: Raw, n: nat, v: int): RollRun
  {
    if r.stop || v == index then r
    else
      var E := if Range(raw, r.draws, v / 2, n) == v then r.edges + {(index, v), (v, index)} else r.edges;
      var c := Degree(E, index, n);
      RollRun(E, r.draws + 1, r.checks + [c], c == 4)
  }

  /** The roll loop for vertex `index` from edges `E0` and draw `d`, once it has
      passed the vertices below `i`. */
  ghost function RollRunTo(E0: set<Edge>, index: int, raw: Raw, d: nat, n: nat, i: int): RollRun
    decreases i
  {
    if i <= 0 then RollRun(E0, d, [], false)
    else RollStep(RollRunTo(E0, index, raw, d, n, i - 1), index, raw, n, i - 1)
  }

  /** Once a check has read four, the loop passes the remaining vertices unchanged. */
  lemma {:induction false} RollRunStopped(E0: set<Edge>, index: int, raw: Raw, d: nat, n: nat, i: int, j: int)
    requires 0 <= i <= j && RollRunTo(E0, index, raw, d, n, i).stop
    ensures RollRunTo(E0, index, raw, d, n, j) == RollRunTo(E0, index, raw, d, n, i)
    decreases j
  {
    if j > i {
      RollRunStopped(E0, index, raw, d, n, i, j - 1);
    }
  }

  /** What the roll loop keeps: edges in range and paired, new edges only at
      `index`, one draw per check, and a trace of checks that reads the degree so
      far and stops at the first four. */
  lemma {:induction false} RollRunKeeps(E0: set<Edge>, index: int, raw: Raw, d: nat, n: nat, i: int)
    requires 0 <= index < n && 0 <= i <= n && EdgesWithin(E0, n)
    ensures var r := RollRunTo(E0, index, raw, d, n, i);
      && EdgesWithin(r.edges, n)
      && GrownAt(E0, r.edges, index)
      && r.draws == d + |r.checks|
      && (r.checks == [] ==> r.edges == E0)
      && Tracked(r.checks, Degree(E0, index, n), Degree(r.edges, index, n), r.stop)
      && |r.checks| <= (if i <= index then i else i - 1)
      && (!r.stop ==> |r.checks| == (if i <= index then i else i - 1))
    decreases i
  {
    if i > 0 {
      RollRunKeeps(E0, index, raw, d, n, i - 1);
      var r := RollRunTo(E0, index, raw, d, n, i - 1);
      var v := i - 1;
      if !r.stop && v != index {
        DegreeStep(r.edges, index, v, n);
        if Range(raw, r.draws, v / 2, n) == v {
          InsertKeepsEdgesWithin(r.edges, index, v, n);
          GrownAfterEdge(E0, r.edges, index, v);
        }
        var E := RollRunTo(E0, index, raw, d, n, i).edges;
        TrackedSnoc(r.checks, Degree(E0, index, n), Degree(r.edges, index, n), Degree(E, index, n));
      }
    }
  }

  /** The whole roll loop: its checks visit every vertex but `index` unless one
      reads four, and then it stops at the first such check; each check reads the
      degree so far, raised by at most one per roll; a vertex that started below
      four edges ends with at most four. */
  lemma RollRunEnds(E0: set<Edge>, index: int, raw: Raw, d: nat, n: nat)
    requires 0 <= index < n && EdgesWithin(E0, n)
    ensures var r := RollRunTo(E0, index, raw, d, n, n);
      && GrownAt(E0, r.edges, index)
      && |r.checks| <= n - 1
      && (|r.checks| < n - 1 ==> r.checks != [] && r.checks[|r.checks| - 1] == 4)
      && (forall k :: 0 <= k < |r.checks| - 1 ==> r.checks[k] != 4)
      && (r.checks == [] ==> r.edges == E0)
      && (r.checks != [] ==> r.checks[|r.checks| - 1] == Degree(r.edges, index, n))
      && CapTrace(r.checks, Degree(E0, index, n))
      && (Degree(E0, index, n) < 4 ==> Degree(r.edges, index, n) <= 4)
  {
    RollRunKeeps(E0, index, raw, d, n, n);
    var r := RollRunTo(E0, index, raw, d, n, n);
    if r.checks != [] && Degree(E0, index, n) < 4 {
      CapBelow(r.checks, Degree(E0, index, n), |r.checks| - 1);
    }
  }

  /** The roll loop of generateEdge: for every other vertex i a draw from
      [i / 2, size) links it when the draw is i; the loop stops at the first check
      that finds the vertex with exactly four edges. `checks` are the edge counts
      read by the checks, in order, and `stopped` tells whether one read four. */
  method RollEdges(g: Graph, connected: HashTable, index: int, raw: Raw, d: nat) returns (d': nat, ghost checks: seq<int>, ghost stopped: bool)
    requires g.Valid() && 0 <= index < g.size <= |g.vertices|
    requires connected.Valid() && connected.tableSize > 0
    requires connected !in g.Repr && connected.table !in g.Repr
    requires Joined(g.Edges, connected.Contents, index + 1)
    modifies g`Edges, g.matrix, g.vertices`edgeCount, connected, connected.table
    ensures g.Valid() && connected.Valid()
    ensures Joined(g.Edges, connected.Contents, index + 1)
    ensures RollRunTo(old(g.Edges), index, raw, d, g.size, g.size) == RollRun(g.Edges, d', checks, stopped)
  {
    d' := d;
    checks := [];
    ghost var E0, n := g.Edges, g.size;
    var i, stop := 0, false;
    while i < g.GetSize() && !stop
      invariant g.Valid() && connected.Valid()
      invariant Joined(g.Edges, connected.Contents, index + 1)
      invariant 0 <= i <= g.size == n
      invariant RollRunTo(E0, index, raw, d, n, i) == RollRun(g.Edges, d', checks, stop)
    {
      if i != index {
        var count;
        d', count := RollOne(g, connected, index, i, raw, d', E0, d, checks);
        checks, stop := checks + [count], count == 4;
      }
      i := i + 1;
    }
    if i < n {
      RollRunStopped(E0, index, raw, d, n, i, n);
    }
    stopped := stop;
  }

  /** Starting below four, a trace that reads four at no check but maybe the last
      never reads more than four. */
  lemma {:induction false} CapBelow(checks: seq<int>, start: int, k: int)
    requires CapTrace(checks, start) && start < 4
    requires forall j :: 0 <= j < |checks| - 1 ==> checks[j] != 4
    requires 0 <= k < |checks|
    ensures checks[k] <= 4
    decreases k
  {
    if k > 0 {
      CapBelow(checks, start, k - 1);
    }
  }

  /** The counts read by successive checks of the cap, from a vertex that entered
      the loop with `start` edges: each check reads at most one more than the
      one before (the first, one more than `start`), and never less. */
  ghost predicate CapTrace(checks: seq<int>, start: int)
  {
    && (checks != [] ==> start <= checks[0] <= start + 1)
    && (forall k :: 0 < k < |checks| ==> checks[k - 1] <= checks[k] <= checks[k - 1] + 1)
  }

  /** A trace whose last check, or `start` before the first, reads `cur`, and
      which reads four at its last check when `stop` and at no other. */
  ghost predicate Tracked(checks: seq<int>, start: int, cur: int, stop: bool)
  {
    && CapTrace(checks, start)
    && cur == (if checks == [] then start else checks[|checks| - 1])
    && stop == (checks != [] && cur == 4)
    && forall k :: 0 <= k < |checks| - 1 ==> checks[k] != 4
  }

  /** A trace not yet stopped, extended by a count at most one above the last. */
  lemma TrackedSnoc(checks: seq<int>, start: int, cur: int, c: int)
    requires Tracked(checks, start, cur, false) && cur <= c <= cur + 1
    ensures Tracked(checks + [c], start, c, c == 4)
  {
    var t := checks + [c];
    forall k | 0 < k < |t|
      ensures t[k - 1] <= t[k] <= t[k - 1] + 1
    {
      if k < |checks| {
        assert t[k - 1] == checks[k - 1] && t[k] == checks[k];
      }
    }
    forall k | 0 <= k < |t| - 1
      ensures t[k] != 4
    {
      assert t[k] == checks[k];
    }
  }

  /** One round of the roll loop for another vertex i: the draw from [i / 2, size),
      the link when it answers i, and the edge count the cap then reads, which
      takes the loop one step along `RollRunTo`. */
  method RollOne(g: Graph, connected: HashTable, index: int, i: int, raw: Raw, d: nat,
                 ghost E0: set<Edge>, ghost d0: nat, ghost checks: seq<int>)
    returns (d': nat, count: int)
    requires g.Valid() && 0 <= index < g.size <= |g.vertices| && 0 <= i < g.size && i != index
    requires connected.Valid() && connected.tableSize > 0
    requires connected !in g.Repr && connected.table !in g.Repr
    requires Joined(g.Edges, connected.Contents, index + 1)
    requires RollRunTo(E0, index, raw, d0, g.size, i) == RollRun(g.Edges, d, checks, false)
    modifies g`Edges, g.matrix, g.vertices`edgeCount, connected, connected.table
    ensures g.Valid() && connected.Valid()
    ensures Joined(g.Edges, connected.Contents, index + 1)
    ensures RollRunTo(E0, index, raw, d0, g.size, i + 1) == RollRun(g.Edges, d', checks + [count], count == 4)
  {
    var roll := Range(raw, d, i / 2, g.GetSize());
    d' := d + 1;
    if roll == i {
      Link(g, connected, index, i);
    }
    count := g.GetVertexEdgeCount(index);
  }

  /** Growth at one vertex composes. */
  lemma GrownTrans(E0: set<Edge>, E1: set<Edge>, E2: set<Edge>, index: int)
    requires GrownAt(E0, E1, index) && GrownAt(E1, E2, index)
    ensures GrownAt(E0, E2, index)
  {
  }

  /** The forced edge of generateEdge: vertex `index` is linked to an earlier,
      connected vertex and joins the table. */
  method Join(g: Graph, table: HashTable, index: int, target: int)
    requires g.Valid() && 0 <= target < index < g.size <= |g.vertices|
    requires table.Valid() && table.tableSize > 0
    requires table !in g.Repr && table.table !in g.Repr
    requires Joined(g.Edges, table.Contents, index)
    modifies g`Edges, g.matrix, g.vertices`edgeCount, table, table.table
    ensures g.Valid() && table.Valid()
    ensures g.Edges == old(g.Edges) + {(index, target), (target, index)}
    ensures table.Contents == old(table.Contents) + {index}
    ensures Joined(g.Edges, table.Contents, index + 1)
    ensures GrownAt(old(g.Edges), g.Edges, index)
  {
    ghost var E, C := g.Edges, table.Contents;
    JoinedAfterEdge(E, C, index, target, index);
    JoinedNext(E + {(target, index), (index, target)}, C + {index}, index);
    GrownAfterEdge(E, E, index, target);
    table.InsertItem(index);
    g.InsertEdge(index, target);
  }

  /** The first half of generateEdge: the first call starts the table with vertex 0;
      a later vertex not yet in the table gets an edge to a draw from [0, index - 1)
      and joins it. */
  method Attach(g: Graph, connected: HashTable?, index: int, raw: Raw, d: nat)
    returns (table: HashTable, d': nat)
    requires g.Valid() && 0 <= index && g.size <= |g.vertices|
    requires connected == null ==> index == 0
    requires connected != null ==>
      && 0 < index < g.size
      && connected.Valid() && connected.tableSize > 0
      && connected !in g.Repr && connected.table !in g.Repr
      && Joined(g.Edges, connected.Contents, index)
    modifies g`Edges, g.matrix, g.vertices`edgeCount
    modifies if connected == null then {} else {connected as object, connected.table}
    ensures connected != null ==> table == connected
    ensures connected == null ==> fresh(table) && fresh(table.table)
    ensures g.Valid() && table.Valid() && table.tableSize > 0
    ensures table !in g.Repr && table.table !in g.Repr
    ensures Joined(g.Edges, table.Contents, index + 1)
    ensures GrownAt(old(g.Edges), g.Edges, index)
    // The first call, and a vertex already in the table, add no edge and draw nothing.
    ensures connected == null ==> g.Edges == old(g.Edges) && d' == d && table.Contents == {index}
    ensures connected != null && index in old(connected.Contents) ==>
      g.Edges == old(g.Edges) && d' == d && table.Contents == old(connected.Contents)
    // Any other vertex gets one edge, to the next draw from [0, index - 1), which is 0 when index is 1.
    ensures connected != null && index !in old(connected.Contents) ==>
      var t := Range(raw, d, 0, index - 1);
      && d' == d + 1
      && (0 <= t < index - 1 || (index == 1 && t == 0))
      && g.Edges == old(g.Edges) + {(index, t), (t, index)}
      && table.Contents == old(connected.Contents) + {index}
  {
    var vxValid := false;
    if connected == null {
      table := new HashTable(HelperTableSize);
      table.InsertItem(index);
      vxValid := true;
      ReachableRefl(g.Edges, 0);
    } else {
      table := connected;
      vxValid := table.SearchItem(index);
    }
    d' := d;
    if !vxValid {
      var target := Range(raw, d', 0, index - 1);
      d' := d' + 1;
      Join(g, table, index, target);
    }
  }

  /** The roll loop as generateEdge relies on it: connected vertices stay
      connected and every new edge joins `index` to another vertex. */
  method RollAt(g: Graph, connected: HashTable, index: int, raw: Raw, d: nat) returns (d': nat)
    requires g.Valid() && 0 <= index < g.size <= |g.vertices|
    requires connected.Valid() && connected.tableSize > 0
    requires connected !in g.Repr && connected.table !in g.Repr
    requires Joined(g.Edges, connected.Contents, index + 1)
    modifies g`Edges, g.matrix, g.vertices`edgeCount, connected, connected.table
    ensures g.Valid() && connected.Valid()
    ensures Joined(g.Edges, connected.Contents, index + 1)
    ensures GrownAt(old(g.Edges), g.Edges, index)
  {
    ghost var checks;
    RollRunEnds(g.Edges, index, raw, d, g.size);
    ghost var stop;
    d', checks, stop := RollEdges(g, connected, index, raw, d);
  }

  /** generateEdge: makes sure vertex `index` is connected, rolls its other edges and
      recurses on the next index. */
  method GenerateEdge(g: Graph, connected: HashTable?, index: int, raw: Raw, d: nat) returns (d': nat)
    requires g.Valid() && 0 <= index && g.size <= |g.vertices|
    requires connected == null ==> index == 0
    requires connected != null ==>
      && 0 < index < g.size
      && connected.Valid() && connected.tableSize > 0
      && connected !in g.Repr && connected.table !in g.Repr
      && Joined(g.Edges, connected.Contents, index)
    modifies g`Edges, g.matrix, g.vertices`edgeCount
    modifies if connected == null then {} else {connected as object, connected.table}
    decreases g.size - index
    ensures g.Valid()
    ensures ConnectedFrom(g.Edges, 0, g.size)
    ensures old(g.Edges) <= g.Edges
    ensures forall v :: (v, v) in g.Edges ==> (v, v) in old(g.Edges)
  {
    var table;
    table, d' := Attach(g, connected, index, raw, d);
    ghost var E1 := g.Edges;
    if index < g.size {
      d' := RollAt(g, table, index, raw, d');
      GrownTrans(old(g.Edges), E1, g.Edges, index);
    }
    var next := index + 1;
    if next < g.GetSize() {
      d' := GenerateEdge(g, table, next, raw, d');
    } else {
      JoinedAll(g.Edges, table.Contents, g.size);
    }
  }

  /** What generateProfile needs from the data file for a graph of `size`
      vertices: a distinct name per vertex, a country and three misc facts. */
  ghost predicate Enough(d: Data, size: nat)
  {
    ProfilesAdded(size, 0) <= |d.names| && 0 < |d.countries| && 3 <= |d.misc|
  }

  /** buildGraph: reads the data file's sections, appends the rolled profiles to
      the empty graph and rolls its edges. A file whose sections never close is
      reported by `built == false` with the graph untouched. */
  method BuildGraph(g: Graph, file: seq<string>, raw: Raw, d: nat)
    returns (built: bool, d': nat, ghost picks: seq<int>, ghost facts: seq<seq<int>>)
    requires g.Valid() && g.vertices == [] && g.Edges == {} && Fair(raw)
    requires Parse(file, 0, NoData).Some? ==> Enough(Parse(file, 0, NoData).value, g.size)
    modifies g.Repr
    ensures g.Valid()
    ensures built <==> Parse(file, 0, NoData).Some?
    ensures !built ==> g.vertices == [] && g.Edges == {}
    ensures built ==>
      var data := Parse(file, 0, NoData).value;
      && |g.vertices| == ProfilesAdded(g.size, 0) && g.size <= |g.vertices|
      && Profiles(g.vertices, data.names, data.countries, data.misc, picks, facts) && Distinct(picks)
      && ConnectedFrom(g.Edges, 0, g.size)
      && forall v :: (v, v) !in g.Edges
  {
    var stream := new LineReader(file);
    var names := new StringList();
    var countries := new StringList();
    var misc := new StringList();
    built := ReadSections(stream, names, countries, misc);
    d' := d;
    picks, facts := [], [];
    if built {
      d', picks, facts := RollGraph(g, names.items, countries.items, misc.items, raw, d);
    }
  }

  /** The last two calls of buildGraph, on the lists read from the file. */
  method RollGraph(g: Graph, names: seq<string>, countries: seq<string>, misc: seq<string>, raw: Raw, d: nat)
    returns (d': nat, ghost picks: seq<int>, ghost facts: seq<seq<int>>)
    requires g.Valid() && g.vertices == [] && g.Edges == {} && Fair(raw)
    requires Enough(Data(names, countries, misc), g.size)
    modifies g.Repr
    ensures g.Valid()
    ensures |g.vertices| == ProfilesAdded(g.size, 0) && g.size <= |g.vertices|
    ensures Profiles(g.vertices, names, countries, misc, picks, facts) && Distinct(picks)
    ensures ConnectedFrom(g.Edges, 0, g.size)
    ensures forall v :: (v, v) !in g.Edges
  {
    ghost var added;
    d', added, picks, facts := GenerateProfile(g, null, names, countries, misc, 0, raw, d);
    assert g.vertices == added;
    d' := GenerateEdge(g, null, 0, raw, d');
  }

  /** Building the graph from a file whose sections close, then asking
      graphConnected, always answers yes: the generator never leaves a vertex
      that vertex 0 cannot reach. */
  method BuildThenCheck(g: Graph, file: seq<string>, raw: Raw, d: nat) returns (built: bool, connected: bool)
    requires g.Valid() && g.vertices == [] && g.Edges == {} && Fair(raw) && g.size > 0
    requires Parse(file, 0, NoData).Some? ==> Enough(Parse(file, 0, NoData).value, g.size)
    modifies g.Repr
    ensures built <==> Parse(file, 0, NoData).Some?
    ensures built ==> connected
  {
    var d';
    ghost var picks, facts;
    built, d', picks, facts := BuildGraph(g, file, raw, d);
    connected := false;
    if built {
      connected := g.GraphConnected();
    }
  }
}
