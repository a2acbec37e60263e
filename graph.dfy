/**
 * The puzzle graph (Graph.cs): an append-only list of vertices, each carrying
 * the player's progress on it, and a fixed-size symmetric adjacency matrix.
 * The ghost set `Edges` holds exactly the pairs whose matrix cell is set.
 */
module Graphs {
  import opened Options
  import opened HashTables
  import opened Stacks
  import opened Paths

  /** Per-vertex visibility flags: 0 name, 1 country, 2..4 the three misc strings. */
  const FieldCount := 5
  /** Bucket count of each vertex's table of discovered neighbours. */
  const FoundTableSize := 7
  /** The clue log a vertex starts with. */
  const ClueHeader := "Clues about acquaintances:"

  class Vertex {
    const name: string
    const country: string
    const misc: seq<string>
    const fieldAccess: array<bool>
    /** Facts about neighbours not yet shown, popped one per clue request. */
    const clueCache: StackLL
    var clueCacheComplete: bool
    /** Every clue shown so far. */
    var clueString: string
    var status: bool
    /** Edges recorded at generation time. */
    var edgeCount: int
    /** Edges the player has confirmed. */
    var edgesFoundCount: int
    /** Neighbours the player has confirmed. */
    const edgesFoundHT: HashTable

    /** The objects of this vertex; none is shared with another vertex. */
    ghost function Repr(): set<object>
    {
      {this, fieldAccess} + Parts()
    }

    /** The containers the vertex owns. */
    ghost function Parts(): set<object>
    {
      {clueCache, edgesFoundHT, edgesFoundHT.table}
    }

    ghost predicate Valid()
      reads Parts()
    {
      && this !in Parts()
      && fieldAccess.Length == FieldCount
      && clueCache.Valid()
      && edgesFoundHT.Valid()
      && edgesFoundHT.tableSize == FoundTableSize
    }

    constructor (name: string, country: string, misc: seq<string>)
      ensures Valid() && fresh(Repr())
      ensures this.name == name && this.country == country && this.misc == misc
      ensures fieldAccess[..] == [false, false, false, false, false]
      ensures clueCache.Contents() == [] && !clueCacheComplete && clueString == ClueHeader
      ensures !status && edgeCount == 0 && edgesFoundCount == 0
      ensures edgesFoundHT.Contents == {}
    {
      this.name := name;
      this.country := country;
      this.misc := misc;
      fieldAccess := new bool[FieldCount] [false, false, false, false, false];
      clueCache := new StackLL();
      edgesFoundHT := new HashTable(FoundTableSize);
      clueCacheComplete := false;
      clueString := ClueHeader;
      status := false;
      edgeCount := 0;
      edgesFoundCount := 0;
    }

    /** This endpoint's share of confirming the edge to `other`: the clue cache
        goes stale, one more edge is found and `other` is remembered. */
    method RecordFound(other: int)
      requires Valid() && 0 <= other
      modifies this`clueCacheComplete, this`edgesFoundCount, edgesFoundHT, edgesFoundHT.table
      ensures Valid()
      ensures !clueCacheComplete && edgesFoundCount == old(edgesFoundCount) + 1
      ensures edgesFoundHT.Contents == old(edgesFoundHT.Contents) + {other}
    {
      clueCacheComplete := false;
      edgesFoundCount := edgesFoundCount + 1;
      edgesFoundHT.InsertItem(other);
    }

    /** Empties the clue cache, opens a new block in the clue log and marks the
        cache current (it is refilled right after). */
    method ClearClues()
      requires Valid()
      modifies this`clueCacheComplete, this`clueString, clueCache
      ensures Valid()
      ensures clueCache.Contents() == [] && clueCacheComplete && clueString == old(clueString) + "\n"
    {
      clueCache.DeleteStack();
      clueString := clueString + "\n";
      clueCacheComplete := true;
    }

    /** Moves the top of the clue cache, if any, to the end of the clue log. */
    method ShowNextClue()
      requires Valid()
      modifies this`clueString, clueCache
      ensures Valid()
      ensures var pool := old(clueCache.Contents());
        && clueCache.Contents() == (if pool == [] then [] else pool[1..])
        && clueString == old(clueString) + (if pool == [] then "" else "\n" + pool[0])
    {
      var empty := clueCache.IsEmpty();
      if !empty {
        var clue := clueCache.Pop();
        clueString := clueString + "\n" + clue.value;
      }
    }
  }

  /** Neighbour i of `id` whose edge the player has not confirmed yet. */
  predicate Unfound(E: set<Edge>, found: set<int>, id: int, i: int)
  {
    (id, i) in E && i !in found
  }

  /** The facts of every unconfirmed neighbour below n can be read. */
  ghost predicate FactsReadable(E: set<Edge>, found: set<int>, vs: seq<Vertex>, id: int, n: nat)
  {
    forall i :: 0 <= i < n && Unfound(E, found, id, i) ==> i < |vs| && |vs[i].misc| >= 3
  }

  /** The clue cache, top first, once neighbours 0..n-1 of `id` have been scanned:
      for each unconfirmed neighbour in increasing order its three misc strings are
      pushed and then its country. */
  ghost function CluePool(E: set<Edge>, found: set<int>, vs: seq<Vertex>, id: int, n: nat): seq<string>
    requires FactsReadable(E, found, vs, id, n)
  {
    if n == 0 then []
    else if Unfound(E, found, id, n - 1) then
      var v := vs[n - 1];
      [v.country, v.misc[2], v.misc[1], v.misc[0]] + CluePool(E, found, vs, id, n - 1)
    else
      CluePool(E, found, vs, id, n - 1)
  }

  /** The pool is empty exactly when no neighbour below n is left unconfirmed. */
  lemma {:induction false} CluePoolEmpty(E: set<Edge>, found: set<int>, vs: seq<Vertex>, id: int, n: nat)
    requires FactsReadable(E, found, vs, id, n)
    ensures CluePool(E, found, vs, id, n) == [] <==> forall i :: 0 <= i < n ==> !Unfound(E, found, id, i)
  {
    if n > 0 {
      CluePoolEmpty(E, found, vs, id, n - 1);
    }
  }

  /** The first clue dispensed is the country of the highest unconfirmed neighbour m,
      followed by its misc strings from the last to the first. */
  lemma {:induction false} CluePoolTop(E: set<Edge>, found: set<int>, vs: seq<Vertex>, id: int, n: nat, m: nat)
    requires FactsReadable(E, found, vs, id, n)
    requires m < n && Unfound(E, found, id, m)
    requires forall i :: m < i < n ==> !Unfound(E, found, id, i)
    ensures |CluePool(E, found, vs, id, n)| >= 4
    ensures CluePool(E, found, vs, id, n)[..4] == [vs[m].country, vs[m].misc[2], vs[m].misc[1], vs[m].misc[0]]
  {
    if m < n - 1 {
      CluePoolTop(E, found, vs, id, n - 1, m);
    }
  }

  /** Two vertices that share none of their objects. */
  predicate Apart(v: Vertex, w: Vertex)
  {
    && v != w && v.fieldAccess != w.fieldAccess && v.clueCache != w.clueCache
    && v.edgesFoundHT != w.edgesFoundHT && v.edgesFoundHT.table != w.edgesFoundHT.table
  }

  /** Vertex invariants depend only on the containers a vertex owns: a vertex
      whose containers are untouched stays valid. */
  twostate lemma VerticesStayValid(vs: seq<Vertex>)
    requires forall i :: 0 <= i < |vs| ==>
      || vs[i].Valid()
      || (old(vs[i].Valid()) && unchanged(vs[i].clueCache, vs[i].edgesFoundHT, vs[i].edgesFoundHT.table))
    ensures forall i :: 0 <= i < |vs| ==> vs[i].Valid()
  {
  }

  /** Pushes a neighbour's three misc strings, first to last, then its country. */
  method PushFacts(cache: StackLL, w: Vertex)
    requires cache.Valid() && |w.misc| >= 3
    modifies cache
    ensures cache.Valid()
    ensures cache.Contents() == [w.country, w.misc[2], w.misc[1], w.misc[0]] + old(cache.Contents())
  {
    for j := 0 to 3
      invariant cache.Valid()
      invariant |cache.Contents()| == j + |old(cache.Contents())|
      invariant cache.Contents()[j..] == old(cache.Contents())
      invariant forall k :: 0 <= k < j ==> cache.Contents()[k] == w.misc[j - 1 - k]
    {
      cache.Push(w.misc[j]);
    }
    cache.Push(w.country);
  }

  class Graph {
    const size: nat
    const matrix: array2<bool>
    var vertices: seq<Vertex>
    /** The pairs (i, j) whose matrix cell is set. */
    ghost var Edges: set<Edge>
    ghost var Repr: set<object>

    /** Every object of vertex v belongs to the graph. */
    ghost predicate Owns(v: Vertex)
      reads this`Repr
    {
      v in Repr && v.fieldAccess in Repr && v.clueCache in Repr && v.edgesFoundHT in Repr && v.edgesFoundHT.table in Repr
    }

    /** The graph invariant. Each part reads only what it constrains, so an
        operation that leaves a part's state alone keeps that part for free. */
    ghost predicate Valid()
      reads this, Repr
    {
      Wf() && CountsMatch()
    }

    /** Everything but the edge counters. */
    ghost predicate Wf()
      reads this, Repr
    {
      && Ownership()
      && VerticesValid()
      && MatrixMatches()
      && EdgesShape()
    }

    /** The graph owns its matrix and every vertex, and no two vertices share an object. */
    ghost predicate Ownership()
      reads this`vertices, this`Repr
    {
      && this in Repr && matrix in Repr
      && (forall i :: 0 <= i < |vertices| ==> Owns(vertices[i]))
      && (forall i, j :: 0 <= i < |vertices| && 0 <= j < |vertices| && i != j ==> Apart(vertices[i], vertices[j]))
    }

    /** Every vertex's stack and table are well formed. */
    ghost predicate VerticesValid()
      reads this`vertices
      reads set i | 0 <= i < |vertices| :: vertices[i].clueCache
      reads set i | 0 <= i < |vertices| :: vertices[i].edgesFoundHT
      reads set i | 0 <= i < |vertices| :: vertices[i].edgesFoundHT.table
    {
      forall i :: 0 <= i < |vertices| ==> vertices[i].Valid()
    }

    /** The matrix is size by size and its set cells are exactly `Edges`. */
    ghost predicate MatrixMatches()
      reads this`Edges, matrix
    {
      && matrix.Length0 == size && matrix.Length1 == size
      && (forall i, j :: 0 <= i < size && 0 <= j < size ==> (matrix[i, j] <==> (i, j) in Edges))
    }

    /** Cells are only ever set between two existing vertices, and always in pairs. */
    ghost predicate EdgesShape()
      reads this`Edges, this`vertices
    {
      EdgesWithin(Edges, if size < |vertices| then size else |vertices|)
    }

    /** Each vertex's counter is its degree in the matrix. */
    ghost predicate CountsMatch()
      reads this`vertices, this`Edges, vertices`edgeCount
    {
      forall v {:trigger Degree(Edges, v, size)} :: 0 <= v < |vertices| ==> vertices[v].edgeCount == Degree(Edges, v, size)
    }

    constructor (size: nat)
      ensures Valid() && fresh(Repr)
      ensures this.size == size && vertices == [] && Edges == {}
    {
      this.size := size;
      matrix := new bool[size, size];
      vertices := [];
      Edges := {};
      new;
      Repr := {this, matrix};
      for i := 0 to size
        invariant Repr == {this, matrix} && vertices == [] && Edges == {}
        invariant forall r, c :: 0 <= r < i && 0 <= c < size ==> !matrix[r, c]
      {
        for j := 0 to size
          invariant Repr == {this, matrix} && vertices == [] && Edges == {}
          invariant forall r, c :: 0 <= r < i && 0 <= c < size ==> !matrix[r, c]
          invariant forall c :: 0 <= c < j ==> !matrix[i, c]
        {
          matrix[i, j] := false;
        }
      }
    }

    /** Appends a vertex with no edges and nothing revealed; its index is the old count. */
    method AddVertex(name: string, country: string, misc: seq<string>)
      requires Valid()
      modifies this
      ensures Valid() && fresh(Repr - old(Repr))
      ensures |vertices| == |old(vertices)| + 1 && vertices[..|old(vertices)|] == old(vertices)
      ensures Edges == old(Edges)
      ensures var v := vertices[|old(vertices)|];
        && fresh(v.Repr())
        && v.name == name && v.country == country && v.misc == misc
        && v.fieldAccess[..] == [false, false, false, false, false]
        && v.clueCache.Contents() == [] && !v.clueCacheComplete && v.clueString == ClueHeader
        && !v.status && v.edgeCount == 0 && v.edgesFoundCount == 0 && v.edgesFoundHT.Contents == {}
    {
      var newVx := new Vertex(name, country, misc);
      Adopt(newVx);
      Push(newVx);
    }

    /** Takes ownership of a vertex's objects, all new to the graph. */
    method Adopt(v: Vertex)
      requires Valid()
      requires v !in Repr && v.fieldAccess !in Repr && v.clueCache !in Repr
      requires v.edgesFoundHT !in Repr && v.edgesFoundHT.table !in Repr
      modifies this`Repr
      ensures Valid() && Repr == old(Repr) + v.Repr() && Owns(v)
      ensures forall i :: 0 <= i < |vertices| ==> Apart(vertices[i], v)
    {
      Repr := Repr + v.Repr();
    }

    /** Appends an owned vertex with no edges that shares nothing with the others. */
    method Push(v: Vertex)
      requires Valid() && v.Valid() && v.edgeCount == 0 && Owns(v)
      requires forall i :: 0 <= i < |vertices| ==> Apart(vertices[i], v)
      modifies this`vertices
      ensures Valid() && vertices == old(vertices) + [v]
    {
      RowCountEmpty(Edges, |vertices|, size);
      vertices := vertices + [v];
    }

    /** The matrix cell, with indices outside the matrix reading as "no edge". */
    function FindEdge(a: int, b: int): (adjacent: bool)
      reads this, Repr
      requires Valid()
      ensures adjacent <==> (a, b) in Edges
    {
      0 <= a < size && 0 <= b < size && matrix[a, b]
    }

    method InsertEdge(a: int, b: int)
      requires Valid()
      requires 0 <= a < size && 0 <= b < size && a < |vertices| && b < |vertices|
      modifies this`Edges, matrix, (vertices[a] as Vertex)`edgeCount, (vertices[b] as Vertex)`edgeCount
      ensures Valid()
      ensures Edges == old(Edges) + {(a, b), (b, a)}
    {
      if !FindEdge(a, b) {
        ghost var E0 := Edges;
        SetCells(a, b);
        BumpCounts(a, b, E0);
        CountsAfterInsert(a, b, E0);
      }
    }

    /** The counter half of InsertEdge, once the cells of a new edge are set. */
    method BumpCounts(a: int, b: int, ghost E0: set<Edge>)
      requires Wf() && 0 <= a < size && 0 <= b < size && a < |vertices| && b < |vertices|
      requires (a, b) !in E0 && (b, a) !in E0 && Edges == E0 + {(a, b), (b, a)}
      requires forall v :: 0 <= v < |vertices| ==> vertices[v].edgeCount == Degree(E0, v, size)
      modifies (vertices[a] as Vertex)`edgeCount, (vertices[b] as Vertex)`edgeCount
      ensures Wf()
      ensures forall v :: 0 <= v < |vertices| ==>
        vertices[v].edgeCount == Degree(E0, v, size) + (if v == a then 1 else 0) + (if v == b then 1 else 0)
    {
      label Start:
      vertices[a].edgeCount := vertices[a].edgeCount + 1;
      vertices[b].edgeCount := vertices[b].edgeCount + 1;
      VerticesStayValid@Start(vertices);
    }

    /** Counters bumped at both ends of a new edge match the degrees again. */
    lemma CountsAfterInsert(a: int, b: int, E0: set<Edge>)
      requires 0 <= a < size && 0 <= b < size
      requires (a, b) !in E0 && (b, a) !in E0 && Edges == E0 + {(a, b), (b, a)}
      requires forall v :: 0 <= v < |vertices| ==>
        vertices[v].edgeCount == Degree(E0, v, size) + (if v == a then 1 else 0) + (if v == b then 1 else 0)
      ensures CountsMatch()
    {
      DegreesAfterInsert(E0, a, b, size);
    }

    /** The matrix half of InsertEdge. */
    method SetCells(a: int, b: int)
      requires Wf() && 0 <= a < size && 0 <= b < size && a < |vertices| && b < |vertices|
      modifies this`Edges, matrix
      ensures Wf() && Edges == old(Edges) + {(a, b), (b, a)}
    {
      InsertKeepsEdgesWithin(Edges, a, b, if size < |vertices| then size else |vertices|);
      matrix[a, b] := true;
      matrix[b, a] := true;
      Edges := Edges + {(a, b), (b, a)};
    }

    /** The id-th vertex, or null (None) past the end of the list. */
    function GetVertex(id: int): (vx: Option<Vertex>)
      reads this
      requires 0 <= id
      ensures vx.Some? <==> id < |vertices|
      ensures vx.Some? ==> vx.value == vertices[id]
    {
      if id < |vertices| then Some(vertices[id]) else None
    }

    function GetSize(): nat
    {
      size
    }

    function GetCount(): nat
      reads this
    {
      |vertices|
    }

    /** The stored counter, which is the vertex's degree in the matrix. */
    function GetVertexEdgeCount(index: int): (count: int)
      reads this, Repr
      requires Valid() && 0 <= index < |vertices|
      ensures count == Degree(Edges, index, size)
    {
      vertices[index].edgeCount
    }

    /** True when the player has not yet confirmed the edge from `a` to `b`. */
    method EdgeUnique(a: int, b: int) returns (unique: bool)
      requires 0 <= a < |vertices| && vertices[a].Valid() && 0 <= vertices[a].edgesFoundHT.HashFunction(b)
      ensures unique <==> b !in vertices[a].edgesFoundHT.Contents
    {
      var found := vertices[a].edgesFoundHT.SearchItem(b);
      unique := !found;
    }

    /** Marks the vertex complete when all its edges are confirmed; never clears the flag. */
    method SetStatus(id: int) returns (state: bool)
      requires Valid() && 0 <= id < |vertices|
      modifies (vertices[id] as Vertex)`status
      ensures Valid()
      ensures state <==> vertices[id].edgeCount == vertices[id].edgesFoundCount
      ensures vertices[id].status == (state || old(vertices[id].status))
    {
      state := false;
      if vertices[id].edgeCount == vertices[id].edgesFoundCount {
        vertices[id].status := true;
        state := true;
      }
    }

    function CheckField(id: int, field: int): bool
      reads this, Repr
      requires Valid() && 0 <= id < |vertices| && 0 <= field < FieldCount
    {
      vertices[id].fieldAccess[field]
    }

    /** Reveals one field of a vertex, or all of them for field -1. */
    method OpenField(id: int, field: int)
      requires Valid() && 0 <= id < |vertices|
      requires field == -1 || 0 <= field < FieldCount
      modifies vertices[id].fieldAccess
      ensures Valid()
      ensures forall k :: 0 <= k < FieldCount ==>
        CheckField(id, k) == (field == -1 || k == field || old(CheckField(id, k)))
    {
      var flags := vertices[id].fieldAccess;
      if field != -1 {
        flags[field] := true;
      } else {
        for i := 0 to flags.Length
          invariant forall k :: 0 <= k < i ==> flags[k]
          invariant forall k :: i <= k < flags.Length ==> flags[k] == old(flags[k])
        {
          flags[i] := true;
        }
      }
    }

    /** Records that the player has confirmed the edge between `a` and `b`. */
    method SetEdgesFound(a: int, b: int)
      requires Valid() && 0 <= a < |vertices| && 0 <= b < |vertices|
      modifies (vertices[a] as Vertex)`clueCacheComplete, (vertices[a] as Vertex)`edgesFoundCount
      modifies vertices[a].edgesFoundHT, vertices[a].edgesFoundHT.table
      modifies (vertices[b] as Vertex)`clueCacheComplete, (vertices[b] as Vertex)`edgesFoundCount
      modifies vertices[b].edgesFoundHT, vertices[b].edgesFoundHT.table
      ensures Valid()
      ensures vertices[a].edgesFoundHT.Contents == old(vertices[a].edgesFoundHT.Contents) + {b}
      ensures vertices[b].edgesFoundHT.Contents == old(vertices[b].edgesFoundHT.Contents) + {a}
      ensures a != b ==> vertices[a].edgesFoundCount == old(vertices[a].edgesFoundCount) + 1
      ensures a != b ==> vertices[b].edgesFoundCount == old(vertices[b].edgesFoundCount) + 1
      ensures a == b ==> vertices[a].edgesFoundCount == old(vertices[a].edgesFoundCount) + 2
      ensures !vertices[a].clueCacheComplete && !vertices[b].clueCacheComplete
    {
      // The source clears both flags, then bumps both counters, then fills both
      // tables; doing one endpoint at a time ends in the same state.
      RecordAt(a, b);
      RecordAt(b, a);
    }

    /** Vertex a's share of SetEdgesFound. */
    method RecordAt(a: int, b: int)
      requires Valid() && 0 <= a < |vertices| && 0 <= b
      modifies (vertices[a] as Vertex)`clueCacheComplete, (vertices[a] as Vertex)`edgesFoundCount
      modifies vertices[a].edgesFoundHT, vertices[a].edgesFoundHT.table
      ensures Valid()
      ensures vertices[a].edgesFoundHT.Contents == old(vertices[a].edgesFoundHT.Contents) + {b}
      ensures vertices[a].edgesFoundCount == old(vertices[a].edgesFoundCount) + 1
      ensures !vertices[a].clueCacheComplete
    {
      label Start:
      vertices[a].RecordFound(b);
      VerticesStayValid@Start(vertices);
    }

    function GetClue(id: int): string
      reads this, vertices`clueString
      requires 0 <= id < |vertices|
    {
      vertices[id].clueString
    }

    /** How far the clue scan goes: every index below size - 1. */
    function ScanEnd(): nat
    {
      if size == 0 then 0 else size - 1
    }

    /** The cache a rebuild of vertex id's clues would produce now. */
    ghost function Pool(id: int): seq<string>
      requires 0 <= id < |vertices|
      reads this, vertices[id].edgesFoundHT
      requires FactsReadable(Edges, vertices[id].edgesFoundHT.Contents, vertices, id, ScanEnd())
    {
      CluePool(Edges, vertices[id].edgesFoundHT.Contents, vertices, id, ScanEnd())
    }

    /** Dispenses one clue about the neighbours of `id` (mode false); mode true does nothing.
        A stale cache is rebuilt first, which also starts a new block in the clue log. */
    method NewClue(id: int, mode: bool)
      requires Valid() && 0 <= id < |vertices|
      requires !mode && !vertices[id].clueCacheComplete ==>
        && (ScanEnd() > 0 ==> id < size)
        && FactsReadable(Edges, vertices[id].edgesFoundHT.Contents, vertices, id, ScanEnd())
      modifies (vertices[id] as Vertex)`clueCacheComplete, (vertices[id] as Vertex)`clueString, vertices[id].clueCache
      ensures Valid()
      ensures mode ==> vertices[id].clueCacheComplete == old(vertices[id].clueCacheComplete)
      ensures mode ==> vertices[id].clueString == old(vertices[id].clueString)
      ensures mode ==> vertices[id].clueCache.Contents() == old(vertices[id].clueCache.Contents())
      ensures !mode ==>
        var rebuilt := !old(vertices[id].clueCacheComplete);
        var pool := if rebuilt then old(Pool(id)) else old(vertices[id].clueCache.Contents());
        && vertices[id].clueCacheComplete
        && vertices[id].clueCache.Contents() == (if pool == [] then [] else pool[1..])
        && vertices[id].clueString
           == old(vertices[id].clueString) + (if rebuilt then "\n" else "") + (if pool == [] then "" else "\n" + pool[0])
    {
      if !mode {
        if !vertices[id].clueCacheComplete {
          Rebuild(id);
        }
        ShowNext(id);
      }
    }

    /** Starts a new block in the clue log and refills the cache from scratch. */
    method Rebuild(id: int)
      requires Valid() && 0 <= id < |vertices|
      requires ScanEnd() > 0 ==> id < size
      requires FactsReadable(Edges, vertices[id].edgesFoundHT.Contents, vertices, id, ScanEnd())
      modifies (vertices[id] as Vertex)`clueCacheComplete, (vertices[id] as Vertex)`clueString, vertices[id].clueCache
      ensures Valid()
      ensures vertices[id].clueCacheComplete
      ensures vertices[id].clueString == old(vertices[id].clueString) + "\n"
      ensures vertices[id].clueCache.Contents() == old(Pool(id))
    {
      label Start:
      vertices[id].ClearClues();
      FillCache(id);
      VerticesStayValid@Start(vertices);
    }

    /** Pops the next clue, if any, onto the clue log. */
    method ShowNext(id: int)
      requires Valid() && 0 <= id < |vertices|
      modifies (vertices[id] as Vertex)`clueString, vertices[id].clueCache
      ensures Valid()
      ensures var pool := old(vertices[id].clueCache.Contents());
        && vertices[id].clueCache.Contents() == (if pool == [] then [] else pool[1..])
        && vertices[id].clueString == old(vertices[id].clueString) + (if pool == [] then "" else "\n" + pool[0])
    {
      label Start:
      vertices[id].ShowNextClue();
      VerticesStayValid@Start(vertices);
    }

    /** The scan of NewClue: for every unconfirmed neighbour below size - 1, in
        increasing order, its misc strings and then its country go on the stack. */
    method FillCache(id: int)
      requires 0 <= id < |vertices| && vertices[id].Valid() && MatrixMatches()
      requires ScanEnd() > 0 ==> id < size
      requires FactsReadable(Edges, vertices[id].edgesFoundHT.Contents, vertices, id, ScanEnd())
      requires vertices[id].clueCache.Contents() == []
      modifies vertices[id].clueCache
      ensures vertices[id].Valid()
      ensures vertices[id].clueCache.Contents() == Pool(id)
    {
      var vx := vertices[id];
      ghost var found := vx.edgesFoundHT.Contents;
      var i := 0;
      while i < size - 1
        invariant 0 <= i <= ScanEnd()
        invariant vx.Valid()
        invariant vx.clueCache.Contents() == CluePool(Edges, found, vertices, id, i)
      {
        if matrix[id, i] {
          var unique := EdgeUnique(id, i);
          if unique {
            assert Unfound(Edges, found, id, i);
            PushFacts(vx.clueCache, vertices[i]);
          }
        }
        i := i + 1;
      }
    }

    /** Whether every vertex can be reached from vertex 0. */
    method GraphConnected() returns (valid: bool)
      requires Valid() && size > 0
      ensures valid <==> ConnectedFrom(Edges, 0, size)
    {
      valid := true;
      var visited := new bool[size];
      for i := 0 to size
        invariant forall k :: 0 <= k < i ==> !visited[k]
      {
        visited[i] := false;
      }
      BFT(visited);
      for i := 0 to size
        invariant valid <==> forall k :: 0 <= k < i ==> visited[k]
      {
        if !visited[i] {
          valid := false;
        }
      }
    }

    /** The unvisited vertices. */
    ghost function Unvisited(visited: array<bool>): set<int>
      reads visited
      requires visited.Length == size
    {
      set v | 0 <= v < size && !visited[v]
    }

    /** Breadth-first traversal from vertex 0 that marks every vertex it reaches. */
    method BFT(visited: array<bool>)
      requires MatrixMatches() && EdgesShape() && size > 0 && visited.Length == size
      requires forall v :: 0 <= v < size ==> !visited[v]
      modifies visited
      ensures forall v :: 0 <= v < size ==> (visited[v] <==> Reachable(Edges, 0, v))
    {
      var queue := [0];
      visited[0] := true;
      ReachableRefl(Edges, 0);
      ghost var done: set<int> := {};
      while queue != []
        invariant forall v :: 0 <= v < size && visited[v] ==> Reachable(Edges, 0, v)
        invariant visited[0]
        invariant forall k :: 0 <= k < |queue| ==> 0 <= queue[k] < size && visited[queue[k]]
        invariant forall u :: u in done ==> 0 <= u < size && visited[u]
        invariant forall u, w :: u in done && (u, w) in Edges ==> visited[w]
        invariant forall v :: 0 <= v < size && visited[v] ==> v in done || v in queue
        decreases Unvisited(visited), |queue|
      {
        var vx := queue[0];
        queue := queue[1..];
        ghost var unvisited0, queue0 := Unvisited(visited), queue;
        for i := 0 to size
          invariant forall v :: 0 <= v < size && visited[v] ==> Reachable(Edges, 0, v)
          invariant visited[0] && visited[vx]
          invariant forall k :: 0 <= k < |queue| ==> 0 <= queue[k] < size && visited[queue[k]]
          invariant forall u, w :: u in done && (u, w) in Edges ==> visited[w]
          invariant forall u :: u in done ==> 0 <= u < size && visited[u]
          invariant forall w :: 0 <= w < i && (vx, w) in Edges ==> visited[w]
          invariant forall v :: 0 <= v < size && visited[v] ==> v in done || v in queue || v == vx
          invariant Unvisited(visited) < unvisited0 || (Unvisited(visited) == unvisited0 && queue == queue0)
        {
          if matrix[vx, i] && !visited[i] {
            ghost var before := Unvisited(visited);
            visited[i] := true;
            assert Unvisited(visited) == before - {i};
            ReachableStep(Edges, 0, vx, i);
            queue := queue + [i];
          }
        }
        done := done + {vx};
      }
      forall v | 0 <= v < size && Reachable(Edges, 0, v)
        ensures visited[v]
      {
        var S := set u | 0 <= u < size && visited[u];
        ClosedSetHoldsReachable(Edges, S, 0, v);
      }
    }
  }
}
