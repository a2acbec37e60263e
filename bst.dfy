/**
 * BST.cs: the score index behind the leaderboard. Nodes are linked objects
 * whose child links `insertHelper` reassigns on the way back up; a smaller key
 * goes left, an equal or larger key goes right. `getScore(false)` lists the
 * entries right, node, left with places 1, 2, ...; `getScore(true)` lists them
 * in preorder for the score file. Scores are C# floats that are only compared,
 * so they are integers here; the text of each output line is left out and a
 * line is the data it prints.
 */
module ScoreIndex {

  /** A score and the name it belongs to. */
  datatype Entry = Entry(key: int, name: string)

  /** The abstract value of a subtree. */
  datatype Tree = Leaf | Node(left: Tree, key: int, name: string, right: Tree)

  /** One line of getScore's output: `place] key | name` for the leaderboard,
      `key,name` for the score file. */
  datatype Line = Ranked(place: int, key: int, name: string) | Saved(key: int, name: string)

  function Size(t: Tree): nat
  {
    match t
    case Leaf => 0
    case Node(l, _, _, r) => Size(l) + 1 + Size(r)
  }

  ghost function Keys(t: Tree): set<int>
  {
    match t
    case Leaf => {}
    case Node(l, k, _, r) => Keys(l) + {k} + Keys(r)
  }

  ghost function Entries(t: Tree): multiset<Entry>
  {
    match t
    case Leaf => multiset{}
    case Node(l, k, n, r) => Entries(l) + multiset{Entry(k, n)} + Entries(r)
  }

  /** The search-tree order insertHelper keeps: smaller keys on the left, equal
      or larger keys on the right. */
  ghost predicate Ordered(t: Tree)
  {
    match t
    case Leaf => true
    case Node(l, k, _, r) =>
      && Ordered(l) && Ordered(r)
      && (forall x :: x in Keys(l) ==> x < k)
      && (forall x :: x in Keys(r) ==> k <= x)
  }

  /** insertHelper on the abstract tree. */
  function InsertTree(t: Tree, key: int, name: string): Tree
  {
    match t
    case Leaf => Node(Leaf, key, name, Leaf)
    case Node(l, k, n, r) =>
      if k > key then Node(InsertTree(l, key, name), k, n, r)
      else Node(l, k, n, InsertTree(r, key, name))
  }

  /** `u` keeps every node of `t` where it was: same entry, same place. */
  ghost predicate Grows(t: Tree, u: Tree)
  {
    match t
    case Leaf => true
    case Node(l, k, n, r) =>
      u.Node? && u.key == k && u.name == n && Grows(l, u.left) && Grows(r, u.right)
  }

  lemma {:induction false} InsertKeys(t: Tree, key: int, name: string)
    ensures Keys(InsertTree(t, key, name)) == Keys(t) + {key}
  {
    match t
    case Leaf =>
    case Node(l, k, n, r) =>
      if k > key { InsertKeys(l, key, name); } else { InsertKeys(r, key, name); }
  }

  /** Insertion keeps the search-tree order. */
  lemma {:induction false} InsertOrdered(t: Tree, key: int, name: string)
    requires Ordered(t)
    ensures Ordered(InsertTree(t, key, name))
  {
    match t
    case Leaf =>
    case Node(l, k, n, r) =>
      if k > key {
        InsertOrdered(l, key, name);
        InsertKeys(l, key, name);
      } else {
        InsertOrdered(r, key, name);
        InsertKeys(r, key, name);
      }
  }

  /** Insertion adds exactly the new entry. */
  lemma {:induction false} InsertEntries(t: Tree, key: int, name: string)
    ensures Entries(InsertTree(t, key, name)) == Entries(t) + multiset{Entry(key, name)}
  {
    match t
    case Leaf =>
    case Node(l, k, n, r) =>
      if k > key {
        InsertEntries(l, key, name);
        AddLeft(Entries(l), multiset{Entry(k, n)}, Entries(r), multiset{Entry(key, name)});
      } else {
        InsertEntries(r, key, name);
        AddRight(Entries(l), multiset{Entry(k, n)}, Entries(r), multiset{Entry(key, name)});
      }
  }

  lemma AddLeft(a: multiset<Entry>, b: multiset<Entry>, c: multiset<Entry>, d: multiset<Entry>)
    ensures (a + d) + b + c == a + b + c + d
  {
  }

  lemma AddRight(a: multiset<Entry>, b: multiset<Entry>, c: multiset<Entry>, d: multiset<Entry>)
    ensures a + b + (c + d) == a + b + c + d
  {
  }

  /** Insertion adds exactly one node. */
  lemma {:induction false} InsertSize(t: Tree, key: int, name: string)
    ensures Size(InsertTree(t, key, name)) == Size(t) + 1
  {
    match t
    case Leaf =>
    case Node(l, k, n, r) =>
      if k > key { InsertSize(l, key, name); } else { InsertSize(r, key, name); }
  }

  /** Insertion hangs the new entry as a leaf and moves no existing node. */
  lemma {:induction false} InsertGrows(t: Tree, key: int, name: string)
    ensures Grows(t, InsertTree(t, key, name))
  {
    match t
    case Leaf =>
    case Node(l, k, n, r) =>
      if k > key {
        InsertGrows(l, key, name);
        GrowsRefl(r);
      } else {
        InsertGrows(r, key, name);
        GrowsRefl(l);
      }
  }

  lemma {:induction false} GrowsRefl(t: Tree)
    ensures Grows(t, t)
  {
    match t
    case Leaf =>
    case Node(l, _, _, r) => GrowsRefl(l); GrowsRefl(r);
  }

  /** getScoreHelper on the abstract tree: the lines appended to `result` and
      the place counter it leaves behind. */
  function Traverse(t: Tree, result: seq<Line>, place: int, mode: bool): (seq<Line>, int)
  {
    match t
    case Leaf => (result, place)
    case Node(l, k, n, r) =>
      if !mode then
        var (res, next) := Traverse(r, result, place, mode);
        Traverse(l, res + [Ranked(next, k, n)], next + 1, mode)
      else
        var (res, next) := Traverse(l, result + [Saved(k, n)], place, mode);
        Traverse(r, res, next, mode)
  }

  /** The entries from the largest key down: right subtree, node, left subtree. */
  ghost function Descending(t: Tree): seq<Entry>
  {
    match t
    case Leaf => []
    case Node(l, k, n, r) => Descending(r) + [Entry(k, n)] + Descending(l)
  }

  /** The entries in preorder: node, left subtree, right subtree. */
  ghost function Preorder(t: Tree): seq<Entry>
  {
    match t
    case Leaf => []
    case Node(l, k, n, r) => [Entry(k, n)] + Preorder(l) + Preorder(r)
  }

  /** Leaderboard lines for `s`, numbered from `place`. */
  ghost function Numbered(s: seq<Entry>, place: int): seq<Line>
    decreases |s|
  {
    if s == [] then [] else [Ranked(place, s[0].key, s[0].name)] + Numbered(s[1..], place + 1)
  }

  /** Score-file lines for `s`. */
  ghost function SavedLines(s: seq<Entry>): seq<Line>
    decreases |s|
  {
    if s == [] then [] else [Saved(s[0].key, s[0].name)] + SavedLines(s[1..])
  }

  lemma {:induction false} NumberedAppend(a: seq<Entry>, b: seq<Entry>, place: int)
    ensures Numbered(a + b, place) == Numbered(a, place) + Numbered(b, place + |a|)
    decreases |a|
  {
    if a != [] {
      assert (a + b)[1..] == a[1..] + b;
      NumberedAppend(a[1..], b, place + 1);
    } else {
      assert a + b == b;
    }
  }

  lemma {:induction false} SavedAppend(a: seq<Entry>, b: seq<Entry>)
    ensures SavedLines(a + b) == SavedLines(a) + SavedLines(b)
    decreases |a|
  {
    if a != [] {
      assert (a + b)[1..] == a[1..] + b;
      SavedAppend(a[1..], b);
    } else {
      assert a + b == b;
    }
  }

  /** The i-th leaderboard line carries place `place + i` and the i-th entry. */
  lemma {:induction false} NumberedAt(s: seq<Entry>, place: int, i: int)
    requires 0 <= i < |s|
    ensures |Numbered(s, place)| == |s|
    ensures Numbered(s, place)[i] == Ranked(place + i, s[i].key, s[i].name)
    decreases |s|
  {
    if i > 0 {
      NumberedAt(s[1..], place, i - 1);
      NumberedAt(s[1..], place + 1, i - 1);
    } else if |s| > 1 {
      NumberedAt(s[1..], place + 1, 0);
    }
  }

  /** Leaderboard mode appends the entries from the largest key down, numbered
      from `place`, and advances the counter by the number of entries. */
  lemma {:induction false} TraverseRanks(t: Tree, result: seq<Line>, place: int)
    ensures Traverse(t, result, place, false) == (result + Numbered(Descending(t), place), place + Size(t))
  {
    match t
    case Leaf =>
      assert result + [] == result;
    case Node(l, k, n, r) =>
      TraverseRanks(r, result, place);
      DescendingSize(r);
      var next := place + Size(r);
      var A, line := Numbered(Descending(r), place), Ranked(next, k, n);
      TraverseRanks(l, result + A + [line], next + 1);
      var B := Numbered(Descending(l), next + 1);
      NumberedAround(Descending(r), Entry(k, n), Descending(l), place);
      assert result + A + [line] + B == result + (A + [line] + B);
  }

  /** Numbering a run with one entry in the middle. */
  lemma NumberedAround(a: seq<Entry>, e: Entry, b: seq<Entry>, place: int)
    ensures Numbered(a + [e] + b, place)
         == Numbered(a, place) + [Ranked(place + |a|, e.key, e.name)] + Numbered(b, place + |a| + 1)
  {
    NumberedAppend(a + [e], b, place);
    NumberedAppend(a, [e], place);
    assert [e][1..] == [];
  }

  /** File mode appends the preorder entries and leaves the counter alone. */
  lemma {:induction false} TraverseSaves(t: Tree, result: seq<Line>, place: int)
    ensures Traverse(t, result, place, true) == (result + SavedLines(Preorder(t)), place)
  {
    match t
    case Leaf =>
      assert result + [] == result;
    case Node(l, k, n, r) =>
      var e := Entry(k, n);
      TraverseSaves(l, result + [Saved(k, n)], place);
      var res := result + [Saved(k, n)] + SavedLines(Preorder(l));
      assert Traverse(t, result, place, true) == Traverse(r, res, place, true);
      TraverseSaves(r, res, place);
      SavedAppend([e] + Preorder(l), Preorder(r));
      SavedAppend([e], Preorder(l));
      assert [e][1..] == [];
      assert SavedLines([e]) == [Saved(k, n)];
      assert Preorder(t) == ([e] + Preorder(l)) + Preorder(r);
      assert SavedLines(Preorder(t)) == [Saved(k, n)] + SavedLines(Preorder(l)) + SavedLines(Preorder(r));
      assert res + SavedLines(Preorder(r)) == result + SavedLines(Preorder(t));
  }

  lemma {:induction false} DescendingSize(t: Tree)
    ensures |Descending(t)| == Size(t)
  {
    match t
    case Leaf =>
    case Node(l, _, _, r) => DescendingSize(l); DescendingSize(r);
  }

  /** Every listed entry's key is a key of the tree. */
  lemma {:induction false} DescendingKeys(t: Tree)
    ensures forall i :: 0 <= i < |Descending(t)| ==> Descending(t)[i].key in Keys(t)
  {
    match t
    case Leaf =>
    case Node(l, k, n, r) =>
      DescendingKeys(l);
      DescendingKeys(r);
      var s := Descending(t);
      forall i | 0 <= i < |s|
        ensures s[i].key in Keys(t)
      {
        if i < |Descending(r)| {
          assert s[i] == Descending(r)[i];
        } else if i > |Descending(r)| {
          assert s[i] == Descending(l)[i - |Descending(r)| - 1];
        }
      }
  }

  /** The leaderboard order: on an ordered tree the keys never increase. */
  lemma {:induction false} DescendingSorted(t: Tree)
    requires Ordered(t)
    ensures forall i, j :: 0 <= i < j < |Descending(t)| ==> Descending(t)[i].key >= Descending(t)[j].key
  {
    match t
    case Leaf =>
    case Node(l, k, n, r) =>
      DescendingSorted(l);
      DescendingSorted(r);
      DescendingKeys(l);
      DescendingKeys(r);
      var s, a := Descending(t), |Descending(r)|;
      forall i, j | 0 <= i < j < |s|
        ensures s[i].key >= s[j].key
      {
        if j < a {
          assert s[i] == Descending(r)[i] && s[j] == Descending(r)[j];
        } else if i > a {
          assert s[i] == Descending(l)[i - a - 1] && s[j] == Descending(l)[j - a - 1];
        } else {
          var x := if i < a then Descending(r)[i].key else k;
          var y := if j > a then Descending(l)[j - a - 1].key else k;
          assert s[i].key == x && s[j].key == y;
        }
      }
  }

  /** The leaderboard lists every entry exactly once. */
  lemma {:induction false} DescendingEntries(t: Tree)
    ensures multiset(Descending(t)) == Entries(t)
  {
    match t
    case Leaf =>
    case Node(l, k, n, r) =>
      DescendingEntries(l);
      DescendingEntries(r);
      assert Descending(t) == Descending(r) + [Entry(k, n)] + Descending(l);
  }

  /** Inserting entries one after another, as reading the score file back does. */
  function InsertAll(t: Tree, s: seq<Entry>): Tree
    decreases |s|
  {
    if s == [] then t else InsertAll(InsertTree(t, s[0].key, s[0].name), s[1..])
  }

  lemma {:induction false} InsertAllAppend(t: Tree, a: seq<Entry>, b: seq<Entry>)
    ensures InsertAll(t, a + b) == InsertAll(InsertAll(t, a), b)
    decreases |a|
  {
    if a != [] {
      assert (a + b)[1..] == a[1..] + b;
      InsertAllAppend(InsertTree(t, a[0].key, a[0].name), a[1..], b);
    } else {
      assert a + b == b;
    }
  }

  /** Entries below a node's key all land in its left subtree. */
  lemma {:induction false} InsertAllLeft(l: Tree, k: int, n: string, r: Tree, s: seq<Entry>)
    requires forall i :: 0 <= i < |s| ==> s[i].key < k
    ensures InsertAll(Node(l, k, n, r), s) == Node(InsertAll(l, s), k, n, r)
    decreases |s|
  {
    if s != [] {
      InsertAllLeft(InsertTree(l, s[0].key, s[0].name), k, n, r, s[1..]);
    }
  }

  /** Entries at or above a node's key all land in its right subtree. */
  lemma {:induction false} InsertAllRight(l: Tree, k: int, n: string, r: Tree, s: seq<Entry>)
    requires forall i :: 0 <= i < |s| ==> k <= s[i].key
    ensures InsertAll(Node(l, k, n, r), s) == Node(l, k, n, InsertAll(r, s))
    decreases |s|
  {
    if s != [] {
      InsertAllRight(l, k, n, InsertTree(r, s[0].key, s[0].name), s[1..]);
    }
  }

  lemma {:induction false} PreorderKeys(t: Tree)
    ensures forall i :: 0 <= i < |Preorder(t)| ==> Preorder(t)[i].key in Keys(t)
  {
    match t
    case Leaf =>
    case Node(l, k, n, r) =>
      PreorderKeys(l);
      PreorderKeys(r);
      var s, a := Preorder(t), |Preorder(l)|;
      forall i | 0 <= i < |s|
        ensures s[i].key in Keys(t)
      {
        if 0 < i <= a {
          assert s[i] == Preorder(l)[i - 1];
        } else if i > a {
          assert s[i] == Preorder(r)[i - a - 1];
        }
      }
  }

  /** Why the score file is written in preorder: inserting its entries into an
      empty tree, in file order, rebuilds the very same tree. */
  lemma {:induction false} PreorderRebuilds(t: Tree)
    requires Ordered(t)
    ensures InsertAll(Leaf, Preorder(t)) == t
  {
    match t
    case Leaf =>
    case Node(l, k, n, r) =>
      PreorderRebuilds(l);
      PreorderRebuilds(r);
      PreorderKeys(l);
      PreorderKeys(r);
      var root := Node(Leaf, k, n, Leaf);
      assert Preorder(t) == [Entry(k, n)] + (Preorder(l) + Preorder(r));
      InsertAllAppend(root, Preorder(l), Preorder(r));
      InsertAllLeft(Leaf, k, n, Leaf, Preorder(l));
      InsertAllRight(l, k, n, Leaf, Preorder(r));
  }

  /** A BSTNode; its key and name are set once, its child links are reassigned. */
  class BSTNode {
    const key: int
    const name: string
    var left: BSTNode?
    var right: BSTNode?
    /** The subtree rooted here, and the nodes it is made of. */
    ghost var Subtree: Tree
    ghost var Repr: set<object>

    ghost predicate Valid()
      reads this, Repr
      decreases Repr
    {
      && this in Repr
      && (left != null ==>
            left in Repr && left.Repr <= Repr && this !in left.Repr && left.Valid())
      && (right != null ==>
            right in Repr && right.Repr <= Repr && this !in right.Repr && right.Valid())
      && (left != null && right != null ==> left.Repr !! right.Repr)
      && Subtree == Node(TreeOf(left), key, name, TreeOf(right))
    }

    constructor (key: int, name: string)
      ensures Valid() && fresh(Repr) && Repr == {this}
      ensures this.key == key && this.name == name && Subtree == Node(Leaf, key, name, Leaf)
    {
      this.key := key;
      this.name := name;
      left := null;
      right := null;
      Subtree := Node(Leaf, key, name, Leaf);
      Repr := {this};
    }
  }

  /** The abstract value of a possibly empty subtree. */
  ghost function TreeOf(n: BSTNode?): Tree
    reads n
  {
    if n == null then Leaf else n.Subtree
  }

  ghost function ReprOf(n: BSTNode?): set<object>
    reads n
  {
    if n == null then {} else n.Repr
  }

  /** insertHelper: hangs newNode below root where the order puts it and
      returns the root of the grown subtree (newNode when root is null). */
  method InsertHelper(root: BSTNode?, newNode: BSTNode) returns (r: BSTNode)
    requires newNode.Valid() && newNode.Repr == {newNode}
    requires newNode.Subtree == Node(Leaf, newNode.key, newNode.name, Leaf)
    requires root != null ==> root.Valid() && newNode !in root.Repr
    modifies ReprOf(root)
    decreases ReprOf(root), 1
    ensures r.Valid() && r == (if root == null then newNode else root)
    ensures r.Subtree == InsertTree(old(TreeOf(root)), newNode.key, newNode.name)
    ensures r.Repr == old(ReprOf(root)) + {newNode}
  {
    if root == null {
      r := newNode;
    } else if root.key > newNode.key {
      GrowLeft(root, newNode);
      r := root;
    } else {
      GrowRight(root, newNode);
      r := root;
    }
  }

  /** The left branch of insertHelper: the new node goes into the left subtree. */
  method GrowLeft(root: BSTNode, newNode: BSTNode)
    requires newNode.Valid() && newNode.Repr == {newNode}
    requires newNode.Subtree == Node(Leaf, newNode.key, newNode.name, Leaf)
    requires root.Valid() && newNode !in root.Repr && root.key > newNode.key
    modifies root.Repr
    decreases root.Repr, 0
    ensures root.Valid()
    ensures root.Subtree == InsertTree(old(root.Subtree), newNode.key, newNode.name)
    ensures root.Repr == old(root.Repr) + {newNode}
  {
    var child := InsertHelper(root.left, newNode);
    root.left := child;
    root.Repr := root.Repr + {newNode};
    root.Subtree := Node(TreeOf(root.left), root.key, root.name, TreeOf(root.right));
  }

  /** The right branch of insertHelper: the new node goes into the right subtree. */
  method GrowRight(root: BSTNode, newNode: BSTNode)
    requires newNode.Valid() && newNode.Repr == {newNode}
    requires newNode.Subtree == Node(Leaf, newNode.key, newNode.name, Leaf)
    requires root.Valid() && newNode !in root.Repr && root.key <= newNode.key
    modifies root.Repr
    decreases root.Repr, 0
    ensures root.Valid()
    ensures root.Subtree == InsertTree(old(root.Subtree), newNode.key, newNode.name)
    ensures root.Repr == old(root.Repr) + {newNode}
  {
    var child := InsertHelper(root.right, newNode);
    root.right := child;
    root.Repr := root.Repr + {newNode};
    root.Subtree := Node(TreeOf(root.left), root.key, root.name, TreeOf(root.right));
  }

  /** getScoreHelper: walks the nodes, appending one line per node to `result`
      and threading the place counter. */
  function ScoreHelper(root: BSTNode?, result: seq<Line>, place: int, mode: bool): (out: (seq<Line>, int))
    requires root != null ==> root.Valid()
    reads if root == null then {} else {root} + root.Repr
    decreases ReprOf(root)
    ensures out == Traverse(TreeOf(root), result, place, mode)
  {
    if root == null then (result, place)
    else if !mode then
      var (res, next) := ScoreHelper(root.right, result, place, mode);
      ScoreHelper(root.left, res + [Ranked(next, root.key, root.name)], next + 1, mode)
    else
      var (res, next) := ScoreHelper(root.left, result + [Saved(root.key, root.name)], place, mode);
      ScoreHelper(root.right, res, next, mode)
  }

  /** The BST: a root link, the entries as an abstract tree, always ordered. */
  class BST {
    var root: BSTNode?
    ghost var Scores: Tree
    ghost var Repr: set<object>

    ghost predicate Valid()
      reads this, Repr
    {
      && this in Repr
      && (root == null ==> Scores == Leaf)
      && (root != null ==>
            root in Repr && root.Repr <= Repr && this !in root.Repr && root.Valid() && Scores == root.Subtree)
      && Ordered(Scores)
    }

    constructor ()
      ensures Valid() && fresh(Repr) && Scores == Leaf
    {
      root := null;
      Scores := Leaf;
      Repr := {this};
    }

    /** deleteTree: drops every node. */
    method DeleteTree()
      requires Valid()
      modifies this
      ensures Valid() && Scores == Leaf && Repr == {this}
    {
      root := null;
      Scores := Leaf;
      Repr := {this};
    }

    /** insert: one more entry, hung as a new leaf; the tree stays ordered. */
    method Insert(key: int, name: string)
      requires Valid()
      modifies Repr
      ensures Valid() && fresh(Repr - old(Repr))
      ensures Scores == InsertTree(old(Scores), key, name)
    {
      var node := new BSTNode(key, name);
      root := InsertHelper(root, node);
      InsertOrdered(Scores, key, name);
      Scores := root.Subtree;
      Repr := Repr + {node};
    }

    /** getScore: the leaderboard lines (mode false) or the score-file lines
        (mode true), places counted from 1. */
    function GetScore(mode: bool): (lines: seq<Line>)
      requires Valid()
      reads Repr
      ensures !mode ==> lines == Numbered(Descending(Scores), 1)
      ensures mode ==> lines == SavedLines(Preorder(Scores))
    {
      TraverseRanks(Scores, [], 1);
      TraverseSaves(Scores, [], 1);
      ScoreHelper(root, [], 1, mode).0
    }
  }

  /** What the leaderboard shows: places 1 .. n in order, keys from the
      highest down, each entry of the tree once. */
  lemma Leaderboard(t: Tree)
    requires Ordered(t)
    ensures var lines := Numbered(Descending(t), 1);
      && |lines| == Size(t)
      && (forall i :: 0 <= i < |lines| ==> lines[i].Ranked? && lines[i].place == i + 1)
      && (forall i, j :: 0 <= i < j < |lines| ==> lines[i].key >= lines[j].key)
  {
    var s := Descending(t);
    DescendingSize(t);
    DescendingSorted(t);
    var lines := Numbered(s, 1);
    if s != [] { NumberedAt(s, 1, 0); }
    forall i | 0 <= i < |lines|
      ensures lines[i] == Ranked(i + 1, s[i].key, s[i].name)
    {
      NumberedAt(s, 1, i);
    }
  }

  /** deleteTree then getScore gives nothing, in either mode. */
  method ScoresAfterDelete(index: BST, mode: bool) returns (lines: seq<Line>)
    requires index.Valid()
    modifies index
    ensures lines == []
  {
    index.DeleteTree();
    lines := index.GetScore(mode);
  }
}
