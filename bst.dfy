/** The unbalanced binary search tree of records. Insertion descends by the
    full record order with ties going right; lookup takes only a `year` and
    descends comparing `year` alone. */
module SearchTree {
  import Lex
  import opened Records

  /** A node owns its two subtrees exclusively, so a value tree describes the
      pointer graph exactly. */
  datatype Tree = Leaf | Node(left: Tree, data: Camp, right: Tree)

  ghost function Elements(t: Tree): multiset<Camp>
  {
    match t
    case Leaf => multiset{}
    case Node(l, d, r) => Elements(l) + multiset{d} + Elements(r)
  }

  /** The search-tree invariant that insertion keeps: every record in a left
      subtree is `<` its node, no record in a right subtree is `<` its node. */
  ghost predicate IsSearchTree(t: Tree)
  {
    match t
    case Leaf => true
    case Node(l, d, r) =>
      && (forall x | x in Elements(l) :: Less(x, d))
      && (forall x | x in Elements(r) :: !Less(x, d))
      && IsSearchTree(l) && IsSearchTree(r)
  }

  /** The private recursive `insert(Node*&, item)`: the empty link is replaced
      by a new leaf node; otherwise descend left when `item < data`, else right. */
  function InsertNode(t: Tree, item: Camp): (r: Tree)
    ensures Elements(r) == Elements(t) + multiset{item}
    ensures IsSearchTree(t) ==> IsSearchTree(r)
    ensures t.Node? ==> r.Node? && r.data == t.data
  {
    match t
    case Leaf => Node(Leaf, item, Leaf)
    case Node(l, d, rt) =>
      if Less(item, d) then Node(InsertNode(l, item), d, rt)
      else Node(l, d, InsertNode(rt, item))
  }

  /** The private recursive `search(node, key, result)`: returns whether a
      record with `year == key` was reached, and the value of the out-parameter
      `result` afterwards (unchanged on a miss). */
  function SearchNode(t: Tree, key: string, result: Camp): (r: (bool, Camp))
    ensures r.0 ==> r.1.year == key && r.1 in Elements(t)
    ensures !r.0 ==> r.1 == result
  {
    match t
    case Leaf => (false, result)
    case Node(l, d, rt) =>
      if d.year == key then (true, d)
      else if Lex.Less(key, d.year) then SearchNode(l, key, result)
      else SearchNode(rt, key, result)
  }

  /** The year-only walk is complete: in a search tree it finds a record
      exactly when some stored record has that year. */
  lemma {:induction false} SearchComplete(t: Tree, key: string, result: Camp)
    requires IsSearchTree(t)
    ensures SearchNode(t, key, result).0 <==> exists x :: x in Elements(t) && x.year == key
  {
    match t
    case Leaf =>
    case Node(l, d, rt) =>
      if d.year == key {
        assert d in Elements(t);
      } else if Lex.Less(key, d.year) {
        SearchComplete(l, key, result);
        forall x | x in Elements(rt)
          ensures x.year != key
        {
          YearPrimary(x, d);
        }
      } else {
        SearchComplete(rt, key, result);
        Lex.LessTotal(key, d.year);
        forall x | x in Elements(l)
          ensures x.year != key
        {
          YearPrimary(x, d);
          Lex.LessAsymmetric(key, d.year);
        }
      }
  }

  /** Builds a tree by inserting `items` in order into `t`. */
  function InsertAll(t: Tree, items: seq<Camp>): (r: Tree)
    ensures Elements(r) == Elements(t) + multiset(items)
    ensures IsSearchTree(t) ==> IsSearchTree(r)
    ensures t.Node? ==> r.Node? && r.data == t.data
    decreases |items|
  {
    if items == [] then t
    else
      assert items == [items[0]] + items[1..];
      InsertAll(InsertNode(t, items[0]), items[1..])
  }

  /** Insertion never replaces the root, so a lookup of the first inserted
      record's year returns that very record, whatever other records with the
      same year were inserted after it. */
  lemma FirstInsertedIsFound(items: seq<Camp>, result: Camp)
    requires items != []
    ensures SearchNode(InsertAll(Leaf, items), items[0].year, result) == (true, items[0])
  {
    assert InsertAll(Leaf, items) == InsertAll(Node(Leaf, items[0], Leaf), items[1..]);
  }

  /** Two records with the same year, inserted in this order: (2021, A, 1, Bob)
      and then (2021, B, 1, Amy). A lookup of "2021" returns the first of the two. */
  lemma TwoRecordsSameYear(date1: string, date2: string, result: Camp)
    ensures var bob := Camp("A", "2021", "Bob", date1, "1");
            var amy := Camp("B", "2021", "Amy", date2, "1");
            SearchNode(InsertAll(Leaf, [bob, amy]), "2021", result) == (true, bob)
  {
    FirstInsertedIsFound([Camp("A", "2021", "Bob", date1, "1"), Camp("B", "2021", "Amy", date2, "1")], result);
  }

  /** `BinarySearchTree`: the object holds the root link, which the public
      `insert` rewrites. */
  class BinarySearchTree {
    var root: Tree

    ghost predicate Valid()
      reads this
    {
      IsSearchTree(root)
    }

    ghost function Contents(): multiset<Camp>
      reads this
    {
      Elements(root)
    }

    constructor ()
      ensures Valid() && Contents() == multiset{}
    {
      root := Leaf;
    }

    /** Public `insert`: adds exactly `item` and keeps the search-tree invariant. */
    method Insert(item: Camp)
      requires Valid()
      modifies this
      ensures Valid()
      ensures Contents() == old(Contents()) + multiset{item}
      ensures root == InsertNode(old(root), item)
    {
      root := InsertNode(root, item);
    }

    /** Public `search`: `found` holds exactly when a stored record has
        `year == key`; then `out` is such a record; otherwise `out == result`. */
    method Search(key: string, result: Camp) returns (found: bool, out: Camp)
      requires Valid()
      ensures found <==> exists x :: x in Contents() && x.year == key
      ensures found ==> out.year == key && out in Contents()
      ensures !found ==> out == result
      ensures (found, out) == SearchNode(root, key, result)
    {
      SearchComplete(root, key, result);
      found, out := SearchNode(root, key, result).0, SearchNode(root, key, result).1;
    }
  }
}
