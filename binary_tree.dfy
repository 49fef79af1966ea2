/** The `BinaryTree` collection: a search tree of distinct integer keys whose
    root link and element count are updated in place by its operations. */
module BinaryTrees {
  import opened Trees
  import Views

  datatype Option<T> = None | Some(value: T)

  class BinaryTree {
    var root: Tree
    var size: int

    /** The ordering holds at every node and the count matches the keys. */
    ghost predicate Valid()
      reads this
    {
      BST(root) && size == |Elems(root)|
    }

    /** An empty tree. */
    constructor ()
      ensures Valid()
      ensures root == Leaf && size == 0
    {
      root := Leaf;
      size := 0;
    }

    /** A tree holding the given keys, added one by one in the given order;
        repeated keys are skipped. */
    constructor FromElements(elements: seq<int>)
      ensures Valid()
      ensures root == InsertAll(Leaf, elements)
      ensures Elems(root) == set x | x in elements
      ensures size == |set x | x in elements|
    {
      root := Leaf;
      size := 0;
      new;
      AddAll(elements);
    }

    /** Adds element unless an equal key is present; reports whether it did. */
    method Add(element: int) returns (added: bool)
      requires Valid()
      modifies this
      ensures Valid()
      ensures (root, added) == Insert(old(root), element)
      ensures added <==> element !in old(Elems(root))
      ensures Elems(root) == old(Elems(root)) + {element}
      ensures size == if added then old(size) + 1 else old(size)
      ensures !added ==> root == old(root)
    {
      var (t, inserted) := Insert(root, element);
      root := t;
      if inserted {
        size := size + 1;
      }
      added := inserted;
    }

    /** Adds the keys of elements that are not yet present, in order. */
    method AddAll(elements: seq<int>)
      requires Valid()
      modifies this
      ensures Valid()
      ensures root == InsertAll(old(root), elements)
      ensures Elems(root) == old(Elems(root)) + set x | x in elements
      ensures size == old(size) + |(set x | x in elements) - old(Elems(root))|
    {
      for i := 0 to |elements|
        invariant Valid()
        invariant root == InsertAll(old(root), elements[..i])
      {
        assert elements[..i + 1][..i] == elements[..i];
        var _ := Add(elements[i]);
      }
      assert elements[..|elements|] == elements;
      var before, added := old(Elems(root)), set x | x in elements;
      assert Elems(root) == before + (added - before);
      assert before * (added - before) == {};
    }

    /** Removes element if present and returns it; otherwise returns nothing
        and leaves the tree as it was. */
    method Remove(element: int) returns (removed: Option<int>)
      requires Valid()
      modifies this
      ensures Valid()
      ensures root == Delete(old(root), element).0
      ensures removed == if element in old(Elems(root)) then Some(element) else None
      ensures Elems(root) == old(Elems(root)) - {element}
      ensures size == if removed.Some? then old(size) - 1 else old(size)
      ensures removed.None? ==> root == old(root)
    {
      var (t, found) := Delete(root, element);
      if !found {
        return None;
      }
      root := t;
      size := size - 1;
      removed := Some(element);
    }

    /** The number of keys, which is the number of reachable nodes. */
    method Size() returns (n: int)
      requires Valid()
      ensures n == NodeCount(root) && n == |Elems(root)| && n >= 0
    {
      CountIsCardinality(root);
      n := size;
    }

    /** The keys in ascending order, as `[k1, k2, ...]`. */
    function ToString(): (s: string)
      reads this
      requires Valid()
      ensures Views.DecodeListing(s) == InOrder(root)
      ensures StrictlyIncreasing(Views.DecodeListing(s))
      ensures forall y :: y in Views.DecodeListing(s) <==> y in Elems(root)
    {
      Views.ListingRoundTrip(InOrder(root));
      InOrderAscending(root);
      Views.Listing(InOrder(root))
    }

    /** The indented drawing: one line per node, right subtree above, left below. */
    function AsTreeString(): (s: string)
      reads this
      ensures s == Views.Lines(Views.DepthKeys(root, 0))
      ensures Views.DecodeDrawing(s) == Views.DepthKeys(root, 0)
    {
      Views.DrawingIsLines(root, 0);
      Views.DrawingRoundTrip(root, 0);
      Views.AsTree(root, 0)
    }
  }
}
