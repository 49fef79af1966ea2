/** Concrete trees built by the model, with the views they produce. */
module Scenarios {
  import opened Trees
  import opened Decimal
  import opened Views

  /** The tree obtained by adding 3, 1, 2, 5, 6, 4, 0 in that order. */
  const SAMPLE: Tree :=
    Node(3,
      Node(1, Node(0, Leaf, Leaf), Node(2, Leaf, Leaf)),
      Node(5, Node(4, Leaf, Leaf), Node(6, Leaf, Leaf)))

  /** An empty tree lists as `[]` and draws as nothing. */
  lemma EmptyViews()
    ensures Listing(InOrder(Leaf)) == "[]"
    ensures AsTree(Leaf, 0) == ""
  {
  }

  /** The insertion order of the sample tree. */
  const SAMPLE_ORDER: seq<int> := [3, 1, 2, 5, 6, 4, 0]

  /** Building from a sequence one key longer inserts that key into the tree
      built from the shorter sequence. */
  lemma BuildStep(xs: seq<int>, x: int)
    ensures InsertAll(Leaf, xs + [x]) == Insert(InsertAll(Leaf, xs), x).0
  {
    assert (xs + [x])[..|xs|] == xs;
  }

  /** A node with no children. */
  function Single(k: int): Tree
  {
    Node(k, Leaf, Leaf)
  }

  /** Inserting below a node descends into the side the comparison picks
      and keeps the node and its other side. */
  lemma InsertDescends(k: int, l: Tree, r: Tree, x: int)
    requires BST(Node(k, l, r)) && x != k
    ensures x < k ==> Insert(Node(k, l, r), x) == (Node(k, Insert(l, x).0, r), Insert(l, x).1)
    ensures k < x ==> Insert(Node(k, l, r), x) == (Node(k, l, Insert(r, x).0), Insert(r, x).1)
  {
  }

  /** The complete tree of height 2 over seven ascending keys. */
  function Complete(a: int, b: int, c: int, d: int, e: int, f: int, g: int): Tree
  {
    Node(d, Node(b, Single(a), Single(c)), Node(f, Single(e), Single(g)))
  }

  lemma FirstTwo(b: int, d: int)
    requires b < d
    ensures InsertAll(Leaf, [d, b]) == Node(d, Single(b), Leaf)
  {
    BuildStep([], d);
    assert [] + [d] == [d];
    BuildStep([d], b);
    assert [d] + [b] == [d, b];
  }

  lemma MiddleFirst3(b: int, c: int, d: int)
    requires b < c < d
    ensures InsertAll(Leaf, [d, b, c]) == Node(d, Node(b, Leaf, Single(c)), Leaf)
  {
    FirstTwo(b, d);
    BuildStep([d, b], c);
    assert [d, b] + [c] == [d, b, c];
    InsertDescends(d, Single(b), Leaf, c);
  }

  lemma MiddleFirst4(b: int, c: int, d: int, f: int)
    requires b < c < d < f
    ensures InsertAll(Leaf, [d, b, c, f]) == Node(d, Node(b, Leaf, Single(c)), Single(f))
  {
    MiddleFirst3(b, c, d);
    BuildStep([d, b, c], f);
    assert [d, b, c] + [f] == [d, b, c, f];
  }

  lemma MiddleFirst5(b: int, c: int, d: int, f: int, g: int)
    requires b < c < d < f < g
    ensures InsertAll(Leaf, [d, b, c, f, g]) == Node(d, Node(b, Leaf, Single(c)), Node(f, Leaf, Single(g)))
  {
    MiddleFirst4(b, c, d, f);
    BuildStep([d, b, c, f], g);
    assert [d, b, c, f] + [g] == [d, b, c, f, g];
    InsertDescends(d, Node(b, Leaf, Single(c)), Single(f), g);
  }

  lemma MiddleFirst6(b: int, c: int, d: int, e: int, f: int, g: int)
    requires b < c < d < e < f < g
    ensures InsertAll(Leaf, [d, b, c, f, g, e]) == Node(d, Node(b, Leaf, Single(c)), Node(f, Single(e), Single(g)))
  {
    MiddleFirst5(b, c, d, f, g);
    BuildStep([d, b, c, f, g], e);
    assert [d, b, c, f, g] + [e] == [d, b, c, f, g, e];
    InsertDescends(d, Node(b, Leaf, Single(c)), Node(f, Leaf, Single(g)), e);
    InsertDescends(f, Leaf, Single(g), e);
  }

  /** Adding the middle key, then the left half's middle and its right
      neighbour, then the right half's middle, its right and left keys, and
      the least key last, gives the complete tree. */
  lemma CompleteFromMiddleFirst(a: int, b: int, c: int, d: int, e: int, f: int, g: int)
    requires a < b < c < d < e < f < g
    ensures InsertAll(Leaf, [d, b, c, f, g, e, a]) == Complete(a, b, c, d, e, f, g)
  {
    MiddleFirst6(b, c, d, e, f, g);
    BuildStep([d, b, c, f, g, e], a);
    assert [d, b, c, f, g, e] + [a] == [d, b, c, f, g, e, a];
    InsertDescends(d, Node(b, Leaf, Single(c)), Node(f, Single(e), Single(g)), a);
    InsertDescends(b, Leaf, Single(c), a);
  }

  /** Adding 3, 1, 2, 5, 6, 4, 0 in that order gives the tree rooted at 3. */
  lemma SampleBuilt()
    ensures InsertAll(Leaf, SAMPLE_ORDER) == SAMPLE
  {
    CompleteFromMiddleFirst(0, 1, 2, 3, 4, 5, 6);
  }

  lemma SmallDecimals()
    ensures IntToDecimal(0) == "0" && IntToDecimal(1) == "1" && IntToDecimal(2) == "2"
    ensures IntToDecimal(3) == "3" && IntToDecimal(4) == "4" && IntToDecimal(5) == "5"
    ensures IntToDecimal(6) == "6"
  {
  }

  lemma SampleInOrder()
    ensures InOrder(SAMPLE) == [0, 1, 2, 3, 4, 5, 6]
  {
  }

  lemma JoinStep(x: int, xs: seq<int>)
    requires xs != []
    ensures Join([x] + xs) == IntToDecimal(x) + ", " + Join(xs)
  {
    JoinUnfold([x] + xs);
    assert ([x] + xs)[1..] == xs;
  }

  lemma SampleJoinTail()
    ensures Join([3, 4, 5, 6]) == "3, 4, 5, 6"
  {
    SmallDecimals();
    assert Join([5, 6]) == "5, 6" by {
      JoinStep(5, [6]);
      assert [5] + [6] == [5, 6];
    }
    assert Join([4, 5, 6]) == "4, 5, 6" by {
      JoinStep(4, [5, 6]);
      assert [4] + [5, 6] == [4, 5, 6];
    }
    JoinStep(3, [4, 5, 6]);
    assert [3] + [4, 5, 6] == [3, 4, 5, 6];
  }

  lemma SampleJoinFrom2()
    ensures Join([2, 3, 4, 5, 6]) == "2, 3, 4, 5, 6"
  {
    SampleJoinTail();
    SmallDecimals();
    JoinStep(2, [3, 4, 5, 6]);
    assert [2] + [3, 4, 5, 6] == [2, 3, 4, 5, 6];
  }

  lemma SampleJoinMiddle()
    ensures Join([1, 2, 3, 4, 5, 6]) == "1, 2, 3, 4, 5, 6"
  {
    SampleJoinFrom2();
    SmallDecimals();
    JoinStep(1, [2, 3, 4, 5, 6]);
    assert [1] + [2, 3, 4, 5, 6] == [1, 2, 3, 4, 5, 6];
  }

  lemma SampleJoin()
    ensures Join([0, 1, 2, 3, 4, 5, 6]) == "0, 1, 2, 3, 4, 5, 6"
  {
    SampleJoinMiddle();
    SmallDecimals();
    JoinStep(0, [1, 2, 3, 4, 5, 6]);
    assert [0] + [1, 2, 3, 4, 5, 6] == [0, 1, 2, 3, 4, 5, 6];
  }

  /** The sample tree lists its keys in ascending order. */
  lemma SampleListing()
    ensures Listing(InOrder(SAMPLE)) == "[0, 1, 2, 3, 4, 5, 6]"
  {
    SampleInOrder();
    SampleJoin();
  }

  /** A one-digit key drawn at any depth. */
  lemma SmallLine(d: nat, key: int)
    requires 0 <= key <= 9
    ensures LineText(d, key) == Repeat(INDENT, d) + "  " + [DigitChar(key)]
  {
    assert IntToDecimal(key) == [DigitChar(key)];
    assert PadLeft(IntToDecimal(key), KEY_WIDTH) == "  " + [DigitChar(key)];
  }

  lemma IndentUnits()
    ensures Repeat(INDENT, 1) == "-~-"
    ensures Repeat(INDENT, 2) == "-~--~-"
  {
    assert Repeat(INDENT, 0) == "";
  }

  /** A node without children draws as its own line alone. */
  lemma SingleDrawing(key: int, k: nat)
    ensures AsTree(Node(key, Leaf, Leaf), k) == LineText(k, key) + EOL
  {
    assert AsTree(Leaf, k + 1) == "";
  }

  /** A one-digit leaf draws as one line at its depth. */
  lemma SingleLine(key: int, k: nat)
    requires 0 <= key <= 9
    ensures AsTree(Node(key, Leaf, Leaf), k) == Repeat(INDENT, k) + "  " + [DigitChar(key)] + EOL
  {
    SingleDrawing(key, k);
    SmallLine(k, key);
  }

  /** A leaf node at depth 2 is one line, two indent units deep. */
  lemma LeafDrawing(key: int)
    requires 0 <= key <= 9
    ensures AsTree(Node(key, Leaf, Leaf), 2) == "-~--~-  " + [DigitChar(key)] + "\n"
  {
    var c := [DigitChar(key)];
    SingleLine(key, 2);
    IndentUnits();
    assert AsTree(Node(key, Leaf, Leaf), 2) == "-~--~-" + "  " + c + EOL;
    assert "-~--~-" + "  " == "-~--~-  ";
    assert EOL == "\n";
  }

  lemma SampleRightDrawing()
    ensures AsTree(SAMPLE.right, 1) == "-~--~-  6\n" + "-~-  5\n" + "-~--~-  4\n"
  {
    LeafDrawing(6);
    LeafDrawing(4);
    SmallLine(1, 5);
    IndentUnits();
  }

  lemma SampleLeftDrawing()
    ensures AsTree(SAMPLE.left, 1) == "-~--~-  2\n" + "-~-  1\n" + "-~--~-  0\n"
  {
    LeafDrawing(2);
    LeafDrawing(0);
    SmallLine(1, 1);
    IndentUnits();
  }

  /** Regrouping a concatenation of five strings. */
  lemma Regroup5(r: string, x: string, y: string, l: string, m: string, n: string)
    ensures r + x + y + (l + m + n) == r + (x + y) + l + m + n
  {
  }

  /** The sample tree draws right subtree first, one indent unit per level. */
  lemma SampleDrawing()
    ensures AsTree(SAMPLE, 0) ==
      "-~--~-  6\n" +
      "-~-  5\n" +
      "-~--~-  4\n" +
      "  3\n" +
      "-~--~-  2\n" +
      "-~-  1\n" +
      "-~--~-  0\n"
  {
    SampleRightDrawing();
    SampleLeftDrawing();
    SmallLine(0, 3);
    assert LineText(0, 3) + EOL == "  3\n" by {
      assert Repeat(INDENT, 0) == "";
    }
    Regroup5("-~--~-  6\n" + "-~-  5\n" + "-~--~-  4\n", LineText(0, 3), EOL,
      "-~--~-  2\n", "-~-  1\n", "-~--~-  0\n");
  }

  /** The insertion order of the tree whose root has two children. */
  const PAIRED_ORDER: seq<int> := [5, 3, 8, 1, 4, 7, 9]

  /** The tree obtained by adding 5, 3, 8, 1, 4, 7, 9 in that order. */
  const PAIRED: Tree :=
    Node(5,
      Node(3, Node(1, Leaf, Leaf), Node(4, Leaf, Leaf)),
      Node(8, Node(7, Leaf, Leaf), Node(9, Leaf, Leaf)))

  lemma LevelByLevel3(b: int, d: int, f: int)
    requires b < d < f
    ensures InsertAll(Leaf, [d, b, f]) == Node(d, Single(b), Single(f))
  {
    FirstTwo(b, d);
    BuildStep([d, b], f);
    assert [d, b] + [f] == [d, b, f];
  }

  lemma LevelByLevel4(a: int, b: int, d: int, f: int)
    requires a < b < d < f
    ensures InsertAll(Leaf, [d, b, f, a]) == Node(d, Node(b, Single(a), Leaf), Single(f))
  {
    LevelByLevel3(b, d, f);
    BuildStep([d, b, f], a);
    assert [d, b, f] + [a] == [d, b, f, a];
    InsertDescends(d, Single(b), Single(f), a);
  }

  lemma LevelByLevel5(a: int, b: int, c: int, d: int, f: int)
    requires a < b < c < d < f
    ensures InsertAll(Leaf, [d, b, f, a, c]) == Node(d, Node(b, Single(a), Single(c)), Single(f))
  {
    LevelByLevel4(a, b, d, f);
    BuildStep([d, b, f, a], c);
    assert [d, b, f, a] + [c] == [d, b, f, a, c];
    InsertDescends(d, Node(b, Single(a), Leaf), Single(f), c);
    InsertDescends(b, Single(a), Leaf, c);
  }

  lemma LevelByLevel6(a: int, b: int, c: int, d: int, e: int, f: int)
    requires a < b < c < d < e < f
    ensures InsertAll(Leaf, [d, b, f, a, c, e]) == Node(d, Node(b, Single(a), Single(c)), Node(f, Single(e), Leaf))
  {
    LevelByLevel5(a, b, c, d, f);
    BuildStep([d, b, f, a, c], e);
    assert [d, b, f, a, c] + [e] == [d, b, f, a, c, e];
    InsertDescends(d, Node(b, Single(a), Single(c)), Single(f), e);
  }

  /** Adding the middle key, then the middles of both halves, then the
      remaining keys from least to greatest, gives the complete tree. */
  lemma CompleteLevelByLevel(a: int, b: int, c: int, d: int, e: int, f: int, g: int)
    requires a < b < c < d < e < f < g
    ensures InsertAll(Leaf, [d, b, f, a, c, e, g]) == Complete(a, b, c, d, e, f, g)
  {
    LevelByLevel6(a, b, c, d, e, f);
    BuildStep([d, b, f, a, c, e], g);
    assert [d, b, f, a, c, e] + [g] == [d, b, f, a, c, e, g];
    InsertDescends(d, Node(b, Single(a), Single(c)), Node(f, Single(e), Leaf), g);
    InsertDescends(f, Single(e), Leaf, g);
  }

  /** Adding 5, 3, 8, 1, 4, 7, 9 in that order gives PAIRED. */
  lemma PairedBuilt()
    ensures InsertAll(Leaf, PAIRED_ORDER) == PAIRED
  {
    CompleteLevelByLevel(1, 3, 4, 5, 7, 8, 9);
  }

  /** The tree PAIRED without 5: its successor 7 holds the root. */
  const PAIRED_WITHOUT_5: Tree :=
    Node(7,
      Node(3, Node(1, Leaf, Leaf), Node(4, Leaf, Leaf)),
      Node(8, Leaf, Node(9, Leaf, Leaf)))

  lemma PairedSuccessor()
    ensures BST(PAIRED)
    ensures RemoveMin(PAIRED.right) == (7, PAIRED_WITHOUT_5.right)
  {
    PairedBuilt();
  }

  lemma PairedWithout5InOrder()
    ensures InOrder(PAIRED_WITHOUT_5) == [1, 3, 4, 7, 8, 9]
  {
  }

  /** Removing 5, which has two children, from the tree built from
      5, 3, 8, 1, 4, 7, 9 puts its in-order successor 7 in its place. */
  lemma RemoveWithTwoChildren()
    ensures BST(PAIRED)
    ensures Delete(PAIRED, 5) == (PAIRED_WITHOUT_5, true)
    ensures PAIRED_WITHOUT_5.key == 7 && InOrder(PAIRED_WITHOUT_5) == [1, 3, 4, 7, 8, 9]
  {
    PairedSuccessor();
    PairedWithout5InOrder();
  }
}
