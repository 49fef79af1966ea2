# BinaryTree in Dafny

A model of `BinaryTree`, an unbalanced binary search tree of distinct integer
keys compared by their natural order. The tree owns a `root` node and a
`size` counter. Each node holds a key and a left and a right link. The
operations are:

- an empty constructor, and a constructor that adds a list of keys;
- `add` and `addAll`, which add keys that are absent and skip keys already present;
- `remove`, which returns the removed key as an optional value;
- `size`;
- `toString`, which lists the keys in ascending order;
- `asTreeString`, which draws the tree sideways. The right subtree comes first and the left subtree last. Each line is indented by `-~-` once per level and shows its key right-justified to width 3.

In the source, the bodies of the list constructor, `add`, `addAll`,
`toString`, `remove` and `size` are placeholders. Their documentation
comments promise only results:

- `add` adds an absent key and reports whether it did;
- `addAll` and the list constructor add every absent key;
- `remove` removes a present key;
- `size` counts the keys;
- `toString` represents the tree "using natural ordering".

How the model reaches those results is its own choice, and these choices are
not in the source:

- insertion and removal descend from the root by comparing keys;
- a node with two children is removed by copying in the key of its in-order
  successor, then detaching that successor;
- `toString` writes the usual Java collection form: keys in ascending order,
  separated by a comma and a space, inside brackets (`[0, 1, 2]`, and `[]`
  for an empty tree).

`asTreeString` is real code, and the model follows it line by line.

The project has five modules:

- `Trees` (trees.dfy): the node structure as a value, the search-tree
  invariant, and the insert and remove descents with their properties.
- `Decimal` (decimal.dfy): the decimal text of a key and the `%3s` padding,
  with parsers that read them back.
- `Views` (views.dfy): the `toString` listing and the `asTreeString` drawing,
  each with a decoder and a round-trip proof. It also proves the drawing's
  line order and indentation.
- `BinaryTrees` (binary_tree.dfy): the `BinaryTree` class with fields `root`
  and `size`, and its invariant `Valid()`. `Add`, `AddAll` and `Remove`
  change these fields; their contracts relate the new state to the `Trees`
  functions. `Size` changes nothing. `ToString` and `AsTreeString` are
  specified through the `Views` functions and their round trips.
- `Scenarios` (scenarios.dfy): concrete trees. Inserting seven ascending keys
  in two different orders gives the complete tree. The module also proves the
  listing and drawing of the tree built from `3, 1, 2, 5, 6, 4, 0`, and the
  removal of a key whose node has two children.

## Model

| member | source | states |
|---|---|---|
| Trees.InOrder | src/main/java/com/epam/rd/autocode/collection/tree/BinaryTree.java:82-90 | the in-order key sequence has one entry per node and contains exactly the keys of the tree |
| Trees.InOrderAscending | src/main/java/com/epam/rd/autocode/collection/tree/BinaryTree.java:82-90 | in a search tree the in-order sequence is strictly increasing: natural order, no duplicates |
| Trees.CountIsCardinality | src/main/java/com/epam/rd/autocode/collection/tree/BinaryTree.java:105-113 | in a search tree the number of reachable nodes equals the number of distinct keys |
| Trees.Insert | src/main/java/com/epam/rd/autocode/collection/tree/BinaryTree.java:53-69 | insertion keeps the ordering and reports true exactly when the key was absent; the key set becomes old set ∪ {x}; the node count grows by one exactly when it reports true; a present key leaves the tree identical |
| Trees.InsertAll | src/main/java/com/epam/rd/autocode/collection/tree/BinaryTree.java:71-80 | inserting a sequence one key at a time keeps the ordering, and the key set becomes old set ∪ the sequence's keys |
| Trees.RemoveMin | src/main/java/com/epam/rd/autocode/collection/tree/BinaryTree.java:92-103 | detaching the left-most node yields the least key and a search tree holding exactly the other keys, with one node fewer |
| Trees.DeleteRoot | src/main/java/com/epam/rd/autocode/collection/tree/BinaryTree.java:92-103 | removing a node's own key, by splicing in a child or copying in the successor, keeps the ordering, drops exactly that key and one node |
| Trees.Delete | src/main/java/com/epam/rd/autocode/collection/tree/BinaryTree.java:92-103 | removal keeps the ordering and reports true exactly when the key was present; the key set becomes old set − {x}; the node count drops by one exactly when it reports true; an absent key leaves the tree identical |
| Trees.SuccessorTakesItsPlace | src/main/java/com/epam/rd/autocode/collection/tree/BinaryTree.java:92-103 | removing the key of a node with two children keeps that node and its left subtree and gives it the least key greater than the removed one |
| Trees.DeleteUndoesInsert | src/main/java/com/epam/rd/autocode/collection/tree/BinaryTree.java:53-103 | adding an absent key and then removing it reports a removal and restores the very same tree |
| Trees.InsertTwice | src/main/java/com/epam/rd/autocode/collection/tree/BinaryTree.java:53-69 | adding the same key a second time reports false and changes nothing |
| Decimal.IntToDecimal | src/main/java/com/epam/rd/autocode/collection/tree/BinaryTree.java:147 | a key's decimal text is non-empty, starts with '-' exactly for a negative key, and is otherwise digits; its first digit is '0' only for the key 0, whose text is that single digit, so there are no leading zeros |
| Decimal.IntDecimalRoundTrip | src/main/java/com/epam/rd/autocode/collection/tree/BinaryTree.java:147 | reading a key's decimal text gives the key back |
| Decimal.PadLeft | src/main/java/com/epam/rd/autocode/collection/tree/BinaryTree.java:147 | `%3s` padding has length max(width, text length), ends with the text unchanged and is spaces before it; it never truncates |
| Decimal.PaddedDecimalRoundTrip | src/main/java/com/epam/rd/autocode/collection/tree/BinaryTree.java:147 | trimming the padding of a padded key and reading it gives the key back |
| Views.Join | src/main/java/com/epam/rd/autocode/collection/tree/BinaryTree.java:82-90 | the keys' decimal texts separated by a comma and a space; empty exactly when there are no keys |
| Views.Listing | src/main/java/com/epam/rd/autocode/collection/tree/BinaryTree.java:82-90 | the text is bracketed, and is `[]` exactly when there are no keys |
| Views.ListingRoundTrip | src/main/java/com/epam/rd/autocode/collection/tree/BinaryTree.java:82-90 | the bracketed comma-and-space listing of any key sequence decodes to that sequence, so it shows every key once and in order |
| Views.AsTree | src/main/java/com/epam/rd/autocode/collection/tree/BinaryTree.java:141-149 | the recursive drawing of a subtree is empty exactly when the subtree is, and otherwise ends with a line end. Its full content is stated by Views.DrawingIsLines and Views.DrawingRoundTrip |
| Views.DepthKeys | src/main/java/com/epam/rd/autocode/collection/tree/BinaryTree.java:141-149 | the drawing has one (key, depth) entry per node |
| Views.DrawingIsLines | src/main/java/com/epam/rd/autocode/collection/tree/BinaryTree.java:141-149 | the recursive drawing is the concatenation, in right-node-left order, of one line per node: the indent unit repeated depth times, the key padded to width 3, and the line end; an empty subtree draws nothing |
| Views.LineTextChars | src/main/java/com/epam/rd/autocode/collection/tree/BinaryTree.java:146-147 | a drawn line holds only indent characters, spaces, digits and '-', so no line end occurs inside a line |
| Views.Repeat | src/main/java/com/epam/rd/autocode/collection/tree/BinaryTree.java:146 | `INDENT.repeat(k)`: s repeated n times is n times as long as s and holds only characters of s |
| Views.StripIndentRepeat | src/main/java/com/epam/rd/autocode/collection/tree/BinaryTree.java:146 | k repetitions of the indent unit, followed by text that does not itself start with one, are read back as exactly k levels |
| Views.LineText | src/main/java/com/epam/rd/autocode/collection/tree/BinaryTree.java:146-147 | one drawn line: the indent unit once per level, then the key padded to width 3. It decodes to exactly that key and depth |
| Views.DrawingRoundTrip | src/main/java/com/epam/rd/autocode/collection/tree/BinaryTree.java:135-149 | the drawing decodes to exactly its (key, depth) entries, and it splits into one terminated line per node |
| Views.DrawingOrder | src/main/java/com/epam/rd/autocode/collection/tree/BinaryTree.java:141-149 | the drawn keys are the in-order keys reversed; in a search tree they are strictly descending |
| Views.DrawingDepths | src/main/java/com/epam/rd/autocode/collection/tree/BinaryTree.java:141-149 | each line's indentation is the drawing's start depth plus the depth at which a descent from the root meets that key |
| BinaryTrees.BinaryTree.constructor | src/main/java/com/epam/rd/autocode/collection/tree/BinaryTree.java:35-40 | a new tree is empty, with size 0 and a valid invariant |
| BinaryTrees.BinaryTree.FromElements | src/main/java/com/epam/rd/autocode/collection/tree/BinaryTree.java:42-51 | the tree holds exactly the distinct given keys, added in order; size is their number |
| BinaryTrees.BinaryTree.Add | src/main/java/com/epam/rd/autocode/collection/tree/BinaryTree.java:53-69 | the root becomes the insertion descent's result; the method returns true exactly for an absent key; the key set grows by the key; size grows by one exactly when it returns true; a present key leaves the root unchanged; the invariant is kept |
| BinaryTrees.BinaryTree.AddAll | src/main/java/com/epam/rd/autocode/collection/tree/BinaryTree.java:71-80 | the keys are added one by one in order; the key set becomes old ∪ given; size grows by the number of given keys not already present; the invariant is kept |
| BinaryTrees.BinaryTree.Remove | src/main/java/com/epam/rd/autocode/collection/tree/BinaryTree.java:92-103 | returns the key when present and nothing when absent; the key set loses the key; size drops by one exactly on removal; an absent key leaves the root unchanged; the invariant is kept |
| BinaryTrees.BinaryTree.Size | src/main/java/com/epam/rd/autocode/collection/tree/BinaryTree.java:105-113 | the size equals the number of reachable nodes and the number of keys, and is never negative |
| BinaryTrees.BinaryTree.ToString | src/main/java/com/epam/rd/autocode/collection/tree/BinaryTree.java:82-90 | the text decodes to the in-order keys, which are strictly increasing and are exactly the keys of the tree |
| BinaryTrees.BinaryTree.AsTreeString | src/main/java/com/epam/rd/autocode/collection/tree/BinaryTree.java:135-139 | the text is one line per node in right-node-left order, and decodes to the nodes' keys and depths |
| Scenarios.EmptyViews | src/main/java/com/epam/rd/autocode/collection/tree/BinaryTree.java:141-144 | an empty tree lists as `[]` and draws as the empty string |
| Scenarios.CompleteFromMiddleFirst | src/main/java/com/epam/rd/autocode/collection/tree/BinaryTree.java:53-69 | seven ascending keys inserted in the order d, b, c, f, g, e, a give the complete tree rooted at d |
| Scenarios.SampleBuilt | src/main/java/com/epam/rd/autocode/collection/tree/BinaryTree.java:118-119 | adding 3, 1, 2, 5, 6, 4, 0 in that order gives the complete tree rooted at 3 |
| Scenarios.SampleListing | src/main/java/com/epam/rd/autocode/collection/tree/BinaryTree.java:82-90 | that tree lists as `[0, 1, 2, 3, 4, 5, 6]` |
| Scenarios.SampleDrawing | src/main/java/com/epam/rd/autocode/collection/tree/BinaryTree.java:141-149 | that tree draws as 6, 5, 4, 3, 2, 1, 0 from top to bottom: the root without indent, its children one indent unit deep, the leaves two units deep |
| Scenarios.CompleteLevelByLevel | src/main/java/com/epam/rd/autocode/collection/tree/BinaryTree.java:53-69 | seven ascending keys inserted in the order d, b, f, a, c, e, g give the complete tree rooted at d |
| Scenarios.PairedBuilt | src/main/java/com/epam/rd/autocode/collection/tree/BinaryTree.java:71-80 | adding 5, 3, 8, 1, 4, 7, 9 gives the complete tree rooted at 5 |
| Scenarios.RemoveWithTwoChildren | src/main/java/com/epam/rd/autocode/collection/tree/BinaryTree.java:92-103 | removing 5, whose node has two children, from that tree succeeds, puts its successor 7 at the root and leaves the in-order keys 1, 3, 4, 7, 8, 9 |

## Left out

- Null arguments and the `NullPointerException` they raise: a Dafny `int` or sequence cannot be null.
- Node identity and in-place link updates: nodes are values, so a descent rebuilds the nodes along its path where the source overwrites one link. In the same way, copying the successor's key into the kept node is observable here only as the resulting tree, not as the same node object.
- `System.lineSeparator()`: the line end is fixed to `"\n"`.
- The general `String.format` machinery: only the `%3s` left padding of a key's decimal text is modelled.
- `Node.toString`, a debugging aid that no operation uses.
- BinaryTrees.BinaryTree.Size: the 32-bit range of `int` and `Integer` is not modelled. Keys and the count are unbounded integers, so overflow of `size` is out of scope.
- The `@return` wording of `remove`'s documentation, which speaks of true and false. The model follows the `Optional<Integer>` result type.
- Stack depth: the recursive descents and the recursive drawing run without a depth limit.
- The sample drawing in `asTreeString`'s documentation is not modelled. It shows root 4 and a key 7, but that key is not among the inserted keys `3, 1, 2, 5, 6, 4, 0`. The model instead proves the drawing that those keys actually produce (`Scenarios.SampleDrawing`).
