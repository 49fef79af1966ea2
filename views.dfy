/** The two textual views of a tree: the bracketed in-order listing that
    `toString` promises, and the indented, right-subtree-first drawing that
    `asTreeString` produces; with readers that recover what each view shows. */
module Views {
  import opened Trees
  import opened Decimal

  /** The indent unit, repeated once per level of depth. */
  const INDENT: string := "-~-"
  /** The line terminator; the platform's own separator is fixed to a newline. */
  const EOL: string := "\n"
  /** The width the key is right-justified to. */
  const KEY_WIDTH: nat := 3

  // ----- Splitting text at a separator character -----

  /** The pieces of s between occurrences of sep (one more piece than separators). */
  function Split(s: string, sep: char): (parts: seq<string>)
    ensures |parts| >= 1
    decreases |s|
  {
    if s == [] then [""]
    else
      var rest := Split(s[1..], sep);
      if s[0] == sep then [""] + rest else [[s[0]] + rest[0]] + rest[1..]
  }

  lemma {:induction false} SplitWithout(a: string, sep: char)
    requires sep !in a
    ensures Split(a, sep) == [a]
    decreases |a|
  {
    if a != [] {
      SplitWithout(a[1..], sep);
      assert [a[0]] + a[1..] == a;
    }
  }

  lemma {:induction false} SplitAt(a: string, sep: char, b: string)
    requires sep !in a
    ensures Split(a + [sep] + b, sep) == [a] + Split(b, sep)
    decreases |a|
  {
    if a == [] {
      assert (a + [sep] + b)[1..] == b;
    } else {
      assert (a + [sep] + b)[1..] == a[1..] + [sep] + b;
      SplitAt(a[1..], sep, b);
      assert [a[0]] + a[1..] == a;
    }
  }

  // ----- The in-order listing -----

  /** The decimal texts of xs separated by a comma and a space. */
  function Join(xs: seq<int>): (r: string)
    ensures r == "" <==> xs == []
    decreases |xs|
  {
    if xs == [] then ""
    else if |xs| == 1 then IntToDecimal(xs[0])
    else IntToDecimal(xs[0]) + ", " + Join(xs[1..])
  }

  /** xs in brackets, as `[1, 2, 3]`; the empty sequence is `[]`. */
  function Listing(xs: seq<int>): (r: string)
    ensures |r| >= 2 && r[0] == '[' && r[|r| - 1] == ']'
    ensures r == "[]" <==> xs == []
  {
    "[" + Join(xs) + "]"
  }

  function DecodeFields(fields: seq<string>): seq<int>
    decreases |fields|
  {
    if fields == [] then [] else [ParseInt(TrimLeft(fields[0]))] + DecodeFields(fields[1..])
  }

  /** Reads a bracketed, comma-separated listing back into its numbers. */
  function DecodeListing(s: string): seq<int>
  {
    if |s| < 2 || s[1..|s| - 1] == "" then [] else DecodeFields(Split(s[1..|s| - 1], ','))
  }

  /** A field of a listing, after its leading spaces, reads back as its key. */
  lemma FieldRoundTrip(p: string, x: int)
    requires forall i :: 0 <= i < |p| ==> p[i] == ' '
    ensures ',' !in p + IntToDecimal(x)
    ensures ParseInt(TrimLeft(p + IntToDecimal(x))) == x
  {
    TrimLeftUndoesPadding(p, IntToDecimal(x));
    IntDecimalRoundTrip(x);
  }

  /** Two or more keys list as the first key, a comma and a space, and the rest. */
  lemma JoinUnfold(xs: seq<int>)
    requires |xs| > 1
    ensures Join(xs) == IntToDecimal(xs[0]) + ", " + Join(xs[1..])
  {
  }

  lemma JoinSplitsAfterFirst(p: string, xs: seq<int>)
    requires |xs| > 1
    ensures p + Join(xs) == (p + IntToDecimal(xs[0])) + [','] + (" " + Join(xs[1..]))
  {
    JoinUnfold(xs);
    CommaRegroup(p, IntToDecimal(xs[0]), Join(xs[1..]));
  }

  lemma CommaRegroup(p: string, d: string, j: string)
    ensures p + (d + ", " + j) == (p + d) + [','] + (" " + j)
  {
    assert ", " == [','] + " ";
  }

  lemma DecodeFieldsCons(f: string, fs: seq<string>)
    ensures DecodeFields([f] + fs) == [ParseInt(TrimLeft(f))] + DecodeFields(fs)
  {
    assert ([f] + fs)[1..] == fs;
  }

  lemma {:induction false} FieldsRoundTrip(p: string, xs: seq<int>)
    requires xs != []
    requires forall i :: 0 <= i < |p| ==> p[i] == ' '
    ensures DecodeFields(Split(p + Join(xs), ',')) == xs
    decreases |xs|
  {
    var first := p + IntToDecimal(xs[0]);
    FieldRoundTrip(p, xs[0]);
    if |xs| == 1 {
      SplitWithout(first, ',');
    } else {
      var rest := " " + Join(xs[1..]);
      JoinSplitsAfterFirst(p, xs);
      SplitAt(first, ',', rest);
      DecodeFieldsCons(first, Split(rest, ','));
      FieldsRoundTrip(" ", xs[1..]);
    }
  }

  /** The listing of any sequence of keys reads back as that sequence. */
  lemma ListingRoundTrip(xs: seq<int>)
    ensures DecodeListing(Listing(xs)) == xs
  {
    var s := Listing(xs);
    assert s[1..|s| - 1] == Join(xs);
    if xs != [] {
      assert |Join(xs)| > 0;
      FieldsRoundTrip("", xs);
      assert "" + Join(xs) == Join(xs);
    }
  }

  // ----- The tree drawing -----

  /** One line of the drawing: the depth and the key it shows. */
  datatype Entry = Entry(key: int, depth: nat)

  /** s repeated n times, as Java's `String.repeat`. */
  function Repeat(s: string, n: nat): (r: string)
    ensures |r| == n * |s|
    ensures forall c :: c in r ==> c in s
  {
    if n == 0 then "" else s + Repeat(s, n - 1)
  }

  /** A line without its terminator: the indent unit repeated depth times,
      then the key right-justified to width 3. */
  function LineText(depth: nat, key: int): (line: string)
    ensures DecodeLine(line) == Entry(key, depth)
  {
    var s := IntToDecimal(key);
    var p := PadLeft(s, KEY_WIDTH);
    assert p[1] != '~' by {
      if 1 >= |p| - |s| {
        assert p[1] == p[|p| - |s|..][1 - (|p| - |s|)];
      }
    }
    StripIndentRepeat(depth, p);
    PaddedDecimalRoundTrip(key, KEY_WIDTH);
    Repeat(INDENT, depth) + p
  }

  /** The drawing of the subtree t whose root is at depth k: the right subtree
      one level deeper, the root's own line, the left subtree one level deeper;
      an empty subtree draws nothing. */
  function AsTree(t: Tree, k: nat): (r: string)
    ensures r == "" <==> t.Leaf?
    ensures t.Node? ==> r[|r| - 1] == EOL[0]
  {
    match t
    case Leaf => ""
    case Node(key, l, r) => AsTree(r, k + 1) + LineText(k, key) + EOL + AsTree(l, k + 1)
  }

  /** The nodes of t with their depths (t's root at depth k), right subtree
      first: the reverse of in-order. */
  function DepthKeys(t: Tree, k: nat): (es: seq<Entry>)
    ensures |es| == NodeCount(t)
  {
    match t
    case Leaf => []
    case Node(key, l, r) => DepthKeys(r, k + 1) + [Entry(key, k)] + DepthKeys(l, k + 1)
  }

  /** Counts and strips leading indent units. */
  function StripIndent(line: string): (r: (nat, string))
    decreases |line|
  {
    if |line| >= |INDENT| && line[..|INDENT|] == INDENT then
      var (d, rest) := StripIndent(line[|INDENT|..]);
      (d + 1, rest)
    else (0, line)
  }

  /** Reads one line of the drawing back into its key and depth. */
  function DecodeLine(line: string): Entry
  {
    var (d, rest) := StripIndent(line);
    Entry(ParseInt(TrimLeft(rest)), d)
  }

  function DecodeLines(lines: seq<string>): seq<Entry>
    decreases |lines|
  {
    if lines == [] then [] else [DecodeLine(lines[0])] + DecodeLines(lines[1..])
  }

  /** Reads a whole drawing back: one entry per terminated line. */
  function DecodeDrawing(s: string): seq<Entry>
  {
    var parts := Split(s, EOL[0]);
    DecodeLines(parts[..|parts| - 1])
  }

  /** The text of entries drawn one per line, in order. */
  function Lines(es: seq<Entry>): string
    decreases |es|
  {
    if es == [] then "" else LineText(es[0].depth, es[0].key) + EOL + Lines(es[1..])
  }

  function Texts(es: seq<Entry>): seq<string>
    decreases |es|
  {
    if es == [] then [] else [LineText(es[0].depth, es[0].key)] + Texts(es[1..])
  }

  lemma {:induction false} LinesAppend(a: seq<Entry>, b: seq<Entry>)
    ensures Lines(a + b) == Lines(a) + Lines(b)
    decreases |a|
  {
    if a == [] {
      assert a + b == b;
    } else {
      assert (a + b)[0] == a[0];
      assert (a + b)[1..] == a[1..] + b;
      LinesAppend(a[1..], b);
    }
  }

  lemma LinesAround(a: seq<Entry>, e: Entry, b: seq<Entry>)
    ensures Lines(a + [e] + b) == Lines(a) + LineText(e.depth, e.key) + EOL + Lines(b)
  {
    assert Lines([e]) == LineText(e.depth, e.key) + EOL by {
      assert [e][1..] == [];
    }
    LinesAppend(a + [e], b);
    LinesAppend(a, [e]);
    Regroup(Lines(a), LineText(e.depth, e.key), EOL, Lines(b));
  }

  lemma Regroup(w: string, x: string, y: string, z: string)
    ensures w + (x + y) + z == w + x + y + z
  {
  }

  lemma {:induction false} DrawingIsLines(t: Tree, k: nat)
    ensures AsTree(t, k) == Lines(DepthKeys(t, k))
  {
    match t
    case Leaf =>
    case Node(key, l, r) =>
      DrawingIsLines(l, k + 1);
      DrawingIsLines(r, k + 1);
      LinesAround(DepthKeys(r, k + 1), Entry(key, k), DepthKeys(l, k + 1));
  }

  /** The characters a line can hold; the line terminator is not among them. */
  lemma LineTextChars(depth: nat, key: int)
    ensures forall c :: c in LineText(depth, key) ==> c == ' ' || c == '-' || c == '~' || IsDigit(c)
  {
    var s := IntToDecimal(key);
    var p := PadLeft(s, KEY_WIDTH);
    var w := Repeat(INDENT, depth);
    PaddedChars(s, KEY_WIDTH);
    assert LineText(depth, key) == w + p;
    forall c | c in w + p ensures c == ' ' || c == '-' || c == '~' || IsDigit(c) {
      if c in w {
        assert c in INDENT;
      } else {
        assert c in p;
      }
    }
  }

  lemma PaddedChars(s: string, width: nat)
    ensures forall c :: c in PadLeft(s, width) ==> c == ' ' || c in s
  {
    var p := PadLeft(s, width);
    forall c | c in p ensures c == ' ' || c in s {
      var i :| 0 <= i < |p| && p[i] == c;
      if i >= |p| - |s| {
        assert p[i] == p[|p| - |s|..][i - (|p| - |s|)];
      }
    }
  }

  lemma {:induction false} StripIndentRepeat(d: nat, p: string)
    requires !(|p| >= |INDENT| && p[..|INDENT|] == INDENT)
    ensures StripIndent(Repeat(INDENT, d) + p) == (d, p)
    decreases d
  {
    var line := Repeat(INDENT, d) + p;
    if d == 0 {
      assert line == p;
    } else {
      assert Repeat(INDENT, d) == INDENT + Repeat(INDENT, d - 1);
      assert line[..|INDENT|] == INDENT;
      assert line[|INDENT|..] == Repeat(INDENT, d - 1) + p;
      StripIndentRepeat(d - 1, p);
    }
  }

  lemma {:induction false} SplitLines(es: seq<Entry>)
    ensures Split(Lines(es), EOL[0]) == Texts(es) + [""]
    decreases |es|
  {
    if es != [] {
      var e := es[0];
      LineTextChars(e.depth, e.key);
      assert Lines(es) == LineText(e.depth, e.key) + [EOL[0]] + Lines(es[1..]);
      SplitAt(LineText(e.depth, e.key), EOL[0], Lines(es[1..]));
      SplitLines(es[1..]);
    }
  }

  lemma {:induction false} DecodeTexts(es: seq<Entry>)
    ensures DecodeLines(Texts(es)) == es
    decreases |es|
  {
    if es != [] {
      DecodeTexts(es[1..]);
      assert Texts(es)[1..] == Texts(es[1..]);
    }
  }

  /** The drawing holds exactly one terminated line per node, and reading it
      back gives every node's key and depth in the drawing's order. */
  lemma DrawingRoundTrip(t: Tree, k: nat)
    ensures DecodeDrawing(AsTree(t, k)) == DepthKeys(t, k)
    ensures |Split(AsTree(t, k), EOL[0])| == NodeCount(t) + 1
  {
    var es := DepthKeys(t, k);
    DrawingIsLines(t, k);
    SplitLines(es);
    var parts := Texts(es) + [""];
    assert parts[..|parts| - 1] == Texts(es);
    DecodeTexts(es);
    assert |Texts(es)| == |es| by { TextsLength(es); }
  }

  lemma {:induction false} TextsLength(es: seq<Entry>)
    ensures |Texts(es)| == |es|
    decreases |es|
  {
    if es != [] {
      TextsLength(es[1..]);
    }
  }

  /** The drawing's lines list the keys in reverse in-order; for a search
      tree that is descending order. */
  lemma {:induction false} DrawingOrder(t: Tree, k: nat)
    ensures forall i :: 0 <= i < NodeCount(t) ==>
      DepthKeys(t, k)[i].key == InOrder(t)[NodeCount(t) - 1 - i]
    ensures BST(t) ==> forall i, j :: 0 <= i < j < NodeCount(t) ==>
      DepthKeys(t, k)[i].key > DepthKeys(t, k)[j].key
  {
    match t
    case Leaf =>
    case Node(key, l, r) =>
      DrawingOrder(l, k + 1);
      DrawingOrder(r, k + 1);
      var es, dr, dl := DepthKeys(t, k), DepthKeys(r, k + 1), DepthKeys(l, k + 1);
      var s, il, ir := InOrder(t), InOrder(l), InOrder(r);
      var n := NodeCount(t);
      assert es == dr + [Entry(key, k)] + dl;
      assert s == il + [key] + ir;
      forall i | 0 <= i < n ensures es[i].key == s[n - 1 - i] {
        if i < |dr| {
          assert es[i] == dr[i];
          assert s[n - 1 - i] == ir[|ir| - 1 - i];
        } else if i == |dr| {
        } else {
          assert es[i] == dl[i - |dr| - 1];
          assert s[n - 1 - i] == il[|il| - 1 - (i - |dr| - 1)];
        }
      }
      if BST(t) {
        InOrderAscending(t);
      }
  }

  /** Every line is indented by the depth of its node below the drawn subtree's
      root, which is where a descent from that root meets the key. */
  lemma {:induction false} DrawingDepths(t: Tree, k: nat)
    requires BST(t)
    ensures forall e :: e in DepthKeys(t, k) ==> e.key in Elems(t) && e.depth == k + SearchDepth(t, e.key)
  {
    match t
    case Leaf =>
    case Node(key, l, r) =>
      DrawingDepths(l, k + 1);
      DrawingDepths(r, k + 1);
  }
}
