/**
 The configuration tree of src/config.cpp: how it is flattened into dotted keys, and
 what looking up a dotted key means.
 */
module ConfigTree {
  import opened Basics

  /** A YAML document; the text that a node other than a scalar is emitted as comes with it. */
  datatype Node =
    | Scalar(text: string)
    | Map(entries: Entries, text: string)
    | Other(text: string)

  /** The entries of a map, in document order. */
  datatype Entries = End | Entry(key: string, value: Node, rest: Entries)

  predicate ValidChar(c: char) {
    'a' <= c <= 'z' || '0' <= c <= '9' || c == '.' || c == '_'
  }

  /** These are the characters that the source spells out. */
  lemma ValidCharExact(c: char)
    ensures ValidChar(c) <==> c in "abcdefghikjlmnopqrstuvwxyz._0123456789"
  {
    // The solver needs the cases of where the character lies.
    if c < 'a' {
      if c < '0' {
      }
    }
  }

  predicate ValidName(s: string) {
    forall k :: 0 <= k < |s| ==> ValidChar(s[k])
  }

  function Join(prefix: string, key: string): string {
    if prefix == "" then key else prefix + "." + key
  }

  type Listing = seq<(string, Node)>

  // ------------------------------------------------------------------
  // Flattening
  // ------------------------------------------------------------------

  function ListAll(prefix: string, node: Node): Listing
    decreases node
  {
    if !ValidName(prefix) then [] else
    [(prefix, node)] + if node.Map? then ListEntries(prefix, node.entries) else []
  }

  function ListEntries(prefix: string, es: Entries): Listing
    decreases es
  {
    match es
    case End => []
    case Entry(key, value, rest) => ListAll(Join(prefix, key), value) + ListEntries(prefix, rest)
  }

  // ------------------------------------------------------------------
  // Path lookup
  // ------------------------------------------------------------------

  function Lookup(es: Entries, key: string): Option<Node> {
    match es
    case End => None
    case Entry(k, value, rest) => if k == key then Some(value) else Lookup(rest, key)
  }

  /** Walking down the tree, one map entry per component. */
  function Walk(node: Node, path: seq<string>): Option<Node>
    decreases |path|
  {
    if path == [] then Some(node)
    else if !node.Map? then None
    else match Lookup(node.entries, path[0])
      case None => None
      case Some(n) => Walk(n, path[1..])
  }

  /** The dotted key of a path below `prefix`. */
  function KeyOf(prefix: string, path: seq<string>): string
    decreases |path|
  {
    if path == [] then prefix else KeyOf(Join(prefix, path[0]), path[1..])
  }

  predicate GoodKey(key: string) {
    key != "" && '.' !in key
  }

  /** Keys have no dots, are not empty and occur once in each map. */
  ghost predicate GoodTree(node: Node) {
    node.Map? ==> GoodEntries(node.entries)
  }

  ghost predicate GoodEntries(es: Entries) {
    es.Entry? ==> GoodKey(es.key) && GoodTree(es.value) && Lookup(es.rest, es.key).None? && GoodEntries(es.rest)
  }

  ghost predicate GoodPath(path: seq<string>) {
    forall k :: 0 <= k < |path| ==> GoodKey(path[k])
  }

  lemma ValidConcat(a: string, b: string)
    ensures ValidName(a + b) <==> ValidName(a) && ValidName(b)
  {
    if ValidName(a + b) {
      forall k | 0 <= k < |a| ensures ValidChar(a[k]) { assert (a + b)[k] == a[k]; }
      forall k | 0 <= k < |b| ensures ValidChar(b[k]) { assert (a + b)[|a| + k] == b[k]; }
    }
  }

  lemma ValidJoin(prefix: string, key: string)
    ensures ValidName(Join(prefix, key)) ==> ValidName(prefix)
  {
    ValidConcat(prefix, "." + key);
    assert prefix + "." + key == prefix + ("." + key);
  }

  lemma {:induction false} ValidKeyOf(prefix: string, path: seq<string>)
    ensures ValidName(KeyOf(prefix, path)) ==> ValidName(prefix)
    decreases |path|
  {
    if path != [] {
      ValidKeyOf(Join(prefix, path[0]), path[1..]);
      ValidJoin(prefix, path[0]);
    }
  }

  /** Everything listed is found by walking some path to it. */
  lemma {:induction false} ListedIsWalked(prefix: string, node: Node, k: string, n: Node) returns (path: seq<string>)
    requires GoodTree(node) && (k, n) in ListAll(prefix, node)
    ensures GoodPath(path) && KeyOf(prefix, path) == k && Walk(node, path) == Some(n) && ValidName(k)
    decreases node
  {
    if (k, n) == (prefix, node) {
      path := [];
    } else {
      var key, child, rest := EntryListedIsWalked(prefix, node.entries, k, n);
      path := [key] + rest;
    }
  }

  lemma {:induction false} EntryListedIsWalked(prefix: string, es: Entries, k: string, n: Node)
    returns (key: string, child: Node, path: seq<string>)
    requires GoodEntries(es) && (k, n) in ListEntries(prefix, es)
    ensures GoodKey(key) && Lookup(es, key) == Some(child)
    ensures GoodPath(path) && KeyOf(Join(prefix, key), path) == k && Walk(child, path) == Some(n) && ValidName(k)
    decreases es
  {
    if (k, n) in ListAll(Join(prefix, es.key), es.value) {
      key, child := es.key, es.value;
      path := ListedIsWalked(Join(prefix, key), child, k, n);
    } else {
      key, child, path := EntryListedIsWalked(prefix, es.rest, k, n);
    }
  }

  /** Everything that a walk reaches under a valid key is listed under it. */
  lemma {:induction false} WalkedIsListed(prefix: string, node: Node, path: seq<string>)
    requires Walk(node, path).Some? && ValidName(KeyOf(prefix, path))
    ensures (KeyOf(prefix, path), Walk(node, path).value) in ListAll(prefix, node)
    decreases |path|
  {
    ValidKeyOf(prefix, path);
    if path != [] {
      var child := Lookup(node.entries, path[0]).value;
      WalkedIsListed(Join(prefix, path[0]), child, path[1..]);
      EntryListed(prefix, node.entries, path[0], (KeyOf(prefix, path), Walk(node, path).value));
    }
  }

  lemma {:induction false} EntryListed(prefix: string, es: Entries, key: string, x: (string, Node))
    requires Lookup(es, key).Some? && x in ListAll(Join(prefix, key), Lookup(es, key).value)
    ensures x in ListEntries(prefix, es)
  {
    if es.key != key {
      EntryListed(prefix, es.rest, key, x);
    }
  }

  // Dotted keys and paths determine each other.

  function FirstDot(k: string): (i: nat)
    ensures i <= |k| && '.' !in k[..i] && (i < |k| ==> k[i] == '.')
  {
    if k == "" || k[0] == '.' then 0 else
    assert forall j :: 0 <= j < FirstDot(k[1..]) ==> k[1..][..FirstDot(k[1..])][j] == k[j + 1];
    1 + FirstDot(k[1..])
  }

  /** The components of a dotted key. */
  function Split(k: string): seq<string>
    decreases |k|
  {
    var i := FirstDot(k);
    if k == "" then [] else if i == |k| then [k] else [k[..i]] + if i + 1 == |k| then [""] else Split(k[i + 1..])
  }

  lemma {:induction false} KeyOfPrefixed(a: string, prefix: string, path: seq<string>)
    requires prefix != ""
    ensures KeyOf(a + prefix, path) == a + KeyOf(prefix, path)
    decreases |path|
  {
    if path != [] {
      assert a + prefix + "." + path[0] == a + (prefix + "." + path[0]);
      KeyOfPrefixed(a, Join(prefix, path[0]), path[1..]);
    }
  }

  lemma SplitFirst(k: string, i: nat)
    requires i + 1 < |k| && k[i] == '.' && '.' !in k[..i]
    ensures Split(k) == [k[..i]] + Split(k[i + 1..])
  {
    FirstDotIs(k, i);
    hide FirstDot;
  }

  lemma FirstDotIs(k: string, i: nat)
    requires i < |k| && k[i] == '.' && '.' !in k[..i]
    ensures FirstDot(k) == i
  {
    var n := FirstDot(k);
    assert forall j :: 0 <= j < i ==> k[..i][j] == k[j];
    assert forall j :: 0 <= j < n ==> k[..n][j] == k[j];
  }

  lemma NoDot(k: string)
    requires k != "" && '.' !in k
    ensures Split(k) == [k]
  {
    var n := FirstDot(k);
    assert k[..|k|] == k;
  }

  lemma {:induction false} KeyOfNonempty(prefix: string, path: seq<string>)
    requires prefix != ""
    ensures KeyOf(prefix, path) != ""
    decreases |path|
  {
    if path != [] {
      KeyOfNonempty(Join(prefix, path[0]), path[1..]);
    }
  }

  /** Splitting the dotted key of a path gives the path back. */
  lemma {:induction false} SplitKeyOf(path: seq<string>)
    requires GoodPath(path)
    ensures Split(KeyOf("", path)) == path
    decreases |path|
  {
    if path != [] {
      var key, rest := path[0], path[1..];
      assert forall j :: 0 <= j < |rest| ==> rest[j] == path[j + 1];
      hide Split, FirstDot;
      if rest == [] {
        NoDot(key);
      } else {
        SplitKeyOf(rest);
        var tail := KeyOf("", rest);
        KeyOfPrefixed(key + ".", rest[0], rest[1..]);
        KeyOfNonempty(rest[0], rest[1..]);
        assert KeyOf("", path) == KeyOf(key, rest) == KeyOf(key + "." + rest[0], rest[1..]);
        hide KeyOf;
        SplitJoined(key, tail);
      }
    }
  }

  lemma SplitJoined(key: string, tail: string)
    requires '.' !in key && tail != ""
    ensures Split(key + "." + tail) == [key] + Split(tail)
  {
    var k := key + "." + tail;
    assert k[..|key|] == key && k[|key| + 1..] == tail;
    SplitFirst(k, |key|);
  }

  /** What the splitting of a key that follows a prefix joins to. */
  lemma {:induction false} SplitJoins(prefix: string, k: string)
    requires prefix != "" && k != ""
    ensures KeyOf(prefix, Split(k)) == prefix + "." + k
    decreases |k|
  {
    var i := FirstDot(k);
    if i == |k| {
      assert KeyOf(prefix, [k]) == KeyOf(Join(prefix, k), []);
    } else {
      var next, tail := prefix + "." + k[..i], k[i + 1..];
      assert k == k[..i] + "." + tail;
      assert next + "." + tail == prefix + "." + k;
      if tail == "" {
        assert Split(k) == [k[..i], ""];
        assert KeyOf(next, [""]) == KeyOf(Join(next, ""), []);
      } else {
        SplitJoins(next, tail);
      }
    }
  }

  lemma KeyOfSplit(k: string)
    requires k != "" && Split(k)[0] != ""
    ensures KeyOf("", Split(k)) == k
  {
    var i := FirstDot(k);
    assert Split(k)[0] == k[..i] && k[..|k|] == k;
    if i < |k| {
      var key, tail := k[..i], k[i + 1..];
      assert k == key + "." + tail;
      hide FirstDot;
      if tail == "" {
        assert KeyOf(key, [""]) == KeyOf(Join(key, ""), []);
      } else {
        SplitJoins(key, tail);
        assert Split(k)[1..] == Split(tail);
      }
    }
  }

  /** Only keys that are not empty and have no dot are found in a tree that has only such keys. */
  lemma {:induction false} WalkedKeysAreGood(node: Node, path: seq<string>)
    requires GoodTree(node) && Walk(node, path).Some?
    ensures GoodPath(path)
    decreases |path|
  {
    if path != [] {
      FoundIsGood(node.entries, path[0]);
      WalkedKeysAreGood(Lookup(node.entries, path[0]).value, path[1..]);
      assert forall k :: 0 < k < |path| ==> path[k] == path[1..][k - 1];
    }
  }

  lemma {:induction false} FoundIsGood(es: Entries, key: string)
    requires GoodEntries(es) && Lookup(es, key).Some?
    ensures GoodKey(key) && GoodTree(Lookup(es, key).value)
  {
    if es.key != key {
      FoundIsGood(es.rest, key);
    }
  }

  /**
   A dotted key is listed with a node exactly when its characters are valid and walking
   its components leads to that node.
   */
  lemma ListingIsLookup(root: Node, k: string, n: Node)
    requires GoodTree(root)
    ensures (k, n) in ListAll("", root) <==> ValidName(k) && Walk(root, Split(k)) == Some(n)
  {
    if (k, n) in ListAll("", root) {
      var path := ListedIsWalked("", root, k, n);
      SplitKeyOf(path);
    }
    if ValidName(k) && Walk(root, Split(k)) == Some(n) {
      WalkedKeysAreGood(root, Split(k));
      if k != "" {
        assert GoodKey(Split(k)[0]);
        KeyOfSplit(k);
      }
      WalkedIsListed("", root, Split(k));
    }
  }

  // ------------------------------------------------------------------
  // Order and spelling of the listed keys
  // ------------------------------------------------------------------

  predicate HasEntry(es: Entries, key: string, n: Node) {
    es.Entry? && ((es.key == key && es.value == n) || HasEntry(es.rest, key, n))
  }

  /** The pair `x` is listed for one of the entries, under `prefix`. */
  ghost predicate IsChild(prefix: string, es: Entries, x: (string, Node)) {
    exists key: string :: x.0 == Join(prefix, key) && HasEntry(es, key, x.1)
  }

  /** The listed pair `x` is an entry of the map listed as `p`. */
  ghost predicate IsParent(p: (string, Node), x: (string, Node)) {
    p.1.Map? && IsChild(p.0, p.1.entries, x)
  }

  /** The pair at `j` comes after its parent. */
  ghost predicate AfterParent(l: Listing, j: nat)
    requires j < |l|
  {
    exists i :: 0 <= i < j && IsParent(l[i], l[j])
  }

  lemma AfterParentMoves(a: Listing, l: Listing, b: Listing, j: nat)
    requires j < |l| && AfterParent(l, j)
    ensures AfterParent(a + l + b, |a| + j)
  {
    var i :| 0 <= i < j && IsParent(l[i], l[j]);
    assert (a + l + b)[|a| + i] == l[i] && (a + l + b)[|a| + j] == l[j];
  }

  /** Parents come before their children, and so before all descendants. */
  lemma {:induction false} ParentsFirst(prefix: string, node: Node, j: nat)
    requires 0 < j < |ListAll(prefix, node)|
    ensures AfterParent(ListAll(prefix, node), j)
    decreases node
  {
    var es := ListEntries(prefix, node.entries);
    assert ListAll(prefix, node) == [(prefix, node)] + es;
    hide ListAll, ListEntries, IsChild, AfterParent, ValidName;
    EntriesAfterParents(prefix, node.entries, j - 1);
    AfterRoot((prefix, node), es, j - 1);
  }

  lemma AfterRoot(root: (string, Node), es: Listing, j: nat)
    requires j < |es| && root.1.Map? && (IsChild(root.0, root.1.entries, es[j]) || AfterParent(es, j))
    ensures AfterParent([root] + es, j + 1)
  {
    var l := [root] + es;
    assert l[j + 1] == es[j];
    if IsChild(root.0, root.1.entries, es[j]) {
      assert IsParent(l[0], l[j + 1]);
    } else {
      AfterParentMoves([root], es, [], j);
      assert [root] + es + [] == l;
    }
  }

  lemma {:induction false} EntriesAfterParents(prefix: string, es: Entries, j: nat)
    requires j < |ListEntries(prefix, es)|
    ensures IsChild(prefix, es, ListEntries(prefix, es)[j]) || AfterParent(ListEntries(prefix, es), j)
    decreases es
  {
    hide ListAll, ListEntries, HasEntry, IsChild, AfterParent, ValidName, Join;
    EntriesSplit(prefix, es);
    var a, b := ListAll(Join(prefix, es.key), es.value), ListEntries(prefix, es.rest);
    if j < |a| {
      if j == 0 {
        FirstEntry(prefix, es);
      } else {
        ParentsFirst(Join(prefix, es.key), es.value, j);
        AfterParentLeft(a, b, j);
      }
    } else {
      EntriesAfterParents(prefix, es.rest, j - |a|);
      LaterEntry(prefix, es, a, b, j - |a|);
    }
  }

  lemma EntriesSplit(prefix: string, es: Entries)
    requires |ListEntries(prefix, es)| > 0
    ensures es.Entry?
    ensures ListEntries(prefix, es) == ListAll(Join(prefix, es.key), es.value) + ListEntries(prefix, es.rest)
  {
  }

  lemma AfterParentLeft(a: Listing, b: Listing, j: nat)
    requires j < |a| && AfterParent(a, j)
    ensures AfterParent(a + b, j)
  {
    AfterParentMoves([], a, b, j);
    assert [] + a + b == a + b;
  }

  lemma FirstEntry(prefix: string, es: Entries)
    requires es.Entry? && ListAll(Join(prefix, es.key), es.value) != []
    ensures IsChild(prefix, es, ListAll(Join(prefix, es.key), es.value)[0])
  {
    var x := ListAll(Join(prefix, es.key), es.value)[0];
    assert x == (Join(prefix, es.key), es.value) && HasEntry(es, es.key, x.1);
  }

  lemma LaterEntry(prefix: string, es: Entries, a: Listing, b: Listing, j: nat)
    requires es.Entry? && j < |b| && (IsChild(prefix, es.rest, b[j]) || AfterParent(b, j))
    ensures IsChild(prefix, es, (a + b)[|a| + j]) || AfterParent(a + b, |a| + j)
  {
    if IsChild(prefix, es.rest, b[j]) {
      var key: string :| b[j].0 == Join(prefix, key) && HasEntry(es.rest, key, b[j].1);
      assert HasEntry(es, key, b[j].1);
    } else {
      AfterParentMoves(a, b, [], j);
      assert a + b == a + b + [];
    }
  }

  function Append(a: Entries, b: Entries): Entries {
    if a.End? then b else Entry(a.key, a.value, Append(a.rest, b))
  }

  /** What is listed for earlier entries of a map comes before what is listed for later ones. */
  lemma {:induction false} EntriesInOrder(prefix: string, a: Entries, b: Entries)
    ensures ListEntries(prefix, Append(a, b)) == ListEntries(prefix, a) + ListEntries(prefix, b)
  {
    if a.Entry? {
      EntriesInOrder(prefix, a.rest, b);
      Assoc(ListAll(Join(prefix, a.key), a.value), ListEntries(prefix, a.rest), ListEntries(prefix, b));
    }
  }

  function Lower(s: string): string {
    if s == "" then "" else [LowerChar(s[0])] + Lower(s[1..])
  }

  /** Lower-casing changes nothing in a valid name. */
  lemma {:induction false} LowerOfValid(s: string)
    requires ValidName(s)
    ensures Lower(s) == s
  {
    if s != "" {
      assert ValidChar(s[0]);
      assert forall k :: 0 <= k < |s[1..]| ==> s[1..][k] == s[k + 1];
      LowerOfValid(s[1..]);
    }
  }

  lemma {:induction false} ListedAreValid(prefix: string, node: Node)
    ensures forall x :: x in ListAll(prefix, node) ==> ValidName(x.0)
    decreases node
  {
    if ValidName(prefix) && node.Map? {
      EntriesAreValid(prefix, node.entries);
    }
  }

  lemma {:induction false} EntriesAreValid(prefix: string, es: Entries)
    ensures forall x :: x in ListEntries(prefix, es) ==> ValidName(x.0)
    decreases es
  {
    if es.Entry? {
      ListedAreValid(Join(prefix, es.key), es.value);
      EntriesAreValid(prefix, es.rest);
    }
  }
}
