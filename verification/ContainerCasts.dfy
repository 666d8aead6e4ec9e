/**
 The casts of src/config.h between texts and containers. The YAML library is given by its
 operations; `load` and the casts of single elements may fail, which stands for the
 exceptions of the source.
 */
module ContainerCasts {
  import opened Basics

  datatype Yaml<!N> = Yaml(
    load: string -> Option<N>, emit: N -> string,
    items: N -> seq<N>, list: seq<N> -> N,
    entries: N -> seq<(string, N)>, mapping: seq<(string, N)> -> N)

  /** A cast from text and one to text. */
  datatype Codec<!T> = Codec(from: string -> Option<T>, to: T -> Option<string>)

  // ------------------------------------------------------------------
  // Reading
  // ------------------------------------------------------------------

  /** The values of the nodes, in order; none if one of them does not cast. */
  function CastAll<N, T>(y: Yaml<N>, c: Codec<T>, ns: seq<N>): Option<seq<T>>
    decreases |ns|
  {
    if ns == [] then Some([]) else
    var init := CastAll(y, c, ns[..|ns| - 1]);
    var last := c.from(y.emit(ns[|ns| - 1]));
    if init.Some? && last.Some? then Some(init.value + [last.value]) else None
  }

  function ListFrom<N, T>(y: Yaml<N>, c: Codec<T>, v: string): Option<seq<T>> {
    var node := y.load(v);
    if node.None? then None else CastAll(y, c, y.items(node.value))
  }

  lemma {:induction false} CastAllPrefix<N, T>(y: Yaml<N>, c: Codec<T>, ns: seq<N>, k: nat)
    requires k <= |ns| && CastAll(y, c, ns).Some?
    ensures CastAll(y, c, ns[..k]).Some? && |CastAll(y, c, ns).value| == |ns|
    decreases |ns|
  {
    if k < |ns| {
      CastAllPrefix(y, c, ns[..|ns| - 1], k);
      assert ns[..|ns| - 1][..k] == ns[..k];
    } else if ns != [] {
      CastAllPrefix(y, c, ns[..|ns| - 1], |ns| - 1);
      assert ns[..k] == ns;
    }
  }

  /** Reading succeeds exactly if every node casts; the value at a place is what the node there casts to. */
  lemma {:induction false} CastAllExists<N, T>(y: Yaml<N>, c: Codec<T>, ns: seq<N>)
    ensures CastAll(y, c, ns).Some? <==> forall k :: 0 <= k < |ns| ==> c.from(y.emit(ns[k])).Some?
    ensures CastAll(y, c, ns).Some? ==>
              && |CastAll(y, c, ns).value| == |ns|
              && forall k :: 0 <= k < |ns| ==> c.from(y.emit(ns[k])) == Some(CastAll(y, c, ns).value[k])
    decreases |ns|
  {
    if ns != [] {
      CastAllExists(y, c, ns[..|ns| - 1]);
    }
  }

  /** string to vector, and to list */
  method CastVector<N, T>(y: Yaml<N>, c: Codec<T>, v: string) returns (r: Option<seq<T>>)
    ensures r == ListFrom(y, c, v)
  {
    var node := y.load(v);
    if node.None? {
      return None;
    }
    var ns := y.items(node.value);
    var vec := [];
    assert ns[..|ns|] == ns;
    for i := 0 to |ns|
      invariant CastAll(y, c, ns[..i]) == Some(vec)
    {
      assert ns[..i + 1][..i] == ns[..i];
      var x := c.from(y.emit(ns[i]));
      if x.None? {
        if CastAll(y, c, ns).Some? { CastAllPrefix(y, c, ns, i + 1); }
        return None;
      }
      vec := vec + [x.value];
    }
    return Some(vec);
  }

  /** string to set, and to unordered_set: the same values, without order and repetition */
  method CastSet<N, T(==)>(y: Yaml<N>, c: Codec<T>, v: string) returns (r: Option<set<T>>)
    ensures ListFrom(y, c, v).None? ==> r == None
    ensures ListFrom(y, c, v).Some? ==> r == Some(SetOf(ListFrom(y, c, v).value))
  {
    var node := y.load(v);
    if node.None? {
      return None;
    }
    var ns := y.items(node.value);
    var vec := {};
    assert ns[..|ns|] == ns;
    for i := 0 to |ns|
      invariant CastAll(y, c, ns[..i]).Some? && vec == SetOf(CastAll(y, c, ns[..i]).value)
    {
      assert ns[..i + 1][..i] == ns[..i];
      var x := c.from(y.emit(ns[i]));
      if x.None? {
        if CastAll(y, c, ns).Some? { CastAllPrefix(y, c, ns, i + 1); }
        return None;
      }
      vec := vec + {x.value};
    }
    return Some(vec);
  }

  /** Entries in document order; `insert` keeps the first value given to a key. */
  function CastEntries<N, T>(y: Yaml<N>, c: Codec<T>, es: seq<(string, N)>): Option<map<string, T>>
    decreases |es|
  {
    if es == [] then Some(map[]) else
    var init := CastEntries(y, c, es[..|es| - 1]);
    var (key, node) := es[|es| - 1];
    var last := c.from(y.emit(node));
    if init.Some? && last.Some? then Some(Inserted(init.value, key, last.value)) else None
  }

  function Inserted<T>(m: map<string, T>, key: string, v: T): map<string, T> {
    if key in m then m else m[key := v]
  }

  function MapFrom<N, T>(y: Yaml<N>, c: Codec<T>, v: string): Option<map<string, T>> {
    var node := y.load(v);
    if node.None? then None else CastEntries(y, c, y.entries(node.value))
  }

  lemma {:induction false} CastEntriesPrefix<N, T>(y: Yaml<N>, c: Codec<T>, es: seq<(string, N)>, k: nat)
    requires k <= |es| && CastEntries(y, c, es).Some?
    ensures CastEntries(y, c, es[..k]).Some?
    decreases |es|
  {
    if k < |es| {
      CastEntriesPrefix(y, c, es[..|es| - 1], k);
      assert es[..|es| - 1][..k] == es[..k];
    } else {
      assert es[..k] == es;
    }
  }

  /** The entry at `i` is the first with its key. */
  ghost predicate IsFirst<N>(es: seq<(string, N)>, i: nat)
    requires i < |es|
  {
    forall j :: 0 <= j < i ==> es[j].0 != es[i].0
  }

  /** Reading succeeds exactly if every value casts. */
  lemma {:induction false} CastEntriesExists<N, T>(y: Yaml<N>, c: Codec<T>, es: seq<(string, N)>)
    ensures CastEntries(y, c, es).Some? <==> forall k :: 0 <= k < |es| ==> c.from(y.emit(es[k].1)).Some?
    decreases |es|
  {
    if es != [] {
      CastEntriesExists(y, c, es[..|es| - 1]);
    }
  }

  /** The map then holds the key of every entry, with the value of the first entry that has it. */
  lemma {:induction false} FirstStays<N, T>(y: Yaml<N>, c: Codec<T>, es: seq<(string, N)>, k: nat)
    requires k < |es| && CastEntries(y, c, es).Some?
    ensures es[k].0 in CastEntries(y, c, es).value
    ensures IsFirst(es, k) ==> c.from(y.emit(es[k].1)) == Some(CastEntries(y, c, es).value[es[k].0])
    decreases |es|
  {
    var front := es[..|es| - 1];
    if k < |front| {
      assert IsFirst(es, k) <==> IsFirst(front, k);
      FirstStays(y, c, front, k);
    } else if es[k].0 in CastEntries(y, c, front).value {
      CastEntriesKeys(y, c, front, es[k].0);
    }
  }

  /** string to map, and to unordered_map */
  method CastMap<N, T>(y: Yaml<N>, c: Codec<T>, v: string) returns (r: Option<map<string, T>>)
    ensures r == MapFrom(y, c, v)
  {
    var node := y.load(v);
    if node.None? {
      return None;
    }
    var es := y.entries(node.value);
    var vec: map<string, T> := map[];
    assert es[..|es|] == es;
    for i := 0 to |es|
      invariant CastEntries(y, c, es[..i]) == Some(vec)
    {
      assert es[..i + 1][..i] == es[..i];
      var x := c.from(y.emit(es[i].1));
      if x.None? {
        if CastEntries(y, c, es).Some? { CastEntriesPrefix(y, c, es, i + 1); }
        return None;
      }
      vec := Inserted(vec, es[i].0, x.value);
    }
    return Some(vec);
  }

  // ------------------------------------------------------------------
  // Writing
  // ------------------------------------------------------------------

  /** The node that an element becomes: its text, loaded again. */
  function Loaded<N, T>(y: Yaml<N>, c: Codec<T>, x: T): Option<N> {
    var text := c.to(x);
    if text.None? then None else y.load(text.value)
  }

  function LoadAll<N, T>(y: Yaml<N>, c: Codec<T>, xs: seq<T>): Option<seq<N>>
    decreases |xs|
  {
    if xs == [] then Some([]) else
    var init := LoadAll(y, c, xs[..|xs| - 1]);
    var last := Loaded(y, c, xs[|xs| - 1]);
    if init.Some? && last.Some? then Some(init.value + [last.value]) else None
  }

  function ListTo<N, T>(y: Yaml<N>, c: Codec<T>, xs: seq<T>): Option<string> {
    var ns := LoadAll(y, c, xs);
    if ns.None? then None else Some(y.emit(y.list(ns.value)))
  }

  lemma {:induction false} LoadAllAt<N, T>(y: Yaml<N>, c: Codec<T>, xs: seq<T>, k: nat)
    requires k < |xs| && LoadAll(y, c, xs).Some?
    ensures |LoadAll(y, c, xs).value| == |xs| && Loaded(y, c, xs[k]) == Some(LoadAll(y, c, xs).value[k])
    decreases |xs|
  {
    if |xs| > 1 {
      LoadAllAt(y, c, xs[..|xs| - 1], if k < |xs| - 1 then k else 0);
    }
  }

  /** Writing succeeds exactly if every element becomes a node. */
  lemma {:induction false} LoadAllExists<N, T>(y: Yaml<N>, c: Codec<T>, xs: seq<T>)
    ensures LoadAll(y, c, xs).Some? <==> forall k :: 0 <= k < |xs| ==> Loaded(y, c, xs[k]).Some?
    decreases |xs|
  {
    if xs != [] {
      LoadAllExists(y, c, xs[..|xs| - 1]);
    }
  }

  /** vector, list, set and unordered_set to string, the elements in the order of iteration */
  method PrintVector<N, T>(y: Yaml<N>, c: Codec<T>, xs: seq<T>) returns (r: Option<string>)
    ensures r == ListTo(y, c, xs)
  {
    var ns := [];
    assert xs[..|xs|] == xs;
    for i := 0 to |xs|
      invariant LoadAll(y, c, xs[..i]) == Some(ns)
    {
      assert xs[..i + 1][..i] == xs[..i];
      var n := Loaded(y, c, xs[i]);
      if n.None? {
        if LoadAll(y, c, xs).Some? { LoadAllAt(y, c, xs, i); }
        return None;
      }
      ns := ns + [n.value];
    }
    return Some(y.emit(y.list(ns)));
  }

  // ------------------------------------------------------------------
  // Round trips
  // ------------------------------------------------------------------

  /** The YAML library reads back the sequences that it writes. */
  ghost predicate KeepsList<N>(y: Yaml<N>, ns: seq<N>) {
    y.load(y.emit(y.list(ns))) == Some(y.list(ns)) && y.items(y.list(ns)) == ns
  }

  /** Written, loaded as a node, written out by YAML and cast, the value is the same again. */
  ghost predicate Survives<N, T>(y: Yaml<N>, c: Codec<T>, x: T) {
    Loaded(y, c, x).Some? && c.from(y.emit(Loaded(y, c, x).value)) == Some(x)
  }

  lemma {:induction false} CastAllIs<N, T>(y: Yaml<N>, c: Codec<T>, ns: seq<N>, xs: seq<T>)
    requires |ns| == |xs|
    ensures CastAll(y, c, ns) == Some(xs) <==> forall k :: 0 <= k < |ns| ==> c.from(y.emit(ns[k])) == Some(xs[k])
    decreases |ns|
  {
    if ns != [] {
      var n := |ns| - 1;
      CastAllIs(y, c, ns[..n], xs[..n]);
      assert xs == xs[..n] + [xs[n]];
      assert CastAll(y, c, ns) == Some(xs) <==>
        CastAll(y, c, ns[..n]) == Some(xs[..n]) && c.from(y.emit(ns[n])) == Some(xs[n]);
    }
  }

  lemma CastAllExact<N, T>(y: Yaml<N>, c: Codec<T>, xs: seq<T>, ns: seq<N>)
    requires LoadAll(y, c, xs) == Some(ns) && |ns| == |xs|
    ensures CastAll(y, c, ns) == Some(xs) <==> forall x :: x in xs ==> Survives(y, c, x)
  {
    CastAllIs(y, c, ns, xs);
    forall k | 0 <= k < |xs| ensures c.from(y.emit(ns[k])) == Some(xs[k]) <==> Survives(y, c, xs[k]) {
      LoadAllAt(y, c, xs, k);
    }
  }

  /** A container written to text reads back as it was exactly when each of its elements survives. */
  lemma ListRoundTrip<N, T>(y: Yaml<N>, c: Codec<T>, xs: seq<T>)
    requires LoadAll(y, c, xs).Some? && KeepsList(y, LoadAll(y, c, xs).value)
    ensures ListFrom(y, c, ListTo(y, c, xs).value) == Some(xs) <==> forall x :: x in xs ==> Survives(y, c, x)
  {
    if xs != [] { LoadAllAt(y, c, xs, 0); }
    CastAllExact(y, c, xs, LoadAll(y, c, xs).value);
  }

  /** The cast of containers, as the cast of elements of an outer container. */
  function ListCodec<N, T>(y: Yaml<N>, c: Codec<T>): Codec<seq<T>> {
    Codec(v => ListFrom(y, c, v), xs => ListTo(y, c, xs))
  }

  /** So the round trip carries over to containers of containers, to any depth. */
  lemma NestedRoundTrip<N, T>(y: Yaml<N>, c: Codec<T>, xs: seq<T>)
    requires LoadAll(y, c, xs).Some? && KeepsList(y, LoadAll(y, c, xs).value)
    ensures Survives(y, ListCodec(y, c), xs) <==> forall x :: x in xs ==> Survives(y, c, x)
  {
    ListRoundTrip(y, c, xs);
    assert Loaded(y, ListCodec(y, c), xs) == Some(y.list(LoadAll(y, c, xs).value));
  }

  /** A map iterated in some order, each key once. */
  ghost predicate Iterates<T>(keys: seq<string>, m: map<string, T>) {
    && (forall k :: k in m <==> k in keys)
    && forall i, j :: 0 <= i < j < |keys| ==> keys[i] != keys[j]
  }

  /** The entries of a map as nodes. */
  function LoadEntries<N, T>(y: Yaml<N>, c: Codec<T>, m: map<string, T>, keys: seq<string>): Option<seq<(string, N)>>
    requires forall k :: k in keys ==> k in m
    decreases |keys|
  {
    if keys == [] then Some([]) else
    var key := keys[|keys| - 1];
    var init := LoadEntries(y, c, m, keys[..|keys| - 1]);
    var last := Loaded(y, c, m[key]);
    if init.Some? && last.Some? then Some(init.value + [(key, last.value)]) else None
  }

  ghost predicate KeepsMapping<N>(y: Yaml<N>, es: seq<(string, N)>) {
    y.load(y.emit(y.mapping(es))) == Some(y.mapping(es)) && y.entries(y.mapping(es)) == es
  }

  function MapTo<N, T>(y: Yaml<N>, c: Codec<T>, m: map<string, T>, keys: seq<string>): Option<string>
    requires forall k :: k in keys ==> k in m
  {
    var es := LoadEntries(y, c, m, keys);
    if es.None? then None else Some(y.emit(y.mapping(es.value)))
  }

  lemma {:induction false} LoadedAt<N, T>(y: Yaml<N>, c: Codec<T>, m: map<string, T>, keys: seq<string>, k: nat)
    requires (forall k :: k in keys ==> k in m) && LoadEntries(y, c, m, keys).Some? && k < |keys|
    ensures var es := LoadEntries(y, c, m, keys).value;
            |es| == |keys| && es[k].0 == keys[k] && Loaded(y, c, m[keys[k]]) == Some(es[k].1)
    decreases |keys|
  {
    if |keys| > 1 {
      LoadedAt(y, c, m, keys[..|keys| - 1], if k < |keys| - 1 then k else 0);
    }
  }

  lemma {:induction false} LoadEntriesExists<N, T>(y: Yaml<N>, c: Codec<T>, m: map<string, T>, keys: seq<string>)
    requires forall k :: k in keys ==> k in m
    ensures LoadEntries(y, c, m, keys).Some? <==> forall k :: k in keys ==> Loaded(y, c, m[k]).Some?
    decreases |keys|
  {
    if keys != [] {
      var front := keys[..|keys| - 1];
      LoadEntriesExists(y, c, m, front);
      assert forall k :: k in keys <==> k in front || k == keys[|keys| - 1];
    }
  }

  /** The entries are those of the map, each key once. */
  ghost predicate Lists<N, T>(es: seq<(string, N)>, m: map<string, T>) {
    && (forall i :: 0 <= i < |es| ==> es[i].0 in m)
    && (forall k :: k in m ==> exists i :: 0 <= i < |es| && es[i].0 == k)
    && forall i, j :: 0 <= i < j < |es| ==> es[i].0 != es[j].0
  }

  /** And no other keys. */
  lemma {:induction false} CastEntriesKeys<N, T>(y: Yaml<N>, c: Codec<T>, es: seq<(string, N)>, k: string)
    requires CastEntries(y, c, es).Some? && k in CastEntries(y, c, es).value
    ensures exists i :: 0 <= i < |es| && es[i].0 == k
    decreases |es|
  {
    if es != [] {
      var (key, node) := es[|es| - 1];
      if k != key {
        CastEntriesKeys(y, c, es[..|es| - 1], k);
        var i :| 0 <= i < |es| - 1 && es[..|es| - 1][i].0 == k;
        assert es[i].0 == k;
      }
    }
  }

  lemma ListsLess<N, T>(es: seq<(string, N)>, m: map<string, T>)
    requires Lists(es, m) && es != []
    ensures Lists(es[..|es| - 1], m - {es[|es| - 1].0})
  {
    var n := |es| - 1;
    var mi := m - {es[n].0};
    forall k | k in mi ensures exists i :: 0 <= i < n && es[..n][i].0 == k {
      var i :| 0 <= i < |es| && es[i].0 == k;
      assert es[..n][i].0 == k;
    }
  }

  lemma {:induction false} CastEntriesIs<N, T>(y: Yaml<N>, c: Codec<T>, es: seq<(string, N)>, m: map<string, T>)
    requires Lists(es, m)
    ensures CastEntries(y, c, es) == Some(m) <==>
            forall i :: 0 <= i < |es| ==> c.from(y.emit(es[i].1)) == Some(m[es[i].0])
    decreases |es|
  {
    if es == [] {
      assert m == map[];
    } else {
      var n := |es| - 1;
      var mi := m - {es[n].0};
      ListsLess(es, m);
      CastEntriesIs(y, c, es[..n], mi);
      LastEntry(y, c, es, m);
      forall i | 0 <= i < n ensures es[..n][i] == es[i] && es[i].0 in mi && mi[es[i].0] == m[es[i].0] {
      }
      hide CastEntries, Lists;
    }
  }

  lemma LastEntry<N, T>(y: Yaml<N>, c: Codec<T>, es: seq<(string, N)>, m: map<string, T>)
    requires Lists(es, m) && es != []
    ensures CastEntries(y, c, es) == Some(m) <==>
            CastEntries(y, c, es[..|es| - 1]) == Some(m - {es[|es| - 1].0})
            && c.from(y.emit(es[|es| - 1].1)) == Some(m[es[|es| - 1].0])
  {
    var n := |es| - 1;
    var (key, node) := es[n];
    var init := CastEntries(y, c, es[..n]);
    assert m == (m - {key})[key := m[key]];
    if init.Some? && key in init.value {
      CastEntriesKeys(y, c, es[..n], key);
      assert false;
    }
    if init.Some? {
      assert init.value[key := m[key]] - {key} == init.value;
    }
  }

  /** The same for maps, in whatever order they are iterated. */
  lemma MapRoundTrip<N, T>(y: Yaml<N>, c: Codec<T>, m: map<string, T>, keys: seq<string>)
    requires Iterates(keys, m) && LoadEntries(y, c, m, keys).Some?
    requires KeepsMapping(y, LoadEntries(y, c, m, keys).value)
    ensures MapFrom(y, c, MapTo(y, c, m, keys).value) == Some(m) <==> forall k :: k in m ==> Survives(y, c, m[k])
  {
    var es := LoadEntries(y, c, m, keys).value;
    forall i | 0 <= i < |keys|
      ensures |es| == |keys| && es[i].0 == keys[i] && Loaded(y, c, m[keys[i]]) == Some(es[i].1)
    {
      LoadedAt(y, c, m, keys, i);
    }
    assert |es| == |keys|;
    forall k | k in m ensures exists i :: 0 <= i < |es| && es[i].0 == k {
      var i :| 0 <= i < |keys| && keys[i] == k;
      assert es[i].0 == k;
    }
    CastEntriesIs(y, c, es, m);
  }
}
