/** The registry of src/config.h and the loading of a document into it (src/config.cpp). */
module ConfigStore {
  import opened Basics
  import CV = ConfigVar
  import opened ConfigTree

  /** A variable, or why there is none: its name holds another type, or is not a valid name. */
  datatype Looked<T(==), C> = Found(v: CV.Variable<T, C>) | OtherType | InvalidArgument

  /** What of a variable stays while a document is loaded. */
  datatype Setup<!T, !C> = Setup(
    name: string, cast: string -> Option<T>, cbs: map<nat, C>, throws: (C, T, T) -> CV.Thrown)

  /** The pair `x` is under the name and casts. */
  predicate Casts<T, C>(x: (string, Node), s: Setup<T, C>) {
    x.0 == s.name && s.name != "" && s.cast(x.1.text).Some?
  }

  /** Loading the pair `x` into a variable of value `cur`: it must be of that name, cast, and be accepted. */
  ghost function LoadedOne<T, C>(x: (string, Node), s: Setup<T, C>, cur: T): T {
    if Casts(x, s) && CV.Accepted(s.cbs, s.throws, s.cast(x.1.text).value, cur) then s.cast(x.1.text).value else cur
  }

  /** Loading the pair `x` lets something out that is no std::exception. */
  ghost predicate Breaks<T, C>(x: (string, Node), s: Setup<T, C>, cur: T) {
    Casts(x, s) && CV.Escapes(s.cbs, s.throws, s.cast(x.1.text).value, cur)
  }

  /** Loading the pairs of `l` one after the other. */
  ghost function Loaded<T, C>(l: Listing, s: Setup<T, C>, cur: T): T {
    if l == [] then cur else LoadedOne(l[|l| - 1], s, Loaded(l[..|l| - 1], s, cur))
  }

  lemma LoadedNext<T, C>(l: Listing, k: nat, s: Setup<T, C>, cur: T)
    requires k < |l|
    ensures Loaded(l[..k + 1], s, cur) == LoadedOne(l[k], s, Loaded(l[..k], s, cur))
  {
    assert l[..k + 1][..k] == l[..k];
  }

  /** Where no listed pair is under the name and casts, the value stays. */
  lemma {:induction false} NothingCasts<T, C>(l: Listing, s: Setup<T, C>, cur: T)
    requires forall j :: 0 <= j < |l| ==> !Casts(l[j], s)
    ensures Loaded(l, s, cur) == cur
  {
    if l != [] {
      assert !Casts(l[|l| - 1], s);
      NothingCasts(l[..|l| - 1], s, cur);
    }
  }

  /** With listeners that accept every change, the last pair that is under the name and casts decides. */
  lemma {:induction false} LastCastStays<T(!new), C>(l: Listing, k: nat, s: Setup<T, C>, cur: T)
    requires forall v, w :: CV.Accepted(s.cbs, s.throws, v, w)
    requires k < |l| && Casts(l[k], s) && forall j :: k < j < |l| ==> !Casts(l[j], s)
    ensures Loaded(l, s, cur) == s.cast(l[k].1.text).value
    decreases |l|
  {
    if k < |l| - 1 {
      assert !Casts(l[|l| - 1], s);
      LastCastStays(l[..|l| - 1], k, s, cur);
    } else {
      assert CV.Accepted(s.cbs, s.throws, s.cast(l[k].1.text).value, Loaded(l[..k], s, cur));
    }
  }

  /** All pairs of `l` under the name `k` hold the node `n`, and there is one exactly if `n` is there. */
  ghost predicate OneNode(l: Listing, k: string, n: Option<Node>) {
    && (forall j :: 0 <= j < |l| && l[j].0 == k ==> Some(l[j].1) == n)
    && (n.Some? ==> exists j :: 0 <= j < |l| && l[j].0 == k)
  }

  lemma ListedOnce(root: Node, k: string)
    requires GoodTree(root) && ValidName(k)
    ensures OneNode(ListAll("", root), k, Walk(root, Split(k)))
  {
    hide ListAll, Walk, Split, GoodTree, ValidName;
    var l, n := ListAll("", root), Walk(root, Split(k));
    forall j | 0 <= j < |l| && l[j].0 == k ensures Some(l[j].1) == n {
      assert (k, l[j].1) in l;
      ListingIsLookup(root, k, l[j].1);
    }
    if n.Some? {
      ListingIsLookup(root, k, n.value);
      var j :| 0 <= j < |l| && l[j] == (k, n.value);
    }
  }

  /** Loading pairs that all hold the same node under the name: what one of them does, any more of them do not change. */
  lemma {:induction false} SameNodeLoaded<T, C>(l: Listing, s: Setup<T, C>, cur: T, n: Node)
    requires s.name != "" && forall j :: 0 <= j < |l| && l[j].0 == s.name ==> l[j].1 == n
    ensures (forall j :: 0 <= j < |l| ==> l[j].0 != s.name) || s.cast(n.text).None? ==> Loaded(l, s, cur) == cur
    ensures (exists j :: 0 <= j < |l| && l[j].0 == s.name) && s.cast(n.text).Some? ==>
              var v := s.cast(n.text).value;
              Loaded(l, s, cur) == if CV.Accepted(s.cbs, s.throws, v, cur) then v else cur
  {
    if l != [] {
      var front := l[..|l| - 1];
      SameNodeLoaded(front, s, cur, n);
      assert forall j :: 0 <= j < |front| ==> front[j] == l[j];
      hide CV.Accepted;
      AcceptedAgain(s, cur);
    }
  }

  lemma AcceptedAgain<T, C>(s: Setup<T, C>, v: T)
    ensures CV.Accepted(s.cbs, s.throws, v, v)
  {
  }

  /** A name whose path leads nowhere keeps its value. */
  lemma NotInDocument<T, C>(root: Node, s: Setup<T, C>, cur: T)
    requires GoodTree(root) && ValidName(s.name) && Walk(root, Split(s.name)).None?
    ensures Loaded(ListAll("", root), s, cur) == cur
  {
    hide ListAll, Walk, Split, GoodTree, ValidName;
    ListedOnce(root, s.name);
    NothingCasts(ListAll("", root), s, cur);
  }

  /**
   A name whose path leads to a node, of whatever kind, gets what the text of the node is
   cast to, provided that it casts and that no listener throws on the change.
   */
  lemma InDocument<T, C>(root: Node, s: Setup<T, C>, cur: T, n: Node)
    requires GoodTree(root) && ValidName(s.name) && s.name != "" && Walk(root, Split(s.name)) == Some(n)
    ensures s.cast(n.text).None? ==> Loaded(ListAll("", root), s, cur) == cur
    ensures s.cast(n.text).Some? ==>
              var v := s.cast(n.text).value;
              Loaded(ListAll("", root), s, cur) == if CV.Accepted(s.cbs, s.throws, v, cur) then v else cur
  {
    hide ListAll, Walk, Split, GoodTree, ValidName;
    ListedOnce(root, s.name);
    SameNodeLoaded(ListAll("", root), s, cur, n);
  }

  /** Some variable lets something out when the k-th pair is loaded, after those before it. */
  ghost predicate BreaksAt<T, C>(l: Listing, k: nat, ss: map<string, Setup<T, C>>, was: map<string, T>)
    requires k < |l| && ss.Keys == was.Keys
  {
    exists n :: n in ss && Breaks(l[k], ss[n], Loaded(l[..k], ss[n], was[n]))
  }

  /** The document holds, under the name, a node that casts to a value at which something gets out of a listener. */
  ghost predicate Stops<T, C>(root: Node, s: Setup<T, C>, cur: T) {
    var n := Walk(root, Split(s.name));
    s.name != "" && n.Some? && s.cast(n.value.text).Some? && CV.Escapes(s.cbs, s.throws, s.cast(n.value.text).value, cur)
  }

  ghost predicate NamesMatch<T, C>(ss: map<string, Setup<T, C>>) {
    forall n :: n in ss ==> ss[n].name == n && ValidName(n)
  }

  /** Loading a document stops early exactly when some variable's own node makes it. */
  lemma StopsExact<T, C>(root: Node, ss: map<string, Setup<T, C>>, was: map<string, T>)
    requires GoodTree(root) && NamesMatch(ss) && ss.Keys == was.Keys
    ensures (exists k :: 0 <= k < |ListAll("", root)| && BreaksAt(ListAll("", root), k, ss, was))
       <==> exists n :: n in ss && Stops(root, ss[n], was[n])
  {
    hide ListAll, Walk, Split, GoodTree, ValidName, Breaks, Stops;
    var l := ListAll("", root);
    if k :| 0 <= k < |l| && BreaksAt(l, k, ss, was) {
      var n :| n in ss && Breaks(l[k], ss[n], Loaded(l[..k], ss[n], was[n]));
      BreakerStops(root, k, ss[n], was[n]);
    }
    if n :| n in ss && Stops(root, ss[n], was[n]) {
      var k := StopperBreaks(root, ss[n], was[n]);
      assert BreaksAt(l, k, ss, was);
    }
  }

  lemma BreakerStops<T, C>(root: Node, k: nat, s: Setup<T, C>, was: T)
    requires GoodTree(root) && ValidName(s.name) && k < |ListAll("", root)|
    requires Breaks(ListAll("", root)[k], s, Loaded(ListAll("", root)[..k], s, was))
    ensures Stops(root, s, was)
  {
    hide ListAll, Walk, Split, GoodTree, ValidName;
    var l := ListAll("", root);
    ListedOnce(root, s.name);
    assert forall j :: 0 <= j < k ==> l[..k][j] == l[j];
    SameNodeLoaded(l[..k], s, was, l[k].1);
  }

  lemma StopperBreaks<T, C>(root: Node, s: Setup<T, C>, was: T) returns (k: nat)
    requires GoodTree(root) && ValidName(s.name) && Stops(root, s, was)
    ensures k < |ListAll("", root)| && Breaks(ListAll("", root)[k], s, Loaded(ListAll("", root)[..k], s, was))
  {
    hide ListAll, Walk, Split, GoodTree, ValidName;
    var l := ListAll("", root);
    ListedOnce(root, s.name);
    k := FirstUnder(l, s.name);
    NothingCasts(l[..k], s, was);
  }

  lemma {:induction false} FirstUnder(l: Listing, name: string) returns (k: nat)
    requires exists j :: 0 <= j < |l| && l[j].0 == name
    ensures k < |l| && l[k].0 == name && forall j :: 0 <= j < k ==> l[j].0 != name
  {
    var last :| 0 <= last < |l| && l[last].0 == name;
    k := last;
    if j :| 0 <= j < last && l[j].0 == name {
      assert l[..last][j] == l[j];
      k := FirstUnder(l[..last], name);
      assert forall i :: 0 <= i < |l[..last]| ==> l[..last][i] == l[i];
    }
  }

  /** The output list of the flattening, filled in place. */
  class NodeList {
    var nodes: Listing
    constructor () ensures nodes == [] { nodes := []; }
  }

  method ListAllMember(prefix: string, node: Node, output: NodeList)
    modifies output
    ensures output.nodes == old(output.nodes) + ListAll(prefix, node)
    decreases node
  {
    if !ValidName(prefix) {
      assert output.nodes + [] == output.nodes;
      return;
    }
    output.nodes := output.nodes + [(prefix, node)];
    if node.Map? {
      ghost var all := output.nodes + ListEntries(prefix, node.entries);
      NodesOfMap(old(output.nodes), prefix, node);
      hide ListAll, ListEntries, ValidName;
      var it := node.entries;
      while it.Entry?
        invariant it.Entry? ==> it < node
        invariant output.nodes + ListEntries(prefix, it) == all
        decreases it
      {
        NodesNext(output.nodes, prefix, it);
        ListAllMember(if prefix == "" then it.key else prefix + "." + it.key, it.value, output);
        it := it.rest;
      }
      NodesDone(output.nodes, prefix, it);
    }
  }

  lemma NodesOfMap(nodes: Listing, prefix: string, node: Node)
    requires ValidName(prefix) && node.Map?
    ensures nodes + [(prefix, node)] + ListEntries(prefix, node.entries) == nodes + ListAll(prefix, node)
  {
    Assoc(nodes, [(prefix, node)], ListEntries(prefix, node.entries));
  }

  lemma NodesNext(nodes: Listing, prefix: string, es: Entries)
    requires es.Entry?
    ensures nodes + ListEntries(prefix, es) ==
            nodes + ListAll(Join(prefix, es.key), es.value) + ListEntries(prefix, es.rest)
  {
    Assoc(nodes, ListAll(Join(prefix, es.key), es.value), ListEntries(prefix, es.rest));
  }

  lemma NodesDone(nodes: Listing, prefix: string, es: Entries)
    requires es.End?
    ensures nodes + ListEntries(prefix, es) == nodes
  {
  }

  class Config<T(==), C> {
    var datas: map<string, CV.Variable<T, C>>

    constructor ()
      ensures datas == map[] && Valid()
    {
      datas := map[];
    }

    ghost predicate Valid()
      reads this
    {
      forall n :: n in datas ==> datas[n].name == n && ValidName(n)
    }

    method LookUp(name: string, def: T, typeTag: nat, fromStr: string -> Option<T>, throws: (C, T, T) -> CV.Thrown,
                  ids: CV.IdSource)
      returns (r: Looked<T, C>)
      requires Valid()
      modifies this
      ensures Valid()
      ensures name in old(datas) ==>
                datas == old(datas) && r == if datas[name].typeTag == typeTag then Found(datas[name]) else OtherType
      ensures name !in old(datas) && !ValidName(name) ==> datas == old(datas) && r == InvalidArgument
      ensures name !in old(datas) && ValidName(name) ==>
                r.Found? && fresh(r.v) && datas == old(datas)[name := r.v]
                && r.v.val == def && r.v.cbs == map[] && r.v.typeTag == typeTag && r.v.fromStr == fromStr
    {
      if name in datas {
        var tmp := datas[name];
        return if tmp.typeTag == typeTag then Found(tmp) else OtherType;
      }
      if !ValidName(name) {
        return InvalidArgument;
      }
      var v := new CV.Variable(name, def, typeTag, fromStr, throws, ids);
      datas := datas[name := v];
      return Found(v);
    }

    ghost function SetupOf(n: string): Setup<T, C>
      requires n in datas
      reads this, datas.Values`cbs
    {
      Setup(n, datas[n].fromStr, datas[n].cbs, datas[n].throws)
    }

    ghost function Setups(): map<string, Setup<T, C>>
      reads this, datas.Values`cbs
    {
      map n | n in datas :: SetupOf(n)
    }

    ghost function Vals(): map<string, T>
      reads this, datas.Values
    {
      map n | n in datas :: datas[n].val
    }

    /** The work on one listed node. */
    method LoadNode(x: (string, Node)) returns (escaped: bool)
      requires Valid() && ValidName(x.0)
      modifies datas.Values`val, datas.Values`Fired
      ensures forall n :: n in datas ==> datas[n].val == LoadedOne(x, SetupOf(n), old(datas[n].val))
      ensures escaped <==> exists n :: n in datas && Breaks(x, SetupOf(n), old(datas[n].val))
      ensures escaped ==> forall n :: n in datas ==> datas[n].val == old(datas[n].val)
    {
      var key := x.0;
      if key == "" {
        return false;
      }
      LowerOfValid(key);
      key := Lower(key);
      if key in datas {
        assert forall n :: n in datas && n != key ==> datas[n] != datas[key];
        var ok, out, es := datas[key].FromString(x.1.text);
        assert out <==> Breaks(x, SetupOf(key), old(datas[key].val));
        return out;
      }
      return false;
    }

    /** The first `k` pairs have been loaded into variables set up as `ss` that had the values `was`. */
    ghost predicate Progress(l: Listing, k: nat, ss: map<string, Setup<T, C>>, was: map<string, T>)
      requires k <= |l|
      reads this, datas.Values
    {
      && ss.Keys == was.Keys == datas.Keys
      && forall n :: n in datas ==> SetupOf(n) == ss[n] && datas[n].val == Loaded(l[..k], ss[n], was[n])
    }

    /** One turn of the loop over the listed nodes. */
    method LoadNth(l: Listing, k: nat, ghost ss: map<string, Setup<T, C>>, ghost was: map<string, T>)
      returns (escaped: bool)
      requires Valid() && k < |l| && ValidName(l[k].0) && Progress(l, k, ss, was)
      modifies datas.Values`val, datas.Values`Fired
      ensures escaped <==> BreaksAt(l, k, ss, was)
      ensures Progress(l, if escaped then k else k + 1, ss, was)
    {
      hide LoadedOne, Loaded, Breaks;
      forall n | n in ss ensures Loaded(l[..k + 1], ss[n], was[n]) == LoadedOne(l[k], ss[n], Loaded(l[..k], ss[n], was[n])) {
        LoadedNext(l, k, ss[n], was[n]);
      }
      escaped := LoadNode(l[k]);
    }

    /** The loop over the listed nodes, up to the first that lets something out. */
    method LoadList(l: Listing, ghost ss: map<string, Setup<T, C>>, ghost was: map<string, T>) returns (done: nat)
      requires Valid() && ss.Keys == was.Keys && Progress(l, 0, ss, was) && forall x :: x in l ==> ValidName(x.0)
      modifies datas.Values`val, datas.Values`Fired
      ensures done <= |l| && Progress(l, done, ss, was)
      ensures forall k :: 0 <= k < done ==> !BreaksAt(l, k, ss, was)
      ensures done < |l| ==> BreaksAt(l, done, ss, was)
    {
      hide *;
      done := 0;
      while done < |l|
        modifies datas.Values`val, datas.Values`Fired
        invariant done <= |l| && Progress(l, done, ss, was)
        invariant forall k :: 0 <= k < done ==> !BreaksAt(l, k, ss, was)
      {
        var escaped := LoadNth(l, done, ss, was);
        if escaped {
          return;
        }
        done := done + 1;
      }
    }

    /**
     Loading the listed nodes. It goes up to the first one, if there is any, at which a
     listener throws something other than a std::exception. Every registered variable ends
     with the cast of the last node up to there under its name that casts and that no
     listener throws on, and keeps its value if there is none.
     */
    method LoadListed(root: Node) returns (done: nat)
      requires Valid()
      modifies datas.Values`val, datas.Values`Fired
      ensures done <= |ListAll("", root)| && Progress(ListAll("", root), done, old(Setups()), old(Vals()))
      ensures forall k :: 0 <= k < done ==> !BreaksAt(ListAll("", root), k, old(Setups()), old(Vals()))
      ensures done < |ListAll("", root)| ==> BreaksAt(ListAll("", root), done, old(Setups()), old(Vals()))
    {
      var all := new NodeList();
      ListAllMember("", root, all);
      ListedAreValid("", root);
      assert all.nodes == ListAll("", root);
      assert Setups() == old(Setups()) && Vals() == old(Vals());
      NothingLoaded(all.nodes);
      done := LoadList(all.nodes, Setups(), Vals());
    }

    /**
     Loading a document. Where keys have no dots, are not empty and occur once in each map,
     loading goes to the end exactly if no variable's own node makes a listener throw
     something other than a std::exception. Then every variable has what the node that its
     dotted name leads to, of whatever kind it is, casts to, provided that there is one,
     that it casts and that no listener throws on the change; any other keeps its value.
     */
    method LoadFromYaml(root: Node) returns (done: nat)
      requires Valid()
      modifies datas.Values`val, datas.Values`Fired
      ensures Valid() && done <= |ListAll("", root)|
      ensures Progress(ListAll("", root), done, old(Setups()), old(Vals()))
      ensures GoodTree(root) ==>
                (done == |ListAll("", root)| <==> forall n :: n in datas ==> !Stops(root, SetupOf(n), old(datas[n].val)))
      ensures GoodTree(root) && done == |ListAll("", root)| ==>
                forall n :: n in datas ==>
                  var v, node := datas[n], Walk(root, Split(n));
                  v.val == if && n != "" && node.Some? && v.fromStr(node.value.text).Some?
                              && CV.Accepted(v.cbs, v.throws, v.fromStr(node.value.text).value, old(v.val))
                           then v.fromStr(node.value.text).value else old(v.val)
    {
      ghost var ss, was := Setups(), Vals();
      assert NamesMatch(ss);
      done := LoadListed(root);
      if GoodTree(root) {
        StopsExact(root, ss, was);
        assert forall n :: n in datas ==> SetupOf(n) == ss[n] && was[n] == old(datas[n].val);
        hide *;
        if done == |ListAll("", root)| {
          AllTaken(root, ss, was);
        }
      }
    }

    /** What every variable has when all of a document has been loaded. */
    lemma AllTaken(root: Node, ss: map<string, Setup<T, C>>, was: map<string, T>)
      requires GoodTree(root) && Valid() && Progress(ListAll("", root), |ListAll("", root)|, ss, was)
      ensures forall n :: n in datas ==>
                var v, node := datas[n], Walk(root, Split(n));
                v.val == if && n != "" && node.Some? && v.fromStr(node.value.text).Some?
                            && CV.Accepted(v.cbs, v.throws, v.fromStr(node.value.text).value, was[n])
                         then v.fromStr(node.value.text).value else was[n]
    {
      hide ListAll, Walk, Split, GoodTree, ValidName, Loaded, CV.Accepted;
      var l := ListAll("", root);
      assert l[..|l|] == l;
      forall n | n in datas
        ensures var v, node := datas[n], Walk(root, Split(n));
                v.val == if && n != "" && node.Some? && v.fromStr(node.value.text).Some?
                            && CV.Accepted(v.cbs, v.throws, v.fromStr(node.value.text).value, was[n])
                         then v.fromStr(node.value.text).value else was[n]
      {
        var node := Walk(root, Split(n));
        if n == "" {
          NothingCasts(l, ss[n], was[n]);
        } else if node.None? {
          NotInDocument(root, ss[n], was[n]);
        } else {
          InDocument(root, ss[n], was[n], node.value);
        }
      }
    }

    lemma NothingLoaded(l: Listing)
      ensures Setups().Keys == Vals().Keys && Progress(l, 0, Setups(), Vals())
    {
      assert l[..0] == [];
    }
  }
}
