/**
 One configuration variable of src/config.h: its value, its listeners, and the
 notifications that a run of serialised operations delivers.
 */
module ConfigVar {
  import opened Basics

  /** One call of the listener `id`, with the new and the old value. */
  datatype Event<T> = Event(id: nat, new_: T, old_: T)

  // ------------------------------------------------------------------
  // The variable as a value
  // ------------------------------------------------------------------

  /** The value, the ids of the listeners and the last id handed out. */
  datatype State<T> = State(val: T, ids: set<nat>, lastId: nat) {
    /** Ids are handed out in order and never twice. */
    ghost predicate Valid() {
      forall i :: i in ids ==> 0 < i <= lastId
    }
  }

  /** `own` is false when the counter is moved on by another variable of the same type. */
  datatype Op<T> = Set(v: T) | Add(own: bool) | Del(id: nat) | Clear

  function Apply<T>(s: State<T>, op: Op<T>): State<T> {
    match op
    case Set(v) => s.(val := v)
    case Add(own) => State(s.val, if own then s.ids + {s.lastId + 1} else s.ids, s.lastId + 1)
    case Del(id) => s.(ids := s.ids - {id})
    case Clear => s.(ids := {})
  }

  ghost predicate Ascending<T>(es: seq<Event<T>>) {
    forall i, j :: 0 <= i < j < |es| ==> es[i].id < es[j].id
  }

  ghost function Ids<T>(es: seq<Event<T>>): set<nat> {
    set e | e in es :: e.id
  }

  /** What one operation must notify: a change reaches every listener once, in order of id. */
  ghost predicate Notifies<T>(s: State<T>, op: Op<T>, es: seq<Event<T>>) {
    if op.Set? && op.v != s.val then
      && Ascending(es) && Ids(es) == s.ids
      && forall e :: e in es ==> e.new_ == op.v && e.old_ == s.val
    else es == []
  }

  ghost function RunState<T>(s: State<T>, ops: seq<Op<T>>): State<T>
    decreases |ops|
  {
    if ops == [] then s else RunState(Apply(s, ops[0]), ops[1..])
  }

  /** `log[k]` is what operation `k` of the run notified. */
  ghost predicate IsRun<T>(s: State<T>, ops: seq<Op<T>>, log: seq<seq<Event<T>>>)
    decreases |ops|
  {
    && |log| == |ops|
    && (ops == [] || (Notifies(s, ops[0], log[0]) && IsRun(Apply(s, ops[0]), ops[1..], log[1..])))
  }

  /** The calls of the listener `id` among `es`, in order. */
  function CallsIn<T>(es: seq<Event<T>>, id: nat): seq<Event<T>> {
    if es == [] then [] else (if es[0].id == id then [es[0]] else []) + CallsIn(es[1..], id)
  }

  function Calls<T>(log: seq<seq<Event<T>>>, id: nat): seq<Event<T>> {
    if log == [] then [] else CallsIn(log[0], id) + Calls(log[1..], id)
  }

  /** An unbroken chain of changes leading from `from` to `to`; no link joins equal values. */
  ghost predicate Chain<T>(es: seq<Event<T>>, from: T, to: T) {
    if es == [] then from == to
    else es[0].old_ == from && es[0].new_ != from && Chain(es[1..], es[0].new_, to)
  }

  /** The listener `id` is registered before every operation of the run and after the last one. */
  ghost predicate Registered<T>(s: State<T>, ops: seq<Op<T>>, id: nat)
    decreases |ops|
  {
    id in s.ids && (ops == [] || Registered(Apply(s, ops[0]), ops[1..], id))
  }

  lemma {:induction false} NoCalls<T>(es: seq<Event<T>>, id: nat)
    requires id !in Ids(es)
    ensures CallsIn(es, id) == []
  {
    if es != [] {
      assert es[0] in es;
      assert forall e :: e in es[1..] ==> e in es;
      NoCalls(es[1..], id);
    }
  }

  lemma {:induction false} OneCall<T>(es: seq<Event<T>>, id: nat) returns (e: Event<T>)
    requires Ascending(es) && id in Ids(es)
    ensures e in es && e.id == id && CallsIn(es, id) == [e]
  {
    if es[0].id == id {
      e := es[0];
      forall k | 0 <= k < |es[1..]| ensures es[1..][k].id != id { assert es[1..][k] == es[k + 1]; }
      NoCalls(es[1..], id);
    } else {
      var d :| d in es && d.id == id;
      assert d in es[1..];
      forall i, j | 0 <= i < j < |es[1..]| ensures es[1..][i].id < es[1..][j].id {
        assert es[1..][i] == es[i + 1] && es[1..][j] == es[j + 1];
      }
      e := OneCall(es[1..], id);
      assert [] + CallsIn(es[1..], id) == CallsIn(es[1..], id);
    }
  }

  /**
   While a listener is registered, the pairs it receives form an unbroken chain from
   the value at the start to the value at the end, with no step between equal values.
   */
  lemma {:induction false} NotificationChain<T>(s: State<T>, ops: seq<Op<T>>, log: seq<seq<Event<T>>>, id: nat)
    requires IsRun(s, ops, log) && Registered(s, ops, id)
    ensures Chain(Calls(log, id), s.val, RunState(s, ops).val)
    decreases |ops|
  {
    if ops != [] {
      NotificationChain(Apply(s, ops[0]), ops[1..], log[1..], id);
      if ops[0].Set? && ops[0].v != s.val {
        var e := OneCall(log[0], id);
        assert Calls(log, id)[0] == e && Calls(log, id)[1..] == Calls(log[1..], id);
      } else {
        assert [] + Calls(log[1..], id) == Calls(log[1..], id);
      }
    }
  }

  /** Before a listener is added and after it is removed it hears nothing, and its id is never reused. */
  lemma {:induction false} SilentUnlessRegistered<T>(s: State<T>, ops: seq<Op<T>>, log: seq<seq<Event<T>>>, id: nat)
    requires s.Valid() && IsRun(s, ops, log) && id <= s.lastId && id !in s.ids
    ensures Calls(log, id) == [] && id !in RunState(s, ops).ids && RunState(s, ops).Valid()
    decreases |ops|
  {
    if ops != [] {
      NoCalls(log[0], id);
      SilentUnlessRegistered(Apply(s, ops[0]), ops[1..], log[1..], id);
    }
  }

  /** A notification under way: the listeners in `rest` are still to be called. */
  ghost predicate Notifying<T>(es: seq<Event<T>>, ids: set<nat>, rest: set<nat>, v: T, old_: T) {
    && Ascending(es) && rest <= ids && Ids(es) == ids - rest
    && (forall e :: e in es ==> e.new_ == v && e.old_ == old_)
    && forall e, i :: e in es && i in rest ==> e.id < i
  }

  lemma NotifyNext<T>(es: seq<Event<T>>, ids: set<nat>, rest: set<nat>, v: T, old_: T, i: nat)
    requires Notifying(es, ids, rest, v, old_)
    requires i in rest && forall j :: j in rest ==> i <= j
    ensures Notifying(es + [Event(i, v, old_)], ids, rest - {i}, v, old_)
  {
    var e := Event(i, v, old_);
    var fs := es + [e];
    assert forall d :: d in fs <==> d in es || d == e;
    assert Ids(fs) == Ids(es) + {i};
    forall a, b | 0 <= a < b < |fs| ensures fs[a].id < fs[b].id {
      if b == |es| { assert es[a] in es; }
    }
  }

  lemma AllCalled<T>(es: seq<Event<T>>, ids: set<nat>, s: State<T>, v: T)
    requires Notifying(es, ids, {}, v, s.val) && ids == s.ids && v != s.val
    ensures Notifies(s, Set(v), es)
  {
    assert Ids(es) == s.ids;
  }

  /** When the call of `bad` throws, those of smaller id have been called and those of greater id have not. */
  lemma StoppedAt<T>(es: seq<Event<T>>, ids: set<nat>, rest: set<nat>, v: T, old_: T, bad: nat)
    requires Notifying(es, ids, rest, v, old_) && es != [] && es[|es| - 1].id == bad && bad in ids
    ensures CutShort(es, ids, bad, v, old_)
  {
    forall i ensures i in Ids(es) <==> i in ids && i <= bad {
      if i in Ids(es) {
        var e :| e in es && e.id == i;
        var k :| 0 <= k < |es| && es[k] == e;
      } else if i in rest {
        assert es[|es| - 1] in es;
      }
    }
  }

  // ------------------------------------------------------------------
  // The variable as an object
  // ------------------------------------------------------------------

  /** The counter of listener ids: one for all variables of a type. */
  class IdSource {
    var last: nat
    constructor () ensures last == 0 { last := 0; }
  }

  lemma {:induction false} HasMin(ids: set<nat>) returns (m: nat)
    requires ids != {}
    ensures m in ids && forall i :: i in ids ==> m <= i
  {
    var x :| x in ids;
    if ids == {x} {
      m := x;
    } else {
      m := HasMin(ids - {x});
      if x < m { m := x; }
      assert forall i :: i in ids ==> i == x || i in ids - {x};
    }
  }

  /** What leaves a listener, or a call: nothing, a std::exception, or something else that is thrown. */
  datatype Thrown = Nothing | Std | Other

  /** No listener throws on the change from `cur` to `v`; an equal value is announced to nobody. */
  ghost predicate Accepted<T, C>(cbs: map<nat, C>, throws: (C, T, T) -> Thrown, v: T, cur: T) {
    cur == v || forall i :: i in cbs ==> throws(cbs[i], v, cur).Nothing?
  }

  /** Listener `bad` is the first that throws on the change. */
  ghost predicate FirstThrows<T, C>(cbs: map<nat, C>, throws: (C, T, T) -> Thrown, v: T, cur: T, bad: nat) {
    && cur != v && bad in cbs && !throws(cbs[bad], v, cur).Nothing?
    && forall i :: i in cbs && i < bad ==> throws(cbs[i], v, cur).Nothing?
  }

  /** The change ends in something that is thrown and is not a std::exception. */
  ghost predicate Escapes<T, C>(cbs: map<nat, C>, throws: (C, T, T) -> Thrown, v: T, cur: T) {
    exists bad :: FirstThrows(cbs, throws, v, cur, bad) && throws(cbs[bad], v, cur).Other?
  }

  /** What is announced when listener `bad` is the first that throws: it and those before it. */
  ghost predicate CutShort<T>(es: seq<Event<T>>, ids: set<nat>, bad: nat, v: T, old_: T) {
    && Ascending(es) && bad in ids && Ids(es) == (set i | i in ids && i <= bad)
    && forall e :: e in es ==> e.new_ == v && e.old_ == old_
  }

  class Variable<T(==), C> {
    const name: string
    /** Which instance of the variable template this is. */
    const typeTag: nat
    const fromStr: string -> Option<T>
    /** What a listener throws when it is told of a new and an old value. */
    const throws: (C, T, T) -> Thrown
    const idSource: IdSource
    var val: T
    var cbs: map<nat, C>
    /** Every call made to a listener so far. */
    ghost var Fired: seq<Event<T>>

    constructor (name: string, def: T, typeTag: nat, fromStr: string -> Option<T>, throws: (C, T, T) -> Thrown,
                 idSource: IdSource)
      ensures this.name == name && this.typeTag == typeTag && this.fromStr == fromStr && this.throws == throws
      ensures this.idSource == idSource && View() == State(def, {}, idSource.last) && Fired == []
    {
      this.name, this.typeTag, this.fromStr, this.throws, this.idSource := name, typeTag, fromStr, throws, idSource;
      val, cbs, Fired := def, map[], [];
    }

    function View(): State<T>
      reads this, idSource
    {
      State(val, cbs.Keys, idSource.last)
    }

    method GetValue() returns (v: T)
      ensures v == val
    {
      v := val;
    }

    /** The loop over the listeners, in order of id, up to the first that throws. */
    method NotifyAll(v: T) returns (thrown: Thrown, ghost es: seq<Event<T>>)
      requires val != v
      modifies this`Fired
      ensures Fired == old(Fired) + es
      ensures thrown.Nothing? ==> Accepted(cbs, throws, v, val) && Notifying(es, cbs.Keys, {}, v, val)
      ensures !thrown.Nothing? ==> exists bad ::
                CutShort(es, cbs.Keys, bad, v, val) && FirstThrows(cbs, throws, v, val, bad) && thrown == throws(cbs[bad], v, val)
    {
      es := [];
      assert Fired == Fired + es;
      var rest := cbs.Keys;
      assert Notifying(es, cbs.Keys, rest, v, val);
      hide Notifying, CutShort;
      while rest != {}
        invariant rest <= cbs.Keys && Fired == old(Fired) + es && Notifying(es, cbs.Keys, rest, v, val)
        invariant forall i :: i in cbs && i !in rest ==> throws(cbs[i], v, val).Nothing?
        decreases |rest|
      {
        ghost var m := HasMin(rest);
        var i :| i in rest && forall j :: j in rest ==> i <= j;
        NotifyNext(es, cbs.Keys, rest, v, val, i);
        Fired := Fired + [Event(i, v, val)];
        es := es + [Event(i, v, val)];
        thrown := throws(cbs[i], v, val);
        if !thrown.Nothing? {
          StoppedAt(es, cbs.Keys, rest - {i}, v, val, i);
          assert FirstThrows(cbs, throws, v, val, i);
          return;
        }
        rest := rest - {i};
      }
      thrown := Nothing;
    }

    /** Returns what is thrown out of the call; `es` are the calls of listeners that it makes. */
    method SetValue(v: T) returns (thrown: Thrown, ghost es: seq<Event<T>>)
      modifies this`val, this`Fired
      ensures thrown.Nothing? <==> Accepted(cbs, throws, v, old(val))
      ensures View() == (if thrown.Nothing? then Apply(old(View()), Set(v)) else old(View())) && cbs == old(cbs)
      ensures Fired == old(Fired) + es && (thrown.Nothing? ==> Notifies(old(View()), Set(v), es))
      ensures !thrown.Nothing? ==> exists bad ::
                CutShort(es, cbs.Keys, bad, v, val) && FirstThrows(cbs, throws, v, val, bad) && thrown == throws(cbs[bad], v, val)
    {
      if val == v {
        assert Fired == Fired + [];
        return Nothing, [];
      }
      thrown, es := NotifyAll(v);
      if !thrown.Nothing? {
        hide Notifying, CutShort;
        return;
      }
      AllCalled(es, cbs.Keys, View(), v);
      val := v;
    }

    method AddListener(cb: C) returns (id: nat)
      modifies this`cbs, idSource
      ensures View() == Apply(old(View()), Add(true)) && Fired == old(Fired)
      ensures id == old(idSource.last) + 1 && cbs == old(cbs)[id := cb]
    {
      idSource.last := idSource.last + 1;
      cbs := cbs[idSource.last := cb];
      id := idSource.last;
    }

    method DelListener(id: nat)
      modifies this`cbs
      ensures View() == Apply(old(View()), Del(id)) && cbs == old(cbs) - {id}
    {
      cbs := cbs - {id};
    }

    method ClearListener()
      modifies this`cbs
      ensures View() == Apply(old(View()), Clear) && cbs == map[]
    {
      cbs := map[];
    }

    /**
     A text that does not cast, or a value that a listener throws a std::exception on, is
     logged and ignored; anything else that is thrown goes through.
     */
    method FromString(text: string) returns (ok: bool, escaped: bool, ghost es: seq<Event<T>>)
      modifies this`val, this`Fired
      ensures ok <==> fromStr(text).Some? && Accepted(cbs, throws, fromStr(text).value, old(val))
      ensures escaped <==> fromStr(text).Some? && Escapes(cbs, throws, fromStr(text).value, old(val))
      ensures val == (if ok then fromStr(text).value else old(val)) && cbs == old(cbs)
      ensures Fired == old(Fired) + es && (ok ==> Notifies(old(View()), Set(fromStr(text).value), es))
      ensures fromStr(text).None? ==> es == []
    {
      var v := fromStr(text);
      if v.None? {
        return false, false, [];
      }
      var thrown;
      thrown, es := SetValue(v.value);
      return thrown.Nothing?, thrown.Other?, es;
    }

    /**
     Any sequence of operations on the variable; `cb` is the listener that the additions
     register. If no listener throws, every listener that is registered all the time has
     been called along an unbroken chain from the value before to the value after.
     */
    method Operate(ops: seq<Op<T>>, cb: C) returns (done: bool, ghost es: seq<Event<T>>)
      modifies this`val, this`cbs, this`Fired, idSource
      ensures Fired == old(Fired) + es
      ensures (forall c, v, w :: throws(c, v, w).Nothing?) ==> done
      ensures done ==> View() == RunState(old(View()), ops)
      ensures done ==> forall id :: Registered(old(View()), ops, id) ==> Chain(CallsIn(es, id), old(val), val)
      decreases |ops|
    {
      if ops == [] {
        assert Fired + [] == Fired;
        return true, [];
      }
      ghost var s0 := View();
      done, es := OperateOne(ops[0], cb);
      if done {
        ghost var s1, fired := View(), Fired;
        ghost var rest;
        done, rest := Operate(ops[1..], cb);
        Assoc(old(Fired), es, rest);
        if done {
          forall id | Registered(s0, ops, id) ensures Chain(CallsIn(es + rest, id), s0.val, val) {
            CallsInBoth(es, rest, id);
            OneOpChain(s0, ops[0], es, id);
            ChainBoth(CallsIn(es, id), CallsIn(rest, id), s0.val, s1.val, val);
          }
        }
        es := es + rest;
      }
    }

    method OperateOne(op: Op<T>, cb: C) returns (done: bool, ghost es: seq<Event<T>>)
      modifies this`val, this`cbs, this`Fired, idSource
      ensures Fired == old(Fired) + es
      ensures done ==> View() == Apply(old(View()), op) && Notifies(old(View()), op, es)
      ensures (forall c, v, w :: throws(c, v, w).Nothing?) ==> done
    {
      es, done := [], true;
      assert Fired == Fired + [];
      match op {
        case Set(v) =>
          var thrown;
          thrown, es := SetValue(v);
          done := thrown.Nothing?;
        case Add(own) =>
          if own {
            var id := AddListener(cb);
          } else {
            idSource.last := idSource.last + 1;
          }
        case Del(id) => DelListener(id);
        case Clear => ClearListener();
      }
    }
  }

  lemma {:induction false} CallsInBoth<T>(a: seq<Event<T>>, b: seq<Event<T>>, id: nat)
    ensures CallsIn(a + b, id) == CallsIn(a, id) + CallsIn(b, id)
    decreases |a|
  {
    if a == [] {
      assert a + b == b;
    } else {
      CallsInBoth(a[1..], b, id);
      assert (a + b)[1..] == a[1..] + b;
      Assoc(if a[0].id == id then [a[0]] else [], CallsIn(a[1..], id), CallsIn(b, id));
    }
  }

  lemma {:induction false} ChainBoth<T>(a: seq<Event<T>>, b: seq<Event<T>>, x: T, y: T, z: T)
    requires Chain(a, x, y) && Chain(b, y, z)
    ensures Chain(a + b, x, z)
    decreases |a|
  {
    if a == [] {
      assert a + b == b;
    } else {
      ChainBoth(a[1..], b, a[0].new_, y, z);
      assert (a + b)[1..] == a[1..] + b;
    }
  }

  lemma OneOpChain<T>(s: State<T>, op: Op<T>, es: seq<Event<T>>, id: nat)
    requires Notifies(s, op, es) && id in s.ids
    ensures Chain(CallsIn(es, id), s.val, Apply(s, op).val)
  {
    if op.Set? && op.v != s.val {
      var e := OneCall(es, id);
    }
  }
}
