/**
 Any number of threads operating on one configuration variable at the same time. Each
 step is atomic; the read-write lock is given by its specification: a reader enters
 when no writer is in, a writer when nobody is. SetValue notifies while it holds the
 lock for reading, lets go, and takes it again for writing, so other calls can come in
 between.
 */
module ConcurrentVar {
  import opened Basics

  /** What a call of SetValue saw and did in its read section. */
  datatype Notice<T> = Notice(v: T, seen: T, snapshot: set<nat>, called: seq<nat>)

  datatype PC<T> =
    | Idle
    | SetStart(v: T)                                   // waiting for the read lock
    | Comparing(v: T)                                  // read lock held
    | Notifying(n: Notice<T>, rest: set<nat>)          // read lock held, `rest` still to be called
    | Unchanged                                        // read lock held, the values were equal
    | Waiting(n: Notice<T>)                            // read lock dropped, waiting for the write lock
    | Storing(n: Notice<T>)                            // write lock held, value not yet stored
    | Stored                                           // write lock held, value stored
    | GetStart | Reading | ReadDone(r: T)              // GetValue; the lock is held in the last two
    | EditStart(e: Edit) | Editing(e: Edit) | Edited   // AddListener, DelListener and ClearListener

  datatype Edit = Add | Del(id: nat) | Clear

  datatype State<T> = State(
    val: T, ids: set<nat>, lastId: nat,
    readers: set<nat>, writer: Option<nat>,
    threads: map<nat, PC<T>>,
    commits: seq<Notice<T>>)

  datatype Action<T> = Call(pc: PC<T>) | Advance | Notify(id: nat)

  predicate Starts<T>(pc: PC<T>) { pc.SetStart? || pc.GetStart? || pc.EditStart? }

  function PCOf<T>(s: State<T>, t: nat): PC<T> {
    if t in s.threads then s.threads[t] else Idle
  }

  /** Reading the fields of the variable, or writing them, right now. */
  predicate ReadsNow<T>(pc: PC<T>) {
    pc.Comparing? || pc.Notifying? || pc.Unchanged? || pc.Reading? || pc.ReadDone?
  }

  predicate WritesNow<T>(pc: PC<T>) {
    pc.Storing? || pc.Stored? || pc.Editing? || pc.Edited?
  }

  /** The step `a` is the next one in the code of thread `t`, and the lock lets it through. */
  ghost predicate Enabled<T>(s: State<T>, t: nat, a: Action<T>) {
    var pc := PCOf(s, t);
    match a
    case Call(start) => pc.Idle? && Starts(start)
    case Notify(id) => pc.Notifying? && id in pc.rest && forall i :: i in pc.rest ==> id <= i
    case Advance =>
      match pc
      case Idle => false
      case SetStart(_) => s.writer.None?
      case GetStart => s.writer.None?
      case Waiting(_) => s.writer.None? && s.readers == {}
      case EditStart(_) => s.writer.None? && s.readers == {}
      case Notifying(_, rest) => rest == {}
      case _ => true
  }

  ghost function Step<T>(s: State<T>, t: nat, a: Action<T>): State<T>
    requires Enabled(s, t, a)
  {
    var pc := PCOf(s, t);
    match a
    case Call(start) => s.(threads := s.threads[t := start])
    case Notify(id) =>
      s.(threads := s.threads[t := Notifying(pc.n.(called := pc.n.called + [id]), pc.rest - {id})])
    case Advance => AdvanceFrom(s, t, pc)
  }

  function Announced<T>(s: State<T>, v: T): Notice<T> {
    Notice(v, s.val, s.ids, [])
  }

  ghost function AdvanceFrom<T>(s: State<T>, t: nat, pc: PC<T>): State<T>
    requires !pc.Idle?
  {
    match pc
    case SetStart(v) => s.(readers := s.readers + {t}, threads := s.threads[t := Comparing(v)])
    case Comparing(v) =>
      s.(threads := s.threads[t := if s.val == v then Unchanged else Notifying(Announced(s, v), s.ids)])
    case Unchanged => s.(readers := s.readers - {t}, threads := s.threads[t := Idle])
    case Notifying(n, _) => s.(readers := s.readers - {t}, threads := s.threads[t := Waiting(n)])
    case Waiting(n) => s.(writer := Some(t), threads := s.threads[t := Storing(n)])
    case Storing(n) => s.(val := n.v, commits := s.commits + [n], threads := s.threads[t := Stored])
    case Stored => s.(writer := None, threads := s.threads[t := Idle])
    case GetStart => s.(readers := s.readers + {t}, threads := s.threads[t := Reading])
    case Reading => s.(threads := s.threads[t := ReadDone(s.val)])
    case ReadDone(_) => s.(readers := s.readers - {t}, threads := s.threads[t := Idle])
    case EditStart(e) => s.(writer := Some(t), threads := s.threads[t := Editing(e)])
    case Editing(Add) =>
      s.(ids := s.ids + {s.lastId + 1}, lastId := s.lastId + 1, threads := s.threads[t := Edited])
    case Editing(Del(id)) => s.(ids := s.ids - {id}, threads := s.threads[t := Edited])
    case Editing(Clear) => s.(ids := {}, threads := s.threads[t := Edited])
    case Edited => s.(writer := None, threads := s.threads[t := Idle])
  }

  datatype Event<T> = Event(t: nat, a: Action<T>)

  ghost predicate Reaches<T>(s: State<T>, run: seq<Event<T>>, last: State<T>)
    decreases |run|
  {
    if run == [] then s == last
    else Enabled(s, run[0].t, run[0].a) && Reaches(Step(s, run[0].t, run[0].a), run[1..], last)
  }

  ghost function Initial<T>(def: T): State<T> {
    State(def, {}, 0, {}, None, map[], [])
  }

  // ------------------------------------------------------------------
  // Safety
  // ------------------------------------------------------------------

  /** No thread writes while another reads or writes. */
  ghost predicate NoOverlap<T>(s: State<T>) {
    forall t, u :: t != u && WritesNow(PCOf(s, t)) ==> !ReadsNow(PCOf(s, u)) && !WritesNow(PCOf(s, u))
  }

  function Latest<T>(def: T, commits: seq<Notice<T>>): T {
    if commits == [] then def else commits[|commits| - 1].v
  }

  ghost predicate Ascending(ids: seq<nat>) {
    forall i, j :: 0 <= i < j < |ids| ==> ids[i] < ids[j]
  }

  /** Every listener of the snapshot was called once, in order of id, for a real change. */
  ghost predicate Complete<T>(n: Notice<T>) {
    Ascending(n.called) && SetOf(n.called) == n.snapshot && n.v != n.seen
  }

  /** The calls made so far; the value and the listeners have not changed since the snapshot. */
  ghost predicate UnderWay<T>(s: State<T>, n: Notice<T>, rest: set<nat>) {
    && Ascending(n.called) && rest <= n.snapshot && SetOf(n.called) == n.snapshot - rest
    && (forall c, i :: c in n.called && i in rest ==> c < i)
    && n.v != n.seen && n.seen == s.val && n.snapshot == s.ids
  }

  ghost predicate ThreadOk<T>(s: State<T>, t: nat) {
    var pc := PCOf(s, t);
    && (t in s.readers <==> ReadsNow(pc))
    && (s.writer == Some(t) <==> WritesNow(pc))
    && (pc.Notifying? ==> UnderWay(s, pc.n, pc.rest))
    && (pc.Waiting? || pc.Storing? ==> Complete(pc.n))
    && (pc.ReadDone? ==> pc.r == s.val)
  }

  ghost predicate Safe<T>(s: State<T>, def: T) {
    && (forall t: nat :: ThreadOk(s, t))
    && (s.writer.Some? ==> s.readers == {})
    && s.val == Latest(def, s.commits)
    && forall k :: 0 <= k < |s.commits| ==> Complete(s.commits[k])
  }

  lemma SafeHasNoOverlap<T>(s: State<T>, def: T)
    requires Safe(s, def)
    ensures NoOverlap(s)
  {
    forall t, u | t != u && WritesNow(PCOf(s, t)) ensures !ReadsNow(PCOf(s, u)) && !WritesNow(PCOf(s, u)) {
      assert ThreadOk(s, t) && ThreadOk(s, u);
    }
  }

  lemma NotifyOk<T>(s: State<T>, n: Notice<T>, rest: set<nat>, id: nat)
    requires UnderWay(s, n, rest) && id in rest && forall i :: i in rest ==> id <= i
    ensures UnderWay(s, n.(called := n.called + [id]), rest - {id})
  {
    var m := n.called + [id];
    assert forall c :: c in m <==> c in n.called || c == id;
    assert SetOf(m) == SetOf(n.called) + {id};
    forall i, j | 0 <= i < j < |m| ensures m[i] < m[j] {
      if j == |n.called| { assert n.called[i] in n.called; }
    }
  }

  /** The thread that steps. */
  lemma SelfOk<T>(s: State<T>, def: T, t: nat, a: Action<T>)
    requires Safe(s, def) && Enabled(s, t, a)
    ensures ThreadOk(Step(s, t, a), t)
  {
    var pc := PCOf(s, t);
    assert ThreadOk(s, t);
    if a.Notify? {
      NotifyOk(s, pc.n, pc.rest, a.id);
    } else if a.Advance? && pc.Comparing? {
      assert SetOf([]) == s.ids - s.ids;
    } else if a.Advance? && pc.Notifying? {
      assert pc.n.snapshot - {} == pc.n.snapshot;
    }
  }

  /** Every other thread: what it relies on cannot change under it. */
  lemma OtherOk<T>(s: State<T>, def: T, t: nat, a: Action<T>, u: nat)
    requires Safe(s, def) && Enabled(s, t, a) && u != t
    ensures ThreadOk(Step(s, t, a), u)
  {
    SafeHasNoOverlap(s, def);
    assert ThreadOk(s, t) && ThreadOk(s, u);
    assert PCOf(Step(s, t, a), u) == PCOf(s, u);
  }

  lemma SafeStep<T>(s: State<T>, def: T, t: nat, a: Action<T>)
    requires Safe(s, def) && Enabled(s, t, a)
    ensures Safe(Step(s, t, a), def)
  {
    var s' := Step(s, t, a);
    SelfOk(s, def, t, a);
    forall u: nat ensures ThreadOk(s', u) {
      if u != t { OtherOk(s, def, t, a, u); }
    }
    assert ThreadOk(s, t);
  }

  /**
   In every interleaving no write overlaps a read or another write, the value is the
   default or the argument of the latest commit, every GetValue about to return holds
   that value, and every commit follows one call to each listener of the snapshot of
   its read section, in ascending order of id.
   */
  lemma {:induction false} SafeAlways<T>(s: State<T>, def: T, run: seq<Event<T>>, last: State<T>)
    requires Safe(s, def) && Reaches(s, run, last)
    ensures Safe(last, def) && NoOverlap(last)
    ensures forall t :: PCOf(last, t).ReadDone? ==> PCOf(last, t).r == Latest(def, last.commits)
    decreases |run|
  {
    if run == [] {
      SafeHasNoOverlap(s, def);
      forall t | PCOf(last, t).ReadDone? ensures PCOf(last, t).r == Latest(def, last.commits) {
        assert ThreadOk(last, t);
      }
    } else {
      SafeStep(s, def, run[0].t, run[0].a);
      SafeAlways(Step(s, run[0].t, run[0].a), def, run[1..], last);
    }
  }

  lemma InitialIsSafe<T>(def: T)
    ensures Safe(Initial(def), def)
  {
  }

  // ------------------------------------------------------------------
  // What a call that has returned has done
  // ------------------------------------------------------------------

  /** Thread `t` makes no call in the run. */
  ghost predicate NoCall<T>(run: seq<Event<T>>, t: nat) {
    forall k :: 0 <= k < |run| && run[k].t == t ==> !run[k].a.Call?
  }

  lemma NoCallNext<T>(run: seq<Event<T>>, t: nat)
    requires run != [] && NoCall(run, t)
    ensures NoCall(run[1..], t) && (run[0].t == t ==> !run[0].a.Call?)
  {
    forall k | 0 <= k < |run[1..]| && run[1..][k].t == t ensures !run[1..][k].a.Call? {
      assert run[1..][k] == run[k + 1];
    }
  }

  /** The variable has the value `v` in some state of the run. */
  ghost predicate HasValue<T>(s: State<T>, run: seq<Event<T>>, v: T)
    decreases |run|
  {
    s.val == v || (run != [] && Enabled(s, run[0].t, run[0].a) && HasValue(Step(s, run[0].t, run[0].a), run[1..], v))
  }

  /** A call of SetValue(v) that has not stored its value yet. */
  predicate SetsTo<T(==)>(pc: PC<T>, v: T) {
    match pc
    case SetStart(x) => x == v
    case Comparing(x) => x == v
    case Notifying(n, _) => n.v == v
    case Waiting(n) => n.v == v
    case Storing(n) => n.v == v
    case _ => false
  }

  /** Whatever else goes on, a call of SetValue(v) returns only when the variable has had the value `v` meanwhile. */
  lemma {:induction false} SetTakesEffect<T>(s: State<T>, run: seq<Event<T>>, last: State<T>, t: nat, v: T)
    requires Reaches(s, run, last) && NoCall(run, t) && SetsTo(PCOf(s, t), v) && PCOf(last, t).Idle?
    ensures HasValue(s, run, v)
    decreases |run|
  {
    var next := Step(s, run[0].t, run[0].a);
    NoCallNext(run, t);
    SetMoves(s, run[0].t, run[0].a, t, v);
    if next.val == v {
      assert HasValue(next, run[1..], v);
    } else if s.val != v {
      SetTakesEffect(next, run[1..], last, t, v);
    }
  }

  lemma SetMoves<T>(s: State<T>, u: nat, a: Action<T>, t: nat, v: T)
    requires SetsTo(PCOf(s, t), v) && Enabled(s, u, a) && (u == t ==> !a.Call?)
    ensures SetsTo(PCOf(Step(s, u, a), t), v) || s.val == v || Step(s, u, a).val == v
  {
  }

  /** No identifier is handed out before its time. */
  ghost predicate IdsKnown<T>(s: State<T>) {
    forall i :: i in s.ids ==> i <= s.lastId
  }

  /** The listeners after a step are those before it, changed as `e` asks for. */
  ghost predicate Edits<T>(s: State<T>, s': State<T>, e: Edit) {
    match e
    case Add => s'.lastId > s.lastId && s'.lastId !in s.ids && s'.ids == s.ids + {s'.lastId}
    case Del(id) => s'.ids == s.ids - {id}
    case Clear => s'.ids == {}
  }

  /** Only the step behind the lock of an edit changes the listeners, and it does what the edit asks for. */
  lemma EditStep<T>(s: State<T>, t: nat, a: Action<T>)
    requires IdsKnown(s) && Enabled(s, t, a)
    ensures var s' := Step(s, t, a);
      && IdsKnown(s')
      && if a.Advance? && PCOf(s, t).Editing? then Edits(s, s', PCOf(s, t).e) else s'.ids == s.ids && s'.lastId == s.lastId
  {
  }

  /** Some step of the run changes the listeners as `e` asks for. */
  ghost predicate HasEdit<T>(s: State<T>, run: seq<Event<T>>, e: Edit)
    decreases |run|
  {
    run != [] && Enabled(s, run[0].t, run[0].a)
    && (Edits(s, Step(s, run[0].t, run[0].a), e) || HasEdit(Step(s, run[0].t, run[0].a), run[1..], e))
  }

  /** Whatever else goes on, AddListener, DelListener and ClearListener return only when they have had their effect. */
  lemma {:induction false} EditTakesEffect<T>(s: State<T>, run: seq<Event<T>>, last: State<T>, t: nat, e: Edit)
    requires IdsKnown(s) && Reaches(s, run, last) && NoCall(run, t)
    requires PCOf(s, t) in {EditStart(e), Editing(e)} && PCOf(last, t).Idle?
    ensures HasEdit(s, run, e)
    decreases |run|
  {
    var next := Step(s, run[0].t, run[0].a);
    NoCallNext(run, t);
    EditStep(s, run[0].t, run[0].a);
    if run[0].t != t || PCOf(s, t).EditStart? {
      EditTakesEffect(next, run[1..], last, t, e);
    }
  }

  // ------------------------------------------------------------------
  // The chain of announced values, and what breaks it
  // ------------------------------------------------------------------

  predicate HoldsNotice<T>(pc: PC<T>) {
    pc.Notifying? || pc.Waiting? || pc.Storing?
  }

  /** Thread `t` finds a new value and announces it in this step. */
  ghost predicate Announces<T>(s: State<T>, t: nat, a: Action<T>) {
    a.Advance? && PCOf(s, t).Comparing? && PCOf(s, t).v != s.val
  }

  /** What the calls of SetValue announce in a run, in the order in which they compare. */
  ghost function Announcements<T>(s: State<T>, run: seq<Event<T>>): seq<Notice<T>>
    decreases |run|
  {
    if run == [] || !Enabled(s, run[0].t, run[0].a) then []
    else NewNotice(s, run[0].t, run[0].a) + Announcements(Step(s, run[0].t, run[0].a), run[1..])
  }

  ghost function NewNotice<T>(s: State<T>, t: nat, a: Action<T>): seq<Notice<T>> {
    if Announces(s, t, a) then [Announced(s, PCOf(s, t).v)] else []
  }

  /** The (new, old) pairs form an unbroken chain from `from` on. */
  ghost predicate Chain<T>(ns: seq<Notice<T>>, from: T) {
    ns == [] || (ns[0].seen == from && Chain(ns[1..], ns[0].v))
  }

  /** At most one thread is between the comparison and the store of SetValue. */
  ghost predicate Serialised<T>(s: State<T>) {
    forall t, u :: HoldsNotice(PCOf(s, t)) && HoldsNotice(PCOf(s, u)) ==> t == u
  }

  /** It is so all along the run: the callers of SetValue take turns. */
  ghost predicate SerialRun<T>(s: State<T>, run: seq<Event<T>>)
    decreases |run|
  {
    Serialised(s) && (run != [] ==> Enabled(s, run[0].t, run[0].a) && SerialRun(Step(s, run[0].t, run[0].a), run[1..]))
  }

  /** The value announced last is `cur`: pending if some call holds a notice, else stored. */
  ghost predicate Tracks<T>(s: State<T>, cur: T) {
    && (forall t :: HoldsNotice(PCOf(s, t)) ==>
          PCOf(s, t).n.v == cur && PCOf(s, t).n.seen == s.val && cur != s.val)
    && ((forall t :: !HoldsNotice(PCOf(s, t))) ==> cur == s.val)
  }

  ghost function NextCur<T>(s: State<T>, t: nat, a: Action<T>, cur: T): T {
    if Announces(s, t, a) then PCOf(s, t).v else cur
  }

  /** While calls take turns, an announcement starts from the value announced before. */
  lemma SerialStep<T>(s: State<T>, t: nat, a: Action<T>, cur: T)
    requires Serialised(s) && Tracks(s, cur) && Enabled(s, t, a) && Serialised(Step(s, t, a))
    ensures Tracks(Step(s, t, a), NextCur(s, t, a, cur))
    ensures Announces(s, t, a) ==> cur == s.val
  {
    var s' := Step(s, t, a);
    assert forall u :: u != t ==> PCOf(s', u) == PCOf(s, u);
    if Announces(s, t, a) {
      assert HoldsNotice(PCOf(s', t));
      NobodyHeld(s, t, a);
    }
    forall u | HoldsNotice(PCOf(s', u))
      ensures PCOf(s', u).n.v == NextCur(s, t, a, cur) && PCOf(s', u).n.seen == s'.val && PCOf(s', u).n.v != s'.val
    {
      if u != t {
        assert HoldsNotice(PCOf(s, u)) && !Announces(s, t, a) && !HoldsNotice(PCOf(s, t));
      }
    }
    if forall u :: !HoldsNotice(PCOf(s', u)) {
      assert !HoldsNotice(PCOf(s', t));
      if HoldsNotice(PCOf(s, t)) {
        assert PCOf(s, t).Storing? && PCOf(s, t).n.v == cur;
      } else {
        NobodyHeld(s, t, a);
      }
      assert NextCur(s, t, a, cur) == s'.val;
    }
  }

  lemma NobodyHeld<T>(s: State<T>, t: nat, a: Action<T>)
    requires Enabled(s, t, a) && !HoldsNotice(PCOf(s, t))
    requires Serialised(Step(s, t, a))
    requires HoldsNotice(PCOf(Step(s, t, a), t)) || forall u :: !HoldsNotice(PCOf(Step(s, t, a), u))
    ensures forall u :: !HoldsNotice(PCOf(s, u))
  {
    forall u ensures !HoldsNotice(PCOf(s, u)) {
      if u != t { assert PCOf(Step(s, t, a), u) == PCOf(s, u); }
    }
  }

  /** The first overlap is an announcement that starts from a value announced earlier. */
  lemma OverlapStep<T>(s: State<T>, t: nat, a: Action<T>, cur: T)
    requires Serialised(s) && Tracks(s, cur) && Enabled(s, t, a) && !Serialised(Step(s, t, a))
    ensures Announces(s, t, a) && s.val != cur
  {
    var s' := Step(s, t, a);
    var u, v :| HoldsNotice(PCOf(s', u)) && HoldsNotice(PCOf(s', v)) && u != v;
    assert HoldsNotice(PCOf(s, u)) || u == t;
    assert HoldsNotice(PCOf(s, v)) || v == t;
  }

  lemma {:induction false} ChainExactFrom<T>(s: State<T>, run: seq<Event<T>>, last: State<T>, cur: T)
    requires Serialised(s) && Tracks(s, cur) && Reaches(s, run, last)
    ensures Chain(Announcements(s, run), cur) <==> SerialRun(s, run)
    decreases |run|
  {
    if run != [] {
      var t, a := run[0].t, run[0].a;
      var s' := Step(s, t, a);
      var rest := Announcements(s', run[1..]);
      assert Announcements(s, run) == NewNotice(s, t, a) + rest;
      if Serialised(s') {
        SerialStep(s, t, a, cur);
        ChainExactFrom(s', run[1..], last, NextCur(s, t, a, cur));
        hide Announcements, Step, Enabled, Serialised, Tracks;
        if Announces(s, t, a) {
          assert Announcements(s, run)[1..] == rest;
        } else {
          assert [] + rest == rest;
        }
      } else {
        OverlapStep(s, t, a, cur);
      }
    }
  }

  /**
   Over every run, the (new, old) pairs announced form an unbroken chain from the default
   exactly when the calls of SetValue take turns from comparison to store.
   */
  lemma ChainExact<T>(def: T, run: seq<Event<T>>, last: State<T>)
    requires Reaches(Initial(def), run, last)
    ensures Chain(Announcements(Initial(def), run), def) <==> SerialRun(Initial(def), run)
  {
    ChainExactFrom(Initial(def), run, last, def);
  }

  /** What the listener `id` receives in a run, in the order of the calls. */
  ghost function Received<T>(s: State<T>, run: seq<Event<T>>, id: nat): seq<Notice<T>>
    decreases |run|
  {
    if run == [] || !Enabled(s, run[0].t, run[0].a) then []
    else
      (if run[0].a == Notify(id) then [PCOf(s, run[0].t).n] else [])
      + Received(Step(s, run[0].t, run[0].a), run[1..], id)
  }

  ghost predicate RegisteredIn<T>(s: State<T>, run: seq<Event<T>>, id: nat)
    decreases |run|
  {
    id in s.ids && (run != [] && Enabled(s, run[0].t, run[0].a) ==> RegisteredIn(Step(s, run[0].t, run[0].a), run[1..], id))
  }

  /** The listener `id` heard of `h` last: a pending value if it has been called for it, else the stored one. */
  ghost predicate Hears<T>(s: State<T>, id: nat, h: T) {
    && (forall t :: HoldsNotice(PCOf(s, t)) ==> h == if id in PCOf(s, t).n.called then PCOf(s, t).n.v else s.val)
    && (forall t :: PCOf(s, t).Waiting? || PCOf(s, t).Storing? ==> id in PCOf(s, t).n.called)
    && ((forall t :: !HoldsNotice(PCOf(s, t))) ==> h == s.val)
  }

  ghost function NextHeard<T>(s: State<T>, t: nat, a: Action<T>, id: nat, h: T): T {
    if a == Notify(id) && PCOf(s, t).Notifying? then PCOf(s, t).n.v else h
  }

  lemma HearsStep<T>(s: State<T>, def: T, t: nat, a: Action<T>, id: nat, h: T)
    requires Safe(s, def) && Serialised(s) && Hears(s, id, h) && id in s.ids
    requires Enabled(s, t, a) && Serialised(Step(s, t, a))
    ensures Hears(Step(s, t, a), id, NextHeard(s, t, a, id, h))
    ensures a == Notify(id) ==> PCOf(s, t).n.seen == h
  {
    var s' := Step(s, t, a);
    assert ThreadOk(s, t);
    assert forall u :: u != t ==> PCOf(s', u) == PCOf(s, u);
    if a.Notify? {
      CalledOnce(s, t, id, a.id);
    } else if a.Advance? && PCOf(s, t).Notifying? {
      assert id in SetOf(PCOf(s, t).n.called);
    } else if Announces(s, t, a) {
      assert HoldsNotice(PCOf(s', t));
      NobodyHeld(s, t, a);
    }
    if forall u :: !HoldsNotice(PCOf(s', u)) {
      assert !HoldsNotice(PCOf(s', t));
      if HoldsNotice(PCOf(s, t)) {
        assert PCOf(s, t).Storing? && h == PCOf(s, t).n.v;
      } else {
        NobodyHeld(s, t, a);
      }
      assert NextHeard(s, t, a, id, h) == s'.val;
    }
  }

  /** A listener still to be called has not been called. */
  lemma CalledOnce<T>(s: State<T>, t: nat, id: nat, next: nat)
    requires ThreadOk(s, t) && PCOf(s, t).Notifying? && next in PCOf(s, t).rest
    ensures next !in PCOf(s, t).n.called
    ensures forall c :: c in PCOf(s, t).n.called + [next] <==> c in PCOf(s, t).n.called || c == next
  {
  }

  /**
   While calls of SetValue take turns, a listener that stays registered receives an
   unbroken chain from the value it knew to the value it hears of last.
   */
  lemma {:induction false} ListenerChain<T>(s: State<T>, def: T, run: seq<Event<T>>, last: State<T>, id: nat, h: T)
    requires Safe(s, def) && Hears(s, id, h) && Reaches(s, run, last)
    requires SerialRun(s, run) && RegisteredIn(s, run, id)
    ensures var ns := Received(s, run, id);
            Chain(ns, h) && Hears(last, id, if ns == [] then h else ns[|ns| - 1].v)
    decreases |run|
  {
    hide Step, Safe, Serialised, Hears;
    if run != [] {
      var t, a := run[0].t, run[0].a;
      var s' := Step(s, t, a);
      var h' := NextHeard(s, t, a, id, h);
      SafeStep(s, def, t, a);
      HearsStep(s, def, t, a, id, h);
      ListenerChain(s', def, run[1..], last, id, h');
      ReceivedFirst(s, run, id);
      HeardOnward(s, t, a, id, h, Received(s', run[1..], id));
      hide *;
    }
  }

  /** What the listener receives in one step. */
  ghost function HeardNow<T>(s: State<T>, t: nat, a: Action<T>, id: nat): seq<Notice<T>> {
    if a == Notify(id) && PCOf(s, t).Notifying? then [PCOf(s, t).n] else []
  }

  lemma ReceivedFirst<T>(s: State<T>, run: seq<Event<T>>, id: nat)
    requires run != [] && Enabled(s, run[0].t, run[0].a)
    ensures Received(s, run, id) ==
            HeardNow(s, run[0].t, run[0].a, id) + Received(Step(s, run[0].t, run[0].a), run[1..], id)
  {
    hide Step;
  }

  lemma HeardOnward<T>(s: State<T>, t: nat, a: Action<T>, id: nat, h: T, rest: seq<Notice<T>>)
    requires Enabled(s, t, a) && Chain(rest, NextHeard(s, t, a, id, h))
    requires a == Notify(id) ==> PCOf(s, t).n.seen == h
    ensures var ns := HeardNow(s, t, a, id) + rest;
            && Chain(ns, h)
            && (if ns == [] then h else ns[|ns| - 1].v) ==
               if rest == [] then NextHeard(s, t, a, id, h) else rest[|rest| - 1].v
  {
    if a == Notify(id) {
      ChainFirst(PCOf(s, t).n, rest, h);
    } else {
      assert [] + rest == rest;
    }
  }

  lemma ChainFirst<T>(n: Notice<T>, ns: seq<Notice<T>>, from: T)
    requires n.seen == from && Chain(ns, n.v)
    ensures Chain([n] + ns, from)
    ensures ([n] + ns)[|ns|].v == if ns == [] then n.v else ns[|ns| - 1].v
  {
    assert ([n] + ns)[1..] == ns;
  }

  /** Each stored value was announced with the value that it replaced. */
  ghost predicate CommitsChain<T>(def: T, commits: seq<Notice<T>>) {
    forall k :: 0 <= k < |commits| ==> commits[k].seen == Latest(def, commits[..k])
  }

  lemma {:induction false} SerialCommits<T>(s: State<T>, def: T, run: seq<Event<T>>, last: State<T>, cur: T)
    requires Safe(s, def) && Tracks(s, cur) && CommitsChain(def, s.commits)
    requires Reaches(s, run, last) && SerialRun(s, run)
    ensures CommitsChain(def, last.commits)
    decreases |run|
  {
    if run != [] {
      var t, a := run[0].t, run[0].a;
      var s' := Step(s, t, a);
      SafeStep(s, def, t, a);
      SerialStep(s, t, a, cur);
      CommitsStep(s, def, t, a, cur);
      hide Step, Safe, Serialised, Tracks, CommitsChain;
      SerialCommits(s', def, run[1..], last, NextCur(s, t, a, cur));
    }
  }

  lemma CommitsStep<T>(s: State<T>, def: T, t: nat, a: Action<T>, cur: T)
    requires Safe(s, def) && Tracks(s, cur) && CommitsChain(def, s.commits) && Enabled(s, t, a)
    ensures CommitsChain(def, Step(s, t, a).commits)
  {
    var s' := Step(s, t, a);
    forall k | 0 <= k < |s'.commits| ensures s'.commits[k].seen == Latest(def, s'.commits[..k]) {
      assert s'.commits[..k] == s.commits[..k];
      assert s.commits[..|s.commits|] == s.commits;
    }
  }

  /** Calls of SetValue that take turns also chain in the order of their stores. */
  lemma SerialChain<T>(def: T, run: seq<Event<T>>, last: State<T>)
    requires Reaches(Initial(def), run, last) && SerialRun(Initial(def), run)
    ensures CommitsChain(def, last.commits)
  {
    InitialIsSafe(def);
    SerialCommits(Initial(def), def, run, last, def);
  }

  // Two runs with overlapping calls.

  /** Some run leads to `last` and announces `ns`. */
  ghost predicate Can<T(!new)>(s: State<T>, last: State<T>, ns: seq<Notice<T>>) {
    exists run :: Reaches(s, run, last) && Announcements(s, run) == ns
  }

  lemma CanStep<T(!new)>(s: State<T>, t: nat, a: Action<T>, last: State<T>, ns: seq<Notice<T>>)
    requires Enabled(s, t, a) && Can(Step(s, t, a), last, ns)
    ensures Can(s, last, NewNotice(s, t, a) + ns)
  {
    var run :| Reaches(Step(s, t, a), run, last) && Announcements(Step(s, t, a), run) == ns;
    var longer := [Event(t, a)] + run;
    assert longer[1..] == run;
    assert Reaches(s, longer, last) && Announcements(s, longer) == NewNotice(s, t, a) + ns;
  }

  /** A step that announces nothing. */
  lemma CanQuietly<T(!new)>(s: State<T>, t: nat, a: Action<T>, last: State<T>, ns: seq<Notice<T>>)
    requires Enabled(s, t, a) && !Announces(s, t, a) && Can(Step(s, t, a), last, ns)
    ensures Can(s, last, ns)
  {
    CanStep(s, t, a, last, ns);
    assert [] + ns == ns;
  }

  /** The read section of SetValue(v), with no listener registered and nobody in the way. */
  lemma ReadSection<T(!new)>(s: State<T>, t: nat, v: T, last: State<T>, ns: seq<Notice<T>>)
    requires PCOf(s, t).Idle? && s.writer.None? && s.readers == {} && s.ids == {} && s.val != v
    requires Can(s.(threads := s.threads[t := Waiting(Announced(s, v))]), last, ns)
    ensures Can(s, last, [Announced(s, v)] + ns)
  {
    var s1 := Step(s, t, Call(SetStart(v)));
    var s2 := Step(s1, t, Advance);
    var s3 := Step(s2, t, Advance);
    var s4 := Step(s3, t, Advance);
    assert s4.readers == {};
    assert s4.threads == s.threads[t := Waiting(Announced(s, v))];
    CanQuietly(s3, t, Advance, last, ns);
    CanStep(s2, t, Advance, last, ns);
    CanQuietly(s1, t, Advance, last, [Announced(s, v)] + ns);
    CanQuietly(s, t, Call(SetStart(v)), last, [Announced(s, v)] + ns);
  }

  ghost function StoredBy<T>(s: State<T>, t: nat, n: Notice<T>): State<T> {
    s.(val := n.v, commits := s.commits + [n], threads := s.threads[t := Idle])
  }

  /** The write section of the call that announced `n`. */
  lemma WriteSection<T(!new)>(s: State<T>, t: nat, n: Notice<T>, last: State<T>, ns: seq<Notice<T>>)
    requires PCOf(s, t) == Waiting(n) && s.writer.None? && s.readers == {}
    requires Can(StoredBy(s, t, n), last, ns)
    ensures Can(s, last, ns)
  {
    var s1 := Step(s, t, Advance);
    var s2 := Step(s1, t, Advance);
    var s3 := Step(s2, t, Advance);
    assert s3.threads == s.threads[t := Idle];
    CanQuietly(s2, t, Advance, last, ns);
    CanQuietly(s1, t, Advance, last, ns);
    CanQuietly(s, t, Advance, last, ns);
  }

  ghost function AskedBy<T>(s: State<T>, t: nat, v: T): State<T> {
    s.(threads := s.threads[t := Waiting(Announced(s, v))])
  }

  /** A whole call of SetValue(v), undisturbed. */
  lemma WholeCall<T(!new)>(s: State<T>, t: nat, v: T, last: State<T>, ns: seq<Notice<T>>)
    requires PCOf(s, t).Idle? && s.writer.None? && s.readers == {} && s.ids == {} && s.val != v
    requires Can(StoredBy(AskedBy(s, t, v), t, Announced(s, v)), last, ns)
    ensures Can(s, last, [Announced(s, v)] + ns)
  {
    WriteSection(AskedBy(s, t, v), t, Announced(s, v), last, ns);
    ReadSection(s, t, v, last, ns);
  }

  /**
   Two overlapping calls of SetValue can break both chains: from any default, and for any
   two other values, both calls announce the default as the old value.
   */
  lemma OverlapBreaksChain<T(!new)>(def: T, a: T, b: T)
    requires a != def && b != def
    ensures exists run, last ::
              Reaches(Initial(def), run, last) && !Chain(Announcements(Initial(def), run), def)
              && !CommitsChain(def, last.commits)
  {
    var s0 := Initial(def);
    var n1, n2 := Announced(s0, a), Announced(s0, b);
    var s2 := AskedBy(AskedBy(s0, 1, a), 2, b);
    var last := StoredBy(StoredBy(s2, 1, n1), 2, n2);
    assert last.commits == [n1, n2] && PCOf(StoredBy(s2, 1, n1), 2) == Waiting(n2);
    assert Reaches(last, [], last) && Announcements(last, []) == [];
    hide Reaches, Announcements, Chain, CommitsChain;
    WriteSection(StoredBy(s2, 1, n1), 2, n2, last, []);
    WriteSection(s2, 1, n1, last, []);
    ReadSection(AskedBy(s0, 1, a), 2, b, last, []);
    ReadSection(s0, 1, a, last, [n2] + []);
    BrokenPair(n1, n2, def, last.commits);
    var run :| Reaches(s0, run, last) && Announcements(s0, run) == [n1] + ([n2] + []);
  }

  lemma BrokenPair<T>(n1: Notice<T>, n2: Notice<T>, def: T, commits: seq<Notice<T>>)
    requires n2.seen != n1.v && commits == [n1, n2]
    ensures !Chain([n1] + ([n2] + []), def) && !CommitsChain(def, commits)
  {
    assert ([n1] + ([n2] + []))[1..] == [n2];
    assert commits[..1] == [n1] && commits[1].seen != Latest(def, commits[..1]);
  }

  /**
   The order of the stores can hide what the listeners see: one call announces `a` and
   waits, another sets `b` and then the default again, and the first one stores. Each
   store replaces the value announced as old, and still what is announced is no chain.
   */
  lemma StoresHideBrokenChain<T(!new)>(def: T, a: T, b: T)
    requires a != def && b != def
    ensures exists run, last ::
              Reaches(Initial(def), run, last) && !Chain(Announcements(Initial(def), run), def)
              && CommitsChain(def, last.commits)
  {
    var s0 := Initial(def);
    var s1 := AskedBy(s0, 1, a);
    var n1, n2 := Announced(s0, a), Announced(s1, b);
    var s2 := StoredBy(AskedBy(s1, 2, b), 2, n2);
    var n3 := Announced(s2, def);
    var s3 := StoredBy(AskedBy(s2, 2, def), 2, n3);
    var last := StoredBy(s3, 1, n1);
    assert last.commits == [n2, n3, n1] && PCOf(s3, 1) == Waiting(n1);
    assert Reaches(last, [], last) && Announcements(last, []) == [];
    hide Reaches, Announcements, Chain, CommitsChain;
    WriteSection(s3, 1, n1, last, []);
    WholeCall(s2, 2, def, last, []);
    WholeCall(s1, 2, b, last, [n3] + []);
    ReadSection(s0, 1, a, last, [n2] + ([n3] + []));
    BrokenAfter(n1, n2, [n3], def);
    HiddenChain(def, n1, n2, n3, last.commits);
    var run :| Reaches(s0, run, last) && Announcements(s0, run) == [n1] + ([n2] + ([n3] + []));
  }

  lemma BrokenAfter<T>(n1: Notice<T>, n2: Notice<T>, ns: seq<Notice<T>>, def: T)
    requires n2.seen != n1.v
    ensures !Chain([n1] + ([n2] + (ns + [])), def)
  {
    assert ([n1] + ([n2] + (ns + [])))[1..] == [n2] + (ns + []);
  }

  lemma HiddenChain<T>(def: T, n1: Notice<T>, n2: Notice<T>, n3: Notice<T>, commits: seq<Notice<T>>)
    requires commits == [n2, n3, n1] && n2.seen == def && n3.seen == n2.v && n3.v == def && n1.seen == def
    ensures CommitsChain(def, commits)
  {
    assert commits[..0] == [] && commits[..1] == [n2] && commits[..2] == [n2, n3];
  }
}
