/**
 What holds over whole runs of the coroutine machine, whatever the interleaving of the
 threads and whatever order main resumes its fibers in.
 */
module FiberRuns {
  import opened Basics
  import opened FiberModel

  lemma InitialSound()
    ensures Sound(Initial())
  {
  }

  /**
   In any run no pointer dangles, and an assertion of the library fails next exactly when
   the last reference to a fiber in EXEC is dropped, a fiber in EXEC, HOLD or READY is
   reset, or one in EXEC, TERM or EXECPT is swapped in, or any before there is a main fiber.
   */
  lemma {:induction false} RunSound(w: World, run: seq<Event>, last: World)
    requires Sound(w) && Reaches(w, run, last)
    ensures Sound(last)
    ensures forall t, a :: Enabled(last, t, a) ==> (Step(last, t, a).Some? <==> !Trips(last, t, a))
    decreases |run|
  {
    hide Sound, Step;
    if run == [] {
      forall t, a | Enabled(last, t, a) ensures Step(last, t, a).Some? <==> !Trips(last, t, a) {
        StepSound(last, t, a);
      }
    } else {
      StepSound(w, run[0].t, run[0].a);
      RunSound(Step(w, run[0].t, run[0].a).value, run[1..], last);
    }
  }

  /** A drop fails only on a fiber whose body has ended by a std::exception. */
  lemma OnlyStdTrips(run: seq<Event>, w: World, t: nat, f: nat)
    requires Reaches(Initial(), run, w) && Enabled(w, t, Drop(f)) && Trips(w, t, Drop(f))
    ensures w.fibers[f].body.ending.ThrowsStd? && w.fibers[f].trace == Segments(w.fibers[f].body)
  {
    InitialSound();
    RunSound(Initial(), run, w);
    Here(w, t);
    FiberHere(w, t, f);
  }

  /** Five steps of one thread: a fiber whose only segment throws a std::exception. */
  function StdRun(seg: nat): seq<Event> {
    [Event(0, GetThis), Event(0, Create(Body([], seg, ThrowsStd))), Event(0, SwapIn(0)), Event(0, Begin), Event(0, Finish)]
  }

  /** The world two steps before the end of it. */
  function StdWorld(seg: nat): World {
    var r := SwappedIn(Created(0, 1, 0, 0, Body([], seg, ThrowsStd)));
    World(map[0 := r], map[0 := Thread(Entry(0), Sub(0), Some(MainFiber(EXEC, Outside(3))), 2)], 1, 1, [], 1, 2)
  }

  lemma StdStarts(seg: nat)
    ensures Reaches(Initial(), StdRun(seg)[..3], StdWorld(seg))
  {
    var run := StdRun(seg)[..3];
    var w1 := Step(Initial(), 0, GetThis).value;
    var w2 := Step(w1, 0, run[1].a).value;
    var w3 := StdWorld(seg);
    var next := Step(w2, 0, SwapIn(0)).value;
    assert w2.fibers == map[0 := Created(0, 1, 0, 0, run[1].a.body)] && ThreadOf(w2, 0).at == Outside(2);
    assert next.fibers == w3.fibers && next.threads == w3.threads;
    assert next == w3;
    assert Reaches(w3, run[3..], w3);
    ReachesFrom(w2, run, 2, w3);
    ReachesFrom(w1, run, 1, w3);
    ReachesFrom(Initial(), run, 0, w3);
    assert run[0..] == run;
  }

  lemma StdEnds(seg: nat) returns (w: World)
    ensures Reaches(StdWorld(seg), StdRun(seg)[3..], w)
    ensures Enabled(w, 0, Drop(0)) && Step(w, 0, Drop(0)).None?
  {
    var run := StdRun(seg)[3..];
    var w4 := Step(StdWorld(seg), 0, Begin).value;
    w := Step(w4, 0, Finish).value;
    assert w.fibers[0].state == EXEC && w.fibers[0].refs == 1 && w.fibers[0].onStack == 0;
    assert ThreadOf(w, 0).at == Outside(3);
    assert Reaches(w, run[2..], w);
    ReachesFrom(w4, run, 1, w);
    ReachesFrom(StdWorld(seg), run, 0, w);
    assert run[0..] == run;
  }

  /** And it happens: a body of one segment that throws a std::exception is enough. */
  lemma StdExceptionTrips(seg: nat)
    ensures exists run, w, t, f :: Reaches(Initial(), run, w) && Enabled(w, t, Drop(f)) && Step(w, t, Drop(f)).None?
  {
    StdStarts(seg);
    var w := StdEnds(seg);
    hide Reaches, Step, Enabled;
    ReachesThrough(Initial(), StdRun(seg)[..3], StdWorld(seg), StdRun(seg)[3..], w);
  }

  lemma {:induction false} ReachesThrough(w: World, run: seq<Event>, mid: World, more: seq<Event>, last: World)
    requires Reaches(w, run, mid) && Reaches(mid, more, last)
    ensures Reaches(w, run + more, last)
    decreases |run|
  {
    hide Step, Enabled;
    if run == [] {
      assert run + more == more;
    } else {
      ReachesThrough(Step(w, run[0].t, run[0].a).value, run[1..], mid, more, last);
      assert (run + more)[1..] == run[1..] + more;
    }
  }

  lemma ReachesFrom(w: World, run: seq<Event>, k: nat, last: World)
    requires k < |run| && Enabled(w, run[k].t, run[k].a) && Step(w, run[k].t, run[k].a).Some?
    requires Reaches(Step(w, run[k].t, run[k].a).value, run[k + 1..], last)
    ensures Reaches(w, run[k..], last)
  {
    assert run[k..][1..] == run[k + 1..];
  }

  // ------------------------------------------------------------------
  // States of sound worlds
  // ------------------------------------------------------------------

  /** What ran is a beginning of the body, and all of it exactly when the fiber is finished. */
  lemma ProgramOrder(w: World, f: nat)
    requires Sound(w) && f in w.fibers
    ensures w.fibers[f].trace <= Segments(w.fibers[f].body)
    ensures w.fibers[f].trace == Segments(w.fibers[f].body) <==> Ended(w.fibers[f])
  {
    FiberHere(w, w.fibers[f].owner, f);
  }

  /** With control off the fiber, each SwapIn so far has run one segment. */
  lemma OneSegmentEach(w: World, f: nat)
    requires Sound(w) && f in w.fibers && !Active(w.fibers[f])
    ensures w.fibers[f].swaps == |w.fibers[f].trace| <= |w.fibers[f].body.parts| + 1
    ensures Ended(w.fibers[f]) <==> w.fibers[f].swaps == |w.fibers[f].body.parts| + 1
    ensures Ended(w.fibers[f]) ==> w.fibers[f].state == FinalState(w.fibers[f].body, EXEC)
  {
    FiberHere(w, w.fibers[f].owner, f);
  }

  /** A suspended fiber is owned by the two `cur` pointers on its own stack. */
  lemma SuspendedOwnsItself(w: World, f: nat)
    requires Sound(w) && f in w.fibers
    ensures w.fibers[f].state in {HOLD, READY} ==> w.fibers[f].onStack == 2
    ensures Resettable(w.fibers[f].state) ==> w.fibers[f].onStack == 0
  {
    FiberHere(w, w.fibers[f].owner, f);
  }

  /**
   In every state of every run: a fiber has run a beginning of its body; with control
   off it, one segment for each SwapIn, and all of them exactly when it is finished; and
   the `cur` pointers on its own stack keep a suspended fiber alive.
   */
  lemma EveryFiber(run: seq<Event>, w: World, f: nat)
    requires Reaches(Initial(), run, w) && f in w.fibers
    ensures w.fibers[f].trace <= Segments(w.fibers[f].body)
    ensures !Active(w.fibers[f]) ==> w.fibers[f].swaps == |w.fibers[f].trace|
    ensures Ended(w.fibers[f]) <==> w.fibers[f].trace == Segments(w.fibers[f].body)
    ensures w.fibers[f].state in {HOLD, READY} ==> w.fibers[f].onStack == 2
    ensures w.fibers[f].refs + w.fibers[f].onStack > 0
  {
    InitialSound();
    RunSound(Initial(), run, w);
    ProgramOrder(w, f);
    SuspendedOwnsItself(w, f);
    if !Active(w.fibers[f]) {
      OneSegmentEach(w, f);
    }
    FiberHere(w, w.fibers[f].owner, f);
  }

  /**
   The main fiber is in EXEC. The current fiber is main and no sub-fiber of the thread is
   being run, or it is the only one that is. A fiber is in EXEC when it is being run, and
   else only after a std::exception has ended its body.
   */
  lemma OneRunning(w: World, t: nat)
    requires Sound(w)
    ensures ThreadOf(w, t).main.Some? ==> ThreadOf(w, t).main.value.state == EXEC && !ThreadOf(w, t).current.Nobody?
    ensures forall f :: f in w.fibers && w.fibers[f].owner == t ==>
              (Active(w.fibers[f]) <==> ThreadOf(w, t).current == Sub(f))
    ensures forall f :: f in w.fibers && w.fibers[f].state == EXEC && !Active(w.fibers[f]) ==>
              w.fibers[f].body.ending.ThrowsStd? && w.fibers[f].trace == Segments(w.fibers[f].body)
    ensures ThreadOf(w, t).current.Sub? ==>
              ThreadOf(w, t).current.f in w.fibers && w.fibers[ThreadOf(w, t).current.f].owner == t
  {
    Here(w, t);
    forall f | f in w.fibers && w.fibers[f].owner == t
      ensures Active(w.fibers[f]) <==> ThreadOf(w, t).current == Sub(f)
    {
      FiberHere(w, t, f);
    }
    forall f | f in w.fibers && w.fibers[f].state == EXEC && !Active(w.fibers[f])
      ensures w.fibers[f].body.ending.ThrowsStd? && w.fibers[f].trace == Segments(w.fibers[f].body)
    {
      FiberHere(w, w.fibers[f].owner, f);
    }
  }

  /** Identifiers are positive and pairwise distinct, and TotalFibers counts the live fibers. */
  lemma Totals(run: seq<Event>, w: World)
    requires Reaches(Initial(), run, w)
    ensures forall f :: f in w.fibers ==> w.fibers[f].id > 0
    ensures forall f, g :: f in w.fibers && g in w.fibers && w.fibers[f].id == w.fibers[g].id ==> f == g
    ensures w.count == |w.fibers| + |Mains(w)|
  {
    InitialSound();
    RunSound(Initial(), run, w);
    forall f | f in w.fibers ensures w.fibers[f].id > 0 {
      assert FiberBooked(w, f);
    }
    forall f, g | f in w.fibers && g in w.fibers && w.fibers[f].id == w.fibers[g].id ensures f == g {
      assert f != g ==> !SameResource(w.fibers[f], w.fibers[g]);
    }
  }

  // ------------------------------------------------------------------
  // Lifetimes
  // ------------------------------------------------------------------

  /**
   A fiber dies only with its last reference, in INIT, TERM or EXECPT, and its stack is
   freed with it; while it lives no step frees its stack.
   */
  lemma OnlyFinishedDie(w: World, t: nat, a: Action, f: nat)
    requires Sound(w) && Enabled(w, t, a) && f in w.fibers
    ensures Step(w, t, a).None? ==> Trips(w, t, a)
    ensures Step(w, t, a).Some? ==>
      var next := Step(w, t, a).value;
      if f in next.fibers then w.fibers[f].stack !in next.freed
      else
        && a == Drop(f) && w.fibers[f].state in {INIT, TERM, EXECPT}
        && w.fibers[f].refs == 1 && w.fibers[f].onStack == 0
        && next.freed == w.freed + [w.fibers[f].stack]
  {
    assert FiberBooked(w, f);
    StepSound(w, t, a);
    hide Step, Enabled;
    if Step(w, t, a).Some? {
      var next := Step(w, t, a).value;
      if f in next.fibers {
        StepKeeps(w, t, a, f);
        assert FiberBooked(next, f);
      } else {
        StepKills(w, t, a, f);
      }
    }
  }

  lemma StepKills(w: World, t: nat, a: Action, f: nat)
    requires Enabled(w, t, a) && Step(w, t, a).Some?
    requires f in w.fibers && f !in Step(w, t, a).value.fibers
    ensures a == Drop(f) && Resettable(w.fibers[f].state) && w.fibers[f].refs == 1 && w.fibers[f].onStack == 0
    ensures Step(w, t, a).value.freed == w.freed + [w.fibers[f].stack]
  {
  }

  /** What a step leaves of a fiber that is in the world before and after it. */
  lemma StepKeeps(w: World, t: nat, a: Action, f: nat)
    requires Enabled(w, t, a) && Step(w, t, a).Some?
    requires f in w.fibers && f < w.objects
    ensures w.objects <= Step(w, t, a).value.objects
    ensures f in Step(w, t, a).value.fibers ==>
              var r := Step(w, t, a).value.fibers[f];
              && r.stack == w.fibers[f].stack && r.id == w.fibers[f].id && r.owner == w.fibers[f].owner
              && r.body == (if a.Reset? && a.f == f then a.body else w.fibers[f].body)
              && (!a.Reset? || a.f != f ==> r.swaps == w.fibers[f].swaps + if a == SwapIn(f) then 1 else 0)
  {
  }

  lemma StepDoesNotRevive(w: World, t: nat, a: Action, f: nat)
    requires Enabled(w, t, a) && Step(w, t, a).Some?
    requires f !in w.fibers && f < w.objects
    ensures f !in Step(w, t, a).value.fibers && f < Step(w, t, a).value.objects
  {
  }

  lemma {:induction false} GoneStaysGone(w: World, run: seq<Event>, last: World, f: nat)
    requires Reaches(w, run, last) && f !in w.fibers && f < w.objects
    ensures f !in last.fibers
    decreases |run|
  {
    if run != [] {
      StepDoesNotRevive(w, run[0].t, run[0].a, f);
      GoneStaysGone(Step(w, run[0].t, run[0].a).value, run[1..], last, f);
    }
  }

  lemma StepIds(w: World, t: nat, a: Action, g: nat)
    requires Enabled(w, t, a) && Step(w, t, a).Some? && g in Step(w, t, a).value.fibers
    requires g in w.fibers ==> g < w.objects
    ensures var w' := Step(w, t, a).value;
      && w'.lastId >= w.lastId
      && if g in w.fibers then w'.fibers[g].id == w.fibers[g].id else w'.fibers[g].id > w.lastId
  {
  }

  lemma StepLastId(w: World, t: nat, a: Action)
    requires Enabled(w, t, a) && Step(w, t, a).Some?
    ensures Step(w, t, a).value.lastId >= w.lastId
  {
  }

  /**
   A fiber that is not in the world yet gets an identifier greater than every one handed
   out so far, whether the fibers that have those are alive or dead by then.
   */
  lemma {:induction false} LaterIdsAreGreater(w: World, run: seq<Event>, last: World, g: nat)
    requires Sound(w) && Reaches(w, run, last) && g in last.fibers
    ensures g !in w.fibers ==> last.fibers[g].id > w.lastId
    ensures g in w.fibers ==> last.fibers[g].id == w.fibers[g].id
    ensures forall f :: f in w.fibers ==> w.fibers[f].id <= w.lastId
    ensures forall f :: f in w.fibers && f != g ==> last.fibers[g].id != w.fibers[f].id
    decreases |run|
  {
    forall f | f in w.fibers ensures w.fibers[f].id <= w.lastId && f < w.objects {
      assert FiberBooked(w, f);
    }
    assert g in w.fibers ==> forall f :: f in w.fibers && f != g ==> !SameResource(w.fibers[f], w.fibers[g]);
    if run != [] {
      var t, a := run[0].t, run[0].a;
      var next := Step(w, t, a).value;
      StepSound(w, t, a);
      StepLastId(w, t, a);
      hide Sound, Step, Enabled;
      LaterIdsAreGreater(next, run[1..], last, g);
      if g in next.fibers {
        StepIds(w, t, a, g);
      } else if g in w.fibers {
        StepKeeps(w, t, a, g);
        GoneStaysGone(next, run[1..], last, g);
      }
    }
  }

  /**
   A fiber keeps the stack it was made with, whatever Resets come; a fiber that is alive
   at the end was never freed, and no stack is freed twice.
   */
  lemma {:induction false} StackFixed(w: World, run: seq<Event>, last: World, f: nat)
    requires Sound(w) && Reaches(w, run, last) && f in w.fibers && f in last.fibers
    ensures last.fibers[f].stack == w.fibers[f].stack && last.fibers[f].stack !in last.freed
    ensures forall i, j :: 0 <= i < j < |last.freed| ==> last.freed[i] != last.freed[j]
    decreases |run|
  {
    assert FiberBooked(w, f);
    if run != [] {
      var next := Step(w, run[0].t, run[0].a).value;
      StepSound(w, run[0].t, run[0].a);
      StepKeeps(w, run[0].t, run[0].a, f);
      if f !in next.fibers {
        GoneStaysGone(next, run[1..], last, f);
      } else {
        StackFixed(next, run[1..], last, f);
      }
    }
  }

  // ------------------------------------------------------------------
  // Counting the calls of SwapIn
  // ------------------------------------------------------------------

  function SwapIns(run: seq<Event>, f: nat): nat {
    if run == [] then 0 else SwapIns(run[1..], f) + if run[0].a == SwapIn(f) then 1 else 0
  }

  predicate NoReset(run: seq<Event>, f: nat) {
    forall k :: 0 <= k < |run| && run[k].a.Reset? ==> run[k].a.f != f
  }

  lemma {:induction false} SwapsCounted(w: World, run: seq<Event>, last: World, f: nat)
    requires Sound(w) && Reaches(w, run, last) && NoReset(run, f)
    requires f in w.fibers && f in last.fibers
    ensures last.fibers[f].body == w.fibers[f].body
    ensures last.fibers[f].swaps == w.fibers[f].swaps + SwapIns(run, f)
    decreases |run|
  {
    assert FiberBooked(w, f);
    hide Sound, Step;
    if run != [] {
      var next := Step(w, run[0].t, run[0].a).value;
      StepSound(w, run[0].t, run[0].a);
      StepKeeps(w, run[0].t, run[0].a, f);
      if f !in next.fibers {
        GoneStaysGone(next, run[1..], last, f);
      } else {
        assert NoReset(run[1..], f) by {
          forall k | 0 <= k < |run[1..]| && run[1..][k].a.Reset? ensures run[1..][k].a.f != f {
            assert run[1..][k] == run[k + 1];
          }
        }
        SwapsCounted(next, run[1..], last, f);
      }
    }
  }

  /**
   A fiber that was just made or reset, whose body has k yields, is finished after exactly
   k + 1 calls of SwapIn, whatever else goes on: in TERM if the body returns, in EXECPT if
   it throws, and still in EXEC if it throws a std::exception.
   */
  lemma FinishedAfterExactly(w: World, run: seq<Event>, last: World, f: nat)
    requires Sound(w) && Reaches(w, run, last) && NoReset(run, f)
    requires f in w.fibers && w.fibers[f].state == INIT
    requires f in last.fibers && !Active(last.fibers[f])
    ensures SwapIns(run, f) <= |w.fibers[f].body.parts| + 1
    ensures Ended(last.fibers[f]) <==> SwapIns(run, f) == |w.fibers[f].body.parts| + 1
    ensures last.fibers[f].state == TERM <==>
              SwapIns(run, f) == |w.fibers[f].body.parts| + 1 && w.fibers[f].body.ending.Returns?
    ensures last.fibers[f].state == EXECPT <==>
              SwapIns(run, f) == |w.fibers[f].body.parts| + 1 && w.fibers[f].body.ending.Throws?
    ensures last.fibers[f].trace == Segments(w.fibers[f].body)[..SwapIns(run, f)]
  {
    RunSound(w, run, last);
    SwapsCounted(w, run, last, f);
    JustMade(w, f);
    OneSegmentEach(last, f);
    ProgramOrder(last, f);
    hide *;
  }

  /** The step of `e` makes the fiber `f` with the body `b`, or resets it to that body. */
  predicate Starts(w: World, e: Event, f: nat, b: Body) {
    (e.a == Create(b) && f == w.objects) || e.a == Action.Reset(f, b)
  }

  lemma StartsFresh(w: World, e: Event, f: nat, b: Body)
    requires Sound(w) && Starts(w, e, f, b) && Enabled(w, e.t, e.a) && Step(w, e.t, e.a).Some?
    ensures var w' := Step(w, e.t, e.a).value;
            && Sound(w') && f in w'.fibers && w'.fibers[f].body == b && w'.fibers[f].state == INIT && w'.fibers[f].trace == []
  {
    StepSound(w, e.t, e.a);
    hide Sound, Step;
    if e.a.Create? {
      CreateSound(w, e.t, b);
    } else {
      ResetSound(w, e.t, f, b);
    }
  }

  /**
   What a fiber is made with or reset to is what runs. From there on, up to the next Reset,
   n calls of SwapIn run the first n segments of that body, whatever else goes on: all of
   them when the body has n - 1 yields. The state is then that of the n-th yield or of the
   way the body ends.
   */
  lemma RunsWhatWasGiven(w: World, run: seq<Event>, last: World, f: nat, b: Body)
    requires Sound(w) && Reaches(w, run, last) && run != []
    requires Starts(w, run[0], f, b) && NoReset(run[1..], f)
    requires f in last.fibers && !Active(last.fibers[f])
    ensures Ran(last.fibers[f], b, SwapIns(run[1..], f))
  {
    var next := Step(w, run[0].t, run[0].a).value;
    StartsFresh(w, run[0], f, b);
    hide Sound, Step, Starts, Ran;
    RunsItsBody(next, run[1..], last, f);
  }

  /** The fiber has run the first `n` segments of `b` and is in the state that the last of them asks for. */
  predicate Ran(r: Fiber<nat>, b: Body, n: nat) {
    && n <= |b.parts| + 1 && r.body == b && |r.trace| == n
    && (forall i :: 0 <= i < n ==> r.trace[i] == if i < |b.parts| then b.parts[i].seg else b.last)
    && r.state == (if n == 0 then INIT
                   else if n <= |b.parts| then b.parts[n - 1].yieldTo
                   else match b.ending case Returns => TERM case Throws => EXECPT case ThrowsStd => EXEC)
  }

  lemma RunsItsBody(w: World, run: seq<Event>, last: World, f: nat)
    requires Sound(w) && Reaches(w, run, last) && NoReset(run, f)
    requires f in w.fibers && w.fibers[f].state == INIT
    requires f in last.fibers && !Active(last.fibers[f])
    ensures Ran(last.fibers[f], w.fibers[f].body, SwapIns(run, f))
  {
    hide Sound, Step, NoReset, Reaches, SwapIns;
    FinishedAfterExactly(w, run, last, f);
    RunSound(w, run, last);
    SwapsCounted(w, run, last, f);
    JustMade(w, f);
    StateAtRest(last, f);
  }

  /** The state of a fiber that control is off, by the calls of SwapIn it has had. */
  lemma StateAtRest(w: World, f: nat)
    requires Sound(w) && f in w.fibers && !Active(w.fibers[f])
    ensures var r := w.fibers[f];
      && r.swaps <= |r.body.parts| + 1
      && r.state == (if r.swaps == 0 then INIT
                     else if r.swaps <= |r.body.parts| then r.body.parts[r.swaps - 1].yieldTo
                     else FinalState(r.body, EXEC))
  {
    FiberHere(w, w.fibers[f].owner, f);
  }

  /**
   A step fails exactly where the last reference to a fiber in EXEC is dropped, where one
   that is suspended or in EXEC is reset, where one that is finished or in EXEC is swapped
   in, or where there is no main fiber to come back to.
   */
  lemma FailsExactly(w: World, t: nat, a: Action)
    requires Sound(w) && Enabled(w, t, a)
    ensures Step(w, t, a).None? <==>
              || (a.Drop? && w.fibers[a.f].state == EXEC && w.fibers[a.f].refs == 1)
              || (a.Reset? && w.fibers[a.f].state in {HOLD, READY, EXEC})
              || (a.SwapIn? && (w.fibers[a.f].state in {TERM, EXECPT, EXEC} || t !in w.threads || w.threads[t].main.None?))
  {
    StepSound(w, t, a);
    hide Sound, Step;
  }

  function Shares(run: seq<Event>, f: nat): nat {
    if run == [] then 0 else Shares(run[1..], f) + if run[0].a == Share(f) then 1 else 0
  }

  function Drops(run: seq<Event>, f: nat): nat {
    if run == [] then 0 else Drops(run[1..], f) + if run[0].a == Drop(f) then 1 else 0
  }

  /** A fiber has as many references from outside as it had, and were shared since, less those dropped. */
  lemma {:induction false} RefsCounted(w: World, run: seq<Event>, last: World, f: nat)
    requires Sound(w) && Reaches(w, run, last) && f in w.fibers && f in last.fibers
    ensures last.fibers[f].refs + Drops(run, f) == w.fibers[f].refs + Shares(run, f)
    decreases |run|
  {
    assert FiberBooked(w, f);
    hide Sound, Step;
    if run != [] {
      var next := Step(w, run[0].t, run[0].a).value;
      StepSound(w, run[0].t, run[0].a);
      StepKeeps(w, run[0].t, run[0].a, f);
      if f !in next.fibers {
        GoneStaysGone(next, run[1..], last, f);
      } else {
        StepRefs(w, run[0].t, run[0].a, f);
        RefsCounted(next, run[1..], last, f);
      }
    }
  }

  lemma StepRefs(w: World, t: nat, a: Action, f: nat)
    requires Enabled(w, t, a) && Step(w, t, a).Some?
    requires f in w.fibers && f < w.objects && f in Step(w, t, a).value.fibers
    ensures Step(w, t, a).value.fibers[f].refs ==
            w.fibers[f].refs + (if a == Share(f) then 1 else 0) - (if a == Drop(f) then 1 else 0)
  {
  }

  lemma JustMade(w: World, f: nat)
    requires Sound(w) && f in w.fibers && w.fibers[f].state == INIT
    ensures w.fibers[f].swaps == 0
  {
    FiberHere(w, w.fibers[f].owner, f);
  }

  /** The segments a fiber has still to be resumed for. */
  function Left(r: Fiber<nat>): int { |r.body.parts| + 1 - r.swaps }

  function Remaining(w: World, fs: seq<nat>): int
    requires forall f :: f in fs ==> f in w.fibers
  {
    if fs == [] then 0 else Left(w.fibers[fs[0]]) + Remaining(w, fs[1..])
  }

  function AllSwapIns(run: seq<Event>, fs: seq<nat>): nat {
    if fs == [] then 0 else SwapIns(run, fs[0]) + AllSwapIns(run, fs[1..])
  }

  lemma LeftExact(w: World, f: nat)
    requires Sound(w) && f in w.fibers
    ensures Left(w.fibers[f]) >= 0
    ensures !Active(w.fibers[f]) ==> (Left(w.fibers[f]) == 0 <==> Ended(w.fibers[f]))
  {
    FiberHere(w, w.fibers[f].owner, f);
  }

  lemma {:induction false} RemainingNonNegative(w: World, fs: seq<nat>)
    requires Sound(w) && forall f :: f in fs ==> f in w.fibers
    ensures Remaining(w, fs) >= 0
  {
    if fs != [] {
      LeftExact(w, fs[0]);
      RemainingNonNegative(w, fs[1..]);
    }
  }

  lemma {:induction false} RemainingDrops(w: World, run: seq<Event>, last: World, fs: seq<nat>)
    requires Sound(w) && Reaches(w, run, last)
    requires forall f :: f in fs ==> f in w.fibers && f in last.fibers && NoReset(run, f)
    ensures Remaining(last, fs) == Remaining(w, fs) - AllSwapIns(run, fs)
    decreases |fs|
  {
    hide Sound, Reaches;
    if fs != [] {
      SwapsCounted(w, run, last, fs[0]);
      RemainingDrops(w, run, last, fs[1..]);
    }
  }

  /**
   The sum of the remaining segments is a termination measure: however fibers are
   scheduled, a driver can make no more calls of SwapIn on them than it said at the start.
   */
  lemma DriverTerminates(w: World, run: seq<Event>, last: World, fs: seq<nat>)
    requires Sound(w) && Reaches(w, run, last)
    requires forall f :: f in fs ==> f in w.fibers && f in last.fibers && NoReset(run, f)
    ensures AllSwapIns(run, fs) == Remaining(w, fs) - Remaining(last, fs) <= Remaining(w, fs)
  {
    RunSound(w, run, last);
    RemainingDrops(w, run, last, fs);
    RemainingNonNegative(last, fs);
  }

  // ------------------------------------------------------------------
  // Control comes back to main where it left
  // ------------------------------------------------------------------

  /** Thread `t` is in a fiber that main resumed in its n-th step. */
  predicate Behind(w: World, t: nat, n: nat) {
    !ThreadOf(w, t).at.Outside? && ThreadOf(w, t).lastSwap == n
  }

  lemma SwapInLeaves(w: World, t: nat, f: nat)
    requires Sound(w) && CanSwapIn(w, t, f)
    ensures Step(w, t, SwapIn(f)).Some? && Behind(Step(w, t, SwapIn(f)).value, t, ThreadOf(w, t).at.site)
  {
    SwapInSound(w, t, f);
    Here(Step(w, t, SwapIn(f)).value, t);
    FiberHere(w, t, f);
  }

  lemma BehindStep(w: World, u: nat, a: Action, t: nat, n: nat)
    requires Sound(w) && Behind(w, t, n) && Enabled(w, u, a) && Step(w, u, a).Some?
    ensures Behind(Step(w, u, a).value, t, n) || ThreadOf(Step(w, u, a).value, t).at == Outside(n + 1)
  {
    hide Sound, FiberOk;
    Here(w, t);
    if u == t {
      OwnStep(w, t, a);
    }
  }

  /** Out of a fiber there is only the way to where main waits. */
  lemma OwnStep(w: World, t: nat, a: Action)
    requires ThreadOk(ThreadOf(w, t), t, w.fibers) && !ThreadOf(w, t).at.Outside?
    requires Enabled(w, t, a) && Step(w, t, a).Some?
    ensures ThreadOf(Step(w, t, a).value, t).at == ThreadOf(w, t).main.value.ctx ||
            (!ThreadOf(Step(w, t, a).value, t).at.Outside? && ThreadOf(Step(w, t, a).value, t).lastSwap == ThreadOf(w, t).lastSwap)
  {
  }

  /** The first state of the run in which thread `t` is in its own code is at step `n`. */
  predicate FirstBackAt(w: World, run: seq<Event>, t: nat, n: nat)
    decreases |run|
  {
    if ThreadOf(w, t).at.Outside? then ThreadOf(w, t).at == Outside(n)
    else
      && run != [] && Enabled(w, run[0].t, run[0].a) && Step(w, run[0].t, run[0].a).Some?
      && FirstBackAt(Step(w, run[0].t, run[0].a).value, run[1..], t, n)
  }

  /** Control returns to main exactly behind the SwapIn that it left from. */
  lemma {:induction false} BackWhereItLeft(w: World, run: seq<Event>, last: World, t: nat, n: nat)
    requires Sound(w) && Reaches(w, run, last) && Behind(w, t, n)
    ensures Behind(last, t, n) || FirstBackAt(w, run, t, n + 1)
    decreases |run|
  {
    hide Sound, Step;
    if run != [] {
      var next := Step(w, run[0].t, run[0].a).value;
      StepSound(w, run[0].t, run[0].a);
      BehindStep(w, run[0].t, run[0].a, t, n);
      if Behind(next, t, n) {
        BackWhereItLeft(next, run[1..], last, t, n);
      }
    }
  }

  /** A SwapIn that main makes in its n-th step returns, if it does, to step n + 1. */
  lemma SwapInComesBack(w: World, t: nat, f: nat, run: seq<Event>, last: World)
    requires Sound(w) && Enabled(w, t, SwapIn(f)) && Step(w, t, SwapIn(f)).Some?
    requires Reaches(Step(w, t, SwapIn(f)).value, run, last)
    ensures var n := ThreadOf(w, t).at.site;
            Behind(last, t, n) || FirstBackAt(Step(w, t, SwapIn(f)).value, run, t, n + 1)
  {
    hide Sound, Step, Behind, FirstBackAt, Reaches;
    StepSound(w, t, SwapIn(f));
    SwapInLeaves(w, t, f);
    BackWhereItLeft(Step(w, t, SwapIn(f)).value, run, last, t, ThreadOf(w, t).at.site);
  }

  // ------------------------------------------------------------------
  // A whole resumption
  // ------------------------------------------------------------------

  /** What one SwapIn does to a fiber, by the time it returns: the next segment, and its yield or the end. */
  function Resumed<F>(r: Fiber<F>, self: F): Fiber<F> {
    var n := r.swaps;
    if n < |r.body.parts| then
      r.(swaps := n + 1, trace := r.trace + [r.body.parts[n].seg], state := r.body.parts[n].yieldTo,
         onStack := 2, ctx := Suspended(self, self, n + 1))
    else
      r.(swaps := n + 1, trace := r.trace + [r.body.last], state := FinalState(r.body, EXEC),
         onStack := 0, ctx := Gone(self))
  }

  /** A resumption keeps a fiber in order: its trace, its references and its state fit. */
  lemma ResumedOk<F>(r: Fiber<F>, self: F, at: Place<F>)
    requires Resumable(r.state) && r.refs > 0 && FiberOk(r, self, at)
    ensures FiberOk(Resumed(r, self), self, at) && !Active(Resumed(r, self))
  {
    TraceGrows(r.body, r.swaps);
  }

  function Inner(at: Place<nat>): Action { if at.Entry? then Begin else Continue }

  function Outer(w: World, t: nat): Action
    requires ThreadOf(w, t).at.InBody? && ThreadOf(w, t).at.f in w.fibers
  {
    if ThreadOf(w, t).at.pc < |w.fibers[ThreadOf(w, t).at.f].body.parts| then Yield else Finish
  }

  /** Inside a fiber control never gets stuck: it enters the body, and from there it leaves the fiber. */
  lemma NeverStuck(w: World, t: nat)
    requires Sound(w) && !ThreadOf(w, t).at.Outside?
    ensures ThreadOf(w, t).at.InBody? ==> ThreadOf(w, t).at.f in w.fibers && Enabled(w, t, Outer(w, t))
    ensures !ThreadOf(w, t).at.InBody? ==> Enabled(w, t, Inner(ThreadOf(w, t).at))
  {
    Here(w, t);
  }

  /** The thread while its fiber `f` runs segment `pc`. */
  function Inside(w: World, t: nat, f: nat, pc: nat): Thread
    requires ThreadOf(w, t).at.Outside?
  {
    AwayFrom(w, t, InBody(f, pc), Sub(f))
  }

  /** The thread between a SwapIn in the present step and its return. */
  function AwayFrom(w: World, t: nat, at: Place<nat>, current: Current<nat>): Thread
    requires ThreadOf(w, t).at.Outside?
  {
    var site := ThreadOf(w, t).at.site;
    Thread(at, current, Some(MainFiber(EXEC, Outside(site + 1))), site)
  }

  function Entered(w: World, t: nat, f: nat): World
    requires f in w.fibers && ThreadOf(w, t).at.Outside?
  {
    WithThread(WithFiber(w, f, SwappedIn(w.fibers[f])), t, AwayFrom(w, t, w.fibers[f].ctx, Sub(f)))
  }

  function Midway(w: World, t: nat, f: nat): World
    requires f in w.fibers && ThreadOf(w, t).at.Outside?
  {
    var r := w.fibers[f];
    WithThread(WithFiber(w, f, SwappedIn(r).(onStack := 1)), t, AwayFrom(w, t, InBody(f, r.swaps), Sub(f)))
  }

  /** The world when a SwapIn of `f` returns: the fiber is resumed, the thread one step further. */
  function Returned(w: World, t: nat, f: nat): World
    requires f in w.fibers && ThreadOf(w, t).at.Outside?
  {
    WithThread(WithFiber(w, f, Resumed(w.fibers[f], f)), t,
      AwayFrom(w, t, Outside(ThreadOf(w, t).at.site + 1), TheMain))
  }

  lemma IntoFiber(w: World, t: nat, f: nat)
    requires Sound(w) && CanSwapIn(w, t, f)
    ensures Step(w, t, SwapIn(f)) == Some(Entered(w, t, f))
  {
    hide Sound, FiberOk;
    Here(w, t);
    FiberHere(w, t, f);
    assert w.fibers[f].state != EXEC;
  }

  /** A fiber that can be resumed, in the terms of its own code. */
  predicate Awaits(r: Fiber<nat>, f: nat) {
    && r.ctx == (if r.state == INIT then Entry(f) else Suspended(f, f, r.swaps))
    && r.onStack == (if r.state == INIT then 0 else 2)
    && r.swaps <= |r.body.parts| && r.refs > 0
  }

  lemma ResumableAwaits(w: World, t: nat, f: nat)
    requires Sound(w) && CanSwapIn(w, t, f)
    ensures Awaits(w.fibers[f], f) && (w.fibers[f].state == INIT ==> w.fibers[f].swaps == 0)
  {
    FiberHere(w, t, f);
  }

  lemma IntoBody(w: World, t: nat, f: nat, a: Action)
    requires CanSwapIn(w, t, f) && Awaits(w.fibers[f], f)
    requires w.fibers[f].state == INIT ==> w.fibers[f].swaps == 0
    requires a == if w.fibers[f].state == INIT then Begin else Continue
    ensures Enabled(Entered(w, t, f), t, a)
    ensures Step(Entered(w, t, f), t, a) == Some(Midway(w, t, f))
  {
    var w1 := Entered(w, t, f);
    var r := SwappedIn(w.fibers[f]);
    assert ThreadOf(w1, t) == AwayFrom(w, t, r.ctx, Sub(f)) && w1.fibers[f] == r;
    assert w1.fibers[f := r.(onStack := 1)] == w.fibers[f := r.(onStack := 1)];
    assert w1.threads[t := Inside(w, t, f, w.fibers[f].swaps)] == w.threads[t := Inside(w, t, f, w.fibers[f].swaps)];
  }

  lemma OutOfBody(w: World, t: nat, f: nat, a: Action)
    requires CanSwapIn(w, t, f) && Awaits(w.fibers[f], f)
    requires a == if w.fibers[f].swaps < |w.fibers[f].body.parts| then Yield else Finish
    ensures Enabled(Midway(w, t, f), t, a)
    ensures Step(Midway(w, t, f), t, a) == Some(Returned(w, t, f))
  {
    var w2 := Midway(w, t, f);
    var r := Resumed(w.fibers[f], f);
    var th := AwayFrom(w, t, Outside(ThreadOf(w, t).at.site + 1), TheMain);
    assert ThreadOf(w2, t) == Inside(w, t, f, w.fibers[f].swaps);
    assert w2.fibers[f] == SwappedIn(w.fibers[f]).(onStack := 1);
    assert w2.fibers[f := r] == w.fibers[f := r];
    assert w2.threads[t := th] == w.threads[t := th];
  }

  /**
   SwapIn, the way into the body, one segment and the way out are one resumption: only
   this fiber and its thread change, and the thread is where it was, one step further.
   */
  lemma RoundTrip(w: World, t: nat, f: nat)
    requires Sound(w) && CanSwapIn(w, t, f)
    ensures Reaches(w, Round(w.fibers[f], t, f), Returned(w, t, f))
  {
    hide Sound, Step, Resumed;
    var r := w.fibers[f];
    var run := Round(r, t, f);
    IntoFiber(w, t, f);
    ResumableAwaits(w, t, f);
    IntoBody(w, t, f, run[1].a);
    OutOfBody(w, t, f, run[2].a);
    hide Enabled, Entered, Midway, Returned;
    assert run[1..][1..][1..] == [] && run[1..][0] == run[1] && run[1..][1..][0] == run[2];
    assert Reaches(Midway(w, t, f), run[1..][1..], Returned(w, t, f));
    assert Reaches(Entered(w, t, f), run[1..], Returned(w, t, f));
  }

  function Round(r: Fiber<nat>, t: nat, f: nat): seq<Event> {
    [Event(t, SwapIn(f)), Event(t, if r.state == INIT then Begin else Continue),
     Event(t, if r.swaps < |r.body.parts| then Yield else Finish)]
  }
}
