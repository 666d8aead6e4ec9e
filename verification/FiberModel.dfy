/**
 The coroutines of src/fiber.cpp as a machine of small steps, for any number of threads
 that interleave. A thread is at one place in some code; `swapcontext` stores that place
 in one fiber and jumps to the place stored in another. The bookkeeping of the library
 (states, the current-fiber pointer, references, counters) is kept apart from where
 control really is, and is proved to agree with it.
 */
module FiberModel {
  import opened Basics

  datatype State = INIT | HOLD | EXEC | TERM | READY | EXECPT

  /** The code a fiber runs: segments that end in a yield, then a last one. */
  datatype Part = Part(seg: nat, yieldTo: State)
  /** A body returns, throws a std::exception, or throws anything else. */
  datatype Ending = Returns | ThrowsStd | Throws
  datatype Body = Body(parts: seq<Part>, last: nat, ending: Ending)

  function Segments(b: Body): seq<nat> {
    seq(|b.parts| + 1, i requires 0 <= i <= |b.parts| => if i < |b.parts| then b.parts[i].seg else b.last)
  }

  predicate Yields(b: Body) {
    forall i :: 0 <= i < |b.parts| ==> b.parts[i].yieldTo in {HOLD, READY}
  }

  /**
   A place in the code, with the locals that live there. `F` names fibers. `held` is the
   reference that a call of YieldToHold or YieldToReady keeps in its own `cur`.
   */
  datatype Place<F> =
    | Outside(site: nat)                     // the thread's own code, at its site-th step
    | Entry(f: F)                            // the start of MainFunc on the stack of f
    | InBody(f: F, pc: nat)                  // cb_ of f, before segment pc
    | Suspended(f: F, held: F, pc: nat)      // inside the yield that precedes segment pc
    | Gone(f: F)                             // behind the last SwapOut of MainFunc

  /** A fiber with a stack. `refs` counts references from outside, `onStack` those of its own stack. */
  datatype Fiber<F> = Fiber(
    owner: nat, id: nat, state: State, ctx: Place<F>, stack: nat, body: Body,
    refs: nat, onStack: nat, trace: seq<nat>, swaps: nat)

  /** The main fiber of a thread has no stack and no function. */
  datatype MainFiber<F> = MainFiber(state: State, ctx: Place<F>)

  datatype Current<F> = Nobody | TheMain | Sub(f: F)

  datatype Thread = Thread(
    at: Place<nat>, current: Current<nat>, main: Option<MainFiber<nat>>, lastSwap: nat)

  datatype World = World(
    fibers: map<nat, Fiber<nat>>, threads: map<nat, Thread>,
    objects: nat, blocks: nat, freed: seq<nat>, lastId: nat, count: nat)

  datatype Action =
    | GetThis | Create(body: Body) | Share(f: nat) | Drop(f: nat) | Reset(f: nat, body: Body)
    | SwapIn(f: nat) | Begin | Continue | Yield | Finish | Exit

  function ThreadOf(w: World, t: nat): Thread {
    if t in w.threads then w.threads[t] else Thread(Outside(0), Nobody, None, 0)
  }

  // ------------------------------------------------------------------
  // The fields one call changes in one fiber
  // ------------------------------------------------------------------

  function Created<F>(owner: nat, id: nat, stack: nat, self: F, body: Body): Fiber<F> {
    Fiber(owner, id, INIT, Entry(self), stack, body, 1, 0, [], 0)
  }

  function ResetTo<F>(r: Fiber<F>, self: F, body: Body): Fiber<F> {
    r.(body := body, ctx := Entry(self), state := INIT, trace := [], swaps := 0)
  }

  function SwappedIn<F>(r: Fiber<F>): Fiber<F> {
    r.(state := EXEC, swaps := r.swaps + 1)
  }

  /** One segment and the yield behind it; `ctx` is the place that `swapcontext` stores. */
  function Yielded<F>(r: Fiber<F>, pc: nat, ctx: Place<F>): Fiber<F>
    requires pc < |r.body.parts|
  {
    r.(trace := r.trace + [r.body.parts[pc].seg], state := r.body.parts[pc].yieldTo,
       onStack := r.onStack + 1, ctx := ctx)
  }

  /**
   The last segment, the end of MainFunc, and the reference it gives up. The handler of a
   std::exception leaves the state alone.
   */
  function Finished<F>(r: Fiber<F>, ctx: Place<F>): Fiber<F>
    requires r.onStack > 0
  {
    r.(trace := r.trace + [r.body.last], state := FinalState(r.body, r.state),
       onStack := r.onStack - 1, ctx := ctx)
  }

  function FinalState(b: Body, s: State): State {
    match b.ending
    case Returns => TERM
    case Throws => EXECPT
    case ThrowsStd => s
  }

  predicate Resettable(s: State) { s in {INIT, TERM, EXECPT} }

  predicate Resumable(s: State) { s in {INIT, HOLD, READY} }

  // ------------------------------------------------------------------
  // Steps
  // ------------------------------------------------------------------

  predicate UserCode(p: Place<nat>) { p.Outside? || p.InBody? }

  predicate Holds(w: World, t: nat, f: nat) {
    f in w.fibers && w.fibers[f].owner == t && w.fibers[f].refs > 0
  }

  /**
   What the users of the library keep to: only the main fiber swaps in; the reference used
   for that is kept until control is back; a fiber stays on one thread; only a body yields,
   and to HOLD or READY.
   */
  predicate Enabled(w: World, t: nat, a: Action) {
    var at := ThreadOf(w, t).at;
    match a
    case GetThis => UserCode(at)
    case Create(b) => UserCode(at) && Yields(b)
    case Share(f) => UserCode(at) && Holds(w, t, f)
    case Drop(f) => UserCode(at) && Holds(w, t, f) && (at.InBody? && at.f == f ==> w.fibers[f].refs > 1)
    case Reset(f, b) => UserCode(at) && Holds(w, t, f) && Yields(b)
    case SwapIn(f) => at.Outside? && Holds(w, t, f)
    case Begin => at.Entry?
    case Continue => at.Suspended?
    case Yield => at.InBody? && at.f in w.fibers && at.pc < |w.fibers[at.f].body.parts|
    case Finish => at.InBody? && at.f in w.fibers && at.pc == |w.fibers[at.f].body.parts|
    case Exit => at.Outside? && ThreadOf(w, t).main.Some?
  }

  /** The thread's own code moves on; the code of a fiber moves on only from yield to yield. */
  function Next(p: Place<nat>): Place<nat> {
    if p.Outside? then Outside(p.site + 1) else p
  }

  function WithThread(w: World, t: nat, th: Thread): World {
    w.(threads := w.threads[t := th])
  }

  function WithFiber(w: World, f: nat, r: Fiber<nat>): World {
    w.(fibers := w.fibers[f := r])
  }

  /** One step of thread `t`; None where an assertion of the library would fail or a pointer dangle. */
  function Step(w: World, t: nat, a: Action): Option<World>
    requires Enabled(w, t, a)
  {
    var th := ThreadOf(w, t);
    match a
    case GetThis => Some(WithThread(GotThis(w, th), t, MainMade(th).(at := Next(th.at))))
    case Create(b) => Some(WithThread(MakeFiber(w, t, b), t, th.(at := Next(th.at))))
    case Share(f) =>
      Some(WithThread(WithFiber(w, f, w.fibers[f].(refs := w.fibers[f].refs + 1)), t, th.(at := Next(th.at))))
    case Drop(f) => DropRef(WithThread(w, t, th.(at := Next(th.at))), f)
    case Reset(f, b) =>
      if !Resettable(w.fibers[f].state) then None
      else Some(WithThread(WithFiber(w, f, ResetTo(w.fibers[f], f, b)), t, th.(at := Next(th.at))))
    case SwapIn(f) => SwapInto(w, t, th, f)
    case Begin => BeginMain(w, t, th)
    case Continue => LeaveYield(w, t, th)
    case Yield => YieldFrom(w, t, th)
    case Finish => EndMain(w, t, th)
    case Exit => EndThread(w, t, th)
  }

  /**
   The ways in which a step fails an assertion of the library, or writes through the null
   pointer of a thread without a main fiber. A caller can see each before the call.
   */
  predicate Trips(w: World, t: nat, a: Action) {
    match a
    case Drop(f) => f in w.fibers && w.fibers[f].state == EXEC && w.fibers[f].refs == 1
    case Reset(f, _) => f in w.fibers && !Resettable(w.fibers[f].state)
    case SwapIn(f) => f in w.fibers && (!Resumable(w.fibers[f].state) || ThreadOf(w, t).main.None?)
    case _ => false
  }

  function MainMade(th: Thread): Thread {
    if th.current.Nobody? then th.(current := TheMain, main := Some(MainFiber(EXEC, Next(th.at)))) else th
  }

  function GotThis(w: World, th: Thread): World {
    if th.current.Nobody? then w.(count := w.count + 1) else w
  }

  function MakeFiber(w: World, t: nat, b: Body): World {
    w.(fibers := w.fibers[w.objects := Created(t, w.lastId + 1, w.blocks, w.objects, b)],
       objects := w.objects + 1, blocks := w.blocks + 1, lastId := w.lastId + 1, count := w.count + 1)
  }

  function Destroyed(w: World, f: nat): World
    requires f in w.fibers && w.count > 0
  {
    w.(fibers := w.fibers - {f}, freed := w.freed + [w.fibers[f].stack], count := w.count - 1)
  }

  function DropRef(w: World, f: nat): Option<World>
    requires f in w.fibers && w.fibers[f].refs > 0
  {
    var r := w.fibers[f].(refs := w.fibers[f].refs - 1);
    if r.refs + r.onStack > 0 then Some(WithFiber(w, f, r))
    else if !Resettable(r.state) || w.count == 0 then None
    else Some(Destroyed(w, f))
  }

  /**
   The state must not be EXEC, and there must be a main fiber to save. Resuming a finished
   fiber goes straight to the assertion behind the last SwapOut of MainFunc.
   */
  function SwapInto(w: World, t: nat, th: Thread, f: nat): Option<World>
    requires f in w.fibers && th.at.Outside?
  {
    var r := w.fibers[f];
    if !Resumable(r.state) || th.main.None? then None
    else
      var main := th.main.value.(ctx := Next(th.at));
      Some(WithThread(WithFiber(w, f, SwappedIn(r)), t, Thread(r.ctx, Sub(f), Some(main), th.at.site)))
  }

  /** MainFunc asks for the current fiber and calls its function. */
  function BeginMain(w: World, t: nat, th: Thread): Option<World> {
    if !th.current.Sub? || th.current.f !in w.fibers then None
    else
      var f := th.current.f;
      var r := w.fibers[f];
      Some(WithThread(WithFiber(w, f, r.(onStack := r.onStack + 1)), t, th.(at := InBody(f, 0))))
  }

  /** A yield returns into the body and gives up its `cur`. */
  function LeaveYield(w: World, t: nat, th: Thread): Option<World>
    requires th.at.Suspended?
  {
    var h := th.at.held;
    if h !in w.fibers || w.fibers[h].onStack == 0 then None
    else
      var r := w.fibers[h];
      Some(WithThread(WithFiber(w, h, r.(onStack := r.onStack - 1)), t, th.(at := InBody(th.at.f, th.at.pc))))
  }

  /**
   YieldToHold or YieldToReady: the current fiber is asked for, and has to be in EXEC. If it
   were not the fiber whose code is running, the saved places would be mixed up.
   */
  function YieldFrom(w: World, t: nat, th: Thread): Option<World>
    requires th.at.InBody? && th.at.f in w.fibers && th.at.pc < |w.fibers[th.at.f].body.parts|
  {
    if th.current != Sub(th.at.f) || w.fibers[th.at.f].state != EXEC || th.main.None? then None
    else
      var f := th.at.f;
      var r := Yielded(w.fibers[f], th.at.pc, Suspended(f, f, th.at.pc + 1));
      Some(WithThread(WithFiber(w, f, r), t, th.(current := TheMain, at := th.main.value.ctx)))
  }

  /** The rest of MainFunc gives up `cur` and then still uses the fiber, which must be alive. */
  function EndMain(w: World, t: nat, th: Thread): Option<World>
    requires th.at.InBody? && th.at.f in w.fibers
  {
    var f := th.at.f;
    var r := w.fibers[f];
    if r.onStack == 0 || r.onStack + r.refs == 1 || th.main.None? then None
    else
      Some(WithThread(WithFiber(w, f, Finished(r, Gone(f))), t, th.(current := TheMain, at := th.main.value.ctx)))
  }

  /** The thread ends and its main fiber is destroyed. */
  function EndThread(w: World, t: nat, th: Thread): Option<World>
    requires th.main.Some?
  {
    if th.main.value.state != EXEC || w.count == 0 then None
    else
      var current := if th.current.TheMain? then Nobody else th.current;
      Some(WithThread(w.(count := w.count - 1), t, th.(main := None, current := current, at := Next(th.at))))
  }

  datatype Event = Event(t: nat, a: Action)

  predicate Reaches(w: World, run: seq<Event>, last: World)
    decreases |run|
  {
    if run == [] then w == last
    else
      && Enabled(w, run[0].t, run[0].a)
      && Step(w, run[0].t, run[0].a).Some?
      && Reaches(Step(w, run[0].t, run[0].a).value, run[1..], last)
  }

  function Initial(): World {
    World(map[], map[], 0, 0, [], 0, 0)
  }

  // ------------------------------------------------------------------
  // The invariant
  // ------------------------------------------------------------------

  predicate OnFiber<F(==)>(p: Place<F>, f: F) {
    (p.Entry? || p.InBody? || p.Suspended?) && p.f == f
  }

  /** How far the body has come when control is at `p` or `p` is stored. */
  function Done<F>(p: Place<F>): nat {
    match p
    case InBody(_, pc) => pc
    case Suspended(_, _, pc) => pc
    case _ => 0
  }

  /** The references that the code at `p` has on its own stack. */
  function Kept<F>(p: Place<F>): nat {
    match p
    case InBody(_, _) => 1
    case Suspended(_, _, _) => 2
    case _ => 0
  }

  predicate PlaceFits<F(==)>(r: Fiber<F>, self: F, p: Place<F>) {
    && OnFiber(p, self)
    && (p.Suspended? ==> p.held == self && p.pc > 0)
    && Done(p) <= |r.body.parts|
    && r.trace == Segments(r.body)[..Done(p)]
    && r.onStack == Kept(p)
  }

  /** In EXEC without being run: a std::exception has ended the body. */
  predicate Stuck<F>(r: Fiber<F>) { r.state == EXEC && r.ctx.Gone? }

  predicate Active<F>(r: Fiber<F>) { r.state == EXEC && !r.ctx.Gone? }

  /** The body has run to its end. */
  predicate Ended<F>(r: Fiber<F>) { r.state in {TERM, EXECPT} || Stuck(r) }

  predicate EndFits<F>(r: Fiber<F>, e: Ending) {
    r.onStack == 0 && r.trace == Segments(r.body) && r.body.ending == e && r.swaps == |r.body.parts| + 1
  }

  /** One fiber, given where its thread is. */
  predicate FiberOk<F(==)>(r: Fiber<F>, self: F, at: Place<F>) {
    && Yields(r.body)
    && r.refs + r.onStack > 0
    && match r.state
       case INIT => PlaceFits(r, self, r.ctx) && r.ctx.Entry? && r.swaps == 0
       case HOLD => SuspendedOk(r, self)
       case READY => SuspendedOk(r, self)
       case EXEC =>
         if r.ctx.Gone? then EndFits(r, ThrowsStd)
         else PlaceFits(r, self, at) && r.swaps == Done(at) + 1 && r.refs > 0
       case TERM => EndFits(r, Returns)
       case EXECPT => EndFits(r, Throws)
  }

  predicate SuspendedOk<F(==)>(r: Fiber<F>, self: F) {
    && r.ctx.Suspended? && PlaceFits(r, self, r.ctx) && r.swaps == r.ctx.pc
    && r.body.parts[r.ctx.pc - 1].yieldTo == r.state
  }

  /** Where the thread is agrees with the current-fiber pointer, and main waits where it swapped in. */
  predicate ThreadOk(th: Thread, t: nat, fibers: map<nat, Fiber<nat>>) {
    && (th.main.Some? ==> th.main.value.state == EXEC)
    && match th.at
       case Outside(_) => th.current == if th.main.Some? then TheMain else Nobody
       case Gone(_) => false
       case _ =>
         && th.main.Some? && th.main.value.ctx == Outside(th.lastSwap + 1)
         && th.current == Sub(th.at.f) && th.at.f in fibers
         && fibers[th.at.f].owner == t && Active(fibers[th.at.f])
  }

  predicate FibersOk(w: World) {
    forall f :: f in w.fibers ==> FiberOk(w.fibers[f], f, ThreadOf(w, w.fibers[f].owner).at)
  }

  predicate Running(w: World, t: nat) { ThreadOk(ThreadOf(w, t), t, w.fibers) }

  ghost predicate ThreadsOk(w: World) {
    forall t: nat :: Running(w, t)
  }

  predicate FiberBooked(w: World, f: nat)
    requires f in w.fibers
  {
    var r := w.fibers[f];
    f < w.objects && 0 < r.id <= w.lastId && r.stack < w.blocks && r.stack !in w.freed
  }

  predicate SameResource(r: Fiber<nat>, s: Fiber<nat>) { r.id == s.id || r.stack == s.stack }

  function Mains(w: World): set<nat> {
    set t | t in w.threads && w.threads[t].main.Some?
  }

  /** Live fibers have identifiers and stacks of their own, and none of these stacks was freed. */
  predicate Identified(w: World) {
    && (forall f :: f in w.fibers ==> FiberBooked(w, f))
    && (forall f, g :: f in w.fibers && g in w.fibers && f != g ==> !SameResource(w.fibers[f], w.fibers[g]))
  }

  /** No stack was freed twice. */
  predicate FreedOnce(w: World) {
    && (forall i :: 0 <= i < |w.freed| ==> w.freed[i] < w.blocks)
    && (forall i, j :: 0 <= i < j < |w.freed| ==> w.freed[i] != w.freed[j])
  }

  predicate Counted(w: World) {
    w.count == |w.fibers| + |Mains(w)|
  }

  predicate Booked(w: World) {
    Identified(w) && FreedOnce(w) && Counted(w)
  }

  ghost predicate Sound(w: World) {
    FibersOk(w) && ThreadsOk(w) && Booked(w)
  }

  // ------------------------------------------------------------------
  // Every step keeps the invariant
  // ------------------------------------------------------------------

  lemma TraceGrows(b: Body, n: nat)
    requires n <= |b.parts|
    ensures Segments(b)[..n] + [Segments(b)[n]] == Segments(b)[..n + 1]
    ensures Segments(b)[..|b.parts| + 1] == Segments(b)
  {
  }

  /** The step changed fiber `f` of thread `t` and the thread itself, and nothing else. */
  predicate Touched(w: World, w': World, t: nat, th: Thread, f: nat) {
    && w'.threads == w.threads[t := th]
    && w'.fibers.Keys <= w.fibers.Keys + {f}
    && w.fibers.Keys <= w'.fibers.Keys + {f}
    && (forall g :: g in w.fibers && g != f ==> w'.fibers[g] == w.fibers[g])
    && (f in w.fibers ==> w.fibers[f].owner == t)
    && (f in w'.fibers ==> w'.fibers[f].owner == t && FiberOk(w'.fibers[f], f, th.at))
  }

  /** The other fibers of the thread do not mind that it moves to `at`. */
  predicate Moves(w: World, t: nat, f: nat, at: Place<nat>) {
    forall g :: g in w.fibers && g != f && w.fibers[g].owner == t && Active(w.fibers[g]) ==>
      FiberOk(w.fibers[g], g, at)
  }

  lemma FibersStep(w: World, w': World, t: nat, th: Thread, f: nat)
    requires FibersOk(w) && Touched(w, w', t, th, f) && Moves(w, t, f, th.at)
    ensures FibersOk(w')
  {
    forall g | g in w'.fibers ensures FiberOk(w'.fibers[g], g, ThreadOf(w', w'.fibers[g].owner).at) {
      if g != f {
        assert g in w.fibers && FiberOk(w.fibers[g], g, ThreadOf(w, w.fibers[g].owner).at);
      }
    }
  }

  lemma ThreadsStep(w: World, w': World, t: nat, th: Thread, f: nat)
    requires ThreadsOk(w) && Touched(w, w', t, th, f) && ThreadOk(th, t, w'.fibers)
    ensures ThreadsOk(w')
  {
    forall u: nat ensures Running(w', u) {
      assert Running(w, u);
    }
  }

  lemma MainsStep(w: World, w': World, t: nat, th: Thread)
    requires w'.threads == w.threads[t := th]
    ensures Mains(w') == if th.main.Some? then Mains(w) + {t} else Mains(w) - {t}
  {
  }

  lemma SameCount(w: World, w': World)
    requires w'.fibers.Keys == w.fibers.Keys
    ensures |w'.fibers| == |w.fibers|
  {
    assert |w'.fibers| == |w'.fibers.Keys| && |w.fibers| == |w.fibers.Keys|;
  }

  /** The fibers of `w'` are among those of `w`, with the same identifiers and stacks. */
  predicate SameIdentities(w: World, w': World) {
    forall g :: g in w'.fibers ==>
      g in w.fibers && w'.fibers[g].id == w.fibers[g].id && w'.fibers[g].stack == w.fibers[g].stack
  }

  /** Nothing was freed or allocated but the stacks in `gone`. */
  lemma IdentifiedKept(w: World, w': World)
    requires Identified(w) && SameIdentities(w, w')
    requires w'.objects >= w.objects && w'.lastId >= w.lastId && w'.blocks >= w.blocks
    requires forall f :: f in w'.fibers ==> w'.fibers[f].stack !in w'.freed
    ensures Identified(w')
  {
    forall f | f in w'.fibers ensures FiberBooked(w', f) {
      assert FiberBooked(w, f);
    }
    forall f, g | f in w'.fibers && g in w'.fibers && f != g ensures !SameResource(w'.fibers[f], w'.fibers[g]) {
      assert !SameResource(w.fibers[f], w.fibers[g]);
    }
  }

  lemma BookedUpdate(w: World, w': World)
    requires Booked(w) && w'.fibers.Keys == w.fibers.Keys && SameIdentities(w, w') && Mains(w') == Mains(w)
    requires w' == w.(fibers := w'.fibers, threads := w'.threads)
    ensures Booked(w')
  {
    SameCount(w, w');
    forall f | f in w'.fibers ensures w'.fibers[f].stack !in w'.freed {
      assert FiberBooked(w, f);
    }
    IdentifiedKept(w, w');
  }

  /** A step that changes fiber `f` of thread `t` but keeps its identity. */
  lemma UpdateSound(w: World, t: nat, th: Thread, f: nat, r: Fiber<nat>)
    requires Sound(w) && f in w.fibers && w.fibers[f].owner == t
    requires r.owner == t && r.id == w.fibers[f].id && r.stack == w.fibers[f].stack
    requires th.main.Some? == ThreadOf(w, t).main.Some?
    requires FiberOk(r, f, th.at) && Moves(w, t, f, th.at) && ThreadOk(th, t, w.fibers[f := r])
    ensures Sound(WithThread(WithFiber(w, f, r), t, th))
  {
    var w' := WithThread(WithFiber(w, f, r), t, th);
    hide FiberOk, ThreadOk;
    FibersStep(w, w', t, th, f);
    ThreadsStep(w, w', t, th, f);
    MainsStep(w, w', t, th);
    BookedUpdate(w, w');
  }

  /** Only the fiber that control is on can be in EXEC. */
  lemma OnlyRunningMoves(w: World, t: nat, f: nat, at: Place<nat>)
    requires Sound(w) && (ThreadOf(w, t).at.Outside? || OnFiber(ThreadOf(w, t).at, f))
    ensures Moves(w, t, f, at)
  {
    forall g | g in w.fibers && g != f && w.fibers[g].owner == t ensures !Active(w.fibers[g]) {
      assert FiberOk(w.fibers[g], g, ThreadOf(w, t).at);
    }
  }

  /** User code moves on; a running body stays where it is. */
  lemma UserMoves(w: World, t: nat, f: nat)
    requires Sound(w) && UserCode(ThreadOf(w, t).at)
    ensures Moves(w, t, f, Next(ThreadOf(w, t).at))
  {
    if ThreadOf(w, t).at.Outside? {
      OnlyRunningMoves(w, t, f, Next(ThreadOf(w, t).at));
    } else {
      forall g | g in w.fibers && g != f && w.fibers[g].owner == t
        ensures FiberOk(w.fibers[g], g, ThreadOf(w, t).at)
      {
      }
    }
  }

  /** Where thread `t` is, and the fiber it is on. */
  lemma Here(w: World, t: nat)
    requires Sound(w)
    ensures ThreadOk(ThreadOf(w, t), t, w.fibers)
    ensures !ThreadOf(w, t).at.Outside? ==>
              FiberOk(w.fibers[ThreadOf(w, t).at.f], ThreadOf(w, t).at.f, ThreadOf(w, t).at)
  {
    assert Running(w, t);
  }

  lemma FiberHere(w: World, t: nat, f: nat)
    requires Sound(w) && f in w.fibers && w.fibers[f].owner == t
    ensures FiberOk(w.fibers[f], f, ThreadOf(w, t).at)
  {
  }

  lemma ShareSound(w: World, t: nat, f: nat)
    requires Sound(w) && Enabled(w, t, Share(f))
    ensures Step(w, t, Share(f)).Some? && Sound(Step(w, t, Share(f)).value)
    ensures Step(w, t, Share(f)).value.fibers == w.fibers[f := w.fibers[f].(refs := w.fibers[f].refs + 1)]
  {
    hide Sound, Moves;
    var th := ThreadOf(w, t);
    Here(w, t);
    FiberHere(w, t, f);
    UserMoves(w, t, f);
    UpdateSound(w, t, th.(at := Next(th.at)), f, w.fibers[f].(refs := w.fibers[f].refs + 1));
  }

  lemma ResetSound(w: World, t: nat, f: nat, b: Body)
    requires Sound(w) && Enabled(w, t, Action.Reset(f, b)) && !Trips(w, t, Action.Reset(f, b))
    ensures Step(w, t, Action.Reset(f, b)).Some? && Sound(Step(w, t, Action.Reset(f, b)).value)
    ensures var w' := Step(w, t, Action.Reset(f, b)).value;
      var r, r' := w.fibers[f], w'.fibers[f];
      && r'.body == b && r'.ctx == Entry(f) && r'.state == INIT && r'.trace == [] && r'.swaps == 0
      && r'.owner == r.owner && r'.id == r.id && r'.stack == r.stack && r'.refs == r.refs && r'.onStack == 0
      && w'.fibers == w.fibers[f := r'] && w'.blocks == w.blocks && w'.freed == w.freed
  {
    hide Sound, Moves;
    var th := ThreadOf(w, t);
    Here(w, t);
    FiberHere(w, t, f);
    UserMoves(w, t, f);
    UpdateSound(w, t, th.(at := Next(th.at)), f, ResetTo(w.fibers[f], f, b));
  }

  /** A call of SwapIn that fails no assertion. */
  predicate CanSwapIn(w: World, t: nat, f: nat) {
    Enabled(w, t, SwapIn(f)) && !Trips(w, t, SwapIn(f))
  }

  lemma SwapInSound(w: World, t: nat, f: nat)
    requires Sound(w) && CanSwapIn(w, t, f)
    ensures Step(w, t, SwapIn(f)).Some? && Sound(Step(w, t, SwapIn(f)).value)
    ensures var th, w' := ThreadOf(w, t), Step(w, t, SwapIn(f)).value;
      var r := w.fibers[f];
      && ThreadOf(w', t).at == (if r.state == INIT then Entry(f) else Suspended(f, f, |r.trace|))
      && ThreadOf(w', t).current == Sub(f) && ThreadOf(w', t).main.value.ctx == Outside(th.at.site + 1)
      && w'.fibers[f].state == EXEC && w'.fibers[f].trace == r.trace
  {
    hide Sound, Moves;
    var th := ThreadOf(w, t);
    var r := w.fibers[f];
    Here(w, t);
    FiberHere(w, t, f);
    OnlyRunningMoves(w, t, f, r.ctx);
    var main := th.main.value.(ctx := Next(th.at));
    UpdateSound(w, t, Thread(r.ctx, Sub(f), Some(main), th.at.site), f, SwappedIn(r));
  }

  lemma BeginSound(w: World, t: nat)
    requires Sound(w) && Enabled(w, t, Begin)
    ensures Step(w, t, Begin).Some? && Sound(Step(w, t, Begin).value)
    ensures var th, w' := ThreadOf(w, t), Step(w, t, Begin).value;
      var f := th.at.f;
      && th.current == Sub(f) && f in w.fibers && w.fibers[f].onStack == 0 && w.fibers[f].trace == []
      && ThreadOf(w', t).at == InBody(f, 0) && w'.fibers == w.fibers[f := w.fibers[f].(onStack := 1)]
  {
    hide Sound, Moves;
    var th := ThreadOf(w, t);
    Here(w, t);
    var f := th.current.f;
    var r := w.fibers[f];
    OnlyRunningMoves(w, t, f, InBody(f, 0));
    UpdateSound(w, t, th.(at := InBody(f, 0)), f, r.(onStack := r.onStack + 1));
  }

  lemma ContinueSound(w: World, t: nat)
    requires Sound(w) && Enabled(w, t, Continue)
    ensures Step(w, t, Continue).Some? && Sound(Step(w, t, Continue).value)
    ensures var th, w' := ThreadOf(w, t), Step(w, t, Continue).value;
      var f := th.at.f;
      && f in w.fibers && w.fibers[f].onStack == 2 && ThreadOf(w', t).at == InBody(f, w.fibers[f].swaps - 1)
      && w'.fibers == w.fibers[f := w.fibers[f].(onStack := 1)]
  {
    hide Sound, Moves;
    var th := ThreadOf(w, t);
    Here(w, t);
    var f := th.at.f;
    var r := w.fibers[f];
    OnlyRunningMoves(w, t, f, InBody(f, th.at.pc));
    UpdateSound(w, t, th.(at := InBody(f, th.at.pc)), f, r.(onStack := r.onStack - 1));
  }

  lemma YieldSound(w: World, t: nat)
    requires Sound(w) && Enabled(w, t, Yield)
    ensures Step(w, t, Yield).Some? && Sound(Step(w, t, Yield).value)
    ensures var th, w' := ThreadOf(w, t), Step(w, t, Yield).value;
      var f := th.at.f;
      && ThreadOf(w', t).at == Outside(th.lastSwap + 1) && ThreadOf(w', t).current == TheMain
      && w'.fibers[f].state in {HOLD, READY} && w'.fibers[f].onStack == 2
      && th.at.pc == |w.fibers[f].trace|
      && w'.fibers[f].state == w.fibers[f].body.parts[th.at.pc].yieldTo
      && w'.fibers[f].trace == w.fibers[f].trace + [w.fibers[f].body.parts[th.at.pc].seg]
      && w'.fibers[f].trace == Segments(w.fibers[f].body)[..w.fibers[f].swaps]
  {
    hide Sound, Moves;
    var th := ThreadOf(w, t);
    Here(w, t);
    var f := th.at.f;
    var r := w.fibers[f];
    TraceGrows(r.body, th.at.pc);
    OnlyRunningMoves(w, t, f, th.main.value.ctx);
    UpdateSound(w, t, th.(current := TheMain, at := th.main.value.ctx), f,
      Yielded(r, th.at.pc, Suspended(f, f, th.at.pc + 1)));
  }

  lemma FinishSound(w: World, t: nat)
    requires Sound(w) && Enabled(w, t, Finish)
    ensures Step(w, t, Finish).Some? && Sound(Step(w, t, Finish).value)
    ensures var th, w' := ThreadOf(w, t), Step(w, t, Finish).value;
      var f := th.at.f;
      && ThreadOf(w', t).at == Outside(th.lastSwap + 1) && ThreadOf(w', t).current == TheMain
      && Ended(w'.fibers[f]) && w'.fibers[f].onStack == 0 && w'.fibers[f].refs > 0
      && w'.fibers[f].trace == Segments(w.fibers[f].body)
  {
    hide Sound, Moves;
    var th := ThreadOf(w, t);
    Here(w, t);
    var f := th.at.f;
    var r := w.fibers[f];
    TraceGrows(r.body, th.at.pc);
    OnlyRunningMoves(w, t, f, th.main.value.ctx);
    UpdateSound(w, t, th.(current := TheMain, at := th.main.value.ctx), f, Finished(r, Gone(f)));
  }

  // A fiber is made.

  lemma NewObject(w: World)
    requires Identified(w)
    ensures w.objects !in w.fibers
  {
    forall f | f in w.fibers ensures f != w.objects {
      assert FiberBooked(w, f);
    }
  }

  lemma IdentifiedCreate(w: World, t: nat, b: Body)
    requires Identified(w) && FreedOnce(w)
    ensures Identified(MakeFiber(w, t, b))
  {
    var w' := MakeFiber(w, t, b);
    var f := w.objects;
    NewObject(w);
    forall g | g in w'.fibers ensures FiberBooked(w', g) {
      if g != f { assert FiberBooked(w, g); }
    }
    forall g, h | g in w'.fibers && h in w'.fibers && g != h ensures !SameResource(w'.fibers[g], w'.fibers[h]) {
      if g != f && h != f {
        assert !SameResource(w.fibers[g], w.fibers[h]);
      } else {
        assert g != f ==> FiberBooked(w, g);
        assert h != f ==> FiberBooked(w, h);
      }
    }
  }

  lemma BookedCreate(w: World, t: nat, b: Body)
    requires Booked(w)
    ensures Booked(MakeFiber(w, t, b))
  {
    var w' := MakeFiber(w, t, b);
    IdentifiedCreate(w, t, b);
    NewObject(w);
    hide Identified;
    assert w'.fibers.Keys == w.fibers.Keys + {w.objects};
    assert |w'.fibers| == |w'.fibers.Keys| && |w.fibers| == |w.fibers.Keys|;
    assert Mains(w') == Mains(w);
  }

  lemma BookedMoves(w: World, t: nat, th: Thread)
    requires Booked(w) && th.main.Some? == ThreadOf(w, t).main.Some?
    ensures Booked(WithThread(w, t, th))
  {
    var w' := WithThread(w, t, th);
    MainsStep(w, w', t, th);
    assert Mains(w') == Mains(w);
    BookedUpdate(w, w');
  }

  lemma CreateSound(w: World, t: nat, b: Body)
    requires Sound(w) && Enabled(w, t, Create(b))
    ensures Step(w, t, Create(b)).Some? && Sound(Step(w, t, Create(b)).value)
    ensures var w' := Step(w, t, Create(b)).value;
      && w.objects !in w.fibers && w.objects in w'.fibers
      && var r := w'.fibers[w.objects];
      && r.body == b && r.ctx == Entry(w.objects) && r.state == INIT && r.trace == [] && r.swaps == 0
      && r.owner == t && r.id == w.lastId + 1 == w'.lastId && r.stack == w.blocks && r.refs == 1 && r.onStack == 0
      && w'.fibers == w.fibers[w.objects := r] && w'.count == w.count + 1
  {
    var th := ThreadOf(w, t);
    var th' := th.(at := Next(th.at));
    var w' := Step(w, t, Create(b)).value;
    var f := w.objects;
    NewObject(w);
    Here(w, t);
    UserMoves(w, t, f);
    BookedCreate(w, t, b);
    BookedMoves(MakeFiber(w, t, b), t, th');
    hide Booked, Moves;
    FibersStep(w, w', t, th', f);
    ThreadsStep(w, w', t, th', f);
  }

  // A reference is given up, and with the last one the fiber.

  lemma LiveIsCounted(w: World, f: nat)
    requires Sound(w) && f in w.fibers
    ensures w.count > 0
  {
    assert |w.fibers| == |w.fibers.Keys|;
  }

  lemma CountDestroy(w: World, f: nat)
    requires Counted(w) && f in w.fibers
    ensures w.count > 0 && Counted(Destroyed(w, f))
  {
    assert |w.fibers| == |w.fibers.Keys|;
    var w' := Destroyed(w, f);
    assert w'.fibers.Keys == w.fibers.Keys - {f} && |w'.fibers| == |w'.fibers.Keys|;
    assert Mains(w') == Mains(w);
  }

  lemma BookedDestroy(w: World, f: nat)
    requires Booked(w) && f in w.fibers
    ensures w.count > 0 && Booked(Destroyed(w, f))
  {
    CountDestroy(w, f);
    var w' := Destroyed(w, f);
    assert FiberBooked(w, f);
    forall g | g in w'.fibers ensures w'.fibers[g].stack !in w'.freed {
      assert FiberBooked(w, g) && !SameResource(w.fibers[g], w.fibers[f]);
    }
    hide Counted;
    IdentifiedKept(w, w');
  }

  lemma DropLast(w: World, w': World, t: nat, th: Thread, f: nat)
    requires Sound(w) && f in w.fibers && w.fibers[f].owner == t && w.count > 0
    requires w' == Destroyed(WithThread(w, t, th), f)
    requires th.main.Some? == ThreadOf(w, t).main.Some?
    requires Moves(w, t, f, th.at) && ThreadOk(th, t, w'.fibers)
    ensures Sound(w')
  {
    hide FiberOk, ThreadOk, Moves;
    BookedMoves(w, t, th);
    BookedDestroy(WithThread(w, t, th), f);
    hide Booked;
    FibersStep(w, w', t, th, f);
    ThreadsStep(w, w', t, th, f);
  }

  lemma DropOne(w: World, t: nat, th: Thread, f: nat)
    requires Sound(w) && Enabled(w, t, Drop(f)) && th == ThreadOf(w, t).(at := Next(ThreadOf(w, t).at))
    requires w.fibers[f].refs - 1 + w.fibers[f].onStack > 0
    ensures Sound(WithThread(WithFiber(w, f, w.fibers[f].(refs := w.fibers[f].refs - 1)), t, th))
  {
    hide Sound, Moves;
    Here(w, t);
    FiberHere(w, t, f);
    UserMoves(w, t, f);
    UpdateSound(w, t, th, f, w.fibers[f].(refs := w.fibers[f].refs - 1));
  }

  /** A fiber whose last reference from outside goes has no code on its stack, nor is its thread on it. */
  lemma LastRef(w: World, t: nat, f: nat)
    requires Sound(w) && Enabled(w, t, Drop(f))
    requires w.fibers[f].refs - 1 + w.fibers[f].onStack == 0
    ensures Resettable(w.fibers[f].state) <==> !Trips(w, t, Drop(f))
    ensures w.count > 0 && !OnFiber(ThreadOf(w, t).at, f)
  {
    LiveIsCounted(w, f);
    hide Sound;
    Here(w, t);
    FiberHere(w, t, f);
  }

  lemma DropAll(w: World, t: nat, th: Thread, f: nat)
    requires Sound(w) && f in w.fibers && w.fibers[f].owner == t && w.count > 0 && UserCode(ThreadOf(w, t).at)
    requires th == ThreadOf(w, t).(at := Next(ThreadOf(w, t).at)) && !OnFiber(ThreadOf(w, t).at, f)
    ensures Sound(Destroyed(WithThread(w, t, th), f))
  {
    hide Sound, Moves;
    Here(w, t);
    UserMoves(w, t, f);
    DropLast(w, Destroyed(WithThread(w, t, th), f), t, th, f);
  }

  lemma DropSound(w: World, t: nat, f: nat)
    requires Sound(w) && Enabled(w, t, Drop(f))
    ensures Step(w, t, Drop(f)).Some? <==> !Trips(w, t, Drop(f))
    ensures Step(w, t, Drop(f)).Some? ==> Sound(Step(w, t, Drop(f)).value)
  {
    hide Sound, Mains, Trips;
    var th := ThreadOf(w, t).(at := Next(ThreadOf(w, t).at));
    var r := w.fibers[f].(refs := w.fibers[f].refs - 1);
    if r.refs + r.onStack > 0 {
      DropOne(w, t, th, f);
      MoreThanLast(w, t, f);
      assert WithFiber(WithThread(w, t, th), f, r) == WithThread(WithFiber(w, f, r), t, th);
    } else {
      LastRef(w, t, f);
      if Resettable(r.state) {
        DropAll(w, t, th, f);
      }
    }
  }

  /** A fiber in EXEC with a single reference has no code on its stack. */
  lemma MoreThanLast(w: World, t: nat, f: nat)
    requires Sound(w) && Enabled(w, t, Drop(f)) && w.fibers[f].refs - 1 + w.fibers[f].onStack > 0
    ensures !Trips(w, t, Drop(f))
  {
    Here(w, t);
    FiberHere(w, t, f);
    hide Sound, Mains;
  }

  // The main fiber comes and goes.

  lemma MainsHas(w: World, t: nat)
    ensures t in Mains(w) <==> ThreadOf(w, t).main.Some?
  {
  }

  lemma AddOne(s: set<nat>, t: nat)
    ensures |s + {t}| == |s| + if t in s then 0 else 1
  {
    if t in s { assert s + {t} == s; }
  }

  lemma RemoveOne(s: set<nat>, t: nat)
    ensures |s - {t}| == |s| - if t in s then 1 else 0
  {
    if t !in s { assert s - {t} == s; }
  }

  lemma OneChanges(s: set<nat>, t: nat, stays: bool)
    ensures |if stays then s + {t} else s - {t}| == |s| + (if stays then 1 else 0) - (if t in s then 1 else 0)
  {
    if stays { AddOne(s, t); } else { RemoveOne(s, t); }
  }

  lemma CountMain(w: World, w': World, t: nat, th: Thread)
    requires Counted(w) && w'.threads == w.threads[t := th] && w'.fibers == w.fibers
    requires w'.count == w.count + (if th.main.Some? then 1 else 0) - (if ThreadOf(w, t).main.Some? then 1 else 0)
    ensures Counted(w')
  {
    MainsStep(w, w', t, th);
    MainsHas(w, t);
    hide Mains, ThreadOf;
    OneChanges(Mains(w), t, th.main.Some?);
    assert |w'.fibers| == |w.fibers|;
  }

  lemma BookedMain(w: World, w': World, t: nat, th: Thread)
    requires Booked(w) && w'.threads == w.threads[t := th]
    requires w' == w.(threads := w'.threads, count := w'.count)
    requires w'.count == w.count + (if th.main.Some? then 1 else 0) - (if ThreadOf(w, t).main.Some? then 1 else 0)
    ensures Booked(w')
  {
    CountMain(w, w', t, th);
    forall f | f in w'.fibers ensures w'.fibers[f].stack !in w'.freed {
      assert FiberBooked(w, f);
    }
    hide Counted;
    IdentifiedKept(w, w');
  }

  lemma ThreadOnlySound(w: World, w': World, t: nat, th: Thread)
    requires Sound(w) && UserCode(ThreadOf(w, t).at) && th.at == Next(ThreadOf(w, t).at)
    requires w' == w.(threads := w.threads[t := th], count := w'.count)
    requires w'.count == w.count + (if th.main.Some? then 1 else 0) - (if ThreadOf(w, t).main.Some? then 1 else 0)
    requires ThreadOk(th, t, w.fibers)
    ensures Sound(w')
  {
    hide FiberOk, ThreadOk, Moves;
    BookedMain(w, w', t, th);
    var f := w.objects;
    NewObject(w);
    UserMoves(w, t, f);
    hide Booked;
    FibersStep(w, w', t, th, f);
    ThreadsStep(w, w', t, th, f);
  }

  lemma GetThisSound(w: World, t: nat)
    requires Sound(w) && Enabled(w, t, GetThis)
    ensures Step(w, t, GetThis).Some? && Sound(Step(w, t, GetThis).value)
    ensures var w' := Step(w, t, GetThis).value;
      && !ThreadOf(w', t).current.Nobody? && ThreadOf(w', t).main.Some? && w'.fibers == w.fibers
      && w'.count == w.count + if ThreadOf(w, t).main.Some? then 0 else 1
  {
    var th := ThreadOf(w, t);
    Here(w, t);
    ThreadOnlySound(w, Step(w, t, GetThis).value, t, MainMade(th).(at := Next(th.at)));
  }

  lemma ExitSound(w: World, t: nat)
    requires Sound(w) && Enabled(w, t, Exit)
    ensures Step(w, t, Exit).Some? && Sound(Step(w, t, Exit).value)
    ensures var w' := Step(w, t, Exit).value;
      && ThreadOf(w, t).main.value.state == EXEC && ThreadOf(w, t).current == TheMain
      && ThreadOf(w', t).main.None? && ThreadOf(w', t).current.Nobody?
      && w'.fibers == w.fibers && w'.count == w.count - 1
  {
    var th := ThreadOf(w, t);
    Here(w, t);
    assert t in Mains(w);
    var current := if th.current.TheMain? then Nobody else th.current;
    ThreadOnlySound(w, Step(w, t, Exit).value, t, th.(main := None, current := current, at := Next(th.at)));
  }

  lemma StepSound(w: World, t: nat, a: Action)
    requires Sound(w) && Enabled(w, t, a)
    ensures Step(w, t, a).Some? <==> !Trips(w, t, a)
    ensures Step(w, t, a).Some? ==> Sound(Step(w, t, a).value)
  {
    hide Sound;
    if (a.Reset? || a.SwapIn?) && Trips(w, t, a) {
      return;
    }
    hide Step;
    match a {
      case GetThis => GetThisSound(w, t);
      case Create(b) => CreateSound(w, t, b);
      case Share(f) => ShareSound(w, t, f);
      case Drop(f) => DropSound(w, t, f);
      case Reset(f, b) => ResetSound(w, t, f, b);
      case SwapIn(f) => SwapInSound(w, t, f);
      case Begin => BeginSound(w, t);
      case Continue => ContinueSound(w, t);
      case Yield => YieldSound(w, t);
      case Finish => FinishSound(w, t);
      case Exit => ExitSound(w, t);
    }
  }
}
