/**
 The nested locks of the logging and configuration code, and why they cannot deadlock:
 every nested acquisition ascends in one ranking of the locks.
 */
module LockOrder {

  import opened Basics

  datatype Lock =
    | Registry                       // the configuration registry (read-write)
    | Variable(name: string)         // one configuration variable (read-write)
    | Manager                        // the logger registry
    | LoggerOf(name: string)         // one logger
    | AppenderOf(id: nat)            // one appender

  datatype Mode = Shared | Exclusive

  function Rank(l: Lock): nat {
    match l
    case Registry => 1
    case Variable(_) => 2
    case Manager => 3
    case LoggerOf(n) => if n == ROOT then 5 else 4
    case AppenderOf(_) => 6
  }

  // ------------------------------------------------------------------
  // Threads and locks
  // ------------------------------------------------------------------

  datatype Act = Acquire(l: Lock, m: Mode) | Release(l: Lock)

  datatype Thread = Thread(held: map<Lock, Mode>, todo: seq<Act>)

  type System = map<nat, Thread>

  /** Scoped guards release everything, and nest in ascending rank. */
  ghost predicate Ordered(held: map<Lock, Mode>, todo: seq<Act>)
    decreases |todo|
  {
    if todo == [] then held == map[]
    else match todo[0]
      case Acquire(l, m) => (forall h :: h in held ==> Rank(h) < Rank(l)) && Ordered(held[l := m], todo[1..])
      case Release(l) => l in held && Ordered(held - {l}, todo[1..])
  }

  /** Another thread holds `l` in a way that excludes mode `m`. */
  ghost predicate Blocked(sys: System, t: nat, l: Lock, m: Mode) {
    exists u :: u in sys && u != t && l in sys[u].held && (m.Exclusive? || sys[u].held[l].Exclusive?)
  }

  ghost predicate CanStep(sys: System, t: nat) {
    && t in sys && sys[t].todo != []
    && (sys[t].todo[0].Acquire? ==> !Blocked(sys, t, sys[t].todo[0].l, sys[t].todo[0].m))
  }

  function StepThread(th: Thread): Thread
    requires th.todo != []
  {
    match th.todo[0]
    case Acquire(l, m) => Thread(th.held[l := m], th.todo[1..])
    case Release(l) => Thread(th.held - {l}, th.todo[1..])
  }

  ghost predicate AllOrdered(sys: System) {
    forall t :: t in sys ==> Ordered(sys[t].held, sys[t].todo)
  }

  /** A lock held exclusively is held by no other thread. */
  ghost predicate ExclusionHolds(sys: System) {
    forall t, u, l :: t in sys && u in sys && t != u && l in sys[t].held && l in sys[u].held ==>
      sys[t].held[l].Shared? && sys[u].held[l].Shared?
  }

  ghost predicate Reaches(sys: System, schedule: seq<nat>, last: System)
    decreases |schedule|
  {
    if schedule == [] then sys == last else
    var t := schedule[0];
    CanStep(sys, t) && Reaches(sys[t := StepThread(sys[t])], schedule[1..], last)
  }

  lemma OrderedStep(sys: System, t: nat)
    requires AllOrdered(sys) && ExclusionHolds(sys) && CanStep(sys, t)
    ensures AllOrdered(sys[t := StepThread(sys[t])]) && ExclusionHolds(sys[t := StepThread(sys[t])])
  {
    assert Ordered(sys[t].held, sys[t].todo);
  }

  lemma {:induction false} OrderedAlways(sys: System, schedule: seq<nat>, last: System)
    requires AllOrdered(sys) && ExclusionHolds(sys) && Reaches(sys, schedule, last)
    ensures AllOrdered(last) && ExclusionHolds(last)
    decreases |schedule|
  {
    if schedule != [] {
      OrderedStep(sys, schedule[0]);
      OrderedAlways(sys[schedule[0] := StepThread(sys[schedule[0]])], schedule[1..], last);
    }
  }

  function Wanted(th: Thread): nat {
    if th.todo != [] && th.todo[0].Acquire? then Rank(th.todo[0].l) else 0
  }

  /** If no thread can step, each waits for a thread that waits for a lock of higher rank. */
  lemma WaitsForHigher(sys: System, t: nat) returns (u: nat)
    requires AllOrdered(sys) && t in sys && sys[t].todo != [] && !CanStep(sys, t)
    ensures u in sys && sys[u].todo != [] && (CanStep(sys, u) || Wanted(sys[u]) > Wanted(sys[t]))
  {
    var l, m := sys[t].todo[0].l, sys[t].todo[0].m;
    u :| u in sys && u != t && l in sys[u].held && (m.Exclusive? || sys[u].held[l].Exclusive?);
    assert Ordered(sys[u].held, sys[u].todo);
  }

  /** Following the waits upwards ends at a thread that can step. */
  lemma {:induction false} SomeoneSteps(sys: System, t: nat) returns (u: nat)
    requires AllOrdered(sys) && t in sys && sys[t].todo != []
    ensures CanStep(sys, u)
    decreases 6 - Wanted(sys[t])
  {
    if CanStep(sys, t) {
      u := t;
    } else {
      u := WaitsForHigher(sys, t);
      if !CanStep(sys, u) {
        u := SomeoneSteps(sys, u);
      }
    }
  }

  // ------------------------------------------------------------------
  // Scoped use of locks
  // ------------------------------------------------------------------

  /** Guards one after the other; `inner` is what happens while the first is held. */
  datatype Uses = Done | Use(l: Lock, m: Mode, inner: Uses, next: Uses)

  function Acts(u: Uses): seq<Act> {
    match u
    case Done => []
    case Use(l, m, inner, next) => [Acquire(l, m)] + Acts(inner) + [Release(l)] + Acts(next)
  }

  /** Every lock ranks above `r`, and every nested one above the one around it. */
  predicate Ascending(u: Uses, r: nat) {
    match u
    case Done => true
    case Use(l, _, inner, next) => Rank(l) > r && Ascending(inner, Rank(l)) && Ascending(next, r)
  }

  lemma {:induction false} AscendingIsOrdered(u: Uses, r: nat, held: map<Lock, Mode>, rest: seq<Act>)
    requires Ascending(u, r) && (forall h :: h in held ==> Rank(h) <= r) && Ordered(held, rest)
    ensures Ordered(held, Acts(u) + rest)
    decreases u
  {
    match u
    case Done =>
      assert Acts(u) + rest == rest;
    case Use(l, m, inner, next) =>
      AscendingIsOrdered(next, r, held, rest);
      var after := Acts(next) + rest;
      ReleaseIsOrdered(l, m, held, after);
      AscendingIsOrdered(inner, Rank(l), held[l := m], [Release(l)] + after);
      AcquireIsOrdered(l, m, held, Acts(inner) + ([Release(l)] + after));
      ActsThen(l, m, inner, next, rest);
  }

  lemma ActsThen(l: Lock, m: Mode, inner: Uses, next: Uses, rest: seq<Act>)
    ensures Acts(Use(l, m, inner, next)) + rest == [Acquire(l, m)] + (Acts(inner) + ([Release(l)] + (Acts(next) + rest)))
  {
  }

  lemma ReleaseIsOrdered(l: Lock, m: Mode, held: map<Lock, Mode>, after: seq<Act>)
    requires l !in held && Ordered(held, after)
    ensures Ordered(held[l := m], [Release(l)] + after)
  {
    assert held[l := m] - {l} == held;
    assert ([Release(l)] + after)[1..] == after;
  }

  lemma AcquireIsOrdered(l: Lock, m: Mode, held: map<Lock, Mode>, after: seq<Act>)
    requires (forall h :: h in held ==> Rank(h) < Rank(l)) && Ordered(held[l := m], after)
    ensures Ordered(held, [Acquire(l, m)] + after)
  {
    assert ([Acquire(l, m)] + after)[1..] == after;
  }

  function Seq(u: Uses, v: Uses): Uses {
    match u
    case Done => v
    case Use(l, m, inner, next) => Use(l, m, inner, Seq(next, v))
  }

  lemma AscendingSeq(u: Uses, v: Uses, r: nat)
    requires Ascending(u, r) && Ascending(v, r)
    ensures Ascending(Seq(u, v), r)
  {
  }

  // ------------------------------------------------------------------
  // The operations
  // ------------------------------------------------------------------

  /** One write to an appender; a file may be reopened first, under the same lock. */
  datatype Write = Write(id: nat, reopen: bool)

  datatype LogOp =
    | Log(name: string, own: seq<Write>, viaRoot: seq<Write>)  // viaRoot: used when there are no own appenders
    | AddAppender(name: string, id: nat)
    | LoggerOnly(name: string)            // DelAppender, ClearAppender, SetFormatter, GetFormatter
    | AppenderOnly(id: nat)               // an appender's SetFormatter or GetFormatter
    | LoggerToYaml(name: string, ids: seq<nat>)
    | GetLogger
    | ManagerToYaml(loggers: seq<(string, seq<nat>)>)

  datatype Op =
    | Plain(op: LogOp)
    | GetValue(v: string)                 // also ToString
    | EditListeners(v: string)            // AddListener, DelListener, ClearListener
    | SetValue(v: string, changed: bool, listener: seq<LogOp>)
    | LookUp(log: seq<LogOp>)             // registry write lock, with a message logged under it
    | LookUpBase
    | Visit(calls: seq<Visited>)          // registry read lock, calling back for each variable

  /** What a callback of Visit does: it logs, or reads its variable. */
  datatype Visited = Logs(op: LogOp) | Reads(v: string)

  function WriteUses(ws: seq<Write>): Uses {
    if ws == [] then Done else
    var rest := Use(AppenderOf(ws[0].id), Exclusive, Done, WriteUses(ws[1..]));
    if ws[0].reopen then Use(AppenderOf(ws[0].id), Exclusive, Done, rest) else rest
  }

  function AppenderUses(ids: seq<nat>): Uses {
    if ids == [] then Done else Use(AppenderOf(ids[0]), Exclusive, Done, AppenderUses(ids[1..]))
  }

  function YamlUses(ls: seq<(string, seq<nat>)>): Uses {
    if ls == [] then Done else Use(LoggerOf(ls[0].0), Exclusive, AppenderUses(ls[0].1), YamlUses(ls[1..]))
  }

  /** Which locks each operation takes around which others. Root has no root to fall back on. */
  function LogUses(op: LogOp): Uses {
    match op
    case Log(name, own, viaRoot) =>
      var inner := if own == [] && name != ROOT then Use(LoggerOf(ROOT), Exclusive, WriteUses(viaRoot), Done)
                   else WriteUses(own);
      Use(LoggerOf(name), Exclusive, inner, Done)
    case AddAppender(name, id) => Use(LoggerOf(name), Exclusive, Use(AppenderOf(id), Exclusive, Done, Done), Done)
    case LoggerOnly(name) => Use(LoggerOf(name), Exclusive, Done, Done)
    case AppenderOnly(id) => Use(AppenderOf(id), Exclusive, Done, Done)
    case LoggerToYaml(name, ids) => Use(LoggerOf(name), Exclusive, AppenderUses(ids), Done)
    case GetLogger => Use(Manager, Exclusive, Done, Done)
    case ManagerToYaml(ls) => Use(Manager, Exclusive, YamlUses(ls), Done)
  }

  function AllLogUses(ops: seq<LogOp>): Uses {
    if ops == [] then Done else Seq(LogUses(ops[0]), AllLogUses(ops[1..]))
  }

  function VisitUses(calls: seq<Visited>): Uses {
    if calls == [] then Done else
    match calls[0]
    case Logs(op) => Seq(LogUses(op), VisitUses(calls[1..]))
    case Reads(v) => Use(Variable(v), Shared, Done, VisitUses(calls[1..]))
  }

  /** SetValue notifies under the read lock, drops it, and takes the write lock to store. */
  function OpUses(op: Op): Uses {
    match op
    case Plain(o) => LogUses(o)
    case GetValue(v) => Use(Variable(v), Shared, Done, Done)
    case EditListeners(v) => Use(Variable(v), Exclusive, Done, Done)
    case SetValue(v, changed, listener) =>
      if !changed then Use(Variable(v), Shared, Done, Done)
      else Use(Variable(v), Shared, AllLogUses(listener), Use(Variable(v), Exclusive, Done, Done))
    case LookUp(log) => Use(Registry, Exclusive, AllLogUses(log), Done)
    case LookUpBase => Use(Registry, Shared, Done, Done)
    case Visit(calls) => Use(Registry, Shared, VisitUses(calls), Done)
  }

  lemma WriteUsesAscend(ws: seq<Write>)
    ensures Ascending(WriteUses(ws), 5)
  {
  }

  lemma AppenderUsesAscend(ids: seq<nat>)
    ensures Ascending(AppenderUses(ids), 5)
  {
  }

  lemma AscendingBelow(u: Uses, r: nat, q: nat)
    requires Ascending(u, r) && q <= r
    ensures Ascending(u, q)
  {
  }

  lemma {:induction false} YamlUsesAscend(ls: seq<(string, seq<nat>)>)
    ensures Ascending(YamlUses(ls), 3)
  {
    if ls != [] {
      AppenderUsesAscend(ls[0].1);
      AscendingBelow(AppenderUses(ls[0].1), 5, Rank(LoggerOf(ls[0].0)));
      YamlUsesAscend(ls[1..]);
    }
  }

  lemma LogUsesAscend(op: LogOp)
    ensures Ascending(LogUses(op), 2)
  {
    match op
    case Log(name, own, viaRoot) =>
      WriteUsesAscend(own);
      WriteUsesAscend(viaRoot);
      AscendingBelow(WriteUses(own), 5, Rank(LoggerOf(name)));
    case LoggerToYaml(name, ids) =>
      AppenderUsesAscend(ids);
      AscendingBelow(AppenderUses(ids), 5, Rank(LoggerOf(name)));
    case ManagerToYaml(ls) => YamlUsesAscend(ls);
    case _ =>
  }

  lemma {:induction false} AllLogUsesAscend(ops: seq<LogOp>)
    ensures Ascending(AllLogUses(ops), 2)
  {
    if ops != [] {
      LogUsesAscend(ops[0]);
      AllLogUsesAscend(ops[1..]);
      AscendingSeq(LogUses(ops[0]), AllLogUses(ops[1..]), 2);
    }
  }

  lemma {:induction false} VisitUsesAscend(calls: seq<Visited>)
    ensures Ascending(VisitUses(calls), 1)
  {
    if calls != [] {
      VisitUsesAscend(calls[1..]);
      match calls[0]
      case Logs(op) =>
        LogUsesAscend(op);
        AscendingBelow(LogUses(op), 2, 1);
        AscendingSeq(LogUses(op), VisitUses(calls[1..]), 1);
      case Reads(v) =>
    }
  }

  /** Every nested acquisition of every operation ascends in rank. */
  lemma OpUsesAscend(op: Op)
    ensures Ascending(OpUses(op), 0)
  {
    match op
    case Plain(o) =>
      LogUsesAscend(o);
      AscendingBelow(LogUses(o), 2, 0);
    case SetValue(v, changed, listener) =>
      AllLogUsesAscend(listener);
    case LookUp(log) =>
      AllLogUsesAscend(log);
      AscendingBelow(AllLogUses(log), 2, 1);
    case Visit(calls) => VisitUsesAscend(calls);
    case _ =>
  }

  function Program(ops: seq<Op>): seq<Act> {
    if ops == [] then [] else Acts(OpUses(ops[0])) + Program(ops[1..])
  }

  lemma {:induction false} ProgramIsOrdered(ops: seq<Op>)
    ensures Ordered(map[], Program(ops))
  {
    if ops != [] {
      ProgramIsOrdered(ops[1..]);
      OpUsesAscend(ops[0]);
      AscendingIsOrdered(OpUses(ops[0]), 0, map[], Program(ops[1..]));
    }
  }

  /** Any number of threads, each about to run its operations. */
  function Start(programs: map<nat, seq<Op>>): System {
    map t | t in programs :: Thread(map[], Program(programs[t]))
  }

  /**
   Whatever the threads do and however they are scheduled, two threads never hold a
   lock in conflicting modes, and as long as one is not finished some thread can step.
   */
  lemma DeadlockFree(programs: map<nat, seq<Op>>, schedule: seq<nat>, sys: System)
    requires Reaches(Start(programs), schedule, sys)
    ensures ExclusionHolds(sys)
    ensures (exists t :: t in sys && sys[t].todo != []) ==> exists u :: CanStep(sys, u)
  {
    forall t | t in programs ensures Ordered(map[], Program(programs[t])) {
      ProgramIsOrdered(programs[t]);
    }
    OrderedAlways(Start(programs), schedule, sys);
    if t :| t in sys && sys[t].todo != [] {
      var u := SomeoneSteps(sys, t);
    }
  }
}
