/**
 The Fiber class of src/fiber.cpp and the thread-local pointers beside it. A call of
 SwapIn here is the whole call: it comes back when the fiber gives control back, after
 one segment of its body. Each method is proved to do to the objects what the machine of
 FiberModel does to its records.
 */
module Fibers {
  import opened Basics
  import M = FiberModel
  import R = FiberRuns
  import opened FiberModel

  /** The counters and the heap that all threads share. */
  class Process {
    var lastId: nat
    var count: nat
    var blocks: nat
    var freed: seq<nat>

    constructor ()
      ensures lastId == 0 && count == 0 && blocks == 0 && freed == []
    {
      lastId, count, blocks, freed := 0, 0, 0, [];
    }

    method Alloc() returns (block: nat)
      modifies `blocks
      ensures block == old(blocks) && blocks == block + 1
    {
      block := blocks;
      blocks := blocks + 1;
    }

    method Dealloc(block: nat)
      modifies `freed
      ensures freed == old(freed) + [block]
    {
      freed := freed + [block];
    }
  }

  class Fiber {
    const owner: nat
    const id: nat
    const stack: Option<nat>
    var state: State
    var ctx: Place<Fiber>
    var body: Body
    var refs: nat
    var onStack: nat
    ghost var trace: seq<nat>
    ghost var swaps: nat

    ghost function View(): M.Fiber<Fiber>
      requires stack.Some?
      reads this
    {
      M.Fiber(owner, id, state, ctx, stack.value, body, refs, onStack, trace, swaps)
    }

    /** The state between two calls, with control in the thread's own code. */
    ghost predicate Rests()
      reads this
    {
      stack.Some? && !Active(View()) && FiberOk(View(), this, Outside(0))
    }

    constructor ForThread(process: Process, thread: Thread)
      requires thread.at.Outside?
      modifies process`count, thread`current
      ensures stack.None? && state == EXEC && ctx == thread.at && owner == thread.tid
      ensures thread.current == this && process.count == old(process.count) + 1
    {
      owner, id, stack, state, ctx := thread.tid, 0, None, EXEC, thread.at;
      body, refs, onStack, trace, swaps := Body([], 0, Returns), 1, 0, [], 0;
      new;
      thread.current := this;
      process.count := process.count + 1;
    }

    constructor (process: Process, tid: nat, cb: Body)
      requires Yields(cb)
      modifies process
      ensures stack.Some? && Rests()
      ensures body == cb && ctx == Entry(this) && state == INIT && trace == [] && refs == 1 && onStack == 0
      ensures owner == tid && id == old(process.lastId) + 1 && stack == Some(old(process.blocks))
      ensures View() == Created(tid, old(process.lastId) + 1, old(process.blocks), this, cb)
      ensures process.lastId == old(process.lastId) + 1 && process.count == old(process.count) + 1
      ensures process.blocks == old(process.blocks) + 1 && process.freed == old(process.freed)
    {
      process.lastId := process.lastId + 1;
      process.count := process.count + 1;
      var block := process.Alloc();
      owner, id, stack, state := tid, process.lastId, Some(block), INIT;
      body, refs, onStack, trace, swaps := cb, 1, 0, [], 0;
      ctx := Entry(this);
      new;
      assert Segments(body)[..0] == [];
    }

    /** Fiber::~Fiber of a fiber with a stack, when the last reference is gone. */
    method Destroy(process: Process)
      requires stack.Some? && Resettable(state) && process.count > 0
      modifies process`count, process`freed
      ensures process.count == old(process.count) - 1
      ensures process.freed == old(process.freed) + [stack.value]
    {
      process.count := process.count - 1;
      process.Dealloc(stack.value);
    }

    /**
     A reference from outside goes, and with the last one of all the fiber. The caller must
     not drop the last reference to a fiber that a std::exception has left in EXEC.
     */
    method Drop(process: Process) returns (gone: bool)
      requires Rests() && refs > 0 && process.count > 0
      requires !(state == EXEC && refs == 1)
      modifies `refs, process`count, process`freed
      ensures View() == old(View()).(refs := old(refs) - 1)
      ensures gone <==> old(refs) == 1 && old(state) in {INIT, TERM, EXECPT}
      ensures process.count == old(process.count) - (if gone then 1 else 0)
      ensures process.freed == old(process.freed) + (if gone then [stack.value] else [])
      ensures !gone ==> Rests()
    {
      refs := refs - 1;
      gone := refs + onStack == 0;
      if gone {
        Destroy(process);
      }
    }

    method Reset(cb: Body)
      requires Rests() && Resettable(state) && Yields(cb)
      modifies this
      ensures View() == ResetTo(old(View()), this, cb) && Rests()
      ensures body == cb && ctx == Entry(this) && state == INIT && trace == [] && refs == old(refs) && onStack == 0
    {
      body := cb;
      ctx := Entry(this);
      state := INIT;
      trace, swaps := [], 0;
      assert Segments(body)[..0] == [];
    }
  }

  class Thread {
    const tid: nat
    const process: Process
    var at: Place<Fiber>
    var current: Fiber?
    var main: Fiber?

    ghost predicate Valid()
      reads this, main
    {
      && (main != null ==> main.stack.None? && main.state == EXEC)
      && (at.Outside? ==> current == main)
    }

    constructor (tid: nat, process: Process)
      ensures Valid() && this.tid == tid && this.process == process && at == Outside(0) && main == null
    {
      this.tid, this.process := tid, process;
      at, current, main := Outside(0), null, null;
    }

    /** Fiber::GetThis called by the thread's own code: the first call makes the main fiber. */
    method GetThis() returns (f: Fiber)
      requires Valid() && at.Outside?
      modifies this`current, this`main, process`count
      ensures Valid() && current == main == f
      ensures old(main) != null ==> f == old(main) && process.count == old(process.count)
      ensures old(main) == null ==> fresh(f) && process.count == old(process.count) + 1
    {
      if current != null {
        return current;
      }
      f := new Fiber.ForThread(process, this);
      main := f;
    }

    method SwapContext(save: Fiber, load: Fiber)
      requires save != load
      modifies this`at, save`ctx
      ensures save.ctx == old(at) && at == old(load.ctx)
    {
      save.ctx, at := at, load.ctx;
    }

    /** Fiber::SwapOut of fiber `f`, called at the place `from` of its own code. */
    method SwapOut(f: Fiber, from: Place<Fiber>)
      requires main != null && f != main
      modifies this`at, this`current, f`ctx
      ensures current == main && at == main.ctx && f.ctx == from
    {
      current := main;
      at := from;
      SwapContext(f, main);
    }

    /** In fiber `f`, with main waiting for it. */
    ghost predicate In(f: Fiber)
      reads this, main, f
    {
      && Valid() && main != null && current == f && OnFiber(at, f)
      && f.stack.Some? && Active(f.View()) && FiberOk(f.View(), f, at)
    }

    /** MainFunc up to the call of the function, or a yield from its SwapOut back into the body. */
    method Enter(f: Fiber)
      requires In(f) && !at.InBody?
      modifies this`at, f`onStack
      ensures In(f) && at == InBody(f, f.swaps - 1)
      ensures f.View() == old(f.View()).(onStack := 1)
    {
      var cur := if at.Entry? then current else at.held;
      if at.Entry? {
        cur.onStack := cur.onStack + 1;
        at := InBody(cur, 0);
      } else {
        cur.onStack := cur.onStack - 1;
        at := InBody(f, at.pc);
      }
    }

    /** One segment, then YieldToHold or YieldToReady. */
    method YieldTo(f: Fiber)
      requires In(f) && at.InBody? && at.pc < |f.body.parts|
      modifies this`at, this`current, f
      ensures current == main && at == main.ctx && Valid()
      ensures f.View() == Yielded(old(f.View()), old(at.pc), Suspended(f, f, old(at.pc) + 1))
    {
      f.trace := f.trace + [f.body.parts[at.pc].seg];
      var cur := current;
      assert cur.state == EXEC;
      cur.onStack := cur.onStack + 1;
      cur.state := f.body.parts[at.pc].yieldTo;
      assert main.ctx == old(main.ctx);
      SwapOut(cur, Suspended(f, cur, at.pc + 1));
    }

    /** The last segment and the rest of MainFunc. */
    method EndMain(f: Fiber)
      requires In(f) && at.InBody? && at.pc == |f.body.parts|
      modifies this`at, this`current, f
      ensures current == main && at == main.ctx && Valid()
      ensures f.View() == M.Finished(old(f.View()), Gone(f))
    {
      f.trace := f.trace + [f.body.last];
      match f.body.ending {
        case Returns => f.state := TERM;
        case Throws => f.state := EXECPT;
        case ThrowsStd =>  // logged only
      }
      f.onStack := f.onStack - 1;
      SwapOut(f, Gone(f));
    }

    /** A call of f.SwapIn() by the thread's own code, from the call to its return. */
    method SwapIn(f: Fiber)
      requires Valid() && at.Outside? && main != null && f != main
      requires f.Rests() && Resumable(f.state) && f.refs > 0
      modifies this`at, this`current, main`ctx, f
      ensures Valid() && at == Outside(old(at).site + 1) && current == main
      ensures f.View() == R.Resumed(old(f.View()), f) && f.Rests()
      ensures f.body == old(f.body) && f.refs == old(f.refs)
      ensures var n := |old(f.trace)|;
              if n < |f.body.parts| then
                f.trace == old(f.trace) + [f.body.parts[n].seg] && f.state == f.body.parts[n].yieldTo
              else
                f.trace == old(f.trace) + [f.body.last] && f.state == FinalState(f.body, EXEC)
    {
      R.ResumedOk(f.View(), f, Outside(0));
      current := f;
      assert f.state != EXEC;
      f.state := EXEC;
      f.swaps := f.swaps + 1;
      at := Outside(at.site + 1);
      SwapContext(main, f);
      ghost var resumed := f.View();
      Enter(f);
      if at.pc < |f.body.parts| {
        YieldTo(f);
      } else {
        EndMain(f);
      }
    }
  }

  /** A thread of tests/test_fiber.cpp: a fiber that yields once, resumed twice. */
  method TestFiber(thread: Thread, first: nat, second: nat) returns (states: seq<State>, f: Fiber)
    requires thread.Valid() && thread.at.Outside?
    modifies thread, thread.main, thread.process
    ensures states == [HOLD, TERM] && f.trace == [first, second]
    ensures thread.Valid() && thread.at.Outside? && thread.current == thread.main
  {
    var main := thread.GetThis();
    f := new Fiber(thread.process, thread.tid, Body([Part(first, HOLD)], second, Returns));
    thread.SwapIn(f);
    states := [f.state];
    thread.SwapIn(f);
    states := states + [f.state];
  }
}
