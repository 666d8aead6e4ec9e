/**
 The test-and-set lock and the scoped guards of src/mutex.h, as atomic steps of any
 number of guards interleaved in any order. A guard is used by the one scope that
 declares it, so its own steps follow each other; `lock()` spins until it finds the
 flag clear.
 */
module SpinGuards {

  type Guard = nat

  /** Where the code of a guard stands; `locked_` is true in Held and Released only. */
  datatype Phase =
    | Open                       // idle, locked_ == false
    | Spinning                   // in lock(), flag not yet obtained
    | Obtained                   // flag obtained, locked_ not yet set
    | Held                       // idle, locked_ == true
    | Released(dying: bool)      // flag cleared, locked_ not yet reset

  /** The flag, and the guards between construction and the end of destruction. */
  datatype State = State(flag: bool, guards: map<Guard, Phase>)

  datatype Action =
    | Construct       // the constructor enters lock()
    | Lock            // Lock()
    | TestAndSet      // one turn of the spin loop
    | SetLocked       // locked_ = true
    | Unlock          // Unlock()
    | Destroy         // the destructor, which calls Unlock()
    | ResetLocked     // locked_ = false

  /** The steps that the code of guard `g` can take next. */
  predicate Enabled(s: State, g: Guard, a: Action) {
    match a
    case Construct => g !in s.guards
    case Lock => g in s.guards && (s.guards[g].Open? || s.guards[g].Held?)
    case TestAndSet => g in s.guards && s.guards[g].Spinning?
    case SetLocked => g in s.guards && s.guards[g].Obtained?
    case Unlock => g in s.guards && (s.guards[g].Open? || s.guards[g].Held?)
    case Destroy => g in s.guards && (s.guards[g].Open? || s.guards[g].Held?)
    case ResetLocked => g in s.guards && s.guards[g].Released?
  }

  function Step(s: State, g: Guard, a: Action): State
    requires Enabled(s, g, a)
  {
    match a
    case Construct => s.(guards := s.guards[g := Spinning])
    case Lock => if s.guards[g].Held? then s else s.(guards := s.guards[g := Spinning])
    case TestAndSet => if s.flag then s else State(true, s.guards[g := Obtained])
    case SetLocked => s.(guards := s.guards[g := Held])
    case Unlock => if s.guards[g].Open? then s else State(false, s.guards[g := Released(false)])
    case Destroy => if s.guards[g].Open? then s.(guards := s.guards - {g}) else State(false, s.guards[g := Released(true)])
    case ResetLocked => s.(guards := if s.guards[g].dying then s.guards - {g} else s.guards[g := Open])
  }

  datatype Event = Event(g: Guard, a: Action)

  ghost predicate Reaches(s: State, run: seq<Event>, t: State)
    decreases |run|
  {
    if run == [] then s == t
    else Enabled(s, run[0].g, run[0].a) && Reaches(Step(s, run[0].g, run[0].a), run[1..], t)
  }

  const INITIAL := State(false, map[])

  /** The guard has acquired the flag and not released it. */
  predicate Owns(s: State, g: Guard) {
    g in s.guards && (s.guards[g].Obtained? || s.guards[g].Held?)
  }

  ghost predicate AtMostOneOwner(s: State) {
    forall g, h :: Owns(s, g) && Owns(s, h) ==> g == h
  }

  /** The flag is set exactly when one guard, and no more, owns it. */
  ghost predicate Exclusive(s: State) {
    AtMostOneOwner(s) && (s.flag <==> exists g :: Owns(s, g))
  }

  lemma ExclusiveStep(s: State, g: Guard, a: Action)
    requires Exclusive(s) && Enabled(s, g, a)
    ensures Exclusive(Step(s, g, a))
    ensures s.flag && !Step(s, g, a).flag ==> Owns(s, g)
  {
    var t := Step(s, g, a);
    OthersKeep(s, g, a);
    if t.flag {
      if s.flag {
        var h :| Owns(s, h);
        assert Owns(t, h);
      } else {
        assert Owns(t, g);
      }
    }
    if h :| Owns(t, h) {
      if h != g {
        assert Owns(s, h) && s.flag;
        assert !t.flag ==> Owns(s, g);
      } else {
        assert Owns(s, g) || (a == TestAndSet && !s.flag);
      }
    }
  }

  lemma OthersKeep(s: State, g: Guard, a: Action)
    requires Enabled(s, g, a)
    ensures forall h :: h != g ==> Owns(Step(s, g, a), h) == Owns(s, h)
    ensures Owns(Step(s, g, a), g) ==> Owns(s, g) || (a == TestAndSet && !s.flag)
  {
  }

  lemma {:induction false} ExclusiveFrom(s: State, run: seq<Event>, t: State)
    requires Exclusive(s) && Reaches(s, run, t)
    ensures Exclusive(t)
    decreases |run|
  {
    if run != [] {
      ExclusiveStep(s, run[0].g, run[0].a);
      ExclusiveFrom(Step(s, run[0].g, run[0].a), run[1..], t);
    }
  }

  /**
   In every reachable state the flag is set exactly when one guard has acquired it and
   not released it, and no step clears it but a step of that guard. So a destructor
   that runs after an explicit Unlock() leaves the lock of any other guard alone.
   */
  lemma MutualExclusion(run: seq<Event>, s: State, g: Guard, a: Action)
    requires Reaches(INITIAL, run, s) && Enabled(s, g, a)
    ensures Exclusive(s)
    ensures s.flag && !Step(s, g, a).flag ==> Owns(s, g) && forall h :: Owns(s, h) ==> h == g
    ensures a.Destroy? && s.guards[g].Open? ==> Step(s, g, a).flag == s.flag
    ensures forall h :: h != g ==> (Owns(Step(s, g, a), h) <==> Owns(s, h))
  {
    ExclusiveFrom(INITIAL, run, s);
    ExclusiveStep(s, g, a);
  }

  /** No guard owns the flag. */
  ghost predicate Unowned(s: State) {
    forall g :: !Owns(s, g)
  }

  /**
   The lock and its guards as mutable objects; every method is one atomic step. The flag
   and the `locked_` fields are proved to agree after each, whatever the other guards do.
   */
  class Lock {
    var flag: bool
    var guards: map<Guard, Phase>

    constructor ()
      ensures View() == INITIAL && Valid() && Unowned(View())
    {
      flag, guards := false, map[];
    }

    function View(): State
      reads this
    {
      State(flag, guards)
    }

    /** The flag is set exactly when one guard owns it. */
    ghost predicate Valid()
      reads this
    {
      Exclusive(View())
    }

    /** The constructor of a guard, or Lock(), enters the spin loop; a held guard does nothing. */
    method EnterLock(g: Guard)
      requires Valid() && (g in guards ==> guards[g] in {Open, Held})
      modifies this
      ensures Valid() && g in guards && flag == old(flag)
      ensures forall h :: Owns(View(), h) <==> old(Owns(View(), h))
      ensures guards == old(guards)[g := if g in old(guards) && old(guards)[g].Held? then Held else Spinning]
      ensures View() == Step(old(View()), g, if old(g in guards) then Action.Lock else Construct)
    {
      ExclusiveStep(View(), g, if g in guards then Action.Lock else Construct);
      if g !in guards || guards[g] != Held {
        guards := guards[g := Spinning];
      }
    }

    /**
     One turn of the spin loop. The flag is set in any case; the guard has the lock
     exactly when nobody had it, and a turn in vain changes nothing.
     */
    method TestAndSet(g: Guard) returns (was: bool)
      requires Valid() && g in guards && guards[g].Spinning?
      modifies this
      ensures Valid() && flag && (Owns(View(), g) <==> !was)
      ensures !was <==> old(Unowned(View()))
      ensures was ==> View() == old(View())
      ensures !was ==> guards == old(guards)[g := Obtained]
      ensures View() == Step(old(View()), g, Action.TestAndSet)
    {
      ExclusiveStep(View(), g, Action.TestAndSet);
      was := flag;
      flag := true;
      if !was {
        guards := guards[g := Obtained];
      }
    }

    /** The guard that has the flag remembers it, and still is the one owner. */
    method SetLocked(g: Guard)
      requires Valid() && g in guards && guards[g].Obtained?
      modifies this
      ensures Valid() && flag && forall h :: Owns(View(), h) <==> h == g
      ensures guards == old(guards)[g := Held]
      ensures View() == Step(old(View()), g, Action.SetLocked)
    {
      ExclusiveStep(View(), g, Action.SetLocked);
      assert Owns(View(), g);
      guards := guards[g := Held];
      assert Owns(View(), g);
    }

    /**
     Unlock(), and the destructor of a `dying` guard. A guard that holds the lock frees it
     for good; any other leaves flag and owner alone, so it never takes the lock from another.
     */
    method Unlock(g: Guard, dying: bool)
      requires Valid() && g in guards && guards[g] in {Open, Held}
      modifies this
      ensures Valid()
      ensures old(guards[g]).Held? ==> !flag && Unowned(View())
      ensures old(guards[g]).Open? ==> flag == old(flag) && forall h :: Owns(View(), h) <==> old(Owns(View(), h))
      ensures old(guards[g]).Held? ==> guards == old(guards)[g := Released(dying)]
      ensures old(guards[g]).Open? ==> guards == if dying then old(guards) - {g} else old(guards)
      ensures View() == Step(old(View()), g, if dying then Action.Destroy else Action.Unlock)
    {
      ExclusiveStep(View(), g, if dying then Action.Destroy else Action.Unlock);
      assert guards[g].Held? ==> Owns(View(), g);
      if guards[g] == Held {
        flag := false;
        guards := guards[g := Released(dying)];
      } else if dying {
        guards := guards - {g};
      }
    }

    /** The guard forgets the lock that it has freed; whoever has it by now keeps it. */
    method ResetLocked(g: Guard)
      requires Valid() && g in guards && guards[g].Released?
      modifies this
      ensures Valid() && flag == old(flag) && forall h :: Owns(View(), h) <==> old(Owns(View(), h))
      ensures guards == if old(guards[g]).dying then old(guards) - {g} else old(guards)[g := Open]
      ensures View() == Step(old(View()), g, Action.ResetLocked)
    {
      ExclusiveStep(View(), g, Action.ResetLocked);
      guards := if guards[g].dying then guards - {g} else guards[g := Open];
    }
  }
}
