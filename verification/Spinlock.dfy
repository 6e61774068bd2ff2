/** Spinlocks with interrupt save and restore: any number of processors, any interleaving of their single steps. */
module Spinlock {

  const SPIN_LIMIT: nat := 200000000

  /** A lock that a processor holds, with the interrupt flag it had when it asked for it. */
  datatype Frame = Frame(lock: nat, saved: bool)

  /** Where a processor is inside lock or unlock. */
  datatype Pc =
    | Idle
    | Saved(lock: nat, flag: bool)             // flags read, interrupts not yet off
    | Trying(lock: nat, flag: bool, laps: nat) // before the atomic exchange
    | Spinning(lock: nat, flag: bool, laps: nat)
    | Owning(lock: nat, flag: bool)            // exchange won, owner not yet written
    | Releasing(lock: nat, flag: bool)         // before the double-unlock test
    | Cleared(lock: nat, flag: bool)           // owner cleared, lock word still set
    | Restoring(flag: bool)                    // lock word cleared, flag not yet restored
    | Halted

  /** `frames` are the locks held, innermost last; `on` is the interrupt flag. */
  datatype Cpu = Cpu(pc: Pc, on: bool, frames: seq<Frame>)

  datatype State = State(locked: set<nat>, owner: map<nat, nat>, cpus: seq<Cpu>)

  /**
   * A processor asks for a lock, gives back its innermost one, goes on with what it is doing, or, between locks, sets
   * its flag.
   */
  datatype Step = Lock(cpu: nat, lock: nat) | Unlock(cpu: nat) | Advance(cpu: nat) | SetFlag(cpu: nat, on: bool)

  function Last(s: seq<Frame>): Frame
    requires s != []
  {
    s[|s| - 1]
  }

  function With(s: State, c: nat, cpu: Cpu): State
    requires c < |s.cpus|
  {
    s.(cpus := s.cpus[c := cpu])
  }

  /** The next state; a step that is not possible changes nothing. */
  function Next(s: State, step: Step): State {
    if step.cpu >= |s.cpus| then s
    else
      var c, cpu := step.cpu, s.cpus[step.cpu];
      match step
      case Lock(_, l) => if cpu.pc == Idle then With(s, c, cpu.(pc := Saved(l, cpu.on))) else s
      case Unlock(_) =>
        if cpu.pc == Idle && cpu.frames != []
        then With(s, c, cpu.(pc := Releasing(Last(cpu.frames).lock, Last(cpu.frames).saved))) else s
      case SetFlag(_, on) => if cpu.pc == Idle && cpu.frames == [] then With(s, c, cpu.(on := on)) else s
      case Advance(_) => Advanced(s, c)
  }

  function Advanced(s: State, c: nat): State
    requires c < |s.cpus|
  {
    var cpu := s.cpus[c];
    match cpu.pc
    case Idle => s
    case Saved(l, f) => With(s, c, cpu.(pc := Trying(l, f, 0), on := false))
    case Trying(l, f, n) =>
      if l in s.locked then With(s, c, cpu.(pc := Spinning(l, f, n)))
      else With(s, c, cpu.(pc := Owning(l, f))).(locked := s.locked + {l})
    case Spinning(l, f, n) =>
      if l !in s.locked then With(s, c, cpu.(pc := Trying(l, f, n)))
      else if n + 1 > SPIN_LIMIT then With(s, c, cpu.(pc := Halted))
      else With(s, c, cpu.(pc := Spinning(l, f, n + 1)))
    case Owning(l, f) => With(s, c, cpu.(pc := Idle, frames := cpu.frames + [Frame(l, f)])).(owner := s.owner[l := c])
    case Releasing(l, f) =>
      if l !in s.locked then With(s, c, cpu.(pc := Halted))
      else With(s, c, cpu.(pc := Cleared(l, f))).(owner := s.owner[l := 0])
    case Cleared(l, f) =>
      With(s, c, cpu.(pc := Restoring(f), frames := if cpu.frames == [] then []
          else cpu.frames[..|cpu.frames| - 1])).(locked := s.locked - {l})
    case Restoring(f) => With(s, c, cpu.(pc := Idle, on := cpu.on || f))
    case Halted => s
  }

  // ---------------------------------------------------------------- invariants

  ghost predicate Holds(cpu: Cpu, l: nat) {
    (cpu.pc.Owning? && cpu.pc.lock == l) || exists k :: 0 <= k < |cpu.frames| && cpu.frames[k].lock == l
  }

  /**
   * One processor: interrupts are off from the first lock to the last unlock, and only the outermost frame may have
   * saved them on.
   */
  ghost predicate CpuOk(cpu: Cpu) {
    && (cpu.frames != [] ==> !cpu.on)
    && (forall k :: 1 <= k < |cpu.frames| ==> !cpu.frames[k].saved)
    && (forall j, k :: 0 <= j < k < |cpu.frames| ==> cpu.frames[j].lock != cpu.frames[k].lock)
    && match cpu.pc
       case Idle => true
       case Saved(l, f) => f == cpu.on
       case Trying(l, f, _) => !cpu.on && (cpu.frames != [] ==> !f)
       case Spinning(l, f, _) => !cpu.on && (cpu.frames != [] ==> !f)
       case Owning(l, f) => !cpu.on && (cpu.frames != [] ==> !f) && forall k :: 0 <= k < |cpu.frames| ==>
           cpu.frames[k].lock != l
       case Releasing(l, f) => cpu.frames != [] && Last(cpu.frames) == Frame(l, f)
       case Cleared(l, f) => cpu.frames != [] && Last(cpu.frames) == Frame(l, f)
       case Restoring(f) => !cpu.on && (cpu.frames != [] ==> !f)
       case Halted => !cpu.on
  }

  /** Lock words tell the truth: set exactly while some processor holds the lock, and never two of them. */
  ghost predicate LocksOk(s: State) {
    && (forall l :: l in s.locked ==> exists c :: 0 <= c < |s.cpus| && Holds(s.cpus[c], l))
    && (forall c, l :: 0 <= c < |s.cpus| && Holds(s.cpus[c], l) ==> l in s.locked)
    && (forall c, d, l :: 0 <= c < d < |s.cpus| && Holds(s.cpus[c], l) ==> !Holds(s.cpus[d], l))
  }

  /** The owner field names the holder from the end of lock to the start of unlock. */
  ghost predicate OwnersOk(s: State) {
    forall c, k :: 0 <= c < |s.cpus| && 0 <= k < |s.cpus[c].frames|
                   && !(s.cpus[c].pc.Cleared? && k == |s.cpus[c].frames| - 1) ==>
      var l := s.cpus[c].frames[k].lock; l in s.owner && s.owner[l] == c
  }

  ghost predicate Inv(s: State) {
    && (forall c :: 0 <= c < |s.cpus| ==> CpuOk(s.cpus[c]))
    && LocksOk(s) && OwnersOk(s)
  }

  /** The interrupt flag the processor had outside its locks. */
  function Original(cpu: Cpu): bool {
    if cpu.frames != [] then cpu.frames[0].saved
    else match cpu.pc
      case Idle => cpu.on
      case Saved(_, f) => f
      case Trying(_, f, _) => f
      case Spinning(_, f, _) => f
      case Owning(_, f) => f
      case Releasing(_, f) => f
      case Cleared(_, f) => f
      case Restoring(f) => f
      case Halted => cpu.on
  }

  // ---------------------------------------------------------------- steps keep the invariants

  /** Only the frames and the exchange decide what a processor holds. */
  lemma SameHolds(a: Cpu, b: Cpu, l: nat)
    requires a.frames == b.frames && !a.pc.Owning? && !b.pc.Owning?
    ensures Holds(a, l) <==> Holds(b, l)
  {}

  /** A processor that neither takes nor gives up a lock leaves the locks as they are. */
  lemma KeepsLocks(s: State, c: nat, cpu: Cpu)
    requires LocksOk(s) && c < |s.cpus| && forall l :: Holds(cpu, l) <==> Holds(s.cpus[c], l)
    ensures LocksOk(With(s, c, cpu))
  {
    hide Holds;
    var t := With(s, c, cpu);
    forall l | l in t.locked ensures exists d :: 0 <= d < |t.cpus| && Holds(t.cpus[d], l) {
      var d :| 0 <= d < |s.cpus| && Holds(s.cpus[d], l);
      assert Holds(t.cpus[d], l);
    }
  }

  /** Winning the exchange on a clear lock word. */
  lemma TakesLock(s: State, c: nat, cpu: Cpu, l: nat)
    requires LocksOk(s) && c < |s.cpus| && l !in s.locked
    requires forall m :: Holds(cpu, m) <==> Holds(s.cpus[c], m) || m == l
    ensures LocksOk(With(s, c, cpu).(locked := s.locked + {l}))
  {
    hide Holds;
    var t := With(s, c, cpu).(locked := s.locked + {l});
    forall m | m in t.locked ensures exists d :: 0 <= d < |t.cpus| && Holds(t.cpus[d], m) {
      if m == l {
        assert Holds(t.cpus[c], m);
      } else {
        var d :| 0 <= d < |s.cpus| && Holds(s.cpus[d], m);
        assert Holds(t.cpus[d], m);
      }
    }
  }

  /** Clearing the lock word of a lock that the processor held. */
  lemma DropsLock(s: State, c: nat, cpu: Cpu, l: nat)
    requires LocksOk(s) && c < |s.cpus| && Holds(s.cpus[c], l)
    requires forall m :: Holds(cpu, m) <==> Holds(s.cpus[c], m) && m != l
    ensures LocksOk(With(s, c, cpu).(locked := s.locked - {l}))
  {
    hide Holds;
    var t := With(s, c, cpu).(locked := s.locked - {l});
    forall m | m in t.locked ensures exists d :: 0 <= d < |t.cpus| && Holds(t.cpus[d], m) {
      var d :| 0 <= d < |s.cpus| && Holds(s.cpus[d], m);
      assert Holds(t.cpus[d], m);
    }
  }

  /** Steps that move the program counter only. */
  lemma Quiet(s: State, c: nat, cpu: Cpu)
    requires Inv(s) && c < |s.cpus| && CpuOk(cpu) && cpu.frames == s.cpus[c].frames
    requires !s.cpus[c].pc.Owning? && !cpu.pc.Owning? && !s.cpus[c].pc.Cleared? && !cpu.pc.Cleared?
    ensures Inv(With(s, c, cpu))
  {
    forall l ensures Holds(cpu, l) <==> Holds(s.cpus[c], l) { SameHolds(cpu, s.cpus[c], l); }
    KeepsLocks(s, c, cpu);
    hide LocksOk, Holds;
  }

  lemma WinsExchange(s: State, c: nat)
    requires Inv(s) && c < |s.cpus| && s.cpus[c].pc.Trying? && s.cpus[c].pc.lock !in s.locked
    ensures Inv(Advanced(s, c))
  {
    var cpu, l := s.cpus[c], s.cpus[c].pc.lock;
    var cpu' := cpu.(pc := Owning(l, cpu.pc.flag));
    assert CpuOk(cpu) && !Holds(cpu, l);
    assert CpuOk(cpu');
    forall m ensures Holds(cpu', m) <==> Holds(cpu, m) || m == l {}
    TakesLock(s, c, cpu', l);
    hide LocksOk, Holds, CpuOk;
  }

  lemma WritesOwner(s: State, c: nat)
    requires Inv(s) && c < |s.cpus| && s.cpus[c].pc.Owning?
    ensures Inv(Advanced(s, c))
  {
    var cpu, l, f := s.cpus[c], s.cpus[c].pc.lock, s.cpus[c].pc.flag;
    var cpu' := cpu.(pc := Idle, frames := cpu.frames + [Frame(l, f)]);
    assert CpuOk(cpu) && CpuOk(cpu');
    forall m ensures Holds(cpu', m) <==> Holds(cpu, m) {
      if m == l { assert cpu'.frames[|cpu.frames|].lock == l; }
      assert forall k :: 0 <= k < |cpu.frames| ==> cpu'.frames[k] == cpu.frames[k];
    }
    KeepsLocks(s, c, cpu');
    OwnerOnly(s, c, l);
    LocksAnyOwner(With(s, c, cpu'), s.owner[l := c]);
    hide LocksOk, Holds, CpuOk;
  }

  lemma LocksAnyOwner(s: State, owner: map<nat, nat>)
    requires LocksOk(s)
    ensures LocksOk(s.(owner := owner))
  {}

  /** Nobody else has a frame for a lock that `c` holds. */
  lemma OwnerOnly(s: State, c: nat, l: nat)
    requires LocksOk(s) && c < |s.cpus| && Holds(s.cpus[c], l)
    ensures forall d, k :: 0 <= d < |s.cpus| && d != c && 0 <= k < |s.cpus[d].frames| ==> s.cpus[d].frames[k].lock != l
  {
    forall d, k | 0 <= d < |s.cpus| && d != c && 0 <= k < |s.cpus[d].frames| ensures s.cpus[d].frames[k].lock != l {
      assert Holds(s.cpus[d], s.cpus[d].frames[k].lock);
    }
  }

  lemma ClearsOwner(s: State, c: nat)
    requires Inv(s) && c < |s.cpus| && s.cpus[c].pc.Releasing?
    ensures s.cpus[c].pc.lock in s.locked && Inv(Advanced(s, c))
  {
    var cpu, l, f := s.cpus[c], s.cpus[c].pc.lock, s.cpus[c].pc.flag;
    var cpu' := cpu.(pc := Cleared(l, f));
    assert CpuOk(cpu) && CpuOk(cpu');
    assert Holds(cpu, l) by { assert cpu.frames[|cpu.frames| - 1].lock == l; }
    forall m ensures Holds(cpu', m) <==> Holds(cpu, m) { SameHolds(cpu', cpu, m); }
    KeepsLocks(s, c, cpu');
    OwnerOnly(s, c, l);
    LocksAnyOwner(With(s, c, cpu'), s.owner[l := 0]);
    hide LocksOk, Holds;
  }

  lemma ClearsWord(s: State, c: nat)
    requires Inv(s) && c < |s.cpus| && s.cpus[c].pc.Cleared?
    ensures Inv(Advanced(s, c))
  {
    var cpu, l, f := s.cpus[c], s.cpus[c].pc.lock, s.cpus[c].pc.flag;
    assert CpuOk(cpu);
    var n := |cpu.frames| - 1;
    var cpu' := cpu.(pc := Restoring(f), frames := cpu.frames[..n]);
    assert CpuOk(cpu');
    assert cpu.frames[n].lock == l;
    forall m ensures Holds(cpu', m) <==> Holds(cpu, m) && m != l {
      assert forall k :: 0 <= k < n ==> cpu'.frames[k] == cpu.frames[k];
    }
    DropsLock(s, c, cpu', l);
    hide LocksOk, Holds, CpuOk;
  }

  lemma AdvanceInv(s: State, c: nat)
    requires Inv(s) && c < |s.cpus|
    ensures Inv(Advanced(s, c))
  {
    var cpu := s.cpus[c];
    match cpu.pc
    case Idle =>
    case Saved(l, f) => AdvanceQuiet(s, c);
    case Trying(l, f, n) => if l in s.locked { AdvanceQuiet(s, c); } else { WinsExchange(s, c); }
    case Spinning(l, f, n) => AdvanceQuiet(s, c);
    case Owning(l, f) => WritesOwner(s, c);
    case Releasing(l, f) => ClearsOwner(s, c);
    case Cleared(l, f) => ClearsWord(s, c);
    case Restoring(f) => AdvanceQuiet(s, c);
    case Halted =>
  }

  lemma AdvanceQuiet(s: State, c: nat)
    requires Inv(s) && c < |s.cpus|
    requires var pc := s.cpus[c].pc; pc.Saved? || (pc.Trying? && pc.lock in s.locked) || pc.Spinning? || pc.Restoring?
    ensures Inv(Advanced(s, c))
  {
    var cpu' := Advanced(s, c).cpus[c];
    assert CpuOk(s.cpus[c]);
    assert CpuOk(cpu');
    Quiet(s, c, cpu');
  }

  lemma NextInv(s: State, step: Step)
    requires Inv(s)
    ensures Inv(Next(s, step))
  {
    if step.cpu < |s.cpus| {
      var c := step.cpu;
      if step.Advance? {
        AdvanceInv(s, c);
      } else if s.cpus[c].pc == Idle {
        assert CpuOk(s.cpus[c]);
        var cpu' := Next(s, step).cpus[c];
        assert CpuOk(cpu');
        Quiet(s, c, cpu');
        assert Next(s, step) == With(s, c, cpu');
      }
    }
  }

  // ---------------------------------------------------------------- runs

  /** The state after a sequence of steps. */
  function After(s: State, steps: seq<Step>): State {
    if steps == [] then s else Next(After(s, steps[..|steps| - 1]), steps[|steps| - 1])
  }

  ghost predicate Initial(s: State) {
    s.locked == {} && forall c :: 0 <= c < |s.cpus| ==> s.cpus[c].pc == Idle && s.cpus[c].frames == []
  }

  lemma {:induction false} RunInv(s: State, steps: seq<Step>)
    requires Initial(s)
    ensures Inv(After(s, steps)) && |After(s, steps).cpus| == |s.cpus|
  {
    if steps != [] {
      RunInv(s, steps[..|steps| - 1]);
      NextInv(After(s, steps[..|steps| - 1]), steps[|steps| - 1]);
    }
  }

  /** Between winning or giving up the lock and the write to its owner field. */
  predicate ChangingOwner(cpu: Cpu, l: nat) { (cpu.pc.Owning? || cpu.pc.Cleared?) && cpu.pc.lock == l }

  /** Mutual exclusion, a truthful owner field, and interrupts off at every holder, in every reachable state. */
  lemma MutualExclusion(s: State, steps: seq<Step>, c: nat, d: nat, l: nat)
    requires Initial(s) && c < |s.cpus| && d < |s.cpus|
    ensures var t := After(s, steps);
            && |t.cpus| == |s.cpus|
            && (Holds(t.cpus[c], l) && Holds(t.cpus[d], l) ==> c == d)
            && (Holds(t.cpus[c], l) ==> !t.cpus[c].on && l in t.locked)
            && (Holds(t.cpus[c], l) && !ChangingOwner(t.cpus[c], l) ==> l in t.owner && t.owner[l] == c)
            && (l in t.locked ==> exists e :: 0 <= e < |t.cpus| && Holds(t.cpus[e], l))
  {
    RunInv(s, steps);
    var t := After(s, steps);
    assert CpuOk(t.cpus[c]);
    if Holds(t.cpus[c], l) && !ChangingOwner(t.cpus[c], l) {
      var k :| 0 <= k < |t.cpus[c].frames| && t.cpus[c].frames[k].lock == l;
      assert l in t.owner && t.owner[l] == c;
    }
  }

  /**
   * The double-unlock halt is never reached: a processor halts if and only if it has spun past the limit on a lock that
   * is still taken.
   */
  lemma HaltsOnlySpinning(s: State, steps: seq<Step>, c: nat)
    requires Initial(s) && c < |s.cpus|
    ensures var t, u := After(s, steps), After(s, steps + [Advance(c)]);
            && |t.cpus| == |u.cpus| == |s.cpus|
            && (t.cpus[c].pc != Halted ==>
                (u.cpus[c].pc == Halted <==>
                 t.cpus[c].pc.Spinning? && t.cpus[c].pc.lock in t.locked && t.cpus[c].pc.laps >= SPIN_LIMIT))
  {
    RunInv(s, steps);
    RunInv(s, steps + [Advance(c)]);
    AfterMore(s, steps, Advance(c));
    var t := After(s, steps);
    if t.cpus[c].pc.Releasing? { ClearsOwner(t, c); }
  }

  // ---------------------------------------------------------------- progress

  lemma AfterMore(s: State, steps: seq<Step>, step: Step)
    ensures After(s, steps + [step]) == Next(After(s, steps), step)
  {
    var all := steps + [step];
    assert all[..|all| - 1] == steps;
  }

  /** The processor takes `n` steps of its own. */
  function Steps(c: nat, n: nat): seq<Step> { if n == 0 then [] else Steps(c, n - 1) + [Advance(c)] }

  lemma AfterSteps(s: State, steps: seq<Step>, c: nat, n: nat)
    requires n > 0
    ensures After(s, steps + Steps(c, n)) == Next(After(s, steps + Steps(c, n - 1)), Advance(c))
  {
    assert steps + Steps(c, n) == steps + Steps(c, n - 1) + [Advance(c)];
    AfterMore(s, steps + Steps(c, n - 1), Advance(c));
  }

  lemma ThreeSteps(s: State, steps: seq<Step>, c: nat)
    ensures After(s, steps + Steps(c, 1)) == Next(After(s, steps), Advance(c))
    ensures After(s, steps + Steps(c, 2)) == Next(Next(After(s, steps), Advance(c)), Advance(c))
    ensures After(s, steps + Steps(c, 3)) == Next(Next(Next(After(s, steps), Advance(c)), Advance(c)), Advance(c))
  {
    hide Next, After;
    assert steps + Steps(c, 0) == steps;
    AfterSteps(s, steps, c, 1);
    AfterSteps(s, steps, c, 2);
    AfterSteps(s, steps, c, 3);
  }

  /** Other processors, and other locks, are as they were. */
  ghost predicate OnlyTouches(t: State, u: State, c: nat, l: nat) {
    && |u.cpus| == |t.cpus| && (forall d :: 0 <= d < |t.cpus| && d != c ==> u.cpus[d] == t.cpus[d])
    && (forall m :: m != l ==> (m in u.locked <==> m in t.locked) && (m in u.owner <==> m in t.owner))
    && (forall m :: m != l && m in t.owner ==> u.owner[m] == t.owner[m])
  }

  /** In every reachable state an idle processor that asks for a free lock has it after three steps of its own. */
  lemma TakesFreeLock(s: State, steps: seq<Step>, c: nat, l: nat)
    requires Initial(s) && c < |s.cpus|
    requires |After(s, steps).cpus| == |s.cpus| && After(s, steps).cpus[c].pc == Idle && l !in After(s, steps).locked
    ensures var t, u := After(s, steps), After(s, steps + [Lock(c, l)] + Steps(c, 3));
            && OnlyTouches(t, u, c, l) && u.cpus[c].pc == Idle && Holds(u.cpus[c], l)
            && u.cpus[c].frames == t.cpus[c].frames + [Frame(l, t.cpus[c].on)]
            && l in u.locked && l in u.owner && u.owner[l] == c && !u.cpus[c].on
  {
    AfterMore(s, steps, Lock(c, l));
    ThreeSteps(s, steps + [Lock(c, l)], c);
    var u := After(s, steps + [Lock(c, l)] + Steps(c, 3));
    assert u.cpus[c].frames[|u.cpus[c].frames| - 1].lock == l;
  }

  /** Giving back the innermost lock takes three steps too, and puts the flag back that was saved with it. */
  lemma GivesBack(s: State, steps: seq<Step>, c: nat)
    requires Initial(s) && c < |s.cpus| && |After(s, steps).cpus| == |s.cpus|
    requires After(s, steps).cpus[c].pc == Idle && After(s, steps).cpus[c].frames != []
    ensures var t, u := After(s, steps), After(s, steps + [Unlock(c)] + Steps(c, 3));
            var n := |t.cpus[c].frames| - 1;
            var l := t.cpus[c].frames[n].lock;
            && OnlyTouches(t, u, c, l) && u.cpus[c].pc == Idle && u.cpus[c].frames == t.cpus[c].frames[..n]
            && l !in u.locked && l in u.owner && u.owner[l] == 0 && u.cpus[c].on == t.cpus[c].frames[n].saved
  {
    hide After, Next, OnlyTouches, Inv;
    RunInv(s, steps);
    AfterMore(s, steps, Unlock(c));
    ThreeSteps(s, steps + [Unlock(c)], c);
    LastLocked(After(s, steps), c);
    Unlocks(After(s, steps), c);
  }

  lemma LastLocked(t: State, c: nat)
    requires Inv(t) && c < |t.cpus| && t.cpus[c].frames != []
    ensures !t.cpus[c].on && t.cpus[c].frames[|t.cpus[c].frames| - 1].lock in t.locked
  {
    var cpu := t.cpus[c];
    assert CpuOk(cpu) && Holds(cpu, cpu.frames[|cpu.frames| - 1].lock);
  }

  lemma Unlocks(t: State, c: nat)
    requires c < |t.cpus| && t.cpus[c].pc == Idle && t.cpus[c].frames != [] && !t.cpus[c].on
    requires t.cpus[c].frames[|t.cpus[c].frames| - 1].lock in t.locked
    ensures var n := |t.cpus[c].frames| - 1;
            var l := t.cpus[c].frames[n].lock;
            var u := Next(Next(Next(Next(t, Unlock(c)), Advance(c)), Advance(c)), Advance(c));
            && OnlyTouches(t, u, c, l) && u.cpus[c].pc == Idle && u.cpus[c].frames == t.cpus[c].frames[..n]
            && l !in u.locked && l in u.owner && u.owner[l] == 0 && u.cpus[c].on == t.cpus[c].frames[n].saved
  {}

  /** A processor that waits for a lock takes it with its next two steps once it is released and nobody else moves. */
  lemma WaiterTakes(s: State, steps: seq<Step>, c: nat)
    requires Initial(s) && c < |s.cpus| && |After(s, steps).cpus| == |s.cpus|
    requires After(s, steps).cpus[c].pc.Spinning? && After(s, steps).cpus[c].pc.lock !in After(s, steps).locked
    ensures var t, u := After(s, steps), After(s, steps + Steps(c, 2));
            var l := t.cpus[c].pc.lock;
            && OnlyTouches(t, u, c, l) && Holds(u.cpus[c], l) && l in u.locked && !u.cpus[c].on
    ensures var t, u := After(s, steps), After(s, steps + Steps(c, 3));
            var l := t.cpus[c].pc.lock;
            && OnlyTouches(t, u, c, l) && u.cpus[c].pc == Idle && l in u.locked && l in u.owner && u.owner[l] == c
            && u.cpus[c].frames == t.cpus[c].frames + [Frame(l, t.cpus[c].pc.flag)]
  {
    hide After, Next, OnlyTouches, Holds;
    RunInv(s, steps);
    assert CpuOk(After(s, steps).cpus[c]);
    ThreeSteps(s, steps, c);
    Waits(After(s, steps), c);
  }

  lemma Waits(t: State, c: nat)
    requires c < |t.cpus| && t.cpus[c].pc.Spinning? && t.cpus[c].pc.lock !in t.locked && !t.cpus[c].on
    ensures var u, l := Next(Next(t, Advance(c)), Advance(c)), t.cpus[c].pc.lock;
            && OnlyTouches(t, u, c, l) && Holds(u.cpus[c], l) && l in u.locked && !u.cpus[c].on
    ensures var u, l := Next(Next(Next(t, Advance(c)), Advance(c)), Advance(c)), t.cpus[c].pc.lock;
            && OnlyTouches(t, u, c, l) && u.cpus[c].pc == Idle && l in u.locked && l in u.owner && u.owner[l] == c
            && u.cpus[c].frames == t.cpus[c].frames + [Frame(l, t.cpus[c].pc.flag)]
  {}

  // ---------------------------------------------------------------- the interrupt flag

  /** No step of locking or unlocking loses the flag a processor had outside its locks. */
  lemma KeepsOriginal(s: State, step: Step, c: nat)
    requires c < |s.cpus| && CpuOk(s.cpus[c]) && !(step.SetFlag? && step.cpu == c) && Next(s, step).cpus[c].pc != Halted
    ensures Original(Next(s, step).cpus[c]) == Original(s.cpus[c])
  {}

  ghost predicate Untouched(steps: seq<Step>, c: nat) {
    forall i :: 0 <= i < |steps| ==> !(steps[i].SetFlag? && steps[i].cpu == c)
  }

  lemma HaltedStays(s: State, step: Step, c: nat)
    requires c < |s.cpus| && s.cpus[c].pc == Halted
    ensures |Next(s, step).cpus| == |s.cpus| && Next(s, step).cpus[c].pc == Halted
  {}

  /**
   * Over any run the flag of a processor is off while it holds a lock, and when it is between operations with no lock
   * held it is exactly what it was before: it comes back at the outermost unlock and not earlier.
   */
  lemma {:induction false} FlagRestored(s: State, steps: seq<Step>, c: nat)
    requires Initial(s) && c < |s.cpus| && Untouched(steps, c)
    ensures var t := After(s, steps);
            && |t.cpus| == |s.cpus|
            && (t.cpus[c].pc != Halted ==> Original(t.cpus[c]) == s.cpus[c].on)
            && (t.cpus[c].pc == Idle && t.cpus[c].frames == [] ==> t.cpus[c].on == s.cpus[c].on)
            && (t.cpus[c].frames != [] ==> !t.cpus[c].on)
  {
    RunInv(s, steps);
    if steps != [] {
      var n := |steps| - 1;
      FlagRestored(s, steps[..n], c);
      RunInv(s, steps[..n]);
      var t := After(s, steps[..n]);
      if t.cpus[c].pc == Halted { HaltedStays(t, steps[n], c); }
      assert CpuOk(t.cpus[c]);
      if Next(t, steps[n]).cpus[c].pc != Halted { KeepsOriginal(t, steps[n], c); }
    }
    assert CpuOk(After(s, steps).cpus[c]);
  }
}
