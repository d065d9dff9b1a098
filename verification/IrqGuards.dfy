/** Interrupt guards and the spin lock on one CPU: acquisitions remember the interrupt flag they found,
    and drops bring it back. */
module IrqGuards {

  /** `IrqGuard::new`, `Mutex::lock` and `Mutex::lock_irq`. */
  datatype Kind = Irq | Plain(lock: nat) | WithIrq(lock: nat)

  /** A live guard and the flag it saved: `locked` of an `IrqGuard`, `irq_lock` of a `MutexGuard`. */
  datatype Guard = Guard(kind: Kind, saved: bool)

  datatype Cpu = Cpu(enabled: bool, held: set<nat>, guards: seq<Guard>)

  predicate Masks(g: Guard) {
    !g.kind.Plain?
  }

  function LockOf(k: Kind): set<nat> {
    if k.Irq? then {} else {k.lock}
  }

  /** The CPU after an acquisition; a lock must be free, or the spin would never end. */
  function Acquire(s: Cpu, kind: Kind): Cpu
    requires kind.Irq? || kind.lock !in s.held
  {
    var saved := !kind.Plain? && s.enabled;
    Cpu(s.enabled && kind.Plain?, s.held + LockOf(kind), s.guards + [Guard(kind, saved)])
  }

  function Without(guards: seq<Guard>, i: nat): (r: seq<Guard>)
    requires i < |guards|
    ensures |r| == |guards| - 1
    ensures forall j :: 0 <= j < |r| ==> r[j] == if j < i then guards[j] else guards[j + 1]
  {
    guards[..i] + guards[i + 1..]
  }

  /** The first half of a drop gives the lock back; interrupts are as they were. */
  function Release(s: Cpu, i: nat): Cpu
    requires i < |s.guards|
  {
    Cpu(s.enabled, s.held - LockOf(s.guards[i].kind), Without(s.guards, i))
  }

  /** The second half turns interrupts on if the guard had found them on. */
  function Drop(s: Cpu, i: nat): Cpu
    requires i < |s.guards|
  {
    var released := Release(s, i);
    released.(enabled := released.enabled || s.guards[i].saved)
  }

  // ----- well-nested runs -----

  datatype Op = Get(kind: Kind) | DropLast

  predicate Possible(s: Cpu, op: Op) {
    match op
    case Get(kind) => kind.Irq? || kind.lock !in s.held
    case DropLast => s.guards != []
  }

  function Step(s: Cpu, op: Op): Cpu
    requires Possible(s, op)
  {
    match op
    case Get(kind) => Acquire(s, kind)
    case DropLast => Drop(s, |s.guards| - 1)
  }

  /** The run; it stops at an operation that cannot happen. */
  function Run(s: Cpu, ops: seq<Op>): Cpu
    decreases |ops|
  {
    if ops == [] || !Possible(s, ops[0]) then s else Run(Step(s, ops[0]), ops[1..])
  }

  ghost predicate AnyMasks(guards: seq<Guard>) {
    exists i :: 0 <= i < |guards| && Masks(guards[i])
  }

  ghost function Locks(guards: seq<Guard>): set<nat> {
    set i, l | 0 <= i < |guards| && l in LockOf(guards[i].kind) :: l
  }

  /** No lock belongs to two guards. */
  ghost predicate Distinct(guards: seq<Guard>) {
    forall i, j :: 0 <= i < j < |guards| ==> LockOf(guards[i].kind) !! LockOf(guards[j].kind)
  }

  /** With interrupts initially `base`: they are on exactly when they were and no live guard masks them; each
      guard remembers whether they were on below it; and exactly the locks of live guards are held, once each. */
  ghost predicate Nested(s: Cpu, base: bool) {
    && (s.enabled <==> base && !AnyMasks(s.guards))
    && (forall i :: 0 <= i < |s.guards| ==>
          (s.guards[i].saved <==> Masks(s.guards[i]) && base && !AnyMasks(s.guards[..i])))
    && s.held == Locks(s.guards)
    && Distinct(s.guards)
  }

  lemma AnyMasksPush(guards: seq<Guard>, g: Guard)
    ensures AnyMasks(guards + [g]) <==> AnyMasks(guards) || Masks(g)
  {
    var all := guards + [g];
    if AnyMasks(guards) {
      var i :| 0 <= i < |guards| && Masks(guards[i]);
      assert Masks(all[i]);
    }
    if Masks(g) {
      assert Masks(all[|guards|]);
    }
  }

  lemma LocksPush(guards: seq<Guard>, g: Guard)
    ensures Locks(guards + [g]) == Locks(guards) + LockOf(g.kind)
  {
    var all := guards + [g];
    forall l | l in Locks(guards) + LockOf(g.kind)
      ensures l in Locks(all)
    {
      if l in Locks(guards) {
        var i :| 0 <= i < |guards| && l in LockOf(guards[i].kind);
        assert l in LockOf(all[i].kind);
      } else {
        assert l in LockOf(all[|guards|].kind);
      }
    }
  }

  lemma AcquireNested(s: Cpu, base: bool, kind: Kind)
    requires Nested(s, base) && (kind.Irq? || kind.lock !in s.held)
    ensures Nested(Acquire(s, kind), base)
  {
    var after := Acquire(s, kind);
    var g := after.guards[|s.guards|];
    AnyMasksPush(s.guards, g);
    LocksPush(s.guards, g);
    forall i | 0 <= i < |after.guards|
      ensures after.guards[i].saved <==> Masks(after.guards[i]) && base && !AnyMasks(after.guards[..i])
    {
      assert after.guards[..i] == s.guards[..i];
      assert s.guards[..|s.guards|] == s.guards;
    }
    forall i | 0 <= i < |s.guards|
      ensures LockOf(s.guards[i].kind) !! LockOf(kind)
    {
      assert forall l :: l in LockOf(s.guards[i].kind) ==> l in Locks(s.guards);
    }
  }

  lemma DropNested(s: Cpu, base: bool)
    requires Nested(s, base) && s.guards != []
    ensures Nested(Drop(s, |s.guards| - 1), base)
  {
    var n := |s.guards| - 1;
    var below, g := s.guards[..n], s.guards[n];
    assert s.guards == below + [g] && s.guards[..n] + s.guards[n + 1..] == below;
    AnyMasksPush(below, g);
    LocksPush(below, g);
    forall i | 0 <= i < n
      ensures below[i].saved <==> Masks(below[i]) && base && !AnyMasks(below[..i])
    {
      assert below[..i] == s.guards[..i] && below[i] == s.guards[i];
    }
    forall l | l in Locks(below)
      ensures l !in LockOf(g.kind)
    {
      var i :| 0 <= i < n && l in LockOf(below[i].kind);
      assert LockOf(s.guards[i].kind) !! LockOf(s.guards[n].kind);
    }
  }

  /** Every well-nested run keeps the invariant; so interrupts stay off while any masking guard lives. */
  lemma {:induction false} RunNested(s: Cpu, base: bool, ops: seq<Op>)
    requires Nested(s, base)
    ensures Nested(Run(s, ops), base)
    decreases |ops|
  {
    if ops != [] && Possible(s, ops[0]) {
      match ops[0] {
        case Get(kind) => AcquireNested(s, base, kind);
        case DropLast => DropNested(s, base);
      }
      RunNested(Step(s, ops[0]), base, ops[1..]);
    }
  }

  /** Whenever a run comes back to the guards of an earlier state, as it does when an acquisition and all inside
      it have been dropped, the interrupt flag and the held locks are those of that state. */
  lemma DropRestores(s: Cpu, base: bool, before: seq<Op>, between: seq<Op>)
    requires Nested(s, base)
    requires Run(Run(s, before), between).guards == Run(s, before).guards
    ensures Run(Run(s, before), between) == Run(s, before)
  {
    RunNested(s, base, before);
    RunNested(Run(s, before), base, between);
  }

  // ----- drops in any order -----

  datatype AnyOp = Take(kind: Kind) | DropAt(i: nat)

  predicate AnyPossible(s: Cpu, op: AnyOp) {
    match op
    case Take(kind) => kind.Irq? || kind.lock !in s.held
    case DropAt(i) => i < |s.guards|
  }

  /** A run in which any live guard may be dropped; it stops at an operation that cannot happen. */
  function RunAny(s: Cpu, ops: seq<AnyOp>): Cpu
    decreases |ops|
  {
    if ops == [] || !AnyPossible(s, ops[0]) then s
    else RunAny(match ops[0] case Take(kind) => Acquire(s, kind) case DropAt(i) => Drop(s, i), ops[1..])
  }

  ghost predicate AnySaved(guards: seq<Guard>) {
    exists i :: 0 <= i < |guards| && guards[i].saved
  }

  ghost predicate OneSaved(guards: seq<Guard>) {
    forall i, j :: 0 <= i < j < |guards| ==> !(guards[i].saved && guards[j].saved)
  }

  /** With interrupts initially `base`: they are on exactly when they were and no live guard is to bring them back;
      at most one guard is, and it masks them; and exactly the locks of live guards are held, once each. */
  ghost predicate Marked(s: Cpu, base: bool) {
    && (s.enabled <==> base && !AnySaved(s.guards))
    && (forall i :: 0 <= i < |s.guards| && s.guards[i].saved ==> base && Masks(s.guards[i]))
    && OneSaved(s.guards)
    && s.held == Locks(s.guards)
    && Distinct(s.guards)
  }

  /** All guards but one, and that one. */
  lemma WithoutAll(guards: seq<Guard>, i: nat)
    requires i < |guards|
    ensures AnySaved(guards) <==> AnySaved(Without(guards, i)) || guards[i].saved
    ensures AnyMasks(guards) <==> AnyMasks(Without(guards, i)) || Masks(guards[i])
    ensures Locks(guards) == Locks(Without(guards, i)) + LockOf(guards[i].kind)
  {
    var left := Without(guards, i);
    forall j | 0 <= j < |guards| && j != i
      ensures guards[j] in left
    {
      assert left[if j < i then j else j - 1] == guards[j];
    }
    forall g | g in left
      ensures g in guards
    {
      var j :| 0 <= j < |left| && left[j] == g;
    }
    InGuards(guards);
    InGuards(left);
  }

  /** What the three summaries say of a guard list, by its elements. */
  lemma InGuards(guards: seq<Guard>)
    ensures AnySaved(guards) <==> exists g :: g in guards && g.saved
    ensures AnyMasks(guards) <==> exists g :: g in guards && Masks(g)
    ensures Locks(guards) == set g, l | g in guards && l in LockOf(g.kind) :: l
  {
  }

  lemma AcquireMarked(s: Cpu, base: bool, kind: Kind)
    requires Marked(s, base) && (kind.Irq? || kind.lock !in s.held)
    ensures Marked(Acquire(s, kind), base)
  {
    hide AnyMasks;
    var after := Acquire(s, kind).guards;
    var n := |s.guards|;
    assert Without(after, n) == s.guards;
    WithoutAll(after, n);
    if after[n].saved {
      assert !AnySaved(s.guards);
    }
    forall i | 0 <= i < n
      ensures LockOf(s.guards[i].kind) !! LockOf(kind)
    {
      assert forall l :: l in LockOf(s.guards[i].kind) ==> l in Locks(s.guards);
    }
  }

  lemma WithoutOne(guards: seq<Guard>, i: nat)
    requires i < |guards| && Distinct(guards) && OneSaved(guards)
    ensures Distinct(Without(guards, i)) && OneSaved(Without(guards, i))
    ensures LockOf(guards[i].kind) !! Locks(Without(guards, i))
    ensures guards[i].saved ==> !AnySaved(Without(guards, i))
  {
  }

  lemma DropMarked(s: Cpu, base: bool, i: nat)
    requires Marked(s, base) && i < |s.guards|
    ensures Marked(Drop(s, i), base)
  {
    hide AnyMasks, AnySaved, Locks, Distinct, OneSaved;
    WithoutAll(s.guards, i);
    WithoutOne(s.guards, i);
    if s.guards[i].saved {
      assert base;
    }
  }

  /** Every run keeps the invariant, in whatever order guards are dropped. */
  lemma {:induction false} RunMarked(s: Cpu, base: bool, ops: seq<AnyOp>)
    requires Marked(s, base)
    ensures Marked(RunAny(s, ops), base)
    decreases |ops|
  {
    hide Marked, Acquire, Drop;
    if ops != [] && AnyPossible(s, ops[0]) {
      match ops[0] {
        case Take(kind) =>
          AcquireMarked(s, base, kind);
          RunMarked(Acquire(s, kind), base, ops[1..]);
        case DropAt(i) =>
          DropMarked(s, base, i);
          RunMarked(Drop(s, i), base, ops[1..]);
      }
    }
  }

  /** After any run on a CPU without guards, a lock is held exactly while a guard that took it lives, plainly or with
      interrupts off; and exactly then it cannot be taken. */
  lemma LockHeldIff(enabled: bool, ops: seq<AnyOp>, lock: nat)
    ensures
      var t := RunAny(Cpu(enabled, {}, []), ops);
      && (lock in t.held <==> exists g :: g in t.guards && (g.kind == Plain(lock) || g.kind == WithIrq(lock)))
      && (AnyPossible(t, Take(Plain(lock))) <==> lock !in t.held)
      && (AnyPossible(t, Take(WithIrq(lock))) <==> lock !in t.held)
  {
    hide RunAny;
    var t := RunAny(Cpu(enabled, {}, []), ops);
    RunMarked(Cpu(enabled, {}, []), enabled, ops);
    InGuards(t.guards);
    forall g | g in t.guards
      ensures lock in LockOf(g.kind) <==> g.kind == Plain(lock) || g.kind == WithIrq(lock)
    {
    }
  }

  /** Taking a lock makes it held by the newest guard; dropping that guard frees it, whichever guards were taken
      before. */
  lemma TakeThenDrop(s: Cpu, base: bool, kind: Kind)
    requires Marked(s, base) && !kind.Irq? && kind.lock !in s.held
    ensures
      var taken := Acquire(s, kind);
      && kind.lock in taken.held && |taken.guards| == |s.guards| + 1 && taken.guards[|s.guards|].kind == kind
      && kind.lock !in Drop(taken, |s.guards|).held && Drop(taken, |s.guards|).guards == s.guards
  {
    assert Without(Acquire(s, kind).guards, |s.guards|) == s.guards;
  }

  /** Well-nested states are among those of runs in any order, and always protected. */
  lemma NestedMarked(s: Cpu, base: bool)
    requires Nested(s, base)
    ensures Marked(s, base) && Protected(s)
  {
    if base && AnyMasks(s.guards) {
      FirstMask(s.guards);
      var i :| 0 <= i < |s.guards| && Masks(s.guards[i]) && !AnyMasks(s.guards[..i]);
      assert s.guards[i].saved;
    }
    forall i, j | 0 <= i < j < |s.guards|
      ensures !(s.guards[i].saved && s.guards[j].saved)
    {
      assert Masks(s.guards[i]) ==> Masks(s.guards[..j][i]);
    }
  }

  lemma {:induction false} FirstMask(guards: seq<Guard>)
    requires AnyMasks(guards)
    ensures exists i :: 0 <= i < |guards| && Masks(guards[i]) && !AnyMasks(guards[..i])
  {
    var n := |guards| - 1;
    if AnyMasks(guards[..n]) {
      FirstMask(guards[..n]);
      var i :| 0 <= i < n && Masks(guards[..n][i]) && !AnyMasks(guards[..n][..i]);
      assert guards[..n][..i] == guards[..i];
    } else {
      AnyMasksPush(guards[..n], guards[n]);
      assert guards[..n] + [guards[n]] == guards;
    }
  }

  /** Interrupts are off while a live guard masks them. */
  ghost predicate Protected(s: Cpu) {
    AnyMasks(s.guards) ==> !s.enabled
  }

  /** After any run on a CPU without guards, the live guards are protected exactly when interrupts were off to
      begin with, or none of the guards masks them, or the one that found them on is still live. */
  lemma RunProtectsIff(enabled: bool, ops: seq<AnyOp>)
    ensures var t := RunAny(Cpu(enabled, {}, []), ops);
      && Marked(t, enabled)
      && (Protected(t) <==> !enabled || !AnyMasks(t.guards) || AnySaved(t.guards))
  {
    RunMarked(Cpu(enabled, {}, []), enabled, ops);
  }

  /** Dropping any guard, in any state a run can reach, protects the guards that are left exactly when interrupts
      were off to begin with, or none of those masks them, or the one that found them on is among them. From a
      protected state: exactly when the dropped guard had not found them on, or no other guard masks them. */
  lemma DropProtectsIff(s: Cpu, base: bool, i: nat)
    requires Marked(s, base) && i < |s.guards|
    ensures var left := Without(s.guards, i);
      && (Protected(Drop(s, i)) <==> !base || !AnyMasks(left) || AnySaved(left))
      && (Protected(s) ==> (Protected(Drop(s, i)) <==> !s.guards[i].saved || !AnyMasks(left)))
  {
    hide AnyMasks, Locks;
    DropMarked(s, base, i);
    WithoutAll(s.guards, i);
  }

  /** Two nested guards, the outer one dropped first: interrupts are on although the inner one still lives. */
  lemma OuterDroppedFirst()
    ensures var t := RunAny(Cpu(true, {}, []), [Take(Irq), Take(Irq), DropAt(0)]);
      t.enabled && t.guards == [Guard(Irq, false)] && !Protected(t)
  {
    var start := Cpu(true, {}, []);
    var one := Acquire(start, Irq);
    var two := Acquire(one, Irq);
    var ops := [Take(Irq), Take(Irq), DropAt(0)];
    assert ops[1..] == [Take(Irq), DropAt(0)] && ops[1..][1..] == [DropAt(0)];
    assert two.guards == [Guard(Irq, true), Guard(Irq, false)];
    assert RunAny(two, [DropAt(0)]) == Drop(two, 0);
    assert RunAny(start, ops) == RunAny(two, [DropAt(0)]);
    assert Masks(Drop(two, 0).guards[0]);
  }

  /** A masking mutex guard gives its lock back while interrupts are still off. */
  lemma ReleasedBeforeEnabled(s: Cpu, base: bool, i: nat)
    requires Nested(s, base) && i < |s.guards| && s.guards[i].kind.WithIrq?
    ensures !Release(s, i).enabled && s.guards[i].kind.lock in s.held && s.guards[i].kind.lock !in Release(s, i).held
  {
    assert Masks(s.guards[i]);
  }

  // ----- the guards themselves -----

  datatype Event = Disabled | Enabled | Took(lock: nat) | Gave(lock: nat)

  class Processor {
    var enabled: bool
    var held: set<nat>
    var guards: seq<Guard>
    ghost var events: seq<Event>

    function Abs(): Cpu
      reads this
    {
      Cpu(enabled, held, guards)
    }

    constructor (enabled: bool)
      ensures Abs() == Cpu(enabled, {}, []) && Nested(Abs(), enabled) && events == []
    {
      this.enabled, held, guards, events := enabled, {}, [], [];
    }

    method Disable()
      modifies this`enabled, this`events
      ensures !enabled && events == old(events) + [Disabled]
    {
      enabled, events := false, events + [Disabled];
    }

    method Enable()
      modifies this`enabled, this`events
      ensures enabled && events == old(events) + [Enabled]
    {
      enabled, events := true, events + [Enabled];
    }

    method NewIrqGuard()
      modifies this
      ensures Abs() == Acquire(old(Abs()), Irq) && events == old(events) + [Disabled]
    {
      var locked := enabled;
      Disable();
      guards := guards + [Guard(Irq, locked)];
    }

    method Lock(lock: nat)
      requires lock !in held
      modifies this
      ensures Abs() == Acquire(old(Abs()), Plain(lock)) && events == old(events) + [Took(lock)]
    {
      held, events := held + {lock}, events + [Took(lock)];
      guards := guards + [Guard(Plain(lock), false)];
    }

    method LockIrq(lock: nat)
      requires lock !in held
      modifies this
      ensures Abs() == Acquire(old(Abs()), WithIrq(lock)) && events == old(events) + [Disabled, Took(lock)]
    {
      var irqLock := enabled;
      Disable();
      held, events := held + {lock}, events + [Took(lock)];
      guards := guards + [Guard(WithIrq(lock), irqLock)];
    }

    method DropIrqGuard(i: nat)
      requires i < |guards| && guards[i].kind.Irq?
      modifies this
      ensures Abs() == Drop(old(Abs()), i)
      ensures events == old(events) + if old(guards[i].saved) then [Enabled] else []
    {
      var guard := guards[i];
      guards := guards[..i] + guards[i + 1..];
      if guard.saved {
        Enable();
      }
    }

    /** The lock is given back before interrupts come on again. */
    method DropMutexGuard(i: nat)
      requires i < |guards| && !guards[i].kind.Irq?
      modifies this
      ensures Abs() == Drop(old(Abs()), i)
      ensures events == old(events) + [Gave(old(guards[i].kind.lock))] + if old(guards[i].saved) then [Enabled] else []
    {
      var guard := guards[i];
      held, events := held - {guard.kind.lock}, events + [Gave(guard.kind.lock)];
      guards := guards[..i] + guards[i + 1..];
      if guard.saved {
        Enable();
      }
    }
  }
}
