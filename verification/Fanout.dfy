/** The sink's fan-out: for every event a handler adds to one shared WaitGroup and spawns a
    goroutine per ungrouped trigger and per trigger group; a group's goroutine may add again and
    spawn a goroutine per trigger it selected.  Every goroutine ends with `Done`.

    The system is an interleaving of atomic steps; a thread is known by its place in the list. */
module Fanout {
  import opened Wrappers

  datatype HandlerPc =
    | HAdd                      // before Add(len(mergedTriggers))
    | HSpawn(k: nat)            // spawning ungrouped triggers, k so far
    | HGroupAdd(j: nat)         // before Add(1) for group j
    | HGroupSpawn(j: nat)       // before the go statement for group j
    | HDone

  datatype GroupPc =
    | GChain                    // running the group's interceptors and selecting triggers
    | GAdd(n: nat)              // before the nested Add(n)
    | GSpawn(n: nat, k: nat)    // spawning the selected triggers, k so far
    | GExit(n: nat)             // before the deferred Done
    | GDone(n: nat)

  datatype TriggerPc = TReady | TRan | TDone

  datatype Thread =
    | Handler(triggers: nat, groups: nat, hpc: HandlerPc)
    | Group(parent: nat, index: nat, gpc: GroupPc)
    | Trigger(parent: nat, index: nat, tpc: TriggerPc)

  /** One execution of `processTrigger`, by the thread that selected the trigger and its number there. */
  datatype Run = Run(parent: nat, index: nat)

  datatype State = State(threads: seq<Thread>, counter: int, log: seq<Run>)

  /** What one step of a thread does: its next state, the change of the counter, and possibly a
      new thread or an execution of a trigger. */
  datatype Effect = Effect(next: Thread, delta: int, child: Option<Thread>, run: Option<Run>)

  datatype Action =
    | Arrive(triggers: nat, groups: nat)         // an event whose merge selected so many triggers
    | Move(i: nat, selected: Option<nat>)        // thread i; a group chain stops or selects

  function HandlerStep(me: nat, t: Thread): Option<Effect>
    requires t.Handler?
  {
    match t.hpc
    case HAdd => Some(Effect(t.(hpc := HSpawn(0)), t.triggers, None, None))
    case HSpawn(k) =>
      if k < t.triggers then Some(Effect(t.(hpc := HSpawn(k + 1)), 0, Some(Trigger(me, k, TReady)), None))
      else Some(Effect(t.(hpc := HGroupAdd(0)), 0, None, None))
    case HGroupAdd(j) =>
      if j < t.groups then Some(Effect(t.(hpc := HGroupSpawn(j)), 1, None, None))
      else Some(Effect(t.(hpc := HDone), 0, None, None))
    case HGroupSpawn(j) => Some(Effect(t.(hpc := HGroupAdd(j + 1)), 0, Some(Group(me, j, GChain)), None))
    case HDone => None
  }

  function GroupStep(me: nat, t: Thread, selected: Option<nat>): Option<Effect>
    requires t.Group?
  {
    match t.gpc
    case GChain => Some(Effect(t.(gpc := if selected.Some? then GAdd(selected.value) else GExit(0)), 0, None, None))
    case GAdd(n) => Some(Effect(t.(gpc := GSpawn(n, 0)), n, None, None))
    case GSpawn(n, k) =>
      if k < n then Some(Effect(t.(gpc := GSpawn(n, k + 1)), 0, Some(Trigger(me, k, TReady)), None))
      else Some(Effect(t.(gpc := GExit(n)), 0, None, None))
    case GExit(n) => Some(Effect(t.(gpc := GDone(n)), -1, None, None))
    case GDone(_) => None
  }

  function TriggerStep(t: Thread): Option<Effect>
    requires t.Trigger?
  {
    match t.tpc
    case TReady => Some(Effect(t.(tpc := TRan), 0, None, Some(Run(t.parent, t.index))))
    case TRan => Some(Effect(t.(tpc := TDone), -1, None, None))
    case TDone => None
  }

  function Step(me: nat, t: Thread, selected: Option<nat>): Option<Effect> {
    match t
    case Handler(_, _, _) => HandlerStep(me, t)
    case Group(_, _, _) => GroupStep(me, t, selected)
    case Trigger(_, _, _) => TriggerStep(t)
  }

  predicate Enabled(s: State, a: Action) {
    a.Move? ==> a.i < |s.threads| && Step(a.i, s.threads[a.i], a.selected).Some?
  }

  function Listed<T>(x: Option<T>): seq<T> {
    if x.Some? then [x.value] else []
  }

  function Apply(s: State, a: Action): State
    requires Enabled(s, a)
  {
    match a
    case Arrive(triggers, groups) => s.(threads := s.threads + [Handler(triggers, groups, HAdd)])
    case Move(i, selected) =>
      var e := Step(i, s.threads[i], selected).value;
      State(s.threads[i := e.next] + Listed(e.child), s.counter + e.delta, s.log + Listed(e.run))
  }

  const INITIAL := State([], 0, [])

  /** The state an interleaving leads to; `None` if some step of it was not possible. */
  function After(acts: seq<Action>): Option<State> {
    if acts == [] then Some(INITIAL)
    else
      var last := acts[|acts| - 1];
      var before := After(acts[..|acts| - 1]);
      if before.Some? && Enabled(before.value, last) then Some(Apply(before.value, last)) else None
  }

  // ---- Slots -------------------------------------------------------------------------

  /** WaitGroup slots a thread answers for: its own, and those it has added but not handed on. */
  function Slots(t: Thread): int {
    match t
    case Handler(n, _, pc) => (match pc case HSpawn(k) => n - k case HGroupSpawn(_) => 1 case _ => 0)
    case Group(_, _, pc) => (match pc case GSpawn(n, k) => 1 + n - k case GDone(_) => 0 case _ => 1)
    case Trigger(_, _, pc) => if pc == TDone then 0 else 1
  }

  function TotalSlots(ts: seq<Thread>): int {
    if ts == [] then 0 else TotalSlots(ts[..|ts| - 1]) + Slots(ts[|ts| - 1])
  }

  lemma {:induction false} TotalUpdate(ts: seq<Thread>, i: nat, t: Thread)
    requires i < |ts|
    ensures TotalSlots(ts[i := t]) == TotalSlots(ts) - Slots(ts[i]) + Slots(t)
    decreases |ts|
  {
    var n := |ts| - 1;
    if i == n {
      assert ts[i := t][..n] == ts[..n];
    } else {
      assert ts[i := t][..n] == ts[..n][i := t];
      TotalUpdate(ts[..n], i, t);
    }
  }

  lemma TotalAppend(ts: seq<Thread>, t: Thread)
    ensures TotalSlots(ts + [t]) == TotalSlots(ts) + Slots(t)
  {
    assert (ts + [t])[..|ts|] == ts;
  }

  // ---- Invariants --------------------------------------------------------------------

  predicate InRange(t: Thread) {
    match t
    case Handler(n, g, pc) =>
      (match pc case HSpawn(k) => k <= n case HGroupAdd(j) => j <= g case HGroupSpawn(j) => j < g case _ => true)
    case Group(_, _, pc) => pc.GSpawn? ==> pc.k <= pc.n
    case Trigger(_, _, _) => true
  }

  /** How many triggers (or groups) a thread has spawned. */
  function Spawned(t: Thread, groups: bool): nat {
    match t
    case Handler(n, g, pc) =>
      if groups then (match pc case HGroupAdd(j) => j case HGroupSpawn(j) => j case HDone => g case _ => 0)
      else (match pc case HAdd => 0 case HSpawn(k) => k case _ => n)
    case Group(_, _, pc) =>
      if groups then 0
      else (match pc case GSpawn(_, k) => k case GExit(n) => n case GDone(n) => n case _ => 0)
    case Trigger(_, _, _) => 0
  }

  /** How many triggers (or groups) a thread has selected so far. */
  function Selected(t: Thread, groups: bool): nat {
    match t
    case Handler(n, g, _) => if groups then g else n
    case Group(_, _, pc) => if groups || pc.GChain? then 0 else pc.n
    case Trigger(_, _, _) => 0
  }

  predicate OfKind(t: Thread, groups: bool) {
    if groups then t.Group? else t.Trigger?
  }

  predicate IsChild(t: Thread, p: int, groups: bool, k: int) {
    OfKind(t, groups) && t.parent == p && t.index == k
  }

  ghost predicate HasChild(ts: seq<Thread>, p: int, groups: bool, k: int) {
    exists i :: 0 <= i < |ts| && IsChild(ts[i], p, groups, k)
  }

  /** Every spawned thread was spawned by its parent. */
  ghost predicate ChildrenKnown(ts: seq<Thread>, groups: bool) {
    forall i :: 0 <= i < |ts| && OfKind(ts[i], groups) ==>
      ts[i].parent < |ts| && ts[i].index < Spawned(ts[ts[i].parent], groups)
  }

  ghost predicate ChildrenUnique(ts: seq<Thread>, groups: bool) {
    forall i, j ::
      0 <= i < |ts| && 0 <= j < |ts| && OfKind(ts[i], groups) && IsChild(ts[j], ts[i].parent, groups, ts[i].index) ==>
      i == j
  }

  ghost predicate ChildrenExist(ts: seq<Thread>, groups: bool) {
    forall p, k {:trigger HasChild(ts, p, groups, k)} ::
      0 <= p < |ts| && 0 <= k < Spawned(ts[p], groups) ==> HasChild(ts, p, groups, k)
  }

  ghost predicate Family(ts: seq<Thread>, groups: bool) {
    ChildrenKnown(ts, groups) && ChildrenUnique(ts, groups) && ChildrenExist(ts, groups)
  }

  /** A trigger thread that has executed its trigger. */
  predicate HasRun(t: Thread, r: Run) {
    IsChild(t, r.parent, false, r.index) && t.tpc != TReady
  }

  ghost predicate SomeRun(ts: seq<Thread>, r: Run) {
    exists i :: 0 <= i < |ts| && HasRun(ts[i], r)
  }

  ghost predicate Logged(s: State) {
    forall r :: multiset(s.log)[r] == if SomeRun(s.threads, r) then 1 else 0
  }

  ghost predicate Inv(s: State) {
    && (forall i :: 0 <= i < |s.threads| ==> InRange(s.threads[i]))
    && s.counter == TotalSlots(s.threads)
    && Family(s.threads, false)
    && Family(s.threads, true)
    && Logged(s)
  }

  // ---- Every step keeps them ---------------------------------------------------------

  /** The same goroutine, one step on. */
  predicate SameThread(t: Thread, t': Thread) {
    match t
    case Handler(n, g, _) => t'.Handler? && t'.triggers == n && t'.groups == g
    case Group(p, k, _) => t'.Group? && t'.parent == p && t'.index == k
    case Trigger(p, k, _) => t'.Trigger? && t'.parent == p && t'.index == k
  }

  lemma StepLocal(me: nat, t: Thread, selected: Option<nat>)
    requires InRange(t) && Step(me, t, selected).Some?
    ensures var e := Step(me, t, selected).value;
      && SameThread(t, e.next) && InRange(e.next)
      && (e.child.Some? ==> InRange(e.child.value))
      && Slots(e.next) + (if e.child.Some? then Slots(e.child.value) else 0) == Slots(t) + e.delta
  {
  }

  lemma StepSpawns(me: nat, t: Thread, selected: Option<nat>, groups: bool)
    requires InRange(t) && Step(me, t, selected).Some?
    ensures var e := Step(me, t, selected).value;
      && (e.child.Some? ==> Spawned(e.child.value, groups) == 0)
      && (if e.child.Some? && OfKind(e.child.value, groups)
          then
            IsChild(e.child.value, me, groups, Spawned(t, groups)) && Spawned(e.next, groups) == Spawned(t, groups) + 1
          else Spawned(e.next, groups) == Spawned(t, groups))
  {
  }

  lemma FamilyUpdate(ts: seq<Thread>, i: nat, t: Thread, groups: bool)
    requires i < |ts| && Family(ts, groups) && SameThread(ts[i], t) && Spawned(t, groups) == Spawned(ts[i], groups)
    ensures Family(ts[i := t], groups)
  {
    var us := ts[i := t];
    forall p, k | 0 <= p < |us| && 0 <= k < Spawned(us[p], groups) ensures HasChild(us, p, groups, k) {
      assert HasChild(ts, p, groups, k);
      var c :| 0 <= c < |ts| && IsChild(ts[c], p, groups, k);
      assert IsChild(us[c], p, groups, k);
    }
  }

  lemma FamilyAppend(ts: seq<Thread>, t: Thread, groups: bool)
    requires Family(ts, groups) && !OfKind(t, groups) && Spawned(t, groups) == 0
    ensures Family(ts + [t], groups)
  {
    var us := ts + [t];
    forall p, k | 0 <= p < |us| && 0 <= k < Spawned(us[p], groups) ensures HasChild(us, p, groups, k) {
      assert HasChild(ts, p, groups, k);
      var c :| 0 <= c < |ts| && IsChild(ts[c], p, groups, k);
      assert IsChild(us[c], p, groups, k);
    }
  }

  lemma FamilySpawn(ts: seq<Thread>, i: nat, t: Thread, child: Thread, groups: bool)
    requires i < |ts| && Family(ts, groups) && SameThread(ts[i], t)
    requires Spawned(t, groups) == Spawned(ts[i], groups) + 1 && Spawned(child, groups) == 0
    requires IsChild(child, i, groups, Spawned(ts[i], groups))
    ensures Family(ts[i := t] + [child], groups)
  {
    var us := ts[i := t] + [child];
    var n := |ts|;
    assert us[n] == child;
    forall p, k | 0 <= p < |us| && 0 <= k < Spawned(us[p], groups) ensures HasChild(us, p, groups, k) {
      if p == i && k == Spawned(ts[i], groups) {
        assert IsChild(us[n], p, groups, k);
      } else {
        assert HasChild(ts, p, groups, k);
        var c :| 0 <= c < |ts| && IsChild(ts[c], p, groups, k);
        assert IsChild(us[c], p, groups, k);
      }
    }
  }

  lemma FamilyStep(s: State, i: nat, selected: Option<nat>, groups: bool)
    requires Inv(s) && Enabled(s, Move(i, selected)) && Family(s.threads, groups)
    ensures Family(Apply(s, Move(i, selected)).threads, groups)
  {
    var ts := s.threads;
    var e := Step(i, ts[i], selected).value;
    StepLocal(i, ts[i], selected);
    StepSpawns(i, ts[i], selected, groups);
    if e.child.Some? && OfKind(e.child.value, groups) {
      FamilySpawn(ts, i, e.next, e.child.value, groups);
    } else {
      FamilyUpdate(ts, i, e.next, groups);
      if e.child.Some? {
        FamilyAppend(ts[i := e.next], e.child.value, groups);
      } else {
        assert ts[i := e.next] + [] == ts[i := e.next];
      }
    }
  }

  /** Which runs a step adds to the threads that have run: exactly the one it logs. */
  lemma RunsAfter(s: State, i: nat, selected: Option<nat>, r: Run)
    requires Enabled(s, Move(i, selected))
    ensures var e := Step(i, s.threads[i], selected).value; var ts := Apply(s, Move(i, selected)).threads;
      SomeRun(ts, r) <==> SomeRun(s.threads, r) || e.run == Some(r)
  {
    var ts := s.threads;
    var e := Step(i, ts[i], selected).value;
    var us := Apply(s, Move(i, selected)).threads;
    assert us[i] == e.next;
    assert forall j :: 0 <= j < |ts| && j != i ==> us[j] == ts[j];
    assert HasRun(e.next, r) <==> HasRun(ts[i], r) || e.run == Some(r);
    if SomeRun(ts, r) {
      var j :| 0 <= j < |ts| && HasRun(ts[j], r);
      assert HasRun(us[j], r);
    }
    if e.run == Some(r) { assert HasRun(us[i], r); }
    if SomeRun(us, r) {
      var j :| 0 <= j < |us| && HasRun(us[j], r);
      if j < |ts| && j != i { assert HasRun(ts[j], r); }
    }
  }

  lemma LoggedStep(s: State, i: nat, selected: Option<nat>)
    requires Inv(s) && Enabled(s, Move(i, selected))
    ensures Logged(Apply(s, Move(i, selected)))
  {
    var ts := s.threads;
    var e := Step(i, ts[i], selected).value;
    var s' := Apply(s, Move(i, selected));
    assert multiset(s'.log) == multiset(s.log) + multiset(Listed(e.run));
    forall r ensures multiset(s'.log)[r] == if SomeRun(s'.threads, r) then 1 else 0 {
      hide *;
      RunsAfter(s, i, selected, r);
      if e.run == Some(r) { NotRunYet(s, i, selected, r); }
      LoggedBefore(s, r);
      ListedOnce(e.run, r);
    }
  }

  lemma LoggedBefore(s: State, r: Run)
    requires Inv(s)
    ensures multiset(s.log)[r] == if SomeRun(s.threads, r) then 1 else 0
  {
  }

  lemma ListedOnce(x: Option<Run>, r: Run)
    ensures multiset(Listed(x))[r] == if x == Some(r) then 1 else 0
  {
  }

  /** What a step logs has not run before. */
  lemma NotRunYet(s: State, i: nat, selected: Option<nat>, r: Run)
    requires Inv(s) && Enabled(s, Move(i, selected)) && Step(i, s.threads[i], selected).value.run == Some(r)
    ensures !SomeRun(s.threads, r)
  {
    var ts := s.threads;
    assert Family(ts, false);
    forall j | 0 <= j < |ts| ensures !HasRun(ts[j], r) { }
  }

  lemma CounterStep(s: State, i: nat, selected: Option<nat>)
    requires Inv(s) && Enabled(s, Move(i, selected))
    ensures var s' := Apply(s, Move(i, selected)); s'.counter == TotalSlots(s'.threads)
  {
    var ts := s.threads;
    var e := Step(i, ts[i], selected).value;
    StepLocal(i, ts[i], selected);
    TotalUpdate(ts, i, e.next);
    if e.child.Some? {
      TotalAppend(ts[i := e.next], e.child.value);
    } else {
      assert ts[i := e.next] + [] == ts[i := e.next];
    }
  }

  lemma InvStep(s: State, a: Action)
    requires Inv(s) && Enabled(s, a)
    ensures Inv(Apply(s, a))
  {
    match a
    case Arrive(n, g) =>
      ArriveInv(s, n, g);
    case Move(i, selected) =>
      StepLocal(i, s.threads[i], selected);
      CounterStep(s, i, selected);
      FamilyStep(s, i, selected, false);
      FamilyStep(s, i, selected, true);
      LoggedStep(s, i, selected);
      hide Family, Logged, TotalSlots, Step;
  }

  lemma ArriveInv(s: State, n: nat, g: nat)
    requires Inv(s)
    ensures Inv(Apply(s, Arrive(n, g)))
  {
    var t := Handler(n, g, HAdd);
    TotalAppend(s.threads, t);
    FamilyAppend(s.threads, t, false);
    FamilyAppend(s.threads, t, true);
    forall r ensures SomeRun(s.threads + [t], r) <==> SomeRun(s.threads, r) { SameRuns(s.threads, t, r); }
    hide Family, TotalSlots, SomeRun, HasRun, Spawned, IsChild, OfKind;
  }

  lemma SameRuns(ts: seq<Thread>, t: Thread, r: Run)
    requires t.Handler?
    ensures SomeRun(ts + [t], r) <==> SomeRun(ts, r)
  {
    if SomeRun(ts, r) {
      var j :| 0 <= j < |ts| && HasRun(ts[j], r);
      assert HasRun((ts + [t])[j], r);
    }
  }

  lemma {:induction false} ReachableInv(acts: seq<Action>)
    requires After(acts).Some?
    ensures Inv(After(acts).value)
    decreases |acts|
  {
    if acts != [] {
      var n := |acts| - 1;
      ReachableInv(acts[..n]);
      InvStep(After(acts[..n]).value, acts[n]);
    }
  }

  // ---- Safety of every interleaving --------------------------------------------------

  lemma {:induction false} SlotsBound(ts: seq<Thread>, i: nat)
    requires i < |ts| && forall j :: 0 <= j < |ts| ==> InRange(ts[j])
    ensures 0 <= Slots(ts[i]) <= TotalSlots(ts)
    decreases |ts|
  {
    var n := |ts| - 1;
    SlotsNonNegative(ts[..n]);
    if i < n { SlotsBound(ts[..n], i); }
  }

  lemma {:induction false} SlotsNonNegative(ts: seq<Thread>)
    requires forall j :: 0 <= j < |ts| ==> InRange(ts[j])
    ensures TotalSlots(ts) >= 0
    decreases |ts|
  {
    if ts != [] { SlotsNonNegative(ts[..|ts| - 1]); }
  }

  /** In every interleaving the counter is the number of outstanding slots, never negative, and
      positive whenever a group's goroutine is about to add to it. */
  lemma CounterIsSlots(acts: seq<Action>)
    requires After(acts).Some?
    ensures var s := After(acts).value;
      && s.counter == TotalSlots(s.threads) >= 0
      && forall i :: 0 <= i < |s.threads| && s.threads[i].Group? && s.threads[i].gpc.GAdd? ==> s.counter > 0
  {
    ReachableInv(acts);
    var s := After(acts).value;
    SlotsNonNegative(s.threads);
    forall i | 0 <= i < |s.threads| && s.threads[i].Group? && s.threads[i].gpc.GAdd? ensures s.counter > 0 {
      SlotsBound(s.threads, i);
    }
  }

  /** No thread will spawn or run anything more. */
  predicate Finished(t: Thread) {
    match t
    case Handler(_, _, pc) => pc.HDone?
    case Group(_, _, pc) => pc.GDone?
    case Trigger(_, _, pc) => pc.TDone?
  }

  // ---- What the actions asked for ----------------------------------------------------

  /** Every beginning of an interleaving is one. */
  lemma {:induction false} PrefixRuns(acts: seq<Action>, k: nat)
    requires After(acts).Some? && k <= |acts|
    ensures After(acts[..k]).Some?
    decreases |acts|
  {
    if k == |acts| {
      assert acts[..k] == acts;
    } else {
      var n := |acts| - 1;
      assert acts[..n][..k] == acts[..k];
      PrefixRuns(acts[..n], k);
    }
  }

  /** A step changes what a thread has selected only where a group's chain ends. */
  lemma StepSelects(me: nat, t: Thread, selected: Option<nat>, groups: bool)
    requires InRange(t) && Step(me, t, selected).Some?
    ensures var e := Step(me, t, selected).value;
      if t.Group? && t.gpc.GChain?
      then Selected(t, groups) == 0 && !e.next.gpc.GChain?
           && Selected(e.next, groups) == (if groups || selected.None? then 0 else selected.value)
      else Selected(e.next, groups) == Selected(t, groups) && (t.Group? ==> !e.next.gpc.GChain?)
    ensures var e := Step(me, t, selected).value;
      e.child.Some? ==> Selected(e.child.value, groups) == 0
  {
  }

  /** A thread that is past its choice keeps it to the end. */
  lemma {:induction false} ChoiceStays(acts: seq<Action>, k: nat, i: nat, groups: bool)
    requires After(acts).Some? && k <= |acts| && After(acts[..k]).Some? && i < |After(acts[..k]).value.threads|
    requires var t := After(acts[..k]).value.threads[i]; !(t.Group? && t.gpc.GChain?)
    ensures i < |After(acts).value.threads|
    ensures var t, t' := After(acts[..k]).value.threads[i], After(acts).value.threads[i];
      SameThread(t, t') && Selected(t', groups) == Selected(t, groups) && !(t'.Group? && t'.gpc.GChain?)
    decreases |acts|
  {
    if k == |acts| {
      assert acts[..k] == acts;
    } else {
      var n := |acts| - 1;
      assert acts[..n][..k] == acts[..k];
      PrefixRuns(acts, n);
      ChoiceStays(acts[..n], k, i, groups);
      ReachableInv(acts[..n]);
      OneStepKeepsChoice(After(acts[..n]).value, acts[n], i, groups);
    }
  }

  lemma OneStepKeepsChoice(s: State, a: Action, i: nat, groups: bool)
    requires Inv(s) && Enabled(s, a) && i < |s.threads| && !(s.threads[i].Group? && s.threads[i].gpc.GChain?)
    ensures i < |Apply(s, a).threads|
    ensures var t, t' := s.threads[i], Apply(s, a).threads[i];
      SameThread(t, t') && Selected(t', groups) == Selected(t, groups) && !(t'.Group? && t'.gpc.GChain?)
  {
    assert InRange(s.threads[i]);
    hide Family, Logged, TotalSlots;
    if a.Move? && a.i == i {
      StepSelects(i, s.threads[i], a.selected, groups);
      StepLocal(i, s.threads[i], a.selected);
    }
  }

  /** Action `k` is the end of the chain of group `i`, which selected `n` triggers. */
  predicate GroupChose(acts: seq<Action>, k: nat, i: nat, n: nat) {
    && k < |acts| && acts[k] == Move(i, Some(n)) && After(acts[..k]).Some?
    && i < |After(acts[..k]).value.threads|
    && After(acts[..k]).value.threads[i].Group? && After(acts[..k]).value.threads[i].gpc.GChain?
  }

  /** Action `k` is an event with so many triggers and groups, handled by thread `p`. */
  predicate EventCame(acts: seq<Action>, k: nat, p: nat, triggers: nat, groups: nat) {
    && k < |acts| && acts[k] == Arrive(triggers, groups) && After(acts[..k]).Some?
    && p == |After(acts[..k]).value.threads|
  }

  lemma StepAt(acts: seq<Action>, k: nat)
    requires After(acts).Some? && k < |acts|
    ensures After(acts[..k]).Some? && After(acts[..k + 1]).Some? && Enabled(After(acts[..k]).value, acts[k])
    ensures After(acts[..k + 1]).value == Apply(After(acts[..k]).value, acts[k])
  {
    PrefixRuns(acts, k);
    PrefixRuns(acts, k + 1);
    assert acts[..k + 1][..k] == acts[..k];
  }

  /** What the chain of a group selected is what its goroutine answers for to the end. */
  lemma {:induction false} GroupSelects(acts: seq<Action>, k: nat, i: nat, n: nat)
    requires After(acts).Some? && GroupChose(acts, k, i, n)
    ensures var ts := After(acts).value.threads; i < |ts| && Selected(ts[i], false) == n
  {
    hide After;
    StepAt(acts, k);
    ReachableInv(acts[..k]);
    var s := After(acts[..k]).value;
    assert InRange(s.threads[i]);
    StepSelects(i, s.threads[i], Some(n), false);
    ChoiceStays(acts, k + 1, i, false);
  }

  /** So is what an event came with for its handler. */
  lemma {:induction false} HandlerSelects(acts: seq<Action>, k: nat, p: nat, triggers: nat, groups: nat)
    requires After(acts).Some? && EventCame(acts, k, p, triggers, groups)
    ensures var ts := After(acts).value.threads;
      p < |ts| && Selected(ts[p], false) == triggers && Selected(ts[p], true) == groups
  {
    hide After;
    StepAt(acts, k);
    ChoiceStays(acts, k + 1, p, false);
    ChoiceStays(acts, k + 1, p, true);
  }

  // ---- How many runs there are -------------------------------------------------------

  function Sum(ts: seq<Thread>, f: Thread -> int): int {
    if ts == [] then 0 else Sum(ts[..|ts| - 1], f) + f(ts[|ts| - 1])
  }

  lemma {:induction false} SumUpdate(ts: seq<Thread>, i: nat, t: Thread, f: Thread -> int)
    requires i < |ts|
    ensures Sum(ts[i := t], f) == Sum(ts, f) - f(ts[i]) + f(t)
    decreases |ts|
  {
    var n := |ts| - 1;
    if i == n {
      assert ts[i := t][..n] == ts[..n];
    } else {
      assert ts[i := t][..n] == ts[..n][i := t];
      SumUpdate(ts[..n], i, t, f);
    }
  }

  lemma SumAppend(ts: seq<Thread>, t: Thread, f: Thread -> int)
    ensures Sum(ts + [t], f) == Sum(ts, f) + f(t)
  {
    assert (ts + [t])[..|ts|] == ts;
  }

  lemma {:induction false} SumSame(ts: seq<Thread>, f: Thread -> int, g: Thread -> int)
    requires forall i :: 0 <= i < |ts| ==> f(ts[i]) == g(ts[i])
    ensures Sum(ts, f) == Sum(ts, g)
    decreases |ts|
  {
    if ts != [] { SumSame(ts[..|ts| - 1], f, g); }
  }

  function Chosen(): Thread -> int { t => Selected(t, false) }

  function Started(): Thread -> int { t => Spawned(t, false) }

  function Triggers(): Thread -> int { (t: Thread) => if t.Trigger? then 1 else 0 }

  function Executed(): Thread -> int { (t: Thread) => if t.Trigger? && t.tpc != TReady then 1 else 0 }

  /** Triggers that the actions asked for: with every event, and at the end of every group's chain. */
  function Requested(acts: seq<Action>): nat {
    if acts == [] then 0
    else
      var n := |acts| - 1;
      Requested(acts[..n]) +
      match acts[n]
      case Arrive(triggers, _) => triggers
      case Move(i, selected) =>
        if selected.Some? && GroupChose(acts, n, i, selected.value) then selected.value else 0
  }

  /** How a move changes a sum over the threads. */
  lemma SumMove(s: State, i: nat, selected: Option<nat>, f: Thread -> int)
    requires Enabled(s, Move(i, selected))
    ensures var e := Step(i, s.threads[i], selected).value;
      Sum(Apply(s, Move(i, selected)).threads, f) ==
      Sum(s.threads, f) - f(s.threads[i]) + f(e.next) + (if e.child.Some? then f(e.child.value) else 0)
  {
    var e := Step(i, s.threads[i], selected).value;
    SumUpdate(s.threads, i, e.next, f);
    if e.child.Some? {
      SumAppend(s.threads[i := e.next], e.child.value, f);
    } else {
      assert s.threads[i := e.next] + [] == s.threads[i := e.next];
    }
  }

  /** The books of a state: runs are executed triggers, triggers are started ones. */
  predicate Balanced(s: State) {
    |s.log| == Sum(s.threads, Executed()) && Sum(s.threads, Triggers()) == Sum(s.threads, Started())
  }

  lemma MoveBalances(s: State, i: nat, selected: Option<nat>)
    requires Inv(s) && Balanced(s) && Enabled(s, Move(i, selected))
    ensures Balanced(Apply(s, Move(i, selected)))
  {
    assert InRange(s.threads[i]);
    hide Family, Logged, Sum;
    StepSpawns(i, s.threads[i], selected, false);
    StepRuns(i, s.threads[i], selected);
    SumMove(s, i, selected, Executed());
    SumMove(s, i, selected, Triggers());
    SumMove(s, i, selected, Started());
  }

  lemma StepRuns(me: nat, t: Thread, selected: Option<nat>)
    requires Step(me, t, selected).Some?
    ensures var e := Step(me, t, selected).value;
      && Executed()(e.next) == Executed()(t) + (if e.run.Some? then 1 else 0)
      && Triggers()(e.next) == Triggers()(t)
      && (e.child.Some? ==> Executed()(e.child.value) == 0)
  {
  }

  lemma {:induction false} Books(acts: seq<Action>)
    requires After(acts).Some?
    ensures Balanced(After(acts).value) && Sum(After(acts).value.threads, Chosen()) == Requested(acts)
    decreases |acts|
  {
    if acts != [] {
      var n := |acts| - 1;
      var s := After(acts[..n]).value;
      Books(acts[..n]);
      ReachableInv(acts[..n]);
      match acts[n]
      case Arrive(triggers, groups) =>
        var t := Handler(triggers, groups, HAdd);
        SumAppend(s.threads, t, Executed());
        SumAppend(s.threads, t, Triggers());
        SumAppend(s.threads, t, Started());
        SumAppend(s.threads, t, Chosen());
      case Move(i, selected) =>
        assert InRange(s.threads[i]);
        hide Inv, Sum, Balanced;
        MoveBalances(s, i, selected);
        StepSelects(i, s.threads[i], selected, false);
        SumMove(s, i, selected, Chosen());
    }
  }

  // ---- Zero means done ---------------------------------------------------------------

  /** The handlers have spawned everything and no slot is outstanding. */
  predicate Quiet(s: State) {
    s.counter == 0 && forall i :: 0 <= i < |s.threads| && s.threads[i].Handler? ==> s.threads[i].hpc.HDone?
  }

  /** Some action asked for this run: an event that came with the trigger, or the end of the chain of
      a group that selected it. */
  ghost predicate Asked(acts: seq<Action>, r: Run) {
    || (exists k: nat, t: nat, g: nat :: EventCame(acts, k, r.parent, t, g) && r.index < t)
    || (exists k: nat, n: nat :: GroupChose(acts, k, r.parent, n) && r.index < n)
  }

  /** Some event, handled by thread `p`, came with a group of this number. */
  ghost predicate AskedGroup(acts: seq<Action>, p: nat, j: nat) {
    exists k: nat, t: nat, g: nat :: EventCame(acts, k, p, t, g) && j < g
  }

  /** Once the handlers have spawned everything, the counter is zero only if every goroutine has
      ended; every run that an event or the chain of a group asked for happened exactly once, and no
      other; every group of an event was processed; and there are as many runs as were asked for. */
  lemma ZeroMeansAllRan(acts: seq<Action>)
    requires After(acts).Some? && Quiet(After(acts).value)
    ensures var s := After(acts).value;
      && (forall i :: 0 <= i < |s.threads| ==> Finished(s.threads[i]))
      && (forall r :: multiset(s.log)[r] == if Asked(acts, r) then 1 else 0)
      && (forall p: nat, j: nat :: AskedGroup(acts, p, j) ==> HasChild(s.threads, p, true, j))
      && |s.log| == Requested(acts)
  {
    ReachableInv(acts);
    var s := After(acts).value;
    hide After, Inv, Finished, HasChild, Asked, AskedGroup, Requested, Balanced, Sum;
    forall i | 0 <= i < |s.threads| ensures Finished(s.threads[i]) { ZeroFinishes(s, i); }
    forall r ensures multiset(s.log)[r] == if Asked(acts, r) then 1 else 0 {
      if Asked(acts, r) {
        AskedRan(acts, r);
      } else if r in s.log {
        RanWasSelected(s, r);
        SelectedWasAsked(acts, r.parent, r.index);
      }
    }
    forall p: nat, j: nat | AskedGroup(acts, p, j) ensures HasChild(s.threads, p, true, j) { AskedSpawned(acts, p, j); }
    Books(acts);
    AllDone(s);
  }

  lemma AskedRan(acts: seq<Action>, r: Run)
    requires After(acts).Some? && Asked(acts, r) && Inv(After(acts).value)
    requires forall i :: 0 <= i < |After(acts).value.threads| ==> Finished(After(acts).value.threads[i])
    ensures multiset(After(acts).value.log)[r] == 1
  {
    hide After, Inv, Finished, Selected, EventCame, GroupChose;
    var s := After(acts).value;
    if exists k: nat, t: nat, g: nat :: EventCame(acts, k, r.parent, t, g) && r.index < t {
      var k: nat, t: nat, g: nat :| EventCame(acts, k, r.parent, t, g) && r.index < t;
      HandlerSelects(acts, k, r.parent, t, g);
    } else {
      var k: nat, n: nat :| GroupChose(acts, k, r.parent, n) && r.index < n;
      GroupSelects(acts, k, r.parent, n);
    }
    SelectedRan(s, r.parent, r.index);
  }

  lemma AskedLater(acts: seq<Action>, n: nat, r: Run)
    requires n <= |acts| && Asked(acts[..n], r)
    ensures Asked(acts, r)
  {
    hide After;
    if exists k: nat, t: nat, g: nat :: EventCame(acts[..n], k, r.parent, t, g) && r.index < t {
      var k: nat, t: nat, g: nat :| EventCame(acts[..n], k, r.parent, t, g) && r.index < t;
      assert acts[..n][..k] == acts[..k];
      assert EventCame(acts, k, r.parent, t, g);
    } else {
      var k: nat, m: nat :| GroupChose(acts[..n], k, r.parent, m) && r.index < m;
      assert acts[..n][..k] == acts[..k];
      assert GroupChose(acts, k, r.parent, m);
    }
  }

  /** What a thread answers for, some action asked for. */
  lemma {:induction false} SelectedWasAsked(acts: seq<Action>, p: nat, x: nat)
    requires After(acts).Some? && p < |After(acts).value.threads| && x < Selected(After(acts).value.threads[p], false)
    ensures Asked(acts, Run(p, x))
    decreases |acts|
  {
    if acts != [] {
      var n := |acts| - 1;
      var s := After(acts[..n]).value;
      ReachableInv(acts[..n]);
      if p < |s.threads| && x < Selected(s.threads[p], false) {
        SelectedWasAsked(acts[..n], p, x);
        AskedLater(acts, n, Run(p, x));
      } else {
        NewlyAsked(s, acts[n], p, x);
        assert acts[n].Arrive? ==> EventCame(acts, n, p, acts[n].triggers, acts[n].groups);
        assert acts[n].Move? ==> GroupChose(acts, n, p, acts[n].selected.value);
      }
    }
  }

  lemma NewlyAsked(s: State, a: Action, p: nat, x: nat)
    requires Inv(s) && Enabled(s, a) && p < |Apply(s, a).threads| && x < Selected(Apply(s, a).threads[p], false)
    requires p < |s.threads| ==> x >= Selected(s.threads[p], false)
    ensures a.Arrive? ==> p == |s.threads| && x < a.triggers
    ensures a.Move? ==>
      && p == a.i && s.threads[p].Group? && s.threads[p].gpc.GChain?
      && a.selected.Some? && x < a.selected.value
  {
    if a.Move? {
      assert InRange(s.threads[a.i]);
      hide Family, Logged, TotalSlots;
      StepSelects(a.i, s.threads[a.i], a.selected, false);
    }
  }

  lemma AskedSpawned(acts: seq<Action>, p: nat, j: nat)
    requires After(acts).Some? && AskedGroup(acts, p, j) && Inv(After(acts).value)
    requires forall i :: 0 <= i < |After(acts).value.threads| ==> Finished(After(acts).value.threads[i])
    ensures HasChild(After(acts).value.threads, p, true, j)
  {
    hide After, Inv, Finished, Selected, EventCame;
    var k: nat, t: nat, g: nat :| EventCame(acts, k, p, t, g) && j < g;
    HandlerSelects(acts, k, p, t, g);
    SelectedSpawned(After(acts).value, p, j, true);
  }

  lemma AllDone(s: State)
    requires Balanced(s) && forall i :: 0 <= i < |s.threads| ==> Finished(s.threads[i])
    ensures |s.log| == Sum(s.threads, Chosen())
  {
    hide Sum;
    SumSame(s.threads, Executed(), Triggers());
    SumSame(s.threads, Started(), Chosen());
  }

  lemma ZeroFinishes(s: State, i: nat)
    requires Inv(s) && s.counter == 0 && i < |s.threads|
    requires s.threads[i].Handler? ==> s.threads[i].hpc.HDone?
    ensures Finished(s.threads[i])
  {
    assert InRange(s.threads[i]);
    hide Family, Logged;
    SlotsBound(s.threads, i);
  }

  /** A finished thread has spawned all it selected. */
  lemma SelectedSpawned(s: State, p: nat, k: nat, groups: bool)
    requires Inv(s) && p < |s.threads| && Finished(s.threads[p]) && k < Selected(s.threads[p], groups)
    ensures HasChild(s.threads, p, groups, k)
  {
    assert Selected(s.threads[p], groups) == Spawned(s.threads[p], groups);
    assert Family(s.threads, groups);
  }

  lemma SelectedRan(s: State, p: nat, k: nat)
    requires Inv(s) && p < |s.threads| && forall i :: 0 <= i < |s.threads| ==> Finished(s.threads[i])
    requires k < Selected(s.threads[p], false)
    ensures multiset(s.log)[Run(p, k)] == 1
  {
    SelectedSpawned(s, p, k, false);
    hide Family;
    var i :| 0 <= i < |s.threads| && IsChild(s.threads[i], p, false, k);
    assert Finished(s.threads[i]);
    assert HasRun(s.threads[i], Run(p, k));
  }

  lemma RanWasSelected(s: State, r: Run)
    requires Inv(s) && r in s.log && forall i :: 0 <= i < |s.threads| ==> Finished(s.threads[i])
    ensures r.parent < |s.threads| && r.index < Selected(s.threads[r.parent], false)
  {
    assert r in multiset(s.log);
    assert SomeRun(s.threads, r);
    var i :| 0 <= i < |s.threads| && HasRun(s.threads[i], r);
    assert Finished(s.threads[s.threads[i].parent]);
  }

  /** In every state of every interleaving no trigger has run twice. */
  lemma NeverTwice(acts: seq<Action>, r: Run)
    requires After(acts).Some?
    ensures multiset(After(acts).value.log)[r] <= 1
  {
    ReachableInv(acts);
  }

  /** While the counter is positive some thread can move: waiting for zero cannot deadlock. */
  lemma {:induction false} PositiveCanMove(ts: seq<Thread>) returns (i: nat)
    requires TotalSlots(ts) > 0 && forall j :: 0 <= j < |ts| ==> InRange(ts[j])
    ensures i < |ts| && !Finished(ts[i]) && forall selected :: Step(i, ts[i], selected).Some?
    decreases |ts|
  {
    var n := |ts| - 1;
    if Slots(ts[n]) > 0 {
      i := n;
    } else {
      i := PositiveCanMove(ts[..n]);
    }
  }
}
