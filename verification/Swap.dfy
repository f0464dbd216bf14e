/**
 * The atomic swap __swp as a transition system: any number of threads run the load-exclusive/store-exclusive loop
 * on one location, their steps interleave freely, reservations may be lost at any moment, and other code may store
 * to the location.  Exclusives follow section A3.4 of the ARMv7-A Architecture Reference Manual.
 */
module Swap {

  type Word = n: nat | n < 0x1_0000_0000

  /** Where a thread is: before the load, between load and store, or finished with its result. */
  datatype Phase = Ready | Loaded(v: Word) | Done(v: Word)

  datatype Thread = Thread(x: Word, phase: Phase)

  datatype State = State(cell: Word, threads: seq<Thread>, reserved: set<nat>)

  datatype Step =
    | Load(t: nat)      // ldrex by thread t
    | Store(t: nat)     // strex by thread t, which may fail
    | Lose(t: nat)      // the monitor drops t's reservation
    | Write(w: Word)    // a plain store by other code

  predicate Enabled(s: State, step: Step) {
    match step
    case Load(t) => t < |s.threads| && s.threads[t].phase.Ready?
    case Store(t) => t < |s.threads| && s.threads[t].phase.Loaded?
    case Lose(t) => true
    case Write(w) => true
  }

  /** The store of thread t would succeed. */
  predicate Succeeds(s: State, step: Step) { step.Store? && step.t in s.reserved }

  function Next(s: State, step: Step): State
    requires Enabled(s, step)
  {
    match step
    case Load(t) =>
      State(s.cell, s.threads[t := s.threads[t].(phase := Loaded(s.cell))], s.reserved + {t})
    case Store(t) =>
      if t in s.reserved
      then State(s.threads[t].x, s.threads[t := s.threads[t].(phase := Done(s.threads[t].phase.v))], {})
      else s.(threads := s.threads[t := s.threads[t].(phase := Ready)])
    case Lose(t) => s.(reserved := s.reserved - {t})
    case Write(w) => s.(cell := w, reserved := {})
  }

  predicate Initial(s: State) {
    s.reserved == {} && forall t | 0 <= t < |s.threads| :: s.threads[t].phase.Ready?
  }

  predicate Finished(s: State) { forall t | 0 <= t < |s.threads| :: s.threads[t].phase.Done? }

  predicate IsRun(s: State, run: seq<Step>)
    decreases |run|
  {
    run == [] || (Enabled(s, run[0]) && IsRun(Next(s, run[0]), run[1..]))
  }

  function Final(s: State, run: seq<Step>): (end: State)
    requires IsRun(s, run)
    ensures |end.threads| == |s.threads|
    decreases |run|
  {
    if run == [] then s else Final(Next(s, run[0]), run[1..])
  }

  /** The key invariant: a live reservation belongs to a thread that has loaded the value the cell still holds. */
  ghost predicate Inv(s: State) {
    forall t :: t in s.reserved ==> t < |s.threads| && s.threads[t].phase == Loaded(s.cell)
  }

  // ---- Refinement of an atomic exchange

  datatype Slot = Pending(x: Word) | Returned(v: Word)

  /** The abstract machine: a cell and, for every caller, the value to store or the value received. */
  datatype Atomic = Atomic(cell: Word, slots: seq<Slot>)

  function Exchange(a: Atomic, t: nat): Atomic
    requires t < |a.slots| && a.slots[t].Pending?
  {
    Atomic(a.slots[t].x, a.slots[t := Returned(a.cell)])
  }

  function SlotOf(th: Thread): Slot { if th.phase.Done? then Returned(th.phase.v) else Pending(th.x) }

  function Abstract(s: State): Atomic {
    Atomic(s.cell, seq(|s.threads|, i requires 0 <= i < |s.threads| => SlotOf(s.threads[i])))
  }

  /** Every step keeps the invariant and is an exchange when a store succeeds, a plain write, or invisible. */
  lemma StepRefines(s: State, step: Step)
    requires Inv(s) && Enabled(s, step)
    ensures Inv(Next(s, step))
    ensures Abstract(Next(s, step)) ==
            if Succeeds(s, step) then Exchange(Abstract(s), step.t)
            else if step.Write? then Abstract(s).(cell := step.w)
            else Abstract(s)
  {
  }

  datatype Event = Swapped(t: nat, put: Word, got: Word) | Overwrote(w: Word)

  /** What took effect in a run, in order: the exchanges with what each thread returns, and the plain writes. */
  function History(s: State, run: seq<Step>): seq<Event>
    requires IsRun(s, run)
    decreases |run|
  {
    if run == [] then [] else Effect(s, run[0]) + History(Next(s, run[0]), run[1..])
  }

  function Effect(s: State, step: Step): seq<Event>
    requires Enabled(s, step)
  {
    if Succeeds(s, step) then [Swapped(step.t, s.threads[step.t].x, s.threads[step.t].phase.v)]
    else if step.Write? then [Overwrote(step.w)]
    else []
  }

  /** The value an event leaves in the cell. */
  function Left(e: Event): Word { if e.Swapped? then e.put else e.w }

  /** The events of thread t. */
  function OfThread(h: seq<Event>, t: nat): seq<Event> {
    if h == [] then []
    else (if h[0].Swapped? && h[0].t == t then [h[0]] else []) + OfThread(h[1..], t)
  }

  /** The cell before the k-th event of a history that starts from the value start. */
  function Before(h: seq<Event>, start: Word, k: nat): Word
    requires k <= |h|
  {
    if k == 0 then start else Left(h[k - 1])
  }

  /** The k-th event, if it is an exchange, returns what was in the cell before it. */
  predicate ReturnsPrevious(h: seq<Event>, start: Word, k: nat)
    requires k < |h|
  {
    h[k].Swapped? ==> h[k].got == Before(h, start, k)
  }

  /** Linearizability: every exchange returns what the event before it left, or the initial value. */
  lemma {:induction false} Linearizable(s: State, run: seq<Step>)
    requires Inv(s) && IsRun(s, run)
    ensures var h := History(s, run);
            && (forall k | 0 <= k < |h| :: ReturnsPrevious(h, s.cell, k))
            && Final(s, run).cell == Before(h, s.cell, |h|)
    decreases |run|
  {
    if run != [] {
      var s', e, h, h' := Next(s, run[0]), Effect(s, run[0]), History(s, run), History(Next(s, run[0]), run[1..]);
      StepRefines(s, run[0]);
      Linearizable(s', run[1..]);
      EffectIsAtomic(s, run[0]);
      if e == [] {
        assert h == h';
      } else {
        assert h == e + h';
        forall k | 0 <= k < |h| ensures ReturnsPrevious(h, s.cell, k) {
          if k > 0 { assert ReturnsPrevious(h', s'.cell, k - 1) && h[k] == h'[k - 1]; }
        }
      }
    }
  }

  /** A step either leaves the cell alone, or is one event that takes the cell's value and leaves the new one. */
  lemma EffectIsAtomic(s: State, step: Step)
    requires Inv(s) && Enabled(s, step)
    ensures var e := Effect(s, step);
            if e == [] then Next(s, step).cell == s.cell
            else |e| == 1 && Left(e[0]) == Next(s, step).cell && (e[0].Swapped? ==> e[0].got == s.cell)
  {
  }

  /** What thread t does in a step: its one exchange when it finishes, and nothing else. */
  lemma OwnEffect(s: State, step: Step, t: nat)
    requires Inv(s) && Enabled(s, step) && t < |s.threads|
    ensures var th, th' := s.threads[t], Next(s, step).threads[t];
            && th'.x == th.x
            && (th.phase.Done? ==> th' == th)
            && OfThread(Effect(s, step), t) ==
               if th.phase.Done? || !th'.phase.Done? then [] else [Swapped(t, th.x, th'.phase.v)]
  {
  }

  lemma OfThreadAppend(e: seq<Event>, h: seq<Event>, t: nat)
    requires |e| <= 1
    ensures OfThread(e + h, t) == OfThread(e, t) + OfThread(h, t)
  {
    if e == [] { assert e + h == h; } else { assert (e + h)[1..] == h; }
  }

  /** A thread's only event is its one exchange, and it has it exactly when it has returned, with that result. */
  lemma {:induction false} ReturnsOnce(s: State, run: seq<Step>, t: nat)
    requires Inv(s) && IsRun(s, run) && t < |s.threads|
    ensures var last := Final(s, run).threads[t];
            && last.x == s.threads[t].x
            && (s.threads[t].phase.Done? ==> last == s.threads[t])
            && OfThread(History(s, run), t) ==
               if s.threads[t].phase.Done? || !last.phase.Done? then []
               else [Swapped(t, s.threads[t].x, last.phase.v)]
    decreases |run|
  {
    if run != [] {
      StepRefines(s, run[0]);
      OwnEffect(s, run[0], t);
      OfThreadAppend(Effect(s, run[0]), History(Next(s, run[0]), run[1..]), t);
      ReturnsOnce(Next(s, run[0]), run[1..], t);
    }
  }

  /** The abstract machine goes from a to b by performing the events of h, each returning what h says. */
  ghost predicate Performs(a: Atomic, h: seq<Event>, b: Atomic)
    decreases |h|
  {
    if h == [] then a == b
    else match h[0]
      case Swapped(t, put, got) =>
        && t < |a.slots| && a.slots[t] == Pending(put) && got == a.cell
        && Performs(Exchange(a, t), h[1..], b)
      case Overwrote(w) => Performs(a.(cell := w), h[1..], b)
  }

  /** Every run of the retry loops is a run of the atomic exchange. */
  lemma {:induction false} RunRefines(s: State, run: seq<Step>)
    requires Inv(s) && IsRun(s, run)
    ensures Performs(Abstract(s), History(s, run), Abstract(Final(s, run)))
    decreases |run|
  {
    if run != [] {
      var e, h' := Effect(s, run[0]), History(Next(s, run[0]), run[1..]);
      StepRefines(s, run[0]);
      RunRefines(Next(s, run[0]), run[1..]);
      if e != [] { assert (e + h')[1..] == h'; } else { assert e + h' == h'; }
    }
  }

  // ---- Conservation

  /** What a thread holds: the value it still has to store, or the one it has received. */
  function Holding(th: Thread): Word { if th.phase.Done? then th.phase.v else th.x }

  function Holdings(threads: seq<Thread>): seq<Word> {
    seq(|threads|, i requires 0 <= i < |threads| => Holding(threads[i]))
  }

  /** All values in the system. */
  function Total(s: State): multiset<Word> { multiset{s.cell} + multiset(Holdings(s.threads)) }

  /** The values plain writes bring in, and the ones they destroy. */
  function BroughtIn(run: seq<Step>): multiset<Word> {
    if run == [] then multiset{}
    else (if run[0].Write? then multiset{run[0].w} else multiset{}) + BroughtIn(run[1..])
  }

  function Destroyed(s: State, run: seq<Step>): multiset<Word>
    requires IsRun(s, run)
    decreases |run|
  {
    if run == [] then multiset{}
    else (if run[0].Write? then multiset{s.cell} else multiset{}) + Destroyed(Next(s, run[0]), run[1..])
  }

  lemma HoldingsUpdate(threads: seq<Thread>, t: nat, th: Thread)
    requires t < |threads|
    ensures Holdings(threads[t := th]) == Holdings(threads)[t := Holding(th)]
  {
  }

  lemma StepConserves(s: State, step: Step)
    requires Inv(s) && Enabled(s, step)
    ensures if step.Write? then Total(Next(s, step)) + multiset{s.cell} == Total(s) + multiset{step.w}
            else Total(Next(s, step)) == Total(s)
  {
    if step.Load? || step.Store? {
      var th := Next(s, step).threads[step.t];
      HoldingsUpdate(s.threads, step.t, th);
      assert Holdings(s.threads)[step.t] == Holding(s.threads[step.t]);
      if !Succeeds(s, step) {
        assert Holdings(Next(s, step).threads) == Holdings(s.threads);
      }
    }
  }

  /** No value is lost or duplicated: only plain writes change what is in the system, one value for another. */
  lemma {:induction false} Conservation(s: State, run: seq<Step>)
    requires Inv(s) && IsRun(s, run)
    ensures Total(Final(s, run)) + Destroyed(s, run) == Total(s) + BroughtIn(run)
    decreases |run|
  {
    if run != [] {
      StepRefines(s, run[0]);
      StepConserves(s, run[0]);
      Conservation(Next(s, run[0]), run[1..]);
      Shuffle(Total(s), Total(Next(s, run[0])), Total(Final(s, run)),
              if run[0].Write? then multiset{s.cell} else multiset{}, Destroyed(Next(s, run[0]), run[1..]),
              if run[0].Write? then multiset{run[0].w} else multiset{}, BroughtIn(run[1..]));
    }
  }

  lemma Shuffle(first: multiset<Word>, second: multiset<Word>, last: multiset<Word>,
                out1: multiset<Word>, out2: multiset<Word>, in1: multiset<Word>, in2: multiset<Word>)
    requires second + out1 == first + in1 && last + out2 == second + in2
    ensures last + (out1 + out2) == first + (in1 + in2)
  {
    assert last + (out1 + out2) == (last + out2) + out1;
    assert (second + in2) + out1 == (second + out1) + in2;
  }

  predicate Undisturbed(run: seq<Step>) { forall k | 0 <= k < |run| :: !run[k].Write? }

  lemma {:induction false} NothingBroughtIn(s: State, run: seq<Step>)
    requires IsRun(s, run) && Undisturbed(run)
    ensures BroughtIn(run) == multiset{} && Destroyed(s, run) == multiset{}
    decreases |run|
  {
    if run != [] {
      assert Undisturbed(run[1..]) by { assert forall k | 0 <= k < |run[1..]| :: run[1..][k] == run[k + 1]; }
      NothingBroughtIn(Next(s, run[0]), run[1..]);
    }
  }

  /**
   * The swap as a lock: when the cell holds the only copy of a value that no caller stores, as the zero of a free
   * lock, at most one thread gets that value, and the cell has lost it by then.
   */
  lemma OneWinner(s: State, run: seq<Step>, free: Word, t: nat, u: nat)
    requires Initial(s) && IsRun(s, run) && Undisturbed(run)
    requires s.cell == free && forall i | 0 <= i < |s.threads| :: s.threads[i].x != free
    requires t < |s.threads| && u < |s.threads|
    requires Final(s, run).threads[t].phase == Done(free)
    ensures Final(s, run).cell != free
    ensures Final(s, run).threads[u].phase == Done(free) ==> u == t
  {
    Conservation(s, run);
    NothingBroughtIn(s, run);
    var end := Final(s, run);
    var hs := Holdings(end.threads);
    assert free !in multiset(Holdings(s.threads));
    assert Total(end) == Total(s) by {
      assert Total(end) + multiset{} == Total(end) && Total(s) + multiset{} == Total(s);
    }
    assert Total(end)[free] == 1;
    assert hs[t] == free;
    assert multiset(hs)[free] >= 1;
    if u != t && end.threads[u].phase == Done(free) {
      assert hs[u] == free;
      TwoCopies(hs, t, u);
    }
  }

  lemma TwoCopies(s: seq<Word>, i: nat, j: nat)
    requires i < |s| && j < |s| && i != j && s[i] == s[j]
    ensures multiset(s)[s[i]] >= 2
  {
    var lo, hi := if i < j then i else j, if i < j then j else i;
    assert s == s[..hi] + s[hi..];
    assert s[..hi][lo] == s[i] && s[hi..][0] == s[i];
  }

  // ---- Progress

  function Count(b: bool): nat { if b then 1 else 0 }

  /** Unfinished threads among the first n. */
  function Unfinished(threads: seq<Thread>, n: nat): (u: nat)
    requires n <= |threads|
    ensures u <= n
  {
    if n == 0 then 0 else Unfinished(threads, n - 1) + Count(!threads[n - 1].phase.Done?)
  }

  /** How many of its own steps a thread needs if nobody interferes: a lost reservation costs a failed store first. */
  function Distance(th: Thread, live: bool): nat {
    match th.phase
    case Ready => 2
    case Loaded(_) => if live then 1 else 3
    case Done(_) => 0
  }

  function Distances(threads: seq<Thread>, reserved: set<nat>, n: nat): nat
    requires n <= |threads|
  {
    if n == 0 then 0
    else Distances(threads, reserved, n - 1) + Distance(threads[n - 1], (n - 1) in reserved)
  }

  /** The work left: the distances, and two steps for every pair of unfinished threads that may still collide. */
  function Work(s: State): int {
    var u := Unfinished(s.threads, |s.threads|);
    Distances(s.threads, s.reserved, |s.threads|) + u * (u - 1)
  }

  predicate OwnStep(step: Step) { step.Load? || step.Store? }

  lemma {:induction false} Change(threads: seq<Thread>, reserved: set<nat>, t: nat, th: Thread, reserved': set<nat>, n: nat)
    requires n <= |threads| && t < |threads|
    requires forall i | 0 <= i < |threads| && i != t :: i in reserved' <==> i in reserved
    ensures Unfinished(threads[t := th], n) ==
            Unfinished(threads, n) + if t < n then Count(!th.phase.Done?) - Count(!threads[t].phase.Done?) else 0
    ensures Distances(threads[t := th], reserved', n) ==
            Distances(threads, reserved, n) +
            if t < n then Distance(th, t in reserved') - Distance(threads[t], t in reserved) else 0
  {
    if n > 0 { Change(threads, reserved, t, th, reserved', n - 1); }
  }

  /** Dropping all reservations sets no unfinished thread back by more than two steps. */
  lemma {:induction false} Dropped(threads: seq<Thread>, reserved: set<nat>, n: nat)
    requires n <= |threads|
    ensures Distances(threads, {}, n) <= Distances(threads, reserved, n) + 2 * Unfinished(threads, n)
  {
    if n > 0 { Dropped(threads, reserved, n - 1); }
  }

  lemma {:induction false} SomeUnfinished(threads: seq<Thread>, t: nat, n: nat)
    requires t < n <= |threads| && !threads[t].phase.Done?
    ensures Unfinished(threads, n) >= 1
  {
    if t < n - 1 { SomeUnfinished(threads, t, n - 1); }
  }

  /** Every step of a thread reduces the work, whatever it collides with. */
  lemma OwnStepWorks(s: State, step: Step)
    requires Inv(s) && Enabled(s, step) && OwnStep(step)
    ensures Work(Next(s, step)) <= Work(s) - 1
  {
    hide Distances, Unfinished;
    var s', n := Next(s, step), |s.threads|;
    if Succeeds(s, step) {
      // First the successful thread finishes, then all others lose their reservations.
      var without := s.reserved - {step.t};
      Change(s.threads, s.reserved, step.t, s'.threads[step.t], without, n);
      Dropped(s'.threads, without, n);
      var u: int := Unfinished(s.threads, n);
      assert Unfinished(s'.threads, n) == u - 1;
      assert (u - 1) * (u - 2) == u * (u - 1) - 2 * (u - 1);
    } else {
      Change(s.threads, s.reserved, step.t, s'.threads[step.t], s'.reserved, n);
    }
  }

  lemma InterferenceCosts(s: State, step: Step)
    requires !OwnStep(step)
    ensures Work(Next(s, step)) <= Work(s) + if step.Lose? then 2 else 2 * |s.threads|
  {
    var n := |s.threads|;
    if step.Write? {
      Dropped(s.threads, s.reserved, n);
    } else if step.t < n {
      assert s.threads[step.t := s.threads[step.t]] == s.threads;
      Change(s.threads, s.reserved, step.t, s.threads[step.t], s.reserved - {step.t}, n);
    } else {
      SameBelow(s.threads, s.reserved, s.reserved - {step.t}, n);
    }
  }

  lemma {:induction false} SameBelow(threads: seq<Thread>, reserved: set<nat>, reserved': set<nat>, n: nat)
    requires n <= |threads|
    requires forall i | 0 <= i < |threads| :: i in reserved' <==> i in reserved
    ensures Distances(threads, reserved', n) == Distances(threads, reserved, n)
  {
    if n > 0 { SameBelow(threads, reserved, reserved', n - 1); }
  }

  function OwnSteps(run: seq<Step>): nat { if run == [] then 0 else Count(OwnStep(run[0])) + OwnSteps(run[1..]) }

  function Losses(run: seq<Step>): nat { if run == [] then 0 else Count(run[0].Lose?) + Losses(run[1..]) }

  function Writes(run: seq<Step>): nat { if run == [] then 0 else Count(run[0].Write?) + Writes(run[1..]) }

  /** The steps that interference may add. */
  function Allowance(n: nat, losses: nat, writes: nat): nat { 2 * losses + 2 * n * writes }

  lemma AllowanceGrows(n: nat, losses: nat, writes: nat)
    ensures Allowance(n, losses + 1, writes) == Allowance(n, losses, writes) + 2
    ensures Allowance(n, losses, writes + 1) == Allowance(n, losses, writes) + 2 * n
  {
  }

  lemma {:induction false} WorkBound(s: State, run: seq<Step>)
    requires Inv(s) && IsRun(s, run)
    ensures OwnSteps(run) + Work(Final(s, run)) <= Work(s) + Allowance(|s.threads|, Losses(run), Writes(run))
    decreases |run|
  {
    if run != [] {
      StepRefines(s, run[0]);
      if OwnStep(run[0]) { OwnStepWorks(s, run[0]); } else { InterferenceCosts(s, run[0]); }
      WorkBound(Next(s, run[0]), run[1..]);
      AllowanceGrows(|s.threads|, Losses(run[1..]), Writes(run[1..]));
    }
  }

  lemma {:induction false} InitialWork(threads: seq<Thread>, n: nat)
    requires n <= |threads| && forall t | 0 <= t < |threads| :: threads[t].phase.Ready?
    ensures Unfinished(threads, n) == n && Distances(threads, {}, n) == 2 * n
  {
    if n > 0 { InitialWork(threads, n - 1); }
  }

  lemma WorkIsNatural(s: State)
    ensures Work(s) >= 0
  {
    var u := Unfinished(s.threads, |s.threads|);
    if u > 0 { assert u * (u - 1) >= 0; }
  }

  /**
   * Progress: n threads take at most n(n+1) steps between them, plus two for every lost reservation and 2n for
   * every plain write.  Without interference every schedule therefore ends.
   */
  lemma Progress(s: State, run: seq<Step>)
    requires Initial(s) && IsRun(s, run)
    ensures var n := |s.threads|; OwnSteps(run) <= n * (n + 1) + Allowance(n, Losses(run), Writes(run))
  {
    var n := |s.threads|;
    InitialWork(s.threads, n);
    assert Work(s) == 2 * n + n * (n - 1) == n * (n + 1);
    WorkBound(s, run);
    WorkIsNatural(Final(s, run));
  }

  /** A schedule can only stop when every thread has returned. */
  lemma NoDeadlock(s: State)
    ensures Finished(s) <==> forall step :: OwnStep(step) ==> !Enabled(s, step)
  {
    if !Finished(s) {
      var t :| 0 <= t < |s.threads| && !s.threads[t].phase.Done?;
      assert Enabled(s, Load(t)) || Enabled(s, Store(t));
    }
  }

  // ---- The bound is attained

  lemma Prepend(s: State, step: Step, rest: seq<Step>) returns (run: seq<Step>)
    requires Enabled(s, step) && OwnStep(step) && IsRun(Next(s, step), rest)
    ensures IsRun(s, run) && Final(s, run) == Final(Next(s, step), rest)
    ensures OwnSteps(run) == 1 + OwnSteps(rest) && Losses(run) == Losses(rest) && Writes(run) == Writes(rest)
  {
    run := [step] + rest;
    assert run[1..] == rest;
  }

  /** Threads below done have returned, those from done up to next hold reservations, the others are ready. */
  ghost predicate Loading(s: State, done: nat, next: nat) {
    && done <= next <= |s.threads|
    && (forall t | 0 <= t < done :: s.threads[t].phase.Done?)
    && (forall t | done <= t < next :: s.threads[t].phase.Loaded? && t in s.reserved)
    && (forall t | next <= t < |s.threads| :: s.threads[t].phase.Ready?)
  }

  /** Threads below done have returned, those from done up to next are ready, the others have lost their reservations. */
  ghost predicate Failing(s: State, done: nat, next: nat) {
    && done <= next <= |s.threads| && s.reserved == {}
    && (forall t | 0 <= t < done :: s.threads[t].phase.Done?)
    && (forall t | done <= t < next :: s.threads[t].phase.Ready?)
    && (forall t | next <= t < |s.threads| :: s.threads[t].phase.Loaded?)
  }

  /** All threads load, one stores, and the stores of all others fail. */
  lemma LoadingRounds(s: State, done: nat, next: nat) returns (run: seq<Step>)
    requires Loading(s, done, next)
    ensures IsRun(s, run) && Finished(Final(s, run)) && Losses(run) == 0 && Writes(run) == 0
    ensures var n := |s.threads|; OwnSteps(run) == (n - done) * (n - done + 1) - (next - done)
    decreases |s.threads| - done, 1, |s.threads| - next
  {
    var n := |s.threads|;
    if next < n {
      var rest := LoadingRounds(Next(s, Load(next)), done, next + 1);
      run := Prepend(s, Load(next), rest);
    } else if done < n {
      var rest := FailingRounds(Next(s, Store(done)), done + 1, done + 1);
      run := Prepend(s, Store(done), rest);
      assert (n - done) * (n - done + 1) == (n - done - 1) * (n - done) + 2 * (n - done);
    } else {
      run := [];
    }
  }

  lemma FailingRounds(s: State, done: nat, next: nat) returns (run: seq<Step>)
    requires Failing(s, done, next)
    ensures IsRun(s, run) && Finished(Final(s, run)) && Losses(run) == 0 && Writes(run) == 0
    ensures var n := |s.threads|; OwnSteps(run) == (n - done) * (n - done + 1) + (n - next)
    decreases |s.threads| - done, 2, |s.threads| - next
  {
    if next < |s.threads| {
      var rest := FailingRounds(Next(s, Store(next)), done, next + 1);
      run := Prepend(s, Store(next), rest);
    } else {
      run := LoadingRounds(s, done, done);
    }
  }

  /** Without interference some schedule of n threads takes all n(n+1) steps that Progress allows. */
  lemma ProgressIsTight(s: State) returns (run: seq<Step>)
    requires Initial(s)
    ensures IsRun(s, run) && Losses(run) == 0 && Writes(run) == 0 && Finished(Final(s, run))
    ensures OwnSteps(run) == |s.threads| * (|s.threads| + 1)
  {
    run := LoadingRounds(s, 0, 0);
  }
}
