/** The retry loop of __swp over a memory location, tied to the transition system of module Swap. */
module SwapLoop {
  import opened Swap

  /** What others do to the location between a load and the following store. */
  datatype Interference = Wrote(w: Word) | Lost

  /** A memory word with this thread's exclusive monitor. */
  class Location {
    var value: Word
    var reserved: bool

    method LoadExclusive() returns (v: Word)
      modifies this
      ensures v == value == old(value) && reserved
    {
      reserved := true;
      v := value;
    }

    method StoreExclusive(x: Word) returns (failed: bool)
      modifies this
      ensures failed == !old(reserved) && !reserved
      ensures value == if failed then old(value) else x
    {
      failed := !reserved;
      if reserved { value := x; }
      reserved := false;
    }

    method Disturb(actions: seq<Interference>)
      modifies this
      ensures value == After(old(value), actions) && reserved == (old(reserved) && actions == [])
    {
      for i := 0 to |actions|
        invariant After(old(value), actions) == After(value, actions[i..])
        invariant reserved == (old(reserved) && i == 0)
      {
        match actions[i] {
          case Wrote(w) => value := w;
          case Lost =>
        }
        reserved := false;
      }
    }

    /** env[i] happens during the i-th attempt; attempts beyond env are left alone. */
    method Swp(x: Word, env: seq<seq<Interference>>) returns (v: Word)
      modifies this
      ensures value == x && !reserved
      ensures IsRun(Alone(old(value), x), Attempts(env))
      ensures Final(Alone(old(value), x), Attempts(env)) == Finish(x, v)
    {
      Round(value, x, env);
      v := 0;
      var i := 0;
      var failed := true;
      while failed
        invariant 0 <= i <= |env| + 1
        invariant failed ==> i <= |env| && IsRun(Alone(value, x), Attempts(env[i..]))
        invariant failed ==>
            Final(Alone(old(value), x), Attempts(env)) == Final(Alone(value, x), Attempts(env[i..]))
        invariant !failed ==>
            value == x && !reserved && Final(Alone(old(value), x), Attempts(env)) == Finish(x, v)
        decreases |env| + 1 - i, failed
      {
        Round(value, x, env[i..]);
        v := LoadExclusive();
        if i < |env| { Disturb(env[i]); }
        failed := StoreExclusive(x);
        i := i + 1;
      }
    }
  }

  function After(v: Word, actions: seq<Interference>): Word
    decreases |actions|
  {
    if actions == [] then v else After(if actions[0].Wrote? then actions[0].w else v, actions[1..])
  }

  /** One thread about to start its loop, and the same thread when it has returned v. */
  function Alone(cell: Word, x: Word): State { State(cell, [Thread(x, Ready)], {}) }

  function Finish(x: Word, v: Word): State { State(x, [Thread(x, Done(v))], {}) }

  function AsSteps(actions: seq<Interference>): seq<Step> {
    seq(|actions|, i requires 0 <= i < |actions| => if actions[i].Wrote? then Write(actions[i].w) else Lose(0))
  }

  /** The steps of the loop and its environment: one attempt after the other up to the first undisturbed one. */
  function Attempts(env: seq<seq<Interference>>): seq<Step> {
    if env == [] || env[0] == [] then [Load(0), Store(0)]
    else [Load(0)] + (AsSteps(env[0]) + ([Store(0)] + Attempts(env[1..])))
  }

  lemma {:induction false} DisturbedRun(s: State, actions: seq<Interference>, rest: seq<Step>)
    requires actions != [] || s.reserved == {}
    requires s.reserved <= {0}
    requires IsRun(State(After(s.cell, actions), s.threads, {}), rest)
    ensures IsRun(s, AsSteps(actions) + rest)
    ensures Final(s, AsSteps(actions) + rest) == Final(State(After(s.cell, actions), s.threads, {}), rest)
    decreases |actions|
  {
    if actions == [] {
      assert AsSteps(actions) + rest == rest;
    } else {
      var step := AsSteps(actions)[0];
      assert (AsSteps(actions) + rest)[1..] == AsSteps(actions[1..]) + rest;
      DisturbedRun(Next(s, step), actions[1..], rest);
    }
  }

  /** One attempt: undisturbed it returns the value it loaded, disturbed it starts over from the value left behind. */
  lemma {:induction false} Round(cell: Word, x: Word, env: seq<seq<Interference>>)
    ensures IsRun(Alone(cell, x), Attempts(env))
    ensures env != [] && env[0] != [] ==> IsRun(Alone(After(cell, env[0]), x), Attempts(env[1..]))
    ensures Final(Alone(cell, x), Attempts(env)) ==
            if env == [] || env[0] == [] then Finish(x, cell)
            else Final(Alone(After(cell, env[0]), x), Attempts(env[1..]))
    decreases |env|
  {
    var s1 := Next(Alone(cell, x), Load(0));
    assert s1 == State(cell, [Thread(x, Loaded(cell))], {0});
    if env == [] || env[0] == [] {
      assert Attempts(env)[1..] == [Store(0)];
      assert Next(s1, Store(0)) == Finish(x, cell);
      assert IsRun(s1, [Store(0)]) && Final(s1, [Store(0)]) == Finish(x, cell);
    } else {
      Round(After(cell, env[0]), x, env[1..]);
      var rest := Attempts(env[1..]);
      var s2 := State(After(cell, env[0]), s1.threads, {});
      assert ([Store(0)] + rest)[1..] == rest;
      assert Next(s2, Store(0)) == Alone(After(cell, env[0]), x);
      DisturbedRun(s1, env[0], [Store(0)] + rest);
      assert Attempts(env)[1..] == AsSteps(env[0]) + ([Store(0)] + rest);
    }
  }
}
