/** Runs given state by state, to show what a particular sequence of steps leads to. */
module Traces {
  import opened ShareRegistry

  predicate StepsTo(cap: int, s: State, step: Step, t: State) {
    Allowed(s, step) && Next(cap, s, step) == t
  }

  predicate IsTrace(cap: int, states: seq<State>, steps: seq<Step>) {
    |states| == |steps| + 1 && forall i :: 0 <= i < |steps| ==> StepsTo(cap, states[i], steps[i], states[i + 1])
  }

  lemma {:induction false} TraceIsRun(cap: int, states: seq<State>, steps: seq<Step>)
    requires IsTrace(cap, states, steps)
    ensures OpenRuns(cap, states[0], steps) && OpenAfter(cap, states[0], steps) == states[|steps|]
    decreases |steps|
  {
    if steps != [] {
      assert StepsTo(cap, states[0], steps[0], states[1]);
      TraceIsRun(cap, states[1..], steps[1..]);
    }
  }

  /** The steps lead from the start to state t. */
  ghost predicate Reaches(cap: int, steps: seq<Step>, t: State) {
    exists states :: IsTrace(cap, states, steps) && states[0] == INITIAL && states[|steps|] == t
  }

  lemma ReachesStart(cap: int)
    ensures Reaches(cap, [], INITIAL)
  {
    assert IsTrace(cap, [INITIAL], []);
  }

  lemma ReachesNext(cap: int, steps: seq<Step>, t: State, step: Step, u: State)
    requires Reaches(cap, steps, t) && StepsTo(cap, t, step, u)
    ensures Reaches(cap, steps + [step], u)
  {
    var states :| IsTrace(cap, states, steps) && states[0] == INITIAL && states[|steps|] == t;
    TraceGrows(cap, states, steps, step, u);
  }

  lemma TraceGrows(cap: int, states: seq<State>, steps: seq<Step>, step: Step, u: State)
    requires IsTrace(cap, states, steps) && StepsTo(cap, states[|steps|], step, u)
    ensures IsTrace(cap, states + [u], steps + [step])
  {
    var more, longer := states + [u], steps + [step];
    forall i | 0 <= i < |longer|
      ensures StepsTo(cap, more[i], longer[i], more[i + 1])
    {
      if i < |steps| {
        assert StepsTo(cap, states[i], steps[i], states[i + 1]);
      }
    }
  }

  lemma ReachedRuns(cap: int, steps: seq<Step>, t: State)
    requires Reaches(cap, steps, t)
    ensures OpenRuns(cap, INITIAL, steps) && OpenAfter(cap, INITIAL, steps) == t
  {
    var states :| IsTrace(cap, states, steps) && states[0] == INITIAL && states[|steps|] == t;
    TraceIsRun(cap, states, steps);
  }
}
