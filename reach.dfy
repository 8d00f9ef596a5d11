/**
 * Epsilon reachability, the meaning of an epsilon-closure: the states reachable from a state
 * along epsilon edges only, the state itself included.
 */
module Reach {

  /** The direct epsilon targets of s; a state without an entry has none. */
  function Succ<S>(succ: map<S, set<S>>, s: S): set<S> {
    if s in succ then succ[s] else {}
  }

  /** p is a non-empty walk along epsilon edges. */
  ghost predicate IsPath<S>(succ: map<S, set<S>>, p: seq<S>) {
    |p| >= 1 && forall i :: 0 <= i < |p| - 1 ==> p[i + 1] in Succ(succ, p[i])
  }

  ghost predicate Reaches<S(!new)>(succ: map<S, set<S>>, s: S, t: S) {
    exists p :: IsPath(succ, p) && p[0] == s && p[|p| - 1] == t
  }

  /** cl holds, for each of the given states, exactly its epsilon-closure. */
  ghost predicate IsClosureMap<S(!new)>(succ: map<S, set<S>>, states: set<S>, cl: map<S, set<S>>) {
    && cl.Keys == states
    && forall s :: s in states ==> forall t :: t in cl[s] <==> Reaches(succ, s, t)
  }

  lemma ReachesRefl<S(!new)>(succ: map<S, set<S>>, s: S)
    ensures Reaches(succ, s, s)
  {
    assert IsPath(succ, [s]);
  }

  lemma ReachesStep<S(!new)>(succ: map<S, set<S>>, s: S, t: S, u: S)
    requires t in Succ(succ, s) && Reaches(succ, t, u)
    ensures Reaches(succ, s, u)
  {
    var p :| IsPath(succ, p) && p[0] == t && p[|p| - 1] == u;
    var q := [s] + p;
    forall i | 0 <= i < |q| - 1
      ensures q[i + 1] in Succ(succ, q[i])
    {
      if i > 0 {
        assert q[i] == p[i - 1] && q[i + 1] == p[i];
      }
    }
    assert IsPath(succ, q);
  }

  /**
   * A map that is reflexive and closed under epsilon edges (each state's set contains its
   * successors' sets) contains every reachable state.
   */
  lemma {:induction false} ClosedIsComplete<S>(
    succ: map<S, set<S>>, states: set<S>, cl: map<S, set<S>>, p: seq<S>)
    requires cl.Keys == states
    requires forall s :: s in states ==> s in cl[s] && Succ(succ, s) <= states
    requires forall s, t :: s in states && t in Succ(succ, s) ==> cl[t] <= cl[s]
    requires IsPath(succ, p) && p[0] in states
    ensures p[|p| - 1] in cl[p[0]]
    decreases |p|
  {
    if |p| > 1 {
      var rest := p[1..];
      assert IsPath(succ, rest) by {
        forall i | 0 <= i < |rest| - 1
          ensures rest[i + 1] in Succ(succ, rest[i])
        {
          assert rest[i] == p[i + 1] && rest[i + 1] == p[i + 2];
        }
      }
      assert p[1] in Succ(succ, p[0]);
      ClosedIsComplete(succ, states, cl, rest);
    }
  }

  /** The union of the sets cl[t] over the given targets. */
  function UnionOf<S>(cl: map<S, set<S>>, targets: set<S>): set<S>
    requires targets <= cl.Keys
  {
    set t, x | t in targets && x in cl[t] :: x
  }

  /**
   * The recursive definition and the fixpoint agree: a closure map satisfies
   * closure(s) = {s} + the union of closure(t) over the epsilon targets t of s.
   */
  lemma ClosureUnfolds<S(!new)>(succ: map<S, set<S>>, states: set<S>, cl: map<S, set<S>>, s: S)
    requires IsClosureMap(succ, states, cl) && s in states
    requires Succ(succ, s) <= states
    ensures cl[s] == {s} + UnionOf(cl, Succ(succ, s))
    ensures s in cl[s] && Succ(succ, s) <= cl[s]
  {
    ReachesRefl(succ, s);
    forall x | x in cl[s] && x != s
      ensures x in UnionOf(cl, Succ(succ, s))
    {
      var p :| IsPath(succ, p) && p[0] == s && p[|p| - 1] == x;
      assert |p| > 1;
      var rest := p[1..];
      assert IsPath(succ, rest) by {
        forall i | 0 <= i < |rest| - 1
          ensures rest[i + 1] in Succ(succ, rest[i])
        {
          assert rest[i] == p[i + 1] && rest[i + 1] == p[i + 2];
        }
      }
      assert p[1] in Succ(succ, s) && x in cl[p[1]];
    }
    forall x | x in UnionOf(cl, Succ(succ, s))
      ensures x in cl[s]
    {
      var t :| t in Succ(succ, s) && x in cl[t];
      ReachesStep(succ, s, t, x);
    }
    forall t | t in Succ(succ, s)
      ensures t in cl[s]
    {
      ReachesRefl(succ, t);
      ReachesStep(succ, s, t, t);
    }
  }

  /** Epsilon edges that never leave a set of states keep every walk from it inside it. */
  lemma {:induction false} ReachesWithin<S(!new)>(succ: map<S, set<S>>, states: set<S>, s: S, t: S)
    requires forall x :: x in states ==> Succ(succ, x) <= states
    requires s in states && Reaches(succ, s, t)
    ensures t in states
  {
    var p :| IsPath(succ, p) && p[0] == s && p[|p| - 1] == t;
    var i := 0;
    while i < |p| - 1
      invariant 0 <= i < |p| && p[i] in states
    {
      i := i + 1;
    }
  }
}
