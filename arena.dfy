/**
 * The State objects of fa.py. Every State ever created lives in one arena and is addressed by
 * its index; a reference to a State is an index below the arena's size. Each state has a label,
 * a map from symbols to sets of target states, and an ordered list of epsilon targets.
 */
module StateGraph {

  /** transitions.get(a, {}): the targets of a on one state. */
  function Targets(m: map<char, set<nat>>, a: char): set<nat> {
    if a in m then m[a] else {}
  }

  /** Every edge of the graph leads to an existing state. */
  ghost predicate EdgesExist(trans: seq<map<char, set<nat>>>, eps: seq<seq<nat>>, size: nat) {
    && (forall i, a :: 0 <= i < |trans| && a in trans[i] ==> forall t :: t in trans[i][a] ==> t < size)
    && (forall i, j :: 0 <= i < |eps| && 0 <= j < |eps[i]| ==> eps[i][j] < size)
  }

  class Arena {
    var labels: seq<string>
    var trans: seq<map<char, set<nat>>>
    var eps: seq<seq<nat>>

    ghost predicate Valid()
      reads this
    {
      |labels| == |trans| == |eps| && EdgesExist(trans, eps, |labels|)
    }

    constructor ()
      ensures Valid() && labels == [] && trans == [] && eps == []
    {
      labels, trans, eps := [], [], [];
    }

    /**
     * State(name, epsilon_transitions=targets): a new state with no symbol transitions and the
     * given epsilon targets, in order.
     */
    method NewState(name: string, targets: seq<nat>) returns (s: nat)
      requires Valid() && forall j :: 0 <= j < |targets| ==> targets[j] < |labels|
      modifies this
      ensures Valid()
      ensures s == old(|labels|)
      ensures labels == old(labels) + [name] && trans == old(trans) + [map[]] && eps == old(eps) + [targets]
    {
      s := |labels|;
      labels, trans, eps := labels + [name], trans + [map[]], eps + [targets];
    }

    /** State.add_transition: t joins the targets of a on s; nothing else changes. */
    method AddTransition(s: nat, a: char, t: nat)
      requires Valid() && s < |labels| && t < |labels|
      modifies this
      ensures Valid() && labels == old(labels) && eps == old(eps)
      ensures trans == old(trans)[s := old(trans)[s][a := Targets(old(trans)[s], a) + {t}]]
      ensures forall b :: Targets(trans[s], b) == if b == a then Targets(old(trans)[s], a) + {t} else Targets(old(trans)[s], b)
    {
      trans := trans[s := trans[s][a := Targets(trans[s], a) + {t}]];
    }

    /** State.add_epsilon_transition: t is appended after the existing epsilon targets of s. */
    method AddEpsilonTransition(s: nat, t: nat)
      requires Valid() && s < |labels| && t < |labels|
      modifies this
      ensures Valid() && labels == old(labels) && trans == old(trans)
      ensures eps == old(eps)[s := old(eps)[s] + [t]]
    {
      eps := eps[s := eps[s] + [t]];
    }

    /** State.add_epsilon_transitions: ts is appended, in order, after the epsilon targets of s. */
    method AddEpsilonTransitions(s: nat, ts: seq<nat>)
      requires Valid() && s < |labels| && forall j :: 0 <= j < |ts| ==> ts[j] < |labels|
      modifies this
      ensures Valid() && labels == old(labels) && trans == old(trans)
      ensures eps == old(eps)[s := old(eps)[s] + ts]
    {
      eps := eps[s := eps[s] + ts];
    }
  }
}
