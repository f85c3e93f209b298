/** Finite runs of a deterministic, partial step function. */
module Traces {
  import opened Words

  /** Consecutive states are related by the step function. */
  ghost predicate Trace<S(!new)>(step: S -> Option<S>, tr: seq<S>) {
    |tr| > 0 && forall i {:trigger step(tr[i])} :: 0 <= i < |tr| - 1 ==> step(tr[i]) == Some(tr[i + 1])
  }

  /** Some finite number of steps leads from s to t. */
  ghost predicate Leads<S(!new)>(step: S -> Option<S>, s: S, t: S) {
    exists tr :: Trace(step, tr) && tr[0] == s && tr[|tr| - 1] == t
  }

  lemma LeadsRefl<S(!new)>(step: S -> Option<S>, s: S)
    ensures Leads(step, s, s)
  {
    assert Trace(step, [s]);
  }

  lemma LeadsStep<S(!new)>(step: S -> Option<S>, s: S, t: S)
    requires step(s) == Some(t)
    ensures Leads(step, s, t)
  {
    assert Trace(step, [s, t]);
  }

  lemma LeadsTrans<S(!new)>(step: S -> Option<S>, s: S, t: S, u: S)
    requires Leads(step, s, t) && Leads(step, t, u)
    ensures Leads(step, s, u)
  {
    var p :| Trace(step, p) && p[0] == s && p[|p| - 1] == t;
    var q :| Trace(step, q) && q[0] == t && q[|q| - 1] == u;
    var r := p + q[1..];
    forall i | 0 <= i < |r| - 1 ensures step(r[i]) == Some(r[i + 1]) {
      if i < |p| - 1 {
        assert step(p[i]) == Some(p[i + 1]);
      } else {
        assert step(q[i - |p| + 1]) == Some(q[i - |p| + 2]);
      }
    }
    assert Trace(step, r);
  }
}
