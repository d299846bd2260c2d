/** The bounded walk that keeps supervisor assignments free of cycles. */
module Supervisors {
  import opened Basics

  /** `chart[x]` is the supervisor of `x`; people without one, or outside the organisation, are not in the chart. */
  type Chart = map<nat, nat>

  datatype Verdict = Accepted | SelfSupervision | SupervisorCycle | NotInOrganization

  const WALK_LIMIT := 20

  function Boss(chart: Chart, x: nat): Option<nat> {
    if x in chart then Some(chart[x]) else None
  }

  /** The person `k` steps above `x`. */
  function Above(chart: Chart, x: Option<nat>, k: nat): Option<nat>
    decreases k
  {
    if k == 0 then x
    else if x.None? then None
    else Above(chart, Boss(chart, x.value), k - 1)
  }

  ghost predicate Acyclic(chart: Chart) {
    forall x: nat, k: nat :: k >= 1 ==> Above(chart, Some(x), k) != Some(x)
  }

  /** Whether `employee` is `supervisor` or above them. */
  ghost predicate Reports(chart: Chart, supervisor: nat, employee: nat) {
    exists k: nat :: Above(chart, Some(supervisor), k) == Some(employee)
  }

  lemma {:induction false} AboveNone(chart: Chart, k: nat)
    ensures Above(chart, None, k) == None
  {
  }

  lemma {:induction false} AboveAdds(chart: Chart, x: Option<nat>, j: nat, k: nat)
    ensures Above(chart, x, j + k) == Above(chart, Above(chart, x, j), k)
    decreases j
  {
    if j > 0 {
      if x.None? {
        AboveNone(chart, j + k);
        AboveNone(chart, k);
      } else {
        AboveAdds(chart, Boss(chart, x.value), j - 1, k);
      }
    }
  }

  /** In an acyclic chart nobody appears twice on a way up. */
  lemma NobodyTwice(chart: Chart, x: nat, i: nat, j: nat)
    requires Acyclic(chart) && i < j && Above(chart, Some(x), j).Some?
    ensures Above(chart, Some(x), i) != Above(chart, Some(x), j)
  {
    AboveAdds(chart, Some(x), i, j - i);
    AboveNone(chart, j - i);
  }

  /** The walk of `assertNoSupervisorCycle` up from `x` rejects at step `i`. */
  ghost predicate RejectsAt(chart: Chart, employee: nat, supervisor: nat, i: nat) {
    var here := Above(chart, Some(supervisor), i);
    here.Some? && (here == Some(employee) || exists j: nat :: j < i && Above(chart, Some(supervisor), j) == here)
  }

  /** None of the 20 steps of the walk rejects. */
  ghost predicate Passes(chart: Chart, employee: nat, supervisor: nat) {
    forall i: nat :: i < 20 ==> !RejectsAt(chart, employee, supervisor, i)
  }

  /** `assertNoSupervisorCycle`. */
  method CheckSupervisor(chart: Chart, employee: nat, supervisor: nat) returns (v: Verdict)
    ensures v.SelfSupervision? <==> employee == supervisor
    ensures !v.NotInOrganization?
    ensures v.Accepted? <==> Passes(chart, employee, supervisor)
  {
    if employee == supervisor {
      assert RejectsAt(chart, employee, supervisor, 0);
      return SelfSupervision;
    }
    var current: Option<nat> := Some(supervisor);
    var seen := {employee};
    var i: nat := 0;
    while i < WALK_LIMIT && current.Some?
      invariant i <= WALK_LIMIT && current == Above(chart, Some(supervisor), i)
      invariant forall x :: x in seen <==> x == employee || exists j: nat :: j < i && Above(chart, Some(supervisor), j) == Some(x)
      invariant forall j: nat :: j < i ==> !RejectsAt(chart, employee, supervisor, j)
    {
      if current.value in seen {
        assert RejectsAt(chart, employee, supervisor, i);
        return SupervisorCycle;
      }
      seen := seen + {current.value};
      AboveAdds(chart, Some(supervisor), i, 1);
      current := Boss(chart, current.value);
      i := i + 1;
    }
    forall j: nat | i <= j < WALK_LIMIT
      ensures !RejectsAt(chart, employee, supervisor, j)
    {
      AboveAdds(chart, Some(supervisor), i, j - i);
      AboveNone(chart, j - i);
    }
    return Accepted;
  }

  /** `validateSupervisor`: a new employee, who has no id yet, can close no cycle. */
  method ValidateSupervisor(people: set<nat>, chart: Chart, employee: Option<nat>, supervisor: Option<nat>) returns (v: Verdict)
    ensures v.NotInOrganization? <==> supervisor.Some? && supervisor.value !in people
    ensures v.Accepted? <==> supervisor.None? || (supervisor.value in people && (employee.Some? ==> Passes(chart, employee.value, supervisor.value)))
  {
    if supervisor.None? {
      return Accepted;
    }
    if supervisor.value !in people {
      return NotInOrganization;
    }
    if employee.None? {
      return Accepted;
    }
    v := CheckSupervisor(chart, employee.value, supervisor.value);
  }

  /** In an acyclic chart the walk rejects exactly when it meets the employee within its limit. */
  lemma RejectsIffMet(chart: Chart, employee: nat, supervisor: nat)
    requires Acyclic(chart)
    ensures forall i: nat :: RejectsAt(chart, employee, supervisor, i) <==> Above(chart, Some(supervisor), i) == Some(employee)
  {
    forall i: nat
      ensures RejectsAt(chart, employee, supervisor, i) <==> Above(chart, Some(supervisor), i) == Some(employee)
    {
      forall j: nat | j < i && Above(chart, Some(supervisor), i).Some?
        ensures Above(chart, Some(supervisor), j) != Above(chart, Some(supervisor), i)
      {
        NobodyTwice(chart, supervisor, j, i);
      }
    }
  }

  // ---------------------------------------------------------------- what an assignment does to the chart

  /** Until the way up meets `employee`, giving `employee` another supervisor does not change it. */
  lemma {:induction false} MeetsInBoth(chart: Chart, other: Chart, employee: nat, x: nat, k: nat)
    requires forall y: nat :: y != employee ==> Boss(chart, y) == Boss(other, y)
    requires Above(chart, Some(x), k) == Some(employee)
    ensures Reports(other, x, employee)
    decreases k
  {
    if x == employee {
      assert Above(other, Some(x), 0) == Some(employee);
    } else {
      var y := Boss(chart, x);
      AboveNone(chart, k - 1);
      MeetsInBoth(chart, other, employee, y.value, k - 1);
      var m: nat :| Above(other, y, m) == Some(employee);
      assert Above(other, Some(x), m + 1) == Some(employee);
    }
  }

  /** A way up that never meets `employee` is the same in both charts. */
  lemma {:induction false} SameWayUp(chart: Chart, other: Chart, employee: nat, x: nat, k: nat)
    requires forall y: nat :: y != employee ==> Boss(chart, y) == Boss(other, y)
    requires !Reports(chart, x, employee)
    ensures Above(other, Some(x), k) == Above(chart, Some(x), k)
    decreases k
  {
    assert Above(chart, Some(x), 0) == Some(x);
    if k > 0 {
      var y := Boss(chart, x);
      if y.None? {
        AboveNone(chart, k - 1);
        AboveNone(other, k - 1);
      } else {
        forall m: nat
          ensures Above(chart, y, m) != Some(employee)
        {
          assert Above(chart, Some(x), m + 1) == Above(chart, y, m);
        }
        SameWayUp(chart, other, employee, y.value, k - 1);
      }
    }
  }

  /** Assigning `supervisor` to `employee` keeps the chart acyclic exactly when the supervisor is not below the employee. */
  lemma AssignmentAcyclicIff(chart: Chart, employee: nat, supervisor: nat)
    requires Acyclic(chart)
    ensures Acyclic(chart[employee := supervisor]) <==> !Reports(chart, supervisor, employee)
  {
    var updated := chart[employee := supervisor];
    if Reports(chart, supervisor, employee) {
      var k: nat :| Above(chart, Some(supervisor), k) == Some(employee);
      MeetsInBoth(chart, updated, employee, supervisor, k);
      var m: nat :| Above(updated, Some(supervisor), m) == Some(employee);
      assert Above(updated, Some(employee), m + 1) == Some(employee);
    } else {
      forall x: nat, k: nat | k >= 1
        ensures Above(updated, Some(x), k) != Some(x)
      {
        NoNewCycle(chart, employee, supervisor, x, k);
      }
    }
  }

  lemma NoNewCycle(chart: Chart, employee: nat, supervisor: nat, x: nat, k: nat)
    requires Acyclic(chart) && !Reports(chart, supervisor, employee) && k >= 1
    ensures Above(chart[employee := supervisor], Some(x), k) != Some(x)
  {
    var updated := chart[employee := supervisor];
    if Above(updated, Some(x), k) == Some(x) {
      if Reports(updated, x, employee) {
        // The cycle passes through the employee, so the way up from the supervisor comes back to them.
        var j: nat :| Above(updated, Some(x), j) == Some(employee);
        AboveAdds(updated, Some(x), j, k);
        AboveAdds(updated, Some(x), k, j);
        assert Above(updated, Some(supervisor), k - 1) == Some(employee);
        MeetsInBoth(updated, chart, employee, supervisor, k - 1);
      } else {
        SameWayUp(updated, chart, employee, x, k);
      }
    }
  }

  /** When the employee is met beyond the limit, a cycle is accepted. */
  lemma MetBeyond(chart: Chart, employee: nat, supervisor: nat, k: nat)
    requires Acyclic(chart) && k >= 20 && Above(chart, Some(supervisor), k) == Some(employee)
    ensures Passes(chart, employee, supervisor) && !Acyclic(chart[employee := supervisor])
  {
    hide Acyclic, RejectsAt, Above;
    RejectsIffMet(chart, employee, supervisor);
    AssignmentAcyclicIff(chart, employee, supervisor);
    assert Reports(chart, supervisor, employee);
    forall i: nat | i < 20
      ensures !RejectsAt(chart, employee, supervisor, i)
    {
      NobodyTwice(chart, supervisor, i, k);
    }
  }

  /** Otherwise the check is exact. */
  lemma NotMetBeyond(chart: Chart, employee: nat, supervisor: nat)
    requires Acyclic(chart) && forall k: nat :: k >= 20 ==> Above(chart, Some(supervisor), k) != Some(employee)
    ensures Passes(chart, employee, supervisor) <==> Acyclic(chart[employee := supervisor])
  {
    hide Acyclic, RejectsAt, Above;
    RejectsIffMet(chart, employee, supervisor);
    AssignmentAcyclicIff(chart, employee, supervisor);
    if Reports(chart, supervisor, employee) {
      var k: nat :| Above(chart, Some(supervisor), k) == Some(employee);
      assert k < 20 && RejectsAt(chart, employee, supervisor, k);
    } else {
      forall i: nat | i < 20
        ensures !RejectsAt(chart, employee, supervisor, i)
      {
        assert Above(chart, Some(supervisor), i) != Some(employee);
      }
    }
  }

  /**
    * The check accepts an assignment exactly when it keeps the chart acyclic, unless the employee is more than
    * 20 people up from the proposed supervisor, and then it accepts a cycle.
    */
  lemma CheckExactIff(chart: Chart, employee: nat, supervisor: nat)
    requires Acyclic(chart)
    ensures (Passes(chart, employee, supervisor) <==> Acyclic(chart[employee := supervisor]))
       <==> forall k: nat :: k >= 20 ==> Above(chart, Some(supervisor), k) != Some(employee)
  {
    hide Acyclic, Passes, Above;
    if exists k: nat :: k >= 20 && Above(chart, Some(supervisor), k) == Some(employee) {
      var k: nat :| k >= 20 && Above(chart, Some(supervisor), k) == Some(employee);
      MetBeyond(chart, employee, supervisor, k);
    } else {
      NotMetBeyond(chart, employee, supervisor);
    }
  }

  /** When at most 20 people, the supervisor included, are on the way up, the check is exact. */
  lemma CheckExact(chart: Chart, employee: nat, supervisor: nat)
    requires Acyclic(chart) && Above(chart, Some(supervisor), 20) == None
    ensures Passes(chart, employee, supervisor) <==> Acyclic(chart[employee := supervisor])
  {
    hide Acyclic, Passes, Above;
    forall k: nat | k >= 20
      ensures Above(chart, Some(supervisor), k) != Some(employee)
    {
      AboveAdds(chart, Some(supervisor), 20, k - 20);
      AboveNone(chart, k - 20);
    }
    NotMetBeyond(chart, employee, supervisor);
  }
}
