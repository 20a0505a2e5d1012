/**
 * `simple_backtrack_search`: depth-first search over the unassigned
 * variables, choosing each by the minimum-remaining-values / degree rule,
 * forward-checking every tentative value and restoring the domains exactly
 * when a branch fails.
 */
module Search {
  import opened Wrappers
  import opened Seqs
  import opened Csp

  /**
   * A map extends another when it keeps every entry of the other.
   */
  ghost predicate Extends<V>(big: map<V, int>, small: map<V, int>) {
    forall v :: v in small ==> v in big && big[v] == small[v]
  }

  /**
   * a solves the problem over vars starting from a0 and domains d0: it
   * assigns exactly vars, keeps a0's entries, takes every new value from the
   * variable's domain in d0, and leaves the domains d shrunk from d0.
   */
  ghost predicate Solution<V>(vars: set<V>, a: map<V, int>, a0: map<V, int>,
                              d: map<V, set<int>>, d0: map<V, set<int>>) {
    && a.Keys == vars
    && Extends(a, a0)
    && (forall v :: v in a && v !in a0 ==> v in d0 && a[v] in d0[v])
    && Shrunk(d, d0)
  }

  /** A solution found after assigning x a value of its domain and pruning solves the earlier state. */
  lemma SolutionStep<V>(vars: set<V>, a2: map<V, int>, a1: map<V, int>, a0: map<V, int>,
                        d2: map<V, set<int>>, d1: map<V, set<int>>, d0: map<V, set<int>>, x: V, val: int)
    requires Solution(vars, a2, a1, d2, d1) && Shrunk(d1, d0)
    requires a1 == a0[x := val] && x !in a0 && x in d0 && val in d0[x]
    ensures Solution(vars, a2, a0, d2, d0) && a2[x] == val
  {
  }

  /** Removing a freshly assigned variable gives back the assignment from before. */
  lemma UndoAssign<V>(a: map<V, int>, x: V, val: int)
    requires x !in a
    ensures a[x := val] - {x} == a
  {
    assert (a[x := val] - {x}).Keys == a.Keys;
  }

  /** An exact log only ever takes values out. */
  lemma LogExactShrinks<V>(base: map<V, set<int>>, current: map<V, set<int>>, removes: map<V, set<int>>)
    requires LogExact(base, current, removes)
    ensures Shrunk(current, base)
  {
  }

  /**
   * `backtrack`: returns the very assignment it was given, now complete,
   * or null. On success the assignment keeps every entry it had, each new
   * entry takes a value from the variable's domain at the call, and the
   * domains have only shrunk. On failure the assignment and every domain
   * are exactly as they were at the call. A complete assignment is
   * returned untouched.
   */
  method Backtrack<V(==,!new)>(csp: CSP<V>, asg: Assignment<V>, couple: Option<map<V, V>>)
    returns (result: Assignment?<V>)
    requires csp.Valid() && csp.CoupleOk(couple)
    requires asg.entries.Keys <= ElemSet(csp.variables)
    modifies csp, asg
    decreases |csp.Unassigned(asg.entries)|, 1
    ensures csp.Valid()
    ensures result == null || result == asg
    ensures result != null ==>
      Solution(ElemSet(csp.variables), asg.entries, old(asg.entries), csp.domain, old(csp.domain))
    ensures result == null ==> asg.entries == old(asg.entries) && csp.domain == old(csp.domain)
    // an assignment that is already complete comes back as it was given
    ensures old(asg.entries).Keys == ElemSet(csp.variables) ==>
      result == asg && asg.entries == old(asg.entries) && csp.domain == old(csp.domain)
  {
    csp.CompleteIffNoneUnassigned(asg.entries);
    if |asg.entries| == |csp.variables| {
      forall v | v in ElemSet(csp.variables) ensures v in asg.entries {
        assert v !in csp.Unassigned(asg.entries);
      }
      return asg;
    }
    var x := csp.GetBestUnassignedVar(asg.entries);
    ghost var d0 := csp.domain;
    ghost var a0 := asg.entries;
    var vals := csp.domain[x];
    while vals != {}
      invariant csp.Valid() && csp.domain == d0 && asg.entries == a0
      invariant vals <= d0[x]
      decreases vals
    {
      var val := Pick(vals);
      vals := vals - {val};
      result := TryValue(csp, asg, couple, x, val);
      if result != null {
        return;
      }
    }
    return null;
  }

  /**
   * The first half of a turn of the loop in `backtrack`: assign val to x
   * and forward-check x and, when coupled, its partner, logging into a fresh
   * log. The log is exact for the domains at the call.
   */
  method AssignAndCheck<V(==,!new)>(csp: CSP<V>, asg: Assignment<V>, couple: Option<map<V, V>>, x: V, val: int)
    returns (ok: bool, removed: map<V, set<int>>, ghost first: bool, ghost k: nat)
    requires csp.Valid() && csp.CoupleOk(couple) && x in csp.variables
    modifies csp, asg
    ensures csp.Valid() && asg.entries == old(asg.entries)[x := val]
    ensures LogExact(old(csp.domain), csp.domain, removed)
    // the flag says whether a variable x or its partner reaches was wiped out
    ensures !ok ==> exists v :: v in csp.Reached(x, couple) && csp.domain[v] == {}
    ensures ok ==> forall v :: v in csp.Reached(x, couple) ==> csp.domain[v] != {}
    ensures forall v :: v in old(csp.domain) && v !in csp.Reached(x, couple) ==> csp.domain[v] == old(csp.domain)[v]
    // pruning is sound: only values the new assignment rejects next to x or its partner go
    ensures Shrunk(csp.domain, old(csp.domain))
    ensures forall v :: v in old(csp.domain) ==>
      old(csp.domain)[v] - csp.domain[v] <= csp.Rejects(asg.entries, x, couple, v, old(csp.domain)[v])
    // and complete: on success everything left next to x or its partner is viable
    ensures ok ==> csp.Checked(asg.entries, x, couple, csp.domain)
    // a failed check stopped at the first wipe-out (and skipped the partner when x's own pass failed)
    ensures (ok ==> first) && (!ok ==> csp.Stopped(x, couple, first, k, old(csp.domain), csp.domain))
  {
    removed := map[];
    EmptyLogExact(csp.domain);
    csp.Assign(asg, x, val);
    ok, removed, first, k := csp.CheckBoth(asg.entries, x, removed, couple, csp.domain);
  }

  /**
   * One turn of the loop in `backtrack`: assign val to x, forward-check x and
   * its partner against a fresh log, search on when both pass, and otherwise
   * (or when the search below fails) restore from the log. The guarantees
   * are those of `Backtrack`, with x holding val on success.
   */
  method TryValue<V(==,!new)>(csp: CSP<V>, asg: Assignment<V>, couple: Option<map<V, V>>, x: V, val: int)
    returns (result: Assignment?<V>)
    requires csp.Valid() && csp.CoupleOk(couple)
    requires asg.entries.Keys <= ElemSet(csp.variables)
    requires x in csp.variables && x !in asg.entries && x in csp.domain && val in csp.domain[x]
    modifies csp, asg
    decreases |csp.Unassigned(asg.entries)|, 0
    ensures csp.Valid()
    ensures result == null || result == asg
    ensures result != null ==>
      && Solution(ElemSet(csp.variables), asg.entries, old(asg.entries), csp.domain, old(csp.domain))
      && asg.entries[x] == val
    ensures result == null ==> asg.entries == old(asg.entries) && csp.domain == old(csp.domain)
    // an assignment that is already complete comes back as it was given
    ensures old(asg.entries).Keys == ElemSet(csp.variables) ==>
      result == asg && asg.entries == old(asg.entries) && csp.domain == old(csp.domain)
  {
    ghost var d0 := csp.domain;
    ghost var a0 := asg.entries;
    var ok, removed, _, _ := AssignAndCheck(csp, asg, couple, x, val);
    if ok {
      ghost var d1 := csp.domain;
      ghost var a1 := asg.entries;
      LogExactShrinks(d0, d1, removed);
      csp.AssignShrinksUnassigned(a0, x, val);
      result := Backtrack(csp, asg, couple);
      if result != null {
        SolutionStep(ElemSet(csp.variables), asg.entries, a1, a0, csp.domain, d1, d0, x, val);
        return;
      }
    }
    RestoreUndoesPrune(d0, csp.domain, removed);
    csp.Restore(asg, x, removed);
    UndoAssign(a0, x, val);
    result := null;
  }

  /**
   * `simple_backtrack_search`: runs the search from the given (typically
   * preassigned) assignment, with the same guarantees as `Backtrack`.
   */
  method SimpleBacktrackSearch<V(==,!new)>(csp: CSP<V>, preassigned: Assignment<V>, couple: Option<map<V, V>>)
    returns (result: Assignment?<V>)
    requires csp.Valid() && csp.CoupleOk(couple)
    requires preassigned.entries.Keys <= ElemSet(csp.variables)
    modifies csp, preassigned
    ensures csp.Valid()
    ensures result == null || result == preassigned
    ensures result != null ==>
      Solution(ElemSet(csp.variables), preassigned.entries, old(preassigned.entries), csp.domain, old(csp.domain))
    ensures result == null ==>
      preassigned.entries == old(preassigned.entries) && csp.domain == old(csp.domain)
    ensures old(preassigned.entries).Keys == ElemSet(csp.variables) ==>
      result == preassigned && preassigned.entries == old(preassigned.entries) && csp.domain == old(csp.domain)
  {
    result := Backtrack(csp, preassigned, couple);
  }
}
