/**
 * The constraint-satisfaction engine of the `CSP` class: the domain store,
 * the variable selector (minimum remaining values, ties broken by the number
 * of unassigned neighbours), forward checking with a removal log, assignment,
 * preassignment and restoration.
 */
module Csp {
  import opened Wrappers
  import opened Seqs
  import opened Constraints

  /** The assignment dictionary: a variable is assigned exactly when it is a key. */
  class Assignment<V(==)> {
    var entries: map<V, int>

    constructor (entries: map<V, int>)
      ensures this.entries == entries
    {
      this.entries := entries;
    }
  }

  /** `assigment.get(v, None)`. */
  function Get<V(==)>(a: map<V, int>, v: V): Option<int> {
    if v in a then Some(a[v]) else None
  }

  /**
   * `assigment.get(couple.get(v, None), None)`: the value of v's coupled
   * partner, missing when there is no coupling, v has no partner, or the
   * partner is unassigned.
   */
  function PartnerValue<V(==)>(a: map<V, int>, couple: Option<map<V, V>>, v: V): Option<int> {
    if couple.Some? && v in couple.value then Get(a, couple.value[v]) else None
  }

  /** `removes.get(v, set())`: the values the log holds for v. */
  function Logged<V(==)>(removes: map<V, set<int>>, v: V): set<int> {
    if v in removes then removes[v] else {}
  }

  /**
   * The log after `removes.setdefault(v, set()).add(d)` for each d in s: v's
   * entry gains s, and is created only when s is not empty.
   */
  function LogAdd<V(==)>(removes: map<V, set<int>>, v: V, s: set<int>): map<V, set<int>> {
    if s == {} then removes else removes[v := Logged(removes, v) + s]
  }

  /** Adding to a log twice is adding the union once. */
  lemma LogAddTwice<V>(removes: map<V, set<int>>, v: V, s: set<int>, t: set<int>)
    ensures LogAdd(LogAdd(removes, v, s), v, t) == LogAdd(removes, v, s + t)
  {
    if s != {} && t != {} {
      assert Logged(LogAdd(removes, v, s), v) == Logged(removes, v) + s;
      assert (Logged(removes, v) + s) + t == Logged(removes, v) + (s + t);
    } else if s == {} {
      assert s + t == t;
    } else {
      assert s + t == s;
    }
  }

  /** What adding s to v's entry does, entry by entry. */
  lemma LogAddFacts<V>(removes: map<V, set<int>>, v: V, s: set<int>)
    ensures Logged(LogAdd(removes, v, s), v) == Logged(removes, v) + s
    ensures v in LogAdd(removes, v, s) <==> v in removes || s != {}
    ensures forall u :: u != v ==>
      (u in LogAdd(removes, v, s) <==> u in removes) && (u in removes ==> LogAdd(removes, v, s)[u] == removes[u])
  {
  }

  /** The domains with every logged value taken out. */
  function Pruned<V(==)>(d: map<V, set<int>>, removes: map<V, set<int>>): map<V, set<int>> {
    map v | v in d :: d[v] - Logged(removes, v)
  }

  /** The domains with every logged value put back, as `restore` does. */
  function Restored<V(==)>(d: map<V, set<int>>, removes: map<V, set<int>>): map<V, set<int>> {
    map v | v in d :: d[v] + Logged(removes, v)
  }

  /**
   * The removal log is exact with respect to the domains `base` it started
   * from: it only names variables of the store, it only holds values that
   * were in their domain, and the current domains are the base minus the log.
   */
  ghost predicate LogExact<V>(base: map<V, set<int>>, current: map<V, set<int>>, removes: map<V, set<int>>) {
    && removes.Keys <= base.Keys
    && (forall v :: v in removes ==> removes[v] <= base[v])
    && current == Pruned(base, removes)
  }

  /** A fresh, empty log is exact for any domains. */
  lemma EmptyLogExact<V>(base: map<V, set<int>>)
    ensures LogExact(base, base, map[])
  {
    forall v | v in base ensures Pruned(base, map[])[v] == base[v] {
      assert Logged(map[], v) == {};
    }
    assert Pruned(base, map[]) == base;
  }

  /** The same variables have domains, and every domain is a subset of the corresponding earlier one. */
  ghost predicate Shrunk<V>(d: map<V, set<int>>, d0: map<V, set<int>>) {
    d.Keys == d0.Keys && forall v :: v in d ==> d[v] <= d0[v]
  }

  /**
   * v lies outside s. Stated facts about every variable past a failed pass's
   * stopping point are keyed on this predicate, so that they are used only
   * where a proof asks about such a variable.
   */
  ghost predicate Outside<V>(v: V, s: set<V>) {
    v !in s
  }

  /**
   * Restoration exactness: putting back an exact log gives back precisely the
   * domains the log started from, no more and no less.
   */
  lemma RestoreUndoesPrune<V>(base: map<V, set<int>>, current: map<V, set<int>>, removes: map<V, set<int>>)
    requires LogExact(base, current, removes)
    ensures Restored(current, removes) == base
  {
    var r := Restored(current, removes);
    assert r.Keys == base.Keys;
    forall v | v in base ensures r[v] == base[v] {
      assert current[v] == base[v] - Logged(removes, v);
      assert Logged(removes, v) <= base[v];
    }
  }

  /**
   * A binary CSP: its variables, neighbour lists and predicates are fixed for
   * the life of a solve; the domains change during search.
   */
  class CSP<V(==,!new)> {
    const variables: seq<V>
    const neighbors: map<V, seq<V>>
    const constraints: map<(V, V), set<Constraint>>
    var domain: map<V, set<int>>

    constructor (variables: seq<V>, neighbors: map<V, seq<V>>, domain: map<V, set<int>>,
                 constraints: map<(V, V), set<Constraint>>)
      ensures this.variables == variables && this.neighbors == neighbors
      ensures this.domain == domain && this.constraints == constraints
    {
      this.variables := variables;
      this.neighbors := neighbors;
      this.domain := domain;
      this.constraints := constraints;
    }

    /**
     * What the engine assumes of the problem it is given: variables are
     * listed once, each has a neighbour list, and every listed neighbour nb
     * of v has a predicate set for the ordered pair (nb, v), which is the one
     * forward checking looks up.
     */
    ghost predicate WellFormed() {
      && Distinct(variables)
      && (forall v :: v in variables ==> v in neighbors)
      && (forall v, nb :: v in neighbors && nb in neighbors[v] ==> (nb, v) in constraints)
    }

    /** The problem is well formed and every variable and listed neighbour has a domain in d. */
    ghost predicate ValidFor(d: map<V, set<int>>) {
      && WellFormed()
      && (forall v :: v in variables ==> v in d)
      && (forall v, nb :: v in neighbors && nb in neighbors[v] ==> nb in d)
    }

    /** The object invariant: the problem is well formed for the current domains. */
    ghost predicate Valid()
      reads this
    {
      ValidFor(domain)
    }

    /** Well-formedness depends only on which variables have a domain. */
    lemma ValidForSameKeys(d: map<V, set<int>>, d': map<V, set<int>>)
      requires ValidFor(d) && d'.Keys == d.Keys
      ensures ValidFor(d')
    {
    }

    /**
     * When coupling is used, every variable has a partner, and the partner
     * has a neighbour list to be forward-checked.
     */
    ghost predicate CoupleOk(couple: Option<map<V, V>>) {
      couple.Some? ==> forall v :: v in variables ==> v in couple.value && couple.value[v] in neighbors
    }

    /** `degree`: how many distinct neighbours of x are not in the assignment. */
    function Degree(a: map<V, int>, x: V): nat
      requires x in neighbors
    {
      |ElemSet(neighbors[x]) - a.Keys|
    }

    /**
     * The degree is at most the length of the neighbour list, and it is zero
     * exactly when every listed neighbour is assigned.
     */
    lemma DegreeBounds(a: map<V, int>, x: V)
      requires x in neighbors
      ensures Degree(a, x) <= |neighbors[x]|
      ensures Degree(a, x) == 0 <==> forall y :: y in neighbors[x] ==> y in a
    {
      ElemSetCard(neighbors[x]);
      var open := ElemSet(neighbors[x]) - a.Keys;
      SubsetCard(open, ElemSet(neighbors[x]));
      if Degree(a, x) == 0 {
        assert open == {};
        forall y | y in neighbors[x] ensures y in a {
          assert y in ElemSet(neighbors[x]) && y !in open;
        }
      }
    }

    /** `mvr`: the number of values left in x's domain. */
    function Mvr(x: V): nat
      reads this
      requires x in domain
    {
      |domain[x]|
    }

    /** `get_unassigned_vars`: the variables absent from the assignment. */
    function Unassigned(a: map<V, int>): set<V> {
      ElemSet(variables) - a.Keys
    }

    /** Assigning an unassigned variable removes exactly it from the unassigned ones. */
    lemma AssignShrinksUnassigned(a: map<V, int>, x: V, val: int)
      requires x in variables && x !in a
      ensures Unassigned(a[x := val]) == Unassigned(a) - {x}
      ensures |Unassigned(a[x := val])| == |Unassigned(a)| - 1
    {
      assert x in Unassigned(a);
    }

    /**
     * Python's tuple order on the selection key `(mvr(y), -degree(y))`:
     * y's key is strictly smaller than x's.
     */
    predicate KeyBefore(a: map<V, int>, y: V, x: V)
      reads this
      requires y in domain && x in domain && y in neighbors && x in neighbors
    {
      Mvr(y) < Mvr(x) || (Mvr(y) == Mvr(x) && -1 * (Degree(a, y) as int) < -1 * (Degree(a, x) as int))
    }

    /**
     * The search's completeness test `len(assign) == len(variables)` holds
     * exactly when no variable is left unassigned.
     */
    lemma CompleteIffNoneUnassigned(a: map<V, int>)
      requires WellFormed() && a.Keys <= ElemSet(variables)
      ensures |a| == |variables| <==> Unassigned(a) == {}
    {
      DistinctCard(variables);
      var all := ElemSet(variables);
      if Unassigned(a) == {} {
        forall y | y in all ensures y in a {
          assert y !in Unassigned(a);
        }
        assert a.Keys == all;
        assert |a| == |a.Keys|;
      } else {
        var y :| y in Unassigned(a);
        var rest := all - {y};
        assert a.Keys <= rest;
        SubsetCard(a.Keys, rest);
        assert |rest| == |all| - 1;
        assert |a| == |a.Keys|;
      }
    }

    /**
     * Assigning y lowers x's degree by one when y is an unassigned neighbour
     * of x, and leaves it unchanged otherwise: degree is recomputed against
     * the live assignment.
     */
    lemma DegreeAfterAssign(a: map<V, int>, x: V, y: V, val: int)
      requires x in neighbors
      ensures Degree(a[y := val], x) == if y in neighbors[x] && y !in a then Degree(a, x) - 1 else Degree(a, x)
    {
      assert a[y := val].Keys == a.Keys + {y};
      MinusOneMore(ElemSet(neighbors[x]), a.Keys, y);
    }

    /**
     * `get_best_unassigned_var`: `min` over the unassigned variables by the
     * key `(mvr(x), -degree(x))`. The scan visits the candidates in an
     * arbitrary order, so when keys tie, any of the tied variables may be
     * returned; the result is an unassigned variable with no unassigned
     * variable strictly before it.
     */
    method GetBestUnassignedVar(a: map<V, int>) returns (best: V)
      requires Valid() && Unassigned(a) != {}
      ensures best in variables && best !in a
      ensures forall y :: y in variables && y !in a ==> !KeyBefore(a, y, best)
    {
      var candidates := Unassigned(a);
      best :| best in candidates;
      var rest := candidates - {best};
      while rest != {}
        invariant rest <= candidates && best in candidates
        invariant forall y :: y in candidates - rest ==> !KeyBefore(a, y, best)
        decreases rest
      {
        var y :| y in rest;
        if KeyBefore(a, y, best) {
          forall z | z in candidates - rest ensures !KeyBefore(a, z, y) {
            assert !KeyBefore(a, z, best);
          }
          best := y;
        }
        rest := rest - {y};
      }
    }

    /**
     * The predicates stored for the ordered pair (nb, x). On a well-formed
     * problem the entry exists for every pair forward checking looks up.
     */
    function Preds(nb: V, x: V): set<Constraint> {
      if (nb, x) in constraints then constraints[(nb, x)] else {}
    }

    /**
     * Candidate value d of nb survives the assignment of x: every predicate
     * stored for (nb, x) holds of d, x's value, nb's partner's value and x's
     * partner's value.
     */
    predicate Viable(a: map<V, int>, x: V, nb: V, d: int, couple: Option<map<V, V>>) {
      forall c :: c in Preds(nb, x) ==>
        Eval(c, d, Get(a, x), PartnerValue(a, couple, nb), PartnerValue(a, couple, x))
    }

    /** The values of `values` that some predicate for (nb, x) rejects. */
    function NonViable(a: map<V, int>, x: V, nb: V, values: set<int>, couple: Option<map<V, V>>): set<int> {
      set d | d in values && !Viable(a, x, nb, d, couple)
    }

    /**
     * The innermost loop of `forward_checking`: candidate d of nb is checked
     * against every predicate for (nb, x), and logged for nb
     * (`removes.setdefault(nb, set()).add(d)`) when some predicate fails.
     */
    method CheckValue(a: map<V, int>, x: V, nb: V, d: int, removes: map<V, set<int>>,
                      couple: Option<map<V, V>>) returns (removes': map<V, set<int>>)
      requires (nb, x) in constraints
      ensures Viable(a, x, nb, d, couple) ==> removes' == removes
      ensures !Viable(a, x, nb, d, couple) ==> removes' == removes[nb := Logged(removes, nb) + {d}]
    {
      removes' := removes;
      var todo := constraints[(nb, x)];
      ghost var failed := false;
      while todo != {}
        invariant todo <= Preds(nb, x)
        invariant failed <==>
          (exists c :: c in Preds(nb, x) - todo && !Eval(c, d, Get(a, x), PartnerValue(a, couple, nb), PartnerValue(a, couple, x)))
        invariant removes' == if failed then removes[nb := Logged(removes, nb) + {d}] else removes
        decreases todo
      {
        var c :| c in todo;
        if !Eval(c, d, Get(a, x), PartnerValue(a, couple, nb), PartnerValue(a, couple, x)) {
          removes' := removes'[nb := Logged(removes', nb) + {d}];
          failed := true;
        }
        todo := todo - {c};
      }
    }

    /**
     * The loop of `forward_checking` over nb's domain: every value some
     * predicate for (nb, x) rejects is logged for nb, and nothing else in the
     * log changes. The domain itself is not touched here.
     */
    method LogConflicts(a: map<V, int>, x: V, nb: V, removes: map<V, set<int>>,
                        couple: Option<map<V, V>>) returns (removes': map<V, set<int>>)
      requires nb in domain && (nb, x) in constraints
      ensures removes' == LogAdd(removes, nb, NonViable(a, x, nb, domain[nb], couple))
    {
      removes' := removes;
      var values := domain[nb];
      var todo := values;
      ghost var done: set<int> := {};
      while todo != {}
        invariant todo <= values && done == values - todo
        invariant removes' == LogAdd(removes, nb, NonViable(a, x, nb, done, couple))
        decreases todo
      {
        var d := Pick(todo);
        removes' := CheckValue(a, x, nb, d, removes', couple);
        NonViableAdd(a, x, nb, done, d, couple);
        LogAddTwice(removes, nb, NonViable(a, x, nb, done, couple), if Viable(a, x, nb, d, couple) then {} else {d});
        done := done + {d};
        todo := todo - {d};
      }
      assert done == values;
    }

    /**
     * Where not-equal is the only predicate for (nb, x) and x holds val, the
     * only value of nb that forward checking rejects is val itself.
     */
    lemma NonViableNotEqual(a: map<V, int>, x: V, nb: V, values: set<int>, couple: Option<map<V, V>>)
      requires Preds(nb, x) == {NotEqual} && x in a
      ensures NonViable(a, x, nb, values, couple) == values * {a[x]}
    {
      forall d ensures Viable(a, x, nb, d, couple) <==> d != a[x] {
        assert Eval(NotEqual, d, Get(a, x), PartnerValue(a, couple, nb), PartnerValue(a, couple, x)) <==> d != a[x];
      }
    }

    /** Checking one more candidate adds it to the rejected values exactly when it is not viable. */
    lemma NonViableAdd(a: map<V, int>, x: V, nb: V, values: set<int>, d: int, couple: Option<map<V, V>>)
      ensures NonViable(a, x, nb, values + {d}, couple)
           == NonViable(a, x, nb, values, couple) + (if Viable(a, x, nb, d, couple) then {} else {d})
    {
    }

    /** Rejection looks only at the candidates it is given: fewer candidates, fewer rejected. */
    lemma NonViableMono(a: map<V, int>, x: V, nb: V, s: set<int>, t: set<int>, couple: Option<map<V, V>>)
      requires s <= t
      ensures NonViable(a, x, nb, s, couple) <= NonViable(a, x, nb, t, couple)
    {
    }

    /**
     * The values of v's candidates `values` that checking x rejects: those the
     * pass with pivot x rejects and, when x has a coupled partner, those the
     * pass with the partner as pivot rejects.
     */
    function Rejects(a: map<V, int>, x: V, couple: Option<map<V, V>>, v: V, values: set<int>): set<int> {
      NonViable(a, x, v, values, couple)
        + (if couple.Some? && x in couple.value then NonViable(a, couple.value[x], v, values, couple) else {})
    }

    /** Fewer candidates, fewer rejected, for both passes of a check. */
    lemma RejectsMono(a: map<V, int>, x: V, couple: Option<map<V, V>>, v: V, s: set<int>, t: set<int>)
      requires s <= t
      ensures Rejects(a, x, couple, v, s) <= Rejects(a, x, couple, v, t)
    {
      NonViableMono(a, x, v, s, t, couple);
      if couple.Some? && x in couple.value {
        NonViableMono(a, couple.value[x], v, s, t, couple);
      }
    }

    /**
     * Every value left in the domain of a listed neighbour of pivot passes
     * every predicate for (neighbour, pivot).
     */
    ghost predicate PassedFor(a: map<V, int>, pivot: V, couple: Option<map<V, V>>, d: map<V, set<int>>) {
      forall v, e :: pivot in neighbors && v in neighbors[pivot] && v in d && e in d[v] ==> Viable(a, pivot, v, e, couple)
    }

    /** What a passed check of x leaves behind: both pivots' neighbours hold only viable values. */
    ghost predicate Checked(a: map<V, int>, x: V, couple: Option<map<V, V>>, d: map<V, set<int>>) {
      PassedFor(a, x, couple, d) && (couple.Some? && x in couple.value ==> PassedFor(a, couple.value[x], couple, d))
    }

    /** Taking more values out keeps what is left viable. */
    lemma CheckedShrunk(a: map<V, int>, x: V, couple: Option<map<V, V>>, d: map<V, set<int>>, d': map<V, set<int>>)
      requires Checked(a, x, couple, d) && Shrunk(d', d)
      ensures Checked(a, x, couple, d')
    {
    }

    /**
     * The state of the log and the domains part-way through one
     * `forward_checking` call for x that started from domains d0 and log r0,
     * after visiting the neighbours in `visited`: the domains have the same
     * variables, every visited variable has one, and `PassAt` holds of every
     * variable.
     */
    ghost predicate PassState(a: map<V, int>, x: V, couple: Option<map<V, V>>, d0: map<V, set<int>>,
                              r0: map<V, set<int>>, d: map<V, set<int>>, r: map<V, set<int>>, visited: set<V>) {
      d.Keys == d0.Keys && visited <= d0.Keys && forall v :: PassAt(a, x, couple, d0, r0, d, r, visited, v)
    }

    /**
     * What the pass has done to v: a visited v has gained in the log exactly
     * the values of its starting domain that some predicate for (v, x) rejects
     * (its entry is created only when there is one), and its domain is its
     * starting domain minus everything logged for it; any other variable
     * keeps its log entry and its domain.
     */
    ghost predicate PassAt(a: map<V, int>, x: V, couple: Option<map<V, V>>, d0: map<V, set<int>>,
                           r0: map<V, set<int>>, d: map<V, set<int>>, r: map<V, set<int>>, visited: set<V>, v: V) {
      if v in visited then
        && v in d0 && v in d
        && Logged(r, v) == Logged(r0, v) + NonViable(a, x, v, d0[v], couple)
        && (v in r <==> v in r0 || NonViable(a, x, v, d0[v], couple) != {})
        && d[v] == d0[v] - Logged(r, v)
      else
        && (v in r <==> v in r0) && (v in r0 ==> r[v] == r0[v])
        && (v in d0 ==> v in d && d[v] == d0[v])
    }

    /** Before any neighbour is visited, the pass state holds trivially. */
    lemma PassStart(a: map<V, int>, x: V, couple: Option<map<V, V>>, d0: map<V, set<int>>, r0: map<V, set<int>>)
      ensures PassState(a, x, couple, d0, r0, d0, r0, {})
    {
      forall v ensures PassAt(a, x, couple, d0, r0, d0, r0, {}, v) {
      }
    }

    /**
     * Visiting one more neighbour nb (logging its rejected values, then
     * subtracting the log from its domain) extends the pass state by nb. A
     * second visit of the same neighbour changes nothing, because what is left
     * of its domain already passed every predicate.
     */
    lemma VisitStep(a: map<V, int>, x: V, couple: Option<map<V, V>>, d0: map<V, set<int>>, r0: map<V, set<int>>,
                    d: map<V, set<int>>, r: map<V, set<int>>, visited: set<V>, nb: V, r': map<V, set<int>>)
      requires nb in d0
      requires PassState(a, x, couple, d0, r0, d, r, visited)
      requires Logged(r', nb) == Logged(r, nb) + NonViable(a, x, nb, d[nb], couple)
      requires nb in r' <==> nb in r || NonViable(a, x, nb, d[nb], couple) != {}
      requires forall v :: v != nb ==> (v in r' <==> v in r) && (v in r ==> r'[v] == r[v])
      ensures PassState(a, x, couple, d0, r0, d[nb := d[nb] - Logged(r', nb)], r', visited + {nb})
      ensures nb in visited ==> d[nb] - Logged(r', nb) == d[nb]
    {
      assert PassAt(a, x, couple, d0, r0, d, r, visited, nb);
      if nb in visited {
        Revisit(a, x, couple, d0, r0, d, r, visited, nb, r');
        assert visited + {nb} == visited;
      } else {
        FirstVisit(a, x, couple, d0, r0, d, r, visited, nb, r');
      }
    }

    /** A second visit of a neighbour logs nothing new and leaves its domain as it was. */
    lemma Revisit(a: map<V, int>, x: V, couple: Option<map<V, V>>, d0: map<V, set<int>>, r0: map<V, set<int>>,
                  d: map<V, set<int>>, r: map<V, set<int>>, visited: set<V>, nb: V, r': map<V, set<int>>)
      requires nb in visited && nb in d
      requires PassAt(a, x, couple, d0, r0, d, r, visited, nb)
      requires Logged(r', nb) == Logged(r, nb) + NonViable(a, x, nb, d[nb], couple)
      requires nb in r' <==> nb in r || NonViable(a, x, nb, d[nb], couple) != {}
      requires forall v :: v != nb ==> (v in r' <==> v in r) && (v in r ==> r'[v] == r[v])
      ensures r' == r && d[nb] - Logged(r', nb) == d[nb]
      ensures d[nb := d[nb] - Logged(r', nb)] == d
    {
      forall e | e in d[nb] ensures Viable(a, x, nb, e, couple) {
        assert e in d0[nb] && e !in Logged(r, nb);
      }
      assert NonViable(a, x, nb, d[nb], couple) == {};
      assert Logged(r', nb) == Logged(r, nb);
      assert r'.Keys == r.Keys;
      forall v | v in r ensures r'[v] == r[v] {
        if v == nb {
          assert r'[v] == Logged(r', nb);
        }
      }
      assert d[nb] - Logged(r', nb) == d[nb];
    }

    /** A first visit of a neighbour extends the pass state by it. */
    lemma FirstVisit(a: map<V, int>, x: V, couple: Option<map<V, V>>, d0: map<V, set<int>>, r0: map<V, set<int>>,
                     d: map<V, set<int>>, r: map<V, set<int>>, visited: set<V>, nb: V, r': map<V, set<int>>)
      requires nb in d0 && nb !in visited
      requires PassState(a, x, couple, d0, r0, d, r, visited)
      requires Logged(r', nb) == Logged(r, nb) + NonViable(a, x, nb, d[nb], couple)
      requires nb in r' <==> nb in r || NonViable(a, x, nb, d[nb], couple) != {}
      requires forall v :: v != nb ==> (v in r' <==> v in r) && (v in r ==> r'[v] == r[v])
      ensures PassState(a, x, couple, d0, r0, d[nb := d[nb] - Logged(r', nb)], r', visited + {nb})
    {
      var d' := d[nb := d[nb] - Logged(r', nb)];
      var vis := visited + {nb};
      assert PassAt(a, x, couple, d0, r0, d, r, visited, nb);
      forall v ensures PassAt(a, x, couple, d0, r0, d', r', vis, v) {
        assert PassAt(a, x, couple, d0, r0, d, r, visited, v);
        if v != nb {
          assert Logged(r', v) == Logged(r, v);
        }
      }
    }

    /**
     * `forward_checking`: for each listed neighbour nb of x in order, log the
     * values of nb's domain that fail a predicate for (nb, x), replace nb's
     * domain by its old domain minus everything logged for nb, and stop with
     * `False` at the first neighbour whose domain is empty. Already assigned
     * neighbours are visited too. The ghost result k is the number of
     * neighbours visited.
     */
    method ForwardChecking(a: map<V, int>, x: V, removes: map<V, set<int>>, couple: Option<map<V, V>>)
      returns (ok: bool, removes': map<V, set<int>>, ghost k: nat, ghost visited: set<V>)
      requires Valid() && x in neighbors
      modifies this
      ensures Valid() && domain.Keys == old(domain).Keys
      ensures k <= |neighbors[x]| && (ok ==> k == |neighbors[x]|) && (!ok ==> 0 < k)
      ensures visited == ElemSet(neighbors[x][..k])
      // the check fails exactly when the last neighbour visited is wiped out
      ensures !ok ==> domain[neighbors[x][k - 1]] == {}
      ensures ok ==> forall v :: v in neighbors[x] ==> domain[v] != {}
      ensures !ok ==> forall v :: v in ElemSet(neighbors[x][..k - 1]) ==> domain[v] != {}
      // visited neighbours lose exactly their rejected values, which the log gains; nothing else changes
      ensures PassState(a, x, couple, old(domain), removes, domain, removes', visited)
    {
      var nbs := neighbors[x];
      ghost var d0 := domain;
      removes' := removes;
      var i := 0;
      visited := {};
      assert ElemSet(nbs[..0]) == {};
      PassStart(a, x, couple, d0, removes);
      while i < |nbs|
        invariant 0 <= i <= |nbs| && visited == ElemSet(nbs[..i])
        invariant domain.Keys == d0.Keys
        invariant forall v :: v in visited ==> domain[v] != {}
        invariant PassState(a, x, couple, d0, removes, domain, removes', visited)
      {
        var nb := nbs[i];
        removes' := VisitNeighbor(a, x, couple, d0, removes, removes', visited, nb);
        assert nbs[..i + 1] == nbs[..i] + [nb];
        ElemSetSnoc(nbs[..i], nb);
        i := i + 1;
        if domain[nb] == {} {
          ok, k := false, i;
          assert nbs[..k - 1] == nbs[..i - 1];
          visited := visited + {nb};
          ValidForSameKeys(d0, domain);
          return;
        }
        visited := visited + {nb};
      }
      ok, k := true, |nbs|;
      assert nbs[..k] == nbs;
      ValidForSameKeys(d0, domain);
    }

    /**
     * One step of the forward-checking loop: log nb's rejected values and
     * remove them from its domain.
     */
    method VisitNeighbor(a: map<V, int>, x: V, couple: Option<map<V, V>>, ghost d0: map<V, set<int>>,
                         ghost r0: map<V, set<int>>, removes: map<V, set<int>>, ghost visited: set<V>, nb: V)
      returns (removes': map<V, set<int>>)
      requires ValidFor(d0) && x in neighbors && nb in neighbors[x] && nb in domain
      requires PassState(a, x, couple, d0, r0, domain, removes, visited)
      requires forall v :: v in visited ==> domain[v] != {}
      modifies this
      ensures domain == old(domain)[nb := old(domain)[nb] - Logged(removes', nb)]
      ensures PassState(a, x, couple, d0, r0, domain, removes', visited + {nb})
      ensures forall v :: v in visited ==> domain[v] != {}
    {
      ghost var d := domain;
      removes' := LogConflicts(a, x, nb, removes, couple);
      LogAddFacts(removes, nb, NonViable(a, x, nb, d[nb], couple));
      domain := domain[nb := domain[nb] - Logged(removes', nb)];
      VisitStep(a, x, couple, d0, r0, d, removes, visited, nb, removes');
    }

    /** After a pass, what is left in a visited neighbour's domain passes every predicate. */
    lemma PassStateViable(a: map<V, int>, x: V, couple: Option<map<V, V>>, d0: map<V, set<int>>,
                          r0: map<V, set<int>>, d: map<V, set<int>>, r: map<V, set<int>>, visited: set<V>)
      requires PassState(a, x, couple, d0, r0, d, r, visited)
      ensures forall v, e :: v in visited && v in d && e in d[v] ==> Viable(a, x, v, e, couple)
    {
      forall v, e | v in visited && v in d && e in d[v] ensures Viable(a, x, v, e, couple) {
        assert PassAt(a, x, couple, d0, r0, d, r, visited, v);
        assert e in d0[v] && e !in NonViable(a, x, v, d0[v], couple);
      }
    }

    /** A pass leaves every variable it did not visit as it was. */
    lemma PassUnvisited(a: map<V, int>, x: V, couple: Option<map<V, V>>, d0: map<V, set<int>>,
                        r0: map<V, set<int>>, d: map<V, set<int>>, r: map<V, set<int>>, visited: set<V>)
      requires PassState(a, x, couple, d0, r0, d, r, visited)
      ensures forall v :: v in d0 && v !in visited ==> d[v] == d0[v]
      ensures forall v :: v !in visited ==> (v in r <==> v in r0) && (v in r0 ==> r[v] == r0[v])
    {
      forall v | v !in visited
        ensures v in d0 ==> d[v] == d0[v]
        ensures (v in r <==> v in r0) && (v in r0 ==> r[v] == r0[v])
      {
        assert PassAt(a, x, couple, d0, r0, d, r, visited, v);
      }
    }

    /** A pass keeps an exact log exact. */
    lemma PassLogExact(a: map<V, int>, x: V, couple: Option<map<V, V>>, base: map<V, set<int>>,
                       d0: map<V, set<int>>, r0: map<V, set<int>>, d: map<V, set<int>>, r: map<V, set<int>>,
                       visited: set<V>)
      requires LogExact(base, d0, r0)
      requires PassState(a, x, couple, d0, r0, d, r, visited)
      ensures LogExact(base, d, r)
    {
      forall v | v in r ensures v in base && r[v] <= base[v] {
        assert PassAt(a, x, couple, d0, r0, d, r, visited, v);
        if v in visited {
          assert d0[v] == base[v] - Logged(r0, v);
          assert NonViable(a, x, v, d0[v], couple) <= d0[v];
          assert Logged(r, v) == r[v];
        }
      }
      var p := Pruned(base, r);
      assert p.Keys == d.Keys;
      forall v | v in base ensures d[v] == p[v] {
        assert PassAt(a, x, couple, d0, r0, d, r, visited, v);
        assert d0[v] == base[v] - Logged(r0, v);
        if v in visited {
          assert NonViable(a, x, v, d0[v], couple) <= d0[v];
        } else {
          assert Logged(r, v) == Logged(r0, v);
        }
      }
    }

    /**
     * A pass over a log exact for its starting domains only takes values out,
     * and what it takes out of a variable's domain is rejected by a predicate
     * for (variable, x).
     */
    lemma PassPrunes(a: map<V, int>, x: V, couple: Option<map<V, V>>, base: map<V, set<int>>,
                     d0: map<V, set<int>>, r0: map<V, set<int>>, d: map<V, set<int>>, r: map<V, set<int>>,
                     visited: set<V>)
      requires LogExact(base, d0, r0)
      requires PassState(a, x, couple, d0, r0, d, r, visited)
      ensures Shrunk(d, d0)
      ensures forall v :: v in d0 ==> d0[v] - d[v] <= NonViable(a, x, v, d0[v], couple)
    {
      forall v | v in d0 ensures d[v] <= d0[v] && d0[v] - d[v] <= NonViable(a, x, v, d0[v], couple) {
        assert PassAt(a, x, couple, d0, r0, d, r, visited, v);
        if v in visited {
          assert d0[v] == base[v] - Logged(r0, v);
        }
      }
    }

    /** A pass over every listed neighbour of x leaves only viable values in them. */
    lemma PassComplete(a: map<V, int>, x: V, couple: Option<map<V, V>>, d0: map<V, set<int>>,
                       r0: map<V, set<int>>, d: map<V, set<int>>, r: map<V, set<int>>)
      requires x in neighbors
      requires PassState(a, x, couple, d0, r0, d, r, ElemSet(neighbors[x]))
      ensures PassedFor(a, x, couple, d)
    {
      PassStateViable(a, x, couple, d0, r0, d, r, ElemSet(neighbors[x]));
    }

    /** Two checks in a row take out no more than the two pivots together reject. */
    lemma TwoPassesPrune(a: map<V, int>, x: V, couple: Option<map<V, V>>,
                         d0: map<V, set<int>>, d1: map<V, set<int>>, d2: map<V, set<int>>)
      requires couple.Some? && x in couple.value
      requires Shrunk(d1, d0) && Shrunk(d2, d1)
      requires forall v :: v in d0 ==> d0[v] - d1[v] <= NonViable(a, x, v, d0[v], couple)
      requires forall v :: v in d1 ==> d1[v] - d2[v] <= NonViable(a, couple.value[x], v, d1[v], couple)
      ensures Shrunk(d2, d0)
      ensures forall v :: v in d0 ==> d0[v] - d2[v] <= Rejects(a, x, couple, v, d0[v])
    {
      forall v | v in d0 ensures d0[v] - d2[v] <= Rejects(a, x, couple, v, d0[v]) {
        NonViableMono(a, couple.value[x], v, d1[v], d0[v], couple);
      }
    }

    /** `assign`: record x's value in the assignment. */
    method Assign(asg: Assignment<V>, x: V, val: int)
      modifies asg
      ensures asg.entries == old(asg.entries)[x := val]
    {
      asg.entries := asg.entries[x := val];
    }

    /**
     * `restore`: remove x from the assignment and union every logged set back
     * into its variable's domain.
     */
    method Restore(asg: Assignment<V>, x: V, removed: map<V, set<int>>)
      requires x in asg.entries && removed.Keys <= domain.Keys
      modifies this, asg
      ensures asg.entries == old(asg.entries) - {x}
      ensures domain == Restored(old(domain), removed)
    {
      asg.entries := asg.entries - {x};
      var todo := removed.Keys;
      while todo != {}
        invariant todo <= removed.Keys
        invariant asg.entries == old(asg.entries) - {x}
        invariant domain.Keys == old(domain).Keys
        invariant forall v :: v in domain ==>
          domain[v] == old(domain)[v] + (if v in todo then {} else Logged(removed, v))
        decreases todo
      {
        var v := Pick(todo);
        domain := domain[v := domain[v] + removed[v]];
        todo := todo - {v};
      }
      forall v | v in domain ensures domain[v] == Restored(old(domain), removed)[v] {
      }
    }

    /** The variables a preassigned x may prune: its neighbours and, when coupled, its partner's. */
    ghost function Reached(x: V, couple: Option<map<V, V>>): set<V>
      requires Preassignable(x, couple)
    {
      ElemSet(neighbors[x]) + (if couple.Some? then ElemSet(neighbors[couple.value[x]]) else {})
    }

    /** What `preassign` looks up for a preassigned x. */
    ghost predicate Preassignable(x: V, couple: Option<map<V, V>>) {
      x in neighbors && (couple.Some? ==> x in couple.value && couple.value[x] in neighbors)
    }

    /** Every variable the first n items of a preassignment may prune. */
    ghost function Touched(items: seq<(V, int)>, n: nat, couple: Option<map<V, V>>): set<V>
      requires n <= |items|
      requires forall i :: 0 <= i < |items| ==> Preassignable(items[i].0, couple)
    {
      if n == 0 then {} else Touched(items, n - 1, couple) + Reached(items[n - 1].0, couple)
    }

    /**
     * A failed pass with pivot p, from d0 to d: it stopped at p's k-th listed
     * neighbour, which is wiped out, the neighbours before it are not, and no
     * variable past the stopping point changed.
     */
    ghost predicate StoppedAt(p: V, k: nat, d0: map<V, set<int>>, d: map<V, set<int>>)
      requires p in neighbors
    {
      && 0 < k <= |neighbors[p]| && neighbors[p][k - 1] in d && d[neighbors[p][k - 1]] == {}
      && (forall j :: 0 <= j < k - 1 ==> neighbors[p][j] in d && d[neighbors[p][j]] != {})
      && (forall v {:trigger Outside(v, ElemSet(neighbors[p][..k]))} ::
            v in d0 && Outside(v, ElemSet(neighbors[p][..k])) ==> v in d && d[v] == d0[v])
    }

    /**
     * A failed check of x, from d0 to d: either x's own pass failed
     * (`!first`) and the partner's pass never ran, or x's pass went through
     * and the partner's pass failed; the failing pass stopped at its k-th
     * neighbour.
     */
    ghost predicate Stopped(x: V, couple: Option<map<V, V>>, first: bool, k: nat, d0: map<V, set<int>>, d: map<V, set<int>>)
      requires Preassignable(x, couple)
    {
      if !first then StoppedAt(x, k, d0, d)
      else
        && couple.Some?
        && var y := couple.value[x];
        && 0 < k <= |neighbors[y]| && neighbors[y][k - 1] in d && d[neighbors[y][k - 1]] == {}
        && (forall j :: 0 <= j < k - 1 ==> neighbors[y][j] in d && d[neighbors[y][j]] != {})
        && (forall v {:trigger Outside(v, ElemSet(neighbors[y][..k]))} ::
              v in neighbors[x] && Outside(v, ElemSet(neighbors[y][..k])) ==> v in d && d[v] != {})
        && (forall v {:trigger Outside(v, ElemSet(neighbors[x]) + ElemSet(neighbors[y][..k]))} ::
              v in d0 && Outside(v, ElemSet(neighbors[x]) + ElemSet(neighbors[y][..k])) ==> v in d && d[v] == d0[v])
    }

    /** The partner's pass failed after x's went through: the check stopped in the partner's pass. */
    lemma PartnerStopped(x: V, couple: Option<map<V, V>>, k: nat, d0: map<V, set<int>>, d1: map<V, set<int>>, d2: map<V, set<int>>)
      requires Preassignable(x, couple) && couple.Some?
      requires forall v :: v in d0 && v !in ElemSet(neighbors[x]) ==> v in d1 && d1[v] == d0[v]
      requires forall v :: v in neighbors[x] ==> v in d1 && d1[v] != {}
      requires StoppedAt(couple.value[x], k, d1, d2)
      ensures Stopped(x, couple, true, k, d0, d2)
    {
      var y := couple.value[x];
      forall v | v in d0 && Outside(v, ElemSet(neighbors[x]) + ElemSet(neighbors[y][..k]))
        ensures v in d2 && d2[v] == d0[v]
      {
        assert Outside(v, ElemSet(neighbors[y][..k]));
      }
      forall v | v in neighbors[x] && Outside(v, ElemSet(neighbors[y][..k])) ensures v in d2 && d2[v] != {} {
      }
    }

    /**
     * One forward check with pivot p, against a log exact for base: the log
     * stays exact, the domains only lose values a predicate for (variable, p)
     * rejects, only p's listed neighbours change, and the flag says whether one
     * of them was wiped out; when none was, they hold only viable values.
     */
    method Propagate(a: map<V, int>, p: V, removes: map<V, set<int>>, couple: Option<map<V, V>>,
                     ghost base: map<V, set<int>>) returns (ok: bool, removes': map<V, set<int>>, ghost k: nat)
      requires Valid() && p in neighbors && LogExact(base, domain, removes)
      modifies this
      ensures Valid() && LogExact(base, domain, removes')
      ensures Shrunk(domain, old(domain))
      ensures forall v :: v in old(domain) ==> old(domain)[v] - domain[v] <= NonViable(a, p, v, old(domain)[v], couple)
      ensures forall v :: v in old(domain) && v !in ElemSet(neighbors[p]) ==> domain[v] == old(domain)[v]
      ensures !ok ==> exists v :: v in neighbors[p] && domain[v] == {}
      ensures ok ==> forall v :: v in neighbors[p] ==> domain[v] != {}
      ensures ok ==> PassedFor(a, p, couple, domain)
      // a failed pass stops at its k-th neighbour, the first one wiped out, and reaches no further
      ensures k <= |neighbors[p]| && (ok ==> k == |neighbors[p]|)
      ensures !ok ==> StoppedAt(p, k, old(domain), domain)
    {
      ghost var d0 := domain;
      ghost var visited;
      ok, removes', k, visited := ForwardChecking(a, p, removes, couple);
      PassLogExact(a, p, couple, base, d0, removes, domain, removes', visited);
      PassUnvisited(a, p, couple, d0, removes, domain, removes', visited);
      PassPrunes(a, p, couple, base, d0, removes, domain, removes', visited);
      assert visited <= ElemSet(neighbors[p]);
      if ok {
        assert neighbors[p][..k] == neighbors[p];
        PassComplete(a, p, couple, d0, removes, domain, removes');
      } else {
        assert neighbors[p][k - 1] in neighbors[p];
        forall v | v in d0 && Outside(v, ElemSet(neighbors[p][..k])) ensures v in domain && domain[v] == d0[v] {
          assert v !in visited;
        }
        forall j | 0 <= j < k - 1 ensures neighbors[p][j] in domain && domain[neighbors[p][j]] != {} {
          assert neighbors[p][j] in ElemSet(neighbors[p][..k - 1]);
        }
      }
    }

    /**
     * Forward-checks x and then, when coupled, x's partner, against the same
     * log; the log stays exact. `preassign` and the search both do this after
     * assigning x. The domains only shrink, and only by values one of the two
     * pivots rejects; when both checks pass, every value left in a neighbour
     * of either pivot is viable for that pivot.
     */
    method CheckBoth(a: map<V, int>, x: V, removes: map<V, set<int>>, couple: Option<map<V, V>>,
                     ghost base: map<V, set<int>>)
      returns (ok: bool, removes': map<V, set<int>>, ghost first: bool, ghost k: nat)
      requires Valid() && Preassignable(x, couple) && LogExact(base, domain, removes)
      modifies this
      ensures Valid() && LogExact(base, domain, removes')
      ensures !ok ==> exists v :: v in Reached(x, couple) && domain[v] == {}
      ensures ok ==> forall v :: v in Reached(x, couple) ==> domain[v] != {}
      ensures forall v :: v in old(domain) && v !in Reached(x, couple) ==> domain[v] == old(domain)[v]
      // pruning is sound: what goes is rejected by a predicate of one of the two pivots
      ensures Shrunk(domain, old(domain))
      ensures forall v :: v in old(domain) ==> old(domain)[v] - domain[v] <= Rejects(a, x, couple, v, old(domain)[v])
      // and complete: after a pass, no rejected value is left next to either pivot
      ensures ok ==> Checked(a, x, couple, domain)
      // `first` is the flag of x's own pass; the partner's pass runs only after it succeeds
      ensures (ok ==> first) && (couple.None? ==> first == ok)
      ensures !ok ==> Stopped(x, couple, first, k, old(domain), domain)
    {
      ghost var d0 := domain;
      ok, removes', k := Propagate(a, x, removes, couple, base);
      first := ok;
      if !ok || couple.None? {
        return;
      }
      var y := couple.value[x];
      ghost var d1 := domain;
      ok, removes', k := Propagate(a, y, removes', couple, base);
      if !ok {
        PartnerStopped(x, couple, k, d0, d1, domain);
      }
      TwoPassesPrune(a, x, couple, d0, d1, domain);
      TwoPassesReach(x, couple, d0, d1, domain);
      if ok {
        PassedForShrunk(a, x, couple, d1, domain);
      }
    }

    /**
     * Where the two passes of a check reach: the partner's pass changes only
     * the partner's neighbours, on top of what the first pass did to x's.
     */
    lemma TwoPassesReach(x: V, couple: Option<map<V, V>>, d0: map<V, set<int>>, d1: map<V, set<int>>, d2: map<V, set<int>>)
      requires Preassignable(x, couple) && couple.Some?
      requires forall v :: v in d0 && v !in ElemSet(neighbors[x]) ==> v in d1 && d1[v] == d0[v]
      requires forall v :: v in d1 && v !in ElemSet(neighbors[couple.value[x]]) ==> v in d2 && d2[v] == d1[v]
      requires forall v :: v in neighbors[x] ==> v in d1 && d1[v] != {}
      ensures forall v :: v in d0 && v !in Reached(x, couple) ==> v in d2 && d2[v] == d0[v]
      ensures (forall v :: v in neighbors[couple.value[x]] ==> v in d2 && d2[v] != {}) ==>
        forall v :: v in Reached(x, couple) ==> d2[v] != {}
    {
    }

    /** Taking more values out keeps what is left next to a pivot viable. */
    lemma PassedForShrunk(a: map<V, int>, p: V, couple: Option<map<V, V>>, d: map<V, set<int>>, d': map<V, set<int>>)
      requires PassedFor(a, p, couple, d) && Shrunk(d', d)
      ensures PassedFor(a, p, couple, d')
    {
    }

    /** The assignment `preassign` has built after its first n items; a later item overrides an earlier one. */
    ghost function AssignOf(items: seq<(V, int)>, n: nat): map<V, int>
      requires n <= |items|
    {
      if n == 0 then map[] else AssignOf(items, n - 1)[items[n - 1].0 := items[n - 1].1]
    }

    /** The values of v's candidates that the checks of the first n items reject, each under its own assignment. */
    ghost function RejectsUpTo(items: seq<(V, int)>, n: nat, couple: Option<map<V, V>>, v: V, values: set<int>): set<int>
      requires n <= |items|
    {
      if n == 0 then {}
      else RejectsUpTo(items, n - 1, couple, v, values) + Rejects(AssignOf(items, n), items[n - 1].0, couple, v, values)
    }

    /** Item j's check passed: what it leaves next to its pivots is viable under the assignment it was checked with. */
    ghost predicate ItemChecked(items: seq<(V, int)>, j: nat, couple: Option<map<V, V>>, d: map<V, set<int>>)
      requires j < |items|
    {
      Checked(AssignOf(items, j + 1), items[j].0, couple, d)
    }

    /** The checks of the first n items all passed, and their pivots' neighbours in d are still viable. */
    ghost predicate AllChecked(items: seq<(V, int)>, n: nat, couple: Option<map<V, V>>, d: map<V, set<int>>)
      requires n <= |items|
    {
      forall j :: 0 <= j < n ==> ItemChecked(items, j, couple, d)
    }

    /**
     * What the first n items of a preassignment have done to d0, leaving d
     * and the log: the log is exact, only the variables they reached changed,
     * and only values their checks reject were pruned.
     */
    ghost predicate Applied(items: seq<(V, int)>, n: nat, couple: Option<map<V, V>>,
                            d0: map<V, set<int>>, d: map<V, set<int>>, log: map<V, set<int>>)
      requires n <= |items|
      requires forall i :: 0 <= i < |items| ==> Preassignable(items[i].0, couple)
    {
      && Shrunk(d, d0) && LogExact(d0, d, log) && Touched(items, n, couple) <= d0.Keys
      && (forall v :: v in d0 && v !in Touched(items, n, couple) ==> d[v] == d0[v])
      && (forall v :: v in d0 ==> d0[v] - d[v] <= RejectsUpTo(items, n, couple, v, d0[v]))
    }

    /** No variable the first n items reached is wiped out in d. */
    ghost predicate Survived(items: seq<(V, int)>, n: nat, couple: Option<map<V, V>>, d: map<V, set<int>>)
      requires n <= |items|
      requires forall i :: 0 <= i < |items| ==> Preassignable(items[i].0, couple)
    {
      forall v :: v in Touched(items, n, couple) ==> v in d && d[v] != {}
    }

    /**
     * `preassign`: applies the fixed assignments in order to a fresh
     * assignment, forward-checking each variable and then its partner, all
     * against one log that is never restored. Returns `False` at the first
     * wipe-out. The ghost results are that log, the number of items
     * applied and, on `False`, the domains just before the failing item.
     */
    method Preassign(preassignment: seq<(V, int)>, couple: Option<map<V, V>>)
      returns (ok: bool, ghost removes: map<V, set<int>>, ghost done: nat, ghost before: map<V, set<int>>)
      requires Valid()
      requires forall i :: 0 <= i < |preassignment| ==> Preassignable(preassignment[i].0, couple)
      modifies this
      ensures Valid() && domain.Keys == old(domain).Keys
      // the pruning persists: the domains are the old ones minus one exact log
      ensures LogExact(old(domain), domain, removes)
      ensures done <= |preassignment| && (ok ==> done == |preassignment|) && (!ok ==> 0 < done)
      ensures !ok ==> exists v :: v in Reached(preassignment[done - 1].0, couple) && domain[v] == {}
      ensures ok ==> forall v :: v in Touched(preassignment, |preassignment|, couple) ==> v in domain && domain[v] != {}
      ensures forall v :: v in old(domain) && v !in Touched(preassignment, done, couple) ==>
        domain[v] == old(domain)[v]
      // only values some applied item's check rejects are pruned
      ensures forall v :: v in old(domain) ==> old(domain)[v] - domain[v] <= RejectsUpTo(preassignment, done, couple, v, old(domain)[v])
      // every item before the failing one passed its check, and what it leaves next to its pivots is still viable
      ensures AllChecked(preassignment, if ok then done else done - 1, couple, domain)
      // the failing item is the first: before it, no reached variable was empty and every item had passed
      ensures !ok ==> Shrunk(before, old(domain)) && Survived(preassignment, done - 1, couple, before)
      ensures !ok ==> AllChecked(preassignment, done - 1, couple, before)
      // and its own check took the domains from `before` to the final ones
      ensures !ok ==> Shrunk(domain, before)
      ensures !ok ==> forall v :: v in before && v !in Reached(preassignment[done - 1].0, couple) ==> domain[v] == before[v]
      ensures !ok ==> forall v :: v in before ==>
        before[v] - domain[v] <= Rejects(AssignOf(preassignment, done), preassignment[done - 1].0, couple, v, before[v])
    {
      var assign: map<V, int> := map[];
      var log: map<V, set<int>> := map[];
      ghost var d0 := domain;
      before := domain;
      EmptyLogExact(domain);
      ok := true;
      var i := 0;
      while i < |preassignment|
        invariant ok && i <= |preassignment| && assign == AssignOf(preassignment, i)
        invariant Applied(preassignment, i, couple, d0, domain, log)
        invariant Survived(preassignment, i, couple, domain)
        invariant AllChecked(preassignment, i, couple, domain)
      {
        var (x, val) := preassignment[i];
        assign := assign[x := val];
        before := domain;
        var passed;
        passed, log := PreassignItem(preassignment, i, assign, log, couple, d0);
        i := i + 1;
        if !passed {
          ok := false;
          break;
        }
      }
      removes, done := log, i;
      ValidForSameKeys(d0, domain);
    }

    /**
     * Item i of `preassign`: forward-check its variable and that variable's
     * partner against the shared log, on top of the pruning the earlier
     * items have done.
     */
    method PreassignItem(items: seq<(V, int)>, i: nat, a: map<V, int>, log: map<V, set<int>>,
                         couple: Option<map<V, V>>, ghost d0: map<V, set<int>>)
      returns (passed: bool, log': map<V, set<int>>)
      requires i < |items| && a == AssignOf(items, i + 1) && ValidFor(d0)
      requires forall j :: 0 <= j < |items| ==> Preassignable(items[j].0, couple)
      requires Applied(items, i, couple, d0, domain, log) && Survived(items, i, couple, domain)
      requires AllChecked(items, i, couple, domain)
      modifies this
      ensures Applied(items, i + 1, couple, d0, domain, log')
      ensures passed ==> Survived(items, i + 1, couple, domain)
      ensures !passed ==> exists v :: v in Reached(items[i].0, couple) && domain[v] == {}
      ensures AllChecked(items, if passed then i + 1 else i, couple, domain)
      // the step this item's check takes
      ensures Shrunk(domain, old(domain))
      ensures forall v :: v in old(domain) && v !in Reached(items[i].0, couple) ==> domain[v] == old(domain)[v]
      ensures forall v :: v in old(domain) ==> old(domain)[v] - domain[v] <= Rejects(a, items[i].0, couple, v, old(domain)[v])
    {
      ghost var d1 := domain;
      ValidForSameKeys(d0, domain);
      assert Preassignable(items[i].0, couple);
      ghost var first, k;
      passed, log', first, k := CheckBoth(a, items[i].0, log, couple, d0);
      ItemApplied(items, i, couple, d0, d1, domain, log, log');
      if passed {
        ItemSurvived(items, i, couple, d1, domain);
      }
      ItemsChecked(items, i, couple, d1, domain, passed);
    }

    /** Item i's check, pruning d1 to d2 under a new exact log, extends what the items before it did. */
    lemma ItemApplied(items: seq<(V, int)>, i: nat, couple: Option<map<V, V>>, d0: map<V, set<int>>,
                      d1: map<V, set<int>>, d2: map<V, set<int>>, log1: map<V, set<int>>, log2: map<V, set<int>>)
      requires i < |items| && forall j :: 0 <= j < |items| ==> Preassignable(items[j].0, couple)
      requires Applied(items, i, couple, d0, d1, log1)
      requires LogExact(d0, d2, log2) && Shrunk(d2, d1) && Reached(items[i].0, couple) <= d2.Keys
      requires forall v :: v in d1 && v !in Reached(items[i].0, couple) ==> d2[v] == d1[v]
      requires forall v :: v in d1 ==> d1[v] - d2[v] <= Rejects(AssignOf(items, i + 1), items[i].0, couple, v, d1[v])
      ensures Applied(items, i + 1, couple, d0, d2, log2)
    {
      ItemPrunes(items, i, couple, d0, d1, d2);
    }

    /** When item i's check wipes nothing out, every variable reached so far is still non-empty. */
    lemma ItemSurvived(items: seq<(V, int)>, i: nat, couple: Option<map<V, V>>, d1: map<V, set<int>>, d2: map<V, set<int>>)
      requires i < |items| && forall j :: 0 <= j < |items| ==> Preassignable(items[j].0, couple)
      requires Survived(items, i, couple, d1) && d2.Keys == d1.Keys
      requires forall v :: v in d1 && v !in Reached(items[i].0, couple) ==> d2[v] == d1[v]
      requires forall v :: v in Reached(items[i].0, couple) ==> v in d2 && d2[v] != {}
      ensures Survived(items, i + 1, couple, d2)
    {
    }

    /** Item i's passed check joins the earlier ones, whose pivots' neighbours stay viable as values go. */
    lemma ItemsChecked(items: seq<(V, int)>, i: nat, couple: Option<map<V, V>>,
                       d1: map<V, set<int>>, d2: map<V, set<int>>, passed: bool)
      requires i < |items| && Shrunk(d2, d1) && AllChecked(items, i, couple, d1)
      requires passed ==> Checked(AssignOf(items, i + 1), items[i].0, couple, d2)
      ensures AllChecked(items, if passed then i + 1 else i, couple, d2)
    {
      forall j | 0 <= j < (if passed then i + 1 else i) ensures ItemChecked(items, j, couple, d2) {
        if j < i {
          assert ItemChecked(items, j, couple, d1);
          CheckedShrunk(AssignOf(items, j + 1), items[j].0, couple, d1, d2);
        }
      }
    }

    /** The pruning of item i adds to that of the items before it no more than item i's check rejects. */
    lemma ItemPrunes(items: seq<(V, int)>, i: nat, couple: Option<map<V, V>>,
                     d0: map<V, set<int>>, d1: map<V, set<int>>, d2: map<V, set<int>>)
      requires i < |items| && Shrunk(d1, d0) && Shrunk(d2, d1)
      requires forall v :: v in d0 ==> d0[v] - d1[v] <= RejectsUpTo(items, i, couple, v, d0[v])
      requires forall v :: v in d1 ==>
        d1[v] - d2[v] <= Rejects(AssignOf(items, i + 1), items[i].0, couple, v, d1[v])
      ensures forall v :: v in d0 ==> d0[v] - d2[v] <= RejectsUpTo(items, i + 1, couple, v, d0[v])
    {
      forall v | v in d0 ensures d0[v] - d2[v] <= RejectsUpTo(items, i + 1, couple, v, d0[v]) {
        RejectsMono(AssignOf(items, i + 1), items[i].0, couple, v, d1[v], d0[v]);
      }
    }
  }
}
