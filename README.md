# Colored-Sudoku-Solver: the binary CSP engine

This project models the constraint-satisfaction engine of the Colored Sudoku
solver (`main.py`) in Dafny and proves properties of that model. It covers:

- the `CSP` class: the domain store, `degree`, `mvr`, `get_unassigned_vars`,
  `get_best_unassigned_var`, `forward_checking`, `assign`, `preassign` and
  `restore`;
- `simple_backtrack_search` and its inner `backtrack`;
- the two predicates `not_equal` and `s_comp`;
- the graph and constraint construction in `Sudoku.__init__` and
  `ColoredSudoku.__init__`.

Modules:

- `Wrappers`: `Option`, for Python's `None`.
- `Seqs`: list helpers (the set of a list's elements, duplicate-freeness,
  `range`, a filtered list).
- `Constraints`: the closed predicate type `Constraint = NotEqual | SComp`
  and `Eval`. Python's `TypeError` on comparing with `None` is modelled as a
  missing result that `s_comp` reads as satisfied.
- `Csp`: the engine.
  - `class CSP<V>` holds `variables`, `neighbors` and `constraints` as
    constants and `domain: map<V, set<int>>` as the one mutable field.
  - `class Assignment<V>` is the assignment dictionary that `backtrack`
    fills and returns.
  - Removal logs (`removes`, `removed`) are `map<V, set<int>>` values passed
    in and out. They are local to one attempt, so no aliasing is lost.
- `Search`: `Backtrack` and `TryValue` are mutually recursive. They
  terminate on the number of unassigned variables.
- `Sudoku` and `ColoredSudoku`: the instance builders, as functions, with
  lemmas about the structure they build. Each module also has a method that
  constructs the `CSP` object and proves it well formed.

Python iterates sets and dictionaries in an order the model leaves open:

- domain values;
- a neighbour's candidate values;
- the predicates of a pair;
- the log's entries;
- ties in `min`.

Each such choice is an arbitrary pick (`Pick` or `:|`), and every contract
holds whatever is picked. The preassignment dictionary is a sequence of
pairs in insertion order.

The central invariants:

- **Exact log** (`LogExact`). At every point of a search attempt, the
  removal log holds only values that were in their variable's domain when
  the attempt began. The current domains are those starting domains minus
  the log.
- **Exact restore** (`RestoreUndoesPrune`). Putting that log back gives
  exactly the starting domains.
- **Pass state** (`PassState`). After a forward check, each visited
  neighbour has lost exactly the values of its domain that some predicate
  rejects. That is all the log gains, and every other variable is
  untouched. What remains passes every predicate (`PassStateViable`).
- **Sound and complete pruning** (`Rejects`, `Checked`). A check of x
  (and its partner) removes only values that a predicate for one of the two
  pivots rejects. When it passes, every value left next to either pivot is
  viable. `preassign` carries both through its items, each under the
  assignment built up to that item (`RejectsUpTo`, `AllChecked`).
- **Search outcome.** `backtrack` returns the very assignment object it was
  given. It either completes the assignment with values from the domains
  or leaves the assignment and every domain exactly as they were.

One behaviour of the code is easy to misread. Two equal preassigned values
in one row do not make `preassign` return `False`: it returns `True` as long
as each cell keeps a second value. The reason is that `forward_checking`
prunes only the neighbours of the variable just assigned and never
re-checks that variable's own value against its pruned domain. The model
follows the code. `Sudoku.SharedLinePrunesOnlyValue` shows that each of the
two checks removes only the shared value from the other cell.

`ForwardChecking`'s contract states the pruning exactly (`PassState`).
That what remains passes every predicate is the separate lemma
`PassStateViable`.

## Model

| member | source | states |
|---|---|---|
| Constraints.Eval | main.py:147-155 | `not_equal` holds exactly when x's value is missing or differs from the candidate. `s_comp` holds when any compared value is missing, and otherwise exactly when the candidate is greater than x's value iff nb's partner's value is greater than x's partner's value |
| Constraints.Greater | main.py:153-155 | defined as Python's `>` with a `None` operand raising `TypeError`, the missing result; `SCompHolds` and `Eval` state what `s_comp` makes of it |
| Constraints.NotEqualHolds | main.py:147-148 | defined as the source expression `a != b`, with a missing value unequal to every number; `Eval` and `NonViableNotEqual` state its properties |
| Constraints.SCompBody | main.py:151-155 | the body of `s_comp` in Python's evaluation order, a comparison with `None` giving no result; `SCompHolds` states what it computes |
| Constraints.SCompHolds | main.py:151-155 | `s_comp`, evaluated in Python's order with `TypeError` caught: vacuously true when v2, vc1 or vc2 is missing, otherwise `(v1 > v2) == (vc1 > vc2)` |
| Constraints.SCompSymmetric | main.py:151-155 | with all four values present and both pairs distinct, checking the pair from either side gives the same verdict |
| Constraints.SCompAsymmetricOnEqualValues | main.py:151-155 | without distinct values, `s_comp` can hold from one side and fail from the other |
| Csp.CSP.constructor | main.py:7-12 | the fields are the given variables, neighbour lists, domains and constraint map |
| Csp.Get | main.py:34 | defined as the source expression `assigment.get(var, None)`, missing for an unassigned variable; `Viable`, `NonViableNotEqual` and `Eval` use it |
| Csp.PartnerValue | main.py:34-35 | defined as the source expression `assigment.get(couple.get(v, None), None)`: missing without a coupling, without a partner or with the partner unassigned; `Viable` uses it for both partner arguments |
| Csp.Logged | main.py:37 | defined as the source expression `removes.get(neighbor, set())`; `LogAddFacts`, `LogExact` and `RestoreUndoesPrune` use it |
| Csp.CSP.AssignOf | main.py:46-49 | defined as the `assign` dict that `preassign` has built after its first n items, each `self.assign` adding or overwriting one entry, so a later item overrides an earlier one; `Preassign`'s loop invariant ties its assignment to it |
| Csp.LogAdd | main.py:36 | defined as `removes.setdefault(neighbor, set()).add(dom)` over a set of values, the entry created only when one is added; `LogAddTwice` and `LogAddFacts` state its properties |
| Csp.Restored | main.py:57-58 | defined as the domains with every logged set unioned back; `RestoreUndoesPrune` and `Restore` state its properties |
| Csp.CSP.Degree | main.py:14-15 | defined as the source expression, the number of listed neighbours not yet assigned; `DegreeBounds` and `DegreeAfterAssign` state its properties |
| Csp.CSP.Mvr | main.py:17-18 | defined as the source expression, the size of the variable's domain; `GetBestUnassignedVar` states the choice it drives |
| Csp.CSP.Unassigned | main.py:24-25 | defined as the source expression, the variables minus the assigned ones; `AssignShrinksUnassigned` and `CompleteIffNoneUnassigned` state its properties |
| Csp.CSP.KeyBefore | main.py:22 | defined as Python's tuple order on the key `(mvr(y), -1 * degree(y))`, strictly before x's; `GetBestUnassignedVar` states the minimum |
| Csp.CSP.DegreeBounds | main.py:14-15 | `degree` is at most the length of the neighbour list, and is zero exactly when every listed neighbour is assigned |
| Csp.CSP.DegreeAfterAssign | main.py:14-15 | assigning y lowers x's degree by one exactly when y is an unassigned neighbour of x, and otherwise leaves it unchanged |
| Csp.CSP.AssignShrinksUnassigned | main.py:24-25 | assigning an unassigned variable removes exactly that variable from `get_unassigned_vars`, so the count drops by one |
| Csp.CSP.CompleteIffNoneUnassigned | main.py:63 | the test `len(assign) == len(variables)` holds exactly when no variable is unassigned |
| Csp.CSP.GetBestUnassignedVar | main.py:17-22 | returns an unassigned variable, and no unassigned variable has a strictly smaller key `(mvr, -degree)` in tuple order |
| Csp.CSP.CheckValue | main.py:33-36 | the candidate d is logged for nb exactly when some predicate for (nb, x) rejects it; otherwise the log is unchanged |
| Csp.CSP.Preds | main.py:33 | defined as the predicate set `constraints[(neighbor, var)]`, which `Valid` requires to exist; `CheckValue` and `NonViableNotEqual` use it |
| Csp.CSP.Viable | main.py:33-35 | defined as the inner predicate loop: every stored predicate accepts the candidate with x's value and the partners' values; `CheckValue`, `PassStateViable` and `NonViableAdd` state its role |
| Csp.CSP.NonViable | main.py:32-36 | defined as the candidates some predicate rejects, the values the loop logs; `LogConflicts`, `NonViableAdd` and `NonViableMono` state its properties |
| Csp.CSP.LogConflicts | main.py:32-36 | the log gains for nb exactly the values of nb's domain that some predicate rejects, and the entry is created only when there is one |
| Csp.LogAddTwice | main.py:36 | logging s and then t for one variable is logging their union |
| Csp.LogAddFacts | main.py:36 | entry by entry: v's logged set grows by s, v gets an entry exactly when it had one or s is non-empty, and other entries are kept |
| Csp.CSP.NonViableAdd | main.py:32-36 | checking one more candidate adds it to the rejected values exactly when a predicate rejects it |
| Csp.CSP.NonViableNotEqual | main.py:33-36 | when not-equal is the only predicate for (nb, x), the rejected values of nb are exactly x's value, if present |
| Csp.CSP.NonViableMono | main.py:32-36 | fewer candidates give no more rejected values |
| Csp.CSP.RejectsMono | main.py:50-51 | the same for the two passes of a check together |
| Csp.CSP.CheckedShrunk | main.py:37 | removing more values keeps everything left next to both pivots viable |
| Csp.CSP.PassedForShrunk | main.py:37 | removing more values keeps everything left next to one pivot viable |
| Csp.CSP.ForwardChecking | main.py:27-40 | visits the listed neighbours in order and stops after k of them. It returns `False` exactly when the last visited neighbour's domain is empty, and then every earlier one is non-empty. On `True`, every neighbour's domain is non-empty. The pass state holds: visited neighbours lost exactly their rejected values, which the log gained, and nothing else changed |
| Csp.CSP.VisitNeighbor | main.py:32-38 | one neighbour step: nb's domain becomes its old domain minus its logged values, no other domain changes, and the pass state extends by nb |
| Csp.CSP.VisitStep | main.py:32-38 | logging nb's rejected values and subtracting its log extends the pass state by nb; a second visit of nb changes nothing |
| Csp.CSP.Revisit | main.py:31-38 | visiting an already visited neighbour again logs nothing and leaves its domain unchanged |
| Csp.CSP.FirstVisit | main.py:31-38 | a first visit of nb extends the pass state by nb |
| Csp.CSP.PassStart | main.py:31 | before any neighbour is visited, the pass state holds with nothing changed |
| Csp.CSP.PassStateViable | main.py:32-37 | after the pass, every value left in a visited neighbour's domain satisfies every predicate for (neighbour, x) under the current assignment and coupling |
| Csp.CSP.PassUnvisited | main.py:31-39 | neighbours after the stopping point and all other variables keep their domains and their log entries |
| Csp.CSP.PassLogExact | main.py:36-37 | a pass keeps the log exact: it only holds values from the starting domains, and the domains are the starting domains minus the log |
| Csp.CSP.PassPrunes | main.py:32-37 | a pass only takes values out, and only values a predicate for (variable, x) rejects |
| Csp.CSP.PassComplete | main.py:31-40 | a pass that visits every listed neighbour leaves only viable values in them |
| Csp.CSP.Propagate | main.py:27-40 | one complete `forward_checking` call summarised: the log stays exact, only rejected values leave, only the pivot's neighbours change, `False` exactly when one of them is wiped out, and on `True` they hold only viable values. On `False` the pass stopped at its k-th listed neighbour, the first one wiped out (`StoppedAt`): the ones before it are non-empty and nothing past it was touched |
| Csp.CSP.StoppedAt | main.py:37-39 | defined as where a failed pass ends: at the k-th listed neighbour, which is empty, with the earlier neighbours non-empty and every variable past that neighbour unchanged; `Propagate` ensures it on `False` |
| Csp.CSP.Stopped | main.py:50-51 | defined as where a failed check of x ends: either x's own pass stopped (`StoppedAt`) and the partner's pass never ran, or x's pass went through, leaving x's neighbours non-empty, and the partner's pass stopped, touching nothing past its stopping point; `CheckBoth` and `AssignAndCheck` ensure it on `False` |
| Csp.CSP.PartnerStopped | main.py:69-70 | a partner's pass that fails after x's pass went through, and touched nothing else, ends the check in the partner's pass (`Stopped` with `first` true) |
| Csp.EmptyLogExact | main.py:67 | a fresh empty log is exact |
| Csp.RestoreUndoesPrune | main.py:55-58 | putting back an exact log gives precisely the domains the log started from |
| Csp.CSP.Assign | main.py:42-43 | the assignment gains x with value val and nothing else changes |
| Csp.CSP.Restore | main.py:55-58 | x is deleted from the assignment and every logged set is unioned back into its variable's domain |
| Csp.CSP.CheckBoth | main.py:69-70 | forward checks x, then x's partner when coupled, against one log that stays exact. `False` means some neighbour of x or its partner is wiped out; `True` means none is. Variables outside those neighbourhoods are untouched. The domains only shrink, and a value goes only if a predicate for (variable, x) or (variable, partner) rejects it (`Rejects`). On `True`, every value left next to either pivot passes every predicate for that pivot (`Checked`). `first` is the flag of x's own pass: `True` needs it, and without a coupling it is the result. On `False` the check stopped at the first wipe-out (`Stopped`): when x's pass failed, the partner's pass never ran, as the short-circuit `and` requires |
| Csp.CSP.TwoPassesPrune | main.py:69-70 | two passes in a row remove no more than the two pivots together reject from the starting domains |
| Csp.CSP.TwoPassesReach | main.py:69-70 | the two passes change only the neighbours of x and of its partner, and when neither wipes anything out none of them is empty |
| Csp.CSP.Preassign | main.py:45-53 | applies the items in order against one never-restored log; the domains end as the old domains minus that exact log. `False` comes at the first item whose check wipes out a domain of a variable it reaches: just before that item (`before`), no variable any earlier item reached is empty and every earlier item passed, and that item's check alone takes `before` to the final domains, changing only what it reaches and only by what it rejects. `True` means every variable the items could prune is non-empty. Variables no applied item reaches keep their domains. Only values that some applied item's check rejects, under the assignment built up to that item, are pruned (`RejectsUpTo`). Every item before the failing one, or every item on `True`, passed: what is left next to its pivots is viable under its assignment (`AllChecked`) |
| Csp.CSP.PreassignItem | main.py:49-52 | one item: its check extends what the first i items did (`Applied`) to the first i+1; on success no reached variable is wiped out (`Survived`) and the item joins the passed ones (`AllChecked`); on failure a domain of a variable the item reaches is empty. Its own step only shrinks the domains, only where it reaches and only by what it rejects |
| Csp.CSP.ItemApplied | main.py:48-52 | item i's pruning, bounded by what its check rejects, extends the exact log, the reach and the pruning bound of the first i items to the first i+1 |
| Csp.CSP.ItemSurvived | main.py:50-52 | when item i wipes nothing out, no variable reached by the first i+1 items is empty |
| Csp.CSP.ItemsChecked | main.py:50-52 | a passed item joins the earlier passed items, whose viability survives the later pruning |
| Csp.CSP.ItemPrunes | main.py:50-51 | item i's pruning adds no more than its check rejects to the pruning bound of the items before it |
| Search.UndoAssign | main.py:56 | deleting a freshly assigned variable gives back the assignment from before |
| Search.LogExactShrinks | main.py:37 | domains pruned by an exact log are subsets of the domains it started from |
| Search.SolutionStep | main.py:68-73 | a solution found after assigning x a value from its domain and pruning is a solution for the state before, with x holding that value |
| Search.AssignAndCheck | main.py:67-70 | assigns x and forward checks x and its partner with a fresh log that is exact for the domains at the call. `False` means a variable x or its partner reaches is wiped out, `True` that none is; nothing outside those neighbourhoods changes; only values the new assignment rejects next to x or its partner go; on `True`, what is left next to them is viable. On `False` the check stopped at the first wipe-out, and skipped the partner's pass when x's own pass failed (`Stopped`) |
| Search.TryValue | main.py:66-74 | one attempt succeeds with a solution in which x holds val, or leaves the assignment and every domain exactly as at the call |
| Search.Backtrack | main.py:62-75 | returns the same assignment object or null. An assignment that is already complete is returned with it and the domains untouched. On success the assignment holds every variable, keeps its old entries, takes each new value from the variable's domain at the call, and the domains have only shrunk. On null the assignment and all domains are as at the call |
| Search.SimpleBacktrackSearch | main.py:61-77 | the guarantees of `backtrack`, base case included, for the given preassigned assignment |
| Seqs.Range | main.py:83-88 | Python's `range(lo, hi)`: hi - lo elements (none when hi <= lo), exactly the integers from lo up to but not including hi, in increasing order; `ColoredSudoku` also uses it for its grid and domains at main.py:122-124 |
| Seqs.Without | main.py:87-88 | the comprehension filter `if y != v`: keeps exactly the elements other than v, stays duplicate-free, is one shorter when v occurs once, and is the input itself when v does not occur; the number facets' lists at main.py:129-130 reuse it through `Sudoku.Neighbors` |
| Sudoku.RowOf | main.py:87 | the list pairs the fixed row with each column in order, and contains exactly those pairs |
| Sudoku.ColOf | main.py:88 | the list pairs each row with the fixed column in order, and contains exactly those pairs |
| Sudoku.Neighbors | main.py:86-88 | defined as the source's list: the row then the column, without the cell; `NeighborsExactly`, `NeighborsIrreflexiveSymmetric` and `NeighborCount` state its properties |
| Sudoku.RowOfDistinct | main.py:87 | pairing a duplicate-free list with a row keeps it duplicate-free |
| Sudoku.ColOfDistinct | main.py:88 | pairing a duplicate-free list with a column keeps it duplicate-free |
| Sudoku.Grid | main.py:83 | `itertools.product` has `|rows| * |cols|` elements and contains exactly the pairs of a row and a column |
| Sudoku.GridDistinct | main.py:83 | the product of duplicate-free lists lists every pair once |
| Sudoku.Variables | main.py:83 | the variables are exactly the cells of the n-by-n grid |
| Sudoku.VariablesDistinct | main.py:83 | every cell is listed once |
| Sudoku.NeighborsExactly | main.py:86-88 | a cell's neighbours are exactly the other grid cells that share its row or column |
| Sudoku.NeighborsIrreflexiveSymmetric | main.py:86-88 | no cell neighbours itself, and the neighbour relation is symmetric |
| Sudoku.NeighborCount | main.py:86-88 | every cell has 2(n-1) neighbours, none listed twice |
| Sudoku.NeighborMap | main.py:85-88 | every variable has a neighbour list |
| Sudoku.Domains | main.py:84 | every variable has a domain |
| Sudoku.DomainsExactly | main.py:84 | every cell's starting domain is exactly 1..n |
| Sudoku.ConstraintMap | main.py:89 | the constraint map's keys are the ordered neighbour pairs |
| Sudoku.ConstraintMapExactly | main.py:89 | (x, y) has an entry exactly when y is a neighbour of the grid cell x, and that entry is `{not_equal}` |
| Sudoku.NeighborMapClosed | main.py:86-89 | a listed neighbour has a domain and a predicate set for the reverse pair |
| Sudoku.NewSudoku | main.py:82-90 | builds the CSP from the grid's variables, neighbour lists, domains and constraints, and the engine's well-formedness holds |
| Sudoku.SharedLinePrunesOnlyValue | main.py:31-37 | when a cell of v's row or column is assigned, forward checking removes from v's domain only that cell's value |
| ColoredSudoku.Lift | main.py:122 | the cells of one facet, in list order, exactly those of the given positions |
| ColoredSudoku.LiftDistinct | main.py:122 | lifting a duplicate-free list of positions keeps it duplicate-free |
| ColoredSudoku.Variables | main.py:122 | the variables are exactly the number and colour facets of the n-by-n grid's positions |
| ColoredSudoku.VariablesDistinct | main.py:122 | every variable is listed once |
| ColoredSudoku.Couple | main.py:125 | `couple` has an entry for every variable |
| ColoredSudoku.CoupleInvolution | main.py:125 | `couple` flips the facet flag, keeps the position, and is an involution without fixed points |
| ColoredSudoku.Partner | main.py:125 | defined as the source expression, flipping the facet flag; `CoupleInvolution` states its properties |
| ColoredSudoku.Steps | main.py:132-133 | the in-grid coordinates one step either side of b |
| ColoredSudoku.Adjacent | main.py:138 | defined as the guard as written: the column and row differences form one of the four unit steps; `AdjacentIff` states what it means |
| ColoredSudoku.AdjacentIff | main.py:138 | the unit-step guard holds exactly for positions at Manhattan distance one |
| ColoredSudoku.Neighbors | main.py:127-133 | defined as the source's lists for number and colour facets; `NeighborsExactly`, `NeighborsIrreflexiveSymmetric` and `NeighborCount` state its properties |
| ColoredSudoku.ConstraintsFor | main.py:134-139 | `not_equal`, plus `s_comp` under the unit-step guard; `ConstraintStructure` states the result |
| ColoredSudoku.NeighborsExactly | main.py:126-133 | number facets see the other number facets of their row and column; colour facets see the in-grid colour facets orthogonally next to them |
| ColoredSudoku.NeighborsIrreflexiveSymmetric | main.py:126-133 | the neighbour relation is irreflexive and symmetric |
| ColoredSudoku.NeighborCount | main.py:126-133 | neighbour lists are duplicate-free; number facets have 2(n-1) neighbours and colour facets at most 4 |
| ColoredSudoku.NeighborMap | main.py:126-133 | every variable has a neighbour list |
| ColoredSudoku.Domains | main.py:123-124 | every variable has a domain |
| ColoredSudoku.DomainsExactly | main.py:123-124 | number facets start with 1..n and colour facets with 1..m |
| ColoredSudoku.ConstraintMap | main.py:134-139 | the constraint map's keys are the ordered neighbour pairs |
| ColoredSudoku.ConstraintMapKeys | main.py:134-139 | (x, y) has an entry exactly when y is a neighbour of the grid variable x |
| ColoredSudoku.ConstraintStructure | main.py:134-139 | every pair carries `not_equal`; it carries `s_comp` exactly when the positions are orthogonally adjacent: always between colour facets, and between number facets only for next-door cells |
| ColoredSudoku.NeighborMapClosed | main.py:126-139 | a listed neighbour has a domain and a predicate set for the reverse pair |
| ColoredSudoku.NewColoredSudoku | main.py:119-142 | builds the CSP and the couple map, and the engine's well-formedness and coupling requirements hold |

## Left out

- `ColoredSudoku.parse`, `print_assigment` and `main` are console I/O and
  regular-expression tokenising, and are not modelled. The model's
  preassignment is the sequence of pairs that `parse` would build.
- Python's iteration order over sets and dictionaries and the choice among
  tied `min` keys are nondeterministic picks, not a fixed order. The
  determinism of a run is therefore not modelled.
- The `s_comp` exception is modelled as a missing value (`None`), not as an
  exception. Lookups that would raise `KeyError` are excluded by
  preconditions instead. This covers a missing predicate set for (nb, x), a
  variable without a neighbour list or domain, and a missing `couple` entry.
  `CSP.Valid`, `CSP.CoupleOk` and `CSP.Preassignable` say what is required,
  and the two builders prove it for their instances.
- Constraints are a closed datatype `{NotEqual, SComp}` evaluated by `Eval`, not
  arbitrary closures.
- `Sudoku` and `ColoredSudoku` are builder methods that return a `CSP`
  object, not subclasses. `colors_num` and the fields `n` and `m` belong to
  parsing and printing and are not modelled.
- Set objects are values. `restore`'s in-place `update` becomes a
  reassignment of the map entry, and `backtrack`'s `for val in
  csp.domain[var]` iterates a snapshot of the domain at the time. Both agree
  with the code: every set that `restore` updates was newly created by a
  forward check in the same attempt, so the set being iterated is never
  changed in place.
- Search.Backtrack: it requires the assignment's keys to be variables of the
  problem. The source assumes this, since its completeness test compares
  only lengths.
- Search.Backtrack: a returned solution is not claimed to satisfy every
  predicate, and failure is not claimed to mean no solution exists. The code
  does not check either. Forward checking never re-checks already assigned
  neighbours against their own values, so an `s_comp` edge can be violated.
  Completeness and soundness against brute force are outside this model.
- Csp.CSP.ForwardChecking: it requires `Valid()`, which includes that
  the variable list has no duplicates. forward_checking itself does not need
  this. The model demands it everywhere because with a repeated variable the
  completeness test at main.py:63 never holds, and the search ends at the
  `min` over an empty set at main.py:21 with a `ValueError`.
- Csp.CSP.Preassign: it requires `Valid()` and so the same duplicate-free
  variable list, for the same reason; preassign itself does not need it.
- Csp.CSP.Preassign: on `False` it states which item failed and the step
  that item's check took from `before`. It does not state where inside that
  check the failure happened: the first wiped-out neighbour, and the
  partner's pass skipped when the variable's own pass failed.
  `CheckBoth`, the call it makes for every item, states this (`Stopped`).
  The reason is verification cost. Carrying `Stopped` through the loop's
  proof pushes `Preassign` past the verifier's resource limit. `parse`
  (main.py:108) ignores the flag, and `main` searches from whatever domains
  are left. Those domains are still fully described: the old domains minus
  one exact log, changed only where the applied items reach, and only by
  what their checks reject. What is missing is how far into the failing
  item's check the pruning went.
- Csp.CSP.PreassignItem: for the same reason and with the same gap, it does
  not state `Stopped` for its item's check, although the `CheckBoth` call
  it makes does.
- Csp.CSP.Preassign: its removal log and the count of applied items are ghost
  results. The source keeps the log local and returns only the flag.
- `mvr`, `degree` and `get_unassigned_vars` are functions without their own
  `ensures`. `GetBestUnassignedVar`, `DegreeBounds`, `DegreeAfterAssign`,
  `AssignShrinksUnassigned` and `CompleteIffNoneUnassigned` state their
  properties.
