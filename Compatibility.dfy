/** `random_crystal.check_compatible` of pyxtal/crystal.py: can the atom
    counts of the conventional cell be spread over the Wyckoff positions of
    the group at all?

    The method reads two attributes of the crystal object, `numIons` and
    `wyckoffs_organized`, and changes none; here they are its parameters. */
module Compatibility {

  import opened Wyckoff

  /** `check_compatible` returns `False`, `True` or `0`; the caller tells
      `0` (every position used is fixed) apart from `False` with `is`. */
  datatype Verdict = Incompatible | Compatible | NoFreedom

  /** `op.rotation_matrix.all() != 0.0`: `all()` is true when every entry
      is non-zero. */
  predicate AllNonzero(m: seq<seq<int>>)
  {
    forall i, j :: 0 <= i < |m| && 0 <= j < |m[i]| ==> m[i][j] != 0
  }

  /** `np.allclose(op.rotation_matrix, np.zeros([3,3]))`: for integer
      entries, every entry is zero. */
  predicate IsZero(m: seq<seq<int>>)
  {
    forall i, j :: 0 <= i < |m| && 0 <= j < |m[i]| ==> m[i][j] == 0
  }

  predicate Is3x3(m: seq<seq<int>>)
  {
    |m| == 3 && forall i :: 0 <= i < 3 ==> |m[i]| == 3
  }

  /** A position without degrees of freedom: the rotation part of its first
      operation maps every point to the same site. */
  predicate Fixed(p: Position)
  {
    |p| > 0 && IsZero(p[0].rotation)
  }

  /** What the model requires of `wyckoffs_organized`: at least one group,
      non-empty groups of one multiplicity, non-empty positions, and 3x3
      rotation parts. An empty group makes the source raise an IndexError
      when it reads the first position of each group. An empty position
      makes the greedy reduction raise one when it reaches that position,
      and an empty last position breaks the divisibility test. On the free
      path the greedy does not run, so there an empty position other than
      the last raises nothing; the model leaves that case out. */
  predicate WellFormedTable(table: seq<seq<Position>>)
  {
    && |table| > 0
    && Uniform(table)
    && forall i, p: Position :: 0 <= i < |table| && p in table[i] ==> |p| > 0 && Is3x3(p[0].rotation)
  }

  /** `N_site[-1]`: the multiplicity of the last group. */
  function Smallest(table: seq<seq<Position>>): nat
    requires |table| > 0 && |table[|table| - 1]| > 0
  {
    |table[|table| - 1][0]|
  }

  /** `wyckoffs_organized[-1][-1]`: the last position of the last group. */
  function LastPosition(table: seq<seq<Position>>): Position
    requires |table| > 0 && |table[|table| - 1]| > 0
  {
    var g := table[|table| - 1];
    g[|g| - 1]
  }

  ghost predicate InTable(table: seq<seq<Position>>, p: Position)
  {
    exists i :: 0 <= i < |table| && p in table[i]
  }

  predicate DistinctPositions(ps: seq<Position>)
  {
    forall i, j :: 0 <= i < j < |ps| ==> ps[i] != ps[j]
  }

  /** The number of atoms a list of positions holds. */
  function Total(ps: seq<Position>): nat
  {
    if ps == [] then 0 else Total(ps[..|ps| - 1]) + |ps[|ps| - 1]|
  }

  function Flatten(pl: seq<seq<Position>>): seq<Position>
  {
    if pl == [] then [] else Flatten(pl[..|pl| - 1]) + pl[|pl| - 1]
  }

  /** The fixed positions in a list, in order: the list `removed_wyckoffs`
      grows into. */
  function FixedUses(ps: seq<Position>): seq<Position>
  {
    if ps == [] then []
    else
      var p := ps[|ps| - 1];
      FixedUses(ps[..|ps| - 1]) + (if Fixed(p) then [p] else [])
  }

  function Repeat(p: Position, k: nat): (r: seq<Position>)
    ensures |r| == k
  {
    if k == 0 then [] else Repeat(p, k - 1) + [p]
  }

  /** A history of positions taken: all from the table, and no fixed
      position taken twice, since a position with no freedom holds one set
      of atoms only. */
  ghost predicate Sound(table: seq<seq<Position>>, h: seq<Position>)
  {
    && (forall p :: p in h ==> InTable(table, p))
    && DistinctPositions(FixedUses(h))
  }

  /** A way to place every species: for species s a list of positions whose
      multiplicities add up to numIons[s]. */
  ghost predicate Placement(numIons: seq<nat>, table: seq<seq<Position>>, pl: seq<seq<Position>>)
  {
    && |pl| == |numIons|
    && (forall s :: 0 <= s < |pl| ==> Total(pl[s]) == numIons[s])
    && Sound(table, Flatten(pl))
  }

  ghost predicate OnlyFixed(h: seq<Position>)
  {
    forall p :: p in h ==> Fixed(p)
  }

  ghost predicate UsesFree(h: seq<Position>)
  {
    exists p :: p in h && !Fixed(p)
  }

  /** What the greedy reduction of `check_compatible` carries from one
      position to the next: what remains of the count, the list
      `removed_wyckoffs` and the flag `has_freedom`. */
  datatype Scan = Scan(remaining: nat, removed: seq<Position>, hasFreedom: bool)

  /** What the `while` loop leaves for one position wp, in closed form. A
      position that does not fit, or was taken before as fixed, changes
      nothing. A fixed position that fits is taken once and joins
      `removed_wyckoffs`. A free position that fits is taken as often as it
      fits, leaving the remainder modulo its multiplicity, and sets
      `has_freedom`. */
  function Take(wp: Position, st: Scan): Scan
    requires |wp| > 0
  {
    if st.remaining < |wp| || wp in st.removed then st
    else if IsZero(wp[0].rotation) then Scan(st.remaining - |wp|, st.removed + [wp], st.hasFreedom)
    else Scan(st.remaining % |wp|, st.removed, true)
  }

  /** The loop over the positions of one group, in order. */
  function ScanAll(x: seq<Position>, st: Scan): Scan
    requires forall p :: p in x ==> |p| > 0
  {
    if x == [] then st else Take(x[|x| - 1], ScanAll(x[..|x| - 1], st))
  }

  predicate NonEmptyPositions(table: seq<seq<Position>>)
  {
    forall i, p :: 0 <= i < |table| && p in table[i] ==> |p| > 0
  }

  /** The reduction over the whole table, group by group. */
  function Greedy(table: seq<seq<Position>>, st: Scan): Scan
    requires NonEmptyPositions(table)
  {
    if table == [] then st else ScanAll(table[|table| - 1], Greedy(table[..|table| - 1], st))
  }

  /** What one turn of the species loop hands to the next: nothing where
      the source returns False, otherwise `removed_wyckoffs` and
      `has_freedom`. */
  datatype Outcome = Refused | Carried(removed: seq<Position>, hasFreedom: bool)

  function SpeciesOutcome(numIon: nat, table: seq<seq<Position>>, removed: seq<Position>, hasFreedom: bool): Outcome
    requires WellFormedTable(table)
  {
    if numIon % Smallest(table) > 0 then Refused
    else if AllNonzero(LastPosition(table)[0].rotation) then Carried(removed, true)
    else
      var g := Greedy(table, Scan(numIon, removed, hasFreedom));
      if g.remaining != 0 then Refused else Carried(g.removed, g.hasFreedom)
  }

  /** The answer of `check_compatible` for the species still to check,
      given what the species before them left. */
  function Decide(numIons: seq<nat>, table: seq<seq<Position>>, removed: seq<Position>, hasFreedom: bool): Verdict
    requires WellFormedTable(table)
  {
    if numIons == [] then (if hasFreedom then Compatible else NoFreedom)
    else
      match SpeciesOutcome(numIons[0], table, removed, hasFreedom)
      case Refused => Incompatible
      case Carried(rm, hf) => Decide(numIons[1..], table, rm, hf)
  }

  /** When the last position has no zero rotation entry, every species
      whose count is a multiple of the smallest multiplicity is let
      through, and the answer is True as soon as one species was. */
  lemma {:induction false} FreeTableDecide(numIons: seq<nat>, table: seq<seq<Position>>,
                                           removed: seq<Position>, hasFreedom: bool)
    requires WellFormedTable(table) && AllNonzero(LastPosition(table)[0].rotation)
    requires forall s :: 0 <= s < |numIons| ==> numIons[s] % Smallest(table) == 0
    ensures Decide(numIons, table, removed, hasFreedom) == if |numIons| > 0 || hasFreedom then Compatible else NoFreedom
  {
    if numIons != [] {
      assert numIons[0] % Smallest(table) == 0;
      FreeTableDecide(numIons[1..], table, removed, true);
    }
  }

  /** A count that is not a multiple of the smallest multiplicity makes the
      answer False, whatever the species before it left. */
  lemma {:induction false} MisfitDecide(numIons: seq<nat>, table: seq<seq<Position>>,
                                        removed: seq<Position>, hasFreedom: bool, s: nat)
    requires WellFormedTable(table) && s < |numIons| && numIons[s] % Smallest(table) != 0
    ensures Decide(numIons, table, removed, hasFreedom) == Incompatible
  {
    if s > 0 {
      match SpeciesOutcome(numIons[0], table, removed, hasFreedom)
      case Refused =>
      case Carried(rm, hf) => MisfitDecide(numIons[1..], table, rm, hf, s - 1);
    }
  }

  lemma ModStep(n: nat, d: nat)
    requires 0 < d <= n
    ensures (n - d) % d == n % d
  {
    var q, r := (n - d) / d, (n - d) % d;
    assert n - d == q * d + r;
    assert n == (q + 1) * d + r;
    ModUnique(n, d, q + 1, r);
  }

  lemma ModUnique(n: nat, d: nat, q: nat, r: nat)
    requires 0 <= r < d && n == q * d + r
    ensures n % d == r
  {
    var q', r' := n / d, n % d;
    assert n == q' * d + r';
    if q' < q {
      MulGap(q', q, d);
    } else if q' > q {
      MulGap(q, q', d);
    }
  }

  lemma {:induction false} MulGap(a: nat, b: nat, d: nat)
    requires a < b
    ensures a * d + d <= b * d
  {
    if b > a + 1 {
      MulGap(a, b - 1, d);
      assert b * d == (b - 1) * d + d;
    } else {
      assert b * d == a * d + d;
    }
  }

  lemma ModSmall(n: nat, d: nat)
    requires n < d
    ensures n % d == n
  {
  }

  lemma TakeDone(wp: Position, st: Scan)
    requires |wp| > 0 && (st.remaining < |wp| || wp in st.removed)
    ensures Take(wp, st) == st
  {
  }

  ghost predicate RemovedFixed(st: Scan)
  {
    forall p :: p in st.removed ==> Fixed(p)
  }

  lemma {:induction false} ScanKeepsFixed(x: seq<Position>, st: Scan)
    requires (forall p :: p in x ==> |p| > 0) && RemovedFixed(st)
    ensures RemovedFixed(ScanAll(x, st))
  {
    if x != [] {
      ScanKeepsFixed(x[..|x| - 1], st);
    }
  }

  lemma {:induction false} GreedyKeepsFixed(table: seq<seq<Position>>, st: Scan)
    requires NonEmptyPositions(table) && RemovedFixed(st)
    ensures RemovedFixed(Greedy(table, st))
  {
    if table != [] {
      GreedyKeepsFixed(table[..|table| - 1], st);
      ScanKeepsFixed(table[|table| - 1], Greedy(table[..|table| - 1], st));
    }
  }

  /** When the last position of the table is free, the reduction leaves
      less than the smallest multiplicity: that position absorbs every
      remaining multiple of it. */
  lemma GreedyLastFree(table: seq<seq<Position>>, st: Scan)
    requires WellFormedTable(table) && !Fixed(LastPosition(table)) && RemovedFixed(st)
    ensures Greedy(table, st).remaining < Smallest(table)
  {
    LastPositionFacts(table);
    var g := table[|table| - 1];
    var wp := g[|g| - 1];
    GreedyKeepsFixed(table[..|table| - 1], st);
    var before := ScanAll(g[..|g| - 1], Greedy(table[..|table| - 1], st));
    ScanKeepsFixed(g[..|g| - 1], Greedy(table[..|table| - 1], st));
    assert wp !in before.removed;
    if before.remaining >= |wp| {
      assert Take(wp, before).remaining == before.remaining % |wp|;
    }
  }

  /** One turn of the `while` loop does not change what the loop leaves. */
  lemma TakeOnce(wp: Position, st: Scan, st': Scan)
    requires |wp| > 0 && st.remaining >= |wp| && wp !in st.removed
    requires st'.remaining == st.remaining - |wp|
    requires IsZero(wp[0].rotation) ==> st'.removed == st.removed + [wp] && st'.hasFreedom == st.hasFreedom
    requires !IsZero(wp[0].rotation) ==> st'.removed == st.removed && st'.hasFreedom
    ensures Take(wp, st') == Take(wp, st)
  {
    if !IsZero(wp[0].rotation) {
      ModStep(st.remaining, |wp|);
      if st.remaining - |wp| < |wp| {
        ModSmall(st.remaining - |wp|, |wp|);
      }
    }
  }

  /** Taking one more position keeps a history sound when it comes from the
      table and, if fixed, was not taken before. */
  lemma SoundSnoc(table: seq<seq<Position>>, h: seq<Position>, p: Position)
    requires Sound(table, h) && InTable(table, p)
    requires Fixed(p) ==> p !in FixedUses(h)
    ensures FixedUses(h + [p]) == FixedUses(h) + (if Fixed(p) then [p] else [])
    ensures Sound(table, h + [p])
  {
    assert (h + [p])[..|h|] == h;
  }

  /** `removed_wyckoffs` only ever holds fixed positions. */
  lemma {:induction false} FixedUsesAreFixed(ps: seq<Position>)
    ensures forall p :: p in FixedUses(ps) ==> Fixed(p)
  {
    if ps != [] {
      FixedUsesAreFixed(ps[..|ps| - 1]);
    }
  }

  /** k copies of a position hold k times its multiplicity. */
  lemma {:induction false} RepeatTotal(p: Position, k: nat)
    ensures Total(Repeat(p, k)) == k * |p|
  {
    if k > 0 {
      RepeatTotal(p, k - 1);
      assert Repeat(p, k)[..k - 1] == Repeat(p, k - 1);
      assert (k - 1) * |p| + |p| == k * |p|;
    }
  }

  /** Filling a count with k copies of one free position keeps a history
      sound and leaves its fixed positions as they were. */
  lemma {:induction false} RepeatFree(table: seq<seq<Position>>, h: seq<Position>, p: Position, k: nat)
    requires Sound(table, h) && InTable(table, p) && !Fixed(p)
    ensures FixedUses(h + Repeat(p, k)) == FixedUses(h)
    ensures Sound(table, h + Repeat(p, k))
  {
    if k > 0 {
      RepeatFree(table, h, p, k - 1);
      var h' := h + Repeat(p, k - 1);
      assert h + Repeat(p, k) == h' + [p];
      SoundSnoc(table, h', p);
    } else {
      assert h + Repeat(p, k) == h;
    }
  }

  /** What `wyckoffs_organized[-1][-1]` is in a well-formed table. */
  lemma LastPositionFacts(table: seq<seq<Position>>)
    requires WellFormedTable(table)
    ensures InTable(table, LastPosition(table))
    ensures |LastPosition(table)| == Smallest(table) > 0
    ensures AllNonzero(LastPosition(table)[0].rotation) ==> !Fixed(LastPosition(table))
  {
    var p := LastPosition(table);
    assert p in table[|table| - 1];
    if AllNonzero(p[0].rotation) {
      assert p[0].rotation[0][0] != 0;
    }
  }

  lemma ExactQuotient(n: nat, d: nat)
    requires d > 0 && n % d == 0
    ensures (n / d) * d == n
  {
  }

  /** The species whose count is let through as free: its placement by
      copies of the last position keeps the loop facts. */
  lemma FreeSpecies(table: seq<seq<Position>>, h0: seq<Position>, removed: seq<Position>,
                    hasFreedom: bool, numIon: nat)
    requires WellFormedTable(table) && numIon % Smallest(table) == 0
    requires AllNonzero(LastPosition(table)[0].rotation)
    requires Progress(table, h0, [], removed, hasFreedom, true)
    ensures Total(Repeat(LastPosition(table), numIon / Smallest(table))) == numIon
    ensures Progress(table, h0, Repeat(LastPosition(table), numIon / Smallest(table)), removed, true, true)
  {
    var p := LastPosition(table);
    var sm := Smallest(table);
    var k := numIon / sm;
    LastPositionFacts(table);
    ExactQuotient(numIon, sm);
    RepeatTotal(p, k);
    assert h0 + [] == h0;
    RepeatFree(table, h0, p, k);
  }

  /** The facts the greedy loops keep about the history h0 + used: it is
      sound, `removed_wyckoffs` lists its fixed positions, and
      `has_freedom` says whether it took a free position (or the species
      before were let through as free). */
  ghost predicate Progress(table: seq<seq<Position>>, h0: seq<Position>, used: seq<Position>,
                           removed: seq<Position>, hasFreedom: bool, lastFree: bool)
  {
    && Sound(table, h0 + used)
    && removed == FixedUses(h0 + used)
    && (!hasFreedom ==> OnlyFixed(h0 + used))
    && (hasFreedom ==> UsesFree(h0 + used) || lastFree)
  }

  /** One turn of the innermost `while` loop of `check_compatible`. */
  lemma TakePosition(table: seq<seq<Position>>, h0: seq<Position>, used: seq<Position>,
                     removed: seq<Position>, hasFreedom: bool, lastFree: bool, wp: Position)
    requires Progress(table, h0, used, removed, hasFreedom, lastFree)
    requires InTable(table, wp) && |wp| > 0 && wp !in removed
    ensures Total(used + [wp]) == Total(used) + |wp|
    ensures Progress(table, h0, used + [wp],
                     if IsZero(wp[0].rotation) then removed + [wp] else removed,
                     if IsZero(wp[0].rotation) then hasFreedom else true, lastFree)
  {
    SoundSnoc(table, h0 + used, wp);
    assert h0 + used + [wp] == h0 + (used + [wp]);
    assert (used + [wp])[..|used|] == used;
    assert wp in h0 + (used + [wp]);
    if UsesFree(h0 + used) {
      var q :| q in h0 + used && !Fixed(q);
      assert q in h0 + (used + [wp]);
    }
  }

  /** The facts the species loop of `check_compatible` keeps after s
      species: they are placed, each count is a multiple of the smallest
      multiplicity, and the history of all positions taken is sound. */
  ghost predicate Placed(numIons: seq<nat>, s: nat, table: seq<seq<Position>>, done: seq<seq<Position>>,
                         removed: seq<Position>, hasFreedom: bool, lastFree: bool)
  {
    && s <= |numIons| && |table| > 0 && |table[|table| - 1]| > 0 && Smallest(table) > 0
    && Placement(numIons[..s], table, done)
    && Progress(table, Flatten(done), [], removed, hasFreedom, lastFree)
    && forall t :: 0 <= t < s ==> numIons[t] % Smallest(table) == 0
  }

  /** Closing one species: its positions join the placement. */
  lemma FinishSpecies(numIons: seq<nat>, s: nat, table: seq<seq<Position>>, done: seq<seq<Position>>,
                      removed0: seq<Position>, hasFreedom0: bool,
                      used: seq<Position>, removed: seq<Position>, hasFreedom: bool, lastFree: bool)
    requires s < |numIons| && Placed(numIons, s, table, done, removed0, hasFreedom0, lastFree)
    requires Progress(table, Flatten(done), used, removed, hasFreedom, lastFree)
    requires Total(used) == numIons[s] && numIons[s] % Smallest(table) == 0
    ensures Placed(numIons, s + 1, table, done + [used], removed, hasFreedom, lastFree)
  {
    var pl := done + [used];
    assert pl[..|done|] == done;
    assert Flatten(pl) == Flatten(done) + used;
    assert Flatten(pl) + [] == Flatten(pl);
    forall t | 0 <= t < |pl|
      ensures Total(pl[t]) == numIons[..s + 1][t]
    {
      if t < s {
        assert pl[t] == done[t] && numIons[..s + 1][t] == numIons[..s][t];
      }
    }
  }

  /** After the last species the placement built so far witnesses the
      verdict. */
  lemma Conclude(numIons: seq<nat>, table: seq<seq<Position>>, done: seq<seq<Position>>,
                 removed: seq<Position>, hasFreedom: bool, lastFree: bool)
    requires Placed(numIons, |numIons|, table, done, removed, hasFreedom, lastFree)
    ensures forall t :: 0 <= t < |numIons| ==> numIons[t] % Smallest(table) == 0
    ensures Placement(numIons, table, done)
    ensures !hasFreedom ==> OnlyFixed(Flatten(done))
    ensures hasFreedom ==> UsesFree(Flatten(done)) || lastFree
  {
    assert numIons[..|numIons|] == numIons;
    assert Flatten(done) + [] == Flatten(done);
  }

  /** The greedy reduction of one species' count in `check_compatible`:
      group by group from the largest multiplicity, each position is taken
      while it fits in what remains and, if fixed, was not taken before.
      What remains, the new `removed_wyckoffs` and `has_freedom` are
      returned; the positions taken are the ghost result used. */
  method Reduce(numIon: nat, table: seq<seq<Position>>, removed0: seq<Position>, hasFreedom0: bool,
                ghost h0: seq<Position>, ghost lastFree: bool)
    returns (remaining: nat, removed: seq<Position>, hasFreedom: bool, ghost used: seq<Position>)
    requires WellFormedTable(table)
    requires Progress(table, h0, [], removed0, hasFreedom0, lastFree)
    ensures remaining <= numIon
    ensures !Fixed(LastPosition(table)) ==> remaining < Smallest(table)
    ensures Scan(remaining, removed, hasFreedom) == Greedy(table, Scan(numIon, removed0, hasFreedom0))
    ensures remaining + Total(used) == numIon
    ensures Progress(table, h0, used, removed, hasFreedom, lastFree)
  {
    ghost var st0 := Scan(numIon, removed0, hasFreedom0);
    remaining, removed, hasFreedom, used := numIon, removed0, hasFreedom0, [];
    for gi := 0 to |table|
      invariant Scan(remaining, removed, hasFreedom) == Greedy(table[..gi], st0)
      invariant remaining + Total(used) == numIon
      invariant Progress(table, h0, used, removed, hasFreedom, lastFree)
    {
      GroupInTable(table, gi);
      GreedyPrefix(table, gi, st0);
      remaining, removed, hasFreedom, used :=
        ScanGroup(table[gi], remaining, removed, hasFreedom, table, h0, used, lastFree);
    }
    ReduceDone(table, h0, st0, lastFree);
  }

  /** The scan of the first pi + 1 positions is that of the first pi
      followed by the loop for position pi. */
  lemma ScanPrefix(x: seq<Position>, pi: nat, st0: Scan)
    requires pi < |x| && forall p :: p in x ==> |p| > 0
    ensures ScanAll(x[..pi + 1], st0) == Take(x[pi], ScanAll(x[..pi], st0))
  {
    assert x[..pi + 1][..pi] == x[..pi];
  }

  /** The reduction over the first gi + 1 groups is that over the first gi
      followed by the scan of group gi. */
  lemma GreedyPrefix(table: seq<seq<Position>>, gi: nat, st0: Scan)
    requires WellFormedTable(table) && gi < |table|
    ensures Greedy(table[..gi + 1], st0) == ScanAll(table[gi], Greedy(table[..gi], st0))
  {
    assert table[..gi + 1][..gi] == table[..gi];
  }

  lemma ReduceDone(table: seq<seq<Position>>, h0: seq<Position>, st0: Scan, lastFree: bool)
    requires WellFormedTable(table) && Progress(table, h0, [], st0.removed, st0.hasFreedom, lastFree)
    ensures Greedy(table[..|table|], st0) == Greedy(table, st0)
    ensures !Fixed(LastPosition(table)) ==> Greedy(table, st0).remaining < Smallest(table)
  {
    assert table[..|table|] == table;
    FixedUsesAreFixed(h0 + []);
    if !Fixed(LastPosition(table)) {
      GreedyLastFree(table, st0);
    }
  }

  lemma GroupInTable(table: seq<seq<Position>>, gi: nat)
    requires WellFormedTable(table) && gi < |table|
    ensures |table[gi]| > 0 && forall p :: p in table[gi] ==> InTable(table, p) && |p| > 0
    ensures gi == |table| - 1 ==> LastPosition(table) == table[gi][|table[gi]| - 1]
    ensures |table[gi][|table[gi]| - 1]| == |table[gi][0]|
  {
    assert table[gi][|table[gi]| - 1] in table[gi];
  }

  /** The loop of `check_compatible` over the positions of one group. */
  method ScanGroup(x: seq<Position>, remaining0: nat, removed0: seq<Position>, hasFreedom0: bool,
                   ghost table: seq<seq<Position>>, ghost h0: seq<Position>, ghost used0: seq<Position>,
                   ghost lastFree: bool)
    returns (remaining: nat, removed: seq<Position>, hasFreedom: bool, ghost used: seq<Position>)
    requires |x| > 0 && forall p :: p in x ==> InTable(table, p) && |p| > 0
    requires Progress(table, h0, used0, removed0, hasFreedom0, lastFree)
    ensures remaining <= remaining0
    ensures !Fixed(x[|x| - 1]) ==> remaining < |x[|x| - 1]|
    ensures Scan(remaining, removed, hasFreedom) == ScanAll(x, Scan(remaining0, removed0, hasFreedom0))
    ensures remaining + Total(used) == remaining0 + Total(used0)
    ensures Progress(table, h0, used, removed, hasFreedom, lastFree)
  {
    remaining, removed, hasFreedom, used := remaining0, removed0, hasFreedom0, used0;
    for pi := 0 to |x|
      invariant remaining <= remaining0
      invariant Scan(remaining, removed, hasFreedom) == ScanAll(x[..pi], Scan(remaining0, removed0, hasFreedom0))
      invariant remaining + Total(used) == remaining0 + Total(used0)
      invariant Progress(table, h0, used, removed, hasFreedom, lastFree)
      invariant pi == |x| && !Fixed(x[|x| - 1]) ==> remaining < |x[|x| - 1]|
    {
      assert x[pi] in x;
      ScanPrefix(x, pi, Scan(remaining0, removed0, hasFreedom0));
      remaining, removed, hasFreedom, used :=
        TakeWhileFits(x[pi], remaining, removed, hasFreedom, table, h0, used, lastFree);
    }
    assert x[..|x|] == x;
  }

  /** The `while` loop of `check_compatible` for one position wp: take it
      while it fits in what remains and is not a fixed position taken
      before. A free position is left with less than one copy to place. */
  method TakeWhileFits(wp: Position, remaining0: nat, removed0: seq<Position>, hasFreedom0: bool,
                       ghost table: seq<seq<Position>>, ghost h0: seq<Position>, ghost used0: seq<Position>,
                       ghost lastFree: bool)
    returns (remaining: nat, removed: seq<Position>, hasFreedom: bool, ghost used: seq<Position>)
    requires InTable(table, wp) && |wp| > 0
    requires Progress(table, h0, used0, removed0, hasFreedom0, lastFree)
    ensures remaining <= remaining0
    ensures !Fixed(wp) ==> remaining < |wp|
    ensures Scan(remaining, removed, hasFreedom) == Take(wp, Scan(remaining0, removed0, hasFreedom0))
    ensures remaining + Total(used) == remaining0 + Total(used0)
    ensures Progress(table, h0, used, removed, hasFreedom, lastFree)
  {
    remaining, removed, hasFreedom, used := remaining0, removed0, hasFreedom0, used0;
    while remaining >= |wp| && wp !in removed
      invariant remaining <= remaining0
      invariant Take(wp, Scan(remaining, removed, hasFreedom)) == Take(wp, Scan(remaining0, removed0, hasFreedom0))
      invariant remaining + Total(used) == remaining0 + Total(used0)
      invariant Progress(table, h0, used, removed, hasFreedom, lastFree)
      decreases remaining
    {
      var op := wp[0];
      ghost var before := Scan(remaining, removed, hasFreedom);
      TakePosition(table, h0, used, removed, hasFreedom, lastFree, wp);
      remaining := remaining - |wp|;
      used := used + [wp];
      if IsZero(op.rotation) {
        removed := removed + [wp];
      } else {
        hasFreedom := true;
      }
      TakeOnce(wp, before, Scan(remaining, removed, hasFreedom));
    }
    TakeDone(wp, Scan(remaining, removed, hasFreedom));
    FixedUsesAreFixed(h0 + used);
  }

  /** The body of the species loop of `check_compatible` for one count:
      refuse a count that is not a multiple of the smallest multiplicity,
      let it through as free when the last position's first rotation has
      no zero entry, and otherwise reduce it greedily and refuse a non-zero
      remainder. fits is false exactly where the source returns False. */
  method CheckSpecies(numIon: nat, table: seq<seq<Position>>, removed0: seq<Position>, hasFreedom0: bool,
                      ghost h0: seq<Position>, ghost lastFree: bool)
    returns (fits: bool, removed: seq<Position>, hasFreedom: bool, ghost used: seq<Position>)
    requires WellFormedTable(table)
    requires lastFree == AllNonzero(LastPosition(table)[0].rotation)
    requires Progress(table, h0, [], removed0, hasFreedom0, lastFree)
    ensures numIon % Smallest(table) != 0 ==> !fits
    ensures numIon % Smallest(table) == 0 && lastFree ==> fits && hasFreedom
    ensures fits == SpeciesOutcome(numIon, table, removed0, hasFreedom0).Carried?
    ensures fits ==> SpeciesOutcome(numIon, table, removed0, hasFreedom0) == Carried(removed, hasFreedom)
    ensures fits ==> Total(used) == numIon && Progress(table, h0, used, removed, hasFreedom, lastFree)
  {
    removed, hasFreedom, used := removed0, hasFreedom0, [];
    var smallest := |table[|table| - 1][0]|;
    if numIon % smallest > 0 {
      return false, removed, hasFreedom, used;
    }
    LastPositionFacts(table);
    var op := LastPosition(table)[0];
    if AllNonzero(op.rotation) {
      FreeSpecies(table, h0, removed, hasFreedom, numIon);
      hasFreedom := true;
      used := Repeat(LastPosition(table), numIon / smallest);
      fits := true;
    } else {
      var remaining;
      remaining, removed, hasFreedom, used := Reduce(numIon, table, removed, hasFreedom, h0, lastFree);
      fits := remaining == 0;
    }
  }

  /** `check_compatible`: every count is checked in turn, with
      `removed_wyckoffs` and `has_freedom` carried from one species to the
      next. The answer is False on the first count refused, otherwise True
      if some position with freedom was used and `0` if none was. */
  method CheckCompatible(numIons: seq<nat>, table: seq<seq<Position>>) returns (r: Verdict)
    requires WellFormedTable(table)
    ensures r == Decide(numIons, table, [], false)
    ensures (exists s :: 0 <= s < |numIons| && numIons[s] % Smallest(table) != 0) ==> r == Incompatible
    ensures (&& |numIons| > 0 && AllNonzero(LastPosition(table)[0].rotation)
             && forall s :: 0 <= s < |numIons| ==> numIons[s] % Smallest(table) == 0) ==> r == Compatible
    ensures r != Incompatible ==>
              exists pl :: && Placement(numIons, table, pl)
                           && (r == NoFreedom ==> OnlyFixed(Flatten(pl)))
                           && (r == Compatible ==> UsesFree(Flatten(pl)) || AllNonzero(LastPosition(table)[0].rotation))
  {
    var hasFreedom := false;
    var removed: seq<Position> := [];
    ghost var lastFree := AllNonzero(LastPosition(table)[0].rotation);
    ghost var done: seq<seq<Position>> := [];
    assert Flatten(done) + [] == [];
    FreeTableCompatible(numIons, table);
    for s := 0 to |numIons|
      invariant Placed(numIons, s, table, done, removed, hasFreedom, lastFree)
      invariant Decide(numIons[s..], table, removed, hasFreedom) == Decide(numIons, table, [], false)
    {
      DecideStep(numIons, s, table, removed, hasFreedom);
      ghost var h0 := Flatten(done);
      ghost var removed0, hasFreedom0 := removed, hasFreedom;
      assert h0 + [] == h0;
      var fits;
      ghost var used;
      fits, removed, hasFreedom, used := CheckSpecies(numIons[s], table, removed, hasFreedom, h0, lastFree);
      if !fits {
        return Incompatible;
      }
      FinishSpecies(numIons, s, table, done, removed0, hasFreedom0, used, removed, hasFreedom, lastFree);
      done := done + [used];
    }
    Conclude(numIons, table, done, removed, hasFreedom, lastFree);
    assert numIons[|numIons|..] == [];
    r := if hasFreedom then Compatible else NoFreedom;
  }

  lemma FreeTableCompatible(numIons: seq<nat>, table: seq<seq<Position>>)
    requires WellFormedTable(table)
    ensures (&& |numIons| > 0 && AllNonzero(LastPosition(table)[0].rotation)
             && forall s :: 0 <= s < |numIons| ==> numIons[s] % Smallest(table) == 0) ==>
            Decide(numIons, table, [], false) == Compatible
  {
    if && |numIons| > 0 && AllNonzero(LastPosition(table)[0].rotation)
       && forall s :: 0 <= s < |numIons| ==> numIons[s] % Smallest(table) == 0 {
      FreeTableDecide(numIons, table, [], false);
    }
  }

  /** The answer for the species from s on is settled by species s and
      what it hands to the rest. */
  lemma DecideStep(numIons: seq<nat>, s: nat, table: seq<seq<Position>>, removed: seq<Position>, hasFreedom: bool)
    requires WellFormedTable(table) && s < |numIons|
    ensures Decide(numIons[s..], table, removed, hasFreedom) ==
              match SpeciesOutcome(numIons[s], table, removed, hasFreedom)
              case Refused => Incompatible
              case Carried(rm, hf) => Decide(numIons[s + 1..], table, rm, hf)
  {
    assert numIons[s..][1..] == numIons[s + 1..];
  }
}
