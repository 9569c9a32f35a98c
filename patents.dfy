/** The citation simulator (patents.py, and the older copy of the same
    class family in neutral-model.py).

    Records are formed generation by generation; each new record draws its
    parents ("citations") from a pool of ids of records in earlier
    generations, and every cited record's citation count is raised in place.

    The random draws are parameters. Each citing receives the parent count
    `x` the source draws with `randint`/`poisson`; every pool the source
    draws with `randint` or the multinomial generator arrives as a ready
    list of ids, and what the source demands of such a list (its length and
    the range of its ids) is the precondition `IsPool`. */
module Patents {
  import opened Collections

  /** `dist` in patents.py ('ave', 'poisson', any other string), `avg` in
      neutral-model.py (`Ave` when true, `Flat` when false). */
  datatype Dist = Flat | Ave | Poisson

  /** The attachment rules: `Uniform` and `PrefAging` of patents.py, and the
      neutral-model.py classes `Uniform`, `Preferential`, `Aging` and its
      `PrefAging` (here `NeutralPrefAging`). */
  datatype Attachment = Uniform | PrefAging(citesExp: nat) | Preferential | Aging | NeutralPrefAging
  {
    /** Keeps an aging-coefficient list. */
    predicate Ages()
    {
      PrefAging? || Aging? || NeutralPrefAging?
    }

    /** Draws pools from weights (every rule except `Uniform`). */
    predicate Weighted()
    {
      !Uniform?
    }

    /** Reads `citation_count[i]` for every `i < now_forming` in `update_weights`. */
    predicate ReadsCounts()
    {
      PrefAging? || Preferential? || NeutralPrefAging?
    }
  }

  /** A coefficient of the aging list. The numeric values are float powers and
      stay symbolic: `One` is the literal 1, `Seed(i)` is
      `(num_parents + 1 - i) ** -1.45`, and `AgePower(f)` is `f ** -age_exp`
      (`f ** -1.45` in neutral-model.py) for the `now_forming` value `f` at the
      update that inserted it. */
  datatype Coefficient = One | Seed(i: nat) | AgePower(formed: nat)

  /** The weight `offset + factor * coeff`. */
  datatype Weight = Weight(offset: nat, factor: nat, coeff: Coefficient)

  /** How a simulator call ended: normally, or with the exception the source
      raises (`ValueError` from `randint` on an empty range, `IndexError` from
      `pool.pop()` on an empty pool or from `citation_count[i]` past its end),
      or because the supplied draws ran out. */
  datatype Status = Ok | EmptyRange | PopFromEmpty | CountIndexError | NoMoreDraws

  /** The draws one generation consumes: a parent count per citing record, the
      pools drawn when the pool runs empty, and the pool drawn at the end. */
  datatype GenerationDraws = GenerationDraws(parentCounts: seq<int>, refills: seq<seq<int>>, nextPool: seq<int>)

  /** `__init__`'s rule for the parent-count bounds: with 'ave' the bounds are
      `min_parents` and `2 * num_parents - min_parents`, otherwise both are
      `num_parents`; either way their midpoint is `num_parents`. */
  function ParentBounds(dist: Dist, numParents: nat, minParents: int): (r: (int, int))
    ensures r.0 + r.1 == 2 * numParents
    ensures dist.Ave? ==> r.0 == minParents
    ensures !dist.Ave? ==> r.0 == r.1
  {
    if dist.Ave? then (minParents, numParents * 2 - minParents) else (numParents, numParents)
  }

  function Pow(b: nat, e: nat): nat
  {
    if e == 0 then 1 else b * Pow(b, e - 1)
  }

  /** The aging list before any update: `gen_len` ones in patents.py,
      `num_parents` seeds in neutral-model.py, none for the other rules. */
  function InitialAging(attachment: Attachment, genLen: nat, numParents: nat): (r: seq<Coefficient>)
    ensures attachment.PrefAging? ==> |r| == genLen
    ensures attachment.Aging? || attachment.NeutralPrefAging? ==> |r| == numParents
  {
    match attachment
    case PrefAging(_) => seq(genLen, _ => One)
    case Aging => seq(numParents, i requires 0 <= i => Seed(i))
    case NeutralPrefAging => seq(numParents, i requires 0 <= i => Seed(i))
    case _ => []
  }

  /** The aging list after `k` updates, the `j`-th made at `now_forming == j * gen_len`:
      each update inserts its coefficient at the front. */
  function AgingAfter(init: seq<Coefficient>, k: nat, genLen: nat): (r: seq<Coefficient>)
    ensures |r| == |init| + k
  {
    if k == 0 then init else [AgePower(k * genLen)] + AgingAfter(init, k - 1, genLen)
  }

  /** After `k` updates, generation `g < k` (the records `i` with
      `i // gen_len == g`) is weighted by the coefficient of age
      `(k - g) * gen_len`, the distance from the generation's first record to
      `now_forming`. */
  lemma {:induction false} AgingAfterAt(init: seq<Coefficient>, k: nat, genLen: nat, g: nat)
    requires g < k
    ensures AgingAfter(init, k, genLen)[g] == AgePower((k - g) * genLen)
  {
    if g > 0 {
      AgingAfterAt(init, k - 1, genLen, g - 1);
    }
  }

  /** When `now_forming == k * gen_len` after `k` updates, the index
      `i // gen_len` of every formed record `i` is within the aging list, and
      record `i` gets the coefficient of the age of its generation:
      `now_forming` minus the generation's first id. */
  lemma AgingIndexed(init: seq<Coefficient>, k: nat, genLen: nat, i: nat)
    requires genLen >= 1 && i < k * genLen
    ensures i / genLen < |AgingAfter(init, k, genLen)|
    ensures AgingAfter(init, k, genLen)[i / genLen] == AgePower(k * genLen - (i / genLen) * genLen)
  {
    var q := i / genLen;
    DivBelowMultiple(i, k, genLen);
    AgingAfterAt(init, k, genLen, q);
    MulSubDistributes(k, q, genLen);
  }

  lemma MulSubDistributes(a: nat, b: nat, c: nat)
    requires b <= a
    ensures (a - b) * c == a * c - b * c
  {
  }

  /** The weight of a record cited `count` times whose generation has
      coefficient `coeff`. */
  function WeightOf(attachment: Attachment, count: nat, coeff: Coefficient): Weight
  {
    match attachment
    case PrefAging(e) => Weight(0, 1 + Pow(count, e), coeff)
    case Preferential => Weight(0, 1 + count * 3, One)
    case Aging => Weight(0, 1, coeff)
    case NeutralPrefAging => Weight(1, Pow(count, 2), coeff)
    case Uniform => Weight(0, 0, One)
  }

  /** Every weighted rule gives every record a weight whose offset or factor
      is positive, so the weight is positive once its coefficient is (the
      coefficients are powers of positive numbers). */
  lemma WeightPositive(attachment: Attachment, count: nat, coeff: Coefficient)
    requires attachment.Weighted()
    ensures WeightOf(attachment, count, coeff).offset > 0 || WeightOf(attachment, count, coeff).factor > 0
  {
  }

  function Reversed(s: seq<int>): (r: seq<int>)
    ensures |r| == |s|
  {
    if s == [] then [] else [s[|s| - 1]] + Reversed(s[..|s| - 1])
  }

  /** The order in which `pool.pop()` yields ids when the pool is replaced by
      the next refill each time it runs empty: the pool from its end, then
      each refill from its end. */
  function PopOrder(pool: seq<int>, refills: seq<seq<int>>): seq<int>
  {
    if refills == [] then Reversed(pool)
    else PopOrder(pool, refills[..|refills| - 1]) + Reversed(refills[|refills| - 1])
  }

  /** The number of rows that contain `p`: how many records cite `p`. */
  function InDegree(rows: seq<seq<int>>, p: int): nat
  {
    if rows == [] then 0
    else InDegree(rows[..|rows| - 1], p) + (if p in rows[|rows| - 1] then 1 else 0)
  }

  lemma InDegreeAppend(rows: seq<seq<int>>, row: seq<int>, p: int)
    ensures InDegree(rows + [row], p) == InDegree(rows, p) + (if p in row then 1 else 0)
  {
    assert (rows + [row])[..|rows|] == rows;
  }

  lemma {:induction false} InDegreeEmptyRows(rows: seq<seq<int>>, p: int)
    requires forall c :: 0 <= c < |rows| ==> rows[c] == []
    ensures InDegree(rows, p) == 0
  {
    if rows != [] {
      InDegreeEmptyRows(rows[..|rows| - 1], p);
    }
  }

  /** Double counting: when no row repeats an id and every id is below `n`, the
      in-degrees of `0 .. n-1` add up to the number of parent entries. This is
      why `sum(citation_count)` equals the number of citations made. */
  lemma {:induction false} InDegreeSum(rows: seq<seq<int>>, n: nat)
    requires forall c :: 0 <= c < |rows| ==> Distinct(rows[c])
    requires forall c, e :: 0 <= c < |rows| && e in rows[c] ==> 0 <= e < n
    ensures Sum(seq(n, p => InDegree(rows, p))) == TotalLength(rows)
  {
    if rows == [] {
      assert seq(n, p => InDegree(rows, p)) == seq(n, _ => 0);
      SumZeros(n);
    } else {
      var init := rows[..|rows| - 1];
      var row := rows[|rows| - 1];
      assert rows == init + [row];
      InDegreeSum(init, n);
      var before := seq(n, p => InDegree(init, p));
      forall p | 0 <= p < n
        ensures seq(n, p => InDegree(rows, p))[p] == AddOnes(before, Members(row))[p]
      {
        InDegreeAppend(init, row, p);
      }
      assert seq(n, p => InDegree(rows, p)) == AddOnes(before, Members(row));
      SumAddOnes(before, Members(row));
      DistinctMembers(row);
      TotalLengthConcat(init, [row]);
      assert TotalLength([row]) == |row| + TotalLength([row][1..]);
    }
  }

  /** Record `c` belongs to generation `c / gen_len` and cites only records of
      earlier generations. */
  ghost predicate CitesEarlierGenerations(rows: seq<seq<int>>, genLen: nat)
    requires genLen >= 1
  {
    forall c, e :: 0 <= c < |rows| && e in rows[c] ==> 0 <= e < (c / genLen) * genLen
  }

  /** So every citation points to a smaller id and the citation graph is acyclic. */
  lemma CitesEarlierIdsOnly(rows: seq<seq<int>>, genLen: nat, c: nat, e: int)
    requires genLen >= 1 && CitesEarlierGenerations(rows, genLen)
    requires c < |rows| && e in rows[c]
    ensures 0 <= e < c && e / genLen < c / genLen
  {
    DivMultiple(c, genLen);
    DivBelowMultiple(e, c / genLen, genLen);
  }

  lemma DivMultiple(c: nat, g: nat)
    requires g >= 1
    ensures (c / g) * g <= c
  {
  }

  lemma DivBelowMultiple(e: nat, k: nat, g: nat)
    requires g >= 1 && e < k * g
    ensures e / g < k
  {
  }

  /** The parentage rows of the records formed so far agree with the citation
      counts `cc`: every record cites distinct records of earlier generations,
      and `cc[p]` is the number of records citing `p`. */
  ghost predicate ParentageInvariant(rows: seq<seq<int>>, genLen: nat, cc: seq<int>)
  {
    && genLen >= 1
    && CitesEarlierGenerations(rows, genLen)
    && (forall c :: 0 <= c < |rows| ==> Distinct(rows[c]))
    && (forall c, e :: 0 <= c < |rows| && e in rows[c] ==> e < |cc|)
    && (forall p :: 0 <= p < |cc| ==> cc[p] == InDegree(rows, p))
  }

  /** Generation 1: `gen_len` records without parents, all counts zero. */
  lemma ParentageStart(genLen: nat, n: nat)
    requires genLen >= 1
    ensures ParentageInvariant(seq(genLen, _ => []), genLen, seq(n, _ => 0))
  {
    var rows: seq<seq<int>> := seq(genLen, _ => []);
    forall p | 0 <= p < n
      ensures InDegree(rows, p) == 0
    {
      InDegreeEmptyRows(rows, p);
    }
  }

  /** One citing keeps the invariant: the new record's parents are distinct
      records of earlier generations, and each of their counts goes up by one. */
  lemma ParentageAppend(rows: seq<seq<int>>, row: seq<int>, genLen: nat, cc: seq<int>)
    requires ParentageInvariant(rows, genLen, cc)
    requires Distinct(row)
    requires forall e :: e in row ==> 0 <= e < (|rows| / genLen) * genLen && e < |cc|
    ensures ParentageInvariant(rows + [row], genLen, AddOnes(cc, Members(row)))
  {
    var rows' := rows + [row];
    assert rows'[|rows|] == row;
    forall p | 0 <= p < |cc|
      ensures AddOnes(cc, Members(row))[p] == InDegree(rows', p)
    {
      InDegreeAppend(rows, row, p);
    }
  }

  /** Conservation: the citation counts add up to the number of parent entries
      over all rows. */
  lemma ParentageSum(rows: seq<seq<int>>, genLen: nat, cc: seq<int>)
    requires ParentageInvariant(rows, genLen, cc)
    ensures Sum(cc) == TotalLength(rows)
  {
    assert cc == seq(|cc|, p => InDegree(rows, p));
    InDegreeSum(rows, |cc|);
  }

  /** The pops so far: `drawn` followed by what is left of the current pool
      (read from its end) is the pop order of the first pool and the `used`
      refills, and every id seen is below `bound`. */
  ghost predicate Drawing(pool: seq<int>, refills: seq<seq<int>>, bound: nat,
                          drawn: seq<int>, rest: seq<int>, used: nat)
  {
    && used <= |refills|
    && drawn + Reversed(rest) == PopOrder(pool, refills[..used])
    && (forall v :: v in rest ==> 0 <= v < bound)
    && (forall v :: v in drawn ==> 0 <= v < bound)
  }

  lemma PopKeepsDrawing(pool: seq<int>, refills: seq<seq<int>>, bound: nat,
                        drawn: seq<int>, rest: seq<int>, used: nat)
    requires Drawing(pool, refills, bound, drawn, rest, used) && rest != []
    ensures Drawing(pool, refills, bound, drawn + [rest[|rest| - 1]], rest[..|rest| - 1], used)
  {
    assert rest[|rest| - 1] in rest;
    assert Reversed(rest) == [rest[|rest| - 1]] + Reversed(rest[..|rest| - 1]);
    assert drawn + Reversed(rest) == (drawn + [rest[|rest| - 1]]) + Reversed(rest[..|rest| - 1]);
    var init := rest[..|rest| - 1];
    forall v | v in init
      ensures 0 <= v < bound
    {
      assert v in rest;
    }
  }

  lemma RefillKeepsDrawing(pool: seq<int>, refills: seq<seq<int>>, bound: nat,
                           drawn: seq<int>, used: nat)
    requires Drawing(pool, refills, bound, drawn, [], used) && used < |refills|
    requires forall v :: v in refills[used] ==> 0 <= v < bound
    ensures Drawing(pool, refills, bound, drawn, refills[used], used + 1)
  {
    assert refills[..used + 1][..used] == refills[..used];
    assert PopOrder(pool, refills[..used + 1]) == PopOrder(pool, refills[..used]) + Reversed(refills[used]);
  }

  /** The pop loop of `citing`: ids are popped from the end of the pool into
      the parent set while it has fewer than `x` members, a refill replaces the
      pool whenever a pop empties it, and the loop stops early once the set has
      `cap` members. `drawn` is every id popped, in order; `rest` is the pool
      left over. The parents number exactly `min(x, cap)` because the set grows
      by at most one member per pop. */
  method DrawParents(pool: seq<int>, x: int, cap: nat, refills: seq<seq<int>>, ghost bound: nat, ghost size: nat)
    returns (status: Status, parents: set<int>, rest: seq<int>, used: nat, ghost drawn: seq<int>)
    requires cap >= 1
    requires forall v :: v in pool ==> 0 <= v < bound
    requires |pool| > 0 || size == 0
    requires forall r :: r in refills ==> |r| == size && forall v :: v in r ==> 0 <= v < bound
    ensures used <= |refills|
    ensures status.Ok? || status.PopFromEmpty? || status.NoMoreDraws?
    ensures status.PopFromEmpty? ==> size == 0
    ensures status.Ok? ==> |parents| == Min(Max(x, 0), cap)
    ensures status.Ok? ==> parents == Members(drawn)
    ensures status.Ok? ==> drawn + Reversed(rest) == PopOrder(pool, refills[..used])
    ensures status.Ok? ==> forall v :: v in parents ==> 0 <= v < bound
    ensures status.Ok? ==> (forall v :: v in rest ==> 0 <= v < bound) && (|rest| > 0 || size == 0)
  {
    drawn := [];
    used := 0;
    rest := pool;
    parents := {};
    assert refills[..0] == [];
    while |parents| < x
      invariant Drawing(pool, refills, bound, drawn, rest, used)
      invariant parents == Members(drawn)
      invariant |parents| < cap
      invariant |parents| == 0 || |parents| <= x
      invariant |rest| > 0 || size == 0
      decreases |refills| - used, |rest|
    {
      if rest == [] {
        return PopFromEmpty, parents, rest, used, drawn;
      }
      var parent, exhausted;
      ghost var before := drawn;
      parent, rest, used, exhausted, drawn := PopParent(pool, refills, bound, size, drawn, rest, used);
      assert Members(drawn) == Members(before) + {parent};
      parents := parents + {parent};
      if exhausted {
        return NoMoreDraws, parents, rest, used, drawn;
      }
      if |parents| == cap {
        break;
      }
    }
    status := Ok;
  }

  /** One `pool.pop()` of `citing`, followed by `new_pool()` when the pop
      empties the pool; `exhausted` when a refill is due and none is left. */
  method PopParent(pool: seq<int>, refills: seq<seq<int>>, ghost bound: nat, ghost size: nat,
                   ghost drawn: seq<int>, rest: seq<int>, used: nat)
    returns (parent: int, rest': seq<int>, used': nat, exhausted: bool, ghost drawn': seq<int>)
    requires Drawing(pool, refills, bound, drawn, rest, used) && rest != []
    requires forall r :: r in refills ==> |r| == size && forall v :: v in r ==> 0 <= v < bound
    ensures parent == rest[|rest| - 1] && drawn' == drawn + [parent]
    ensures exhausted <==> |rest| == 1 && used == |refills|
    ensures !exhausted ==> Drawing(pool, refills, bound, drawn', rest', used') && (|rest'| > 0 || size == 0)
    ensures !exhausted ==> (used' == used && rest' == rest[..|rest| - 1]) || (used' == used + 1 && |rest| == 1)
    ensures used' <= |refills|
  {
    parent := rest[|rest| - 1];
    PopKeepsDrawing(pool, refills, bound, drawn, rest, used);
    rest' := rest[..|rest| - 1];
    drawn' := drawn + [parent];
    used' := used;
    exhausted := false;
    if |rest'| == 0 {
      if used == |refills| {
        exhausted := true;
        return;
      }
      assert refills[used] in refills;
      RefillKeepsDrawing(pool, refills, bound, drawn', used);
      rest' := refills[used];
      used' := used + 1;
    }
  }

  /** `Uniform.new_pool`'s upper bound for `randint(0, upper_bound)`, which
      includes it: `now_forming - now_forming % gen_len - 1`. */
  function UniformUpperBound(nowForming: nat, genLen: nat): int
    requires genLen >= 1
  {
    nowForming - nowForming % genLen - 1
  }

  /** While generation `g` is formed (`now_forming == g * gen_len + j`,
      `j < gen_len`), the ids `randint(0, upper_bound)` can return are exactly
      the ids of generations before `g`: the bound `IsPool` demands of every
      pool drawn in generation `g`. */
  lemma UniformPoolEarlier(g: nat, j: nat, genLen: nat, v: int)
    requires j < genLen
    ensures 0 <= v <= UniformUpperBound(g * genLen + j, genLen) <==> 0 <= v < g * genLen
  {
    DivOfOffset(g, genLen, j);
    assert (g * genLen + j) % genLen == j;
  }

  /** A run of a rule that reads the counts completes only when
      `num_records % gen_len` is 0 or 1: otherwise the last generation runs past
      `num_records` and `update_weights` reads `citation_count` past its end. */
  lemma CompletedRunFits(nowForming: nat, genLen: nat, numRecords: nat)
    requires genLen >= 1 && nowForming % genLen == 0
    requires nowForming + 1 >= numRecords && nowForming <= numRecords
    ensures numRecords % genLen == 0 || numRecords % genLen == 1
  {
    if nowForming + 1 == numRecords && genLen >= 2 {
      var q := nowForming / genLen;
      assert nowForming == q * genLen + nowForming % genLen;
      assert numRecords == q * genLen + 1;
      ModOfOffset(q, genLen, 1);
    }
  }

  /** The sizes of the rows a generation writes: record `k` asks for
      `parent_counts[k]` parents and gets `min(max(x, 0), cap)`. */
  function GenerationSizes(parentCounts: seq<int>, cap: nat): seq<nat>
  {
    seq(|parentCounts|, k requires 0 <= k < |parentCounts| => Min(Max(parentCounts[k], 0), cap))
  }

  /** The sizes of the rows the first `n` generations after the first write,
      the generation drawn from `schedule[k]` being capped at `k + 1`, its
      `gen_num`. */
  function ScheduleSizes(schedule: seq<GenerationDraws>, n: nat): seq<nat>
    requires n <= |schedule|
  {
    if n == 0 then [] else ScheduleSizes(schedule, n - 1) + GenerationSizes(schedule[n - 1].parentCounts, n)
  }

  /** Rows sized by their parent counts extend the row sizes by
      `GenerationSizes`. */
  lemma GenerationLengths(rows: seq<seq<int>>, gen: seq<seq<int>>, parentCounts: seq<int>, cap: nat)
    requires |gen| == |parentCounts|
    requires forall k :: 0 <= k < |gen| ==> |gen[k]| == Min(Max(parentCounts[k], 0), cap)
    ensures Lengths(rows + gen) == Lengths(rows) + GenerationSizes(parentCounts, cap)
  {
    assert forall i :: |rows| <= i < |rows| + |gen| ==> (rows + gen)[i] == gen[i - |rows|];
  }

  /** `rows` extends `prefix` by the rows of the first `n` generations drawn
      from `schedule`, each of the size its parent count asks for. */
  ghost predicate SizedRun(rows: seq<seq<int>>, prefix: seq<seq<int>>, schedule: seq<GenerationDraws>, n: nat)
  {
    prefix <= rows && n <= |schedule| && Lengths(rows) == Lengths(prefix) + ScheduleSizes(schedule, n)
  }

  lemma SizedRunStep(rows: seq<seq<int>>, prefix: seq<seq<int>>, schedule: seq<GenerationDraws>, n: nat,
                     next: seq<seq<int>>)
    requires SizedRun(rows, prefix, schedule, n) && n < |schedule| && rows <= next
    requires Lengths(next) == Lengths(rows) + GenerationSizes(schedule[n].parentCounts, n + 1)
    ensures SizedRun(next, prefix, schedule, n + 1)
  {
  }

  /** Row `j` of `rows` has the size its parent count asks for,
      `min(max(parent_counts[j], 0), cap)`. */
  ghost predicate SizedAs(rows: seq<seq<int>>, parentCounts: seq<int>, cap: nat)
  {
    |rows| <= |parentCounts| && forall j :: 0 <= j < |rows| ==> |rows[j]| == Min(Max(parentCounts[j], 0), cap)
  }

  lemma SizedAsAppend(rows: seq<seq<int>>, row: seq<int>, parentCounts: seq<int>, cap: nat)
    requires SizedAs(rows, parentCounts, cap) && |rows| < |parentCounts|
    requires |row| == Min(Max(parentCounts[|rows|], 0), cap)
    ensures SizedAs(rows + [row], parentCounts, cap)
  {
  }

  class Simulator {
    const numRecords: nat
    const numParents: nat
    const dist: Dist
    const minParents: int
    const maxParents: int
    const genLen: nat
    const attachment: Attachment
    /** `citation_count`: one list object, updated in place for the whole run. */
    const citationCount: array<int>

    var nowForming: nat
    var genNum: nat
    var pool: seq<int>
    /** The rows buffered for `counts.csv`: every one is the `citation_count`
        list itself, not a copy. */
    var counts: seq<array<int>>
    /** The rows buffered for `parentage.csv`. */
    var parentage: seq<seq<int>>
    /** What has been written to `counts.csv` and `parentage.csv`. */
    var countsWritten: seq<seq<int>>
    var parentageWritten: seq<seq<int>>
    var agingCoefficients: seq<Coefficient>
    var weights: seq<Weight>

    /** The parentage of every record formed so far, written or buffered. */
    ghost function Rows(): seq<seq<int>>
      reads this
    {
      parentageWritten + parentage
    }

    /** The first id of the generation being formed. */
    function GenStart(): nat
      reads this
    {
      genNum * genLen
    }

    /** `n` in `new_pool`. */
    function PoolSize(): nat
    {
      if attachment.Uniform? then genLen * numParents * 30 else genLen * numParents * 2
    }

    /** What `new_pool` can return while ids below `bound` exist: `n` ids in
        `[0, bound)`. For `Uniform` the bound is `randint`'s upper bound plus one,
        `now_forming - now_forming % gen_len`; for the weighted rules it is the
        number of weights, which is `now_forming` at the last update. */
    ghost predicate IsPool(p: seq<int>, bound: nat)
    {
      |p| == PoolSize() && forall v :: v in p ==> 0 <= v < bound
    }

    /** `randint` has a value to return (it raises `ValueError` on an empty range). */
    predicate Drawable()
    {
      dist.Poisson? || minParents <= maxParents
    }

    /** A parent count the source can draw: `poisson(num_parents)` or
        `randint(min_parents, max_parents)` inclusive. */
    ghost predicate IsParentDraw(x: int)
    {
      if dist.Poisson? then 0 <= x && (numParents == 0 ==> x == 0)
      else minParents <= x <= maxParents
    }

    /** Draws valid for the generation whose `gen_num` is `g`. */
    ghost predicate ValidDraws(d: GenerationDraws, g: nat)
    {
      && |d.parentCounts| == genLen
      && (forall k :: 0 <= k < genLen ==> Drawable() ==> IsParentDraw(d.parentCounts[k]))
      && (forall r :: r in d.refills ==> IsPool(r, g * genLen))
      && IsPool(d.nextPool, (g + 1) * genLen)
    }

    /** The aging list after `k` updates. */
    function AgingOf(k: nat): seq<Coefficient>
    {
      if attachment.Ages() then AgingAfter(InitialAging(attachment, genLen, numParents), k, genLen) else []
    }

    /** The state right after `__init__`. */
    ghost predicate Initial()
      reads this, citationCount
    {
      && genLen >= 1
      && citationCount.Length == numRecords
      && (forall p :: 0 <= p < numRecords ==> citationCount[p] == 0)
      && nowForming == 0 && genNum == 0
      && counts == [] && parentage == [] && countsWritten == [] && parentageWritten == []
      && agingCoefficients == AgingOf(0) && weights == []
    }

    /** The state between two citings of generation `gen_num`. */
    ghost predicate Valid()
      reads this, citationCount
    {
      Buffered() && ParentageInvariant(Rows(), genLen, citationCount[..])
    }

    /** Everything `Valid` asks except the agreement of the counts with the
        parentage; it does not depend on the counts themselves. */
    ghost predicate Buffered()
      reads this
    {
      && genLen >= 1
      && citationCount.Length == numRecords
      && genNum >= 1
      && |parentageWritten| == genNum * genLen
      && |countsWritten| == genNum * genLen
      && |parentage| <= genLen
      && nowForming == genNum * genLen + |parentage|
      && |counts| == |parentage|
      && (forall i :: 0 <= i < |counts| ==> counts[i] == citationCount)
      && (forall v :: v in pool ==> 0 <= v < GenStart())
      && (|pool| > 0 || PoolSize() == 0)
      && agingCoefficients == AgingOf(genNum)
    }

    /** `Patents.__init__` with its `define_citation_count`, `define_weights`
        and (for the aging rules) `define_aging_coefficients`. */
    constructor (numRecords: nat, numParents: nat, dist: Dist, minParents: int, genLen: nat, attachment: Attachment)
      requires genLen >= 1
      ensures Initial()
      ensures this.numRecords == numRecords && this.numParents == numParents && this.dist == dist
      ensures this.genLen == genLen && this.attachment == attachment
      ensures (this.minParents, this.maxParents) == ParentBounds(dist, numParents, minParents)
    {
      this.numRecords := numRecords;
      this.numParents := numParents;
      this.dist := dist;
      this.genLen := genLen;
      this.attachment := attachment;
      var bounds := ParentBounds(dist, numParents, minParents);
      this.minParents := bounds.0;
      this.maxParents := bounds.1;
      citationCount := new int[numRecords](_ => 0);
      weights := [];
      agingCoefficients := if attachment.Ages() then InitialAging(attachment, genLen, numParents) else [];
      nowForming := 0;
      genNum := 0;
      pool := [];
      counts := [];
      parentage := [];
      countsWritten := [];
      parentageWritten := [];
    }

    /** The count `update_weights` reads for record `i` (the rules that do not
        read counts see 0). */
    function CountAt(i: nat): nat
      reads this, citationCount
    {
      if attachment.ReadsCounts() && i < citationCount.Length && citationCount[i] >= 0 then citationCount[i] else 0
    }

    /** `aging_coefficients[i // gen_len]` for the aging rules, 1 for the others. */
    function CoeffAt(i: nat): Coefficient
      reads this
    {
      if attachment.Ages() && genLen >= 1 && i / genLen < |agingCoefficients| then agingCoefficients[i / genLen] else One
    }

    /** The base `update_weights` preceded by the rule's own: the aging rules
        insert `AgePower(now_forming)` at the front of the aging list, then the
        weighted rules list one weight per formed record, reading
        `citation_count[i]` (an `IndexError` past `num_records`) and
        `aging_coefficients[i // gen_len]`. The base part (normalising the
        weights to probabilities) is floating point and is not modelled. */
    method UpdateWeights() returns (status: Status)
      requires genLen >= 1 && citationCount.Length == numRecords
      requires nowForming == (genNum + 1) * genLen
      requires agingCoefficients == AgingOf(genNum)
      modifies this`agingCoefficients, this`weights
      ensures agingCoefficients == AgingOf(genNum + 1)
      ensures status == CountIndexError <==> attachment.ReadsCounts() && nowForming > numRecords
      ensures status != CountIndexError ==> status == Ok
      ensures status == CountIndexError ==> weights == old(weights)
      ensures status.Ok? && attachment.Uniform? ==> weights == old(weights)
      ensures status.Ok? && attachment.Weighted() ==> |weights| == nowForming
      ensures status.Ok? && attachment.Weighted() ==>
        forall i :: 0 <= i < |weights| ==> weights[i] == WeightOf(attachment, CountAt(i), CoeffAt(i))
    {
      if attachment.Ages() {
        agingCoefficients := [AgePower(nowForming)] + agingCoefficients;
      }
      if attachment.Uniform? {
        return Ok;
      }
      if attachment.ReadsCounts() && nowForming > numRecords {
        return CountIndexError;
      }
      var w: seq<Weight> := [];
      var i := 0;
      while i < nowForming
        invariant 0 <= i <= nowForming && |w| == i
        invariant forall j :: 0 <= j < i ==> w[j] == WeightOf(attachment, CountAt(j), CoeffAt(j))
      {
        w := w + [WeightOf(attachment, CountAt(i), CoeffAt(i))];
        i := i + 1;
      }
      weights := w;
      status := Ok;
    }

    /** `first_counts_and_parentage`: generation 1 is written at once, with no
        parents and with `gen_len` rows that are all the (zero) count list,
        and the first pool is drawn. */
    method FirstCountsAndParentage(firstPool: seq<int>)
      requires genLen >= 1 && citationCount.Length == numRecords
      requires forall p :: 0 <= p < numRecords ==> citationCount[p] == 0
      requires nowForming == genLen && genNum == 0
      requires countsWritten == [] && parentageWritten == []
      requires agingCoefficients == AgingOf(1)
      requires IsPool(firstPool, genLen)
      modifies this`genNum, this`counts, this`parentage, this`countsWritten, this`parentageWritten, this`pool
      ensures Valid() && parentage == [] && nowForming == GenStart() && genNum == 1
      ensures countsWritten == seq(genLen, _ => seq(numRecords, _ => 0))
      ensures parentageWritten == seq(genLen, _ => [])
      ensures pool == firstPool
    {
      genNum := 1;
      counts := seq(genLen, _ => citationCount);
      parentage := seq(genLen, _ => []);
      var snapshot := citationCount[..];
      countsWritten := countsWritten + seq(|counts|, _ => snapshot);
      parentageWritten := parentageWritten + parentage;
      counts := [];
      parentage := [];
      pool := firstPool;
      assert citationCount[..] == seq(numRecords, _ => 0);
      assert Rows() == seq(genLen, _ => []);
      ParentageStart(genLen, numRecords);
    }

    /** `citing`: one new record draws `x` parents, popping ids from the end of
        the pool (and drawing a new pool whenever it runs empty) until the set
        of parents has `x` members or as many as there are earlier generations;
        each parent's count goes up by one, and the parent list and the count
        list are appended to the buffers. `drawn` is every id popped, in order. */
    method Citing(x: int, refills: seq<seq<int>>) returns (status: Status, used: nat, ghost drawn: seq<int>)
      requires Valid() && |parentage| < genLen && GenStart() <= numRecords
      requires Drawable() ==> IsParentDraw(x)
      requires forall r :: r in refills ==> IsPool(r, GenStart())
      modifies this`pool, this`parentage, this`counts, this`nowForming, citationCount
      ensures used <= |refills|
      ensures status == EmptyRange <==> !Drawable()
      ensures status == PopFromEmpty ==> PoolSize() == 0
      ensures status.Ok? ==> Valid() && nowForming == old(nowForming) + 1
      ensures status.Ok? ==> |parentage| == |old(parentage)| + 1 && parentage[..|old(parentage)|] == old(parentage)
      ensures status.Ok? ==> counts == old(counts) + [citationCount]
      ensures status.Ok? ==>
        var row := parentage[|parentage| - 1];
        && |row| == Min(Max(x, 0), old(nowForming) / genLen)
        && (forall v :: v in row <==> v in drawn)
        && drawn + Reversed(pool) == PopOrder(old(pool), refills[..used])
        && citationCount[..] == AddOnes(old(citationCount[..]), Members(row))
        && Sum(citationCount[..]) == Sum(old(citationCount[..])) + |row|
    {
      if !Drawable() {
        return EmptyRange, 0, [];
      }
      DivOfOffset(genNum, genLen, |parentage|);
      var parents, rest;
      status, parents, rest, used, drawn := DrawParents(pool, x, nowForming / genLen, refills, GenStart(), PoolSize());
      pool := rest;
      if status != Ok {
        return;
      }
      var row := ListOfSet(parents);
      RecordParents(row);
    }

    /** The end of `citing`: `update_count` for each parent, then the parent
        list and the count list (the list object itself) are appended to the
        buffers and `now_forming` advances. */
    method RecordParents(row: seq<int>)
      requires Valid() && |parentage| < genLen && GenStart() <= numRecords
      requires Distinct(row) && forall e :: e in row ==> 0 <= e < GenStart()
      modifies this`parentage, this`counts, this`nowForming, citationCount
      ensures Valid() && nowForming == old(nowForming) + 1
      ensures parentage == old(parentage) + [row] && counts == old(counts) + [citationCount]
      ensures citationCount[..] == AddOnes(old(citationCount[..]), Members(row))
      ensures Sum(citationCount[..]) == Sum(old(citationCount[..])) + |row|
    {
      ghost var oldRows := Rows();
      ghost var before := citationCount[..];
      UpdateCounts(row);
      DistinctMembers(row);
      SumAddOnes(before, Members(row));
      DivOfOffset(genNum, genLen, |parentage|);
      assert |oldRows| / genLen * genLen == GenStart();
      ParentageAppend(oldRows, row, genLen, before);
      PushRow(row);
    }

    /** The appends that close `citing`: the parent row and the count list
        join the buffers and `now_forming` advances. */
    method PushRow(row: seq<int>)
      requires Buffered() && |parentage| < genLen
      requires ParentageInvariant(Rows() + [row], genLen, citationCount[..])
      modifies this`parentage, this`counts, this`nowForming
      ensures Valid() && nowForming == old(nowForming) + 1
      ensures parentage == old(parentage) + [row] && counts == old(counts) + [citationCount]
    {
      ghost var rows := Rows() + [row];
      parentage := parentage + [row];
      counts := counts + [citationCount];
      nowForming := nowForming + 1;
      assert Rows() == rows;
    }

    /** `update_count` for each parent in turn. */
    method UpdateCounts(row: seq<int>)
      requires Distinct(row) && forall e :: e in row ==> 0 <= e < citationCount.Length
      modifies citationCount
      ensures citationCount[..] == AddOnes(old(citationCount[..]), Members(row))
    {
      var i := 0;
      while i < |row|
        invariant 0 <= i <= |row|
        invariant citationCount[..] == AddOnes(old(citationCount[..]), Members(row[..i]))
      {
        assert Members(row[..i + 1]) == Members(row[..i]) + {row[i]};
        assert row[i] !in Members(row[..i]);
        assert row[i] in row;
        citationCount[row[i]] := citationCount[row[i]] + 1;
        i := i + 1;
      }
      assert row[..|row|] == row;
    }

    /** `next_generation`: the buffered rows are written (each count row
        showing the counts as they are now), the buffers are cleared, the
        weights are updated, a new pool is drawn and `gen_num` advances. */
    method NextGeneration(nextPool: seq<int>) returns (status: Status)
      requires Valid() && |parentage| == genLen
      requires IsPool(nextPool, GenStart() + genLen)
      modifies this`countsWritten, this`parentageWritten, this`counts, this`parentage,
               this`agingCoefficients, this`weights, this`pool, this`genNum
      ensures |countsWritten| == |old(countsWritten)| + genLen
      ensures countsWritten[..|old(countsWritten)|] == old(countsWritten)
      ensures forall j :: |old(countsWritten)| <= j < |countsWritten| ==> countsWritten[j] == citationCount[..]
      ensures parentageWritten == old(parentageWritten) + old(parentage)
      ensures counts == [] && parentage == []
      ensures status == CountIndexError <==> attachment.ReadsCounts() && nowForming > numRecords
      ensures status.Ok? ==> Valid() && genNum == old(genNum) + 1 && pool == nextPool
      ensures status.Ok? && attachment.Uniform? ==> weights == old(weights)
      ensures status.Ok? && attachment.Weighted() ==> |weights| == nowForming
      ensures status.Ok? && attachment.Weighted() ==>
        forall i :: 0 <= i < |weights| ==> weights[i] == WeightOf(attachment, CountAt(i), CoeffAt(i))
    {
      WriteGeneration();
      status := UpdateWeights();
      if status != Ok {
        return;
      }
      pool := nextPool;
      genNum := genNum + 1;
    }

    /** The writing half of `next_generation`: every buffered count row is
        written as the counts are now, the parent rows are written, and both
        buffers are cleared. */
    method WriteGeneration()
      requires Valid() && |parentage| == genLen
      modifies this`countsWritten, this`parentageWritten, this`counts, this`parentage
      ensures |countsWritten| == |old(countsWritten)| + genLen
      ensures countsWritten[..|old(countsWritten)|] == old(countsWritten)
      ensures forall j :: |old(countsWritten)| <= j < |countsWritten| ==> countsWritten[j] == citationCount[..]
      ensures parentageWritten == old(parentageWritten) + old(parentage)
      ensures counts == [] && parentage == [] && Rows() == old(Rows())
      ensures nowForming == (genNum + 1) * genLen
      ensures |parentageWritten| == |countsWritten| == nowForming
    {
      var snapshot := citationCount[..];
      countsWritten := countsWritten + seq(|counts|, _ => snapshot);
      parentageWritten := parentageWritten + parentage;
      counts := [];
      parentage := [];
      assert (genNum + 1) * genLen == genNum * genLen + genLen;
    }

    /** `generation`: `citing` runs while `(gen_num + 1) * gen_len > now_forming`,
        which is exactly `gen_len` times, then `next_generation`. Record `k` of
        the generation asks for `d.parentCounts[k]` parents and is capped at
        `now_forming // gen_len`, which is `gen_num` throughout. */
    method Generation(d: GenerationDraws) returns (status: Status)
      requires Valid() && parentage == [] && nowForming + 1 < numRecords
      requires ValidDraws(d, genNum)
      modifies this, citationCount
      ensures status.Ok? ==> Valid() && parentage == []
      ensures status.Ok? ==> genNum == old(genNum) + 1 && nowForming == old(nowForming) + genLen
      ensures status.Ok? ==> |parentageWritten| == nowForming
      ensures status.Ok? && attachment.ReadsCounts() ==> nowForming <= numRecords
      // The rows written: the history is kept and each new row has the size its draw asks for.
      ensures status.Ok? ==> old(parentageWritten) <= parentageWritten
      ensures status.Ok? ==> Lengths(parentageWritten) == Lengths(old(parentageWritten)) + GenerationSizes(d.parentCounts, old(genNum))
      ensures status.Ok? ==> countsWritten[..old(nowForming)] == old(countsWritten)
      ensures status.Ok? ==> forall j :: old(nowForming) <= j < |countsWritten| ==> countsWritten[j] == citationCount[..]
      // The state the next generation starts from.
      ensures status.Ok? ==> pool == d.nextPool
      ensures status.Ok? && attachment.Uniform? ==> weights == old(weights)
      ensures status.Ok? && attachment.Weighted() ==>
        |weights| == nowForming && forall i :: 0 <= i < |weights| ==> weights[i] == WeightOf(attachment, CountAt(i), CoeffAt(i))
    {
      status := CiteGeneration(d);
      if status != Ok {
        return;
      }
      ghost var rows := parentage;
      status := NextGeneration(d.nextPool);
      if status.Ok? {
        GenerationLengths(old(parentageWritten), rows, d.parentCounts, old(genNum));
      }
    }

    /** The `citing` loop of `generation`: `gen_len` records, record `k`
        asking for `d.parentCounts[k]` parents. */
    method CiteGeneration(d: GenerationDraws) returns (status: Status)
      requires Valid() && parentage == [] && nowForming + 1 < numRecords
      requires ValidDraws(d, genNum)
      modifies this`pool, this`parentage, this`counts, this`nowForming, citationCount
      ensures status.Ok? ==> Valid() && |parentage| == genLen && nowForming == old(nowForming) + genLen
      ensures status.Ok? ==> forall k :: 0 <= k < genLen ==>
        |parentage[k]| == Min(Max(d.parentCounts[k], 0), genNum)
    {
      var refills := d.refills;
      var k := 0;
      status := Ok;
      while (genNum + 1) * genLen > nowForming
        invariant Valid() && k == |parentage|
        invariant nowForming == old(nowForming) + k
        invariant forall r :: r in refills ==> r in d.refills
        invariant SizedAs(parentage, d.parentCounts, genNum)
        decreases genLen - k
      {
        assert (genNum + 1) * genLen == genNum * genLen + genLen;
        var used;
        status, used := CiteRecord(d.parentCounts, refills);
        if status != Ok {
          return;
        }
        refills := refills[used..];
        k := k + 1;
      }
      assert (genNum + 1) * genLen == genNum * genLen + genLen;
    }

    /** One pass of the `citing` loop of `generation`: the next record asks
        for its parent count from `parentCounts` and gets a row of the size
        that count asks for. */
    method CiteRecord(parentCounts: seq<int>, refills: seq<seq<int>>) returns (status: Status, used: nat)
      requires Valid() && |parentage| < genLen && GenStart() <= numRecords
      requires |parentage| < |parentCounts| && SizedAs(parentage, parentCounts, genNum)
      requires Drawable() ==> IsParentDraw(parentCounts[|parentage|])
      requires forall r :: r in refills ==> IsPool(r, GenStart())
      modifies this`pool, this`parentage, this`counts, this`nowForming, citationCount
      ensures used <= |refills|
      ensures status.Ok? ==> Valid() && nowForming == old(nowForming) + 1 && |parentage| == |old(parentage)| + 1
      ensures status.Ok? ==> SizedAs(parentage, parentCounts, genNum)
    {
      DivOfOffset(genNum, genLen, |parentage|);
      ghost var cap := nowForming / genLen;
      assert cap == genNum;
      ghost var before := parentage;
      ghost var drawn;
      var x := parentCounts[|parentage|];
      status, used, drawn := Citing(x, refills);
      if status != Ok {
        return;
      }
      ghost var row := parentage[|before|];
      assert |row| == Min(Max(x, 0), cap);
      SizedAsAppend(before, row, parentCounts, genNum);
      assert parentage == before + [parentage[|before|]];
    }

    /** The state `form_patents` ends in: whole generations only, the last one
        the first whose end reaches `num_records - 1`, every row written, and
        the counts adding up to the number of citations made. */
    ghost predicate Formed()
      reads this, citationCount
    {
      && Valid() && parentage == [] && nowForming == GenStart()
      && nowForming + 1 >= numRecords
      && (nowForming == genLen || nowForming - genLen + 1 < numRecords)
      && |parentageWritten| == nowForming && |countsWritten| == nowForming
      && Sum(citationCount[..]) == TotalLength(parentageWritten)
    }

    /** `form_patents` with each rule's prelude (`now_forming = gen_len`, then
        `update_weights` for the weighted rules): generation 1 is written, then
        the generations follow. */
    method FormPatents(firstPool: seq<int>, schedule: seq<GenerationDraws>) returns (status: Status)
      requires Initial()
      requires IsPool(firstPool, genLen)
      requires forall k :: 0 <= k < |schedule| ==> ValidDraws(schedule[k], k + 1)
      modifies this, citationCount
      ensures attachment.ReadsCounts() && genLen > numRecords ==> status == CountIndexError
      ensures status.Ok? ==> Formed()
      ensures status.Ok? && attachment.ReadsCounts() ==> nowForming <= numRecords
      // Generation 1 has no parents; each later one has the row sizes its draws ask for.
      ensures status.Ok? ==>
        1 <= genNum <= |schedule| + 1 && Lengths(parentageWritten) == seq(genLen, _ => 0) + ScheduleSizes(schedule, genNum - 1)
    {
      nowForming := genLen;
      if attachment.Weighted() {
        status := UpdateWeights();
        if status != Ok {
          return;
        }
      } else {
        assert agingCoefficients == AgingOf(1);
      }
      FirstCountsAndParentage(firstPool);
      assert Lengths(parentageWritten) == seq(genLen, _ => 0);
      status := FormGenerations(schedule);
    }

    /** The loop of the base `form_patents`: whole generations are formed while
        `now_forming + 1 < num_records`; the k-th generation after the first
        uses `schedule[k]`. */
    method FormGenerations(schedule: seq<GenerationDraws>) returns (status: Status)
      requires Valid() && parentage == [] && nowForming == GenStart() && genNum == 1
      requires forall k :: 0 <= k < |schedule| ==> ValidDraws(schedule[k], k + 1)
      requires attachment.ReadsCounts() ==> nowForming <= numRecords
      modifies this, citationCount
      ensures status.Ok? ==> Formed()
      ensures status.Ok? && attachment.ReadsCounts() ==> nowForming <= numRecords
      ensures status.Ok? ==> 1 <= genNum && SizedRun(parentageWritten, old(parentageWritten), schedule, genNum - 1)
    {
      status := RunGenerations(schedule);
      if status != Ok {
        return;
      }
      assert Rows() == parentageWritten;
      ParentageSum(Rows(), genLen, citationCount[..]);
    }

    /** The `while` loop of `form_patents` itself: generation `k + 1` is formed
        from `schedule[k]` while `now_forming + 1 < num_records`. */
    method RunGenerations(schedule: seq<GenerationDraws>) returns (status: Status)
      requires Valid() && parentage == [] && nowForming == GenStart() && genNum == 1
      requires forall k :: 0 <= k < |schedule| ==> ValidDraws(schedule[k], k + 1)
      requires attachment.ReadsCounts() ==> nowForming <= numRecords
      modifies this, citationCount
      ensures status.Ok? ==> Valid() && parentage == [] && nowForming == GenStart() && nowForming + 1 >= numRecords
      ensures status.Ok? ==> nowForming == genLen || nowForming - genLen + 1 < numRecords
      ensures status.Ok? && attachment.ReadsCounts() ==> nowForming <= numRecords
      ensures status.Ok? ==> 1 <= genNum && SizedRun(parentageWritten, old(parentageWritten), schedule, genNum - 1)
    {
      var k := 0;
      status := Ok;
      while nowForming + 1 < numRecords
        invariant k <= |schedule|
        invariant attachment.ReadsCounts() ==> nowForming <= numRecords
        invariant Valid() && parentage == [] && nowForming == GenStart() && genNum == k + 1
        invariant nowForming == genLen || nowForming - genLen + 1 < numRecords
        invariant SizedRun(parentageWritten, old(parentageWritten), schedule, k)
        invariant status == Ok
        decreases |schedule| - k
      {
        if k == |schedule| {
          return NoMoreDraws;
        }
        ghost var before := parentageWritten;
        status := Generation(schedule[k]);
        if status != Ok {
          return;
        }
        SizedRunStep(before, old(parentageWritten), schedule, k, parentageWritten);
        k := k + 1;
      }
    }
  }
}
