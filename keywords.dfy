/** The trait assigner (keywords.py, and its copy `Keywords` in
    neutral-model.py).

    Every record receives a set of keyword ids, its "phenome": ids are popped
    from the front of a pool into a set while the set is smaller than a bound
    that `randint(min_traits, max_traits)` redraws at every check.

    The random draws are parameters: the values the bound takes at the
    successive checks of record `i` arrive as `checks[i]`, and every pool
    `numpy.random.randint(0, num_keywords, n)` draws arrives as a ready list
    of ids. Only the branch without a keywords file is modelled. */
module Keywords {
  import opened Collections

  /** How a call ended: normally, with the `ValueError` that `randint` (or
      numpy's `randint` on `num_keywords == 0`) raises on an empty range, with
      the `IndexError` of `pool.pop(0)` on an empty pool, or because the
      supplied draws ran out. */
  datatype Status = Ok | EmptyRange | PopFromEmpty | NoMoreDraws

  /** `__init__`'s rule for the trait-count bounds: with `avg` the bounds are
      `min_traits` and `(num_traits - min_traits) * 2`, whose midpoint is
      `num_traits - min_traits / 2` (so `num_traits` only when `min_traits` is
      0); without `avg` both bounds are `num_traits`. */
  function TraitBounds(avg: bool, numTraits: nat, minTraits: int): (r: (int, int))
    ensures avg ==> r.0 == minTraits && r.0 + r.1 == 2 * numTraits - minTraits
    ensures !avg ==> r.0 == r.1 == numTraits
    ensures avg && minTraits == 0 ==> r.0 + r.1 == 2 * numTraits
  {
    if avg then (minTraits, (numTraits - minTraits) * 2) else (numTraits, numTraits)
  }

  /** The trait loop that pops ids from the front of `pool`, checking the set
      against `checks[0]`, `checks[1]`, ... before each pop, stops after `t`
      pops: the set was below the bound at each of the first `t` checks and
      reaches it at check `t`. */
  ghost predicate StopsAt(pool: seq<int>, checks: seq<int>, t: nat)
  {
    t < |checks| && t <= |pool| && BelowUntil(pool, checks, t) && checks[t] <= |Members(pool[..t])|
  }

  /** At each of the first `t` checks the set of the ids popped so far was
      below the bound drawn, so the loop went on popping. */
  ghost predicate BelowUntil(pool: seq<int>, checks: seq<int>, t: nat)
  {
    t <= |checks| && t <= |pool| && forall j :: 0 <= j < t ==> |Members(pool[..j])| < checks[j]
  }

  lemma BelowStep(pool: seq<int>, checks: seq<int>, t: nat)
    requires BelowUntil(pool, checks, t) && t < |checks| && t < |pool|
    requires |Members(pool[..t])| < checks[t]
    ensures BelowUntil(pool, checks, t + 1)
  {
  }

  /** The pool and the checks fix where the trait loop stops. */
  lemma StopsAtUnique(pool: seq<int>, checks: seq<int>, t: nat, u: nat)
    requires StopsAt(pool, checks, t) && StopsAt(pool, checks, u)
    ensures t == u
  {
  }

  /** The trait loop of `assign_keywords` for one record: while the set has
      fewer members than a fresh `randint(lo, hi)` (the values `checks`),
      the front of the pool is popped into the set. `popped` ids were taken,
      so the pool left is `pool[popped..]`; `used` checks were made. The set
      ends with between `lo` and `hi` members: at the last check it reached the
      bound drawn, and before each pop it was below a bound of at most `hi`. */
  method FillTraits(pool: seq<int>, checks: seq<int>, lo: int, hi: int)
    returns (status: Status, traits: set<int>, popped: nat, used: nat)
    requires lo <= hi ==> forall d :: d in checks ==> lo <= d <= hi
    ensures popped <= |pool| && used <= |checks|
    ensures traits == Members(pool[..popped])
    ensures status == EmptyRange <==> lo > hi
    ensures status.Ok? ==> lo <= |traits| <= Max(hi, 0)
    ensures status.Ok? ==> used >= 1 && checks[used - 1] <= |traits|
    ensures status.PopFromEmpty? ==> popped == |pool|
    ensures status == EmptyRange ==> popped == 0
    // One id is popped per check the set failed, and the loop stops at the first check it meets.
    ensures popped <= used
    ensures status.Ok? || status.PopFromEmpty? ==> popped + 1 == used
    ensures BelowUntil(pool, checks, popped)
    ensures status.Ok? ==> StopsAt(pool, checks, popped)
  {
    traits := {};
    popped := 0;
    used := 0;
    if lo > hi {
      return EmptyRange, traits, popped, used;
    }
    while true
      invariant popped <= |pool| && used <= |checks|
      invariant traits == Members(pool[..popped])
      invariant |traits| <= Max(hi, 0)
      invariant popped == used
      invariant BelowUntil(pool, checks, popped)
      decreases |checks| - used
    {
      if used == |checks| {
        return NoMoreDraws, traits, popped, used;
      }
      var bound := checks[used];
      assert bound in checks;
      used := used + 1;
      if |traits| >= bound {
        return Ok, traits, popped, used;
      }
      if popped == |pool| {
        return PopFromEmpty, traits, popped, used;
      }
      BelowStep(pool, checks, popped);
      assert pool[..popped + 1] == pool[..popped] + [pool[popped]];
      traits := traits + {pool[popped]};
      popped := popped + 1;
    }
  }

  /** The number of records `j < i` after which `assign_keywords` draws a new
      pool (`j % gen_len == 0`). */
  function RefillsAfter(i: nat, genLen: nat): nat
    requires genLen >= 1
  {
    if i == 0 then 0 else RefillsAfter(i - 1, genLen) + (if (i - 1) % genLen == 0 then 1 else 0)
  }

  /** The pool after record `i` read `pool` and popped its first `take` ids:
      the next refill when `i % gen_len == 0` and one is left, otherwise the
      rest of `pool`. */
  ghost function PoolAfterRecord(pool: seq<int>, take: nat, i: nat, genLen: nat, refills: seq<seq<int>>): seq<int>
    requires genLen >= 1 && take <= |pool|
  {
    if i % genLen == 0 && RefillsAfter(i + 1, genLen) <= |refills| then refills[RefillsAfter(i + 1, genLen) - 1]
    else pool[take..]
  }

  /** Where the phenomes `records` assigned so far come from: record `i` read
      the pool `pools[i]` (the first is `first`) and popped its first
      `takes[i]` ids into its set, stopping where its checks `checks[i]` say,
      and `pools[i + 1]` is the pool it left. */
  ghost predicate PoolHistory(first: seq<int>, checks: seq<seq<int>>, records: seq<set<int>>, pools: seq<seq<int>>,
                              takes: seq<nat>, refills: seq<seq<int>>, genLen: nat)
  {
    && genLen >= 1
    && |takes| == |records| && |pools| == |takes| + 1 && pools[0] == first && |takes| <= |checks|
    && (forall i :: 0 <= i < |takes| ==> StopsAt(pools[i], checks[i], takes[i]))
    && (forall i :: 0 <= i < |takes| ==> takes[i] <= |pools[i]| && records[i] == Members(pools[i][..takes[i]]))
    && (forall i :: 0 <= i < |takes| ==> pools[i + 1] == PoolAfterRecord(pools[i], takes[i], i, genLen, refills))
  }

  /** One more record keeps the history. */
  lemma HistoryStep(first: seq<int>, checks: seq<seq<int>>, records: seq<set<int>>, pools: seq<seq<int>>,
                    takes: seq<nat>, refills: seq<seq<int>>, genLen: nat, take: nat, next: seq<int>)
    requires PoolHistory(first, checks, records, pools, takes, refills, genLen)
    requires |takes| < |checks| && StopsAt(pools[|takes|], checks[|takes|], take)
    requires next == PoolAfterRecord(pools[|takes|], take, |takes|, genLen, refills)
    ensures PoolHistory(first, checks, records + [Members(pools[|takes|][..take])], pools + [next], takes + [take],
                        refills, genLen)
  {
  }

  /** In closed form: the pool is drawn again after records `0, gen_len,
      2 * gen_len, ...`, that is `ceil(i / gen_len)` times in the first `i`. */
  lemma {:induction false} RefillsAfterClosed(i: nat, genLen: nat)
    requires genLen >= 1
    ensures RefillsAfter(i, genLen) == (i + genLen - 1) / genLen
  {
    if i > 0 {
      RefillsAfterClosed(i - 1, genLen);
      CeilingStep(i - 1, genLen);
    }
  }

  /** `ceil((j + 1) / g)` exceeds `ceil(j / g)` exactly when `g` divides `j`. */
  lemma CeilingStep(j: nat, g: nat)
    requires g >= 1
    ensures (j + g) / g == (j + g - 1) / g + (if j % g == 0 then 1 else 0)
  {
    var q := j / g;
    var r := j % g;
    assert j == q * g + r;
    var m := (q + 1) * g;
    assert m == q * g + g;
    if r == 0 {
      assert j + g - 1 == q * g + (g - 1);
      assert j + g == m + 0;
      DivOfOffset(q, g, g - 1);
      DivOfOffset(q + 1, g, 0);
    } else {
      assert j + g - 1 == m + (r - 1);
      assert j + g == m + r;
      DivOfOffset(q + 1, g, r - 1);
      DivOfOffset(q + 1, g, r);
    }
  }

  class Keywords {
    const numRecords: nat
    const numTraits: nat
    const numKeywords: nat
    const genLen: nat
    const minTraits: int
    const maxTraits: int

    var probs: seq<real>
    /** The phenomes (frozensets of keyword ids), one per record assigned. */
    var phenomes: seq<set<int>>
    var pool: seq<int>

    /** What `numpy.random.randint(0, num_keywords, n)` can return, `n` being
        `num_traits * 1000 * 2`: that many ids in `[0, num_keywords)`. */
    ghost predicate IsKeywordPool(p: seq<int>)
    {
      |p| == numTraits * 2000 && forall v :: v in p ==> 0 <= v < numKeywords
    }

    /** A phenome the trait loop can produce: between the bounds, keyword
        ids only. */
    ghost predicate IsPhenome(t: set<int>)
    {
      && minTraits <= |t| <= Max(maxTraits, 0)
      && forall k :: k in t ==> 0 <= k < numKeywords
    }

    ghost predicate Valid()
      reads this
    {
      && genLen >= 1
      && (forall v :: v in pool ==> 0 <= v < numKeywords)
      && (forall j :: 0 <= j < |phenomes| ==> IsPhenome(phenomes[j]))
    }

    /** `__init__` without a keywords file: `define_weights` sums the empty
        list of weights and divides nothing, so `probs` is empty, and
        `define_phenomes` starts the empty list of phenomes. */
    constructor (numRecords: nat, numTraits: nat, avg: bool, minTraits: int, numKeywords: nat, genLen: nat)
      requires genLen >= 1
      ensures Valid()
      ensures this.numRecords == numRecords && this.numTraits == numTraits
      ensures this.numKeywords == numKeywords && this.genLen == genLen
      ensures (this.minTraits, this.maxTraits) == TraitBounds(avg, numTraits, minTraits)
      ensures probs == [] && phenomes == [] && pool == []
    {
      this.numRecords := numRecords;
      this.numTraits := numTraits;
      this.numKeywords := numKeywords;
      this.genLen := genLen;
      var bounds := TraitBounds(avg, numTraits, minTraits);
      this.minTraits := bounds.0;
      this.maxTraits := bounds.1;
      probs := [];
      phenomes := [];
      pool := [];
    }

    /** `new_pool` without a keywords file: numpy's `randint` raises on the
        empty range when `num_keywords` is 0, and otherwise returns the pool. */
    method NewPool(draw: seq<int>) returns (status: Status)
      requires Valid()
      requires numKeywords > 0 ==> IsKeywordPool(draw)
      modifies this`pool
      ensures Valid()
      ensures status == EmptyRange <==> numKeywords == 0
      ensures status != EmptyRange ==> status == Ok && pool == draw
      ensures status == EmptyRange ==> pool == old(pool)
    {
      if numKeywords == 0 {
        return EmptyRange;
      }
      pool := draw;
      status := Ok;
    }

    /** `assign_keywords`: a first pool, then for each of the `num_records`
        records the trait loop (its checks `checks[i]`) and the phenome
        appended, and a new pool after every record `i` with
        `i % gen_len == 0`. The guard `self.pool < self.num_traits*5` compares
        a list with an integer, which Python 2 always answers `False`, so it
        never draws a pool. `refills` are the pools drawn after records, in
        order, and `drawn` of them were drawn. Record `i` reads the pool
        `pools[i]` and pops its first `takes[i]` ids; `pools[i + 1]` is what
        it leaves, or the refill drawn after it. */
    method AssignKeywords(firstPool: seq<int>, checks: seq<seq<int>>, refills: seq<seq<int>>)
      returns (status: Status, drawn: nat, ghost pools: seq<seq<int>>, ghost takes: seq<nat>)
      requires Valid()
      requires numKeywords > 0 ==> IsKeywordPool(firstPool) && forall r :: r in refills ==> IsKeywordPool(r)
      requires minTraits <= maxTraits ==>
        forall i, d :: 0 <= i < |checks| && d in checks[i] ==> minTraits <= d <= maxTraits
      modifies this`pool, this`phenomes
      ensures Valid()
      ensures status == EmptyRange <==> numKeywords == 0 || (numRecords > 0 && minTraits > maxTraits)
      ensures |old(phenomes)| <= |phenomes| <= |old(phenomes)| + numRecords && phenomes[..|old(phenomes)|] == old(phenomes)
      ensures status.Ok? ==> |phenomes| == |old(phenomes)| + numRecords
      ensures status.Ok? ==> drawn == RefillsAfter(numRecords, genLen) <= |refills|
      ensures status.Ok? ==> drawn == (numRecords + genLen - 1) / genLen
      ensures status.Ok? ==> forall j :: |old(phenomes)| <= j < |phenomes| ==> IsPhenome(phenomes[j])
      ensures status.Ok? && minTraits == maxTraits >= 0 ==>
        forall j :: |old(phenomes)| <= j < |phenomes| ==> |phenomes[j]| == minTraits
      // Where every phenome comes from, and what is left of the pool.
      ensures numKeywords == 0 ==> phenomes == old(phenomes) && pool == old(pool)
      ensures numKeywords > 0 ==> PoolHistory(firstPool, checks, phenomes[|old(phenomes)|..], pools, takes, refills, genLen)
      ensures numKeywords > 0 && status.Ok? ==> pool == pools[|takes|]
      ensures numKeywords > 0 && status.EmptyRange? ==> pool == firstPool
      ensures status.PopFromEmpty? ==> pool == []
      ensures numKeywords > 0 ==> |pool| <= |pools[|takes|]| && pool == pools[|takes|][|pools[|takes|]| - |pool|..]
    {
      drawn := 0;
      pools := [];
      takes := [];
      status := NewPool(firstPool);
      if status != Ok {
        return;
      }
      ghost var records;
      status, drawn, records, pools, takes := AssignRecords(checks, refills);
      assert phenomes[|old(phenomes)|..] == records;
      if status.Ok? {
        RefillsAfterClosed(numRecords, genLen);
      }
    }

    /** The loop of `assign_keywords` over the `num_records` records, from the
        pool in place. */
    method AssignRecords(checks: seq<seq<int>>, refills: seq<seq<int>>)
      returns (status: Status, drawn: nat, ghost records: seq<set<int>>, ghost pools: seq<seq<int>>,
               ghost takes: seq<nat>)
      requires Valid() && numKeywords > 0
      requires forall r :: r in refills ==> IsKeywordPool(r)
      requires minTraits <= maxTraits ==>
        forall i, d :: 0 <= i < |checks| && d in checks[i] ==> minTraits <= d <= maxTraits
      modifies this`pool, this`phenomes
      ensures Valid()
      ensures status == EmptyRange <==> numRecords > 0 && minTraits > maxTraits
      ensures phenomes == old(phenomes) + records
      ensures PoolHistory(old(pool), checks, records, pools, takes, refills, genLen)
      ensures |takes| <= numRecords
      ensures status.Ok? ==> |takes| == numRecords && drawn == RefillsAfter(numRecords, genLen) <= |refills|
      ensures status.Ok? ==> pool == pools[|takes|]
      ensures status.EmptyRange? ==> pool == old(pool)
      ensures status.PopFromEmpty? ==> pool == []
      ensures |pool| <= |pools[|takes|]| && pool == pools[|takes|][|pools[|takes|]| - |pool|..]
    {
      drawn := 0;
      records := [];
      pools := [pool];
      takes := [];
      status := Ok;
      for i := 0 to numRecords
        invariant Valid()
        invariant phenomes == old(phenomes) + records
        invariant drawn == RefillsAfter(i, genLen) <= |refills|
        invariant i > 0 ==> minTraits <= maxTraits
        invariant |takes| == i && PoolHistory(old(pool), checks, records, pools, takes, refills, genLen)
        invariant pool == pools[i] && status == Ok
      {
        var recordChecks := [];
        if i < |checks| {
          recordChecks := checks[i];
        }
        var appended, take;
        ghost var before := phenomes;
        status, drawn, appended, take := AssignRecord(i, recordChecks, refills, drawn);
        if appended {
          HistoryStep(old(pool), checks, records, pools, takes, refills, genLen, take, pool);
          records := records + [phenomes[|phenomes| - 1]];
          assert phenomes == before + [phenomes[|phenomes| - 1]];
          takes := takes + [take];
          pools := pools + [pool];
        }
        if status != Ok {
          return;
        }
      }
    }

    /** One pass of the loop of `assign_keywords`, for record `i`: the trait
        loop pops the first `take` ids of the pool, and unless it raised (or
        its draws ran out) the phenome is `appended` and, after a record with
        `i % gen_len == 0`, the next of the `refills` becomes the pool. */
    method AssignRecord(i: nat, recordChecks: seq<int>, refills: seq<seq<int>>, drawn: nat)
      returns (status: Status, drawn': nat, appended: bool, take: nat)
      requires Valid() && numKeywords > 0
      requires forall r :: r in refills ==> IsKeywordPool(r)
      requires minTraits <= maxTraits ==> forall d :: d in recordChecks ==> minTraits <= d <= maxTraits
      requires drawn == RefillsAfter(i, genLen) <= |refills|
      modifies this`pool, this`phenomes
      ensures Valid()
      ensures take <= |old(pool)|
      ensures status == EmptyRange <==> minTraits > maxTraits
      ensures status == EmptyRange ==> take == 0
      ensures status.PopFromEmpty? ==> pool == []
      ensures !appended ==> !status.Ok? && phenomes == old(phenomes) && pool == old(pool)[take..]
      ensures appended ==> StopsAt(old(pool), recordChecks, take)
      ensures appended ==> phenomes == old(phenomes) + [Members(old(pool)[..take])]
      ensures appended ==> pool == PoolAfterRecord(old(pool), take, i, genLen, refills)
      ensures drawn' <= |refills|
      ensures appended && status.Ok? ==> drawn' == RefillsAfter(i + 1, genLen)
      ensures appended && !status.Ok? ==> status.NoMoreDraws? && i % genLen == 0 && drawn == |refills|
    {
      var traits, used;
      drawn' := drawn;
      appended := false;
      status, traits, take, used := FillTraits(pool, recordChecks, minTraits, maxTraits);
      TraitsFromPool(traits, take);
      PoolSuffix(take);
      if status != Ok {
        pool := pool[take..];
        return;
      }
      assert IsPhenome(traits);
      pool := pool[take..];
      phenomes := phenomes + [traits];
      appended := true;
      if i % genLen == 0 {
        if drawn == |refills| {
          return NoMoreDraws, drawn', appended, take;
        }
        assert refills[drawn] in refills;
        status := NewPool(refills[drawn]);
        drawn' := drawn + 1;
      }
    }

    lemma PoolSuffix(popped: nat)
      requires Valid() && popped <= |pool|
      ensures forall v :: v in pool[popped..] ==> 0 <= v < numKeywords
    {
      forall v | v in pool[popped..]
        ensures 0 <= v < numKeywords
      {
        var m :| 0 <= m < |pool| - popped && pool[popped..][m] == v;
        assert pool[popped + m] in pool;
      }
    }

    /** A set filled from the front of the pool holds keyword ids only. */
    lemma TraitsFromPool(traits: set<int>, popped: nat)
      requires Valid() && popped <= |pool| && traits == Members(pool[..popped])
      ensures forall k :: k in traits ==> 0 <= k < numKeywords
    {
      forall k | k in traits
        ensures 0 <= k < numKeywords
      {
        assert k in pool[..popped];
        var m :| 0 <= m < popped && pool[..popped][m] == k;
        assert pool[m] in pool;
      }
    }
  }
}
