/** The inheritance analysis (`NetworkAnalysis` in networkanalysis.py, and
    the older copy in neutral-model.py).

    The parentage rows and the phenomes, which the source reads from csv
    files, are given as sequences. A citation edge is a pair
    `(child, parent)`, visited child by child and, within a child, in the
    order of its parentage row. */
module Analysis {
  import opened Collections
  import opened Phylogeny

  /** Python's `xs[k]` for a list of length `n`: a negative `k` counts from
      the end; `k` must lie in `[-n, n)`. */
  predicate PyIndexOk(n: nat, k: int)
  {
    -(n as int) <= k < n
  }

  function PyIndex(n: nat, k: int): (r: nat)
    requires PyIndexOk(n, k)
    ensures r < n
    ensures k >= 0 ==> r == k
    ensures k < 0 ==> r == n + k
  {
    if k < 0 then n + k else k
  }

  /** The keywords of `phenomes[-i]` for `i` in `range(g)`, the union that
      `get_surviving_keywords` collects (the entries it cannot index add
      nothing here; the method raises on them). */
  function SurvivingUnion(phenomes: seq<set<int>>, g: nat): set<int>
  {
    if g == 0 then {}
    else
      SurvivingUnion(phenomes, g - 1)
      + (if PyIndexOk(|phenomes|, -(g - 1)) then phenomes[PyIndex(|phenomes|, -(g - 1))] else {})
  }

  /** Because `-0` is `0`, the union covers the first record and the last
      `gen_len - 1` records, not the last `gen_len` records. */
  lemma {:induction false} SurvivingReadsFirstRecord(phenomes: seq<set<int>>, g: nat, k: int)
    requires 1 <= g && 1 <= |phenomes| && g - 1 <= |phenomes|
    ensures k in SurvivingUnion(phenomes, g) <==>
      k in phenomes[0] || exists j :: |phenomes| - g < j < |phenomes| && k in phenomes[j]
  {
    var n := |phenomes|;
    if g > 1 {
      SurvivingReadsFirstRecord(phenomes, g - 1, k);
      assert PyIndex(n, -(g - 1)) == n - g + 1;
      if k in phenomes[n - g + 1] {
        assert n - g < n - g + 1 < n;
      }
    } else {
      assert SurvivingUnion(phenomes, 1) == phenomes[0];
    }
  }

  /** The union is not that of the last generation: with three records and
      `gen_len == 2`, a keyword only the first record has survives, while
      the last two records do not have it. */
  lemma SurvivingIsNotLastGeneration()
    ensures var phenomes := [{1}, {}, {2}];
      1 in SurvivingUnion(phenomes, 2) && 1 !in phenomes[1] + phenomes[2]
  {
    var phenomes: seq<set<int>> := [{1}, {}, {2}];
    assert SurvivingUnion(phenomes, 1) == {1};
  }

  /** The citation edges `(child, parent)` of the rows `0 .. k-1`, in the
      order `first_degree_chains` visits them. */
  function Edges(rows: seq<seq<int>>, k: nat): (r: seq<(int, int)>)
    requires k <= |rows|
  {
    if k == 0 then [] else Edges(rows, k - 1) + RowEdges(k - 1, rows[k - 1])
  }

  function RowEdges(child: int, parents: seq<int>): (r: seq<(int, int)>)
    ensures |r| == |parents|
    ensures forall j :: 0 <= j < |parents| ==> r[j] == (child, parents[j])
  {
    seq(|parents|, j requires 0 <= j < |parents| => (child, parents[j]))
  }

  /** The keywords inherited along edge `e`: those parent and child share
      that also survive (`phenomes[parent] & phenomes[child] & surviving`). */
  function Shared(phenomes: seq<set<int>>, surviving: set<int>, e: (int, int)): (r: set<int>)
    ensures r <= surviving
  {
    if 0 <= e.0 < |phenomes| && 0 <= e.1 < |phenomes| then phenomes[e.1] * phenomes[e.0] * surviving else {}
  }

  /** The total number of keywords `p` passed on along the edges `es`. */
  function InheritedCount(phenomes: seq<set<int>>, surviving: set<int>, es: seq<(int, int)>, p: int): nat
  {
    if es == [] then 0
    else
      var e := es[|es| - 1];
      InheritedCount(phenomes, surviving, es[..|es| - 1], p) + (if e.1 == p then |Shared(phenomes, surviving, e)| else 0)
  }

  /** The children that inherited something from `p` along the edges `es`,
      one entry per such edge, in order. */
  function Inheritors(phenomes: seq<set<int>>, surviving: set<int>, es: seq<(int, int)>, p: int): seq<int>
  {
    if es == [] then []
    else
      var e := es[|es| - 1];
      Inheritors(phenomes, surviving, es[..|es| - 1], p)
      + (if e.1 == p && Shared(phenomes, surviving, e) != {} then [e.0] else [])
  }

  /** The number of edges among `es` along which keyword `k` was inherited. */
  function TraitHits(phenomes: seq<set<int>>, surviving: set<int>, es: seq<(int, int)>, k: int): nat
  {
    if es == [] then 0
    else
      var e := es[|es| - 1];
      TraitHits(phenomes, surviving, es[..|es| - 1], k) + (if k in Shared(phenomes, surviving, e) then 1 else 0)
  }

  /** The number of inherited keywords over all edges. */
  function SharedTotal(phenomes: seq<set<int>>, surviving: set<int>, es: seq<(int, int)>): nat
  {
    if es == [] then 0
    else SharedTotal(phenomes, surviving, es[..|es| - 1]) + |Shared(phenomes, surviving, es[|es| - 1])|
  }

  /** Only surviving keywords are ever counted. */
  lemma {:induction false} OnlySurvivingCounted(phenomes: seq<set<int>>, surviving: set<int>, es: seq<(int, int)>, k: int)
    requires TraitHits(phenomes, surviving, es, k) > 0
    ensures k in surviving
  {
    if es != [] && k !in Shared(phenomes, surviving, es[|es| - 1]) {
      OnlySurvivingCounted(phenomes, surviving, es[..|es| - 1], k);
    }
  }

  /** Every surviving keyword is a keyword of some record. */
  lemma {:induction false} SurvivingFromPhenomes(phenomes: seq<set<int>>, g: nat, k: int)
    requires k in SurvivingUnion(phenomes, g)
    ensures exists r :: 0 <= r < |phenomes| && k in phenomes[r]
  {
    if k in SurvivingUnion(phenomes, g - 1) {
      SurvivingFromPhenomes(phenomes, g - 1, k);
    } else {
      var r := PyIndex(|phenomes|, -(g - 1));
      assert k in phenomes[r];
    }
  }

  /** The edges of rows `0 .. k-1` join a child below `k` to a record. */
  lemma {:induction false} EdgesInRange(rows: seq<seq<int>>, k: nat)
    requires ValidIds(rows) && k <= |rows|
    ensures forall i :: 0 <= i < |Edges(rows, k)| ==> 0 <= Edges(rows, k)[i].0 < k && 0 <= Edges(rows, k)[i].1 < |rows|
  {
    if k > 0 {
      EdgesInRange(rows, k - 1);
      var es := Edges(rows, k);
      var init := Edges(rows, k - 1);
      forall i | |init| <= i < |es|
        ensures 0 <= es[i].0 < k && 0 <= es[i].1 < |rows|
      {
        assert es[i] == RowEdges(k - 1, rows[k - 1])[i - |init|];
        assert rows[k - 1][i - |init|] in rows[k - 1];
      }
    }
  }

  /** What one more edge adds to each of the edge functions. */
  lemma EdgeAdded(phenomes: seq<set<int>>, surviving: set<int>, es: seq<(int, int)>, e: (int, int))
    ensures forall p :: InheritedCount(phenomes, surviving, es + [e], p) ==
                        InheritedCount(phenomes, surviving, es, p) + (if e.1 == p then |Shared(phenomes, surviving, e)| else 0)
    ensures forall p :: Inheritors(phenomes, surviving, es + [e], p) ==
                        Inheritors(phenomes, surviving, es, p) + (if e.1 == p && Shared(phenomes, surviving, e) != {} then [e.0] else [])
    ensures forall k :: TraitHits(phenomes, surviving, es + [e], k) ==
                        TraitHits(phenomes, surviving, es, k) + (if k in Shared(phenomes, surviving, e) then 1 else 0)
    ensures SharedTotal(phenomes, surviving, es + [e]) == SharedTotal(phenomes, surviving, es) + |Shared(phenomes, surviving, e)|
  {
    assert (es + [e])[..|es|] == es;
  }

  /** Counting the inherited keywords per keyword gives their total: so the
      growth of `sum(trait_count)` is the number of keywords inherited, when
      every surviving keyword indexes `trait_count`. */
  lemma {:induction false} TraitHitsConserved(phenomes: seq<set<int>>, surviving: set<int>, es: seq<(int, int)>,
                                              numKeywords: nat)
    requires forall k :: k in surviving ==> 0 <= k < numKeywords
    ensures Sum(seq(numKeywords, k => TraitHits(phenomes, surviving, es, k))) == SharedTotal(phenomes, surviving, es)
  {
    if es == [] {
      assert seq(numKeywords, k => TraitHits(phenomes, surviving, es, k)) == seq(numKeywords, _ => 0);
      SumZeros(numKeywords);
    } else {
      var init := es[..|es| - 1];
      var e := es[|es| - 1];
      assert es == init + [e];
      var sh := Shared(phenomes, surviving, e);
      TraitHitsConserved(phenomes, surviving, init, numKeywords);
      EdgeAdded(phenomes, surviving, init, e);
      var hits := seq(numKeywords, k => TraitHits(phenomes, surviving, init, k));
      assert seq(numKeywords, k => TraitHits(phenomes, surviving, es, k)) == AddOnes(hits, sh);
      SumAddOnes(hits, sh);
    }
  }

  /** Counting the inherited keywords per parent gives the same total: the
      sum of `inheritance_count`, when every parent indexes it. */
  lemma {:induction false} InheritedCountConserved(phenomes: seq<set<int>>, surviving: set<int>, es: seq<(int, int)>,
                                                   numRecords: nat)
    requires forall i :: 0 <= i < |es| ==> 0 <= es[i].1 < numRecords
    ensures Sum(seq(numRecords, p => InheritedCount(phenomes, surviving, es, p))) == SharedTotal(phenomes, surviving, es)
  {
    if es == [] {
      assert seq(numRecords, p => InheritedCount(phenomes, surviving, es, p)) == seq(numRecords, _ => 0);
      SumZeros(numRecords);
    } else {
      var init := es[..|es| - 1];
      var e := es[|es| - 1];
      assert es == init + [e];
      var sh := Shared(phenomes, surviving, e);
      InheritedCountConserved(phenomes, surviving, init, numRecords);
      EdgeAdded(phenomes, surviving, init, e);
      var counts := seq(numRecords, p => InheritedCount(phenomes, surviving, init, p));
      assert seq(numRecords, p => InheritedCount(phenomes, surviving, es, p)) == counts[e.1 := counts[e.1] + |sh|];
      SumUpdate(counts, e.1, counts[e.1] + |sh|);
    }
  }

  /** The counters of `first_degree_chains`: `inheritance_count`,
      `inheritance_interactions`, `inheritance_interactions_colored` and
      `trait_count`. */
  datatype Counters = Counters(inheritanceCount: seq<int>, interactions: seq<seq<int>>,
                               colored: seq<seq<(int, int)>>, traitCount: seq<int>)

  /** The counters after the edges `es` among `n` records, from zero
      counters and the trait counts `base`: each parent's count is the number
      of keywords it passed on; its interaction lists hold, per inheriting
      edge, the child times the number of keywords inherited, and the child
      paired with one of those keywords; each keyword's count grew by the
      number of edges it was inherited along. */
  ghost predicate CountersAfter(phenomes: seq<set<int>>, surviving: set<int>, n: nat,
                                es: seq<(int, int)>, base: seq<int>, c: Counters)
  {
    && |c.inheritanceCount| == n && |c.interactions| == n && |c.colored| == n
    && |c.traitCount| == |base|
    && (forall p :: 0 <= p < n ==> ParentAfter(phenomes, surviving, es, c, p))
    && (forall k :: 0 <= k < |base| ==> c.traitCount[k] == base[k] + TraitHits(phenomes, surviving, es, k))
  }

  /** Parent `p`'s count and interaction lists after the edges `es`. */
  ghost predicate ParentAfter(phenomes: seq<set<int>>, surviving: set<int>, es: seq<(int, int)>, c: Counters, p: nat)
  {
    && p < |c.inheritanceCount| && p < |c.interactions| && p < |c.colored|
    && c.inheritanceCount[p] == InheritedCount(phenomes, surviving, es, p)
    && InteractionsAgree(phenomes, surviving, es, p, c.interactions[p], c.colored[p])
  }

  ghost predicate InteractionsAgree(phenomes: seq<set<int>>, surviving: set<int>, es: seq<(int, int)>, p: int,
                                    interactions: seq<int>, colored: seq<(int, int)>)
  {
    var children := Inheritors(phenomes, surviving, es, p);
    && |interactions| == |children|
    && |colored| == |children|
    && forall i :: 0 <= i < |children| ==>
         && interactions[i] == children[i] * |Shared(phenomes, surviving, (children[i], p))|
         && colored[i].0 == children[i]
         && colored[i].1 in Shared(phenomes, surviving, (children[i], p))
  }

  /** Fresh counters (zeros and empty lists) are the counters after no edge. */
  lemma CountersStart(phenomes: seq<set<int>>, surviving: set<int>, n: nat, base: seq<int>)
    ensures CountersAfter(phenomes, surviving, n, [], base,
      Counters(seq(n, _ => 0), seq(n, _ => []), seq(n, _ => []), base))
  {
  }

  /** The counters after one edge `(child, parent)` that passes on the
      keywords `shared`, with `kw` the pair recorded in the coloured list:
      nothing changes when `shared` is empty. */
  function Advance(c: Counters, child: int, parent: nat, shared: set<int>, kw: (int, int)): Counters
    requires parent < |c.inheritanceCount| && parent < |c.interactions| && parent < |c.colored|
  {
    if shared == {} then c
    else Counters(c.inheritanceCount[parent := c.inheritanceCount[parent] + |shared|],
                  c.interactions[parent := c.interactions[parent] + [child * |shared|]],
                  c.colored[parent := c.colored[parent] + [kw]],
                  AddOnes(c.traitCount, shared))
  }

  /** One edge `(child, parent)` with the inherited keywords `shared`: when
      there are any, the parent's count grows by their number, one entry is
      appended to each of its interaction lists, and each of their counts
      grows by one; otherwise nothing changes. */
  lemma CountersStep(phenomes: seq<set<int>>, surviving: set<int>, n: nat, es: seq<(int, int)>, base: seq<int>,
                     c: Counters, child: int, parent: nat, childAndKeyword: (int, int))
    requires CountersAfter(phenomes, surviving, n, es, base, c)
    requires 0 <= parent < n
    requires Shared(phenomes, surviving, (child, parent)) != {}
    requires forall k :: k in Shared(phenomes, surviving, (child, parent)) ==> 0 <= k < |base|
    requires childAndKeyword.0 == child && childAndKeyword.1 in Shared(phenomes, surviving, (child, parent))
    ensures CountersAfter(phenomes, surviving, n, es + [(child, parent)], base,
      Advance(c, child, parent, Shared(phenomes, surviving, (child, parent)), childAndKeyword))
  {
    var e := (child, parent);
    EdgeAdded(phenomes, surviving, es, e);
    var c' := Advance(c, child, parent, Shared(phenomes, surviving, e), childAndKeyword);
    forall p | 0 <= p < n
      ensures ParentAfter(phenomes, surviving, es + [e], c', p)
    {
      assert ParentAfter(phenomes, surviving, es, c, p);
    }
  }

  /** An edge that passes nothing on changes none of the counters. */
  lemma CountersStepEmpty(phenomes: seq<set<int>>, surviving: set<int>, n: nat, es: seq<(int, int)>, base: seq<int>,
                          c: Counters, child: int, parent: int)
    requires CountersAfter(phenomes, surviving, n, es, base, c)
    requires Shared(phenomes, surviving, (child, parent)) == {}
    ensures CountersAfter(phenomes, surviving, n, es + [(child, parent)], base, c)
  {
    EdgeAdded(phenomes, surviving, es, (child, parent));
    forall p | 0 <= p < n
      ensures ParentAfter(phenomes, surviving, es + [(child, parent)], c, p)
    {
      assert ParentAfter(phenomes, surviving, es, c, p);
    }
  }

  /** After all the edges, the keyword counts grew by exactly the sum of
      the parents' counts: every inherited keyword is counted once on each
      side. */
  lemma CountersTotal(phenomes: seq<set<int>>, surviving: set<int>, parentage: seq<seq<int>>,
                      base: seq<int>, c: Counters)
    requires ValidIds(parentage) && |parentage| <= |phenomes|
    requires forall k :: k in surviving ==> 0 <= k < |base|
    requires CountersAfter(phenomes, surviving, |parentage|, Edges(parentage, |parentage|), base, c)
    ensures Sum(c.traitCount) == Sum(base) + Sum(c.inheritanceCount)
  {
    var es := Edges(parentage, |parentage|);
    TraitHitsConserved(phenomes, surviving, es, |base|);
    EdgesInRange(parentage, |parentage|);
    InheritedCountConserved(phenomes, surviving, es, |parentage|);
    forall p | 0 <= p < |parentage|
      ensures c.inheritanceCount[p] == InheritedCount(phenomes, surviving, es, p)
    {
      assert ParentAfter(phenomes, surviving, es, c, p);
    }
    assert c.inheritanceCount == seq(|parentage|, p => InheritedCount(phenomes, surviving, es, p));
    SumPointwise(base, seq(|base|, k => TraitHits(phenomes, surviving, es, k)), c.traitCount);
  }

  class NetworkAnalysis {
    const numTraits: nat
    const numKeywords: nat
    const genLen: nat
    /** Which copy: neutral-model.py leaves the descendant pass inside a
        string literal. */
    const neutral: bool
    /** `parentage`: row `c` lists the records that record `c` cites. */
    const parentage: seq<seq<int>>
    /** `phenomes`: the keyword set of each record. */
    const phenomes: seq<set<int>>

    var traitCount: seq<int>
    var inheritanceCount: seq<int>
    var inheritanceInteractions: seq<seq<int>>
    var inheritanceInteractionsColored: seq<seq<(int, int)>>
    var ancestors: seq<set<int>>
    var descendents: seq<seq<int>>

    /** `__init__` and `setup` once the files are read: `trait_count` starts
        at zero for every keyword and the phylogenies are computed. */
    constructor (parentage: seq<seq<int>>, phenomes: seq<set<int>>, numTraits: nat, numKeywords: nat,
                 genLen: nat, neutral: bool)
      requires ValidIds(parentage)
      ensures this.parentage == parentage && this.phenomes == phenomes && this.neutral == neutral
      ensures this.numTraits == numTraits && this.numKeywords == numKeywords && this.genLen == genLen
      ensures traitCount == seq(numKeywords, _ => 0)
      ensures ancestors == AncestorSets(parentage)
      ensures |descendents| == |parentage|
      ensures neutral ==> forall p :: 0 <= p < |parentage| ==> descendents[p] == []
      ensures !neutral ==> forall p :: 0 <= p < |parentage| ==> Distinct(descendents[p])
      ensures !neutral ==> forall p, c :: 0 <= p < |parentage| ==>
        (c in descendents[p] <==> c in DescendantSets(parentage)[p])
    {
      this.parentage := parentage;
      this.phenomes := phenomes;
      this.numTraits := numTraits;
      this.numKeywords := numKeywords;
      this.genLen := genLen;
      this.neutral := neutral;
      traitCount := seq(numKeywords, _ => 0);
      inheritanceCount := [];
      inheritanceInteractions := [];
      inheritanceInteractionsColored := [];
      new;
      GetPhylogenies();
    }

    /** `get_phylogenies`: the ancestor sets of the forward pass, and either
        the descendant lists of the reverse pass (networkanalysis.py) or,
        since the reverse pass is commented out there, an empty descendant
        set for every record (neutral-model.py). */
    method GetPhylogenies()
      requires ValidIds(parentage)
      modifies this`ancestors, this`descendents
      ensures ancestors == AncestorSets(parentage)
      ensures |descendents| == |parentage|
      ensures neutral ==> forall p :: 0 <= p < |parentage| ==> descendents[p] == []
      ensures !neutral ==> forall p :: 0 <= p < |parentage| ==> Distinct(descendents[p])
      ensures !neutral ==> forall p, c :: 0 <= p < |parentage| ==>
        (c in descendents[p] <==> c in DescendantSets(parentage)[p])
    {
      ancestors := Ancestors(parentage);
      if neutral {
        var discarded := DirectDescendants(parentage);
        descendents := seq(|parentage|, _ => []);
      } else {
        descendents := Descendants(parentage);
      }
    }

    /** `get_surviving_keywords(gen_len)`: the union of `phenomes[-i]` for
        `i` in `range(gen_len)`; `None` is the `IndexError` of an index
        outside the list. */
    method GetSurvivingKeywords(g: nat) returns (r: Option<set<int>>)
      ensures r.None? <==> 1 <= g && (|phenomes| == 0 || g - 1 > |phenomes|)
      ensures r.Some? ==> r.value == SurvivingUnion(phenomes, g)
    {
      var surviving := {};
      for i := 0 to g
        invariant surviving == SurvivingUnion(phenomes, i)
        invariant i >= 1 ==> 1 <= |phenomes| && i - 1 <= |phenomes|
      {
        if !PyIndexOk(|phenomes|, -i) {
          return None;
        }
        var phenome := phenomes[PyIndex(|phenomes|, -i)];
        surviving := surviving + phenome;
      }
      return Some(surviving);
    }

    /** `update_trait_count` */
    method UpdateTraitCount(keyword: int)
      requires 0 <= keyword < |traitCount|
      modifies this`traitCount
      ensures traitCount == old(traitCount)[keyword := old(traitCount)[keyword] + 1]
    {
      traitCount := traitCount[keyword := traitCount[keyword] + 1];
    }

    /** The state after the edges `es`, starting from zero counters and the
        trait counts `base`. */
    ghost predicate Chained(surviving: set<int>, es: seq<(int, int)>, base: seq<int>)
      reads this
    {
      CountersAfter(phenomes, surviving, |parentage|, es, base, Snapshot())
    }

    function Snapshot(): Counters
      reads this
    {
      Counters(inheritanceCount, inheritanceInteractions, inheritanceInteractionsColored, traitCount)
    }

    /** `first_degree_chains`: the per-record counters and interaction lists
        start afresh, the surviving keywords are collected, and every edge
        passes on the keywords parent and child share that survive. Each
        inherited keyword raises `trait_count`, which is not reset, so the
        counts of a second call add to those of the first. */
    method FirstDegreeChains() returns (ok: bool)
      requires ValidIds(parentage) && |parentage| <= |phenomes|
      requires forall r, k :: 0 <= r < |phenomes| && k in phenomes[r] ==> 0 <= k < |traitCount|
      modifies this`inheritanceCount, this`inheritanceInteractions, this`inheritanceInteractionsColored, this`traitCount
      ensures !ok <==> 1 <= genLen && (|phenomes| == 0 || genLen - 1 > |phenomes|)
      ensures !ok ==> traitCount == old(traitCount)
      ensures !ok ==> inheritanceCount == seq(|parentage|, _ => 0)
      ensures !ok ==> inheritanceInteractions == seq(|parentage|, _ => []) && inheritanceInteractionsColored == seq(|parentage|, _ => [])
      ensures ok ==> Chained(SurvivingUnion(phenomes, genLen), Edges(parentage, |parentage|), old(traitCount))
      ensures ok ==> Sum(traitCount) == Sum(old(traitCount)) + Sum(inheritanceCount)
    {
      inheritanceCount := seq(|parentage|, _ => 0);
      inheritanceInteractions := seq(|parentage|, _ => []);
      inheritanceInteractionsColored := seq(|parentage|, _ => []);
      var r := GetSurvivingKeywords(genLen);
      if r.None? {
        return false;
      }
      var surviving := r.value;
      forall k | k in surviving
        ensures 0 <= k < |traitCount|
      {
        SurvivingFromPhenomes(phenomes, genLen, k);
      }
      ghost var base := traitCount;
      CountersStart(phenomes, surviving, |parentage|, base);
      ChainAll(surviving, base);
      ok := true;
      CountersTotal(phenomes, surviving, parentage, base, Snapshot());
    }

    /** The loop of `first_degree_chains` over every record and its parents. */
    method ChainAll(surviving: set<int>, ghost base: seq<int>)
      requires ValidIds(parentage) && |parentage| <= |phenomes|
      requires forall k :: k in surviving ==> 0 <= k < |base|
      requires Chained(surviving, Edges(parentage, 0), base)
      modifies this`inheritanceCount, this`inheritanceInteractions, this`inheritanceInteractionsColored, this`traitCount
      ensures Chained(surviving, Edges(parentage, |parentage|), base)
    {
      for child := 0 to |parentage|
        invariant Chained(surviving, Edges(parentage, child), base)
      {
        ChainRow(surviving, base, child);
      }
    }

    /** The edges of one record to each of its parents, in order. */
    method ChainRow(surviving: set<int>, ghost base: seq<int>, child: nat)
      requires ValidIds(parentage) && |parentage| <= |phenomes| && child < |parentage|
      requires forall k :: k in surviving ==> 0 <= k < |base|
      requires Chained(surviving, Edges(parentage, child), base)
      modifies this`inheritanceCount, this`inheritanceInteractions, this`inheritanceInteractionsColored, this`traitCount
      ensures Chained(surviving, Edges(parentage, child + 1), base)
    {
      var parents := parentage[child];
      assert Edges(parentage, child) + RowEdges(child, parents[..0]) == Edges(parentage, child);
      for j := 0 to |parents|
        invariant Chained(surviving, Edges(parentage, child) + RowEdges(child, parents[..j]), base)
      {
        ghost var es := Edges(parentage, child) + RowEdges(child, parents[..j]);
        assert RowEdges(child, parents[..j + 1]) == RowEdges(child, parents[..j]) + [(child, parents[j])];
        assert es + [(child, parents[j])] == Edges(parentage, child) + RowEdges(child, parents[..j + 1]);
        assert parents[j] in parentage[child];
        ghost var c := Snapshot();
        ghost var shared := Shared(phenomes, surviving, (child, parents[j]));
        var kw := ChainEdge(surviving, child, parents[j]);
        if shared != {} {
          CountersStep(phenomes, surviving, |parentage|, es, base, c, child, parents[j], kw);
        } else {
          CountersStepEmpty(phenomes, surviving, |parentage|, es, base, c, child, parents[j]);
        }
      }
      assert parents[..|parents|] == parents;
    }

    /** One edge of `first_degree_chains`: the keywords parent and child
        share that survive are passed on; `kw` is the pair the coloured
        list receives (it has no use when nothing is shared). */
    method ChainEdge(surviving: set<int>, child: nat, parent: nat) returns (kw: (int, int))
      requires child < |parentage| <= |phenomes| && parent < |parentage|
      requires |inheritanceCount| == |inheritanceInteractions| == |inheritanceInteractionsColored| == |parentage|
      requires forall k :: k in Shared(phenomes, surviving, (child, parent)) ==> 0 <= k < |traitCount|
      modifies this`inheritanceCount, this`inheritanceInteractions, this`inheritanceInteractionsColored, this`traitCount
      ensures Shared(phenomes, surviving, (child, parent)) != {} ==>
        kw.0 == child && kw.1 in Shared(phenomes, surviving, (child, parent))
      ensures Snapshot() == Advance(old(Snapshot()), child, parent, Shared(phenomes, surviving, (child, parent)), kw)
    {
      var intersection := phenomes[parent] * phenomes[child];
      intersection := intersection * surviving;
      assert intersection == Shared(phenomes, surviving, (child, parent));
      kw := (child, 0);
      if intersection != {} {
        inheritanceCount := inheritanceCount[parent := inheritanceCount[parent] + |intersection|];
        kw := CountKeywords(child, intersection);
        inheritanceInteractionsColored := inheritanceInteractionsColored[parent := inheritanceInteractionsColored[parent] + [kw]];
        inheritanceInteractions := inheritanceInteractions[parent := inheritanceInteractions[parent] + [child * |intersection|]];
      }
    }

    /** The keyword loop of an inheriting edge: `update_trait_count` for each
        keyword, in the set's iteration order; `child_and_keyword` is left
        holding the child and the last keyword visited. */
    method CountKeywords(child: int, intersection: set<int>) returns (childAndKeyword: (int, int))
      requires intersection != {}
      requires forall k :: k in intersection ==> 0 <= k < |traitCount|
      modifies this`traitCount
      ensures traitCount == AddOnes(old(traitCount), intersection)
      ensures childAndKeyword.0 == child && childAndKeyword.1 in intersection
    {
      var keywords := ListOfSet(intersection);
      childAndKeyword := (child, keywords[0]);
      assert Members(keywords[..0]) == {};
      for m := 0 to |keywords|
        invariant traitCount == AddOnes(old(traitCount), Members(keywords[..m]))
        invariant childAndKeyword.0 == child && childAndKeyword.1 in intersection
      {
        assert keywords[m] in intersection;
        assert Members(keywords[..m + 1]) == Members(keywords[..m]) + {keywords[m]};
        childAndKeyword := (child, keywords[m]);
        UpdateTraitCount(keywords[m]);
      }
      assert Members(keywords[..|keywords|]) == intersection;
    }
  }
}
