/** The ancestor and descendant passes of `get_phylogenies`
    (networkanalysis.py, and the older copy in neutral-model.py).

    Record `c` cites the records `rows[c]`. The forward pass gives every
    record the union of its parents and its parents' ancestor sets; the
    reverse pass gives every record the union of its citers and their
    descendant sets. When every record cites only smaller ids (as the
    simulator guarantees) both passes compute exact transitive closures, and
    `b` is a descendant of `a` exactly when `a` is an ancestor of `b`. */
module Phylogeny {
  import opened Collections

  /** Every id in the parentage rows is a record: `ancestors[parent]` and
      `direct_descendents[parent]` are indexed by them. */
  ghost predicate ValidIds(rows: seq<seq<int>>)
  {
    forall c, p :: 0 <= c < |rows| && p in rows[c] ==> 0 <= p < |rows|
  }

  /** Every record cites only records with smaller ids. */
  ghost predicate Ordered(rows: seq<seq<int>>)
  {
    forall c, p :: 0 <= c < |rows| && p in rows[c] ==> 0 <= p < c
  }

  /** The union of the sets `s[p]` for `p` in `ps`. */
  function Inherited(s: seq<set<int>>, ps: set<int>): (r: set<int>)
    ensures forall a :: a in r <==> exists p :: p in ps && 0 <= p < |s| && a in s[p]
  {
    set p, a | p in ps && 0 <= p < |s| && a in s[p] :: a
  }

  lemma InheritedAdd(s: seq<set<int>>, ps: set<int>, p: int)
    requires 0 <= p < |s|
    ensures Inherited(s, ps + {p}) == Inherited(s, ps) + s[p]
  {
  }

  /** Entries outside `ps` do not matter. */
  lemma InheritedAgree(s: seq<set<int>>, t: seq<set<int>>, ps: set<int>)
    requires |s| == |t| && forall p :: p in ps && 0 <= p < |s| ==> s[p] == t[p]
    ensures Inherited(s, ps) == Inherited(t, ps)
  {
  }

  // ---------------------------------------------------------------------
  // Ancestors

  /** The ancestor list after the forward pass has handled records
      `0 .. k-1`: record `c` gets its parent set joined with the ancestor
      sets its parents have at that moment (still empty for a parent not yet
      handled, and a record's own set adds nothing to itself). */
  function AncestorPass(rows: seq<seq<int>>, k: nat): (r: seq<set<int>>)
    requires k <= |rows|
    ensures |r| == |rows|
  {
    if k == 0 then seq(|rows|, _ => {})
    else
      var prev := AncestorPass(rows, k - 1);
      var ps := Members(rows[k - 1]);
      prev[k - 1 := ps + Inherited(prev, ps)]
  }

  function AncestorSets(rows: seq<seq<int>>): (r: seq<set<int>>)
    ensures |r| == |rows|
  {
    AncestorPass(rows, |rows|)
  }

  lemma {:induction false} AncestorPassUnset(rows: seq<seq<int>>, k: nat, c: nat)
    requires k <= c < |rows|
    ensures AncestorPass(rows, k)[c] == {}
    decreases k
  {
    if k > 0 {
      AncestorPassUnset(rows, k - 1, c);
    }
  }

  /** Once handled, a record's ancestor set never changes. */
  lemma {:induction false} AncestorPassSettled(rows: seq<seq<int>>, k: nat, c: nat)
    requires c < k <= |rows|
    ensures AncestorPass(rows, k)[c] == AncestorPass(rows, c + 1)[c]
    decreases k
  {
    if k > c + 1 {
      AncestorPassSettled(rows, k - 1, c);
    }
  }

  /** The forward pass: `ancestors[child] = parents`, then the union with
      `ancestors[parent]` for each parent, in the set's iteration order. */
  method Ancestors(rows: seq<seq<int>>) returns (anc: seq<set<int>>)
    requires ValidIds(rows)
    ensures anc == AncestorSets(rows)
  {
    var ancestors := new set<int>[|rows|](_ => {});
    assert ancestors[..] == AncestorPass(rows, 0);
    for child := 0 to |rows|
      invariant ancestors[..] == AncestorPass(rows, child)
    {
      AncestorPassUnset(rows, child, child);
      AncestorStep(ancestors, rows, child);
    }
    anc := ancestors[..];
  }

  /** One record of the forward pass. */
  method AncestorStep(ancestors: array<set<int>>, rows: seq<seq<int>>, child: nat)
    requires ValidIds(rows) && ancestors.Length == |rows| && child < |rows|
    requires ancestors[child] == {}
    modifies ancestors
    ensures ancestors[..] == old(ancestors[..])[child := Members(rows[child]) + Inherited(old(ancestors[..]), Members(rows[child]))]
  {
    ghost var prev := ancestors[..];
    var ps := Members(rows[child]);
    ancestors[child] := ps;
    var xs := ListOfSet(ps);
    assert Members(xs) == ps;
    JoinInto(ancestors, ancestors, child, xs);
    SelfAddsNothing(prev, child, ps);
  }

  /** The inner loop of both passes: `dst[i] = src[i].union(dst[x])` for each
      `x` of `xs`, in order, where `dst` and `src` are one list. Joining
      `dst[i]` with itself adds nothing, so the result is the union with
      every entry `x` as it was before the loop. */
  method JoinInto(dst: array<set<int>>, src: array<set<int>>, i: nat, xs: seq<int>)
    requires dst == src
    requires i < dst.Length && forall x :: x in xs ==> 0 <= x < dst.Length
    modifies dst
    ensures dst[..] == old(dst[..])[i := old(dst[i]) + Inherited(old(dst[..]), Members(xs))]
  {
    ghost var before := dst[..];
    assert Members(xs[..0]) == {};
    for j := 0 to |xs|
      invariant forall k :: 0 <= k < dst.Length && k != i ==> dst[k] == before[k]
      invariant dst[i] == before[i] + Inherited(before, Members(xs[..j]))
    {
      assert xs[j] in xs;
      assert Members(xs[..j + 1]) == Members(xs[..j]) + {xs[j]};
      InheritedAdd(before, Members(xs[..j]), xs[j]);
      dst[i] := src[i] + dst[xs[j]];
    }
    assert xs[..|xs|] == xs;
  }

  /** Joining record `c`'s parent set with the sets of its parents gives the
      same whether `c`'s own entry is still empty or already its parent set. */
  lemma SelfAddsNothing(prev: seq<set<int>>, c: nat, ps: set<int>)
    requires c < |prev| && prev[c] == {}
    ensures ps + Inherited(prev[c := ps], ps) == ps + Inherited(prev, ps)
  {
  }

  /** With ordered ids the pass reaches a fixpoint: every record's ancestors
      are its parents and its parents' ancestors. */
  lemma AncestorFixpoint(rows: seq<seq<int>>, c: nat)
    requires Ordered(rows) && c < |rows|
    ensures AncestorSets(rows)[c] == Members(rows[c]) + Inherited(AncestorSets(rows), Members(rows[c]))
  {
    var ps := Members(rows[c]);
    var prev := AncestorPass(rows, c);
    AncestorPassSettled(rows, |rows|, c);
    forall p | p in ps && 0 <= p < |rows|
      ensures prev[p] == AncestorSets(rows)[p]
    {
      AncestorPassSettled(rows, c, p);
      AncestorPassSettled(rows, |rows|, p);
    }
    InheritedAgree(prev, AncestorSets(rows), ps);
  }

  /** A citation chain: `path[0]` cites `path[1]`, which cites `path[2]`, and
      so on; it has at least one link. */
  ghost predicate Chain(rows: seq<seq<int>>, path: seq<int>)
  {
    && |path| >= 2
    && (forall k :: 0 <= k < |path| ==> 0 <= path[k] < |rows|)
    && (forall k :: 0 <= k < |path| - 1 ==> path[k + 1] in rows[path[k]])
  }

  /** A chain from `b` down to `a`. */
  ghost predicate Linked(rows: seq<seq<int>>, b: int, a: int, path: seq<int>)
  {
    Chain(rows, path) && path[0] == b && path[|path| - 1] == a
  }

  lemma {:induction false} AncestorHasChain(rows: seq<seq<int>>, b: nat, a: int) returns (path: seq<int>)
    requires Ordered(rows) && b < |rows| && a in AncestorSets(rows)[b]
    ensures Linked(rows, b, a, path)
    decreases b
  {
    var ps := Members(rows[b]);
    AncestorFixpoint(rows, b);
    if a in ps {
      path := [b, a];
    } else {
      var p :| p in ps && 0 <= p < |rows| && a in AncestorSets(rows)[p];
      var rest := AncestorHasChain(rows, p, a);
      path := [b] + rest;
      assert path[1..] == rest;
    }
  }

  lemma {:induction false} ChainGivesAncestor(rows: seq<seq<int>>, path: seq<int>)
    requires Ordered(rows) && Chain(rows, path)
    ensures path[|path| - 1] in AncestorSets(rows)[path[0]]
    decreases |path|
  {
    var b := path[0];
    var x := path[1];
    AncestorFixpoint(rows, b);
    assert x in Members(rows[b]);
    if |path| > 2 {
      var rest := path[1..];
      assert Chain(rows, rest);
      ChainGivesAncestor(rows, rest);
    }
  }

  /** The forward pass is the backward transitive closure: `a` is an
      ancestor of `b` exactly when a chain of citations leads from `b` to
      `a`. */
  lemma AncestorsAreChains(rows: seq<seq<int>>, b: nat, a: int)
    requires Ordered(rows) && b < |rows|
    ensures a in AncestorSets(rows)[b] <==> exists path :: Linked(rows, b, a, path)
  {
    if a in AncestorSets(rows)[b] {
      var path := AncestorHasChain(rows, b, a);
    }
    if path :| Linked(rows, b, a, path) {
      ChainGivesAncestor(rows, path);
    }
  }

  /** Every ancestor has a smaller id, the parents are ancestors, and so are
      the parents' ancestors. */
  lemma AncestorsEarlier(rows: seq<seq<int>>, c: nat)
    requires Ordered(rows) && c < |rows|
    ensures forall a :: a in AncestorSets(rows)[c] ==> 0 <= a < c
    ensures forall p :: p in rows[c] ==> p in AncestorSets(rows)[c] && AncestorSets(rows)[p] <= AncestorSets(rows)[c]
  {
    AncestorFixpoint(rows, c);
    forall a | a in AncestorSets(rows)[c]
      ensures 0 <= a < c
    {
      var path := AncestorHasChain(rows, c, a);
      ChainDescends(rows, path);
    }
  }

  /** Ids strictly decrease along a chain. */
  lemma {:induction false} ChainDescends(rows: seq<seq<int>>, path: seq<int>)
    requires Ordered(rows) && Chain(rows, path)
    ensures 0 <= path[|path| - 1] < path[0]
    decreases |path|
  {
    if |path| > 2 {
      ChainDescends(rows, path[1..]);
    }
  }

  // ---------------------------------------------------------------------
  // Descendants

  /** `direct_descendents[p]` as a set: the records citing `p`. */
  function Direct(rows: seq<seq<int>>): (r: seq<set<int>>)
    ensures |r| == |rows|
    ensures forall p, c :: 0 <= p < |rows| && c in r[p] <==> 0 <= p < |rows| && 0 <= c < |rows| && p in rows[c]
  {
    seq(|rows|, p requires 0 <= p < |rows| => set c | 0 <= c < |rows| && p in rows[c])
  }

  /** The records among `0 .. k-1` that cite `p`, in increasing order: the
      list `direct_descendents[p]` once children `0 .. k-1` are appended. */
  function Citers(rows: seq<seq<int>>, p: int, k: nat): (r: seq<int>)
    requires k <= |rows|
    ensures forall c :: c in r <==> 0 <= c < k && p in rows[c]
    ensures Distinct(r)
  {
    if k == 0 then [] else Citers(rows, p, k - 1) + (if p in rows[k - 1] then [k - 1] else [])
  }

  /** The descendant list after the reverse pass has handled records
      `|rows| - 1` down to `k`: the pass works on the very list that holds
      the direct descendants (the two names are one list), so record `p`
      joins its direct descendants with the sets its children have at that
      moment, accumulating over all children. */
  function DescendantPass(rows: seq<seq<int>>, k: nat): (r: seq<set<int>>)
    requires k <= |rows|
    ensures |r| == |rows|
    decreases |rows| - k
  {
    if k == |rows| then Direct(rows)
    else
      var prev := DescendantPass(rows, k + 1);
      prev[k := prev[k] + Inherited(prev, Direct(rows)[k])]
  }

  function DescendantSets(rows: seq<seq<int>>): (r: seq<set<int>>)
    ensures |r| == |rows|
  {
    DescendantPass(rows, 0)
  }

  lemma {:induction false} DescendantPassUnset(rows: seq<seq<int>>, k: nat, p: nat)
    requires p < k <= |rows|
    ensures DescendantPass(rows, k)[p] == Direct(rows)[p]
    decreases |rows| - k
  {
    if k < |rows| {
      DescendantPassUnset(rows, k + 1, p);
    }
  }

  lemma {:induction false} DescendantPassSettled(rows: seq<seq<int>>, k: nat, p: nat)
    requires k <= p < |rows|
    ensures DescendantPass(rows, k)[p] == DescendantPass(rows, p)[p]
    decreases p - k
  {
    if k < p {
      DescendantPassSettled(rows, k + 1, p);
    }
  }

  /** The list of direct descendants: each child is appended to the list of
      each of its parents, visiting the children in order. */
  method DirectDescendants(rows: seq<seq<int>>) returns (dd: array<seq<int>>)
    requires ValidIds(rows)
    ensures fresh(dd) && dd.Length == |rows|
    ensures forall p :: 0 <= p < |rows| ==> dd[p] == Citers(rows, p, |rows|)
  {
    dd := new seq<int>[|rows|](_ => []);
    for child := 0 to |rows|
      invariant forall p :: 0 <= p < |rows| ==> dd[p] == Citers(rows, p, child)
    {
      AppendChild(dd, rows, child);
    }
  }

  /** `direct_descendents[parent].append(child)` for each parent of `child`. */
  method AppendChild(dd: array<seq<int>>, rows: seq<seq<int>>, child: nat)
    requires ValidIds(rows) && child < |rows| && dd.Length == |rows|
    requires forall p :: 0 <= p < |rows| ==> dd[p] == Citers(rows, p, child)
    modifies dd
    ensures forall p :: 0 <= p < |rows| ==> dd[p] == Citers(rows, p, child + 1)
  {
    var xs := ListOfSet(Members(rows[child]));
    for j := 0 to |xs|
      invariant forall p :: 0 <= p < |rows| ==>
        dd[p] == Citers(rows, p, child) + (if p in xs[..j] then [child] else [])
    {
      assert xs[j] in rows[child];
      assert xs[..j + 1] == xs[..j] + [xs[j]];
      assert xs[j] !in xs[..j];
      dd[xs[j]] := dd[xs[j]] + [child];
    }
    assert xs[..|xs|] == xs;
  }

  /** The descendant part of networkanalysis.py's `get_phylogenies`: the
      direct descendant lists become sets, `descendents` is made the same
      list as `direct_descendents`, and the records are visited from the last
      to the first, each joining the sets of its children; the result is
      turned into lists without repeats. */
  method Descendants(rows: seq<seq<int>>) returns (desc: seq<seq<int>>)
    requires ValidIds(rows)
    ensures |desc| == |rows|
    ensures forall p :: 0 <= p < |rows| ==> Distinct(desc[p])
    ensures forall p, c :: 0 <= p < |rows| ==> (c in desc[p] <==> c in DescendantSets(rows)[p])
  {
    var lists := DirectDescendants(rows);
    var directDescendents := new set<int>[|rows|](p requires 0 <= p < |rows| reads lists => Members(lists[p]));
    forall p | 0 <= p < |rows|
      ensures directDescendents[p] == Direct(rows)[p]
    {
      assert Members(lists[p]) == Members(Citers(rows, p, |rows|));
    }
    assert directDescendents[..] == Direct(rows);
    var descendents := directDescendents;
    ReversePass(descendents, directDescendents, rows);
    desc := SetsToLists(descendents[..]);
  }

  /** The reverse loop over `enumerate(direct_descendents)[::-1]`: each
      `descendents[parent] = direct_descendents[parent].union(descendents[child])`
      reads the entry it wrote for the previous child, because the two names
      are one list. */
  method ReversePass(descendents: array<set<int>>, directDescendents: array<set<int>>, rows: seq<seq<int>>)
    requires descendents == directDescendents
    requires ValidIds(rows) && descendents[..] == Direct(rows)
    modifies descendents
    ensures descendents[..] == DescendantSets(rows)
  {
    var enumDds := directDescendents[..];
    var parent := |rows|;
    while parent > 0
      invariant 0 <= parent <= |rows|
      invariant descendents[..] == DescendantPass(rows, parent)
    {
      parent := parent - 1;
      DescendantPassUnset(rows, parent + 1, parent);
      var children := ListOfSet(enumDds[parent]);
      assert Members(children) == Direct(rows)[parent];
      JoinInto(descendents, directDescendents, parent, children);
    }
  }

  /** `[list(i) for i in descendents]` */
  method SetsToLists(sets: seq<set<int>>) returns (lists: seq<seq<int>>)
    ensures |lists| == |sets|
    ensures forall p :: 0 <= p < |sets| ==> Distinct(lists[p])
    ensures forall p, c :: 0 <= p < |sets| ==> (c in lists[p] <==> c in sets[p])
  {
    lists := [];
    for p := 0 to |sets|
      invariant |lists| == p
      invariant forall q :: 0 <= q < p ==> Distinct(lists[q])
      invariant forall q, c :: 0 <= q < p ==> (c in lists[q] <==> c in sets[q])
    {
      var xs := ListOfSet(sets[p]);
      lists := lists + [xs];
    }
  }

  /** With ordered ids every child of `p` is handled before `p`, so the
      reverse pass reaches a fixpoint: the descendants of `p` are the records
      citing it and their descendants. */
  lemma DescendantFixpoint(rows: seq<seq<int>>, p: nat)
    requires Ordered(rows) && p < |rows|
    ensures DescendantSets(rows)[p] == Direct(rows)[p] + Inherited(DescendantSets(rows), Direct(rows)[p])
  {
    var prev := DescendantPass(rows, p + 1);
    DescendantPassSettled(rows, 0, p);
    DescendantPassUnset(rows, p + 1, p);
    forall c | c in Direct(rows)[p] && 0 <= c < |rows|
      ensures prev[c] == DescendantSets(rows)[c]
    {
      DescendantPassSettled(rows, p + 1, c);
      DescendantPassSettled(rows, 0, c);
    }
    InheritedAgree(prev, DescendantSets(rows), Direct(rows)[p]);
  }

  lemma {:induction false} DescendantHasChain(rows: seq<seq<int>>, a: nat, b: int) returns (path: seq<int>)
    requires Ordered(rows) && a < |rows| && b in DescendantSets(rows)[a]
    ensures Linked(rows, b, a, path)
    decreases |rows| - a
  {
    DescendantFixpoint(rows, a);
    if b in Direct(rows)[a] {
      path := [b, a];
    } else {
      var c :| c in Direct(rows)[a] && 0 <= c < |rows| && b in DescendantSets(rows)[c];
      var rest := DescendantHasChain(rows, c, b);
      path := rest + [a];
    }
  }

  lemma {:induction false} ChainGivesDescendant(rows: seq<seq<int>>, path: seq<int>)
    requires Ordered(rows) && Chain(rows, path)
    ensures path[0] in DescendantSets(rows)[path[|path| - 1]]
    decreases |path|
  {
    var n := |path|;
    var a := path[n - 1];
    var c := path[n - 2];
    DescendantFixpoint(rows, a);
    assert c in Direct(rows)[a];
    if n > 2 {
      var rest := path[..n - 1];
      assert Chain(rows, rest);
      ChainGivesDescendant(rows, rest);
    }
  }

  /** The reverse pass is the forward transitive closure: `b` is a
      descendant of `a` exactly when a chain of citations leads from `b` to
      `a`. */
  lemma DescendantsAreChains(rows: seq<seq<int>>, a: nat, b: int)
    requires Ordered(rows) && a < |rows|
    ensures b in DescendantSets(rows)[a] <==> exists path :: Linked(rows, b, a, path)
  {
    if b in DescendantSets(rows)[a] {
      var path := DescendantHasChain(rows, a, b);
    }
    if path :| Linked(rows, b, a, path) {
      ChainGivesDescendant(rows, path);
    }
  }

  /** The two passes agree: `b` is a descendant of `a` exactly when `a` is an
      ancestor of `b`. */
  lemma DescendantIffAncestor(rows: seq<seq<int>>, a: nat, b: nat)
    requires Ordered(rows) && a < |rows| && b < |rows|
    ensures b in DescendantSets(rows)[a] <==> a in AncestorSets(rows)[b]
  {
    DescendantsAreChains(rows, a, b);
    AncestorsAreChains(rows, b, a);
  }
}
