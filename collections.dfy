/** Small facts about Python lists and sets that the other modules share:
    `sum(...)` of a list of integers, the total length of a list of rows,
    and `list(s)` of a set (its elements once each, in some order). */
module Collections {

  datatype Option<T> = None | Some(value: T)

  /** `sum(s)` */
  function Sum(s: seq<int>): int
  {
    if s == [] then 0 else s[0] + Sum(s[1..])
  }

  lemma {:induction false} SumAppend(s: seq<int>, x: int)
    ensures Sum(s + [x]) == Sum(s) + x
  {
    if s == [] {
      assert s + [x] == [x];
    } else {
      assert (s + [x])[1..] == s[1..] + [x];
      SumAppend(s[1..], x);
    }
  }

  /** Incrementing (or overwriting) one entry changes the sum by the difference. */
  lemma {:induction false} SumUpdate(s: seq<int>, i: nat, v: int)
    requires i < |s|
    ensures Sum(s[i := v]) == Sum(s) - s[i] + v
  {
    if i == 0 {
      assert s[i := v][1..] == s[1..];
    } else {
      assert s[i := v][1..] == s[1..][i - 1 := v];
      SumUpdate(s[1..], i - 1, v);
    }
  }

  /** A list of zeros sums to zero. */
  lemma {:induction false} SumZeros(n: nat)
    ensures Sum(seq(n, _ => 0)) == 0
  {
    if n > 0 {
      assert seq(n, _ => 0)[1..] == seq(n - 1, _ => 0);
      SumZeros(n - 1);
    }
  }

  /** Adding two lists entry by entry adds their sums. */
  lemma {:induction false} SumPointwise(a: seq<int>, b: seq<int>, c: seq<int>)
    requires |a| == |b| == |c| && forall i :: 0 <= i < |c| ==> c[i] == a[i] + b[i]
    ensures Sum(c) == Sum(a) + Sum(b)
  {
    if c != [] {
      SumPointwise(a[1..], b[1..], c[1..]);
    }
  }

  /** Adding one to every entry whose index lies in `keys`. */
  function AddOnes(v: seq<int>, keys: set<int>): (r: seq<int>)
    ensures |r| == |v|
    ensures forall k :: 0 <= k < |v| ==> r[k] == if k in keys then v[k] + 1 else v[k]
  {
    seq(|v|, k requires 0 <= k < |v| => if k in keys then v[k] + 1 else v[k])
  }

  /** Bumping the entries of a set of in-range indices raises the sum by the set's size. */
  lemma {:induction false} SumAddOnes(v: seq<int>, keys: set<int>)
    requires forall k :: k in keys ==> 0 <= k < |v|
    ensures Sum(AddOnes(v, keys)) == Sum(v) + |keys|
    decreases |keys|
  {
    if keys == {} {
      assert AddOnes(v, keys) == v;
    } else {
      var k := Pick(keys);
      var rest := keys - {k};
      assert keys == rest + {k};
      SumAddOnes(v, rest);
      AddOneMore(v, rest, k);
    }
  }

  lemma Pick<T>(s: set<T>) returns (x: T)
    requires s != {}
    ensures x in s
  {
    x :| x in s;
  }

  lemma AddOneMore(v: seq<int>, rest: set<int>, k: int)
    requires 0 <= k < |v| && k !in rest
    ensures Sum(AddOnes(v, rest + {k})) == Sum(AddOnes(v, rest)) + 1
  {
    var w := AddOnes(v, rest);
    assert AddOnes(v, rest + {k}) == w[k := w[k] + 1];
    SumUpdate(w, k, w[k] + 1);
  }

  /** The number of entries over all rows of a list of lists. */
  function TotalLength<T>(rows: seq<seq<T>>): nat
  {
    if rows == [] then 0 else |rows[0]| + TotalLength(rows[1..])
  }

  lemma {:induction false} TotalLengthConcat<T>(a: seq<seq<T>>, b: seq<seq<T>>)
    ensures TotalLength(a + b) == TotalLength(a) + TotalLength(b)
  {
    if a != [] {
      assert (a + b)[1..] == a[1..] + b;
      TotalLengthConcat(a[1..], b);
    } else {
      assert a + b == b;
    }
  }

  /** Rows that are all empty hold no entries. */
  lemma {:induction false} TotalLengthEmptyRows<T>(rows: seq<seq<T>>)
    requires forall i :: 0 <= i < |rows| ==> rows[i] == []
    ensures TotalLength(rows) == 0
  {
    if rows != [] {
      TotalLengthEmptyRows(rows[1..]);
    }
  }

  /** The length of each row of a list of lists. */
  function Lengths<T>(rows: seq<seq<T>>): seq<nat>
  {
    seq(|rows|, i requires 0 <= i < |rows| => |rows[i]|)
  }

  function Min(a: int, b: int): int
  {
    if a <= b then a else b
  }

  function Max(a: int, b: int): int
  {
    if a <= b then b else a
  }

  ghost predicate Distinct<T>(xs: seq<T>)
  {
    forall i, j :: 0 <= i < j < |xs| ==> xs[i] != xs[j]
  }

  /** `set(xs)` */
  function Members<T(!new)>(xs: seq<T>): (r: set<T>)
    ensures forall x :: x in r <==> x in xs
  {
    set x | x in xs
  }

  /** A list without repeats has as many members as entries. */
  lemma {:induction false} DistinctMembers<T(!new)>(xs: seq<T>)
    requires Distinct(xs)
    ensures |Members(xs)| == |xs|
  {
    if xs != [] {
      var init := xs[..|xs| - 1];
      var last := xs[|xs| - 1];
      DistinctMembers(init);
      assert Members(xs) == Members(init) + {last};
      assert last !in Members(init);
    }
  }

  /** `list(s)` of a set: every element exactly once, in the set's iteration order
      (which the model leaves open). */
  method ListOfSet<T>(s: set<T>) returns (xs: seq<T>)
    ensures Distinct(xs)
    ensures forall x :: x in xs <==> x in s
    ensures |xs| == |s|
  {
    xs := [];
    var rest := s;
    while rest != {}
      invariant rest <= s
      invariant Distinct(xs)
      invariant forall x :: x in xs <==> x in s && x !in rest
      invariant |xs| + |rest| == |s|
      decreases |rest|
    {
      var x :| x in rest;
      xs := xs + [x];
      rest := rest - {x};
    }
  }

  /** `(k * g + r) / g == k` when `0 <= r < g`. */
  lemma DivOfOffset(k: nat, g: nat, r: nat)
    requires r < g
    ensures (k * g + r) / g == k
  {
    var q := (k * g + r) / g;
    var m := (k * g + r) % g;
    assert q * g + m == k * g + r;
    assert (k - q) * g == m - r;
    if q < k {
      MulAtLeast(k - q, g);
    } else if q > k {
      MulAtLeast(q - k, g);
    }
  }

  /** `(k * g + r) % g == r` when `0 <= r < g`. */
  lemma ModOfOffset(k: nat, g: nat, r: nat)
    requires r < g
    ensures (k * g + r) % g == r
  {
    var n := k * g + r;
    DivOfOffset(k, g, r);
    assert n == (n / g) * g + n % g;
    assert n / g == k;
  }

  lemma MulAtLeast(a: int, g: int)
    requires a >= 1 && g >= 0
    ensures a * g >= g
  {
  }
}
