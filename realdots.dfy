/** The helpers of real_dots.py that prepare a real citation network for
    drawing: grouping sorted patent numbers into rows (`gens_by_pno`),
    cutting each record's bag of words down to its first `n` words
    (`trim_sorted_text`, `top_n_words`, `flatten_text`), and deciding
    whether a citation passed a word on (`shared_traits`).

    Records are Python dictionaries loaded from a pickle. The model keeps
    the keys these helpers read or write: `'sorted_text'` (a list of word
    entries), `'text'` (a mapping from words to word entries) and
    `'words'`. A word entry is itself a dictionary, modelled as a map from
    field names to field values. Dictionary iteration order is left open:
    the loops visit the keys in an arbitrary order. */
module RealDots {
  import opened Collections

  /** A field value of a word entry: a string such as the word itself, or
      a number such as its `'tf-idf'` score. */
  datatype Field = Text(s: string) | Score(x: real)

  type Entry = map<string, Field>

  /** The value of a record's `'words'`: `None`, or a list of words. */
  datatype WordsValue = NoneValue | List(fields: seq<Field>)

  /** A record; `None` stands for a key the dictionary lacks. */
  datatype Record = Record(sortedText: Option<seq<Entry>>, text: Option<map<string, Entry>>,
                           words: Option<WordsValue>)

  /** How a helper ended: with a value, or with an uncaught `KeyError`. */
  datatype Outcome<T> = Done(value: T) | KeyError

  // ---------------------------------------------------------------------
  // gens_by_pno

  /** The rows joined end to end. */
  function Concat(gens: seq<seq<int>>): seq<int>
  {
    if gens == [] then [] else Concat(gens[..|gens| - 1]) + gens[|gens| - 1]
  }

  lemma ConcatAppend(gens: seq<seq<int>>, g: seq<int>)
    ensures Concat(gens + [g]) == Concat(gens) + g
  {
    assert (gens + [g])[..|gens|] == gens;
  }

  /** `nodes` is what `sorted(just_nodes)` returns: the same multiset of
      numbers, in ascending order. */
  ghost predicate SortedOf(nodes: seq<int>, justNodes: seq<int>)
  {
    && multiset(nodes) == multiset(justNodes)
    && forall i, j :: 0 <= i < j < |nodes| ==> nodes[i] <= nodes[j]
  }

  /** The front of the sorted list is the smallest number of the input. */
  lemma FirstIsMin(nodes: seq<int>, justNodes: seq<int>)
    requires SortedOf(nodes, justNodes) && |nodes| > 0
    ensures nodes[0] in justNodes
    ensures forall x :: x in justNodes ==> nodes[0] <= x
  {
    assert nodes[0] in multiset(nodes);
    forall x | x in justNodes
      ensures nodes[0] <= x
    {
      assert x in multiset(justNodes);
      var i :| 0 <= i < |nodes| && nodes[i] == x;
    }
  }

  /** How `gens_by_pno` ended: with its rows, with the `IndexError` of
      `pop(0)` on an empty list, or in the loop that never ends when
      `width < 1` leaves more than `width` numbers to place. */
  datatype GensStatus = Grouped | PopFromEmpty | Diverges

  /** `gens_by_pno(just_nodes, width)`, given the list `nodes` that
      `sorted(just_nodes)` returns: the smallest number alone, then rows of
      `width` numbers popped from the front while more than `width` remain,
      then the rest as the last row. */
  method GensByPno(justNodes: seq<int>, nodes: seq<int>, width: int) returns (status: GensStatus, gens: seq<seq<int>>)
    requires SortedOf(nodes, justNodes)
    ensures status == PopFromEmpty <==> |justNodes| == 0
    ensures status == Diverges <==> |justNodes| >= 1 && width < 1 && |justNodes| - 1 > width
    ensures status == Grouped ==> |gens| >= 2 && Concat(gens) == nodes
    ensures status == Grouped ==>
      |gens[0]| == 1 && gens[0][0] in justNodes && forall x :: x in justNodes ==> gens[0][0] <= x
    ensures status == Grouped ==> forall i :: 1 <= i < |gens| - 1 ==> |gens[i]| == width
    ensures status == Grouped ==> |gens[|gens| - 1]| <= Max(width, 0)
    ensures status == Grouped ==> (gens[|gens| - 1] == [] <==> |justNodes| == 1)
  {
    assert |nodes| == |multiset(nodes)| == |justNodes|;
    if |nodes| == 0 {
      return PopFromEmpty, [];
    }
    FirstIsMin(nodes, justNodes);
    var rest := nodes[1..];
    if width < 1 && |rest| > width {
      return Diverges, [[nodes[0]]];
    }
    var groups := GroupRest(rest, width);
    gens := [[nodes[0]]] + groups;
    ConcatPrepend(nodes[0], groups);
    assert nodes == [nodes[0]] + rest;
    status := Grouped;
  }

  /** The part of `gens_by_pno` after the first number: rows of `width`
      popped from the front while more than `width` remain, then what is
      left as the last row. */
  method GroupRest(rest: seq<int>, width: int) returns (groups: seq<seq<int>>)
    requires width >= 1 || |rest| <= width
    ensures |groups| >= 1 && Concat(groups) == rest
    ensures forall i :: 0 <= i < |groups| - 1 ==> |groups[i]| == width
    ensures |groups[|groups| - 1]| <= Max(width, 0)
    ensures groups[|groups| - 1] == [] <==> rest == []
  {
    var left;
    groups, left := FullGroups(rest, width);
    var lastGen;
    lastGen, left := PopFront(left, |left|);
    ConcatAppend(groups, lastGen);
    groups := groups + [lastGen];
  }

  /** The `while len(nodes) > width` loop of `gens_by_pno`: full rows of
      `width` popped from the front until at most `width` nodes are left. */
  method FullGroups(rest: seq<int>, width: int) returns (groups: seq<seq<int>>, left: seq<int>)
    requires width >= 1 || |rest| <= width
    ensures Concat(groups) + left == rest
    ensures forall i :: 0 <= i < |groups| ==> |groups[i]| == width
    ensures |left| <= Max(width, 0)
    ensures left == [] <==> rest == []
  {
    left := rest;
    groups := [];
    while |left| > width
      invariant width >= 1 || |left| <= width
      invariant Concat(groups) + left == rest
      invariant forall i :: 0 <= i < |groups| ==> |groups[i]| == width
      invariant rest != [] ==> left != []
      decreases |left|
    {
      var gen;
      gen, left := PopFront(left, width);
      ConcatAppend(groups, gen);
      groups := groups + [gen];
    }
  }

  lemma {:induction false} ConcatPrepend(x: int, groups: seq<seq<int>>)
    ensures Concat([[x]] + groups) == [x] + Concat(groups)
    decreases |groups|
  {
    if groups == [] {
      assert Concat([[x]]) == Concat([]) + [x];
    } else {
      var m := |groups| - 1;
      assert ([[x]] + groups)[..|groups|] == [[x]] + groups[..m];
      ConcatPrepend(x, groups[..m]);
    }
  }

  /** `gen.append(nodes.pop(0))`, `n` times. */
  method PopFront(nodes: seq<int>, n: nat) returns (gen: seq<int>, rest: seq<int>)
    requires n <= |nodes|
    ensures gen + rest == nodes && |gen| == n
  {
    gen := [];
    rest := nodes;
    for i := 0 to n
      invariant gen + rest == nodes && |gen| == i
    {
      gen := gen + [rest[0]];
      rest := rest[1..];
    }
  }

  // ---------------------------------------------------------------------
  // shared_traits

  /** `shared_traits(p1, p2, recs)`: whether the two records' `'words'`
      have a word in common. A missing record or a missing `'words'` raises
      `KeyError`; a `'words'` that is `None` makes `set(None)` raise the
      `TypeError` that is caught, giving `False`. The handler catches only
      `TypeError` (its second name merely binds the exception), and the
      first record is read before the second, so a `None` there answers
      `False` without reading the second record. */
  function SharedTraits(p1: int, p2: int, recs: map<int, Record>): (r: Outcome<bool>)
    ensures r == Done(true) <==>
      && p1 in recs && p2 in recs && recs[p1].words.Some? && recs[p2].words.Some?
      && recs[p1].words.value.List? && recs[p2].words.value.List?
      && exists w :: w in recs[p1].words.value.fields && w in recs[p2].words.value.fields
    ensures r.KeyError? <==>
      || p1 !in recs || recs[p1].words.None?
      || (recs[p1].words.value.List? && (p2 !in recs || recs[p2].words.None?))
  {
    if p1 !in recs || recs[p1].words.None? then KeyError
    else if recs[p1].words.value.NoneValue? then Done(false)
    else if p2 !in recs || recs[p2].words.None? then KeyError
    else if recs[p2].words.value.NoneValue? then Done(false)
    else
      var p1set := Members(recs[p1].words.value.fields);
      var p2set := Members(recs[p2].words.value.fields);
      NonEmptyIntersection(p1set, p2set);
      Done(|p1set * p2set| > 0)
  }

  lemma NonEmptyIntersection<T>(a: set<T>, b: set<T>)
    ensures |a * b| > 0 <==> exists w :: w in a && w in b
  {
    if w :| w in a && w in b {
      assert w in a * b;
    }
  }

  /** When both records carry a list of words, the answer does not depend
      on which one is the parent. */
  lemma SharedTraitsSymmetric(p1: int, p2: int, recs: map<int, Record>)
    requires p1 in recs && recs[p1].words.Some? && recs[p1].words.value.List?
    requires p2 in recs && recs[p2].words.Some? && recs[p2].words.value.List?
    ensures SharedTraits(p1, p2, recs) == SharedTraits(p2, p1, recs)
  {
    var r := SharedTraits(p1, p2, recs);
    var s := SharedTraits(p2, p1, recs);
    assert r.Done? && s.Done?;
    if r.value {
      var w :| w in recs[p1].words.value.fields && w in recs[p2].words.value.fields;
      assert s.value;
    }
  }

  // ---------------------------------------------------------------------
  // flatten_text, top_n_words, trim_sorted_text

  /** The mapping after `flatten_text(D, keylabel)` has tagged, in place,
      every entry with its own key under `keylabel`. */
  function Tagged(d: map<string, Entry>, keylabel: string): (r: map<string, Entry>)
    ensures r.Keys == d.Keys
    ensures forall k :: k in r ==> keylabel in r[k] && r[k][keylabel] == Text(k)
    ensures forall k, f :: k in r && f != keylabel ==> (f in r[k] <==> f in d[k])
    ensures forall k, f :: k in r && f != keylabel && f in r[k] ==> r[k][f] == d[k][f]
  {
    map k | k in d :: d[k][keylabel := Text(k)]
  }

  /** `arr` lists the entries of `tagged` (tagged under `keylabel`) once
      each, in some order. */
  ghost predicate ListsTagged(arr: seq<Entry>, tagged: map<string, Entry>, keylabel: string)
  {
    && |arr| == |tagged|
    && (forall i :: 0 <= i < |arr| ==>
          keylabel in arr[i] && arr[i][keylabel].Text? && arr[i][keylabel].s in tagged
          && arr[i] == tagged[arr[i][keylabel].s])
    && (forall i, j :: 0 <= i < j < |arr| ==> arr[i][keylabel] != arr[j][keylabel])
    && (forall k :: k in tagged ==> exists i :: 0 <= i < |arr| && arr[i][keylabel] == Text(k))
  }

  /** `flatten_text(D, keylabel)`: every entry of `D`, tagged in place with
      its key under `keylabel`, appended to a list in iteration order. The
      mapping afterwards is `tagged`. */
  method FlattenText(d: map<string, Entry>, keylabel: string) returns (arr: seq<Entry>, tagged: map<string, Entry>)
    ensures tagged == Tagged(d, keylabel)
    ensures ListsTagged(arr, tagged, keylabel)
  {
    var keys := ListOfSet(d.Keys);
    arr, tagged := TagInOrder(d, keylabel, keys);
    TaggedAll(d, keylabel, keys, tagged);
    TaggedListed(d, keylabel, keys, arr);
  }

  /** The loop of `flatten_text`, visiting the keys in the order `keys`. */
  method TagInOrder(d: map<string, Entry>, keylabel: string, keys: seq<string>)
    returns (arr: seq<Entry>, tagged: map<string, Entry>)
    requires forall k :: k in keys ==> k in d
    ensures TaggedSoFar(d, keylabel, keys, tagged) && |arr| == |keys|
    ensures forall j :: 0 <= j < |keys| ==> arr[j] == d[keys[j]][keylabel := Text(keys[j])]
  {
    arr := [];
    tagged := d;
    for i := 0 to |keys|
      invariant TaggedSoFar(d, keylabel, keys[..i], tagged) && |arr| == i
      invariant forall j :: 0 <= j < i ==> arr[j] == d[keys[j]][keylabel := Text(keys[j])]
    {
      var elem := keys[i];
      var newElem := d[elem];
      newElem := newElem[keylabel := Text(elem)];
      TagStep(d, keylabel, keys, i);
      tagged := tagged[elem := newElem];
      arr := arr + [newElem];
    }
    assert keys[..|keys|] == keys;
  }

  /** `tagged` is `d` with the entries of the keys in `done` tagged. */
  ghost predicate TaggedSoFar(d: map<string, Entry>, keylabel: string, done: seq<string>, tagged: map<string, Entry>)
  {
    && tagged.Keys == d.Keys
    && forall k :: k in d ==> tagged[k] == if k in done then d[k][keylabel := Text(k)] else d[k]
  }

  lemma TagStep(d: map<string, Entry>, keylabel: string, keys: seq<string>, i: nat)
    requires i < |keys| && keys[i] in d
    ensures forall tagged :: TaggedSoFar(d, keylabel, keys[..i], tagged) ==>
      TaggedSoFar(d, keylabel, keys[..i + 1], tagged[keys[i] := d[keys[i]][keylabel := Text(keys[i])]])
  {
    assert keys[..i + 1] == keys[..i] + [keys[i]];
  }

  lemma TaggedAll(d: map<string, Entry>, keylabel: string, keys: seq<string>, tagged: map<string, Entry>)
    requires forall k :: k in keys <==> k in d
    requires TaggedSoFar(d, keylabel, keys, tagged)
    ensures tagged == Tagged(d, keylabel)
  {
  }

  lemma TaggedListed(d: map<string, Entry>, keylabel: string, keys: seq<string>, arr: seq<Entry>)
    requires Distinct(keys) && (forall k :: k in keys <==> k in d) && |keys| == |d|
    requires |arr| == |keys| && forall j :: 0 <= j < |keys| ==> arr[j] == d[keys[j]][keylabel := Text(keys[j])]
    ensures ListsTagged(arr, Tagged(d, keylabel), keylabel)
  {
    var tagged := Tagged(d, keylabel);
    forall k | k in tagged
      ensures exists i :: 0 <= i < |arr| && arr[i][keylabel] == Text(k)
    {
      var i :| 0 <= i < |keys| && keys[i] == k;
      assert arr[i][keylabel] == Text(k);
    }
  }

  /** The end of the slice `[0:n]` of a list of length `len`: a negative
      `n` counts from the end. */
  function SliceEnd(len: nat, n: int): (e: nat)
    ensures e <= len
    ensures n >= 0 ==> e == Min(n, len)
    ensures n < 0 ==> e + Min(-n, len) == len
  {
    if n >= 0 then Min(n, len) else Max(len + n, 0)
  }

  /** Every entry of `bow[0:n]` has a `'word'` field. */
  ghost predicate WordsPresent(bow: seq<Entry>, n: int)
  {
    forall i :: 0 <= i < SliceEnd(|bow|, n) ==> "word" in bow[i]
  }

  /** `ws` is the `'word'` fields of `bow[0:n]`, in order. */
  ghost predicate IsTopWords(bow: seq<Entry>, n: int, ws: seq<Field>)
  {
    && |ws| == SliceEnd(|bow|, n)
    && forall i :: 0 <= i < |ws| ==> "word" in bow[i] && ws[i] == bow[i]["word"]
  }

  /** `ws` is as many distinct words of the mapping `text` as the slice
      `[0:n]` keeps of a list of its entries. */
  ghost predicate IsTopKeys(text: map<string, Entry>, n: int, ws: seq<Field>)
  {
    && |ws| == SliceEnd(|text|, n)
    && (forall i :: 0 <= i < |ws| ==> ws[i].Text? && ws[i].s in text)
    && (forall i, j :: 0 <= i < j < |ws| ==> ws[i] != ws[j])
  }

  /** The loop of `top_n_words`: the `'word'` field of each entry of
      `bow[0:n]`, appended in order; an entry without one raises. */
  method TakeWords(bow: seq<Entry>, n: int) returns (r: Outcome<seq<Field>>)
    ensures r.KeyError? <==> !WordsPresent(bow, n)
    ensures r.Done? ==> IsTopWords(bow, n, r.value)
  {
    var traits := [];
    var slice := bow[0..SliceEnd(|bow|, n)];
    for i := 0 to |slice|
      invariant |traits| == i
      invariant forall j :: 0 <= j < i ==> "word" in bow[j] && traits[j] == bow[j]["word"]
    {
      var word := slice[i];
      if "word" !in word {
        return KeyError;
      }
      traits := traits + [word["word"]];
    }
    return Done(traits);
  }

  /** The tagged entries of `flatten_text(text, 'word')` carry their own
      words under `'word'`: the first ones are distinct words of `text`. */
  lemma TaggedWordsAreKeys(text: map<string, Entry>, bow: seq<Entry>, n: int, ws: seq<Field>)
    requires ListsTagged(bow, Tagged(text, "word"), "word")
    requires IsTopWords(bow, n, ws)
    ensures IsTopKeys(text, n, ws)
  {
  }

  /** Some entry of `text` has no `'tf-idf'` score, so sorting by it raises. */
  ghost predicate ScoreMissing(text: map<string, Entry>)
  {
    exists k :: k in text && "tf-idf" !in text[k]
  }

  /** `top_n_words(rec, n)`. With `'sorted_text'` it takes the `'word'`
      fields of its first `n` entries. Without it, the handler flattens
      `'text'` (tagging its entries in place, so the record afterwards is
      `after`) and sorts the result by `'tf-idf'`, answering `None` when a
      score is missing; the sorted list is then discarded, and the words
      are taken from the unsorted one. A record with neither key raises
      out of the handler. */
  method TopNWords(rec: Record, n: int) returns (r: Outcome<Option<seq<Field>>>, after: Record)
    ensures rec.sortedText.Some? ==> after == rec
    ensures rec.sortedText.Some? ==> (r.KeyError? <==> !WordsPresent(rec.sortedText.value, n))
    ensures rec.sortedText.Some? && r.Done? ==>
      r.value.Some? && IsTopWords(rec.sortedText.value, n, r.value.value)
    ensures rec.sortedText.None? && rec.text.None? ==> r.KeyError? && after == rec
    ensures rec.sortedText.None? && rec.text.Some? ==>
      && after == rec.(text := Some(Tagged(rec.text.value, "word")))
      && r.Done? && (r.value.None? <==> ScoreMissing(rec.text.value))
      && (r.value.Some? ==> IsTopKeys(rec.text.value, n, r.value.value))
  {
    after := rec;
    var bow;
    if rec.sortedText.Some? {
      bow := rec.sortedText.value;
    } else {
      if rec.text.None? {
        return KeyError, after;
      }
      var tagged;
      bow, tagged := FlattenText(rec.text.value, "word");
      after := rec.(text := Some(tagged));
      if exists i | 0 <= i < |bow| :: "tf-idf" !in bow[i] {
        return Done(None), after;
      }
      forall k | k in rec.text.value
        ensures "tf-idf" in rec.text.value[k]
      {
        var i :| 0 <= i < |bow| && bow[i]["word"] == Text(k);
      }
    }
    var traits := TakeWords(bow, n);
    if traits.KeyError? {
      return KeyError, after;
    }
    if rec.sortedText.None? {
      TaggedWordsAreKeys(rec.text.value, bow, n, traits.value);
    }
    return Done(Some(traits.value)), after;
  }

  /** `top_n_words` raises on this record. */
  ghost predicate Raises(rec: Record, n: int)
  {
    if rec.sortedText.Some? then !WordsPresent(rec.sortedText.value, n) else rec.text.None?
  }

  /** The record `t` is `rec` after `trim_sorted_text`: its `'words'` set to
      what `top_n_words` returned, its `'text'` tagged when it was
      flattened, and nothing else changed. */
  ghost predicate Trimmed(rec: Record, n: int, t: Record)
  {
    && t.sortedText == rec.sortedText
    && t.words.Some?
    && (rec.sortedText.Some? ==>
          t.text == rec.text && t.words.value.List?
          && IsTopWords(rec.sortedText.value, n, t.words.value.fields))
    && (rec.sortedText.None? ==>
          rec.text.Some? && t.text == Some(Tagged(rec.text.value, "word"))
          && (t.words.value.NoneValue? <==> ScoreMissing(rec.text.value))
          && (t.words.value.List? ==> IsTopKeys(rec.text.value, n, t.words.value.fields)))
  }

  /** `trim_sorted_text(recs, n)`: every record's `'words'` becomes its top
      `n` words. It raises as soon as one record does; `ok` says whether it
      finished. */
  method TrimSortedText(recs: map<int, Record>, n: int) returns (ok: bool, trimmed: map<int, Record>)
    ensures trimmed.Keys == recs.Keys
    ensures !ok <==> exists k :: k in recs && Raises(recs[k], n)
    ensures ok ==> forall k :: k in recs ==> Trimmed(recs[k], n, trimmed[k])
  {
    var keys := ListOfSet(recs.Keys);
    trimmed := recs;
    for i := 0 to |keys|
      invariant trimmed.Keys == recs.Keys
      invariant forall k :: k in recs && k !in keys[..i] ==> trimmed[k] == recs[k]
      invariant forall k :: k in recs && k in keys[..i] ==> !Raises(recs[k], n) && Trimmed(recs[k], n, trimmed[k])
    {
      var k := keys[i];
      assert k !in keys[..i];
      var r, after := TopNWords(trimmed[k], n);
      TrimStep(recs[k], n, r, after);
      if r.KeyError? {
        return false, trimmed;
      }
      var words := if r.value.None? then NoneValue else List(r.value.value);
      trimmed := trimmed[k := after.(words := Some(words))];
    }
    assert keys[..|keys|] == keys;
    ok := true;
  }

  /** What `top_n_words` promises for one record, read as raising or as
      the record's trimmed form. */
  lemma TrimStep(rec: Record, n: int, r: Outcome<Option<seq<Field>>>, after: Record)
    requires rec.sortedText.Some? ==> after == rec
    requires rec.sortedText.Some? ==> (r.KeyError? <==> !WordsPresent(rec.sortedText.value, n))
    requires rec.sortedText.Some? && r.Done? ==>
      r.value.Some? && IsTopWords(rec.sortedText.value, n, r.value.value)
    requires rec.sortedText.None? && rec.text.None? ==> r.KeyError? && after == rec
    requires rec.sortedText.None? && rec.text.Some? ==>
      && after == rec.(text := Some(Tagged(rec.text.value, "word")))
      && r.Done? && (r.value.None? <==> ScoreMissing(rec.text.value))
      && (r.value.Some? ==> IsTopKeys(rec.text.value, n, r.value.value))
    ensures r.KeyError? <==> Raises(rec, n)
    ensures r.Done? ==>
      Trimmed(rec, n, after.(words := Some(if r.value.None? then NoneValue else List(r.value.value))))
  {
  }

  /** After `trim_sorted_text` has finished, `shared_traits` never raises
      on two of its records, and it answers `True` exactly when both have a
      list of words with a word in common. */
  lemma SharedTraitsAfterTrim(recs: map<int, Record>, n: int, trimmed: map<int, Record>, p1: int, p2: int)
    requires trimmed.Keys == recs.Keys
    requires forall k :: k in recs ==> Trimmed(recs[k], n, trimmed[k])
    requires p1 in recs && p2 in recs
    ensures SharedTraits(p1, p2, trimmed).Done?
    ensures SharedTraits(p1, p2, trimmed).value <==>
      && trimmed[p1].words.value.List? && trimmed[p2].words.value.List?
      && Members(trimmed[p1].words.value.fields) * Members(trimmed[p2].words.value.fields) != {}
  {
    assert Trimmed(recs[p1], n, trimmed[p1]) && Trimmed(recs[p2], n, trimmed[p2]);
    var r := SharedTraits(p1, p2, trimmed);
    if trimmed[p1].words.value.List? && trimmed[p2].words.value.List? {
      var s := Members(trimmed[p1].words.value.fields) * Members(trimmed[p2].words.value.fields);
      if s != {} {
        var w :| w in s;
        assert w in trimmed[p1].words.value.fields && w in trimmed[p2].words.value.fields;
      }
    }
  }
}
