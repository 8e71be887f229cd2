/** Sequence helpers: element-wise maps, filters, concatenation, and the insertion-ordered
    sets that JavaScript's `Set` and a Python list with an `in` check give. */
module Seqs {

  function Map<A, B>(f: A -> B, s: seq<A>): (r: seq<B>)
    ensures |r| == |s| && forall i :: 0 <= i < |s| ==> r[i] == f(s[i])
  {
    if s == [] then [] else [f(s[0])] + Map(f, s[1..])
  }

  lemma MapAppend<A, B>(f: A -> B, s: seq<A>, x: A)
    ensures Map(f, s + [x]) == Map(f, s) + [f(x)]
  {
    var l := Map(f, s + [x]);
    var r := Map(f, s) + [f(x)];
    assert |l| == |r|;
    forall i | 0 <= i < |l| ensures l[i] == r[i] {
      if i < |s| { assert (s + [x])[i] == s[i]; } else { assert (s + [x])[i] == x; }
    }
  }

  function Filter<T(!new)>(p: T -> bool, s: seq<T>): (r: seq<T>)
    ensures |r| <= |s|
    ensures forall x :: x in r <==> x in s && p(x)
  {
    if s == [] then [] else (if p(s[0]) then [s[0]] else []) + Filter(p, s[1..])
  }

  lemma {:induction false} FilterAppend<T(!new)>(p: T -> bool, s: seq<T>, x: T)
    ensures Filter(p, s + [x]) == Filter(p, s) + (if p(x) then [x] else [])
  {
    if s == [] {
      assert [] + [x] == [x];
    } else {
      assert (s + [x])[1..] == s[1..] + [x];
      FilterAppend(p, s[1..], x);
    }
  }

  function Flatten<T>(ss: seq<seq<T>>): seq<T> {
    if ss == [] then [] else ss[0] + Flatten(ss[1..])
  }

  lemma {:induction false} FlattenAppend<T>(ss: seq<seq<T>>, s: seq<T>)
    ensures Flatten(ss + [s]) == Flatten(ss) + s
  {
    if ss == [] {
      assert [] + [s] == [s];
    } else {
      assert (ss + [s])[1..] == ss[1..] + [s];
      FlattenAppend(ss[1..], s);
    }
  }

  ghost predicate Distinct<T>(s: seq<T>) {
    forall i, j :: 0 <= i < j < |s| ==> s[i] != s[j]
  }

  /** Adding the items one by one to an insertion-ordered set `acc`. */
  function AddAll<T(==,!new)>(acc: seq<T>, items: seq<T>): (r: seq<T>)
    ensures Distinct(acc) ==> Distinct(r)
    ensures forall x :: x in r <==> x in acc || x in items
    ensures |r| >= |acc| && r[..|acc|] == acc
    decreases |items|
  {
    if items == [] then acc
    else AddAll(if items[0] in acc then acc else acc + [items[0]], items[1..])
  }

  /** The first occurrences of the elements of `s`, in order: `[...new Set(s)]`. */
  function Dedup<T(==,!new)>(s: seq<T>): (r: seq<T>)
    ensures Distinct(r) && forall x :: x in r <==> x in s
    ensures |r| <= |s|
  {
    DedupShorter(s);
    AddAll([], s)
  }

  lemma DedupShorter<T(!new)>(s: seq<T>)
    ensures |AddAll([], s)| <= |s|
  {
    AddAllLength([], s);
  }

  lemma {:induction false} AddAllLength<T(!new)>(acc: seq<T>, items: seq<T>)
    ensures |AddAll(acc, items)| <= |acc| + |items|
    decreases |items|
  {
    if items != [] {
      AddAllLength(if items[0] in acc then acc else acc + [items[0]], items[1..]);
    }
  }

  /** One more item added to a deduplicated sequence. */
  lemma {:induction false} AddAllSnoc<T(!new)>(acc: seq<T>, items: seq<T>, x: T)
    ensures AddAll(acc, items + [x]) ==
      (var d := AddAll(acc, items); if x in d then d else d + [x])
    decreases |items|
  {
    if items == [] {
      assert [] + [x] == [x];
    } else {
      assert (items + [x])[1..] == items[1..] + [x];
      AddAllSnoc(if items[0] in acc then acc else acc + [items[0]], items[1..], x);
    }
  }

  lemma DedupSnoc<T(!new)>(s: seq<T>, x: T)
    ensures Dedup(s + [x]) == if x in Dedup(s) then Dedup(s) else Dedup(s) + [x]
  {
    AddAllSnoc([], s, x);
  }

  lemma AddAllPrefix<T(!new)>(acc: seq<T>, items: seq<T>, k: nat)
    requires k < |items|
    ensures AddAll(acc, items[..k + 1]) ==
      (var d := AddAll(acc, items[..k]); if items[k] in d then d else d + [items[k]])
  {
    assert items[..k + 1] == items[..k] + [items[k]];
    AddAllSnoc(acc, items[..k], items[k]);
  }

  /** Adding one item. */
  lemma AddAllOne<T(!new)>(acc: seq<T>, x: T)
    ensures AddAll(acc, [x]) == if x in acc then acc else acc + [x]
  {
    assert [x][1..] == [];
  }

  lemma AddAllCons<T(!new)>(acc: seq<T>, x: T, items: seq<T>)
    ensures AddAll(acc, [x] + items) == AddAll(if x in acc then acc else acc + [x], items)
  {
    assert ([x] + items)[1..] == items;
  }

  /** `set.add(x)` for each item in turn, on an insertion-ordered set. */
  method AddEach<T(==,!new)>(acc: seq<T>, items: seq<T>) returns (r: seq<T>)
    ensures r == AddAll(acc, items)
  {
    r := acc;
    for k := 0 to |items|
      invariant r == AddAll(acc, items[..k])
    {
      AddAllPrefix(acc, items, k);
      if items[k] !in r {
        r := r + [items[k]];
      }
    }
    assert items[..|items|] == items;
  }

  /** Adding two batches one after the other is adding them together. */
  lemma {:induction false} AddAllConcat<T(!new)>(acc: seq<T>, a: seq<T>, b: seq<T>)
    ensures AddAll(acc, a + b) == AddAll(AddAll(acc, a), b)
    decreases |a|
  {
    if a == [] {
      assert a + b == b;
    } else {
      assert (a + b)[0] == a[0] && (a + b)[1..] == a[1..] + b;
      AddAllConcat(if a[0] in acc then acc else acc + [a[0]], a[1..], b);
    }
  }

  /** The lists `f(x)` of the elements `x` of `xs`, one after the other. */
  function ConcatMap<A, B>(f: A -> seq<B>, xs: seq<A>): seq<B>
    decreases |xs|
  {
    if xs == [] then [] else ConcatMap(f, xs[..|xs| - 1]) + f(xs[|xs| - 1])
  }

  lemma ConcatMapSnoc<A, B>(f: A -> seq<B>, xs: seq<A>, x: A)
    ensures ConcatMap(f, xs + [x]) == ConcatMap(f, xs) + f(x)
  {
    assert (xs + [x])[..|xs|] == xs;
  }

  lemma {:induction false} ConcatMapMeans<A, B>(f: A -> seq<B>, xs: seq<A>, y: B)
    ensures y in ConcatMap(f, xs) <==> exists k :: 0 <= k < |xs| && y in f(xs[k])
    decreases |xs|
  {
    if xs != [] {
      var init := xs[..|xs| - 1];
      ConcatMapMeans(f, init, y);
      if exists k :: 0 <= k < |init| && y in f(init[k]) {
        var k :| 0 <= k < |init| && y in f(init[k]);
        assert xs[k] == init[k];
      }
      if exists k :: 0 <= k < |xs| && y in f(xs[k]) {
        var k :| 0 <= k < |xs| && y in f(xs[k]);
        if k < |init| { assert init[k] == xs[k]; }
      }
    }
  }

  /** One more list of a `ConcatMap` added to an insertion-ordered set. */
  lemma AddConcatMapStep<A, B(!new)>(f: A -> seq<B>, xs: seq<A>, i: nat, before: seq<B>, after: seq<B>)
    requires i < |xs| && before == AddAll([], ConcatMap(f, xs[..i]))
    requires after == AddAll(before, f(xs[i]))
    ensures after == AddAll([], ConcatMap(f, xs[..i + 1]))
  {
    assert xs[..i + 1] == xs[..i] + [xs[i]];
    ConcatMapSnoc(f, xs[..i], xs[i]);
    AddAllConcat([], ConcatMap(f, xs[..i]), f(xs[i]));
  }
}
