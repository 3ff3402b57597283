/** The function boundaries the IDA script declares: every known code pointer
    is collected, the list is sorted, and each pointer is paired with the next
    one as the start and end of a function. */
module MakeFunction {
  import opened Bits

  // ---------------------------------------------------------------------------
  // Collecting the pointers

  /** The module pointer tables laid end to end, as repeated `AddRange` builds them. */
  function Flatten(ms: seq<seq<u64>>): seq<u64> {
    if ms == [] then [] else Flatten(ms[..|ms| - 1]) + ms[|ms| - 1]
  }

  /** `Where(x => x > 0)`: the non-null pointers, in order. */
  function NonZero(xs: seq<u64>): (r: seq<u64>)
    ensures |r| <= |xs|
    ensures forall x :: x in r <==> x in xs && x != 0
    ensures forall x :: multiset(r)[x] == if x == 0 then 0 else multiset(xs)[x]
  {
    if xs == [] then []
    else
      assert xs == xs[..|xs| - 1] + [xs[|xs| - 1]];
      if xs[|xs| - 1] > 0 then NonZero(xs[..|xs| - 1]) + [xs[|xs| - 1]]
      else NonZero(xs[..|xs| - 1])
  }

  /** The filter keeps the order of the pointers it keeps: it distributes over
      concatenation. */
  lemma {:induction false} NonZeroConcat(a: seq<u64>, b: seq<u64>)
    ensures NonZero(a + b) == NonZero(a) + NonZero(b)
  {
    if b == [] {
      assert a + b == a;
    } else {
      var init := b[..|b| - 1];
      assert (a + b)[..|a + b| - 1] == a + init;
      assert (a + b)[|a + b| - 1] == b[|b| - 1];
      NonZeroConcat(a, init);
      if b[|b| - 1] > 0 {
        assert NonZero(a) + NonZero(init) + [b[|b| - 1]] == NonZero(a) + (NonZero(init) + [b[|b| - 1]]);
      }
    }
  }

  /** One pointer is kept exactly when it is not null. */
  lemma NonZeroSingle(x: u64)
    ensures NonZero([x]) == if x > 0 then [x] else []
  {
  }

  /** The method pointers: per code-gen module from metadata version 24.2 on
      (versions are in tenths), otherwise the single global table. */
  function MethodPointers(version: int, modules: seq<seq<u64>>, global: seq<u64>): seq<u64> {
    if version >= 242 then Flatten(modules) else global
  }

  /** The unsorted list: method pointers, non-null generic method pointers,
      invokers, attribute generators. */
  function Collected(version: int, modules: seq<seq<u64>>, global: seq<u64>,
                     generics: seq<u64>, invokers: seq<u64>, generators: seq<u64>): seq<u64> {
    MethodPointers(version, modules, global) + NonZero(generics) + invokers + generators
  }

  /** A pointer is in the flattened tables exactly when some module holds it. */
  lemma {:induction false} FlattenMember(ms: seq<seq<u64>>, x: u64)
    ensures x in Flatten(ms) <==> exists i :: 0 <= i < |ms| && x in ms[i]
  {
    if ms != [] {
      var init := ms[..|ms| - 1];
      FlattenMember(init, x);
      assert forall i :: 0 <= i < |init| ==> init[i] == ms[i];
      if x in ms[|ms| - 1] {
        assert x in Flatten(ms);
      }
    }
  }

  /** Which pointers the list holds. */
  lemma CollectedMember(version: int, modules: seq<seq<u64>>, global: seq<u64>,
                        generics: seq<u64>, invokers: seq<u64>, generators: seq<u64>, x: u64)
    ensures x in Collected(version, modules, global, generics, invokers, generators) <==>
      (if version >= 242 then exists i :: 0 <= i < |modules| && x in modules[i] else x in global)
      || (x in generics && x != 0) || x in invokers || x in generators
  {
    FlattenMember(modules, x);
  }

  /** The list as the generator builds it, one `AddRange` at a time. */
  method CollectPointers(version: int, modules: seq<seq<u64>>, global: seq<u64>,
                         generics: seq<u64>, invokers: seq<u64>, generators: seq<u64>)
    returns (ordered: seq<u64>)
    ensures ordered == Collected(version, modules, global, generics, invokers, generators)
  {
    if version >= 242 {
      ordered := [];
      for m := 0 to |modules|
        invariant ordered == Flatten(modules[..m])
      {
        assert modules[..m + 1][..m] == modules[..m];
        ordered := ordered + modules[m];
      }
      assert modules[..|modules|] == modules;
    } else {
      ordered := global;
    }
    ordered := ordered + NonZero(generics);
    ordered := ordered + invokers;
    ordered := ordered + generators;
  }

  // ---------------------------------------------------------------------------
  // Sorting

  predicate Sorted(s: seq<u64>) {
    forall i, j :: 0 <= i < j < |s| ==> s[i] <= s[j]
  }

  function Insert(x: u64, s: seq<u64>): (r: seq<u64>)
    ensures |r| == |s| + 1
    ensures multiset(r) == multiset(s) + multiset{x}
  {
    if s == [] || x <= s[0] then
      [x] + s
    else
      assert s == [s[0]] + s[1..];
      [s[0]] + Insert(x, s[1..])
  }

  /** `OrderBy(x => x)`: the pointers in non-decreasing order. */
  function Sort(s: seq<u64>): (r: seq<u64>)
    ensures |r| == |s|
  {
    if s == [] then [] else Insert(s[0], Sort(s[1..]))
  }

  /** A sorted list stays sorted under a new least element. */
  lemma SortedCons(a: u64, r: seq<u64>)
    requires Sorted(r)
    requires forall k :: 0 <= k < |r| ==> a <= r[k]
    ensures Sorted([a] + r)
  {
    var s := [a] + r;
    forall i, j | 0 <= i < j < |s|
      ensures s[i] <= s[j]
    {
      assert s[j] == r[j - 1];
      if i > 0 {
        assert s[i] == r[i - 1];
      }
    }
  }

  lemma {:induction false} InsertSorted(x: u64, s: seq<u64>)
    requires Sorted(s)
    ensures Sorted(Insert(x, s))
  {
    if s == [] || x <= s[0] {
      SortedCons(x, s);
    } else {
      var t := s[1..];
      InsertSorted(x, t);
      var r := Insert(x, t);
      forall k | 0 <= k < |r|
        ensures s[0] <= r[k]
      {
        assert r[k] in multiset(r);
        if r[k] != x {
          assert r[k] in multiset(t);
          var m :| 0 <= m < |t| && t[m] == r[k];
          assert t[m] == s[m + 1];
        }
      }
      SortedCons(s[0], r);
    }
  }

  /** The sorted list is in order and holds the same pointers, as often. */
  lemma SortFacts(s: seq<u64>)
    ensures Sorted(Sort(s))
    ensures multiset(Sort(s)) == multiset(s)
  {
    SortSorted(s);
    SortPermutes(s);
  }

  lemma {:induction false} SortSorted(s: seq<u64>)
    ensures Sorted(Sort(s))
  {
    if s != [] {
      SortSorted(s[1..]);
      InsertSorted(s[0], Sort(s[1..]));
    }
  }

  lemma {:induction false} SortPermutes(s: seq<u64>)
    ensures multiset(Sort(s)) == multiset(s)
  {
    if s != [] {
      var x, t := s[0], s[1..];
      SortPermutes(t);
      assert multiset(Sort(s)) == multiset(t) + multiset{x};
      assert multiset(s) == multiset{x} + multiset(t) by {
        assert s == [x] + t;
      }
    }
  }

  /** The first element of a sorted list is its least. */
  lemma SortedHead(a: seq<u64>, j: nat)
    requires Sorted(a) && j < |a|
    ensures a[0] <= a[j]
  {
  }

  /** A non-empty list is its head followed by its tail. */
  lemma HeadTail(a: seq<u64>)
    requires a != []
    ensures a == [a[0]] + a[1..]
    ensures multiset(a) == multiset{a[0]} + multiset(a[1..])
    ensures Sorted(a) ==> Sorted(a[1..])
  {
  }

  /** There is only one sorted arrangement of a multiset, so any stable or
      unstable sort gives the same list. */
  lemma {:induction false} SortedUnique(a: seq<u64>, b: seq<u64>)
    requires Sorted(a) && Sorted(b) && multiset(a) == multiset(b)
    ensures a == b
    decreases |a|
  {
    if a != [] {
      assert |b| == |a| by {
        assert |multiset(a)| == |a| && |multiset(b)| == |b|;
      }
      var x, y := a[0], b[0];
      assert x == y by {
        assert x in multiset(b);
        var i :| 0 <= i < |b| && b[i] == x;
        SortedHead(b, i);
        assert y in multiset(a);
        var j :| 0 <= j < |a| && a[j] == y;
        SortedHead(a, j);
      }
      HeadTail(a);
      HeadTail(b);
      var a', b' := a[1..], b[1..];
      assert multiset(a') == multiset(b') by {
        assert multiset(a') == multiset(a) - multiset{x};
        assert multiset(b') == multiset(b) - multiset{x};
      }
      SortedUnique(a', b');
    }
  }

  // ---------------------------------------------------------------------------
  // Emitting the pairs

  /** The loop writing one `MakeFunction(start, end)` line for each neighbouring pair. */
  method Ranges(ps: seq<u64>) returns (ranges: seq<(u64, u64)>)
    ensures |ranges| == if |ps| <= 1 then 0 else |ps| - 1
    ensures forall i :: 0 <= i < |ranges| ==> ranges[i] == (ps[i], ps[i + 1])
    ensures Sorted(ps) ==> forall i :: 0 <= i < |ranges| ==> ranges[i].0 <= ranges[i].1
    ensures forall i :: 0 <= i < |ranges| - 1 ==> ranges[i].1 == ranges[i + 1].0
  {
    ranges := [];
    var i := 0;
    while i < |ps| - 1
      invariant 0 <= i <= if |ps| == 0 then 0 else |ps| - 1
      invariant |ranges| == i
      invariant forall k :: 0 <= k < i ==> ranges[k] == (ps[k], ps[k + 1])
    {
      ranges := ranges + [(ps[i], ps[i + 1])];
      i := i + 1;
    }
    if Sorted(ps) {
      forall i | 0 <= i < |ranges|
        ensures ranges[i].0 <= ranges[i].1
      {
        assert ps[i] <= ps[i + 1];
      }
    }
    forall i | 0 <= i < |ranges| - 1
      ensures ranges[i].1 == ranges[i + 1].0
    {
      assert ranges[i] == (ps[i], ps[i + 1]);
      assert ranges[i + 1] == (ps[i + 1], ps[i + 2]);
    }
  }

  /** The whole MakeFunction section: collect, sort, pair. Every range runs
      upwards between two collected pointers, and the ranges tile the sorted list. */
  method FunctionRanges(version: int, modules: seq<seq<u64>>, global: seq<u64>,
                        generics: seq<u64>, invokers: seq<u64>, generators: seq<u64>)
    returns (ranges: seq<(u64, u64)>)
    ensures var all := Collected(version, modules, global, generics, invokers, generators);
      var ps := Sort(all);
      && |ranges| == (if |all| <= 1 then 0 else |all| - 1)
      && (forall i :: 0 <= i < |ranges| ==> ranges[i] == (ps[i], ps[i + 1]))
      && (forall i :: 0 <= i < |ranges| ==> ranges[i].0 <= ranges[i].1)
      && (forall i :: 0 <= i < |ranges| ==> ranges[i].0 in all && ranges[i].1 in all)
  {
    var ordered := CollectPointers(version, modules, global, generics, invokers, generators);
    SortFacts(ordered);
    var sorted := Sort(ordered);
    assert |sorted| == |ordered| by {
      assert |multiset(sorted)| == |sorted| && |multiset(ordered)| == |ordered|;
    }
    ranges := Ranges(sorted);
    forall i | 0 <= i < |ranges|
      ensures ranges[i].0 in ordered && ranges[i].1 in ordered
    {
      assert sorted[i] in multiset(sorted) && sorted[i + 1] in multiset(sorted);
    }
  }
}
