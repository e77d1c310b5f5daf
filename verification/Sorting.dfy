/**
 Byte-order sorting of named pairs.
 */
module Sorting {
  import opened Bytes

  datatype Pair = Pair(name: Text, value: Text)

  /** Go's string order: the first differing byte decides, a proper prefix comes first. */
  predicate Less(s: Text, t: Text) {
    t != [] && (s == [] || s[0] < t[0] || (s[0] == t[0] && Less(s[1..], t[1..])))
  }

  predicate Sorted(ps: seq<Pair>) {
    forall i, j :: 0 <= i < j < |ps| ==> !Less(ps[j].name, ps[i].name)
  }

  predicate DistinctNames(ps: seq<Pair>) {
    forall i, j :: 0 <= i < j < |ps| ==> ps[i].name != ps[j].name
  }

  /** No name carries two different values. */
  predicate OneValueEach(ps: seq<Pair>) {
    forall i, j :: 0 <= i < j < |ps| && ps[i].name == ps[j].name ==> ps[i] == ps[j]
  }

  lemma {:induction false} LessTotal(s: Text, t: Text)
    ensures Less(s, t) || Less(t, s) || s == t
    ensures !(Less(s, t) && Less(t, s)) && (s == t ==> !Less(s, t))
  {
    if s != [] && t != [] {
      LessTotal(s[1..], t[1..]);
      assert s == [s[0]] + s[1..] && t == [t[0]] + t[1..];
    }
  }

  /** The texts agree on their first `i` bytes, and there the first one ends or has the smaller byte. */
  predicate SmallerAt(s: Text, t: Text, i: nat) {
    && i <= |s| && i < |t| && s[..i] == t[..i]
    && (i == |s| || s[i] < t[i])
  }

  /** Byte order: the first difference decides, and a proper prefix is smaller. */
  lemma {:induction false} LessExactly(s: Text, t: Text)
    ensures Less(s, t) <==> exists i :: SmallerAt(s, t, i)
  {
    if t != [] && s == [] {
      assert SmallerAt(s, t, 0);
    } else if t != [] && s[0] < t[0] {
      assert SmallerAt(s, t, 0);
    } else if t != [] && s[0] == t[0] {
      LessExactly(s[1..], t[1..]);
      if i: nat :| SmallerAt(s[1..], t[1..], i) {
        assert s[..i + 1] == [s[0]] + s[1..][..i] && t[..i + 1] == [t[0]] + t[1..][..i];
        assert SmallerAt(s, t, i + 1);
      }
      if i: nat :| SmallerAt(s, t, i) {
        assert i > 0 && s[1..][..i - 1] == s[..i][1..] && t[1..][..i - 1] == t[..i][1..];
        assert SmallerAt(s[1..], t[1..], i - 1);
      }
    } else if t != [] {
      forall i: nat ensures !SmallerAt(s, t, i) {
        if i > 0 && i <= |s| && i <= |t| { assert s[..i][0] != t[..i][0]; }
      }
    }
  }

  lemma {:induction false} LessTransitive(s: Text, t: Text, u: Text)
    requires !Less(t, s) && !Less(u, t)
    ensures !Less(u, s)
  {
    if s != [] && t != [] && u != [] && s[0] == t[0] == u[0] {
      LessTransitive(s[1..], t[1..], u[1..]);
    }
  }

  function Insert(p: Pair, ps: seq<Pair>): (r: seq<Pair>)
    ensures multiset(r) == multiset(ps) + multiset{p}
  {
    if ps == [] then [p]
    else if Less(ps[0].name, p.name) then
      assert ps == [ps[0]] + ps[1..];
      [ps[0]] + Insert(p, ps[1..])
    else [p] + ps
  }

  function Sort(ps: seq<Pair>): (r: seq<Pair>)
    ensures multiset(r) == multiset(ps)
  {
    if ps == [] then [] else
      assert ps == [ps[0]] + ps[1..];
      Insert(ps[0], Sort(ps[1..]))
  }

  lemma MultisetMember(p: Pair, ps: seq<Pair>)
    ensures p in ps <==> p in multiset(ps)
  {
  }

  lemma ConsSorted(p: Pair, ps: seq<Pair>)
    requires Sorted(ps) && forall i :: 0 <= i < |ps| ==> !Less(ps[i].name, p.name)
    ensures Sorted([p] + ps)
  {
    var all := [p] + ps;
    forall i, j | 0 <= i < j < |all| ensures !Less(all[j].name, all[i].name) {
      assert all[j] == ps[j - 1];
      if i > 0 { assert all[i] == ps[i - 1]; }
    }
  }

  lemma {:induction false} InsertSorted(p: Pair, ps: seq<Pair>)
    requires Sorted(ps)
    ensures Sorted(Insert(p, ps))
  {
    if ps != [] && Less(ps[0].name, p.name) {
      InsertSorted(p, ps[1..]);
      var rest := Insert(p, ps[1..]);
      forall j | 0 <= j < |rest| ensures !Less(rest[j].name, ps[0].name) {
        MultisetMember(rest[j], rest);
        MultisetMember(rest[j], ps[1..]);
        LessTotal(ps[0].name, p.name);
      }
      ConsSorted(ps[0], rest);
    } else if ps != [] {
      forall j | 0 <= j < |ps| ensures !Less(ps[j].name, p.name) {
        if j > 0 { LessTransitive(p.name, ps[0].name, ps[j].name); }
      }
      ConsSorted(p, ps);
    }
  }

  lemma {:induction false} SortSorted(ps: seq<Pair>)
    ensures Sorted(Sort(ps))
  {
    if ps != [] {
      SortSorted(ps[1..]);
      InsertSorted(ps[0], Sort(ps[1..]));
    }
  }

  /** sort.Slice gives one sorted permutation for each slice; how it orders pairs with equal names is not promised. */
  ghost predicate Sorts(sort: seq<Pair> -> seq<Pair>) {
    forall ps :: Sorted(sort(ps)) && multiset(sort(ps)) == multiset(ps)
  }

  /** Insertion sort is one such function. */
  lemma SortSorts()
    ensures Sorts(Sort)
  {
    forall ps ensures Sorted(Sort(ps)) { SortSorted(ps); }
  }

  /** A sort by name. */
  method SortSlice(ps: seq<Pair>) returns (r: seq<Pair>)
    ensures Sorted(r) && multiset(r) == multiset(ps)
  {
    SortSorts();
    r := Sort(ps);
  }

  lemma PermutationLength(ps: seq<Pair>, qs: seq<Pair>)
    requires multiset(ps) == multiset(qs)
    ensures |ps| == |qs|
  {
    assert |multiset(ps)| == |multiset(qs)|;
  }

  lemma HeadOfSorted(ps: seq<Pair>, qs: seq<Pair>)
    requires multiset(ps) == multiset(qs) && Sorted(ps) && Sorted(qs) && OneValueEach(qs)
    requires ps != []
    ensures qs != [] && ps[0] == qs[0]
  {
    PermutationLength(ps, qs);
    MultisetMember(qs[0], ps);
    MultisetMember(ps[0], qs);
    var i :| 0 <= i < |ps| && ps[i] == qs[0];
    var j :| 0 <= j < |qs| && qs[j] == ps[0];
    LessTotal(ps[0].name, qs[0].name);
  }

  /** If no name carries two values, the sorted order of a collection of pairs is unique. */
  lemma {:induction false} SortedUnique(ps: seq<Pair>, qs: seq<Pair>)
    requires multiset(ps) == multiset(qs)
    requires Sorted(ps) && Sorted(qs) && OneValueEach(qs)
    ensures ps == qs
  {
    PermutationLength(ps, qs);
    if ps != [] {
      HeadOfSorted(ps, qs);
      assert ps == [ps[0]] + ps[1..] && qs == [qs[0]] + qs[1..];
      assert multiset(ps[1..]) == multiset(ps) - multiset{ps[0]};
      assert multiset(qs[1..]) == multiset(qs) - multiset{qs[0]};
      SortedUnique(ps[1..], qs[1..]);
    }
  }

  lemma {:induction false} OnceInMultiset(ps: seq<Pair>, p: Pair)
    requires DistinctNames(ps)
    ensures multiset(ps)[p] <= 1
  {
    if ps != [] {
      OnceInMultiset(ps[1..], p);
      assert ps == [ps[0]] + ps[1..];
      MultisetMember(p, ps[1..]);
    }
  }

  lemma DistinctNamesPermute(ps: seq<Pair>, qs: seq<Pair>)
    requires multiset(ps) == multiset(qs) && DistinctNames(ps)
    ensures DistinctNames(qs)
  {
    forall i, j | 0 <= i < j < |qs| ensures qs[i].name != qs[j].name {
      if qs[i].name == qs[j].name {
        MultisetMember(qs[i], qs); MultisetMember(qs[i], ps);
        MultisetMember(qs[j], qs); MultisetMember(qs[j], ps);
        assert qs[i] == qs[j];
        TwiceInMultiset(qs, i, j);
        OnceInMultiset(ps, qs[i]);
      }
    }
  }

  lemma TwiceInMultiset(qs: seq<Pair>, i: nat, j: nat)
    requires i < j < |qs| && qs[i] == qs[j]
    ensures multiset(qs)[qs[i]] >= 2
  {
    assert qs == qs[..i + 1] + qs[i + 1..];
    assert multiset(qs) == multiset(qs[..i + 1]) + multiset(qs[i + 1..]);
    assert qs[..i + 1][i] == qs[i] && qs[i + 1..][j - i - 1] == qs[i];
  }

  // ------------------------------------------------ when the order of a listing shows

  lemma OneValueEachPermute(ps: seq<Pair>, qs: seq<Pair>)
    requires multiset(ps) == multiset(qs) && OneValueEach(ps)
    ensures OneValueEach(qs)
  {
    forall i, j | 0 <= i < j < |qs| && qs[i].name == qs[j].name ensures qs[i] == qs[j] {
      MultisetMember(qs[i], qs); MultisetMember(qs[i], ps);
      MultisetMember(qs[j], qs); MultisetMember(qs[j], ps);
    }
  }

  lemma SwapPermutes(ps: seq<Pair>, i: nat, j: nat)
    requires i < j < |ps|
    ensures multiset(ps[i := ps[j]][j := ps[i]]) == multiset(ps)
  {
  }

  /** Another sorted order, if some name carries two values: swap two pairs with that name. */
  lemma OtherOrder(ps: seq<Pair>) returns (qs: seq<Pair>)
    requires Sorted(ps) && !OneValueEach(ps)
    ensures Sorted(qs) && multiset(qs) == multiset(ps) && qs != ps
  {
    var i, j :| 0 <= i < j < |ps| && ps[i].name == ps[j].name && ps[i] != ps[j];
    qs := ps[i := ps[j]][j := ps[i]];
    SwapPermutes(ps, i, j);
    assert forall k :: 0 <= k < |ps| ==> qs[k].name == ps[k].name;
  }

  /** A way to sort that brings two different listings with conflicting values into different orders. */
  lemma SortsApart(ps: seq<Pair>, qs: seq<Pair>) returns (sort: seq<Pair> -> seq<Pair>)
    requires multiset(ps) == multiset(qs) && ps != qs && !OneValueEach(ps)
    ensures Sorts(sort) && sort(ps) != sort(qs)
  {
    SortSorts();
    if OneValueEach(Sort(qs)) {
      OneValueEachPermute(Sort(qs), ps);
    }
    var other := OtherOrder(Sort(qs));
    sort := (x: seq<Pair>) => if x == ps then other else Sort(x);
    forall x ensures Sorted(sort(x)) && multiset(sort(x)) == multiset(x) {
      SortSorted(x);
    }
  }

  /**
   Two listings of the same pairs sort alike, whatever the sort does with equal names, exactly if
   they are equal or no name carries two values.
   */
  lemma SortedAlikeExactly(ps: seq<Pair>, qs: seq<Pair>)
    requires multiset(ps) == multiset(qs)
    ensures (forall sort :: Sorts(sort) ==> sort(ps) == sort(qs)) <==> ps == qs || OneValueEach(ps)
  {
    if OneValueEach(ps) {
      forall sort | Sorts(sort) ensures sort(ps) == sort(qs) {
        OneValueEachPermute(ps, sort(ps));
        SortedUnique(sort(qs), sort(ps));
      }
    } else if ps != qs {
      var sort := SortsApart(ps, qs);
    }
  }
}
