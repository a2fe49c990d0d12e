/** Generic sequence operations used by the source's `filter`, `find` and `includes`. */
module Seqs {
  import opened Wrappers

  /** `Array.prototype.filter`: the elements satisfying `p`, in order. */
  function Filter<T>(s: seq<T>, p: T -> bool): (r: seq<T>)
    ensures |r| <= |s|
    ensures forall i :: 0 <= i < |r| ==> r[i] in s && p(r[i])
    ensures forall i :: 0 <= i < |s| && p(s[i]) ==> s[i] in r
    ensures multiset(r) <= multiset(s)
  {
    if s == [] then []
    else
      assert s == [s[0]] + s[1..];
      (if p(s[0]) then [s[0]] else []) + Filter(s[1..], p)
  }

  lemma {:induction false} FilterAppend<T>(a: seq<T>, b: seq<T>, p: T -> bool)
    ensures Filter(a + b, p) == Filter(a, p) + Filter(b, p)
  {
    if a != [] {
      assert (a + b)[0] == a[0];
      assert (a + b)[1..] == a[1..] + b;
      FilterAppend(a[1..], b, p);
    } else {
      assert a + b == b;
    }
  }

  /** Applying two filters in a row keeps exactly what satisfies both. */
  lemma {:induction false} FilterFilter<T>(s: seq<T>, p: T -> bool, q: T -> bool)
    ensures Filter(Filter(s, p), q) == Filter(s, x => p(x) && q(x))
  {
    var pq := x => p(x) && q(x);
    if s != [] {
      FilterFilter(s[1..], p, q);
      var rest := Filter(s[1..], p);
      assert Filter(s, pq) == (if pq(s[0]) then [s[0]] else []) + Filter(s[1..], pq);
      if p(s[0]) {
        var f := [s[0]] + rest;
        assert Filter(s, p) == f;
        assert f[0] == s[0] && f[1..] == rest;
        assert Filter(f, q) == (if q(s[0]) then [s[0]] else []) + Filter(rest, q);
      } else {
        assert Filter(s, p) == rest;
      }
    }
  }

  /** Filtering with a predicate that holds of every element changes nothing. */
  lemma {:induction false} FilterAll<T>(s: seq<T>, p: T -> bool)
    requires forall i :: 0 <= i < |s| ==> p(s[i])
    ensures Filter(s, p) == s
  {
    if s != [] { FilterAll(s[1..], p); }
  }

  /** Strictly increasing positions. */
  ghost predicate Increasing(idx: seq<nat>) {
    forall k, l :: 0 <= k < l < |idx| ==> idx[k] < idx[l]
  }

  /**
   * `r` lists the elements of `s` at the positions `idx`, which are, in
   * increasing order, exactly the positions whose element satisfies `p`.
   */
  ghost predicate PicksAt<T>(r: seq<T>, s: seq<T>, p: T -> bool, idx: seq<nat>) {
    && |idx| == |r|
    && (forall k :: 0 <= k < |idx| ==> idx[k] < |s| && r[k] == s[idx[k]])
    && Increasing(idx)
    && (forall i :: 0 <= i < |s| ==> (p(s[i]) <==> i in idx))
  }

  /** `r` is what `s.filter(p)` promises: the elements satisfying `p`, in their order, each occurrence kept. */
  ghost predicate Picked<T>(r: seq<T>, s: seq<T>, p: T -> bool) {
    exists idx :: PicksAt(r, s, p, idx)
  }

  /** `Filter` keeps exactly the positions that satisfy `p`, in increasing order. */
  lemma {:induction false} FilterPicks<T>(s: seq<T>, p: T -> bool) returns (idx: seq<nat>)
    ensures PicksAt(Filter(s, p), s, p, idx)
  {
    if s == [] {
      idx := [];
    } else {
      var rest := FilterPicks(s[1..], p);
      FilterCons(s, p);
      idx := PicksCons(s, p, Filter(s[1..], p), rest);
    }
  }

  /** What is picked from the tail, with the head in front when it satisfies `p`, is picked from the whole. */
  lemma PicksCons<T>(s: seq<T>, p: T -> bool, rt: seq<T>, rest: seq<nat>) returns (idx: seq<nat>)
    requires s != [] && PicksAt(rt, s[1..], p, rest)
    ensures PicksAt((if p(s[0]) then [s[0]] else []) + rt, s, p, idx)
  {
    if p(s[0]) {
      idx := PicksKeep(s, p, rt, rest);
    } else {
      idx := PicksSkip(s, p, rt, rest);
      assert [] + rt == rt;
    }
  }

  lemma PicksKeep<T>(s: seq<T>, p: T -> bool, rt: seq<T>, rest: seq<nat>) returns (idx: seq<nat>)
    requires s != [] && p(s[0]) && PicksAt(rt, s[1..], p, rest)
    ensures PicksAt([s[0]] + rt, s, p, idx)
  {
    idx := [0] + Shift(rest);
    KeepPositions(s, rt, rest);
    ShiftIncreasing(rest);
    KeepMembers(s, p, rest);
  }

  /** With the head in front, the head's position leads the tail's positions shifted by one. */
  lemma KeepPositions<T>(s: seq<T>, rt: seq<T>, rest: seq<nat>)
    requires s != [] && |rest| == |rt|
    requires forall k :: 0 <= k < |rest| ==> rest[k] < |s[1..]| && rt[k] == s[1..][rest[k]]
    ensures forall k :: 0 <= k < |[0] + Shift(rest)| ==>
      ([0] + Shift(rest))[k] < |s| && ([s[0]] + rt)[k] == s[([0] + Shift(rest))[k]]
  {
    var r, idx := [s[0]] + rt, [0] + Shift(rest);
    forall k | 0 < k < |idx|
      ensures idx[k] < |s| && r[k] == s[idx[k]]
    {
      assert idx[k] == rest[k - 1] + 1 && r[k] == rt[k - 1];
    }
  }

  /** The positions satisfying `p`, when the head does: 0 and the tail's positions shifted by one. */
  lemma KeepMembers<T>(s: seq<T>, p: T -> bool, rest: seq<nat>)
    requires s != [] && p(s[0])
    requires forall i :: 0 <= i < |s[1..]| ==> (p(s[1..][i]) <==> i in rest)
    ensures forall i :: 0 <= i < |s| ==> (p(s[i]) <==> i in [0] + Shift(rest))
  {
    var tail, idx := s[1..], [0] + Shift(rest);
    forall i | 0 < i < |s|
      ensures p(s[i]) <==> i in idx
    {
      assert s[i] == tail[i - 1];
      ShiftIn(rest, i - 1);
    }
  }

  lemma PicksSkip<T>(s: seq<T>, p: T -> bool, rt: seq<T>, rest: seq<nat>) returns (idx: seq<nat>)
    requires s != [] && !p(s[0]) && PicksAt(rt, s[1..], p, rest)
    ensures PicksAt(rt, s, p, idx)
  {
    var tail := s[1..];
    idx := Shift(rest);
    forall k | 0 <= k < |idx|
      ensures idx[k] < |s| && rt[k] == s[idx[k]]
    {
      assert idx[k] == rest[k] + 1;
    }
    forall i | 0 < i < |s|
      ensures p(s[i]) <==> i in idx
    {
      assert s[i] == tail[i - 1];
      ShiftIn(rest, i - 1);
    }
  }

  /** Every position one further on. */
  function Shift(idx: seq<nat>): (r: seq<nat>)
    ensures |r| == |idx|
    ensures forall k :: 0 <= k < |idx| ==> r[k] == idx[k] + 1
    ensures 0 !in r
  {
    seq(|idx|, k requires 0 <= k < |idx| => idx[k] + 1)
  }

  /** Shifted increasing positions, after position 0, are increasing. */
  lemma ShiftIncreasing(idx: seq<nat>)
    requires Increasing(idx)
    ensures Increasing(Shift(idx)) && Increasing([0] + Shift(idx))
  {
    var r := [0] + Shift(idx);
    forall k, l | 0 <= k < l < |r| ensures r[k] < r[l] {
      if k > 0 {
        assert idx[k - 1] < idx[l - 1];
      }
    }
  }

  lemma ShiftIn(idx: seq<nat>, i: nat)
    ensures i in idx <==> i + 1 in Shift(idx)
  {
    var r := Shift(idx);
    if i + 1 in r {
      var k :| 0 <= k < |r| && r[k] == i + 1;
      assert idx[k] == i;
    }
    if i in idx {
      var k :| 0 <= k < |idx| && idx[k] == i;
      assert r[k] == i + 1;
    }
  }

  /** A non-empty sequence is its front followed by its last element. */
  lemma InitLast<T>(s: seq<T>)
    requires s != []
    ensures s == s[..|s| - 1] + [s[|s| - 1]]
  {
  }

  /** One step of `Filter`. */
  lemma FilterCons<T>(s: seq<T>, p: T -> bool)
    requires s != []
    ensures Filter(s, p) == (if p(s[0]) then [s[0]] else []) + Filter(s[1..], p)
  {
  }

  /** Replacing the element just appended. */
  lemma UpdateLast<T>(s: seq<T>, x: T, y: T)
    ensures (s + [x])[|s| := y] == s + [y]
  {
  }

  /** `[x].filter(p)`. */
  lemma FilterSingle<T>(x: T, p: T -> bool)
    ensures Filter([x], p) == if p(x) then [x] else []
  {
    FilterCons([x], p);
    assert [x][1..] == [];
  }

  /** Filtering a sequence with one more element at the end. */
  lemma FilterSnoc<T>(s: seq<T>, x: T, p: T -> bool)
    ensures Filter(s + [x], p) == Filter(s, p) + (if p(x) then [x] else [])
  {
    FilterAppend(s, [x], p);
    FilterSingle(x, p);
  }

  /** The elements satisfying `p` are kept in order: `Filter` meets `Picked`. */
  lemma FilterPicked<T>(s: seq<T>, p: T -> bool)
    ensures Picked(Filter(s, p), s, p)
  {
    var idx := FilterPicks(s, p);
  }

  /** The positions listed, as a set. */
  function Positions(idx: seq<nat>): set<nat> {
    set i | i in idx
  }

  /** Increasing positions are distinct, so there are as many as listed. */
  lemma {:induction false} IncreasingCard(idx: seq<nat>)
    requires Increasing(idx)
    ensures |Positions(idx)| == |idx|
  {
    if idx != [] {
      var init := idx[..|idx| - 1];
      var last := idx[|idx| - 1];
      assert Increasing(init) by {
        forall k, l | 0 <= k < l < |init| ensures init[k] < init[l] {
          assert init[k] == idx[k] && init[l] == idx[l];
        }
      }
      IncreasingCard(init);
      assert last !in init by {
        forall k | 0 <= k < |init| ensures init[k] != last {
          assert init[k] == idx[k];
        }
      }
      assert Positions(idx) == Positions(init) + {last} by {
        assert idx == init + [last];
      }
    }
  }

  /** `s.filter(p).length` is the number of positions whose element satisfies `p`. */
  lemma FilterCard<T>(s: seq<T>, p: T -> bool)
    ensures |Filter(s, p)| == |Satisfying(s, p)|
  {
    var idx := FilterPicks(s, p);
    IncreasingCard(idx);
    assert Satisfying(s, p) == Positions(idx);
  }

  /** The positions of `s` whose element satisfies `p`. */
  function Satisfying<T>(s: seq<T>, p: T -> bool): set<nat> {
    set i: nat | i < |s| && p(s[i])
  }

  /** `i` is the first index of `s` whose element satisfies `p`. */
  ghost predicate IsFirst<T>(s: seq<T>, p: T -> bool, i: int) {
    0 <= i < |s| && p(s[i]) && forall k :: 0 <= k < i ==> !p(s[k])
  }

  /** `Array.prototype.findIndex`, with `None` for -1. */
  function FindIndex<T>(s: seq<T>, p: T -> bool): (r: Option<nat>)
    ensures r.Some? ==> IsFirst(s, p, r.value)
    ensures r.None? <==> forall k :: 0 <= k < |s| ==> !p(s[k])
  {
    if s == [] then None
    else if p(s[0]) then Some(0)
    else match FindIndex(s[1..], p)
         case None => None
         case Some(i) => Some(i + 1)
  }

  /** `Array.prototype.find`, with `None` for `undefined`. */
  function Find<T>(s: seq<T>, p: T -> bool): (r: Option<T>)
    ensures r.None? <==> forall k :: 0 <= k < |s| ==> !p(s[k])
    ensures r.Some? ==> exists i :: IsFirst(s, p, i) && r.value == s[i]
  {
    match FindIndex(s, p)
    case None => None
    case Some(i) => Some(s[i])
  }

  /** `Array.prototype.indexOf`: the first position of `k` in `ks`, with `None` for -1. */
  function IndexOf<K(==)>(ks: seq<K>, k: K): (r: Option<nat>)
    ensures r.Some? ==> r.value < |ks| && ks[r.value] == k && forall j :: 0 <= j < r.value ==> ks[j] != k
    ensures r.None? <==> k !in ks
  {
    if ks == [] then None
    else if ks[0] == k then Some(0)
    else match IndexOf(ks[1..], k)
         case None => None
         case Some(i) => Some(i + 1)
  }

  /** The first-position property determines `IndexOf`. */
  lemma IndexOfIs<K>(ks: seq<K>, k: K, i: nat)
    requires i < |ks| && ks[i] == k && forall j :: 0 <= j < i ==> ks[j] != k
    ensures IndexOf(ks, k) == Some(i)
  {
    assert ks[i] in ks;
  }

  /** No element occurs twice. */
  ghost predicate NoDup<T>(s: seq<T>) {
    forall i, j :: 0 <= i < j < |s| ==> s[i] != s[j]
  }

  /** How many times `x` occurs in `s`. */
  function Occ<T(==)>(s: seq<T>, x: T): (n: nat)
    ensures n <= |s|
    ensures n == 0 <==> x !in s
  {
    if s == [] then 0 else (if s[0] == x then 1 else 0) + Occ(s[1..], x)
  }

  /** Without duplicates, an element occurs once or not at all. */
  lemma {:induction false} OccNoDup<T>(s: seq<T>, x: T)
    requires NoDup(s)
    ensures Occ(s, x) == if x in s then 1 else 0
  {
    if s != [] {
      assert NoDup(s[1..]) by {
        forall i, j | 0 <= i < j < |s| - 1 ensures s[1..][i] != s[1..][j] {
          assert s[1..][i] == s[i + 1] && s[1..][j] == s[j + 1];
        }
      }
      OccNoDup(s[1..], x);
      if s[0] == x {
        forall i | 0 <= i < |s| - 1 ensures s[1..][i] != x {
          assert s[1..][i] == s[i + 1];
        }
      }
    }
  }

  /** `set.add(x)` on a `Set` or `Map` key list kept in insertion order. */
  function AddNew<T(==, !new)>(s: seq<T>, x: T): (r: seq<T>)
    ensures forall y :: y in r <==> y in s || y == x
    ensures NoDup(s) ==> NoDup(r)
  {
    if x in s then s else s + [x]
  }

  /** Adding each of `xs` in order: the new elements of `xs` in order of first occurrence. */
  function AddAll<T(==, !new)>(s: seq<T>, xs: seq<T>): (r: seq<T>)
    ensures forall y :: y in r <==> y in s || y in xs
    ensures NoDup(s) ==> NoDup(r)
  {
    if xs == [] then s
    else AddNew(AddAll(s, xs[..|xs| - 1]), xs[|xs| - 1])
  }

  /** Removes the element at index `i`. */
  function RemoveAt<T>(s: seq<T>, i: nat): (r: seq<T>)
    requires i < |s|
    ensures |r| == |s| - 1
    ensures multiset(r) == multiset(s) - multiset{s[i]}
  {
    assert s == s[..i] + [s[i]] + s[i + 1..];
    s[..i] + s[i + 1..]
  }

  /** Inserts `x` so that it ends up at index `i`. */
  function InsertAt<T>(s: seq<T>, i: nat, x: T): (r: seq<T>)
    requires i <= |s|
    ensures |r| == |s| + 1 && r[i] == x
    ensures multiset(r) == multiset(s) + multiset{x}
  {
    assert s == s[..i] + s[i..];
    s[..i] + [x] + s[i..]
  }

  /** Taking an element out where it was just put back in. */
  lemma RemoveInsert<T>(s: seq<T>, i: nat, x: T)
    requires i <= |s|
    ensures RemoveAt(InsertAt(s, i, x), i) == s
  {
    var t := InsertAt(s, i, x);
    assert t[..i] == s[..i] && t[i + 1..] == s[i..];
  }

  /** Putting an element back where it was taken out. */
  lemma InsertRemove<T>(s: seq<T>, i: nat)
    requires i < |s|
    ensures InsertAt(RemoveAt(s, i), i, s[i]) == s
  {
    var t := RemoveAt(s, i);
    assert t[..i] == s[..i] && t[i..] == s[i + 1..];
  }

  /** The pieces one after another, as repeated `push(...piece)` builds them. */
  function Flatten<T>(pieces: seq<seq<T>>): seq<T> {
    if pieces == [] then [] else Flatten(pieces[..|pieces| - 1]) + pieces[|pieces| - 1]
  }

  /** Filtering with predicates that agree on the elements gives the same result. */
  lemma {:induction false} FilterExt<T>(s: seq<T>, p: T -> bool, q: T -> bool)
    requires forall x | x in s :: p(x) == q(x)
    ensures Filter(s, p) == Filter(s, q)
  {
    if s != [] {
      assert s[0] in s;
      assert forall x | x in s[1..] :: x in s;
      FilterExt(s[1..], p, q);
    }
  }

  /** Nothing is dropped exactly when every element satisfies `p`; nothing is kept exactly when none does. */
  lemma {:induction false} FilterCount<T>(s: seq<T>, p: T -> bool)
    ensures |Filter(s, p)| == |s| <==> forall i :: 0 <= i < |s| ==> p(s[i])
    ensures Filter(s, p) == [] <==> forall i :: 0 <= i < |s| ==> !p(s[i])
  {
    if s != [] {
      var rest := Filter(s[1..], p);
      FilterCount(s[1..], p);
      assert Filter(s, p) == (if p(s[0]) then [s[0]] else []) + rest;
      assert forall i :: 1 <= i < |s| ==> s[i] == s[1..][i - 1];
      if p(s[0]) {
        assert Filter(s, p) != [];
      } else {
        assert |rest| <= |s| - 1;
      }
    }
  }

  /** Two filters in a row keep what `pq`, their conjunction, keeps. */
  lemma {:induction false} FilterConj<T>(s: seq<T>, p: T -> bool, q: T -> bool, pq: T -> bool)
    requires forall x :: pq(x) == (p(x) && q(x))
    ensures Filter(Filter(s, p), q) == Filter(s, pq)
  {
    if s != [] {
      FilterConj(s[1..], p, q, pq);
      var rest := Filter(s[1..], p);
      if p(s[0]) {
        var f := [s[0]] + rest;
        assert Filter(s, p) == f;
        assert f[0] == s[0] && f[1..] == rest;
      } else {
        assert Filter(s, p) == rest;
      }
    }
  }

  /** Filtering keeps a list free of duplicates. */
  lemma {:induction false} FilterNoDup<T>(s: seq<T>, p: T -> bool)
    requires NoDup(s)
    ensures NoDup(Filter(s, p))
  {
    if s != [] {
      var rest := Filter(s[1..], p);
      assert NoDup(s[1..]) by {
        forall i, j | 0 <= i < j < |s| - 1 ensures s[1..][i] != s[1..][j] {
          assert s[1..][i] == s[i + 1] && s[1..][j] == s[j + 1];
        }
      }
      FilterNoDup(s[1..], p);
      if p(s[0]) {
        forall j | 0 <= j < |rest| ensures rest[j] != s[0] {
          var k :| 0 <= k < |s[1..]| && s[1..][k] == rest[j];
          assert s[k + 1] == rest[j];
        }
        assert Filter(s, p) == [s[0]] + rest;
      }
    }
  }
}
