/**
 * `allMachines.sort((a, b) => time(b) - time(a))` (scripts/sync-machines.js,
 * line 102): a stable sort, newest first. `key` stands for
 * `new Date(m.pwnedDate).getTime()`. The specification is insertion into a
 * sorted prefix, element by element in input order; the method sorts an
 * array in place the same way.
 */
module DateSort {

  /** Newest first: no element has a larger key than one before it. */
  predicate NewestFirst<T>(s: seq<T>, key: T -> int)
  {
    forall i, j :: 0 <= i < j < |s| ==> key(s[i]) >= key(s[j])
  }

  /** The elements of `s` whose key is `d`, in their order in `s`. */
  function Having<T>(s: seq<T>, key: T -> int, d: int): (r: seq<T>)
    ensures |r| <= |s|
  {
    if s == [] then []
    else (if key(s[0]) == d then [s[0]] else []) + Having(s[1..], key, d)
  }

  /**
   * `x` placed in front of the first element strictly older than it, so
   * after every element as new as it.
   */
  function Insert<T>(x: T, s: seq<T>, key: T -> int): (r: seq<T>)
    ensures |r| == |s| + 1
  {
    if s == [] then [x]
    else if key(s[0]) < key(x) then [x] + s
    else [s[0]] + Insert(x, s[1..], key)
  }

  /** The stable newest-first order of `s`. */
  function SortDesc<T>(s: seq<T>, key: T -> int): (r: seq<T>)
    ensures |r| == |s|
  {
    if s == [] then [] else Insert(s[|s| - 1], SortDesc(s[..|s| - 1], key), key)
  }

  /** Inserting an element no newer than `b` among such elements keeps all of them no newer. */
  lemma {:induction false} InsertNoNewer<T>(x: T, s: seq<T>, key: T -> int, b: int)
    requires key(x) <= b
    requires forall i :: 0 <= i < |s| ==> key(s[i]) <= b
    ensures forall i :: 0 <= i < |s| + 1 ==> key(Insert(x, s, key)[i]) <= b
  {
    if s != [] && key(s[0]) >= key(x) {
      InsertNoNewer(x, s[1..], key, b);
      assert forall i :: 1 <= i < |s| + 1 ==> Insert(x, s, key)[i] == Insert(x, s[1..], key)[i - 1];
    }
  }

  lemma {:induction false} InsertNewestFirst<T>(x: T, s: seq<T>, key: T -> int)
    requires NewestFirst(s, key)
    ensures NewestFirst(Insert(x, s, key), key)
  {
    if s != [] && key(s[0]) >= key(x) {
      var rest := Insert(x, s[1..], key);
      assert NewestFirst(s[1..], key);
      InsertNewestFirst(x, s[1..], key);
      InsertNoNewer(x, s[1..], key, key(s[0]));
      var r := Insert(x, s, key);
      assert forall i :: 1 <= i < |r| ==> r[i] == rest[i - 1];
    }
  }

  lemma {:induction false} InsertPermutes<T>(x: T, s: seq<T>, key: T -> int)
    ensures multiset(Insert(x, s, key)) == multiset(s) + multiset{x}
  {
    if s == [] {
      assert Insert(x, s, key) == [x];
    } else if key(s[0]) < key(x) {
      assert Insert(x, s, key) == [x] + s;
    } else {
      var rest := Insert(x, s[1..], key);
      assert Insert(x, s, key) == [s[0]] + rest;
      InsertPermutes(x, s[1..], key);
      assert s == [s[0]] + s[1..];
      assert multiset([s[0]] + rest) == multiset{s[0]} + multiset(rest);
      assert multiset(s) == multiset{s[0]} + multiset(s[1..]);
    }
  }

  lemma {:induction false} HavingAppend<T>(s: seq<T>, t: seq<T>, key: T -> int, d: int)
    ensures Having(s + t, key, d) == Having(s, key, d) + Having(t, key, d)
  {
    if s == [] {
      assert s + t == t;
    } else {
      var head := if key(s[0]) == d then [s[0]] else [];
      assert (s + t)[0] == s[0];
      assert (s + t)[1..] == s[1..] + t;
      HavingAppend(s[1..], t, key, d);
      assert Having(s + t, key, d) == head + (Having(s[1..], key, d) + Having(t, key, d));
    }
  }

  /** The elements with key `d` of a sequence with a given first element. */
  lemma HavingCons<T>(y: T, t: seq<T>, key: T -> int, d: int)
    ensures Having([y] + t, key, d) == (if key(y) == d then [y] else []) + Having(t, key, d)
  {
    assert ([y] + t)[0] == y;
    assert ([y] + t)[1..] == t;
  }

  /** Nothing in `s` is as new as `k` when its first element is older. */
  lemma {:induction false} HavingNoneNewer<T>(s: seq<T>, key: T -> int, d: int)
    requires NewestFirst(s, key)
    requires s == [] || key(s[0]) < d
    ensures Having(s, key, d) == []
  {
    if s != [] {
      HavingNoneNewer(s[1..], key, d);
    }
  }

  /** An element with key `d` means the first element is at least as new. */
  lemma {:induction false} HavingSome<T>(s: seq<T>, key: T -> int, d: int)
    requires NewestFirst(s, key)
    requires Having(s, key, d) != []
    ensures s != [] && key(s[0]) >= d
  {
    if key(s[0]) != d {
      assert NewestFirst(s[1..], key);
      HavingSome(s[1..], key, d);
      assert s[1..][0] == s[1];
    }
  }

  /** A newest-first sequence stays newest first without its first element. */
  lemma NewestFirstTail<T>(s: seq<T>, key: T -> int)
    requires s != [] && NewestFirst(s, key)
    ensures NewestFirst(s[1..], key)
  {
    forall i, j | 0 <= i < j < |s| - 1
      ensures key(s[1..][i]) >= key(s[1..][j])
    {
      assert s[1..][i] == s[i + 1] && s[1..][j] == s[j + 1];
    }
  }

  /** Inserting keeps `x` after every element of `s` with the same key. */
  lemma {:induction false} InsertStable<T>(x: T, s: seq<T>, key: T -> int, d: int)
    requires NewestFirst(s, key)
    ensures Having(Insert(x, s, key), key, d)
            == Having(s, key, d) + (if key(x) == d then [x] else [])
  {
    var tail := if key(x) == d then [x] else [];
    if s == [] {
      HavingCons(x, s, key, d);
      assert [x] + s == [x];
    } else if key(s[0]) < key(x) {
      assert Insert(x, s, key) == [x] + s;
      HavingCons(x, s, key, d);
      if key(x) == d {
        HavingNoneNewer(s, key, d);
      }
    } else {
      var head := if key(s[0]) == d then [s[0]] else [];
      var rest := Insert(x, s[1..], key);
      assert Insert(x, s, key) == [s[0]] + rest;
      NewestFirstTail(s, key);
      InsertStable(x, s[1..], key, d);
      HavingCons(s[0], rest, key, d);
      HavingCons(s[0], s[1..], key, d);
      assert [s[0]] + s[1..] == s;
      assert head + (Having(s[1..], key, d) + tail) == (head + Having(s[1..], key, d)) + tail;
    }
  }

  /** The result is newest first. */
  lemma {:induction false} SortDescNewestFirst<T>(s: seq<T>, key: T -> int)
    ensures NewestFirst(SortDesc(s, key), key)
  {
    if s != [] {
      SortDescNewestFirst(s[..|s| - 1], key);
      InsertNewestFirst(s[|s| - 1], SortDesc(s[..|s| - 1], key), key);
    }
  }

  /** The result holds the same machines, each as often as before. */
  lemma {:induction false} SortDescPermutes<T>(s: seq<T>, key: T -> int)
    ensures multiset(SortDesc(s, key)) == multiset(s)
  {
    if s != [] {
      var init, x := s[..|s| - 1], s[|s| - 1];
      SortDescPermutes(init, key);
      InsertPermutes(x, SortDesc(init, key), key);
      assert s == init + [x];
      assert multiset(s) == multiset(init) + multiset{x};
    }
  }

  /** Machines pwned at the same time keep their order. */
  lemma {:induction false} SortDescStable<T>(s: seq<T>, key: T -> int, d: int)
    ensures Having(SortDesc(s, key), key, d) == Having(s, key, d)
  {
    if s != [] {
      var init, x := s[..|s| - 1], s[|s| - 1];
      SortDescStable(init, key, d);
      SortDescNewestFirst(init, key);
      InsertStable(x, SortDesc(init, key), key, d);
      assert s == init + [x];
      HavingAppend(init, [x], key, d);
    }
  }

  /**
   * `SortDesc` is a stable sort: newest first, the same elements, and
   * elements with equal keys in their input order.
   */
  lemma SortDescIsStableSort<T>(s: seq<T>, key: T -> int)
    ensures NewestFirst(SortDesc(s, key), key)
    ensures multiset(SortDesc(s, key)) == multiset(s)
    ensures forall d :: Having(SortDesc(s, key), key, d) == Having(s, key, d)
  {
    SortDescNewestFirst(s, key);
    SortDescPermutes(s, key);
    forall d ensures Having(SortDesc(s, key), key, d) == Having(s, key, d) {
      SortDescStable(s, key, d);
    }
  }

  /**
   * Two newest-first orders of the same elements that keep equal keys in
   * the same order are the same sequence: any stable newest-first sort,
   * whatever its algorithm, gives `SortDesc`.
   */
  lemma {:induction false} StableOrderUnique<T>(t: seq<T>, u: seq<T>, key: T -> int)
    requires NewestFirst(t, key) && NewestFirst(u, key)
    requires forall d :: Having(t, key, d) == Having(u, key, d)
    ensures t == u
    decreases |t| + |u|
  {
    if t != [] {
      assert Having(t, key, key(t[0]))[0] == t[0];
      HavingSome(u, key, key(t[0]));
    }
    if u != [] {
      assert Having(u, key, key(u[0]))[0] == u[0];
      HavingSome(t, key, key(u[0]));
    }
    if t != [] {
      var k := key(t[0]);
      assert Having(t, key, k)[0] == t[0];
      assert Having(u, key, k)[0] == u[0];
      assert t[0] == u[0];
      forall d ensures Having(t[1..], key, d) == Having(u[1..], key, d) {
        var head := if k == d then [t[0]] else [];
        assert Having(t, key, d) == head + Having(t[1..], key, d);
        assert Having(u, key, d) == head + Having(u[1..], key, d);
        assert Having(t[1..], key, d) == Having(t, key, d)[|head|..];
        assert Having(u[1..], key, d) == Having(u, key, d)[|head|..];
      }
      assert NewestFirst(t[1..], key);
      assert NewestFirst(u[1..], key);
      StableOrderUnique(t[1..], u[1..], key);
      assert t == [t[0]] + t[1..];
      assert u == [u[0]] + u[1..];
    }
  }

  /** `x` belongs right after the last element at least as new as it. */
  lemma {:induction false} InsertAt<T>(x: T, t: seq<T>, key: T -> int, j: nat)
    requires NewestFirst(t, key)
    requires j <= |t|
    requires j == 0 || key(t[j - 1]) >= key(x)
    requires forall k :: j <= k < |t| ==> key(t[k]) < key(x)
    ensures Insert(x, t, key) == t[..j] + [x] + t[j..]
  {
    if t != [] && j > 0 {
      assert key(t[0]) >= key(t[j - 1]);
      InsertAt(x, t[1..], key, j - 1);
      assert t[..j] == [t[0]] + t[1..][..j - 1];
      assert t[j..] == t[1..][j - 1..];
    }
  }

  /** A sequence that holds `sorted` with `x` put in at position `j`. */
  lemma ShiftedIn<T>(b: seq<T>, sorted: seq<T>, x: T, j: nat)
    requires j <= |sorted| && |b| == |sorted| + 1
    requires forall k :: 0 <= k < j ==> b[k] == sorted[k]
    requires b[j] == x
    requires forall k :: j < k < |b| ==> b[k] == sorted[k - 1]
    ensures b == sorted[..j] + [x] + sorted[j..]
  {
    var r := sorted[..j] + [x] + sorted[j..];
    forall k | 0 <= k < |b|
      ensures b[k] == r[k]
    {
      if k > j {
        assert r[k] == sorted[j..][k - j - 1];
      }
    }
  }

  /**
   * One step of the sort: `a[..i]` is already newest first; `a[i]` moves
   * left past every element strictly older than it, each shifting one
   * place right.
   */
  method InsertLast<T>(a: array<T>, i: nat, key: T -> int)
    requires i < a.Length
    requires NewestFirst(a[..i], key)
    modifies a
    ensures a[..i + 1] == Insert(old(a[i]), old(a[..i]), key)
    ensures forall k :: i < k < a.Length ==> a[k] == old(a[k])
  {
    ghost var sorted := a[..i];
    var x := a[i];
    var j := i;
    while j > 0 && key(a[j - 1]) < key(x)
      invariant 0 <= j <= i
      invariant forall k :: 0 <= k < j ==> a[k] == sorted[k]
      invariant forall k :: j < k <= i ==> a[k] == sorted[k - 1]
      invariant forall k :: i < k < a.Length ==> a[k] == old(a[k])
      invariant forall k :: j <= k < i ==> key(sorted[k]) < key(x)
    {
      a[j] := a[j - 1];
      j := j - 1;
    }
    a[j] := x;
    InsertAt(x, sorted, key, j);
    ShiftedIn(a[..i + 1], sorted, x, j);
  }

  /** Sorts `a` in place, newest first and stably. */
  method SortNewestFirst<T>(a: array<T>, key: T -> int)
    modifies a
    ensures a[..] == SortDesc(old(a[..]), key)
  {
    ghost var s := a[..];
    var i := 0;
    while i < a.Length
      invariant 0 <= i <= a.Length
      invariant a[..i] == SortDesc(s[..i], key)
      invariant a[i..] == s[i..]
    {
      SortDescNewestFirst(s[..i], key);
      InsertLast(a, i, key);
      assert s[..i + 1] == s[..i] + [s[i]];
      i := i + 1;
    }
    assert a[..] == a[..a.Length];
    assert s == s[..a.Length];
  }
}
