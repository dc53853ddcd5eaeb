/** Sequence helpers shared by the model: order-preserving filtering (the list
    comprehensions and loops that keep matching rows), subsequences, reversal
    (ORDER BY id DESC) and prefixes (LIMIT). */
module Seqs {

  datatype Option<+T> = None | Some(value: T)

  /** Keeps the elements of `s` that satisfy `keep`, in their original order. */
  function Filter<T>(keep: T -> bool, s: seq<T>): (r: seq<T>)
    ensures |r| <= |s|
    decreases |s|
  {
    if s == [] then []
    else
      var init := Filter(keep, s[..|s| - 1]);
      if keep(s[|s| - 1]) then init + [s[|s| - 1]] else init
  }

  /** `r` can be obtained from `s` by deleting elements, without reordering. */
  predicate IsSubsequence<T(==)>(r: seq<T>, s: seq<T>)
    decreases |s|
  {
    if r == [] then true
    else if s == [] then false
    else
      (r[|r| - 1] == s[|s| - 1] && IsSubsequence(r[..|r| - 1], s[..|s| - 1]))
      || IsSubsequence(r, s[..|s| - 1])
  }

  lemma {:induction false} FilterMember<T>(keep: T -> bool, s: seq<T>, x: T)
    ensures x in Filter(keep, s) <==> x in s && keep(x)
    decreases |s|
  {
    if s != [] {
      FilterMember(keep, s[..|s| - 1], x);
      assert s == s[..|s| - 1] + [s[|s| - 1]];
    }
  }

  lemma {:induction false} FilterAllKeep<T>(keep: T -> bool, s: seq<T>, k: int)
    requires 0 <= k < |Filter(keep, s)|
    ensures keep(Filter(keep, s)[k])
  {
    FilterMember(keep, s, Filter(keep, s)[k]);
  }

  /** Filtering a sequence whose every element passes leaves it as it is. */
  lemma {:induction false} FilterKeepsAll<T>(keep: T -> bool, s: seq<T>)
    requires forall i :: 0 <= i < |s| ==> keep(s[i])
    ensures Filter(keep, s) == s
    decreases |s|
  {
    if s != [] {
      FilterKeepsAll(keep, s[..|s| - 1]);
      assert s[..|s| - 1] + [s[|s| - 1]] == s;
    }
  }

  lemma FilterAllKeepAll<T>(keep: T -> bool, s: seq<T>)
    ensures forall k :: 0 <= k < |Filter(keep, s)| ==> keep(Filter(keep, s)[k])
  {
    forall k | 0 <= k < |Filter(keep, s)| ensures keep(Filter(keep, s)[k]) {
      FilterAllKeep(keep, s, k);
    }
  }

  lemma {:induction false} FilterIsSubsequence<T>(keep: T -> bool, s: seq<T>)
    ensures IsSubsequence(Filter(keep, s), s)
    decreases |s|
  {
    if s != [] {
      var init := s[..|s| - 1];
      FilterIsSubsequence(keep, init);
      var r := Filter(keep, s);
      if keep(s[|s| - 1]) {
        assert r[..|r| - 1] == Filter(keep, init);
      } else {
        if r != [] {
          assert IsSubsequence(r, init);
        }
      }
    }
  }

  lemma AppendAssociative<T>(x: seq<T>, y: seq<T>, z: seq<T>)
    ensures (x + y) + z == x + (y + z)
  {
  }

  lemma {:induction false} FilterConcat<T>(keep: T -> bool, a: seq<T>, b: seq<T>)
    ensures Filter(keep, a + b) == Filter(keep, a) + Filter(keep, b)
    decreases |b|
  {
    if b == [] {
      assert a + b == a;
    } else {
      var b', x := b[..|b| - 1], b[|b| - 1];
      FilterConcat(keep, a, b');
      assert a + b == (a + b') + [x];
      assert b == b' + [x];
      FilterSnoc(keep, a + b', x);
      FilterSnoc(keep, b', x);
      AppendAssociative(Filter(keep, a), Filter(keep, b'), if keep(x) then [x] else []);
    }
  }

  /** Filtering a sequence with a given first element. */
  lemma FilterCons<T>(keep: T -> bool, x: T, s: seq<T>)
    ensures Filter(keep, [x] + s) == (if keep(x) then [x] else []) + Filter(keep, s)
  {
    FilterConcat(keep, [x], s);
    assert [x][..0] == [];
  }

  /** Filtering a sequence with a given last element. */
  lemma FilterSnoc<T>(keep: T -> bool, s: seq<T>, x: T)
    ensures Filter(keep, s + [x]) == Filter(keep, s) + (if keep(x) then [x] else [])
  {
    assert (s + [x])[..|s|] == s;
  }

  /** Nothing passes, nothing is kept. */
  lemma FilterNone<T>(keep: T -> bool, s: seq<T>)
    requires forall i :: 0 <= i < |s| ==> !keep(s[i])
    ensures Filter(keep, s) == []
  {
    if Filter(keep, s) != [] {
      FilterMember(keep, s, Filter(keep, s)[0]);
    }
  }

  /** Filtering by a stricter test after a weaker one is filtering by the
      stricter test alone. */
  lemma {:induction false} FilterFilter<T>(weak: T -> bool, strict: T -> bool, s: seq<T>)
    requires forall i :: 0 <= i < |s| && strict(s[i]) ==> weak(s[i])
    ensures Filter(strict, Filter(weak, s)) == Filter(strict, s)
    decreases |s|
  {
    if s != [] {
      var init := s[..|s| - 1];
      FilterFilter(weak, strict, init);
      var w := Filter(weak, init);
      if weak(s[|s| - 1]) {
        assert (w + [s[|s| - 1]])[..|w|] == w;
      }
    }
  }

  /** An order relation that holds between every earlier and later element of
      `s` still holds in every filtered copy of `s`. */
  lemma {:induction false} FilterKeepsOrder<T>(keep: T -> bool, s: seq<T>, before: (T, T) -> bool)
    requires forall i, j :: 0 <= i < j < |s| ==> before(s[i], s[j])
    ensures forall i, j :: 0 <= i < j < |Filter(keep, s)| ==> before(Filter(keep, s)[i], Filter(keep, s)[j])
    decreases |s|
  {
    if s != [] {
      var init, x := s[..|s| - 1], s[|s| - 1];
      FilterKeepsOrder(keep, init, before);
      var fi := Filter(keep, init);
      var r := Filter(keep, s);
      if keep(x) {
        assert r == fi + [x];
        forall i, j | 0 <= i < j < |r| ensures before(r[i], r[j]) {
          assert r[i] == fi[i];
          if j == |r| - 1 {
            FilterMember(keep, init, fi[i]);
            var k :| 0 <= k < |init| && init[k] == fi[i];
            assert init[k] == s[k] && r[j] == s[|s| - 1];
          } else {
            assert r[j] == fi[j];
          }
        }
      } else {
        assert r == fi;
      }
    }
  }

  /** The elements of `s` in the opposite order. */
  function Reverse<T>(s: seq<T>): (r: seq<T>)
    ensures |r| == |s|
  {
    if s == [] then [] else Reverse(s[1..]) + [s[0]]
  }

  lemma {:induction false} ReverseAt<T>(s: seq<T>, k: int)
    requires 0 <= k < |s|
    ensures Reverse(s)[k] == s[|s| - 1 - k]
  {
    if k < |s| - 1 {
      ReverseAt(s[1..], k);
    }
  }

  lemma ReverseMember<T>(s: seq<T>, x: T)
    ensures x in Reverse(s) <==> x in s
  {
    if x in s {
      var k :| 0 <= k < |s| && s[k] == x;
      ReverseAt(s, |s| - 1 - k);
    }
    if x in Reverse(s) {
      var k :| 0 <= k < |s| && Reverse(s)[k] == x;
      ReverseAt(s, k);
    }
  }

  /** The first `n` elements of `s`, or all of them if there are fewer. */
  function Take<T>(s: seq<T>, n: nat): (r: seq<T>)
    ensures |r| == if |s| < n then |s| else n
    ensures forall k :: 0 <= k < |r| ==> r[k] == s[k]
  {
    if |s| <= n then s else s[..n]
  }

  /** The values stored under keys 0 .. n - 1 of `m`, in ascending key order:
      the row order of a table scan over an auto-incremented primary key. */
  function Rows<T>(m: map<nat, T>, n: nat): (r: seq<T>)
    ensures |r| <= n
  {
    if n == 0 then []
    else Rows(m, n - 1) + (if n - 1 in m then [m[n - 1]] else [])
  }

  lemma {:induction false} RowsMember<T>(m: map<nat, T>, n: nat, x: T)
    ensures x in Rows(m, n) <==> exists id :: id in m && id < n && m[id] == x
  {
    if n > 0 {
      RowsMember(m, n - 1, x);
      if n - 1 in m && m[n - 1] == x {
        assert Rows(m, n)[|Rows(m, n)| - 1] == x;
      }
    }
  }

  /** Every row of `Rows(m, n)` is stored under a key below `n`. */
  lemma {:induction false} RowsFromTable<T>(m: map<nat, T>, n: nat, k: int)
    requires 0 <= k < |Rows(m, n)|
    ensures exists id :: id in m && id < n && m[id] == Rows(m, n)[k]
  {
    RowsMember(m, n, Rows(m, n)[k]);
  }

  /** When each row carries its own key (`key(m[id]) == id`), a table scan
      lists rows in strictly ascending key order. */
  lemma {:induction false} RowsAscending<T>(m: map<nat, T>, n: nat, key: T -> nat)
    requires forall id :: id in m ==> key(m[id]) == id
    ensures forall i, j :: 0 <= i < j < |Rows(m, n)| ==> key(Rows(m, n)[i]) < key(Rows(m, n)[j])
    ensures forall i :: 0 <= i < |Rows(m, n)| ==> key(Rows(m, n)[i]) < n
  {
    if n > 0 {
      RowsAscending(m, n - 1, key);
      var r := Rows(m, n);
      assert r[..|Rows(m, n - 1)|] == Rows(m, n - 1);
    }
  }

  /** Reversing a strictly ascending sequence gives a strictly descending one. */
  lemma ReverseDescending<T>(s: seq<T>, key: T -> nat)
    requires forall i, j :: 0 <= i < j < |s| ==> key(s[i]) < key(s[j])
    ensures forall i, j :: 0 <= i < j < |Reverse(s)| ==> key(Reverse(s)[i]) > key(Reverse(s)[j])
  {
    forall i, j | 0 <= i < j < |Reverse(s)|
      ensures key(Reverse(s)[i]) > key(Reverse(s)[j])
    {
      ReverseAt(s, i);
      ReverseAt(s, j);
    }
  }
}
