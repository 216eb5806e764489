/** Facts about sequences used throughout the model: duplicate-free sequences,
    filtering, and the pigeonhole facts that relate their lengths. */
module Seqs {

  /** No element occurs twice. */
  predicate Distinct<T(==)>(s: seq<T>) {
    forall i, j :: 0 <= i < j < |s| ==> s[i] != s[j]
  }

  /** The elements of `s`, as a set. */
  function Elements<T>(s: seq<T>): set<T> {
    set x | x in s
  }

  /** The elements of `s` that are not in `drop`, in their original order
      (PHP's `array_diff` on lists of names). */
  function Without<T(==,!new)>(s: seq<T>, drop: seq<T>): (r: seq<T>)
    ensures forall x :: x in r <==> x in s && x !in drop
    ensures r == [] <==> forall x :: x in s ==> x in drop
    ensures |r| <= |s|
    ensures Distinct(s) ==> Distinct(r)
  {
    if s == [] then []
    else if s[0] in drop then Without(s[1..], drop)
    else [s[0]] + Without(s[1..], drop)
  }

  /** The first occurrence of every element, in order (PHP's `array_unique`
      followed by `array_values`). */
  function Dedupe<T(==,!new)>(s: seq<T>): (r: seq<T>)
    ensures Distinct(r)
    ensures forall x :: x in r <==> x in s
    ensures |r| <= |s|
    ensures Distinct(s) ==> r == s
  {
    if s == [] then []
    else
      var init := Dedupe(s[..|s| - 1]);
      var last := s[|s| - 1];
      assert s == s[..|s| - 1] + [last];
      if last in init then init else init + [last]
  }

  /** `Dedupe` keeps the elements in the order of their first occurrence. */
  lemma {:induction false} DedupeOrder<T(!new)>(s: seq<T>)
    ensures forall i, j :: 0 <= i < j < |Dedupe(s)| ==> IndexOf(s, Dedupe(s)[i]) < IndexOf(s, Dedupe(s)[j])
  {
    if s != [] {
      var init, last := s[..|s| - 1], s[|s| - 1];
      var d0 := Dedupe(init);
      DedupeOrder(init);
      assert s == init + [last];
      forall x | x in init ensures IndexOf(s, x) == IndexOf(init, x) {
        IndexOfSnoc(init, last, x);
      }
      if last !in init {
        IndexOfSnoc(init, last, last);
        assert Dedupe(s) == d0 + [last];
        forall i, j | 0 <= i < j < |Dedupe(s)|
          ensures IndexOf(s, Dedupe(s)[i]) < IndexOf(s, Dedupe(s)[j])
        {
          assert Dedupe(s)[i] == d0[i] && d0[i] in init;
          if j < |d0| {
            assert Dedupe(s)[j] == d0[j] && d0[j] in init;
          }
        }
      }
    }
  }

  /** Appending an element does not move the first occurrence of an element
      already present, and puts that of a new one at the end. */
  lemma {:induction false} IndexOfSnoc<T>(s: seq<T>, y: T, x: T)
    requires x in s + [y]
    ensures x in s ==> IndexOf(s + [y], x) == IndexOf(s, x)
    ensures x !in s ==> IndexOf(s + [y], x) == |s|
  {
    if s != [] && s[0] != x {
      assert (s + [y])[1..] == s[1..] + [y];
      IndexOfSnoc(s[1..], y, x);
    } else if s == [] {
      assert s + [y] == [y];
    }
  }

  lemma {:induction false} DistinctCard<T>(s: seq<T>)
    requires Distinct(s)
    ensures |Elements(s)| == |s|
  {
    if s != [] {
      var init := s[..|s| - 1];
      DistinctCard(init);
      assert Elements(s) == Elements(init) + {s[|s| - 1]};
      assert s[|s| - 1] !in Elements(init);
    }
  }

  /** Pigeonhole: a duplicate-free sequence whose elements all occur in a
      duplicate-free `t` is no longer than `t`, and if it is as long, it holds
      every element of `t`. */
  lemma SubsetLength<T>(s: seq<T>, t: seq<T>)
    requires Distinct(s) && Distinct(t)
    requires forall x :: x in s ==> x in t
    ensures |s| <= |t|
    ensures |s| == |t| ==> forall x :: x in t ==> x in s
  {
    var a, b := Elements(s), Elements(t);
    DistinctCard(s);
    DistinctCard(t);
    assert b == a + (b - a);
    assert a * (b - a) == {};
    forall x | x in t
      ensures |s| == |t| ==> x in s
    {
      if x !in s {
        assert x in b - a;
      }
    }
  }

  lemma DistinctCons<T>(x: T, r: seq<T>)
    ensures Distinct([x] + r) <==> x !in r && Distinct(r)
  {
    var s := [x] + r;
    if x !in r && Distinct(r) {
      forall i, j | 0 <= i < j < |s| ensures s[i] != s[j] {
        if i > 0 { assert s[i] == r[i - 1] && s[j] == r[j - 1]; } else { assert s[j] in r; }
      }
    }
    if Distinct(s) {
      assert forall i, j :: 0 <= i < j < |r| ==> r[i] == s[i + 1] && r[j] == s[j + 1];
      forall k | 0 <= k < |r| ensures r[k] != x {
        assert s[0] != s[k + 1];
      }
    }
  }

  lemma DistinctAppend<T>(a: seq<T>, b: seq<T>)
    ensures Distinct(a + b) <==> Distinct(a) && Distinct(b) && forall x :: x in a ==> x !in b
  {
    var s := a + b;
    if Distinct(s) {
      assert forall i :: 0 <= i < |b| ==> s[|a| + i] == b[i];
      assert forall i :: 0 <= i < |a| ==> s[i] == a[i];
      forall i, j | 0 <= i < j < |b| ensures b[i] != b[j] {
        assert s[|a| + i] != s[|a| + j];
      }
      forall x | x in a ensures x !in b {
        var i :| 0 <= i < |a| && a[i] == x;
        forall j | 0 <= j < |b| ensures b[j] != x {
          assert s[i] != s[|a| + j];
        }
      }
    }
    if Distinct(a) && Distinct(b) && forall x :: x in a ==> x !in b {
      forall i, j | 0 <= i < j < |s| ensures s[i] != s[j] {
        if j < |a| {
          assert s[i] == a[i] && s[j] == a[j];
        } else if i >= |a| {
          assert s[i] == b[i - |a|] && s[j] == b[j - |a|];
        } else {
          assert s[i] in a && s[j] == b[j - |a|];
        }
      }
    }
  }

  /** The parts separated by `sep` (PHP's `implode`, JavaScript's `join`). */
  function Join<T>(parts: seq<seq<T>>, sep: seq<T>): seq<T> {
    if |parts| == 0 then []
    else if |parts| == 1 then parts[0]
    else Join(parts[..|parts| - 1], sep) + sep + parts[|parts| - 1]
  }

  lemma JoinSnoc<T>(parts: seq<seq<T>>, sep: seq<T>, x: seq<T>)
    requires parts != []
    ensures Join(parts + [x], sep) == Join(parts, sep) + sep + x
  {
    assert (parts + [x])[..|parts|] == parts;
  }

  /** Extending the last part extends the joined text by the same. */
  lemma JoinExtendLast<T>(parts: seq<seq<T>>, sep: seq<T>, y: seq<T>)
    requires parts != []
    ensures Join(parts[..|parts| - 1] + [parts[|parts| - 1] + y], sep) == Join(parts, sep) + y
  {
    var front, last := parts[..|parts| - 1], parts[|parts| - 1];
    assert parts == front + [last];
    if front != [] {
      JoinSnoc(front, sep, last + y);
      JoinSnoc(front, sep, last);
    }
  }

  /** The position of `x` in `s`; unique when `s` is duplicate-free. */
  function IndexOf<T(==)>(s: seq<T>, x: T): (i: nat)
    requires x in s
    ensures i < |s| && s[i] == x
    ensures Distinct(s) ==> forall j :: 0 <= j < |s| && s[j] == x ==> j == i
  {
    if s[0] == x then 0 else 1 + IndexOf(s[1..], x)
  }

  /** `IndexOf` finds the first occurrence. */
  lemma {:induction false} IndexOfFirst<T>(s: seq<T>, x: T)
    requires x in s
    ensures forall j :: 0 <= j < IndexOf(s, x) ==> s[j] != x
  {
    if s[0] != x {
      IndexOfFirst(s[1..], x);
      forall j | 0 <= j < IndexOf(s, x) ensures s[j] != x {
        if j > 0 { assert s[j] == s[1..][j - 1]; }
      }
    }
  }
}
