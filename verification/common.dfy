/** Small sequence vocabulary shared by the modules below: the optional value
    that stands in for a null reference, LINQ's `Where`, `List<T>.Remove`
    (which drops only the first occurrence) and reversal. */
module Common {

  /** A value that may be absent; `None` also stands for an exception that ends a handler. */
  datatype Option<+T> = None | Some(value: T)

  /** True iff no value occurs twice in `s`. */
  predicate NoDups<T(==)>(s: seq<T>)
  {
    forall i, j :: 0 <= i < j < |s| ==> s[i] != s[j]
  }

  /** The elements of `s` that satisfy `p`, in their original order. */
  function Filter<T>(p: T -> bool, s: seq<T>): (r: seq<T>)
    ensures |r| <= |s|
  {
    if s == [] then [] else (if p(s[0]) then [s[0]] else []) + Filter(p, s[1..])
  }

  /** An element survives `Filter` exactly when it is in the list and meets the predicate. */
  lemma {:induction false} FilterMembers<T>(p: T -> bool, s: seq<T>)
    ensures forall i :: 0 <= i < |Filter(p, s)| ==> Filter(p, s)[i] in s && p(Filter(p, s)[i])
    ensures forall i :: 0 <= i < |s| && p(s[i]) ==> s[i] in Filter(p, s)
  {
    if s != [] {
      FilterMembers(p, s[1..]);
      var f := Filter(p, s);
      var head := if p(s[0]) then [s[0]] else [];
      assert f == head + Filter(p, s[1..]);
      forall i | 0 <= i < |f| ensures f[i] in s && p(f[i]) {
        if i >= |head| {
          assert f[i] == Filter(p, s[1..])[i - |head|];
        }
      }
      forall i | 0 <= i < |s| && p(s[i]) ensures s[i] in f {
        if i > 0 {
          assert s[i] == s[1..][i - 1];
        }
      }
    }
  }

  /** Membership in a fixed set, as a predicate that can be handed to `Filter`. */
  function MemberOf<T(==)>(keys: set<T>): (p: T -> bool)
  {
    x => x in keys
  }

  /** Absence from a fixed list, as a predicate that can be handed to `Filter`. */
  function AbsentFrom<T(==)>(s: seq<T>): (p: T -> bool)
  {
    x => x !in s
  }

  lemma {:induction false} FilterConcat<T>(p: T -> bool, a: seq<T>, b: seq<T>)
    ensures Filter(p, a + b) == Filter(p, a) + Filter(p, b)
  {
    if a == [] {
      assert a + b == b;
    } else {
      var head := if p(a[0]) then [a[0]] else [];
      assert (a + b)[0] == a[0];
      assert (a + b)[1..] == a[1..] + b;
      assert Filter(p, a + b) == head + Filter(p, a[1..] + b);
      FilterConcat(p, a[1..], b);
      assert Filter(p, a) == head + Filter(p, a[1..]);
    }
  }

  lemma FilterCons<T>(p: T -> bool, x: T, s: seq<T>)
    ensures Filter(p, [x] + s) == (if p(x) then [x] else []) + Filter(p, s)
  {
    assert ([x] + s)[1..] == s;
  }

  /** Filtering with a predicate every element meets changes nothing. */
  lemma {:induction false} FilterAll<T>(p: T -> bool, s: seq<T>)
    requires forall i :: 0 <= i < |s| ==> p(s[i])
    ensures Filter(p, s) == s
  {
    if s != [] {
      FilterAll(p, s[1..]);
    }
  }

  lemma {:induction false} FilterNoDups<T>(p: T -> bool, s: seq<T>)
    requires NoDups(s)
    ensures NoDups(Filter(p, s))
  {
    if s != [] {
      FilterNoDups(p, s[1..]);
      FilterMembers(p, s[1..]);
      var rest := Filter(p, s[1..]);
      assert s[0] !in rest by {
        forall j | 1 <= j < |s| ensures s[j] != s[0] { }
        assert s[0] !in s[1..];
      }
      var f := Filter(p, s);
      if p(s[0]) {
        assert f == [s[0]] + rest;
        forall i, j | 0 <= i < j < |f| ensures f[i] != f[j] {
          if i == 0 {
            assert f[j] == rest[j - 1];
          } else {
            assert f[i] == rest[i - 1] && f[j] == rest[j - 1];
          }
        }
      } else {
        assert f == rest;
      }
    }
  }

  /** `List<T>.Remove`: drops the first occurrence of `x`, if there is one. */
  function RemoveFirst<T(==)>(s: seq<T>, x: T): (r: seq<T>)
    ensures x !in s ==> r == s
    ensures x in s ==> |r| == |s| - 1
  {
    if s == [] then []
    else if s[0] == x then s[1..]
    else [s[0]] + RemoveFirst(s[1..], x)
  }

  /** `Remove` takes away exactly one copy of `x` when there is one, and nothing else. */
  lemma {:induction false} RemoveFirstMultiset<T>(s: seq<T>, x: T)
    ensures multiset(RemoveFirst(s, x)) == multiset(s) - multiset{x}
  {
    if s != [] {
      assert s == [s[0]] + s[1..];
      if s[0] != x {
        RemoveFirstMultiset(s[1..], x);
      }
    }
  }

  /** In a list without repeats, `Remove` leaves no copy of the value behind. */
  lemma {:induction false} RemoveFirstNoDups<T>(s: seq<T>, x: T)
    requires NoDups(s)
    ensures NoDups(RemoveFirst(s, x))
    ensures x !in RemoveFirst(s, x)
  {
    if s != [] {
      var h, t := s[0], s[1..];
      assert s == [h] + t;
      NoDupsCons(h, t);
      if h != x {
        RemoveFirstNoDups(t, x);
        RemoveFirstMultiset(t, x);
        RemoveFirstCons(h, t, x);
        var rest := RemoveFirst(t, x);
        assert h !in multiset(t);
        assert h !in multiset(rest);
        NoDupsCons(h, rest);
      }
    }
  }

  /** A list with a head has no repeats exactly when its tail has none and
      does not hold the head. */
  lemma NoDupsCons<T>(h: T, t: seq<T>)
    ensures NoDups([h] + t) <==> h !in t && NoDups(t)
  {
    var s := [h] + t;
    assert forall j :: 0 <= j < |t| ==> s[j + 1] == t[j];
    if NoDups(s) {
      assert forall j :: 0 <= j < |t| ==> t[j] != h by {
        forall j | 0 <= j < |t| ensures t[j] != h {
          assert s[0] != s[j + 1];
        }
      }
    }
  }

  /** `Remove` takes out the first occurrence of `x` and keeps the rest in order. */
  lemma {:induction false} RemoveFirstAt<T>(s: seq<T>, x: T)
    requires x in s
    ensures exists i :: 0 <= i < |s| && s[i] == x && x !in s[..i] && RemoveFirst(s, x) == s[..i] + s[i + 1..]
  {
    if s[0] == x {
      assert s[..0] + s[1..] == s[1..];
      assert x !in s[..0];
    } else {
      var h, t := s[0], s[1..];
      assert s == [h] + t;
      RemoveFirstAt(t, x);
      var j :| 0 <= j < |t| && t[j] == x && x !in t[..j] && RemoveFirst(t, x) == t[..j] + t[j + 1..];
      RemoveFirstShift(h, t, x, j);
    }
  }

  /** One step of `RemoveFirstAt`: a head that differs from `x` shifts the index by one. */
  lemma RemoveFirstShift<T>(h: T, t: seq<T>, x: T, j: int)
    requires h != x && 0 <= j < |t| && t[j] == x && x !in t[..j]
    requires RemoveFirst(t, x) == t[..j] + t[j + 1..]
    ensures var s := [h] + t;
            s[j + 1] == x && x !in s[..j + 1] && RemoveFirst(s, x) == s[..j + 1] + s[j + 2..]
  {
    var s := [h] + t;
    RemoveFirstCons(h, t, x);
    assert s[..j + 1] == [h] + t[..j];
    assert s[j + 2..] == t[j + 1..];
  }

  lemma RemoveFirstCons<T>(h: T, s: seq<T>, x: T)
    requires h != x
    ensures RemoveFirst([h] + s, x) == [h] + RemoveFirst(s, x)
  {
    assert ([h] + s)[1..] == s;
  }

  /** Removing `x` right after a prefix that does not contain it splices it out. */
  lemma {:induction false} RemoveFirstSplice<T>(a: seq<T>, x: T, b: seq<T>)
    requires x !in a
    ensures RemoveFirst(a + [x] + b, x) == a + b
  {
    var s := a + [x] + b;
    if a == [] {
      assert s == [x] + b;
      assert s[1..] == b;
    } else {
      var h, t := a[0], a[1..];
      assert a == [h] + t;
      assert s == [h] + (t + [x] + b);
      assert a + b == [h] + (t + b);
      RemoveFirstSplice(t, x, b);
      RemoveFirstCons(h, t + [x] + b, x);
    }
  }

  /** `s` read back to front. */
  function Reverse<T>(s: seq<T>): (r: seq<T>)
    ensures |r| == |s|
    ensures forall i :: 0 <= i < |s| ==> r[i] == s[|s| - 1 - i]
  {
    if s == [] then [] else Reverse(s[1..]) + [s[0]]
  }

  lemma ReverseReverse<T>(s: seq<T>)
    ensures Reverse(Reverse(s)) == s
  {
    assert forall i :: 0 <= i < |s| ==> Reverse(Reverse(s))[i] == s[i];
  }

  /** Reversing a list and filtering commute. */
  lemma {:induction false} FilterReverse<T>(p: T -> bool, s: seq<T>)
    ensures Filter(p, Reverse(s)) == Reverse(Filter(p, s))
  {
    if s != [] {
      FilterReverse(p, s[1..]);
      FilterConcat(p, Reverse(s[1..]), [s[0]]);
      var f := if p(s[0]) then [s[0]] else [];
      assert Filter(p, [s[0]]) == f;
      assert Filter(p, s) == f + Filter(p, s[1..]);
      ReverseConcat(f, Filter(p, s[1..]));
      assert Reverse(f) == f;
    }
  }

  lemma ReverseCons<T>(x: T, s: seq<T>)
    ensures Reverse([x] + s) == Reverse(s) + [x]
  {
    assert ([x] + s)[1..] == s;
  }

  lemma ReverseSnoc<T>(s: seq<T>, x: T)
    ensures Reverse(s + [x]) == [x] + Reverse(s)
  {
    ReverseConcat(s, [x]);
    assert Reverse([x]) == [x];
  }

  lemma ReverseConcat<T>(a: seq<T>, b: seq<T>)
    ensures Reverse(a + b) == Reverse(b) + Reverse(a)
  {
    var l := Reverse(a + b);
    var r := Reverse(b) + Reverse(a);
    assert |l| == |r|;
    forall i | 0 <= i < |l| ensures l[i] == r[i] {
      if i < |b| {
        assert l[i] == (a + b)[|a| + |b| - 1 - i];
      } else {
        assert l[i] == (a + b)[|a| + |b| - 1 - i];
      }
    }
  }
}
