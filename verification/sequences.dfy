/**
 * Sequence facts behind the JavaScript collections the widget uses: a `Set` built
 * from an array keeps the first occurrence of each element in insertion order,
 * `Set.delete` drops one element, and `[...set].sort((a, b) => a - b)` yields the
 * distinct numbers in ascending order.
 */
module Sequences {

  /** No element occurs twice. */
  ghost predicate NoDup<T>(s: seq<T>)
  {
    forall i, j :: 0 <= i < j < |s| ==> s[i] != s[j]
  }

  /** The elements of `s`, as `new Set(s)` holds them. */
  function SetOf<T>(s: seq<T>): set<T>
  {
    set x | x in s
  }

  /** The number of distinct elements never exceeds the length, and equals it without duplicates. */
  lemma {:induction false} SetOfSize<T>(s: seq<T>)
    ensures |SetOf(s)| <= |s|
    ensures NoDup(s) ==> |SetOf(s)| == |s|
  {
    if s != [] {
      var p := s[..|s| - 1];
      SetOfSize(p);
      assert SetOf(s) == SetOf(p) + {s[|s| - 1]};
      if NoDup(s) {
        assert NoDup(p);
        assert s[|s| - 1] !in SetOf(p);
      }
    }
  }

  /** Index of the first occurrence of `x` in `s`. */
  function First<T(==)>(s: seq<T>, x: T): (r: nat)
    requires x in s
    ensures r < |s| && s[r] == x && x !in s[..r]
  {
    var p := s[..|s| - 1];
    if x in p then
      var r := First(p, x);
      assert s[..r] == p[..r];
      r
    else
      assert s[..|s| - 1] == p;
      |s| - 1
  }

  /**
   * `[...new Set(s)]`: the distinct elements of `s`, each at the place of its first
   * occurrence.
   */
  function Dedup<T(==, !new)>(s: seq<T>): (r: seq<T>)
    ensures NoDup(r)
    ensures forall x :: x in r <==> x in s
  {
    if s == [] then []
    else
      var p := Dedup(s[..|s| - 1]);
      if s[|s| - 1] in s[..|s| - 1] then p else p + [s[|s| - 1]]
  }

  /** `Dedup` lists the distinct elements in the order of their first occurrences. */
  lemma {:induction false} DedupFirstOccurrenceOrder<T(!new)>(s: seq<T>, a: nat, b: nat)
    requires a < b < |Dedup(s)|
    ensures First(s, Dedup(s)[a]) < First(s, Dedup(s)[b])
  {
    var p := s[..|s| - 1];
    var d := Dedup(s);
    var dp := Dedup(p);
    FirstOfPrefix(s, d[a]);
    if s[|s| - 1] in p || b < |dp| {
      assert d[a] == dp[a] && d[b] == dp[b];
      DedupFirstOccurrenceOrder(p, a, b);
      FirstOfPrefix(s, d[b]);
    } else {
      assert d[b] == s[|s| - 1] && d[a] in p;
    }
  }

  /** The first occurrence of an element of the prefix is the one found in the prefix. */
  lemma FirstOfPrefix<T>(s: seq<T>, x: T)
    requires s != [] && x in s
    ensures x in s[..|s| - 1] ==> First(s, x) == First(s[..|s| - 1], x)
    ensures x !in s[..|s| - 1] ==> First(s, x) == |s| - 1
  {
  }

  /** Without duplicates, `Dedup` changes nothing. */
  lemma {:induction false} DedupOfNoDup<T(!new)>(s: seq<T>)
    requires NoDup(s)
    ensures Dedup(s) == s
  {
    if s != [] {
      var p := s[..|s| - 1];
      assert NoDup(p);
      DedupOfNoDup(p);
      assert s[|s| - 1] !in p;
      assert p + [s[|s| - 1]] == s;
    }
  }

  /** `s` with every occurrence of `v` removed, the rest in order. */
  function Without<T(==, !new)>(s: seq<T>, v: T): (r: seq<T>)
    ensures |r| <= |s|
    ensures forall x :: x in r <==> x in s && x != v
  {
    if s == [] then []
    else
      var p := Without(s[..|s| - 1], v);
      if s[|s| - 1] == v then p else p + [s[|s| - 1]]
  }

  /** Removing an element keeps a duplicate-free sequence duplicate-free. */
  lemma {:induction false} WithoutNoDup<T(!new)>(s: seq<T>, v: T)
    requires NoDup(s)
    ensures NoDup(Without(s, v))
  {
    if s != [] {
      var p := s[..|s| - 1];
      assert NoDup(p);
      WithoutNoDup(p, v);
      assert s[|s| - 1] !in p;
    }
  }

  /** Removing an absent element changes nothing; removing an appended one undoes the append. */
  lemma {:induction false} WithoutAbsent<T(!new)>(s: seq<T>, v: T)
    requires v !in s
    ensures Without(s, v) == s
    ensures Without(s + [v], v) == s
  {
    if s != [] {
      WithoutAbsent(s[..|s| - 1], v);
      assert s[..|s| - 1] + [s[|s| - 1]] == s;
    }
    assert (s + [v])[..|s + [v]| - 1] == s;
  }

  /** Removing a value distributes over concatenation: the remaining elements keep their order. */
  lemma {:induction false} WithoutConcat<T(!new)>(a: seq<T>, b: seq<T>, v: T)
    ensures Without(a + b, v) == Without(a, v) + Without(b, v)
  {
    if b == [] {
      assert a + b == a;
    } else {
      var b' := b[..|b| - 1];
      WithoutConcat(a, b', v);
      assert (a + b)[..|a + b| - 1] == a + b';
    }
  }

  /** Every element of `s` occurs in `t`, and `s` lists them in the order of their first occurrences in `t`. */
  ghost predicate InFirstOccurrenceOrder<T>(s: seq<T>, t: seq<T>)
  {
    && (forall x :: x in s ==> x in t)
    && (forall a, b :: 0 <= a < b < |s| ==> s[a] in t && s[b] in t && First(t, s[a]) < First(t, s[b]))
  }

  /** `[...new Set(t)]` lists the distinct elements of `t` in the order of their first occurrences. */
  lemma DedupOrdered<T(!new)>(t: seq<T>)
    ensures InFirstOccurrenceOrder(Dedup(t), t)
  {
    forall a, b | 0 <= a < b < |Dedup(t)|
      ensures Dedup(t)[a] in t && Dedup(t)[b] in t && First(t, Dedup(t)[a]) < First(t, Dedup(t)[b])
    {
      DedupFirstOccurrenceOrder(t, a, b);
    }
  }

  /** Removing a value keeps the remaining elements in first-occurrence order. */
  lemma {:induction false} WithoutKeepsOrder<T(!new)>(s: seq<T>, t: seq<T>, v: T)
    requires InFirstOccurrenceOrder(s, t)
    ensures InFirstOccurrenceOrder(Without(s, v), t)
  {
    if s != [] {
      var p := s[..|s| - 1];
      var x := s[|s| - 1];
      assert InFirstOccurrenceOrder(p, t) by {
        forall a, b | 0 <= a < b < |p| ensures p[a] in t && p[b] in t && First(t, p[a]) < First(t, p[b]) {
          assert p[a] == s[a] && p[b] == s[b];
        }
      }
      WithoutKeepsOrder(p, t, v);
      var wp := Without(p, v);
      var w := Without(s, v);
      if x != v {
        assert w == wp + [x];
        forall a, b | 0 <= a < b < |w| ensures w[a] in t && w[b] in t && First(t, w[a]) < First(t, w[b]) {
          if b < |wp| {
            assert w[a] == wp[a] && w[b] == wp[b];
          } else {
            assert w[a] == wp[a] && wp[a] in p;
            var i :| 0 <= i < |p| && p[i] == wp[a];
            assert s[i] == w[a] && s[|s| - 1] == w[b];
          }
        }
      }
    }
  }

  /** Strictly increasing. */
  ghost predicate StrictlyAscending(s: seq<int>)
  {
    forall i, j :: 0 <= i < j < |s| ==> s[i] < s[j]
  }

  /** Inserts `x` into an ascending sequence, unless it is already there. */
  function Insert(x: int, s: seq<int>): (r: seq<int>)
    requires StrictlyAscending(s)
    ensures StrictlyAscending(r)
    ensures forall y :: y in r <==> y == x || y in s
  {
    if s == [] then [x]
    else if x < s[0] then [x] + s
    else if x == s[0] then s
    else
      var t := Insert(x, s[1..]);
      assert forall y :: y in t ==> s[0] < y;
      var r := [s[0]] + t;
      forall i, j | 0 <= i < j < |r| ensures r[i] < r[j] {
        if i == 0 {
          assert r[j] == t[j - 1] && t[j - 1] in t;
        } else {
          assert r[i] == t[i - 1] && r[j] == t[j - 1];
        }
      }
      r
  }

  /** `[...new Set(xs)].sort((a, b) => a - b)`: the distinct numbers of `xs`, ascending. */
  function SortedUnique(xs: seq<int>): (r: seq<int>)
    ensures StrictlyAscending(r)
    ensures forall y :: y in r <==> y in xs
  {
    if xs == [] then [] else Insert(xs[0], SortedUnique(xs[1..]))
  }

  /** An ascending sequence is determined by its elements. */
  lemma {:induction false} AscendingUnique(a: seq<int>, b: seq<int>)
    requires StrictlyAscending(a) && StrictlyAscending(b)
    requires forall y :: y in a <==> y in b
    ensures a == b
  {
    assert a == [] <==> b == [] by {
      if a != [] { assert a[0] in a; }
      if b != [] { assert b[0] in b; }
    }
    if a != [] {
      assert a[0] in b && b[0] in a;
      assert a[0] == b[0];
      forall y ensures y in a[1..] <==> y in b[1..] {
        if y in a[1..] { assert y in b && y != b[0]; }
        if y in b[1..] { assert y in a && y != a[0]; }
      }
      AscendingUnique(a[1..], b[1..]);
      assert a == [a[0]] + a[1..];
      assert b == [b[0]] + b[1..];
    }
  }
}
