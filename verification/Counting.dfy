/** Counting the requests of a state: how many entries of a table satisfy a predicate, and
    how much an entry-wise weight adds up to. Every invariant of the concurrent parts is a
    statement about such counts, so the effect of changing one entry is proved here once. */
module Counting {

  ghost function Members<T>(m: map<nat, T>, p: T -> bool): set<nat> {
    set r | r in m && p(m[r])
  }

  ghost function Count<T>(m: map<nat, T>, p: T -> bool): nat {
    |Members(m, p)|
  }

  function One(b: bool): nat {
    if b then 1 else 0
  }

  /** Changing or adding one entry moves a count by at most one, in the way its two values say. */
  lemma CountUpdate<T>(m: map<nat, T>, r: nat, v: T, p: T -> bool)
    ensures Count(m[r := v], p) == Count(m, p) - One(r in m && p(m[r])) + One(p(v))
  {
    var before, after := Members(m, p), Members(m[r := v], p);
    SetUpdate(before, after, r);
  }

  /** Two sets that agree everywhere but on one element. */
  lemma SetUpdate(a: set<nat>, b: set<nat>, r: nat)
    requires forall x :: x != r ==> (x in a <==> x in b)
    ensures |b| == |a| - One(r in a) + One(r in b)
  {
    assert a - {r} == b - {r};
    assert a == if r in a then a - {r} + {r} else a - {r};
    assert b == if r in b then b - {r} + {r} else b - {r};
  }

  lemma CountMonotone<T>(m: map<nat, T>, p: T -> bool, q: T -> bool)
    requires forall r :: r in m && p(m[r]) ==> q(m[r])
    ensures Count(m, p) <= Count(m, q)
  {
    CardinalityMonotone(Members(m, p), Members(m, q));
  }

  lemma CardinalityMonotone<T>(a: set<T>, b: set<T>)
    requires a <= b
    ensures |a| <= |b|
  {
    assert b == a + (b - a);
  }

  lemma CountZero<T>(m: map<nat, T>, p: T -> bool)
    requires forall r :: r in m ==> !p(m[r])
    ensures Count(m, p) == 0
  {
    assert Members(m, p) == {};
  }

  lemma CountWitness<T>(m: map<nat, T>, r: nat, p: T -> bool)
    requires r in m && p(m[r])
    ensures Count(m, p) > 0
  {
    assert r in Members(m, p);
  }

  lemma CountPositive<T>(m: map<nat, T>, p: T -> bool) returns (r: nat)
    requires Count(m, p) > 0
    ensures r in m && p(m[r])
  {
    r :| r in Members(m, p);
  }

  /** When every entry has exactly one of four properties, the four counts add up to the table's size. */
  lemma CountPartition<T>(m: map<nat, T>, a: T -> bool, b: T -> bool, c: T -> bool, d: T -> bool)
    requires forall r :: r in m ==> One(a(m[r])) + One(b(m[r])) + One(c(m[r])) + One(d(m[r])) == 1
    ensures Count(m, a) + Count(m, b) + Count(m, c) + Count(m, d) == |m|
  {
    var A, B, C, D := Members(m, a), Members(m, b), Members(m, c), Members(m, d);
    assert A !! B && (A + B) !! C && (A + B + C) !! D;
    assert m.Keys == A + B + C + D;
  }

  /** The sum of a weight over all entries. */
  ghost function Sum<T>(m: map<nat, T>, w: T -> nat): nat
    decreases |m|
  {
    if m == map[] then 0
    else
      var r :| r in m;
      w(m[r]) + Sum(m - {r}, w)
  }

  lemma {:induction false} SumSplit<T>(m: map<nat, T>, r: nat, w: T -> nat)
    requires r in m
    ensures Sum(m, w) == w(m[r]) + Sum(m - {r}, w)
    decreases |m|
  {
    var k :| k in m && Sum(m, w) == w(m[k]) + Sum(m - {k}, w);
    if k != r {
      SumSplit(m - {k}, r, w);
      SumSplit(m - {r}, k, w);
      assert m - {k} - {r} == m - {r} - {k};
    }
  }

  lemma SumUpdate<T>(m: map<nat, T>, r: nat, v: T, w: T -> nat)
    ensures Sum(m[r := v], w) == Sum(m, w) - (if r in m then w(m[r]) else 0) + w(v)
  {
    SumSplit(m[r := v], r, w);
    assert m[r := v] - {r} == m - {r};
    if r in m {
      SumSplit(m, r, w);
    } else {
      assert m - {r} == m;
    }
  }
}
