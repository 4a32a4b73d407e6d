module Options {
  datatype Option<+T> = None | Some(value: T)
}

/** Concatenating the image of every element of a sequence. */
module Sequences {

  lemma Associate<T>(a: seq<T>, b: seq<T>, c: seq<T>)
    ensures (a + b) + c == a + (b + c)
  {
  }

  lemma CutFirst<T>(s: seq<T>, k: nat)
    requires k < |s|
    ensures s[k..] == [s[k]] + s[k + 1..] && s[k..][0] == s[k] && s[k..][1..] == s[k + 1..]
  {
  }

  /** Cutting what is behind `k` at `n` is cutting at `n`. */
  lemma CutTwice<T>(s: seq<T>, k: nat, n: nat)
    requires k <= n <= |s|
    ensures s[k..][n - k..] == s[n..] && s[..k] + s[k..][..n - k] == s[..n]
  {
  }

  /** Cutting a sequence with more behind it. */
  lemma CutLonger<T>(s: seq<T>, tail: seq<T>, k: nat)
    requires k <= |s|
    ensures (s + tail)[..k] == s[..k] && (s + tail)[k..] == s[k..] + tail
  {
  }

  lemma CutAll<T>(s: seq<T>)
    ensures s[|s|..] == []
  {
  }

  function FlatMap<A, B>(f: A -> seq<B>, s: seq<A>): seq<B> {
    if s == [] then [] else f(s[0]) + FlatMap(f, s[1..])
  }

  lemma {:induction false} FlatMapConcat<A, B>(f: A -> seq<B>, a: seq<A>, b: seq<A>)
    ensures FlatMap(f, a + b) == FlatMap(f, a) + FlatMap(f, b)
  {
    if a == [] {
      assert a + b == b;
    } else {
      FlatMapConcat(f, a[1..], b);
      assert (a + b)[1..] == a[1..] + b;
      assert f(a[0]) + (FlatMap(f, a[1..]) + FlatMap(f, b)) == (f(a[0]) + FlatMap(f, a[1..])) + FlatMap(f, b);
    }
  }

  lemma FlatMapOne<A, B>(f: A -> seq<B>, x: A)
    ensures FlatMap(f, [x]) == f(x)
  {
    assert [x][1..] == [];
    assert f(x) + [] == f(x);
  }
}

module Sets {

  /** Two sets that differ in one element only differ in size by what they do with it. */
  lemma SizeBut<T>(a: set<T>, b: set<T>, x: T)
    requires a - {x} == b - {x}
    ensures |b| == |a| - (if x in a then 1 else 0) + (if x in b then 1 else 0)
  {
    assert x in a ==> a == (a - {x}) + {x};
    assert x in b ==> b == (b - {x}) + {x};
    assert x !in a ==> a == a - {x};
    assert x !in b ==> b == b - {x};
  }

  lemma {:induction false} SameSize<T>(a: set<T>, b: set<T>)
    requires a <= b && |a| >= |b|
    ensures a == b
  {
    if a != {} {
      var x :| x in a;
      SameSize(a - {x}, b - {x});
    }
  }

  lemma {:induction false} Smaller<T>(a: set<T>, b: set<T>)
    requires a <= b
    ensures |a| <= |b|
  {
    if a != {} {
      var x :| x in a;
      Smaller(a - {x}, b - {x});
    }
  }

  lemma Larger<T>(a: set<T>, b: set<T>)
    requires a <= b && a != b
    ensures |a| < |b|
  {
    if |a| >= |b| {
      SameSize(a, b);
    }
  }

  function Below(n: nat): (a: set<nat>)
    ensures |a| <= n && forall x: nat :: x in a <==> x < n
  {
    if n == 0 then {} else Below(n - 1) + {n - 1}
  }
}

/** Following edges between the numbers below some size. */
module Reachability {
  import opened Sets

  type Edge = (nat, nat) -> bool

  /** Along at most `n` edges from `x` there is a goal. */
  predicate Reaches(size: nat, goal: nat -> bool, edge: Edge, x: nat, n: nat)
    decreases n
  {
    && x < size
    && (goal(x) || (n > 0 && exists y: nat | y < size :: edge(x, y) && Reaches(size, goal, edge, y, n - 1)))
  }

  function Level(size: nat, goal: nat -> bool, edge: Edge, n: nat): set<nat> {
    set x: nat | x < size && Reaches(size, goal, edge, x, n)
  }

  lemma {:induction false} ReachesMore(size: nat, goal: nat -> bool, edge: Edge, x: nat, m: nat, n: nat)
    requires Reaches(size, goal, edge, x, m) && m <= n
    ensures Reaches(size, goal, edge, x, n)
    decreases m
  {
    if !goal(x) {
      var y: nat :| y < size && edge(x, y) && Reaches(size, goal, edge, y, m - 1);
      ReachesMore(size, goal, edge, y, m - 1, n - 1);
    }
  }

  lemma LevelGrows(size: nat, goal: nat -> bool, edge: Edge, m: nat, n: nat)
    requires m <= n
    ensures Level(size, goal, edge, m) <= Level(size, goal, edge, n) <= Below(size)
  {
    forall x | x in Level(size, goal, edge, m) ensures x in Level(size, goal, edge, n) {
      ReachesMore(size, goal, edge, x, m, n);
    }
  }

  /** Once a level adds nothing, nothing is added any more. */
  lemma {:induction false} Stays(size: nat, goal: nat -> bool, edge: Edge, x: nat, k: nat, n: nat)
    requires Level(size, goal, edge, k + 1) == Level(size, goal, edge, k) && Reaches(size, goal, edge, x, n)
    ensures Reaches(size, goal, edge, x, k)
    decreases n
  {
    if n <= k {
      ReachesMore(size, goal, edge, x, n, k);
    } else if !goal(x) {
      var y: nat :| y < size && edge(x, y) && Reaches(size, goal, edge, y, n - 1);
      Stays(size, goal, edge, y, k, n - 1);
      assert x in Level(size, goal, edge, k + 1);
    }
  }

  /** Every level adds something, or there is an end before it. */
  lemma {:induction false} GrowsOrStops(size: nat, goal: nat -> bool, edge: Edge, n: nat) returns (k: nat)
    ensures k <= n
    ensures || Level(size, goal, edge, k + 1) == Level(size, goal, edge, k)
            || (k == n && |Level(size, goal, edge, n)| >= n)
  {
    if n == 0 {
      k := 0;
    } else {
      k := GrowsOrStops(size, goal, edge, n - 1);
      if Level(size, goal, edge, k + 1) != Level(size, goal, edge, k) {
        LevelGrows(size, goal, edge, n - 1, n);
        Larger(Level(size, goal, edge, n - 1), Level(size, goal, edge, n));
        k := n;
      }
    }
  }

  /** What can be reached at all is reached along no more edges than there are numbers. */
  lemma ReachesWithin(size: nat, goal: nat -> bool, edge: Edge, x: nat, n: nat)
    requires Reaches(size, goal, edge, x, n)
    ensures Reaches(size, goal, edge, x, size)
  {
    var k := GrowsOrStops(size, goal, edge, size);
    if Level(size, goal, edge, k + 1) == Level(size, goal, edge, k) {
      Stays(size, goal, edge, x, k, n);
      ReachesMore(size, goal, edge, x, k, size);
    } else {
      LevelGrows(size, goal, edge, size, size);
      SameSize(Level(size, goal, edge, size), Below(size));
      assert x in Below(size);
    }
  }
}
