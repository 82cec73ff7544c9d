/**
 * The implemented parts of the path-finding engine: the (start, target) cache
 * key with Java's `equals`/`hashCode`, and path reconstruction from a map of
 * parent pointers.
 */
module PathfindingAlgorithms {
  import opened Wrappers

  // ---------------------------------------------------------------------------
  // PathQuery

  /** A directional query key: (a, b) and (b, a) are different keys. */
  datatype PathQuery = PathQuery(start: int, target: int)

  /**
   * Java's `equals`; `None` stands for `null` or an object of another class,
   * which never compare equal.
   */
  function Equals(q: PathQuery, other: Option<PathQuery>): (r: bool)
    ensures r <==> other == Some(q)
  {
    match other
    case None => false
    case Some(p) => q.start == p.start && q.target == p.target
  }

  lemma EqualsIsEquivalence(p: PathQuery, q: PathQuery, s: PathQuery)
    ensures Equals(p, Some(p))
    ensures Equals(p, Some(q)) <==> Equals(q, Some(p))
    ensures Equals(p, Some(q)) && Equals(q, Some(s)) ==> Equals(p, Some(s))
    ensures !Equals(p, None)
  {
  }

  /** Swapping the endpoints gives an equal key only when they coincide. */
  lemma QueryOrderSensitive(a: int, b: int)
    ensures Equals(PathQuery(a, b), Some(PathQuery(b, a))) <==> a == b
  {
  }

  const TwoTo31: int := 0x8000_0000
  const TwoTo32: int := 0x1_0000_0000

  predicate IsInt32(x: int)
  {
    -TwoTo31 <= x < TwoTo31
  }

  /** Two's-complement wrap-around of Java `int` arithmetic. */
  function Wrap32(x: int): (r: int)
    ensures IsInt32(r)
  {
    (x + TwoTo31) % TwoTo32 - TwoTo31
  }

  lemma Wrap32Periodic(x: int, k: int)
    ensures Wrap32(x + k * TwoTo32) == Wrap32(x)
  {
    var y := x + TwoTo31;
    var q, r := y / TwoTo32, y % TwoTo32;
    assert y + k * TwoTo32 == (q + k) * TwoTo32 + r;
  }

  lemma Wrap32OfInt32(x: int)
    requires IsInt32(x)
    ensures Wrap32(x) == x
  {
  }

  /**
   * `Objects.hash(start, target)`: the accumulator starts at 1 and absorbs each
   * field as `31 * acc + field`, in 32-bit arithmetic.
   */
  function HashCode(q: PathQuery): (h: int)
    ensures IsInt32(h)
    ensures h == Wrap32(961 + 31 * q.start + q.target)
  {
    var acc := Wrap32(31 * 1 + q.start);
    var y := 31 + q.start + TwoTo31;
    assert acc == 31 + q.start - (y / TwoTo32) * TwoTo32;
    Wrap32Periodic(961 + 31 * q.start + q.target, -31 * (y / TwoTo32));
    Wrap32(31 * acc + q.target)
  }

  /** Keys that are equal hash equally, as Java's hash-map contract demands. */
  lemma HashCodeConsistent(p: PathQuery, q: PathQuery)
    requires Equals(p, Some(q))
    ensures HashCode(p) == HashCode(q)
  {
  }

  // ---------------------------------------------------------------------------
  // Path reconstruction

  /** The node reached from `x` by following `k` parent links, if the chain is that long. */
  function Ancestor(parents: map<int, int>, x: int, k: nat): Option<int>
    decreases k
  {
    if k == 0 then Some(x)
    else
      match Ancestor(parents, x, k - 1)
      case None => None
      case Some(y) => if y in parents then Some(parents[y]) else None
  }

  /**
   * The reconstruction loop, started at `current`, stops after at most `n`
   * successful parent lookups: it stops on reaching `start`, or right after
   * a node without a parent.
   */
  ghost predicate StopsWithin(parents: map<int, int>, start: int, current: int, n: nat)
    decreases n
  {
    || current == start
    || current !in parents
    || (n > 0 && StopsWithin(parents, start, parents[current], n - 1))
  }

  /** The loop terminates: the chain from `target` reaches `start` or a node without parent. */
  ghost predicate Terminates(parents: map<int, int>, start: int, target: int)
  {
    exists n: nat :: StopsWithin(parents, start, target, n)
  }

  /** `k` is the number of links after which the chain from `x` first reaches `s`. */
  ghost predicate FirstReach(parents: map<int, int>, x: int, s: int, k: nat)
  {
    Ancestor(parents, x, k) == Some(s) && forall j :: 0 <= j < k ==> Ancestor(parents, x, j) != Some(s)
  }

  lemma {:induction false} AncestorNoneStays(parents: map<int, int>, x: int, m: nat, k: nat)
    requires Ancestor(parents, x, m) == None && m <= k
    ensures Ancestor(parents, x, k) == None
    decreases k - m
  {
    if m < k {
      AncestorNoneStays(parents, x, m, k - 1);
    }
  }

  /**
   * If the chain from `x` comes back to a node it passed, with no stop on the
   * way, it never stops: a parent cycle that avoids `start` loops forever.
   */
  lemma {:induction false} CycleNeverStops(parents: map<int, int>, start: int, x: int, i: nat, len: nat, q: nat, n: nat)
    requires i <= q < len
    requires forall m :: i <= m < len ==>
               Ancestor(parents, x, m).Some? && Ancestor(parents, x, m).value != start && Ancestor(parents, x, m).value in parents
    requires Ancestor(parents, x, len) == Ancestor(parents, x, i)
    ensures !StopsWithin(parents, start, Ancestor(parents, x, q).value, n)
    decreases n
  {
    if n > 0 {
      if q + 1 < len {
        CycleNeverStops(parents, start, x, i, len, q + 1, n - 1);
      } else {
        CycleNeverStops(parents, start, x, i, len, i, n - 1);
      }
    }
  }

  /** The node the loop is about to prepend is not yet on the walked path. */
  lemma NextIsFresh(parents: map<int, int>, start: int, target: int, path: seq<int>, c: int, fuel: nat)
    requires forall i :: 0 <= i < |path| ==> Ancestor(parents, target, |path| - 1 - i) == Some(path[i])
    requires forall i :: 0 <= i < |path| ==> path[i] != start && path[i] in parents
    requires Ancestor(parents, target, |path|) == Some(c)
    requires StopsWithin(parents, start, c, fuel)
    ensures c !in path
  {
    if c in path {
      var i :| 0 <= i < |path| && path[i] == c;
      var len := |path|;
      forall m | len - 1 - i <= m < len
        ensures Ancestor(parents, target, m).Some? && Ancestor(parents, target, m).value != start
        ensures Ancestor(parents, target, m).value in parents
      {
        assert Ancestor(parents, target, m) == Some(path[len - 1 - m]);
      }
      CycleNeverStops(parents, start, target, len - 1 - i, len, len - 1 - i, fuel);
    }
  }

  /**
   * The walked path, read from the back, is the parent chain of `target`; it
   * stops at `start` or at a node without parent and passes `start` nowhere
   * else. That pins down when the chain first reaches `start`.
   */
  lemma PathDeterminesReach(parents: map<int, int>, start: int, target: int, path: seq<int>)
    requires |path| >= 1
    requires forall i :: 0 <= i < |path| ==> Ancestor(parents, target, |path| - 1 - i) == Some(path[i])
    requires forall i :: 0 < i < |path| ==> path[i] != start
    requires path[0] == start || path[0] !in parents
    ensures path[0] != start ==> forall k: nat :: Ancestor(parents, target, k) != Some(start)
    ensures forall k: nat :: FirstReach(parents, target, start, k) <==> path[0] == start && k == |path| - 1
  {
    var len := |path|;
    assert forall j :: 0 <= j < len - 1 ==> Ancestor(parents, target, j) == Some(path[len - 1 - j]);
    if path[0] != start {
      assert Ancestor(parents, target, len - 1) == Some(path[0]);
      assert Ancestor(parents, target, len) == None;
      forall k: nat
        ensures Ancestor(parents, target, k) != Some(start)
      {
        if k >= len {
          AncestorNoneStays(parents, target, len, k);
        } else {
          assert Ancestor(parents, target, k) == Some(path[len - 1 - k]);
        }
      }
    } else {
      assert Ancestor(parents, target, len - 1) == Some(start);
      assert forall j :: 0 <= j < len - 1 ==> Ancestor(parents, target, j) != Some(start);
    }
  }

  /**
   * Walks the parent pointers back from `target`, prepending each node, until
   * it reaches `start` or a node without parent. Only in the first case is
   * `start` put in front: a broken chain yields the walked part, not an empty
   * path. The requires clause is exactly the condition under which the
   * loop terminates.
   */
  method ReconstructPath(parents: map<int, int>, start: int, target: int) returns (path: seq<int>)
    requires Terminates(parents, start, target)
    ensures |path| >= 1 && path[|path| - 1] == target
    ensures start == target ==> path == [start]
    ensures forall i :: 0 <= i < |path| ==> Ancestor(parents, target, |path| - 1 - i) == Some(path[i])
    ensures forall i :: 0 < i < |path| ==> path[i] in parents && parents[path[i]] == path[i - 1]
    ensures forall i, j :: 0 <= i < j < |path| ==> path[i] != path[j]
    ensures forall k: nat :: FirstReach(parents, target, start, k) <==> path[0] == start && |path| == k + 1
    ensures path[0] != start ==> path[0] !in parents && start !in path
    ensures path[0] != start <==> forall k: nat :: Ancestor(parents, target, k) != Some(start)
  {
    ghost var fuel: nat :| StopsWithin(parents, start, target, fuel);
    path := [];
    var current: Option<int> := Some(target);
    while current.Some? && current.value != start
      invariant current.Some? ==> Ancestor(parents, target, |path|) == current
      invariant current.Some? ==> StopsWithin(parents, start, current.value, fuel)
      invariant current.Some? ==> forall i :: 0 <= i < |path| ==> path[i] in parents
      invariant current.None? ==> |path| > 0 && path[0] !in parents
      invariant forall i :: 0 <= i < |path| ==> Ancestor(parents, target, |path| - 1 - i) == Some(path[i])
      invariant forall i :: 0 <= i < |path| ==> path[i] != start
      invariant forall i :: 0 < i < |path| ==> path[i] in parents && parents[path[i]] == path[i - 1]
      invariant forall i, j :: 0 <= i < j < |path| ==> path[i] != path[j]
      decreases if current.Some? then fuel + 1 else 0
    {
      var c := current.value;
      NextIsFresh(parents, start, target, path, c, fuel);
      path := [c] + path;
      if c in parents {
        current := Some(parents[c]);
        fuel := fuel - 1;
      } else {
        current := None;
      }
    }
    if current.Some? {
      path := [start] + path;
    }
    PathDeterminesReach(parents, start, target, path);
  }
}
