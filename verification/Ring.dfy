/**
 Cyclic intervals over a strict total order: the shape shared by NSEC chains (canonical name
 order) and NSEC3 chains (octet order of hashes).
 */
module Ring {
  import opened Order

  ghost predicate Sorted<T(!new)>(lt: (T, T) -> bool, points: seq<T>) {
    forall i, j :: 0 <= i < j < |points| ==> lt(points[i], points[j])
  }

  /** The open interval from `owner` to `next`, wrapping when `next` does not come after `owner`. */
  predicate Between<T>(lt: (T, T) -> bool, owner: T, next: T, x: T) {
    if lt(owner, next) then lt(owner, x) && lt(x, next) else lt(owner, x) || lt(x, next)
  }

  function Successor(i: nat, n: nat): (r: nat)
    requires i < n
    ensures r < n
  {
    if i + 1 == n then 0 else i + 1
  }

  /** An interval of the ring contains no point of the ring. */
  lemma IntervalMissesPoints<T(!new)>(lt: (T, T) -> bool, points: seq<T>, i: nat, x: T)
    requires StrictTotal(lt) && Sorted(lt, points)
    requires i < |points|
    requires Between(lt, points[i], points[Successor(i, |points|)], x)
    ensures x !in points
  {
    forall k | 0 <= k < |points| ensures points[k] != x {
      assert k == i || lt(points[k], points[i]) || lt(points[i], points[k]);
    }
  }

  /** Any value that is not a point lies in an interval. */
  lemma {:induction false} IntervalExists<T(!new)>(lt: (T, T) -> bool, points: seq<T>, x: T) returns (i: nat)
    requires StrictTotal(lt) && Sorted(lt, points)
    requires points != [] && x !in points
    ensures i < |points| && Between(lt, points[i], points[Successor(i, |points|)], x)
  {
    if lt(x, points[0]) {
      i := |points| - 1;
    } else {
      i := 0;
      while i + 1 < |points| && lt(points[i + 1], x)
        invariant i < |points| && lt(points[i], x)
      {
        i := i + 1;
      }
      if i + 1 < |points| {
        assert points[i + 1] in points;
      } else if |points| > 1 {
        assert lt(points[0], points[i]);
      }
    }
  }

  lemma IntervalOrdered<T(!new)>(lt: (T, T) -> bool, points: seq<T>, x: T, i: nat, j: nat)
    requires StrictTotal(lt) && Sorted(lt, points)
    requires i < j < |points|
    requires Between(lt, points[i], points[i + 1], x)
    ensures !Between(lt, points[j], points[Successor(j, |points|)], x)
  {
    assert lt(points[i], points[i + 1]) && lt(points[i], points[j]);
    assert i + 1 == j || lt(points[i + 1], points[j]);
    var k := Successor(j, |points|);
    assert (k == 0 && i == 0) || (k == 0 && lt(points[0], points[i])) || lt(points[i], points[k]);
  }

  /** ... and in exactly one. */
  lemma IntervalUnique<T(!new)>(lt: (T, T) -> bool, points: seq<T>, x: T, i: nat, j: nat)
    requires StrictTotal(lt) && Sorted(lt, points)
    requires i < |points| && j < |points|
    requires Between(lt, points[i], points[Successor(i, |points|)], x)
    requires Between(lt, points[j], points[Successor(j, |points|)], x)
    ensures i == j
  {
    IntervalMissesPoints(lt, points, i, x);
    if i < j {
      IntervalOrdered(lt, points, x, i, j);
    } else if j < i {
      IntervalOrdered(lt, points, x, j, i);
    }
  }
}
