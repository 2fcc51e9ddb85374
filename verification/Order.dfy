/**
 Strict total orders and their lexicographic lifting.

 Three orders of the resolver are instances of the one lifting: NSEC3 hashes are compared
 octet by octet, names label by label (each label octet by octet), and log timestamps
 character by character.
 */
module Order {

  ghost predicate StrictTotal<T(!new)>(lt: (T, T) -> bool) {
    && (forall x :: !lt(x, x))
    && (forall x, y, z :: lt(x, y) && lt(y, z) ==> lt(x, z))
    && (forall x, y :: x == y || lt(x, y) || lt(y, x))
  }

  /** `a` comes before `b` as a left-justified sequence; a proper prefix comes first. */
  predicate LexLess<T(==)>(lt: (T, T) -> bool, a: seq<T>, b: seq<T>) {
    if b == [] then false
    else if a == [] then true
    else lt(a[0], b[0]) || (a[0] == b[0] && LexLess(lt, a[1..], b[1..]))
  }

  lemma {:induction false} LexIrreflexive<T(!new)>(lt: (T, T) -> bool, a: seq<T>)
    requires StrictTotal(lt)
    ensures !LexLess(lt, a, a)
  {
    if a != [] {
      LexIrreflexive(lt, a[1..]);
    }
  }

  lemma {:induction false} LexTransitive<T(!new)>(lt: (T, T) -> bool, a: seq<T>, b: seq<T>, c: seq<T>)
    requires StrictTotal(lt)
    requires LexLess(lt, a, b) && LexLess(lt, b, c)
    ensures LexLess(lt, a, c)
  {
    if a != [] && a[0] == b[0] && b[0] == c[0] {
      assert LexLess(lt, a[1..], b[1..]) && LexLess(lt, b[1..], c[1..]);
      LexTransitive(lt, a[1..], b[1..], c[1..]);
    }
  }

  lemma {:induction false} LexConnected<T(!new)>(lt: (T, T) -> bool, a: seq<T>, b: seq<T>)
    requires StrictTotal(lt)
    ensures a == b || LexLess(lt, a, b) || LexLess(lt, b, a)
  {
    if a != [] && b != [] && a[0] == b[0] {
      LexConnected(lt, a[1..], b[1..]);
      assert a == [a[0]] + a[1..] && b == [b[0]] + b[1..];
    }
  }

  /** Lifting a strict total order gives a strict total order. */
  lemma LexLifts<T(!new)>(lt: (T, T) -> bool, less: (seq<T>, seq<T>) -> bool)
    requires StrictTotal(lt)
    requires forall a, b :: less(a, b) == LexLess(lt, a, b)
    ensures StrictTotal(less)
  {
    forall a ensures !less(a, a) {
      LexIrreflexive(lt, a);
    }
    forall a, b, c | less(a, b) && less(b, c) ensures less(a, c) {
      LexTransitive(lt, a, b, c);
    }
    forall a, b ensures a == b || less(a, b) || less(b, a) {
      LexConnected(lt, a, b);
    }
  }

  /** Comparing two concatenations whose first parts have equal length. */
  lemma {:induction false} LexConcat<T(!new)>(lt: (T, T) -> bool, a: seq<T>, b: seq<T>, x: seq<T>, y: seq<T>)
    requires StrictTotal(lt)
    requires |a| == |b|
    ensures LexLess(lt, a + x, b + y) == (LexLess(lt, a, b) || (a == b && LexLess(lt, x, y)))
  {
    if a == [] {
      assert a + x == x && b + y == y;
    } else {
      assert (a + x)[1..] == a[1..] + x && (b + y)[1..] == b[1..] + y;
      assert a == b <==> a[0] == b[0] && a[1..] == b[1..] by {
        assert a == [a[0]] + a[1..] && b == [b[0]] + b[1..];
      }
      LexConcat(lt, a[1..], b[1..], x, y);
    }
  }

  /** Sequences with a common prefix are neighbours. */
  lemma {:induction false} LexNeighbours<T(!new)>(lt: (T, T) -> bool, p: seq<T>, a: seq<T>, b: seq<T>, c: seq<T>)
    requires StrictTotal(lt) && p <= a && p <= c && !LexLess(lt, b, a) && !LexLess(lt, c, b)
    ensures p <= b
  {
    if p != [] {
      assert a[0] == p[0] == c[0] && b != [] && b[0] == a[0];
      LexNeighbours(lt, p[1..], a[1..], b[1..], c[1..]);
      assert p == [p[0]] + p[1..] && b == [b[0]] + b[1..];
    }
  }

  predicate IntLess(x: int, y: int) {
    x < y
  }
}
