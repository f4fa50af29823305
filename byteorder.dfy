/**
 * Go's ordering of strings (byte by byte, a proper prefix first) and the
 * ascending listing of a set of keys that `sort.Strings` produces inside
 * url.Values.Encode.
 */
module ByteOrder {
  import opened ByteStrings

  /** `a < b` on Go strings. */
  predicate Less(a: Bytes, b: Bytes)
    decreases |a|
  {
    if |a| == 0 then |b| > 0
    else if |b| == 0 then false
    else if a[0] != b[0] then a[0] < b[0]
    else Less(a[1..], b[1..])
  }

  lemma {:induction false} LessIrreflexive(a: Bytes)
    ensures !Less(a, a)
    decreases |a|
  {
    if |a| > 0 {
      LessIrreflexive(a[1..]);
    }
  }

  lemma {:induction false} LessAsymmetric(a: Bytes, b: Bytes)
    ensures !(Less(a, b) && Less(b, a))
    decreases |a|
  {
    if |a| > 0 && |b| > 0 && a[0] == b[0] {
      LessAsymmetric(a[1..], b[1..]);
    }
  }

  lemma {:induction false} LessTransitive(a: Bytes, b: Bytes, c: Bytes)
    requires Less(a, b) && Less(b, c)
    ensures Less(a, c)
    decreases |a|
  {
    if |a| > 0 && a[0] == b[0] && b[0] == c[0] {
      LessTransitive(a[1..], b[1..], c[1..]);
    }
  }

  /** Any two different strings are ordered one way or the other. */
  lemma {:induction false} LessTotal(a: Bytes, b: Bytes)
    ensures a == b || Less(a, b) || Less(b, a)
    decreases |a|
  {
    if |a| > 0 && |b| > 0 && a[0] == b[0] {
      LessTotal(a[1..], b[1..]);
      assert a == [a[0]] + a[1..] && b == [b[0]] + b[1..];
    }
  }

  /** `k` is the smallest member of `s`. */
  predicate IsLeast(k: Bytes, s: set<Bytes>)
  {
    k in s && forall x | x in s && x != k :: Less(k, x)
  }

  lemma LeastUnique(s: set<Bytes>)
    ensures forall x, y | IsLeast(x, s) && IsLeast(y, s) :: x == y
  {
    forall x, y | IsLeast(x, s) && IsLeast(y, s)
      ensures x == y
    {
      LessAsymmetric(x, y);
    }
  }

  /** Every non-empty finite set of strings has a smallest member. */
  lemma {:induction false} LeastExists(s: set<Bytes>)
    requires s != {}
    ensures exists k :: IsLeast(k, s)
    decreases |s|
  {
    var x :| x in s;
    var rest := s - {x};
    if rest == {} {
      assert forall y | y in s :: y == x || y in rest;
      assert IsLeast(x, s);
    } else {
      LeastExists(rest);
      var m :| IsLeast(m, rest);
      LessTotal(x, m);
      if Less(x, m) {
        forall y | y in s && y != x
          ensures Less(x, y)
        {
          if y != m {
            LessTransitive(x, m, y);
          }
        }
        assert IsLeast(x, s);
      } else {
        assert IsLeast(m, s);
      }
    }
  }

  /** Every element is below every later one. */
  predicate StrictlySorted(ks: seq<Bytes>)
  {
    forall i, j | 0 <= i < j < |ks| :: Less(ks[i], ks[j])
  }

  /** The keys of a map in ascending order, as `sort.Strings` leaves them. */
  function SortedKeys(s: set<Bytes>): (ks: seq<Bytes>)
    ensures |ks| == |s|
    ensures forall k :: k in ks <==> k in s
    ensures StrictlySorted(ks)
    decreases |s|
  {
    if s == {} then []
    else
      LeastExists(s);
      LeastUnique(s);
      var k :| IsLeast(k, s);
      var rest := SortedKeys(s - {k});
      forall j | 0 <= j < |rest|
        ensures Less(k, rest[j])
      {
        assert rest[j] in s - {k};
      }
      [k] + rest
  }

  /** A strictly sorted listing of a set is unique: the order of the keys
      is determined by the keys alone. */
  lemma {:induction false} SortedUnique(xs: seq<Bytes>, ys: seq<Bytes>)
    requires StrictlySorted(xs) && StrictlySorted(ys)
    requires forall k :: k in xs <==> k in ys
    ensures xs == ys
    decreases |xs|
  {
    if xs != [] {
      assert xs[0] in xs;
    }
    if ys != [] {
      assert ys[0] in ys;
    }
    if xs != [] && ys != [] {
      assert xs[0] in ys && ys[0] in xs;
      if xs[0] != ys[0] {
        var i :| 0 <= i < |ys| && ys[i] == xs[0];
        var j :| 0 <= j < |xs| && xs[j] == ys[0];
        assert Less(ys[0], xs[0]) && Less(xs[0], ys[0]);
        LessAsymmetric(xs[0], ys[0]);
      }
      forall k
        ensures k in xs[1..] <==> k in ys[1..]
      {
        if k in xs[1..] {
          var i :| 1 <= i < |xs| && xs[i] == k;
          LessIrreflexive(xs[0]);
          assert k != ys[0] && k in ys;
          var i' :| 0 <= i' < |ys| && ys[i'] == k;
          assert ys[1..][i' - 1] == k;
        }
        if k in ys[1..] {
          var i :| 1 <= i < |ys| && ys[i] == k;
          LessIrreflexive(ys[0]);
          assert k != xs[0] && k in xs;
          var i' :| 0 <= i' < |xs| && xs[i'] == k;
          assert xs[1..][i' - 1] == k;
        }
      }
      SortedUnique(xs[1..], ys[1..]);
      assert xs == [xs[0]] + xs[1..] && ys == [ys[0]] + ys[1..];
    }
  }
}
