/** The byte-wise order on identifiers, which breaks ties between equally old ones. */
module Order {
  predicate Less(a: string, b: string) {
    b != [] && (a == [] || a[0] < b[0] || (a[0] == b[0] && Less(a[1..], b[1..])))
  }

  lemma {:induction false} LessTotal(a: string, b: string)
    ensures a == b || Less(a, b) || Less(b, a)
  {
    if a != [] && b != [] && a[0] == b[0] {
      LessTotal(a[1..], b[1..]);
      assert a == [a[0]] + a[1..] && b == [b[0]] + b[1..];
    }
  }

  lemma {:induction false} LessAsymmetric(a: string, b: string)
    requires Less(a, b)
    ensures !Less(b, a) && a != b
  {
    if a != [] && a[0] == b[0] {
      LessAsymmetric(a[1..], b[1..]);
    }
  }

  lemma {:induction false} LessTransitive(a: string, b: string, c: string)
    requires Less(a, b) && Less(b, c)
    ensures Less(a, c)
  {
    if a != [] && a[0] == b[0] == c[0] {
      LessTransitive(a[1..], b[1..], c[1..]);
    }
  }

  /** A part is no larger than the whole, and smaller when something is missing from it. */
  lemma SubsetSize<T>(a: set<T>, b: set<T>)
    requires a <= b
    ensures |a| <= |b|
    ensures a != b ==> |a| < |b|
  {
    assert b == a + (b - a);
    assert |b| == |a| + |b - a|;
    if a != b {
      var x :| x in b && x !in a;
      assert x in b - a;
    }
  }

  /** The strings agree up to `k`, where the first ends or has the smaller character. */
  predicate PartAt(a: string, b: string, k: nat) {
    k <= |a| && k < |b| && a[..k] == b[..k] && (k == |a| || a[k] < b[k])
  }

  /** Lexical order: a proper prefix comes first, and otherwise the first difference decides. */
  lemma {:induction false} LessExactlyWhen(a: string, b: string)
    ensures Less(a, b) <==> exists k: nat :: PartAt(a, b, k)
  {
    if a == [] {
      assert b != [] ==> PartAt(a, b, 0);
    } else if b != [] {
      LessExactlyWhen(a[1..], b[1..]);
      assert a[0] < b[0] ==> PartAt(a, b, 0);
      if a[0] == b[0] {
        forall k: nat | PartAt(a[1..], b[1..], k)
          ensures PartAt(a, b, k + 1)
        {
          assert a[..k + 1] == [a[0]] + a[1..][..k] && b[..k + 1] == [b[0]] + b[1..][..k];
        }
      }
      forall k: nat | k > 0 && PartAt(a, b, k)
        ensures a[0] == b[0] && PartAt(a[1..], b[1..], k - 1)
      {
        assert a[0] == a[..k][0] == b[..k][0] == b[0];
        assert a[1..][..k - 1] == a[..k][1..] && b[1..][..k - 1] == b[..k][1..];
      }
    }
  }
}
