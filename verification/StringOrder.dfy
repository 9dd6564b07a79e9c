/** The order of text identifiers. */
module StringOrder {
  import opened Sorting

  predicate TextLess(a: string, b: string) {
    b != [] && (a == [] || a[0] < b[0] || (a[0] == b[0] && TextLess(a[1..], b[1..])))
  }

  function TextOrder(): (string, string) -> bool {
    (a: string, b: string) => TextLess(a, b)
  }

  /** Where two texts part: at the first character that differs, or where the shorter one ends. */
  predicate PartsAt(a: string, b: string, k: nat) {
    k <= |a| && k <= |b| && a[..k] == b[..k] && k < |b| && (k == |a| || a[k] < b[k])
  }

  /** The order is the lexicographic one. */
  lemma {:induction false} TextLessIff(a: string, b: string)
    ensures TextLess(a, b) <==> exists k: nat :: PartsAt(a, b, k)
  {
    if b != [] && a != [] && a[0] == b[0] {
      TextLessIff(a[1..], b[1..]);
      if k: nat :| PartsAt(a[1..], b[1..], k) {
        assert a[..k + 1] == [a[0]] + a[1..][..k] && b[..k + 1] == [b[0]] + b[1..][..k];
        assert PartsAt(a, b, k + 1);
      }
      if k: nat :| PartsAt(a, b, k) {
        assert k > 0;
        assert a[1..][..k - 1] == a[..k][1..] && b[1..][..k - 1] == b[..k][1..];
        assert PartsAt(a[1..], b[1..], k - 1);
      }
    } else if TextLess(a, b) {
      assert PartsAt(a, b, 0);
    } else {
      forall k: nat
        ensures !PartsAt(a, b, k)
      {
        if 0 < k <= |a| && k <= |b| {
          assert a[..k][0] == a[0] && b[..k][0] == b[0];
        }
      }
    }
  }

  lemma {:induction false} TextTotal(a: string, b: string)
    ensures TextLess(a, b) || TextLess(b, a) || a == b
    ensures !(TextLess(a, b) && TextLess(b, a))
  {
    if a != [] && b != [] && a[0] == b[0] {
      TextTotal(a[1..], b[1..]);
      assert a == [a[0]] + a[1..] && b == [b[0]] + b[1..];
    }
  }

  lemma {:induction false} TextBetween(a: string, b: string, c: string)
    requires TextLess(a, c)
    ensures TextLess(a, b) || TextLess(b, c)
  {
    if a != [] && b != [] && a[0] == b[0] == c[0] {
      TextBetween(a[1..], b[1..], c[1..]);
    }
  }

  lemma TextOrderIsStrictWeak()
    ensures StrictWeakOrder(TextOrder())
  {
    forall a: string, b: string | TextLess(a, b)
      ensures !TextLess(b, a)
    {
      TextTotal(a, b);
    }
    forall a: string, b: string, c: string | TextLess(a, c)
      ensures TextLess(a, b) || TextLess(b, c)
    {
      TextBetween(a, b, c);
    }
  }
}
