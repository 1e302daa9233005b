/**
 Sorting attributes by their translation, as the inactive list is sorted with
 `a.translation.localeCompare(b.translation)`.

 `localeCompare` depends on the user's locale, so it is a parameter here:
 `leq(a, b)` stands for `a.localeCompare(b) <= 0`. All that is assumed of it
 is that it is a total preorder (distinct strings may compare equal). The
 sort below is one concrete algorithm; `SortedPermutationsAgree` shows that
 any other sort under the same comparison (the browser's, stable or not)
 produces the same order up to strings that compare equal.
 */
module TranslationSort {
  import opened TypeFormModel

  /** `leq` is total and transitive: what `localeCompare` guarantees. */
  ghost predicate IsCollation(leq: (string, string) -> bool) {
    && (forall a, b :: leq(a, b) || leq(b, a))
    && (forall a, b, c :: leq(a, b) && leq(b, c) ==> leq(a, c))
  }

  /** Two attributes whose translations compare equal. */
  ghost predicate Tied(leq: (string, string) -> bool, x: Attribute, y: Attribute) {
    leq(x.translation, y.translation) && leq(y.translation, x.translation)
  }

  ghost predicate SortedByTranslation(leq: (string, string) -> bool, s: seq<Attribute>) {
    forall i, j :: 0 <= i < j < |s| ==> leq(s[i].translation, s[j].translation)
  }

  /** Putting an element in front of a sorted sequence whose elements all
      compare after it keeps it sorted. */
  lemma ConsSorted(leq: (string, string) -> bool, h: Attribute, t: seq<Attribute>)
    requires SortedByTranslation(leq, t)
    requires forall j :: 0 <= j < |t| ==> leq(h.translation, t[j].translation)
    ensures SortedByTranslation(leq, [h] + t)
  {
    var r := [h] + t;
    forall i, j | 0 <= i < j < |r| ensures leq(r[i].translation, r[j].translation) {
      assert r[j] == t[j - 1];
      if i > 0 {
        assert r[i] == t[i - 1];
      }
    }
  }

  /** Inserts `x` into a sorted sequence, before the first element it does
      not compare after. */
  function Insert(leq: (string, string) -> bool, x: Attribute, s: seq<Attribute>): (r: seq<Attribute>)
    requires IsCollation(leq)
    requires SortedByTranslation(leq, s)
    ensures SortedByTranslation(leq, r)
    ensures multiset(r) == multiset(s) + multiset{x}
    ensures forall j :: 0 <= j < |r| ==> r[j] == x || r[j] in s
  {
    if s == [] then [x]
    else if leq(x.translation, s[0].translation) then
      ConsSorted(leq, x, s);
      [x] + s
    else
      var tail := Insert(leq, x, s[1..]);
      assert s == [s[0]] + s[1..];
      forall j | 0 <= j < |tail| ensures leq(s[0].translation, tail[j].translation) {
        if tail[j] != x {
          var k :| 0 <= k < |s[1..]| && s[1..][k] == tail[j];
          assert s[k + 1] == tail[j];
        }
      }
      ConsSorted(leq, s[0], tail);
      [s[0]] + tail
  }

  /** Sorts attributes by translation (insertion sort). */
  function Sort(leq: (string, string) -> bool, s: seq<Attribute>): (r: seq<Attribute>)
    requires IsCollation(leq)
    ensures SortedByTranslation(leq, r)
    ensures multiset(r) == multiset(s)
  {
    if s == [] then []
    else
      assert s == [s[0]] + s[1..];
      Insert(leq, s[0], Sort(leq, s[1..]))
  }

  /** Removing one element keeps a sequence sorted. */
  lemma RemoveKeepsSorted(leq: (string, string) -> bool, s: seq<Attribute>, k: nat)
    requires k < |s|
    requires SortedByTranslation(leq, s)
    ensures SortedByTranslation(leq, s[..k] + s[k + 1..])
  {
    var t := s[..k] + s[k + 1..];
    forall i, j | 0 <= i < j < |t| ensures leq(t[i].translation, t[j].translation) {
      var i' := if i < k then i else i + 1;
      var j' := if j < k then j else j + 1;
      assert t[i] == s[i'] && t[j] == s[j'];
    }
  }

  /** Dropping the first element keeps a sequence sorted. */
  lemma SortedTail(leq: (string, string) -> bool, s: seq<Attribute>)
    requires s != [] && SortedByTranslation(leq, s)
    ensures SortedByTranslation(leq, s[1..])
  {
    forall i, j | 0 <= i < j < |s[1..]| ensures leq(s[1..][i].translation, s[1..][j].translation) {
      assert s[1..][i] == s[i + 1] && s[1..][j] == s[j + 1];
    }
  }

  /** Taking the first element of `a` out of `b` where it sits leaves a
      rearrangement of the rest of `a`. */
  lemma RemoveMatchingHead(a: seq<Attribute>, b: seq<Attribute>, k: nat)
    requires a != [] && k < |b| && b[k] == a[0]
    requires multiset(a) == multiset(b)
    ensures multiset(b[..k] + b[k + 1..]) == multiset(a[1..])
  {
    assert b == b[..k] + [b[k]] + b[k + 1..];
    assert a == [a[0]] + a[1..];
    calc {
      multiset(b[..k] + b[k + 1..]) + multiset{a[0]};
      multiset(b[..k]) + multiset{b[k]} + multiset(b[k + 1..]);
      multiset(b[..k] + [b[k]] + b[k + 1..]);
      multiset(a);
      multiset(a[1..]) + multiset{a[0]};
    }
    var x, y := multiset(b[..k] + b[k + 1..]), multiset(a[1..]);
    assert x == (x + multiset{a[0]}) - multiset{a[0]};
    assert y == (y + multiset{a[0]}) - multiset{a[0]};
  }

  /** The first elements of two sorted arrangements of the same attributes tie:
      each is a least element of the other. */
  lemma HeadsTie(leq: (string, string) -> bool, a: seq<Attribute>, b: seq<Attribute>)
    requires IsCollation(leq)
    requires a != [] && b != []
    requires SortedByTranslation(leq, a) && SortedByTranslation(leq, b)
    requires multiset(a) == multiset(b)
    ensures Tied(leq, a[0], b[0])
  {
    assert a[0] in multiset(b);
    var k :| 0 <= k < |b| && b[k] == a[0];
    assert b[0] in multiset(a);
    var m :| 0 <= m < |a| && a[m] == b[0];
    if k != 0 {
      assert leq(b[0].translation, b[k].translation);
    }
    if m != 0 {
      assert leq(a[0].translation, a[m].translation);
    }
  }

  /** An element squeezed between two tied elements ties with both. */
  lemma Squeezed(leq: (string, string) -> bool, x: Attribute, y: Attribute, z: Attribute)
    requires IsCollation(leq)
    requires leq(x.translation, y.translation) && leq(y.translation, z.translation)
    requires leq(z.translation, x.translation)
    ensures Tied(leq, x, y) && Tied(leq, y, z)
  {
  }

  /** Any two sorted arrangements of the same attributes agree position by
      position up to ties: the order of the inactive list does not depend on
      which sorting algorithm produced it. */
  lemma {:induction false} SortedPermutationsAgree(leq: (string, string) -> bool, a: seq<Attribute>, b: seq<Attribute>)
    requires IsCollation(leq)
    requires SortedByTranslation(leq, a) && SortedByTranslation(leq, b)
    requires multiset(a) == multiset(b)
    ensures |a| == |b|
    ensures forall i :: 0 <= i < |a| ==> Tied(leq, a[i], b[i])
    decreases |a|
  {
    assert |a| == |multiset(a)| == |multiset(b)| == |b|;
    if a != [] {
      // Take a[0] out of b, where it sits at k, and compare the rests.
      assert a[0] in multiset(b);
      var k :| 0 <= k < |b| && b[k] == a[0];
      var b' := b[..k] + b[k + 1..];
      RemoveMatchingHead(a, b, k);
      RemoveKeepsSorted(leq, b, k);
      SortedTail(leq, a);
      SortedPermutationsAgree(leq, a[1..], b');
      HeadsTie(leq, a, b);
      forall i | 0 < i < |a| ensures Tied(leq, a[i], b[i]) {
        assert Tied(leq, a[1..][i - 1], b'[i - 1]);
        assert a[1..][i - 1] == a[i];
        if i <= k {
          // b[i - 1] <= b[i] <= b[k] == a[0] <= a[i], and a[i] ties with b[i - 1].
          assert b'[i - 1] == b[i - 1];
          assert leq(b[i - 1].translation, b[i].translation);
          assert leq(b[i].translation, a[i].translation) by {
            if i < k {
              assert leq(b[i].translation, b[k].translation);
            }
            assert leq(a[0].translation, a[i].translation);
          }
          Squeezed(leq, b[i - 1], b[i], a[i]);
        } else {
          assert b'[i - 1] == b[i];
        }
      }
    }
  }

  /** When the comparison is antisymmetric on strings (a total order), sorted
      arrangements of the same attributes list the same translations. */
  lemma SortedTranslationsUnique(leq: (string, string) -> bool, a: seq<Attribute>, b: seq<Attribute>)
    requires IsCollation(leq)
    requires forall x, y :: leq(x, y) && leq(y, x) ==> x == y
    requires SortedByTranslation(leq, a) && SortedByTranslation(leq, b)
    requires multiset(a) == multiset(b)
    ensures |a| == |b|
    ensures forall i :: 0 <= i < |a| ==> a[i].translation == b[i].translation
  {
    SortedPermutationsAgree(leq, a, b);
  }
}
