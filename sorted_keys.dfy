/** The sorted key lists of the keyrings: entries kept strictly increasing in bytes.Compare
    order of their key bytes, an import that inserts at the binary-search position unless
    the key is already held, and a lookup by key. */
module SortedKeys {
  import opened Bytes
  import opened Search

  /** The entries' keys strictly increase: sorted, and no key twice. */
  predicate StrictlySorted<T>(s: seq<T>, key: T -> seq<byte>) {
    forall i, j :: 0 <= i < j < |s| ==> Compare(key(s[i]), key(s[j])) < 0
  }

  /** Some entry has key k. */
  predicate Holds<T>(s: seq<T>, key: T -> seq<byte>, k: seq<byte>) {
    exists i :: 0 <= i < |s| && key(s[i]) == k
  }

  /** The number of leading entries whose key is below k: where binary search ends. */
  function Position<T>(s: seq<T>, key: T -> seq<byte>, k: seq<byte>): (i: nat)
    ensures i <= |s|
    ensures forall j :: 0 <= j < i ==> Compare(key(s[j]), k) < 0
    ensures i < |s| ==> Compare(key(s[i]), k) >= 0
  {
    if s == [] || Compare(key(s[0]), k) >= 0 then 0 else 1 + Position(s[1..], key, k)
  }

  /** Any index before which all keys are below k and at which the key is not is the
      position of k. */
  lemma {:induction false} PositionUnique<T>(s: seq<T>, key: T -> seq<byte>, k: seq<byte>, i: nat)
    requires i <= |s|
    requires forall j :: 0 <= j < i ==> Compare(key(s[j]), k) < 0
    requires i < |s| ==> Compare(key(s[i]), k) >= 0
    ensures i == Position(s, key, k)
  {
    if i > 0 {
      PositionUnique(s[1..], key, k, i - 1);
    }
  }

  /** In a sorted list, k is held exactly when the entry at its position has it. */
  lemma HeldAtPosition<T>(s: seq<T>, key: T -> seq<byte>, k: seq<byte>)
    requires StrictlySorted(s, key)
    ensures var i := Position(s, key, k);
      Holds(s, key, k) <==> i < |s| && key(s[i]) == k
  {
    var i := Position(s, key, k);
    if j :| 0 <= j < |s| && key(s[j]) == k {
      CompareZeroIffEqual(k, k);
      if j > i {
        CompareIsTotalOrder(key(s[i]), key(s[j]), k);
      }
    }
  }

  /** The import of both keyrings: x inserted at the position of its key, unless an entry
      with that key is already there. */
  function Import<T>(s: seq<T>, key: T -> seq<byte>, x: T): seq<T> {
    var i := Position(s, key, key(x));
    if i < |s| && key(s[i]) == key(x) then s else Insert(s, i, x)
  }

  /** Importing keeps the list strictly sorted and leaves the key held; it changes nothing
      when the key was held already, and otherwise adds exactly x, keeping every entry. */
  lemma ImportSpec<T>(s: seq<T>, key: T -> seq<byte>, x: T)
    requires StrictlySorted(s, key)
    ensures var r := Import(s, key, x);
      StrictlySorted(r, key) && Holds(r, key, key(x))
      && (Holds(s, key, key(x)) ==> r == s)
      && (!Holds(s, key, key(x)) ==> multiset(r) == multiset(s) + multiset{x})
  {
    var k := key(x);
    var i := Position(s, key, k);
    HeldAtPosition(s, key, k);
    if !Holds(s, key, k) {
      var r := Insert(s, i, x);
      if i < |s| {
        CompareZeroIffEqual(key(s[i]), k);
        CompareAntisymmetric(key(s[i]), k);
      }
      forall j | i <= j < |s| ensures Compare(k, key(s[j])) < 0 {
        if j > i {
          CompareIsTotalOrder(k, key(s[i]), key(s[j]));
        }
      }
      forall a, b | 0 <= a < b < |r| ensures Compare(key(r[a]), key(r[b])) < 0 {
        if a == i {
          assert r[b] == s[b - 1];
        } else if b == i {
          assert r[a] == s[a];
        } else if a < i {
          assert r[a] == s[a];
          if b < i {
            assert r[b] == s[b];
          } else {
            assert r[b] == s[b - 1];
          }
        } else {
          assert r[a] == s[a - 1] && r[b] == s[b - 1];
        }
      }
      assert key(r[i]) == k;
    } else {
      assert key(s[i]) == k;
    }
  }
  /** Once a key is at or above k, so are all later ones. */
  lemma SortedMonotone<T>(s: seq<T>, key: T -> seq<byte>, k: seq<byte>)
    requires StrictlySorted(s, key)
    ensures forall a, b :: 0 <= a < b < |s| && Compare(key(s[a]), k) >= 0 ==> Compare(key(s[b]), k) >= 0
  {
    forall a, b | 0 <= a < b < |s| && Compare(key(s[a]), k) >= 0 ensures Compare(key(s[b]), k) >= 0 {
      CompareIsTotalOrder(k, key(s[a]), key(s[b]));
      CompareAntisymmetric(k, key(s[b]));
    }
  }

  /** slices.BinarySearchFunc on a sorted key list, with a comparison that compares an
      entry's key bytes: the position of k, and whether k is held there. */
  method Find<T>(s: seq<T>, key: T -> seq<byte>, k: seq<byte>, cmp: (T, seq<byte>) -> int) returns (i: nat, found: bool)
    requires StrictlySorted(s, key)
    requires forall x, t :: cmp(x, t) == Compare(key(x), t)
    ensures i == Position(s, key, k)
    ensures found <==> Holds(s, key, k)
    ensures found ==> i < |s| && key(s[i]) == k
  {
    SortedMonotone(s, key, k);
    i, found := BinarySearch(s, k, cmp);
    PositionUnique(s, key, k, i);
    HeldAtPosition(s, key, k);
    if i < |s| {
      CompareZeroIffEqual(key(s[i]), k);
      assert cmp(s[i], k) == Compare(key(s[i]), k);
    }
  }
  /** The entries' keys do not decrease: sorted, a key possibly repeated. */
  predicate SortedBy<T>(s: seq<T>, key: T -> seq<byte>) {
    forall i, j :: 0 <= i < j < |s| ==> Compare(key(s[i]), key(s[j])) <= 0
  }

  /** Inserting x at the position of its key keeps a sorted list sorted. */
  lemma InsertSorted<T>(s: seq<T>, key: T -> seq<byte>, x: T)
    requires SortedBy(s, key)
    ensures SortedBy(Insert(s, Position(s, key, key(x)), x), key)
  {
    var i := Position(s, key, key(x));
    var r := Insert(s, i, x);
    forall a, b | 0 <= a < b < |r| ensures Compare(key(r[a]), key(r[b])) <= 0 {
      if a == i {
        CompareAntisymmetric(key(s[i]), key(x));
        CompareIsTotalOrder(key(x), key(s[i]), key(s[b - 1]));
      } else if b == i {
        CompareIsTotalOrder(key(s[a]), key(x), key(x));
      } else if a < i && b > i {
        CompareIsTotalOrder(key(s[a]), key(x), key(s[b - 1]));
        CompareAntisymmetric(key(s[i]), key(x));
        CompareIsTotalOrder(key(x), key(s[i]), key(s[b - 1]));
      }
    }
  }

  /** x inserted into a sorted list at the position of its key. */
  function InsertByKey<T>(s: seq<T>, key: T -> seq<byte>, x: T): (r: seq<T>)
    requires SortedBy(s, key)
    ensures SortedBy(r, key) && multiset(r) == multiset(s) + multiset{x}
  {
    InsertSorted(s, key, x);
    Insert(s, Position(s, key, key(x)), x)
  }

  /** slices.SortFunc with a comparison that compares the key bytes: the entries rearranged
      into key order, each new one inserted at the position of its key. */
  function Sort<T>(s: seq<T>, key: T -> seq<byte>): (r: seq<T>)
    ensures multiset(r) == multiset(s) && SortedBy(r, key)
  {
    if s == [] then []
    else
      assert s == s[..|s| - 1] + [s[|s| - 1]];
      InsertByKey(Sort(s[..|s| - 1], key), key, s[|s| - 1])
  }

  /** Sorting a list that is already strictly sorted changes nothing. */
  lemma {:induction false} SortStrictlySorted<T>(s: seq<T>, key: T -> seq<byte>)
    requires StrictlySorted(s, key)
    ensures Sort(s, key) == s
    decreases |s|
  {
    if s != [] {
      var n := |s| - 1;
      var front := s[..n];
      assert StrictlySorted(front, key);
      SortStrictlySorted(front, key);
      PositionUnique(front, key, key(s[n]), n);
      assert InsertByKey(front, key, s[n]) == Insert(front, n, s[n]) == s;
    }
  }

  /** A sorted list in which no key repeats is strictly sorted. */
  lemma SortedDistinct<T>(s: seq<T>, key: T -> seq<byte>)
    requires SortedBy(s, key)
    requires forall i, j :: 0 <= i < j < |s| ==> key(s[i]) != key(s[j])
    ensures StrictlySorted(s, key)
  {
    forall i, j | 0 <= i < j < |s| ensures Compare(key(s[i]), key(s[j])) < 0 {
      CompareZeroIffEqual(key(s[i]), key(s[j]));
    }
  }
  lemma MultisetTail<T>(s: seq<T>)
    requires s != []
    ensures multiset(s[1..]) == multiset(s) - multiset{s[0]}
  {
    assert s == [s[0]] + s[1..];
  }

  lemma SortedTail<T>(s: seq<T>, key: T -> seq<byte>)
    requires SortedBy(s, key) && s != []
    ensures SortedBy(s[1..], key)
  {
    forall i, j | 0 <= i < j < |s| - 1 ensures Compare(key(s[1..][i]), key(s[1..][j])) <= 0 {
      assert s[1..][i] == s[i + 1] && s[1..][j] == s[j + 1];
    }
  }

  /** Two sorted arrangements of one list, no two entries of which share a key, start
      with the same entry: the one with the least key. */
  lemma SortedSameFirst<T>(a: seq<T>, b: seq<T>, key: T -> seq<byte>)
    requires forall x, y :: key(x) == key(y) ==> x == y
    requires SortedBy(a, key) && SortedBy(b, key) && multiset(a) == multiset(b) && a != []
    ensures b != [] && a[0] == b[0]
  {
    assert a[0] in multiset(b) && b[0] in multiset(a);
    var k :| 0 <= k < |b| && b[k] == a[0];
    var m :| 0 <= m < |a| && a[m] == b[0];
    assert Compare(key(a[0]), key(b[0])) <= 0 by {
      if m > 0 { assert Compare(key(a[0]), key(a[m])) <= 0; } else { CompareZeroIffEqual(key(a[0]), key(a[0])); }
    }
    assert Compare(key(b[0]), key(a[0])) <= 0 by {
      if k > 0 { assert Compare(key(b[0]), key(b[k])) <= 0; } else { CompareZeroIffEqual(key(b[0]), key(b[0])); }
    }
    CompareAntisymmetric(key(a[0]), key(b[0]));
    CompareZeroIffEqual(key(a[0]), key(b[0]));
  }

  /** When no two entries share a key, a list has only one sorted arrangement: any sort
      gives the same result, whatever its algorithm. */
  lemma {:induction false} SortedUnique<T>(a: seq<T>, b: seq<T>, key: T -> seq<byte>)
    requires forall x, y :: key(x) == key(y) ==> x == y
    requires SortedBy(a, key) && SortedBy(b, key) && multiset(a) == multiset(b)
    ensures a == b
    decreases |a|
  {
    if a == [] {
      assert |b| == |multiset(b)| == 0;
    } else {
      SortedSameFirst(a, b, key);
      MultisetTail(a);
      MultisetTail(b);
      SortedTail(a, key);
      SortedTail(b, key);
      SortedUnique(a[1..], b[1..], key);
    }
  }
  /** A list in which no element occurs twice has no two equal entries. */
  lemma NoRepeats<T>(s: seq<T>)
    requires forall x :: multiset(s)[x] <= 1
    ensures forall i, j :: 0 <= i < j < |s| ==> s[i] != s[j]
  {
    forall i, j | 0 <= i < j < |s| ensures s[i] != s[j] {
      assert s == s[..j] + [s[j]] + s[j + 1..];
      assert s[i] == s[..j][i];
      assert multiset(s)[s[j]] >= multiset(s[..j])[s[j]] + 1;
    }
  }
}
