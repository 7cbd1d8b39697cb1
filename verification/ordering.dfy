/**
 The ordering `list_services` puts the listing in:
 `services.sort(key=lambda s: (s[2] != 'running', s[0]))`, a stable sort
 on the pair (ACTIVE is not "running", UNIT) under Python's tuple and
 string comparison.
 */
module Ordering {
  import opened Services

  /** Python's `a < b` on strings: lexicographic on code points, a proper
      prefix coming first. */
  predicate StrLess(a: string, b: string)
    decreases |a|
  {
    if |a| == 0 then |b| > 0
    else if |b| == 0 then false
    else if a[0] != b[0] then a[0] < b[0]
    else StrLess(a[1..], b[1..])
  }

  lemma {:induction false} StrLessIrreflexive(a: string)
    ensures !StrLess(a, a)
    decreases |a|
  {
    if |a| > 0 {
      StrLessIrreflexive(a[1..]);
    }
  }

  lemma {:induction false} StrLessTransitive(a: string, b: string, c: string)
    requires StrLess(a, b) && StrLess(b, c)
    ensures StrLess(a, c)
    decreases |a|
  {
    if |a| > 0 && a[0] == b[0] && b[0] == c[0] {
      StrLessTransitive(a[1..], b[1..], c[1..]);
    }
  }

  /** Any two distinct strings are ordered one way or the other. */
  lemma {:induction false} StrLessTotal(a: string, b: string)
    ensures a == b || StrLess(a, b) || StrLess(b, a)
    decreases |a|
  {
    if |a| > 0 && |b| > 0 && a[0] == b[0] {
      StrLessTotal(a[1..], b[1..]);
      if a[1..] == b[1..] {
        assert a == [a[0]] + a[1..] && b == [b[0]] + b[1..];
      }
    }
  }

  /** The sort key of a record: `(active != 'running', unit)`. */
  datatype SortKey = SortKey(notRunning: bool, unit: string)

  function KeyOf(svc: Service): SortKey {
    SortKey(svc.active != "running", svc.unit)
  }

  /** Python's `<` on the key tuple: `False < True` on the first component,
      then the unit names. */
  predicate KeyLess(a: SortKey, b: SortKey) {
    if a.notRunning != b.notRunning then !a.notRunning else StrLess(a.unit, b.unit)
  }

  lemma {:induction false} StrLessAsymmetric(a: string, b: string)
    requires StrLess(a, b)
    ensures !StrLess(b, a)
    decreases |a|
  {
    if |a| > 0 && a[0] == b[0] {
      StrLessAsymmetric(a[1..], b[1..]);
    }
  }

  lemma KeyLessAsymmetric(a: SortKey, b: SortKey)
    requires KeyLess(a, b)
    ensures !KeyLess(b, a)
  {
    if a.notRunning == b.notRunning {
      StrLessAsymmetric(a.unit, b.unit);
    }
  }

  /** "Not smaller than" is transitive. */
  lemma KeyAtLeastTransitive(a: SortKey, b: SortKey, c: SortKey)
    requires !KeyLess(b, a) && !KeyLess(c, b)
    ensures !KeyLess(c, a)
  {
    KeyLessTotal(a, b);
    KeyLessTotal(b, c);
    if a == b && b == c {
      KeyLessIrreflexive(a);
    } else {
      if a != b && b != c {
        KeyLessTransitive(a, b, c);
      }
      KeyLessAsymmetric(a, c);
    }
  }

  lemma KeyLessIrreflexive(a: SortKey)
    ensures !KeyLess(a, a)
  {
    StrLessIrreflexive(a.unit);
  }

  lemma KeyLessTransitive(a: SortKey, b: SortKey, c: SortKey)
    requires KeyLess(a, b) && KeyLess(b, c)
    ensures KeyLess(a, c)
  {
    if a.notRunning == b.notRunning == c.notRunning {
      StrLessTransitive(a.unit, b.unit, c.unit);
    }
  }

  lemma KeyLessTotal(a: SortKey, b: SortKey)
    ensures a == b || KeyLess(a, b) || KeyLess(b, a)
  {
    StrLessTotal(a.unit, b.unit);
  }

  /** No later record has a smaller key than an earlier one. */
  ghost predicate Sorted(s: seq<Service>) {
    forall i, j :: 0 <= i < j < |s| ==> !KeyLess(KeyOf(s[j]), KeyOf(s[i]))
  }

  /** The records of `s` whose key is `k`, in the order they appear. */
  function WithKey(s: seq<Service>, k: SortKey): seq<Service> {
    if |s| == 0 then []
    else (if KeyOf(s[0]) == k then [s[0]] else []) + WithKey(s[1..], k)
  }

  /** Place `x` before the first element whose key is not smaller than its
      own, so that it stays ahead of records with an equal key. */
  function Insert(x: Service, s: seq<Service>): seq<Service> {
    if |s| == 0 || !KeyLess(KeyOf(s[0]), KeyOf(x)) then [x] + s
    else [s[0]] + Insert(x, s[1..])
  }

  /** The stable sort: an insertion sort that inserts from the back. */
  function SortServices(s: seq<Service>): seq<Service> {
    if |s| == 0 then [] else Insert(s[0], SortServices(s[1..]))
  }

  lemma {:induction false} InsertPermutes(x: Service, s: seq<Service>)
    ensures multiset(Insert(x, s)) == multiset(s) + multiset{x}
    decreases |s|
  {
    if |s| > 0 && KeyLess(KeyOf(s[0]), KeyOf(x)) {
      InsertPermutes(x, s[1..]);
      assert s == [s[0]] + s[1..];
    }
  }

  lemma {:induction false} InsertSorted(x: Service, s: seq<Service>)
    requires Sorted(s)
    ensures Sorted(Insert(x, s))
    decreases |s|
  {
    var r := Insert(x, s);
    if |s| == 0 {
    } else if !KeyLess(KeyOf(s[0]), KeyOf(x)) {
      forall i, j | 0 <= i < j < |r| ensures !KeyLess(KeyOf(r[j]), KeyOf(r[i])) {
        assert r[j] == s[j - 1];
        if i == 0 {
          if j > 1 {
            KeyAtLeastTransitive(KeyOf(x), KeyOf(s[0]), KeyOf(s[j - 1]));
          }
        } else {
          assert r[i] == s[i - 1];
        }
      }
    } else {
      var t := Insert(x, s[1..]);
      assert Sorted(s[1..]) by {
        forall i, j | 0 <= i < j < |s| - 1 ensures !KeyLess(KeyOf(s[1..][j]), KeyOf(s[1..][i])) {
          assert s[1..][i] == s[i + 1] && s[1..][j] == s[j + 1];
        }
      }
      InsertSorted(x, s[1..]);
      InsertPermutes(x, s[1..]);
      forall i, j | 0 <= i < j < |r| ensures !KeyLess(KeyOf(r[j]), KeyOf(r[i])) {
        if i == 0 {
          var e := r[j];
          assert e == t[j - 1];
          assert e in multiset(t);
          if e == x {
            KeyLessAsymmetric(KeyOf(s[0]), KeyOf(x));
          } else {
            assert e in multiset(s[1..]);
            var k :| 0 <= k < |s| - 1 && s[1..][k] == e;
            assert s[k + 1] == e;
          }
        } else {
          assert r[i] == t[i - 1] && r[j] == t[j - 1];
        }
      }
    }
  }

  /** Inserting `x` keeps every key group in order, with `x` at the head of
      its own group. */
  lemma {:induction false} InsertWithKey(x: Service, s: seq<Service>, k: SortKey)
    ensures WithKey(Insert(x, s), k) == WithKey([x] + s, k)
    decreases |s|
  {
    var xs := [x] + s;
    assert xs[0] == x && xs[1..] == s;
    if |s| > 0 && KeyLess(KeyOf(s[0]), KeyOf(x)) {
      InsertWithKey(x, s[1..], k);
      var ys := [x] + s[1..];
      assert ys[0] == x && ys[1..] == s[1..];
      KeyLessIrreflexive(KeyOf(x));
      var r := Insert(x, s);
      assert r[0] == s[0] && r[1..] == Insert(x, s[1..]);
    }
  }

  /** The sorted listing holds exactly the records it was given. */
  lemma {:induction false} SortPermutes(s: seq<Service>)
    ensures multiset(SortServices(s)) == multiset(s)
    decreases |s|
  {
    if |s| > 0 {
      SortPermutes(s[1..]);
      InsertPermutes(s[0], SortServices(s[1..]));
      assert s == [s[0]] + s[1..];
    }
  }

  /** The sorted listing is in key order. */
  lemma {:induction false} SortSorted(s: seq<Service>)
    ensures Sorted(SortServices(s))
    decreases |s|
  {
    if |s| > 0 {
      SortSorted(s[1..]);
      InsertSorted(s[0], SortServices(s[1..]));
    }
  }

  /** The sort is stable: records with equal keys keep their input order. */
  lemma {:induction false} SortStable(s: seq<Service>, k: SortKey)
    ensures WithKey(SortServices(s), k) == WithKey(s, k)
    decreases |s|
  {
    if |s| > 0 {
      SortStable(s[1..], k);
      InsertWithKey(s[0], SortServices(s[1..]), k);
      var t := [s[0]] + SortServices(s[1..]);
      assert t[0] == s[0] && t[1..] == SortServices(s[1..]);
    }
  }

  lemma {:induction false} WithKeyHead(s: seq<Service>, x: Service)
    requires x in s
    ensures |WithKey(s, KeyOf(x))| > 0
    decreases |s|
  {
    if s[0] != x {
      WithKeyHead(s[1..], x);
    }
  }

  lemma {:induction false} WithKeyMembers(s: seq<Service>, k: SortKey, y: Service)
    requires y in WithKey(s, k)
    ensures y in s && KeyOf(y) == k
    decreases |s|
  {
    if |s| > 0 && !(KeyOf(s[0]) == k && y == s[0]) {
      WithKeyMembers(s[1..], k, y);
    }
  }

  /** A sorted sequence is fixed by its key groups: the stable sort of a
      listing is the only sorted arrangement that keeps every key group in
      input order, so any stable sort, Python's included, agrees with
      `SortServices`. */
  lemma {:induction false} SortedUnique(a: seq<Service>, b: seq<Service>)
    requires Sorted(a) && Sorted(b)
    requires forall k :: WithKey(a, k) == WithKey(b, k)
    ensures a == b
    decreases |a|
  {
    if |a| == 0 {
      if |b| > 0 {
        WithKeyHead(b, b[0]);
      }
    } else if |b| == 0 {
      WithKeyHead(a, a[0]);
    } else {
      var ka, kb := KeyOf(a[0]), KeyOf(b[0]);
      WithKeyHead(b, b[0]);
      var y := WithKey(b, kb)[0];
      assert y in WithKey(a, kb);
      WithKeyMembers(a, kb, y);
      var i :| 0 <= i < |a| && a[i] == y;
      WithKeyHead(a, a[0]);
      var z := WithKey(a, ka)[0];
      assert z in WithKey(b, ka);
      WithKeyMembers(b, ka, z);
      var j :| 0 <= j < |b| && b[j] == z;
      // a[0] is no larger than a[i], whose key is kb; symmetrically for b
      assert i == 0 || !KeyLess(kb, ka);
      assert j == 0 || !KeyLess(ka, kb);
      KeyLessTotal(ka, kb);
      assert ka == kb;
      assert WithKey(a, ka)[0] == a[0] && WithKey(b, kb)[0] == b[0];
      forall k ensures WithKey(a[1..], k) == WithKey(b[1..], k) {
        assert WithKey(a, k) == (if ka == k then [a[0]] else []) + WithKey(a[1..], k);
        assert WithKey(b, k) == (if kb == k then [b[0]] else []) + WithKey(b[1..], k);
        assert WithKey(a, k) == WithKey(b, k);
        if k == ka {
          assert WithKey(a[1..], k) == WithKey(a, k)[1..];
          assert WithKey(b[1..], k) == WithKey(b, k)[1..];
        } else {
          assert WithKey(a, k) == WithKey(a[1..], k);
          assert WithKey(b, k) == WithKey(b[1..], k);
        }
      }
      assert Sorted(a[1..]) by {
        forall i, j | 0 <= i < j < |a| - 1 ensures !KeyLess(KeyOf(a[1..][j]), KeyOf(a[1..][i])) {
          assert a[1..][i] == a[i + 1] && a[1..][j] == a[j + 1];
        }
      }
      assert Sorted(b[1..]) by {
        forall i, j | 0 <= i < j < |b| - 1 ensures !KeyLess(KeyOf(b[1..][j]), KeyOf(b[1..][i])) {
          assert b[1..][i] == b[i + 1] && b[1..][j] == b[j + 1];
        }
      }
      SortedUnique(a[1..], b[1..]);
      assert a == [a[0]] + a[1..] && b == [b[0]] + b[1..];
    }
  }

  /** Every sorted, per-key order-preserving arrangement of `s` is
      `SortServices(s)`. */
  lemma StableSortIsUnique(s: seq<Service>, t: seq<Service>)
    requires Sorted(t)
    requires forall k :: WithKey(t, k) == WithKey(s, k)
    ensures t == SortServices(s)
  {
    SortSorted(s);
    forall k ensures WithKey(t, k) == WithKey(SortServices(s), k) {
      SortStable(s, k);
    }
    SortedUnique(t, SortServices(s));
  }

  /** In the sorted listing every record whose ACTIVE field is "running"
      comes before every record whose ACTIVE field is anything else, and
      within each of the two groups the unit names never decrease. */
  lemma RunningFirst(s: seq<Service>)
    ensures var r := SortServices(s);
      forall i, j :: 0 <= i < j < |r| ==>
        && !(r[i].active != "running" && r[j].active == "running")
        && ((r[i].active == "running") == (r[j].active == "running") ==> !StrLess(r[j].unit, r[i].unit))
  {
    SortSorted(s);
  }
}
