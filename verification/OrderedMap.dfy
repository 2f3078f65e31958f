/** `std::map` with string keys: entries in strictly ascending byte order. */
module OrderedMap {
  import opened Bytes

  /** `std::less<std::string>`: lexicographic order of unsigned bytes. */
  predicate Less(a: bytes, b: bytes) {
    b != [] && (a == [] || a[0] < b[0] || (a[0] == b[0] && Less(a[1..], b[1..])))
  }

  /** One key comes before another exactly when it is its beginning, or has the smaller byte where they
      first differ. */
  lemma {:induction false} LessIff(a: bytes, b: bytes)
    ensures Less(a, b) <==> a < b || exists i :: FirstDifference(a, b, i) && a[i] < b[i]
  {
    if a != [] && b != [] {
      if a[0] != b[0] {
        assert FirstDifference(a, b, 0);
      } else {
        LessIff(a[1..], b[1..]);
        if Less(a[1..], b[1..]) && !(a[1..] < b[1..]) {
          var i :| FirstDifference(a[1..], b[1..], i) && a[1..][i] < b[1..][i];
          assert FirstDifference(a, b, i + 1);
        }
        if i :| FirstDifference(a, b, i) && a[i] < b[i] {
          assert i > 0 && FirstDifference(a[1..], b[1..], i - 1);
        }
      }
    }
  }

  ghost predicate FirstDifference(a: bytes, b: bytes, i: int) {
    0 <= i < |a| && i < |b| && a[i] != b[i] && forall j :: 0 <= j < i ==> a[j] == b[j]
  }

  lemma {:induction false} LessIrreflexive(a: bytes)
    ensures !Less(a, a)
  {
    if a != [] {
      LessIrreflexive(a[1..]);
    }
  }

  lemma {:induction false} LessTransitive(a: bytes, b: bytes, c: bytes)
    requires Less(a, b) && Less(b, c)
    ensures Less(a, c)
  {
    if a != [] && a[0] == b[0] == c[0] {
      LessTransitive(a[1..], b[1..], c[1..]);
    }
  }

  lemma {:induction false} LessTotal(a: bytes, b: bytes)
    ensures Less(a, b) || a == b || Less(b, a)
  {
    if a != [] && b != [] && a[0] == b[0] {
      LessTotal(a[1..], b[1..]);
      if a[1..] == b[1..] {
        assert a == [a[0]] + a[1..] == [b[0]] + b[1..] == b;
      }
    }
  }

  ghost predicate Sorted<V>(m: seq<(bytes, V)>) {
    forall i, j :: 0 <= i < j < |m| ==> Less(m[i].0, m[j].0)
  }

  function Lookup<V>(m: seq<(bytes, V)>, k: bytes): Option<V> {
    if m == [] then None
    else if m[0].0 == k then Some(m[0].1)
    else Lookup(m[1..], k)
  }

  /** `m[k] = v`. */
  function Put<V>(m: seq<(bytes, V)>, k: bytes, v: V): seq<(bytes, V)> {
    if m == [] then [(k, v)]
    else if k == m[0].0 then [(k, v)] + m[1..]
    else if Less(k, m[0].0) then [(k, v)] + m
    else [m[0]] + Put(m[1..], k, v)
  }

  /** `m.erase(k)`. */
  function Erase<V>(m: seq<(bytes, V)>, k: bytes): seq<(bytes, V)> {
    if m == [] then []
    else if m[0].0 == k then m[1..]
    else [m[0]] + Erase(m[1..], k)
  }

  lemma {:induction false} PutEntries<V>(m: seq<(bytes, V)>, k: bytes, v: V)
    ensures forall i :: 0 <= i < |Put(m, k, v)| ==> Put(m, k, v)[i] in m || Put(m, k, v)[i] == (k, v)
  {
    if m != [] && k != m[0].0 && !Less(k, m[0].0) {
      PutEntries(m[1..], k, v);
    }
  }

  lemma {:induction false} PutSorted<V>(m: seq<(bytes, V)>, k: bytes, v: V)
    requires Sorted(m)
    ensures Sorted(Put(m, k, v))
  {
    if m == [] || k == m[0].0 {
    } else if Less(k, m[0].0) {
      forall j | 0 <= j < |m| ensures Less(k, m[j].0) {
        if j > 0 {
          LessTransitive(k, m[0].0, m[j].0);
        }
      }
    } else {
      LessTotal(k, m[0].0);
      PutSorted(m[1..], k, v);
      PutEntries(m[1..], k, v);
    }
  }

  lemma {:induction false} LookupPut<V>(m: seq<(bytes, V)>, k: bytes, v: V, q: bytes)
    ensures Lookup(Put(m, k, v), q) == if q == k then Some(v) else Lookup(m, q)
  {
    if m != [] {
      assert ([(k, v)] + m)[1..] == m;
      if k != m[0].0 && !Less(k, m[0].0) {
        LookupPut(m[1..], k, v, q);
      }
    }
  }

  lemma {:induction false} EraseSorted<V>(m: seq<(bytes, V)>, k: bytes)
    requires Sorted(m)
    ensures forall i :: 0 <= i < |Erase(m, k)| ==> Erase(m, k)[i] in m
    ensures Sorted(Erase(m, k))
  {
    if m != [] && m[0].0 != k {
      EraseSorted(m[1..], k);
    }
  }

  lemma {:induction false} NotBefore<V>(m: seq<(bytes, V)>, k: bytes)
    requires forall i :: 0 <= i < |m| ==> Less(k, m[i].0) || Less(m[i].0, k)
    ensures Lookup(m, k) == None
  {
    LessIrreflexive(k);
    if m != [] {
      NotBefore(m[1..], k);
    }
  }

  lemma {:induction false} LookupErase<V>(m: seq<(bytes, V)>, k: bytes, q: bytes)
    requires Sorted(m)
    ensures Lookup(Erase(m, k), q) == if q == k then None else Lookup(m, q)
  {
    if m != [] {
      if m[0].0 == k {
        if q == k {
          NotBefore(m[1..], k);
        }
      } else {
        LookupErase(m[1..], k, q);
      }
    }
  }

  /** A key above every key present is appended; putting keys in order rebuilds the map. */
  lemma {:induction false} PutLast<V>(m: seq<(bytes, V)>, k: bytes, v: V)
    requires forall i :: 0 <= i < |m| ==> Less(m[i].0, k)
    ensures Put(m, k, v) == m + [(k, v)]
    ensures Lookup(m, k) == None
  {
    NotBefore(m, k);
    if m != [] {
      LessIrreflexive(k);
      if Less(k, m[0].0) {
        LessTransitive(k, m[0].0, k);
      }
      PutLast(m[1..], k, v);
    }
  }

  /** A key goes between the smaller keys and the greater ones. */
  lemma {:induction false} PutBetween<V>(a: seq<(bytes, V)>, b: seq<(bytes, V)>, k: bytes, v: V)
    requires forall i :: 0 <= i < |a| ==> Less(a[i].0, k)
    requires forall i :: 0 <= i < |b| ==> Less(k, b[i].0)
    ensures Put(a + b, k, v) == a + [(k, v)] + b
    ensures Lookup(a + b, k) == None
    decreases |a|
  {
    LessIrreflexive(k);
    if a == [] {
      assert a + b == b && a + [(k, v)] + b == [(k, v)] + b;
      NotBefore(b, k);
    } else {
      assert (a + b)[1..] == a[1..] + b;
      if Less(k, a[0].0) {
        LessTransitive(k, a[0].0, k);
      }
      PutBetween(a[1..], b, k, v);
    }
  }

  /** Putting to the last key present replaces its value. */
  lemma {:induction false} PutReplacesLast<V>(m: seq<(bytes, V)>, k: bytes, u: V, v: V)
    requires forall i :: 0 <= i < |m| ==> Less(m[i].0, k)
    ensures Put(m + [(k, u)], k, v) == m + [(k, v)]
    ensures Lookup(m + [(k, u)], k) == Some(u)
  {
    var full := m + [(k, u)];
    if m == [] {
    } else {
      LessIrreflexive(k);
      if Less(k, m[0].0) {
        LessTransitive(k, m[0].0, k);
      }
      assert full[0] == m[0] && full[1..] == m[1..] + [(k, u)];
      PutReplacesLast(m[1..], k, u, v);
    }
  }
}
