/** `std::map<std::string, V>` as the strictly ascending list of its entries, which is also
    the order in which the source iterates over it. */
module SortedMaps {
  datatype Option<+T> = None | Some(value: T)

  datatype Entry<+V> = Entry(key: string, val: V)

  /** Byte-wise lexicographic order, the order of `std::less<std::string>`. */
  predicate Less(a: string, b: string)
  {
    if b == "" then false
    else if a == "" then true
    else if a[0] != b[0] then a[0] < b[0]
    else Less(a[1..], b[1..])
  }

  lemma {:induction false} LessTotal(a: string, b: string)
    ensures !Less(a, a)
    ensures Less(a, b) || a == b || Less(b, a)
  {
    if a == "" {
    } else {
      LessTotal(a[1..], if b == "" then b else b[1..]);
      if b != "" && a[0] == b[0] && a[1..] == b[1..] {
        assert a == [a[0]] + a[1..] && b == [b[0]] + b[1..];
      }
    }
  }

  lemma {:induction false} LessTransitive(a: string, b: string, c: string)
    requires Less(a, b) && Less(b, c)
    ensures Less(a, c)
  {
    if a == "" || a[0] != b[0] || b[0] != c[0] {
    } else {
      LessTransitive(a[1..], b[1..], c[1..]);
    }
  }

  ghost predicate Sorted<V>(m: seq<Entry<V>>)
  {
    forall i, j :: 0 <= i < j < |m| ==> Less(m[i].key, m[j].key)
  }

  /** `m[k] = v`. */
  function Put<V>(m: seq<Entry<V>>, k: string, v: V): seq<Entry<V>>
  {
    if m == [] || Less(k, m[0].key) then [Entry(k, v)] + m
    else if m[0].key == k then [Entry(k, v)] + m[1..]
    else [m[0]] + Put(m[1..], k, v)
  }

  function PutAll<V>(m: seq<Entry<V>>, es: seq<Entry<V>>): seq<Entry<V>>
    decreases es
  {
    if es == [] then m else PutAll(Put(m, es[0].key, es[0].val), es[1..])
  }

  function Lookup<V>(m: seq<Entry<V>>, k: string): Option<V>
  {
    if m == [] then None else if m[0].key == k then Some(m[0].val) else Lookup(m[1..], k)
  }

  lemma {:induction false} PutKeys<V>(m: seq<Entry<V>>, k: string, v: V)
    ensures forall e :: e in Put(m, k, v) ==> e == Entry(k, v) || e in m
  {
    if m == [] || Less(k, m[0].key) || m[0].key == k {
    } else {
      PutKeys(m[1..], k, v);
    }
  }

  lemma {:induction false} PutSorted<V>(m: seq<Entry<V>>, k: string, v: V)
    requires Sorted(m)
    ensures Sorted(Put(m, k, v))
  {
    if m == [] {
    } else if Less(k, m[0].key) {
      forall i | 0 <= i < |m| ensures Less(k, m[i].key) {
        if i > 0 { LessTransitive(k, m[0].key, m[i].key); }
      }
    } else if m[0].key == k {
    } else {
      LessTotal(k, m[0].key);
      PutSorted(m[1..], k, v);
      PutKeys(m[1..], k, v);
      var r := Put(m[1..], k, v);
      forall i | 0 <= i < |r| ensures Less(m[0].key, r[i].key) {
        assert r[i] in r;
      }
    }
  }

  lemma {:induction false} PutLookup<V>(m: seq<Entry<V>>, k: string, v: V, x: string)
    requires Sorted(m)
    ensures Lookup(Put(m, k, v), x) == if x == k then Some(v) else Lookup(m, x)
  {
    if m == [] || Less(k, m[0].key) {
      assert ([Entry(k, v)] + m)[1..] == m;
    } else if m[0].key == k {
      assert ([Entry(k, v)] + m[1..])[1..] == m[1..];
    } else {
      PutLookup(m[1..], k, v, x);
      assert ([m[0]] + Put(m[1..], k, v))[1..] == Put(m[1..], k, v);
    }
  }

  /** A key above every key present goes to the end. */
  lemma {:induction false} PutLast<V>(m: seq<Entry<V>>, k: string, v: V)
    requires forall i :: 0 <= i < |m| ==> Less(m[i].key, k)
    ensures Put(m, k, v) == m + [Entry(k, v)]
  {
    if m == [] {
    } else {
      LessTotal(m[0].key, k);
      if Less(k, m[0].key) { LessTransitive(k, m[0].key, k); LessTotal(k, k); }
      PutLast(m[1..], k, v);
      assert m == [m[0]] + m[1..];
    }
  }

  /** Inserting entries in ascending order rebuilds the map they came from. */
  lemma {:induction false} PutAllAscending<V>(m: seq<Entry<V>>, es: seq<Entry<V>>)
    requires Sorted(m + es)
    ensures PutAll(m, es) == m + es
    decreases es
  {
    if es == [] {
      assert m + es == m;
    } else {
      assert (m + es)[|m|] == es[0];
      forall i | 0 <= i < |m| ensures Less(m[i].key, es[0].key) {
        assert (m + es)[i] == m[i];
      }
      PutLast(m, es[0].key, es[0].val);
      assert m + [Entry(es[0].key, es[0].val)] + es[1..] == m + es;
      PutAllAscending(m + [es[0]], es[1..]);
    }
  }

  lemma {:induction false} PutAllSorted<V>(m: seq<Entry<V>>, es: seq<Entry<V>>)
    requires Sorted(m)
    ensures Sorted(PutAll(m, es))
    decreases es
  {
    if es == [] {
    } else {
      PutSorted(m, es[0].key, es[0].val);
      PutAllSorted(Put(m, es[0].key, es[0].val), es[1..]);
    }
  }

  lemma {:induction false} AbsentAbove<V>(m: seq<Entry<V>>, k: string)
    requires forall i :: 0 <= i < |m| ==> Less(k, m[i].key)
    ensures Lookup(m, k) == None
  {
    if m == [] {
    } else {
      LessTotal(k, k);
      AbsentAbove(m[1..], k);
    }
  }

  /** Inserting all of `es` overrides `m` exactly on the keys of `es`. */
  lemma {:induction false} PutAllLookup<V>(m: seq<Entry<V>>, es: seq<Entry<V>>, x: string)
    requires Sorted(m) && Sorted(es)
    ensures Lookup(PutAll(m, es), x) == if Lookup(es, x).Some? then Lookup(es, x) else Lookup(m, x)
    decreases es
  {
    if es == [] {
    } else {
      var m1 := Put(m, es[0].key, es[0].val);
      PutSorted(m, es[0].key, es[0].val);
      PutLookup(m, es[0].key, es[0].val, x);
      PutAllLookup(m1, es[1..], x);
      if x == es[0].key { AbsentAbove(es[1..], x); }
    }
  }

  lemma {:induction false} AbsentStays<V>(m: seq<Entry<V>>, es: seq<Entry<V>>, x: string)
    requires Sorted(m) && forall i :: 0 <= i < |es| ==> es[i].key != x
    ensures Lookup(PutAll(m, es), x) == Lookup(m, x)
    decreases es
  {
    if es == [] {
    } else {
      PutSorted(m, es[0].key, es[0].val);
      PutLookup(m, es[0].key, es[0].val, x);
      AbsentStays(Put(m, es[0].key, es[0].val), es[1..], x);
    }
  }

  /** Entries with different keys can come in any order. */
  lemma {:induction false} PutAllDistinct<V>(m: seq<Entry<V>>, es: seq<Entry<V>>, i: nat)
    requires Sorted(m) && i < |es|
    requires forall a, b :: 0 <= a < b < |es| ==> es[a].key != es[b].key
    ensures Lookup(PutAll(m, es), es[i].key) == Some(es[i].val)
    decreases es
  {
    var m1 := Put(m, es[0].key, es[0].val);
    PutSorted(m, es[0].key, es[0].val);
    if i == 0 {
      PutLookup(m, es[0].key, es[0].val, es[0].key);
      AbsentStays(m1, es[1..], es[0].key);
    } else {
      PutAllDistinct(m1, es[1..], i - 1);
    }
  }

  lemma {:induction false} PresentInSorted<V>(m: seq<Entry<V>>, i: nat)
    requires Sorted(m) && i < |m|
    ensures Lookup(m, m[i].key) == Some(m[i].val)
  {
    if i == 0 {
    } else {
      LessTotal(m[0].key, m[0].key);
      assert Less(m[0].key, m[i].key);
      PresentInSorted(m[1..], i - 1);
    }
  }

  lemma {:induction false} PutAllPrefix<V>(m: seq<Entry<V>>, es: seq<Entry<V>>, k: nat)
    requires k <= |es|
    ensures PutAll(m, es) == PutAll(PutAll(m, es[..k]), es[k..])
    decreases k
  {
    if k == 0 {
      assert es[..0] == [] && es[0..] == es;
    } else {
      PutAllPrefix(Put(m, es[0].key, es[0].val), es[1..], k - 1);
      assert es[..k][1..] == es[1..][..k - 1] && es[1..][k - 1..] == es[k..];
    }
  }

  /** Two ascending lists with the same content are the same list. */
  lemma {:induction false} SortedExtensional<V>(a: seq<Entry<V>>, b: seq<Entry<V>>)
    requires Sorted(a) && Sorted(b)
    requires forall k :: Lookup(a, k) == Lookup(b, k)
    ensures a == b
  {
    if a == [] {
      assert b != [] ==> Lookup(a, b[0].key) == Lookup(b, b[0].key);
    } else {
      assert Lookup(a, a[0].key) == Some(a[0].val) == Lookup(b, a[0].key);
      var (ka, kb) := (a[0].key, b[0].key);
      assert Lookup(b, kb).Some? && Lookup(a, kb).Some?;
      LessTotal(ka, kb);
      if Less(ka, kb) {
        AbsentBelow(b, ka);
      } else if Less(kb, ka) {
        AbsentBelow(a, kb);
      }
      AbsentBelow(a[1..], ka);
      AbsentBelow(b[1..], ka);
      forall k ensures Lookup(a[1..], k) == Lookup(b[1..], k) {
        assert Lookup(a, k) == Lookup(b, k);
      }
      SortedExtensional(a[1..], b[1..]);
      assert a == [a[0]] + a[1..] && b == [b[0]] + b[1..];
    }
  }

  lemma AbsentBelow<V>(m: seq<Entry<V>>, k: string)
    requires Sorted(m) && (m != [] ==> Less(k, m[0].key))
    ensures Lookup(m, k) == None
  {
    forall i | 0 <= i < |m| ensures Less(k, m[i].key) {
      if i > 0 { LessTransitive(k, m[0].key, m[i].key); }
    }
    AbsentAbove(m, k);
  }

  lemma {:induction false} PrefixAbsent<V>(es: seq<Entry<V>>, k: nat, x: string)
    requires k <= |es| && Lookup(es, x) == None
    ensures Lookup(es[..k], x) == None
  {
    if k == 0 {
    } else {
      PrefixAbsent(es[1..], k - 1, x);
      assert es[..k][1..] == es[1..][..k - 1];
    }
  }

  /** Inserting a part first and everything afterwards is the same as inserting everything. */
  lemma PutAllAgain<V>(m: seq<Entry<V>>, es: seq<Entry<V>>, k: nat)
    requires Sorted(m) && Sorted(es) && k <= |es|
    ensures Sorted(PutAll(m, es[..k]))
    ensures PutAll(PutAll(m, es[..k]), es) == PutAll(m, es)
  {
    var part := PutAll(m, es[..k]);
    PutAllSorted(m, es[..k]);
    PutAllSorted(part, es);
    PutAllSorted(m, es);
    forall x ensures Lookup(PutAll(part, es), x) == Lookup(PutAll(m, es), x) {
      PutAllLookup(part, es, x);
      PutAllLookup(m, es[..k], x);
      PutAllLookup(m, es, x);
      if Lookup(es, x) == None { PrefixAbsent(es, k, x); }
    }
    SortedExtensional(PutAll(part, es), PutAll(m, es));
  }
}
