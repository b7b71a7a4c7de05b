/** A Python `dict` as the sequence of its (key, value) entries in insertion order.
    Assigning to a key that is present keeps its position; a new key is appended;
    `del` removes the entry and leaves the others in order. */
module PyDict {

  datatype Option<+T> = None | Some(value: T)

  /** `list(d.keys())` */
  function Keys<V>(d: seq<(string, V)>): (ks: seq<string>)
    ensures |ks| == |d|
  {
    if d == [] then [] else [d[0].0] + Keys(d[1..])
  }

  /** Distinct keys: what every Python dict has. */
  predicate UniqueKeys<V>(d: seq<(string, V)>)
  {
    forall i, j :: 0 <= i < j < |d| ==> d[i].0 != d[j].0
  }

  /** `d.get(k)`: the value of the first entry whose key is `k`. */
  function Lookup<V>(d: seq<(string, V)>, k: string): Option<V>
  {
    if d == [] then None
    else if d[0].0 == k then Some(d[0].1)
    else Lookup(d[1..], k)
  }

  lemma {:induction false} KeysAt<V>(d: seq<(string, V)>, i: nat)
    requires i < |d|
    ensures Keys(d)[i] == d[i].0
  {
    if i > 0 {
      KeysAt(d[1..], i - 1);
    }
  }

  /** `d.get(k)` finds nothing exactly when `k` is not a key, and what it finds is an entry. */
  lemma {:induction false} LookupFound<V>(d: seq<(string, V)>, k: string)
    ensures Lookup(d, k).None? <==> k !in Keys(d)
    ensures Lookup(d, k).Some? ==> (k, Lookup(d, k).value) in d
  {
    if d != [] && d[0].0 != k {
      LookupFound(d[1..], k);
    }
  }

  /** `d[k] = v` */
  function Assign<V>(d: seq<(string, V)>, k: string, v: V): (r: seq<(string, V)>)
    ensures Lookup(r, k) == Some(v)
    ensures forall k' :: k' != k ==> Lookup(r, k') == Lookup(d, k')
    ensures |d| > 0 ==> r[0].0 == d[0].0
  {
    if d == [] then [(k, v)]
    else if d[0].0 == k then [(k, v)] + d[1..]
    else [d[0]] + Assign(d[1..], k, v)
  }

  /** Assignment keeps the order of the keys and appends a new one at the end. */
  lemma {:induction false} AssignKeys<V>(d: seq<(string, V)>, k: string, v: V)
    ensures Keys(Assign(d, k, v)) == if k in Keys(d) then Keys(d) else Keys(d) + [k]
  {
    if d != [] {
      if d[0].0 != k {
        AssignKeys(d[1..], k, v);
        assert ([d[0]] + Assign(d[1..], k, v))[1..] == Assign(d[1..], k, v);
      } else {
        assert ([(k, v)] + d[1..])[1..] == d[1..];
      }
    }
  }

  /** Every entry after the assignment was already there or is the new one. */
  lemma {:induction false} AssignEntries<V>(d: seq<(string, V)>, k: string, v: V)
    ensures forall e :: e in Assign(d, k, v) ==> e in d || e == (k, v)
  {
    if d != [] && d[0].0 != k {
      AssignEntries(d[1..], k, v);
    }
  }

  lemma {:induction false} AssignUnique<V>(d: seq<(string, V)>, k: string, v: V)
    requires UniqueKeys(d)
    ensures UniqueKeys(Assign(d, k, v))
  {
    if d != [] && d[0].0 != k {
      var rest := Assign(d[1..], k, v);
      AssignUnique(d[1..], k, v);
      AssignEntries(d[1..], k, v);
      var r := [d[0]] + rest;
      forall i, j | 0 <= i < j < |r| ensures r[i].0 != r[j].0 {
        if i == 0 {
          assert r[j] == rest[j - 1] && rest[j - 1] in rest;
          if r[j] != (k, v) {
            var m :| 0 <= m < |d[1..]| && d[1..][m] == r[j];
            assert d[m + 1] == r[j];
          }
        } else {
          assert r[i] == rest[i - 1] && r[j] == rest[j - 1];
        }
      }
    }
  }

  /** `del d[k]` for a key that is present: the entry goes, the others keep their order. */
  function Remove<V>(d: seq<(string, V)>, k: string): (r: seq<(string, V)>)
    ensures |r| == if k in Keys(d) then |d| - 1 else |d|
  {
    if d == [] then []
    else if d[0].0 == k then d[1..]
    else [d[0]] + Remove(d[1..], k)
  }

  lemma {:induction false} RemoveSplit<V>(a: seq<(string, V)>, e: (string, V), b: seq<(string, V)>)
    requires forall x :: x in a ==> x.0 != e.0
    ensures Remove(a + [e] + b, e.0) == a + b
  {
    if a != [] {
      assert (a + [e] + b)[0] == a[0];
      assert (a + [e] + b)[1..] == a[1..] + [e] + b;
      RemoveSplit(a[1..], e, b);
      assert [a[0]] + (a[1..] + b) == a + b;
    } else {
      assert a + [e] + b == [e] + b;
    }
  }
}
