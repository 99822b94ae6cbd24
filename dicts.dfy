/**
 * Insertion-ordered dictionaries with Python's `dict` semantics, as sequences of
 * (key, value) entries.  Assigning `d[k] = v` keeps the position of an existing
 * key and replaces its value, and appends a new key at the end.
 */
module Dicts {
  import opened Wrappers

  /** The keys of d in order: a dict's column order. */
  function Keys<V>(d: seq<(string, V)>): (ks: seq<string>)
    ensures |ks| == |d|
    ensures forall i :: 0 <= i < |d| ==> ks[i] == d[i].0
  {
    seq(|d|, i requires 0 <= i < |d| => d[i].0)
  }

  predicate HasKey<V>(d: seq<(string, V)>, k: string) {
    exists i :: 0 <= i < |d| && d[i].0 == k
  }

  /** No element occurs twice. */
  predicate Distinct<T(==)>(s: seq<T>) {
    forall i, j :: 0 <= i < j < |s| ==> s[i] != s[j]
  }

  /** No key occurs twice: what every Python dict satisfies. */
  predicate DistinctKeys<V>(d: seq<(string, V)>) {
    forall i, j :: 0 <= i < j < |d| ==> d[i].0 != d[j].0
  }

  /** `d.get(k)`: the value of the first entry with key k. */
  function Lookup<V>(d: seq<(string, V)>, k: string): (r: Option<V>)
    ensures r.Some? <==> HasKey(d, k)
    ensures r.Some? ==> exists i :: 0 <= i < |d| && d[i] == (k, r.value)
  {
    if d == [] then None
    else if d[0].0 == k then Some(d[0].1)
    else
      var r := Lookup(d[1..], k);
      assert HasKey(d, k) ==> HasKey(d[1..], k) by {
        if HasKey(d, k) {
          var i :| 0 <= i < |d| && d[i].0 == k;
          assert d[1..][i - 1].0 == k;
        }
      }
      assert r.Some? ==> exists i :: 0 <= i < |d| && d[i] == (k, r.value) by {
        if r.Some? {
          var i :| 0 <= i < |d| - 1 && d[1..][i] == (k, r.value);
          assert d[i + 1] == (k, r.value);
        }
      }
      r
  }

  /** The value of the LAST entry of kvs with key k, when there is one. */
  function LastFor<V>(kvs: seq<(string, V)>, k: string): (r: Option<V>)
    ensures r.Some? <==> HasKey(kvs, k)
  {
    if kvs == [] then None
    else if kvs[|kvs| - 1].0 == k then Some(kvs[|kvs| - 1].1)
    else
      var r := LastFor(kvs[..|kvs| - 1], k);
      assert HasKey(kvs, k) ==> HasKey(kvs[..|kvs| - 1], k) by {
        if HasKey(kvs, k) {
          var i :| 0 <= i < |kvs| && kvs[i].0 == k;
          assert kvs[..|kvs| - 1][i].0 == k;
        }
      }
      assert r.Some? ==> HasKey(kvs, k) by {
        if r.Some? {
          var i :| 0 <= i < |kvs| - 1 && kvs[..|kvs| - 1][i].0 == k;
          assert kvs[i].0 == k;
        }
      }
      r
  }

  /** `d[k] = v`: an existing key keeps its place, a new one goes last. */
  function Put<V>(d: seq<(string, V)>, k: string, v: V): (r: seq<(string, V)>)
    ensures |r| == if HasKey(d, k) then |d| else |d| + 1
    ensures forall i :: 0 <= i < |d| ==> r[i].0 == d[i].0
    ensures forall i :: 0 <= i < |d| && d[i].0 != k ==> r[i] == d[i]
    ensures !HasKey(d, k) ==> r[|d|] == (k, v)
  {
    if d == [] then [(k, v)]
    else if d[0].0 == k then [(k, v)] + d[1..]
    else
      assert HasKey(d, k) <==> HasKey(d[1..], k) by {
        if HasKey(d, k) {
          var i :| 0 <= i < |d| && d[i].0 == k;
          assert d[1..][i - 1].0 == k;
        }
        if HasKey(d[1..], k) {
          var i :| 0 <= i < |d| - 1 && d[1..][i].0 == k;
          assert d[i + 1].0 == k;
        }
      }
      [d[0]] + Put(d[1..], k, v)
  }

  /** Assigns every entry of kvs in turn: `for k, v in kvs: d[k] = v`. */
  function PutAll<V>(d: seq<(string, V)>, kvs: seq<(string, V)>): (r: seq<(string, V)>)
    ensures |d| <= |r|
  {
    if kvs == [] then d
    else Put(PutAll(d, kvs[..|kvs| - 1]), kvs[|kvs| - 1].0, kvs[|kvs| - 1].1)
  }

  /** After `d[k] = v`, the keys are the old keys and k. */
  lemma PutHasKey<V>(d: seq<(string, V)>, k: string, v: V, k': string)
    ensures HasKey(Put(d, k, v), k') <==> HasKey(d, k') || k' == k
  {
    var r := Put(d, k, v);
    if HasKey(d, k') {
      var i :| 0 <= i < |d| && d[i].0 == k';
      assert r[i].0 == k';
    } else if k' == k {
      assert r[|d|].0 == k';
    }
    if HasKey(r, k') {
      var j :| 0 <= j < |r| && r[j].0 == k';
      if j < |d| { assert d[j].0 == k'; }
    }
  }

  /** After a run of assignments, the keys are the old keys and the assigned ones. */
  lemma {:induction false} PutAllKeys<V>(d: seq<(string, V)>, kvs: seq<(string, V)>, k: string)
    ensures HasKey(PutAll(d, kvs), k) <==> HasKey(d, k) || HasKey(kvs, k)
  {
    if kvs != [] {
      PutAllKeys(d, kvs[..|kvs| - 1], k);
      PutHasKey(PutAll(d, kvs[..|kvs| - 1]), kvs[|kvs| - 1].0, kvs[|kvs| - 1].1, k);
      HasKeyInit(kvs, k);
    }
  }

  /** After `d[k] = v`, reading k gives v and every other key reads as before. */
  lemma {:induction false} PutLookup<V>(d: seq<(string, V)>, k: string, v: V, k': string)
    ensures Lookup(Put(d, k, v), k') == if k' == k then Some(v) else Lookup(d, k')
  {
    if d != [] && d[0].0 != k {
      PutLookup(d[1..], k, v, k');
    }
  }

  /** Putting a key keeps distinct keys distinct. */
  lemma PutDistinct<V>(d: seq<(string, V)>, k: string, v: V)
    requires DistinctKeys(d)
    ensures DistinctKeys(Put(d, k, v))
  {
    var r := Put(d, k, v);
    forall i, j | 0 <= i < j < |r| ensures r[i].0 != r[j].0 {
      if j == |d| {
        assert !HasKey(d, k);
        assert r[i].0 == d[i].0;
      }
    }
  }

  lemma HasKeyInit<V>(kvs: seq<(string, V)>, k: string)
    requires kvs != []
    ensures HasKey(kvs, k) <==> HasKey(kvs[..|kvs| - 1], k) || kvs[|kvs| - 1].0 == k
  {
    var init := kvs[..|kvs| - 1];
    if HasKey(init, k) {
      var i :| 0 <= i < |init| && init[i].0 == k;
      assert kvs[i].0 == k;
    }
    if HasKey(kvs, k) && kvs[|kvs| - 1].0 != k {
      var i :| 0 <= i < |kvs| && kvs[i].0 == k;
      assert init[i].0 == k;
    }
  }

  /** Reading a key after a run of assignments: the last assignment to it wins. */
  lemma {:induction false} PutAllLookup<V>(d: seq<(string, V)>, kvs: seq<(string, V)>, k: string)
    ensures Lookup(PutAll(d, kvs), k) == if HasKey(kvs, k) then LastFor(kvs, k) else Lookup(d, k)
  {
    if kvs != [] {
      var init := kvs[..|kvs| - 1];
      HasKeyInit(kvs, k);
      PutAllLookup(d, init, k);
      PutLookup(PutAll(d, init), kvs[|kvs| - 1].0, kvs[|kvs| - 1].1, k);
    }
  }

  /** Assignments keep a dictionary's keys distinct. */
  lemma {:induction false} PutAllDistinct<V>(d: seq<(string, V)>, kvs: seq<(string, V)>)
    requires DistinctKeys(d)
    ensures DistinctKeys(PutAll(d, kvs))
  {
    if kvs != [] {
      PutAllDistinct(d, kvs[..|kvs| - 1]);
      PutDistinct(PutAll(d, kvs[..|kvs| - 1]), kvs[|kvs| - 1].0, kvs[|kvs| - 1].1);
    }
  }

  /** Entries whose key is never assigned stay where they were, unchanged. */
  lemma {:induction false} PutAllKeeps<V>(d: seq<(string, V)>, kvs: seq<(string, V)>, i: nat)
    requires i < |d| && !HasKey(kvs, d[i].0)
    ensures PutAll(d, kvs)[i] == d[i]
  {
    if kvs != [] {
      HasKeyInit(kvs, d[i].0);
      PutAllKeeps(d, kvs[..|kvs| - 1], i);
    }
  }

  /** With distinct keys, the first entry for a key is also the last. */
  lemma {:induction false} LastForDistinct<V>(d: seq<(string, V)>, k: string)
    requires DistinctKeys(d)
    ensures LastFor(d, k) == Lookup(d, k)
  {
    if d != [] {
      var n := |d| - 1;
      if d[n].0 == k {
        LookupAtUnique(d, n, k);
      } else {
        LastForDistinct(d[..n], k);
        LookupInit(d, k);
      }
    }
  }

  /** With distinct keys, the entry at index i is what Lookup finds for its key. */
  lemma {:induction false} LookupAtUnique<V>(d: seq<(string, V)>, i: nat, k: string)
    requires DistinctKeys(d)
    requires i < |d| && d[i].0 == k
    ensures Lookup(d, k) == Some(d[i].1)
  {
    if i > 0 {
      assert d[0].0 != k;
      assert d[1..][i - 1] == d[i];
      LookupAtUnique(d[1..], i - 1, k);
    }
  }

  /** Dropping a last entry whose key differs does not change a lookup. */
  lemma {:induction false} LookupInit<V>(d: seq<(string, V)>, k: string)
    requires d != [] && d[|d| - 1].0 != k
    ensures Lookup(d, k) == Lookup(d[..|d| - 1], k)
  {
    if d[0].0 != k && |d| > 1 {
      assert d[1..][..|d[1..]| - 1] == d[..|d| - 1][1..];
      LookupInit(d[1..], k);
    }
  }
}
