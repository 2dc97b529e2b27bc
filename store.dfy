/**
 * The record store as a value: a map from identity to record, read in
 * ascending identity order as a TreeMap is, and the way `add` grows it.
 */
module Store {
  import opened Wrappers
  import opened Values

  type Records = map<int, Record>

  predicate IsMin(k: int, s: set<int>) {
    k in s && forall j :: j in s ==> k <= j
  }

  /** A non-empty set has a member to pick (what `:|` over a set needs). */
  lemma NonEmpty(s: set<int>)
    requires s != {}
    ensures exists x :: x in s
  {
    if forall y :: y !in s {
      assert false;
    }
  }

  lemma {:induction false} MinExists(s: set<int>)
    requires s != {}
    ensures exists k :: IsMin(k, s)
  {
    NonEmpty(s);
    var x :| x in s;
    if s != {x} {
      MinExists(s - {x});
      var m :| IsMin(m, s - {x});
      assert forall j :: j in s ==> j == x || j in s - {x};
      if x < m {
        assert IsMin(x, s);
      } else {
        assert IsMin(m, s);
      }
    } else {
      assert IsMin(x, s);
    }
  }

  /** The keys of a store in ascending order: strictly increasing, one per key. */
  function SortedKeys(s: set<int>): (ks: seq<int>)
    ensures |ks| == |s|
    ensures forall i :: 0 <= i < |ks| ==> ks[i] in s
    ensures forall i, j :: 0 <= i < j < |ks| ==> ks[i] < ks[j]
    decreases |s|
  {
    if s == {} then []
    else
      MinExists(s);
      var k :| IsMin(k, s);
      [k] + SortedKeys(s - {k})
  }

  /** Every key occurs in the ascending key sequence. */
  lemma {:induction false} SortedKeysCovers(s: set<int>, k: int)
    requires k in s
    ensures exists i :: 0 <= i < |SortedKeys(s)| && SortedKeys(s)[i] == k
    decreases |s|
  {
    var ks := SortedKeys(s);
    var first := ks[0];
    assert ks[1..] == SortedKeys(s - {first});
    if k != first {
      SortedKeysCovers(s - {first}, k);
      var i :| 0 <= i < |ks[1..]| && ks[1..][i] == k;
      assert ks[i + 1] == k;
    }
  }

  /** The records of a store in the order the TreeMap iterates them. */
  function InOrder(m: Records): (rs: seq<Record>)
    ensures |rs| == |m|
  {
    var ks := SortedKeys(m.Keys);
    seq(|ks|, i requires 0 <= i < |ks| => m[ks[i]])
  }

  /** Position i of the iteration holds the record under the i-th smallest key. */
  lemma InOrderAt(m: Records, i: nat)
    requires i < |m|
    ensures SortedKeys(m.Keys)[i] in m && InOrder(m)[i] == m[SortedKeys(m.Keys)[i]]
  {
  }

  /** Every key of the store is at some position of the iteration. */
  lemma InOrderCovers(m: Records, k: int)
    requires k in m
    ensures exists i :: 0 <= i < |InOrder(m)| && SortedKeys(m.Keys)[i] == k && InOrder(m)[i] == m[k]
  {
    SortedKeysCovers(m.Keys, k);
    var i :| 0 <= i < |SortedKeys(m.Keys)| && SortedKeys(m.Keys)[i] == k;
    InOrderAt(m, i);
  }

  /** Every stored record carries its own key as identity. */
  ghost predicate IdsMatchKeys(m: Records) {
    forall k :: k in m ==> m[k].id == Some(k)
  }

  /** When records carry their keys, iteration yields them in strictly ascending identity order. */
  lemma InOrderAscending(m: Records, i: nat, j: nat)
    requires IdsMatchKeys(m)
    requires i < j < |m|
    ensures InOrder(m)[i].id.Some? && InOrder(m)[j].id.Some?
    ensures InOrder(m)[i].id.value < InOrder(m)[j].id.value
  {
    InOrderAt(m, i);
    InOrderAt(m, j);
  }

  /** A store with one record iterates just that record. */
  lemma InOrderSingleton(k: int, r: Record)
    ensures InOrder(map[k := r]) == [r]
  {
    assert map[k := r].Keys == {k};
    InOrderAt(map[k := r], 0);
  }

  /** Identities are exactly 0 .. size-1. */
  ghost predicate Dense(m: Records) {
    forall k :: k in m <==> 0 <= k < |m|
  }

  lemma {:induction false} IncreasingInRange(ks: seq<int>, n: nat, i: nat)
    requires |ks| == n && i < n
    requires forall j :: 0 <= j < n ==> 0 <= ks[j] < n
    requires forall j, l :: 0 <= j < l < n ==> ks[j] < ks[l]
    ensures ks[i] == i
  {
    LowerBound(ks, n, i);
    UpperBound(ks, n, i);
  }

  lemma {:induction false} LowerBound(ks: seq<int>, n: nat, i: nat)
    requires |ks| == n && i < n
    requires forall j :: 0 <= j < n ==> 0 <= ks[j] < n
    requires forall j, l :: 0 <= j < l < n ==> ks[j] < ks[l]
    ensures ks[i] >= i
  {
    if i > 0 {
      LowerBound(ks, n, i - 1);
    }
  }

  lemma {:induction false} UpperBound(ks: seq<int>, n: nat, i: nat)
    requires |ks| == n && i < n
    requires forall j :: 0 <= j < n ==> 0 <= ks[j] < n
    requires forall j, l :: 0 <= j < l < n ==> ks[j] < ks[l]
    ensures ks[i] <= i
    decreases n - i
  {
    if i < n - 1 {
      UpperBound(ks, n, i + 1);
    }
  }

  /** On a dense store, iteration visits identity i at position i. */
  lemma InOrderDense(m: Records)
    requires Dense(m)
    ensures forall i :: 0 <= i < |m| ==> SortedKeys(m.Keys)[i] == i && InOrder(m)[i] == m[i]
  {
    var ks := SortedKeys(m.Keys);
    var n := |m|;
    assert |ks| == n;
    assert forall j :: 0 <= j < n ==> 0 <= ks[j] < n by {
      forall j | 0 <= j < n ensures 0 <= ks[j] < n {
        assert ks[j] in m;
      }
    }
    forall i | 0 <= i < n ensures ks[i] == i && InOrder(m)[i] == m[i] {
      IncreasingInRange(ks, n, i);
      InOrderAt(m, i);
    }
  }

  /** What `add` does to the store: the copy, carrying the new identity, goes to key size(). */
  function AddStore(m: Records, r: Record): Records {
    m[|m| := r.(id := Some(|m|))]
  }

  /** A sequence of `add` calls, in order. */
  function AddAll(m: Records, rs: seq<Record>): Records
    decreases |rs|
  {
    if rs == [] then m else AddStore(AddAll(m, rs[..|rs| - 1]), rs[|rs| - 1])
  }

  lemma AddAllStep(m: Records, rs: seq<Record>, i: nat)
    requires i < |rs|
    ensures AddAll(m, rs[..i + 1]) == AddStore(AddAll(m, rs[..i]), rs[i])
  {
    assert rs[..i + 1][..i] == rs[..i];
  }

  /** On a dense store, `add` appends: the new identity is fresh and the store stays dense. */
  lemma AddStoreDense(m: Records, r: Record)
    requires Dense(m)
    ensures Dense(AddStore(m, r))
    ensures |AddStore(m, r)| == |m| + 1
    ensures AddStore(m, r).Keys == m.Keys + {|m|}
    ensures forall k :: k in m ==> AddStore(m, r)[k] == m[k]
  {
    assert |m| !in m;
  }

  /**
   * Adding the records rs to a dense store of size n gives a dense store of
   * size n + |rs| that keeps the old records and holds rs[j], with identity
   * n + j, at key n + j: identities follow call order.
   */
  lemma {:induction false} AddAllDense(m: Records, rs: seq<Record>)
    requires Dense(m)
    ensures Dense(AddAll(m, rs))
    ensures |AddAll(m, rs)| == |m| + |rs|
    ensures forall k :: k in m ==> AddAll(m, rs)[k] == m[k]
    ensures forall j :: 0 <= j < |rs| ==> AddAll(m, rs)[|m| + j] == rs[j].(id := Some(|m| + j))
    decreases |rs|
  {
    if rs != [] {
      var prefix := rs[..|rs| - 1];
      AddAllDense(m, prefix);
      AddStoreDense(AddAll(m, prefix), rs[|rs| - 1]);
      forall j | 0 <= j < |rs|
        ensures AddAll(m, rs)[|m| + j] == rs[j].(id := Some(|m| + j))
      {
        if j < |rs| - 1 {
          assert prefix[j] == rs[j];
        }
      }
    }
  }

  /** From an empty store, n adds give exactly the identities 0 .. n-1, in call order. */
  lemma AddAllFromEmpty(rs: seq<Record>)
    ensures forall k :: k in AddAll(map[], rs) <==> 0 <= k < |rs|
    ensures forall j :: 0 <= j < |rs| ==> AddAll(map[], rs)[j] == rs[j].(id := Some(j))
  {
    AddAllDense(map[], rs);
  }

  /**
   * The latent hazard of append-by-size: after an update at an identity one
   * past the end, the store has a hole, and the next `add` lands on the
   * updated record's key, replacing it without growing the store.
   */
  lemma AddOverwritesAfterGap(m: Records, u: Record, r: Record)
    requires Dense(m)
    ensures |m[|m| + 1 := u]| == |m| + 1
    ensures |AddStore(m[|m| + 1 := u], r)| == |m| + 1
    ensures AddStore(m[|m| + 1 := u], r)[|m| + 1] == r.(id := Some(|m| + 1))
  {
    assert |m| + 1 !in m;
  }

  /** What `removeColumn` does to every stored record. */
  function DropColumn(m: Records, c: Column): (m': Records)
    ensures m'.Keys == m.Keys
    ensures forall k :: k in m ==> m'[k].X.Keys == m[k].X.Keys - {c}
    ensures forall k :: k in m ==> m'[k].Y == m[k].Y && m'[k].id == m[k].id
    ensures forall k, c' :: k in m && c' in m[k].X && c' != c ==> m'[k].X[c'] == m[k].X[c']
  {
    map k | k in m :: m[k].(X := m[k].X - {c})
  }

  /**
   * The store agrees with a schema whose typed columns are cs: each record
   * carries its own key as identity and has only typed columns.
   */
  ghost predicate Consistent(m: Records, cs: set<Column>) {
    IdsMatchKeys(m) && forall k :: k in m ==> m[k].X.Keys <= cs
  }

  /** Every record the iteration yields has only columns of cs. */
  lemma InOrderConsistent(m: Records, cs: set<Column>)
    ensures Consistent(m, cs) ==> forall i :: 0 <= i < |InOrder(m)| ==> InOrder(m)[i].X.Keys <= cs
  {
    forall i | 0 <= i < |InOrder(m)| && Consistent(m, cs) ensures InOrder(m)[i].X.Keys <= cs {
      InOrderAt(m, i);
      var k := SortedKeys(m.Keys)[i];
      assert k in m && InOrder(m)[i] == m[k];
      assert m[k].X.Keys <= cs;
    }
  }

  lemma DropColumnConsistent(m: Records, cs: set<Column>, c: Column)
    requires Consistent(m, cs)
    ensures Consistent(DropColumn(m, c), cs - {c})
  {
  }

  /** The records `generateNewSubset` looks up, in the order of the requested identities. */
  function Pick(m: Records, ids: seq<int>): (rs: seq<Record>)
    requires forall i :: 0 <= i < |ids| ==> ids[i] in m
    ensures |rs| == |ids|
    ensures forall j :: 0 <= j < |ids| ==> rs[j] == m[ids[j]]
    decreases |ids|
  {
    if ids == [] then [] else Pick(m, ids[..|ids| - 1]) + [m[ids[|ids| - 1]]]
  }

  lemma PickStep(m: Records, ids: seq<int>, j: nat)
    requires j < |ids|
    requires forall i :: 0 <= i <= j ==> ids[i] in m
    ensures Pick(m, ids[..j + 1]) == Pick(m, ids[..j]) + [m[ids[j]]]
  {
    assert ids[..j + 1][..j] == ids[..j];
  }
}
