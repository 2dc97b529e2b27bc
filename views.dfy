/**
 * Read-only projections of an ordered sequence of records: the grouping of
 * one column's values by label, and the total size of such a grouping.
 */
module Views {
  import opened Values

  /** The labels that occur among the records. */
  ghost function Labels(rs: seq<Record>): set<Value> {
    set i | 0 <= i < |rs| :: rs[i].Y
  }

  /** The values of column c in the records labelled y, in record order (absent columns give null). */
  ghost function Bucket(rs: seq<Record>, c: Column, y: Value): seq<Value>
    decreases |rs|
  {
    if rs == [] then []
    else
      var last := rs[|rs| - 1];
      Bucket(rs[..|rs| - 1], c, y) + (if last.Y == y then [ValueAt(last.X, c)] else [])
  }

  /** One bucket per label present. */
  ghost function Group(rs: seq<Record>, c: Column): map<Value, seq<Value>> {
    map y | y in Labels(rs) :: Bucket(rs, c, y)
  }

  lemma LabelsSnoc(rs: seq<Record>, r: Record)
    ensures Labels(rs + [r]) == Labels(rs) + {r.Y}
  {
    var rs' := rs + [r];
    assert rs'[|rs|] == r;
    forall y | y in Labels(rs) ensures y in Labels(rs') {
      var i :| 0 <= i < |rs| && rs[i].Y == y;
      assert rs'[i] == rs[i];
    }
  }

  /** A label that does not occur has an empty bucket; one that occurs has a non-empty bucket. */
  lemma {:induction false} BucketEmptyIffAbsent(rs: seq<Record>, c: Column, y: Value)
    ensures Bucket(rs, c, y) == [] <==> y !in Labels(rs)
    decreases |rs|
  {
    if rs != [] {
      var prefix := rs[..|rs| - 1];
      BucketEmptyIffAbsent(prefix, c, y);
      assert rs == prefix + [rs[|rs| - 1]];
      LabelsSnoc(prefix, rs[|rs| - 1]);
    }
  }

  /** Scanning one more record appends its value to its label's bucket, creating the bucket if new. */
  lemma GroupSnoc(rs: seq<Record>, r: Record, c: Column)
    ensures Group(rs + [r], c)
      == Group(rs, c)[r.Y := (if r.Y in Group(rs, c) then Group(rs, c)[r.Y] else []) + [ValueAt(r.X, c)]]
  {
    var rs' := rs + [r];
    assert rs'[..|rs'| - 1] == rs;
    LabelsSnoc(rs, r);
    BucketEmptyIffAbsent(rs, c, r.Y);
    var g, g' := Group(rs, c), Group(rs', c);
    var expected := g[r.Y := (if r.Y in g then g[r.Y] else []) + [ValueAt(r.X, c)]];
    assert g'.Keys == expected.Keys;
    forall y | y in g' ensures g'[y] == expected[y] {
      assert Bucket(rs', c, y) == Bucket(rs, c, y) + (if r.Y == y then [ValueAt(r.X, c)] else []);
    }
  }

  lemma GroupStep(rs: seq<Record>, i: nat, c: Column)
    requires i < |rs|
    ensures Group(rs[..i + 1], c)
      == Group(rs[..i], c)[rs[i].Y := (if rs[i].Y in Group(rs[..i], c) then Group(rs[..i], c)[rs[i].Y] else []) + [ValueAt(rs[i].X, c)]]
  {
    assert rs[..i + 1] == rs[..i] + [rs[i]];
    GroupSnoc(rs[..i], rs[i], c);
  }

  /** The total length of the buckets named by ks. */
  ghost function SumLengths(t: map<Value, seq<Value>>, ks: set<Value>): nat
    requires ks <= t.Keys
    decreases ks
  {
    if ks == {} then 0
    else
      var k :| k in ks;
      |t[k]| + SumLengths(t, ks - {k})
  }

  lemma {:induction false} SumLengthsRemove(t: map<Value, seq<Value>>, ks: set<Value>, k: Value)
    requires ks <= t.Keys && k in ks
    ensures SumLengths(t, ks) == |t[k]| + SumLengths(t, ks - {k})
    decreases ks
  {
    var k0 :| k0 in ks && SumLengths(t, ks) == |t[k0]| + SumLengths(t, ks - {k0});
    if k0 != k {
      SumLengthsRemove(t, ks - {k0}, k);
      SumLengthsRemove(t, ks - {k}, k0);
      assert ks - {k0} - {k} == ks - {k} - {k0};
    }
  }

  lemma {:induction false} SumLengthsFrame(t: map<Value, seq<Value>>, t': map<Value, seq<Value>>, ks: set<Value>)
    requires ks <= t.Keys && ks <= t'.Keys
    requires forall k :: k in ks ==> t[k] == t'[k]
    ensures SumLengths(t, ks) == SumLengths(t', ks)
    decreases ks
  {
    if ks != {} {
      var k :| k in ks && SumLengths(t, ks) == |t[k]| + SumLengths(t, ks - {k});
      SumLengthsRemove(t', ks, k);
      SumLengthsFrame(t, t', ks - {k});
    }
  }

  /** Every record's value lands in exactly one bucket: the bucket lengths sum to the record count. */
  lemma {:induction false} GroupSizes(rs: seq<Record>, c: Column)
    ensures SumLengths(Group(rs, c), Labels(rs)) == |rs|
    decreases |rs|
  {
    if rs == [] {
      assert Labels(rs) == {};
    } else {
      var prefix, r := rs[..|rs| - 1], rs[|rs| - 1];
      assert rs == prefix + [r];
      GroupSizes(prefix, c);
      GroupSnoc(prefix, r, c);
      LabelsSnoc(prefix, r);
      var g, g' := Group(prefix, c), Group(rs, c);
      var ks := Labels(prefix);
      SumLengthsRemove(g', Labels(rs), r.Y);
      if r.Y in ks {
        SumLengthsRemove(g, ks, r.Y);
        assert Labels(rs) - {r.Y} == ks - {r.Y};
        SumLengthsFrame(g, g', ks - {r.Y});
      } else {
        assert Labels(rs) - {r.Y} == ks;
        SumLengthsFrame(g, g', ks);
      }
    }
  }
}
