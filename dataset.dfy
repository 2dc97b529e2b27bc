/**
 * The Dataset container: a record store keyed by identity, iterated in
 * ascending identity order, and a lazily inferred schema.
 */
module DataObjects {
  import opened Wrappers
  import opened Values
  import opened Store
  import opened Schema
  import opened Views

  /** The exceptions the container's operations can throw. */
  datatype Exception = IllegalArgumentException | NullPointerException

  /**
   * On a dataset built only by `add` from empty, rebuilding the schema from
   * the stored records gives the schema the adds built incrementally.
   */
  lemma ResetAgreesWithAdds(rs: seq<Record>)
    ensures FoldMeta(map[], InOrder(AddAll(map[], rs))) == FoldMeta(map[], rs)
  {
    var m := AddAll(map[], rs);
    AddAllDense(map[], rs);
    InOrderDense(m);
    forall i | 0 <= i < |rs| ensures InOrder(m)[i].X == rs[i].X {
      assert InOrder(m)[i] == m[0 + i];
    }
    FoldMetaOnlyX(map[], InOrder(m), rs);
  }

  /** One more requested identity adds its record to the subset and observes its features. */
  lemma SubsetStep(m: Records, ids: seq<int>, j: nat)
    requires j < |ids|
    requires forall i :: 0 <= i <= j ==> ids[i] in m
    ensures AddAll(map[], Pick(m, ids[..j + 1])) == AddStore(AddAll(map[], Pick(m, ids[..j])), m[ids[j]])
    ensures FoldMeta(map[], Pick(m, ids[..j + 1])) == UpdatedSchema(FoldMeta(map[], Pick(m, ids[..j])), m[ids[j]].X)
  {
    PickStep(m, ids, j);
    var picked := Pick(m, ids[..j + 1]);
    AddAllStep(map[], picked, j);
    FoldMetaStep(map[], picked, j);
    assert picked[..j] == Pick(m, ids[..j]);
  }

  /**
   * A subset built from the requested identities holds exactly the keys
   * 0..|ids|-1, and under key j a copy of the record stored at ids[j] that
   * carries identity j.
   */
  lemma SubsetContents(m: Records, ids: seq<int>)
    requires forall i :: 0 <= i < |ids| ==> ids[i] in m
    ensures forall k :: k in AddAll(map[], Pick(m, ids)) <==> 0 <= k < |ids|
    ensures forall j :: 0 <= j < |ids| ==> AddAll(map[], Pick(m, ids))[j] == m[ids[j]].(id := Some(j))
  {
    AddAllFromEmpty(Pick(m, ids));
  }

  class Dataset {
    /** The records by identity (a TreeMap: read in ascending key order). */
    var recordList: map<int, Record>
    /** The type of every column seen so far. */
    var columns: map<Column, ColumnType>

    /**
     * What every operation keeps: a stored record carries its own key as
     * identity, and every column of a stored record is typed in the schema.
     */
    ghost predicate Valid()
      reads this
    {
      Consistent(recordList, columns.Keys)
    }

    constructor ()
      ensures Valid()
      ensures recordList == map[] && columns == map[]
    {
      recordList := map[];
      columns := map[];
    }

    /**
     * The read-only iteration: the stored records, in strictly ascending
     * identity order (Store.InOrderAt and Store.InOrderAscending).
     */
    function Iterator(): (rs: seq<Record>)
      reads this
      ensures |rs| == |recordList|
    {
      InOrder(recordList)
    }

    /** The schema (the Java code wraps it read-only). */
    function GetColumns(): (cs: map<Column, ColumnType>)
      reads this
      ensures Valid() ==> forall i :: 0 <= i < |Iterator()| ==> Iterator()[i].X.Keys <= cs.Keys
    {
      InOrderConsistent(recordList, columns.Keys);
      columns
    }

    function GetColumnSize(): (n: nat)
      reads this
      ensures n == |GetColumns().Keys|
    {
      |columns|
    }

    function Size(): (n: nat)
      reads this
      ensures n == |Iterator()|
    {
      |recordList|
    }

    function IsEmpty(): (b: bool)
      reads this
      ensures b <==> Size() == 0
      ensures b <==> Iterator() == []
    {
      |recordList| == 0
    }

    /** The record stored under an identity, or null. */
    function Get(id: int): (r: Option<Record>)
      reads this
      ensures r.Some? <==> id in recordList
      ensures r.Some? ==> r.value == recordList[id]
      ensures Valid() && r.Some? ==> r.value.id == Some(id)
    {
      if id in recordList then Some(recordList[id]) else None
    }

    /** The value of a column in every record, in ascending identity order; null where the column is absent. */
    method ExtractColumnValues(column: Column) returns (flat: seq<Value>)
      ensures |flat| == Size()
      ensures forall i :: 0 <= i < |flat| ==> flat[i] == ValueAt(Iterator()[i].X, column)
    {
      var rs := Iterator();
      flat := [];
      for i := 0 to |rs|
        invariant |flat| == i
        invariant forall j :: 0 <= j < i ==> flat[j] == ValueAt(rs[j].X, column)
      {
        flat := flat + [ValueAt(rs[i].X, column)];
      }
    }

    /** The label of every record, in ascending identity order. */
    method ExtractYValues() returns (flat: seq<Value>)
      ensures |flat| == Size()
      ensures forall i :: 0 <= i < |flat| ==> flat[i] == Iterator()[i].Y
    {
      var rs := Iterator();
      flat := [];
      for i := 0 to |rs|
        invariant |flat| == i
        invariant forall j :: 0 <= j < i ==> flat[j] == rs[j].Y
      {
        flat := flat + [rs[i].Y];
      }
    }

    /**
     * One bucket per label present; each lists, in ascending identity order,
     * the column's values in the records with that label; the bucket
     * lengths add up to the number of records.
     */
    method ExtractColumnValuesByY(column: Column) returns (t: map<Value, seq<Value>>)
      ensures t.Keys == Labels(Iterator())
      ensures forall y :: y in t ==> t[y] == Bucket(Iterator(), column, y)
      ensures SumLengths(t, t.Keys) == Size()
    {
      var rs := Iterator();
      t := map[];
      for i := 0 to |rs|
        invariant t == Group(rs[..i], column)
      {
        var y := rs[i].Y;
        var bucket := if y in t then t[y] else [];
        t := t[y := bucket + [ValueAt(rs[i].X, column)]];
        GroupStep(rs, i, column);
      }
      assert rs[..|rs|] == rs;
      GroupSizes(rs, column);
    }

    /** Observes a record's features: each column not yet typed gets the type of its value. */
    method UpdateMeta(r: Record)
      modifies this`columns
      ensures columns == UpdatedSchema(old(columns), r.X)
      ensures old(Valid()) ==> Valid()
    {
      var remaining := r.X.Keys;
      while remaining != {}
        invariant remaining <= r.X.Keys
        invariant columns == UpdatedSchema(old(columns), r.X - remaining)
        decreases remaining
      {
        var column :| column in remaining;
        if column !in columns {
          columns := columns[column := Value2ColumnType(r.X[column])];
        }
        remaining := remaining - {column};
      }
      assert r.X - {} == r.X;
    }

    /**
     * Stores a copy of the record under the next identity, which is the
     * current size, updates the schema and returns that identity.
     */
    method Add(original: Record) returns (id: int)
      requires Valid()
      modifies this
      ensures Valid()
      ensures id == old(Size())
      ensures recordList == AddStore(old(recordList), original)
      ensures recordList[id] == original.(id := Some(id))
      ensures columns == UpdatedSchema(old(columns), original.X)
    {
      var newRecord := original.(id := Some(|recordList|));
      id := |recordList|;
      recordList := recordList[id := newRecord];
      UpdateMeta(newRecord);
    }

    /** Stores the record under its own identity; a record without one is refused. */
    method Update(r: Record) returns (res: Result<int, Exception>)
      requires Valid()
      modifies this
      ensures Valid()
      ensures r.id.None? ==> res == Failure(IllegalArgumentException) && unchanged(this)
      ensures r.id.Some? ==> res == Success(r.id.value)
      ensures r.id.Some? ==> recordList == old(recordList)[r.id.value := r]
      ensures r.id.Some? ==> columns == UpdatedSchema(old(columns), r.X)
    {
      if r.id.None? {
        return Failure(IllegalArgumentException);
      }
      var id := r.id.value;
      recordList := recordList[id := r];
      UpdateMeta(r);
      return Success(id);
    }

    /**
     * Drops a column from the schema and from every stored record; reports
     * whether the schema had it, and changes nothing when it did not.
     */
    method RemoveColumn(column: Column) returns (removed: bool)
      requires Valid()
      modifies this
      ensures Valid()
      ensures removed <==> column in old(columns)
      ensures removed ==> columns == old(columns) - {column} && recordList == DropColumn(old(recordList), column)
      ensures !removed ==> unchanged(this)
      ensures column !in columns && forall k :: k in recordList ==> column !in recordList[k].X
    {
      if column !in columns {
        return false;
      }
      columns := columns - {column};
      ghost var before := recordList;
      var remaining := recordList.Keys;
      while remaining != {}
        invariant columns == old(columns) - {column}
        invariant recordList.Keys == before.Keys && remaining <= before.Keys
        invariant forall k :: k in recordList ==>
          recordList[k] == if k in remaining then before[k] else before[k].(X := before[k].X - {column})
        decreases remaining
      {
        NonEmpty(remaining);
        var k :| k in remaining;
        recordList := recordList[k := recordList[k].(X := recordList[k].X - {column})];
        remaining := remaining - {k};
      }
      assert recordList == DropColumn(before, column) by {
        forall k | k in recordList ensures recordList[k] == DropColumn(before, column)[k] {
        }
      }
      DropColumnConsistent(before, old(columns).Keys, column);
      return true;
    }

    /** Rebuilds the schema from the current records, observed in ascending identity order. */
    method ResetMeta()
      requires Valid()
      modifies this`columns
      ensures Valid()
      ensures columns == FoldMeta(map[], Iterator())
    {
      columns := map[];
      var rs := Iterator();
      for i := 0 to |rs|
        invariant columns == FoldMeta(map[], rs[..i])
      {
        UpdateMeta(rs[i]);
        FoldMetaStep(map[], rs, i);
      }
      assert rs[..|rs|] == rs;
      forall k, c | k in recordList && c in recordList[k].X ensures c in columns {
        InOrderCovers(recordList, k);
        FoldMetaKeys(map[], rs, c);
      }
    }

    /** Adds a copy of every record of d, in d's iteration order; d is left untouched. */
    method Merge(d: Dataset)
      requires Valid() && d != this
      modifies this
      ensures Valid()
      ensures unchanged(d)
      ensures recordList == AddAll(old(recordList), d.Iterator())
      ensures columns == FoldMeta(old(columns), d.Iterator())
    {
      var rs := d.Iterator();
      for i := 0 to |rs|
        invariant Valid()
        invariant recordList == AddAll(old(recordList), rs[..i])
        invariant columns == FoldMeta(old(columns), rs[..i])
      {
        var _ := Add(rs[i]);
        AddAllStep(old(recordList), rs, i);
        FoldMetaStep(old(columns), rs, i);
      }
      assert rs[..|rs|] == rs;
    }

    /**
     * A fresh dataset holding copies of the records with the given
     * identities, in the given order and with new identities 0, 1, ...; an
     * identity that is not stored makes the Java code throw, and nothing is returned.
     */
    method GenerateNewSubset(ids: seq<int>) returns (res: Result<Dataset, Exception>)
      ensures res.Success? <==> forall i :: 0 <= i < |ids| ==> ids[i] in recordList
      ensures res.Failure? ==> res.error == NullPointerException
      ensures res.Success? ==> fresh(res.value) && res.value.Valid()
      ensures res.Success? ==> res.value.recordList == AddAll(map[], Pick(recordList, ids))
      ensures res.Success? ==> res.value.columns == FoldMeta(map[], Pick(recordList, ids))
      ensures res.Success? ==> forall k :: k in res.value.recordList <==> 0 <= k < |ids|
      ensures res.Success? ==> forall j :: 0 <= j < |ids| ==> res.value.recordList[j] == recordList[ids[j]].(id := Some(j))
    {
      var d := new Dataset();
      for j := 0 to |ids|
        invariant fresh(d) && d.Valid()
        invariant forall i :: 0 <= i < j ==> ids[i] in recordList
        invariant d.recordList == AddAll(map[], Pick(recordList, ids[..j]))
        invariant d.columns == FoldMeta(map[], Pick(recordList, ids[..j]))
      {
        if ids[j] !in recordList {
          return Failure(NullPointerException);
        }
        var _ := d.Add(recordList[ids[j]]);
        SubsetStep(recordList, ids, j);
      }
      assert ids[..|ids|] == ids;
      SubsetContents(recordList, ids);
      return Success(d);
    }

    /** Discards every record and every schema entry. */
    method Clear()
      modifies this
      ensures Valid()
      ensures recordList == map[] && columns == map[]
      ensures Size() == 0 && GetColumns() == map[]
    {
      recordList := map[];
      columns := map[];
    }
  }
}
