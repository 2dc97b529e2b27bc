/** Concrete runs of the container that exhibit its documented policies. */
module Scenarios {
  import opened Wrappers
  import opened Values
  import opened Store
  import opened Schema
  import opened DataObjects

  const Age: Column := Other("age")

  /** A one-column observation, used to tell records apart. */
  function Obs(n: int): Record {
    Record(map[Other("n") := Integer(n)], Other("label"), None)
  }

  /** The first add to an empty store puts the record at key 0 with identity 0. */
  lemma OneAddFromEmpty(a: Record)
    ensures AddStore(map[], a) == map[0 := a.(id := Some(0))]
  {
  }

  /** Two adds to an empty store: keys 0 and 1, in order. */
  lemma TwoAddsFromEmpty(a: Record, b: Record)
    ensures AddStore(AddStore(map[], a), b) == map[0 := a.(id := Some(0)), 1 := b.(id := Some(1))]
  {
    OneAddFromEmpty(a);
    assert |map[0 := a.(id := Some(0))]| == 1;
  }

  /** Three adds to an empty store: keys 0, 1 and 2, in order. */
  lemma ThreeAddsFromEmpty(a: Record, b: Record, c: Record)
    ensures AddStore(AddStore(AddStore(map[], a), b), c)
         == map[0 := a.(id := Some(0)), 1 := b.(id := Some(1)), 2 := c.(id := Some(2))]
  {
    TwoAddsFromEmpty(a, b);
    var m2 := map[0 := a.(id := Some(0)), 1 := b.(id := Some(1))];
    assert |m2| == 2;
  }

  /**
   * The schema is frozen at the first observed type: after an update
   * replaces the only numeric age by a textual one the lazy schema still
   * says numerical, and only a rebuild reclassifies the column.
   */
  method SchemaFrozenUntilReset() returns (lazyType: ColumnType, resetType: ColumnType)
    ensures lazyType == Numerical && resetType == Categorical
  {
    var d := new Dataset();
    var a := Record(map[Age := Integer(30)], Other("adult"), None);
    var id := d.Add(a);
    OneAddFromEmpty(a);
    var b := Record(map[Age := Other("young")], Other("child"), Some(id));
    var _ := d.Update(b);
    lazyType := d.GetColumns()[Age];
    assert d.recordList == map[0 := b];
    InOrderSingleton(0, b);
    ghost var rs := d.Iterator();
    d.ResetMeta();
    FoldMetaFirstWins(map[], rs, Age, 0);
    resetType := d.GetColumns()[Age];
  }

  /** Three adds with an integer, a string and a short age: the column stays numerical throughout. */
  method AgeColumnExample() returns (t1: ColumnType, t2: ColumnType, t3: ColumnType)
    ensures t1 == Numerical && t2 == Numerical && t3 == Numerical
  {
    var d := new Dataset();
    var _ := d.Add(Record(map[Age := Integer(30)], Null, None));
    t1 := d.GetColumns()[Age];
    var _ := d.Add(Record(map[Age := Other("young")], Null, None));
    t2 := d.GetColumns()[Age];
    var _ := d.Add(Record(map[Age := Short(5)], Null, None));
    t3 := d.GetColumns()[Age];
  }

  /** The subset [2, 0, 1] of a three-record dataset holds source records 2, 0, 1 under identities 0, 1, 2. */
  method SubsetExample() returns (ok: bool, r0: Option<Record>, r1: Option<Record>, r2: Option<Record>)
    ensures ok
    ensures r0 == Some(Obs(2).(id := Some(0)))
    ensures r1 == Some(Obs(0).(id := Some(1)))
    ensures r2 == Some(Obs(1).(id := Some(2)))
  {
    var d := new Dataset();
    var _ := d.Add(Obs(0));
    var _ := d.Add(Obs(1));
    var _ := d.Add(Obs(2));
    ThreeAddsFromEmpty(Obs(0), Obs(1), Obs(2));
    var res := d.GenerateNewSubset([2, 0, 1]);
    ok := res.Success?;
    if !ok {
      r0, r1, r2 := None, None, None;
      return;
    }
    var sub := res.value;
    r0, r1, r2 := sub.Get(0), sub.Get(1), sub.Get(2);
  }

  /**
   * The append-by-size hazard: after two adds and an update at identity 3,
   * the next add is given identity 3 again and replaces the updated record;
   * the store does not grow.
   */
  method AddAfterGapOverwrites() returns (id: int, size: nat, stored: Option<Record>)
    ensures id == 3 && size == 3
    ensures stored == Some(Obs(2).(id := Some(3)))
  {
    var d := new Dataset();
    var _ := d.Add(Obs(0));
    var _ := d.Add(Obs(1));
    TwoAddsFromEmpty(Obs(0), Obs(1));
    var _ := d.Update(Obs(9).(id := Some(3)));
    id := d.Add(Obs(2));
    size := d.Size();
    stored := d.Get(3);
  }

  /** Removing a column twice: the second call reports false and changes nothing. */
  method RemoveColumnTwice(d: Dataset, column: Column) returns (first: bool, second: bool)
    requires d.Valid()
    modifies d
    ensures first <==> column in old(d.columns)
    ensures !second
    ensures d.columns == old(d.columns) - {column}
    ensures d.recordList == (if first then DropColumn(old(d.recordList), column) else old(d.recordList))
  {
    first := d.RemoveColumn(column);
    second := d.RemoveColumn(column);
  }
}
