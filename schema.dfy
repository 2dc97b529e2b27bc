/**
 * The schema engine: one ColumnType per column, filled in lazily and never
 * re-typed (insert-if-absent), and its rebuild from a sequence of records.
 */
module Schema {
  import opened Values

  type Schema = map<Column, ColumnType>

  /** What `updateMeta` does to the schema when it observes features x. */
  function UpdatedSchema(s: Schema, x: map<Column, Value>): (s': Schema)
    ensures s'.Keys == s.Keys + x.Keys
    ensures forall c :: c in s ==> s'[c] == s[c]
    ensures forall c :: c in x && c !in s ==> s'[c] == Value2ColumnType(x[c])
  {
    (map c | c in x :: Value2ColumnType(x[c])) + s
  }

  /** Observing the records rs one after another, starting from schema s. */
  function FoldMeta(s: Schema, rs: seq<Record>): Schema
    decreases |rs|
  {
    if rs == [] then s else UpdatedSchema(FoldMeta(s, rs[..|rs| - 1]), rs[|rs| - 1].X)
  }

  lemma FoldMetaStep(s: Schema, rs: seq<Record>, i: nat)
    requires i < |rs|
    ensures FoldMeta(s, rs[..i + 1]) == UpdatedSchema(FoldMeta(s, rs[..i]), rs[i].X)
  {
    assert rs[..i + 1][..i] == rs[..i];
  }

  /** The folded schema types exactly the columns of s and of the observed records. */
  lemma {:induction false} FoldMetaKeys(s: Schema, rs: seq<Record>, c: Column)
    ensures c in FoldMeta(s, rs) <==> c in s || exists i :: 0 <= i < |rs| && c in rs[i].X
    decreases |rs|
  {
    if rs != [] {
      var prefix := rs[..|rs| - 1];
      FoldMetaKeys(s, prefix, c);
      if exists i :: 0 <= i < |rs| && c in rs[i].X {
        var i :| 0 <= i < |rs| && c in rs[i].X;
        if i < |rs| - 1 {
          assert prefix[i] == rs[i];
        }
      }
      if exists i :: 0 <= i < |prefix| && c in prefix[i].X {
        var i :| 0 <= i < |prefix| && c in prefix[i].X;
        assert rs[i] == prefix[i];
      }
    }
  }

  /** A column typed before the fold keeps its type (first write wins). */
  lemma {:induction false} FoldMetaKeeps(s: Schema, rs: seq<Record>, c: Column)
    requires c in s
    ensures c in FoldMeta(s, rs) && FoldMeta(s, rs)[c] == s[c]
    decreases |rs|
  {
    if rs != [] {
      FoldMetaKeeps(s, rs[..|rs| - 1], c);
    }
  }

  /**
   * A column that s does not type gets the type of its value in the first
   * observed record that has it; later records never re-type it.
   */
  lemma {:induction false} FoldMetaFirstWins(s: Schema, rs: seq<Record>, c: Column, i: nat)
    requires c !in s && i < |rs| && c in rs[i].X
    requires forall j :: 0 <= j < i ==> c !in rs[j].X
    ensures c in FoldMeta(s, rs) && FoldMeta(s, rs)[c] == Value2ColumnType(rs[i].X[c])
    decreases |rs|
  {
    var prefix := rs[..|rs| - 1];
    if i < |rs| - 1 {
      assert prefix[i] == rs[i];
      FoldMetaFirstWins(s, prefix, c, i);
    } else {
      FoldMetaKeys(s, prefix, c);
      assert forall k :: 0 <= k < |prefix| ==> prefix[k] == rs[k];
    }
  }

  /** The fold reads only the features of the records, not their labels or identities. */
  lemma {:induction false} FoldMetaOnlyX(s: Schema, rs: seq<Record>, rs': seq<Record>)
    requires |rs| == |rs'|
    requires forall i :: 0 <= i < |rs| ==> rs[i].X == rs'[i].X
    ensures FoldMeta(s, rs) == FoldMeta(s, rs')
    decreases |rs|
  {
    if rs != [] {
      FoldMetaOnlyX(s, rs[..|rs| - 1], rs'[..|rs'| - 1]);
    }
  }
}
