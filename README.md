# Dataset: an in-memory table of labelled records with lazy schema inference

This project models `Dataset`, the container at the centre of the datumbox
framework's data model (`com.datumbox.common.dataobjects`), and proves
properties of the model. A dataset holds two maps:

- `recordList`, a `TreeMap<Integer, Record>` from identity to record. It is read in ascending identity order.
- `columns`, a map from column to `ColumnType`. It is filled lazily as records are stored.

Its operations fall into three groups:

- **Record store.** `add` stores a copy of a record under the identity `size()` (append-by-size). `update` stores a record under its own identity. `removeColumn` drops a column from the schema and from every record. `clear` empties both maps. There are also the read-only `size`, `isEmpty`, `get`, `getColumns`, `getColumnSize` and the iterator.
- **Schema engine.** `value2ColumnType` classifies one value. `updateMeta` types each column it has not seen before and never re-types a column: the first type seen wins. `resetMeta` rebuilds the schema from the records currently stored.
- **Views and derived datasets.** `extractColumnValues`, `extractYValues` and `extractColumnValuesByY` project one column and the labels. `generateNewSubset` and `merge` build new data through `add`.

## How the model is laid out

- `wrappers.dfy`: `Option` (a nullable reference) and `Result` (a value or a thrown exception).
- `values.dfy`: `Value`, a closed tagged type of the Java runtime classes the classifier tests (`Double`, `Integer`, `Long`, `Float`, `Boolean`, `Short`, any other `Number`, and any other object). It also has `Null`, the null reference. The file also holds `ColumnType`, `Value2ColumnType`, the `Record` datatype and `ValueAt`, which is Java's `Map.get` (null when the key is absent).
  - Column identifiers are `Value`s, because the Java code uses arbitrary objects.
  - The two reserved names `~constant` and `~Y` are the constants `ConstantColumnName` and `YColumnName`.
- `store.dfy`: the record store as a value of type `map<int, Record>`.
  - `SortedKeys` gives the keys in ascending order and `InOrder` the records in that order. Together they are the TreeMap iteration.
  - `AddStore` and `AddAll` give the effect of one `add` and of a sequence of them.
  - `DropColumn` gives the effect of `removeColumn` on the records, and `Pick` gives the lookups done by `generateNewSubset`.
- `schema.dfy`: `UpdatedSchema` is what `updateMeta` computes. `FoldMeta` observes a sequence of records, which is what `resetMeta` and a run of adds compute.
- `views.dfy`: the reference definition of the grouped extraction:
  - `Labels`: the labels present;
  - `Bucket`: the values under one label, in record order;
  - `Group`: one bucket per label;
  - `SumLengths`: the total length of the buckets.
- `dataset.dfy`: the class `DataObjects.Dataset`. It has the two map fields and one method or function per operation. Each is proved against the functions above.
- `scenarios.dfy`: concrete runs that show the documented policies: the frozen schema, the subset example and the overwrite after a gap.

`Dataset.Valid()` holds after the constructor and after every operation:

- every stored record carries its own key as its identity;
- every column of a stored record is typed in the schema.

`Add`, `Update`, `RemoveColumn`, `ResetMeta` and `Merge` require it and re-establish it. `UpdateMeta` keeps it whenever it held before the call. `Add` calls `UpdateMeta` in the middle of its update, before the invariant holds again. `Clear` establishes it from any state.

Two behaviours of the code differ from what a reader might expect, and this model follows the code:

- **Rebuilding after adds only.** One might expect that adding a numeric record A, then a textual record B, then calling `resetMeta` changes the column's type. In the code, `resetMeta` observes the records in ascending identity order, so A is seen first again and the type stays numerical. `ResetAgreesWithAdds` proves this for every dataset built only by `add`. The type changes only when the stored contents change: `SchemaFrozenUntilReset` uses an `update` to show this.
- **Missing identity in `generateNewSubset`.** The code does not report a lookup failure. It passes `null` to `add`, which throws a `NullPointerException`. The model returns `Failure(NullPointerException)` and no dataset.

## Model

| member | source | states |
|---|---|---|
| `Values.Value2ColumnType` | src/main/java/com/datumbox/common/dataobjects/Dataset.java:47-66 | numerical exactly for numbers other than Short; dummy variable exactly for booleans; ordinal exactly for shorts; categorical exactly for non-numbers other than booleans (null included) |
| `Store.SortedKeys` | src/main/java/com/datumbox/common/dataobjects/Dataset.java:71 | the TreeMap's key order: one entry per key, every entry a key, strictly increasing |
| `Store.SortedKeysCovers` | src/main/java/com/datumbox/common/dataobjects/Dataset.java:301 | every stored key occurs in the ascending key sequence |
| `Store.InOrder` | src/main/java/com/datumbox/common/dataobjects/Dataset.java:299-311 | iteration yields as many records as are stored |
| `Store.InOrderAt` | src/main/java/com/datumbox/common/dataobjects/Dataset.java:301-311 | position i of the iteration is the record under the i-th smallest key |
| `Store.InOrderCovers` | src/main/java/com/datumbox/common/dataobjects/Dataset.java:299-311 | every stored record is yielded at the position of its key |
| `Store.InOrderAscending` | src/main/java/com/datumbox/common/dataobjects/Dataset.java:299-311 | when records carry their keys, iteration yields strictly ascending identities |
| `Store.InOrderSingleton` | src/main/java/com/datumbox/common/dataobjects/Dataset.java:299-311 | a one-record store iterates exactly that record |
| `Store.InOrderDense` | src/main/java/com/datumbox/common/dataobjects/Dataset.java:299-311 | on a store with identities 0..n-1, position i of the iteration is identity i |
| `Store.AddStoreDense` | src/main/java/com/datumbox/common/dataobjects/Dataset.java:255-264 | on a dense store, add uses a fresh identity equal to the old size, grows the store by one, keeps every old record and keeps it dense |
| `Store.AddAllDense` | src/main/java/com/datumbox/common/dataobjects/Dataset.java:240-264 | adding records r0..rk-1 to a dense store of size n keeps the old records and stores rj with identity n+j at key n+j |
| `Store.AddAllFromEmpty` | src/main/java/com/datumbox/common/dataobjects/Dataset.java:255-264 | from empty, n adds give exactly the keys 0..n-1, the j-th add's record at key j with identity j |
| `Store.AddOverwritesAfterGap` | src/main/java/com/datumbox/common/dataobjects/Dataset.java:258-282 | after an update at identity size() + 1, which leaves key size() empty, the next add lands on the updated key, replaces that record and does not grow the store |
| `Values.IsNumber` | src/main/java/com/datumbox/common/dataobjects/Dataset.java:60 | whether the value's runtime class is a subclass of Number (its body lists the six number variants); `Value2ColumnType`'s contract is stated with it |
| `Values.ValueAt` | src/main/java/com/datumbox/common/dataobjects/Dataset.java:122 | Map.get on a record's features: the stored value when the column is present, null otherwise (no contract of its own; `ExtractColumnValues` and `Views.Bucket` use it) |
| `Store.AddStore` | src/main/java/com/datumbox/common/dataobjects/Dataset.java:258-260 | the store write of add: the copy, carrying identity size(), goes under key size() (no contract of its own; `AddStoreDense` and `AddOverwritesAfterGap` prove its properties) |
| `Store.AddAll` | src/main/java/com/datumbox/common/dataobjects/Dataset.java:240-245 | a run of adds in order, each one an `AddStore` on the result of the last (no contract of its own; `AddAllDense` and `AddAllFromEmpty` prove its properties) |
| `Store.DropColumn` | src/main/java/com/datumbox/common/dataobjects/Dataset.java:202-204 | same identities; each record loses exactly that column; labels, identities and all other column values unchanged |
| `Store.InOrderConsistent` | src/main/java/com/datumbox/common/dataobjects/Dataset.java:217-226 | when the store agrees with the schema, every iterated record has only typed columns |
| `Store.DropColumnConsistent` | src/main/java/com/datumbox/common/dataobjects/Dataset.java:200-210 | dropping a column from both the records and the schema keeps them in agreement |
| `Store.Pick` | src/main/java/com/datumbox/common/dataobjects/Dataset.java:178-179 | the looked-up records, one per requested identity, in request order |
| `Schema.UpdatedSchema` | src/main/java/com/datumbox/common/dataobjects/Dataset.java:217-226 | keys become old keys plus the record's columns; existing types unchanged; each new column typed by its value |
| `Schema.FoldMeta` | src/main/java/com/datumbox/common/dataobjects/Dataset.java:228-233 | the schema after observing the records one after another, each observation an `UpdatedSchema` (no contract of its own; `FoldMetaKeys`, `FoldMetaKeeps`, `FoldMetaFirstWins` and `FoldMetaOnlyX` prove its properties) |
| `Schema.FoldMetaKeys` | src/main/java/com/datumbox/common/dataobjects/Dataset.java:228-233 | the rebuilt schema types exactly the columns that some observed record has |
| `Schema.FoldMetaKeeps` | src/main/java/com/datumbox/common/dataobjects/Dataset.java:222-224 | a column typed before a run of observations keeps its type (first write wins) |
| `Schema.FoldMetaFirstWins` | src/main/java/com/datumbox/common/dataobjects/Dataset.java:222-233 | a new column gets the type of its value in the first observed record that has it |
| `Schema.FoldMetaOnlyX` | src/main/java/com/datumbox/common/dataobjects/Dataset.java:218-220 | observing records depends only on their features, not on labels or identities |
| `Views.Labels` | src/main/java/com/datumbox/common/dataobjects/Dataset.java:153-165 | the set of labels among the records (no contract of its own; `LabelsSnoc` and `BucketEmptyIffAbsent` use it) |
| `Views.Bucket` | src/main/java/com/datumbox/common/dataobjects/Dataset.java:156-162 | the column values, null where absent, of the records with one label, in record order (no contract of its own; `BucketEmptyIffAbsent`, `GroupSnoc` and `GroupSizes` prove its properties) |
| `Views.Group` | src/main/java/com/datumbox/common/dataobjects/Dataset.java:153-165 | one bucket per label present: the reference the grouping loop is proved against (no contract of its own; `GroupSnoc` and `GroupSizes` prove its properties) |
| `Views.BucketEmptyIffAbsent` | src/main/java/com/datumbox/common/dataobjects/Dataset.java:157-159 | a label's bucket is non-empty exactly when the label occurs |
| `Views.GroupSnoc` | src/main/java/com/datumbox/common/dataobjects/Dataset.java:156-162 | scanning one more record appends its column value to its label's bucket, creating the bucket on a new label |
| `Views.GroupSizes` | src/main/java/com/datumbox/common/dataobjects/Dataset.java:153-165 | the bucket lengths add up to the number of records |
| `DataObjects.ResetAgreesWithAdds` | src/main/java/com/datumbox/common/dataobjects/Dataset.java:228-264 | for a dataset built only by add, rebuilding the schema gives the schema the adds built |
| `DataObjects.SubsetContents` | src/main/java/com/datumbox/common/dataobjects/Dataset.java:175-182 | a subset of stored identities holds exactly the keys 0..n-1, with the record stored at the j-th requested identity under key j and carrying identity j |
| `DataObjects.Dataset.constructor` | src/main/java/com/datumbox/common/dataobjects/Dataset.java:70-73 | empty store, empty schema, invariant holds |
| `DataObjects.Dataset.Iterator` | src/main/java/com/datumbox/common/dataobjects/Dataset.java:298-318 | one yielded record per stored record; the order is strictly ascending identity order, proved by `Store.InOrderAt` and `Store.InOrderAscending` |
| `DataObjects.Dataset.GetColumns` | src/main/java/com/datumbox/common/dataobjects/Dataset.java:80-82 | every column of every stored record is typed in the returned schema |
| `DataObjects.Dataset.GetColumnSize` | src/main/java/com/datumbox/common/dataobjects/Dataset.java:89-91 | the number of typed columns |
| `DataObjects.Dataset.Size` | src/main/java/com/datumbox/common/dataobjects/Dataset.java:98-100 | the number of records an iteration yields |
| `DataObjects.Dataset.IsEmpty` | src/main/java/com/datumbox/common/dataobjects/Dataset.java:107-109 | true exactly when the size is 0, and exactly when iteration yields nothing |
| `DataObjects.Dataset.Get` | src/main/java/com/datumbox/common/dataobjects/Dataset.java:190-192 | present exactly for stored identities; the stored record, which carries that identity |
| `DataObjects.Dataset.ExtractColumnValues` | src/main/java/com/datumbox/common/dataobjects/Dataset.java:118-126 | length size(); element i is the column value of the i-th record in ascending identity order, null if absent |
| `DataObjects.Dataset.ExtractYValues` | src/main/java/com/datumbox/common/dataobjects/Dataset.java:134-142 | length size(); element i is the label of the i-th record in ascending identity order |
| `DataObjects.Dataset.ExtractColumnValuesByY` | src/main/java/com/datumbox/common/dataobjects/Dataset.java:153-165 | bucket keys are exactly the labels present; each bucket lists, in identity order, the column values of the records with that label; bucket lengths sum to size() |
| `DataObjects.Dataset.UpdateMeta` | src/main/java/com/datumbox/common/dataobjects/Dataset.java:217-226 | the new schema is the old schema updated insert-if-absent by the record's features |
| `DataObjects.Dataset.Add` | src/main/java/com/datumbox/common/dataobjects/Dataset.java:255-264 | returns the old size; stores the record's X and Y under that key with that identity; schema updated by its features; invariant kept |
| `DataObjects.Dataset.Update` | src/main/java/com/datumbox/common/dataobjects/Dataset.java:273-282 | no identity: IllegalArgumentException and nothing changes; otherwise stores the record at its identity, updates the schema and returns the identity |
| `DataObjects.Dataset.RemoveColumn` | src/main/java/com/datumbox/common/dataobjects/Dataset.java:200-210 | true exactly when the schema had the column; then schema minus the column and every record minus the column; otherwise nothing changes; afterwards no record or schema entry has it |
| `DataObjects.Dataset.ResetMeta` | src/main/java/com/datumbox/common/dataobjects/Dataset.java:228-233 | the schema is rebuilt from empty by observing the records in ascending identity order; records unchanged; invariant kept |
| `DataObjects.Dataset.Merge` | src/main/java/com/datumbox/common/dataobjects/Dataset.java:240-245 | equal to one add per record of d in d's iteration order; d unchanged |
| `DataObjects.Dataset.GenerateNewSubset` | src/main/java/com/datumbox/common/dataobjects/Dataset.java:175-182 | succeeds exactly when every identity is stored; then a fresh dataset equal to adding the looked-up records in order from empty, holding exactly the keys 0..n-1 with the record from the j-th requested identity under key j and carrying identity j; otherwise NullPointerException; the source is not modified |
| `DataObjects.Dataset.Clear` | src/main/java/com/datumbox/common/dataobjects/Dataset.java:287-291 | size 0 and an empty schema |
| `Scenarios.SchemaFrozenUntilReset` | src/main/java/com/datumbox/common/dataobjects/Dataset.java:222-233 | after an update replaces a numeric value by a text, the lazy type stays numerical and the rebuilt type is categorical |
| `Scenarios.AgeColumnExample` | src/main/java/com/datumbox/common/dataobjects/Dataset.java:222-224 | adds of an integer, a string and a short age leave the column numerical throughout |
| `Scenarios.SubsetExample` | src/main/java/com/datumbox/common/dataobjects/Dataset.java:175-182 | subset [2, 0, 1] of three records holds source records 2, 0, 1 under identities 0, 1, 2 |
| `Scenarios.AddAfterGapOverwrites` | src/main/java/com/datumbox/common/dataobjects/Dataset.java:255-282 | two adds, then an update at identity 3, then an add: the add returns 3, replaces the updated record, and the size stays 3 |
| `Scenarios.RemoveColumnTwice` | src/main/java/com/datumbox/common/dataobjects/Dataset.java:200-210 | a second removal of the same column returns false and changes nothing more |

## Left out

- DataObjects.Dataset.Merge: requires `d != this`. When a dataset is merged into itself, the Java code iterates the TreeMap while adding to it. It throws a ConcurrentModificationException as soon as an add inserts a new key while records remain to be visited. That always happens on a store with identities 0..n-1 and two or more records. When `size()` is already a stored key (after an update past the end, as in `Scenarios.AddAfterGapOverwrites`), every add overwrites that key and the merge completes. Mutation during iteration is not modelled.
- DataObjects.Dataset.Iterator: iteration is a sequence of the records taken when it is called, not a live iterator object. Its `remove` always throws UnsupportedOperationException and is not modelled. Neither is mutation while iterating.
- Records are values. `Record.quickCopy` shares the X and Y objects with the caller's record, so the Java code's `removeColumn` also changes the caller's original. This aliasing is not modelled. `Record` is not part of this model: it is a datatype with X, Y and an optional identity.
- The result lists are not their own classes. `FlatDataList` and `TransposeDataList` are not part of this model. They are a sequence and a map from label to sequence. No order of the buckets of `TransposeDataList` is claimed.
- DataObjects.Dataset.GetColumns: returns the schema map. The `Collections.unmodifiableMap` wrapper has no counterpart.
- DataObjects.Dataset.GenerateNewSubset: identities are typed integers. The Java code casts each element of a `FlatDataList` to Integer; a ClassCastException from that cast, or a null element, is not modelled.
- DataObjects.Dataset.Get: takes an integer identity. `get(null)` (a TreeMap NullPointerException) is not modelled.
- Null arguments are not modelled. The `Record` and `Dataset` parameters can never be null, so three NullPointerExceptions are dropped: `add(null)` fails at `original.quickCopy()` (Dataset.java:256), `update(null)` fails at `r.getId()` (Dataset.java:274), and `merge(null)` fails in the for-each loop over `d` (Dataset.java:242).
- Identities and sizes are unbounded integers. The 32-bit range of Java's `Integer` and of `size()` is not modelled, because a store never approaches it.
- Number payloads in `Value` are mathematical integers and reals; floating point is not modelled. The classifier reads only the runtime class.
- Serialization (`Serializable`) is outside the model.
