# Grouping list model

A Dafny model of the model layer of the grouping list widget. That layer
splits the rows of a tabular source into groups and orders the rows inside
each group. It has three parts:

- `GroupSubModel` is one group. It holds a list of source-row indices
  (`map_`), a key, a label and the group's position among the groups. Its
  operations are:
  - inserting a row at its sorted place;
  - sorting the rows by value, or putting them back in source order;
  - translating a visible row to a source row for either sort direction;
  - dispatching a data request to a (column, role) cell of the source.
- `GroupModel` is the proxy that holds the groups and the column
  configuration: the grouping column and the two image columns. It offers
  bounds-checked group lookups, a search by name and validation of the
  grouping column. It builds the groups from the source, or one ungrouped
  group. It also defines an older group class, `GrouSubModel`, whose rows
  are a map filled by `assignRow`.
- `GroupMColumns` is a group model that also records which columns may be
  used for grouping and which for sorting.

Files:

- `common.dfy` (module `Common`): the cell value, comparison result, sort
  order, Qt role numbers, and the laws a comparator must obey.
- `roworder.dfy` (module `RowOrder`): the order `performSorting` produces
  (by value, ties broken by source row) and the order `performUnsorting`
  produces (by source row). It proves that a sorted permutation is unique.
- `groupsubmodel.dfy` (module `SubModel`): `GroupSubModel` as a class over
  its row list, with pure specification functions for each algorithm.
- `groupmodel.dfy` (module `Groups`): `GroupModel` and the inner
  `GrouSubModel` as classes.
- `groupm_columns.dfy` (module `Columns`): `GroupMColumns`.

This version of the code is inconsistent. `groupsubmodel.cc` calls parent
methods that `groupmodel.h` does not declare: the sorting column, role,
comparator and direction, the base model, the pixmap column and role, the
labels and the group count. The model passes that parent to each operation
as a read-only `ParentView` record. `val(row, col, role)` stands for the
source data, and `cmp` is the comparator. Properties that need a sane
comparator assume `ConsistentTotalOrder(cmp)` (antisymmetric and
transitive) and nothing else.

The code's defects are reproduced as written, and lemmas make them visible:

- In the sort branch of `insertSortedRecord`, the loop variable `row`
  shadows the parameter. On the first Equal or Smaller hit, the scanned
  entry is inserted a second time and the new row is lost. Both positions
  give the same list. The new row is added only when every entry compares
  Larger.
- The unsorted branch of `insertSortedRecord` never breaks. It inserts one
  copy of the new row for each entry greater than it. Qt's `foreach` scans
  a copy, so the insert positions are positions in the original list.
- `performUnsorting` begins a model reset before its empty-list return, so
  that reset is never ended. The model counts resets begun and ended.
- `listIndex` returns `groupCount - list_index_` in descending order, one
  more than the mirrored index.
- `assignRow` stores the n-th row under key n-2. So the keys run from -1,
  the first row assigned is never shown, and the last visible row is empty.
- `buildAllGroups` creates each new group in a local variable that shadows
  `subm`, never stores it, and then calls `assignRow` through the NULL
  pointer. The model returns this as an explicit `Crashed(NullGroup(row))`
  outcome. A build that starts with no groups fails on row 0 of any
  non-empty source.
- The constructor never initialises `cust_`. The model gives the pointer
  an `Uninitialised` state. Using it in `buildAllGroups` is the outcome
  `Crashed(UninitialisedCustomizer(row))`.

Because `buildAllGroups` never stores a new group (groupmodel.cc:242-247),
the groups it leaves never partition the source rows: a row whose name
has no group yet stops the build instead of starting a group.

## Model

| member | source | states |
|---|---|---|
| SubModel.FirstNotLarger | groupsubmodel.cc:87-102 | The scan of the sort branch stops at the first entry the new value is not Larger than: all earlier entries compare Larger, and the stop is at most the list length |
| SubModel.SortedInsert | groupsubmodel.cc:81-113 | The sort branch grows the list by one. If every entry compares Larger, the old list is followed by the new row. If the first hit is at k, entry o[k] is duplicated in place and the new row is not added |
| SubModel.SortedInsertDuplicatesHit | groupsubmodel.cc:87-102 | After a hit at k, the list's multiset gains exactly o[k]. A row not already present is still absent afterwards |
| SubModel.ScanNoSortCopies | groupsubmodel.cc:70-80 | The unsorted scan (`ScanNoSort`, a walk over a copy of the list) adds one copy of the row for each scanned entry greater than it, and nothing else |
| SubModel.CountGreater | groupsubmodel.cc:74-80 | The number of entries greater than the row is zero exactly when every entry is at most the row |
| SubModel.NoSortInsertCopies | groupsubmodel.cc:70-80 | The unsorted branch (`NoSortInsert`) adds CountGreater copies of the row when some entry is greater, and exactly one copy otherwise. The length grows by the same amount |
| SubModel.ScanNoSortKeepsPrefix | groupsubmodel.cc:74-80 | The unsorted scan from position k leaves the entries before k unchanged and never shortens the list |
| SubModel.ScanNoSortSkips | groupsubmodel.cc:74-80 | Scanning entries that are not greater than the row leaves the list unchanged |
| SubModel.NoSortInsertFirstCopy | groupsubmodel.cc:70-80 | With f the first entry greater than the row, the result keeps the entries before f and holds the row at position f |
| SubModel.NoSortInsertTwice | groupsubmodel.cc:74-80 | Inserting 3 into [5, 6] with no sort column gives [3, 3, 5, 6] |
| SubModel.InsertIntoEmpty | groupsubmodel.cc:65-114 | Inserting into an empty group gives exactly [row], with or without a sort column |
| SubModel.InsertSorted | groupsubmodel.cc:65-114 | The list insertSortedRecord leaves, in either branch, keeps every old row and is longer than the old list |
| SubModel.GroupSubModel.InsertSortedRecord | groupsubmodel.cc:65-114 | The new row list is the insertion function of the branch selected by the sort column, applied to the old list |
| SubModel.GroupSubModel.PerformSorting | groupsubmodel.cc:122-170 | Requires a sort column. The rows end as a permutation of the old rows. For a consistent comparator they are sorted by value, with ties by source row. An empty list changes nothing and starts no reset. Otherwise exactly one reset is begun and ended |
| SubModel.GroupSubModel.PerformUnsorting | groupsubmodel.cc:177-192 | The rows end as the ascending permutation of the old rows. One reset is begun. It is ended only when the list was non-empty, so from a balanced state the resets stay balanced exactly when the list was non-empty |
| RowOrder.Swap | groupsubmodel.cc:151-166 | Exchanging two positions swaps those entries, keeps all others and keeps the multiset |
| RowOrder.ExchangeStep | groupsubmodel.cc:145-167 | One comparison of the inner exchange loop keeps the placed prefix sorted, and the head then precedes every row scanned so far |
| RowOrder.PlaceNext | groupsubmodel.cc:144-168 | A finished inner loop places one more row of the sorted prefix |
| RowOrder.SortedPermutationUnique | groupsubmodel.cc:144-168 | Two lists sorted by (value, source row) under a consistent comparator that hold the same rows are equal, so the sorted order is fully determined |
| RowOrder.RowExchangeStep | groupsubmodel.cc:184-191 | One comparison of the unsorting inner loop keeps the placed prefix ascending, and the head row is then at most every row scanned so far |
| RowOrder.AscendingIsSortedByEqualKeys | groupsubmodel.cc:177-192 | Source-row order is the sort order of the comparator that calls every pair Equal |
| RowOrder.AscendingPermutationUnique | groupsubmodel.cc:177-192 | Two ascending lists that hold the same rows are equal |
| SubModel.MapRowToBaseModel | groupsubmodel.cc:259-271 | A row outside [0, count) maps to -1. Otherwise it maps to map_[row] when ascending and map_[count-1-row] when descending |
| SubModel.MapRowMirror | groupsubmodel.cc:259-271 | Descending row r shows what ascending row count-1-r shows |
| SubModel.MapRowShowsEveryRow | groupsubmodel.cc:259-271 | Every stored source row is shown at some visible row, in either direction |
| SubModel.ListIndex | groupsubmodel.cc:275-283 | Ascending returns the stored index. Descending returns a value that sums with the stored index to the group count |
| SubModel.ListIndexDescendingOffByOne | groupsubmodel.cc:275-283 | In descending order the index lies in 1..groupCount, one more than the mirrored index groupCount-1-i. Group 0 reports groupCount, which is past the last valid index |
| SubModel.RoleTarget | groupsubmodel.cc:204-239 | On column 0, the target is empty exactly for DecorationRole with no pixmap column, or for a label role past the label count; otherwise it is the pixmap cell, label k, or (0, role). Any other column forwards (column, role) unchanged |
| SubModel.Data | groupsubmodel.cc:204-239 | A row outside [0, count), or a role without a target, gives an empty value. Otherwise the value is the source value of the mapped source row at the target cell |
| SubModel.DataMirror | groupsubmodel.cc:204-239 | In descending order, data for row r equals ascending data for row count-1-r |
| SubModel.GroupSubModel.constructor | groupsubmodel.cc:36-47 | A new group has no rows, the given key and label (an empty value and an empty string by default), list index -1 and no resets |
| SubModel.GroupSubModel.AppendRecord | groupsubmodel.h:61-64 | mapping() becomes the old list followed by the row, and rowCount grows by one |
| SubModel.GroupSubModel.SetGroupKey | groupsubmodel.h:73-83 | After setting the key, groupKey returns it |
| SubModel.GroupSubModel.SetLabel | groupsubmodel.h:86-96 | After setting the label, label returns it |
| SubModel.GroupSubModel.SetListIndex | groupsubmodel.h:147-151 | Sets the list index and changes no other field |
| Groups.AssignedRows | groupmodel.cc:95-99 | After k assignRow calls on a fresh group, the map has k keys, namely -1..k-2, and key j holds the (j+2)-th row assigned |
| Groups.GrouSubModel.constructor | groupmodel.cc:27-35 | A new inner group has no rows, the given name (empty by default) and an empty label |
| Groups.GrouSubModel.SetLabel | groupmodel.cc:75-79 | After setting the label, label returns it |
| Groups.GrouSubModel.SetName | groupmodel.cc:88-92 | After setting the name, name returns it |
| Groups.GrouSubModel.AssignRow | groupmodel.cc:95-99 | Stores the row under key count-1, which was not yet a key. rowCount grows by one, and the keys still run from -1 |
| Groups.GrouSubModel.Data | groupmodel.cc:54-67 | A row that is not a key, or that holds -1, gives an empty value. A role from BaseColRole on reads column role-BaseColRole in the display role. Any other role reads column 0 |
| Groups.AssignedRowsLastVisibleRowEmpty | groupmodel.cc:50-67 | After assigning a non-empty list of rows, rowCount is its length and data for the last visible row is empty. The first row assigned sits under key -1 |
| Groups.GroupModel.constructor | groupmodel.cc:123-133 | A new model has no groups, grouping and image columns -1, and an uninitialised customizer |
| Groups.GroupModel.SetLargeImageCol | groupmodel.h:59-69 | largeImageCol returns the value just set, with no validation |
| Groups.GroupModel.SetSmallImageCol | groupmodel.h:71-81 | smallImageCol returns the value just set, with no validation |
| Groups.GroupModel.TakeCustomizer | groupmodel.h:90-96 | Returns the previous customizer and leaves it NULL |
| Groups.GroupModel.SetCustomizer | groupmodel.cc:295-301 | Installs the given customizer, or NULL |
| Groups.GroupModel.GroupList | groupmodel.cc:164-170 | NULL exactly when idx is outside [0, groupCount). Otherwise the group at idx |
| Groups.GroupModel.GroupLabel | groupmodel.cc:174-180 | Empty when idx is outside [0, groupCount). Otherwise the label of the group at idx |
| Groups.GroupModel.GroupName | groupmodel.cc:184-190 | Empty when idx is outside [0, groupCount). Otherwise the name of the group at idx |
| Groups.GroupModel.ClearAllGroups | groupmodel.cc:194-200 | Leaves no groups |
| Groups.GroupModel.SetSourceModel | groupmodel.cc:152-160 | Leaves no groups, resets the grouping and both image columns to -1, and installs the new source |
| Groups.GroupModel.SubIndexByName | groupmodel.cc:216-226 | Returns -1 exactly when no groupName equals the name. Otherwise it returns the first index whose groupName equals it |
| Groups.GroupModel.SubModelByName | groupmodel.cc:204-212 | Returns NULL exactly when no group has the name. Otherwise it returns groupList(k) for the first index k whose groupName equals it |
| Groups.GroupModel.BuildAllGroups | groupmodel.cc:230-249 | Requires a grouping column inside the column range. A NULL customizer is replaced by the default one. An uninitialised customizer fails at row 0 of a non-empty source. Otherwise the build completes exactly when every row's name already has a group. If not, it stops at the first row whose name has no group. Group names never change |
| Groups.GroupModel.BuildNoGroupingGroup | groupmodel.cc:253-263 | Requires no groups and no grouping column. Leaves exactly one new group, filled by assignRow with every source row, whose rowCount equals the source row count |
| Groups.NoGroupingGroupShiftsRows | groupmodel.cc:253-263 | In the ungrouped group, visible row j holds source row j+1 for every j below the last visible row |
| Groups.NoGroupingGroupLosesRowZero | groupmodel.cc:253-263 | For any non-empty source, including a single row, the ungrouped group's last visible row holds nothing and source row 0 is never shown |
| Groups.GroupModel.SetGroupingCol | groupmodel.cc:267-291 | A column outside [0, columnCount), or one equal to an image column, returns false and changes nothing. Otherwise the groups are cleared and the column is stored. The call returns true only for an empty source. A non-empty source fails on row 0. A NULL customizer is replaced by the default one, and any other customizer is kept |
| Columns.GroupMColumns.constructor | models/groupm_columns.cc:18-25 | Stores the given grouping and sorting lists, which default to empty, over a fresh group model for the given source |
| Columns.GroupMColumns.SetGroupingColumns | models/groupm_columns.h:41-46 | groupingColumns returns the new list, and the sorting list is unchanged |
| Columns.GroupMColumns.SetSortingColumns | models/groupm_columns.h:48-53 | sortingColumns returns the new list, and the grouping list is unchanged |

## Left out

- Qt notifications are not modelled, except as counts: the beginResetModel and endResetModel calls of performSorting and performUnsorting are counted. `signalReset` (a reset pair with no other effect) is left out uncounted, and `baseModelDataChange` (a dataChanged notification) is left out.
- Ownership is not modelled: `deleteLater`, `delete cust_` and the destructors only release memory.
- `headerData` is left out. It is a call into the foreign base model plus string formatting.
- `removeRows` is left out. It is declared but never defined.
- The delegate, list view, widget, private header and customizer class are left out. They are painting and widget set-up. The customizer is modelled only as a name function and a label function, whose default returns the name.
- The parent API that `groupsubmodel.cc` calls is not declared in any file of this model. It is passed in as `ParentView`, with the source data and the comparator as functions.
- `groupsubmodel.cc` uses `GroupModel::BaseColRole`, which is never declared. It is taken to equal the inner class's `Qt::UserRole + 10`.
- The proxy's own row and column counts are taken to be the source's; proxy filtering is not modelled.
- Groups.GroupModel.BuildAllGroups: does not state which rows existing groups receive. It states only the outcome, the customizer and that group names are kept. This matters only when groups already exist, which the code never arranges, because setGroupingCol clears them first.
- Groups.GroupModel.BuildAllGroups: treats the never-initialised `cust_` as non-NULL. Reading it is undefined, so it could also compare equal to NULL.
- Groups.GroupModel.SetCustomizer: does not model that deleting the never-initialised `cust_` of a fresh model is undefined behaviour.
- Columns.GroupMColumns.constructor: `GroupModel(model, parent)` is not declared. The model reads it as construction followed by setSourceModel. A NULL model is the empty table, and the base class part is held as a field, not inherited.
- The getters of the classes (rowCount, mapping, groupKey, label, groupCount, groupingCol, largeImageCol, smallImageCol, customizer, groupingColumns, sortingColumns) are reads of one field. They appear in the setters' contracts rather than as rows of their own.
