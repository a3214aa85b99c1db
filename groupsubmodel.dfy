/**
 * One group of the grouping model (GroupSubModel): a list of source-row
 * indices (`map_`) plus a key, a user-visible label and the group's index
 * in the parent model.
 *
 * The parent GroupModel that a group consults (sorting column, role,
 * comparator and direction, the data provider, the pixmap column and the
 * additional labels) is passed to each operation as a read-only
 * `ParentView`.
 *
 * The defects of insertSortedRecord and performUnsorting are reproduced as
 * the code has them and are made visible by the lemmas at the end.
 */
module SubModel {
  import opened Common
  import opened RowOrder

  /** What a group reads from its parent model. */
  datatype ParentView = ParentView(
    sortCol: int,                          // sortingColumn(), -1 when sorting is off
    sortRole: int,                         // sortingRole()
    dir: SortOrder,                        // sortingDirection()
    cmp: (Variant, Variant) -> Comparison, // sortingFunc()
    val: (int, int, int) -> Variant,       // baseModel()->index(row, col).data(role)
    groupCount: int,                       // groupCount()
    pixmapCol: int,                        // pixmapColumn(), -1 when images are off
    pixmapRole: int,                       // pixmapRole()
    labels: seq<ColRole>)                  // label(0) .. label(labelCount() - 1)
  {
    /** The value a source row is sorted by. */
    function SortKey(): int -> Variant {
      r => val(r, sortCol, sortRole)
    }
  }

  // ---------------------------------------------------------------------
  // insertSortedRecord, sort branch

  /** Scan position at which the sort branch of insertSortedRecord stops:
      the first entry the new value does not compare Larger than, or |o|. */
  function FirstNotLarger(cmp: (Variant, Variant) -> Comparison, key: int -> Variant, newVal: Variant, o: seq<int>): (k: nat)
    ensures k <= |o|
    ensures forall j :: 0 <= j < k ==> cmp(newVal, key(o[j])) == Larger
    ensures k < |o| ==> cmp(newVal, key(o[k])) != Larger
  {
    if o == [] then 0
    else if cmp(newVal, key(o[0])) != Larger then 0
    else 1 + FirstNotLarger(cmp, key, newVal, o[1..])
  }

  /** The row list the sort branch of insertSortedRecord leaves. Because the
      loop variable shadows the parameter, a hit inserts a copy of the
      scanned entry o[k] (after it on Equal, before it on Smaller); only a
      scan that meets no hit appends the new row. */
  function SortedInsert(cmp: (Variant, Variant) -> Comparison, key: int -> Variant, o: seq<int>, row: int): (r: seq<int>)
    ensures |r| == |o| + 1
    ensures (forall j :: 0 <= j < |o| ==> cmp(key(row), key(o[j])) == Larger) ==> r == o + [row]
    ensures forall k :: 0 <= k < |o| && cmp(key(row), key(o[k])) != Larger
                        && (forall j :: 0 <= j < k ==> cmp(key(row), key(o[j])) == Larger)
                        ==> r == o[..k] + [o[k], o[k]] + o[k + 1..]
  {
    var k := FirstNotLarger(cmp, key, key(row), o);
    if k == |o| then o + [row]
    else if cmp(key(row), key(o[k])) == Equal then o[..k + 1] + [o[k]] + o[k + 1..]
    else o[..k] + [o[k]] + o[k..]
  }

  // ---------------------------------------------------------------------
  // insertSortedRecord, no-sort branch

  /** The no-sort loop from position k on: it walks a snapshot `o` of the
      list (foreach iterates a copy) and, for every entry greater than `row`,
      inserts `row` at the entry's original position in the current list. */
  function ScanNoSort(cur: seq<int>, o: seq<int>, k: nat, row: int): seq<int>
    requires k <= |o| <= |cur|
    decreases |o| - k
  {
    if k == |o| then cur
    else ScanNoSort(if o[k] > row then cur[..k] + [row] + cur[k..] else cur, o, k + 1, row)
  }

  /** The row list the no-sort branch of insertSortedRecord leaves. */
  function NoSortInsert(o: seq<int>, row: int): seq<int> {
    if exists j :: 0 <= j < |o| && o[j] > row then ScanNoSort(o, o, 0, row)
    else o + [row]
  }

  /** Number of entries greater than `row`. */
  function CountGreater(o: seq<int>, row: int): (c: nat)
    ensures c <= |o|
    ensures c == 0 <==> forall j :: 0 <= j < |o| ==> o[j] <= row
  {
    if o == [] then 0
    else (if o[0] > row then 1 else 0) + CountGreater(o[1..], row)
  }

  /** Whole effect of insertSortedRecord on the row list: in either branch
      no row is lost and at least one entry is added. */
  function InsertSorted(p: ParentView, o: seq<int>, row: int): (r: seq<int>)
    ensures |r| > |o|
    ensures multiset(o) <= multiset(r)
  {
    if p.sortCol == -1 then
      NoSortInsertCopies(o, row);
      var r := NoSortInsert(o, row);
      assert forall x :: multiset(o)[x] <= multiset(r)[x];
      r
    else
      var key := p.SortKey();
      var k := FirstNotLarger(p.cmp, key, key(row), o);
      if k < |o| then
        SortedInsertDuplicatesHit(p.cmp, key, o, row, k);
        SortedInsert(p.cmp, key, o, row)
      else
        SortedInsert(p.cmp, key, o, row)
  }

  // ---------------------------------------------------------------------
  // Index and role computations

  /** mapRowToBaseModel: the source row shown at position `row` of the
      group, -1 outside [0, count); descending order reads the list from the
      end. */
  function MapRowToBaseModel(rowMap: seq<int>, dir: SortOrder, row: int): (r: int)
    ensures !(0 <= row < |rowMap|) ==> r == -1
    ensures 0 <= row < |rowMap| && dir == Ascending ==> r == rowMap[row]
    ensures 0 <= row < |rowMap| && dir == Descending ==> r == rowMap[|rowMap| - 1 - row]
  {
    var rMax := |rowMap|;
    if row < 0 || row >= rMax then -1
    else if dir == Ascending then rowMap[row]
    else rowMap[rMax - row - 1]
  }

  /** listIndex: the group's position as presented. The descending branch
      returns groupCount - list_index_, one past the mirrored position. */
  function ListIndex(dir: SortOrder, groupCount: int, listIndex: int): (r: int)
    ensures dir == Ascending ==> r == listIndex
    ensures dir == Descending ==> r + listIndex == groupCount
  {
    if dir == Ascending then listIndex else groupCount - listIndex
  }

  /** The (column, role) that data() forwards a request on column `column`
      with role `role` to, or None when data() answers with an empty value. */
  function RoleTarget(p: ParentView, column: int, role: int): (t: Option<ColRole>)
    ensures t.None? <==>
              column == 0
              && ((role == DecorationRole && p.pixmapCol == -1)
                  || (role != DecorationRole && role >= BaseColRole && role - BaseColRole >= |p.labels|))
    ensures column != 0 ==> t == Some(ColRole(column, role))
    ensures column == 0 && role == DecorationRole && t.Some? ==> t.value == ColRole(p.pixmapCol, p.pixmapRole)
    ensures (column == 0 && role != DecorationRole && role >= BaseColRole && t.Some?) ==>
              t.value == p.labels[role - BaseColRole]
    ensures column == 0 && role != DecorationRole && role < BaseColRole ==> t == Some(ColRole(0, role))
  {
    if column != 0 then Some(ColRole(column, role))
    else if role == DecorationRole then
      if p.pixmapCol == -1 then None else Some(ColRole(p.pixmapCol, p.pixmapRole))
    else if role >= BaseColRole then
      if role - BaseColRole >= |p.labels| then None else Some(p.labels[role - BaseColRole])
    else Some(ColRole(column, role))
  }

  /** data(): the provider value behind cell (row, column) of the group for
      `role`, or the empty value. */
  function Data(p: ParentView, rowMap: seq<int>, row: int, column: int, role: int): (v: Variant)
    ensures !(0 <= row < |rowMap|) || RoleTarget(p, column, role).None? ==> v == Invalid
    ensures (0 <= row < |rowMap| && RoleTarget(p, column, role).Some?) ==>
              v == p.val(MapRowToBaseModel(rowMap, p.dir, row),
                         RoleTarget(p, column, role).value.column,
                         RoleTarget(p, column, role).value.role)
  {
    if row < 0 || row >= |rowMap| then Invalid
    else
      var r := MapRowToBaseModel(rowMap, p.dir, row);
      match RoleTarget(p, column, role)
      case None => Invalid
      case Some(t) => p.val(r, t.column, t.role)
  }

  // ---------------------------------------------------------------------
  // Properties of insertSortedRecord

  /** On an empty group both branches store exactly the new row. */
  lemma InsertIntoEmpty(p: ParentView, row: int)
    ensures InsertSorted(p, [], row) == [row]
  {
  }

  /** Sort branch, a hit at scan position k: the list grows by a second copy
      of o[k]; the argument row is not added. */
  lemma SortedInsertDuplicatesHit(cmp: (Variant, Variant) -> Comparison, key: int -> Variant, o: seq<int>, row: int, k: nat)
    requires k < |o| && cmp(key(row), key(o[k])) != Larger
    requires forall j :: 0 <= j < k ==> cmp(key(row), key(o[j])) == Larger
    ensures multiset(SortedInsert(cmp, key, o, row)) == multiset(o) + multiset{o[k]}
    ensures row !in o ==> row !in SortedInsert(cmp, key, o, row)
  {
    var r := SortedInsert(cmp, key, o, row);
    assert r == o[..k] + [o[k], o[k]] + o[k + 1..];
    assert o == o[..k] + [o[k]] + o[k + 1..];
    assert multiset(r) == multiset(o[..k]) + multiset{o[k], o[k]} + multiset(o[k + 1..]);
  }

  /** No-sort loop from position k: it adds one copy of `row` for every
      entry of o[k..] greater than `row`, and nothing else. */
  lemma {:induction false} ScanNoSortCopies(cur: seq<int>, o: seq<int>, k: nat, row: int)
    requires k <= |o| <= |cur|
    ensures var r := ScanNoSort(cur, o, k, row);
            && |r| == |cur| + CountGreater(o[k..], row)
            && multiset(r)[row] == multiset(cur)[row] + CountGreater(o[k..], row)
            && forall x :: x != row ==> multiset(r)[x] == multiset(cur)[x]
    decreases |o| - k
  {
    if k < |o| {
      assert o[k..][1..] == o[k + 1..];
      var next := if o[k] > row then cur[..k] + [row] + cur[k..] else cur;
      if o[k] > row {
        assert cur == cur[..k] + cur[k..];
        assert multiset(next) == multiset(cur) + multiset{row};
      }
      ScanNoSortCopies(next, o, k + 1, row);
    }
  }

  /** No-sort branch: one copy of `row` per existing entry greater than
      `row` (the loop never breaks), or a single appended copy when there is
      none. */
  lemma NoSortInsertCopies(o: seq<int>, row: int)
    ensures var c := CountGreater(o, row);
            var r := NoSortInsert(o, row);
            && (c == 0 ==> r == o + [row])
            && |r| == |o| + (if c == 0 then 1 else c)
            && multiset(r)[row] == multiset(o)[row] + (if c == 0 then 1 else c)
            && forall x :: x != row ==> multiset(r)[x] == multiset(o)[x]
  {
    assert o[0..] == o;
    ScanNoSortCopies(o, o, 0, row);
  }

  /** The no-sort scan from position k never changes the entries before k:
      every insertion it makes is at position k or later. */
  lemma {:induction false} ScanNoSortKeepsPrefix(cur: seq<int>, o: seq<int>, k: nat, row: int)
    requires k <= |o| <= |cur|
    ensures |ScanNoSort(cur, o, k, row)| >= |cur|
    ensures ScanNoSort(cur, o, k, row)[..k] == cur[..k]
    decreases |o| - k
  {
    if k < |o| {
      var next := if o[k] > row then cur[..k] + [row] + cur[k..] else cur;
      ScanNoSortKeepsPrefix(next, o, k + 1, row);
      assert next[..k] == cur[..k];
    }
  }

  /** The no-sort scan passes over entries that are not greater than `row`
      without changing the list. */
  lemma {:induction false} ScanNoSortSkips(cur: seq<int>, o: seq<int>, k: nat, f: nat, row: int)
    requires k <= f <= |o| <= |cur|
    requires forall j :: k <= j < f ==> o[j] <= row
    ensures ScanNoSort(cur, o, k, row) == ScanNoSort(cur, o, f, row)
    decreases f - k
  {
    if k < f {
      ScanNoSortSkips(cur, o, k + 1, f, row);
    }
  }

  /** No-sort branch: the first copy of `row` goes right before the first
      entry greater than it, and the entries before that are unchanged. */
  lemma NoSortInsertFirstCopy(o: seq<int>, row: int, f: nat)
    requires f < |o| && o[f] > row
    requires forall j :: 0 <= j < f ==> o[j] <= row
    ensures var r := NoSortInsert(o, row);
            |r| > f && r[..f] == o[..f] && r[f] == row
  {
    ScanNoSortSkips(o, o, 0, f, row);
    var next := o[..f] + [row] + o[f..];
    ScanNoSortKeepsPrefix(next, o, f + 1, row);
    assert next[..f + 1] == o[..f] + [row];
  }

  /** A concrete run of the no-sort branch: inserting row 3 into [5, 6]
      stores it twice. */
  lemma NoSortInsertTwice()
    ensures NoSortInsert([5, 6], 3) == [3, 3, 5, 6]
  {
    var o: seq<int> := [5, 6];
    assert o[0] > 3;
    assert ScanNoSort(o, o, 0, 3) == ScanNoSort([3, 5, 6], o, 1, 3);
    assert ScanNoSort([3, 5, 6], o, 1, 3) == ScanNoSort([3, 3, 5, 6], o, 2, 3);
  }

  // ---------------------------------------------------------------------
  // Properties of the index and role computations

  /** Descending order shows the mirrored position of ascending order. */
  lemma MapRowMirror(rowMap: seq<int>, row: int)
    requires 0 <= row < |rowMap|
    ensures MapRowToBaseModel(rowMap, Descending, row) == MapRowToBaseModel(rowMap, Ascending, |rowMap| - 1 - row)
  {
  }

  /** In either direction every row of the group is shown at some position. */
  lemma MapRowShowsEveryRow(rowMap: seq<int>, dir: SortOrder, k: int)
    requires 0 <= k < |rowMap|
    ensures exists row :: 0 <= row < |rowMap| && MapRowToBaseModel(rowMap, dir, row) == rowMap[k]
  {
    var row := if dir == Ascending then k else |rowMap| - 1 - k;
    assert MapRowToBaseModel(rowMap, dir, row) == rowMap[k];
  }

  /** data() in descending order answers what ascending order answers for
      the mirrored position. */
  lemma DataMirror(p: ParentView, rowMap: seq<int>, row: int, column: int, role: int)
    requires p.dir == Descending && 0 <= row < |rowMap|
    ensures Data(p, rowMap, row, column, role) == Data(p.(dir := Ascending), rowMap, |rowMap| - 1 - row, column, role)
  {
    assert RoleTarget(p, column, role) == RoleTarget(p.(dir := Ascending), column, role);
  }

  /** listIndex in descending order is never 0 and gives groupCount, one past
      the last valid index, for the group at list index 0. */
  lemma ListIndexDescendingOffByOne(groupCount: int, listIndex: int)
    requires 0 <= listIndex < groupCount
    ensures 1 <= ListIndex(Descending, groupCount, listIndex) <= groupCount
    ensures listIndex == 0 ==> ListIndex(Descending, groupCount, listIndex) == groupCount
  {
  }

  // ---------------------------------------------------------------------
  // The group object

  class GroupSubModel {
    var rowMap: seq<int>   // map_: row i of the group shows source row rowMap[i]
    var key: Variant       // key_
    var caption: string    // s_label_
    var listIndex: int     // list_index_
    var resetsBegun: nat   // beginResetModel() calls
    var resetsEnded: nat   // endResetModel() calls

    /** GroupSubModel(model, key, lbl): no rows, list index -1. */
    constructor (key: Variant := Invalid, lbl: string := "")
      ensures rowMap == [] && this.key == key && caption == lbl && listIndex == -1
      ensures resetsBegun == 0 && resetsEnded == 0
    {
      rowMap := [];
      this.key := key;
      caption := lbl;
      listIndex := -1;
      resetsBegun := 0;
      resetsEnded := 0;
    }

    function RowCount(): nat
      reads this
    {
      |rowMap|
    }

    function Mapping(): seq<int>
      reads this
    {
      rowMap
    }

    function GroupKey(): Variant
      reads this
    {
      key
    }

    function Label(): string
      reads this
    {
      caption
    }

    /** Every beginResetModel() so far has been matched by endResetModel(). */
    predicate ResetsBalanced()
      reads this
    {
      resetsBegun == resetsEnded
    }

    /** appendRecord: the row goes to the end, nothing else changes. */
    method AppendRecord(originalRow: int)
      modifies this`rowMap
      ensures Mapping() == old(Mapping()) + [originalRow]
      ensures RowCount() == old(RowCount()) + 1
    {
      rowMap := rowMap + [originalRow];
    }

    method SetGroupKey(value: Variant)
      modifies this`key
      ensures GroupKey() == value
    {
      key := value;
    }

    method SetLabel(value: string)
      modifies this`caption
      ensures Label() == value
    {
      caption := value;
    }

    method SetListIndex(value: int)
      modifies this`listIndex
      ensures listIndex == value
    {
      listIndex := value;
    }

    /** insertSortedRecord, with the loops of the source. */
    method InsertSortedRecord(p: ParentView, row: int)
      modifies this`rowMap
      ensures rowMap == InsertSorted(p, old(rowMap), row)
    {
      var idx := 0;
      var inserted := false;
      var sortc := p.sortCol;
      ghost var o := rowMap;
      var snapshot := rowMap;  // foreach walks a copy of map_
      if sortc == -1 {
        while idx < |snapshot|
          invariant 0 <= idx <= |snapshot| <= |rowMap|
          invariant ScanNoSort(rowMap, snapshot, idx, row) == ScanNoSort(o, snapshot, 0, row)
          invariant inserted <==> exists j :: 0 <= j < idx && snapshot[j] > row
          invariant !inserted ==> rowMap == o
        {
          if snapshot[idx] > row {
            rowMap := rowMap[..idx] + [row] + rowMap[idx..];
            inserted := true;
          }
          idx := idx + 1;
        }
      } else {
        var sortr := p.sortRole;
        var newData := p.val(row, sortc, sortr);
        while idx < |snapshot|
          invariant 0 <= idx <= |snapshot|
          invariant !inserted && rowMap == o
          decreases |snapshot| - idx
          invariant forall j :: 0 <= j < idx ==> p.cmp(newData, p.val(snapshot[j], sortc, sortr)) == Larger
        {
          var iterRow := snapshot[idx];  // the loop variable that shadows `row`
          var iterData := p.val(iterRow, sortc, sortr);
          var res := p.cmp(newData, iterData);
          match res {
            case Equal =>
              rowMap := rowMap[..idx + 1] + [iterRow] + rowMap[idx + 1..];
              inserted := true;
            case Smaller =>
              rowMap := rowMap[..idx] + [iterRow] + rowMap[idx..];
              inserted := true;
            case Larger =>
          }
          if inserted {
            break;
          }
          idx := idx + 1;
        }
        assert idx == FirstNotLarger(p.cmp, p.SortKey(), p.SortKey()(row), o);
      }
      if !inserted {
        rowMap := rowMap + [row];
      }
    }

    /** performSorting: fetches every sort value once, then exchange-sorts the
        value list and the row list together. */
    method PerformSorting(p: ParentView)
      requires p.sortCol != -1
      modifies this`rowMap, this`resetsBegun, this`resetsEnded
      ensures multiset(rowMap) == multiset(old(rowMap))
      ensures ConsistentTotalOrder(p.cmp) ==> SortedByKey(p.cmp, p.SortKey(), rowMap)
      ensures old(rowMap) == [] ==> rowMap == [] && resetsBegun == old(resetsBegun) && resetsEnded == old(resetsEnded)
      ensures old(rowMap) != [] ==> resetsBegun == old(resetsBegun) + 1 && resetsEnded == old(resetsEnded) + 1
    {
      var sortc := p.sortCol;
      var iMax := |rowMap|;
      if iMax == 0 {
        return;
      }
      var sortr := p.sortRole;
      resetsBegun := resetsBegun + 1;

      var vlst: seq<Variant> := [];
      var i := 0;
      while i < iMax
        invariant resetsBegun == old(resetsBegun) + 1 && resetsEnded == old(resetsEnded)
        invariant 0 <= i <= iMax == |rowMap|
        invariant rowMap == old(rowMap)
        invariant |vlst| == i
        invariant forall j :: 0 <= j < i ==> vlst[j] == p.val(rowMap[j], sortc, sortr)
      {
        vlst := vlst + [p.val(rowMap[i], sortc, sortr)];
        i := i + 1;
      }

      ghost var key := p.SortKey();
      var n := 0;
      while n < iMax
        invariant resetsBegun == old(resetsBegun) + 1 && resetsEnded == old(resetsEnded)
        invariant 0 <= n <= iMax == |rowMap| == |vlst|
        invariant forall j :: 0 <= j < iMax ==> vlst[j] == key(rowMap[j])
        invariant multiset(rowMap) == multiset(old(rowMap))
        invariant ConsistentTotalOrder(p.cmp) ==> PrefixPlaced(p.cmp, key, rowMap, n)
      {
        i := n + 1;
        while i < iMax
          invariant resetsBegun == old(resetsBegun) + 1 && resetsEnded == old(resetsEnded)
          invariant n < i <= iMax == |rowMap| == |vlst|
          invariant forall j :: 0 <= j < iMax ==> vlst[j] == key(rowMap[j])
          invariant multiset(rowMap) == multiset(old(rowMap))
          invariant ConsistentTotalOrder(p.cmp) ==> PrefixPlaced(p.cmp, key, rowMap, n)
          invariant ConsistentTotalOrder(p.cmp) ==> HeadLeads(p.cmp, key, rowMap, n, i)
        {
          var nval := vlst[n];
          var ival := vlst[i];
          var res := p.cmp(nval, ival);
          var exchange := match res
            case Equal => rowMap[n] > rowMap[i]  // equal values ordered by row index
            case Smaller => false
            case Larger => true;
          assert exchange <==> !KeyLe(p.cmp, key, rowMap[n], rowMap[i]);
          if ConsistentTotalOrder(p.cmp) {
            ExchangeStep(p.cmp, key, rowMap, n, i);
          }
          if exchange {
            vlst := vlst[n := vlst[i]][i := vlst[n]];
            rowMap := Swap(rowMap, n, i);
          }
          i := i + 1;
        }
        if ConsistentTotalOrder(p.cmp) {
          PlaceNext(p.cmp, key, rowMap, n);
        }
        n := n + 1;
      }
      resetsEnded := resetsEnded + 1;
    }

    /** performUnsorting: exchange-sorts the row list by source-row index.
        The reset is begun before the empty-list check, so on an empty list
        it is never ended. */
    method PerformUnsorting()
      modifies this`rowMap, this`resetsBegun, this`resetsEnded
      ensures multiset(rowMap) == multiset(old(rowMap))
      ensures AscendingRows(rowMap)
      ensures resetsBegun == old(resetsBegun) + 1
      ensures resetsEnded == old(resetsEnded) + (if old(rowMap) == [] then 0 else 1)
      ensures old(ResetsBalanced()) ==> (ResetsBalanced() <==> old(rowMap) != [])
    {
      resetsBegun := resetsBegun + 1;
      var iMax := |rowMap|;
      if iMax == 0 {
        return;
      }
      var n := 0;
      while n < iMax
        invariant resetsBegun == old(resetsBegun) + 1 && resetsEnded == old(resetsEnded)
        invariant 0 <= n <= iMax == |rowMap|
        invariant multiset(rowMap) == multiset(old(rowMap))
        invariant RowPrefixPlaced(rowMap, n)
      {
        var i := n + 1;
        while i < iMax
          invariant resetsBegun == old(resetsBegun) + 1 && resetsEnded == old(resetsEnded)
          invariant n < i <= iMax == |rowMap|
          invariant multiset(rowMap) == multiset(old(rowMap))
          invariant RowPrefixPlaced(rowMap, n) && RowHeadLeads(rowMap, n, i)
        {
          RowExchangeStep(rowMap, n, i);
          if rowMap[n] > rowMap[i] {
            rowMap := Swap(rowMap, n, i);
          }
          i := i + 1;
        }
        n := n + 1;
      }
      assert RowPrefixPlaced(rowMap, iMax);
      resetsEnded := resetsEnded + 1;
    }
  }
}
