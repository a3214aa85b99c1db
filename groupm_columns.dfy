/**
 * GroupMColumns: a group model that also records which source columns may
 * be used for grouping and which for sorting. The model it extends is held
 * as `base`; the two column lists are plain lists that the setters replace
 * whole.
 */
module Columns {
  import opened Groups

  class GroupMColumns {
    var base: GroupModel     // the GroupModel part of the object
    var grpCols: seq<int>    // grp_cols_
    var sortCols: seq<int>   // sort_cols_

    /** GroupMColumns(model, grp_cols, sort_cols): a group model over
        `model` (a NULL model is the empty table) holding the two lists as
        given; both default to empty. */
    constructor (model: Table := Table(0, 0, (r, c) => ""), grpColsIn: seq<int> := [], sortColsIn: seq<int> := [])
      ensures fresh(base) && base.Valid()
      ensures base.source == model && base.groups == []
      ensures base.GroupingCol() == -1 && base.LargeImageCol() == -1 && base.SmallImageCol() == -1
      ensures base.Customizer() == Uninitialised
      ensures GroupingColumns() == grpColsIn && SortingColumns() == sortColsIn
    {
      var m := new GroupModel();
      m.SetSourceModel(model);
      base := m;
      grpCols := grpColsIn;
      sortCols := sortColsIn;
    }

    function GroupingColumns(): seq<int>
      reads this
    {
      grpCols
    }

    function SortingColumns(): seq<int>
      reads this
    {
      sortCols
    }

    /** setGroupingColumns: replaces the grouping list and nothing else. */
    method SetGroupingColumns(value: seq<int>)
      modifies this`grpCols
      ensures GroupingColumns() == value && SortingColumns() == old(SortingColumns())
    {
      grpCols := value;
    }

    /** setSortingColumns: replaces the sorting list and nothing else. */
    method SetSortingColumns(value: seq<int>)
      modifies this`sortCols
      ensures SortingColumns() == value && GroupingColumns() == old(GroupingColumns())
    {
      sortCols := value;
    }
  }
}
