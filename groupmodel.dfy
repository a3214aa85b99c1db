/**
 * The container of the groups (GroupModel) and the group class it actually
 * stores (GrouSubModel, whose rows are a QMap<int, int> filled by
 * assignRow).
 *
 * The source model behind the proxy is a `Table`: its size and the display
 * text of each cell; the customizer turns a cell into a group name and
 * label. The defects of assignRow (keys start at -1), buildAllGroups (the
 * new group is never stored and is then used through a NULL pointer) and
 * the constructor (the customizer pointer is never initialised) are
 * reproduced as the code has them.
 */
module Groups {
  import opened Common

  /** The source model: row and column counts and the display text of a cell. */
  datatype Table = Table(rowCount: nat, columnCount: nat, text: (int, int) -> string)

  /** GroupCustomizer: the name of the group a cell belongs to and the label
      shown for that name. The default names a group by the cell's display
      text and labels it with its name. */
  datatype Customizer =
    | DefaultCustomizer
    | CustomCustomizer(nameOf: (int, int) -> string, labelOf: (int, int, string) -> string)
  {
    function Name(t: Table, row: int, col: int): string {
      match this
      case DefaultCustomizer => t.text(row, col)
      case CustomCustomizer(nameOf, _) => nameOf(row, col)
    }

    function Label(row: int, col: int, name: string): string {
      match this
      case DefaultCustomizer => name
      case CustomCustomizer(_, labelOf) => labelOf(row, col, name)
    }
  }

  /** The cust_ pointer: never written by the constructor, NULL, or set. */
  datatype CustomizerSlot = Uninitialised | Null | Installed(customizer: Customizer)

  /** How a build stops short: reading the customizer that was never
      initialised, or calling assignRow through the NULL group pointer, while
      handling source row `row`. */
  datatype BuildFailure = UninitialisedCustomizer(row: int) | NullGroup(row: int)

  datatype BuildOutcome = Built | Crashed(failure: BuildFailure)

  /** setGroupingCol either returns its boolean or does not return at all. */
  datatype SetOutcome = Returned(ok: bool) | Aborted(failure: BuildFailure)

  /** Keys of a rows_ map run from -1 to |rows_| - 2. */
  ghost predicate KeysFromMinusOne(m: map<int, int>) {
    forall k :: k in m <==> -1 <= k <= |m| - 2
  }

  /** The rows_ map after assignRow has been called with xs[0], xs[1], ...
      on a fresh group: call number c stores xs[c] under key c - 1. */
  function AssignedRows(xs: seq<int>): (m: map<int, int>)
    ensures |m| == |xs|
    ensures forall k :: k in m <==> -1 <= k <= |xs| - 2
    ensures forall k :: -1 <= k <= |xs| - 2 ==> m[k] == xs[k + 1]
  {
    if xs == [] then map[]
    else
      var before := AssignedRows(xs[..|xs| - 1]);
      assert |xs| - 2 !in before;
      before[|before| - 1 := xs[|xs| - 1]]
  }

  /** Source rows 0 .. n-1 in order. */
  function Iota(n: nat): (s: seq<int>)
    ensures |s| == n && forall i :: 0 <= i < n ==> s[i] == i
  {
    seq(n, i => i)
  }

  // ---------------------------------------------------------------------
  // GrouSubModel

  class GrouSubModel {
    var rows: map<int, int>  // rows_
    var name: string         // name_
    var caption: string      // label_

    ghost predicate Valid()
      reads this
    {
      KeysFromMinusOne(rows)
    }

    /** GrouSubModel(parent, s_name): no rows, empty label. */
    constructor (sName: string := "")
      ensures Valid() && rows == map[] && name == sName && caption == ""
    {
      rows := map[];
      name := sName;
      caption := "";
    }

    function RowCount(): nat
      reads this
    {
      |rows|
    }

    function Label(): string
      reads this
    {
      caption
    }

    method SetLabel(value: string)
      modifies this`caption
      ensures Label() == value
    {
      caption := value;
    }

    method SetName(value: string)
      modifies this`name
      ensures name == value
    {
      name := value;
    }

    /** assignRow: stores the source row under key count - 1, a key not yet
        present, so every call adds exactly one entry. */
    method AssignRow(parentIndex: int)
      requires Valid()
      modifies this`rows
      ensures Valid()
      ensures rows == old(rows)[|old(rows)| - 1 := parentIndex]
      ensures |old(rows)| - 1 !in old(rows) && RowCount() == old(RowCount()) + 1
    {
      assert |rows| - 1 !in rows;
      rows := rows[|rows| - 1 := parentIndex];
    }

    /** data(): the parent's value for the source row stored under key `row`
        (empty when there is none, or when the stored row is -1); roles from
        BaseColRole on select column role - BaseColRole with the display
        role, other roles read column 0. */
    function Data(row: int, role: int, parentData: (int, int, int) -> Variant): (v: Variant)
      reads this
      ensures row !in rows ==> v == Invalid
      ensures row in rows && rows[row] == -1 ==> v == Invalid
      ensures row in rows && rows[row] != -1 && role >= BaseColRole ==>
                v == parentData(rows[row], role - BaseColRole, DisplayRole)
      ensures row in rows && rows[row] != -1 && role < BaseColRole ==>
                v == parentData(rows[row], 0, role)
    {
      var r := if row in rows then rows[row] else -1;
      if r == -1 then Invalid
      else if role >= BaseColRole then parentData(r, role - BaseColRole, DisplayRole)
      else parentData(r, 0, role)
    }
  }

  /** After k calls of assignRow on a fresh group the keys are -1 .. k-2:
      the visible row k-1 has no entry, so data() for it is empty, and the
      row stored first sits under key -1, which no visible row reaches. */
  lemma AssignedRowsLastVisibleRowEmpty(g: GrouSubModel, xs: seq<int>, role: int, parentData: (int, int, int) -> Variant)
    requires g.rows == AssignedRows(xs) && |xs| > 0
    ensures g.RowCount() == |xs|
    ensures g.Data(|xs| - 1, role, parentData) == Invalid
    ensures -1 in g.rows && g.rows[-1] == xs[0]
  {
  }

  // ---------------------------------------------------------------------
  // GroupModel

  class GroupModel {
    var colGrouping: int           // col_grouping_
    var colImageLarge: int         // col_image_large_
    var colImageSmall: int         // col_image_small_
    var groups: seq<GrouSubModel>  // groups_
    var cust: CustomizerSlot       // cust_
    var source: Table              // the proxy's source model

    ghost predicate Valid()
      reads this, groups
    {
      forall j :: 0 <= j < |groups| ==> groups[j].Valid()
    }

    /** GroupModel(parent): no groups, every column -1; cust_ is left
        uninitialised. The proxy starts without a source (an empty table). */
    constructor ()
      ensures Valid()
      ensures colGrouping == -1 && colImageLarge == -1 && colImageSmall == -1
      ensures groups == [] && cust == Uninitialised
      ensures source.rowCount == 0 && source.columnCount == 0
    {
      colGrouping := -1;
      colImageLarge := -1;
      colImageSmall := -1;
      groups := [];
      cust := Uninitialised;
      source := Table(0, 0, (r, c) => "");
    }

    function GroupCount(): nat
      reads this
    {
      |groups|
    }

    function GroupingCol(): int
      reads this
    {
      colGrouping
    }

    function LargeImageCol(): int
      reads this
    {
      colImageLarge
    }

    function SmallImageCol(): int
      reads this
    {
      colImageSmall
    }

    function Customizer(): CustomizerSlot
      reads this
    {
      cust
    }

    method SetLargeImageCol(value: int)
      modifies this`colImageLarge
      ensures LargeImageCol() == value
    {
      colImageLarge := value;
    }

    method SetSmallImageCol(value: int)
      modifies this`colImageSmall
      ensures SmallImageCol() == value
    {
      colImageSmall := value;
    }

    /** takeCustomizer: hands back the current pointer and leaves NULL. */
    method TakeCustomizer() returns (result: CustomizerSlot)
      modifies this`cust
      ensures result == old(Customizer()) && Customizer() == Null
    {
      result := cust;
      cust := Null;
    }

    /** setCustomizer: installs the given customizer, or NULL. */
    method SetCustomizer(value: Option<Customizer>)
      modifies this`cust
      ensures value.None? ==> Customizer() == Null
      ensures value.Some? ==> Customizer() == Installed(value.value)
    {
      cust := if value.None? then Null else Installed(value.value);
    }

    /** groupList: the group at idx, NULL outside [0, groupCount). */
    function GroupList(idx: int): (r: Option<GrouSubModel>)
      reads this
      ensures r.None? <==> !(0 <= idx < |groups|)
      ensures r.Some? ==> r.value == groups[idx]
    {
      if idx < 0 || idx >= |groups| then None else Some(groups[idx])
    }

    /** groupLabel: the label of the group at idx, "" outside [0, groupCount). */
    function GroupLabel(idx: int): (s: string)
      reads this, groups
      ensures !(0 <= idx < |groups|) ==> s == ""
      ensures 0 <= idx < |groups| ==> s == groups[idx].Label()
    {
      if idx < 0 || idx >= |groups| then "" else groups[idx].Label()
    }

    /** groupName: the name of the group at idx, "" outside [0, groupCount). */
    function GroupName(idx: int): (s: string)
      reads this, groups
      ensures !(0 <= idx < |groups|) ==> s == ""
      ensures 0 <= idx < |groups| ==> s == groups[idx].name
    {
      if idx < 0 || idx >= |groups| then "" else groups[idx].name
    }

    /** Some group carries the name `s`. */
    ghost predicate HasGroupNamed(s: string)
      reads this, groups
    {
      exists j :: 0 <= j < |groups| && groups[j].name == s
    }

    /** clearAllGroups: the group list becomes empty. */
    method ClearAllGroups()
      modifies this`groups
      ensures groups == []
    {
      groups := [];
    }

    /** setSourceModel: drops the groups and resets the grouping and image
        columns before installing the new source. */
    method SetSourceModel(t: Table)
      modifies this`groups, this`colGrouping, this`colImageLarge, this`colImageSmall, this`source
      ensures groups == [] && source == t
      ensures GroupingCol() == -1 && LargeImageCol() == -1 && SmallImageCol() == -1
    {
      ClearAllGroups();
      colGrouping := -1;
      colImageLarge := -1;
      colImageSmall := -1;
      source := t;
    }

    /** subIndexByName: the index of the first group named sName, or -1. */
    method SubIndexByName(sName: string) returns (k: int)
      ensures -1 <= k < GroupCount()
      ensures k == -1 <==> forall i :: 0 <= i < GroupCount() ==> GroupName(i) != sName
      ensures k != -1 ==> GroupName(k) == sName
      ensures forall i :: 0 <= i < k ==> GroupName(i) != sName
    {
      var i := 0;
      while i < |groups|
        invariant 0 <= i <= |groups|
        invariant forall j :: 0 <= j < i ==> groups[j].name != sName
      {
        if groups[i].name == sName {
          assert GroupName(i) == sName;
          return i;
        }
        i := i + 1;
      }
      return -1;
    }

    /** subModelByName: the first group named sName, or NULL; the same group
        subIndexByName locates. */
    method SubModelByName(sName: string) returns (r: Option<GrouSubModel>)
      ensures r.None? <==> forall i :: 0 <= i < GroupCount() ==> GroupName(i) != sName
      ensures r.Some? ==> exists k :: 0 <= k < GroupCount() && r == GroupList(k) && GroupName(k) == sName
                                      && forall i :: 0 <= i < k ==> GroupName(i) != sName
    {
      var i := 0;
      while i < |groups|
        invariant 0 <= i <= |groups|
        invariant forall j :: 0 <= j < i ==> groups[j].name != sName
      {
        if groups[i].name == sName {
          assert GroupList(i) == Some(groups[i]) && GroupName(i) == sName;
          return Some(groups[i]);
        }
        i := i + 1;
      }
      return None;
    }

    /** The group name the customizer gives source row `row`. */
    function RowName(c: Customizer, row: int): string
      reads this
    {
      c.Name(source, row, colGrouping)
    }

    /** buildAllGroups: for each source row, find the group named after the
        row's grouping cell and assign the row to it. When no group has that
        name the new group is made in a local that is never stored, and
        assignRow is then called through the NULL pointer: the build stops
        at that row. */
    method BuildAllGroups() returns (outcome: BuildOutcome)
      requires Valid()
      requires 0 <= colGrouping < source.columnCount
      modifies this`cust, groups
      ensures Valid()
      ensures old(cust) == Null ==> cust == Installed(DefaultCustomizer)
      ensures old(cust) != Null ==> cust == old(cust)
      ensures forall j :: 0 <= j < |groups| ==> groups[j].name == old(groups[j].name)
      ensures old(cust) == Uninitialised ==>
                outcome == if source.rowCount == 0 then Built else Crashed(UninitialisedCustomizer(0))
      ensures cust.Installed? ==>
                (outcome == Built <==> forall i :: 0 <= i < source.rowCount ==> HasGroupNamed(RowName(cust.customizer, i)))
      ensures cust.Installed? && outcome.Crashed? ==>
                && outcome.failure.NullGroup?
                && 0 <= outcome.failure.row < source.rowCount
                && !HasGroupNamed(RowName(cust.customizer, outcome.failure.row))
                && forall i :: 0 <= i < outcome.failure.row ==> HasGroupNamed(RowName(cust.customizer, i))
    {
      var iMax := source.rowCount;
      if cust == Null {
        cust := Installed(DefaultCustomizer);
      }
      var i := 0;
      while i < iMax
        invariant 0 <= i <= iMax
        invariant Valid()
        invariant forall j :: 0 <= j < |groups| ==> groups[j].name == old(groups[j].name)
        invariant cust == (if old(cust) == Null then Installed(DefaultCustomizer) else old(cust))
        invariant i > 0 ==> cust.Installed?
        invariant cust.Installed? ==> forall r :: 0 <= r < i ==> HasGroupNamed(RowName(cust.customizer, r))
      {
        if cust.Uninitialised? {
          return Crashed(UninitialisedCustomizer(i));
        }
        var c := cust.customizer;
        var sName := c.Name(source, i, colGrouping);
        var subm := SubModelByName(sName);
        if subm.None? {
          forall j | 0 <= j < |groups|
            ensures groups[j].name != sName
          {
            assert GroupName(j) != sName;
          }
          assert !HasGroupNamed(sName);
          var lost := new GrouSubModel(sName);  // never appended to groups_
          lost.SetLabel(c.Label(i, colGrouping, sName));
          assert !HasGroupNamed(RowName(cust.customizer, i));
          return Crashed(NullGroup(i));         // assignRow through NULL
        }
        subm.value.AssignRow(i);
        i := i + 1;
      }
      return Built;
    }

    /** buildNoGroupingGroup: a single group that receives every source row
        through assignRow. */
    method BuildNoGroupingGroup()
      requires Valid()
      requires groups == [] && colGrouping == -1
      modifies this`groups
      ensures Valid() && |groups| == 1 && fresh(groups[0])
      ensures groups[0].rows == AssignedRows(Iota(source.rowCount))
      ensures groups[0].RowCount() == source.rowCount
      ensures groups[0].name == "" && groups[0].Label() == ""
    {
      var iMax := source.rowCount;
      var mdl := new GrouSubModel("");
      var i := 0;
      while i < iMax
        invariant 0 <= i <= iMax
        invariant mdl.Valid() && mdl.rows == AssignedRows(Iota(i))
        invariant mdl.name == "" && mdl.caption == "" && groups == []
      {
        assert Iota(i + 1)[..i] == Iota(i);
        mdl.AssignRow(i);
        i := i + 1;
      }
      groups := groups + [mdl];
    }

    /** setGroupingCol: rejects a column outside [0, columnCount) or equal to
        an image column and changes nothing; otherwise clears the groups,
        stores the column and rebuilds, which returns true only when the
        source has no rows. */
    method SetGroupingCol(value: int) returns (r: SetOutcome)
      requires Valid()
      modifies this`groups, this`colGrouping, this`cust
      ensures !(0 <= value < source.columnCount) || value == colImageLarge || value == colImageSmall ==>
                r == Returned(false) && groups == old(groups) && GroupingCol() == old(GroupingCol()) && cust == old(cust)
      ensures 0 <= value < source.columnCount && value != colImageLarge && value != colImageSmall ==>
                && groups == [] && GroupingCol() == value
                && r == (if source.rowCount == 0 then Returned(true)
                         else if old(cust) == Uninitialised then Aborted(UninitialisedCustomizer(0))
                         else Aborted(NullGroup(0)))
      ensures 0 <= value < source.columnCount && value != colImageLarge && value != colImageSmall ==>
                && (old(cust) == Null ==> cust == Installed(DefaultCustomizer))
                && (old(cust) != Null ==> cust == old(cust))
    {
      if value < 0 || value >= source.columnCount {
        return Returned(false);
      }
      if value == colImageLarge {
        return Returned(false);
      }
      if value == colImageSmall {
        return Returned(false);
      }
      ClearAllGroups();
      colGrouping := value;
      var outcome := BuildAllGroups();
      if source.rowCount > 0 && cust.Installed? {
        assert !HasGroupNamed(RowName(cust.customizer, 0));
      }
      if outcome.Crashed? {
        return Aborted(outcome.failure);
      }
      return Returned(true);
    }
  }

  /** The single ungrouped group shows source row j + 1 at visible row j. */
  lemma NoGroupingGroupShiftsRows(n: nat, j: int)
    requires 0 <= j < n - 1
    ensures j in AssignedRows(Iota(n)) && AssignedRows(Iota(n))[j] == j + 1
  {
  }

  /** For any non-empty source, the ungrouped group's last visible row is
      empty and no visible row shows source row 0. */
  lemma NoGroupingGroupLosesRowZero(n: nat)
    requires n >= 1
    ensures n - 1 !in AssignedRows(Iota(n))
    ensures forall k :: k in AssignedRows(Iota(n)) && k >= 0 ==> AssignedRows(Iota(n))[k] != 0
  {
  }
}
