/**
 * Shared vocabulary of the grouping model: the dynamically typed cell value,
 * the three-way comparison result, the sort direction, the (column, role)
 * pair used for labels, the Qt role numbers the model dispatches on, and the
 * laws a comparator must obey for the sorting properties to hold.
 */
module Common {

  datatype Option<T> = None | Some(value: T)

  /** A cell value as read from the data provider (a closed stand-in for QVariant).
      `Invalid` is the empty QVariant() that lookups return on failure. */
  datatype Variant =
    | Invalid
    | Bool(b: bool)
    | Int(i: int)
    | Real(r: real)
    | Char(c: char)
    | Text(s: string)
    | DateTime(msecs: int)
    | Size(width: int, height: int)
    | Point(x: int, y: int)

  /** Result of a grouping or sorting comparator (GroupModel::ComparisionReslt). */
  datatype Comparison = Smaller | Equal | Larger

  /** Qt::SortOrder. */
  datatype SortOrder = Ascending | Descending

  /** A (column, role) pair naming one cell of a source row (ModelId). */
  datatype ColRole = ColRole(column: int, role: int)

  /** Qt::DisplayRole, Qt::DecorationRole and Qt::UserRole. */
  const DisplayRole: int := 0
  const DecorationRole: int := 1
  const UserRole: int := 0x0100

  /** Roles at or above this value select an additional label: role
      BaseColRole + k asks for label number k. */
  const BaseColRole: int := UserRole + 10

  /** A comparator that behaves as a total preorder: swapping the arguments
      swaps Smaller and Larger, and "not Larger" is transitive. Reflexivity
      (cmp(a, a) == Equal) follows from the first law. */
  ghost predicate ConsistentTotalOrder(cmp: (Variant, Variant) -> Comparison) {
    && (forall a, b :: cmp(a, b) == Larger <==> cmp(b, a) == Smaller)
    && (forall a, b, c :: cmp(a, b) != Larger && cmp(b, c) != Larger ==> cmp(a, c) != Larger)
  }
}
