/** One user record of the admin table, as loaded from the members list and
    extended with the checkbox flag. */
module UserRecord {

  type UserId = string

  datatype User = User(id: UserId, name: string, email: string, role: string, isSelected: bool)

  /** `rows.map(u => ({ ...u, isSelected: checked }))`: every row with its
      checkbox set to `checked` and nothing else changed. */
  function WithSelection(rows: seq<User>, checked: bool): (r: seq<User>)
    ensures |r| == |rows|
    ensures forall i :: 0 <= i < |rows| ==>
              r[i].isSelected == checked &&
              r[i] == rows[i].(isSelected := checked)
  {
    if rows == [] then []
    else [rows[0].(isSelected := checked)] + WithSelection(rows[1..], checked)
  }
}
