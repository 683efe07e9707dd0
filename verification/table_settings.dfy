/** The persisted table-settings store (`TableSettings`): for each table key,
    the visibility of its columns. */
module TableSettings {

  /** Column id to visibility, as the table library's visibility state. */
  type Visibility = map<string, bool>

  datatype State = State(columnVisibility: map<string, Visibility>)

  const Initial: State := State(map[])

  /** The stored visibility of a table, or no entries when none is stored. */
  function GetColumnVisibility(s: State, tableKey: string): (r: Visibility)
    ensures tableKey !in s.columnVisibility ==> r == map[]
    ensures tableKey in s.columnVisibility ==> State(s.columnVisibility[tableKey := r]) == s
  {
    if tableKey in s.columnVisibility then s.columnVisibility[tableKey] else map[]
  }

  /** Replaces the visibility of one table. */
  function SetColumnVisibility(s: State, tableKey: string, visibility: Visibility): (r: State)
    ensures GetColumnVisibility(r, tableKey) == visibility
    ensures tableKey in r.columnVisibility
    ensures r.columnVisibility.Keys == s.columnVisibility.Keys + {tableKey}
    ensures forall k :: k != tableKey ==> GetColumnVisibility(r, k) == GetColumnVisibility(s, k)
  {
    State(s.columnVisibility[tableKey := visibility])
  }

  /** Sets one column of one table, keeping the table's other columns. */
  function ToggleColumnVisibility(s: State, tableKey: string, columnId: string, isVisible: bool): (r: State)
    ensures GetColumnVisibility(r, tableKey) == GetColumnVisibility(s, tableKey)[columnId := isVisible]
    ensures tableKey in r.columnVisibility
    ensures r.columnVisibility.Keys == s.columnVisibility.Keys + {tableKey}
    ensures forall k :: k != tableKey ==> GetColumnVisibility(r, k) == GetColumnVisibility(s, k)
  {
    var current := GetColumnVisibility(s, tableKey);
    State(s.columnVisibility[tableKey := current[columnId := isVisible]])
  }

  /** Forgets the settings of one table. */
  function ResetColumnVisibility(s: State, tableKey: string): (r: State)
    ensures tableKey !in r.columnVisibility
    ensures GetColumnVisibility(r, tableKey) == map[]
    ensures r.columnVisibility.Keys == s.columnVisibility.Keys - {tableKey}
    ensures forall k :: k != tableKey ==> GetColumnVisibility(r, k) == GetColumnVisibility(s, k)
  {
    State(s.columnVisibility - {tableKey})
  }

  /** Toggling a column reads back as exactly that column's new value, and
      on a table without settings it creates the one-column map. */
  lemma {:induction false} ToggleReadBack(s: State, tableKey: string, columnId: string, isVisible: bool)
    ensures var v := GetColumnVisibility(ToggleColumnVisibility(s, tableKey, columnId, isVisible), tableKey);
      && columnId in v && v[columnId] == isVisible
      && v.Keys - {columnId} == GetColumnVisibility(s, tableKey).Keys - {columnId}
      && forall c :: c in v && c != columnId ==> v[c] == GetColumnVisibility(s, tableKey)[c]
    ensures tableKey !in s.columnVisibility ==>
      GetColumnVisibility(ToggleColumnVisibility(s, tableKey, columnId, isVisible), tableKey) == map[columnId := isVisible]
  { }

  /** Toggling twice with the same arguments is toggling once. */
  lemma {:induction false} ToggleIdempotent(s: State, tableKey: string, columnId: string, isVisible: bool)
    ensures var once := ToggleColumnVisibility(s, tableKey, columnId, isVisible);
      ToggleColumnVisibility(once, tableKey, columnId, isVisible) == once
  {
    var once := ToggleColumnVisibility(s, tableKey, columnId, isVisible);
    var twice := ToggleColumnVisibility(once, tableKey, columnId, isVisible);
    var v := once.columnVisibility[tableKey];
    assert v[columnId := isVisible] == v;
    assert twice.columnVisibility == once.columnVisibility;
  }

  /** Resetting undoes any earlier setting of the same table. */
  lemma {:induction false} ResetForgetsSet(s: State, tableKey: string, visibility: Visibility)
    ensures ResetColumnVisibility(SetColumnVisibility(s, tableKey, visibility), tableKey)
         == ResetColumnVisibility(s, tableKey)
  {
    var a := ResetColumnVisibility(SetColumnVisibility(s, tableKey, visibility), tableKey);
    var b := ResetColumnVisibility(s, tableKey);
    assert a.columnVisibility == b.columnVisibility;
  }

  /** Settings of different tables do not interfere: toggles on two distinct
      tables commute. */
  lemma {:induction false} TogglesOnDistinctTablesCommute(s: State, k1: string, c1: string, b1: bool, k2: string, c2: string, b2: bool)
    requires k1 != k2
    ensures ToggleColumnVisibility(ToggleColumnVisibility(s, k1, c1, b1), k2, c2, b2)
         == ToggleColumnVisibility(ToggleColumnVisibility(s, k2, c2, b2), k1, c1, b1)
  {
    var m := s.columnVisibility;
    var v1 := GetColumnVisibility(s, k1)[c1 := b1];
    var v2 := GetColumnVisibility(s, k2)[c2 := b2];
    var s1, s2 := ToggleColumnVisibility(s, k1, c1, b1), ToggleColumnVisibility(s, k2, c2, b2);
    assert s1.columnVisibility == m[k1 := v1] && GetColumnVisibility(s1, k2) == GetColumnVisibility(s, k2);
    assert s2.columnVisibility == m[k2 := v2] && GetColumnVisibility(s2, k1) == GetColumnVisibility(s, k1);
    assert m[k1 := v1][k2 := v2] == m[k2 := v2][k1 := v1];
  }
}
