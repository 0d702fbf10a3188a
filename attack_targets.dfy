/**
 * Which units of the target army can be attacked: a unit is exposed when no
 * living unit stands between it and the attacker's edge of the field in its
 * row.  Rows and units may be missing (`null` in the program).
 */
module AttackTargets {
  import opened Grid
  import opened Seqs

  /** The program's `List<List<Unit>>`, where a row or a unit may be absent. */
  type Rows = seq<Option<seq<Option<Unit>>>>

  /** The present, living units of one row, in row order. */
  function LivingInRow(row: seq<Option<Unit>>): seq<Unit>
  {
    if row == [] then []
    else
      var last := row[|row| - 1];
      LivingInRow(row[..|row| - 1]) + (if last.Some? && Alive(last.value) then [last.value] else [])
  }

  /** The present, living units of all present rows, row after row. */
  function ActiveUnits(rows: Rows): seq<Unit>
  {
    if rows == [] then []
    else
      var last := rows[|rows| - 1];
      ActiveUnits(rows[..|rows| - 1]) + (if last.Some? then LivingInRow(last.value) else [])
  }

  /** Unit `u` stands, alive, as element `j` of present row `i`. */
  ghost predicate StandsAt(rows: Rows, u: Unit, i: int, j: int) {
    0 <= i < |rows| && rows[i].Some? && 0 <= j < |rows[i].value| && rows[i].value[j] == Some(u) && Alive(u)
  }

  /** Every living unit of the rows stands on the field. */
  ghost predicate Placed(rows: Rows) {
    forall i, j ::
      0 <= i < |rows| && rows[i].Some? && 0 <= j < |rows[i].value| && rows[i].value[j].Some? && Alive(rows[i].value[j].value)
      ==> InBounds(Pos(rows[i].value[j].value))
  }

  /** The cells of the given units. */
  ghost function Cells(units: seq<Unit>): set<Cell> {
    set u | u in units :: Pos(u)
  }

  /** Cells holding a living unit of the rows. */
  ghost function OccupiedCells(rows: Rows): set<Cell> {
    Cells(ActiveUnits(rows))
  }

  /**
   * No occupied cell lies strictly between the unit and the attacker's edge of
   * its row: the left edge when the left army is the target, else the right edge.
   */
  ghost predicate Exposed(u: Unit, occupied: set<Cell>, isLeftArmyTarget: bool) {
    if isLeftArmyTarget then forall x :: 0 <= x < u.x ==> Cell(x, u.y) !in occupied
    else forall x :: u.x < x < FieldWidth ==> Cell(x, u.y) !in occupied
  }

  /** The exposed units of the list, in list order. */
  ghost function Accessible(units: seq<Unit>, occupied: set<Cell>, isLeftArmyTarget: bool): seq<Unit> {
    if units == [] then []
    else
      var last := units[|units| - 1];
      Accessible(units[..|units| - 1], occupied, isLeftArmyTarget) +
        (if Exposed(last, occupied, isLeftArmyTarget) then [last] else [])
  }

  /** The answer of the finder: the active units no other living unit shields. */
  ghost function SuitableUnits(rows: Rows, isLeftArmyTarget: bool): seq<Unit> {
    Accessible(ActiveUnits(rows), OccupiedCells(rows), isLeftArmyTarget)
  }

  // ---------------------------------------------------------------------------
  // Properties of the specification

  lemma {:induction false} LivingInRowSpec(row: seq<Option<Unit>>, u: Unit)
    ensures u in LivingInRow(row) <==> exists j :: 0 <= j < |row| && row[j] == Some(u) && Alive(u)
  {
    if row != [] {
      var init := row[..|row| - 1];
      LivingInRowSpec(init, u);
      if u in LivingInRow(init) {
        var j :| 0 <= j < |init| && init[j] == Some(u) && Alive(u);
        assert row[j] == Some(u);
      }
      if exists j :: 0 <= j < |row| && row[j] == Some(u) && Alive(u) {
        var j :| 0 <= j < |row| && row[j] == Some(u) && Alive(u);
        if j < |init| {
          assert init[j] == Some(u);
        }
      }
    }
  }

  /**
   * A unit is active iff it stands, alive and present, in some present row:
   * missing rows, missing units and dead units are skipped.
   */
  lemma {:induction false} ActiveUnitsSpec(rows: Rows, u: Unit)
    ensures u in ActiveUnits(rows) <==> exists i, j :: StandsAt(rows, u, i, j)
  {
    if rows != [] {
      var init := rows[..|rows| - 1];
      var last := rows[|rows| - 1];
      ActiveUnitsSpec(init, u);
      if last.Some? {
        LivingInRowSpec(last.value, u);
      }
      if u in ActiveUnits(init) {
        var i, j :| StandsAt(init, u, i, j);
        assert StandsAt(rows, u, i, j);
      }
      if last.Some? && u in LivingInRow(last.value) {
        var j :| 0 <= j < |last.value| && last.value[j] == Some(u) && Alive(u);
        assert StandsAt(rows, u, |rows| - 1, j);
      }
      if exists i, j :: StandsAt(rows, u, i, j) {
        var i, j :| StandsAt(rows, u, i, j);
        if i < |init| {
          assert init[i] == rows[i];
          assert StandsAt(init, u, i, j);
        } else {
          assert last.value[j] == Some(u);
          assert u in LivingInRow(last.value);
        }
        assert ActiveUnits(rows) == ActiveUnits(init) + (if last.Some? then LivingInRow(last.value) else []);
      }
    }
  }

  /** A cell is occupied iff some present, living unit of a present row stands on it. */
  lemma OccupiedCellsSpec(rows: Rows, c: Cell)
    ensures c in OccupiedCells(rows) <==> exists i, j, u :: StandsAt(rows, u, i, j) && Pos(u) == c
  {
    if c in OccupiedCells(rows) {
      var u :| u in ActiveUnits(rows) && Pos(u) == c;
      ActiveUnitsSpec(rows, u);
      var i, j :| StandsAt(rows, u, i, j);
    }
    if exists i, j, u :: StandsAt(rows, u, i, j) && Pos(u) == c {
      var i, j, u :| StandsAt(rows, u, i, j) && Pos(u) == c;
      ActiveUnitsSpec(rows, u);
    }
  }

  /** The filter keeps exactly the exposed units and keeps their order. */
  lemma {:induction false} AccessibleSpec(units: seq<Unit>, occupied: set<Cell>, isLeftArmyTarget: bool)
    ensures IsSubsequence(Accessible(units, occupied, isLeftArmyTarget), units)
    ensures forall u :: u in Accessible(units, occupied, isLeftArmyTarget) <==>
              u in units && Exposed(u, occupied, isLeftArmyTarget)
  {
    if units != [] {
      var init := units[..|units| - 1];
      var last := units[|units| - 1];
      AccessibleSpec(init, occupied, isLeftArmyTarget);
      assert units == init + [last];
      if Exposed(last, occupied, isLeftArmyTarget) {
        SubsequenceAppend(Accessible(init, occupied, isLeftArmyTarget), init, last);
      } else {
        assert Accessible(units, occupied, isLeftArmyTarget) == Accessible(init, occupied, isLeftArmyTarget);
        SubsequenceExtend(Accessible(init, occupied, isLeftArmyTarget), init, last);
      }
    }
  }

  /**
   * The suitable units are the active units in their order, thinned out; a unit
   * is suitable iff it is active and exposed, so every suitable unit is alive.
   */
  lemma SuitableUnitsSpec(rows: Rows, isLeftArmyTarget: bool, u: Unit)
    ensures IsSubsequence(SuitableUnits(rows, isLeftArmyTarget), ActiveUnits(rows))
    ensures u in SuitableUnits(rows, isLeftArmyTarget) <==>
              (exists i, j :: StandsAt(rows, u, i, j)) && Exposed(u, OccupiedCells(rows), isLeftArmyTarget)
    ensures u in SuitableUnits(rows, isLeftArmyTarget) ==> Alive(u)
  {
    AccessibleSpec(ActiveUnits(rows), OccupiedCells(rows), isLeftArmyTarget);
    ActiveUnitsSpec(rows, u);
  }

  /**
   * A unit's own cell is never scanned, so an active unit on the attacker's
   * edge column is always suitable.
   */
  lemma EdgeUnitsSuitable(rows: Rows, isLeftArmyTarget: bool, u: Unit)
    requires u in ActiveUnits(rows)
    requires if isLeftArmyTarget then u.x == 0 else u.x == FieldWidth - 1
    ensures u in SuitableUnits(rows, isLeftArmyTarget)
  {
    AccessibleSpec(ActiveUnits(rows), OccupiedCells(rows), isLeftArmyTarget);
  }

  // ---------------------------------------------------------------------------
  // The finder

  lemma CellsAppend(units: seq<Unit>, extra: seq<Unit>)
    ensures Cells(units + extra) == Cells(units) + Cells(extra)
  {
    assert forall u :: u in units + extra <==> u in units || u in extra;
  }

  /** `ActiveUnits` of one more row, in terms of the row's prefix just scanned. */
  lemma ActiveUnitsStep(rows: Rows, i: nat)
    requires i < |rows|
    ensures ActiveUnits(rows[..i + 1]) ==
              ActiveUnits(rows[..i]) + (if rows[i].Some? then LivingInRow(rows[i].value) else [])
  {
    assert rows[..i + 1][..i] == rows[..i];
  }

  lemma LivingInRowStep(row: seq<Option<Unit>>, j: nat)
    requires j < |row|
    ensures LivingInRow(row[..j + 1]) ==
              LivingInRow(row[..j]) + (if row[j].Some? && Alive(row[j].value) then [row[j].value] else [])
  {
    assert row[..j + 1][..j] == row[..j];
  }

  /** The array marks exactly the given cells of the field. */
  ghost predicate Marks(occupied: array2<bool>, cells: set<Cell>)
    reads occupied
  {
    FieldSized(occupied) &&
    forall x, y {:trigger occupied[x, y]} :: 0 <= x < FieldWidth && 0 <= y < FieldHeight ==>
      (occupied[x, y] <==> Cell(x, y) in cells)
  }

  /** The occupancy map: a cell is marked iff a living unit of the rows stands on it. */
  method BuildOccupiedPositionsMap(rows: Rows) returns (occupied: array2<bool>)
    requires Placed(rows)
    ensures FieldSized(occupied)
    ensures forall x, y {:trigger occupied[x, y]} :: 0 <= x < FieldWidth && 0 <= y < FieldHeight ==>
              (occupied[x, y] <==> Cell(x, y) in OccupiedCells(rows))
  {
    occupied := new bool[FieldWidth, FieldHeight]((_, _) => false);
    ghost var scanned: seq<Unit> := [];
    ghost var marked: set<Cell> := {};
    for i := 0 to |rows|
      invariant FieldSized(occupied)
      invariant scanned == ActiveUnits(rows[..i]) && marked == Cells(scanned)
      invariant Marks(occupied, marked)
    {
      ActiveUnitsStep(rows, i);
      if rows[i].None? {
        continue;
      }
      var row := rows[i].value;
      ghost var before := marked;
      ghost var living: seq<Unit> := [];
      for j := 0 to |row|
        invariant FieldSized(occupied)
        invariant living == LivingInRow(row[..j]) && marked == before + Cells(living)
        invariant Marks(occupied, marked)
      {
        LivingInRowStep(row, j);
        var unit := row[j];
        if unit.Some? && Alive(unit.value) {
          var u := unit.value;
          assert InBounds(Pos(rows[i].value[j].value));
          occupied[u.x, u.y] := true;
          CellsAppend(living, [u]);
          assert Cells([u]) == {Pos(u)};
          living, marked := living + [u], marked + {Pos(u)};
        }
      }
      assert row[..|row|] == row;
      CellsAppend(scanned, LivingInRow(row));
      scanned := scanned + LivingInRow(row);
    }
    assert rows[..|rows|] == rows;
  }

  /** The active units: present, living units of present rows, row after row. */
  method ExtractActiveUnits(rows: Rows) returns (active: seq<Unit>)
    ensures active == ActiveUnits(rows)
  {
    active := [];
    for i := 0 to |rows|
      invariant active == ActiveUnits(rows[..i])
    {
      ActiveUnitsStep(rows, i);
      if rows[i].None? {
        continue;
      }
      var row := rows[i].value;
      ghost var before := active;
      for j := 0 to |row|
        invariant active == before + LivingInRow(row[..j])
      {
        LivingInRowStep(row, j);
        var unit := row[j];
        if unit.Some? && Alive(unit.value) {
          active := active + [unit.value];
        }
      }
      assert row[..|row|] == row;
    }
    assert rows[..|rows|] == rows;
  }

  /**
   * The unit can be attacked iff no occupied cell lies strictly between it and
   * the attacker's edge of its row.
   */
  method CanBeAttacked(unit: Unit, occupied: array2<bool>, isLeftArmyTarget: bool) returns (ok: bool)
    requires FieldSized(occupied) && InBounds(Pos(unit))
    ensures ok <==> if isLeftArmyTarget then forall x :: 0 <= x < unit.x ==> !occupied[x, unit.y]
                    else forall x :: unit.x < x < FieldWidth ==> !occupied[x, unit.y]
  {
    if isLeftArmyTarget {
      for x := unit.x downto 0
        invariant forall x' :: x <= x' < unit.x ==> !occupied[x', unit.y]
      {
        if occupied[x, unit.y] {
          return false;
        }
      }
    } else {
      for x := unit.x + 1 to FieldWidth
        invariant forall x' :: unit.x < x' < x ==> !occupied[x', unit.y]
      {
        if occupied[x, unit.y] {
          return false;
        }
      }
    }
    return true;
  }

  /** The units of the list that can be attacked, in list order. */
  method FilterAccessibleUnits(units: seq<Unit>, occupied: array2<bool>, isLeftArmyTarget: bool, ghost cells: set<Cell>)
    returns (accessible: seq<Unit>)
    requires FieldSized(occupied)
    requires forall u :: u in units ==> InBounds(Pos(u))
    requires forall x, y {:trigger occupied[x, y]} :: 0 <= x < FieldWidth && 0 <= y < FieldHeight ==>
               (occupied[x, y] <==> Cell(x, y) in cells)
    ensures accessible == Accessible(units, cells, isLeftArmyTarget)
  {
    accessible := [];
    for i := 0 to |units|
      invariant accessible == Accessible(units[..i], cells, isLeftArmyTarget)
    {
      var unit := units[i];
      assert units[..i + 1][..i] == units[..i];
      var ok := CanBeAttacked(unit, occupied, isLeftArmyTarget);
      assert ok <==> Exposed(unit, cells, isLeftArmyTarget) by {
        if isLeftArmyTarget {
          assert forall x :: 0 <= x < unit.x ==> (occupied[x, unit.y] <==> Cell(x, unit.y) in cells);
        } else {
          assert forall x :: unit.x < x < FieldWidth ==> (occupied[x, unit.y] <==> Cell(x, unit.y) in cells);
        }
      }
      if ok {
        accessible := accessible + [unit];
      }
    }
    assert units[..|units|] == units;
  }

  /** The units of the target army that can be attacked. */
  method GetSuitableUnits(rows: Rows, isLeftArmyTarget: bool) returns (suitable: seq<Unit>)
    requires Placed(rows)
    ensures suitable == SuitableUnits(rows, isLeftArmyTarget)
  {
    var occupied := BuildOccupiedPositionsMap(rows);
    var active := ExtractActiveUnits(rows);
    forall u | u in active
      ensures InBounds(Pos(u))
    {
      ActiveUnitsSpec(rows, u);
      var i, j :| StandsAt(rows, u, i, j);
      assert rows[i].value[j].Some?;
    }
    suitable := FilterAccessibleUnits(active, occupied, isLeftArmyTarget, OccupiedCells(rows));
  }
}
