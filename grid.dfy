/**
 * The battle field shared by every algorithm of the core: its size, the cell
 * coordinate (the library's `Edge`) and the unit record (the library's `Unit`,
 * reduced to plain data).
 */
module Grid {

  /** Width (x range) and height (y range) of the battle field. */
  const FieldWidth: int := 27
  const FieldHeight: int := 21

  datatype Option<T> = None | Some(value: T)

  datatype Result<T, E> = Success(value: T) | Failure(error: E)

  /** A grid coordinate; the library calls it `Edge`. */
  datatype Cell = Cell(x: int, y: int)

  /** A bonus table of a unit, only ever copied by the core. */
  type BonusTable = map<string, real>

  /**
   * A unit: fixed stats, current health and grid position.  The attack
   * capability a unit carries is not part of the record (see BattleLoop).
   */
  datatype Unit = Unit(
    name: string,
    unitType: string,
    health: int,
    baseAttack: int,
    cost: int,
    attackType: string,
    attackBonuses: BonusTable,
    defenceBonuses: BonusTable,
    x: int,
    y: int)

  /** A unit is alive iff its health is positive. */
  predicate Alive(u: Unit) {
    u.health > 0
  }

  function Pos(u: Unit): Cell {
    Cell(u.x, u.y)
  }

  /** The cell lies on the battle field. */
  predicate InBounds(c: Cell) {
    0 <= c.x < FieldWidth && 0 <= c.y < FieldHeight
  }

  /** The array covers the battle field. */
  predicate FieldSized<T>(a: array2<T>) {
    a.Length0 == FieldWidth && a.Length1 == FieldHeight
  }

  /** Cells of the columns 0 .. w-1 of the field. */
  ghost function Columns(w: nat): set<Cell> {
    set x, y | 0 <= x < w && 0 <= y < FieldHeight :: Cell(x, y)
  }

  ghost function ColumnPart(x: int, h: nat): set<Cell> {
    set y | 0 <= y < h :: Cell(x, y)
  }

  /** Every cell of the battle field. */
  ghost function AllCells(): set<Cell> {
    Columns(FieldWidth)
  }

  lemma {:induction false} ColumnPartCount(x: int, h: nat)
    ensures |ColumnPart(x, h)| == h
  {
    if h > 0 {
      ColumnPartCount(x, h - 1);
      assert ColumnPart(x, h) == ColumnPart(x, h - 1) + {Cell(x, h - 1)};
    }
  }

  lemma {:induction false} ColumnsCount(w: nat)
    ensures |Columns(w)| == w * FieldHeight
  {
    if w > 0 {
      ColumnsCount(w - 1);
      ColumnPartCount(w - 1, FieldHeight);
      assert Columns(w) == Columns(w - 1) + ColumnPart(w - 1, FieldHeight);
      assert Columns(w - 1) * ColumnPart(w - 1, FieldHeight) == {};
    }
  }

  /** A cell is on the field iff it is one of the field's 27 * 21 cells. */
  lemma AllCellsSpec(c: Cell)
    ensures c in AllCells() <==> InBounds(c)
    ensures |AllCells()| == FieldWidth * FieldHeight
  {
    ColumnsCount(FieldWidth);
    if InBounds(c) {
      assert c == Cell(c.x, c.y);
    }
  }
}
