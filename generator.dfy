/**
 * The computer army's generator: every ranked unit type is copied while the
 * budget allows, at most eleven times, and every copy is placed on a distinct
 * free cell of the computer's placement zone, drawn at random from a pool.
 */
module ArmyGenerator {
  import opened Grid
  import opened Seqs

  /** At most this many copies of one ranked entry. */
  const MaxUnitsOfType: nat := 11

  /** The placement zone: columns 0 .. 2 of all 21 rows. */
  const ZoneWidth: nat := 3
  const ZoneHeight: nat := 21
  const ZoneSize: nat := ZoneWidth * ZoneHeight

  predicate InZone(c: Cell) {
    0 <= c.x < ZoneWidth && 0 <= c.y < ZoneHeight
  }

  /** A generated army and the points it costs. */
  datatype Army = Army(units: seq<Unit>, points: int)

  /** The pool has no position left to hand out. */
  datatype NoAvailablePositions = NoAvailablePositions

  // ---------------------------------------------------------------------------
  // Names and copies

  function Digit(d: nat): char
    requires d < 10
  {
    "0123456789"[d]
  }

  /** The decimal form of `n`, as string concatenation writes an `int`. */
  function NatToString(n: nat): (s: string)
    ensures |s| >= 1
    ensures n >= 10 ==> |s| >= 2
    decreases n
  {
    if n < 10 then [Digit(n)] else NatToString(n / 10) + [Digit(n % 10)]
  }

  lemma DigitInjective(a: nat, b: nat)
    requires a < 10 && b < 10 && Digit(a) == Digit(b)
    ensures a == b
  {
  }

  /** Different numbers are written differently. */
  lemma {:induction false} NatToStringInjective(a: nat, b: nat)
    requires NatToString(a) == NatToString(b)
    ensures a == b
    decreases a
  {
    var s := NatToString(a);
    if a < 10 && b < 10 {
      DigitInjective(a, b);
    } else if a >= 10 && b >= 10 {
      var sa, sb := NatToString(a / 10), NatToString(b / 10);
      assert s == sa + [Digit(a % 10)] == sb + [Digit(b % 10)];
      assert s[|s| - 1] == Digit(a % 10) == Digit(b % 10);
      DigitInjective(a % 10, b % 10);
      assert sa == s[..|s| - 1] == sb;
      NatToStringInjective(a / 10, b / 10);
    }
  }

  /** The `number`-th copy of `template`, standing on cell (x, y). */
  function MakeUnit(template: Unit, number: nat, x: int, y: int): Unit
  {
    Unit(template.unitType + " " + NatToString(number), template.unitType, template.health,
         template.baseAttack, template.cost, template.attackType,
         template.attackBonuses, template.defenceBonuses, x, y)
  }

  /** Copies with equal numbers only: the copies of one type have distinct names. */
  lemma CopyNamesDistinct(template: Unit, i: nat, j: nat)
    requires MakeUnit(template, i, 0, 0).name == MakeUnit(template, j, 0, 0).name
    ensures i == j
  {
    var prefix := template.unitType + " ";
    assert MakeUnit(template, i, 0, 0).name == prefix + NatToString(i);
    assert NatToString(i) == (prefix + NatToString(i))[|prefix|..];
    assert NatToString(j) == (prefix + NatToString(j))[|prefix|..];
    NatToStringInjective(i, j);
  }

  /** The units stand on the given cells, in order. */
  predicate StandOn(units: seq<Unit>, cells: seq<Cell>) {
    |units| == |cells| && forall k :: 0 <= k < |units| ==> Pos(units[k]) == cells[k]
  }

  /** The points the units cost together. */
  function TotalCost(units: seq<Unit>): int {
    if units == [] then 0 else units[0].cost + TotalCost(units[1..])
  }

  lemma {:induction false} TotalCostAppend(a: seq<Unit>, b: seq<Unit>)
    ensures TotalCost(a + b) == TotalCost(a) + TotalCost(b)
    decreases |a|
  {
    if a != [] {
      assert (a + b)[1..] == a[1..] + b;
      TotalCostAppend(a[1..], b);
    } else {
      assert a + b == b;
    }
  }

  // ---------------------------------------------------------------------------
  // The greedy plan, positions left out

  /** The `number`-th copy of a ranked entry, not yet placed. */
  datatype Copy = Copy(template: Unit, number: nat)

  /** The points the copies cost together. */
  function Cost(copies: seq<Copy>): int {
    if copies == [] then 0 else copies[0].template.cost + Cost(copies[1..])
  }

  lemma {:induction false} CostAppend(a: seq<Copy>, b: seq<Copy>)
    ensures Cost(a + b) == Cost(a) + Cost(b)
    decreases |a|
  {
    if a != [] {
      assert (a + b)[1..] == a[1..] + b;
      CostAppend(a[1..], b);
    } else {
      assert a + b == b;
    }
  }

  /** Starting from an army that costs `total`, the army costs at most `maxPoints` after every copy added. */
  predicate WithinBudget(copies: seq<Copy>, total: int, maxPoints: int) {
    forall k :: 0 < k <= |copies| ==> total + Cost(copies[..k]) <= maxPoints
  }

  lemma ConcatWithinBudget(a: seq<Copy>, b: seq<Copy>, total: int, maxPoints: int)
    requires WithinBudget(a, total, maxPoints) && WithinBudget(b, total + Cost(a), maxPoints)
    ensures WithinBudget(a + b, total, maxPoints)
  {
    forall k | 0 < k <= |a + b|
      ensures total + Cost((a + b)[..k]) <= maxPoints
    {
      if k <= |a| {
        assert (a + b)[..k] == a[..k];
      } else {
        assert (a + b)[..k] == a + b[..k - |a|];
        CostAppend(a, b[..k - |a|]);
      }
    }
  }

  /** The units are the copies, in order, each standing on its own cell. */
  predicate Realizes(units: seq<Unit>, copies: seq<Copy>) {
    && |units| == |copies|
    && forall k :: 0 <= k < |units| ==>
         units[k] == MakeUnit(copies[k].template, copies[k].number, units[k].x, units[k].y)
  }

  /** Units realizing copies cost what the copies cost. */
  lemma {:induction false} RealizedCost(units: seq<Unit>, copies: seq<Copy>)
    requires Realizes(units, copies)
    ensures TotalCost(units) == Cost(copies)
    decreases |units|
  {
    if units != [] {
      assert Realizes(units[1..], copies[1..]) by {
        forall k | 0 <= k < |units| - 1
          ensures units[1..][k] == MakeUnit(copies[1..][k].template, copies[1..][k].number, units[1..][k].x, units[1..][k].y)
        {
          assert units[1..][k] == units[k + 1] && copies[1..][k] == copies[k + 1];
        }
      }
      RealizedCost(units[1..], copies[1..]);
      assert units[0] == MakeUnit(copies[0].template, copies[0].number, units[0].x, units[0].y);
    }
  }

  /**
   * The copies of `template` still added once `added` copies were made and
   * the army costs `total`: one more while it fits in the budget `maxPoints`
   * and fewer than eleven were made.
   */
  function Block(template: Unit, added: nat, total: int, maxPoints: int): seq<Copy>
    decreases MaxUnitsOfType - added
  {
    if total + template.cost <= maxPoints && added < MaxUnitsOfType then
      [Copy(template, added + 1)] + Block(template, added + 1, total + template.cost, maxPoints)
    else []
  }

  /** What the army costs once those copies are added. */
  function Spent(template: Unit, added: nat, total: int, maxPoints: int): int
    decreases MaxUnitsOfType - added
  {
    if total + template.cost <= maxPoints && added < MaxUnitsOfType then
      Spent(template, added + 1, total + template.cost, maxPoints)
    else total
  }

  /** The copies made from the entries `i ..` of the ranking when the army costs `total`. */
  function Rest(ranked: seq<Unit>, i: nat, total: int, maxPoints: int): seq<Copy>
    requires i <= |ranked|
    decreases |ranked| - i
  {
    if i == |ranked| then []
    else Block(ranked[i], 0, total, maxPoints) + Rest(ranked, i + 1, Spent(ranked[i], 0, total, maxPoints), maxPoints)
  }

  /** The copies the greedy generator makes, in the order it adds them. */
  function Roster(ranked: seq<Unit>, maxPoints: int): seq<Copy> {
    Rest(ranked, 0, 0, maxPoints)
  }

  /**
   * One more copy fits: it comes next, numbered `number`, and the army then
   * costs `next`.
   */
  lemma BlockStep(template: Unit, added: nat, total: int, maxPoints: int, number: nat, next: int)
    requires total + template.cost <= maxPoints && added < MaxUnitsOfType
    requires number == added + 1 && next == total + template.cost
    ensures Block(template, added, total, maxPoints)
            == [Copy(template, number)] + Block(template, number, next, maxPoints)
    ensures Spent(template, added, total, maxPoints) == Spent(template, number, next, maxPoints)
  {
  }

  /** No further copy fits: the entry is done. */
  lemma BlockDone(template: Unit, added: nat, total: int, maxPoints: int)
    requires !(total + template.cost <= maxPoints && added < MaxUnitsOfType)
    ensures Block(template, added, total, maxPoints) == []
    ensures Spent(template, added, total, maxPoints) == total
  {
  }

  /** The entry `i` contributes its block, and the entries after it follow at the cost `spent`. */
  lemma RestStep(ranked: seq<Unit>, i: nat, total: int, maxPoints: int, j: nat, spent: int)
    requires i < |ranked| && j == i + 1 && spent == Spent(ranked[i], 0, total, maxPoints)
    ensures Rest(ranked, i, total, maxPoints) == Block(ranked[i], 0, total, maxPoints) + Rest(ranked, j, spent, maxPoints)
  {
  }

  /** One ranked entry: at most eleven copies, numbered from one on, of the entry itself. */
  lemma {:induction false} BlockCopies(template: Unit, added: nat, total: int, maxPoints: int)
    requires added <= MaxUnitsOfType
    ensures var b := Block(template, added, total, maxPoints);
      && added + |b| <= MaxUnitsOfType
      && forall k :: 0 <= k < |b| ==> b[k] == Copy(template, added + k + 1)
    decreases MaxUnitsOfType - added
  {
    if total + template.cost <= maxPoints && added < MaxUnitsOfType {
      var number, next := added + 1, total + template.cost;
      BlockStep(template, added, total, maxPoints, number, next);
      var b := Block(template, added, total, maxPoints);
      var tail := Block(template, number, next, maxPoints);
      BlockCopies(template, number, next, maxPoints);
      forall k | 0 < k < |b|
        ensures b[k] == Copy(template, added + k + 1)
      {
        assert b[k] == tail[k - 1] == Copy(template, number + (k - 1) + 1);
      }
    } else {
      BlockDone(template, added, total, maxPoints);
    }
  }

  /** Every copy of an entry is added within the budget; `Spent` is what they cost on top of `total`. */
  lemma {:induction false} BlockWithinBudget(template: Unit, added: nat, total: int, maxPoints: int)
    ensures Spent(template, added, total, maxPoints) == total + Cost(Block(template, added, total, maxPoints))
    ensures WithinBudget(Block(template, added, total, maxPoints), total, maxPoints)
    decreases MaxUnitsOfType - added
  {
    if total + template.cost <= maxPoints && added < MaxUnitsOfType {
      var number, next := added + 1, total + template.cost;
      BlockStep(template, added, total, maxPoints, number, next);
      var head := [Copy(template, number)];
      var tail := Block(template, number, next, maxPoints);
      BlockWithinBudget(template, number, next, maxPoints);
      assert Cost(head) == template.cost by {
        assert head[1..] == [];
      }
      assert WithinBudget(head, total, maxPoints) by {
        assert head[..1] == head;
      }
      ConcatWithinBudget(head, tail, total, maxPoints);
      CostAppend(head, tail);
    } else {
      BlockDone(template, added, total, maxPoints);
    }
  }

  /** Adding copies of an entry stops once eleven were made or the next copy would exceed the budget. */
  lemma {:induction false} BlockStops(template: Unit, added: nat, total: int, maxPoints: int)
    requires added <= MaxUnitsOfType
    ensures added + |Block(template, added, total, maxPoints)| == MaxUnitsOfType ||
            Spent(template, added, total, maxPoints) + template.cost > maxPoints
    decreases MaxUnitsOfType - added
  {
    if total + template.cost <= maxPoints && added < MaxUnitsOfType {
      var number, next := added + 1, total + template.cost;
      BlockStep(template, added, total, maxPoints, number, next);
      BlockStops(template, number, next, maxPoints);
    } else {
      BlockDone(template, added, total, maxPoints);
    }
  }

  /** After every addition the army costs no more than the budget. */
  lemma {:induction false} RestWithinBudget(ranked: seq<Unit>, i: nat, total: int, maxPoints: int)
    requires i <= |ranked|
    ensures WithinBudget(Rest(ranked, i, total, maxPoints), total, maxPoints)
    decreases |ranked| - i
  {
    if i < |ranked| {
      var b := Block(ranked[i], 0, total, maxPoints);
      var j, spent := i + 1, Spent(ranked[i], 0, total, maxPoints);
      RestStep(ranked, i, total, maxPoints, j, spent);
      BlockWithinBudget(ranked[i], 0, total, maxPoints);
      RestWithinBudget(ranked, j, spent, maxPoints);
      ConcatWithinBudget(b, Rest(ranked, j, spent, maxPoints), total, maxPoints);
    }
  }

  /** The whole army fits the budget after every copy added, in the order of addition. */
  lemma RosterWithinBudget(ranked: seq<Unit>, maxPoints: int)
    ensures var r := Roster(ranked, maxPoints);
      forall k :: 0 < k <= |r| ==> Cost(r[..k]) <= maxPoints
  {
    RestWithinBudget(ranked, 0, 0, maxPoints);
  }

  /** The copies of an entry's block are copies of that entry, numbered 1 to 11. */
  lemma BlockMembers(template: Unit, total: int, maxPoints: int)
    ensures forall c :: c in Block(template, 0, total, maxPoints) ==>
              c.template == template && 1 <= c.number <= MaxUnitsOfType
  {
    var b := Block(template, 0, total, maxPoints);
    BlockCopies(template, 0, total, maxPoints);
    forall c | c in b
      ensures c.template == template && 1 <= c.number <= MaxUnitsOfType
    {
      var k :| 0 <= k < |b| && b[k] == c;
    }
  }

  /** Every copy is a copy of a ranked entry, numbered 1 to 11. */
  lemma {:induction false} RestCopies(ranked: seq<Unit>, i: nat, total: int, maxPoints: int)
    requires i <= |ranked|
    ensures forall c :: c in Rest(ranked, i, total, maxPoints) ==>
              c.template in ranked[i..] && 1 <= c.number <= MaxUnitsOfType
    decreases |ranked| - i
  {
    if i < |ranked| {
      var j, spent := i + 1, Spent(ranked[i], 0, total, maxPoints);
      RestStep(ranked, i, total, maxPoints, j, spent);
      BlockMembers(ranked[i], total, maxPoints);
      RestCopies(ranked, j, spent, maxPoints);
      assert ranked[i..] == [ranked[i]] + ranked[j..];
    }
  }

  // ---------------------------------------------------------------------------
  // The position pool

  /** The zone's cells in the order the pool is filled: column by column. */
  function ZoneOrder(): seq<Cell> {
    seq(ZoneSize, k => Cell(k / ZoneHeight, k % ZoneHeight))
  }

  /** The pool starts with every cell of the zone, each once. */
  lemma ZoneOrderSpec()
    ensures Distinct(ZoneOrder())
    ensures forall c :: c in ZoneOrder() <==> InZone(c)
  {
    var z := ZoneOrder();
    forall c | InZone(c)
      ensures c in z
    {
      assert z[c.x * ZoneHeight + c.y] == c;
    }
  }

  /** Moving element `i` of `b` to the end of `a` keeps a list free of duplicates and its elements. */
  lemma TakeOut<T>(a: seq<T>, b: seq<T>, i: nat)
    requires i < |b| && Distinct(a + b)
    ensures Distinct((a + [b[i]]) + (b[..i] + b[i + 1..]))
    ensures forall x :: x in (a + [b[i]]) + (b[..i] + b[i + 1..]) <==> x in a + b
  {
    var s, t := a + b, (a + [b[i]]) + (b[..i] + b[i + 1..]);
    assert forall k :: 0 <= k < |a| ==> t[k] == s[k];
    assert t[|a|] == s[|a| + i];
    assert forall k :: |a| < k <= |a| + i ==> t[k] == s[k - 1];
    assert forall k :: |a| + i < k < |t| ==> t[k] == s[k];
    forall x | x in s
      ensures x in t
    {
      var k :| 0 <= k < |s| && s[k] == x;
      if k < |a| {
        assert t[k] == x;
      } else if k < |a| + i {
        assert t[k + 1] == x;
      } else if k > |a| + i {
        assert t[k] == x;
      }
    }
  }

  /** Hands out the positions of the placement zone, each at most once, in random order. */
  class PositionGenerator {
    /** The positions not handed out yet. */
    var available: seq<Cell>
    /** The positions handed out so far, in order. */
    ghost var issued: seq<Cell>

    /** The handed-out and the available positions together are the zone, each cell once. */
    ghost predicate Valid()
      reads this
    {
      && Distinct(issued + available)
      && |issued| + |available| == ZoneSize
      && (forall c :: c in issued + available <==> InZone(c))
    }

    /** The pool of all 63 cells of the zone, column by column. */
    constructor ()
      ensures Valid()
      ensures available == ZoneOrder() && issued == []
    {
      available := [];
      issued := [];
      new;
      for x := 0 to ZoneWidth
        invariant available == ZoneOrder()[..x * ZoneHeight] && issued == []
      {
        for y := 0 to ZoneHeight
          invariant available == ZoneOrder()[..x * ZoneHeight + y] && issued == []
        {
          assert ZoneOrder()[x * ZoneHeight + y] == Cell(x, y);
          available := available + [Cell(x, y)];
        }
      }
      ZoneOrderSpec();
      assert available == ZoneOrder()[..ZoneSize] == ZoneOrder();
      assert issued + available == ZoneOrder();
    }

    /**
     * Removes a randomly chosen available position and returns it; fails when
     * none is left.
     */
    method GetNextPosition() returns (r: Result<Cell, NoAvailablePositions>)
      requires Valid()
      modifies this
      ensures Valid()
      ensures r.Failure? <==> old(available) == []
      ensures r.Failure? ==> available == old(available) && issued == old(issued)
      ensures r.Success? ==> exists i :: 0 <= i < |old(available)| && r.value == old(available)[i] &&
                               available == old(available)[..i] + old(available)[i + 1..]
      ensures r.Success? ==> issued == old(issued) + [r.value] && r.value !in old(issued) && InZone(r.value)
      ensures r.Success? ==> |available| + 1 == |old(available)|
    {
      if available == [] {
        return Failure(NoAvailablePositions);
      }
      var i :| 0 <= i < |available|;
      var position := available[i];
      TakeOut(issued, available, i);
      assert position in issued + available;
      assert position !in issued by {
        assert (issued + available)[|issued| + i] == position;
        assert forall p :: 0 <= p < |issued| ==> (issued + available)[p] == issued[p];
      }
      available := available[..i] + available[i + 1..];
      issued := issued + [position];
      r := Success(position);
    }
  }

  /** The handed-out cells of a valid pool are distinct cells of the zone. */
  lemma IssuedInZone(issued: seq<Cell>, available: seq<Cell>)
    requires Distinct(issued + available) && forall c :: c in issued + available <==> InZone(c)
    ensures Distinct(issued) && forall c :: c in issued ==> InZone(c)
  {
    assert forall k :: 0 <= k < |issued| ==> issued[k] == (issued + available)[k];
  }

  // ---------------------------------------------------------------------------
  // The generator

  /** Units realizing two plans, concatenated, realize the concatenated plan. */
  lemma RealizesAppend(a: seq<Unit>, ca: seq<Copy>, b: seq<Unit>, cb: seq<Copy>)
    requires Realizes(a, ca) && Realizes(b, cb)
    ensures Realizes(a + b, ca + cb)
  {
    forall k | 0 <= k < |a + b|
      ensures (a + b)[k] == MakeUnit((ca + cb)[k].template, (ca + cb)[k].number, (a + b)[k].x, (a + b)[k].y)
    {
      if k >= |a| {
        assert (a + b)[k] == b[k - |a|] && (ca + cb)[k] == cb[k - |a|];
      }
    }
  }

  lemma StandOnAppend(a: seq<Unit>, ca: seq<Cell>, b: seq<Unit>, cb: seq<Cell>)
    requires StandOn(a, ca) && StandOn(b, cb)
    ensures StandOn(a + b, ca + cb)
  {
    forall k | 0 <= k < |a + b|
      ensures Pos((a + b)[k]) == (ca + cb)[k]
    {
      if k >= |a| {
        assert (a + b)[k] == b[k - |a|] && (ca + cb)[k] == cb[k - |a|];
      }
    }
  }

  /**
   * The inner loop's state: the units placed so far realize the first
   * copies of the entry's block, which goes on from `added` and `total`.
   */
  predicate Placed(template: Unit, total0: int, maxPoints: int, added: nat, total: int,
                   placed: seq<Unit>, copies: seq<Copy>)
  {
    && Realizes(placed, copies) && |placed| == added <= MaxUnitsOfType
    && copies + Block(template, added, total, maxPoints) == Block(template, 0, total0, maxPoints)
    && Spent(template, added, total, maxPoints) == Spent(template, 0, total0, maxPoints)
    && total == total0 + TotalCost(placed)
    && (placed != [] ==> total <= maxPoints)
  }

  /** Placing the next copy keeps the inner loop's state. */
  lemma PlaceStep(template: Unit, total0: int, maxPoints: int, added: nat, total: int,
                  placed: seq<Unit>, copies: seq<Copy>, unit: Unit, number: nat, next: int)
    requires Placed(template, total0, maxPoints, added, total, placed, copies)
    requires total + template.cost <= maxPoints && added < MaxUnitsOfType
    requires number == added + 1 && unit == MakeUnit(template, number, unit.x, unit.y)
    requires next == total + unit.cost
    ensures Placed(template, total0, maxPoints, number, next, placed + [unit], copies + [Copy(template, number)])
  {
    var copy := Copy(template, number);
    BlockStep(template, added, total, maxPoints, number, next);
    AppendAssociative(copies, [copy], Block(template, number, next, maxPoints));
    TotalCostAppend(placed, [unit]);
    RealizesAppend(placed, copies, [unit], [copy]);
  }

  /** While one more copy fits, the block is longer than what was placed. */
  lemma PlaceDue(template: Unit, total0: int, maxPoints: int, added: nat, total: int,
                 placed: seq<Unit>, copies: seq<Copy>)
    requires Placed(template, total0, maxPoints, added, total, placed, copies)
    requires total + template.cost <= maxPoints && added < MaxUnitsOfType
    ensures |Block(template, 0, total0, maxPoints)| > added
  {
    BlockStep(template, added, total, maxPoints, added + 1, total + template.cost);
  }

  /**
   * The entry is done: the units placed realize its whole block, in order,
   * and the army costs what it cost before plus those units.
   */
  predicate Filled(template: Unit, total0: int, maxPoints: int, placed: seq<Unit>, total: int, copies: seq<Copy>) {
    && copies == Block(template, 0, total0, maxPoints) && total == Spent(template, 0, total0, maxPoints)
    && Realizes(placed, copies) && total == total0 + TotalCost(placed)
    && (placed != [] ==> total <= maxPoints)
  }

  /** Once no copy fits, what was placed is the whole block. */
  lemma PlaceDone(template: Unit, total0: int, maxPoints: int, added: nat, total: int,
                  placed: seq<Unit>, copies: seq<Copy>)
    requires Placed(template, total0, maxPoints, added, total, placed, copies)
    requires !(total + template.cost <= maxPoints && added < MaxUnitsOfType)
    ensures Filled(template, total0, maxPoints, placed, total, copies)
  {
    BlockDone(template, added, total, maxPoints);
  }

  /**
   * The inner loop of the generator: copies of `template` are placed while
   * they fit the budget and the per-type limit, each on the next free cell.
   * It fails iff the copies due outnumber the free cells.
   */
  method PlaceCopies(gen: PositionGenerator, template: Unit, total0: int, maxPoints: int)
    returns (placed: seq<Unit>, total: int, ghost copies: seq<Copy>, ghost cells: seq<Cell>,
             failure: Option<NoAvailablePositions>)
    requires gen.Valid()
    modifies gen
    ensures gen.Valid() && gen.issued == old(gen.issued) + cells && StandOn(placed, cells)
    ensures failure.Some? <==> |Block(template, 0, total0, maxPoints)| > |old(gen.available)|
    ensures failure.None? ==> Filled(template, total0, maxPoints, placed, total, copies)
  {
    var added: nat := 0;
    placed, total, copies, cells, failure := [], total0, [], [], None;
    while total + template.cost <= maxPoints && added < MaxUnitsOfType
      invariant gen.Valid() && gen.issued == old(gen.issued) + cells && StandOn(placed, cells)
      invariant |gen.available| + added == |old(gen.available)|
      invariant Placed(template, total0, maxPoints, added, total, placed, copies)
      decreases MaxUnitsOfType - added
    {
      var coordinates := gen.GetNextPosition();
      if coordinates.Failure? {
        PlaceDue(template, total0, maxPoints, added, total, placed, copies);
        return placed, total, copies, cells, Some(coordinates.error);
      }
      var position := coordinates.value;
      var number := added + 1;
      var unit := MakeUnit(template, number, position.x, position.y);
      var next := total + unit.cost;
      PlaceStep(template, total0, maxPoints, added, total, placed, copies, unit, number, next);
      StandOnAppend(placed, cells, [unit], [position]);
      placed, copies, cells := placed + [unit], copies + [Copy(template, number)], cells + [position];
      total, added := next, number;
    }
    PlaceDone(template, total0, maxPoints, added, total, placed, copies);
  }

  /**
   * The outer loop's state: the entries before `i` are done; the army
   * realizes the copies made so far, which start the roster, and stands on
   * the cells handed out.
   */
  predicate Built(ranked: seq<Unit>, maxPoints: int, i: nat, totalCost: int,
                  armyUnits: seq<Unit>, made: seq<Copy>, issued: seq<Cell>)
  {
    && i <= |ranked|
    && StandOn(armyUnits, issued) && Realizes(armyUnits, made)
    && made + Rest(ranked, i, totalCost, maxPoints) == Roster(ranked, maxPoints)
    && totalCost == TotalCost(armyUnits)
    && (armyUnits != [] ==> totalCost <= maxPoints)
  }

  /** Placing the whole block of entry `i` moves the outer loop on to entry `j`. */
  lemma BuiltStep(ranked: seq<Unit>, maxPoints: int, i: nat, totalCost: int,
                  armyUnits: seq<Unit>, made: seq<Copy>, issued: seq<Cell>,
                  placed: seq<Unit>, total: int, copies: seq<Copy>, cells: seq<Cell>, j: nat)
    requires Built(ranked, maxPoints, i, totalCost, armyUnits, made, issued) && i < |ranked| && j == i + 1
    requires Filled(ranked[i], totalCost, maxPoints, placed, total, copies) && StandOn(placed, cells)
    ensures Built(ranked, maxPoints, j, total, armyUnits + placed, made + copies, issued + cells)
  {
    RestStep(ranked, i, totalCost, maxPoints, j, total);
    AppendAssociative(made, copies, Rest(ranked, j, total, maxPoints));
    TotalCostAppend(armyUnits, placed);
    RealizesAppend(armyUnits, made, placed, copies);
    StandOnAppend(armyUnits, issued, placed, cells);
  }

  /** A block of entry `i` longer than the cells left makes the roster outgrow the zone. */
  lemma BuiltOverflows(ranked: seq<Unit>, maxPoints: int, i: nat, totalCost: int,
                       armyUnits: seq<Unit>, made: seq<Copy>, issued: seq<Cell>)
    requires Built(ranked, maxPoints, i, totalCost, armyUnits, made, issued) && i < |ranked|
    requires |issued| + |Block(ranked[i], 0, totalCost, maxPoints)| > ZoneSize
    ensures |Roster(ranked, maxPoints)| > ZoneSize
  {
    var spent := Spent(ranked[i], 0, totalCost, maxPoints);
    RestStep(ranked, i, totalCost, maxPoints, i + 1, spent);
  }

  /** Once every entry is done, the army realizes the whole roster. */
  lemma BuiltDone(ranked: seq<Unit>, maxPoints: int, i: nat, totalCost: int,
                  armyUnits: seq<Unit>, made: seq<Copy>, issued: seq<Cell>)
    requires Built(ranked, maxPoints, i, totalCost, armyUnits, made, issued) && i == |ranked|
    ensures made == Roster(ranked, maxPoints) && Realizes(armyUnits, made)
    ensures totalCost == TotalCost(armyUnits) == Cost(made)
    ensures |made| == |issued| && forall k :: 0 <= k < |armyUnits| ==> Pos(armyUnits[k]) == issued[k]
  {
    assert Rest(ranked, i, totalCost, maxPoints) == [];
    RealizedCost(armyUnits, made);
  }

  /** Units standing on the handed-out cells of a valid pool stand on distinct cells of the zone. */
  lemma ArmyInZone(units: seq<Unit>, issued: seq<Cell>, available: seq<Cell>)
    requires Distinct(issued + available) && (forall c :: c in issued + available <==> InZone(c))
    requires StandOn(units, issued)
    ensures forall j, k :: 0 <= j < k < |units| ==> Pos(units[j]) != Pos(units[k])
    ensures forall u :: u in units ==> InZone(Pos(u))
  {
    IssuedInZone(issued, available);
    forall u | u in units
      ensures InZone(Pos(u))
    {
      var k :| 0 <= k < |units| && units[k] == u;
      assert issued[k] == Pos(u);
    }
  }

  /**
   * The generator's outer loop over the ranking, drawing cells from a fresh
   * pool.  It fails iff the roster has more copies than the zone has cells.
   */
  method PlaceRoster(gen: PositionGenerator, ranked: seq<Unit>, maxPoints: int)
    returns (armyUnits: seq<Unit>, totalCost: int, ghost made: seq<Copy>, failure: Option<NoAvailablePositions>)
    requires gen.Valid() && gen.issued == []
    modifies gen
    ensures gen.Valid()
    ensures failure.Some? <==> |Roster(ranked, maxPoints)| > ZoneSize
    ensures failure.None? ==> made == Roster(ranked, maxPoints) && Realizes(armyUnits, made)
    ensures failure.None? ==> totalCost == TotalCost(armyUnits) == Cost(made)
    ensures failure.None? ==> StandOn(armyUnits, gen.issued)
    ensures failure.None? && armyUnits != [] ==> totalCost <= maxPoints
  {
    totalCost, armyUnits, made, failure := 0, [], [], None;
    var i: nat := 0;
    while i < |ranked|
      invariant gen.Valid()
      invariant Built(ranked, maxPoints, i, totalCost, armyUnits, made, gen.issued)
      decreases |ranked| - i
    {
      ghost var issued := gen.issued;
      var placed, total, copies, cells, placing := PlaceCopies(gen, ranked[i], totalCost, maxPoints);
      if placing.Some? {
        BuiltOverflows(ranked, maxPoints, i, totalCost, armyUnits, made, issued);
        return armyUnits, totalCost, made, placing;
      }
      var next := i + 1;
      BuiltStep(ranked, maxPoints, i, totalCost, armyUnits, made, issued, placed, total, copies, cells, next);
      armyUnits, made, totalCost := armyUnits + placed, made + copies, total;
      i := next;
    }
    BuiltDone(ranked, maxPoints, i, totalCost, armyUnits, made, gen.issued);
  }

  /**
   * The generator: for each entry of the ranking, in order, as many copies
   * as fit the budget and the per-type limit, each on a fresh cell of the
   * zone.  It fails iff the roster has more copies than the zone has cells.
   */
  method Generate(unitList: seq<Unit>, maxPoints: int, ranked: seq<Unit>) returns (r: Result<Army, NoAvailablePositions>)
    requires multiset(ranked) == multiset(unitList)
    ensures r.Failure? <==> |Roster(ranked, maxPoints)| > ZoneSize
    ensures r.Success? ==> Realizes(r.value.units, Roster(ranked, maxPoints))
    ensures r.Success? ==> r.value.points == TotalCost(r.value.units) == Cost(Roster(ranked, maxPoints))
    ensures r.Success? && r.value.units != [] ==> r.value.points <= maxPoints
    ensures r.Success? ==> forall j, k :: 0 <= j < k < |r.value.units| ==> Pos(r.value.units[j]) != Pos(r.value.units[k])
    ensures r.Success? ==> forall u :: u in r.value.units ==> InZone(Pos(u))
  {
    var positionGenerator := new PositionGenerator();
    var armyUnits, totalCost, made, failure := PlaceRoster(positionGenerator, ranked, maxPoints);
    if failure.Some? {
      return Failure(failure.value);
    }
    ArmyInZone(armyUnits, positionGenerator.issued, positionGenerator.available);
    return Success(Army(armyUnits, totalCost));
  }
}
