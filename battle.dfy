/**
 * The battle loop: tick after tick, every living unit of both armies attacks
 * once, strongest first, until one army has no living unit left.
 */
module BattleLoop {
  import opened Grid
  import opened Seqs

  datatype Side = Left | Right

  /** Where a unit stands: its army and its index in that army's list. */
  datatype UnitRef = UnitRef(side: Side, index: nat)

  /** An entry of the turn order: a unit and the stats it had when the tick began. */
  datatype Actor = Actor(ref: UnitRef, unit: Unit)

  /** A line of the battle log: who attacked whom. */
  datatype LogEvent = Hit(attacker: UnitRef, target: UnitRef)

  /**
   * What a unit's attack program did: it struck a target (or found none) and
   * dealt some damage to it, or it was interrupted.
   */
  datatype AttackOutcome = Attacked(target: Option<UnitRef>, damage: nat) | Interrupted

  /** Both armies, the battle log so far and the number of attacks made so far. */
  datatype Arena = Arena(left: seq<Unit>, right: seq<Unit>, log: seq<LogEvent>, calls: nat)

  /**
   * The attack programs of the units.  They are not part of this model: any
   * function of the arena and the attacker stands for them.
   */
  type AttackProgram = (Arena, Actor) -> AttackOutcome

  /** A call of an attack program and the arena it saw. */
  datatype Attempt = Attempt(seen: Arena, attacker: Actor)

  datatype TickEnd = Completed | Aborted

  /** A tick's final arena, how it ended and every attack it attempted, in order. */
  datatype TickResult = TickResult(arena: Arena, end: TickEnd, attempts: seq<Attempt>)

  /** How the battle ended: normally, by an interrupted attack, or when the tick budget ran out. */
  datatype BattleOutcome = Finished | InterruptedBattle | OutOfTicks

  datatype Interruption = Interruption

  function Army(arena: Arena, side: Side): seq<Unit> {
    if side == Left then arena.left else arena.right
  }

  // ---------------------------------------------------------------------------
  // Living units

  /** Some unit of the list is alive. */
  function AnyAlive(units: seq<Unit>): (r: bool)
    ensures r <==> exists i :: 0 <= i < |units| && Alive(units[i])
  {
    if units == [] then false
    else if Alive(units[0]) then true
    else
      var rest := AnyAlive(units[1..]);
      assert forall i :: 1 <= i < |units| ==> units[i] == units[1..][i - 1];
      rest
  }

  /** Both armies still contain a living unit. */
  predicate BothAlive(arena: Arena) {
    AnyAlive(arena.left) && AnyAlive(arena.right)
  }

  /** The unit the reference points to exists and is alive. */
  predicate RefAlive(arena: Arena, r: UnitRef) {
    var army := Army(arena, r.side);
    r.index < |army| && Alive(army[r.index])
  }

  /** The living units of one army, in list order. */
  function LivingActors(side: Side, units: seq<Unit>): seq<Actor> {
    if units == [] then []
    else
      var last := units[|units| - 1];
      LivingActors(side, units[..|units| - 1]) + (if Alive(last) then [Actor(UnitRef(side, |units| - 1), last)] else [])
  }

  /** An actor of the army `side` that stands at its index and is alive. */
  predicate LivingUnitOf(side: Side, units: seq<Unit>, a: Actor) {
    a.ref.side == side && a.ref.index < |units| && a.unit == units[a.ref.index] && Alive(a.unit)
  }

  /** The living-units filter keeps exactly the living units, each once, in list order. */
  lemma {:induction false} LivingActorsSpec(side: Side, units: seq<Unit>)
    ensures forall a :: a in LivingActors(side, units) <==> LivingUnitOf(side, units, a)
    ensures forall i, j :: 0 <= i < j < |LivingActors(side, units)| ==>
              LivingActors(side, units)[i].ref.index < LivingActors(side, units)[j].ref.index
    ensures Distinct(LivingActors(side, units))
  {
    if units != [] {
      var init := units[..|units| - 1];
      var last := units[|units| - 1];
      LivingActorsSpec(side, init);
      var r := LivingActors(side, units);
      var s := LivingActors(side, init);
      assert forall a :: a in s ==> a.ref.index < |init|;
      forall a
        ensures a in r <==> LivingUnitOf(side, units, a)
      {
        if LivingUnitOf(side, units, a) && a.ref.index < |init| {
          assert LivingUnitOf(side, init, a);
        }
      }
      forall i, j | 0 <= i < j < |r|
        ensures r[i].ref.index < r[j].ref.index
      {
        if j >= |s| {
          assert r[i] in s;
        }
      }
    }
  }

  // ---------------------------------------------------------------------------
  // The turn order

  /**
   * `a` is no greater than `b` in the order of `String.compareTo`: after their
   * longest common prefix `a` ends, or its next character is the smaller one.
   */
  predicate NameLeq(a: string, b: string) {
    exists k :: 0 <= k <= |a| && k <= |b| && a[..k] == b[..k] && (k == |a| || (k < |b| && a[k] < b[k]))
  }

  /** The length of the longest common prefix. */
  function CommonPrefix(a: string, b: string): (k: nat)
    ensures k <= |a| && k <= |b| && a[..k] == b[..k]
    ensures k == |a| || k == |b| || a[k] != b[k]
  {
    if a == [] || b == [] || a[0] != b[0] then 0
    else
      var k := 1 + CommonPrefix(a[1..], b[1..]);
      assert a[..k] == [a[0]] + a[1..][..k - 1] && b[..k] == [b[0]] + b[1..][..k - 1];
      k
  }

  lemma NameLeqTotal(a: string, b: string)
    ensures NameLeq(a, b) || NameLeq(b, a)
  {
    var k := CommonPrefix(a, b);
    if k < |a| && k < |b| && b[k] < a[k] {
      assert b[..k] == a[..k];
    }
  }

  lemma NameLeqTransitive(a: string, b: string, c: string)
    requires NameLeq(a, b) && NameLeq(b, c)
    ensures NameLeq(a, c)
  {
    var i :| 0 <= i <= |a| && i <= |b| && a[..i] == b[..i] && (i == |a| || (i < |b| && a[i] < b[i]));
    var j :| 0 <= j <= |b| && j <= |c| && b[..j] == c[..j] && (j == |b| || (j < |c| && b[j] < c[j]));
    if i <= j {
      assert b[..i] == c[..i] by {
        assert b[..i] == b[..j][..i] && c[..i] == c[..j][..i];
      }
      if i < |a| {
        assert b[i] == c[i] || i == j;
      }
    } else {
      assert a[..j] == b[..j] by {
        assert a[..j] == a[..i][..j] && b[..j] == b[..i][..j];
      }
      assert a[j] == a[..i][j] && b[j] == b[..i][j];
    }
  }

  lemma NameLeqAntisymmetric(a: string, b: string)
    requires NameLeq(a, b) && NameLeq(b, a)
    ensures a == b
  {
    var i :| 0 <= i <= |a| && i <= |b| && a[..i] == b[..i] && (i == |a| || (i < |b| && a[i] < b[i]));
    var j :| 0 <= j <= |b| && j <= |a| && b[..j] == a[..j] && (j == |b| || (j < |a| && b[j] < a[j]));
    if i == j {
      assert a == a[..i] && b == b[..j];
    }
  }

  /**
   * The comparator of the turn order, as "may come first": a higher base
   * attack comes first, equal attacks are ordered by name.
   */
  predicate TurnBefore(a: Actor, b: Actor) {
    a.unit.baseAttack > b.unit.baseAttack ||
    (a.unit.baseAttack == b.unit.baseAttack && NameLeq(a.unit.name, b.unit.name))
  }

  /**
   * The comparator is a total preorder; two actors it cannot tell apart have
   * the same attack and the same name, so among units with distinct names it
   * is a total order.
   */
  lemma TurnBeforeOrder(a: Actor, b: Actor, c: Actor)
    ensures TurnBefore(a, b) || TurnBefore(b, a)
    ensures TurnBefore(a, b) && TurnBefore(b, c) ==> TurnBefore(a, c)
    ensures TurnBefore(a, b) && TurnBefore(b, a) ==>
              a.unit.baseAttack == b.unit.baseAttack && a.unit.name == b.unit.name
  {
    NameLeqTotal(a.unit.name, b.unit.name);
    if TurnBefore(a, b) && TurnBefore(b, c) && a.unit.baseAttack == b.unit.baseAttack == c.unit.baseAttack {
      NameLeqTransitive(a.unit.name, b.unit.name, c.unit.name);
    }
    if TurnBefore(a, b) && TurnBefore(b, a) {
      NameLeqAntisymmetric(a.unit.name, b.unit.name);
    }
  }

  predicate SortedTurns(s: seq<Actor>) {
    forall i, j :: 0 <= i < j < |s| ==> TurnBefore(s[i], s[j])
  }

  /** `x` placed before the first element it may precede, so ahead of its equals. */
  function InsertTurn(x: Actor, s: seq<Actor>): seq<Actor> {
    if s == [] then [x]
    else if TurnBefore(x, s[0]) then [x] + s
    else [s[0]] + InsertTurn(x, s[1..])
  }

  /** The list sorted by the comparator, as the library's stable list sort leaves it. */
  function SortTurns(s: seq<Actor>): seq<Actor> {
    if s == [] then [] else InsertTurn(s[0], SortTurns(s[1..]))
  }

  /** Insertion adds the element and loses none. */
  lemma {:induction false} InsertTurnPermutes(x: Actor, s: seq<Actor>)
    ensures multiset(InsertTurn(x, s)) == multiset(s) + multiset{x}
  {
    if s != [] {
      assert s == [s[0]] + s[1..];
      if !TurnBefore(x, s[0]) {
        InsertTurnPermutes(x, s[1..]);
      }
    }
  }

  lemma {:induction false} InsertTurnSorted(x: Actor, s: seq<Actor>)
    requires SortedTurns(s)
    ensures SortedTurns(InsertTurn(x, s))
  {
    if s != [] && TurnBefore(x, s[0]) {
      forall j | 0 <= j < |s|
        ensures TurnBefore(x, s[j])
      {
        TurnBeforeOrder(x, s[0], s[j]);
      }
      var r := [x] + s;
      forall i, j | 0 <= i < j < |r|
        ensures TurnBefore(r[i], r[j])
      {
        assert r[j] == s[j - 1];
        if i > 0 {
          assert r[i] == s[i - 1];
        }
      }
    } else if s != [] {
      var tail := InsertTurn(x, s[1..]);
      InsertTurnSorted(x, s[1..]);
      InsertTurnPermutes(x, s[1..]);
      TurnBeforeOrder(x, s[0], x);
      forall y | y in tail
        ensures TurnBefore(s[0], y)
      {
        assert y in multiset(tail);
        if y != x {
          assert y in s[1..];
        }
      }
      var r := [s[0]] + tail;
      forall i, j | 0 <= i < j < |r|
        ensures TurnBefore(r[i], r[j])
      {
        if i > 0 {
          assert r[i] == tail[i - 1] && r[j] == tail[j - 1];
        } else {
          assert r[j] in tail;
        }
      }
    }
  }

  /** Inserting an element not yet listed keeps the list free of duplicates. */
  lemma {:induction false} InsertTurnDistinct(x: Actor, s: seq<Actor>)
    requires Distinct(s) && x !in s
    ensures Distinct(InsertTurn(x, s))
  {
    if s != [] && !TurnBefore(x, s[0]) {
      var tail := InsertTurn(x, s[1..]);
      assert Distinct(s[1..]);
      InsertTurnDistinct(x, s[1..]);
      InsertTurnPermutes(x, s[1..]);
      assert s[0] !in tail by {
        assert s[0] !in s[1..] && s[0] != x;
        assert multiset(tail)[s[0]] == 0;
      }
      var r := [s[0]] + tail;
      forall i, j | 0 <= i < j < |r|
        ensures r[i] != r[j]
      {
        if i > 0 {
          assert r[i] == tail[i - 1] && r[j] == tail[j - 1];
        } else {
          assert r[j] in tail;
        }
      }
    }
  }

  /** Sorting loses and adds no element. */
  lemma {:induction false} SortTurnsPermutes(s: seq<Actor>)
    ensures multiset(SortTurns(s)) == multiset(s)
  {
    if s != [] {
      var x, rest := s[0], s[1..];
      SortTurnsPermutes(rest);
      InsertTurnPermutes(x, SortTurns(rest));
      assert s == [x] + rest;
    }
  }

  lemma {:induction false} SortTurnsSorted(s: seq<Actor>)
    ensures SortedTurns(SortTurns(s))
  {
    if s != [] {
      SortTurnsSorted(s[1..]);
      InsertTurnSorted(s[0], SortTurns(s[1..]));
    }
  }

  lemma {:induction false} SortTurnsDistinct(s: seq<Actor>)
    requires Distinct(s)
    ensures Distinct(SortTurns(s))
  {
    if s != [] {
      var x, rest := s[0], s[1..];
      var sorted := SortTurns(rest);
      assert Distinct(rest);
      SortTurnsDistinct(rest);
      SortTurnsPermutes(rest);
      assert x !in sorted by {
        assert x !in rest;
        assert multiset(sorted)[x] == 0;
      }
      InsertTurnDistinct(x, sorted);
    }
  }

  /** Sorting yields a sorted permutation; a list without duplicates stays without. */
  lemma SortTurnsSpec(s: seq<Actor>)
    ensures multiset(SortTurns(s)) == multiset(s)
    ensures SortedTurns(SortTurns(s))
    ensures Distinct(s) ==> Distinct(SortTurns(s))
  {
    SortTurnsPermutes(s);
    SortTurnsSorted(s);
    if Distinct(s) {
      SortTurnsDistinct(s);
    }
  }


  /** `getOrderedLivingUnits`: the living units of one army, sorted by the comparator. */
  function OrderedLiving(side: Side, units: seq<Unit>): seq<Actor> {
    SortTurns(LivingActors(side, units))
  }

  /** The order in which the units act during a tick that starts in `arena`. */
  function TurnOrder(arena: Arena): seq<Actor> {
    SortTurns(OrderedLiving(Left, arena.left) + OrderedLiving(Right, arena.right))
  }

  /** The ordered living units of an army are exactly its living units, each once, sorted. */
  lemma OrderedLivingSpec(side: Side, units: seq<Unit>)
    ensures forall a :: a in OrderedLiving(side, units) <==> LivingUnitOf(side, units, a)
    ensures SortedTurns(OrderedLiving(side, units))
    ensures Distinct(OrderedLiving(side, units))
  {
    LivingActorsSpec(side, units);
    SortTurnsSpec(LivingActors(side, units));
    forall a
      ensures a in OrderedLiving(side, units) <==> a in LivingActors(side, units)
    {
      assert a in OrderedLiving(side, units) <==> a in multiset(OrderedLiving(side, units));
    }
  }

  /**
   * At the start of a tick the turn order lists every living unit of both
   * armies exactly once and nothing else, sorted by the comparator.
   */
  lemma TurnOrderSpec(arena: Arena)
    ensures forall a :: a in TurnOrder(arena) <==>
              LivingUnitOf(Left, arena.left, a) || LivingUnitOf(Right, arena.right, a)
    ensures SortedTurns(TurnOrder(arena))
    ensures Distinct(TurnOrder(arena))
  {
    var l, r := OrderedLiving(Left, arena.left), OrderedLiving(Right, arena.right);
    OrderedLivingSpec(Left, arena.left);
    OrderedLivingSpec(Right, arena.right);
    assert Distinct(l + r) by {
      forall i, j | 0 <= i < j < |l + r|
        ensures (l + r)[i] != (l + r)[j]
      {
        if i < |l| && j >= |l| {
          assert (l + r)[i] in l && (l + r)[j] in r;
        }
      }
    }
    SortTurnsSpec(l + r);
    forall a
      ensures a in TurnOrder(arena) <==> a in l + r
    {
      assert a in TurnOrder(arena) <==> a in multiset(TurnOrder(arena));
    }
  }

  // ---------------------------------------------------------------------------
  // Attacks

  /** `v` is `u` after it lost some health (or none): nothing else changed. */
  predicate Wounded(u: Unit, v: Unit) {
    v == u.(health := v.health) && v.health <= u.health
  }

  /** `b` is the army `a` after some of its units lost health. */
  predicate Weakened(a: seq<Unit>, b: seq<Unit>) {
    |a| == |b| && forall i :: 0 <= i < |a| ==> Wounded(a[i], b[i])
  }

  lemma WeakenedTransitive(a: seq<Unit>, b: seq<Unit>, c: seq<Unit>)
    requires Weakened(a, b) && Weakened(b, c)
    ensures Weakened(a, c)
  {
    forall i | 0 <= i < |a|
      ensures Wounded(a[i], c[i])
    {
      assert Wounded(a[i], b[i]) && Wounded(b[i], c[i]);
    }
  }

  /** An army without living units stays without: health never rises. */
  lemma WeakenedStaysDefeated(a: seq<Unit>, b: seq<Unit>)
    requires Weakened(a, b) && !AnyAlive(a)
    ensures !AnyAlive(b)
  {
    assert forall i :: 0 <= i < |b| ==> b[i].health <= a[i].health && !Alive(a[i]);
  }

  /** The referenced unit loses `damage` health points; a reference to no unit hurts nobody. */
  function Wound(arena: Arena, t: UnitRef, damage: nat): (r: Arena)
    ensures Weakened(arena.left, r.left) && Weakened(arena.right, r.right)
    ensures r.log == arena.log && r.calls == arena.calls
    ensures forall s: Side, i :: 0 <= i < |Army(arena, s)| ==>
              Army(r, s)[i].health == Army(arena, s)[i].health - (if UnitRef(s, i) == t then damage else 0)
  {
    var army := Army(arena, t.side);
    if t.index >= |army| then arena
    else
      var hurt := army[t.index].(health := army[t.index].health - damage);
      if t.side == Left then arena.(left := arena.left[t.index := hurt])
      else arena.(right := arena.right[t.index := hurt])
  }

  /**
   * The effect of an attack that was not interrupted: one more call, the
   * target wounded, and a log line iff there was a target.
   */
  function Strike(arena: Arena, attacker: Actor, target: Option<UnitRef>, damage: nat): (r: Arena)
    ensures Weakened(arena.left, r.left) && Weakened(arena.right, r.right)
    ensures r.calls == arena.calls + 1
    ensures r.log == arena.log + (if target.Some? then [Hit(attacker.ref, target.value)] else [])
  {
    var counted := arena.(calls := arena.calls + 1);
    match target
    case None => counted
    case Some(t) => Wound(counted, t, damage).(log := arena.log + [Hit(attacker.ref, t)])
  }

  // ---------------------------------------------------------------------------
  // A tick

  /**
   * The rest of a tick from entry `i` of the turn order: it stops as soon as
   * an army has no living unit, skips dead units, lets each living unit
   * attack, and ends at the first interrupted attack.
   */
  function TickFrom(arena: Arena, order: seq<Actor>, i: nat, program: AttackProgram): (r: TickResult)
    requires i <= |order|
    decreases |order| - i
  {
    if i == |order| || !BothAlive(arena) then TickResult(arena, Completed, [])
    else if !RefAlive(arena, order[i].ref) then TickFrom(arena, order, i + 1, program)
    else
      var attempt := Attempt(arena, order[i]);
      match program(arena, order[i])
      case Interrupted => TickResult(arena, Aborted, [attempt])
      case Attacked(target, damage) =>
        var rest := TickFrom(Strike(arena, order[i], target, damage), order, i + 1, program);
        TickResult(rest.arena, rest.end, [attempt] + rest.attempts)
  }

  lemma TickSkips(arena: Arena, order: seq<Actor>, i: nat, program: AttackProgram)
    requires i < |order| && BothAlive(arena) && !RefAlive(arena, order[i].ref)
    ensures TickFrom(arena, order, i, program) == TickFrom(arena, order, i + 1, program)
  {
  }

  lemma TickAttacks(arena: Arena, order: seq<Actor>, i: nat, program: AttackProgram, target: Option<UnitRef>, damage: nat)
    requires i < |order| && BothAlive(arena) && RefAlive(arena, order[i].ref)
    requires program(arena, order[i]) == Attacked(target, damage)
    ensures var rest := TickFrom(Strike(arena, order[i], target, damage), order, i + 1, program);
      TickFrom(arena, order, i, program) == TickResult(rest.arena, rest.end, [Attempt(arena, order[i])] + rest.attempts)
  {
  }

  lemma TickInterrupted(arena: Arena, order: seq<Actor>, i: nat, program: AttackProgram)
    requires i < |order| && BothAlive(arena) && RefAlive(arena, order[i].ref)
    requires program(arena, order[i]) == Interrupted
    ensures TickFrom(arena, order, i, program) == TickResult(arena, Aborted, [Attempt(arena, order[i])])
  {
  }

  /** The tick result `r` with the attempts `done` made before it. */
  function After(done: seq<Attempt>, r: TickResult): TickResult {
    TickResult(r.arena, r.end, done + r.attempts)
  }

  lemma AfterStep(done: seq<Attempt>, attempt: Attempt, r: TickResult)
    ensures After(done + [attempt], r) == After(done, TickResult(r.arena, r.end, [attempt] + r.attempts))
  {
    assert (done + [attempt]) + r.attempts == done + ([attempt] + r.attempts);
  }

  lemma AfterNothing(r: TickResult)
    ensures After([], r) == r
  {
    assert [] + r.attempts == r.attempts;
  }

  /** A whole tick: the turn order is fixed from the living units when it begins. */
  function TickRun(arena: Arena, program: AttackProgram): TickResult {
    TickFrom(arena, TurnOrder(arena), 0, program)
  }

  function Attackers(attempts: seq<Attempt>): (r: seq<Actor>)
    ensures |r| == |attempts|
    ensures forall k :: 0 <= k < |attempts| ==> r[k] == attempts[k].attacker
  {
    if attempts == [] then [] else [attempts[0].attacker] + Attackers(attempts[1..])
  }

  /** During a tick a unit attacks only while both armies contain a living unit, and only if it is itself alive. */
  lemma {:induction false} TickFromGuarded(arena: Arena, order: seq<Actor>, i: nat, program: AttackProgram)
    requires i <= |order|
    ensures forall a :: a in TickFrom(arena, order, i, program).attempts ==>
              BothAlive(a.seen) && RefAlive(a.seen, a.attacker.ref)
    decreases |order| - i
  {
    if i < |order| && BothAlive(arena) {
      if !RefAlive(arena, order[i].ref) {
        TickFromGuarded(arena, order, i + 1, program);
      } else if program(arena, order[i]).Attacked? {
        var next := Strike(arena, order[i], program(arena, order[i]).target, program(arena, order[i]).damage);
        TickFromGuarded(next, order, i + 1, program);
      }
    }
  }

  /** The attackers of a tick follow the turn order, each entry at most once. */
  lemma {:induction false} TickFromFollowsOrder(arena: Arena, order: seq<Actor>, i: nat, program: AttackProgram)
    requires i <= |order|
    ensures IsSubsequence(Attackers(TickFrom(arena, order, i, program).attempts), order[i..])
    decreases |order| - i
  {
    if i < |order| && BothAlive(arena) {
      assert order[i..][1..] == order[i + 1..];
      if !RefAlive(arena, order[i].ref) {
        TickFromFollowsOrder(arena, order, i + 1, program);
      } else if program(arena, order[i]).Attacked? {
        var next := Strike(arena, order[i], program(arena, order[i]).target, program(arena, order[i]).damage);
        TickFromFollowsOrder(next, order, i + 1, program);
        var rest := TickFrom(next, order, i + 1, program);
        var attempts := [Attempt(arena, order[i])] + rest.attempts;
        assert attempts[1..] == rest.attempts;
        assert Attackers(attempts) == [order[i]] + Attackers(rest.attempts);
      } else {
        var attempts := [Attempt(arena, order[i])];
        assert Attackers(attempts)[1..] == [];
      }
    }
  }

  /** During a tick units only lose health, and the log only grows, by at most one line per attack. */
  lemma {:induction false} TickFromWeakens(arena: Arena, order: seq<Actor>, i: nat, program: AttackProgram)
    requires i <= |order|
    ensures var r := TickFrom(arena, order, i, program);
      && Weakened(arena.left, r.arena.left) && Weakened(arena.right, r.arena.right)
      && arena.log <= r.arena.log && |r.arena.log| <= |arena.log| + |r.attempts|
    decreases |order| - i
  {
    if i < |order| && BothAlive(arena) {
      if !RefAlive(arena, order[i].ref) {
        TickFromWeakens(arena, order, i + 1, program);
      } else if program(arena, order[i]).Attacked? {
        var next := Strike(arena, order[i], program(arena, order[i]).target, program(arena, order[i]).damage);
        TickFromWeakens(next, order, i + 1, program);
        var rest := TickFrom(next, order, i + 1, program);
        WeakenedTransitive(arena.left, next.left, rest.arena.left);
        WeakenedTransitive(arena.right, next.right, rest.arena.right);
      }
    }
  }

  /**
   * Each unit attacks at most once per tick, only units of the turn order
   * attack, and the tick never raises any unit's health.
   */
  lemma TickRunSpec(arena: Arena, program: AttackProgram)
    ensures var r := TickRun(arena, program);
      && Distinct(Attackers(r.attempts))
      && (forall a :: a in Attackers(r.attempts) ==>
            LivingUnitOf(Left, arena.left, a) || LivingUnitOf(Right, arena.right, a))
      && Weakened(arena.left, r.arena.left) && Weakened(arena.right, r.arena.right)
  {
    var order := TurnOrder(arena);
    TurnOrderSpec(arena);
    TickFromFollowsOrder(arena, order, 0, program);
    TickFromWeakens(arena, order, 0, program);
    var attackers := Attackers(TickRun(arena, program).attempts);
    assert order[0..] == order;
    SubsequenceDistinct(attackers, order);
    SubsequenceElements(attackers, order);
  }

  lemma TickWeakens(arena: Arena, program: AttackProgram)
    ensures Weakened(arena.left, TickRun(arena, program).arena.left)
    ensures Weakened(arena.right, TickRun(arena, program).arena.right)
  {
    TickFromWeakens(arena, TurnOrder(arena), 0, program);
  }

  // ---------------------------------------------------------------------------
  // The battle

  /**
   * The battle from `arena` with at most `fuel` more ticks: ticks run while
   * both armies have living units.
   */
  function Run(arena: Arena, program: AttackProgram, fuel: nat): (r: (Arena, BattleOutcome))
    ensures r.1 == Finished ==> !BothAlive(r.0)
    decreases fuel
  {
    if !BothAlive(arena) then (arena, Finished)
    else if fuel == 0 then (arena, OutOfTicks)
    else
      var tick := TickRun(arena, program);
      if tick.end == Aborted then (tick.arena, InterruptedBattle)
      else Run(tick.arena, program, fuel - 1)
  }

  /** However the battle ends, units have only lost health. */
  lemma {:induction false} RunWeakens(arena: Arena, program: AttackProgram, fuel: nat)
    ensures Weakened(arena.left, Run(arena, program, fuel).0.left)
    ensures Weakened(arena.right, Run(arena, program, fuel).0.right)
    decreases fuel
  {
    if BothAlive(arena) && fuel > 0 {
      TickWeakens(arena, program);
      var next := TickRun(arena, program).arena;
      if TickRun(arena, program).end != Aborted {
        RunWeakens(next, program, fuel - 1);
        WeakenedTransitive(arena.left, next.left, Run(next, program, fuel - 1).0.left);
        WeakenedTransitive(arena.right, next.right, Run(next, program, fuel - 1).0.right);
      }
    }
  }

  /** A completed tick leaves the rest of the battle to the remaining fuel. */
  lemma RunTicks(arena: Arena, program: AttackProgram, fuel: nat, tick: TickResult)
    requires BothAlive(arena) && fuel > 0 && tick == TickRun(arena, program)
    ensures tick.end == Aborted ==> Run(arena, program, fuel) == (tick.arena, InterruptedBattle)
    ensures tick.end == Completed ==> Run(arena, program, fuel) == Run(tick.arena, program, fuel - 1)
  {
  }

  /** Once an army has no living unit the battle is over, and stays so. */
  lemma DefeatIsFinal(arena: Arena, program: AttackProgram, fuel: nat)
    requires !AnyAlive(arena.left) || !AnyAlive(arena.right)
    ensures Run(arena, program, fuel) == (arena, Finished)
    ensures !AnyAlive(arena.left) ==> !AnyAlive(TickRun(arena, program).arena.left)
    ensures !AnyAlive(arena.right) ==> !AnyAlive(TickRun(arena, program).arena.right)
  {
    TickRunSpec(arena, program);
    if !AnyAlive(arena.left) {
      WeakenedStaysDefeated(arena.left, TickRun(arena, program).arena.left);
    }
    if !AnyAlive(arena.right) {
      WeakenedStaysDefeated(arena.right, TickRun(arena, program).arena.right);
    }
  }

  /** The battle between two armies; units' health changes in place as they are hit. */
  class Battle {
    var left: seq<Unit>
    var right: seq<Unit>
    var log: seq<LogEvent>
    var calls: nat
    const program: AttackProgram

    function State(): Arena
      reads this
    {
      Arena(left, right, log, calls)
    }

    constructor (playerArmy: seq<Unit>, computerArmy: seq<Unit>, program: AttackProgram)
      ensures State() == Arena(playerArmy, computerArmy, [], 0)
      ensures this.program == program
    {
      left, right, log, calls := playerArmy, computerArmy, [], 0;
      this.program := program;
    }

    /** `bothArmiesContainsLivingUnits` */
    method BothArmiesContainLivingUnits() returns (b: bool)
      ensures b == BothAlive(State())
      ensures b <==> (exists i :: 0 <= i < |left| && Alive(left[i])) && (exists i :: 0 <= i < |right| && Alive(right[i]))
    {
      b := AnyAlive(left) && AnyAlive(right);
    }

    /**
     * The attacker's program attacks; a target found is logged and reported
     * with `true`, an interruption is passed on.
     */
    method PerformAttack(attacker: Actor) returns (r: Result<bool, Interruption>)
      modifies this
      ensures program(old(State()), attacker).Interrupted? ==> r == Failure(Interruption) && State() == old(State())
      ensures program(old(State()), attacker).Attacked? ==>
                var outcome := program(old(State()), attacker);
                r == Success(outcome.target.Some?) && State() == Strike(old(State()), attacker, outcome.target, outcome.damage)
    {
      var outcome := program(State(), attacker);
      match outcome
      case Interrupted =>
        r := Failure(Interruption);
      case Attacked(target, damage) =>
        var next := Strike(State(), attacker, target, damage);
        left, right, log, calls := next.left, next.right, next.log, next.calls;
        r := Success(target.Some?);
    }

    /** One pass of the turn order. */
    method Tick() returns (end: TickEnd, ghost attempts: seq<Attempt>)
      modifies this
      ensures TickRun(old(State()), program) == TickResult(State(), end, attempts)
    {
      ghost var start := TickRun(State(), program);
      var order := SortTurns(OrderedLiving(Left, left) + OrderedLiving(Right, right));
      attempts := [];
      AfterNothing(start);
      for i := 0 to |order|
        invariant start == After(attempts, TickFrom(State(), order, i, program))
      {
        var both := BothArmiesContainLivingUnits();
        if !both {
          return Completed, attempts;
        }
        var actor := order[i];
        var army := if actor.ref.side == Left then left else right;
        if !(actor.ref.index < |army| && Alive(army[actor.ref.index])) {
          TickSkips(State(), order, i, program);
          continue;
        }
        ghost var before := State();
        var r := PerformAttack(actor);
        if r.Failure? {
          TickInterrupted(before, order, i, program);
          return Aborted, attempts + [Attempt(before, actor)];
        }
        var outcome := program(before, actor);
        TickAttacks(before, order, i, program, outcome.target, outcome.damage);
        AfterStep(attempts, Attempt(before, actor), TickFrom(State(), order, i + 1, program));
        attempts := attempts + [Attempt(before, actor)];
      }
      return Completed, attempts;
    }

    /**
     * `simulate`: ticks while both armies have living units, for at most
     * `maxTicks` ticks.  When it finishes, some army has no living unit.
     */
    method Simulate(maxTicks: nat) returns (outcome: BattleOutcome)
      modifies this
      ensures (State(), outcome) == Run(old(State()), program, maxTicks)
      ensures outcome == Finished ==> !AnyAlive(left) || !AnyAlive(right)
    {
      ghost var result := Run(State(), program, maxTicks);
      ghost var fuel := maxTicks;
      var ticks := 0;
      while true
        invariant ticks <= maxTicks && fuel == maxTicks - ticks
        invariant Run(State(), program, fuel) == result
        decreases maxTicks - ticks
      {
        var both := BothArmiesContainLivingUnits();
        if !both {
          return Finished;
        }
        if ticks == maxTicks {
          return OutOfTicks;
        }
        ghost var before := State();
        var end, attempts := Tick();
        ghost var tick := TickResult(State(), end, attempts);
        RunTicks(before, program, fuel, tick);
        if end == Aborted {
          return InterruptedBattle;
        }
        assert Run(tick.arena, program, fuel - 1) == result;
        ticks, fuel := ticks + 1, fuel - 1;
      }
    }
  }
}
