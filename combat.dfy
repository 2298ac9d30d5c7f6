/**
 * The battle's numbers: party and enemy hit points, attack values, the five
 * sphere stocks, and one turn of combat (`BattleState.executeTurn`). The two
 * random draws of a turn, the enemy's target and its damage roll, are
 * parameters.
 */
module Combat {
  import opened Wrappers
  import opened Util
  import opened Grid

  datatype Character = Rojo | Blue | Midori

  /** `Object.values(Characters)`: the canonical party order. */
  const Characters: seq<Character> := [Rojo, Blue, Midori]

  /** Every character is one of the three. */
  lemma CharacterCases(c: Character)
    ensures c == Rojo || c == Blue || c == Midori
  {
  }

  /** Position of `c` in the canonical order. */
  function Rank(c: Character): (r: nat)
    ensures r < |Characters| && Characters[r] == c
  {
    match c
    case Rojo => 0
    case Blue => 1
    case Midori => 2
  }

  /** `CHARACTER_SPHERE_TYPES`: the stock a character's attack and defence draw on. */
  function OwnType(c: Character): (t: SphereType)
    ensures t != Yellow && t != Key
  {
    match c
    case Rojo => Red
    case Blue => Cyan
    case Midori => Green
  }

  /** No two characters draw on the same stock. */
  lemma OwnTypeInjective(c: Character, d: Character)
    ensures OwnType(c) == OwnType(d) <==> c == d
  {
  }

  /** The characters in `keep`, in canonical order. */
  function InOrder(keep: set<Character>): (r: seq<Character>)
    ensures forall c :: c in r <==> c in keep
    ensures forall i, j :: 0 <= i < j < |r| ==> Rank(r[i]) < Rank(r[j])
  {
    var r := (if Rojo in keep then [Rojo] else []) +
             (if Blue in keep then [Blue] else []) +
             (if Midori in keep then [Midori] else []);
    assert forall c :: c in r <==> c in keep by {
      forall c ensures c in r <==> c in keep {
        CharacterCases(c);
      }
    }
    r
  }

  datatype BattleAction = Attack | Defend

  /**
   * The choice each character made this turn. The battle fills it in the
   * order of `activeCharacters`, so iterating it follows the canonical order.
   */
  type TurnInputs = map<Character, BattleAction>

  datatype PartyMemberStatus = PartyMemberStatus(hp: int, maxHp: int, atk: int)

  datatype EnemyStatus = EnemyStatus(hp: int, maxHp: int)

  /** One status per character. */
  datatype Party = Party(rojo: PartyMemberStatus, blue: PartyMemberStatus, midori: PartyMemberStatus)
  {
    function Get(c: Character): PartyMemberStatus {
      match c
      case Rojo => rojo
      case Blue => blue
      case Midori => midori
    }

    function Set(c: Character, m: PartyMemberStatus): (r: Party)
      ensures r.Get(c) == m
      ensures forall d :: d != c ==> r.Get(d) == Get(d)
    {
      match c
      case Rojo => this.(rojo := m)
      case Blue => this.(blue := m)
      case Midori => this.(midori := m)
    }
  }

  /** The five stock counters, one per sphere type. */
  datatype StockCounts = StockCounts(red: int, cyan: int, green: int, yellow: int, key: int)
  {
    function Get(t: SphereType): int {
      match t
      case Red => red
      case Cyan => cyan
      case Green => green
      case Yellow => yellow
      case Key => key
    }

    function Set(t: SphereType, v: int): (r: StockCounts)
      ensures r.Get(t) == v
      ensures forall u :: u != t ==> r.Get(u) == Get(u)
    {
      match t
      case Red => this.(red := v)
      case Cyan => this.(cyan := v)
      case Green => this.(green := v)
      case Yellow => this.(yellow := v)
      case Key => this.(key := v)
    }
  }

  /** Every stock at zero, as a new battle starts. */
  const NoStock: StockCounts := StockCounts(0, 0, 0, 0, 0)

  /** The party and enemy a normal battle starts with. */
  const StartingParty: Party := Party(PartyMemberStatus(101, 101, 70),
                                      PartyMemberStatus(93, 93, 25),
                                      PartyMemberStatus(123, 123, 35))
  const StartingEnemy: EnemyStatus := EnemyStatus(500, 500)

  /** `activeCharacters`: the living characters, in canonical order. */
  function ActiveCharacters(party: Party): (r: seq<Character>)
    ensures forall c :: c in r <==> party.Get(c).hp > 0
    ensures forall i, j :: 0 <= i < j < |r| ==> Rank(r[i]) < Rank(r[j])
  {
    InOrder(set c | c in Characters && party.Get(c).hp > 0)
  }

  /** The whole of a `BattleState`, as a value. */
  datatype Status = Status(party: Party, enemy: EnemyStatus, stock: StockCounts)

  datatype PartyActionResult =
    | AttackResult(character: Character, damage: int, death: bool)
    | DefendResult(character: Character)

  datatype EnemyActionResult = EnemyActionResult(target: Character, damage: int, death: bool)

  datatype TurnResult = TurnResult(partyActionResults: map<Character, PartyActionResult>,
                                   enemyActionResult: Option<EnemyActionResult>,
                                   stockCounts: StockCounts)

  /** How far the loop over the turn inputs has got. */
  datatype PartyPhase = PartyPhase(status: Status, results: map<Character, PartyActionResult>, clearKey: bool)

  /**
   * One pass of the loop over the turn inputs: an attack while the enemy
   * still stands hits for attack plus own-colour plus Key stock, spends the
   * own-colour stock and marks the Key stock for clearing; anything else is
   * recorded as a defence and changes nothing.
   */
  function PartyAct(p: PartyPhase, c: Character, a: BattleAction): (r: PartyPhase)
    ensures r.status.party == p.status.party
  {
    var s := p.status;
    if a == Attack && s.enemy.hp > 0 then
      var own := OwnType(c);
      var damage := Max(0, s.party.Get(c).atk + s.stock.Get(own) + s.stock.Get(Key));
      var enemy := s.enemy.(hp := Max(s.enemy.hp - damage, 0));
      PartyPhase(Status(s.party, enemy, s.stock.Set(own, 0)),
                 p.results[c := AttackResult(c, damage, enemy.hp < 1)], true)
    else
      PartyPhase(s, p.results[c := DefendResult(c)], p.clearKey)
  }

  /**
   * What one pass does: an attack while the enemy stands deals attack plus
   * own-colour plus Key stock, floored at zero, takes it off the enemy's hit
   * points, floored at zero, reports whether that felled the enemy and spends
   * the own-colour stock; anything else records a defence and changes nothing.
   */
  lemma PartyActEffect(p: PartyPhase, c: Character, a: BattleAction)
    ensures var r := PartyAct(p, c, a);
      && r.results.Keys == p.results.Keys + {c}
      && (forall d :: d in p.results && d != c ==> r.results[d] == p.results[d])
      && r.results[c].character == c
      && r.clearKey == (p.clearKey || r.results[c].AttackResult?)
      && (forall t :: t != OwnType(c) ==> r.status.stock.Get(t) == p.status.stock.Get(t))
      && (r.results[c].AttackResult? <==> a == Attack && p.status.enemy.hp > 0)
      && (r.results[c].AttackResult? ==>
        && r.results[c].damage == Max(0, p.status.party.Get(c).atk + p.status.stock.Get(OwnType(c)) + p.status.stock.Get(Key))
        && r.status.enemy.hp == Max(p.status.enemy.hp - r.results[c].damage, 0)
        && r.results[c].death == (r.status.enemy.hp < 1)
        && r.status.stock.Get(OwnType(c)) == 0)
      && (r.results[c].DefendResult? ==> r.status == p.status)
  {
  }

  /** Every character of `order` has a turn input. */
  ghost predicate HasInputs(inputs: TurnInputs, order: seq<Character>) {
    forall k :: 0 <= k < |order| ==> order[k] in inputs
  }

  /** No character occurs twice in `order`. */
  ghost predicate Distinct(order: seq<Character>) {
    forall i, j :: 0 <= i < j < |order| ==> order[i] != order[j]
  }

  /**
   * The loop over the turn inputs after its first `n` passes, taken in
   * `order`, from the state `s0` the turn started in.
   */
  function PartyActions(s0: Status, inputs: TurnInputs, order: seq<Character>, n: nat): (r: PartyPhase)
    requires n <= |order| && HasInputs(inputs, order)
    ensures r.status.party == s0.party
  {
    if n == 0 then PartyPhase(s0, map[], false)
    else PartyAct(PartyActions(s0, inputs, order, n - 1), order[n - 1], inputs[order[n - 1]])
  }

  /** After `n` passes exactly the first `n` characters have a result. */
  lemma {:induction false} PartyActionsKeys(s0: Status, inputs: TurnInputs, order: seq<Character>, n: nat)
    requires n <= |order| && HasInputs(inputs, order)
    ensures forall c :: c in PartyActions(s0, inputs, order, n).results <==> c in order[..n]
  {
    if n > 0 {
      PartyActionsKeys(s0, inputs, order, n - 1);
      PartyActEffect(PartyActions(s0, inputs, order, n - 1), order[n - 1], inputs[order[n - 1]]);
      assert order[..n] == order[..n - 1] + [order[n - 1]];
    }
  }

  /**
   * The loop never touches the Key or Yellow stock nor the own stock of a
   * character it has not reached, and only ever spends stock.
   */
  lemma {:induction false} PartyActionsStock(s0: Status, inputs: TurnInputs, order: seq<Character>, n: nat)
    requires n <= |order| && HasInputs(inputs, order)
    ensures var r := PartyActions(s0, inputs, order, n);
      && r.status.stock.Get(Key) == s0.stock.Get(Key)
      && r.status.stock.Get(Yellow) == s0.stock.Get(Yellow)
      && (forall c :: c !in order[..n] ==> r.status.stock.Get(OwnType(c)) == s0.stock.Get(OwnType(c)))
      && (forall t :: r.status.stock.Get(t) == s0.stock.Get(t) || r.status.stock.Get(t) == 0)
  {
    if n > 0 {
      PartyActionsStock(s0, inputs, order, n - 1);
      PartyActEffect(PartyActions(s0, inputs, order, n - 1), order[n - 1], inputs[order[n - 1]]);
      assert order[..n] == order[..n - 1] + [order[n - 1]];
    }
  }

  /** The loop raises its `clearKey` flag exactly when some attack resolved. */
  lemma {:induction false} PartyActionsClearKey(s0: Status, inputs: TurnInputs, order: seq<Character>, n: nat)
    requires n <= |order| && HasInputs(inputs, order) && Distinct(order)
    ensures var r := PartyActions(s0, inputs, order, n);
      r.clearKey <==> exists c :: c in r.results && r.results[c].AttackResult?
  {
    if n > 0 {
      var last := order[n - 1];
      PartyActionsClearKey(s0, inputs, order, n - 1);
      PartyActionsKeys(s0, inputs, order, n - 1);
      var p := PartyActions(s0, inputs, order, n - 1);
      var r := PartyAct(p, last, inputs[last]);
      PartyActEffect(p, last, inputs[last]);
      if r.results[last].AttackResult? {
        assert r.clearKey;
      } else if p.clearKey {
        var c :| c in p.results && p.results[c].AttackResult?;
        assert c != last;
        assert r.results[c].AttackResult?;
      }
    }
  }

  /** While no attack has resolved, the loop has changed nothing. */
  lemma {:induction false} PartyActionsNoAttack(s0: Status, inputs: TurnInputs, order: seq<Character>, n: nat)
    requires n <= |order| && HasInputs(inputs, order)
    ensures var r := PartyActions(s0, inputs, order, n);
      !r.clearKey ==> r.status == s0
  {
    if n > 0 {
      PartyActionsNoAttack(s0, inputs, order, n - 1);
      PartyActEffect(PartyActions(s0, inputs, order, n - 1), order[n - 1], inputs[order[n - 1]]);
    }
  }

  /** An attack is only ever recorded for a character that chose to attack. */
  lemma {:induction false} PartyActionsAttackChosen(s0: Status, inputs: TurnInputs, order: seq<Character>, n: nat)
    requires n <= |order| && HasInputs(inputs, order)
    ensures var r := PartyActions(s0, inputs, order, n);
      forall c :: c in r.results && r.results[c].AttackResult? ==> c in inputs && inputs[c] == Attack
  {
    if n > 0 {
      PartyActionsAttackChosen(s0, inputs, order, n - 1);
      PartyActEffect(PartyActions(s0, inputs, order, n - 1), order[n - 1], inputs[order[n - 1]]);
    }
  }

  /** The enemy's hit points never rise during the loop, and drop only to a non-negative value. */
  lemma {:induction false} PartyActionsEnemyHp(s0: Status, inputs: TurnInputs, order: seq<Character>, n: nat)
    requires n <= |order| && HasInputs(inputs, order)
    ensures var r := PartyActions(s0, inputs, order, n);
      && r.status.enemy.hp <= s0.enemy.hp
      && (r.status.enemy.hp == s0.enemy.hp || r.status.enemy.hp >= 0)
  {
    if n > 0 {
      PartyActionsEnemyHp(s0, inputs, order, n - 1);
      PartyActEffect(PartyActions(s0, inputs, order, n - 1), order[n - 1], inputs[order[n - 1]]);
    }
  }

  /**
   * Over a loop taking each character at most once, every attack is paid for
   * with the stocks as they were before the loop, so all attackers of a turn
   * get the full Key bonus; an attacker's own stock ends at zero, and a
   * defender's is untouched.
   */
  lemma {:induction false} AttacksUseStartingStock(s0: Status, inputs: TurnInputs, order: seq<Character>, n: nat)
    requires n <= |order| && HasInputs(inputs, order) && Distinct(order)
    ensures var r := PartyActions(s0, inputs, order, n);
      forall c :: c in r.results ==>
        (r.results[c].AttackResult? ==>
           && r.results[c].damage == Max(0, s0.party.Get(c).atk + s0.stock.Get(OwnType(c)) + s0.stock.Get(Key))
           && r.status.stock.Get(OwnType(c)) == 0) &&
        (r.results[c].DefendResult? ==> r.status.stock.Get(OwnType(c)) == s0.stock.Get(OwnType(c)))
  {
    if n > 0 {
      var last := order[n - 1];
      assert last !in order[..n - 1];
      AttacksUseStartingStock(s0, inputs, order, n - 1);
      PartyActionsStock(s0, inputs, order, n - 1);
      PartyActionsKeys(s0, inputs, order, n - 1);
      var p := PartyActions(s0, inputs, order, n - 1);
      var r := PartyAct(p, last, inputs[last]);
      PartyActEffect(p, last, inputs[last]);
      forall c | c in r.results && c != last
        ensures OwnType(c) != OwnType(last)
      {
        OwnTypeInjective(c, last);
      }
    }
  }

  /**
   * The enemy's move after the party's: while it stands it hits the living
   * character `ActiveCharacters(s.party)[pick]` for `30 + roll`, less that
   * character's own-colour and Yellow stock (both then spent) when it chose
   * to defend; damage and hit points are floored at zero.
   */
  function EnemyAct(s: Status, inputs: TurnInputs, pick: nat, roll: int): (r: (Status, Option<EnemyActionResult>))
    requires pick < |ActiveCharacters(s.party)| && 0 <= roll < 25
    ensures r.0.enemy == s.enemy
    ensures r.1.Some? <==> s.enemy.hp > 0
    ensures r.1.None? ==> r.0 == s
  {
    if s.enemy.hp > 0 then
      var target := ActiveCharacters(s.party)[pick];
      var defended := target in inputs && inputs[target] == Defend;
      var own := OwnType(target);
      var reduced := 30 + roll - (if defended then s.stock.Get(own) + s.stock.Get(Yellow) else 0);
      var stock := if defended then s.stock.Set(own, 0).Set(Yellow, 0) else s.stock;
      var damage := Max(0, reduced);
      var member := s.party.Get(target);
      var hp := Max(member.hp - damage, 0);
      (Status(s.party.Set(target, member.(hp := hp)), s.enemy, stock),
       Some(EnemyActionResult(target, damage, hp == 0)))
    else
      (s, None)
  }

  /**
   * What the enemy's move does: it hits the chosen living character for the
   * roll less, when that character defended, its own-colour and Yellow stock,
   * which are then spent; nothing else changes.
   */
  lemma EnemyActEffect(s: Status, inputs: TurnInputs, pick: nat, roll: int)
    requires pick < |ActiveCharacters(s.party)| && 0 <= roll < 25
    requires s.enemy.hp > 0
    ensures var r := EnemyAct(s, inputs, pick, roll);
      var e := r.1.value;
      var t := e.target;
      var defended := t in inputs && inputs[t] == Defend;
      && t == ActiveCharacters(s.party)[pick]
      && e.damage == Max(0, 30 + roll - (if defended then s.stock.Get(OwnType(t)) + s.stock.Get(Yellow) else 0))
      && r.0.party.Get(t).hp == Max(s.party.Get(t).hp - e.damage, 0)
      && r.0.party.Get(t).atk == s.party.Get(t).atk
      && (forall d :: d != t ==> r.0.party.Get(d) == s.party.Get(d))
      && e.death == (r.0.party.Get(t).hp == 0)
      && (defended ==> r.0.stock == s.stock.Set(OwnType(t), 0).Set(Yellow, 0))
      && (!defended ==> r.0.stock == s.stock)
  {
  }

  /** The enemy's move spends stock only, and never the Key stock. */
  lemma EnemyActStock(s: Status, inputs: TurnInputs, pick: nat, roll: int)
    requires pick < |ActiveCharacters(s.party)| && 0 <= roll < 25
    ensures var r := EnemyAct(s, inputs, pick, roll);
      && r.0.stock.Get(Key) == s.stock.Get(Key)
      && (forall t :: r.0.stock.Get(t) == s.stock.Get(t) || r.0.stock.Get(t) == 0)
  {
    if s.enemy.hp > 0 {
      EnemyActEffect(s, inputs, pick, roll);
    }
  }

  /** The order in which `executeTurn` walks the turn inputs. */
  function TurnOrder(inputs: TurnInputs): (r: seq<Character>)
    ensures HasInputs(inputs, r) && Distinct(r)
    ensures forall c :: c in r <==> c in inputs
  {
    var r := InOrder(inputs.Keys);
    assert forall i, j :: 0 <= i < j < |r| ==> Rank(r[i]) < Rank(r[j]);
    r
  }

  /** The whole loop over the turn inputs. */
  function PartyLoop(s0: Status, inputs: TurnInputs): (r: PartyPhase)
    ensures r.status.party == s0.party
  {
    PartyActions(s0, inputs, TurnOrder(inputs), |TurnOrder(inputs)|)
  }

  /** The state after the party's loop and the clearing of the Key stock. */
  function AfterParty(s0: Status, inputs: TurnInputs): (s1: Status)
    ensures s1.party == s0.party
  {
    var p := PartyLoop(s0, inputs);
    if p.clearKey then p.status.(stock := p.status.stock.Set(Key, 0)) else p.status
  }

  /** `executeTurn` as a function of the state the turn starts in and the two draws. */
  function Turn(s0: Status, inputs: TurnInputs, pick: nat, roll: int): (r: (Status, TurnResult))
    requires pick < |ActiveCharacters(s0.party)| && 0 <= roll < 25
    ensures r.1.stockCounts == r.0.stock
  {
    var p := PartyLoop(s0, inputs);
    var e := EnemyAct(AfterParty(s0, inputs), inputs, pick, roll);
    (e.0, TurnResult(p.results, e.1, e.0.stock))
  }

  /** Every attack of a turn deals attack plus the starting own-colour and Key stock, floored at zero. */
  lemma TurnAttackDamage(s0: Status, inputs: TurnInputs, pick: nat, roll: int)
    requires pick < |ActiveCharacters(s0.party)| && 0 <= roll < 25
    ensures var res := Turn(s0, inputs, pick, roll).1.partyActionResults;
      forall c :: c in res && res[c].AttackResult? ==>
        c in inputs && inputs[c] == Attack &&
        res[c].damage == Max(0, s0.party.Get(c).atk + s0.stock.Get(OwnType(c)) + s0.stock.Get(Key))
  {
    AttacksUseStartingStock(s0, inputs, TurnOrder(inputs), |TurnOrder(inputs)|);
    PartyActionsAttackChosen(s0, inputs, TurnOrder(inputs), |TurnOrder(inputs)|);
  }

  /** Every input gets a result, and nothing else does. */
  lemma TurnResultsCoverInputs(s0: Status, inputs: TurnInputs, pick: nat, roll: int)
    requires pick < |ActiveCharacters(s0.party)| && 0 <= roll < 25
    ensures Turn(s0, inputs, pick, roll).1.partyActionResults.Keys == inputs.Keys
  {
    PartyLoopKeys(s0, inputs);
  }

  /** The party's loop gives a result to each input. */
  lemma PartyLoopKeys(s0: Status, inputs: TurnInputs)
    ensures PartyLoop(s0, inputs).results.Keys == inputs.Keys
  {
    var order := TurnOrder(inputs);
    PartyActionsKeys(s0, inputs, order, |order|);
    assert order[..|order|] == order;
  }

  /**
   * The Key stock is cleared once, after the loop: it ends at zero when some
   * attack resolved, and is untouched when none did.
   */
  lemma TurnKeyStock(s0: Status, inputs: TurnInputs, pick: nat, roll: int)
    requires pick < |ActiveCharacters(s0.party)| && 0 <= roll < 25
    ensures var r := Turn(s0, inputs, pick, roll);
      var attacked := exists c :: c in r.1.partyActionResults && r.1.partyActionResults[c].AttackResult?;
      (attacked ==> r.0.stock.Get(Key) == 0) && (!attacked ==> r.0.stock.Get(Key) == s0.stock.Get(Key))
  {
    var order := TurnOrder(inputs);
    PartyActionsClearKey(s0, inputs, order, |order|);
    PartyActionsNoAttack(s0, inputs, order, |order|);
    PartyActionsStock(s0, inputs, order, |order|);
    EnemyActStock(AfterParty(s0, inputs), inputs, pick, roll);
  }

  /**
   * The enemy acts exactly when it still stands after the party's attacks.
   * Its target was alive when the turn began, its base damage lies in
   * [30, 54], a defending target's own-colour and Yellow stock (both at their
   * starting values) are subtracted and then spent, and the target's hit
   * points drop by the damage, floored at zero, which is what `death` reports.
   */
  lemma TurnEnemyAction(s0: Status, inputs: TurnInputs, pick: nat, roll: int)
    requires pick < |ActiveCharacters(s0.party)| && 0 <= roll < 25
    ensures var r := Turn(s0, inputs, pick, roll);
      (r.1.enemyActionResult.Some? <==> r.0.enemy.hp > 0) &&
      (r.1.enemyActionResult.Some? ==>
        var e := r.1.enemyActionResult.value;
        var t := e.target;
        var defended := t in inputs && inputs[t] == Defend;
        var base := 30 + roll;
        && 30 <= base <= 54
        && s0.party.Get(t).hp > 0
        && e.damage == Max(0, base - (if defended then s0.stock.Get(OwnType(t)) + s0.stock.Get(Yellow) else 0))
        && r.0.party.Get(t).hp == Max(s0.party.Get(t).hp - e.damage, 0)
        && e.death == (r.0.party.Get(t).hp == 0)
        && (defended ==> r.0.stock.Get(OwnType(t)) == 0 && r.0.stock.Get(Yellow) == 0))
  {
    var order := TurnOrder(inputs);
    var s1 := AfterParty(s0, inputs);
    var e := EnemyAct(s1, inputs, pick, roll);
    assert Turn(s0, inputs, pick, roll).0 == e.0;
    assert Turn(s0, inputs, pick, roll).1.enemyActionResult == e.1;
    if s1.enemy.hp > 0 {
      EnemyActEffect(s1, inputs, pick, roll);
      var t := e.1.value.target;
      if t in inputs && inputs[t] == Defend {
        DefenderStock(s0, inputs, t);
      }
    }
  }

  /** A defending character's own-colour and Yellow stock reach the enemy's move untouched. */
  lemma DefenderStock(s0: Status, inputs: TurnInputs, t: Character)
    requires t in inputs && inputs[t] == Defend
    ensures AfterParty(s0, inputs).stock.Get(OwnType(t)) == s0.stock.Get(OwnType(t))
    ensures AfterParty(s0, inputs).stock.Get(Yellow) == s0.stock.Get(Yellow)
  {
    var order := TurnOrder(inputs);
    DefenderResult(s0, inputs, t);
    AttacksUseStartingStock(s0, inputs, order, |order|);
    PartyActionsStock(s0, inputs, order, |order|);
  }

  /** A defending character's result in the party's loop is a defence. */
  lemma DefenderResult(s0: Status, inputs: TurnInputs, t: Character)
    requires t in inputs && inputs[t] == Defend
    ensures t in PartyLoop(s0, inputs).results && PartyLoop(s0, inputs).results[t].DefendResult?
  {
    var order := TurnOrder(inputs);
    PartyActionsAttackChosen(s0, inputs, order, |order|);
    PartyLoopKeys(s0, inputs);
  }

  /** The enemy's hit points never rise in a turn, nor go negative if they started non-negative. */
  lemma TurnEnemyHp(s0: Status, inputs: TurnInputs, pick: nat, roll: int)
    requires pick < |ActiveCharacters(s0.party)| && 0 <= roll < 25
    ensures var s := Turn(s0, inputs, pick, roll).0;
      && s.enemy.hp <= s0.enemy.hp
      && (s0.enemy.hp >= 0 ==> s.enemy.hp >= 0)
  {
    PartyActionsEnemyHp(s0, inputs, TurnOrder(inputs), |TurnOrder(inputs)|);
  }

  /**
   * No character's hit points rise in a turn, none that started non-negative
   * goes negative, and attack values stay fixed.
   */
  lemma TurnPartyHp(s0: Status, inputs: TurnInputs, pick: nat, roll: int)
    requires pick < |ActiveCharacters(s0.party)| && 0 <= roll < 25
    ensures var s := Turn(s0, inputs, pick, roll).0;
      && (forall c :: s.party.Get(c).hp <= s0.party.Get(c).hp)
      && (forall c :: s0.party.Get(c).hp >= 0 ==> s.party.Get(c).hp >= 0)
      && (forall c :: s.party.Get(c).atk == s0.party.Get(c).atk)
  {
    var s1 := AfterParty(s0, inputs);
    if s1.enemy.hp > 0 {
      EnemyActEffect(s1, inputs, pick, roll);
    }
  }

  /** A turn only ever spends stock: each counter keeps its value or drops to zero. */
  lemma TurnOnlySpendsStock(s0: Status, inputs: TurnInputs, pick: nat, roll: int)
    requires pick < |ActiveCharacters(s0.party)| && 0 <= roll < 25
    ensures var s := Turn(s0, inputs, pick, roll).0;
      forall t :: s.stock.Get(t) == s0.stock.Get(t) || s.stock.Get(t) == 0
  {
    PartyActionsStock(s0, inputs, TurnOrder(inputs), |TurnOrder(inputs)|);
    EnemyActStock(AfterParty(s0, inputs), inputs, pick, roll);
  }

  /**
   * `BattleState`: the party's and the enemy's statuses and the stock
   * counters, updated in place by a turn and by a solve's stock credit.
   * Stocks have no upper bound here; the cap of 40 belongs to the display.
   */
  class BattleState {
    var partyMemberStatuses: Party
    var enemyStatus: EnemyStatus
    var stockCounts: StockCounts

    constructor(party: Party, enemy: EnemyStatus)
      ensures partyMemberStatuses == party && enemyStatus == enemy && stockCounts == NoStock
    {
      partyMemberStatuses := party;
      enemyStatus := enemy;
      stockCounts := NoStock;
    }

    /** The current state as a value. */
    function Current(): Status
      reads this
    {
      Status(partyMemberStatuses, enemyStatus, stockCounts)
    }

    method SetStockCount(t: SphereType, value: int)
      modifies this
      ensures stockCounts == old(stockCounts).Set(t, value)
      ensures partyMemberStatuses == old(partyMemberStatuses) && enemyStatus == old(enemyStatus)
    {
      stockCounts := stockCounts.Set(t, value);
    }

    method ModStockCount(t: SphereType, value: int)
      modifies this
      ensures stockCounts.Get(t) == old(stockCounts).Get(t) + value
      ensures forall u :: u != t ==> stockCounts.Get(u) == old(stockCounts).Get(u)
      ensures partyMemberStatuses == old(partyMemberStatuses) && enemyStatus == old(enemyStatus)
    {
      stockCounts := stockCounts.Set(t, stockCounts.Get(t) + value);
    }

    /** `isGameOver`: every character is down, that is, none is active. */
    function IsGameOver(): (r: bool)
      reads this
      ensures r <==> ActiveCharacters(partyMemberStatuses) == []
    {
      forall c :: partyMemberStatuses.Get(c).hp < 1
    }

    /** `isVictory`: the enemy is down. */
    function IsVictory(): (r: bool)
      reads this
      ensures r <==> enemyStatus.hp < 1
    {
      enemyStatus.hp < 1
    }

    /**
     * `executeTurn`: the party acts in input order, then the Key stock is
     * cleared if anyone attacked, then the enemy acts if it still stands.
     * `pick` chooses the enemy's target among the active characters and
     * `roll` is the draw in [0, 25) added to the base damage of 30.
     */
    method ExecuteTurn(turnInputs: TurnInputs, pick: nat, roll: int) returns (result: TurnResult)
      requires pick < |ActiveCharacters(partyMemberStatuses)| && 0 <= roll < 25
      modifies this
      ensures (Current(), result) == Turn(old(Current()), turnInputs, pick, roll)
    {
      var partyActionResults, clearKey := PartyTurn(turnInputs);
      if clearKey {
        stockCounts := stockCounts.Set(Key, 0);
      }
      var enemyActionResult := EnemyTurn(turnInputs, pick, roll);
      result := TurnResult(partyActionResults, enemyActionResult, stockCounts);
    }

    /**
     * The party's half of `executeTurn`: each character with an input, in
     * turn order, attacks with its own-colour and Key stock while the enemy
     * stands, or else defends.
     */
    method PartyTurn(turnInputs: TurnInputs) returns (partyActionResults: map<Character, PartyActionResult>, clearKey: bool)
      modifies this
      ensures PartyPhase(Current(), partyActionResults, clearKey) == PartyLoop(old(Current()), turnInputs)
    {
      ghost var s0 := Current();
      partyActionResults := map[];
      clearKey := false;
      var order := TurnOrder(turnInputs);
      for i := 0 to |order|
        invariant PartyPhase(Current(), partyActionResults, clearKey) == PartyActions(s0, turnInputs, order, i)
      {
        var character := order[i];
        partyActionResults, clearKey := PartyMemberTurn(partyActionResults, clearKey, character, turnInputs[character]);
      }
    }

    /** One pass of `PartyTurn`'s loop, for `character` doing `battleAction`. */
    method PartyMemberTurn(results: map<Character, PartyActionResult>, key: bool, character: Character, battleAction: BattleAction)
      returns (partyActionResults: map<Character, PartyActionResult>, clearKey: bool)
      modifies this
      ensures PartyPhase(Current(), partyActionResults, clearKey) ==
        PartyAct(PartyPhase(old(Current()), results, key), character, battleAction)
    {
      partyActionResults, clearKey := results, key;
      var sphereType := OwnType(character);
      if battleAction == Attack && enemyStatus.hp > 0 {
        var damage := Max(0, partyMemberStatuses.Get(character).atk + stockCounts.Get(sphereType) + stockCounts.Get(Key));
        enemyStatus := enemyStatus.(hp := Max(enemyStatus.hp - damage, 0));
        stockCounts := stockCounts.Set(sphereType, 0);
        clearKey := true;
        partyActionResults := partyActionResults[character := AttackResult(character, damage, enemyStatus.hp < 1)];
      } else {
        partyActionResults := partyActionResults[character := DefendResult(character)];
      }
    }

    /**
     * The enemy's half of `executeTurn`: while it stands, it hits the active
     * character `pick` for `30 + roll`, reduced by that character's own-colour
     * and Yellow stock, both then spent, when the character defended.
     */
    method EnemyTurn(turnInputs: TurnInputs, pick: nat, roll: int) returns (enemyActionResult: Option<EnemyActionResult>)
      requires pick < |ActiveCharacters(partyMemberStatuses)| && 0 <= roll < 25
      modifies this
      ensures (Current(), enemyActionResult) == EnemyAct(old(Current()), turnInputs, pick, roll)
    {
      enemyActionResult := None;
      if enemyStatus.hp > 0 {
        var target := ActiveCharacters(partyMemberStatuses)[pick];
        var damage := roll + 30;
        if target in turnInputs && turnInputs[target] == Defend {
          var sphereType := OwnType(target);
          damage := damage - (stockCounts.Get(sphereType) + stockCounts.Get(Yellow));
          stockCounts := stockCounts.Set(sphereType, 0);
          stockCounts := stockCounts.Set(Yellow, 0);
        }
        damage := Max(0, damage);
        var member := partyMemberStatuses.Get(target);
        partyMemberStatuses := partyMemberStatuses.Set(target, member.(hp := Max(member.hp - damage, 0)));
        enemyActionResult := Some(EnemyActionResult(target, damage, partyMemberStatuses.Get(target).hp == 0));
      }
    }
  }
}
