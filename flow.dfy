/**
 * The battle's phases and the transitions between them. Each phase reacts to
 * one kind of event: the end of its entry work, a menu selection, the move
 * phase's outcome, or the keys and pointer while a sphere is held.
 */
module Flow {
  import opened Wrappers
  import opened Util
  import opened Grid
  import opened Combat
  import opened Swap

  datatype Phase =
    | Intro
    | StartActionChoice
    | ActionChoice(characterIndex: nat)
    | StartMovePhase
    | MovePhase(to: Option<(int, int)>)
    | SwapChoice(fromX: nat, fromY: nat)
    | SwapPhase(x: nat, y: nat, direction: Direction)
    | SolvePhase
    | TurnResultPhase
    | Victory
    | GameOver

  datatype Event =
    | Finished                                           // the phase's entry work is over
    | Select                                             // the action menu reported a selection
    | Move(outcome: MoveOutcome)                         // what the move phase's cursor handling returned
    | Held(space: bool, pointer: bool, keys: Arrows)     // `SwapChoiceState.execute`'s inputs
    | PointerMove(pointer: bool, localX: int, localY: int)
    | PointerUp

  /**
   * What the phases read from the battle: the number of active characters
   * (none means game over) and whether the enemy is down.
   */
  datatype Context = Context(activeCount: nat, victory: bool)

  /**
   * The phases' own invariants: the action menu's index names an active
   * character, a held sphere is on the grid, a swap's destination is on the
   * grid, and so is the cell the move phase resumes at.
   */
  predicate Valid(p: Phase, activeCount: nat) {
    match p
    case ActionChoice(i) => i < activeCount
    case SwapChoice(x, y) => InBounds(x, y)
    case SwapPhase(x, y, d) => InBounds(x, y) && Offered(x, y, d)
    case MovePhase(to) => to.Some? ==> InBounds(to.value.0, to.value.1)
    case _ => true
  }

  /** The move phase only hands on a cell of the grid (its cursor's). */
  predicate Plausible(e: Event) {
    e.Move? && e.outcome.ToSwapChoice? ==> InBounds(e.outcome.x, e.outcome.y)
  }

  /** The phase a swap choice leads to. */
  function Chosen(p: Phase, c: Choice): (r: Phase)
    requires p.SwapChoice?
  {
    match c
    case Release => MovePhase(None)
    case SwapTowards(d) => SwapPhase(p.fromX, p.fromY, d)
    case Hold => p
  }

  /**
   * One transition. An event a phase does not react to leaves it where it is;
   * victory and game over are final.
   */
  function Next(p: Phase, e: Event, ctx: Context): (r: Phase)
    requires Valid(p, ctx.activeCount) && Plausible(e)
    ensures Valid(r, ctx.activeCount)
    ensures p.Victory? || p.GameOver? ==> r == p
    ensures r.GameOver? ==> p.GameOver? || (p == StartActionChoice && ctx.activeCount == 0)
    ensures r.Victory? ==> p.Victory? || (p == TurnResultPhase && ctx.victory)
    ensures r.SwapPhase? && !p.SwapPhase? ==> p == SwapChoice(r.x, r.y)
  {
    match p
    case Intro => if e.Finished? then StartActionChoice else p
    case StartActionChoice =>
      if !e.Finished? then p
      else if ctx.activeCount == 0 then GameOver
      else ActionChoice(0)
    case ActionChoice(i) =>
      if !e.Select? then p
      else if i < ctx.activeCount - 1 then ActionChoice(i + 1)
      else StartMovePhase
    case StartMovePhase => if e.Finished? then MovePhase(None) else p
    case MovePhase(_) =>
      if !e.Move? then p
      else (match e.outcome
            case ToSwapChoice(x, y) => SwapChoice(x, y)
            case ToSolve => SolvePhase
            case Stay => p)
    case SwapChoice(x, y) =>
      if e.Held? then Chosen(p, KeyboardChoice(x, y, e.space, e.pointer, e.keys))
      else if e.PointerMove? then Chosen(p, PointerChoice(x, y, e.pointer, e.localX, e.localY))
      else if e.PointerUp? then MovePhase(None)
      else p
    case SwapPhase(x, y, d) => if e.Finished? then MovePhase(Some(GridMove(x, y, d))) else p
    case SolvePhase => if e.Finished? then TurnResultPhase else p
    case TurnResultPhase =>
      if !e.Finished? then p
      else if ctx.victory then Victory
      else StartActionChoice
    case Victory => p
    case GameOver => p
  }

  /** `count` menu selections in a row. */
  function Selections(count: nat): (r: seq<Event>)
    ensures |r| == count && forall k :: 0 <= k < count ==> r[k] == Select
  {
    if count == 0 then [] else Selections(count - 1) + [Select]
  }

  /** The phase after `events`, in order, within one context. */
  function Run(p: Phase, events: seq<Event>, ctx: Context): (r: Phase)
    requires Valid(p, ctx.activeCount)
    requires forall k :: 0 <= k < |events| ==> Plausible(events[k])
    ensures Valid(r, ctx.activeCount)
    decreases |events|
  {
    if events == [] then p
    else Run(Next(p, events[0], ctx), events[1..], ctx)
  }

  /**
   * Each selection moves the action menu to the next active character; the
   * selection for the last one starts the move phase.
   */
  lemma {:induction false} SelectionsAdvance(i: nat, count: nat, ctx: Context)
    requires i < ctx.activeCount
    ensures Run(ActionChoice(i), Selections(count), ctx) ==
      if i + count < ctx.activeCount then ActionChoice(i + count) else StartMovePhase
    decreases count
  {
    if count > 0 {
      var events := Selections(count);
      assert events[1..] == Selections(count - 1) by {
        assert Selections(count) == Selections(count - 1) + [Select];
        SelectionsTail(count - 1);
      }
      if i < ctx.activeCount - 1 {
        SelectionsAdvance(i + 1, count - 1, ctx);
      } else {
        StartMoveStays(count - 1, ctx);
      }
    }
  }

  /** Dropping the first of `count + 1` selections leaves `count` selections. */
  lemma SelectionsTail(count: nat)
    ensures (Selections(count) + [Select])[1..] == if count == 0 then [] else Selections(count - 1) + [Select]
  {
    var s := Selections(count) + [Select];
    if count > 0 {
      assert s[1..] == Selections(count - 1) + [Select] by {
        assert forall k :: 0 <= k < count ==> s[1..][k] == Select;
      }
    }
  }

  /** The move phase's start ignores menu selections. */
  lemma {:induction false} StartMoveStays(count: nat, ctx: Context)
    ensures Run(StartMovePhase, Selections(count), ctx) == StartMovePhase
    decreases count
  {
    if count > 0 {
      SelectionsTail(count - 1);
      StartMoveStays(count - 1, ctx);
    }
  }

  /**
   * A round of action choices: with at least one active character, the turn
   * starts at the first of them and, one selection per active character
   * later, the move phase begins; with none the battle is lost.
   */
  lemma ActionRound(ctx: Context)
    ensures ctx.activeCount == 0 ==> Next(StartActionChoice, Finished, ctx) == GameOver
    ensures ctx.activeCount > 0 ==>
      Run(Next(StartActionChoice, Finished, ctx), Selections(ctx.activeCount), ctx) == StartMovePhase
  {
    if ctx.activeCount > 0 {
      SelectionsAdvance(0, ctx.activeCount, ctx);
    }
  }

  /**
   * A swap leads back to the move phase with the cursor on the destination,
   * a grid cell next to the one that was held.
   */
  lemma SwapResumesAtDestination(x: nat, y: nat, d: Direction, ctx: Context)
    requires Valid(SwapPhase(x, y, d), ctx.activeCount)
    ensures var r := Next(SwapPhase(x, y, d), Finished, ctx);
      && r.MovePhase? && r.to.Some?
      && var t := r.to.value;
         InBounds(t.0, t.1) && Adjacent(Index(x, y), Index(t.0, t.1))
  {
  }

  // ---------------------------------------------------------------------
  // The turn inputs the action menus collect

  /**
   * `ActionChoiceState`: entering the first character's menu starts an empty
   * set of inputs; each selection records the character's action.
   */
  function ChosenInputs(active: seq<Character>, actions: seq<BattleAction>, n: nat): (r: TurnInputs)
    requires n <= |actions| && n <= |active|
  {
    if n == 0 then map[] else ChosenInputs(active, actions, n - 1)[active[n - 1] := actions[n - 1]]
  }

  /** After `n` selections the inputs name exactly the first `n` characters, with their actions. */
  lemma {:induction false} ChosenInputsContents(active: seq<Character>, actions: seq<BattleAction>, n: nat)
    requires n <= |actions| && n <= |active| && Distinct(active)
    ensures forall c :: c in ChosenInputs(active, actions, n) <==> c in active[..n]
    ensures forall k :: 0 <= k < n ==> ChosenInputs(active, actions, n)[active[k]] == actions[k]
  {
    if n > 0 {
      ChosenInputsContents(active, actions, n - 1);
      assert active[..n] == active[..n - 1] + [active[n - 1]];
    }
  }

  /**
   * A full round of selections iterates, in `executeTurn`, in the order of
   * `activeCharacters`: the turn order of the collected inputs is the list
   * of active characters.
   */
  lemma RoundOrder(party: Party, actions: seq<BattleAction>)
    requires |actions| == |ActiveCharacters(party)|
    ensures var active := ActiveCharacters(party);
      TurnOrder(ChosenInputs(active, actions, |active|)) == active
  {
    var active := ActiveCharacters(party);
    assert Distinct(active);
    ChosenInputsContents(active, actions, |active|);
    var inputs := ChosenInputs(active, actions, |active|);
    assert active[..|active|] == active;
    assert inputs.Keys == set c | c in Characters && party.Get(c).hp > 0 by {
      forall c ensures c in inputs.Keys <==> c in Characters && party.Get(c).hp > 0 {
        assert c == Characters[Rank(c)];
      }
    }
  }
}
