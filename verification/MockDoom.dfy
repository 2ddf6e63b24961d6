// The deterministic DOOM session of the mock runtime: inputs are scheduled for future
// ticks, and ticks are executed one by one.
module MockDoom {
  import opened Bytes

  datatype DoomAction = Forward | Backward | Left | Right | Fire | Use | WeaponNext | Unsupported

  const SCORE_PER_KILL := 1000
  const SCORE_PER_USE := 25
  const MAX_SAFE_INTEGER := 0x1f_ffff_ffff_ffff

  datatype DoomState = DoomState(tick: nat, health: int, ammo: int, kills: int, score: int,
                                 completed: bool, x: int, y: int, alive: bool)

  type Inputs = map<nat, seq<DoomAction>>

  datatype Channel = FireChannel | DamageChannel

  /** deterministicRandom for one session's seed: a fixed number per tick and channel. */
  type Random = (nat, Channel) -> real

  function InitialState(): DoomState {
    DoomState(0, 100, 50, 0, 0, false, 0, 0, true)
  }

  function Min(a: int, b: int): int {
    if a < b then a else b
  }

  function Max(a: int, b: int): int {
    if a > b then a else b
  }

  function ActionsAt(inputs: Inputs, tick: nat): seq<DoomAction> {
    if tick in inputs then inputs[tick] else []
  }

  /** One action of a tick. */
  function Act(s: DoomState, action: DoomAction, random: Random, tick: nat): DoomState {
    match action
    case Forward => s.(y := s.y + 1)
    case Backward => s.(y := s.y - 1)
    case Left => s.(x := s.x - 1)
    case Right => s.(x := s.x + 1)
    case Use => s.(health := Min(100, s.health + 1))
    case Fire =>
      if s.ammo <= 0 then s
      else if random(tick, FireChannel) >= 0.5
      then s.(ammo := s.ammo - 1, kills := s.kills + 1, score := s.score + SCORE_PER_KILL)
      else s.(ammo := s.ammo - 1)
    case WeaponNext => s
    case Unsupported => s
  }

  function ActAll(s: DoomState, actions: seq<DoomAction>, random: Random, tick: nat): DoomState {
    if actions == [] then s
    else Act(ActAll(s, actions[..|actions| - 1], random, tick), actions[|actions| - 1], random, tick)
  }

  /** One tick. */
  function Tick(s: DoomState, inputs: Inputs, random: Random): DoomState {
    var next := s.tick + 1;
    var actions := ActionsAt(inputs, next);
    var acted := ActAll(s, actions, random, next);
    var scored := if Use in actions then acted.(score := acted.score + SCORE_PER_USE) else acted;
    var hurt := if random(next, DamageChannel) < 0.01 then scored.(health := Max(0, scored.health - 1)) else scored;
    hurt.(tick := next, alive := hurt.health > 0)
  }

  /** The state after `n` ticks of a fixed schedule. */
  function Fold(inputs: Inputs, random: Random, n: nat): DoomState {
    if n == 0 then InitialState() else Tick(Fold(inputs, random, n - 1), inputs, random)
  }

  // ------------------------------------------------------------------- sessions

  type Number = real

  predicate SafeInteger(x: Number) {
    x == x.Floor as real && -(MAX_SAFE_INTEGER as real) <= x <= MAX_SAFE_INTEGER as real
  }

  datatype Input = Input(tick: Number, actions: seq<DoomAction>)
  datatype Batch = Batch(fromTick: Number, inputs: seq<Input>)

  datatype Session = Session(state: DoomState, inputs: Inputs, finished: bool)

  datatype Event = Submit(batch: Batch) | Execute(ticks: Number) | Finish

  datatype DoomError = SessionFinished | InvalidInput | InvalidTick

  /** The first input of a batch that is refused at this point, if any. */
  function Refusal(fromTick: Number, input: Input, previous: Number, tick: nat): Option<DoomError> {
    if !SafeInteger(input.tick) || input.tick < fromTick || input.tick <= previous || input.tick <= tick as real
    then Some(InvalidTick)
    else if Unsupported in input.actions then Some(InvalidInput)
    else None
  }

  /** The schedule after a batch, which stops at the first refused input but keeps what came
      before it, and the error if there was one. */
  function Schedule(inputs: Inputs, fromTick: Number, batch: seq<Input>, previous: Number, tick: nat): (Inputs, Option<DoomError>)
    decreases batch
  {
    if batch == [] then (inputs, None)
    else
      var refusal := Refusal(fromTick, batch[0], previous, tick);
      if refusal.Some? then (inputs, refusal)
      else
        assert batch[0].tick.Floor >= 0 by { assert batch[0].tick > tick as real; }
        Schedule(inputs[batch[0].tick.Floor := batch[0].actions], fromTick, batch[1..], batch[0].tick, tick)
  }

  function Ticks(s: DoomState, inputs: Inputs, random: Random, n: nat): DoomState {
    if n == 0 then s else Tick(Ticks(s, inputs, random, n - 1), inputs, random)
  }

  /** What a call does to the session, and its error. */
  function Handle(s: Session, event: Event, random: Random): (Session, Option<DoomError>) {
    if s.finished then (s, Some(SessionFinished)) else
    match event
    case Submit(batch) =>
      if !SafeInteger(batch.fromTick) || batch.fromTick < 0.0 then (s, Some(InvalidInput))
      else
        var (inputs, error) := Schedule(s.inputs, batch.fromTick, batch.inputs, batch.fromTick - 1.0, s.state.tick);
        (s.(inputs := inputs), error)
    case Execute(ticks) =>
      if !SafeInteger(ticks) || ticks < 0.0 then (s, Some(InvalidTick))
      else
        assert ticks.Floor >= 0;
        (s.(state := Ticks(s.state, s.inputs, random, ticks.Floor)), None)
    case Finish => (s.(finished := true, state := s.state.(completed := true)), None)
  }

  function Play(s: Session, events: seq<Event>, random: Random): Session
    decreases events
  {
    if events == [] then s else Play(Handle(s, events[0], random).0, events[1..], random)
  }

  function NewSession(): Session {
    Session(InitialState(), map[], false)
  }

  // -------------------------------------------------------- interleaving does not matter

  /** Only the schedule up to tick n matters for the first n ticks. */
  lemma {:induction false} FoldDependsOnPast(a: Inputs, b: Inputs, random: Random, n: nat)
    requires forall t :: 1 <= t <= n ==> ActionsAt(a, t) == ActionsAt(b, t)
    ensures Fold(a, random, n) == Fold(b, random, n)
  {
    if n > 0 {
      FoldDependsOnPast(a, b, random, n - 1);
      FoldTick(a, random, n - 1);
      SameTick(Fold(a, random, n - 1), a, b, random);
    }
  }

  lemma SameTick(s: DoomState, a: Inputs, b: Inputs, random: Random)
    requires ActionsAt(a, s.tick + 1) == ActionsAt(b, s.tick + 1)
    ensures Tick(s, a, random) == Tick(s, b, random)
  {
  }

  lemma {:induction false} FoldTick(inputs: Inputs, random: Random, n: nat)
    ensures Fold(inputs, random, n).tick == n && !Fold(inputs, random, n).completed
  {
    if n > 0 {
      FoldTick(inputs, random, n - 1);
      ActAllKeeps(Fold(inputs, random, n - 1), ActionsAt(inputs, n), random, n);
    }
  }

  lemma {:induction false} ActAllKeeps(s: DoomState, actions: seq<DoomAction>, random: Random, tick: nat)
    ensures ActAll(s, actions, random, tick).tick == s.tick
    ensures ActAll(s, actions, random, tick).completed == s.completed
  {
    if actions != [] {
      ActAllKeeps(s, actions[..|actions| - 1], random, tick);
    }
  }

  /** A batch, refused part-way or not, only schedules ticks still to come. */
  lemma {:induction false} ScheduleIsFuture(inputs: Inputs, fromTick: Number, batch: seq<Input>, previous: Number, tick: nat, t: nat)
    requires t <= tick
    ensures ActionsAt(Schedule(inputs, fromTick, batch, previous, tick).0, t) == ActionsAt(inputs, t)
    decreases batch
  {
    if batch != [] && Refusal(fromTick, batch[0], previous, tick).None? {
      var at := batch[0].tick.Floor;
      assert at > tick;
      ScheduleIsFuture(inputs[at := batch[0].actions], fromTick, batch[1..], batch[0].tick, tick, t);
    }
  }

  lemma {:induction false} TicksContinueFold(inputs: Inputs, random: Random, n: nat, m: nat)
    ensures Ticks(Fold(inputs, random, n), inputs, random, m) == Fold(inputs, random, n + m)
  {
    if m > 0 {
      TicksContinueFold(inputs, random, n, m - 1);
    }
  }

  /** The session's state is what folding its schedule from the start gives, and completed
      once finished. */
  ghost predicate Folded(s: Session, random: Random) {
    && s.state.(completed := false) == Fold(s.inputs, random, s.state.tick)
    && (s.state.completed <==> s.finished)
  }

  lemma HandleKeepsFolded(s: Session, event: Event, random: Random)
    requires Folded(s, random)
    ensures Folded(Handle(s, event, random).0, random)
  {
    var s' := Handle(s, event, random).0;
    if !s.finished {
      match event
      case Submit(batch) =>
        forall t: nat | 1 <= t <= s.state.tick ensures ActionsAt(s'.inputs, t) == ActionsAt(s.inputs, t) {
          if s'.inputs != s.inputs {
            ScheduleIsFuture(s.inputs, batch.fromTick, batch.inputs, batch.fromTick - 1.0, s.state.tick, t);
          }
        }
        FoldDependsOnPast(s.inputs, s'.inputs, random, s.state.tick);
      case Execute(ticks) =>
        if s'.state != s.state {
          assert s.state == s.state.(completed := false);
          TicksContinueFold(s.inputs, random, s.state.tick, ticks.Floor);
          FoldTick(s.inputs, random, s.state.tick + ticks.Floor);
        }
      case Finish =>
    }
  }

  /** After any mix of submissions (also refused part-way), executions and a finish, the
      state is one fold of the tick function over the final schedule. */
  lemma {:induction false} PlayIsFold(s: Session, events: seq<Event>, random: Random)
    requires Folded(s, random)
    ensures Folded(Play(s, events, random), random)
    decreases events
  {
    if events != [] {
      HandleKeepsFolded(s, events[0], random);
      PlayIsFold(Handle(s, events[0], random).0, events[1..], random);
    }
  }

  /** Two sessions that end with the same schedule and tick have played the same game, however
      their calls interleaved; they are equal exactly when both or neither is finished. */
  lemma InterleavingIndependence(a: seq<Event>, b: seq<Event>, random: Random)
    requires var s, t := Play(NewSession(), a, random), Play(NewSession(), b, random);
             s.inputs == t.inputs && s.state.tick == t.state.tick
    ensures var s, t := Play(NewSession(), a, random), Play(NewSession(), b, random);
            s.state.(completed := false) == t.state.(completed := false)
            && (s == t <==> s.finished == t.finished)
  {
    PlayIsFold(NewSession(), a, random);
    PlayIsFold(NewSession(), b, random);
  }

  lemma {:induction false} TicksAdd(s: DoomState, inputs: Inputs, random: Random, a: nat, b: nat)
    ensures Ticks(Ticks(s, inputs, random, a), inputs, random, b) == Ticks(s, inputs, random, a + b)
  {
    if b > 0 {
      TicksAdd(s, inputs, random, a, b - 1);
    }
  }

  // ------------------------------------------------------------- what is conserved

  /** How many of the first n ticks contain a use. */
  function UseTicks(inputs: Inputs, n: nat): nat {
    if n == 0 then 0 else UseTicks(inputs, n - 1) + (if Use in ActionsAt(inputs, n) then 1 else 0)
  }

  ghost predicate Balanced(s: DoomState, uses: int) {
    && s.score == SCORE_PER_KILL * s.kills + SCORE_PER_USE * uses
    && 0 <= s.kills <= 50 - s.ammo && 0 <= s.ammo && 0 <= s.health <= 100
  }

  lemma {:induction false} ActAllBalanced(s: DoomState, actions: seq<DoomAction>, random: Random, tick: nat, uses: int)
    requires Balanced(s, uses)
    ensures Balanced(ActAll(s, actions, random, tick), uses)
  {
    if actions != [] {
      ActAllBalanced(s, actions[..|actions| - 1], random, tick, uses);
    }
  }

  /** Score is 1000 a kill and 25 a tick with a use; no more kills than shots; health stays
      in 0..100. */
  lemma {:induction false} FoldBalanced(inputs: Inputs, random: Random, n: nat)
    ensures Balanced(Fold(inputs, random, n), UseTicks(inputs, n))
  {
    if n > 0 {
      var s := Fold(inputs, random, n - 1);
      FoldBalanced(inputs, random, n - 1);
      FoldTick(inputs, random, n - 1);
      ActAllBalanced(s, ActionsAt(inputs, n), random, n, UseTicks(inputs, n - 1));
    }
  }

  /** The same of every session, at every point of every run. */
  lemma SessionsAreBalanced(events: seq<Event>, random: Random)
    ensures var s := Play(NewSession(), events, random);
            Balanced(s.state, UseTicks(s.inputs, s.state.tick))
  {
    var s := Play(NewSession(), events, random);
    PlayIsFold(NewSession(), events, random);
    FoldBalanced(s.inputs, random, s.state.tick);
  }

  // ------------------------------------------------------------------ the runtime

  /** A session record, updated in place by the runtime's calls; `random` stands for the
      session's seed. The state hash is hashState of the rest of the state after each tick
      and is not kept here. */
  class SessionRecord {
    var state: DoomState
    var inputs: Inputs
    var finished: bool
    const random: Random

    constructor (random: Random)
      ensures Value() == NewSession() && this.random == random
    {
      state, inputs, finished := InitialState(), map[], false;
      this.random := random;
    }

    function Value(): Session
      reads this
    {
      Session(state, inputs, finished)
    }

    method SubmitInput(batch: Batch) returns (error: Option<DoomError>)
      modifies `inputs
      ensures (Value(), error) == Handle(old(Value()), Submit(batch), random)
    {
      if finished { return Some(SessionFinished); }
      if !SafeInteger(batch.fromTick) || batch.fromTick < 0.0 { return Some(InvalidInput); }
      var previous := batch.fromTick - 1.0;
      var i := 0;
      ghost var goal := Schedule(inputs, batch.fromTick, batch.inputs, previous, state.tick);
      assert batch.inputs[0..] == batch.inputs;
      while i < |batch.inputs|
        invariant 0 <= i <= |batch.inputs|
        invariant Schedule(inputs, batch.fromTick, batch.inputs[i..], previous, state.tick) == goal
      {
        var input := batch.inputs[i];
        assert batch.inputs[i..][0] == input && batch.inputs[i..][1..] == batch.inputs[i + 1..];
        if !SafeInteger(input.tick) || input.tick < batch.fromTick || input.tick <= previous
           || input.tick <= state.tick as real {
          return Some(InvalidTick);
        }
        if Unsupported in input.actions { return Some(InvalidInput); }
        assert input.tick.Floor >= 0 by { assert input.tick > state.tick as real; }
        inputs := inputs[input.tick.Floor := input.actions];
        previous := input.tick;
        i := i + 1;
      }
      return None;
    }

    method ExecuteTicks(ticks: Number) returns (error: Option<DoomError>)
      modifies `state
      ensures (Value(), error) == Handle(old(Value()), Execute(ticks), random)
    {
      if finished { return Some(SessionFinished); }
      if !SafeInteger(ticks) || ticks < 0.0 { return Some(InvalidTick); }
      var index := 0;
      while index < ticks.Floor
        invariant 0 <= index <= ticks.Floor
        invariant state == Ticks(old(state), inputs, random, index)
      {
        Step();
        index := index + 1;
      }
      return None;
    }

    /** The body of the action loop. */
    method Perform(action: DoomAction, nextTick: nat)
      modifies `state
      ensures state == Act(old(state), action, random, nextTick)
    {
      if action == Forward { state := state.(y := state.y + 1); }
      if action == Backward { state := state.(y := state.y - 1); }
      if action == Left { state := state.(x := state.x - 1); }
      if action == Right { state := state.(x := state.x + 1); }
      if action == Use { state := state.(health := Min(100, state.health + 1)); }
      if action == Fire && state.ammo > 0 {
        state := state.(ammo := state.ammo - 1);
        if random(nextTick, FireChannel) >= 0.5 {
          state := state.(kills := state.kills + 1, score := state.score + SCORE_PER_KILL);
        }
      }
    }

    method Step()
      modifies `state
      ensures state == Tick(old(state), inputs, random)
    {
      var nextTick := state.tick + 1;
      var actions := ActionsAt(inputs, nextTick);
      var i := 0;
      while i < |actions|
        invariant 0 <= i <= |actions|
        invariant state == ActAll(old(state), actions[..i], random, nextTick)
      {
        assert actions[..i + 1][..i] == actions[..i];
        Perform(actions[i], nextTick);
        i := i + 1;
      }
      assert actions[..i] == actions;
      if Use in actions { state := state.(score := state.score + SCORE_PER_USE); }
      if random(nextTick, DamageChannel) < 0.01 { state := state.(health := Max(0, state.health - 1)); }
      state := state.(tick := nextTick, alive := state.health > 0);
    }

    method FinishSession() returns (error: Option<DoomError>)
      modifies `state, `finished
      ensures (Value(), error) == Handle(old(Value()), Finish, random)
    {
      if finished { return Some(SessionFinished); }
      finished := true;
      state := state.(completed := true);
      return None;
    }
  }
}
