// What a tick and a submission of the mock DOOM do, spelled out.
module MockAnswers {
  import opened Bytes
  import opened MockDoom

  // ------------------------------------------------------------------------ ticks

  function Count(actions: seq<DoomAction>, action: DoomAction): nat {
    multiset(actions)[action]
  }

  /** Every shot of a tick meets the same draw. */
  function Hits(shots: nat, draw: real): nat {
    if draw >= 0.5 then shots else 0
  }

  /** What the actions of a tick come to, whatever their order. */
  ghost predicate ActedTo(s: DoomState, actions: seq<DoomAction>, draw: real, r: DoomState)
    requires s.ammo >= 0
  {
    var shots := Min(s.ammo, Count(actions, Fire));
    && r.y == s.y + Count(actions, Forward) - Count(actions, Backward)
    && r.x == s.x + Count(actions, Right) - Count(actions, Left)
    && r.ammo == s.ammo - shots
    && r.kills == s.kills + Hits(shots, draw) && r.score == s.score + 1000 * Hits(shots, draw)
    && r.health == Min(100, s.health + Count(actions, Use))
    && r.tick == s.tick && r.completed == s.completed && r.alive == s.alive
  }

  lemma {:induction false} ActionsCount(s: DoomState, actions: seq<DoomAction>, random: Random, tick: nat)
    requires s.ammo >= 0 && s.health <= 100
    ensures ActedTo(s, actions, random(tick, FireChannel), ActAll(s, actions, random, tick))
  {
    if actions != [] {
      var n := |actions| - 1;
      ActionsCount(s, actions[..n], random, tick);
      OneMore(s, actions[..n], actions[n], ActAll(s, actions[..n], random, tick), random, tick);
      assert actions == actions[..n] + [actions[n]];
    }
  }

  lemma OneMore(s: DoomState, actions: seq<DoomAction>, last: DoomAction, acted: DoomState, random: Random, tick: nat)
    requires s.ammo >= 0 && s.health <= 100 && ActedTo(s, actions, random(tick, FireChannel), acted)
    ensures ActedTo(s, actions + [last], random(tick, FireChannel), Act(acted, last, random, tick))
  {
  }

  /** A tick moves by its counts of actions, fires while there is ammunition and hits with all
      its shots or none, heals a point a use up to 100, scores 1000 a hit and 25 for any use,
      and may cost a point of health. */
  lemma TickSpelled(s: DoomState, inputs: Inputs, random: Random)
    requires s.ammo >= 0 && 0 <= s.health <= 100
    ensures var actions := ActionsAt(inputs, s.tick + 1);
            var shots := Min(s.ammo, Count(actions, Fire));
            var hits := Hits(shots, random(s.tick + 1, FireChannel));
            var healed := Min(100, s.health + Count(actions, Use));
            var r := Tick(s, inputs, random);
            && r.y == s.y + Count(actions, Forward) - Count(actions, Backward)
            && r.x == s.x + Count(actions, Right) - Count(actions, Left)
            && r.ammo == s.ammo - shots && r.kills == s.kills + hits
            && r.score == s.score + 1000 * hits + (if Count(actions, Use) > 0 then 25 else 0)
            && r.health == (if random(s.tick + 1, DamageChannel) < 0.01 && healed > 0 then healed - 1 else healed)
            && r.alive == (r.health > 0) && r.tick == s.tick + 1 && r.completed == s.completed
  {
    ActionsCount(s, ActionsAt(inputs, s.tick + 1), random, s.tick + 1);
  }

  lemma StartSpelled()
    ensures NewSession() == Session(DoomState(0, 100, 50, 0, 0, false, 0, 0, true), map[], false)
  {
  }

  // ------------------------------------------------------------------- submissions

  predicate Whole(x: Number) {
    x == x.Floor as real && -9007199254740991.0 <= x <= 9007199254740991.0
  }

  /** The i-th input of a batch is for a tick still to come, after the one before it and not
      before the batch's first. */
  predicate GoodTick(fromTick: Number, batch: seq<Input>, previous: Number, tick: nat, i: nat)
    requires i < |batch|
  {
    && Whole(batch[i].tick) && batch[i].tick >= fromTick && batch[i].tick > tick as real
    && batch[i].tick > (if i == 0 then previous else batch[i - 1].tick)
  }

  predicate Takes(fromTick: Number, batch: seq<Input>, previous: Number, tick: nat, i: nat)
    requires i < |batch|
  {
    GoodTick(fromTick, batch, previous, tick, i) && Unsupported !in batch[i].actions
  }

  /** The schedule holds each input's actions at its tick, and at every other tick what it
      held before. */
  ghost predicate Scheduled(before: Inputs, batch: seq<Input>, after: Inputs) {
    && (forall i :: 0 <= i < |batch| ==>
          batch[i].tick.Floor >= 0 && ActionsAt(after, batch[i].tick.Floor) == batch[i].actions)
    && (forall t: nat :: (forall i :: 0 <= i < |batch| ==> batch[i].tick.Floor != t) ==>
          ActionsAt(after, t) == ActionsAt(before, t))
  }

  lemma ScheduledFirst(before: Inputs, first: Input, rest: seq<Input>, after: Inputs)
    requires first.tick.Floor >= 0 && Scheduled(before[first.tick.Floor := first.actions], rest, after)
    requires forall i :: 0 <= i < |rest| ==> rest[i].tick.Floor != first.tick.Floor
    ensures Scheduled(before, [first] + rest, after)
  {
    var batch := [first] + rest;
    var at := first.tick.Floor;
    assert ActionsAt(after, at) == first.actions;
    forall t: nat | forall i :: 0 <= i < |batch| ==> batch[i].tick.Floor != t
      ensures ActionsAt(after, t) == ActionsAt(before, t)
    {
      assert batch[0].tick.Floor != t;
      assert forall i :: 0 <= i < |rest| ==> rest[i] == batch[i + 1];
    }
  }

  lemma {:induction false} TicksRise(fromTick: Number, batch: seq<Input>, previous: Number, tick: nat, k: nat, i: nat)
    requires i < k <= |batch| && forall j :: 0 <= j < k ==> Takes(fromTick, batch, previous, tick, j)
    ensures Whole(batch[i].tick) && batch[i].tick > previous && batch[i].tick > tick as real
  {
    assert Takes(fromTick, batch, previous, tick, i);
    if i > 0 {
      TicksRise(fromTick, batch, previous, tick, k, i - 1);
    }
  }

  lemma TakesRest(fromTick: Number, batch: seq<Input>, previous: Number, tick: nat, i: nat)
    requires 0 < i < |batch|
    ensures GoodTick(fromTick, batch, previous, tick, i) == GoodTick(fromTick, batch[1..], batch[0].tick, tick, i - 1)
    ensures Takes(fromTick, batch, previous, tick, i) == Takes(fromTick, batch[1..], batch[0].tick, tick, i - 1)
  {
  }

  lemma TakesOneMore(fromTick: Number, batch: seq<Input>, previous: Number, tick: nat, k: nat)
    requires 0 < k <= |batch| && Takes(fromTick, batch, previous, tick, 0)
    requires forall i :: 0 <= i < k - 1 ==> Takes(fromTick, batch[1..], batch[0].tick, tick, i)
    ensures forall i :: 0 <= i < k ==> Takes(fromTick, batch, previous, tick, i)
  {
    forall i | 0 <= i < k ensures Takes(fromTick, batch, previous, tick, i) {
      if i > 0 { TakesRest(fromTick, batch, previous, tick, i); }
    }
  }

  lemma LaterTicks(fromTick: Number, batch: seq<Input>, previous: Number, tick: nat, k: nat)
    requires k <= |batch| && Whole(previous) && forall j :: 0 <= j < k ==> Takes(fromTick, batch, previous, tick, j)
    ensures forall i :: 0 <= i < k ==> batch[..k][i].tick.Floor != previous.Floor
  {
    forall i | 0 <= i < k ensures batch[..k][i].tick.Floor != previous.Floor {
      TicksRise(fromTick, batch, previous, tick, k, i);
    }
  }

  /** A batch is scheduled up to the first input that is not taken, which decides the error. */
  lemma {:induction false} ScheduleSpelled(inputs: Inputs, fromTick: Number, batch: seq<Input>, previous: Number, tick: nat)
    returns (k: nat)
    ensures k <= |batch|
    ensures forall i :: 0 <= i < k ==> Takes(fromTick, batch, previous, tick, i)
    ensures k < |batch| ==> !Takes(fromTick, batch, previous, tick, k)
    ensures Schedule(inputs, fromTick, batch, previous, tick).1
            == if k == |batch| then None
               else if GoodTick(fromTick, batch, previous, tick, k) then Some(InvalidInput) else Some(InvalidTick)
    ensures Scheduled(inputs, batch[..k], Schedule(inputs, fromTick, batch, previous, tick).0)
    decreases batch
  {
    k := 0;
    if batch != [] && Takes(fromTick, batch, previous, tick, 0) {
      var first, rest := batch[0], batch[1..];
      var j := ScheduleSpelled(inputs[first.tick.Floor := first.actions], fromTick, rest, first.tick, tick);
      k := j + 1;
      TakesOneMore(fromTick, batch, previous, tick, k);
      if k < |batch| { TakesRest(fromTick, batch, previous, tick, k); }
      LaterTicks(fromTick, rest, first.tick, tick, j);
      ScheduledFirst(inputs, first, rest[..j], Schedule(inputs, fromTick, batch, previous, tick).0);
      assert batch[..k] == [first] + rest[..j];
    }
  }

  // -------------------------------------------------------------------------- calls

  /** A finished session refuses every call; a submission needs a whole first tick that is not
      negative, an execution a whole number of ticks that is not; a finish always goes through. */
  lemma CallsSpelled(s: Session, event: Event, random: Random)
    ensures var (after, error) := Handle(s, event, random);
            && (s.finished ==> error == Some(SessionFinished) && after == s)
            && (!s.finished && event.Submit? && !(Whole(event.batch.fromTick) && event.batch.fromTick >= 0.0) ==>
                  error == Some(InvalidInput) && after == s)
            && (!s.finished && event.Execute? && !(Whole(event.ticks) && event.ticks >= 0.0) ==>
                  error == Some(InvalidTick) && after == s)
            && (!s.finished && event.Execute? && Whole(event.ticks) && event.ticks >= 0.0 ==>
                  error == None && after.inputs == s.inputs && !after.finished)
            && (!s.finished && event.Finish? ==>
                  error == None && after == Session(s.state.(completed := true), s.inputs, true))
  {
  }

  /** What an accepted submission schedules: everything taken. */
  lemma SubmissionSpelled(s: Session, batch: Batch, random: Random, previous: Number) returns (k: nat)
    requires !s.finished && Whole(batch.fromTick) && batch.fromTick >= 0.0 && previous == batch.fromTick - 1.0
    ensures k <= |batch.inputs|
    ensures forall i :: 0 <= i < k ==> Takes(batch.fromTick, batch.inputs, previous, s.state.tick, i)
    ensures k < |batch.inputs| ==> !Takes(batch.fromTick, batch.inputs, previous, s.state.tick, k)
    ensures var (after, error) := Handle(s, Submit(batch), random);
            && after.state == s.state && !after.finished && Scheduled(s.inputs, batch.inputs[..k], after.inputs)
            && error == if k == |batch.inputs| then None
                        else if GoodTick(batch.fromTick, batch.inputs, previous, s.state.tick, k)
                        then Some(InvalidInput) else Some(InvalidTick)
  {
    k := ScheduleSpelled(s.inputs, batch.fromTick, batch.inputs, previous, s.state.tick);
  }
}
