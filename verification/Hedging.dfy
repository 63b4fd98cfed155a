/** Hedged requests: two attempts raced by `select!` loops, for any order in which they complete. */
module Hedging {
  import opened Bytes

  datatype Result<+V, +E> = Ok(value: V) | Err(error: E)

  /** A pinned future: polling it again after it has completed would panic. */
  class Attempt<V, E> {
    const outcome: Result<V, E>
    var finished: bool

    constructor (outcome: Result<V, E>)
      ensures this.outcome == outcome && !finished
    {
      this.outcome := outcome;
      finished := false;
    }

    method Complete() returns (r: Result<V, E>)
      requires !finished
      modifies this
      ensures finished && r == outcome
    {
      finished := true;
      r := outcome;
    }
  }

  /** Which branch of a two-way `select!` fires; with both disabled it would panic. */
  method Select(enabledA: bool, enabledB: bool, aFirst: bool) returns (a: bool)
    requires enabledA || enabledB
    ensures if a then enabledA else enabledB
    ensures enabledA && enabledB ==> a == aFirst
  {
    a := enabledA && (aFirst || !enabledB);
  }

  /** First success wins; with two failures the second completion decides nothing but which error is kept. */
  ghost predicate FirstSuccessWins<V, E>(r: Result<V, E>, first: Result<V, E>, second: Result<V, E>) {
    && (first.Ok? ==> r == first)
    && (first.Err? && second.Ok? ==> r == second)
    && (first.Err? && second.Err? ==> r.Err?)
  }

  /**
   * `forward_with_hedging_raw`. `early` says that the primary completes before the hedge delay, `aFirst` that it
   * completes before the secondary afterwards.
   */
  method ForwardWithHedging<V, E>(primary: Attempt<V, E>, secondary: Attempt<V, E>, early: bool,
                                  aFirst: bool) returns (r: Result<V, E>)
    requires primary != secondary && !primary.finished && !secondary.finished
    modifies primary, secondary
    ensures early ==> r == primary.outcome && primary.finished && !secondary.finished
    ensures var (first, second) := if aFirst then (primary, secondary) else (secondary, primary);
            !early ==>
              && FirstSuccessWins(r, first.outcome, second.outcome)
              && (r.Err? ==> r == first.outcome)
              && first.finished && (second.finished <==> first.outcome.Err?)
  {
    if early {
      r := primary.Complete();
      return;
    }
    var primaryErr: Option<E>, secondaryErr: Option<E> := None, None;
    while true
      invariant primaryErr.None? || secondaryErr.None?
      invariant primary.finished <==> primaryErr.Some?
      invariant secondary.finished <==> secondaryErr.Some?
      invariant primaryErr.Some? ==> primary.outcome == Err(primaryErr.value) && aFirst
      invariant secondaryErr.Some? ==> secondary.outcome == Err(secondaryErr.value) && !aFirst
      decreases (if primary.finished then 0 else 1) + if secondary.finished then 0 else 1
    {
      var a := Select(primaryErr.None?, secondaryErr.None?, aFirst);
      if a {
        var x := primary.Complete();
        if x.Ok? { return x; }
        if secondaryErr.Some? { return Err(secondaryErr.value); }
        primaryErr := Some(x.error);
      } else {
        var x := secondary.Complete();
        if x.Ok? { return x; }
        if primaryErr.Some? { return Err(primaryErr.value); }
        secondaryErr := Some(x.error);
      }
      assert primaryErr.None? || secondaryErr.None?;  // the loop's closing match never meets two errors
    }
  }

  /** The cold branch of `send_query_hedged`: both attempts start at once. */
  method Parallel<V, E>(a: Attempt<V, E>, b: Attempt<V, E>, aFirst: bool) returns (r: Result<V, E>)
    requires a != b && !a.finished && !b.finished
    modifies a, b
    ensures var (first, second) := if aFirst then (a, b) else (b, a);
            && FirstSuccessWins(r, first.outcome, second.outcome)
            && first.finished && (second.finished <==> first.outcome.Err?)
    ensures r.Err? ==> r == a.outcome
  {
    var aDone, bDone := false, false;
    var aErr: Option<E>, bErr: Option<E> := None, None;
    while true
      invariant a.finished == aDone && b.finished == bDone && !(aDone && bDone)
      invariant if aDone then a.outcome.Err? && aErr == Some(a.outcome.error) && aFirst else aErr.None?
      invariant if bDone then b.outcome.Err? && bErr == Some(b.outcome.error) && !aFirst else bErr.None?
      decreases (if aDone then 0 else 1) + if bDone then 0 else 1
    {
      var pickA := Select(!aDone, !bDone, aFirst);
      if pickA {
        var x := a.Complete();
        if x.Ok? { return x; }
        aDone, aErr := true, Some(x.error);
      } else {
        var x := b.Complete();
        if x.Ok? { return x; }
        bDone, bErr := true, Some(x.error);
      }
      if aErr.Some? && bErr.Some? { return Err(aErr.value); }
    }
  }

  /** The warm branch: the second attempt starts after the delay; whichever fails last, the first attempt's error is kept. */
  method WarmHedge<V, E>(a: Attempt<V, E>, b: Attempt<V, E>, early: bool, aFirst: bool) returns (r: Result<V, E>)
    requires a != b && !a.finished && !b.finished
    modifies a, b
    ensures early ==> r == a.outcome && a.finished && !b.finished
    ensures var (first, second) := if aFirst then (a, b) else (b, a);
            !early ==> FirstSuccessWins(r, first.outcome, second.outcome)
                       && first.finished && (second.finished <==> first.outcome.Err?)
    ensures r.Err? ==> r == a.outcome
  {
    if early {
      r := a.Complete();
      return;
    }
    var aErr: Option<E>, bErr: Option<E> := None, None;
    while true
      invariant (a.finished <==> aErr.Some?) && (b.finished <==> bErr.Some?) && (aErr.None? || bErr.None?)
      invariant aErr.Some? ==> a.outcome == Err(aErr.value) && aFirst
      invariant bErr.Some? ==> b.outcome == Err(bErr.value) && !aFirst
      decreases (if a.finished then 0 else 1) + if b.finished then 0 else 1
    {
      var pickA := Select(aErr.None?, bErr.None?, aFirst);
      if pickA {
        var x := a.Complete();
        if x.Ok? { return x; }
        if bErr.Some? { return Err(x.error); }
        aErr := Some(x.error);
      } else {
        var x := b.Complete();
        if x.Ok? { return x; }
        if aErr.Some? { return Err(aErr.value); }
        bErr := Some(x.error);
      }
    }
  }

  /** What one hedged query sees of the world: every server's outcome, and the timing. */
  datatype Race<V, E> = Race(outcomes: seq<Result<V, E>>, known: bool, early: bool, aFirst: bool)

  /** `send_query_hedged`: how many servers were asked, at most two, and the result. */
  method SendQueryHedged<V, E>(race: Race<V, E>, noServer: E) returns (r: Result<V, E>, asked: nat)
    ensures asked == if |race.outcomes| < 2 then |race.outcomes| else if race.known && race.early then 1 else 2
    ensures r == Raced(race, noServer)
  {
    if |race.outcomes| == 0 { return Err(noServer), 0; }
    var a := new Attempt(race.outcomes[0]);
    if |race.outcomes| == 1 {
      r := a.Complete();
      return r, 1;
    }
    var b := new Attempt(race.outcomes[1]);
    if !race.known {
      r := Parallel(a, b, race.aFirst);
      asked := 2;
    } else {
      r := WarmHedge(a, b, race.early, race.aFirst);
      asked := if race.early then 1 else 2;
    }
  }

  /** The outcome alone: only the first two servers matter, and an error is always the first one's. */
  function Raced<V, E>(race: Race<V, E>, noServer: E): Result<V, E> {
    var o := race.outcomes;
    if o == [] then Err(noServer)
    else if |o| == 1 || (race.known && race.early) then o[0]
    else if o[0].Ok? && (race.aFirst || o[1].Err?) then o[0]
    else if o[1].Ok? then o[1]
    else o[0]
  }
}
