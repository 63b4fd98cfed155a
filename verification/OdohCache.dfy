/**
 * The ODoH config cache: `get` and `invalidate` by any number of tasks. Every load, store, clock reading and
 * await point is a step of its own; the history records what happened.
 */
module OdohCache {
  import opened Bytes

  type Millis = nat

  const REFRESH_BACKOFF: Millis := 60_000
  const MAX_CONFIG_TTL: Millis := 604_800_000

  datatype Config = Config(keyId: nat, expiresAt: Millis)

  /** Where one call of `get` is; the names with a 2 come after the lock is taken. */
  datatype Task =
    | LoadCurrent
    | CheckExpiry(snapshot: Option<Config>)
    | LoadFailure
    | CheckBackoff(failure: Option<Millis>)
    | AwaitLock
    | LoadCurrent2
    | CheckExpiry2(snapshot: Option<Config>)
    | LoadFailure2
    | CheckBackoff2(failure: Option<Millis>)
    | Fetching
    | StoreConfig(fetched: Config, fetchedAt: Millis)
    | ClearFailure(fetched: Config, fetchedAt: Millis)
    | FetchFailed
    | StoreFailure(at: Millis)
    | Returned(config: Config, checkedAt: Millis)
    | Failed
    | Cancelled

  datatype Entry =
    | FetchStarted(at: Millis)
    | FetchEnded
    | FailureRecorded(at: Millis)
    | Succeeded(config: Config)
    | Invalidated

  datatype State = State(now: Millis, current: Option<Config>, lastFailure: Option<Millis>, lock: Option<nat>,
                         tasks: seq<Task>, history: seq<Entry>)

  datatype Event =
    | Get
    | Invalidate
    | Tick(elapsed: Millis)
    | Step(i: nat)
    | Complete(i: nat, result: Option<(nat, Millis)>)  // the fetch ends: a key id and a TTL, or an error
    | Cancel(i: nat)

  predicate InsideLock(t: Task) {
    t.LoadCurrent2? || t.CheckExpiry2? || t.LoadFailure2? || t.CheckBackoff2? || t.Fetching? || t.StoreConfig?
    || t.ClearFailure? || t.FetchFailed? || t.StoreFailure?
  }

  predicate Expired(c: Config, now: Millis) { now >= c.expiresAt }

  /** `backoff_error` on a loaded failure. */
  predicate BacksOff(failure: Option<Millis>, now: Millis) { failure.Some? && now < failure.value + REFRESH_BACKOFF }

  predicate Enabled(s: State, e: Event) {
    match e
    case Step(i) =>
      && i < |s.tasks| && !s.tasks[i].Fetching? && !s.tasks[i].Returned? && !s.tasks[i].Failed? && !s.tasks[i].Cancelled?
      && (s.tasks[i].AwaitLock? ==> s.lock.None?)
    case Complete(i, result) => i < |s.tasks| && s.tasks[i].Fetching? && (result.Some? ==> result.value.1 > 0)
    case Cancel(i) => i < |s.tasks| && (s.tasks[i].AwaitLock? || s.tasks[i].Fetching?)
    case _ => true
  }

  function Min(a: Millis, b: Millis): Millis { if a <= b then a else b }

  /** One step of task `i` between await points. */
  function Stepped(s: State, i: nat): State
    requires Enabled(s, Step(i))
  {
    match s.tasks[i]
    case LoadCurrent => s.(tasks := s.tasks[i := CheckExpiry(s.current)])
    case CheckExpiry(snapshot) =>
      s.(tasks := s.tasks[i := if snapshot.Some? && !Expired(snapshot.value, s.now) then Returned(snapshot.value, s.now) else LoadFailure])
    case LoadFailure => s.(tasks := s.tasks[i := CheckBackoff(s.lastFailure)])
    case CheckBackoff(failure) => s.(tasks := s.tasks[i := if BacksOff(failure, s.now) then Failed else AwaitLock])
    case AwaitLock => s.(tasks := s.tasks[i := LoadCurrent2], lock := Some(i))
    case LoadCurrent2 => s.(tasks := s.tasks[i := CheckExpiry2(s.current)])
    case CheckExpiry2(snapshot) =>
      if snapshot.Some? && !Expired(snapshot.value, s.now)
      then s.(tasks := s.tasks[i := Returned(snapshot.value, s.now)], lock := None)
      else s.(tasks := s.tasks[i := LoadFailure2])
    case LoadFailure2 => s.(tasks := s.tasks[i := CheckBackoff2(s.lastFailure)])
    case CheckBackoff2(failure) =>
      if BacksOff(failure, s.now) then s.(tasks := s.tasks[i := Failed], lock := None)
      else s.(tasks := s.tasks[i := Fetching], history := s.history + [FetchStarted(s.now)])
    case StoreConfig(c, at) => s.(tasks := s.tasks[i := ClearFailure(c, at)], current := Some(c), history := s.history + [Succeeded(c)])
    case ClearFailure(c, at) => s.(tasks := s.tasks[i := Returned(c, at)], lastFailure := None, lock := None)
    case FetchFailed => s.(tasks := s.tasks[i := StoreFailure(s.now)])
    case StoreFailure(at) =>
      s.(tasks := s.tasks[i := Failed], lastFailure := Some(at), lock := None, history := s.history + [FailureRecorded(at)])
    case _ => s
  }

  function After(s: State, e: Event): State
    requires Enabled(s, e)
  {
    match e
    case Get => s.(tasks := s.tasks + [LoadCurrent])
    case Invalidate => s.(current := None, history := s.history + [Invalidated])
    case Tick(d) => s.(now := s.now + d)
    case Step(i) => Stepped(s, i)
    case Complete(i, result) =>
      var t := if result.Some? then StoreConfig(Config(result.value.0, s.now + Min(result.value.1, MAX_CONFIG_TTL)), s.now) else FetchFailed;
      s.(tasks := s.tasks[i := t], history := s.history + [FetchEnded])
    case Cancel(i) =>
      if s.tasks[i].AwaitLock? then s.(tasks := s.tasks[i := Cancelled])
      else s.(tasks := s.tasks[i := Cancelled], lock := None, history := s.history + [FetchEnded])
  }

  ghost function Run(now: Millis, events: seq<Event>): Option<State> {
    if events == [] then Some(State(now, None, None, None, [], [])) else
    var s :- Run(now, events[..|events| - 1]);
    if Enabled(s, events[|events| - 1]) then Some(After(s, events[|events| - 1])) else None
  }

  ghost predicate Reachable(s: State) { exists now, events :: Run(now, events) == Some(s) }

  // ---- What one call does ----

  /** A call that finds a fresh config returns it without the lock. */
  lemma FreshIsServed(s: State, i: nat)
    requires i < |s.tasks| && s.tasks[i].LoadCurrent? && s.current.Some? && s.now < s.current.value.expiresAt
    ensures var served := Stepped(Stepped(s, i), i);
            served == s.(tasks := s.tasks[i := Returned(s.current.value, s.now)])
  {
  }

  /** A call that finds neither a fresh config nor a failure less than a minute old takes the lock and fetches. */
  lemma MissFetches(s: State, i: nat)
    requires i < |s.tasks| && s.tasks[i].LoadCurrent? && s.lock.None?
    requires (s.current.Some? ==> s.current.value.expiresAt <= s.now)
             && (s.lastFailure.Some? ==> s.lastFailure.value + 60 * 1000 <= s.now)
    ensures Steps(s, i, 9) == s.(tasks := s.tasks[i := Fetching], lock := Some(i), history := s.history + [FetchStarted(s.now)])
  {
    MissTakesLock(s, i);
    hide Steps, Stepped;
    StepsOn(s, i, 5, 4);
    MissUnderLock(Steps(s, i, 5), i);
  }

  /** `n` steps of one task, as far as it can go. */
  function Steps(s: State, i: nat, n: nat): State
    decreases n
  {
    if n == 0 || !Enabled(s, Step(i)) then s else Steps(Stepped(s, i), i, n - 1)
  }

  lemma {:induction false} StepsOn(s: State, i: nat, m: nat, n: nat)
    ensures Steps(s, i, m + n) == Steps(Steps(s, i, m), i, n)
    decreases m
  {
    if m > 0 && Enabled(s, Step(i)) { StepsOn(Stepped(s, i), i, m - 1, n); }
  }

  lemma MissTakesLock(s: State, i: nat)
    requires i < |s.tasks| && s.tasks[i].LoadCurrent? && s.lock.None?
    requires (s.current.Some? ==> s.current.value.expiresAt <= s.now)
             && (s.lastFailure.Some? ==> s.lastFailure.value + 60 * 1000 <= s.now)
    ensures Steps(s, i, 5) == s.(tasks := s.tasks[i := LoadCurrent2], lock := Some(i))
  {
    var a := s.(tasks := s.tasks[i := CheckExpiry(s.current)]);
    var b := s.(tasks := s.tasks[i := LoadFailure]);
    var c := s.(tasks := s.tasks[i := CheckBackoff(s.lastFailure)]);
    var d := s.(tasks := s.tasks[i := AwaitLock]);
    var e := s.(tasks := s.tasks[i := LoadCurrent2], lock := Some(i));
    assert Stepped(s, i) == a && Stepped(a, i) == b && Stepped(b, i) == c && Stepped(c, i) == d && Stepped(d, i) == e;
    hide Stepped;
    assert Steps(d, i, 1) == Steps(e, i, 0) == e;
    assert Steps(b, i, 3) == Steps(c, i, 2) == Steps(d, i, 1);
    assert Steps(s, i, 5) == Steps(a, i, 4) == Steps(b, i, 3);
  }

  lemma MissUnderLock(s: State, i: nat)
    requires i < |s.tasks| && s.tasks[i].LoadCurrent2?
    requires (s.current.Some? ==> s.current.value.expiresAt <= s.now)
             && (s.lastFailure.Some? ==> s.lastFailure.value + 60 * 1000 <= s.now)
    ensures Steps(s, i, 4) == s.(tasks := s.tasks[i := Fetching], history := s.history + [FetchStarted(s.now)])
  {
    var a := s.(tasks := s.tasks[i := CheckExpiry2(s.current)]);
    var b := s.(tasks := s.tasks[i := LoadFailure2]);
    var c := s.(tasks := s.tasks[i := CheckBackoff2(s.lastFailure)]);
    var d := s.(tasks := s.tasks[i := Fetching], history := s.history + [FetchStarted(s.now)]);
    assert Stepped(s, i) == a && Stepped(a, i) == b && Stepped(b, i) == c && Stepped(c, i) == d;
    hide Stepped;
    assert Steps(c, i, 1) == Steps(d, i, 0) == d;
    assert Steps(s, i, 4) == Steps(a, i, 3) == Steps(b, i, 2) == Steps(c, i, 1);
  }

  /** A config counts for as long as it says, but for no more than a week, and is stored and returned. */
  lemma FetchIsStored(s: State, i: nat, keyId: nat, ttl: Millis)
    requires Enabled(s, Complete(i, Some((keyId, ttl))))
    ensures var c := Config(keyId, s.now + if ttl < 7 * 24 * 3600 * 1000 then ttl else 7 * 24 * 3600 * 1000);
            var done := Stepped(Stepped(After(s, Complete(i, Some((keyId, ttl)))), i), i);
            && done.tasks[i] == Returned(c, s.now) && done.current == Some(c) && done.lastFailure == None && done.lock == None
            && done.history == s.history + [FetchEnded, Succeeded(c)]
  {
  }

  /** A failure is stored with its time, and then every call without a fresh config fails at once for a minute. */
  lemma FailureBacksOff(s: State, i: nat, j: nat, wait: Millis)
    requires Enabled(s, Complete(i, None)) && j < |s.tasks| && j != i && s.tasks[j].LoadFailure?
    ensures var done := Stepped(Stepped(After(s, Complete(i, None)), i), i);
            && done.tasks[i] == Failed && done.current == s.current && done.lock == None
            && done.history == s.history + [FetchEnded, FailureRecorded(s.now)]
            && done.tasks[j].LoadFailure?
            && Stepped(Stepped(After(done, Tick(wait)), j), j).tasks[j] == if wait < 60 * 1000 then Failed else AwaitLock
  {
    var failing := Stepped(After(s, Complete(i, None)), i);
    assert failing.tasks[i] == StoreFailure(s.now) && failing.tasks[j] == s.tasks[j];
    var done := Stepped(failing, i);
    assert done.lastFailure == Some(s.now) && done.tasks[j] == s.tasks[j] && done.now == s.now;
  }

  // ---- What the history must show ----

  /** Every recorded failure is at least the backoff old at `t`. */
  ghost predicate FailuresOld(h: seq<Entry>, t: Millis) {
    forall i :: 0 <= i < |h| && h[i].FailureRecorded? ==> h[i].at + REFRESH_BACKOFF <= t
  }

  /** Success `i` has not been invalidated since. */
  ghost predicate Valid(h: seq<Entry>, i: nat)
    requires i < |h|
  {
    h[i].Succeeded? && forall k :: i < k < |h| ==> !h[k].Invalidated?
  }

  /** Every success that was not invalidated is the given config, or expired by `t`. */
  ghost predicate OnlyFresh(h: seq<Entry>, config: Option<Config>, t: Millis) {
    forall i :: 0 <= i < |h| && Valid(h, i) ==> config == Some(h[i].config) || Expired(h[i].config, t)
  }

  /** Every fetch that started has ended. */
  ghost predicate Idle(h: seq<Entry>) {
    forall i :: 0 <= i < |h| && h[i].FetchStarted? ==> EndsAfter(h, i)
  }

  ghost predicate EndsAfter(h: seq<Entry>, i: nat) {
    exists k :: i < k < |h| && h[k].FetchEnded?
  }

  /**
   * A fetch may start: all earlier fetches have ended, all recorded failures are a minute old and every
   * success is expired or invalidated.
   */
  ghost predicate MayFetch(h: seq<Entry>, t: Millis) {
    Idle(h) && FailuresOld(h, t) && OnlyFresh(h, None, t)
  }

  /** Each fetch in the history was allowed by what came before it. */
  ghost predicate Disciplined(h: seq<Entry>) {
    forall i :: 0 <= i < |h| && h[i].FetchStarted? ==> MayFetch(h[..i], h[i].at)
  }

  ghost predicate TaskOk(s: State, i: nat)
    requires i < |s.tasks|
  {
    var h := s.history;
    && (InsideLock(s.tasks[i]) ==> s.lock == Some(i) && (!s.tasks[i].Fetching? ==> Idle(h)))
    && match s.tasks[i]
       case CheckExpiry2(snapshot) => OnlyFresh(h, snapshot, s.now)
       case LoadFailure2 => OnlyFresh(h, None, s.now)
       case CheckBackoff2(failure) =>
         OnlyFresh(h, None, s.now) && failure == s.lastFailure
       case Fetching => OnlyFresh(h, None, s.now) && FailuresOld(h, s.now)
       case StoreConfig(c, at) => OnlyFresh(h, None, s.now) && FailuresOld(h, s.now) && at < c.expiresAt
       case ClearFailure(c, at) => FailuresOld(h, s.now) && at < c.expiresAt
       case FetchFailed => OnlyFresh(h, None, s.now) && FailuresOld(h, s.now)
       case StoreFailure(at) => OnlyFresh(h, None, s.now) && FailuresOld(h, at) && at <= s.now
       case Returned(c, checkedAt) => checkedAt < c.expiresAt
       case _ => true
  }

  /** Every failure on record is covered by the stored one, or no longer backs anybody off. */
  ghost predicate FailureStored(h: seq<Entry>, lastFailure: Option<Millis>, now: Millis) {
    forall i :: 0 <= i < |h| && h[i].FailureRecorded? ==>
      h[i].at + REFRESH_BACKOFF <= now || (lastFailure.Some? && h[i].at <= lastFailure.value)
  }

  ghost predicate Inv(s: State) {
    && (forall i :: 0 <= i < |s.tasks| ==> TaskOk(s, i))
    && (s.lock.Some? ==> s.lock.value < |s.tasks| && InsideLock(s.tasks[s.lock.value]))
    && (s.lock.None? || !s.tasks[s.lock.value].Fetching? ==> Idle(s.history))
    && OnlyFresh(s.history, s.current, s.now)
    && FailureStored(s.history, s.lastFailure, s.now)
    && Disciplined(s.history)
  }

  // ---- One more entry ----

  lemma DisciplinedSnoc(h: seq<Entry>, e: Entry)
    requires Disciplined(h) && (e.FetchStarted? ==> MayFetch(h, e.at))
    ensures Disciplined(h + [e])
  {
    hide MayFetch;
    forall i | 0 <= i <= |h| && (h + [e])[i].FetchStarted? ensures MayFetch((h + [e])[..i], (h + [e])[i].at) {
      assert (h + [e])[..i] == h[..i];
      assert h[..|h|] == h;
    }
  }

  lemma OnlyFreshSnoc(h: seq<Entry>, e: Entry, config: Option<Config>, t: Millis)
    ensures OnlyFresh(h, config, t) && !e.Succeeded? ==> OnlyFresh(h + [e], config, t)
    ensures e.Invalidated? ==> OnlyFresh(h + [e], config, t)
    ensures OnlyFresh(h, None, t) && e.Succeeded? ==> OnlyFresh(h + [e], Some(e.config), t)
  {
    forall i | 0 <= i < |h| && Valid(h + [e], i) ensures Valid(h, i) {
      forall k | i < k < |h| ensures !h[k].Invalidated? { assert (h + [e])[k] == h[k]; }
    }
    if e.Invalidated? {
      forall i | 0 <= i < |h| ensures !Valid(h + [e], i) { assert (h + [e])[|h|].Invalidated?; }
    }
  }

  lemma IdleSnoc(h: seq<Entry>, e: Entry)
    ensures e.FetchEnded? ==> Idle(h + [e])
    ensures Idle(h) && !e.FetchStarted? ==> Idle(h + [e])
  {
    var g := h + [e];
    assert g[|h|] == e;
    forall i | 0 <= i < |h| && EndsAfter(h, i) ensures EndsAfter(g, i) {
      var k :| i < k < |h| && h[k].FetchEnded?;
      assert g[k].FetchEnded?;
    }
  }

  lemma FailuresOldSnoc(h: seq<Entry>, e: Entry, t: Millis)
    ensures FailuresOld(h, t) && (e.FailureRecorded? ==> e.at + REFRESH_BACKOFF <= t) ==> FailuresOld(h + [e], t)
  {
  }

  /** Time only helps. */
  lemma Later(h: seq<Entry>, config: Option<Config>, t: Millis, u: Millis)
    requires t <= u
    ensures OnlyFresh(h, config, t) ==> OnlyFresh(h, config, u)
    ensures FailuresOld(h, t) ==> FailuresOld(h, u)
  {
    hide Valid;
  }

  // ---- Every step keeps the invariant ----

  /** A task outside the lock moves without touching anything shared. */
  lemma OutsideKeepsInv(s: State, i: nat, t: Task)
    requires Inv(s) && i < |s.tasks| && !InsideLock(s.tasks[i]) && !InsideLock(t) && (t.Returned? ==> t.checkedAt < t.config.expiresAt)
    ensures Inv(s.(tasks := s.tasks[i := t]))
  {
    hide OnlyFresh, FailuresOld, Idle, Disciplined, FailureStored;
    var u := s.(tasks := s.tasks[i := t]);
    forall j | 0 <= j < |u.tasks| ensures TaskOk(u, j) {
      assert TaskOk(s, j);
    }
  }

  /** The lock's holder moves to `t`; what else changes is covered by the conditions. */
  lemma HolderKeepsInv(s: State, i: nat, u: State)
    requires Inv(s) && i < |s.tasks| && (s.lock == Some(i) || s.lock.None?)
    requires u.now == s.now && |u.tasks| == |s.tasks| && (forall j :: 0 <= j < |s.tasks| && j != i ==> u.tasks[j] == s.tasks[j])
    requires u.lock == if InsideLock(u.tasks[i]) then Some(i) else None
    requires TaskOk(u, i) && OnlyFresh(u.history, u.current, u.now) && FailureStored(u.history, u.lastFailure, u.now) && Disciplined(u.history)
    requires u.tasks[i].Fetching? || Idle(u.history)
    ensures Inv(u)
  {
    hide OnlyFresh, FailuresOld, Idle, Disciplined, FailureStored;
    forall j | 0 <= j < |u.tasks| ensures TaskOk(u, j) {
      assert TaskOk(s, j);
    }
  }

  lemma TickKeepsInv(s: State, d: Millis)
    requires Inv(s)
    ensures Inv(After(s, Tick(d)))
  {
    hide OnlyFresh, FailuresOld, Idle, Disciplined;
    var u := After(s, Tick(d));
    Later(s.history, s.current, s.now, u.now);
    forall j | 0 <= j < |u.tasks| ensures TaskOk(u, j) {
      assert TaskOk(s, j);
      Later(s.history, None, s.now, u.now);
      if s.tasks[j].CheckExpiry2? { Later(s.history, s.tasks[j].snapshot, s.now, u.now); }
    }
  }

  lemma InvalidateKeepsInv(s: State)
    requires Inv(s)
    ensures Inv(After(s, Invalidate))
  {
    hide OnlyFresh, FailuresOld, Idle, Disciplined;
    var u := After(s, Invalidate);
    DisciplinedSnoc(s.history, Invalidated);
    IdleSnoc(s.history, Invalidated);
    OnlyFreshSnoc(s.history, Invalidated, None, s.now);
    forall j | 0 <= j < |u.tasks| ensures TaskOk(u, j) {
      assert TaskOk(s, j);
      FailuresOldSnoc(s.history, Invalidated, s.now);
      if s.tasks[j].CheckExpiry2? { OnlyFreshSnoc(s.history, Invalidated, s.tasks[j].snapshot, s.now); }
      if s.tasks[j].StoreFailure? { FailuresOldSnoc(s.history, Invalidated, s.tasks[j].at); }
    }
  }

  lemma GetKeepsInv(s: State)
    requires Inv(s)
    ensures Inv(After(s, Get))
  {
    hide OnlyFresh, FailuresOld, Idle, Disciplined, FailureStored;
    var u := After(s, Get);
    forall j | 0 <= j < |u.tasks| ensures TaskOk(u, j) {
      if j < |s.tasks| { assert TaskOk(s, j); }
    }
  }

  /** A live stored failure shields every recorded one. */
  lemma NoBackoffMeansOld(s: State)
    requires FailureStored(s.history, s.lastFailure, s.now) && !BacksOff(s.lastFailure, s.now)
    ensures FailuresOld(s.history, s.now)
  {
  }

  lemma StaleSnapshot(h: seq<Entry>, snapshot: Option<Config>, t: Millis)
    requires OnlyFresh(h, snapshot, t) && (snapshot.Some? ==> Expired(snapshot.value, t))
    ensures OnlyFresh(h, None, t)
  {
  }

  lemma StartKeepsInv(s: State, i: nat)
    requires Inv(s) && i < |s.tasks| && s.tasks[i].CheckBackoff2? && !BacksOff(s.tasks[i].failure, s.now)
    ensures Inv(Stepped(s, i))
  {
    assert TaskOk(s, i);
    NoBackoffMeansOld(s);
    hide OnlyFresh, FailuresOld, Idle, Disciplined;
    var e := FetchStarted(s.now);
    DisciplinedSnoc(s.history, e);
    OnlyFreshSnoc(s.history, e, None, s.now);
    OnlyFreshSnoc(s.history, e, s.current, s.now);
    FailuresOldSnoc(s.history, e, s.now);
    HolderKeepsInv(s, i, Stepped(s, i));
  }

  lemma StoreConfigKeepsInv(s: State, i: nat)
    requires Inv(s) && i < |s.tasks| && s.tasks[i].StoreConfig?
    ensures Inv(Stepped(s, i))
  {
    assert TaskOk(s, i);
    hide OnlyFresh, FailuresOld, Idle, Disciplined;
    var e := Succeeded(s.tasks[i].fetched);
    DisciplinedSnoc(s.history, e);
    OnlyFreshSnoc(s.history, e, None, s.now);
    FailuresOldSnoc(s.history, e, s.now);
    IdleSnoc(s.history, e);
    HolderKeepsInv(s, i, Stepped(s, i));
  }

  lemma ClearFailureKeepsInv(s: State, i: nat)
    requires Inv(s) && i < |s.tasks| && s.tasks[i].ClearFailure?
    ensures Inv(Stepped(s, i))
  {
    assert TaskOk(s, i);
    hide OnlyFresh, Idle, Disciplined;
    HolderKeepsInv(s, i, Stepped(s, i));
  }

  lemma StoreFailureKeepsInv(s: State, i: nat)
    requires Inv(s) && i < |s.tasks| && s.tasks[i].StoreFailure?
    ensures Inv(Stepped(s, i))
  {
    assert TaskOk(s, i);
    hide OnlyFresh, Idle, Disciplined;
    var e := FailureRecorded(s.tasks[i].at);
    DisciplinedSnoc(s.history, e);
    OnlyFreshSnoc(s.history, e, s.current, s.now);
    IdleSnoc(s.history, e);
    HolderKeepsInv(s, i, Stepped(s, i));
  }

  lemma LockedStepKeepsInv(s: State, i: nat)
    requires Inv(s) && Enabled(s, Step(i)) && (s.tasks[i].AwaitLock? || InsideLock(s.tasks[i]))
    ensures Inv(Stepped(s, i))
  {
    hide OnlyFresh, FailuresOld, Idle, Disciplined, FailureStored, Inv;
    HolderFacts(s, i);
    match s.tasks[i]
    case CheckExpiry2(snapshot) =>
      if snapshot.None? || Expired(snapshot.value, s.now) { StaleSnapshot(s.history, snapshot, s.now); }
      HolderKeepsInv(s, i, Stepped(s, i));
    case CheckBackoff2(failure) =>
      if BacksOff(failure, s.now) { HolderKeepsInv(s, i, Stepped(s, i)); } else { StartKeepsInv(s, i); }
    case StoreConfig(_, _) => StoreConfigKeepsInv(s, i);
    case ClearFailure(_, _) => ClearFailureKeepsInv(s, i);
    case StoreFailure(_) => StoreFailureKeepsInv(s, i);
    case AwaitLock => HolderKeepsInv(s, i, Stepped(s, i));
    case LoadCurrent2 => HolderKeepsInv(s, i, Stepped(s, i));
    case LoadFailure2 => HolderKeepsInv(s, i, Stepped(s, i));
    case FetchFailed => HolderKeepsInv(s, i, Stepped(s, i));
    case _ => assert false;
  }

  lemma HolderFacts(s: State, i: nat)
    requires Inv(s) && i < |s.tasks|
    ensures TaskOk(s, i) && OnlyFresh(s.history, s.current, s.now) && FailureStored(s.history, s.lastFailure, s.now) && Disciplined(s.history)
    ensures s.lock.None? ==> Idle(s.history)
  {
    hide OnlyFresh, FailuresOld, Idle, Disciplined, FailureStored;
  }

  /** The fetch ends, by an answer, an error or cancellation. */
  lemma FetchEndKeepsInv(s: State, i: nat, e: Event)
    requires Inv(s) && Enabled(s, e) && (e.Complete? || e.Cancel?) && e.i == i && s.tasks[i].Fetching?
    ensures Inv(After(s, e))
  {
    assert TaskOk(s, i);
    hide OnlyFresh, FailuresOld, Idle, Disciplined;
    DisciplinedSnoc(s.history, FetchEnded);
    OnlyFreshSnoc(s.history, FetchEnded, None, s.now);
    OnlyFreshSnoc(s.history, FetchEnded, s.current, s.now);
    FailuresOldSnoc(s.history, FetchEnded, s.now);
    IdleSnoc(s.history, FetchEnded);
    HolderKeepsInv(s, i, After(s, e));
  }

  lemma StepKeepsInv(s: State, e: Event)
    requires Inv(s) && Enabled(s, e)
    ensures Inv(After(s, e))
  {
    hide Inv, TaskOk;
    match e
    case Get => GetKeepsInv(s);
    case Invalidate => InvalidateKeepsInv(s);
    case Tick(d) => TickKeepsInv(s, d);
    case Complete(i, _) => FetchEndKeepsInv(s, i, e);
    case Cancel(i) =>
      if s.tasks[i].Fetching? { FetchEndKeepsInv(s, i, e); } else { OutsideKeepsInv(s, i, Cancelled); }
    case Step(i) =>
      if s.tasks[i].AwaitLock? || InsideLock(s.tasks[i]) {
        LockedStepKeepsInv(s, i);
      } else {
        OutsideKeepsInv(s, i, Stepped(s, i).tasks[i]);
      }
  }

  /** Every interleaving of calls, invalidations, cancellations and clock ticks keeps the invariant. */
  lemma {:induction false} InvHolds(now: Millis, events: seq<Event>)
    ensures Run(now, events).Some? ==> Inv(Run(now, events).value)
  {
    if events != [] && Run(now, events).Some? {
      hide Inv, After, Enabled;
      InvHolds(now, events[..|events| - 1]);
      StepKeepsInv(Run(now, events[..|events| - 1]).value, events[|events| - 1]);
    }
  }

  lemma ReachableInv(s: State)
    requires Reachable(s)
    ensures Inv(s)
  {
    hide Inv, Run;
    var now, events :| Run(now, events) == Some(s);
    InvHolds(now, events);
  }

  // ---- What the cache promises ----

  /** Two fetches never overlap: between two starts the first has ended, and only the lock's holder fetches. */
  lemma FetchesNeverOverlap(s: State, i: nat, j: nat)
    requires Reachable(s) && i < j < |s.history| && s.history[i].FetchStarted? && s.history[j].FetchStarted?
    ensures exists k :: i < k < j && s.history[k].FetchEnded?
    ensures forall a, b :: 0 <= a < |s.tasks| && 0 <= b < |s.tasks| && s.tasks[a].Fetching? && s.tasks[b].Fetching? ==> a == b
  {
    ReachableInv(s);
    hide Reachable, OnlyFresh, FailuresOld;
    var h := s.history[..j];
    assert MayFetch(h, s.history[j].at);
    assert h[i] == s.history[i] && EndsAfter(h, i);
    var k :| i < k < |h| && h[k].FetchEnded?;
    assert s.history[k].FetchEnded?;
    forall a | 0 <= a < |s.tasks| && s.tasks[a].Fetching? ensures s.lock == Some(a) { assert TaskOk(s, a); }
  }

  /** No fetch starts within 60 seconds of any failure recorded before it. */
  lemma BackoffIsKept(s: State, i: nat, j: nat)
    requires Reachable(s) && i < j < |s.history| && s.history[i].FailureRecorded? && s.history[j].FetchStarted?
    ensures s.history[j].at >= s.history[i].at + 60 * 1000
  {
    ReachableInv(s);
    hide Reachable, OnlyFresh, Idle, TaskOk;
    assert MayFetch(s.history[..j], s.history[j].at);
    assert s.history[..j][i] == s.history[i];
  }

  /** After a success no fetch starts until its config has expired or somebody has called `invalidate`. */
  lemma NoNeedlessRefetch(s: State, i: nat, j: nat)
    requires Reachable(s) && i < j < |s.history| && s.history[i].Succeeded? && s.history[j].FetchStarted?
    requires forall k :: i < k < j ==> !s.history[k].Invalidated?
    ensures s.history[j].at >= s.history[i].config.expiresAt
  {
    ReachableInv(s);
    hide Reachable, FailuresOld, Idle, TaskOk;
    var h := s.history[..j];
    assert MayFetch(h, s.history[j].at);
    assert h[i] == s.history[i] && Valid(h, i);
  }

  /** `get` never returns a config that was expired when its freshness was established. */
  lemma ReturnedIsFresh(s: State, i: nat)
    requires Reachable(s) && i < |s.tasks| && s.tasks[i].Returned?
    ensures s.tasks[i].checkedAt < s.tasks[i].config.expiresAt
  {
    ReachableInv(s);
    hide Reachable;
    assert TaskOk(s, i);
  }

  predicate Finished(t: Task) { t.Returned? || t.Failed? || t.Cancelled? }

  /** The lock is never lost: while some call is unfinished, some call can take a step. */
  lemma NoDeadlock(s: State, i: nat) returns (e: Event)
    requires Reachable(s) && i < |s.tasks| && !Finished(s.tasks[i])
    ensures Enabled(s, e) && (e.Step? || e.Complete?)
  {
    ReachableInv(s);
    hide Reachable;
    var j := if s.tasks[i].AwaitLock? && s.lock.Some? then s.lock.value else i;
    e := if s.tasks[j].Fetching? then Complete(j, None) else Step(j);
  }
}
