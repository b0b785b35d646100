/** controllers/sds: the retry schedule of certificate operations and the reconciles that keep to it. */
module CertificateBackoff {
  import opened Prelude

  // ---------------------------------------------------------------- the schedule

  /** Durations are nanoseconds; the multiplier is a real number, so NaN and infinities do not arise. */
  datatype RetryPolicy = RetryPolicy(baseDelay: int, maxDelay: int, multiplier: real)

  const SECOND := 1_000_000_000
  const MINUTE := 60 * SECOND
  const DEFAULT_BASE_DELAY := 10 * MINUTE
  const DEFAULT_MAX_DELAY := 168 * 60 * MINUTE
  const DEFAULT_MULTIPLIER := 2.0

  /** Replaces nonsensical values with the defaults. */
  function Normalize(p: RetryPolicy): RetryPolicy {
    var base := if p.baseDelay <= 0 then DEFAULT_BASE_DELAY else p.baseDelay;
    var max := if p.maxDelay <= 0 then DEFAULT_MAX_DELAY else p.maxDelay;
    var mult := if p.multiplier < 1.0 then DEFAULT_MULTIPLIER else p.multiplier;
    RetryPolicy(base, if max < base then base else max, mult)
  }

  /** A policy that makes sense as it is. */
  predicate Sensible(p: RetryPolicy) {
    0 < p.baseDelay <= p.maxDelay && p.multiplier >= 1.0
  }

  /**
   * A sensible policy is used as it is, and every policy comes out sensible: nonsense gives way to ten
   * minutes, a week and doubling, and a cap below the base delay to the base delay.
   */
  lemma NormalizeIs(p: RetryPolicy)
    ensures Sensible(Normalize(p)) && (Sensible(p) ==> Normalize(p) == p)
    ensures p.baseDelay <= 0 ==> Normalize(p) == Normalize(p.(baseDelay := 600_000_000_000))
    ensures p.maxDelay <= 0 ==> Normalize(p) == Normalize(p.(maxDelay := 604_800_000_000_000))
    ensures p.multiplier < 1.0 ==> Normalize(p) == Normalize(p.(multiplier := 2.0))
    ensures 0 < p.maxDelay < p.baseDelay ==> Normalize(p) == Normalize(p.(maxDelay := p.baseDelay))
  {
  }

  function Pow(x: real, k: nat): real {
    if k == 0 then 1.0 else x * Pow(x, k - 1)
  }

  function Uncapped(p: RetryPolicy, k: nat): real {
    (p.baseDelay as real) * Pow(p.multiplier, k)
  }

  /** How long a retry waits after so many failures in a row. */
  function DelayFor(policy: RetryPolicy, failureCount: int): int {
    var p := Normalize(policy);
    if failureCount <= 1 then p.baseDelay
    else
      var delay := Uncapped(p, failureCount - 1);
      if delay >= p.maxDelay as real then p.maxDelay else delay.Floor
  }

  lemma {:induction false} PowGrows(x: real, a: nat, b: nat)
    requires x >= 1.0 && a <= b
    ensures 1.0 <= Pow(x, a) <= Pow(x, b)
    decreases b
  {
    if b > 0 {
      if a == b {
        PowGrows(x, a - 1, b - 1);
        MulAtLeast(x, Pow(x, b - 1));
      } else {
        PowGrows(x, a, b - 1);
        MulAtLeast(x, Pow(x, b - 1));
      }
    }
  }

  lemma MulAtLeast(x: real, y: real)
    requires x >= 1.0 && y >= 1.0
    ensures x * y >= y >= 1.0
  {
    assert (x - 1.0) * y >= 0.0;
  }

  lemma MulMonotone(c: real, x: real, y: real)
    requires c >= 0.0 && x <= y
    ensures c * x <= c * y
  {
    assert c * (y - x) >= 0.0;
  }

  /** The uncapped delay is at least the base and grows with the failure count. */
  lemma GrowthMonotone(p: RetryPolicy, a: int, b: int)
    requires p.multiplier >= 1.0 && p.baseDelay > 0 && 0 <= a <= b
    ensures p.baseDelay as real <= Uncapped(p, a) <= Uncapped(p, b)
  {
    PowGrows(p.multiplier, a, b);
    MulMonotone(p.baseDelay as real, 1.0, Pow(p.multiplier, a));
    MulMonotone(p.baseDelay as real, Pow(p.multiplier, a), Pow(p.multiplier, b));
  }

  /** Rounding down keeps an integer lower bound and a real upper bound. */
  lemma FloorBetween(low: int, x: real, y: real, high: int)
    requires low as real <= x <= y && y <= high as real
    ensures low <= x.Floor <= y.Floor <= high
  {
    assert low < x.Floor + 1;
    assert x.Floor < y.Floor + 1;
    assert y.Floor as real <= high as real;
  }

  /** Delays stay between the base delay and the cap, and never shrink as failures add up. */
  lemma DelayGrowsWithinBounds(policy: RetryPolicy, a: int, b: int)
    requires a <= b
    ensures Normalize(policy).baseDelay <= DelayFor(policy, a) <= DelayFor(policy, b) <= Normalize(policy).maxDelay
  {
    hide Uncapped;
    var p := Normalize(policy);
    if b > 1 {
      var low := if a > 1 then a - 1 else 0;
      GrowthMonotone(p, low, b - 1);
      var x, y := Uncapped(p, low), Uncapped(p, b - 1);
      if y < p.maxDelay as real {
        FloorBetween(p.baseDelay, x, y, p.maxDelay);
      } else if x < p.maxDelay as real {
        FloorBetween(p.baseDelay, x, x, p.maxDelay);
      }
    }
  }

  function Capped(max: int, x: real): int {
    if x >= max as real then max else x.Floor
  }

  lemma DelayIsCapped(policy: RetryPolicy, k: int)
    requires k >= 1
    ensures DelayFor(policy, k) == Capped(Normalize(policy).maxDelay, Uncapped(Normalize(policy), k - 1))
  {
    hide Pow;
    BaseUncapped(Normalize(policy));
  }

  lemma BaseUncapped(p: RetryPolicy)
    ensures Uncapped(p, 0) == p.baseDelay as real
  {
  }

  lemma NextUncapped(p: RetryPolicy, k: nat)
    requires k >= 1
    ensures Uncapped(p, k) == Times(p.multiplier, Uncapped(p, k - 1))
  {
  }

  lemma FloorBelow(x: real)
    ensures x - 1.0 < x.Floor as real <= x
  {
  }

  function Times(m: real, x: real): real {
    m * x
  }

  /** Multiplying keeps a number of less than one unit above y less than one multiple above it. */
  lemma TimesWithin(m: real, x: real, y: real)
    requires m >= 1.0 && y <= x < y + 1.0
    ensures Times(m, y) <= Times(m, x) < Times(m, y) + m
  {
    MulMonotone(m, y, x);
    TimesStrict(m, x, y + 1.0);
    TimesNext(m, y);
    hide Times;
    assert Times(m, x) < Times(m, y + 1.0);
  }

  lemma TimesStrict(m: real, x: real, y: real)
    requires m > 0.0 && x < y
    ensures Times(m, x) < Times(m, y)
  {
    assert m * (y - x) > 0.0;
  }

  lemma TimesNext(m: real, y: real)
    ensures Times(m, y + 1.0) == Times(m, y) + m
  {
  }

  lemma TimesAtLeast(m: real, x: real)
    requires m >= 1.0 && x >= 1.0
    ensures Times(m, x) >= x
  {
    MulAtLeast(m, x);
  }

  /** Is one wait m times the other, up to the cap and up to the nanoseconds rounding takes away? */
  predicate Scaled(m: real, max: int, now: int, next: int) {
    && (Times(m, now as real) >= max as real ==> next == max)
    && (next < max ==> Times(m, now as real) - 1.0 < next as real < Times(m, now as real) + m)
  }

  /** Scaling before or after rounding down. */
  lemma CappedScales(max: int, m: real, x: real)
    requires m >= 1.0 && x >= 1.0
    ensures Scaled(m, max, Capped(max, x), Capped(max, Times(m, x)))
  {
    hide Times;
    FloorBelow(Times(m, x));
    TimesAtLeast(m, x);
    if x < max as real {
      FloorBelow(x);
      TimesWithin(m, x, x.Floor as real);
    }
  }

  /**
   * The first retry waits the base delay. Each further failure multiplies the wait, up to the cap and up
   * to the nanoseconds rounding takes away.
   */
  lemma DelayScales(policy: RetryPolicy, k: int)
    ensures k <= 1 ==> DelayFor(policy, k) == Normalize(policy).baseDelay
    ensures k >= 1 ==>
      Scaled(Normalize(policy).multiplier, Normalize(policy).maxDelay, DelayFor(policy, k), DelayFor(policy, k + 1))
  {
    if k <= 1 {
      FirstDelay(policy, k);
    }
    if k >= 1 {
      var p := Normalize(policy);
      DelayIsCapped(policy, k);
      DelayIsCapped(policy, k + 1);
      NextUncapped(p, k);
      GrowthMonotone(p, k - 1, k);
      hide DelayFor, Uncapped, Capped, Scaled, Times;
      CappedScales(p.maxDelay, p.multiplier, Uncapped(p, k - 1));
    }
  }

  lemma FirstDelay(policy: RetryPolicy, k: int)
    requires k <= 1
    ensures DelayFor(policy, k) == Normalize(policy).baseDelay
  {
  }

  lemma CappedWhole(max: int, m: int, x: int)
    requires m >= 1 && x >= 0 && max > 0
    ensures Capped(max, (m * x) as real) == MinOf(m * Capped(max, x as real), max)
  {
    if x >= max {
      assert (m - 1) * x >= 0 && (m - 1) * max >= 0;
    }
  }

  /** With a whole multiplier there is no rounding: the wait is multiplied exactly, until it reaches the cap. */
  lemma DelayMultiplies(policy: RetryPolicy, m: int, k: int)
    requires Normalize(policy).multiplier == m as real && k >= 1
    ensures DelayFor(policy, k + 1) == MinOf(m * DelayFor(policy, k), Normalize(policy).maxDelay)
  {
    var p := Normalize(policy);
    var x := WholeUncapped(p, m, k - 1);
    WholeNext(p, m, k, x);
    DelayIsCapped(policy, k);
    DelayIsCapped(policy, k + 1);
    hide Uncapped, Capped, DelayFor;
    CappedWhole(p.maxDelay, m, x);
  }

  lemma WholeNext(p: RetryPolicy, m: int, k: nat, x: int)
    requires k >= 1 && p.multiplier == m as real && Uncapped(p, k - 1) == x as real
    ensures Uncapped(p, k) == (m * x) as real
  {
    NextUncapped(p, k);
    hide Uncapped;
    WholeProduct(m, x);
  }

  lemma WholeProduct(m: int, x: int)
    ensures (m as real) * (x as real) == (m * x) as real
  {
  }

  function MinOf(a: int, b: int): int {
    if a < b then a else b
  }

  lemma {:induction false} WholeUncapped(p: RetryPolicy, m: nat, k: nat) returns (x: nat)
    requires p.multiplier == m as real && p.baseDelay > 0
    ensures Uncapped(p, k) == x as real
    decreases k
  {
    if k == 0 {
      BaseUncapped(p);
      x := p.baseDelay;
    } else {
      var y := WholeUncapped(p, m, k - 1);
      WholeNext(p, m, k, y);
      x := m * y;
    }
  }

  /** Without settings the schedule is ten minutes, doubled with every failure, up to a week. */
  lemma DefaultSchedule(k: nat)
    requires k >= 1
    ensures var unset := RetryPolicy(0, 0, 0.0);
      && DelayFor(unset, 1) == 600_000_000_000
      && DelayFor(unset, k + 1) == MinOf(2 * DelayFor(unset, k), 604_800_000_000_000)
  {
    DelayMultiplies(RetryPolicy(0, 0, 0.0), 2, k);
  }

  // ---------------------------------------------------------------- the persisted state

  /** The part of the status that retries turn on; `request` is "" when no force-renew value is recorded. */
  datatype Status = Status(
    failureCount: nat, backoffUntil: Option<int>, request: string, certificate: Option<string>, paused: bool, message: string)

  /** A TLSSecret as stored: its status and the pause and force-renew annotations, if present. */
  datatype Object = Object(status: Status, pause: Option<string>, forceRenew: Option<string>)

  /** strconv.ParseBool. */
  function ParseBool(v: string): Option<bool> {
    if v in ["1", "t", "T", "true", "TRUE", "True"] then Some(true)
    else if v in ["0", "f", "F", "false", "FALSE", "False"] then Some(false)
    else None
  }

  predicate FlagSet(value: Option<string>) {
    value.Some? && (value.value == "" || (var b := ParseBool(value.value); b.None? || b.value))
  }

  /** An annotation is on when present, unless it spells a false boolean. */
  lemma FlagSetIff(value: Option<string>)
    ensures !FlagSet(value) <==>
      value.None? || exists off :: off in ["0", "f", "F", "false", "FALSE", "False"] && value == Some(off)
  {
    if FlagSet(value) {
      assert value.value !in ["0", "f", "F", "false", "FALSE", "False"];
    }
  }

  /** The request a force-renew annotation stands for; present but empty counts as "true". */
  function RequestOf(t: Object): string {
    if !FlagSet(t.forceRenew) then "" else if t.forceRenew.value == "" then "true" else t.forceRenew.value
  }

  /** No two values that are on stand for one request, but an empty one and "true"; none stands for "no request". */
  lemma RequestsDiffer(t: Object, u: Object)
    ensures RequestOf(t) == "" <==> !FlagSet(t.forceRenew)
    ensures FlagSet(t.forceRenew) && FlagSet(u.forceRenew) ==>
      (RequestOf(t) == RequestOf(u) <==>
        t.forceRenew == u.forceRenew || {t.forceRenew.value, u.forceRenew.value} == {"", "true"})
  {
    if FlagSet(t.forceRenew) && FlagSet(u.forceRenew) {
      var a, b := t.forceRenew.value, u.forceRenew.value;
      if {a, b} == {"", "true"} {
        assert "" in {a, b} && "true" in {a, b};
        assert a in {"", "true"} && b in {"", "true"};
      }
      assert {"", "true"} == {"true", ""};
    }
  }

  /** Is there a force-renew value that has not been acted on? */
  predicate FreshRequest(t: Object) {
    FlagSet(t.forceRenew) && RequestOf(t) != t.status.request
  }

  predicate InBackoff(status: Status, now: int) {
    status.backoffUntil.Some? && now < status.backoffUntil.value
  }

  /** Instants are stored in whole seconds. */
  function Persisted(instant: int): int {
    instant / SECOND * SECOND
  }

  lemma PersistedWithinSecond(instant: int)
    ensures instant - 1_000_000_000 < Persisted(instant) <= instant && Persisted(instant) % 1_000_000_000 == 0
  {
    assert instant == instant / SECOND * SECOND + instant % SECOND;
  }

  /** What a reconcile wants written. */
  datatype StatusPatch = StatusPatch(
    message: string, failureCount: nat, backoffUntil: Option<int>, certificate: Option<string>, request: string,
    paused: bool, preserveExisting: bool, preserveBackoff: bool)

  /** The status with a patch applied. */
  function Patched(was: Status, p: StatusPatch): Status {
    var next := Status(p.failureCount, p.backoffUntil, p.request, p.certificate, p.paused, p.message);
    var kept := if p.preserveExisting && p.certificate.None? then next.(certificate := was.certificate) else next;
    if p.preserveBackoff then
      kept.(failureCount := was.failureCount, backoffUntil := was.backoffUntil, request := was.request)
    else kept
  }

  /** A write that would move only the backoff instant is skipped unless the status is stale. */
  function Written(was: Status, p: StatusPatch, stale: bool): Status {
    var next := Patched(was, p);
    if stale || was.(backoffUntil := None) != next.(backoffUntil := None) then next else was
  }

  // ---------------------------------------------------------------- one reconcile

  /** What asking for the certificate came to. */
  datatype Outcome = WaitForLeader | Failed(error: string) | Issued(fingerprint: Option<string>)

  /** A reconcile: the time, the policy in force, what asking would come to, and how its writes fare. */
  datatype Attempt = Attempt(now: int, policy: RetryPolicy, outcome: Outcome, stale: bool, clearable: bool)

  /** Does the reconcile ask for the certificate? */
  predicate Asks(t: Object, now: int) {
    !FlagSet(t.pause) && (InBackoff(t.status, now) ==> FreshRequest(t))
  }

  /** Is a different certificate in place now? */
  predicate CertificateChanged(was: Option<string>, current: Option<string>) {
    current.Some? && was != current
  }

  /** Has the request been served, by this certificate or by an earlier reconcile that recorded it? */
  predicate Served(t: Object, fingerprint: Option<string>) {
    FlagSet(t.forceRenew) &&
    (CertificateChanged(t.status.certificate, fingerprint) || RequestOf(t) == t.status.request)
  }

  const PAUSED := StatusPatch("Paused by envoyxds.io/pause annotation", 0, None, None, "", true, true, true)

  function AfterFailure(t: Object, e: Attempt): Object
    requires e.outcome.Failed?
  {
    var k := t.status.failureCount + 1;
    var patch := StatusPatch(e.outcome.error, k, Some(Persisted(e.now + DelayFor(e.policy, k))), None, RequestOf(t), false, true, false);
    t.(status := Written(t.status, patch, e.stale))
  }

  function AfterSuccess(t: Object, e: Attempt): Object
    requires e.outcome.Issued?
  {
    var served := Served(t, e.outcome.fingerprint);
    var cleared := served && e.clearable;
    var request :=
      if cleared then ""
      else if FlagSet(t.forceRenew) && !served then t.status.request
      else RequestOf(t);
    var patch := StatusPatch("", 0, None, e.outcome.fingerprint, request, false, false, false);
    Object(Written(t.status, patch, e.stale), t.pause, if cleared then None else t.forceRenew)
  }

  function Reconciled(t: Object, e: Attempt): Object {
    if FlagSet(t.pause) then t.(status := Written(t.status, PAUSED, e.stale))
    else if !Asks(t, e.now) then t
    else
      match e.outcome
      case WaitForLeader => t
      case Failed(_) => AfterFailure(t, e)
      case Issued(_) => AfterSuccess(t, e)
  }

  /** The TLSSecret and the reconcile that updates it. */
  class TLSSecret {
    var status: Status
    var pause: Option<string>
    var forceRenew: Option<string>

    constructor (t: Object)
      ensures Value() == t
    {
      status, pause, forceRenew := t.status, t.pause, t.forceRenew;
    }

    function Value(): Object
      reads this
    {
      Object(status, pause, forceRenew)
    }

    method UpdateStatus(patch: StatusPatch, stale: bool)
      modifies this`status
      ensures status == Written(old(status), patch, stale)
    {
      var certificate := patch.certificate;
      if patch.preserveExisting && certificate == None {
        certificate := status.certificate;
      }
      var failureCount, backoffUntil, request := patch.failureCount, patch.backoffUntil, patch.request;
      if patch.preserveBackoff {
        failureCount, backoffUntil, request := status.failureCount, status.backoffUntil, status.request;
      }
      var next := Status(failureCount, backoffUntil, request, certificate, patch.paused, patch.message);
      if stale || status.(backoffUntil := None) != next.(backoffUntil := None) {
        status := next;
      }
    }

    /**
     * One reconcile. The certificate is asked for exactly when `asked` says so, and a failure's retry
     * is scheduled no earlier than the backoff it recorded allows.
     */
    method Reconcile(e: Attempt) returns (asked: bool, retryIn: Option<int>)
      modifies this
      ensures Value() == Reconciled(old(Value()), e)
      ensures asked <==> Asks(old(Value()), e.now)
      ensures asked && e.outcome.Failed? ==> retryIn == Some(DelayFor(e.policy, old(status.failureCount) + 1))
      ensures !asked && retryIn.Some? ==> status.backoffUntil == Some(e.now + retryIn.value) && retryIn.value > 0
    {
      asked, retryIn := false, None;
      if FlagSet(pause) {
        UpdateStatus(PAUSED, e.stale);
        return;
      }
      var wanted := FlagSet(forceRenew);
      var request := RequestOf(Value());
      var unseen := wanted && request != status.request;
      if status.backoffUntil.Some? && e.now < status.backoffUntil.value && !unseen {
        retryIn := Some(status.backoffUntil.value - e.now);
        return;
      }
      asked := true;
      match e.outcome
      case WaitForLeader =>
      case Failed(error) =>
        var failureCount := status.failureCount + 1;
        var delay := DelayFor(e.policy, failureCount);
        UpdateStatus(StatusPatch(error, failureCount, Some(Persisted(e.now + delay)), None, request, false, true, false), e.stale);
        retryIn := Some(delay);
      case Issued(fingerprint) =>
        var servedNow := unseen && CertificateChanged(status.certificate, fingerprint);
        var alreadyServed := wanted && request == status.request;
        var served := servedNow || alreadyServed;
        if wanted && served && e.clearable {
          forceRenew := None;
          request := "";
        }
        if wanted && !served {
          request := status.request;
        }
        UpdateStatus(StatusPatch("", 0, None, fingerprint, request, false, false, false), e.stale);
    }
  }

  // ---------------------------------------------------------------- runs

  datatype Event =
    | Reconcile(e: Attempt)
    | Pause(value: Option<string>)
    | Annotate(forceRenew: Option<string>)
    | Restart

  function Apply(t: Object, e: Event): Object {
    match e
    case Reconcile(a) => Reconciled(t, a)
    case Pause(v) => t.(pause := v)
    case Annotate(v) => t.(forceRenew := v)
    case Restart => t
  }

  function ApplyAll(t: Object, run: seq<Event>): Object
    decreases |run|
  {
    if run == [] then t else ApplyAll(Apply(t, run[0]), run[1..])
  }

  /** The reconciles of the run all come before the time, and no new force-renew value appears in it. */
  predicate QuietBefore(t: Object, run: seq<Event>, until: int)
    decreases |run|
  {
    && !FreshRequest(t)
    && (run == [] ||
        ((run[0].Reconcile? ==> run[0].e.now < until) && QuietBefore(Apply(t, run[0]), run[1..], until)))
  }

  predicate NeverAsks(t: Object, run: seq<Event>)
    decreases |run|
  {
    run == [] || ((run[0].Reconcile? ==> !Asks(t, run[0].e.now)) && NeverAsks(Apply(t, run[0]), run[1..]))
  }

  lemma {:induction false} BackoffKept(t: Object, run: seq<Event>, until: int)
    requires t.status.backoffUntil == Some(until) && QuietBefore(t, run, until)
    ensures NeverAsks(t, run)
    ensures
      var after := ApplyAll(t, run).status;
      (after.failureCount, after.backoffUntil, after.request, after.certificate)
      == (t.status.failureCount, t.status.backoffUntil, t.status.request, t.status.certificate)
    decreases |run|
  {
    if run != [] {
      BackoffKept(Apply(t, run[0]), run[1..], until);
    }
  }

  /** Failures since the last certificate was issued. */
  function Streak(t: Object, run: seq<Event>, so: nat): nat
    decreases |run|
  {
    if run == [] then so
    else
      Streak(Apply(t, run[0]), run[1..], StreakAfter(t, run[0], so))
  }

  function StreakAfter(t: Object, e: Event, so: nat): nat {
    if e.Reconcile? && Asks(t, e.e.now) && e.e.outcome.Failed? then so + 1
    else if e.Reconcile? && Asks(t, e.e.now) && e.e.outcome.Issued? then 0
    else so
  }

  /** A count of zero goes with no backoff: then a skipped status write loses nothing. */
  predicate Settled(t: Object) {
    t.status.failureCount == 0 ==> t.status.backoffUntil.None?
  }

  lemma StepCounts(t: Object, e: Event)
    requires Settled(t)
    ensures Apply(t, e).status.failureCount == StreakAfter(t, e, t.status.failureCount)
    ensures Settled(Apply(t, e))
  {
  }

  lemma {:induction false} CountIsStreak(t: Object, run: seq<Event>)
    requires Settled(t)
    ensures ApplyAll(t, run).status.failureCount == Streak(t, run, t.status.failureCount)
    ensures Settled(ApplyAll(t, run))
    decreases |run|
  {
    hide Apply, StreakAfter, Settled;
    if run != [] {
      StepCounts(t, run[0]);
      CountIsStreak(Apply(t, run[0]), run[1..]);
    }
  }

  /**
   * After the k-th failure in a row no certificate is asked for until DelayFor(k) has passed, short of
   * the second that storing the instant cuts off, whatever watch events, restarts and pauses come,
   * unless a new force-renew value does.
   */
  lemma BackoffAfterKthFailure(start: Object, before: seq<Event>, e: Attempt, after: seq<Event>)
    requires Settled(start) && start.status.failureCount == 0
    requires e.outcome.Failed? && Asks(ApplyAll(start, before), e.now)
    requires
      var failed := Reconciled(ApplyAll(start, before), e);
      QuietBefore(failed, after, Persisted(e.now + DelayFor(e.policy, Streak(start, before, 0) + 1)))
    ensures NeverAsks(Reconciled(ApplyAll(start, before), e), after)
    ensures var delay := DelayFor(e.policy, Streak(start, before, 0) + 1);
      delay - 1_000_000_000 < Persisted(e.now + delay) - e.now <= delay
  {
    CountIsStreak(start, before);
    var failed := Reconciled(ApplyAll(start, before), e);
    var until := e.now + DelayFor(e.policy, Streak(start, before, 0) + 1);
    BackoffKept(failed, after, Persisted(until));
    PersistedWithinSecond(until);
  }

  /**
   * An issuing reconcile removes a force-renew annotation exactly when the patch lands and either the
   * certificate changed or the request was already recorded, which a failed attempt does too.
   */
  lemma AnnotationClearedIff(t: Object, e: Attempt)
    requires e.outcome.Issued? && Asks(t, e.now) && FlagSet(t.forceRenew)
    ensures Reconciled(t, e).forceRenew.None? <==>
      && e.clearable
      && ((e.outcome.fingerprint.Some? && e.outcome.fingerprint != t.status.certificate) || RequestOf(t) == t.status.request)
  {
  }

  /** Does a reconcile of the run issue a certificate other than the one served before it? */
  predicate Renews(t: Object, run: seq<Event>)
    decreases |run|
  {
    run != [] &&
    (var e := run[0];
     (e.Reconcile? && Asks(t, e.e.now) && e.e.outcome.Issued?
      && e.e.outcome.fingerprint.Some? && e.e.outcome.fingerprint != t.status.certificate)
     || Renews(Apply(t, e), run[1..]))
  }

  /** Does an attempt of the run fail? */
  predicate Fails(t: Object, run: seq<Event>)
    decreases |run|
  {
    run != [] &&
    ((run[0].Reconcile? && Asks(t, run[0].e.now) && run[0].e.outcome.Failed?) || Fails(Apply(t, run[0]), run[1..]))
  }

  lemma FreshUntilServed(t: Object, e: Event)
    requires FreshRequest(t) && !e.Annotate? && !Renews(t, [e]) && !Fails(t, [e])
    ensures FreshRequest(Apply(t, e)) && Apply(t, e).forceRenew == t.forceRenew
  {
  }

  /**
   * Over any run that leaves the annotation alone: when the controller has removed it, a different
   * certificate was issued since the request came, or an attempt failed meanwhile.
   */
  lemma {:induction false} RemovedMeansRenewedOrFailed(t: Object, run: seq<Event>)
    requires FreshRequest(t) && forall e :: e in run ==> !e.Annotate?
    requires ApplyAll(t, run).forceRenew.None?
    ensures Renews(t, run) || Fails(t, run)
    decreases |run|
  {
    hide Apply, Asks, FreshRequest, CertificateChanged;
    if run == [] {
      FreshIsOn(t);
    } else if !Renews(t, run) && !Fails(t, run) {
      assert run[0] in run;
      var e := run[0];
      assert !Renews(t, [e]) && !Fails(t, [e]) by { assert [e][1..] == []; }
      FreshUntilServed(t, e);
      RemovedMeansRenewedOrFailed(Apply(t, e), run[1..]);
    }
  }

  lemma FreshIsOn(t: Object)
    requires FreshRequest(t)
    ensures t.forceRenew.Some?
  {
  }

  /** So the annotation can go although no new certificate was ever issued for it. */
  lemma ClearedWithoutNewCertificate(now: int, policy: RetryPolicy)
    ensures
      var t := Object(Status(0, None, "", Some("old"), false, ""), None, Some("now"));
      var failed := Reconciled(t, Attempt(now, policy, Failed("rate limited"), false, true));
      var retried := Reconciled(failed, Attempt(now + DelayFor(policy, 1), policy, Issued(Some("old")), false, true));
      retried.forceRenew.None? && retried.status.certificate == t.status.certificate
  {
  }
}
