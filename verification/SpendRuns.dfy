/** The spend guard under concurrency (swifty_inference/policy.py, swifty_inference/client.py). */
module SpendRuns {
  // Every lock section of the guard is one event, so a run is any interleaving of the
  // sections that any number of `complete` calls perform. A call reserves its estimate,
  // then either leaves before the `try` (nothing gives the reservation back), or refunds
  // it, or releases it and, in a separate lock section, records the true cost.

  datatype Phase =
    | Idle
    | Holding(est: real)      // reserved, still calling providers
    | Owing(actual: real)     // released, the true cost not yet recorded
    | Stranded(est: real)     // raised between `reserve` and the `try`
    | Settled(paid: real)     // finished: refused, refunded, or recorded

  datatype State = State(spent: real, kill: bool, calls: seq<Phase>)

  datatype Event =
    | Reserve(c: nat, est: real)
    | Strand(c: nat)
    | Refund(c: nat)
    | Release(c: nat, actual: real)
    | Record(c: nat)
    | SetKillSwitch(on: bool)

  function Idles(n: nat): seq<Phase> { seq(n, _ => Idle) }

  function Start(spent: real, kill: bool, n: nat): State { State(spent, kill, Idles(n)) }

  predicate Enabled(s: State, e: Event) {
    match e
    case Reserve(c, est) => c < |s.calls| && s.calls[c].Idle?
    case Strand(c) => c < |s.calls| && s.calls[c].Holding?
    case Refund(c) => c < |s.calls| && s.calls[c].Holding?
    case Release(c, actual) => c < |s.calls| && s.calls[c].Holding?
    case Record(c) => c < |s.calls| && s.calls[c].Owing?
    case SetKillSwitch(on) => true
  }

  function Floored(x: real): real { if x < 0.0 then 0.0 else x }

  function Granted(cap: real, s: State, est: real): bool {
    !s.kill && s.spent + est <= cap
  }

  function Apply(cap: real, s: State, e: Event): State
    requires Enabled(s, e)
  {
    match e
    case Reserve(c, est) =>
      if Granted(cap, s, est) then s.(spent := s.spent + est, calls := s.calls[c := Holding(est)])
      else s.(calls := s.calls[c := Settled(0.0)])
    case Strand(c) => s.(calls := s.calls[c := Stranded(s.calls[c].est)])
    case Refund(c) => s.(spent := Floored(s.spent - s.calls[c].est), calls := s.calls[c := Settled(0.0)])
    case Release(c, actual) => s.(spent := Floored(s.spent - s.calls[c].est), calls := s.calls[c := Owing(actual)])
    case Record(c) => s.(spent := s.spent + s.calls[c].actual, calls := s.calls[c := Settled(s.calls[c].actual)])
    case SetKillSwitch(on) => s.(kill := on)
  }

  ghost predicate Valid(cap: real, s: State, run: seq<Event>)
    decreases |run|
  {
    run == [] || (Enabled(s, run[0]) && Valid(cap, Apply(cap, s, run[0]), run[1..]))
  }

  ghost function After(cap: real, s: State, run: seq<Event>): State
    requires Valid(cap, s, run)
    decreases |run|
  {
    if run == [] then s else After(cap, Apply(cap, s, run[0]), run[1..])
  }

  // ---- Sums over the calls.

  function Sum(calls: seq<Phase>, f: Phase -> real): real {
    if calls == [] then 0.0 else f(calls[0]) + Sum(calls[1..], f)
  }

  lemma {:induction false} SumUpdate(calls: seq<Phase>, c: nat, p: Phase, f: Phase -> real)
    requires c < |calls|
    ensures Sum(calls[c := p], f) == Sum(calls, f) - f(calls[c]) + f(p)
  {
    if c == 0 {
      assert calls[0 := p][1..] == calls[1..];
    } else {
      assert calls[c := p][1..] == calls[1..][c - 1 := p];
      SumUpdate(calls[1..], c - 1, p, f);
    }
  }

  lemma {:induction false} SumAtLeast(calls: seq<Phase>, f: Phase -> real, c: nat)
    requires c < |calls|
    requires forall i | 0 <= i < |calls| :: f(calls[i]) >= 0.0
    ensures Sum(calls, f) >= f(calls[c])
  {
    if c == 0 {
      if |calls| > 1 { SumAtLeast(calls[1..], f, 0); }
    } else {
      SumAtLeast(calls[1..], f, c - 1);
    }
  }

  lemma {:induction false} SumIdle(n: nat, f: Phase -> real)
    requires f(Idle) == 0.0
    ensures Sum(Idles(n), f) == 0.0
  {
    if n > 0 {
      assert Idles(n)[1..] == Idles(n - 1);
      SumIdle(n - 1, f);
    }
  }

  /** What a call has on the ledger. */
  const CHARGE: Phase -> real := (p: Phase) =>
    match p
    case Holding(est) => est
    case Stranded(est) => est
    case Settled(paid) => paid
    case _ => 0.0

  /** What a call will still add: between its release and its record. */
  const PENDING: Phase -> real := (p: Phase) => if p.Owing? then p.actual else 0.0

  predicate NonNegative(e: Event) {
    match e
    case Reserve(_, est) => est >= 0.0
    case Release(_, actual) => actual >= 0.0
    case _ => true
  }

  predicate PhaseNonNegative(p: Phase) {
    match p
    case Holding(est) => est >= 0.0
    case Owing(actual) => actual >= 0.0
    case Stranded(est) => est >= 0.0
    case Settled(paid) => paid >= 0.0
    case Idle => true
  }

  // ---- The ledger.

  ghost predicate Ledger(initial: real, s: State) {
    && initial >= 0.0
    && (forall i | 0 <= i < |s.calls| :: PhaseNonNegative(s.calls[i]))
    && s.spent == initial + Sum(s.calls, CHARGE)
  }

  lemma LedgerStep(cap: real, initial: real, s: State, e: Event)
    requires Ledger(initial, s) && Enabled(s, e) && NonNegative(e)
    ensures Ledger(initial, Apply(cap, s, e))
    ensures e.Refund? || e.Release? ==> s.spent - s.calls[e.c].est >= initial
  {
    if !e.SetKillSwitch? {
      SumUpdate(s.calls, e.c, Apply(cap, s, e).calls[e.c], CHARGE);
      SumAtLeast(s.calls, CHARGE, e.c);
    }
  }

  /**
   In every interleaving, spent is the initial amount, plus the reservations nobody gave
   back, plus the recorded costs.
   */
  lemma {:induction false} LedgerHolds(cap: real, initial: real, s: State, run: seq<Event>)
    requires Ledger(initial, s) && Valid(cap, s, run)
    requires forall e | e in run :: NonNegative(e)
    ensures Ledger(initial, After(cap, s, run))
    decreases |run|
  {
    if run != [] {
      LedgerStep(cap, initial, s, run[0]);
      LedgerHolds(cap, initial, Apply(cap, s, run[0]), run[1..]);
    }
  }

  lemma StartLedger(spent: real, kill: bool, n: nat)
    requires spent >= 0.0
    ensures Ledger(spent, Start(spent, kill, n))
  {
    SumIdle(n, CHARGE);
  }

  /** The floor of `release` never bites: after any run, giving a reservation back subtracts exactly it. */
  lemma FloorNeverBites(cap: real, spent: real, kill: bool, n: nat, run: seq<Event>, e: Event)
    requires spent >= 0.0 && Valid(cap, Start(spent, kill, n), run)
    requires forall d | d in run :: NonNegative(d)
    ensures var s := After(cap, Start(spent, kill, n), run);
            Enabled(s, e) && (e.Refund? || e.Release?) ==> Apply(cap, s, e).spent == s.spent - s.calls[e.c].est
  {
    StartLedger(spent, kill, n);
    LedgerHolds(cap, spent, Start(spent, kill, n), run);
    var s := After(cap, Start(spent, kill, n), run);
    if Enabled(s, e) && (e.Refund? || e.Release?) {
      LedgerStep(cap, spent, s, Refund(e.c));
    }
  }

  // ---- The cap.

  /** The number of calls between their reservation and their settlement. */
  function InFlight(calls: seq<Phase>): (n: nat)
    ensures n <= |calls|
  {
    if calls == [] then 0
    else (if calls[0].Holding? || calls[0].Owing? then 1 else 0) + InFlight(calls[1..])
  }

  lemma {:induction false} ReserveAddsOne(calls: seq<Phase>, c: nat, est: real)
    requires c < |calls| && calls[c].Idle?
    ensures InFlight(calls[c := Holding(est)]) == InFlight(calls) + 1
  {
    if c > 0 {
      assert calls[c := Holding(est)][1..] == calls[1..][c - 1 := Holding(est)];
      ReserveAddsOne(calls[1..], c - 1, est);
    } else {
      assert calls[0 := Holding(est)][1..] == calls[1..];
    }
  }

  /** n times an estimate, as a repeated sum. */
  function Times(n: nat, most: real): real {
    if n == 0 then 0.0 else Times(n - 1, most) + most
  }

  lemma {:induction false} TimesMonotone(m: nat, n: nat, most: real)
    requires m <= n && most >= 0.0
    ensures 0.0 <= Times(m, most) <= Times(n, most)
  {
    if m < n {
      TimesMonotone(m, n - 1, most);
    } else if n > 0 {
      TimesMonotone(m - 1, n - 1, most);
    }
  }

  /** Estimates are at most `most`, no cost exceeds its estimate, and at most k calls are ever in flight. */
  ghost predicate Disciplined(cap: real, s: State, run: seq<Event>, k: nat, most: real)
    decreases |run|
  {
    && InFlight(s.calls) <= k
    && (run != [] ==>
          && Enabled(s, run[0])
          && NonNegative(run[0])
          && (run[0].Reserve? ==> run[0].est <= most)
          && (run[0].Release? ==> run[0].actual <= s.calls[run[0].c].est)
          && Disciplined(cap, Apply(cap, s, run[0]), run[1..], k, most))
  }

  ghost predicate Bounded(initial: real, s: State, most: real, limit: real) {
    && Ledger(initial, s)
    && (forall i | 0 <= i < |s.calls| :: s.calls[i].Holding? ==> s.calls[i].est <= most)
    && (forall i | 0 <= i < |s.calls| :: s.calls[i].Owing? ==> s.calls[i].actual <= most)
    && s.spent + Sum(s.calls, PENDING) <= limit
  }

  /** Pending costs are at most one estimate for each call in flight. */
  lemma {:induction false} PendingPerCall(calls: seq<Phase>, most: real)
    requires most >= 0.0
    requires forall i | 0 <= i < |calls| :: calls[i].Owing? ==> calls[i].actual <= most
    ensures Sum(calls, PENDING) <= Times(InFlight(calls), most)
  {
    if calls != [] {
      PendingPerCall(calls[1..], most);
    }
  }

  /** A granted reservation leaves room for the costs the other calls still owe. */
  lemma ReserveLeavesRoom(cap: real, s: State, c: nat, est: real, k: nat, most: real)
    requires c < |s.calls| && s.calls[c].Idle? && most >= 0.0 && k >= 1
    requires forall i | 0 <= i < |s.calls| :: s.calls[i].Owing? ==> s.calls[i].actual <= most
    requires InFlight(s.calls[c := Holding(est)]) <= k
    requires s.spent + est <= cap
    ensures s.spent + est + Sum(s.calls, PENDING) <= cap + Times(k - 1, most)
  {
    ReserveAddsOne(s.calls, c, est);
    PendingPerCall(s.calls, most);
    TimesMonotone(InFlight(s.calls), k - 1, most);
  }

  lemma BoundedStep(cap: real, initial: real, s: State, e: Event, most: real, limit: real)
    requires Bounded(initial, s, most, limit) && Enabled(s, e) && NonNegative(e)
    requires e.Reserve? ==> e.est <= most
    requires e.Reserve? && Granted(cap, s, e.est) ==> s.spent + e.est + Sum(s.calls, PENDING) <= limit
    requires e.Release? ==> e.actual <= s.calls[e.c].est
    ensures Bounded(initial, Apply(cap, s, e), most, limit)
  {
    LedgerStep(cap, initial, s, e);
    if !e.SetKillSwitch? {
      SumUpdate(s.calls, e.c, Apply(cap, s, e).calls[e.c], PENDING);
    }
  }

  lemma {:induction false} BoundedRun(cap: real, initial: real, s: State, run: seq<Event>, k: nat, most: real,
                                      limit: real)
    requires k >= 1 && most >= 0.0 && limit == cap + Times(k - 1, most)
    requires Bounded(initial, s, most, limit) && Disciplined(cap, s, run, k, most)
    ensures Valid(cap, s, run) && Bounded(initial, After(cap, s, run), most, limit)
    decreases |run|
  {
    if run != [] {
      var e := run[0];
      if e.Reserve? && Granted(cap, s, e.est) {
        ReserveLeavesRoom(cap, s, e.c, e.est, k, most);
      }
      BoundedStep(cap, initial, s, e, most, limit);
      BoundedRun(cap, initial, Apply(cap, s, e), run[1..], k, most, limit);
    }
  }

  /**
   With at most k calls in flight, spent never exceeds the cap by more than k - 1 estimates.
   For k = 1 the cap is hard.
   */
  lemma CapBound(cap: real, spent: real, kill: bool, n: nat, run: seq<Event>, k: nat, most: real)
    requires 0.0 <= spent <= cap && most >= 0.0 && k >= 1
    requires Disciplined(cap, Start(spent, kill, n), run, k, most)
    ensures Valid(cap, Start(spent, kill, n), run)
    ensures After(cap, Start(spent, kill, n), run).spent <= cap + Times(k - 1, most)
  {
    var s := Start(spent, kill, n);
    StartLedger(spent, kill, n);
    SumIdle(n, PENDING);
    TimesMonotone(0, k - 1, most);
    BoundedRun(cap, spent, s, run, k, most, cap + Times(k - 1, most));
    SumNonNegative(After(cap, s, run).calls);
  }

  lemma {:induction false} SumNonNegative(calls: seq<Phase>)
    requires forall i | 0 <= i < |calls| :: PhaseNonNegative(calls[i])
    ensures Sum(calls, PENDING) >= 0.0
  {
    if calls != [] { SumNonNegative(calls[1..]); }
  }

  // ---- The bound is reached.

  /** k calls: the first `done` recorded, then up to `owed` released, then the rest. */
  function Stage(k: nat, done: nat, owed: nat, last: Phase, most: real): seq<Phase> {
    seq(k, i => if i < done then Settled(most) else if i < owed then Owing(most) else if i == k - 1 then last else Idle)
  }

  /** Every owing call records: spent rises by one estimate for each. */
  lemma {:induction false} Collect(cap: real, k: nat, done: nat, most: real) returns (run: seq<Event>)
    requires done < k && most >= 0.0
    ensures var s := State(cap + Times(done, most), false, Stage(k, done, k - 1, Holding(most), most));
            && Disciplined(cap, s, run, k, most) && Valid(cap, s, run)
            && After(cap, s, run).spent == cap + Times(k - 1, most)
    decreases k - done
  {
    var s := State(cap + Times(done, most), false, Stage(k, done, k - 1, Holding(most), most));
    if done == k - 1 {
      run := [];
    } else {
      var next := State(cap + Times(done + 1, most), false, Stage(k, done + 1, k - 1, Holding(most), most));
      var rest := Collect(cap, k, done + 1, most);
      assert s.calls[done := Settled(most)] == next.calls;
      assert Apply(cap, s, Record(done)) == next;
      run := [Record(done)] + rest;
      assert run[1..] == rest;
    }
  }

  lemma {:induction false} Build(cap: real, k: nat, owed: nat, most: real) returns (run: seq<Event>)
    requires owed < k && 0.0 <= most <= cap
    ensures var s := State(cap - most, false, Stage(k, 0, owed, Idle, most));
            && Disciplined(cap, s, run, k, most) && Valid(cap, s, run)
            && After(cap, s, run).spent == cap + Times(k - 1, most)
    decreases k - owed
  {
    var s := State(cap - most, false, Stage(k, 0, owed, Idle, most));
    var held := Apply(cap, s, Reserve(owed, most));
    assert held == State(cap, false, s.calls[owed := Holding(most)]);
    if owed == k - 1 {
      var rest := Collect(cap, k, 0, most);
      assert held.calls == Stage(k, 0, k - 1, Holding(most), most);
      assert held == State(cap + Times(0, most), false, Stage(k, 0, k - 1, Holding(most), most));
      run := [Reserve(owed, most)] + rest;
      assert run[1..] == rest;
    } else {
      var rest := Build(cap, k, owed + 1, most);
      var next := State(cap - most, false, Stage(k, 0, owed + 1, Idle, most));
      assert held.calls[owed := Owing(most)] == next.calls;
      assert Apply(cap, held, Release(owed, most)) == next;
      var tail := [Release(owed, most)] + rest;
      assert tail[1..] == rest;
      run := [Reserve(owed, most)] + tail;
      assert run[1..] == tail;
    }
  }

  /** A disciplined run of k calls, from one estimate below the cap, that ends exactly at the bound. */
  ghost predicate MeetsBound(cap: real, k: nat, most: real, run: seq<Event>)
    requires k >= 1
  {
    var s := Start(cap - most, false, k);
    && Disciplined(cap, s, run, k, most) && Valid(cap, s, run)
    && After(cap, s, run).spent == cap + Times(k - 1, most)
  }

  /** For every k some disciplined run of k calls reaches the bound exactly, so for k > 1 the cap is soft. */
  lemma CapBoundIsTight(cap: real, k: nat, most: real)
    requires k >= 1 && 0.0 <= most <= cap
    ensures exists run :: MeetsBound(cap, k, most, run)
  {
    var run := Build(cap, k, 0, most);
    assert Stage(k, 0, 0, Idle, most) == Idles(k);
    assert MeetsBound(cap, k, most, run);
  }
}
