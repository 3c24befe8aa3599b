/**
 The failover client (swifty_inference/client.py). What a provider answers, whether its
 receipt verifies and what it cost are arbitrary: one Attempt per candidate.
 */
module InferenceClients {
  import opened Wrappers
  import opened Policy
  import Runs = SpendRuns

  datatype Receipt = Verifies | Fails | VerifierRaises

  datatype Attempt =
    | Raised
    | Answered(response: string, receipt: Receipt, cost: Option<real>)   // cost None: `cost_fn` raised

  datatype Outcome =
    | Refused(why: Refusal)
    | NoModel
    | NoCompletionFn
    | NoUsableProvider
    | CostFailed
    | Served(provider: Provider, model: string, response: string, actual: real)

  function Candidates(providers: seq<Provider>, regime: Regime): seq<Provider> {
    if providers == [] then []
    else (if providers[0].regime == regime && providers[0].available then [providers[0]] else [])
         + Candidates(providers[1..], regime)
  }

  predicate ReceiptOk(p: Provider, a: Attempt)
    requires a.Answered?
  {
    p.regime.SelfHost? || a.receipt.Verifies?
  }

  predicate Accepted(p: Provider, a: Attempt) {
    a.Answered? && ReceiptOk(p, a)
  }

  /** The first candidate from i on whose answer is accepted, or the number of candidates. */
  function FirstAccepted(cands: seq<Provider>, attempts: nat -> Attempt, i: nat): (k: nat)
    requires i <= |cands|
    ensures i <= k <= |cands|
    ensures forall j | i <= j < k :: !Accepted(cands[j], attempts(j))
    ensures k < |cands| ==> Accepted(cands[k], attempts(k))
    decreases |cands| - i
  {
    if i == |cands| || Accepted(cands[i], attempts(i)) then i else FirstAccepted(cands, attempts, i + 1)
  }

  /** What a granted call comes to. */
  function Decide(config: RoutingConfig, hasCompletion: bool, triggers: set<string>, cands: seq<Provider>,
                  attempts: nat -> Attempt): Outcome {
    var tier := SelectTier(triggers, config);
    var k := FirstAccepted(cands, attempts, 0);
    if tier !in config.models then NoModel
    else if !hasCompletion then NoCompletionFn
    else if k == |cands| then NoUsableProvider
    else if attempts(k).cost.None? then CostFailed
    else Served(cands[k], config.models[tier], attempts(k).response, attempts(k).cost.value)
  }

  /** The lock sections a call with this outcome goes through, as call 0 of a run. */
  function Sections(est: real, outcome: Outcome): seq<Runs.Event> {
    match outcome
    case Refused(_) => [Runs.Reserve(0, est)]
    case NoModel => [Runs.Reserve(0, est), Runs.Strand(0)]
    case NoCompletionFn => [Runs.Reserve(0, est), Runs.Strand(0)]
    case NoUsableProvider => [Runs.Reserve(0, est), Runs.Refund(0)]
    case CostFailed => [Runs.Reserve(0, est), Runs.Refund(0)]
    case Served(_, _, _, actual) => [Runs.Reserve(0, est), Runs.Release(0, actual), Runs.Record(0)]
  }

  class InferenceClient {
    const providers: seq<Provider>
    const config: RoutingConfig
    const guard: SpendGuard
    const hasCompletion: bool   // a completion function was given or litellm can be imported

    constructor (providers: seq<Provider>, config: RoutingConfig, guard: SpendGuard, hasCompletion: bool)
      ensures this.providers == providers && this.config == config
      ensures this.guard == guard && this.hasCompletion == hasCompletion
    {
      this.providers, this.config, this.guard, this.hasCompletion := providers, config, guard, hasCompletion;
    }

    method Complete(regime: Regime, triggers: set<string>, est: real, attempts: nat -> Attempt)
      returns (outcome: Outcome)
      modifies guard`spent
      ensures outcome == match old(guard.Refused(est))
                         case Some(why) => Refused(why)
                         case None => Decide(config, hasCompletion, triggers, Candidates(providers, regime), attempts)
      ensures var s := Runs.State(old(guard.spent), guard.killSwitch, [Runs.Idle]);
              && Runs.Valid(guard.cap, s, Sections(est, outcome))
              && guard.spent == Runs.After(guard.cap, s, Sections(est, outcome)).spent
    {
      hide Candidates, SelectTier;
      var start := Runs.State(guard.spent, guard.killSwitch, [Runs.Idle]);
      var refusal := guard.Reserve(est);
      if refusal.Some? {
        SectionsRun(guard.cap, start, est, Refused(refusal.value));
        return Refused(refusal.value);
      }
      var tier := SelectTier(triggers, config);
      if tier !in config.models {
        SectionsRun(guard.cap, start, est, NoModel);
        return NoModel;
      }
      if !hasCompletion {
        SectionsRun(guard.cap, start, est, NoCompletionFn);
        return NoCompletionFn;
      }
      var reconciled := false;
      var candidates := Candidates(providers, regime);
      outcome := NoUsableProvider;
      var i := 0;
      while i < |candidates|
        invariant 0 <= i <= |candidates|
        invariant !reconciled && outcome == NoUsableProvider && guard.spent == start.spent + est
        invariant FirstAccepted(candidates, attempts, 0) == FirstAccepted(candidates, attempts, i)
      {
        var attempt := attempts(i);
        if attempt.Answered? {
          if ReceiptOk(candidates[i], attempt) {
            if attempt.cost.None? {
              outcome := CostFailed;
              break;
            }
            guard.Release(est);
            guard.Record(attempt.cost.value);
            reconciled := true;
            outcome := Served(candidates[i], config.models[tier], attempt.response, attempt.cost.value);
            break;
          }
        }
        i := i + 1;
      }
      if !reconciled {
        guard.Release(est);
      }
      SectionsRun(guard.cap, start, est, outcome);
    }
  }

  /** The run of one call's lock sections, in closed form. */
  lemma SectionsRun(cap: real, s: Runs.State, est: real, outcome: Outcome)
    requires s.calls == [Runs.Idle]
    requires outcome.Refused? <==> !Runs.Granted(cap, s, est)
    ensures Runs.Valid(cap, s, Sections(est, outcome))
    ensures var back := Runs.Floored(s.spent + est - est);
            Runs.After(cap, s, Sections(est, outcome)).spent ==
            match outcome
            case Refused(_) => s.spent
            case NoModel => s.spent + est
            case NoCompletionFn => s.spent + est
            case NoUsableProvider => back
            case CostFailed => back
            case Served(_, _, _, actual) => back + actual
  {
    var run := Sections(est, outcome);
    var s1 := Runs.Apply(cap, s, run[0]);
    if outcome.Refused? {
      assert run[1..] == [];
    } else {
      var s2 := Runs.Apply(cap, s1, run[1]);
      assert run[1..][1..] == run[2..];
      if outcome.Served? {
        assert run[2..] == [Runs.Record(0)] && run[2..][1..] == [];
        assert Runs.After(cap, s2, run[2..]) == Runs.Apply(cap, s2, Runs.Record(0));
      } else {
        assert run[2..] == [];
      }
      assert Runs.After(cap, s1, run[1..]) == Runs.After(cap, s2, run[2..]);
    }
  }

  /**
   A failed call leaves the spend where it was exactly when it was refused up front, reserved
   nothing, or failed inside the `try`: with a model for its tier and a completion function.
   */
  lemma FailureRefunds(cap: real, s: Runs.State, est: real, why: Refusal, config: RoutingConfig, hasCompletion: bool,
                       triggers: set<string>, cands: seq<Provider>, attempts: nat -> Attempt)
    requires s.calls == [Runs.Idle] && s.spent >= 0.0
    ensures var granted := Runs.Granted(cap, s, est);
            var outcome := if granted then Decide(config, hasCompletion, triggers, cands, attempts) else Refused(why);
            var configured := SelectTier(triggers, config) in config.models && hasCompletion;
            && Runs.Valid(cap, s, Sections(est, outcome))
            && (!outcome.Served? ==>
                  (Runs.After(cap, s, Sections(est, outcome)).spent == s.spent
                   <==> !granted || est == 0.0 || configured))
  {
    var outcome := if Runs.Granted(cap, s, est) then Decide(config, hasCompletion, triggers, cands, attempts)
                   else Refused(why);
    SectionsRun(cap, s, est, outcome);
  }

  // ---- The order of the candidates, and what each outcome means in terms of the configured list.

  /** How many providers before position i are of the regime and available: the number of i's attempt. */
  function Turn(providers: seq<Provider>, regime: Regime, i: nat): (n: nat)
    requires i <= |providers|
  {
    if i == 0 then 0
    else Turn(providers, regime, i - 1)
         + (if providers[i - 1].regime == regime && providers[i - 1].available then 1 else 0)
  }

  lemma {:induction false} CandidatesSnoc(providers: seq<Provider>, regime: Regime, p: Provider)
    ensures Candidates(providers + [p], regime) ==
            Candidates(providers, regime) + (if p.regime == regime && p.available then [p] else [])
  {
    if providers != [] {
      assert (providers + [p])[1..] == providers[1..] + [p];
      CandidatesSnoc(providers[1..], regime, p);
    }
  }

  lemma {:induction false} CandidateCount(providers: seq<Provider>, regime: Regime, n: nat)
    requires n <= |providers|
    ensures |Candidates(providers[..n], regime)| == Turn(providers, regime, n)
  {
    if n > 0 {
      CandidateCount(providers, regime, n - 1);
      assert providers[..n] == providers[..n - 1] + [providers[n - 1]];
      CandidatesSnoc(providers[..n - 1], regime, providers[n - 1]);
    }
  }

  /** The candidates are the available providers of the regime in the order of the list: each has its turn, */
  lemma {:induction false} CandidatesAre(providers: seq<Provider>, regime: Regime, n: nat, i: nat)
    requires i < n <= |providers| && providers[i].regime == regime && providers[i].available
    ensures var cands := Candidates(providers[..n], regime);
            Turn(providers, regime, i) < |cands| && cands[Turn(providers, regime, i)] == providers[i]
  {
    assert providers[..n] == providers[..n - 1] + [providers[n - 1]];
    CandidatesSnoc(providers[..n - 1], regime, providers[n - 1]);
    CandidateCount(providers, regime, n - 1);
    if i < n - 1 {
      CandidatesAre(providers, regime, n - 1, i);
    }
  }

  /** and each turn is that of one of them. */
  lemma {:induction false} EveryTurnIsTaken(providers: seq<Provider>, regime: Regime, n: nat, k: nat) returns (i: nat)
    requires n <= |providers| && k < Turn(providers, regime, n)
    ensures i < n && providers[i].regime == regime && providers[i].available && Turn(providers, regime, i) == k
  {
    i := n - 1;
    if Turn(providers, regime, i) != k || providers[i].regime != regime || !providers[i].available {
      i := EveryTurnIsTaken(providers, regime, n - 1, k);
    }
  }

  /** Provider i's turn came and its answer passed the gate: none needed for a self-hosted one. */
  predicate Passes(providers: seq<Provider>, regime: Regime, attempts: nat -> Attempt, i: nat)
    requires i < |providers|
  {
    var a := attempts(Turn(providers, regime, i));
    && providers[i].regime == regime && providers[i].available
    && a.Answered? && (providers[i].regime.SelfHost? || a.receipt.Verifies?)
  }

  ghost predicate FirstToPass(providers: seq<Provider>, regime: Regime, attempts: nat -> Attempt, i: nat) {
    && i < |providers| && Passes(providers, regime, attempts, i)
    && forall j: nat | j < i :: !Passes(providers, regime, attempts, j)
  }

  lemma {:induction false} TurnGrows(providers: seq<Provider>, regime: Regime, i: nat, j: nat)
    requires i <= j <= |providers|
    ensures Turn(providers, regime, i) <= Turn(providers, regime, j)
    ensures i < j && providers[i].regime == regime && providers[i].available ==>
              Turn(providers, regime, i) < Turn(providers, regime, j)
  {
    if i < j {
      TurnGrows(providers, regime, i, j - 1);
    }
  }

  /** The first accepted candidate is the first configured provider to pass. */
  lemma FirstAcceptedPasses(providers: seq<Provider>, regime: Regime, attempts: nat -> Attempt) returns (i: nat)
    ensures var cands := Candidates(providers, regime);
            var k := FirstAccepted(cands, attempts, 0);
            if k < |cands| then
              && FirstToPass(providers, regime, attempts, i)
              && Turn(providers, regime, i) == k && cands[k] == providers[i]
            else forall j: nat | j < |providers| :: !Passes(providers, regime, attempts, j)
  {
    hide Candidates, FirstAccepted;
    i := 0;
    var cands, n := Candidates(providers, regime), |providers|;
    var k := FirstAccepted(cands, attempts, 0);
    CandidateCount(providers, regime, n);
    assert providers[..n] == providers;
    forall j: nat | j < n && Turn(providers, regime, j) < k ensures !Passes(providers, regime, attempts, j) {
      if providers[j].regime == regime && providers[j].available { CandidatesAre(providers, regime, n, j); }
    }
    if k < |cands| {
      i := EveryTurnIsTaken(providers, regime, n, k);
      CandidatesAre(providers, regime, n, i);
      forall j: nat | j < i && Passes(providers, regime, attempts, j) ensures false { TurnGrows(providers, regime, j, i); }
    } else {
      forall j: nat | j < n ensures !Passes(providers, regime, attempts, j) {
        if providers[j].regime == regime && providers[j].available { CandidatesAre(providers, regime, n, j); }
      }
    }
  }

  /**
   A served response is that of the first configured provider to pass: of the asked regime, available,
   and with a verified receipt unless the operator hosts it; its model is that of the tier the
   triggers select.
   */
  lemma GateHolds(providers: seq<Provider>, regime: Regime, config: RoutingConfig, hasCompletion: bool,
                  triggers: set<string>, attempts: nat -> Attempt) returns (i: nat)
    requires Decide(config, hasCompletion, triggers, Candidates(providers, regime), attempts).Served?
    ensures var outcome := Decide(config, hasCompletion, triggers, Candidates(providers, regime), attempts);
            var escalates := exists t :: t in triggers && t in config.escalateWhen;
            var tier := if escalates then Frontier else if "trivial" in triggers then Trivial else Cheap;
            && FirstToPass(providers, regime, attempts, i) && outcome.provider == providers[i]
            && attempts(Turn(providers, regime, i)).response == outcome.response
            && attempts(Turn(providers, regime, i)).cost == Some(outcome.actual)
            && tier in config.models && outcome.model == config.models[tier]
  {
    i := FirstAcceptedPasses(providers, regime, attempts);
  }

  /** When a granted call ends otherwise: no model, no completion function, no provider to pass, no cost. */
  lemma OtherwiseIff(providers: seq<Provider>, regime: Regime, config: RoutingConfig, hasCompletion: bool,
                     triggers: set<string>, attempts: nat -> Attempt)
    ensures var outcome := Decide(config, hasCompletion, triggers, Candidates(providers, regime), attempts);
            var escalates := exists t :: t in triggers && t in config.escalateWhen;
            var tier := if escalates then Frontier else if "trivial" in triggers then Trivial else Cheap;
            && (outcome == NoModel <==> tier !in config.models)
            && (outcome == NoCompletionFn <==> tier in config.models && !hasCompletion)
            && (outcome == NoUsableProvider <==>
                  tier in config.models && hasCompletion
                  && forall i: nat | i < |providers| :: !Passes(providers, regime, attempts, i))
            && (outcome == CostFailed <==>
                  tier in config.models && hasCompletion
                  && exists i: nat :: FirstToPass(providers, regime, attempts, i)
                                      && attempts(Turn(providers, regime, i)).cost.None?)
  {
    var i := FirstAcceptedPasses(providers, regime, attempts);
    forall j: nat | FirstToPass(providers, regime, attempts, j) && FirstToPass(providers, regime, attempts, i)
      ensures j == i {
    }
  }
}
