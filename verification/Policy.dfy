/** Tier selection, the provider gate and the spend guard (swifty_inference/policy.py, models.py). */
module Policy {
  import opened Wrappers

  datatype Regime = TdxOnchain | SevSigstore | SelfHost

  datatype Tier = Trivial | Cheap | Frontier

  datatype Provider = Provider(id: string, regime: Regime, available: bool, cacheInEnclave: bool)

  datatype RoutingConfig = RoutingConfig(models: map<Tier, string>, escalateWhen: set<string>)

  function SelectTier(triggers: set<string>, config: RoutingConfig): (tier: Tier)
    ensures tier == Frontier <==> exists t :: t in triggers && t in config.escalateWhen
    ensures tier == Trivial <==> "trivial" in triggers && forall t | t in triggers :: t !in config.escalateWhen
  {
    var escalating := triggers * config.escalateWhen;
    assert escalating != {} ==> exists t :: t in escalating && t in triggers && t in config.escalateWhen;
    assert forall t | t in triggers && t in config.escalateWhen :: t in escalating;
    if escalating != {} then Frontier
    else if "trivial" in triggers then Trivial
    else Cheap
  }

  predicate ProviderUsable(p: Provider, receiptOk: bool) {
    p.available && (p.regime.SelfHost? || receiptOk)
  }

  method ChooseProvider(providers: seq<Provider>, regime: Regime, receiptCheck: Provider -> bool)
    returns (chosen: Option<Provider>)
    ensures chosen.None? <==>
            forall p | p in providers && p.regime == regime && p.available ::
              !p.regime.SelfHost? && !receiptCheck(p)
    ensures chosen.Some? ==>
              exists i ::
                && 0 <= i < |providers| && providers[i] == chosen.value
                && chosen.value.regime == regime && chosen.value.available
                && (chosen.value.regime.SelfHost? || receiptCheck(chosen.value))
                && forall j | 0 <= j < i && providers[j].regime == regime && providers[j].available ::
                     !providers[j].regime.SelfHost? && !receiptCheck(providers[j])
  {
    for i := 0 to |providers|
      invariant forall j | 0 <= j < i ::
                  !(providers[j].regime == regime && ProviderUsable(providers[j], receiptCheck(providers[j])))
    {
      var provider := providers[i];
      if provider.regime == regime && ProviderUsable(provider, receiptCheck(provider)) {
        return Some(provider);
      }
    }
    return None;
  }

  datatype Refusal = KillSwitchEngaged | CapReached

  class SpendGuard {
    var spent: real
    var killSwitch: bool
    const cap: real

    constructor (cap: real, spent: real, killSwitch: bool)
      ensures this.cap == cap && this.spent == spent && this.killSwitch == killSwitch
    {
      this.cap, this.spent, this.killSwitch := cap, spent, killSwitch;
    }

    function Refused(est: real): Option<Refusal>
      reads this
    {
      if killSwitch then Some(KillSwitchEngaged)
      else if spent + est > cap then Some(CapReached)
      else None
    }

    method Check(est: real) returns (refusal: Option<Refusal>)
      ensures refusal.None? <==> !killSwitch && spent + est <= cap
      ensures refusal == Some(KillSwitchEngaged) <==> killSwitch
    {
      refusal := Refused(est);
    }

    method Reserve(est: real) returns (refusal: Option<Refusal>)
      modifies this`spent
      ensures refusal == old(Refused(est))
      ensures spent == if refusal.None? then old(spent) + est else old(spent)
      ensures refusal.None? ==> spent <= cap
    {
      refusal := Refused(est);
      if refusal.None? {
        spent := spent + est;
      }
    }

    method Record(aud: real)
      modifies this`spent
      ensures spent == old(spent) + aud
    {
      spent := spent + aud;
    }

    method Release(aud: real)
      modifies this`spent
      ensures spent == if old(spent) - aud < 0.0 then 0.0 else old(spent) - aud
    {
      spent := if spent - aud > 0.0 then spent - aud else 0.0;
    }
  }
}
