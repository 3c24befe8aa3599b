/**
 The fail-closed quote decision (caladon-core/src/attestation/mod.rs) and the enclave's
 evidence (gateway/app/attestation.py).

 Checking the quote against Intel's chain is an oracle, `Chain`; what it vouches for is
 the content of the quote term.
 */
module Attestation {
  import opened Wrappers
  import opened Symbolic

  datatype Reason =
    | Passed | QuoteSigInvalid | TcbOutOfDate | CollateralStale | MeasurementUnpinned
    | ComposeMismatch | AppIdMismatch | BindingMismatch | NoLogAbsent

  datatype Verdict = Verdict(ok: bool, reason: Reason, measurementMatched: bool)

  function Fail(reason: Reason, matched: bool): Verdict { Verdict(false, reason, matched) }

  datatype PinnedSet = PinnedSet(measurements: set<string>, composeHashes: set<string>, workloadIds: set<string>)

  datatype Info = Info(composeHash: string, appId: string, noLog: Option<bool>)

  /** The answer of the quote-chain verifier. */
  datatype Chain =
    | CollateralUnparsable
    | ChainRejected(message: ChainMessage)
    | ChainTrusted(status: string, tdx: bool)

  datatype ChainMessage = TcbInvalid | CollateralWindow | OtherMessage

  function Classify(m: ChainMessage): Reason {
    match m
    case TcbInvalid => TcbOutOfDate
    case CollateralWindow => CollateralStale
    case OtherMessage => QuoteSigInvalid
  }

  /** No chain vouches for bytes that are not a quote. */
  function VerifyQuote(quote: Term, chain: Chain, info: Option<Info>, expectedLo: Term, sessionPub: Term,
                       pinned: PinnedSet): Verdict {
    if chain.CollateralUnparsable? then Fail(CollateralStale, false)
    else if chain.ChainRejected? then Fail(Classify(chain.message), false)
    else if !quote.Quote? then Fail(QuoteSigInvalid, false)
    else if chain.status != "UpToDate" then Fail(TcbOutOfDate, false)
    else if !chain.tdx then Fail(MeasurementUnpinned, false)
    else if quote.measurement !in pinned.measurements then Fail(MeasurementUnpinned, false)
    else if info.None? then Fail(ComposeMismatch, true)
    else if info.value.composeHash !in pinned.composeHashes then Fail(ComposeMismatch, true)
    else if info.value.appId !in pinned.workloadIds then Fail(AppIdMismatch, true)
    else if quote.reportLo != expectedLo then Fail(BindingMismatch, true)
    else if quote.reportHi != Sha256(sessionPub) then Fail(BindingMismatch, true)
    else if info.value.noLog == Some(false) then Fail(NoLogAbsent, true)
    else Verdict(true, Passed, true)
  }

  /**
   Diagnostics are ordered: each reason says that everything the contract checks earlier
   passed, and the measurement flag is set exactly from the measurement pin on.
   */
  lemma ReasonsAreOrdered(quote: Term, chain: Chain, info: Option<Info>, expectedLo: Term, sessionPub: Term,
                          pinned: PinnedSet)
    ensures var v := VerifyQuote(quote, chain, info, expectedLo, sessionPub, pinned);
            var trusted := chain.ChainTrusted? && quote.Quote? && chain.status == "UpToDate" && chain.tdx;
            var measured := trusted && quote.measurement in pinned.measurements;
            var composed := measured && info.Some? && info.value.composeHash in pinned.composeHashes;
            var named := composed && info.value.appId in pinned.workloadIds;
            var bound := named && quote.reportLo == expectedLo && quote.reportHi == Sha256(sessionPub);
            && (v.measurementMatched <==> measured)
            && (v.reason == CollateralStale <==>
                  chain.CollateralUnparsable? || chain == ChainRejected(CollateralWindow))
            && (v.reason == QuoteSigInvalid <==>
                  chain == ChainRejected(OtherMessage) || (chain.ChainTrusted? && !quote.Quote?))
            && (v.reason == TcbOutOfDate <==>
                  chain == ChainRejected(TcbInvalid)
                  || (chain.ChainTrusted? && quote.Quote? && chain.status != "UpToDate"))
            && (v.reason == MeasurementUnpinned <==>
                  chain.ChainTrusted? && quote.Quote? && chain.status == "UpToDate" && !measured)
            && (v.reason == ComposeMismatch <==> measured && !composed)
            && (v.reason == AppIdMismatch <==> composed && !named)
            && (v.reason == BindingMismatch <==> named && !bound)
            && (v.reason == NoLogAbsent <==> bound && info.value.noLog == Some(false))
            && (v.ok <==> bound && info.value.noLog != Some(false))
            && (v.ok <==> v.reason == Passed)
  {
  }

  /** The two bindings: an ok verdict names exactly one session key and one client key. */
  lemma OkBindsBothKeys(quote: Term, chain: Chain, info: Option<Info>, clientPub: Term, sessionPub: Term,
                        otherClient: Term, otherSession: Term, pinned: PinnedSet)
    requires VerifyQuote(quote, chain, info, Sha256(clientPub), sessionPub, pinned).ok
    ensures VerifyQuote(quote, chain, info, Sha256(otherClient), otherSession, pinned).ok
            <==> otherClient == clientPub && otherSession == sessionPub
    ensures !(otherClient == clientPub && otherSession == sessionPub) ==>
              VerifyQuote(quote, chain, info, Sha256(otherClient), otherSession, pinned)
              == Verdict(false, BindingMismatch, true)
  {
  }

  datatype Evidence = Evidence(challenge: Term, quote: Option<Term>, sessionPub: Option<Term>, info: Option<Info>)

  /** `CvmAttestationProvider.evidence_for` over the guest agent's answer; None stands for its errors. */
  function EvidenceFor(challenge: Term, sessionPub: Option<Term>, fetch: (Term, Term) -> Option<Evidence>)
    : Option<Evidence>
  {
    var hi := if sessionPub.Some? then Sha256(sessionPub.value) else ZERO_HALF;
    match fetch(challenge, hi)
    case None => None
    case Some(bundle) =>
      if bundle.challenge != challenge then None
      else if sessionPub.Some? then Some(bundle.(sessionPub := sessionPub))
      else Some(bundle)
  }

  const ZERO_HALF := Data("")

  /** A guest agent of the given measurement: the report data goes into the quote as it is. */
  function GuestAgent(measurement: string, info: Option<Info>): (Term, Term) -> Option<Evidence> {
    (lo: Term, hi: Term) => Some(Evidence(lo, Some(Quote(measurement, lo, hi)), None, info))
  }

  /** Evidence is handed out exactly when the agent's bundle names this very challenge; it carries the session key. */
  lemma EvidenceIff(challenge: Term, sessionPub: Option<Term>, fetch: (Term, Term) -> Option<Evidence>, ev: Evidence)
    ensures var bundle := fetch(challenge, if sessionPub.Some? then Sha256(sessionPub.value) else ZERO_HALF);
            EvidenceFor(challenge, sessionPub, fetch) == Some(ev)
            <==>
            && bundle.Some? && bundle.value.challenge == challenge == ev.challenge
            && ev.quote == bundle.value.quote && ev.info == bundle.value.info
            && ev.sessionPub == if sessionPub.Some? then sessionPub else bundle.value.sessionPub
  {
  }

  /** A pinned enclave's own evidence passes the client's check, for every client key. */
  lemma HonestEvidencePasses(measurement: string, info: Info, clientPub: Term, sessionPub: Term, pinned: PinnedSet)
    requires measurement in pinned.measurements && info.composeHash in pinned.composeHashes
    requires info.appId in pinned.workloadIds && info.noLog != Some(false)
    ensures var ev := EvidenceFor(Sha256(clientPub), Some(sessionPub), GuestAgent(measurement, Some(info)));
            && ev.Some? && ev.value.sessionPub == Some(sessionPub) && ev.value.challenge == Sha256(clientPub)
            && ev.value.quote.Some?
            && VerifyQuote(ev.value.quote.value, ChainTrusted("UpToDate", true), ev.value.info, Sha256(clientPub),
                           sessionPub, pinned).ok
  {
  }
}
