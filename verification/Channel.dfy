/**
 The client's handshake and chat (web-client/caladon/src/client.ts). The shim's answers are
 arbitrary. `HandshakeOf` is the handshake as a function; `CaladonClient` is proved to be it.
 */
module Channel {
  import opened Wrappers
  import opened Symbolic
  import opened Attestation
  import opened Sessions

  datatype Policy = Strict | Observe | Skip

  datatype ClientError =
    | AttestationStatus | ChallengeNotBound | NoQuote | NoPinnedSet | NoSessionPub
    | AttestationFailed(verdict: Verdict) | LowOrderPeer | SessionStatus | NoIdentity | NoSession

  datatype Identity = Identity(root: nat, account: string)

  /** The shim's answers during a handshake. */
  datatype Answers = Answers(attestStatus: int, evidence: Evidence, chain: Chain, sessionStatus: int)

  datatype SessionPost = SessionPost(clientPub: Term, sealedWmk: Envelope)

  /** Everything a handshake does that can be seen: what it posts and how it ends. */
  datatype Outcome = Outcome(posted: Option<SessionPost>, result: Result<Term, ClientError>)

  function CheckAttestation(policy: Policy, pinned: Option<PinnedSet>, ev: Evidence, chain: Chain, ephPub: Term)
    : Result<Option<Verdict>, ClientError>
  {
    if policy.Skip? then Ok(None)
    else if ev.quote.None? then Err(NoQuote)
    else if pinned.None? then Err(NoPinnedSet)
    else if ev.sessionPub.None? then Err(NoSessionPub)
    else
      var info := Some(if ev.info.Some? then ev.info.value else Info("", "", None));
      var verdict := VerifyQuote(ev.quote.value, chain, info, Sha256(ephPub), ev.sessionPub.value, pinned.value);
      if policy.Strict? && !verdict.ok then Err(AttestationFailed(verdict)) else Ok(Some(verdict))
  }

  function SessionPostOf(id: Identity, eph: KeyId, sk: Term, nonce: nat): SessionPost {
    SessionPost(PublicKey(eph), SealEnvelope(sk, Wmk(id.root), id.account, WMK_DELIVERY_PURPOSE, ENVELOPE_V, nonce))
  }

  function HandshakeOf(policy: Policy, pinned: Option<PinnedSet>, id: Identity, eph: KeyId, a: Answers, nonce: nat)
    : Outcome
  {
    if a.attestStatus != 200 then Outcome(None, Err(AttestationStatus))
    else if a.evidence.challenge != Sha256(PublicKey(eph)) then Outcome(None, Err(ChallengeNotBound))
    else
      match CheckAttestation(policy, pinned, a.evidence, a.chain, PublicKey(eph))
      case Err(e) => Outcome(None, Err(e))
      case Ok(_) =>
        if a.evidence.sessionPub.None? then Outcome(None, Err(NoSessionPub))
        else
          var cvmPub := a.evidence.sessionPub.value;
          match DeriveSessionKey(PrivateKey(eph), cvmPub, PublicKey(eph), cvmPub)
          case None => Outcome(None, Err(LowOrderPeer))
          case Some(sk) =>
            Outcome(Some(SessionPostOf(id, eph, sk, nonce)), if a.sessionStatus == 200 then Ok(sk) else Err(SessionStatus))
  }

  /**
   Under 'strict' the sealed WMK is posted only after an ok verdict whose quote carries the
   hashes of this client key and of the very session key that SK is then derived from.
   */
  lemma StrictPostsOnlyAttested(pinned: Option<PinnedSet>, id: Identity, eph: KeyId, a: Answers, nonce: nat)
    requires HandshakeOf(Strict, pinned, id, eph, a, nonce).posted.Some?
    ensures pinned.Some? && a.evidence.quote.Some? && a.evidence.sessionPub.Some?
    ensures var quote, cvmPub := a.evidence.quote.value, a.evidence.sessionPub.value;
            var sk := DeriveSessionKey(PrivateKey(eph), cvmPub, PublicKey(eph), cvmPub);
            && quote.Quote? && quote.measurement in pinned.value.measurements
            && pinned.value.composeHashes != {} && pinned.value.workloadIds != {}
            && quote.reportLo == Sha256(PublicKey(eph)) && quote.reportHi == Sha256(cvmPub)
            && sk.Some?
            && HandshakeOf(Strict, pinned, id, eph, a, nonce).posted == Some(SessionPostOf(id, eph, sk.value, nonce))
            && CheckAttestation(Strict, pinned, a.evidence, a.chain, PublicKey(eph))
               == Ok(Some(Verdict(true, Passed, true)))
  {
  }

  /** Why the check refuses, in the order of its tests; nothing is refused under skip. */
  lemma ChecksIff(policy: Policy, pinned: Option<PinnedSet>, ev: Evidence, chain: Chain, ephPub: Term)
    ensures var r := CheckAttestation(policy, pinned, ev, chain, ephPub);
            var info := if ev.info.Some? then ev.info else Some(Info("", "", None));
            && (r == Ok(None) <==> policy == Skip)
            && (r == Err(NoQuote) <==> policy != Skip && ev.quote.None?)
            && (r == Err(NoPinnedSet) <==> policy != Skip && ev.quote.Some? && pinned.None?)
            && (r == Err(NoSessionPub) <==> policy != Skip && ev.quote.Some? && pinned.Some? && ev.sessionPub.None?)
            && (policy != Skip && ev.quote.Some? && pinned.Some? && ev.sessionPub.Some? ==>
                  var v := VerifyQuote(ev.quote.value, chain, info, Sha256(ephPub), ev.sessionPub.value, pinned.value);
                  r == if policy == Observe || v.ok then Ok(Some(v)) else Err(AttestationFailed(v)))
  {
  }

  /** What a handshake posts and returns, for every policy. */
  lemma PostsIff(policy: Policy, pinned: Option<PinnedSet>, id: Identity, eph: KeyId, a: Answers, nonce: nat)
    ensures var out := HandshakeOf(policy, pinned, id, eph, a, nonce);
            var ev, pub := a.evidence, PublicKey(eph);
            var info := if ev.info.Some? then ev.info else Some(Info("", "", None));
            var checked := policy == Skip
              || (ev.quote.Some? && pinned.Some? && ev.sessionPub.Some?
                  && (policy == Observe
                      || VerifyQuote(ev.quote.value, a.chain, info, Sha256(pub), ev.sessionPub.value, pinned.value).ok));
            && (out.posted.Some? <==>
                  a.attestStatus == 200 && ev.challenge == Sha256(pub) && checked
                  && ev.sessionPub.Some? && ev.sessionPub != Some(LowOrderPoint))
            && (out.result.Ok? <==> out.posted.Some? && a.sessionStatus == 200)
            && (out.posted.Some? ==> out.posted.value.clientPub == pub)
            && (out.result.Ok? ==> out.posted.value.sealedWmk.ct.Sealed?
                                   && out.posted.value.sealedWmk.ct.key == out.result.value)
  {
  }

  /** One line of the event stream. */
  datatype Line = EventLine(name: string) | DataLine(env: Envelope) | OtherLine

  datatype Delta = Delta(event: string, text: Term)

  predicate Shown(event: string) { event == "token" || event == "reasoning" }

  class CaladonClient {
    const policy: Policy
    const pinned: Option<PinnedSet>
    var identity: Option<Identity>
    var sessionKey: Option<Term>

    constructor (policy: Policy, pinned: Option<PinnedSet>)
      ensures this.policy == policy && this.pinned == pinned && identity.None? && sessionKey.None?
    {
      this.policy, this.pinned, identity, sessionKey := policy, pinned, None, None;
    }

    method UnlockSeed(id: Identity)
      modifies this`identity
      ensures identity == Some(id)
    {
      identity := Some(id);
    }

    method GetAttestation(ephPub: Term, status: int, ev: Evidence) returns (r: Result<Evidence, ClientError>)
      ensures r == if status != 200 then Err(AttestationStatus)
                   else if ev.challenge != Sha256(ephPub) then Err(ChallengeNotBound)
                   else Ok(ev)
    {
      var challenge := Sha256(ephPub);
      if status != 200 {
        return Err(AttestationStatus);
      }
      if ev.challenge != challenge {
        return Err(ChallengeNotBound);
      }
      return Ok(ev);
    }

    method VerifyAttestation(ev: Evidence, chain: Chain, ephPub: Term)
      returns (r: Result<Option<Verdict>, ClientError>)
      ensures r == CheckAttestation(policy, pinned, ev, chain, ephPub)
    {
      if policy.Skip? {
        return Ok(None);
      }
      if ev.quote.None? {
        return Err(NoQuote);
      }
      if pinned.None? {
        return Err(NoPinnedSet);
      }
      if ev.sessionPub.None? {
        return Err(NoSessionPub);
      }
      var info := if ev.info.Some? then ev.info.value else Info("", "", None);
      var verdict := VerifyQuote(ev.quote.value, chain, Some(info), Sha256(ephPub), ev.sessionPub.value, pinned.value);
      if policy.Strict? && !verdict.ok {
        return Err(AttestationFailed(verdict));
      }
      return Ok(Some(verdict));
    }

    method EstablishSession(ev: Evidence, eph: KeyId, status: int, nonce: nat)
      returns (posted: Option<SessionPost>, r: Result<Term, ClientError>)
      modifies this`sessionKey
      ensures identity.None? ==> posted.None? && r == Err(NoIdentity)
      ensures identity.Some? && ev.sessionPub.None? ==> posted.None? && r == Err(NoSessionPub)
      ensures identity.Some? && ev.sessionPub.Some? ==>
                match DeriveSessionKey(PrivateKey(eph), ev.sessionPub.value, PublicKey(eph), ev.sessionPub.value)
                case None => posted.None? && r == Err(LowOrderPeer)
                case Some(sk) => posted == Some(SessionPostOf(identity.value, eph, sk, nonce))
                                 && r == if status == 200 then Ok(sk) else Err(SessionStatus)
      ensures identity.Some? && ev.sessionPub == Some(LowOrderPoint) ==> posted.None? && r == Err(LowOrderPeer)
      ensures sessionKey == if r.Ok? then Some(r.value) else old(sessionKey)
    {
      posted := None;
      if identity.None? {
        return posted, Err(NoIdentity);
      }
      if ev.sessionPub.None? {
        return posted, Err(NoSessionPub);
      }
      var cvmPub := ev.sessionPub.value;
      var sk := DeriveSessionKey(PrivateKey(eph), cvmPub, PublicKey(eph), cvmPub);
      if sk.None? {
        return posted, Err(LowOrderPeer);
      }
      posted := Some(SessionPostOf(identity.value, eph, sk.value, nonce));
      if status != 200 {
        return posted, Err(SessionStatus);
      }
      sessionKey := sk;
      return posted, Ok(sk.value);
    }

    /** Unlock, onboard (whose answer is ignored), attest, verify, deliver the WMK. */
    method Handshake(id: Identity, eph: KeyId, a: Answers, nonce: nat)
      returns (posted: Option<SessionPost>, r: Result<Term, ClientError>)
      modifies this
      ensures Outcome(posted, r) == HandshakeOf(policy, pinned, id, eph, a, nonce)
      ensures identity == Some(id)
      ensures sessionKey == if r.Ok? then Some(r.value) else old(sessionKey)
    {
      UnlockSeed(id);
      var ev := GetAttestation(PublicKey(eph), a.attestStatus, a.evidence);
      if ev.Err? {
        return None, Err(ev.error);
      }
      var verdict := VerifyAttestation(ev.value, a.chain, PublicKey(eph));
      if verdict.Err? {
        return None, Err(verdict.error);
      }
      posted, r := EstablishSession(ev.value, eph, a.sessionStatus, nonce);
    }

    /** The prompt envelope `chat` posts; nothing is posted without an identity and a session key. */
    method SealPrompt(prompt: Term, nonce: nat) returns (r: Result<Envelope, ClientError>)
      ensures r == if identity.None? then Err(NoIdentity)
                   else if sessionKey.None? then Err(NoSession)
                   else Ok(SealEnvelope(sessionKey.value, prompt, identity.value.account, CHAT_PURPOSE, ENVELOPE_V, nonce))
    {
      if identity.None? {
        return Err(NoIdentity);
      }
      if sessionKey.None? {
        return Err(NoSession);
      }
      r := Ok(SealEnvelope(sessionKey.value, prompt, identity.value.account, CHAT_PURPOSE, ENVELOPE_V, nonce));
    }

    method OpenDeltas(lines: seq<Line>, sk: Term, account: string) returns (r: Option<seq<Delta>>)
      ensures Reads(lines, sk, account, r)
      ensures r == Deltas(lines, sk, account, "")
    {
      hide Deltas, ClientOpen, EventAt, ShownBefore, ReadUpTo, Reads, Prepend;
      var out: seq<Delta> := [];
      var lastEvent := "";
      StartReading(lines, sk, account);
      for i := 0 to |lines|
        invariant Reading(lines, i, sk, account, lastEvent, out)
      {
        ReadTurn(lines, i, sk, account, lastEvent, out);
        match lines[i] {
          case EventLine(name) =>
            lastEvent := name;
          case DataLine(env) =>
            if Shown(lastEvent) {
              var pt := ClientOpen(sk, env, account);
              if pt.None? {
                return None;
              }
              out := out + [Delta(lastEvent, pt.value)];
            }
          case OtherLine =>
        }
      }
      DoneReading(lines, sk, account, lastEvent, out);
      return Some(out);
    }
  }

  // ---- What reading a stream means, line by line.

  /** The name of the latest event line before line i, or nothing. */
  function EventAt(lines: seq<Line>, i: nat): string
    requires i <= |lines|
  {
    if i == 0 then ""
    else
      match lines[i - 1]
      case EventLine(name) => name
      case _ => EventAt(lines, i - 1)
  }

  /** A data line under a token or reasoning event. */
  predicate IsShown(lines: seq<Line>, i: nat)
    requires i < |lines|
  {
    lines[i].DataLine? && (EventAt(lines, i) == "token" || EventAt(lines, i) == "reasoning")
  }

  function ShownBefore(lines: seq<Line>, i: nat): nat
    requires i <= |lines|
  {
    if i == 0 then 0 else ShownBefore(lines, i - 1) + (if IsShown(lines, i - 1) then 1 else 0)
  }

  /** The envelope's ciphertext seals p under sk for this account's chat and the envelope's own version and nonce. */
  predicate Seals(env: Envelope, sk: Term, account: string, p: Term) {
    env.ct == Sealed(sk, Aad(account, CHAT_PURPOSE, env.v), env.nonce, p)
  }

  /** The deltas of the shown lines before n, in order: the k-th is the event and the body of the k-th. */
  ghost predicate ReadUpTo(lines: seq<Line>, n: nat, sk: Term, account: string, ds: seq<Delta>)
    requires n <= |lines|
  {
    && |ds| == ShownBefore(lines, n)
    && forall i: nat | i < n && IsShown(lines, i) ::
         ShownBefore(lines, i) < |ds|
         && ds[ShownBefore(lines, i)].event == EventAt(lines, i)
         && Seals(lines[i].env, sk, account, ds[ShownBefore(lines, i)].text)
  }

  /** Nothing is read exactly when some shown line seals nothing; otherwise every shown line is. */
  ghost predicate Reads(lines: seq<Line>, sk: Term, account: string, r: Option<seq<Delta>>) {
    && (r.None? <==> exists i: nat :: i < |lines| && IsShown(lines, i)
                                      && forall p :: !Seals(lines[i].env, sk, account, p))
    && (r.Some? ==> ReadUpTo(lines, |lines|, sk, account, r.value))
  }

  ghost predicate Reading(lines: seq<Line>, i: nat, sk: Term, account: string, lastEvent: string, out: seq<Delta>) {
    && i <= |lines| && lastEvent == EventAt(lines, i) && ReadUpTo(lines, i, sk, account, out)
    && Deltas(lines, sk, account, "") == Prepend(out, Deltas(lines[i..], sk, account, lastEvent))
  }

  lemma StartReading(lines: seq<Line>, sk: Term, account: string)
    ensures Reading(lines, 0, sk, account, "", [])
  {
    assert lines[0..] == lines;
    PrependNothing(Deltas(lines, sk, account, ""));
  }

  lemma ReadTurn(lines: seq<Line>, i: nat, sk: Term, account: string, lastEvent: string, out: seq<Delta>)
    requires i < |lines| && Reading(lines, i, sk, account, lastEvent, out)
    ensures lines[i].EventLine? ==> Reading(lines, i + 1, sk, account, lines[i].name, out)
    ensures lines[i].OtherLine? || (lines[i].DataLine? && !Shown(lastEvent)) ==>
              Reading(lines, i + 1, sk, account, lastEvent, out)
    ensures lines[i].DataLine? && Shown(lastEvent) ==>
              var pt := ClientOpen(sk, lines[i].env, account);
              if pt.None? then Reads(lines, sk, account, None) && Deltas(lines, sk, account, "") == None
              else Reading(lines, i + 1, sk, account, lastEvent, out + [Delta(lastEvent, pt.value)])
  {
    hide ReadUpTo, Aad;
    assert lines[i..][1..] == lines[i + 1..];
    if lines[i].DataLine? && Shown(lastEvent) {
      var pt := ClientOpen(sk, lines[i].env, account);
      if pt.Some? {
        ReadShown(lines, i, sk, account, out, pt.value);
        PrependTwice(out, Delta(lastEvent, pt.value), Deltas(lines[i + 1..], sk, account, lastEvent));
      } else {
        assert IsShown(lines, i) && forall p :: !Seals(lines[i].env, sk, account, p);
      }
    } else {
      ReadOther(lines, i, sk, account, out);
    }
  }

  lemma ReadShown(lines: seq<Line>, i: nat, sk: Term, account: string, out: seq<Delta>, p: Term)
    requires i < |lines| && IsShown(lines, i) && ReadUpTo(lines, i, sk, account, out)
    requires Seals(lines[i].env, sk, account, p)
    ensures ReadUpTo(lines, i + 1, sk, account, out + [Delta(EventAt(lines, i), p)])
  {
    hide Seals, EventAt;
  }

  lemma ReadOther(lines: seq<Line>, i: nat, sk: Term, account: string, out: seq<Delta>)
    requires i < |lines| && !IsShown(lines, i) && ReadUpTo(lines, i, sk, account, out)
    ensures ReadUpTo(lines, i + 1, sk, account, out)
  {
    hide Seals, EventAt;
  }

  lemma DoneReading(lines: seq<Line>, sk: Term, account: string, lastEvent: string, out: seq<Delta>)
    requires Reading(lines, |lines|, sk, account, lastEvent, out)
    ensures Reads(lines, sk, account, Some(out)) && Deltas(lines, sk, account, "") == Some(out)
  {
    assert lines[|lines|..] == [] && out + [] == out;
    forall i: nat | i < |lines| && IsShown(lines, i) ensures exists p :: Seals(lines[i].env, sk, account, p) {
      assert Seals(lines[i].env, sk, account, out[ShownBefore(lines, i)].text);
    }
  }

  /** `open_chat`: the AAD is derived, the wire field is not looked at. */
  function ClientOpen(sk: Term, env: Envelope, account: string): Option<Term> {
    Decrypt(sk, Aad(account, CHAT_PURPOSE, env.v), env.nonce, env.ct)
  }

  function Prepend(ds: seq<Delta>, rest: Option<seq<Delta>>): Option<seq<Delta>> {
    if rest.None? then None else Some(ds + rest.value)
  }

  lemma PrependNothing(rest: Option<seq<Delta>>)
    ensures Prepend([], rest) == rest
  {
    if rest.Some? {
      assert [] + rest.value == rest.value;
    }
  }

  lemma PrependTwice(ds: seq<Delta>, d: Delta, rest: Option<seq<Delta>>)
    ensures Prepend(ds + [d], rest) == Prepend(ds, Prepend([d], rest))
  {
    if rest.Some? {
      assert (ds + [d]) + rest.value == ds + ([d] + rest.value);
    }
  }

  /** The shown deltas of a stream, or None if one of them does not open. */
  function Deltas(lines: seq<Line>, sk: Term, account: string, lastEvent: string): Option<seq<Delta>> {
    if lines == [] then Some([])
    else
      match lines[0]
      case EventLine(name) => Deltas(lines[1..], sk, account, name)
      case OtherLine => Deltas(lines[1..], sk, account, lastEvent)
      case DataLine(env) =>
        if !Shown(lastEvent) then Deltas(lines[1..], sk, account, lastEvent)
        else
          match ClientOpen(sk, env, account)
          case None => None
          case Some(pt) => Prepend([Delta(lastEvent, pt)], Deltas(lines[1..], sk, account, lastEvent))
  }

  /** The stream the enclave writes for a reply: per delta an event line, a sealed data line, a blank line. */
  function StreamOf(ds: seq<Delta>, sk: Term, account: string, nonce: nat): seq<Line> {
    if ds == [] then []
    else [EventLine(ds[0].event),
          DataLine(SealEnvelope(sk, ds[0].text, account, CHAT_PURPOSE, ENVELOPE_V, nonce)),
          OtherLine] + StreamOf(ds[1..], sk, account, nonce + 1)
  }

  /** The client recovers the enclave's deltas, in order, and skips every event it does not show. */
  lemma {:induction false} StreamRoundTrip(ds: seq<Delta>, sk: Term, account: string, nonce: nat, lastEvent: string)
    ensures Deltas(StreamOf(ds, sk, account, nonce), sk, account, lastEvent) == Some(OnlyShown(ds))
  {
    if ds != [] {
      var lines, event := StreamOf(ds, sk, account, nonce), ds[0].event;
      var rest := StreamOf(ds[1..], sk, account, nonce + 1);
      StreamRoundTrip(ds[1..], sk, account, nonce + 1, event);
      assert lines[1..][1..][1..] == rest;
      assert Deltas(lines[1..][1..], sk, account, event) == Some(OnlyShown(ds[1..]));
      var env := lines[1].env;
      assert ClientOpen(sk, env, account) == Some(ds[0].text);
      assert lines[1..][0] == DataLine(env) && lines[0] == EventLine(event);
      assert [] + OnlyShown(ds[1..]) == OnlyShown(ds[1..]);
      assert Deltas(lines[1..], sk, account, event) == Some(OnlyShown(ds));
    }
  }

  function OnlyShown(ds: seq<Delta>): seq<Delta> {
    if ds == [] then [] else (if Shown(ds[0].event) then [ds[0]] else []) + OnlyShown(ds[1..])
  }
}
