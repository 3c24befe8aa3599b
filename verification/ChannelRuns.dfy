/** Clients, an untrusted relay and enclaves, in any interleaving. */
module ChannelRuns {
  import opened Wrappers
  import opened Text
  import opened Symbolic
  import opened Attestation
  import opened Channel
  import S = Sessions

  // Everything the honest parties send goes through the relay, and everything they receive
  // is cooked by it from what it has seen. The relay runs its own key pairs and its own TDs;
  // what it cannot do is produce a quote for a measurement of genuine enclave code, except
  // by having an enclave issue it.

  /** What the relay can compute. */
  datatype Recipe =
    | Seen(t: Term)
    | Write(text: string)
    | OwnKey(n: nat)
    | AnyPublicKey(id: KeyId)
    | LowOrder
    | Digest(of: Recipe)
    | Agree(priv: Recipe, point: Recipe)
    | Derive(secret: Recipe, clientPub: Recipe, cvmPub: Recipe)
    | Seal(key: Recipe, aad: Recipe, nonce: nat, body: Recipe)
    | Unseal(key: Recipe, ct: Recipe)
    | ForgeQuote(measurement: string, lo: Recipe, hi: Recipe)
    | ReportLo(quote: Recipe)
    | ReportHi(quote: Recipe)

  function Cook(known: set<Term>, genuine: set<string>, r: Recipe): Option<Term> {
    match r
    case Seen(t) => if t in known then Some(t) else None
    case Write(text) => Some(Data(text))
    case OwnKey(n) => Some(PrivateKey(Relay(n)))
    case AnyPublicKey(id) => Some(PublicKey(id))
    case LowOrder => Some(LowOrderPoint)
    case Digest(x) =>
      (match Cook(known, genuine, x) case None => None case Some(t) => Some(Sha256(t)))
    case Agree(p, q) =>
      (match (Cook(known, genuine, p), Cook(known, genuine, q))
       case (Some(priv), Some(point)) => if priv.PrivateKey? then Exchange(priv, point) else None
       case _ => None)
    case Derive(s, c, e) =>
      (match (Cook(known, genuine, s), Cook(known, genuine, c), Cook(known, genuine, e))
       case (Some(secret), Some(clientPub), Some(cvmPub)) => Some(SessionKey(secret, clientPub, cvmPub))
       case _ => None)
    case Seal(k, a, nonce, b) =>
      (match (Cook(known, genuine, k), Cook(known, genuine, a), Cook(known, genuine, b))
       case (Some(key), Some(aad), Some(body)) => Some(Sealed(key, aad, nonce, body))
       case _ => None)
    case Unseal(k, c) =>
      (match (Cook(known, genuine, k), Cook(known, genuine, c))
       case (Some(key), Some(ct)) => if ct.Sealed? && ct.key == key then Some(ct.body) else None
       case _ => None)
    case ForgeQuote(m, l, h) =>
      (match (Cook(known, genuine, l), Cook(known, genuine, h))
       case (Some(lo), Some(hi)) => if m !in genuine then Some(Quote(m, lo, hi)) else None
       case _ => None)
    case ReportLo(q) =>
      (match Cook(known, genuine, q) case Some(Quote(_, lo, _)) => Some(lo) case _ => None)
    case ReportHi(q) =>
      (match Cook(known, genuine, q) case Some(Quote(_, _, hi)) => Some(hi) case _ => None)
  }

  // ---- The machine.

  datatype Stage = Asked | Stopped | Delivered(sk: Term, post: SessionPost, ready: bool, answers: Answers)

  datatype ClientRun = ClientRun(id: Identity, stage: Stage)

  datatype EnclaveRun = EnclaveRun(measurement: string, sessions: S.Table)

  /** quotes and seals record what enclaves quoted and clients sealed. */
  datatype State = State(known: set<Term>, clients: seq<ClientRun>, enclaves: seq<EnclaveRun>,
                         quotes: set<Term>, seals: set<Term>)

  /** `genuine` are the measurements that only a TD running the enclave's code can report. */
  datatype World = World(policy: Policy, pinned: PinnedSet, genuine: set<string>)

  /**
   The policy is strict, and either only genuine measurements are pinned or no quote passes at all
   because no compose hash or no workload is pinned.
   */
  predicate Guarded(w: World) {
    && w.policy.Strict?
    && (w.pinned.measurements <= w.genuine || w.pinned.composeHashes == {} || w.pinned.workloadIds == {})
  }

  const INITIAL := State({}, [], [], {}, {})

  datatype RelayAnswers = RelayAnswers(attestStatus: int, challenge: Recipe, quote: Option<Recipe>,
                                       sessionPub: Option<Recipe>, info: Option<Info>, chain: Chain,
                                       sessionStatus: int)

  datatype Event =
    | Boot(measurement: string)
    | Begin(id: Identity)
    | IssueEvidence(j: nat, challenge: Recipe)
    | Answer(i: nat, a: RelayAnswers, nonce: nat)
    | Establish(j: nat, account: string, clientPub: Recipe, nonce: nat, aad: Recipe, ct: Recipe, v: int)
    | Ask(i: nat, prompt: nat, nonce: nat)

  function CookMaybe(known: set<Term>, genuine: set<string>, r: Option<Recipe>): Option<Term> {
    if r.None? then None else Cook(known, genuine, r.value)
  }

  /** The answers client i sees: a part the relay cannot cook is missing or wrong. */
  function AnswersOf(w: World, known: set<Term>, a: RelayAnswers): Answers {
    var challenge := Cook(known, w.genuine, a.challenge);
    Answers(a.attestStatus,
            Evidence(if challenge.Some? then challenge.value else Data(""),
                     CookMaybe(known, w.genuine, a.quote), CookMaybe(known, w.genuine, a.sessionPub), a.info),
            a.chain, a.sessionStatus)
  }

  function AfterAnswer(w: World, s: State, i: nat, a: RelayAnswers, nonce: nat): State
    requires i < |s.clients| && s.clients[i].stage.Asked?
  {
    var c, answers := s.clients[i], AnswersOf(w, s.known, a);
    var out := HandshakeOf(w.policy, Some(w.pinned), c.id, Client(i), answers, nonce);
    if out.posted.None? then s.(clients := s.clients[i := c.(stage := Stopped)])
    else
      var ct := out.posted.value.sealedWmk.ct;
      var stage := Delivered(ct.key, out.posted.value, out.result.Ok?, answers);
      s.(clients := s.clients[i := c.(stage := stage)], known := s.known + {ct}, seals := s.seals + {ct})
  }

  function AfterEstablish(w: World, s: State, j: nat, account: string, clientPub: Recipe, nonce: nat, aad: Recipe,
                          ct: Recipe, v: int): State
    requires j < |s.enclaves|
  {
    match (Cook(s.known, w.genuine, clientPub), Cook(s.known, w.genuine, aad), Cook(s.known, w.genuine, ct))
    case (Some(p), Some(a), Some(c)) =>
      (match S.Established(Enclave(j), account, p, S.Envelope(nonce, a, c, v))
       case None => s
       case Some(session) =>
         var e := s.enclaves[j];
         s.(enclaves := s.enclaves[j := e.(sessions := e.sessions[account := session])]))
    case _ => s
  }

  function Step(w: World, s: State, e: Event): State {
    match e
    case Boot(m) =>
      if m in w.genuine then s.(enclaves := s.enclaves + [EnclaveRun(m, map[])]) else s
    case Begin(id) =>
      if IsValidAccountId(id.account) then
        s.(clients := s.clients + [ClientRun(id, Asked)], known := s.known + {Sha256(PublicKey(Client(|s.clients|)))})
      else s
    case IssueEvidence(j, challenge) =>
      var lo := Cook(s.known, w.genuine, challenge);
      if j < |s.enclaves| && lo.Some? then
        match EvidenceFor(lo.value, Some(PublicKey(Enclave(j))), GuestAgent(s.enclaves[j].measurement, None))
        case Some(Evidence(_, Some(quote), _, _)) => s.(known := s.known + {quote}, quotes := s.quotes + {quote})
        case _ => s
      else s
    case Answer(i, a, nonce) =>
      if i < |s.clients| && s.clients[i].stage.Asked? then AfterAnswer(w, s, i, a, nonce) else s
    case Establish(j, account, clientPub, nonce, aad, ct, v) =>
      if j < |s.enclaves| && IsValidAccountId(account) then
        AfterEstablish(w, s, j, account, clientPub, nonce, aad, ct, v)
      else s
    case Ask(i, n, nonce) =>
      if i < |s.clients| && s.clients[i].stage.Delivered? && s.clients[i].stage.ready then
        var c := s.clients[i];
        var ct := S.SealEnvelope(c.stage.sk, Prompt(n), c.id.account, CHAT_PURPOSE, ENVELOPE_V, nonce).ct;
        s.(known := s.known + {ct}, seals := s.seals + {ct})
      else s
  }

  function Reach(w: World, run: seq<Event>): State {
    if run == [] then INITIAL else Step(w, Reach(w, run[..|run| - 1]), run[|run| - 1])
  }

  // ---- What may become known.

  /** Can the relay encrypt and decrypt under t, were it to obtain every public value? */
  predicate Exposed(t: Term) {
    match t
    case PrivateKey(id) => id.Relay?
    case Agreed(ids) => exists id :: id in ids && id.Relay?
    case AgreedWith(id, _) => id.Relay?
    case SessionKey(secret, _, _) => Exposed(secret)
    case Wmk(_) => false
    case Prompt(_) => false
    case _ => true
  }

  predicate Safe(w: World, s: State, t: Term) {
    match t
    case Sealed(key, aad, nonce, body) => t in s.seals || (Exposed(key) && Safe(w, s, body))
    case Quote(m, lo, hi) => (m in w.genuine ==> t in s.quotes) && Safe(w, s, lo) && Safe(w, s, hi)
    case _ => Exposed(t)
  }

  /** Client i sealed this ciphertext, as its WMK delivery or as a prompt. */
  predicate SealedBy(s: State, i: nat, t: Term) {
    && i < |s.clients| && s.clients[i].stage.Delivered? && t.Sealed?
    && t.key == s.clients[i].stage.sk
    && var id := s.clients[i].id;
       || (t.aad == Aad(id.account, WMK_DELIVERY_PURPOSE, ENVELOPE_V) && t.body == Wmk(id.root))
       || (t.aad == Aad(id.account, CHAT_PURPOSE, ENVELOPE_V) && t.body.Prompt?)
  }

  predicate QuotedBy(w: World, s: State, j: nat, t: Term) {
    && j < |s.enclaves| && t.Quote? && s.enclaves[j].measurement == t.measurement
    && t.reportHi == Sha256(PublicKey(Enclave(j)))
  }

  /** The client's session key is the one it shares with enclave j. */
  predicate BoundTo(s: State, i: nat, j: nat)
    requires i < |s.clients| && s.clients[i].stage.Delivered?
  {
    && j < |s.enclaves|
    && s.clients[i].stage.sk == SessionKey(Agreed({Client(i), Enclave(j)}), PublicKey(Client(i)), PublicKey(Enclave(j)))
  }

  /** A session keyed to client i holds client i's key, WMK and account. */
  predicate SessionAgrees(s: State, account: string, session: S.Session) {
    session.sk.SessionKey? && session.sk.clientPub.PublicKey? && session.sk.clientPub.id.Client? ==>
      var i := session.sk.clientPub.id.i;
      && i < |s.clients| && s.clients[i].stage.Delivered? && session.sk == s.clients[i].stage.sk
      && session.wmk == Wmk(s.clients[i].id.root) && account == s.clients[i].id.account
  }

  ghost predicate Inv(w: World, s: State) {
    && (forall t | t in s.known :: Safe(w, s, t))
    && (forall t | t in s.quotes :: exists j: nat :: QuotedBy(w, s, j, t))
    && (forall t | t in s.seals :: t.Sealed? && !Exposed(t.key) && exists i: nat :: SealedBy(s, i, t))
    && (forall i | 0 <= i < |s.clients| :: IsValidAccountId(s.clients[i].id.account))
    && (forall i | 0 <= i < |s.clients| && s.clients[i].stage.Delivered? :: exists j: nat :: BoundTo(s, i, j))
    && (forall j, a | 0 <= j < |s.enclaves| && a in s.enclaves[j].sessions ::
          SessionAgrees(s, a, s.enclaves[j].sessions[a]))
  }

  // ---- The relay cooks only safe terms.

  lemma {:induction false} SafeGrows(w: World, s: State, s': State, t: Term)
    requires Safe(w, s, t) && s.quotes <= s'.quotes && s.seals <= s'.seals
    ensures Safe(w, s', t)
  {
    match t
    case Sealed(_, _, _, body) => if t !in s.seals { SafeGrows(w, s, s', body); }
    case Quote(_, lo, hi) => SafeGrows(w, s, s', lo); SafeGrows(w, s, s', hi);
    case _ =>
  }

  ghost predicate NothingLeaked(w: World, s: State) {
    && (forall t | t in s.known :: Safe(w, s, t))
    && (forall t | t in s.seals :: t.Sealed? && !Exposed(t.key))
  }

  lemma {:induction false} CookedIsSafe(w: World, s: State, r: Recipe)
    requires NothingLeaked(w, s)
    ensures Cook(s.known, w.genuine, r).Some? ==> Safe(w, s, Cook(s.known, w.genuine, r).value)
  {
    match r
    case Digest(x) => CookedIsSafe(w, s, x);
    case Agree(p, q) =>
      CookedIsSafe(w, s, p);
      CookedIsSafe(w, s, q);
      match (Cook(s.known, w.genuine, p), Cook(s.known, w.genuine, q)) {
        case (Some(PrivateKey(own)), Some(PublicKey(id))) => assert own in {own, id};
        case _ =>
      }
    case Derive(x, c, e) => CookedIsSafe(w, s, x);
    case Seal(k, a, _, b) => CookedIsSafe(w, s, k); CookedIsSafe(w, s, b);
    case Unseal(k, c) => CookedIsSafe(w, s, k); CookedIsSafe(w, s, c);
    case ForgeQuote(_, l, h) => CookedIsSafe(w, s, l); CookedIsSafe(w, s, h);
    case ReportLo(q) => CookedIsSafe(w, s, q);
    case ReportHi(q) => CookedIsSafe(w, s, q);
    case _ =>
  }

  // ---- Every step keeps the invariant.

  /** Nothing is forgotten: delivered handshakes, enclaves, quotes, seals. */
  ghost predicate Extends(s: State, s': State) {
    && |s.clients| <= |s'.clients|
    && (forall i | 0 <= i < |s.clients| && s.clients[i].stage.Delivered? :: s'.clients[i] == s.clients[i])
    && |s.enclaves| <= |s'.enclaves|
    && (forall j | 0 <= j < |s.enclaves| :: s'.enclaves[j].measurement == s.enclaves[j].measurement)
    && s.quotes <= s'.quotes && s.seals <= s'.seals
  }

  lemma Carry(w: World, s: State, s': State)
    requires Inv(w, s) && Extends(s, s')
    ensures forall t | t in s.known :: Safe(w, s', t)
    ensures forall t | t in s.quotes :: exists j: nat :: QuotedBy(w, s', j, t)
    ensures forall t | t in s.seals :: exists i: nat :: SealedBy(s', i, t)
    ensures forall i | 0 <= i < |s.clients| && s.clients[i].stage.Delivered? :: exists j: nat :: BoundTo(s', i, j)
    ensures forall a, session | SessionAgrees(s, a, session) :: SessionAgrees(s', a, session)
  {
    forall t | t in s.known ensures Safe(w, s', t) { SafeGrows(w, s, s', t); }
    forall t | t in s.quotes ensures exists j: nat :: QuotedBy(w, s', j, t) {
      var j: nat :| QuotedBy(w, s, j, t);
      assert QuotedBy(w, s', j, t);
    }
    forall t | t in s.seals ensures exists i: nat :: SealedBy(s', i, t) {
      var i: nat :| SealedBy(s, i, t);
      assert SealedBy(s', i, t);
    }
    forall i | 0 <= i < |s.clients| && s.clients[i].stage.Delivered? ensures exists j: nat :: BoundTo(s', i, j) {
      var j: nat :| BoundTo(s, i, j);
      assert BoundTo(s', i, j);
    }
  }

  lemma EvidenceKeeps(w: World, s: State, j: nat, challenge: Recipe)
    requires Inv(w, s)
    ensures Inv(w, Step(w, s, IssueEvidence(j, challenge)))
  {
    var lo := Cook(s.known, w.genuine, challenge);
    if j < |s.enclaves| && lo.Some? {
      CookedIsSafe(w, s, challenge);
      QuoteKeeps(w, s, j, lo.value);
    }
  }

  /** An enclave's quote carries a value the relay knew and the hash of the enclave's own key. */
  lemma QuoteKeeps(w: World, s: State, j: nat, lo: Term)
    requires Inv(w, s) && j < |s.enclaves| && Safe(w, s, lo)
    ensures var quote := Quote(s.enclaves[j].measurement, lo, Sha256(PublicKey(Enclave(j))));
            Inv(w, s.(known := s.known + {quote}, quotes := s.quotes + {quote}))
  {
    var quote := Quote(s.enclaves[j].measurement, lo, Sha256(PublicKey(Enclave(j))));
    var s' := s.(known := s.known + {quote}, quotes := s.quotes + {quote});
    Carry(w, s, s');
    SafeGrows(w, s, s', lo);
    assert QuotedBy(w, s', j, quote);
  }

  lemma SharedKeyHidden(c: KeyId, e: KeyId, p: Term, q: Term)
    requires !c.Relay? && !e.Relay?
    ensures !Exposed(SessionKey(Agreed({c, e}), p, q))
  {
    assert forall id | id in {c, e} :: !id.Relay?;
  }

  /** Sealing under a delivered client's key is harmless. */
  lemma SealKeeps(w: World, s: State, s': State, i: nat, j: nat, ct: Term)
    requires Inv(w, s) && Extends(s, s') && i < |s'.clients|
    requires |s'.clients| == |s.clients| && s'.clients[i].id == s.clients[i].id
    requires forall k | 0 <= k < |s.clients| && k != i :: s'.clients[k] == s.clients[k]
    requires s'.enclaves == s.enclaves && s'.quotes == s.quotes
    requires s'.known == s.known + {ct} && s'.seals == s.seals + {ct}
    requires SealedBy(s', i, ct) && BoundTo(s', i, j)
    ensures Inv(w, s')
  {
    Carry(w, s, s');
    SharedKeyHidden(Client(i), Enclave(j), PublicKey(Client(i)), PublicKey(Enclave(j)));
  }

  lemma AnswerKeeps(w: World, s: State, i: nat, a: RelayAnswers, nonce: nat)
    requires Guarded(w)
    requires Inv(w, s) && i < |s.clients| && s.clients[i].stage.Asked?
    ensures Inv(w, AfterAnswer(w, s, i, a, nonce))
  {
    hide Safe, Exposed, SessionAgrees, Cook;
    var s' := AfterAnswer(w, s, i, a, nonce);
    var c, answers := s.clients[i], AnswersOf(w, s.known, a);
    if HandshakeOf(w.policy, Some(w.pinned), c.id, Client(i), answers, nonce).posted.Some? {
      StrictPostsOnlyAttested(Some(w.pinned), c.id, Client(i), answers, nonce);
      CookedIsSafe(w, s, a.quote.value);
      var j: nat :| j < |s.enclaves| && answers.evidence.sessionPub.value == PublicKey(Enclave(j));
      SealKeeps(w, s, s', i, j, s'.clients[i].stage.post.sealedWmk.ct);
    } else {
      Carry(w, s, s');
    }
  }

  lemma AskKeeps(w: World, s: State, i: nat, n: nat, nonce: nat)
    requires Inv(w, s)
    ensures Inv(w, Step(w, s, Ask(i, n, nonce)))
  {
    if i < |s.clients| && s.clients[i].stage.Delivered? && s.clients[i].stage.ready {
      var c := s.clients[i];
      var ct := S.SealEnvelope(c.stage.sk, Prompt(n), c.id.account, CHAT_PURPOSE, ENVELOPE_V, nonce).ct;
      var j: nat :| BoundTo(s, i, j);
      SealKeeps(w, s, Step(w, s, Ask(i, n, nonce)), i, j, ct);
    }
  }

  /** What an enclave opens under a key it shares with client i is what client i delivered. */
  lemma EstablishedAgrees(w: World, s: State, j: nat, account: string, p: Term, env: S.Envelope)
    requires Inv(w, s) && j < |s.enclaves| && IsValidAccountId(account) && Safe(w, s, env.ct)
    requires S.Established(Enclave(j), account, p, env).Some?
    ensures SessionAgrees(s, account, S.Established(Enclave(j), account, p, env).value)
  {
    var session := S.Established(Enclave(j), account, p, env).value;
    if p.PublicKey? && p.id.Client? {
      assert session.sk == SessionKey(Agreed({Enclave(j), p.id}), p, PublicKey(Enclave(j)));
      assert env.ct == Sealed(session.sk, Aad(account, WMK_DELIVERY_PURPOSE, env.v), env.nonce, session.wmk);
      SharedKeyHidden(Enclave(j), p.id, p, PublicKey(Enclave(j)));
      assert env.ct in s.seals;
      var i: nat :| SealedBy(s, i, env.ct);
      var k: nat :| BoundTo(s, i, k);
      assert p == PublicKey(Client(i));
      var id := s.clients[i].id;
      var purpose := if env.ct.body.Prompt? then CHAT_PURPOSE else WMK_DELIVERY_PURPOSE;
      assert '\n' !in account && '\n' !in id.account;
      AadInjective(account, WMK_DELIVERY_PURPOSE, env.v, id.account, purpose, ENVELOPE_V);
    }
  }

  lemma EstablishKeeps(w: World, s: State, j: nat, account: string, clientPub: Recipe, nonce: nat, aad: Recipe,
                       ct: Recipe, v: int)
    requires Inv(w, s) && j < |s.enclaves| && IsValidAccountId(account)
    ensures Inv(w, AfterEstablish(w, s, j, account, clientPub, nonce, aad, ct, v))
  {
    hide Cook, S.Established, Exposed, SessionAgrees;
    var s' := AfterEstablish(w, s, j, account, clientPub, nonce, aad, ct, v);
    Carry(w, s, s');
    CookedIsSafe(w, s, ct);
    match (Cook(s.known, w.genuine, clientPub), Cook(s.known, w.genuine, aad), Cook(s.known, w.genuine, ct))
    case (Some(p), Some(a), Some(c)) =>
      var env := S.Envelope(nonce, a, c, v);
      if S.Established(Enclave(j), account, p, env).Some? {
        EstablishedAgrees(w, s, j, account, p, env);
      }
    case _ =>
  }

  lemma {:induction false} InvHolds(w: World, run: seq<Event>)
    requires Guarded(w)
    ensures Inv(w, Reach(w, run))
  {
    hide Cook, SessionAgrees, AfterAnswer, AfterEstablish;
    if run != [] {
      var s, e := Reach(w, run[..|run| - 1]), run[|run| - 1];
      InvHolds(w, run[..|run| - 1]);
      match e
      case Boot(_) => Carry(w, s, Step(w, s, e));
      case Begin(_) => Carry(w, s, Step(w, s, e));
      case IssueEvidence(j, challenge) => EvidenceKeeps(w, s, j, challenge);
      case Answer(i, a, nonce) =>
        if i < |s.clients| && s.clients[i].stage.Asked? { AnswerKeeps(w, s, i, a, nonce); }
      case Establish(j, account, p, nonce, aad, ct, v) =>
        if j < |s.enclaves| && IsValidAccountId(account) { EstablishKeeps(w, s, j, account, p, nonce, aad, ct, v); }
      case Ask(i, n, nonce) => AskKeeps(w, s, i, n, nonce);
    }
  }

  // ---- Main results, for every run of a guarded world.

  /** What the relay makes of the run is no working-memory key, no prompt, and no client's session key. */
  ghost predicate KeepsSecret(w: World, run: seq<Event>, r: Recipe) {
    var s := Reach(w, run);
    var made := Cook(s.known, w.genuine, r);
    made.Some? ==>
      && !made.value.Wmk? && !made.value.Prompt?
      && forall i | 0 <= i < |s.clients| && s.clients[i].stage.Delivered? :: made.value != s.clients[i].stage.sk
  }

  /** Whatever it does, the relay never computes a working-memory key, a prompt, or a client's session key. */
  lemma Secrecy(w: World, run: seq<Event>, r: Recipe)
    requires Guarded(w)
    ensures KeepsSecret(w, run, r)
  {
    InvHolds(w, run);
    var s := Reach(w, run);
    CookedIsSafe(w, s, r);
    forall i | 0 <= i < |s.clients| && s.clients[i].stage.Delivered?
      ensures !Exposed(s.clients[i].stage.sk)
    {
      var j: nat :| BoundTo(s, i, j);
    }
  }

  /**
   A delivered handshake is keyed to one genuine enclave; giving that enclave the post, over
   the same account, makes it hold exactly the client's session key and working-memory key.
   */
  lemma DeliveryAgrees(w: World, run: seq<Event>, i: nat)
    requires Guarded(w)
    requires var s := Reach(w, run); i < |s.clients| && s.clients[i].stage.Delivered?
    ensures var s := Reach(w, run);
            var c := s.clients[i];
            exists j: nat :: j < |s.enclaves| && BoundTo(s, i, j)
              && S.Established(Enclave(j), c.id.account, c.stage.post.clientPub, c.stage.post.sealedWmk)
                 == Some(S.Session(c.stage.sk, Wmk(c.id.root)))
  {
    InvHolds(w, run);
    PostsAreKept(w, run, i);
    var s := Reach(w, run);
    var j: nat :| BoundTo(s, i, j);
    KeyAgreement(Client(i), Enclave(j));
  }

  /** A session an enclave keeps under client i's public key is client i's own, with its WMK and account. */
  lemma SessionsAreGenuine(w: World, run: seq<Event>, j: nat, account: string)
    requires Guarded(w)
    requires var s := Reach(w, run); j < |s.enclaves| && account in s.enclaves[j].sessions
    ensures SessionAgrees(Reach(w, run), account, Reach(w, run).enclaves[j].sessions[account])
  {
    InvHolds(w, run);
  }

  /** What a delivered client posted is the post of its own identity under its own key. */
  lemma {:induction false} PostsAreKept(w: World, run: seq<Event>, i: nat)
    requires w.policy.Strict?
    requires var s := Reach(w, run); i < |s.clients| && s.clients[i].stage.Delivered?
    ensures var c := Reach(w, run).clients[i];
            c.stage.post == SessionPostOf(c.id, Client(i), c.stage.sk, c.stage.post.sealedWmk.nonce)
  {
    if run != [] {
      var before, e := Reach(w, run[..|run| - 1]), run[|run| - 1];
      if i < |before.clients| && before.clients[i].stage.Delivered? {
        PostsAreKept(w, run[..|run| - 1], i);
      } else if e.Answer? && e.i == i {
        var answers := AnswersOf(w, before.known, e.a);
        StrictPostsOnlyAttested(Some(w.pinned), before.clients[i].id, Client(i), answers, e.nonce);
      }
    }
  }

  lemma ReachOne(w: World, run: seq<Event>, e: Event)
    ensures Reach(w, run + [e]) == Step(w, Reach(w, run), e)
  {
    assert (run + [e])[..|run|] == run;
  }

  // ---- An honest relay delivers.

  function PairKey(c: KeyId, e: KeyId): Term { SessionKey(Agreed({c, e}), PublicKey(c), PublicKey(e)) }

  const HELLO: Recipe := Digest(AnyPublicKey(Client(0)))

  lemma HelloCooks(known: set<Term>, genuine: set<string>)
    ensures Cook(known, genuine, HELLO) == Some(Sha256(PublicKey(Client(0))))
  {
    assert Cook(known, genuine, AnyPublicKey(Client(0))) == Some(PublicKey(Client(0)));
  }

  function HonestQuote(m: string): Term { Quote(m, Sha256(PublicKey(Client(0))), Sha256(PublicKey(Enclave(0)))) }

  function Begun(m: string, id: Identity): State {
    State({Sha256(PublicKey(Client(0)))}, [ClientRun(id, Asked)], [EnclaveRun(m, map[])], {}, {})
  }

  function Quoted(m: string, id: Identity): State {
    var s := Begun(m, id);
    s.(known := s.known + {HonestQuote(m)}, quotes := {HonestQuote(m)})
  }

  /** An enclave boots, a client begins, the enclave issues evidence for its challenge. */
  lemma HonestStart(w: World, m: string, id: Identity)
    requires m in w.genuine && IsValidAccountId(id.account)
    ensures Reach(w, [Boot(m)] + [Begin(id)] + [IssueEvidence(0, HELLO)]) == Quoted(m, id)
  {
    assert [] + [Boot(m)] == [Boot(m)];
    ReachOne(w, [], Boot(m));
    ReachOne(w, [Boot(m)], Begin(id));
    assert Reach(w, [Boot(m)] + [Begin(id)]) == Begun(m, id);
    ReachOne(w, [Boot(m)] + [Begin(id)], IssueEvidence(0, HELLO));
    HelloCooks(Begun(m, id).known, w.genuine);
  }

  function HonestAnswers(m: string, info: Info): RelayAnswers {
    RelayAnswers(200, HELLO, Some(Seen(HonestQuote(m))), Some(AnyPublicKey(Enclave(0))), Some(info),
                 ChainTrusted("UpToDate", true), 200)
  }

  lemma AnswerStep(w: World, m: string, id: Identity, info: Info, nonce: nat)
    requires m in w.pinned.measurements
    requires info.composeHash in w.pinned.composeHashes && info.appId in w.pinned.workloadIds
    requires info.noLog != Some(false)
    ensures var sk := PairKey(Client(0), Enclave(0));
            var post := SessionPostOf(id, Client(0), sk, nonce);
            var s' := Step(w, Quoted(m, id), Answer(0, HonestAnswers(m, info), nonce));
            && |s'.clients| == 1 && s'.clients[0].id == id && s'.clients[0].stage.Delivered?
            && s'.clients[0].stage.sk == sk && s'.clients[0].stage.post == post
            && s'.enclaves == [EnclaveRun(m, map[])] && post.sealedWmk.ct in s'.known
  {
    var s, a := Quoted(m, id), HonestAnswers(m, info);
    HelloCooks(s.known, w.genuine);
    assert AnswersOf(w, s.known, a).evidence
        == Evidence(Sha256(PublicKey(Client(0))), Some(HonestQuote(m)), Some(PublicKey(Enclave(0))), Some(info));
  }

  lemma EstablishStep(w: World, s: State, id: Identity, nonce: nat)
    requires IsValidAccountId(id.account) && |s.enclaves| == 1 && s.enclaves[0].sessions == map[]
    requires SessionPostOf(id, Client(0), PairKey(Client(0), Enclave(0)), nonce).sealedWmk.ct in s.known
    ensures var sk := PairKey(Client(0), Enclave(0));
            var ct := SessionPostOf(id, Client(0), sk, nonce).sealedWmk.ct;
            var aad := Digest(Write(AadText(id.account, WMK_DELIVERY_PURPOSE, ENVELOPE_V)));
            var s' := Step(w, s, Establish(0, id.account, AnyPublicKey(Client(0)), nonce, aad, Seen(ct), ENVELOPE_V));
            && s'.clients == s.clients && |s'.enclaves| == 1
            && s'.enclaves[0].sessions == map[id.account := S.Session(sk, Wmk(id.root))]
  {
    var sk := PairKey(Client(0), Enclave(0));
    var env := SessionPostOf(id, Client(0), sk, nonce).sealedWmk;
    var text := Write(AadText(id.account, WMK_DELIVERY_PURPOSE, ENVELOPE_V));
    assert Cook(s.known, w.genuine, text) == Some(Data(text.text));
    assert Cook(s.known, w.genuine, Digest(text)) == Some(env.aad);
    KeyAgreement(Client(0), Enclave(0));
    assert S.Established(Enclave(0), id.account, PublicKey(Client(0)), env) == Some(S.Session(sk, Wmk(id.root)));
  }

  /** With an honest relay the enclave ends up holding the client's WMK under the client's key. */
  lemma HonestRelayDelivers(w: World, id: Identity, m: string, info: Info, nonce: nat) returns (run: seq<Event>)
    requires IsValidAccountId(id.account) && m in w.genuine && m in w.pinned.measurements
    requires info.composeHash in w.pinned.composeHashes && info.appId in w.pinned.workloadIds
    requires info.noLog != Some(false)
    ensures var s := Reach(w, run);
            && |s.enclaves| == 1 && |s.clients| == 1 && s.clients[0].stage.Delivered?
            && s.enclaves[0].sessions == map[id.account := S.Session(s.clients[0].stage.sk, Wmk(id.root))]
  {
    HonestStart(w, m, id);
    var r3 := [Boot(m)] + [Begin(id)] + [IssueEvidence(0, HELLO)];
    var e4 := Answer(0, HonestAnswers(m, info), nonce);
    ReachOne(w, r3, e4);
    AnswerStep(w, m, id, info, nonce);
    var ct := SessionPostOf(id, Client(0), PairKey(Client(0), Enclave(0)), nonce).sealedWmk.ct;
    var aad := Digest(Write(AadText(id.account, WMK_DELIVERY_PURPOSE, ENVELOPE_V)));
    var e5 := Establish(0, id.account, AnyPublicKey(Client(0)), nonce, aad, Seen(ct), ENVELOPE_V);
    ReachOne(w, r3 + [e4], e5);
    EstablishStep(w, Reach(w, r3 + [e4]), id, nonce);
    run := r3 + [e4] + [e5];
  }

  // ---- Unguarded worlds do not protect the WMK.

  function OwnAnswers(): RelayAnswers {
    RelayAnswers(200, HELLO, Some(Write("")), Some(AnyPublicKey(Relay(0))), None, ChainRejected(OtherMessage), 200)
  }

  /** The relay runs its own TD of measurement m and writes `info` as it likes. */
  function OwnQuoteAnswers(m: string, info: Info): RelayAnswers {
    RelayAnswers(200, HELLO, Some(ForgeQuote(m, HELLO, Digest(AnyPublicKey(Relay(0))))), Some(AnyPublicKey(Relay(0))),
                 Some(info), ChainTrusted("UpToDate", true), 200)
  }

  /** The ciphertext of client 0's WMK under the key it shares with the relay. */
  function Leaked(id: Identity): Term { SessionPostOf(id, Client(0), PairKey(Client(0), Relay(0)), 0).sealedWmk.ct }

  lemma OwnKeyOpens(known: set<Term>, genuine: set<string>, ct: Term) returns (r: Recipe)
    requires ct in known && ct.Sealed? && ct.key == PairKey(Client(0), Relay(0))
    ensures Cook(known, genuine, r) == Some(ct.body)
  {
    var mine, theirs, own := OwnKey(0), AnyPublicKey(Client(0)), AnyPublicKey(Relay(0));
    assert Cook(known, genuine, mine) == Some(PrivateKey(Relay(0)));
    assert Cook(known, genuine, theirs) == Some(PublicKey(Client(0)));
    assert {Relay(0), Client(0)} == {Client(0), Relay(0)};
    assert Cook(known, genuine, Agree(mine, theirs)) == Some(Agreed({Client(0), Relay(0)}));
    assert Cook(known, genuine, own) == Some(PublicKey(Relay(0)));
    var key := Derive(Agree(mine, theirs), theirs, own);
    assert Cook(known, genuine, key) == Some(ct.key);
    assert Cook(known, genuine, Seen(ct)) == Some(ct);
    r := Unseal(key, Seen(ct));
  }

  /** Under any policy but 'strict' a relay that answers with its own key obtains the WMK. */
  lemma OtherPoliciesLeak(w: World, id: Identity) returns (run: seq<Event>, r: Recipe)
    requires !w.policy.Strict? && IsValidAccountId(id.account)
    ensures Cook(Reach(w, run).known, w.genuine, r) == Some(Wmk(id.root))
  {
    ReachOne(w, [], Begin(id));
    var r1 := [] + [Begin(id)];
    ReachOne(w, r1, Answer(0, OwnAnswers(), 0));
    HelloCooks(Reach(w, r1).known, w.genuine);
    assert AnswersOf(w, Reach(w, r1).known, OwnAnswers()).evidence
        == Evidence(Sha256(PublicKey(Client(0))), Some(Data("")), Some(PublicKey(Relay(0))), None);
    run := r1 + [Answer(0, OwnAnswers(), 0)];
    r := OwnKeyOpens(Reach(w, run).known, w.genuine, Leaked(id));
  }

  /**
   Under every policy a relay whose own TD can report a pinned measurement obtains the WMK, whatever
   is pinned besides: the compose hash and the workload are read from `info`, which no quote covers.
   */
  lemma PinnedImageLeaks(w: World, id: Identity, m: string, info: Info) returns (run: seq<Event>, r: Recipe)
    requires IsValidAccountId(id.account) && m in w.pinned.measurements && m !in w.genuine
    requires info.composeHash in w.pinned.composeHashes && info.appId in w.pinned.workloadIds
    requires info.noLog != Some(false)
    ensures Cook(Reach(w, run).known, w.genuine, r) == Some(Wmk(id.root))
  {
    ReachOne(w, [], Begin(id));
    var r1 := [] + [Begin(id)];
    ReachOne(w, r1, Answer(0, OwnQuoteAnswers(m, info), 0));
    var s := Reach(w, r1);
    HelloCooks(s.known, w.genuine);
    var own := AnyPublicKey(Relay(0));
    assert Cook(s.known, w.genuine, own) == Some(PublicKey(Relay(0)));
    assert Cook(s.known, w.genuine, Digest(own)) == Some(Sha256(PublicKey(Relay(0))));
    var quote := Quote(m, Sha256(PublicKey(Client(0))), Sha256(PublicKey(Relay(0))));
    assert AnswersOf(w, s.known, OwnQuoteAnswers(m, info)).evidence
        == Evidence(Sha256(PublicKey(Client(0))), Some(quote), Some(PublicKey(Relay(0))), Some(info));
    run := r1 + [Answer(0, OwnQuoteAnswers(m, info), 0)];
    r := OwnKeyOpens(Reach(w, run).known, w.genuine, Leaked(id));
  }

  /** The channel keeps its secrets in every run exactly when the world is guarded. */
  lemma SecrecyIff(w: World)
    ensures (forall run, r :: KeepsSecret(w, run, r)) <==> Guarded(w)
  {
    if Guarded(w) {
      forall run, r ensures KeepsSecret(w, run, r) { Secrecy(w, run, r); }
    } else {
      var run, r := SomeLeak(w);
      assert !KeepsSecret(w, run, r);
    }
  }

  lemma SomeLeak(w: World) returns (run: seq<Event>, r: Recipe)
    requires !Guarded(w)
    ensures !KeepsSecret(w, run, r)
  {
    hide Reach, Cook;
    var id := Identity(0, "0123456789abcdef");
    if !w.policy.Strict? {
      run, r := OtherPoliciesLeak(w, id);
    } else {
      var m :| m in w.pinned.measurements && m !in w.genuine;
      var c :| c in w.pinned.composeHashes;
      var a :| a in w.pinned.workloadIds;
      run, r := PinnedImageLeaks(w, id, m, Info(c, a, None));
    }
  }
}
