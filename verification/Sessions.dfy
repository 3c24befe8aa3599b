/**
 The enclave's session holder (gateway/app/session.py): one key pair per process and one
 session per account, and what any sequence of its operations leads to.
 */
module Sessions {
  import opened Wrappers
  import opened Text
  import opened Symbolic

  datatype Session = Session(sk: Term, wmk: Term)

  /** The nonce, aad and ct fields of a wire envelope, with its version. */
  datatype Envelope = Envelope(nonce: nat, aad: Term, ct: Term, v: int)

  /** `_open`: the wire AAD is checked against the derived one before decrypting. */
  function OpenEnvelope(sk: Term, env: Envelope, account: string, purpose: string): Option<Term> {
    var expected := Aad(account, purpose, env.v);
    if expected != env.aad then None else Decrypt(sk, expected, env.nonce, env.ct)
  }

  function SealEnvelope(sk: Term, plaintext: Term, account: string, purpose: string, v: int, nonce: nat): Envelope {
    var aad := Aad(account, purpose, v);
    Envelope(nonce, aad, Sealed(sk, aad, nonce, plaintext), v)
  }

  function Established(cvm: KeyId, account: string, clientPub: Term, env: Envelope): Option<Session> {
    match DeriveSessionKey(PrivateKey(cvm), clientPub, clientPub, PublicKey(cvm))
    case None => None
    case Some(sk) =>
      match OpenEnvelope(sk, env, account, WMK_DELIVERY_PURPOSE)
      case None => None
      case Some(wmk) => Some(Session(sk, wmk))
  }

  /** No session; an AAD for another account, purpose or version; a tag that does not verify. */
  datatype OpenError = NotEstablished | NotBound | NotAuthentic

  class SessionManager {
    const cvm: KeyId
    var sessions: map<string, Session>

    constructor (cvm: KeyId)
      ensures this.cvm == cvm && sessions == map[]
    {
      this.cvm, sessions := cvm, map[];
    }

    method Establish(account: string, clientPub: Term, env: Envelope) returns (ok: bool)
      modifies this
      ensures ok <==> Established(cvm, account, clientPub, env).Some?
      ensures clientPub == LowOrderPoint ==> !ok
      ensures sessions == if ok then old(sessions)[account := Established(cvm, account, clientPub, env).value]
                          else old(sessions)
    {
      var sk := DeriveSessionKey(PrivateKey(cvm), clientPub, clientPub, PublicKey(cvm));
      if sk.None? {
        return false;
      }
      var wmk := OpenEnvelope(sk.value, env, account, WMK_DELIVERY_PURPOSE);
      if wmk.None? {
        return false;
      }
      sessions := sessions[account := Session(sk.value, wmk.value)];
      return true;
    }

    method WmkFor(account: string) returns (wmk: Option<Term>)
      ensures wmk == if account in sessions then Some(sessions[account].wmk) else None
    {
      wmk := if account in sessions then Some(sessions[account].wmk) else None;
    }

    method OpenFor(account: string, env: Envelope, purpose: string) returns (r: Result<Term, OpenError>)
      ensures r == Err(NotEstablished) <==> account !in sessions
      ensures r == Err(NotBound) <==> account in sessions && env.aad != Aad(account, purpose, env.v)
      ensures account in sessions ==>
                match OpenEnvelope(sessions[account].sk, env, account, purpose)
                case Some(p) => r == Ok(p)
                case None => r.Err?
    {
      if account !in sessions {
        return Err(NotEstablished);
      }
      if env.aad != Aad(account, purpose, env.v) {
        return Err(NotBound);
      }
      var p := OpenEnvelope(sessions[account].sk, env, account, purpose);
      r := if p.Some? then Ok(p.value) else Err(NotAuthentic);
    }

    method SealFor(account: string, plaintext: Term, purpose: string, v: int, nonce: nat)
      returns (env: Option<Envelope>)
      ensures env == if account in sessions
                     then Some(SealEnvelope(sessions[account].sk, plaintext, account, purpose, v, nonce)) else None
    {
      if account !in sessions {
        return None;
      }
      env := Some(SealEnvelope(sessions[account].sk, plaintext, account, purpose, v, nonce));
    }

    method End(account: string)
      modifies this
      ensures sessions == old(sessions) - {account}
    {
      sessions := sessions - {account};
    }
  }

  // ---- Runs of the four operations.

  datatype Operation =
    | Establish(account: string, clientPub: Term, env: Envelope)
    | Open(account: string, env: Envelope, purpose: string)
    | Seal(account: string, plaintext: Term, purpose: string, v: int, nonce: nat)
    | End(account: string)

  type Table = map<string, Session>

  function After(cvm: KeyId, t: Table, op: Operation): Table {
    match op
    case Establish(a, pub, env) =>
      (match Established(cvm, a, pub, env)
       case None => t
       case Some(s) => t[a := s])
    case End(a) => t - {a}
    case _ => t
  }

  function AfterAll(cvm: KeyId, ops: seq<Operation>): Table {
    if ops == [] then map[] else After(cvm, AfterAll(cvm, ops[..|ops| - 1]), ops[|ops| - 1])
  }

  /** The place of the account's latest successful establish with no end after it. */
  ghost predicate IsLatest(cvm: KeyId, ops: seq<Operation>, account: string, i: nat) {
    && i < |ops| && ops[i].Establish? && ops[i].account == account
    && Established(cvm, account, ops[i].clientPub, ops[i].env).Some?
    && forall k | i < k < |ops| && ops[k].account == account ::
         && !ops[k].End?
         && (ops[k].Establish? ==> Established(cvm, account, ops[k].clientPub, ops[k].env).None?)
  }

  /** Does the operation set up or drop the account's session? */
  predicate Touches(cvm: KeyId, op: Operation, account: string) {
    && op.account == account
    && (op.End? || (op.Establish? && Established(cvm, account, op.clientPub, op.env).Some?))
  }

  lemma LatestKept(cvm: KeyId, before: seq<Operation>, op: Operation, account: string, i: nat)
    requires !Touches(cvm, op, account)
    ensures IsLatest(cvm, before + [op], account, i) <==> IsLatest(cvm, before, account, i)
  {
    var ops := before + [op];
    assert ops[|before|] == op;
    assert forall k | 0 <= k < |before| :: ops[k] == before[k];
  }

  /** The table holds, for each account, exactly what its latest un-ended establish set up. */
  lemma {:induction false} LatestEstablish(cvm: KeyId, ops: seq<Operation>, account: string)
    ensures account in AfterAll(cvm, ops) <==> exists i: nat :: IsLatest(cvm, ops, account, i)
    ensures forall i: nat | IsLatest(cvm, ops, account, i) ::
              Established(cvm, account, ops[i].clientPub, ops[i].env) == Some(AfterAll(cvm, ops)[account])
  {
    if ops != [] {
      var n := |ops| - 1;
      var before, op := ops[..n], ops[n];
      assert ops == before + [op];
      if Touches(cvm, op, account) {
        forall i: nat ensures IsLatest(cvm, ops, account, i) <==> op.Establish? && i == n {
          assert IsLatest(cvm, before + [op], account, i) <==> op.Establish? && i == |before| by {
            var ops := before + [op];
            assert ops[|before|] == op;
          }
        }
        assert op.Establish? ==> IsLatest(cvm, ops, account, n);
      } else {
        LatestEstablish(cvm, before, account);
        forall i: nat ensures IsLatest(cvm, ops, account, i) <==> IsLatest(cvm, before, account, i) {
          LatestKept(cvm, before, op, account, i);
        }
        assert account in AfterAll(cvm, ops) <==> account in AfterAll(cvm, before);
      }
    }
  }

  /**
   Opening for an account gives p exactly when the blob sealed p under the session key of
   the account's latest un-ended establish, bound to this account, purpose and version.
   */
  lemma OpenExact(cvm: KeyId, ops: seq<Operation>, account: string, env: Envelope, purpose: string, p: Term)
    ensures var t := AfterAll(cvm, ops);
            (account in t && OpenEnvelope(t[account].sk, env, account, purpose) == Some(p))
            <==>
            (exists i: nat :: IsLatest(cvm, ops, account, i) &&
               var sk := Established(cvm, account, ops[i].clientPub, ops[i].env).value.sk;
               env == SealEnvelope(sk, p, account, purpose, env.v, env.nonce))
  {
    LatestEstablish(cvm, ops, account);
    var t := AfterAll(cvm, ops);
    if account in t && OpenEnvelope(t[account].sk, env, account, purpose) == Some(p) {
      var i: nat :| IsLatest(cvm, ops, account, i);
      assert env.ct == Sealed(t[account].sk, env.aad, env.nonce, p);
      assert Established(cvm, account, ops[i].clientPub, ops[i].env).value.sk == t[account].sk;
    }
  }

  /** The WMK held for an account is the one its latest un-ended establish delivered, sealed for this account. */
  lemma WmkExact(cvm: KeyId, ops: seq<Operation>, account: string, wmk: Term)
    ensures var t := AfterAll(cvm, ops);
            (account in t && t[account].wmk == wmk)
            <==>
            (exists i: nat :: IsLatest(cvm, ops, account, i) &&
               var (sk, env) := (Established(cvm, account, ops[i].clientPub, ops[i].env).value.sk, ops[i].env);
               env == SealEnvelope(sk, wmk, account, WMK_DELIVERY_PURPOSE, env.v, env.nonce))
  {
    LatestEstablish(cvm, ops, account);
    var t := AfterAll(cvm, ops);
    if account in t {
      var i: nat :| IsLatest(cvm, ops, account, i);
      assert Established(cvm, account, ops[i].clientPub, ops[i].env) == Some(t[account]);
    }
  }

  /** What was sealed for one account, purpose and version opens for no other. */
  lemma NoCrossOpening(sk: Term, other: Term, plaintext: Term, a: string, purpose: string, v: int, nonce: nat,
                       b: string, otherPurpose: string, w: int)
    requires IsValidAccountId(a) && IsValidAccountId(b)
    requires var env := SealEnvelope(sk, plaintext, a, purpose, v, nonce);
             OpenEnvelope(other, env.(v := w), b, otherPurpose).Some?
    ensures sk == other && a == b && purpose == otherPurpose && v == w
  {
    assert '\n' !in a && '\n' !in b;
    AadInjective(a, purpose, v, b, otherPurpose, w);
  }

  ghost predicate SameFor(t: Table, u: Table, account: string) {
    (account in t <==> account in u) && (account in t ==> t[account] == u[account])
  }

  function Mine(ops: seq<Operation>, account: string): seq<Operation> {
    if ops == [] then []
    else
      var earlier := Mine(ops[..|ops| - 1], account);
      if ops[|ops| - 1].account == account then earlier + [ops[|ops| - 1]] else earlier
  }

  /** An account's session is what its own operations alone would have made it. */
  lemma {:induction false} Isolation(cvm: KeyId, ops: seq<Operation>, account: string)
    ensures SameFor(AfterAll(cvm, ops), AfterAll(cvm, Mine(ops, account)), account)
  {
    if ops != [] {
      var n := |ops| - 1;
      var earlier := Mine(ops[..n], account);
      Isolation(cvm, ops[..n], account);
      if ops[n].account == account {
        assert (earlier + [ops[n]])[..|earlier|] == earlier;
      }
    }
  }
}
