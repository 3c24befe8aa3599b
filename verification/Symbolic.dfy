/**
 Cryptography as free terms: X25519 agreement, HKDF, SHA-256, XChaCha20-Poly1305 and TDX
 quotes (caladon-core/src/session.rs, caladon-core/src/envelope.rs, gateway/app/session.py).
 Two byte strings are equal exactly when their terms are.
 */
module Symbolic {
  import opened Wrappers
  import opened Text

  datatype KeyId = Client(i: nat) | Enclave(j: nat) | Relay(n: nat)

  datatype Term =
    | Data(text: string)
    | PrivateKey(id: KeyId)
    | PublicKey(id: KeyId)
    | LowOrderPoint
    | Agreed(ids: set<KeyId>)                      // X25519 of two key pairs
    | AgreedWith(id: KeyId, point: Term)           // X25519 with a point that is no one's public key
    | Sha256(of: Term)
    | SessionKey(secret: Term, clientPub: Term, cvmPub: Term)   // HKDF, info = label, both keys
    | Wmk(root: nat)                               // the user's working-memory key
    | Prompt(n: nat)                               // a user's plaintext
    | Sealed(key: Term, aad: Term, nonce: nat, body: Term)
    | Quote(measurement: string, reportLo: Term, reportHi: Term)

  const WMK_DELIVERY_PURPOSE := "wmk-delivery"
  const CHAT_PURPOSE := "chat"
  const ENVELOPE_V := 1

  /** X25519: None where the result is the all-zero point and the library refuses. */
  function Exchange(priv: Term, point: Term): Option<Term>
    requires priv.PrivateKey?
  {
    match point
    case LowOrderPoint => None
    case PublicKey(id) => Some(Agreed({priv.id, id}))
    case _ => Some(AgreedWith(priv.id, point))
  }

  function DeriveSessionKey(priv: Term, their: Term, clientPub: Term, cvmPub: Term): (sk: Option<Term>)
    requires priv.PrivateKey?
    ensures sk.None? <==> their == LowOrderPoint
  {
    match Exchange(priv, their)
    case None => None
    case Some(secret) => Some(SessionKey(secret, clientPub, cvmPub))
  }

  function AadText(account: string, purpose: string, v: int): string {
    account + "\n" + purpose + "\n" + IntToString(v)
  }

  function Aad(account: string, purpose: string, v: int): Term {
    Sha256(Data(AadText(account, purpose, v)))
  }

  function Decrypt(key: Term, aad: Term, nonce: nat, ct: Term): Option<Term> {
    if ct.Sealed? && ct.key == key && ct.aad == aad && ct.nonce == nonce then Some(ct.body) else None
  }

  /** Both sides derive the same key: each from its own private key and the other's public key. */
  lemma KeyAgreement(c: KeyId, e: KeyId)
    ensures DeriveSessionKey(PrivateKey(c), PublicKey(e), PublicKey(c), PublicKey(e))
         == DeriveSessionKey(PrivateKey(e), PublicKey(c), PublicKey(c), PublicKey(e))
  {
    assert {c, e} == {e, c};
  }

  /**
   The joined associated data determines all three fields as soon as the accounts, or the
   purposes, are free of newlines (the printed version always is).
   */
  lemma AadInjective(a: string, p: string, v: int, b: string, q: string, w: int)
    requires AadText(a, p, v) == AadText(b, q, w)
    requires ('\n' !in a && '\n' !in b) || ('\n' !in p && '\n' !in q)
    ensures a == b && p == q && v == w
  {
    var s, t := IntToString(v), IntToString(w);
    assert '\n' !in s && '\n' !in t;
    assert AadText(a, p, v) == (a + "\n" + p) + ['\n'] + s;
    assert AadText(b, q, w) == (b + "\n" + q) + ['\n'] + t;
    SplitLast(a + "\n" + p, b + "\n" + q, s, t, '\n');
    if '\n' !in a && '\n' !in b {
      SplitFirst(a, b, p, q, '\n');
    } else {
      SplitLast(a, b, p, q, '\n');
    }
    IntToStringInjective(v, w);
  }

  /** The text is three lines: the account, the purpose, the version in decimal. */
  lemma AadReads(a: string, p: string, v: int)
    ensures var s := AadText(a, p, v);
            && |s| == |a| + |p| + |IntToString(v)| + 2
            && s[..|a|] == a && s[|a|] == '\n'
            && s[|a| + 1..|a| + 1 + |p|] == p && s[|a| + 1 + |p|] == '\n'
            && s[|a| + |p| + 2..] == IntToString(v)
  {
    assert AadText(a, p, v) == a + ("\n" + (p + ("\n" + IntToString(v))));
  }

  /** No other account, purpose and version give the same text. */
  ghost predicate OnlyContext(a: string, p: string, v: int) {
    forall b, q, w | AadText(b, q, w) == AadText(a, p, v) :: b == a && q == p && w == v
  }

  /** The fields cannot be cut differently exactly when neither the account nor the purpose holds a newline. */
  lemma ContextUniqueIff(a: string, p: string, v: int)
    ensures OnlyContext(a, p, v) <==> '\n' !in a && '\n' !in p
  {
    if '\n' !in a && '\n' !in p {
      forall b, q, w | AadText(b, q, w) == AadText(a, p, v) ensures b == a && q == p && w == v {
        OnlyContextOf(a, p, v, b, q, w);
      }
    } else if '\n' in a {
      AccountCut(a, p, v);
    } else {
      PurposeCut(a, p, v);
    }
  }

  lemma AccountCut(a: string, p: string, v: int)
    requires '\n' in a
    ensures !OnlyContext(a, p, v)
  {
    var b, rest := CutAtFirst(a, '\n');
    var q := rest + "\n" + p;
    assert a + "\n" + p == b + "\n" + q;
    assert AadText(b, q, v) == AadText(a, p, v) && |q| != |p|;
  }

  lemma PurposeCut(a: string, p: string, v: int)
    requires '\n' in p
    ensures !OnlyContext(a, p, v)
  {
    var before, q := CutAtFirst(p, '\n');
    var b := a + "\n" + before;
    assert a + "\n" + p == b + "\n" + q;
    assert AadText(b, q, v) == AadText(a, p, v) && |q| != |p|;
  }

  lemma OnlyContextOf(a: string, p: string, v: int, b: string, q: string, w: int)
    requires AadText(a, p, v) == AadText(b, q, w) && '\n' !in a && '\n' !in p
    ensures a == b && p == q && v == w
  {
    var s, t := IntToString(v), IntToString(w);
    assert '\n' !in s && '\n' !in t;
    assert AadText(a, p, v) == (a + "\n" + p) + ['\n'] + s;
    assert AadText(b, q, w) == (b + "\n" + q) + ['\n'] + t;
    SplitLast(a + "\n" + p, b + "\n" + q, s, t, '\n');
    OnlyCut(a, b, p, q, '\n');
    IntToStringInjective(v, w);
  }
}
