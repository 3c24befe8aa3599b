/**
 The transcript ratchet (caladon-core/src/ratchet.rs) over a free-term HKDF: a key is a root
 or a derivation from another key under a label.
 */
module Ratchet {
  import opened Wrappers
  import opened Text

  datatype Key = Root(id: nat) | Hkdf(from: Key, info: string)

  const MSG_LABEL := "swifty/transcript/msg/v1"
  const CHAIN_LABEL := "swifty/transcript/chain/v1"
  const DEVICE_LABEL := "swifty/transcript/device/v1"

  datatype RatchetError = BadDeviceId | NegativeStep | BadKid

  // ---- The specification: the chain and its message keys.

  function ChainKey(root: Key, n: nat): Key {
    if n == 0 then root else Hkdf(ChainKey(root, n - 1), CHAIN_LABEL)
  }

  function MessageKey(root: Key, n: nat): Key { Hkdf(ChainKey(root, n), MSG_LABEL) }

  // ---- The code.

  /** Replay from the root: the read path. */
  method MessageKeyAt(root: Key, step: int) returns (r: Result<Key, RatchetError>)
    ensures r == if step < 0 then Err(NegativeStep) else Ok(MessageKey(root, step))
  {
    if step < 0 {
      return Err(NegativeStep);
    }
    var chainKey := root;
    for i := 0 to step
      invariant chainKey == ChainKey(root, i)
    {
      chainKey := Hkdf(chainKey, CHAIN_LABEL);
    }
    return Ok(Hkdf(chainKey, MSG_LABEL));
  }

  /** The append path; `root` says where the chain started. */
  class TranscriptRatchet {
    var chainKey: Key
    var step: int
    ghost const root: Key

    ghost predicate Valid()
      reads this
    {
      step >= -1 && chainKey == ChainKey(root, step + 1)
    }

    constructor (transcriptRoot: Key)
      ensures Valid() && root == transcriptRoot && step == -1
    {
      chainKey, step, root := transcriptRoot, -1, transcriptRoot;
    }

    method Advance() returns (at: int, messageKey: Key)
      requires Valid()
      modifies this
      ensures Valid() && step == old(step) + 1
      ensures at == step && messageKey == MessageKey(root, at)
    {
      step := step + 1;
      messageKey := Hkdf(chainKey, MSG_LABEL);
      chainKey := Hkdf(chainKey, CHAIN_LABEL);
      at := step;
    }
  }

  predicate IsValidDeviceId(d: string) { d != "" && ':' !in d && '/' !in d }

  function DeviceRoot(root: Key, device: string): Result<Key, RatchetError> {
    if IsValidDeviceId(device) then Ok(Hkdf(root, DEVICE_LABEL + "/" + device)) else Err(BadDeviceId)
  }

  // ---- What a key can be turned into: apply any labels, any number of times. HKDF takes one key,
  // so what several held keys yield is what each of them yields.

  function Apply(k: Key, labels: seq<string>): Key
    decreases |labels|
  {
    if labels == [] then k else Apply(Hkdf(k, labels[0]), labels[1..])
  }

  ghost predicate DerivableFrom(k: Key, held: Key) { exists labels :: Apply(held, labels) == k }

  /** Structurally: held is k or one of the keys k was derived from. */
  predicate Ancestor(held: Key, k: Key) { held == k || (k.Hkdf? && Ancestor(held, k.from)) }

  lemma {:induction false} ApplyIsDescendant(k: Key, labels: seq<string>)
    ensures Ancestor(k, Apply(k, labels))
    decreases |labels|
  {
    if labels != [] {
      var next := Hkdf(k, labels[0]);
      ApplyIsDescendant(next, labels[1..]);
      AncestorOfChild(k, next, Apply(next, labels[1..]));
    }
  }

  lemma {:induction false} AncestorOfChild(a: Key, b: Key, c: Key)
    requires Ancestor(a, b) && Ancestor(b, c)
    ensures Ancestor(a, c)
  {
    if b != c { AncestorOfChild(a, b, c.from); }
  }

  lemma {:induction false} DescendantApplies(held: Key, k: Key) returns (labels: seq<string>)
    requires Ancestor(held, k)
    ensures Apply(held, labels) == k
  {
    if held == k {
      labels := [];
    } else {
      labels := DescendantApplies(held, k.from);
      ApplyLast(held, labels, k.info);
      labels := labels + [k.info];
    }
  }

  lemma {:induction false} ApplyLast(k: Key, labels: seq<string>, last: string)
    ensures Apply(k, labels + [last]) == Hkdf(Apply(k, labels), last)
    decreases |labels|
  {
    if labels == [] {
      assert ([] + [last])[1..] == [];
    } else {
      assert (labels + [last])[1..] == labels[1..] + [last];
      ApplyLast(Hkdf(k, labels[0]), labels[1..], last);
    }
  }

  lemma DerivableIffAncestor(k: Key, held: Key)
    ensures DerivableFrom(k, held) <==> Ancestor(held, k)
  {
    if DerivableFrom(k, held) {
      var labels :| Apply(held, labels) == k;
      ApplyIsDescendant(held, labels);
    }
    if Ancestor(held, k) {
      var labels := DescendantApplies(held, k);
    }
  }

  function Depth(k: Key): nat { if k.Root? then 0 else 1 + Depth(k.from) }

  lemma {:induction false} ChainDepth(root: Key, n: nat)
    ensures Depth(ChainKey(root, n)) == Depth(root) + n
  {
    if n > 0 { ChainDepth(root, n - 1); }
  }

  lemma {:induction false} AncestorIsShallower(a: Key, k: Key)
    requires Ancestor(a, k)
    ensures Depth(a) <= Depth(k)
  {
    if a != k { AncestorIsShallower(a, k.from); }
  }

  /** The ancestors of a chain key above its root are the earlier chain keys. */
  lemma {:induction false} ChainAncestors(a: Key, root: Key, n: nat)
    requires Ancestor(a, ChainKey(root, n)) && Depth(a) >= Depth(root)
    ensures Depth(a) - Depth(root) <= n && a == ChainKey(root, Depth(a) - Depth(root))
  {
    ChainDepth(root, n);
    AncestorIsShallower(a, ChainKey(root, n));
    if a != ChainKey(root, n) {
      if n == 0 {
        AncestorIsShallower(a, root.from);
        assert false;
      }
      ChainAncestors(a, root, n - 1);
    }
  }

  /** A key has one ancestor of each depth. */
  lemma {:induction false} SameDepthAncestors(a: Key, b: Key, k: Key)
    requires Ancestor(a, k) && Ancestor(b, k) && Depth(a) == Depth(b)
    ensures a == b
  {
    if a == k {
      if b != k { AncestorIsShallower(b, k.from); }
    } else if b == k {
      AncestorIsShallower(a, k.from);
    } else {
      SameDepthAncestors(a, b, k.from);
    }
  }

  /**
   Forward secrecy: the chain key after n advances, together with any other message keys of
   the transcript, yields the message key of step i exactly when i >= n.
   */
  lemma ForwardSecrecy(root: Key, n: nat, i: nat)
    ensures DerivableFrom(MessageKey(root, i), ChainKey(root, n)) <==> i >= n
    ensures forall j: nat | j != i :: !DerivableFrom(MessageKey(root, i), MessageKey(root, j))
  {
    DerivableIffAncestor(MessageKey(root, i), ChainKey(root, n));
    ChainDepth(root, n);
    ChainDepth(root, i);
    if i >= n {
      LaterChain(root, n, i);
    } else if Ancestor(ChainKey(root, n), MessageKey(root, i)) {
      AncestorIsShallower(ChainKey(root, n), MessageKey(root, i));
      SameDepthAncestors(ChainKey(root, n), MessageKey(root, i), MessageKey(root, i));
    }
    forall j: nat | j != i ensures !DerivableFrom(MessageKey(root, i), MessageKey(root, j)) {
      DerivableIffAncestor(MessageKey(root, i), MessageKey(root, j));
      ChainDepth(root, j);
      if Ancestor(MessageKey(root, j), MessageKey(root, i)) {
        ChainAncestors(MessageKey(root, j), root, i);
      }
    }
  }

  lemma {:induction false} LaterChain(root: Key, n: nat, i: nat)
    requires n <= i
    ensures Ancestor(ChainKey(root, n), ChainKey(root, i))
  {
    if n < i { LaterChain(root, n, i - 1); }
  }

  // ---- Devices.

  /**
   Device independence: no key reachable from one device's chain is the shared root, or a key
   of another device, or a key of the single-device transcript.
   */
  lemma DeviceIndependence(root: Key, d: string, e: string, n: nat, labels: seq<string>, i: nat)
    requires IsValidDeviceId(d) && IsValidDeviceId(e) && d != e
    ensures var made := Apply(ChainKey(DeviceRoot(root, d).value, n), labels);
            && made != root
            && made != ChainKey(DeviceRoot(root, e).value, i) && made != MessageKey(DeviceRoot(root, e).value, i)
            && made != ChainKey(root, i) && made != MessageKey(root, i)
  {
    var mine, other := DeviceRoot(root, d).value, DeviceRoot(root, e).value;
    var made := Apply(ChainKey(mine, n), labels);
    ApplyIsDescendant(ChainKey(mine, n), labels);
    LaterChain(mine, 0, n);
    AncestorOfChild(mine, ChainKey(mine, n), made);
    AncestorIsShallower(mine, made);
    assert DEVICE_LABEL + "/" + d != DEVICE_LABEL + "/" + e by {
      assert (DEVICE_LABEL + "/" + d)[|DEVICE_LABEL| + 1..] == d;
      assert (DEVICE_LABEL + "/" + e)[|DEVICE_LABEL| + 1..] == e;
    }
    LaterChain(other, 0, i);
    if made == ChainKey(other, i) || made == MessageKey(other, i) {
      SameDepthAncestors(mine, other, made);
    }
    ChainDepth(root, i);
    if made == ChainKey(root, i) || made == MessageKey(root, i) {
      if mine != MessageKey(root, i) {
        ChainAncestors(mine, root, i);
      }
    }
  }

  // ---- Key ids.

  function TranscriptKid(step: int, device: Option<string>): Result<string, RatchetError> {
    if step < 0 then Err(NegativeStep)
    else
      match device
      case None => Ok("t" + NatToString(step))
      case Some(d) => if IsValidDeviceId(d) then Ok("t" + d + ":" + NatToString(step)) else Err(BadDeviceId)
  }

  function ParseTranscriptKid(kid: string): Result<(Option<string>, int), RatchetError> {
    if kid == "" || kid[0] != 't' then Err(BadKid)
    else
      var body := kid[1..];
      var after := FindLast(body, ':');
      if after > 0 then
        match ParseI64(body[after..])
        case None => Err(BadKid)
        case Some(step) => if after == 1 then Err(BadKid) else Ok((Some(body[..after - 1]), step))
      else
        match ParseI64(body)
        case None => Err(BadKid)
        case Some(step) => Ok((None, step))
  }

  /** The text is 't', a device id that may hold colons and a colon if there is a device, and a step. */
  ghost predicate IsKid(kid: string, device: Option<string>, digits: string) {
    && ':' !in digits
    && kid == "t" + (if device.Some? then device.value + ":" else "") + digits
    && device != Some("")
  }

  /** A key id is accepted exactly when it has this form and its step parses; everything else is a bad kid. */
  lemma KidAcceptedIff(kid: string, device: Option<string>, step: int)
    ensures ParseTranscriptKid(kid) == Ok((device, step))
            <==> exists digits :: IsKid(kid, device, digits) && ParseI64(digits) == Some(step)
    ensures ParseTranscriptKid(kid).Err? ==> ParseTranscriptKid(kid) == Err(BadKid)
  {
    hide ParseI64, FindLast;
    if ParseTranscriptKid(kid) == Ok((device, step)) {
      var body := kid[1..];
      var after := FindLast(body, ':');
      assert kid == "t" + body && body == body[..after] + body[after..];
      if after > 0 {
        assert body[..after] == body[..after - 1] + ":";
        assert IsKid(kid, device, body[after..]);
      } else {
        assert body[after..] == body;
        assert IsKid(kid, device, body);
      }
    }
    forall digits | IsKid(kid, device, digits) && ParseI64(digits) == Some(step)
      ensures ParseTranscriptKid(kid) == Ok((device, step))
    {
      KidParses(kid, device, digits, step);
    }
  }

  lemma KidParses(kid: string, device: Option<string>, digits: string, step: int)
    requires IsKid(kid, device, digits) && ParseI64(digits) == Some(step)
    ensures ParseTranscriptKid(kid) == Ok((device, step))
  {
    hide ParseI64, FindLast;
    if device.Some? {
      var d := device.value;
      assert kid[1..] == d + [':'] + digits;
      FindLastJoin(d, digits, ':');
      assert (d + [':'] + digits)[|d| + 1..] == digits && (d + [':'] + digits)[..|d|] == d;
    } else {
      assert kid[1..] == digits;
    }
  }

  /** Every key id that is printed parses back to its device and step. */
  lemma KidRoundTrip(step: int, device: Option<string>)
    requires 0 <= step <= I64_MAX && TranscriptKid(step, device).Ok?
    ensures ParseTranscriptKid(TranscriptKid(step, device).value) == Ok((device, step))
  {
    hide ParseI64, ParseTranscriptKid;
    ParsePrinted(step);
    var digits := NatToString(step);
    assert forall c | c in digits :: IsDigit(c);
    KidParses(TranscriptKid(step, device).value, device, digits, step);
  }

  /** Device ids may be neither empty nor hold a separator; steps may not be negative. */
  lemma RefusedIff(root: Key, step: int, device: string)
    ensures var separated := device == "" || exists c :: c in device && (c == ':' || c == '/');
            && (DeviceRoot(root, device) == Err(BadDeviceId) <==> separated)
            && (DeviceRoot(root, device).Ok? <==> !separated)
            && (TranscriptKid(step, Some(device)) == Err(NegativeStep) <==> step < 0)
            && (TranscriptKid(step, Some(device)) == Err(BadDeviceId) <==> step >= 0 && separated)
            && (TranscriptKid(step, None).Ok? <==> step >= 0)
  {
  }
}
