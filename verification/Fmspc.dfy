/** Finding the FMSPC of a PCK certificate (web-client/caladon/src/collateral.ts). */
module Fmspc {
  import opened Wrappers
  import opened Der

  datatype Span = Span(contentStart: nat, contentEnd: int)

  /** The identifier's tag, length and content stand at i, and at least one byte follows. */
  predicate OidAt(b: Bytes, oid: Bytes, i: nat) {
    && i + 2 + |oid| < |b|
    && b[i] == 0x06 && b[i + 1] as nat == |oid|
    && b[i + 2..i + 2 + |oid|] == oid
  }

  /** ... and what follows is an octet string. */
  predicate HitAt(b: Bytes, oid: Bytes, i: nat) { OidAt(b, oid, i) && b[i + 2 + |oid|] == 0x04 }

  ghost predicate FirstHit(b: Bytes, oid: Bytes, i: nat) {
    HitAt(b, oid, i) && forall j: nat | j < i :: !HitAt(b, oid, j)
  }

  function SpanAt(b: Bytes, oid: Bytes, i: nat): Span {
    var tlv := TlvAt(b, i + 2 + |oid|);
    Span(tlv.contentStart, tlv.contentEnd)
  }

  method FindOidValueOctetString(b: Bytes, oid: Bytes) returns (r: Option<Span>)
    ensures r.None? ==> forall i: nat :: !HitAt(b, oid, i)
    ensures r.Some? ==> exists i: nat :: FirstHit(b, oid, i) && r.value == SpanAt(b, oid, i)
  {
    var i := 0;
    while i + 2 + |oid| < |b|
      invariant forall j: nat | j < i :: !HitAt(b, oid, j)
    {
      if b[i] == 0x06 && b[i + 1] as nat == |oid| && b[i + 2..i + 2 + |oid|] == oid {
        var tlv := ReadTlv(b, i + 2 + |oid|);
        if tlv.tag == 0x04 {
          assert FirstHit(b, oid, i);
          return Some(Span(tlv.contentStart, tlv.contentEnd));
        }
      }
      i := i + 1;
    }
    return None;
  }

  // ---- Views of an array.

  /** How `subarray` reads an index: negative ones count from the end, all are clamped. */
  function Clamp(x: int, n: nat): (r: nat)
    ensures r <= n && (0 <= x <= n ==> r == x)
  {
    if x < 0 then (if n + x < 0 then 0 else n + x) else if x > n then n else x
  }

  function Subarray(b: Bytes, begin: int, end: int): Bytes {
    var lo, hi := Clamp(begin, |b|), Clamp(end, |b|);
    if lo <= hi then b[lo..hi] else []
  }

  // ---- Upper-case hex.

  function HexDigit(d: nat): (c: char)
    requires d < 16
  {
    if d < 10 then '0' + d as char else 'A' + (d - 10) as char
  }

  function HexValue(c: char): nat {
    if '0' <= c <= '9' then (c - '0') as nat else if 'A' <= c <= 'F' then (c - 'A') as nat + 10 else 0
  }

  function UpperHex(b: Bytes): (s: string)
    ensures |s| == 2 * |b|
  {
    if b == [] then ""
    else
      var v := b[|b| - 1] as nat;
      UpperHex(b[..|b| - 1]) + [HexDigit(v / 16), HexDigit(v % 16)]
  }

  /** Two digits a byte, high half first. */
  lemma {:induction false} HexDenotes(b: Bytes, i: nat)
    requires i < |b|
    ensures HexValue(UpperHex(b)[2 * i]) * 16 + HexValue(UpperHex(b)[2 * i + 1]) == b[i] as nat
  {
    if i < |b| - 1 {
      HexDenotes(b[..|b| - 1], i);
    }
  }

  method ToUpperHex(b: Bytes) returns (s: string)
    ensures s == UpperHex(b)
  {
    s := "";
    for i := 0 to |b|
      invariant s == UpperHex(b[..i])
    {
      assert b[..i + 1][..i] == b[..i];
      s := s + [HexDigit(b[i] as nat / 16), HexDigit(b[i] as nat % 16)];
    }
    assert b[..|b|] == b;
  }

  // ---- extractFmspc.

  datatype Error = NoSgxExtension | NoFmspc

  const SGX: Bytes := [0x2A, 0x86, 0x48, 0x86, 0xF8, 0x4D, 0x01, 0x0D, 0x01]
  const FMSPC: Bytes := [0x2A, 0x86, 0x48, 0x86, 0xF8, 0x4D, 0x01, 0x0D, 0x01, 0x04]

  lemma ArcBelow128(arc: nat)
    requires arc < 128
    ensures ArcOctets(arc) == [arc as byte]
  {
  }

  lemma ArcConstants()
    ensures ArcOctets(840) == [0x86, 0x48]
    ensures ArcOctets(113741) == [0x86, 0xF8, 0x4D]
  {
    assert HighOctets(6) == [0x86];
    assert HighOctets(888) == HighOctets(6) + [0xF8];
  }

  lemma ArcsGrow(arcs: seq<nat>, arc: nat)
    ensures ArcsOctets(arcs + [arc]) == ArcsOctets(arcs) + ArcOctets(arc)
  {
    assert (arcs + [arc])[..|arcs|] == arcs;
  }

  /** The content octets of the two identifiers. */
  lemma OidConstants()
    ensures OidOctets(OID_SGX_EXTENSION) == SGX
    ensures OidOctets(OID_FMSPC) == FMSPC
  {
    hide ArcOctets, ArcsOctets;
    ArcConstants();
    ArcBelow128(1);
    ArcBelow128(13);
    ArcBelow128(4);
    assert ArcsOctets([]) == [] by { NoArcs(); }
    var a1: seq<nat> := [] + [840];
    var a2 := a1 + [113741];
    var a3 := a2 + [1];
    var a4 := a3 + [13];
    var a5 := a4 + [1];
    ArcsGrow([], 840);
    ArcsGrow(a1, 113741);
    ArcsGrow(a2, 1);
    ArcsGrow(a3, 13);
    ArcsGrow(a4, 1);
    ArcsGrow(a5, 4);
    assert ArcsOctets(a5) == SGX[1..];
    assert OID_SGX_EXTENSION[2..] == a5;
    assert OID_FMSPC[2..] == a5 + [4];
  }

  lemma NoArcs()
    ensures ArcsOctets([]) == []
  {
  }

  /** The value the extension's span selects. */
  function ExtensionAt(cert: Bytes, i: nat): Bytes {
    var idx := SpanAt(cert, SGX, i);
    Subarray(cert, idx.contentStart, idx.contentEnd)
  }

  /** The result when the first matches are at i, and at j inside the extension's value. */
  function FmspcAt(cert: Bytes, i: nat, j: nat): string {
    var base := SpanAt(cert, SGX, i).contentStart;
    var f := SpanAt(ExtensionAt(cert, i), FMSPC, j);
    UpperHex(Subarray(cert, base + f.contentStart, base + f.contentEnd))
  }

  ghost predicate FoundAt(cert: Bytes, i: nat, j: nat) {
    FirstHit(cert, SGX, i) && FirstHit(ExtensionAt(cert, i), FMSPC, j)
  }

  ghost predicate NothingInside(cert: Bytes, i: nat) {
    FirstHit(cert, SGX, i) && forall j: nat :: !HitAt(ExtensionAt(cert, i), FMSPC, j)
  }

  /** What the walk returns, by its first matches. */
  ghost predicate Extracts(cert: Bytes, r: Result<string, Error>) {
    match r
    case Err(NoSgxExtension) => forall i: nat :: !HitAt(cert, SGX, i)
    case Err(NoFmspc) => exists i: nat :: NothingInside(cert, i)
    case Ok(hex) => exists i: nat, j: nat :: FoundAt(cert, i, j) && hex == FmspcAt(cert, i, j)
  }

  method ExtractFmspc(cert: Bytes) returns (r: Result<string, Error>)
    ensures Extracts(cert, r)
  {
    hide OidOctets, HitAt, FirstHit, SpanAt, Subarray, UpperHex;
    var sgxExtOid := OidToDer(OID_SGX_EXTENSION);
    var fmspcOid := OidToDer(OID_FMSPC);
    OidConstants();
    var idx := FindOidValueOctetString(cert, sgxExtOid);
    if idx.None? {
      return Err(NoSgxExtension);
    }
    ghost var i: nat :| FirstHit(cert, SGX, i) && idx.value == SpanAt(cert, SGX, i);
    var inner := Subarray(cert, idx.value.contentStart, idx.value.contentEnd);
    var fmspc := FindOidValueOctetString(inner, fmspcOid);
    if fmspc.None? {
      assert NothingInside(cert, i);
      return Err(NoFmspc);
    }
    ghost var j: nat :| FirstHit(inner, FMSPC, j) && fmspc.value == SpanAt(inner, FMSPC, j);
    assert FoundAt(cert, i, j);
    var base := idx.value.contentStart;
    var hex := ToUpperHex(Subarray(cert, base + fmspc.value.contentStart, base + fmspc.value.contentEnd));
    return Ok(hex);
  }

  // ---- Well-formed certificates.

  /** An object identifier followed by an octet string (sections 8.19 and 8.7 of X.690). */
  function Attribute(oid: Bytes, length: Bytes, value: Bytes): Bytes
    requires |oid| < 128
  {
    [0x06, |oid| as byte] + oid + [0x04] + length + value
  }

  /** These octets stand at i, with a definite length below 2^31. */
  ghost predicate AttributeAt(b: Bytes, i: nat, oid: Bytes, length: Bytes, value: Bytes)
    requires |oid| < 128
  {
    HoldsAt(b, i, Attribute(oid, length, value)) && IsDefiniteLength(length, |value|) && |value| < TWO_31
  }

  lemma AttributeParts(b: Bytes, i: nat, oid: Bytes, length: Bytes, value: Bytes)
    requires |oid| < 128 && HoldsAt(b, i, Attribute(oid, length, value))
    ensures HitAt(b, oid, i)
    ensures HoldsAt(b, i + 3 + |oid|, length) && HoldsAt(b, i + 3 + |oid| + |length|, value)
  {
    var a, k := Attribute(oid, length, value), |oid|;
    assert forall m | 0 <= m < |a| :: b[i..i + |a|][m] == a[m];
    assert forall m | 0 <= m < |a| :: b[i + m] == a[m];
    assert b[i] == a[0] && b[i + 1] == a[1] && b[i + (2 + k)] == a[2 + k];
    HoldsWithin(b, i, a, 2, oid);
    HoldsWithin(b, i, a, 3 + k, length);
    HoldsWithin(b, i, a, 3 + k + |length|, value);
  }

  lemma AttributeSpan(b: Bytes, i: nat, oid: Bytes, length: Bytes, value: Bytes)
    requires |oid| < 128 && AttributeAt(b, i, oid, length, value)
    ensures var at := i + 3 + |oid| + |length|;
            SpanAt(b, oid, i) == Span(at, at + |value|) && HoldsAt(b, at, value)
  {
    hide TlvAt, IsDefiniteLength, Attribute;
    AttributeParts(b, i, oid, length, value);
    ReadsDefiniteLength(b, i + 2 + |oid|, length, |value|);
  }

  lemma HoldsWithin(b: Bytes, at: nat, x: Bytes, at2: nat, y: Bytes)
    requires HoldsAt(b, at, x) && HoldsAt(x, at2, y)
    ensures HoldsAt(b, at + at2, y)
  {
    forall m | 0 <= m < |y| ensures b[at + at2 + m] == y[m] {
      assert b[at..at + |x|][at2 + m] == x[at2..at2 + |y|][m];
    }
  }

  lemma SubarrayHeld(b: Bytes, at: nat, x: Bytes)
    requires HoldsAt(b, at, x)
    ensures Subarray(b, at, at + |x|) == x
  {
  }

  lemma FmspcOfAttributes(cert: Bytes, i: nat, j: nat, extension: Bytes, octets: Bytes,
                          length1: Bytes, length2: Bytes)
    requires AttributeAt(cert, i, SGX, length1, extension)
    requires AttributeAt(extension, j, FMSPC, length2, octets)
    ensures ExtensionAt(cert, i) == extension
    ensures FmspcAt(cert, i, j) == UpperHex(octets)
  {
    hide UpperHex, AttributeAt, SpanAt, Subarray, HoldsAt;
    AttributeSpan(cert, i, SGX, length1, extension);
    AttributeSpan(extension, j, FMSPC, length2, octets);
    var at := i + 3 + |SGX| + |length1|;
    var at2 := j + 3 + |FMSPC| + |length2|;
    HoldsWithin(cert, at, extension, at2, octets);
    SubarrayHeld(cert, at, extension);
    SubarrayHeld(cert, at + at2, octets);
  }

  /**
   Whenever the SGX extension and, inside its value, the FMSPC attribute are the first matches,
   the walk returns the upper-case hex of exactly the attribute's octets, and nothing else.
   */
  lemma ExtractsFmspc(cert: Bytes, i: nat, j: nat, extension: Bytes, octets: Bytes,
                      length1: Bytes, length2: Bytes, r: Result<string, Error>)
    requires AttributeAt(cert, i, SGX, length1, extension)
    requires AttributeAt(extension, j, FMSPC, length2, octets)
    requires FirstHit(cert, SGX, i) && FirstHit(extension, FMSPC, j)
    ensures Extracts(cert, r) <==> r == Ok(UpperHex(octets))
  {
    hide UpperHex, AttributeAt, ExtensionAt, FmspcAt, HitAt, OidAt;
    FmspcOfAttributes(cert, i, j, extension, octets, length1, length2);
    forall k: nat ensures !NothingInside(cert, k) { ExtensionHasHit(cert, i, j, k); }
    assert FoundAt(cert, i, j);
    if r.Ok? && Extracts(cert, r) {
      var k: nat, l: nat :| FoundAt(cert, k, l) && r.value == FmspcAt(cert, k, l);
    }
  }

  lemma ExtensionHasHit(cert: Bytes, i: nat, j: nat, k: nat)
    requires FoundAt(cert, i, j)
    ensures !NothingInside(cert, k)
  {
    assert FirstHit(cert, SGX, k) ==> k == i;
  }
}
