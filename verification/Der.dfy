/** The minimal DER walk for the FMSPC of a PCK certificate (web-client/caladon/src/collateral.ts). */
module Der {
  import opened Wrappers
  import Powers

  // ---- 32-bit integers of the bitwise operators.

  const TWO_32 := 0x1_0000_0000
  const TWO_31 := 0x8000_0000

  function ToInt32(x: int): (r: int)
    ensures -TWO_31 <= r < TWO_31
    ensures 0 <= x < TWO_31 ==> r == x
  {
    var m := x % TWO_32;
    if m < TWO_31 then m else m - TWO_32
  }

  /** Truncating early does not change a shift-and-or. */
  lemma ToInt32Step(x: int, c: int)
    ensures ToInt32(ToInt32(x) * 256 + c) == ToInt32(x * 256 + c)
  {
    var q := x / TWO_32;
    var e := if x % TWO_32 < TWO_31 then q else q + 1;
    assert x == q * TWO_32 + x % TWO_32;
    assert ToInt32(x) == x - TWO_32 * e;
  }

  // ---- readTlv.

  datatype Tlv = Tlv(tag: int, start: nat, contentStart: nat, contentEnd: int)

  /** A byte; one past the end reads as 0. */
  function At(b: Bytes, i: nat): (v: int)
    ensures 0 <= v < 256
  {
    if i < |b| then b[i] as int else 0
  }

  /** The length accumulated from k octets at i. */
  function Accumulated(b: Bytes, i: nat, k: nat): int {
    if k == 0 then 0 else ToInt32(Accumulated(b, i, k - 1) * 256 + At(b, i + k - 1))
  }

  function TlvAt(b: Bytes, off: nat): Tlv {
    var first := At(b, off + 1);
    if first < 128 then Tlv(At(b, off), off, off + 2, off + 2 + first)
    else
      var n := first - 128;
      Tlv(At(b, off), off, off + 2 + n, off + 2 + n + Accumulated(b, off + 2, n))
  }

  method ReadTlv(b: Bytes, off: nat) returns (tlv: Tlv)
    ensures tlv == TlvAt(b, off)
  {
    var tag := At(b, off);
    var i := off + 1;
    var len := At(b, i);
    i := i + 1;
    if len >= 0x80 {
      var n := len - 0x80;
      len := 0;
      for k := 0 to n
        invariant len == Accumulated(b, off + 2, k) && i == off + 2 + k
      {
        len := ToInt32(len * 256 + At(b, i));
        i := i + 1;
      }
    }
    tlv := Tlv(tag, off, i, i + len);
  }

  // ---- Definite lengths (section 8.1.3 of X.690).

  function BigEndian(octets: Bytes): nat {
    if octets == [] then 0
    else BigEndian(octets[..|octets| - 1]) * 256 + octets[|octets| - 1] as nat
  }

  /** The octets are a definite form of the length n, short or long. */
  predicate IsDefiniteLength(octets: Bytes, n: nat) {
    octets != [] &&
    if octets[0] < 128 then |octets| == 1 && n == octets[0] as nat
    else
      && octets[0] as nat == 128 + (|octets| - 1) && 1 <= |octets| - 1 <= 126
      && n == BigEndian(octets[1..])
  }

  function Octets(n: nat): Bytes {
    if n == 0 then [] else Octets(n / 256) + [(n % 256) as byte]
  }

  /** The shortest definite form of a length below 2^31. */
  function EncodeLength(n: nat): Bytes
    requires n < TWO_31
  {
    if n < 128 then [n as byte] else OctetsShort(n, 4); [(128 + |Octets(n)|) as byte] + Octets(n)
  }

  lemma {:induction false} OctetsShort(n: nat, k: nat)
    requires k <= 4 && n < (if k == 0 then 1 else if k == 1 then 256 else if k == 2 then 0x1_0000
                            else if k == 3 then 0x100_0000 else TWO_32)
    ensures |Octets(n)| <= k
  {
    if n > 0 {
      OctetsShort(n / 256, k - 1);
    }
  }

  lemma {:induction false} BigEndianOctets(n: nat)
    ensures BigEndian(Octets(n)) == n
  {
    if n > 0 {
      BigEndianOctets(n / 256);
      var s := Octets(n);
      assert s[..|s| - 1] == Octets(n / 256);
    }
  }

  /** Every length below 2^31 has a definite form. */
  lemma EncodeLengthIsDefinite(n: nat)
    requires n < TWO_31
    ensures IsDefiniteLength(EncodeLength(n), n)
  {
    if n >= 128 {
      OctetsShort(n, 4);
      BigEndianOctets(n);
      assert Octets(n) != [];
      assert EncodeLength(n)[1..] == Octets(n);
    }
  }

  lemma {:induction false} AccumulatedIsTruncated(b: Bytes, i: nat, k: nat)
    requires i + k <= |b|
    ensures Accumulated(b, i, k) == ToInt32(BigEndian(b[i..i + k]))
  {
    if k > 0 {
      AccumulatedIsTruncated(b, i, k - 1);
      var s := b[i..i + k];
      assert s[..k - 1] == b[i..i + k - 1];
      ToInt32Step(BigEndian(s[..k - 1]), At(b, i + k - 1));
    }
  }

  /** `b` holds the octets at off. */
  predicate HoldsAt(b: Bytes, off: nat, octets: Bytes) {
    off + |octets| <= |b| && b[off..off + |octets|] == octets
  }

  /** readTlv finds the content right after a definite length, with that length truncated to 32 bits. */
  lemma ReadsDefiniteLength(b: Bytes, off: nat, octets: Bytes, n: nat)
    requires off < |b| && HoldsAt(b, off + 1, octets) && IsDefiniteLength(octets, n)
    ensures TlvAt(b, off) == Tlv(b[off] as int, off, off + 1 + |octets|, off + 1 + |octets| + ToInt32(n))
  {
    assert b[off + 1] == octets[0];
    if octets[0] >= 128 {
      var k := |octets| - 1;
      AccumulatedIsTruncated(b, off + 2, k);
      assert b[off + 2..off + 2 + k] == octets[1..];
    }
  }

  /** So the length is read back exactly when it is below 2^31. */
  lemma LengthReadBackIff(b: Bytes, off: nat, octets: Bytes, n: nat)
    requires off < |b| && HoldsAt(b, off + 1, octets) && IsDefiniteLength(octets, n)
    ensures TlvAt(b, off).contentEnd - TlvAt(b, off).contentStart == n <==> n < TWO_31
  {
    ReadsDefiniteLength(b, off, octets, n);
  }

  // ---- oidToDer.

  /** The continuation octets for the bits above the last seven. */
  function HighOctets(v: int): Bytes
    decreases if v > 0 then v else 0
  {
    if v <= 0 then [] else HighOctets(v / 128) + [(v % 128 + 128) as byte]
  }

  /** The octets written for one arc; `>>` works on the 32-bit value. */
  function ArcOctets(arc: nat): Bytes {
    HighOctets(ToInt32(arc) / 128) + [(arc % 128) as byte]
  }

  function ArcsOctets(arcs: seq<nat>): Bytes {
    if arcs == [] then [] else ArcsOctets(arcs[..|arcs| - 1]) + ArcOctets(arcs[|arcs| - 1])
  }

  function OidOctets(arcs: seq<nat>): Bytes
    requires |arcs| >= 2
  {
    [((40 * arcs[0] + arcs[1]) % 256) as byte] + ArcsOctets(arcs[2..])
  }

  /** The inner loop: one arc, built backwards. */
  method ArcStack(part: nat) returns (stack: Bytes)
    ensures stack == ArcOctets(part)
  {
    stack := [(part % 128) as byte];
    var v := ToInt32(part) / 128;
    while v > 0
      invariant HighOctets(v) + stack == ArcOctets(part)
      decreases v
    {
      stack := [(v % 128 + 128) as byte] + stack;
      v := v / 128;
    }
  }

  method OidToDer(parts: seq<nat>) returns (der: Bytes)
    requires |parts| >= 2
    ensures der == OidOctets(parts)
  {
    hide ArcOctets;
    der := [((40 * parts[0] + parts[1]) % 256) as byte];
    assert parts[..2][2..] == [];
    for i := 2 to |parts|
      invariant der == OidOctets(parts[..i])
    {
      var stack := ArcStack(parts[i]);
      der := der + stack;
      ArcAppended(parts, i);
    }
    assert parts[..|parts|] == parts;
  }

  lemma ArcAppended(parts: seq<nat>, i: nat)
    requires 2 <= i < |parts|
    ensures OidOctets(parts[..i + 1]) == OidOctets(parts[..i]) + ArcOctets(parts[i])
  {
    assert parts[..i + 1][2..] == parts[2..i + 1] && parts[..i][2..] == parts[2..i];
    assert parts[2..i + 1][..i - 2] == parts[2..i];
  }

  // ---- Object identifiers (section 8.19 of X.690).

  /** The subidentifiers of content octets: seven bits an octet, bit 8 set on all but the last. */
  function SubIdsFrom(acc: nat, octets: Bytes): seq<nat>
    decreases octets
  {
    if octets == [] then []
    else if octets[0] >= 128 then SubIdsFrom(acc * 128 + (octets[0] as nat - 128), octets[1..])
    else [acc * 128 + octets[0] as nat] + SubIdsFrom(0, octets[1..])
  }

  /** The arcs: the first subidentifier is 40 a + b with a at most 2. */
  function DecodeOid(octets: Bytes): seq<nat> {
    var ids := SubIdsFrom(0, octets);
    if ids == [] then []
    else
      var a := if ids[0] < 40 then 0 else if ids[0] < 80 then 1 else 2;
      [a, ids[0] - 40 * a] + ids[1..]
  }

  predicate IsOid(arcs: seq<nat>) { |arcs| >= 2 && arcs[0] <= 2 && (arcs[0] < 2 ==> arcs[1] < 40) }

  /** The value the octets of an arc stand for. */
  function Written(arc: nat): nat {
    var w := ToInt32(arc) / 128;
    (if w > 0 then w else 0) * 128 + arc % 128
  }

  lemma {:induction false} ReadHighOctets(v: int, octets: Bytes)
    ensures SubIdsFrom(0, HighOctets(v) + octets) == SubIdsFrom(if v > 0 then v else 0, octets)
    decreases if v > 0 then v else 0
  {
    if v <= 0 {
      assert HighOctets(v) + octets == octets;
    } else {
      var last: Bytes := [(v % 128 + 128) as byte];
      assert HighOctets(v) + octets == HighOctets(v / 128) + (last + octets);
      ReadHighOctets(v / 128, last + octets);
      assert (last + octets)[1..] == octets;
    }
  }

  lemma ReadArc(arc: nat, rest: Bytes)
    ensures SubIdsFrom(0, ArcOctets(arc) + rest) == [Written(arc)] + SubIdsFrom(0, rest)
  {
    var last: Bytes := [(arc % 128) as byte];
    var w := ToInt32(arc) / 128;
    assert ArcOctets(arc) + rest == HighOctets(w) + (last + rest);
    ReadHighOctets(w, last + rest);
    assert (last + rest)[1..] == rest;
  }

  function WrittenAll(arcs: seq<nat>): seq<nat> {
    seq(|arcs|, i requires 0 <= i < |arcs| => Written(arcs[i]))
  }

  lemma {:induction false} ReadArcs(arcs: seq<nat>, rest: Bytes)
    ensures SubIdsFrom(0, ArcsOctets(arcs) + rest) == WrittenAll(arcs) + SubIdsFrom(0, rest)
  {
    if arcs == [] {
      assert ArcsOctets(arcs) + rest == rest;
    } else {
      var n := |arcs| - 1;
      var tail := ArcOctets(arcs[n]) + rest;
      assert ArcsOctets(arcs) + rest == ArcsOctets(arcs[..n]) + tail;
      ReadArcs(arcs[..n], tail);
      ReadArc(arcs[n], rest);
      assert WrittenAll(arcs) == WrittenAll(arcs[..n]) + [Written(arcs[n])];
    }
  }

  lemma {:induction false} SubIdsCount(a: nat, b: nat, octets: Bytes)
    ensures |SubIdsFrom(a, octets)| == |SubIdsFrom(b, octets)|
    decreases octets
  {
    if octets != [] && octets[0] >= 128 {
      SubIdsCount(a * 128 + (octets[0] as nat - 128), b * 128 + (octets[0] as nat - 128), octets[1..]);
    }
  }

  /** The subidentifiers read back from the octets of an object identifier. */
  lemma OidSubIds(arcs: seq<nat>)
    requires |arcs| >= 2
    ensures var first := (40 * arcs[0] + arcs[1]) % 256;
            var ids := SubIdsFrom(0, OidOctets(arcs));
            && (first < 128 ==> ids == [first] + WrittenAll(arcs[2..]))
            && (first >= 128 ==> |ids| == |arcs| - 2)
  {
    var s := OidOctets(arcs);
    var rest := ArcsOctets(arcs[2..]);
    assert s[1..] == rest && rest + [] == rest;
    ReadArcs(arcs[2..], []);
    if s[0] >= 128 {
      SubIdsCount(s[0] as nat - 128, 0, rest);
    }
  }

  lemma WrittenAllIff(arcs: seq<nat>)
    ensures WrittenAll(arcs) == arcs <==> forall i | 0 <= i < |arcs| :: arcs[i] < TWO_31
  {
    forall i | 0 <= i < |arcs| ensures WrittenAll(arcs)[i] == arcs[i] <==> arcs[i] < TWO_31 {
    }
  }

  /**
   The octets decode to the object identifier exactly when its first two arcs fit one octet
   with bit 8 clear and every later arc is below 2^31.
   */
  lemma OidDecodesIff(arcs: seq<nat>)
    requires IsOid(arcs)
    ensures DecodeOid(OidOctets(arcs)) == arcs <==>
            40 * arcs[0] + arcs[1] < 128 && forall i | 2 <= i < |arcs| :: arcs[i] < TWO_31
  {
    hide OidOctets, WrittenAll, SubIdsFrom;
    var x := 40 * arcs[0] + arcs[1];
    var later := arcs[2..];
    OidSubIds(arcs);
    WrittenAllIff(later);
    assert (forall i | 0 <= i < |later| :: later[i] < TWO_31) <==> (forall i | 2 <= i < |arcs| :: arcs[i] < TWO_31) by {
      assert forall i | 2 <= i < |arcs| :: arcs[i] == later[i - 2];
    }
    var ids := SubIdsFrom(0, OidOctets(arcs));
    var decoded := DecodeOid(OidOctets(arcs));
    if decoded == arcs {
      assert ids[0] == x && ids[1..] == later;
    }
  }

  const OID_SGX_EXTENSION: seq<nat> := [1, 2, 840, 113741, 1, 13, 1]
  const OID_FMSPC: seq<nat> := [1, 2, 840, 113741, 1, 13, 1, 4]

  /** Both identifiers the walk looks for are encoded faithfully. */
  lemma OidsDecode()
    ensures DecodeOid(OidOctets(OID_SGX_EXTENSION)) == OID_SGX_EXTENSION
    ensures DecodeOid(OidOctets(OID_FMSPC)) == OID_FMSPC
  {
    OidDecodesIff(OID_SGX_EXTENSION);
    OidDecodesIff(OID_FMSPC);
  }
}
