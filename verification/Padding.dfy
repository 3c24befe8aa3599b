/** Size-hiding padding (caladon-core/src/padding.rs). */
module Padding {
  import opened Wrappers

  const PAD_BUCKETS: seq<nat> := [256, 1024, 4096, 16384, 65536, 262144]
  const LARGEST := 262144
  const LEN_PREFIX := 4
  const MAX_LEN := 0xFFFF_FFFF

  datatype PadError = TooLong | TooShort | DeclaredLenExceedsBuffer

  /** The sizes a padded buffer may have. */
  predicate Allowed(size: nat) { size in PAD_BUCKETS || (size > 0 && size % LARGEST == 0) }

  ghost predicate IsLeastAllowed(size: nat, n: nat) {
    Allowed(size) && size >= n && forall other: nat | Allowed(other) && other >= n :: other >= size
  }

  method Bucket(n: nat) returns (size: nat)
    ensures IsLeastAllowed(size, n)
    ensures size < n * 4 || size <= 256
  {
    for i := 0 to |PAD_BUCKETS|
      invariant forall j | 0 <= j < i :: PAD_BUCKETS[j] < n
    {
      if n <= PAD_BUCKETS[i] {
        BucketIsLeast(i, n);
        return PAD_BUCKETS[i];
      }
    }
    size := (n + LARGEST - 1) / LARGEST * LARGEST;
    assert PAD_BUCKETS[5] < n;
  }

  lemma BucketIsLeast(i: nat, n: nat)
    requires i < |PAD_BUCKETS| && n <= PAD_BUCKETS[i] && (i > 0 ==> PAD_BUCKETS[i - 1] < n)
    ensures IsLeastAllowed(PAD_BUCKETS[i], n)
  {
    assert PAD_BUCKETS[i] in PAD_BUCKETS;
    forall other: nat | Allowed(other) && other >= n ensures other >= PAD_BUCKETS[i] {
      if other in PAD_BUCKETS {
        var j :| 0 <= j < |PAD_BUCKETS| && PAD_BUCKETS[j] == other;
      }
    }
  }

  /** Longer plaintexts never pad shorter. */
  lemma LeastAllowedMonotone(a: nat, m: nat, b: nat, n: nat)
    requires m <= n && IsLeastAllowed(a, m) && IsLeastAllowed(b, n)
    ensures a <= b
  {
  }

  function BigEndian(n: nat): (s: Bytes)
    requires n <= MAX_LEN
    ensures |s| == 4
  {
    [(n / 0x100_0000) as byte, (n / 0x1_0000 % 256) as byte, (n / 256 % 256) as byte, (n % 256) as byte]
  }

  function FromBigEndian(s: Bytes): nat
    requires |s| >= 4
  {
    s[0] as nat * 0x100_0000 + s[1] as nat * 0x1_0000 + s[2] as nat * 256 + s[3] as nat
  }

  ghost predicate IsPadded(padded: Bytes, plaintext: Bytes) {
    && |plaintext| <= MAX_LEN
    && IsLeastAllowed(|padded|, LEN_PREFIX + |plaintext|)
    && padded[..LEN_PREFIX] == BigEndian(|plaintext|)
    && padded[LEN_PREFIX..LEN_PREFIX + |plaintext|] == plaintext
    && forall i | LEN_PREFIX + |plaintext| <= i < |padded| :: padded[i] == 0
  }

  method Pad(plaintext: Bytes) returns (r: Result<Bytes, PadError>)
    ensures |plaintext| > MAX_LEN ==> r == Err(TooLong)
    ensures |plaintext| <= MAX_LEN ==> r.Ok? && IsPadded(r.value, plaintext)
    ensures r.Ok? ==>
              |plaintext| == r.value[0] as nat * 0x100_0000 + r.value[1] as nat * 0x1_0000
                             + r.value[2] as nat * 0x100 + r.value[3] as nat
    ensures r.Ok? ==> |r.value| < 4 * (|plaintext| + 4) || |r.value| <= 256
  {
    if |plaintext| > MAX_LEN {
      return Err(TooLong);
    }
    var body := BigEndian(|plaintext|) + plaintext;
    var target := Bucket(|body|);
    BigEndianValue(|plaintext|);
    return Ok(body + seq(target - |body|, _ => 0));
  }

  lemma BigEndianValue(n: nat)
    requires n <= MAX_LEN
    ensures FromBigEndian(BigEndian(n)) == n
  {
    assert n / 256 / 256 == n / 0x1_0000 && n / 256 / 256 / 256 == n / 0x100_0000;
  }

  function Unpadded(padded: Bytes): Result<Bytes, PadError> {
    if |padded| < LEN_PREFIX then Err(TooShort)
    else
      var n := FromBigEndian(padded);
      if n > |padded| - LEN_PREFIX then Err(DeclaredLenExceedsBuffer)
      else Ok(padded[LEN_PREFIX..LEN_PREFIX + n])
  }

  /** Unpadding a padded buffer gives back the plaintext, for every length up to 2^32 - 1. */
  lemma RoundTrip(padded: Bytes, plaintext: Bytes)
    requires IsPadded(padded, plaintext)
    ensures Unpadded(padded) == Ok(plaintext)
  {
    var n := |plaintext|;
    var s := BigEndian(n);
    assert padded[0] == s[0] && padded[1] == s[1] && padded[2] == s[2] && padded[3] == s[3] by {
      assert padded[..LEN_PREFIX] == s;
    }
    assert FromBigEndian(padded) == FromBigEndian(s);
    BigEndianValue(n);
  }

  /** A buffer is refused exactly when it is too short for its length prefix or for the length in it. */
  lemma UnpadRefusesIff(padded: Bytes)
    ensures Unpadded(padded) == Err(TooShort) <==> |padded| < 4
    ensures Unpadded(padded) == Err(DeclaredLenExceedsBuffer) <==>
            && |padded| >= 4
            && padded[0] as nat * 0x100_0000 + padded[1] as nat * 0x1_0000 + padded[2] as nat * 0x100 + padded[3] as nat
               > |padded| - 4
  {
  }
}
