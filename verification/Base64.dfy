/** The portable base64 loops (web-client/caladon/src/bytes.ts), against section 4 of RFC 4648. */
module Base64 {
  import opened Wrappers
  import opened Powers
  import opened Bits

  const UPPER := "ABCDEFGHIJKLMNOPQRSTUVWXYZ"
  const LOWER := "abcdefghijklmnopqrstuvwxyz"
  const B64_CHARS := UPPER + LOWER + "0123456789" + "+/"

  /** B64_CHARS[v], as `AlphabetTable` says. */
  function Symbol(v: nat): (c: char)
    requires v < 64
    ensures c != '='
  {
    if v < 26 then (65 + v) as char
    else if v < 52 then (71 + v) as char
    else if v < 62 then (v - 4) as char
    else if v == 62 then '+'
    else '/'
  }

  lemma AlphabetTable(v: nat)
    requires v < 64
    ensures |B64_CHARS| == 64 && B64_CHARS[v] == Symbol(v)
  {
    assert |UPPER| == 26 && |LOWER| == 26;
    if v < 26 {
      assert B64_CHARS[v] == UPPER[v];
    } else if v < 52 {
      assert B64_CHARS[v] == LOWER[v - 26];
    } else if v < 62 {
      assert B64_CHARS[v] == "0123456789"[v - 52];
    }
  }

  /** `B64_CHARS.indexOf`: the first index from i on, or -1. */
  function IndexOf(c: char, i: nat): (r: int)
    requires i <= 64
    ensures -1 <= r < 64 && (r >= 0 ==> i <= r && Symbol(r) == c)
    ensures r == -1 ==> forall j | i <= j < 64 :: Symbol(j) != c
    decreases 64 - i
  {
    if i == 64 then -1 else if Symbol(i) == c then i else IndexOf(c, i + 1)
  }

  lemma IndexOfSymbol(v: nat)
    requires v < 64
    ensures IndexOf(Symbol(v), 0) == v
  {
  }

  function Chars(vals: seq<nat>): string
    requires AllBelow(vals, 64)
  {
    seq(|vals|, i requires 0 <= i < |vals| => Symbol(vals[i]))
  }

  function Padding(n: nat): string { seq(n, _ => '=') }

  // ---- The specification.

  function PadCount(n: nat): nat { if n % 3 == 0 then 0 else 3 - n % 3 }

  /** Six bits per symbol, the last one zero-padded, then '=' up to a multiple of four. */
  function Base64Of(data: Bytes): string {
    assert Pow2(6) == 64;
    Chars(Pack(OfBytes(data), 6)) + Padding(PadCount(|data|))
  }

  function StripPadding(s: string): string {
    if s != "" && s[|s| - 1] == '=' then StripPadding(s[..|s| - 1]) else s
  }

  function Values(text: string): (r: Option<seq<nat>>)
    ensures r.Some? ==> |r.value| == |text| && AllBelow(r.value, 64)
  {
    if text == [] then Some([])
    else
      var v := IndexOf(text[|text| - 1], 0);
      match Values(text[..|text| - 1])
      case Some(vals) => if v >= 0 then Some(vals + [v as nat]) else None
      case None => None
  }

  function Unbase64(text: string): Option<Bytes> {
    match Values(StripPadding(text))
    case None => None
    case Some(vals) => Some(WholeBytes(Unpack(vals, 6)))
  }

  function Ones(n: nat): (s: seq<bool>)
    ensures |s| == n && forall i | 0 <= i < n :: s[i]
  {
    seq(n, _ => true)
  }

  /**
   The bits a text stands for. A character outside the alphabet, whose index is -1, stands for six
   ones and also sets the bits before it that do not yet fill a byte.
   */
  function Stream(text: string): (s: seq<bool>)
    ensures |s| == 6 * |text|
  {
    if text == "" then []
    else
      var before, v := Stream(text[..|text| - 1]), IndexOf(text[|text| - 1], 0);
      if v >= 0 then before + Low(v, 6)
      else before[..|before| / 8 * 8] + Ones(|before| % 8 + 6)
  }

  /** On text of the alphabet these are the bits of its symbols. */
  lemma {:induction false} StreamOfValues(text: string)
    ensures Values(text).Some? ==> Stream(text) == Unpack(Values(text).value, 6)
  {
    if text != "" {
      StreamOfValues(text[..|text| - 1]);
      if Values(text).Some? {
        UnpackSnoc(Values(text[..|text| - 1]).value, IndexOf(text[|text| - 1], 0), 6);
      }
    }
  }

  // ---- Three bytes are four symbols.

  lemma Cut(b: nat, a: nat, k: nat, p: nat)
    requires p == Pow2(k)
    ensures Low(b, a + k) == Low(b / p, a) + Low(b, k)
  {
    LowSplit(b, a, k);
    ShiftIsDivision(b, k);
  }

  lemma Merge(x: nat, y: nat, a: nat, q: nat, k: nat, p: nat)
    requires q == Pow2(a) && p == Pow2(k) && y < p
    ensures Low(x % q * p + y, a + k) == Low(x, a) + Low(y, k)
  {
    LowAppend(x % q, y, a, k);
    LowMod(x, a, a);
  }

  type Group = (nat, nat, nat, nat)

  /** The four symbols of up to three bytes, missing bytes read as 0. */
  function Symbols(b0: nat, b1: nat, b2: nat): (g: Group)
    requires b0 < 256 && b1 < 256 && b2 < 256
    ensures g.0 < 64 && g.1 < 64 && g.2 < 64 && g.3 < 64
  {
    (b0 / 4, b0 % 4 * 16 + b1 / 16, b1 % 16 * 4 + b2 / 64, b2 % 64)
  }

  /** How six-bit symbols overlap bytes: a byte is a head and a tail, a symbol a tail and a head. */
  lemma Overlaps(b0: nat, b1: nat, b2: nat)
    requires b1 < 256 && b2 < 256
    ensures Low(b0, 8) == Low(b0 / 4, 6) + Low(b0, 2)
    ensures Low(b0 % 4 * 16 + b1 / 16, 6) == Low(b0, 2) + Low(b1 / 16, 4)
    ensures Low(b1, 8) == Low(b1 / 16, 4) + Low(b1, 4)
    ensures Low(b1 % 16 * 4 + b2 / 64, 6) == Low(b1, 4) + Low(b2 / 64, 2)
    ensures Low(b2, 8) == Low(b2 / 64, 2) + Low(b2 % 64, 6)
  {
    hide Low;
    assert Pow2(1) == 2 && Pow2(2) == 4 && Pow2(4) == 16 && Pow2(6) == 64;
    Cut(b0, 6, 2, 4);
    Merge(b0, b1 / 16, 2, 4, 4, 16);
    Cut(b1, 4, 4, 16);
    Merge(b1, b2 / 64, 4, 16, 2, 4);
    Cut(b2, 2, 6, 64);
    LowMod(b2, 6, 6);
  }

  lemma ThreeBytes(vals: seq<nat>, done: Bytes, b0: byte, b1: byte, b2: byte, g: Group)
    requires Unpack(vals, 6) == OfBytes(done) && g == Symbols(b0 as nat, b1 as nat, b2 as nat)
    ensures Unpack(vals + [g.0] + [g.1] + [g.2] + [g.3], 6) == OfBytes(done + [b0] + [b1] + [b2])
  {
    hide Low, Unpack, OfBytes;
    Overlaps(b0 as nat, b1 as nat, b2 as nat);
    OfBytesSnoc(done, b0);
    OfBytesSnoc(done + [b0], b1);
    OfBytesSnoc(done + [b0] + [b1], b2);
    UnpackSnoc(vals, g.0, 6);
    UnpackSnoc(vals + [g.0], g.1, 6);
    UnpackSnoc(vals + [g.0] + [g.1], g.2, 6);
    UnpackSnoc(vals + [g.0] + [g.1] + [g.2], g.3, 6);
  }

  /** A missing byte adds eight zeros, a missing symbol takes six of them. */
  lemma MissingByte(done: Bytes)
    ensures OfBytes(done + [0]) == OfBytes(done) + Zeros(8)
  {
    OfBytesSnoc(done, 0);
    LowZero(8);
  }

  lemma MissingSymbol(vals: seq<nat>, s: seq<bool>, n: nat)
    requires Unpack(vals + [0], 6) == s + Zeros(n + 6)
    ensures Unpack(vals, 6) == s + Zeros(n)
  {
    hide Low;
    UnpackSnoc(vals, 0, 6);
    LowZero(6);
    DropZeros(Unpack(vals, 6), s, n);
  }

  lemma DropZeros(t: seq<bool>, s: seq<bool>, n: nat)
    requires t + Zeros(6) == s + Zeros(n + 6)
    ensures t == s + Zeros(n)
  {
    var all := s + Zeros(n + 6);
    assert all[..|t|] == t;
    assert all[..|s| + n] == s + Zeros(n);
  }

  // ---- The code.

  /** What one turn of the encoding loop writes. */
  function GroupText(g: Group, n: nat): string
    requires g.0 < 64 && g.1 < 64 && g.2 < 64 && g.3 < 64
  {
    [Symbol(g.0)] + [Symbol(g.1)] + [if n > 1 then Symbol(g.2) else '='] + [if n > 2 then Symbol(g.3) else '=']
  }

  method ToBase64(bytes: Bytes) returns (out: string)
    ensures out == Base64Of(bytes)
  {
    out := "";
    ghost var vals: seq<nat>, turns: nat := [], 0;
    var i := 0;
    assert OfBytes(bytes[..0]) == [];
    while i < |bytes|
      invariant i == 3 * turns
      invariant i <= |bytes| ==> Encoded(bytes, i, vals, out)
      invariant i > |bytes| ==> out == Base64Of(bytes)
    {
      var b0 := bytes[i];
      var b1: byte := if i + 1 < |bytes| then bytes[i + 1] else 0;
      var b2: byte := if i + 2 < |bytes| then bytes[i + 2] else 0;
      var g := Symbols(b0 as nat, b1 as nat, b2 as nat);
      if i + 2 < |bytes| {
        FullTurn(bytes, i, vals, out, g);
        vals := vals + [g.0] + [g.1] + [g.2] + [g.3];
      } else {
        LastTurn(bytes, i, turns, vals, out, g);
      }
      out := out + GroupText(g, |bytes| - i);
      i, turns := i + 3, turns + 1;
    }
    if i == |bytes| {
      assert bytes[..|bytes|] == bytes && OfBytes(bytes) + Zeros(0) == OfBytes(bytes);
      Closed(bytes, vals, 0);
      PadAt(|bytes|, turns, 0);
    }
  }

  /** The first i bytes, a multiple of three, are encoded. */
  ghost predicate Encoded(bytes: Bytes, i: nat, vals: seq<nat>, out: string)
    requires i <= |bytes|
  {
    AllBelow(vals, 64) && Unpack(vals, 6) == OfBytes(bytes[..i]) && out == Chars(vals)
  }

  lemma FullTurn(bytes: Bytes, i: nat, vals: seq<nat>, out: string, g: Group)
    requires i + 2 < |bytes| && Encoded(bytes, i, vals, out)
    requires g == Symbols(bytes[i] as nat, bytes[i + 1] as nat, bytes[i + 2] as nat)
    ensures Encoded(bytes, i + 3, vals + [g.0] + [g.1] + [g.2] + [g.3], out + GroupText(g, |bytes| - i))
  {
    ThreeBytes(vals, bytes[..i], bytes[i], bytes[i + 1], bytes[i + 2], g);
    TakeThree(bytes, i);
    FourChars(vals, g.0, g.1, g.2, g.3);
  }

  lemma TakeThree(bytes: Bytes, i: nat)
    requires i + 2 < |bytes|
    ensures bytes[..i] + [bytes[i]] + [bytes[i + 1]] + [bytes[i + 2]] == bytes[..i + 3]
  {
  }

  lemma CharsSnoc(vals: seq<nat>, v: nat)
    requires AllBelow(vals, 64) && v < 64
    ensures AllBelow(vals + [v], 64) && Chars(vals + [v]) == Chars(vals) + [Symbol(v)]
  {
  }

  lemma FourChars(vals: seq<nat>, a: nat, b: nat, c: nat, d: nat)
    requires AllBelow(vals, 64) && a < 64 && b < 64 && c < 64 && d < 64
    ensures AllBelow(vals + [a] + [b] + [c] + [d], 64)
    ensures Chars(vals + [a] + [b] + [c] + [d])
         == Chars(vals) + ([Symbol(a)] + [Symbol(b)] + [Symbol(c)] + [Symbol(d)])
  {
    CharsSnoc(vals, a);
    CharsSnoc(vals + [a], b);
    CharsSnoc(vals + [a] + [b], c);
    CharsSnoc(vals + [a] + [b] + [c], d);
  }

  lemma LastTurn(bytes: Bytes, i: nat, turns: nat, vals: seq<nat>, out: string, g: Group)
    requires i < |bytes| <= i + 2 && i == 3 * turns && Encoded(bytes, i, vals, out)
    requires g == Symbols(bytes[i] as nat, if i + 1 < |bytes| then bytes[i + 1] as nat else 0, 0)
    ensures out + GroupText(g, |bytes| - i) == Base64Of(bytes)
  {
    hide Low, Unpack, OfBytes, Pack, Base64Of;
    var done, s, b0 := bytes[..i], OfBytes(bytes), bytes[i];
    PadAt(|bytes|, turns, |bytes| - i);
    CharsSnoc(vals, g.0);
    CharsSnoc(vals + [g.0], g.1);
    if |bytes| == i + 2 {
      assert done + [b0] + [bytes[i + 1]] == bytes;
      ThreeBytes(vals, done, b0, bytes[i + 1], 0, g);
      MissingByte(bytes);
      MissingSymbol(vals + [g.0] + [g.1] + [g.2], s, 2);
      CharsSnoc(vals + [g.0] + [g.1], g.2);
      Closed(bytes, vals + [g.0] + [g.1] + [g.2], 2);
      assert Padding(1) == ['='];
    } else {
      assert done + [b0] == bytes;
      ThreeBytes(vals, done, b0, 0, 0, g);
      MissingByte(bytes);
      MissingByte(bytes + [0]);
      assert s + Zeros(8) + Zeros(8) == s + Zeros(16);
      MissingSymbol(vals + [g.0] + [g.1] + [0], s, 10);
      MissingSymbol(vals + [g.0] + [g.1], s, 4);
      Closed(bytes, vals + [g.0] + [g.1], 4);
      assert Padding(2) == ['=', '='];
    }
  }

  /** Symbols that hold the bytes and less than one symbol of zeros are the encoding but for its padding. */
  lemma Closed(bytes: Bytes, vals: seq<nat>, pad: nat)
    requires AllBelow(vals, 64) && pad < 6 && Unpack(vals, 6) == OfBytes(bytes) + Zeros(pad)
    ensures Base64Of(bytes) == Chars(vals) + Padding(PadCount(|bytes|))
  {
    assert Pow2(6) == 64;
    PackUnique(vals, OfBytes(bytes), pad, 6);
  }

  lemma PadAt(n: nat, turns: nat, rest: nat)
    requires n == 3 * turns + rest && rest < 3
    ensures PadCount(n) == if rest == 0 then 0 else 3 - rest
  {
  }

  // ---- Decoding, in a signed 32-bit buffer.

  /** (val << 6) | index: -1 sets every bit, otherwise the shifted-in bits are zero and | is +. */
  function OrIndex(val: int, index: int): int
    requires -1 <= index < 64
  {
    if index < 0 then -1 else Int32(val * 64) + index
  }

  function ByteAt(val: int, bits: nat): byte { (Shift(val, bits) % 256) as byte }

  /** The bytes and the pending bits are the bits read. */
  ghost predicate Decoding(clean: string, i: nat, bytes: Bytes, val: int, bits: nat)
    requires i <= |clean|
  {
    Stream(clean[..i]) == OfBytes(bytes) + Low(val, bits)
  }

  method FromBase64(b64: string) returns (out: array<byte>)
    ensures fresh(out) && out.Length == |StripPadding(b64)| * 6 / 8
    ensures out[..] == WholeBytes(Stream(StripPadding(b64)))
    ensures Unbase64(b64).Some? ==> out[..] == Unbase64(b64).value
  {
    hide *;
    var clean := StripPadding(b64);
    out := new byte[|clean| * 6 / 8];
    var bits: nat, val, oi: nat := 0, 0, 0;
    NothingRead(clean);
    assert out[..0] == [];
    for i := 0 to |clean|
      invariant bits < 8 && 8 * oi + bits == 6 * i
      invariant oi <= out.Length && Decoding(clean, i, out[..oi], val, bits)
    {
      DecodeTurn(clean, i, out[..oi], val, bits);
      val := OrIndex(val, IndexOf(clean[i], 0));
      bits := bits + 6;
      if bits >= 8 {
        bits := bits - 8;
        Put(out, oi, ByteAt(val, bits));
        oi := oi + 1;
      }
    }
    assert out[..oi] == out[..];
    Decoded(b64, out[..], val, bits);
  }

  /** `out[oi++] = x`. */
  method Put(out: array<byte>, oi: nat, x: byte)
    requires oi < out.Length
    modifies out
    ensures out[..oi + 1] == old(out[..oi]) + [x]
  {
    out[oi] := x;
  }

  lemma NothingRead(clean: string)
    ensures Decoding(clean, 0, [], 0, 0)
  {
  }

  /** One character read, and a byte written if there are eight pending bits. */
  lemma DecodeTurn(clean: string, i: nat, bytes: Bytes, val: int, bits: nat)
    requires i < |clean| && bits < 8
    ensures Decoding(clean, i, bytes, val, bits) ==>
              var next := OrIndex(val, IndexOf(clean[i], 0));
              if bits + 6 >= 8 then Decoding(clean, i + 1, bytes + [ByteAt(next, bits - 2)], next, bits - 2)
              else Decoding(clean, i + 1, bytes, next, bits + 6)
  {
    hide OrIndex, IndexOf, Unpack, Low, OfBytes, ByteAt;
    if Decoding(clean, i, bytes, val, bits) {
      var v := IndexOf(clean[i], 0);
      var next := OrIndex(val, v);
      var s := clean[..i + 1];
      assert s[..i] == clean[..i] && s[i] == clean[i];
      if v >= 0 {
        ReadSymbol(Stream(s[..i]), v, val, next, bits, bytes);
      } else {
        ReadUnknown(Stream(s[..i]), val, next, bits, bytes);
      }
      if bits + 6 >= 8 {
        WriteByte(Stream(s), next, bits - 2, bytes);
      }
    }
  }

  lemma ReadSymbol(before: seq<bool>, v: nat, val: int, next: int, bits: nat, bytes: Bytes)
    requires bits < 8 && v < 64 && next == OrIndex(val, v) && before == OfBytes(bytes) + Low(val, bits)
    ensures before + Low(v, 6) == OfBytes(bytes) + Low(next, bits + 6)
  {
    ShiftIn(val, Int32(val * 64), v, bits, 6, 64);
    Regroup(OfBytes(bytes), Low(val, bits), Low(v, 6));
  }

  lemma ReadUnknown(before: seq<bool>, val: int, next: int, bits: nat, bytes: Bytes)
    requires bits < 8 && next == OrIndex(val, -1) && before == OfBytes(bytes) + Low(val, bits)
    ensures before[..|before| / 8 * 8] + Ones(|before| % 8 + 6) == OfBytes(bytes) + Low(next, bits + 6)
  {
    hide Low, OfBytes;
    assert |before| == 8 * |bytes| + bits;
    assert |before| / 8 == |bytes| && |before| % 8 == bits;
    LowOfMinusOne(bits + 6);
    assert before[..8 * |bytes|] == OfBytes(bytes);
  }

  lemma {:induction false} LowOfMinusOne(k: nat)
    ensures Low(-1, k) == Ones(k)
  {
    if k > 0 {
      LowOfMinusOne(k - 1);
      assert -1 / 2 == -1 && -1 % 2 == 1;
    }
  }

  lemma WriteByte(all: seq<bool>, val: int, bits: nat, bytes: Bytes)
    requires all == OfBytes(bytes) + Low(val, bits + 8)
    ensures all == OfBytes(bytes + [ByteAt(val, bits)]) + Low(val, bits)
  {
    assert Pow2(8) == 256;
    ShiftOut(val, bits, 8);
    PullByte(bytes, ByteAt(val, bits), Low(val, bits + 8), Low(val, bits), all);
  }

  lemma Decoded(b64: string, bytes: Bytes, val: int, bits: nat)
    requires bits < 8 && Decoding(StripPadding(b64), |StripPadding(b64)|, bytes, val, bits)
    ensures bytes == WholeBytes(Stream(StripPadding(b64)))
    ensures Unbase64(b64).Some? ==> Unbase64(b64).value == bytes
  {
    var clean := StripPadding(b64);
    assert clean[..|clean|] == clean;
    WholeBytesUnique(Stream(clean), bytes, Low(val, bits));
    StreamOfValues(clean);
  }

  // ---- Main results.

  lemma {:induction false} ValuesOfChars(vals: seq<nat>)
    requires AllBelow(vals, 64)
    ensures Values(Chars(vals)) == Some(vals)
  {
    if vals != [] {
      var n := |vals| - 1;
      ValuesOfChars(vals[..n]);
      assert Chars(vals)[..n] == Chars(vals[..n]) && vals[..n] + [vals[n]] == vals;
      IndexOfSymbol(vals[n]);
    }
  }

  lemma {:induction false} StripOfPadded(s: string, n: nat)
    requires s == "" || s[|s| - 1] != '='
    ensures StripPadding(s + Padding(n)) == s
  {
    if n == 0 {
      assert s + Padding(0) == s;
    } else {
      assert (s + Padding(n))[..|s| + n - 1] == s + Padding(n - 1);
      StripOfPadded(s, n - 1);
    }
  }

  /** Decoding inverts encoding on every byte string. */
  lemma RoundTrip(data: Bytes)
    ensures Unbase64(Base64Of(data)) == Some(data)
  {
    assert Pow2(6) == 64;
    var vals := Pack(OfBytes(data), 6);
    var pad := PackUnpacks(OfBytes(data), 6);
    var s := Chars(vals);
    assert s == "" || s[|s| - 1] == Symbol(vals[|s| - 1]);
    StripOfPadded(s, PadCount(|data|));
    ValuesOfChars(vals);
    WholeBytesUnique(Unpack(vals, 6), data, Zeros(pad));
  }

  /** The text has four characters per started group of three bytes, '=' exactly in the last PadCount places. */
  lemma Shape(data: Bytes)
    ensures |Base64Of(data)| == 4 * ((|data| + 2) / 3)
    ensures forall i | 0 <= i < |Base64Of(data)| ::
              Base64Of(data)[i] == '=' <==> i >= |Base64Of(data)| - PadCount(|data|)
  {
    assert Pow2(6) == 64;
    var vals := Pack(OfBytes(data), 6);
    var pad := PackUnpacks(OfBytes(data), 6);
    UnpackLength(vals, 6);
    SymbolCount(|data|, |vals|, pad);
  }

  lemma SymbolCount(n: nat, m: nat, pad: nat)
    requires m * 6 == 8 * n + pad && pad < 6
    ensures m + PadCount(n) == 4 * ((n + 2) / 3)
  {
    var t, r := n / 3, n % 3;
    assert n == 3 * t + r;
    assert m * 6 == 24 * t + 8 * r + pad;
  }

  /** Every character of an encoding is visible ASCII. */
  lemma VisibleChars(data: Bytes)
    ensures forall i | 0 <= i < |Base64Of(data)| :: '+' <= Base64Of(data)[i] <= 'z'
  {
    hide Pack, OfBytes;
    assert Pow2(6) == 64;
    var vals := Pack(OfBytes(data), 6);
    assert Base64Of(data) == Chars(vals) + Padding(PadCount(|data|));
  }
}
