/**
 The seed transcription codec (caladon-core/src/seed_codec.rs): Crockford base32 over a bit
 buffer held in an unmasked u32, a two-byte checksum, groups of four.
 SHA-256 is a parameter, `checksum`, giving its first two bytes.
 */
module SeedCodec {
  import opened Wrappers
  import opened Powers
  import opened Bits
  import opened Text

  const SEED_BYTE_COUNT := 32
  const ALPHABET := "0123456789ABCDEFGHJKMNPQRSTVWXYZ"

  /** ALPHABET[v], as `AlphabetTable` says. */
  function Symbol(v: nat): char
    requires v < 32
  {
    (if v < 10 then 48 + v
     else if v < 18 then 55 + v
     else if v < 20 then 56 + v
     else if v < 22 then 57 + v
     else if v < 27 then 58 + v
     else 59 + v) as char
  }

  lemma AlphabetTable(v: nat)
    requires v < 32
    ensures ALPHABET[v] == Symbol(v)
  {
    if v < 16 {
      var codes := [48, 49, 50, 51, 52, 53, 54, 55, 56, 57, 65, 66, 67, 68, 69, 70];
      assert ALPHABET[v] as int == codes[v];
    } else {
      var codes := [71, 72, 74, 75, 77, 78, 80, 81, 82, 83, 84, 86, 87, 88, 89, 90];
      assert ALPHABET[v] as int == codes[v - 16];
    }
  }

  datatype SeedError = BadLength | BadChecksum | BadCharacter

  // ---- Symbols.

  function Chars(vals: seq<nat>): string
    requires AllBelow(vals, 32)
  {
    seq(|vals|, i requires 0 <= i < |vals| => Symbol(vals[i]))
  }

  function ToAsciiUppercase(c: char): char {
    if 'a' <= c <= 'z' then (c as int - 32) as char else c
  }

  /** `up as u8`: the low byte of the code point. */
  function AsU8(c: char): char { (c as int % 256) as char }

  function Position(c: char, i: nat): (r: Option<nat>)
    requires i <= 32
    ensures r.Some? ==> i <= r.value < 32 && Symbol(r.value) == c
    ensures r.None? ==> forall j | i <= j < 32 :: Symbol(j) != c
    decreases 32 - i
  {
    if i == 32 then None else if Symbol(i) == c then Some(i) else Position(c, i + 1)
  }

  function SymbolValue(ch: char): (r: Option<nat>)
    ensures r.Some? ==> r.value < 32
  {
    var up := ToAsciiUppercase(ch);
    if '0' <= up <= '9' then Some((up as int - '0' as int) as nat)
    else if up == 'I' || up == 'L' then Some(1)
    else if up == 'O' then Some(0)
    else Position(AsU8(up), 0)
  }

  function Values(text: string): (r: Option<seq<nat>>)
    ensures r.Some? ==> |r.value| == |text| && AllBelow(r.value, 32)
  {
    if text == [] then Some([])
    else
      match (Values(text[..|text| - 1]), SymbolValue(text[|text| - 1]))
      case (Some(vals), Some(v)) => Some(vals + [v])
      case _ => None
  }

  // ---- The specification of the base32 layer.

  function Base32(data: Bytes): string {
    assert Pow2(5) == 32;
    Chars(Pack(OfBytes(data), 5))
  }

  function Unbase32(text: string): Result<Bytes, SeedError> {
    match Values(text)
    case None => Err(BadCharacter)
    case Some(vals) =>
      var bits := Unpack(vals, 5);
      if Leftover(bits) == Zeros(|Leftover(bits)|) then Ok(WholeBytes(bits)) else Err(BadCharacter)
  }

  // ---- The code.

  /** The symbols written so far and the pending bits of the buffer are the bits of the bytes read. */
  ghost predicate Encoding(done: Bytes, vals: seq<nat>, out: string, buffer: nat, bits: nat) {
    && AllBelow(vals, 32) && out == Chars(vals)
    && Unpack(vals, 5) + Low(buffer, bits) == OfBytes(done)
  }

  method Base32Encode(data: Bytes) returns (out: string)
    ensures out == Base32(data)
  {
    hide *;
    out := "";
    var buffer: nat := 0;
    var bits: nat := 0;
    ghost var vals: seq<nat> := [];
    NothingRead(data, "");
    for i := 0 to |data|
      invariant bits < 5 && Encoding(data[..i], vals, out, buffer, bits)
    {
      ReadByte(data, i, vals, out, buffer, bits);
      buffer := AppendByte(buffer, bits, data[i]);
      bits := bits + 8;
      while bits >= 5
        invariant bits < 13 && Encoding(data[..i + 1], vals, out, buffer, bits)
      {
        bits := bits - 5;
        WriteSymbol(data[..i + 1], vals, out, buffer, bits);
        ghost var v: nat := Shift(buffer, bits) % 32;
        vals := vals + [v];
        out := out + [Symbol(Shift(buffer, bits) % 32)];
      }
    }
    Finish(data, vals, out, buffer, bits);
    if bits > 0 {
      out := out + [Symbol(U32(buffer * Pow2(5 - bits)) % 32)];
    }
  }

  lemma NothingRead(data: Bytes, text: string)
    ensures Encoding(data[..0], [], "", 0, 0) && Decoding(text, 0, [], [], 0, 0)
  {
    assert OfBytes(data[..0]) == [];
  }

  lemma ReadByte(data: Bytes, i: nat, vals: seq<nat>, out: string, buffer: nat, bits: nat)
    requires i < |data| && bits < 5 && Encoding(data[..i], vals, out, buffer, bits)
    ensures Encoding(data[..i + 1], vals, out, AppendByte(buffer, bits, data[i]), bits + 8)
  {
    hide AppendByte, Low, Unpack, OfBytes;
    var next := AppendByte(buffer, bits, data[i]);
    assert data[..i] + [data[i]] == data[..i + 1];
    PushByte(vals, 5, Low(buffer, bits), Low(next, bits + 8), data[..i], data[i]);
  }

  lemma WriteSymbol(done: Bytes, vals: seq<nat>, out: string, buffer: nat, bits: nat)
    requires Encoding(done, vals, out, buffer, bits + 5)
    ensures var v := Shift(buffer, bits) % 32; Encoding(done, vals + [v], out + [Symbol(v)], buffer, bits)
  {
    hide Low, Unpack, OfBytes;
    var v: nat := Shift(buffer, bits) % 32;
    assert Pow2(5) == 32;
    ShiftOut(buffer, bits, 5);
    PullSymbol(vals, 5, v, Low(buffer, bits + 5), Low(buffer, bits), OfBytes(done));
    CharsSnoc(vals, v);
  }

  lemma Finish(data: Bytes, vals: seq<nat>, out: string, buffer: nat, bits: nat)
    requires bits < 5 && Encoding(data[..|data|], vals, out, buffer, bits)
    ensures Base32(data) == if bits > 0 then out + [Symbol(U32(buffer * Pow2(5 - bits)) % 32)] else out
  {
    hide Low, Unpack, Pack, OfBytes;
    assert data[..|data|] == data;
    if bits > 0 {
      var v := U32(buffer * Pow2(5 - bits)) % 32;
      var pad, all := 5 - bits, OfBytes(data);
      var shifted := U32(buffer * Pow2(pad));
      assert Pow2(5) == 32;
      LowMod(shifted, 5, 5);
      ShiftIn(buffer, shifted, 0, bits, pad, Pow2(pad));
      LowZero(pad);
      UnpackSnoc(vals, v, 5);
      Regroup(Unpack(vals, 5), Low(buffer, bits), Zeros(pad));
      PackUnique(vals + [v], all, pad, 5);
      CharsSnoc(vals, v);
    } else {
      assert Pow2(5) == 32;
      assert Unpack(vals, 5) == OfBytes(data) + Zeros(0);
      PackUnique(vals, OfBytes(data), 0, 5);
    }
  }

  /** (buffer << 8) | x: the shifted-in bits are zero, so | is +. */
  function AppendByte(buffer: nat, bits: nat, x: byte): (next: nat)
    requires bits <= 24
    ensures Low(next, bits + 8) == Low(buffer, bits) + Low(x as int, 8)
  {
    ShiftIn(buffer, U32(buffer * 256), x as nat, bits, 8, 256);
    U32(buffer * 256) + x as nat
  }

  /** (buffer << 5) | v. */
  function AppendSymbol(buffer: nat, bits: nat, v: nat): (next: nat)
    requires bits <= 27 && v < 32
    ensures Low(next, bits + 5) == Low(buffer, bits) + Low(v, 5)
  {
    ShiftIn(buffer, U32(buffer * 32), v, bits, 5, 32);
    U32(buffer * 32) + v
  }

  lemma CharsSnoc(vals: seq<nat>, v: nat)
    requires AllBelow(vals, 32) && v < 32
    ensures AllBelow(vals + [v], 32) && Chars(vals + [v]) == Chars(vals) + [Symbol(v)]
  {
  }

  /** The bytes written so far and the pending bits of the buffer are the bits of the symbols read. */
  ghost predicate Decoding(text: string, i: nat, vals: seq<nat>, bytes: Bytes, buffer: nat, bits: nat)
    requires i <= |text|
  {
    Values(text[..i]) == Some(vals) && Unpack(vals, 5) == OfBytes(bytes) + Low(buffer, bits)
  }

  method Base32Decode(text: string) returns (r: Result<Bytes, SeedError>)
    ensures r == Unbase32(text)
  {
    hide *;
    var bytes: Bytes := [];
    var buffer: nat := 0;
    var bits: nat := 0;
    ghost var vals: seq<nat> := [];
    NothingRead([], text);
    for i := 0 to |text|
      invariant bits < 8 && Decoding(text, i, vals, bytes, buffer, bits)
    {
      var value := SymbolValue(text[i]);
      if value.None? {
        BadCharacterSpoils(text, i);
        return Err(BadCharacter);
      }
      DecodeTurn(text, i, vals, bytes, buffer, bits, value.value);
      vals := vals + [value.value];
      buffer := AppendSymbol(buffer, bits, value.value);
      bits := bits + 5;
      if bits >= 8 {
        bits := bits - 8;
        bytes := bytes + [ByteAt(buffer, bits)];
      }
    }
    DecodedIs(text, vals, bytes, buffer, bits);
    if bits > 0 && buffer % Pow2(bits) != 0 {
      return Err(BadCharacter);
    }
    return Ok(bytes);
  }

  /** One symbol read, and a byte written if there are eight pending bits. */
  lemma DecodeTurn(text: string, i: nat, vals: seq<nat>, bytes: Bytes, buffer: nat, bits: nat, v: nat)
    requires i < |text| && bits < 8 && Decoding(text, i, vals, bytes, buffer, bits) && SymbolValue(text[i]) == Some(v)
    ensures var next := AppendSymbol(buffer, bits, v);
            if bits + 5 >= 8 then Decoding(text, i + 1, vals + [v], bytes + [ByteAt(next, bits - 3)], next, bits - 3)
            else Decoding(text, i + 1, vals + [v], bytes, next, bits + 5)
  {
    hide AppendSymbol, Low, Unpack, OfBytes, Values, SymbolValue;
    var next := AppendSymbol(buffer, bits, v);
    ValuesSnoc(text, i, vals, v);
    PushSymbol(vals, 5, v, Low(buffer, bits), Low(next, bits + 5), bytes);
    if bits + 5 >= 8 {
      assert Pow2(8) == 256;
      ShiftOut(next, bits - 3, 8);
      PullByte(bytes, ByteAt(next, bits - 3), Low(next, bits + 5), Low(next, bits - 3), Unpack(vals + [v], 5));
    }
  }

  function ByteAt(buffer: nat, bits: nat): byte { (Shift(buffer, bits) % 256) as byte }

  lemma DecodedIs(text: string, vals: seq<nat>, bytes: Bytes, buffer: nat, bits: nat)
    requires bits < 8 && Decoding(text, |text|, vals, bytes, buffer, bits)
    ensures Unbase32(text) == if bits > 0 && buffer % Pow2(bits) != 0 then Err(BadCharacter) else Ok(bytes)
  {
    assert text[..|text|] == text;
    WholeBytesUnique(Unpack(vals, 5), bytes, Low(buffer, bits));
    LowIsZero(buffer, bits);
  }

  lemma ValuesSnoc(text: string, i: nat, vals: seq<nat>, v: nat)
    requires i < |text| && Values(text[..i]) == Some(vals) && SymbolValue(text[i]) == Some(v)
    ensures Values(text[..i + 1]) == Some(vals + [v])
  {
    assert text[..i + 1][..i] == text[..i];
  }

  lemma {:induction false} BadCharacterSpoils(text: string, i: nat)
    requires i < |text| && SymbolValue(text[i]).None?
    ensures Values(text).None? && Unbase32(text) == Err(BadCharacter)
    decreases |text|
  {
    if i < |text| - 1 {
      BadCharacterSpoils(text[..|text| - 1], i);
    }
  }

  // ---- The codec: checksum, groups of four, tolerant reading.

  function Clean(text: string): string {
    if text == "" then ""
    else (if IsWhitespace(text[0]) || text[0] == '-' then "" else [text[0]]) + Clean(text[1..])
  }

  function Group(s: string): string {
    if |s| <= 4 then s else s[..4] + "-" + Group(s[4..])
  }

  type Checksum = Bytes -> (byte, byte)

  function Payload(seed: Bytes, checksum: Checksum): Bytes { seed + [checksum(seed).0, checksum(seed).1] }

  method Encode(seed: Bytes, checksum: Checksum) returns (r: Result<string, SeedError>)
    ensures r == if |seed| != SEED_BYTE_COUNT then Err(BadLength) else Ok(Group(Base32(Payload(seed, checksum))))
  {
    if |seed| != SEED_BYTE_COUNT {
      return Err(BadLength);
    }
    var chars := Base32Encode(Payload(seed, checksum));
    return Ok(Group(chars));
  }

  function Decoded(text: string, checksum: Checksum): Result<Bytes, SeedError> {
    match Unbase32(Clean(text))
    case Err(e) => Err(e)
    case Ok(payload) =>
      if |payload| != SEED_BYTE_COUNT + 2 then Err(BadLength)
      else
        var seed := payload[..SEED_BYTE_COUNT];
        if payload[SEED_BYTE_COUNT..] != [checksum(seed).0, checksum(seed).1] then Err(BadChecksum) else Ok(seed)
  }

  method Decode(text: string, checksum: Checksum) returns (r: Result<Bytes, SeedError>)
    ensures r == Decoded(text, checksum)
  {
    var payload := Base32Decode(Clean(text));
    if payload.Err? {
      return payload;
    }
    if |payload.value| != SEED_BYTE_COUNT + 2 {
      return Err(BadLength);
    }
    var seed, given := payload.value[..SEED_BYTE_COUNT], payload.value[SEED_BYTE_COUNT..];
    if given != [checksum(seed).0, checksum(seed).1] {
      return Err(BadChecksum);
    }
    return Ok(seed);
  }

  // ---- Reading symbols back.

  function Normal(c: char): char {
    var up := ToAsciiUppercase(c);
    if up == 'I' || up == 'L' then '1' else if up == 'O' then '0' else up
  }

  predicate IsAscii(text: string) { forall i | 0 <= i < |text| :: text[i] as int < 128 }

  function Normalised(text: string): string {
    seq(|text|, i requires 0 <= i < |text| => Normal(text[i]))
  }

  lemma SymbolOfAscii(c: char, v: nat)
    requires v < 32 && c as int < 128
    ensures SymbolValue(c) == Some(v) <==> Normal(c) == Symbol(v)
  {
    var r := SymbolValue(c);
    if r.Some? {
    } else {
      assert Normal(c) == AsU8(ToAsciiUppercase(c));
    }
  }

  lemma {:induction false} ValuesNormalised(text: string, vals: seq<nat>)
    requires IsAscii(text) && |vals| == |text| && AllBelow(vals, 32)
    ensures Values(text) == Some(vals) <==> Normalised(text) == Chars(vals)
  {
    if text != [] {
      var n := |text| - 1;
      var c, v := text[n], vals[n];
      assert text == text[..n] + [c] && vals == vals[..n] + [v];
      ValuesNormalised(text[..n], vals[..n]);
      SymbolOfAscii(c, v);
      CharsSnoc(vals[..n], v);
      SameSnoc(Normalised(text[..n]), Normal(c), Chars(vals[..n]), Symbol(v));
      ValuesOfSnoc(text[..n], c, vals[..n], v);
    }
  }

  lemma SameSnoc(a: string, c: char, b: string, d: char)
    requires |a| == |b|
    ensures a + [c] == b + [d] <==> a == b && c == d
  {
    assert (a + [c])[..|a|] == a && (b + [d])[..|b|] == b;
    assert (a + [c])[|a|] == c && (b + [d])[|b|] == d;
  }

  lemma ValuesOfSnoc(text: string, c: char, vals: seq<nat>, v: nat)
    ensures Values(text + [c]) == Some(vals + [v]) <==> Values(text) == Some(vals) && SymbolValue(c) == Some(v)
  {
    assert (text + [c])[..|text|] == text;
    if Values(text + [c]) == Some(vals + [v]) {
      var before, last := Values(text).value, SymbolValue(c).value;
      assert (before + [last])[..|before|] == before && (vals + [v])[..|vals|] == vals;
      assert (before + [last])[|before|] == last && (vals + [v])[|vals|] == v;
      assert |before + [last]| == |vals + [v]|;
    }
  }

  lemma ValuesOfChars(vals: seq<nat>)
    requires AllBelow(vals, 32)
    ensures Values(Chars(vals)) == Some(vals) && IsAscii(Chars(vals)) && Normalised(Chars(vals)) == Chars(vals)
    ensures Clean(Group(Chars(vals))) == Chars(vals)
  {
    var text := Chars(vals);
    forall i | 0 <= i < |text|
      ensures text[i] as int < 128 && Normal(text[i]) == text[i] && !IsWhitespace(text[i]) && text[i] != '-' {
      assert text[i] == Symbol(vals[i]);
    }
    assert Normalised(text) == text;
    ValuesNormalised(text, vals);
    CleanGroup(text);
  }

  lemma {:induction false} CleanGroup(s: string)
    requires forall i | 0 <= i < |s| :: !IsWhitespace(s[i]) && s[i] != '-'
    ensures Clean(Group(s)) == s
    decreases |s|
  {
    if |s| <= 4 {
      CleanPlain(s);
    } else {
      CleanGroup(s[4..]);
      CleanPlain(s[..4]);
      CleanConcat(s[..4] + "-", Group(s[4..]));
      CleanConcat(s[..4], "-");
      assert s[..4] + "" + s[4..] == s;
      assert Clean("-") == "";
    }
  }

  lemma {:induction false} CleanPlain(s: string)
    requires forall i | 0 <= i < |s| :: !IsWhitespace(s[i]) && s[i] != '-'
    ensures Clean(s) == s
  {
    if s != "" { CleanPlain(s[1..]); }
  }

  lemma {:induction false} CleanConcat(a: string, b: string)
    ensures Clean(a + b) == Clean(a) + Clean(b)
  {
    if a == "" {
      assert a + b == b;
    } else {
      assert (a + b)[1..] == a[1..] + b;
      CleanConcat(a[1..], b);
    }
  }

  /** How many characters before position n are neither white space nor dashes. */
  function KeptBefore(text: string, n: nat): nat
    requires n <= |text|
  {
    if n == 0 then 0
    else KeptBefore(text, n - 1) + (if IsWhitespace(text[n - 1]) || text[n - 1] == '-' then 0 else 1)
  }

  lemma {:induction false} CleanLength(text: string, n: nat)
    requires n <= |text|
    ensures |Clean(text[..n])| == KeptBefore(text, n)
  {
    if n > 0 {
      CleanLength(text, n - 1);
      CleanSnoc(text, n);
    }
  }

  lemma CleanSnoc(text: string, n: nat)
    requires 0 < n <= |text|
    ensures var c := text[n - 1];
            Clean(text[..n]) == Clean(text[..n - 1]) + (if IsWhitespace(c) || c == '-' then "" else [c])
  {
    assert text[..n] == text[..n - 1] + [text[n - 1]];
    CleanConcat(text[..n - 1], [text[n - 1]]);
  }

  /** Cleaning keeps exactly the characters that are neither white space nor dashes, in order. */
  lemma {:induction false} CleanKeeps(text: string, i: nat, n: nat)
    requires i < n <= |text| && !IsWhitespace(text[i]) && text[i] != '-'
    ensures |Clean(text[..n])| == KeptBefore(text, n) > KeptBefore(text, i)
    ensures Clean(text[..n])[KeptBefore(text, i)] == text[i]
  {
    hide Clean, IsWhitespace;
    CleanLength(text, n - 1);
    CleanLength(text, n);
    CleanSnoc(text, n);
    if i < n - 1 {
      CleanKeeps(text, i, n - 1);
    }
  }

  /** Every fifth character of a grouped text is a dash; without them it is the text. */
  lemma {:induction false} GroupShape(s: string, q: nat, r: nat)
    requires r < 4 && 4 * q + r < |s|
    ensures 5 * q + r < |Group(s)| && Group(s)[5 * q + r] == s[4 * q + r]
    ensures r == 3 && 4 * q + 4 < |s| ==> 5 * q + 4 < |Group(s)| && Group(s)[5 * q + 4] == '-'
    decreases q
  {
    if q > 0 {
      GroupShape(s[4..], q - 1, r);
    }
  }

  // ---- Main results.

  /** Base32 decoding inverts encoding on every byte string, of any length. */
  lemma Base32RoundTrip(data: Bytes)
    ensures Unbase32(Base32(data)) == Ok(data)
  {
    assert Pow2(5) == 32;
    var vals := Pack(OfBytes(data), 5);
    var pad := PackUnpacks(OfBytes(data), 5);
    ValuesOfChars(vals);
    WholeBytesUnique(Unpack(vals, 5), data, Zeros(pad));
  }

  lemma SeedRoundTrip(seed: Bytes, checksum: Checksum)
    requires |seed| == SEED_BYTE_COUNT
    ensures Decoded(Group(Base32(Payload(seed, checksum))), checksum) == Ok(seed)
  {
    assert Pow2(5) == 32;
    var payload := Payload(seed, checksum);
    ValuesOfChars(Pack(OfBytes(payload), 5));
    Base32RoundTrip(payload);
    assert payload[..SEED_BYTE_COUNT] == seed;
  }

  /** Symbols that decode to 34 bytes are 55 in number and are the encoding of those bytes. */
  lemma PayloadSymbols(vals: seq<nat>, payload: Bytes)
    requires AllBelow(vals, 32) && |payload| == SEED_BYTE_COUNT + 2
    ensures (WholeBytes(Unpack(vals, 5)) == payload && Leftover(Unpack(vals, 5)) == Zeros(|Leftover(Unpack(vals, 5))|))
            <==> vals == Pack(OfBytes(payload), 5)
    ensures |Pack(OfBytes(payload), 5)| == 55
  {
    hide Low, Unpack, OfBytes, Pack, WholeBytes;
    var bits, packed := Unpack(vals, 5), Pack(OfBytes(payload), 5);
    var pad := PackUnpacks(OfBytes(payload), 5);
    UnpackLength(vals, 5);
    UnpackLength(packed, 5);
    if WholeBytes(bits) == payload && Leftover(bits) == Zeros(|Leftover(bits)|) {
      WholeAndLeftover(bits);
      LeftoverOfPayload(|vals|, |Leftover(bits)|);
      assert Pow2(5) == 32;
      PackUnique(vals, OfBytes(payload), 3, 5);
    }
    if vals == packed {
      WholeBytesUnique(bits, payload, Zeros(pad));
    }
  }

  lemma LeftoverOfPayload(n: nat, rest: nat)
    requires n * 5 == 272 + rest && rest < 8
    ensures rest == 3
  {
  }

  /**
   Strictness: an ASCII text is accepted, with result `seed`, exactly when without dashes and
   whitespace, upper-cased and with I, L read as 1 and O as 0 it is the ungrouped encoding of
   `seed`: 55 symbols, the pad bits zero.
   */
  lemma AcceptedExactly(text: string, seed: Bytes, checksum: Checksum)
    requires IsAscii(Clean(text)) && |seed| == SEED_BYTE_COUNT
    ensures Decoded(text, checksum) == Ok(seed) <==> Normalised(Clean(text)) == Base32(Payload(seed, checksum))
    ensures |Base32(Payload(seed, checksum))| == 55
  {
    hide Low, Unpack, OfBytes, WholeBytes, Clean, Values;
    assert Pow2(5) == 32;
    var clean, payload := Clean(text), Payload(seed, checksum);
    var canonical := Pack(OfBytes(payload), 5);
    PayloadSymbols(canonical, payload);
    assert payload[..SEED_BYTE_COUNT] == seed;
    if Normalised(clean) == Chars(canonical) {
      assert |clean| == |canonical|;
      ValuesNormalised(clean, canonical);
    }
    if Decoded(text, checksum) == Ok(seed) {
      var got := Unbase32(clean).value;
      assert got == got[..SEED_BYTE_COUNT] + got[SEED_BYTE_COUNT..];
      var vals := Values(clean).value;
      PayloadSymbols(vals, payload);
      ValuesNormalised(clean, vals);
    }
  }

  /** The symbols of some values, 256 code points up. */
  function Shifted(vals: seq<nat>): string
    requires AllBelow(vals, 32)
  {
    seq(|vals|, i requires 0 <= i < |vals| => (Symbol(vals[i]) as int + 256) as char)
  }

  /** Because `up as u8` truncates, a character outside ASCII can stand for any symbol. */
  lemma NonAsciiSymbol(v: nat)
    requires v < 32
    ensures var c := (Symbol(v) as int + 256) as char;
            SymbolValue(c) == Some(v) && c as int >= 256 && !IsWhitespace(c) && c != '-'
  {
    var c := (Symbol(v) as int + 256) as char;
    assert ToAsciiUppercase(c) == c && AsU8(c) == Symbol(v);
    SymbolOfAscii(Symbol(v), v);
  }

  lemma {:induction false} ValuesOfShifted(vals: seq<nat>)
    requires AllBelow(vals, 32)
    ensures Values(Shifted(vals)) == Some(vals) && Clean(Shifted(vals)) == Shifted(vals)
  {
    hide SymbolValue, IsWhitespace, Symbol;
    if vals != [] {
      var n := |vals| - 1;
      ValuesOfShifted(vals[..n]);
      NonAsciiSymbol(vals[n]);
      assert Shifted(vals)[..n] == Shifted(vals[..n]) && vals[..n] + [vals[n]] == vals;
      forall i | 0 <= i < |vals| ensures !IsWhitespace(Shifted(vals)[i]) && Shifted(vals)[i] != '-' {
        NonAsciiSymbol(vals[i]);
      }
      CleanPlain(Shifted(vals));
    }
  }

  /** So every seed has an accepted text that is not its encoding: not one character of it is ASCII. */
  lemma NonAsciiAccepted(seed: Bytes, checksum: Checksum) returns (text: string)
    requires |seed| == SEED_BYTE_COUNT
    ensures Decoded(text, checksum) == Ok(seed)
    ensures Clean(text) == text && !IsAscii(text) && forall i | 0 <= i < |text| :: text[i] as int >= 128
  {
    hide Low, Unpack, OfBytes, WholeBytes, Values, Clean;
    assert Pow2(5) == 32;
    var payload := Payload(seed, checksum);
    var vals := Pack(OfBytes(payload), 5);
    var pad := PackUnpacks(OfBytes(payload), 5);
    text := Shifted(vals);
    ValuesOfShifted(vals);
    WholeBytesUnique(Unpack(vals, 5), payload, Zeros(pad));
    assert payload[..SEED_BYTE_COUNT] == seed;
    PayloadSymbols(vals, payload);
    forall i | 0 <= i < |text| ensures text[i] as int >= 128 { NonAsciiSymbol(vals[i]); }
    assert |text| == 55 && text[0] as int >= 128;
    assert Unbase32(text) == Ok(payload);
  }

  /** An accepted text is canonical exactly when what is left of it after cleaning is ASCII. */
  lemma CanonicalIffAscii(text: string, seed: Bytes, checksum: Checksum)
    ensures Decoded(text, checksum) == Ok(seed) ==>
              (Normalised(Clean(text)) == Base32(Payload(seed, checksum)) <==> IsAscii(Clean(text)))
  {
    var clean := Clean(text);
    if IsAscii(clean) {
      if |seed| == SEED_BYTE_COUNT {
        AcceptedExactly(text, seed, checksum);
      }
    } else {
      assert Pow2(5) == 32;
      NotCharsOf(clean, Pack(OfBytes(Payload(seed, checksum)), 5));
    }
  }

  lemma NotCharsOf(text: string, vals: seq<nat>)
    requires !IsAscii(text) && AllBelow(vals, 32)
    ensures Normalised(text) != Chars(vals)
  {
    var i :| 0 <= i < |text| && text[i] as int >= 128;
    if i < |vals| {
      assert Normalised(text)[i] != Chars(vals)[i];
    }
  }
}
