/**
 Bit strings, most significant bit first, and their regrouping into symbols of w bits.

 The codecs of caladon-core/src/seed_codec.rs and web-client/caladon/src/bytes.ts shift bits
 through one 32-bit word whose upper part they never clear. `Pack` and `Unpack` say what such
 a loop reads and writes over the whole text; `ShiftIn` and `ShiftOut` say that the low bits of
 the word are the pending ones, whatever the upper part holds; and the `Push` and `Pull` lemmas
 are one turn of each loop.
 */
module Bits {
  import opened Wrappers
  import opened Powers

  /** The low w bits of x, in two's complement if x is negative. */
  function Low(x: int, w: nat): (s: seq<bool>)
    ensures |s| == w
    decreases w
  {
    if w == 0 then [] else Low(x / 2, w - 1) + [x % 2 == 1]
  }

  function Unpack(vals: seq<nat>, w: nat): seq<bool> {
    if vals == [] then [] else Unpack(vals[..|vals| - 1], w) + Low(vals[|vals| - 1], w)
  }

  lemma {:induction false} UnpackLength(vals: seq<nat>, w: nat)
    ensures |Unpack(vals, w)| == |vals| * w
  {
    if vals != [] {
      UnpackLength(vals[..|vals| - 1], w);
      assert |vals| * w == (|vals| - 1) * w + w;
    }
  }

  function Zeros(n: nat): (s: seq<bool>)
    ensures |s| == n
  {
    seq(n, _ => false)
  }

  function Value(s: seq<bool>): (v: nat)
    ensures v < Pow2(|s|) && Low(v, |s|) == s
  {
    if s == [] then 0 else
      var v := 2 * Value(s[..|s| - 1]) + (if s[|s| - 1] then 1 else 0);
      assert s == s[..|s| - 1] + [s[|s| - 1]];
      v
  }

  /** Regroup into symbols of w bits, the last one padded with zeros. */
  function Pack(s: seq<bool>, w: nat): (vals: seq<nat>)
    requires w > 0
    ensures AllBelow(vals, Pow2(w))
    decreases |s|
  {
    if s == [] then []
    else if |s| <= w then
      ValueOf(s + Zeros(w - |s|), w);
      [Value(s + Zeros(w - |s|))]
    else
      ValueOf(s[..w], w);
      [Value(s[..w])] + Pack(s[w..], w)
  }

  predicate AllBelow(vals: seq<nat>, bound: nat) {
    forall i | 0 <= i < |vals| :: vals[i] < bound
  }

  function Ints(data: Bytes): seq<nat> {
    seq(|data|, i requires 0 <= i < |data| => data[i] as nat)
  }

  function OfBytes(data: Bytes): (s: seq<bool>)
    ensures |s| == 8 * |data|
  {
    UnpackLength(Ints(data), 8);
    Unpack(Ints(data), 8)
  }

  // ---- Low bits.

  lemma {:induction false} LowSplit(x: int, a: nat, b: nat)
    ensures Low(x, a + b) == Low(Shift(x, b), a) + Low(x, b)
    decreases b
  {
    if b == 0 {
      assert Low(x, a) == Low(x, a) + [];
    } else {
      LowSplit(x / 2, a, b - 1);
      assert Low(x, a + b) == Low(x / 2, a + (b - 1)) + [x % 2 == 1];
      assert Low(x, b) == Low(x / 2, b - 1) + [x % 2 == 1];
    }
  }

  lemma {:induction false} LowMod(x: int, w: nat, m: nat)
    requires w <= m
    ensures Low(x % Pow2(m), w) == Low(x, w)
    decreases w
  {
    if w > 0 {
      var p := Pow2(m - 1);
      LowMod(x / 2, w - 1, m - 1);
      HalfMod(x, p);
    }
  }

  lemma HalfMod(x: int, p: nat)
    requires p > 0
    ensures (x % (2 * p)) / 2 == (x / 2) % p && (x % (2 * p)) % 2 == x % 2
  {
    var h := x / 2;
    var q, r := h / p, h % p;
    assert h == q * p + r;
    assert x == q * (2 * p) + (2 * r + x % 2);
    DivUnique(x, 2 * p, q, 2 * r + x % 2);
  }

  lemma {:induction false} LowInjective(x: nat, y: nat, w: nat)
    requires x < Pow2(w) && y < Pow2(w) && Low(x, w) == Low(y, w)
    ensures x == y
    decreases w
  {
    if w > 0 {
      var s, t := Low(x / 2, w - 1), Low(y / 2, w - 1);
      assert (s + [x % 2 == 1])[..w - 1] == s && (t + [y % 2 == 1])[..w - 1] == t;
      assert (s + [x % 2 == 1])[w - 1] == (t + [y % 2 == 1])[w - 1];
      LowInjective(x / 2, y / 2, w - 1);
    }
  }

  /** Low bits of a value shifted left with a smaller value put in. */
  lemma LowAppend(x: int, y: nat, a: nat, b: nat)
    requires y < Pow2(b)
    ensures Low(x * Pow2(b) + y, a + b) == Low(x, a) + Low(y, b)
  {
    var z := x * Pow2(b) + y;
    LowSplit(z, a, b);
    ShiftIsDivision(z, b);
    DivUnique(z, Pow2(b), x, y);
    LowMod(z, b, b);
  }

  lemma {:induction false} LowZero(w: nat)
    ensures Low(0, w) == Zeros(w)
  {
    if w > 0 {
      LowZero(w - 1);
      assert Zeros(w - 1) + [false] == Zeros(w);
    }
  }

  lemma LowIsZero(x: nat, w: nat)
    ensures Low(x, w) == Zeros(w) <==> x % Pow2(w) == 0
  {
    LowMod(x, w, w);
    LowZero(w);
    if Low(x, w) == Zeros(w) {
      LowInjective(x % Pow2(w), 0, w);
    }
  }

  // ---- Regrouping.

  lemma UnpackSnoc(vals: seq<nat>, v: nat, w: nat)
    ensures Unpack(vals + [v], w) == Unpack(vals, w) + Low(v, w)
  {
    assert (vals + [v])[..|vals|] == vals;
  }

  lemma {:induction false} UnpackConcat(a: seq<nat>, b: seq<nat>, w: nat)
    ensures Unpack(a + b, w) == Unpack(a, w) + Unpack(b, w)
    decreases |b|
  {
    if b == [] {
      assert a + b == a;
    } else {
      hide Unpack, Low;
      var init, v := b[..|b| - 1], b[|b| - 1];
      assert b == init + [v] && a + b == (a + init) + [v];
      UnpackConcat(a, init, w);
      UnpackSnoc(a + init, v, w);
      UnpackSnoc(init, v, w);
      Regroup(Unpack(a, w), Unpack(init, w), Low(v, w));
    }
  }

  lemma UnpackOne(v: nat, w: nat)
    ensures Unpack([v], w) == Low(v, w)
  {
    assert [v][..0] == [];
  }

  lemma ValueOf(s: seq<bool>, w: nat)
    requires |s| == w
    ensures Value(s) < Pow2(w) && Low(Value(s), w) == s
  {
  }

  lemma UnpackFirst(v: nat, rest: seq<nat>, w: nat)
    ensures Unpack([v] + rest, w) == Low(v, w) + Unpack(rest, w)
  {
    UnpackConcat([v], rest, w);
    UnpackOne(v, w);
  }

  /** Pack is the only way to write s, zero-padded, with symbols of w bits. */
  lemma {:induction false} PackUnique(vals: seq<nat>, s: seq<bool>, pad: nat, w: nat)
    requires w > 0 && pad < w
    requires AllBelow(vals, Pow2(w))
    requires Unpack(vals, w) == s + Zeros(pad)
    ensures vals == Pack(s, w)
    decreases |vals|
  {
    if vals == [] {
      assert |s + Zeros(pad)| == 0;
    } else {
      var v, rest := vals[0], vals[1..];
      assert vals == [v] + rest;
      UnpackFirst(v, rest, w);
      if |s| <= w {
        PackUniqueLast(v, rest, s, pad, w);
      } else {
        TailOf(Low(v, w), Unpack(rest, w), s, pad);
        ValueOf(s[..w], w);
        LowInjective(v, Value(s[..w]), w);
        PackUnique(rest, s[w..], pad, w);
      }
    }
  }

  lemma TailOf(a: seq<bool>, b: seq<bool>, s: seq<bool>, pad: nat)
    requires a + b == s + Zeros(pad) && |a| <= |s|
    ensures a == s[..|a|] && b == s[|a|..] + Zeros(pad)
  {
    assert (a + b)[..|a|] == a && (a + b)[|a|..] == b;
  }

  lemma PackUniqueLast(v: nat, rest: seq<nat>, s: seq<bool>, pad: nat, w: nat)
    requires 0 <= pad < w && |s| <= w && v < Pow2(w) && s + Zeros(pad) == Low(v, w) + Unpack(rest, w)
    ensures [v] + rest == Pack(s, w)
  {
    UnpackLength(rest, w);
    assert |s| + pad == w + |rest| * w;
    assert rest == [];
    var all := s + Zeros(pad);
    assert all == Low(v, w);
    assert pad == w - |s|;
    ValueOf(all, w);
    LowInjective(v, Value(all), w);
    assert s != [];
  }

  lemma {:induction false} PackUnpacks(s: seq<bool>, w: nat) returns (pad: nat)
    requires w > 0
    ensures pad < w && Unpack(Pack(s, w), w) == s + Zeros(pad)
    decreases |s|
  {
    if s == [] {
      pad := 0;
    } else if |s| <= w {
      pad := w - |s|;
    } else {
      pad := PackUnpacks(s[w..], w);
      PackFirst(s, pad, w);
    }
  }

  lemma PackFirst(s: seq<bool>, pad: nat, w: nat)
    requires 0 < w < |s| && Unpack(Pack(s[w..], w), w) == s[w..] + Zeros(pad)
    ensures Unpack(Pack(s, w), w) == s + Zeros(pad)
  {
    hide Low, Unpack;
    ValueOf(s[..w], w);
    UnpackFirst(Value(s[..w]), Pack(s[w..], w), w);
    Regroup(s[..w], s[w..], Zeros(pad));
    assert s[..w] + s[w..] == s;
  }

  lemma IntsInjective(a: Bytes, b: Bytes)
    requires Ints(a) == Ints(b)
    ensures a == b
  {
    assert |Ints(a)| == |Ints(b)|;
    forall i | 0 <= i < |a| ensures a[i] == b[i] {
      assert Ints(a)[i] == Ints(b)[i];
    }
  }

  lemma OfBytesSnoc(data: Bytes, x: byte)
    ensures OfBytes(data + [x]) == OfBytes(data) + Low(x as nat, 8)
  {
    var vals := Ints(data + [x]);
    assert vals[..|vals| - 1] == Ints(data);
  }

  lemma OfBytesInjective(a: Bytes, b: Bytes)
    requires OfBytes(a) == OfBytes(b)
    ensures a == b
  {
    assert OfBytes(a) + Zeros(0) == OfBytes(a);
    assert Pow2(8) == 256;
    PackUnique(Ints(a), OfBytes(a), 0, 8);
    PackUnique(Ints(b), OfBytes(a), 0, 8);
    IntsInjective(a, b);
  }

  // ---- Whole bytes of a bit string.

  function ToBytes(vals: seq<nat>): Bytes
    requires AllBelow(vals, 256)
  {
    seq(|vals|, i requires 0 <= i < |vals| => vals[i] as byte)
  }

  function WholeBytes(s: seq<bool>): Bytes {
    assert Pow2(8) == 256;
    ToBytes(Pack(s[..|s| / 8 * 8], 8))
  }

  /** The bits after the last whole byte. */
  function Leftover(s: seq<bool>): seq<bool> { s[|s| / 8 * 8..] }

  lemma IntsOfToBytes(vals: seq<nat>)
    requires AllBelow(vals, 256)
    ensures Ints(ToBytes(vals)) == vals
  {
  }

  lemma NoPad(m: nat, n: nat, pad: nat)
    requires m * 8 == 8 * n + pad && pad < 8
    ensures pad == 0
  {
  }

  lemma WholeAndLeftover(s: seq<bool>)
    ensures s == OfBytes(WholeBytes(s)) + Leftover(s) && |Leftover(s)| < 8
  {
    var whole := s[..|s| / 8 * 8];
    var pad := PackUnpacks(whole, 8);
    UnpackLength(Pack(whole, 8), 8);
    NoPad(|Pack(whole, 8)|, |s| / 8, pad);
    assert whole + Zeros(0) == whole;
    assert Pow2(8) == 256;
    IntsOfToBytes(Pack(whole, 8));
  }

  lemma WholeBytesUnique(s: seq<bool>, data: Bytes, tail: seq<bool>)
    requires s == OfBytes(data) + tail && |tail| < 8
    ensures WholeBytes(s) == data && Leftover(s) == tail
  {
    WholeAndLeftover(s);
    SameCut(OfBytes(data), |data|, tail, OfBytes(WholeBytes(s)), |WholeBytes(s)|, Leftover(s));
    OfBytesInjective(WholeBytes(s), data);
  }

  lemma SameCut(a: seq<bool>, m: nat, b: seq<bool>, c: seq<bool>, n: nat, d: seq<bool>)
    requires a + b == c + d && |a| == 8 * m && |c| == 8 * n && |b| < 8 && |d| < 8
    ensures a == c && b == d
  {
    assert |a + b| == 8 * m + |b| && |c + d| == 8 * n + |d|;
    assert m == n;
    assert (a + b)[..|a|] == a && (a + b)[|a|..] == b;
    assert (c + d)[..|c|] == c && (c + d)[|c|..] == d;
  }

  // ---- Machine words as bit buffers.

  const WORD: int := 0x1_0000_0000

  function U32(x: int): nat { x % WORD }

  function Int32(x: int): int { if x % WORD >= 0x8000_0000 then x % WORD - WORD else x % WORD }

  lemma WordIsPow2()
    ensures Pow2(32) == WORD
  {
    assert Pow2(8) == 256;
    assert Pow2(16) == 0x1_0000;
    assert Pow2(24) == 0x100_0000;
    assert Pow2(28) == 0x1000_0000;
  }

  lemma LowCongruent(x: int, y: int, w: nat)
    requires w <= 32 && x % WORD == y % WORD
    ensures Low(x, w) == Low(y, w)
  {
    WordIsPow2();
    LowMod(x, w, 32);
    LowMod(y, w, 32);
  }

  /** (buffer << k) | y keeps the pending bits and appends y, whatever the wrap-around dropped. */
  lemma ShiftIn(buffer: int, wrapped: int, y: nat, bits: nat, k: nat, p: nat)
    requires p == Pow2(k) && y < p && bits + k <= 32 && wrapped % WORD == (buffer * p) % WORD
    ensures Low(wrapped + y, bits + k) == Low(buffer, bits) + Low(y, k)
  {
    var z := buffer * p;
    ModAdd(wrapped, z, y);
    LowCongruent(wrapped + y, z + y, bits + k);
    LowAppend(buffer, y, bits, k);
  }

  lemma ModAdd(a: int, b: int, y: int)
    requires a % WORD == b % WORD
    ensures (a + y) % WORD == (b + y) % WORD
  {
  }

  /** (buffer >> bits) & (2^w - 1) is the next w pending bits. */
  lemma ShiftOut(buffer: int, bits: nat, w: nat)
    ensures var v := Shift(buffer, bits) % Pow2(w);
            v < Pow2(w) && Low(buffer, w + bits) == Low(v, w) + Low(buffer, bits)
  {
    LowSplit(buffer, w, bits);
    LowMod(Shift(buffer, bits), w, w);
  }

  // ---- Bookkeeping steps of the codec loops.

  /** A byte joins the pending bits of an encoder. */
  lemma PushByte(vals: seq<nat>, w: nat, pending: seq<bool>, next: seq<bool>, done: Bytes, x: byte)
    requires Unpack(vals, w) + pending == OfBytes(done) && next == pending + Low(x as int, 8)
    ensures Unpack(vals, w) + next == OfBytes(done + [x])
  {
    OfBytesSnoc(done, x);
    Regroup(Unpack(vals, w), pending, Low(x as int, 8));
  }

  /** The first pending bits leave an encoder as a symbol. */
  lemma PullSymbol(vals: seq<nat>, w: nat, v: nat, pending: seq<bool>, next: seq<bool>, all: seq<bool>)
    requires Unpack(vals, w) + pending == all && pending == Low(v, w) + next
    ensures Unpack(vals + [v], w) + next == all
  {
    UnpackSnoc(vals, v, w);
    Regroup(Unpack(vals, w), Low(v, w), next);
  }

  /** A symbol joins the pending bits of a decoder. */
  lemma PushSymbol(vals: seq<nat>, w: nat, v: nat, pending: seq<bool>, next: seq<bool>, done: Bytes)
    requires Unpack(vals, w) == OfBytes(done) + pending && next == pending + Low(v, w)
    ensures Unpack(vals + [v], w) == OfBytes(done) + next
  {
    UnpackSnoc(vals, v, w);
    Regroup(OfBytes(done), pending, Low(v, w));
  }

  /** The first pending bits leave a decoder as a byte. */
  lemma PullByte(done: Bytes, x: byte, pending: seq<bool>, next: seq<bool>, all: seq<bool>)
    requires all == OfBytes(done) + pending && pending == Low(x as int, 8) + next
    ensures all == OfBytes(done + [x]) + next
  {
    OfBytesSnoc(done, x);
    Regroup(OfBytes(done), Low(x as int, 8), next);
  }
}
