/**
 Decimal printing and parsing, and fields joined by a separator.

 Signed texts and key ids are built by joining fields, so what a reader can recover depends on
 which fields may hold the separator: `SplitFirst` and `SplitLast` cut at the first and at the
 last one, `OnlyCut` at the only one, `CutAt` at a known place. Numbers are printed in decimal
 and read as Rust reads an `i64` (caladon-core/src/ratchet.rs, caladon-core/src/seed_auth.rs);
 account ids are those of gateway/app/ids.py and caladon-core/src/seed_auth.rs.
 */
module Text {
  import opened Wrappers

  predicate IsDigit(c: char) { '0' <= c <= '9' }

  function DigitChar(d: nat): (c: char)
    requires d < 10
    ensures IsDigit(c)
  {
    '0' + d as char
  }

  function DigitValue(c: char): (d: nat)
    requires IsDigit(c)
    ensures d < 10 && DigitChar(d) == c
  {
    (c - '0') as nat
  }

  predicate AllDigits(s: string) { forall c | c in s :: IsDigit(c) }

  function NatToString(n: nat): (s: string)
    ensures s != [] && AllDigits(s)
  {
    if n < 10 then [DigitChar(n)] else NatToString(n / 10) + [DigitChar(n % 10)]
  }

  function DigitsValue(s: string): nat
    requires AllDigits(s)
  {
    if s == [] then 0 else DigitsValue(s[..|s| - 1]) * 10 + DigitValue(s[|s| - 1])
  }

  lemma {:induction false} DigitsOfNat(n: nat)
    ensures DigitsValue(NatToString(n)) == n
  {
    if n >= 10 {
      DigitsOfNat(n / 10);
      var s := NatToString(n);
      assert s[..|s| - 1] == NatToString(n / 10);
    }
  }

  function IntToString(v: int): (s: string)
    ensures s != []
    ensures forall c | c in s :: IsDigit(c) || c == '-'
  {
    if v < 0 then "-" + NatToString(-v) else NatToString(v)
  }

  lemma IntToStringInjective(v: int, w: int)
    requires IntToString(v) == IntToString(w)
    ensures v == w
  {
    var s, t := IntToString(v), IntToString(w);
    assert v < 0 <==> s[0] == '-' by {
      assert NatToString(if v < 0 then -v else v)[0] in NatToString(if v < 0 then -v else v);
    }
    assert w < 0 <==> t[0] == '-' by {
      assert NatToString(if w < 0 then -w else w)[0] in NatToString(if w < 0 then -w else w);
    }
    assert v < 0 ==> s[1..] == NatToString(-v);
    assert w < 0 ==> t[1..] == NatToString(-w);
    DigitsOfNat(if v < 0 then -v else v);
    DigitsOfNat(if w < 0 then -w else w);
  }

  const I64_MIN: int := -0x8000_0000_0000_0000
  const I64_MAX: int := 0x7FFF_FFFF_FFFF_FFFF

  /** Rust's `str::parse::<i64>`: an optional sign, then at least one digit, in range. */
  function ParseI64(s: string): Option<int> {
    var digits := if s != [] && (s[0] == '-' || s[0] == '+') then s[1..] else s;
    if digits == [] || !AllDigits(digits) then None
    else
      var v: int := if s[0] == '-' then 0 - DigitsValue(digits) else DigitsValue(digits);
      if I64_MIN <= v <= I64_MAX then Some(v) else None
  }

  lemma ParsePrinted(v: int)
    requires I64_MIN <= v <= I64_MAX
    ensures ParseI64(IntToString(v)) == Some(v)
  {
    var n := if v < 0 then -v else v;
    var s := IntToString(v);
    DigitsOfNat(n);
    assert NatToString(n)[0] in NatToString(n);
    if v < 0 {
      assert s[1..] == NatToString(n);
    }
  }

  // ---- Joining with a separator character.

  /** The first position of c in s, or |s|. */
  function Find(s: string, c: char): (i: nat)
    ensures i <= |s| && c !in s[..i] && (i < |s| ==> s[i] == c)
  {
    if s == [] || s[0] == c then 0 else
      var i := 1 + Find(s[1..], c);
      assert s[..i] == [s[0]] + s[1..][..i - 1];
      i
  }

  /** One past the last position of c in s, or 0. */
  function FindLast(s: string, c: char): (i: nat)
    ensures i <= |s| && c !in s[i..] && (i > 0 ==> s[i - 1] == c)
  {
    if s == [] || s[|s| - 1] == c then |s| else
      var i := FindLast(s[..|s| - 1], c);
      assert s[i..] == s[..|s| - 1][i..] + [s[|s| - 1]];
      i
  }

  lemma {:induction false} FindJoin(a: string, x: string, sep: char)
    requires sep !in a
    ensures Find(a + [sep] + x, sep) == |a|
  {
    var s := a + [sep] + x;
    if a != [] {
      assert s[1..] == a[1..] + [sep] + x;
      FindJoin(a[1..], x, sep);
    }
  }

  lemma {:induction false} FindLastJoin(a: string, x: string, sep: char)
    requires sep !in x
    ensures FindLast(a + [sep] + x, sep) == |a| + 1
  {
    var s := a + [sep] + x;
    if x != [] {
      assert s[..|s| - 1] == a + [sep] + x[..|x| - 1];
      FindLastJoin(a, x[..|x| - 1], sep);
    }
  }

  /** A field without the separator is cut off at the first separator. */
  lemma SplitFirst(a: string, b: string, x: string, y: string, sep: char)
    requires sep !in a && sep !in b
    requires a + [sep] + x == b + [sep] + y
    ensures a == b && x == y
  {
    FindJoin(a, x, sep);
    FindJoin(b, y, sep);
    CutAt(a, b, x, y, sep);
  }

  /** A field without the separator is cut off at the last separator. */
  lemma SplitLast(a: string, b: string, x: string, y: string, sep: char)
    requires sep !in x && sep !in y
    requires a + [sep] + x == b + [sep] + y
    ensures a == b && x == y
  {
    FindLastJoin(a, x, sep);
    FindLastJoin(b, y, sep);
    CutAt(a, b, x, y, sep);
  }

  lemma CutAtFirst(s: string, sep: char) returns (before: string, after: string)
    requires sep in s
    ensures s == before + [sep] + after && sep !in before
  {
    var i := Find(s, sep);
    before, after := s[..i], s[i + 1..];
  }

  /** Two fields without the separator are the only way to cut their joined text. */
  lemma OnlyCut(a: string, b: string, x: string, y: string, sep: char)
    requires sep !in a && sep !in x
    requires a + [sep] + x == b + [sep] + y
    ensures a == b && x == y
  {
    var i := Find(b, sep);
    if i < |b| {
      var rest := b[i + 1..] + [sep] + y;
      assert b + [sep] + y == b[..i] + [sep] + rest;
      SplitFirst(a, b[..i], x, rest, sep);
    } else {
      assert b[..i] == b;
      SplitFirst(a, b, x, y, sep);
    }
  }

  lemma CutAt(a: string, b: string, x: string, y: string, sep: char)
    requires |a| == |b| && a + [sep] + x == b + [sep] + y
    ensures a == b && x == y
  {
    var s, t := a + [sep] + x, b + [sep] + y;
    assert s[..|a|] == a && t[..|b|] == b;
    assert s[|a| + 1..] == x && t[|b| + 1..] == y;
  }

  /** Unicode White_Space, as `char::is_whitespace`. */
  predicate IsWhitespace(c: char) {
    var n := c as int;
    || 0x9 <= n <= 0xD || n == 0x20 || n == 0x85 || n == 0xA0 || n == 0x1680 || 0x2000 <= n <= 0x200A
    || n == 0x2028 || n == 0x2029 || n == 0x202F || n == 0x205F || n == 0x3000
  }

  // ---- Account ids (gateway/app/ids.py, caladon-core/src/seed_auth.rs).

  predicate IsIdChar(c: char) {
    IsDigit(c) || 'a' <= c <= 'z' || 'A' <= c <= 'Z' || c == '_' || c == '-'
  }

  predicate IsValidAccountId(id: string) {
    16 <= |id| <= 128 && forall c | c in id :: IsIdChar(c)
  }
}
