/**
 The signed request header (caladon-core/src/seed_auth.rs). Ed25519 is left symbolic: the
 signature is a parameter. Base64 is the strict, padded decoding of RFC 4648.
 */
module SeedAuth {
  import opened Wrappers
  import opened Text
  import Base64

  datatype AuthError = InvalidAccountId | MalformedHeader

  datatype AuthRequest = AuthRequest(accountId: string, ts: int, sig: Bytes)

  // ---- The signed message.

  function Upper(s: string): string {
    seq(|s|, i requires 0 <= i < |s| => if 'a' <= s[i] <= 'z' then (s[i] as int - 32) as char else s[i])
  }

  function Canonical(account: string, ts: int, httpMethod: string, path: string): string {
    account + "\n" + IntToString(ts) + "\n" + Upper(httpMethod) + "\n" + path
  }

  /** The signed fields cannot be cut differently: the message determines all four, the method up to case. */
  lemma CanonicalInjective(a: string, t: int, m: string, p: string, b: string, u: int, n: string, q: string)
    requires IsValidAccountId(a) && IsValidAccountId(b) && '\n' !in m && '\n' !in n
    ensures Canonical(a, t, m, p) == Canonical(b, u, n, q) <==> a == b && t == u && Upper(m) == Upper(n) && p == q
  {
    if Canonical(a, t, m, p) == Canonical(b, u, n, q) {
      var s1, s2 := IntToString(t), IntToString(u);
      var r1, r2 := Upper(m) + ['\n'] + p, Upper(n) + ['\n'] + q;
      assert Canonical(a, t, m, p) == a + ['\n'] + (s1 + ['\n'] + r1);
      assert Canonical(b, u, n, q) == b + ['\n'] + (s2 + ['\n'] + r2);
      SplitFirst(a, b, s1 + ['\n'] + r1, s2 + ['\n'] + r2, '\n');
      SplitFirst(s1, s2, r1, r2, '\n');
      SplitFirst(Upper(m), Upper(n), p, q, '\n');
      IntToStringInjective(t, u);
    }
  }

  /** No other request with the same message: the account and time, the method up to case, the path. */
  ghost predicate OnlyRequest(a: string, t: int, m: string, p: string, plainMethods: bool) {
    forall b, u, n, q | IsValidAccountId(b) && Canonical(b, u, n, q) == Canonical(a, t, m, p) ::
      (plainMethods ==> '\n' !in n) ==> b == a && u == t && Upper(n) == Upper(m) && q == p
  }

  /** Some newline of the path has no lower-case letter before it. */
  ghost predicate CutsPath(p: string) { exists i :: 0 <= i < |p| && p[i] == '\n' && Upper(p[..i]) == p[..i] }

  /**
   For a valid account the message determines the request among all whose method has no newline
   exactly when the method has none; and among all requests whatsoever exactly when, besides, no
   newline of the path can be taken for the end of a method.
   */
  lemma MessageUniqueIff(a: string, t: int, m: string, p: string)
    requires IsValidAccountId(a)
    ensures OnlyRequest(a, t, m, p, true) <==> '\n' !in m
    ensures OnlyRequest(a, t, m, p, false) <==> '\n' !in m && !CutsPath(p)
  {
    if '\n' in m {
      MethodTakesPath(a, t, m, p);
    } else {
      forall b, u, n, q | IsValidAccountId(b) && Canonical(b, u, n, q) == Canonical(a, t, m, p)
        ensures '\n' !in n || !CutsPath(p) ==> b == a && u == t && Upper(n) == Upper(m) && q == p
      {
        if '\n' !in n {
          CanonicalInjective(a, t, m, p, b, u, n, q);
        } else {
          MethodWithNewlineCutsPath(a, t, m, p, b, u, n, q);
        }
      }
      if CutsPath(p) {
        PathTakesMethod(a, t, m, p);
      }
    }
  }

  lemma CanonicalTail(a: string, t: int, m: string, p: string, n: string, q: string)
    requires Upper(m) + ['\n'] + p == Upper(n) + ['\n'] + q
    ensures Canonical(a, t, m, p) == Canonical(a, t, n, q)
  {
    var head := a + "\n" + IntToString(t) + "\n";
    assert Canonical(a, t, m, p) == head + (Upper(m) + ['\n'] + p);
    assert Canonical(a, t, n, q) == head + (Upper(n) + ['\n'] + q);
  }

  /** The message is four lines: the account, the time in decimal, the method in upper case, the path. */
  lemma CanonicalReads(a: string, t: int, m: string, p: string)
    ensures var s := Canonical(a, t, m, p);
            var afterAccount, time := |a| + 1, IntToString(t);
            var afterTime := afterAccount + |time| + 1;
            var afterMethod := afterTime + |m| + 1;
            && |s| == afterMethod + |p|
            && s[..|a|] == a && s[|a|] == '\n'
            && s[afterAccount..afterAccount + |time|] == time && s[afterTime - 1] == '\n'
            && (forall i | 0 <= i < |m| ::
                  s[afterTime + i] as int == if 'a' <= m[i] <= 'z' then m[i] as int - 32 else m[i] as int)
            && s[afterMethod - 1] == '\n' && s[afterMethod..] == p
  {
    var time := IntToString(t);
    assert Canonical(a, t, m, p) == a + ("\n" + (time + ("\n" + (Upper(m) + ("\n" + p)))));
  }

  lemma UpperCut(x: string, y: string)
    ensures Upper(x + ['\n'] + y) == Upper(x) + ['\n'] + Upper(y) && Upper(Upper(y)) == Upper(y)
  {
  }

  /** A newline cuts a method into a shorter method and a longer path. */
  lemma MethodTakesPath(a: string, t: int, m: string, p: string)
    requires IsValidAccountId(a) && '\n' in m
    ensures !OnlyRequest(a, t, m, p, true) && !OnlyRequest(a, t, m, p, false)
  {
    hide Canonical, Upper;
    var n, rest := CutAtFirst(m, '\n');
    var q := Upper(rest) + ['\n'] + p;
    UpperCut(n, rest);
    CanonicalTail(a, t, m, p, n, q);
    assert |q| > |p|;
  }

  lemma PathTakesMethod(a: string, t: int, m: string, p: string)
    requires IsValidAccountId(a) && CutsPath(p)
    ensures !OnlyRequest(a, t, m, p, false)
  {
    hide Canonical, Upper;
    var i :| 0 <= i < |p| && p[i] == '\n' && Upper(p[..i]) == p[..i];
    var before, q := p[..i], p[i + 1..];
    var n := m + ['\n'] + before;
    assert p == before + ['\n'] + q;
    UpperCut(m, before);
    CanonicalTail(a, t, m, p, n, q);
    assert |q| < |p|;
  }

  lemma MethodWithNewlineCutsPath(a: string, t: int, m: string, p: string, b: string, u: int, n: string, q: string)
    requires IsValidAccountId(a) && IsValidAccountId(b) && '\n' !in m && '\n' in n
    requires Canonical(b, u, n, q) == Canonical(a, t, m, p)
    ensures CutsPath(p)
  {
    hide Canonical, Upper;
    var n1, n2 := CutAtFirst(n, '\n');
    var path := Upper(n2) + ['\n'] + q;
    UpperCut(n1, n2);
    CanonicalTail(b, u, n, q, n1, path);
    CanonicalInjective(a, t, m, p, b, u, n1, path);
    var k := |Upper(n2)|;
    assert p[k] == '\n' && p[..k] == Upper(n2);
  }

  // ---- The header.

  const PREFIX := "Swifty "

  function Join3(a: string, b: string, c: string): string { a + " " + b + " " + c }

  function AuthorizationHeader(account: string, ts: int, sig: Bytes): Result<string, AuthError> {
    if IsValidAccountId(account) then
      Ok(PREFIX + Join3("acct=" + account, "ts=" + IntToString(ts), "sig=" + Base64.Base64Of(sig)))
    else Err(InvalidAccountId)
  }

  function StrictDecode(s: string): Option<Bytes> {
    match Base64.Unbase64(s)
    case Some(d) => if Base64.Base64Of(d) == s then Some(d) else None
    case None => None
  }

  /** The length of the leading run of non-whitespace. */
  function Run(s: string): (n: nat)
    ensures n <= |s|
  {
    if s == "" || IsWhitespace(s[0]) then 0 else 1 + Run(s[1..])
  }

  /** `split_whitespace`. */
  function Words(s: string): seq<string>
    decreases |s|
  {
    if s == "" then []
    else if IsWhitespace(s[0]) then Words(s[1..])
    else [s[..Run(s)]] + Words(s[Run(s)..])
  }

  datatype Fields = Fields(acct: Option<string>, ts: Option<int>, sig: Option<Bytes>)

  /** One `key=value` word; words without '=' and other keys are skipped. */
  function Take(f: Fields, word: string): Fields {
    var i := Find(word, '=');
    if i == |word| then f
    else
      var v := word[i + 1..];
      if word[..i] == "acct" then f.(acct := Some(v))
      else if word[..i] == "ts" then f.(ts := ParseI64(v))
      else if word[..i] == "sig" then f.(sig := StrictDecode(v))
      else f
  }

  function TakeAll(f: Fields, words: seq<string>): Fields
    decreases |words|
  {
    if words == [] then f else TakeAll(Take(f, words[0]), words[1..])
  }

  function Parsed(value: string): Result<AuthRequest, AuthError> {
    if |value| < |PREFIX| || value[..|PREFIX|] != PREFIX then Err(MalformedHeader)
    else
      var f := TakeAll(Fields(None, None, None), Words(value[|PREFIX|..]));
      if f.acct.None? || f.ts.None? || f.sig.None? then Err(MalformedHeader)
      else if f.acct.value == "" || f.sig.value == [] then Err(MalformedHeader)
      else if !IsValidAccountId(f.acct.value) then Err(InvalidAccountId)
      else Ok(AuthRequest(f.acct.value, f.ts.value, f.sig.value))
  }

  method ParseAuthHeader(value: string) returns (r: Result<AuthRequest, AuthError>)
    ensures r == Parsed(value)
  {
    if |value| < |PREFIX| || value[..|PREFIX|] != PREFIX {
      return Err(MalformedHeader);
    }
    var words := Words(value[|PREFIX|..]);
    var accountId: Option<string>, ts: Option<int>, sig: Option<Bytes> := None, None, None;
    for i := 0 to |words|
      invariant TakeAll(Fields(accountId, ts, sig), words[i..]) == TakeAll(Fields(None, None, None), words)
    {
      var part := words[i];
      assert words[i..][1..] == words[i + 1..];
      var eq := Find(part, '=');
      if eq < |part| {
        var k, v := part[..eq], part[eq + 1..];
        if k == "acct" {
          accountId := Some(v);
        } else if k == "ts" {
          ts := ParseI64(v);
        } else if k == "sig" {
          sig := StrictDecode(v);
        }
      }
    }
    if accountId.None? || ts.None? || sig.None? {
      return Err(MalformedHeader);
    }
    if accountId.value == "" || sig.value == [] {
      return Err(MalformedHeader);
    }
    if !IsValidAccountId(accountId.value) {
      return Err(InvalidAccountId);
    }
    return Ok(AuthRequest(accountId.value, ts.value, sig.value));
  }

  // ---- What is accepted.

  /** The last word `key=...` says v. */
  ghost predicate LastField(words: seq<string>, key: string, v: string) {
    exists i :: 0 <= i < |words| && words[i] == key + "=" + v
                && forall j | i < j < |words| :: !(key + "=" <= words[j])
  }

  lemma LastFieldSnoc(words: seq<string>, word: string, key: string, v: string)
    requires '=' !in key
    ensures key + "=" <= word ==>
              (LastField(words + [word], key, v) <==> word == key + "=" + v)
    ensures !(key + "=" <= word) ==>
              (LastField(words + [word], key, v) <==> LastField(words, key, v))
  {
    var all, n := words + [word], |words|;
    assert all[n] == word && word in all;
    assert key + "=" <= key + "=" + v;
    assert forall i | 0 <= i < n :: all[i] == words[i] && words[i] in all;
    if LastField(all, key, v) {
      var i :| 0 <= i < |all| && all[i] == key + "=" + v && forall j | i < j < |all| :: !(key + "=" <= all[j]);
      assert i < n ==> !(key + "=" <= all[n]);
    }
  }

  lemma {:induction false} TakeAllSnoc(f: Fields, words: seq<string>, word: string)
    ensures TakeAll(f, words + [word]) == Take(TakeAll(f, words), word)
    decreases |words|
  {
    hide Take;
    if words == [] {
      assert [word][1..] == [];
    } else {
      assert (words + [word])[1..] == words[1..] + [word];
      TakeAllSnoc(Take(f, words[0]), words[1..], word);
    }
  }

  /** A word is `key=value` for a key without '=' exactly when it starts with the key and '='. */
  lemma FieldOf(word: string, key: string)
    requires '=' !in key
    ensures var i := Find(word, '=');
            key + "=" <= word <==> i < |word| && word[..i] == key
    ensures key + "=" <= word ==> |key| < |word| && word == key + "=" + word[Find(word, '=') + 1..]
  {
    hide Find;
    StartsAt(word, key, Find(word, '='));
  }

  lemma StartsAt(word: string, key: string, i: nat)
    requires i <= |word| && '=' !in key && (forall j | 0 <= j < i :: word[j] != '=') && (i < |word| ==> word[i] == '=')
    ensures key + "=" <= word <==> i < |word| && word[..i] == key
    ensures key + "=" <= word ==> |key| < |word| && word == key + "=" + word[i + 1..]
  {
    var k := |key|;
    if key + "=" <= word {
      assert (key + "=")[k] == '=' && word[k] == (key + "=")[k];
      assert forall j | 0 <= j < k :: word[j] == (key + "=")[j] == key[j];
      assert i == k;
      assert word[..k + 1] == key + "=";
      assert word == word[..k + 1] + word[k + 1..];
    } else if i < |word| {
      assert word[..i + 1] == word[..i] + "=";
    }
  }

  /** What the fields are after all words: those of the last word of each key. */
  ghost predicate FieldsAre(words: seq<string>, f: Fields) {
    && (forall v :: LastField(words, "acct", v) ==> f.acct == Some(v))
    && (forall v :: LastField(words, "ts", v) ==> f.ts == ParseI64(v))
    && (forall v :: LastField(words, "sig", v) ==> f.sig == StrictDecode(v))
    && (f.acct.Some? ==> LastField(words, "acct", f.acct.value))
    && (f.ts.Some? ==> exists v :: LastField(words, "ts", v))
    && (f.sig.Some? ==> exists v :: LastField(words, "sig", v))
  }

  lemma TakeKeeps(words: seq<string>, f: Fields, word: string)
    requires FieldsAre(words, f)
    ensures FieldsAre(words + [word], Take(f, word))
  {
    hide LastField, ParseI64, StrictDecode, Find;
    var g, v := Take(f, word), word[if Find(word, '=') < |word| then Find(word, '=') + 1 else 0..];
    FieldOf(word, "acct");
    FieldOf(word, "ts");
    FieldOf(word, "sig");
    forall u ensures
      (LastField(words + [word], "acct", u) ==> g.acct == Some(u))
      && (LastField(words + [word], "ts", u) ==> g.ts == ParseI64(u))
      && (LastField(words + [word], "sig", u) ==> g.sig == StrictDecode(u))
    {
      LastFieldSnoc(words, word, "acct", u);
      LastFieldSnoc(words, word, "ts", u);
      LastFieldSnoc(words, word, "sig", u);
    }
    forall u, key | key == "acct" || key == "ts" || key == "sig"
      ensures LastField(words, key, u) && !(key + "=" <= word) ==> LastField(words + [word], key, u)
      ensures key + "=" <= word && u == v ==> LastField(words + [word], key, u)
    {
      LastFieldSnoc(words, word, key, u);
    }
  }

  lemma {:induction false} FieldsOfWords(words: seq<string>)
    ensures FieldsAre(words, TakeAll(Fields(None, None, None), words))
  {
    hide Take, FieldsAre;
    if words == [] {
      assert FieldsAre([], Fields(None, None, None)) by { NoWordsNoFields(); }
    } else {
      var n := |words| - 1;
      FieldsOfWords(words[..n]);
      assert words == words[..n] + [words[n]];
      TakeAllSnoc(Fields(None, None, None), words[..n], words[n]);
      TakeKeeps(words[..n], TakeAll(Fields(None, None, None), words[..n]), words[n]);
    }
  }

  lemma NoWordsNoFields()
    ensures FieldsAre([], Fields(None, None, None))
  {
  }

  /** The words of the header say this account, timestamp and non-empty signature, each key's last word counting. */
  ghost predicate Says(words: seq<string>, account: string, ts: int, sig: Bytes) {
    && LastField(words, "acct", account) && account != ""
    && (exists t :: LastField(words, "ts", t) && ParseI64(t) == Some(ts))
    && (exists s :: LastField(words, "sig", s) && StrictDecode(s) == Some(sig)) && sig != []
  }

  /**
   A header is accepted exactly when it starts with "Swifty " and says a valid account; it is refused
   for its account exactly when it says an invalid one; everything else is malformed.
   */
  lemma ParsedIff(value: string, request: AuthRequest)
    ensures Parsed(value) == Ok(request) <==>
            && "Swifty " <= value && IsValidAccountId(request.accountId)
            && Says(Words(value[7..]), request.accountId, request.ts, request.sig)
    ensures Parsed(value) == Err(InvalidAccountId) <==>
            && "Swifty " <= value
            && exists a, t, s :: Says(Words(value[7..]), a, t, s) && !IsValidAccountId(a)
  {
    hide Words, Says, FieldsAre, TakeAll, IsValidAccountId;
    if "Swifty " <= value {
      var words := Words(value[7..]);
      var f := TakeAll(Fields(None, None, None), words);
      FieldsOfWords(words);
      forall a, t, s ensures Says(words, a, t, s) <==> f == Fields(Some(a), Some(t), Some(s)) && a != "" && s != [] {
        SaysIff(words, f, a, t, s);
      }
      if f.acct.Some? && f.ts.Some? && f.sig.Some? && f.acct.value != "" && f.sig.value != [] {
        assert Says(words, f.acct.value, f.ts.value, f.sig.value);
      }
      if a, t, s :| Says(words, a, t, s) && !IsValidAccountId(a) {
        assert Parsed(value) == Err(InvalidAccountId);
        assert exists a, t, s :: Says(Words(value[7..]), a, t, s) && !IsValidAccountId(a);
      }
    }
  }

  lemma SaysIff(words: seq<string>, f: Fields, account: string, ts: int, sig: Bytes)
    requires FieldsAre(words, f)
    ensures Says(words, account, ts, sig) <==>
            f == Fields(Some(account), Some(ts), Some(sig)) && account != "" && sig != []
  {
    hide LastField, ParseI64, StrictDecode;
    if f == Fields(Some(account), Some(ts), Some(sig)) {
      var t :| LastField(words, "ts", t);
      var s :| LastField(words, "sig", s);
      assert ParseI64(t) == Some(ts) && StrictDecode(s) == Some(sig);
    }
    if Says(words, account, ts, sig) {
      var t :| LastField(words, "ts", t) && ParseI64(t) == Some(ts);
      var s :| LastField(words, "sig", s) && StrictDecode(s) == Some(sig);
      assert f.acct == Some(account) && f.ts == ParseI64(t) && f.sig == StrictDecode(s);
    }
  }

  // ---- Round trip.

  ghost predicate Solid(s: string) { s != "" && forall i | 0 <= i < |s| :: !IsWhitespace(s[i]) }

  lemma {:induction false} RunOfSolid(w: string, rest: string)
    requires forall i | 0 <= i < |w| :: !IsWhitespace(w[i])
    requires rest == "" || IsWhitespace(rest[0])
    ensures Run(w + rest) == |w|
  {
    if w == "" {
      assert w + rest == rest;
    } else {
      assert (w + rest)[1..] == w[1..] + rest;
      RunOfSolid(w[1..], rest);
    }
  }

  lemma FirstWord(w: string, rest: string)
    requires Solid(w) && (rest == "" || IsWhitespace(rest[0]))
    ensures Words(w + rest) == [w] + Words(rest)
  {
    RunOfSolid(w, rest);
    assert (w + rest)[..|w|] == w && (w + rest)[|w|..] == rest;
  }

  lemma SkipSpace(x: string)
    ensures Words(" " + x) == Words(x)
  {
    assert (" " + x)[1..] == x;
  }

  lemma ThreeWords(a: string, b: string, c: string)
    requires Solid(a) && Solid(b) && Solid(c)
    ensures Words(Join3(a, b, c)) == [a, b, c]
  {
    hide Words, Solid;
    var r2 := " " + c;
    var r1 := " " + (b + r2);
    assert Join3(a, b, c) == a + r1;
    FirstWord(a, r1);
    SkipSpace(b + r2);
    FirstWord(b, r2);
    SkipSpace(c);
    FirstWord(c, "");
    assert c + "" == c;
    assert Words("") == [] by { NoWords(); }
  }

  lemma NoWords()
    ensures Words("") == []
  {
  }

  lemma KeyValue(key: string, v: string)
    requires '=' !in key
    ensures var w := key + "=" + v;
            Find(w, '=') == |key| < |w| && w[..|key|] == key && w[|key| + 1..] == v
  {
    assert key + "=" + v == key + ['='] + v;
    FindJoin(key, v, '=');
  }

  lemma TakeEach(account: string, t: string, s: string)
    ensures TakeAll(Fields(None, None, None), ["acct=" + account, "ts=" + t, "sig=" + s])
         == Fields(Some(account), ParseI64(t), StrictDecode(s))
  {
    hide ParseI64, StrictDecode;
    var words := ["acct=" + account, "ts=" + t, "sig=" + s];
    assert "acct" + "=" + account == words[0] && "ts" + "=" + t == words[1] && "sig" + "=" + s == words[2];
    KeyValue("acct", account);
    KeyValue("ts", t);
    KeyValue("sig", s);
    var f0 := Fields(None, None, None);
    assert words[1..][1..] == [words[2]] && words[1..][1..][1..] == [];
    var f1 := Fields(Some(account), None, None);
    var f2 := f1.(ts := ParseI64(t));
    var f3 := f2.(sig := StrictDecode(s));
    assert Take(f0, words[0]) == f1;
    assert Take(f1, words[1]) == f2 by {
      assert words[1][..2] == "ts" && "ts" != "acct";
    }
    assert Take(f2, words[2]) == f3 by {
      assert words[2][..3] == "sig" && |"acct"| == 4 && |"ts"| == 2;
    }
    assert TakeAll(f2, words[1..][1..]) == f3;
    assert TakeAll(f1, words[1..]) == f3;
  }

  lemma SolidParts(account: string, ts: int)
    requires IsValidAccountId(account)
    ensures Solid("acct=" + account) && Solid("ts=" + IntToString(ts))
  {
    forall i | 0 <= i < |account| ensures !IsWhitespace(account[i]) {
      assert account[i] in account;
    }
    var t := IntToString(ts);
    forall i | 0 <= i < |t| ensures !IsWhitespace(t[i]) {
      assert t[i] in t;
    }
  }

  /** Parsing a built header gives back the account, the timestamp and the signature. */
  lemma HeaderRoundTrip(account: string, ts: int, sig: Bytes)
    requires IsValidAccountId(account) && I64_MIN <= ts <= I64_MAX && sig != []
    ensures Parsed(AuthorizationHeader(account, ts, sig).value) == Ok(AuthRequest(account, ts, sig))
  {
    hide Words, TakeAll, ParseI64, IntToString, Base64.Base64Of, Base64.Unbase64;
    var t, s := IntToString(ts), Base64.Base64Of(sig);
    var header := AuthorizationHeader(account, ts, sig).value;
    var rest := Join3("acct=" + account, "ts=" + t, "sig=" + s);
    assert header[..|PREFIX|] == PREFIX && header[|PREFIX|..] == rest;
    SolidParts(account, ts);
    Base64.VisibleChars(sig);
    assert Solid("sig=" + s);
    ThreeWords("acct=" + account, "ts=" + t, "sig=" + s);
    TakeEach(account, t, s);
    ParsePrinted(ts);
    Base64.RoundTrip(sig);
  }
}
