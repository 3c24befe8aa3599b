/** Ephemeral agent ids (web-client/overlay/packages/data-provider/src/parsers.ts). */
module AgentIds {
  import opened Wrappers
  import Text

  // ---- Runs of underscores.

  predicate UnderAt(s: string, i: nat, k: nat) { i + k <= |s| && forall j | i <= j < i + k :: s[j] == '_' }

  /** s has no k underscores in a row. */
  ghost predicate NoRun(s: string, k: nat) { forall i: nat :: !UnderAt(s, i, k) }

  /** `indexOf` of k underscores, at or after `from`. */
  function FirstUnder(s: string, k: nat, from: nat): (r: int)
    requires k > 0 && from <= |s|
    ensures r == -1 ==> forall i: nat | from <= i :: !UnderAt(s, i, k)
    ensures r != -1 ==> from <= r && UnderAt(s, r, k) && forall i: nat | from <= i < r :: !UnderAt(s, i, k)
    decreases |s| - from
  {
    if UnderAt(s, from, k) then from else if from == |s| then -1 else FirstUnder(s, k, from + 1)
  }

  /** `lastIndexOf` of k underscores, at or before `from`. */
  function LastUnder(s: string, k: nat, from: nat): (r: int)
    ensures r == -1 ==> forall i: nat | i <= from :: !UnderAt(s, i, k)
    ensures r != -1 ==> 0 <= r <= from && UnderAt(s, r, k) && forall i: nat | r < i <= from :: !UnderAt(s, i, k)
  {
    if UnderAt(s, from, k) then from else if from == 0 then -1 else LastUnder(s, k, from - 1)
  }

  /** `s.split('_' * k)`. */
  function Split(s: string, k: nat): (pieces: seq<string>)
    requires k > 0
    ensures pieces != []
    ensures FirstUnder(s, k, 0) == -1 ==> pieces == [s]
    ensures var i := FirstUnder(s, k, 0); i != -1 ==> |pieces| >= 2 && pieces[0] == s[..i]
    decreases |s|
  {
    var i := FirstUnder(s, k, 0);
    if i == -1 then [s] else [s[..i]] + Split(s[i + k..], k)
  }

  function Join(pieces: seq<string>, sep: string): string
    requires pieces != []
  {
    if |pieces| == 1 then pieces[0] else pieces[0] + sep + Join(pieces[1..], sep)
  }

  /** `s.replace(/:/g, '__')`. */
  function ColonsToUnderscores(s: string): string {
    if s == "" then "" else (if s[0] == ':' then "__" else [s[0]]) + ColonsToUnderscores(s[1..])
  }

  /** `s.replace(/__/g, ':')`, scanning from the left. */
  function UnderscoresToColons(s: string): string {
    if s == "" then ""
    else if UnderAt(s, 0, 2) then ":" + UnderscoresToColons(s[2..])
    else [s[0]] + UnderscoresToColons(s[1..])
  }

  // ---- parseInt.

  predicate IsJsSpace(c: char) {
    var n := c as int;
    || 0x9 <= n <= 0xD || n == 0x20 || n == 0xA0 || n == 0x1680 || 0x2000 <= n <= 0x200A
    || n == 0x2028 || n == 0x2029 || n == 0x202F || n == 0x205F || n == 0x3000 || n == 0xFEFF
  }

  function DigitPrefix(s: string): (p: string)
    ensures Text.AllDigits(p)
  {
    if s == "" || !Text.IsDigit(s[0]) then "" else [s[0]] + DigitPrefix(s[1..])
  }

  function ParseInt(s: string): Option<int> {
    if s == "" then None
    else if IsJsSpace(s[0]) then ParseInt(s[1..])
    else
      var digits := DigitPrefix(if s[0] == '-' || s[0] == '+' then s[1..] else s);
      if digits == "" then None
      else
        var v: int := Text.DigitsValue(digits);
        Some(if s[0] == '-' then -v else v)
  }

  // ---- Encoding and parsing.

  /** An absent sender and an empty one are encoded alike. */
  function EncodeBase(endpoint: string, model: string, sender: string): string {
    var base := ColonsToUnderscores(endpoint + ":" + model);
    if sender == "" then base else base + "___" + ColonsToUnderscores(sender)
  }

  function Encode(endpoint: string, model: string, sender: string, index: Option<int>): string {
    var base := EncodeBase(endpoint, model, sender);
    if index.None? then base else base + "____" + Text.IntToString(index.value)
  }

  datatype Parsed = Parsed(endpoint: string, model: string, sender: Option<string>, index: Option<int>)

  /** The index suffix, if the text after the last four underscores reads as a number. */
  function SplitIndex(id: string): (Option<int>, string) {
    var last := LastUnder(id, 4, |id|);
    if last == -1 then (None, id)
    else
      match ParseInt(id[last + 4..])
      case Some(index) => (Some(index), id[..last])
      case None => (None, id)
  }

  function SplitSender(id: string): (string, Option<string>) {
    if FirstUnder(id, 3, 0) == -1 then (id, None)
    else
      var pieces := Split(id, 3);
      (pieces[0], Some(UnderscoresToColons(pieces[1])))
  }

  function Parse(id: string): Option<Parsed> {
    if FirstUnder(id, 2, 0) == -1 then None
    else
      var (index, working) := SplitIndex(id);
      var (main, sender) := SplitSender(working);
      var pieces := Split(main, 2);
      if pieces[0] == "" || |pieces| == 1 then None
      else Some(Parsed(pieces[0], Join(pieces[1..], ":"), sender, index))
  }

  // ---- Runs and concatenation.

  lemma NoRunConcat(p: string, t: string, k: nat)
    requires NoRun(p, k) && NoRun(t, k)
    requires p == "" || p[|p| - 1] != '_' || t == "" || t[0] != '_'
    ensures NoRun(p + t, k)
  {
    var s := p + t;
    forall i: nat ensures !UnderAt(s, i, k) {
      if i + k <= |p| {
        assert UnderAt(s, i, k) ==> UnderAt(p, i, k) by { assert forall j | i <= j < i + k :: s[j] == p[j]; }
      } else if i >= |p| {
        ShiftRun(p, t, i - |p|, k);
      } else if i + k <= |s| {
        assert s[|p| - 1] == p[|p| - 1] && s[|p|] == t[0];
      }
    }
  }

  lemma ShiftRun(p: string, t: string, i: nat, k: nat)
    ensures UnderAt(p + t, |p| + i, k) <==> UnderAt(t, i, k)
  {
    var s := p + t;
    if UnderAt(s, |p| + i, k) {
      forall j | i <= j < i + k ensures t[j] == '_' { assert t[j] == s[|p| + j]; }
    }
  }

  lemma NoRunParts(p: string, t: string, k: nat)
    requires NoRun(p + t, k)
    ensures NoRun(p, k) && NoRun(t, k)
  {
    var s := p + t;
    forall i: nat ensures !UnderAt(p, i, k) {
      if UnderAt(p, i, k) {
        assert forall j | i <= j < i + k :: s[j] == p[j];
        assert UnderAt(s, i, k);
      }
    }
    forall i: nat ensures !UnderAt(t, i, k) { ShiftRun(p, t, i, k); }
  }

  lemma NoRunLonger(s: string, k: nat, m: nat)
    requires NoRun(s, k) && k <= m
    ensures NoRun(s, m)
  {
    forall i: nat ensures !UnderAt(s, i, m) {
      assert UnderAt(s, i, m) ==> UnderAt(s, i, k);
    }
  }

  /** The first run comes right after a text without one that does not end in an underscore. */
  lemma FirstRunAfter(p: string, run: string, t: string)
    requires run != "" && forall c | c in run :: c == '_'
    requires NoRun(p, |run|) && (p == "" || p[|p| - 1] != '_')
    ensures FirstUnder(p + run + t, |run|, 0) == |p|
  {
    var s := p + run + t;
    var k := |run|;
    assert UnderAt(s, |p|, k) by {
      forall j | |p| <= j < |p| + k ensures s[j] == '_' { assert s[j] == run[j - |p|] && run[j - |p|] in run; }
    }
    forall i: nat | i < |p| ensures !UnderAt(s, i, k) {
      if i + k <= |p| {
        assert UnderAt(s, i, k) ==> UnderAt(p, i, k) by { assert forall j | i <= j < i + k :: s[j] == p[j]; }
      } else {
        assert s[|p| - 1] == p[|p| - 1];
      }
    }
  }

  /** The last run of four stands right before a text without one that does not start with an underscore. */
  lemma LastRunBefore(p: string, t: string)
    requires NoRun(t, 4) && (t == "" || t[0] != '_')
    ensures LastUnder(p + "____" + t, 4, |p + "____" + t|) == |p|
  {
    var s := p + "____" + t;
    assert UnderAt(s, |p|, 4);
    forall i: nat | |p| < i ensures !UnderAt(s, i, 4) {
      if i < |p| + 4 {
        assert t != "" ==> s[|p| + 4] == t[0];
      } else {
        ShiftRun(p + "____", t, i - |p| - 4, 4);
      }
    }
  }

  // ---- The two replacements.

  predicate Mark(c: char) { c == '_' || c == ':' }

  predicate NoAdjacentMarks(s: string) { forall i | 0 <= i < |s| - 1 :: !(Mark(s[i]) && Mark(s[i + 1])) }

  lemma {:induction false} EncodeConcat(a: string, b: string)
    ensures ColonsToUnderscores(a + b) == ColonsToUnderscores(a) + ColonsToUnderscores(b)
  {
    if a == "" {
      assert a + b == b;
    } else {
      assert (a + b)[1..] == a[1..] + b;
      EncodeConcat(a[1..], b);
    }
  }

  lemma {:induction false} EncodeNoColon(a: string)
    requires ':' !in a
    ensures ColonsToUnderscores(a) == a
  {
    if a != "" {
      EncodeNoColon(a[1..]);
    }
  }

  lemma {:induction false} EncodedHasNoColon(a: string)
    ensures ':' !in ColonsToUnderscores(a)
  {
    if a != "" {
      EncodedHasNoColon(a[1..]);
    }
  }

  /** How the encoding of a text starts and ends. */
  lemma EncodedEnds(a: string)
    ensures var r := ColonsToUnderscores(a);
            && (a == "" <==> r == "")
            && (a != "" ==> (r[0] == '_' <==> Mark(a[0])) && (r[|r| - 1] == '_' <==> Mark(a[|a| - 1])))
  {
    if a != "" {
      var n := |a| - 1;
      assert a == a[..n] + [a[n]];
      EncodeConcat(a[..n], [a[n]]);
      assert ColonsToUnderscores([a[n]]) == if a[n] == ':' then "__" else [a[n]];
    }
  }

  lemma {:induction false} DecodeEncoded(a: string)
    requires NoAdjacentMarks(a)
    ensures UnderscoresToColons(ColonsToUnderscores(a)) == a
  {
    if a != "" {
      var rest := ColonsToUnderscores(a[1..]);
      assert NoAdjacentMarks(a[1..]);
      DecodeEncoded(a[1..]);
      EncodedEnds(a[1..]);
      var r := ColonsToUnderscores(a);
      if a[0] == ':' {
        assert r[2..] == rest;
      } else {
        assert r[1..] == rest;
        assert a[0] == '_' && |a| > 1 ==> !Mark(a[1]);
      }
    }
  }

  lemma {:induction false} EncodeDecoded(r: string)
    requires ':' !in r
    ensures ColonsToUnderscores(UnderscoresToColons(r)) == r
    decreases |r|
  {
    if r != "" {
      if UnderAt(r, 0, 2) {
        EncodeDecoded(r[2..]);
        EncodeConcat(":", UnderscoresToColons(r[2..]));
        assert r == "__" + r[2..];
      } else {
        EncodeDecoded(r[1..]);
        EncodeConcat([r[0]], UnderscoresToColons(r[1..]));
      }
    }
  }

  lemma {:induction false} DecodedHasNoPair(r: string)
    ensures NoRun(UnderscoresToColons(r), 2)
    decreases |r|
  {
    if r != "" {
      if UnderAt(r, 0, 2) {
        DecodedHasNoPair(r[2..]);
        NoRunConcat(":", UnderscoresToColons(r[2..]), 2);
      } else {
        DecodedHasNoPair(r[1..]);
        var d := UnderscoresToColons(r[1..]);
        assert r[0] == '_' && d != "" ==> d[0] != '_' by {
          assert |r| > 1 && r[0] == '_' ==> r[1] != '_';
        }
        NoRunConcat([r[0]], d, 2);
      }
    }
  }

  lemma {:induction false} EncodedRuns(a: string)
    requires NoAdjacentMarks(a)
    ensures NoRun(ColonsToUnderscores(a), 3)
  {
    if a != "" {
      var head := if a[0] == ':' then "__" else [a[0]];
      assert NoAdjacentMarks(a[1..]);
      EncodedRuns(a[1..]);
      EncodedEnds(a[1..]);
      assert |a| > 1 && Mark(a[0]) ==> !Mark(a[1]);
      NoRunConcat(head, ColonsToUnderscores(a[1..]), 3);
    }
  }

  lemma {:induction false} MarksOfEncoded(a: string)
    requires NoRun(ColonsToUnderscores(a), 3) && NoRun(a, 2)
    ensures NoAdjacentMarks(a)
  {
    if |a| > 1 {
      var head := if a[0] == ':' then "__" else [a[0]];
      NoRunParts(head, ColonsToUnderscores(a[1..]), 3);
      assert a == [a[0]] + a[1..];
      NoRunParts([a[0]], a[1..], 2);
      MarksOfEncoded(a[1..]);
      var r := ColonsToUnderscores(a);
      assert r == head + ((if a[1] == ':' then "__" else [a[1]]) + ColonsToUnderscores(a[2..])) by {
        assert a[1..][1..] == a[2..];
      }
      assert !UnderAt(r, 0, 3) && !UnderAt(a, 0, 2);
      assert !(Mark(a[0]) && Mark(a[1]));
      forall i | 0 <= i < |a| - 1 ensures !(Mark(a[i]) && Mark(a[i + 1])) {
        if i > 0 {
          assert a[i] == a[1..][i - 1] && a[i + 1] == a[1..][i];
        }
      }
    }
  }

  lemma {:induction false} JoinOfSplit(s: string)
    ensures Join(Split(s, 2), ":") == UnderscoresToColons(s)
    decreases |s|
  {
    var i := FirstUnder(s, 2, 0);
    if i == -1 {
      NothingToDecode(s);
    } else {
      JoinOfSplit(s[i + 2..]);
      assert s == s[..i] + "__" + s[i + 2..] by { assert s[i] == '_' && s[i + 1] == '_'; }
      DecodeAfter(s[..i], s[i + 2..]);
      assert Split(s, 2)[1..] == Split(s[i + 2..], 2);
    }
  }

  lemma {:induction false} NothingToDecode(s: string)
    requires NoRun(s, 2)
    ensures UnderscoresToColons(s) == s
  {
    if s != "" {
      assert !UnderAt(s, 0, 2);
      assert s == [s[0]] + s[1..];
      NoRunParts([s[0]], s[1..], 2);
      NothingToDecode(s[1..]);
    }
  }

  lemma {:induction false} DecodeAfter(p: string, t: string)
    requires forall i: nat | i < |p| :: !UnderAt(p + "__" + t, i, 2)
    ensures UnderscoresToColons(p + "__" + t) == p + ":" + UnderscoresToColons(t)
  {
    var s := p + "__" + t;
    if p == "" {
      assert UnderAt(s, 0, 2) && s[2..] == t;
    } else {
      assert !UnderAt(s, 0, 2);
      var s' := p[1..] + "__" + t;
      assert s[1..] == s' && s == [s[0]] + s';
      forall i: nat | i < |p| - 1 ensures !UnderAt(s', i, 2) { ShiftRun([s[0]], s', i, 2); }
      DecodeAfter(p[1..], t);
    }
  }

  // ---- Numbers.

  lemma {:induction false} DigitPrefixOfDigits(s: string)
    requires Text.AllDigits(s)
    ensures DigitPrefix(s) == s
  {
    if s != "" {
      assert s[0] in s;
      assert forall c | c in s[1..] :: c in s;
      DigitPrefixOfDigits(s[1..]);
    }
  }

  lemma ParsePrintedInt(v: int)
    ensures ParseInt(Text.IntToString(v)) == Some(v)
  {
    hide Text.DigitsValue;
    var n := if v < 0 then -v else v;
    var digits := Text.NatToString(n);
    var s := Text.IntToString(v);
    Text.DigitsOfNat(n);
    DigitPrefixOfDigits(digits);
    assert digits[0] in digits;
    assert v < 0 ==> s[1..] == digits;
  }

  /** Replacing colons does not change whether a text starts with a number. */
  lemma {:induction false} NumberPrefixKept(a: string)
    ensures ParseInt(ColonsToUnderscores(a)).None? <==> ParseInt(a).None?
  {
    if a != "" {
      var r := ColonsToUnderscores(a);
      if a[0] != ':' {
        assert r[1..] == ColonsToUnderscores(a[1..]);
        NumberPrefixKept(a[1..]);
        assert DigitPrefix(a[1..]) == "" <==> DigitPrefix(r[1..]) == "";
      }
    }
  }

  // ---- Round trip.

  /** What a caller can check before encoding. */
  ghost predicate Encodable(endpoint: string, model: string, sender: string, index: Option<int>) {
    && endpoint != "" && ':' !in endpoint && NoAdjacentMarks(endpoint) && endpoint[|endpoint| - 1] != '_'
    && NoAdjacentMarks(model) && (model != "" ==> !Mark(model[0]))
    && (sender != "" ==>
          && model != "" && !Mark(model[|model| - 1])
          && NoAdjacentMarks(sender)
          && (index.None? && Mark(sender[0]) ==> ParseInt(sender[1..]).None?))
  }

  function SenderOf(sender: string): Option<string> { if sender == "" then None else Some(sender) }

  function MainPart(endpoint: string, model: string): string { endpoint + "__" + ColonsToUnderscores(model) }

  lemma BaseParts(endpoint: string, model: string, sender: string)
    requires ':' !in endpoint
    ensures EncodeBase(endpoint, model, sender) ==
            MainPart(endpoint, model) + (if sender == "" then "" else "___" + ColonsToUnderscores(sender))
  {
    EncodeConcat(endpoint + ":", model);
    EncodeConcat(endpoint, ":");
    EncodeNoColon(endpoint);
    assert ColonsToUnderscores(":") == "__";
  }

  lemma PairFree(s: string)
    requires NoAdjacentMarks(s)
    ensures NoRun(s, 2)
  {
    forall i: nat ensures !UnderAt(s, i, 2) {
      if UnderAt(s, i, 2) {
        assert Mark(s[i]) && Mark(s[i + 1]);
      }
    }
  }

  lemma MainPartRuns(endpoint: string, model: string)
    requires Encodable(endpoint, model, "", None)
    ensures NoRun(MainPart(endpoint, model), 3)
    ensures var main := MainPart(endpoint, model);
            main[|main| - 1] != '_' <==> model != "" && !Mark(model[|model| - 1])
  {
    var r := ColonsToUnderscores(model);
    PairFree(endpoint);
    NoRunLonger(endpoint, 2, 3);
    EncodedRuns(model);
    EncodedEnds(model);
    NoRunConcat(endpoint, "__", 3);
    NoRunConcat(endpoint + "__", r, 3);
  }

  /** Stage one leaves the base, whether an index was appended or not. */
  lemma IndexStage(endpoint: string, model: string, sender: string, index: Option<int>)
    requires Encodable(endpoint, model, sender, index)
    ensures SplitIndex(Encode(endpoint, model, sender, index)) == (index, EncodeBase(endpoint, model, sender))
  {
    var base := EncodeBase(endpoint, model, sender);
    var id := Encode(endpoint, model, sender, index);
    if index.Some? {
      var number := Text.IntToString(index.value);
      assert forall i: nat :: !UnderAt(number, i, 4) by {
        forall i: nat ensures !UnderAt(number, i, 4) { assert i < |number| ==> number[i] in number; }
      }
      assert number[0] in number;
      LastRunBefore(base, number);
      assert id[..|base|] == base && id[|base| + 4..] == number;
      ParsePrintedInt(index.value);
    } else {
      BaseParts(endpoint, model, sender);
      MainPartRuns(endpoint, model);
      var main := MainPart(endpoint, model);
      if sender == "" {
        assert main + "" == main;
        NoRunLonger(main, 3, 4);
      } else {
        SenderStartsOrNot(main, sender);
      }
    }
  }

  /** Without an index, a sender that starts with a mark forms a run of four; otherwise there is none. */
  lemma SenderStartsOrNot(main: string, sender: string)
    requires NoRun(main, 3) && main != "" && main[|main| - 1] != '_'
    requires sender != "" && NoAdjacentMarks(sender) && (Mark(sender[0]) ==> ParseInt(sender[1..]).None?)
    ensures var id := main + ("___" + ColonsToUnderscores(sender)); SplitIndex(id) == (None, id)
  {
    hide ColonsToUnderscores, ParseInt, NoAdjacentMarks;
    if Mark(sender[0]) {
      AfterLastRun(main, sender);
      NumberPrefixKept(sender[1..]);
    } else {
      NoFourRun(main, sender);
    }
  }

  lemma NoFourRun(main: string, sender: string)
    requires NoRun(main, 3) && main != "" && main[|main| - 1] != '_'
    requires sender != "" && NoAdjacentMarks(sender) && !Mark(sender[0])
    ensures NoRun(main + ("___" + ColonsToUnderscores(sender)), 4)
  {
    hide ColonsToUnderscores, NoAdjacentMarks;
    var r := ColonsToUnderscores(sender);
    EncodedRuns(sender);
    EncodedEnds(sender);
    NoRunLonger(main, 3, 4);
    NoRunLonger(r, 3, 4);
    NoRunConcat("___", r, 4);
    NoRunConcat(main, "___" + r, 4);
  }

  /** The text after the last run of four is the encoding of the sender without its leading mark. */
  lemma AfterLastRun(main: string, sender: string)
    requires sender != "" && NoAdjacentMarks(sender) && Mark(sender[0])
    ensures var id := main + ("___" + ColonsToUnderscores(sender));
            var last := LastUnder(id, 4, |id|);
            last != -1 && id[last + 4..] == ColonsToUnderscores(sender[1..])
  {
    hide UnderAt, LastUnder, NoRun;
    var rest := ColonsToUnderscores(sender[1..]);
    var p := if sender[0] == ':' then main + "_" else main;
    var id := main + ("___" + ColonsToUnderscores(sender));
    FourUnderscores(main, sender[0], rest);
    RestAfterMark(sender);
    LastRunBefore(p, rest);
    assert id[|p| + 4..] == rest;
  }

  lemma FourUnderscores(main: string, mark: char, rest: string)
    requires Mark(mark)
    ensures main + ("___" + ((if mark == ':' then "__" else [mark]) + rest)) ==
            (if mark == ':' then main + "_" else main) + "____" + rest
  {
    assert mark == '_' ==> "___" + ("_" + rest) == "____" + rest;
    assert "___" + ("__" + rest) == "_" + ("____" + rest);
  }

  lemma RestAfterMark(sender: string)
    requires sender != "" && NoAdjacentMarks(sender) && Mark(sender[0])
    ensures var rest := ColonsToUnderscores(sender[1..]);
            NoRun(rest, 4) && (rest == "" || rest[0] != '_')
  {
    hide UnderAt, NoRun;
    assert NoAdjacentMarks(sender[1..]);
    assert |sender| > 1 ==> !Mark(sender[1]);
    EncodedRuns(sender[1..]);
    NoRunLonger(ColonsToUnderscores(sender[1..]), 3, 4);
    EncodedEnds(sender[1..]);
  }

  lemma SenderStage(endpoint: string, model: string, sender: string)
    requires Encodable(endpoint, model, sender, Some(0))
    ensures SplitSender(EncodeBase(endpoint, model, sender)) == (MainPart(endpoint, model), SenderOf(sender))
  {
    var main := MainPart(endpoint, model);
    BaseParts(endpoint, model, sender);
    MainPartRuns(endpoint, model);
    if sender == "" {
      assert main + "" == main;
    } else {
      var r := ColonsToUnderscores(sender);
      var id := main + ("___" + r);
      assert id == main + "___" + r;
      FirstRunAfter(main, "___", r);
      EncodedRuns(sender);
      assert id[|main| + 3..] == r && id[..|main|] == main;
      assert Split(id, 3)[1] == Split(r, 3)[0];
      DecodeEncoded(sender);
    }
  }

  lemma MainStage(endpoint: string, model: string)
    requires Encodable(endpoint, model, "", None)
    ensures var pieces := Split(MainPart(endpoint, model), 2);
            |pieces| > 1 && pieces[0] == endpoint && Join(pieces[1..], ":") == model
  {
    var r := ColonsToUnderscores(model);
    var main := MainPart(endpoint, model);
    PairFree(endpoint);
    FirstRunAfter(endpoint, "__", r);
    assert main[|endpoint| + 2..] == r && main[..|endpoint|] == endpoint;
    assert Split(main, 2)[1..] == Split(r, 2);
    JoinOfSplit(r);
    DecodeEncoded(model);
  }

  lemma EncodableRoundTrips(endpoint: string, model: string, sender: string, index: Option<int>)
    requires Encodable(endpoint, model, sender, index)
    ensures Parse(Encode(endpoint, model, sender, index)) ==
            Some(Parsed(endpoint, model, SenderOf(sender), index))
  {
    var id := Encode(endpoint, model, sender, index);
    IndexStage(endpoint, model, sender, index);
    SenderStage(endpoint, model, sender);
    MainStage(endpoint, model);
    BaseParts(endpoint, model, sender);
    assert UnderAt(id, |endpoint|, 2);
  }

  // ---- The other direction: what any parsed id looks like.

  lemma PieceBeforeRun(s: string, k: nat)
    requires k > 0 && FirstUnder(s, k, 0) != -1
    ensures var p := Split(s, k)[0];
            NoRun(p, k) && (p == "" || p[|p| - 1] != '_') && |p| + k <= |s| && p == s[..|p|]
            && UnderAt(s, |p|, k)
  {
    var i := FirstUnder(s, k, 0);
    var p := s[..i];
    forall j: nat ensures !UnderAt(p, j, k) {
      if UnderAt(p, j, k) {
        assert forall m | j <= m < j + k :: s[m] == p[m];
        assert UnderAt(s, j, k);
      }
    }
    if i > 0 && s[i - 1] == '_' {
      assert UnderAt(s, i - 1, k);
    }
  }

  lemma PieceRuns(s: string, k: nat)
    requires k > 0
    ensures NoRun(Split(s, k)[0], k)
  {
    if FirstUnder(s, k, 0) != -1 { PieceBeforeRun(s, k); }
  }

  /** The main part and the sender are what encoding them again gives. */
  lemma MainReencodes(main: string, endpoint: string, model: string)
    requires ':' !in main && NoRun(main, 3)
    requires var pieces := Split(main, 2); |pieces| > 1 && endpoint == pieces[0] && model == Join(pieces[1..], ":")
    ensures ':' !in endpoint && NoAdjacentMarks(endpoint) && (endpoint == "" || endpoint[|endpoint| - 1] != '_')
    ensures main == MainPart(endpoint, model)
    ensures NoAdjacentMarks(model) && (model != "" ==> !Mark(model[0]))
  {
    PieceBeforeRun(main, 2);
    var i := |endpoint|;
    var r := main[i + 2..];
    assert main == endpoint + "__" + r;
    assert Split(main, 2)[1..] == Split(r, 2);
    JoinOfSplit(r);
    EncodeDecoded(r);
    DecodedHasNoPair(r);
    NoRunParts(endpoint + "__", r, 3);
    MarksOfEncoded(model);
    EncodedEnds(model);
    assert !UnderAt(main, i, 3);
    assert r != "" ==> main[i + 2] == r[0];
    NoPairNoColon(endpoint);
  }

  lemma NoPairNoColon(s: string)
    requires NoRun(s, 2) && ':' !in s
    ensures NoAdjacentMarks(s)
  {
    forall i | 0 <= i < |s| - 1 ensures !(Mark(s[i]) && Mark(s[i + 1])) {
      assert !UnderAt(s, i, 2);
      assert s[i] in s && s[i + 1] in s;
    }
  }

  lemma SenderReencodes(id: string, main: string, sender: Option<string>)
    requires ':' !in id && SplitSender(id) == (main, sender)
    ensures ':' !in main && NoRun(main, 3)
    ensures sender.Some? ==> NoAdjacentMarks(sender.value) && (main == "" || main[|main| - 1] != '_')
  {
    if sender.None? {
    } else {
      var pieces := Split(id, 3);
      PieceBeforeRun(id, 3);
      var i := FirstUnder(id, 3, 0);
      assert pieces[1] == Split(id[i + 3..], 3)[0];
      PieceRuns(id[i + 3..], 3);
      EncodeDecoded(pieces[1]);
      DecodedHasNoPair(pieces[1]);
      MarksOfEncoded(sender.value);
    }
  }

  lemma EncodeHasNoColon(endpoint: string, model: string, sender: string, index: Option<int>)
    ensures ':' !in Encode(endpoint, model, sender, index)
  {
    EncodedHasNoColon(endpoint + ":" + model);
    EncodedHasNoColon(sender);
  }

  /** What an encoded id parses to, where it parses, tells how its parts were encoded. */
  lemma RoundTripsOnlyIfEncodable(endpoint: string, model: string, sender: string, index: Option<int>)
    ensures Parse(Encode(endpoint, model, sender, index)) == Some(Parsed(endpoint, model, SenderOf(sender), index))
            ==> Encodable(endpoint, model, sender, index)
  {
    hide UnderAt, NoRun, NoAdjacentMarks, LastUnder, FirstUnder, Split, Join, ParseInt, ColonsToUnderscores,
         UnderscoresToColons, EncodeBase;
    var id := Encode(endpoint, model, sender, index);
    if Parse(id) == Some(Parsed(endpoint, model, SenderOf(sender), index)) {
      EncodeHasNoColon(endpoint, model, sender, index);
      var (index', working) := SplitIndex(id);
      assert forall c | c in working :: c in id;
      var (main, sender') := SplitSender(working);
      SenderReencodes(working, main, sender');
      MainReencodes(main, endpoint, model);
      if sender != "" {
        SenderConditions(main, endpoint, model, sender, index, id);
      }
    }
  }

  lemma SenderConditions(main: string, endpoint: string, model: string, sender: string, index: Option<int>, id: string)
    requires sender != "" && main == MainPart(endpoint, model) && main[|main| - 1] != '_' && ':' !in endpoint
    requires id == Encode(endpoint, model, sender, index) && SplitIndex(id).0 == index && NoAdjacentMarks(sender)
    ensures model != "" && !Mark(model[|model| - 1])
    ensures index.None? && Mark(sender[0]) ==> ParseInt(sender[1..]).None?
  {
    hide UnderAt, NoAdjacentMarks, LastUnder, ParseInt, ColonsToUnderscores, EncodeBase;
    EncodedEnds(model);
    if index.None? && Mark(sender[0]) {
      BaseParts(endpoint, model, sender);
      AfterLastRun(main, sender);
      NumberPrefixKept(sender[1..]);
    }
  }

  /** Parsing an encoded id gives back exactly what was encoded if and only if Encodable holds. */
  lemma RoundTripIff(endpoint: string, model: string, sender: string, index: Option<int>)
    ensures Parse(Encode(endpoint, model, sender, index)) == Some(Parsed(endpoint, model, SenderOf(sender), index))
            <==> Encodable(endpoint, model, sender, index)
  {
    hide Parse, Encode, Encodable;
    RoundTripsOnlyIfEncodable(endpoint, model, sender, index);
    if Encodable(endpoint, model, sender, index) {
      EncodableRoundTrips(endpoint, model, sender, index);
    }
  }

  /** Nothing without two underscores in a row is an ephemeral id, and no parsed endpoint is empty. */
  lemma ParsedNeedsPair(id: string)
    ensures Parse(id).Some? ==> Parse(id).value.endpoint != "" && exists i: nat :: UnderAt(id, i, 2)
  {
  }

  // ---- Index suffixes.

  /** `/____\d+$/` matches at p. */
  predicate SuffixAt(id: string, p: nat) {
    UnderAt(id, p, 4) && p + 4 < |id| && forall j | p + 4 <= j < |id| :: Text.IsDigit(id[j])
  }

  /** The first match at or after p is cut off. */
  function StripFrom(id: string, p: nat): (s: string)
    requires p <= |id|
    ensures forall q: nat | p <= q && SuffixAt(id, q) && (forall o: nat | p <= o < q :: !SuffixAt(id, o)) :: s == id[..q]
    ensures (forall q: nat | p <= q :: !SuffixAt(id, q)) ==> s == id
    decreases |id| - p
  {
    if SuffixAt(id, p) then id[..p] else if p == |id| then id else StripFrom(id, p + 1)
  }

  function Strip(id: string): string { StripFrom(id, 0) }

  function Append(id: string, index: int): string { id + "____" + Text.IntToString(index) }

  /** Stripping an appended index gives back every id, exactly for natural indices. */
  lemma StripAppendIff(id: string, index: int)
    ensures Strip(Append(id, index)) == id <==> index >= 0
  {
    var s := Append(id, index);
    var n := |id|;
    var number := Text.IntToString(index);
    assert s[..n] == id;
    assert forall j | n + 4 <= j < |s| :: s[j] == number[j - n - 4];
    assert s[n] == '_' && s[n + 1] == '_' && s[n + 2] == '_' && s[n + 3] == '_';
    assert number[0] in number && s[n + 4] == number[0];
    forall p: nat | p != n ensures !SuffixAt(s, p) {
      if p < n {
        assert s[n + 3] == '_';
      } else if p >= n + 4 && p < |s| {
        assert s[p] == number[p - n - 4] && number[p - n - 4] in number;
      }
    }
    if index >= 0 {
      assert SuffixAt(s, n) by {
        forall j | n + 4 <= j < |s| ensures Text.IsDigit(s[j]) { assert number[j - n - 4] in number; }
      }
    } else {
      assert number[0] == '-' && s[n + 4] == '-';
    }
  }
}
