/** Rendering untrusted text as one line of JSON without control characters
    (src/researchctl/notification_cli.py), and reading such a string back as section 7 of
    RFC 8259 says. Text is a sequence of code points. */
module SingleLineJson {
  import opened Wrappers

  type Code = c: int | 0 <= c <= 0x10ffff

  type Text = seq<Code>

  predicate IsScalar(c: Code) {
    c < 0xd800 || 0xe000 <= c
  }

  ghost predicate AllScalars(s: Text) {
    forall c <- s :: IsScalar(c)
  }

  /** Whether a code point is in one of the categories Cc, Cf, Cs, Zl and Zp. Of Unicode only
      this is used: the printable ASCII characters are not, and the surrogates are. */
  ghost predicate Categories(unsafe: Code -> bool) {
    && (forall c: Code :: 0x20 <= c < 0x7f ==> !unsafe(c))
    && forall c: Code :: 0xd800 <= c < 0xe000 ==> unsafe(c)
  }

  const QUOTE: Code := 0x22
  const BACKSLASH: Code := 0x5c

  // ----- Rendering -----

  function Hex(d: int): Code
    requires 0 <= d < 16
  {
    if d < 10 then 0x30 + d else 0x61 + d - 10
  }

  /** `\uXXXX`. */
  function Unit(n: int): Text
    requires 0 <= n < 0x10000
  {
    [BACKSLASH, 0x75, Hex(n / 16 / 16 / 16), Hex(n / 16 / 16 % 16), Hex(n / 16 % 16), Hex(n % 16)]
  }

  /** The escape `json.dumps` gives a character that it does not leave alone. */
  function Escape(c: Code): Text {
    if c == QUOTE || c == BACKSLASH then [BACKSLASH, c]
    else if c == 0x08 then [BACKSLASH, 0x62]
    else if c == 0x0c then [BACKSLASH, 0x66]
    else if c == 0x0a then [BACKSLASH, 0x6e]
    else if c == 0x0d then [BACKSLASH, 0x72]
    else if c == 0x09 then [BACKSLASH, 0x74]
    else if c < 0x10000 then Unit(c)
    else Unit(0xd800 + (c - 0x10000) / 0x400) + Unit(0xdc00 + (c - 0x10000) % 0x400)
  }

  /** `json.dumps(value, ensure_ascii=False)` without its quotes. */
  function Dumped(s: Text): Text {
    if s == [] then []
    else (if s[0] == QUOTE || s[0] == BACKSLASH || s[0] < 0x20 then Escape(s[0]) else [s[0]]) + Dumped(s[1..])
  }

  /** The replacement of every character in an unsafe category. */
  function Masked(unsafe: Code -> bool, s: Text): Text {
    if s == [] then [] else (if unsafe(s[0]) then Escape(s[0]) else [s[0]]) + Masked(unsafe, s[1..])
  }

  /** `_single_line_json_text`. */
  function Render(unsafe: Code -> bool, value: Text): Text {
    Masked(unsafe, [QUOTE] + Dumped(value) + [QUOTE])
  }

  lemma EscapeIsPrintable(c: Code)
    ensures Escape(c) != [] && forall x <- Escape(c) :: 0x20 <= x < 0x7f
  {
  }

  lemma {:induction false} DumpedIsInRange(s: Text)
    ensures forall c <- Dumped(s) :: 0x20 <= c
  {
    hide Escape;
    if s != [] {
      EscapeIsPrintable(s[0]);
      DumpedIsInRange(s[1..]);
    }
  }

  // ----- Nothing unsafe is emitted -----

  /** MAIN: no character of an unsafe category is emitted, whatever the text. */
  lemma RendersNothingUnsafe(unsafe: Code -> bool, value: Text)
    requires Categories(unsafe)
    ensures forall c <- Render(unsafe, value) :: !unsafe(c)
  {
    DumpedIsInRange(value);
    MaskedIsSafe(unsafe, [QUOTE] + Dumped(value) + [QUOTE]);
  }

  lemma {:induction false} MaskedIsSafe(unsafe: Code -> bool, s: Text)
    requires Categories(unsafe)
    ensures forall c <- Masked(unsafe, s) :: !unsafe(c)
  {
    hide Escape;
    if s != [] {
      EscapeIsPrintable(s[0]);
      MaskedIsSafe(unsafe, s[1..]);
    }
  }

  // ----- Reading it back -----

  function HexValue(c: int): (d: Option<int>)
    ensures d.Some? ==> 0 <= d.value < 16
  {
    if 0x30 <= c <= 0x39 then Some(c - 0x30)
    else if 0x41 <= c <= 0x46 then Some(c - 0x41 + 10)
    else if 0x61 <= c <= 0x66 then Some(c - 0x61 + 10)
    else None
  }

  /** The code unit of `\uXXXX` at the start of s. */
  function ReadUnit(s: Text): (u: Option<int>)
    ensures u.Some? ==> 0 <= u.value < 0x10000
  {
    if |s| < 6 || s[0] != BACKSLASH || s[1] != 0x75 then None
    else
      var a, b, c, d := HexValue(s[2]), HexValue(s[3]), HexValue(s[4]), HexValue(s[5]);
      if a.None? || b.None? || c.None? || d.None? then None
      else Some(a.value * 4096 + b.value * 256 + c.value * 16 + d.value)
  }

  predicate IsHigh(u: int) {
    0xd800 <= u < 0xdc00
  }

  predicate IsLow(u: int) {
    0xdc00 <= u < 0xe000
  }

  /** The two-character escapes. */
  function ReadShort(c: Code): Option<Code> {
    if c == QUOTE || c == BACKSLASH || c == 0x2f then Some(c)
    else if c == 0x62 then Some(0x08)
    else if c == 0x66 then Some(0x0c)
    else if c == 0x6e then Some(0x0a)
    else if c == 0x72 then Some(0x0d)
    else if c == 0x74 then Some(0x09)
    else None
  }

  /** The first character of what stands between the quotes, and how long it is there. */
  function ReadChar(s: Text): (r: Option<(Code, nat)>)
    requires s != []
    ensures r.Some? ==> 0 < r.value.1 <= |s|
  {
    if s[0] < 0x20 || s[0] == QUOTE then None
    else if s[0] != BACKSLASH then Some((s[0], 1))
    else if |s| >= 2 && ReadShort(s[1]).Some? then Some((ReadShort(s[1]).value, 2))
    else
      match ReadUnit(s)
      case None => None
      case Some(u) =>
        if IsHigh(u) && ReadUnit(s[6..]).Some? && IsLow(ReadUnit(s[6..]).value)
        then Some((0x10000 + (u - 0xd800) * 0x400 + (ReadUnit(s[6..]).value - 0xdc00), 12))
        else Some((u, 6))
  }

  function ReadChars(s: Text): Option<Text>
    decreases |s|
  {
    if s == [] then Some([])
    else
      match ReadChar(s)
      case None => None
      case Some((c, n)) =>
        match ReadChars(s[n..])
        case None => None
        case Some(rest) => Some([c] + rest)
  }

  /** A JSON string, quotes included. */
  function Decode(s: Text): Option<Text> {
    if |s| < 2 || s[0] != QUOTE || s[|s| - 1] != QUOTE then None else ReadChars(s[1..|s| - 1])
  }

  // ----- Round trip -----

  /** What one character becomes in the end. */
  function Encoded(unsafe: Code -> bool, c: Code): Text {
    if c == QUOTE || c == BACKSLASH || c < 0x20 || unsafe(c) then Escape(c) else [c]
  }

  function AllEncoded(unsafe: Code -> bool, s: Text): Text {
    if s == [] then [] else Encoded(unsafe, s[0]) + AllEncoded(unsafe, s[1..])
  }

  lemma {:induction false} MaskedJoins(unsafe: Code -> bool, a: Text, b: Text)
    ensures Masked(unsafe, a + b) == Masked(unsafe, a) + Masked(unsafe, b)
  {
    hide Escape;
    if a == [] {
      assert a + b == b;
    } else {
      assert (a + b)[1..] == a[1..] + b;
      MaskedJoins(unsafe, a[1..], b);
    }
  }

  lemma {:induction false} MaskedKeepsPrintable(unsafe: Code -> bool, s: Text)
    requires Categories(unsafe) && forall c <- s :: 0x20 <= c < 0x7f
    ensures Masked(unsafe, s) == s
  {
    hide Escape;
    if s != [] {
      assert s[0] in s && forall c <- s[1..] :: c in s;
      MaskedKeepsPrintable(unsafe, s[1..]);
      assert [s[0]] + s[1..] == s;
    }
  }

  lemma {:induction false} MaskedDump(unsafe: Code -> bool, s: Text)
    requires Categories(unsafe)
    ensures Masked(unsafe, Dumped(s)) == AllEncoded(unsafe, s)
  {
    hide Escape, Masked;
    DumpedIsInRange(s);
    if s == [] {
      MaskedNothing(unsafe);
    } else {
      var first := if s[0] == QUOTE || s[0] == BACKSLASH || s[0] < 0x20 then Escape(s[0]) else [s[0]];
      EscapeIsPrintable(s[0]);
      DumpedIsInRange(s[1..]);
      MaskedJoins(unsafe, first, Dumped(s[1..]));
      MaskedDump(unsafe, s[1..]);
      if s[0] == QUOTE || s[0] == BACKSLASH || s[0] < 0x20 {
        MaskedKeepsPrintable(unsafe, first);
      } else {
        MaskedOne(unsafe, s[0]);
      }
    }
  }

  lemma MaskedNothing(unsafe: Code -> bool)
    ensures Masked(unsafe, []) == []
  {
  }

  lemma MaskedOne(unsafe: Code -> bool, c: Code)
    ensures Masked(unsafe, [c]) == if unsafe(c) then Escape(c) else [c]
  {
    hide Escape;
    assert [c][1..] == [];
  }

  lemma RenderIsQuoted(unsafe: Code -> bool, value: Text)
    requires Categories(unsafe)
    ensures Render(unsafe, value) == [QUOTE] + AllEncoded(unsafe, value) + [QUOTE]
  {
    hide Masked, Escape;
    DumpedIsInRange(value);
    MaskedDump(unsafe, value);
    MaskedJoins(unsafe, [QUOTE], Dumped(value));
    MaskedJoins(unsafe, [QUOTE] + Dumped(value), [QUOTE]);
    MaskedOne(unsafe, QUOTE);
  }

  lemma HexReads(d: int)
    requires 0 <= d < 16
    ensures HexValue(Hex(d)) == Some(d)
  {
  }

  lemma UnitReads(n: int, rest: Text)
    requires 0 <= n < 0x10000
    ensures ReadUnit(Unit(n) + rest) == Some(n) && (Unit(n) + rest)[6..] == rest
  {
    HexReads(n / 16 / 16 / 16);
    HexReads(n / 16 / 16 % 16);
    HexReads(n / 16 % 16);
    HexReads(n % 16);
    hide HexValue, Hex;
  }

  lemma EscapeReads(c: Code, rest: Text)
    requires !IsHigh(c)
    ensures ReadChar(Escape(c) + rest) == Some((c, |Escape(c)|)) && (Escape(c) + rest)[|Escape(c)|..] == rest
  {
    hide Unit, ReadUnit;
    if c >= 0x10000 {
      var high, low := 0xd800 + (c - 0x10000) / 0x400, 0xdc00 + (c - 0x10000) % 0x400;
      assert Escape(c) + rest == Unit(high) + (Unit(low) + rest);
      UnitReads(high, Unit(low) + rest);
      UnitReads(low, rest);
      UnitStarts(high, Unit(low) + rest);
      UnitStarts(low, rest);
    } else if !HasShort(c) {
      UnitReads(c, rest);
      UnitStarts(c, rest);
    }
  }

  predicate HasShort(c: Code) {
    c in {QUOTE, BACKSLASH, 0x08, 0x0c, 0x0a, 0x0d, 0x09}
  }

  lemma UnitStarts(n: int, rest: Text)
    requires 0 <= n < 0x10000
    ensures |Unit(n)| == 6 && (Unit(n) + rest)[0] == BACKSLASH && (Unit(n) + rest)[1] == 0x75
  {
  }

  lemma EncodedReads(unsafe: Code -> bool, c: Code, rest: Text)
    requires !IsHigh(c)
    ensures var e := Encoded(unsafe, c);
      e != [] && ReadChar(e + rest) == Some((c, |e|)) && (e + rest)[|e|..] == rest
  {
    hide Escape;
    EscapeIsPrintable(c);
    EscapeReads(c, rest);
  }

  /** A low surrogate is read next exactly where the text goes on with one. */
  lemma NextUnit(unsafe: Code -> bool, s: Text)
    requires Categories(unsafe)
    ensures var u := ReadUnit(AllEncoded(unsafe, s));
      if s != [] && IsLow(s[0]) then u == Some(s[0]) else u.None? || !IsLow(u.value)
  {
    if s == [] {
      ReadsNoUnit([]);
    } else {
      var c, rest := s[0], AllEncoded(unsafe, s[1..]);
      assert IsLow(c) ==> unsafe(c);
      assert AllEncoded(unsafe, s) == Encoded(unsafe, c) + rest;
      hide Escape, ReadUnit, AllEncoded;
      if c == QUOTE || c == BACKSLASH || c < 0x20 || unsafe(c) {
        EscapeNextUnit(c, rest);
      } else {
        ReadsNoUnit([c] + rest);
      }
    }
  }

  lemma EscapeNextUnit(c: Code, rest: Text)
    ensures var u := ReadUnit(Escape(c) + rest);
      if IsLow(c) then u == Some(c) else u.None? || !IsLow(u.value)
  {
    hide Unit, ReadUnit;
    if HasShort(c) {
      assert |Escape(c)| == 2 && Escape(c)[1] != 0x75;
      ReadsNoUnit(Escape(c) + rest);
    } else if c < 0x10000 {
      UnitReads(c, rest);
    } else {
      var high, low := 0xd800 + (c - 0x10000) / 0x400, 0xdc00 + (c - 0x10000) % 0x400;
      assert Escape(c) + rest == Unit(high) + (Unit(low) + rest);
      UnitReads(high, Unit(low) + rest);
    }
  }

  lemma ReadsNoUnit(s: Text)
    requires |s| < 2 || s[0] != BACKSLASH || s[1] != 0x75
    ensures ReadUnit(s) == None
  {
  }

  /** What stays of a text when two surrogates that stand together become one character. */
  function Paired(s: Text): Text {
    if s == [] then []
    else if |s| > 1 && IsHigh(s[0]) && IsLow(s[1]) then [Pair(s[0], s[1])] + Paired(s[2..])
    else [s[0]] + Paired(s[1..])
  }

  function Pair(high: int, low: int): Code
    requires IsHigh(high) && IsLow(low)
  {
    0x10000 + (high - 0xd800) * 0x400 + (low - 0xdc00)
  }

  lemma HighReads(unsafe: Code -> bool, s: Text)
    requires Categories(unsafe) && s != [] && IsHigh(s[0])
    ensures var e := AllEncoded(unsafe, s);
      if |s| > 1 && IsLow(s[1])
      then ReadChar(e) == Some((Pair(s[0], s[1]), 12)) && |e| >= 12 && e[12..] == AllEncoded(unsafe, s[2..])
      else ReadChar(e) == Some((s[0], 6)) && |e| >= 6 && e[6..] == AllEncoded(unsafe, s[1..])
  {
    hide Unit, ReadUnit;
    var rest := AllEncoded(unsafe, s[1..]);
    assert AllEncoded(unsafe, s) == Unit(s[0]) + rest;
    UnitReads(s[0], rest);
    UnitStarts(s[0], rest);
    NextUnit(unsafe, s[1..]);
    if |s| > 1 && IsLow(s[1]) {
      assert rest == Unit(s[1]) + AllEncoded(unsafe, s[2..]);
      UnitReads(s[1], AllEncoded(unsafe, s[2..]));
      UnitStarts(s[1], AllEncoded(unsafe, s[2..]));
    }
  }

  lemma {:induction false} EncodedReadsBack(unsafe: Code -> bool, s: Text)
    requires Categories(unsafe)
    ensures ReadChars(AllEncoded(unsafe, s)) == Some(Paired(s))
    decreases |s|
  {
    hide ReadChar, Encoded, Pair;
    if s != [] {
      if IsHigh(s[0]) {
        HighReads(unsafe, s);
        if |s| > 1 && IsLow(s[1]) {
          EncodedReadsBack(unsafe, s[2..]);
        } else {
          EncodedReadsBack(unsafe, s[1..]);
        }
      } else {
        EncodedReads(unsafe, s[0], AllEncoded(unsafe, s[1..]));
        EncodedReadsBack(unsafe, s[1..]);
      }
    }
  }

  /** MAIN: reading a rendered text back gives the text with its surrogate pairs joined, for every
      Python string. */
  lemma ReadsBackPaired(unsafe: Code -> bool, value: Text)
    requires Categories(unsafe)
    ensures Decode(Render(unsafe, value)) == Some(Paired(value))
  {
    hide ReadChars, Paired;
    EncodedReadsBack(unsafe, value);
    RenderIsQuoted(unsafe, value);
    var e := AllEncoded(unsafe, value);
    assert ([QUOTE] + e + [QUOTE])[1..|e| + 1] == e;
  }

  /** No high surrogate stands right before a low one. */
  ghost predicate Unpaired(s: Text) {
    forall i :: 0 < i < |s| ==> !(IsHigh(s[i - 1]) && IsLow(s[i]))
  }

  lemma {:induction false} PairedKeeps(s: Text)
    ensures |Paired(s)| <= |s| && (Paired(s) == s <==> Unpaired(s)) && (!Unpaired(s) ==> |Paired(s)| < |s|)
    decreases |s|
  {
    if s != [] {
      if |s| > 1 && IsHigh(s[0]) && IsLow(s[1]) {
        PairedKeeps(s[2..]);
      } else {
        PairedKeeps(s[1..]);
        assert s == [s[0]] + s[1..];
        if Unpaired(s[1..]) {
          forall i | 0 < i < |s| ensures !(IsHigh(s[i - 1]) && IsLow(s[i])) {
            assert i > 1 ==> s[1..][i - 1] == s[i] && s[1..][i - 2] == s[i - 1];
          }
        } else {
          var i :| 0 < i < |s[1..]| && IsHigh(s[1..][i - 1]) && IsLow(s[1..][i]);
          assert s[i + 1] == s[1..][i] && s[i] == s[1..][i - 1];
        }
      }
    }
  }

  /** MAIN: so a text comes back as it was exactly when it has no two surrogates that stand
      together as a pair; every text of Unicode scalar values is such a text. */
  lemma RoundTripIff(unsafe: Code -> bool, value: Text)
    requires Categories(unsafe)
    ensures Decode(Render(unsafe, value)) == Some(value) <==> Unpaired(value)
    ensures AllScalars(value) ==> Unpaired(value)
  {
    hide Decode, Render, Paired;
    ReadsBackPaired(unsafe, value);
    PairedKeeps(value);
    if AllScalars(value) {
      forall i | 0 < i < |value| ensures !(IsHigh(value[i - 1]) && IsLow(value[i])) {
        assert value[i] in value;
      }
    }
  }

  /** MAIN: and no two such texts are rendered alike. */
  lemma RenderIsInjective(unsafe: Code -> bool, v: Text, w: Text)
    requires Categories(unsafe) && Unpaired(v) && Unpaired(w)
    requires Render(unsafe, v) == Render(unsafe, w)
    ensures v == w
  {
    hide Render, Decode, Unpaired;
    RoundTripIff(unsafe, v);
    RoundTripIff(unsafe, w);
  }

  /** Two surrogates that a Python string holds one by one are rendered like the unsafe character
      that they stand for together. */
  lemma SurrogatesCollide(unsafe: Code -> bool)
    requires Categories(unsafe) && unsafe(0xe0001)
    ensures Render(unsafe, [0xdb40, 0xdc01]) == Render(unsafe, [0xe0001])
  {
    hide Unit, Render;
    RenderIsQuoted(unsafe, [0xdb40, 0xdc01]);
    RenderIsQuoted(unsafe, [0xe0001]);
    assert Encoded(unsafe, 0xdb40) == Unit(0xdb40) && Encoded(unsafe, 0xdc01) == Unit(0xdc01);
    assert Encoded(unsafe, 0xe0001) == Unit(0xdb40) + Unit(0xdc01);
    hide Encoded;
    EncodedOne(unsafe, 0xe0001);
    EncodedOne(unsafe, 0xdc01);
    assert [0xdb40, 0xdc01][1..] == [0xdc01];
  }

  lemma EncodedOne(unsafe: Code -> bool, c: Code)
    ensures AllEncoded(unsafe, [c]) == Encoded(unsafe, c)
  {
    hide Encoded;
    assert [c][1..] == [];
  }
}
