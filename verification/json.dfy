/** The hand-rolled JSON serialiser used for the `Dropbox-API-Arg` header, and
    a decoder for the text it produces (section 7 of RFC 8259 for string
    escapes) that undoes it. */
module Json {
  import opened Common
  import opened Strings

  // ---------------------------------------------------------------------
  // escapeUnicode

  /** The UTF-16 code units `charCodeAt` sees for one character: one unit in
      the basic plane, a surrogate pair above it. */
  function CodeUnits(c: char): (us: seq<nat>)
    ensures |us| == 1 <==> c as int < 0x10000
    ensures |us| == 1 ==> us[0] == c as int
    ensures |us| == 2 ==> 0xD800 <= us[0] < 0xDC00 && 0xDC00 <= us[1] < 0xE000
    ensures |us| == 1 || |us| == 2
  {
    var v := c as int;
    if v < 0x10000 then [v]
    else [0xD800 + (v - 0x10000) / 0x400, 0xDC00 + (v - 0x10000) % 0x400]
  }

  /** `n` zero digits. */
  function Zeros(n: nat): (z: string)
    ensures |z| == n
  {
    if n == 0 then "" else "0" + Zeros(n - 1)
  }

  /** The last four characters of `"000" + digits`: the digits padded with
      zeros to four, with their value kept. */
  lemma PadFour(digits: string)
    requires 1 <= |digits| <= 4 && AllDigits(digits, 16)
    ensures var t := "000" + digits;
      var tail := t[|t| - 4..];
      |tail| == 4 && AllDigits(tail, 16) && ParseBase(tail, 16) == ParseBase(digits, 16)
  {
    var k := |digits| - 1;
    assert "000"[k..] == Zeros(3 - k) by {
      assert Zeros(0) == "";
      assert Zeros(1) == "0" + Zeros(0);
      assert Zeros(2) == "0" + Zeros(1);
      assert Zeros(3) == "0" + Zeros(2);
    }
    assert ("000" + digits)[k..] == "000"[k..] + digits;
    LeadingZeros(3 - k, digits, 16);
  }

  /** Leading zeros change neither the digit class nor the value. */
  lemma {:induction false} LeadingZeros(n: nat, s: string, base: nat)
    requires 2 <= base <= 16
    requires AllDigits(s, base)
    ensures AllDigits(Zeros(n) + s, base)
    ensures ParseBase(Zeros(n) + s, base) == ParseBase(s, base)
  {
    if n > 0 {
      LeadingZeros(n - 1, s, base);
      assert Zeros(n) + s == "0" + (Zeros(n - 1) + s);
      ParseLeadingZero(Zeros(n - 1) + s, base);
    } else {
      assert Zeros(n) + s == s;
    }
  }

  /** `('000' + u.toString(16)).slice(-4)`: four lowercase hex digits. */
  function Hex4(u: nat): (h: string)
    requires u < 0x10000
    ensures |h| == 4 && AllDigits(h, 16) && ParseBase(h, 16) == u
    ensures forall k :: 0 <= k < 4 ==> h[k] in DIGITS
  {
    var digits := ToBase(u, 16);
    assert Pow(16, 4) == 0x10000;
    ToBaseLength(u, 16, 4);
    ParseToBase(u, 16);
    var t := "000" + digits;
    PadFour(digits);
    ToBaseLower(u, 16);
    PadFourLower(digits);
    t[|t| - 4..]
  }

  /** Padding lowercase digits with zeros keeps them lowercase. */
  lemma PadFourLower(digits: string)
    requires forall k :: 0 <= k < |digits| ==> digits[k] in DIGITS
    ensures var t := "000" + digits;
      forall k :: 0 <= k < |t| ==> t[k] in DIGITS
  {
    var t := "000" + digits;
    forall k | 0 <= k < |t| ensures t[k] in DIGITS {
      if k < 3 {
        assert t[k] == '0' == DIGITS[0];
      } else {
        assert t[k] == digits[k - 3];
      }
    }
  }

  /** `\u` followed by the four hex digits of one code unit. */
  function EscapeUnit(u: nat): (e: string)
    requires u < 0x10000
    ensures |e| == 6 && e[0] == '\\' && e[1] == 'u' && e[2..] == Hex4(u)
  {
    "\\u" + Hex4(u)
  }

  /** `e` is the six-character escape of code unit `u`: `\u` and four
      lowercase hex digits denoting `u`. */
  predicate EscapesUnit(e: string, u: nat)
  {
    && |e| == 6 && e[0] == '\\' && e[1] == 'u'
    && (forall k :: 2 <= k < 6 ==> e[k] in DIGITS)
    && AllDigits(e[2..], 16) && ParseBase(e[2..], 16) == u
  }

  /** The replacement of one character by `str.replace(/\W/g, ...)`: word
      characters are not matched, `/` is put back, every other code unit is
      escaped on its own. */
  function EscapeChar(c: char): (e: string)
    ensures IsWordChar(c) || c == '/' ==> e == [c]
    ensures !(IsWordChar(c) || c == '/') ==> |e| == 6 * |CodeUnits(c)|
    ensures !(IsWordChar(c) || c == '/') ==> EscapesUnit(e[..6], CodeUnits(c)[0])
    ensures !(IsWordChar(c) || c == '/') && |CodeUnits(c)| == 2 ==> EscapesUnit(e[6..], CodeUnits(c)[1])
  {
    if IsWordChar(c) || c == '/' then [c]
    else
      var us := CodeUnits(c);
      if |us| == 1 then
        UnitEscapes(us[0]);
        assert EscapeUnit(us[0])[..6] == EscapeUnit(us[0]);
        EscapeUnit(us[0])
      else
        TwoEscapes(us[0], us[1]);
        EscapeUnit(us[0]) + EscapeUnit(us[1])
  }

  lemma UnitEscapes(u: nat)
    requires u < 0x10000
    ensures EscapesUnit(EscapeUnit(u), u)
  {
    var e := EscapeUnit(u);
    assert e[2..] == Hex4(u);
  }

  /** The two escapes of a surrogate pair, each in its own six characters. */
  lemma TwoEscapes(a: nat, b: nat)
    requires a < 0x10000 && b < 0x10000
    ensures var e := EscapeUnit(a) + EscapeUnit(b);
      EscapesUnit(e[..6], a) && EscapesUnit(e[6..], b)
  {
    var e := EscapeUnit(a) + EscapeUnit(b);
    UnitEscapes(a);
    UnitEscapes(b);
    assert e[..6] == EscapeUnit(a);
    assert e[6..] == EscapeUnit(b);
  }

  /** The characters escaped text is made of. */
  predicate EscapedAlphabet(c: char)
  {
    IsWordChar(c) || c == '/' || c == '\\'
  }

  function EscapeAll(s: string): (e: string)
    ensures forall k :: 0 <= k < |e| ==> EscapedAlphabet(e[k])
  {
    if |s| == 0 then ""
    else
      var head := EscapeChar(s[0]);
      assert forall k :: 0 <= k < |head| ==> EscapedAlphabet(head[k]) by {
        if !(IsWordChar(s[0]) || s[0] == '/') {
          var us := CodeUnits(s[0]);
          HexAlphabet(us[0]);
          if |us| == 2 { HexAlphabet(us[1]); }
        }
      }
      head + EscapeAll(s[1..])
  }

  lemma HexAlphabet(u: nat)
    requires u < 0x10000
    ensures forall k :: 0 <= k < |EscapeUnit(u)| ==> EscapedAlphabet(EscapeUnit(u)[k])
  {
    var e := EscapeUnit(u);
    forall k | 2 <= k < 6 ensures IsWordChar(e[k]) {
      assert e[k] == Hex4(u)[k - 2];
      assert IsBaseDigit(Hex4(u)[k - 2], 16);
    }
  }

  /** `s.split('"').join('\\"')`: backslash-escapes every double quote. */
  function EscapeQuotes(s: string): string
  {
    Join(Split(s, '"'), "\\\"")
  }

  /** Text free of `"` passes `EscapeQuotes` unchanged. */
  lemma EscapeQuotesNoQuote(s: string)
    requires '"' !in s
    ensures EscapeQuotes(s) == s
  {
    assert IndexOf(s, '"') == -1;
    assert Split(s, '"') == [s];
  }

  /** `escapeUnicode(str)`: keeps word characters and `/`, turns every other
      code unit into `\u` and four lowercase hex digits, then escapes quotes
      (of which there are none left). */
  function EscapeUnicode(s: string): (e: string)
    ensures forall k :: 0 <= k < |e| ==> EscapedAlphabet(e[k])
    ensures '"' !in e
  {
    var escaped := EscapeAll(s);
    assert forall k :: 0 <= k < |escaped| ==> escaped[k] != '"';
    EscapeQuotesNoQuote(escaped);
    EscapeQuotes(escaped)
  }

  // ---------------------------------------------------------------------
  // Decoding string escapes (section 7 of RFC 8259)

  /** The character a simple two-character escape `\x` stands for. */
  function SimpleEscape(x: char): Option<char>
  {
    match x
    case '"' => Some('"')
    case '\\' => Some('\\')
    case '/' => Some('/')
    case 'b' => Some('\U{8}')
    case 'f' => Some('\U{C}')
    case 'n' => Some('\n')
    case 'r' => Some('\r')
    case 't' => Some('\t')
    case _ => None
  }

  /** `\u` and four hex digits at the start of `s`, and their value. */
  function UnitAt(s: string): (r: Option<nat>)
    ensures r.Some? ==> r.value < 0x10000
  {
    if |s| >= 6 && s[0] == '\\' && s[1] == 'u' && AllDigits(s[2..6], 16) then
      ParseBaseBound(s[2..6], 16);
      assert Pow(16, 4) == 0x10000;
      Some(ParseBase(s[2..6], 16))
    else None
  }

  function Prepend(c: char, t: Option<string>): Option<string>
  {
    match t
    case Some(u) => Some([c] + u)
    case None => None
  }

  /** Decodes the body of a JSON string literal; `None` for a malformed escape
      or an unpaired surrogate. */
  function Unescape(s: string): Option<string>
    decreases |s|
  {
    if |s| == 0 then Some("")
    else if s[0] != '\\' then Prepend(s[0], Unescape(s[1..]))
    else if |s| >= 2 && SimpleEscape(s[1]).Some? then Prepend(SimpleEscape(s[1]).value, Unescape(s[2..]))
    else match UnitAt(s)
      case None => None
      case Some(v) =>
        if 0xD800 <= v < 0xDC00 then
          match UnitAt(s[6..])
          case Some(w) =>
            if 0xDC00 <= w < 0xE000 then
              Prepend((0x10000 + (v - 0xD800) * 0x400 + (w - 0xDC00)) as char, Unescape(s[12..]))
            else None
          case None => None
        else if 0xDC00 <= v < 0xE000 then None
        else Prepend(v as char, Unescape(s[6..]))
  }

  lemma UnitAtEscape(u: nat, t: string)
    requires u < 0x10000
    ensures UnitAt(EscapeUnit(u) + t) == Some(u)
    ensures (EscapeUnit(u) + t)[6..] == t
  {
    var s := EscapeUnit(u) + t;
    assert s[2..6] == Hex4(u);
  }

  lemma UnescapeWord(c: char, t: string)
    requires IsWordChar(c) || c == '/'
    ensures Unescape(EscapeChar(c) + t) == Prepend(c, Unescape(t))
  {
    var s := EscapeChar(c) + t;
    assert s[0] == c && s[1..] == t;
  }

  lemma UnescapeBasic(c: char, t: string)
    requires !(IsWordChar(c) || c == '/') && c as int < 0x10000
    ensures Unescape(EscapeChar(c) + t) == Prepend(c, Unescape(t))
  {
    BasicEscape(c);
    var s := EscapeUnit(c as int) + t;
    UnitAtEscape(c as int, t);
    assert s[1] == EscapeUnit(c as int)[1];
    UnescapeUnit(s, c, t);
  }

  /** A character of the basic plane that is escaped becomes one `\uXXXX`. */
  lemma BasicEscape(c: char)
    requires !(IsWordChar(c) || c == '/') && c as int < 0x10000
    ensures EscapeChar(c) == EscapeUnit(c as int)
  {
  }

  /** A backslash sequence holding one code unit outside the surrogate range
      decodes to that character. */
  lemma UnescapeUnit(s: string, c: char, t: string)
    requires |s| >= 6 && s[0] == '\\' && SimpleEscape(s[1]).None?
    requires UnitAt(s) == Some(c as int) && s[6..] == t
    requires !(0xD800 <= c as int < 0xE000)
    ensures Unescape(s) == Prepend(c, Unescape(t))
  {
  }

  lemma UnescapePair(c: char, t: string)
    requires c as int >= 0x10000
    ensures Unescape(EscapeChar(c) + t) == Prepend(c, Unescape(t))
  {
    var us := CodeUnits(c);
    SurrogatesJoin(c);
    PairShape(c, t);
    UnescapeSurrogates(EscapeChar(c) + t, c, us[0], us[1], t);
  }

  /** A backslash sequence holding a surrogate pair decodes to the character
      the pair encodes. */
  lemma UnescapeSurrogates(s: string, c: char, hi: nat, lo: nat, t: string)
    requires |s| >= 12 && s[0] == '\\' && SimpleEscape(s[1]).None?
    requires UnitAt(s) == Some(hi) && UnitAt(s[6..]) == Some(lo) && s[12..] == t
    requires 0xD800 <= hi < 0xDC00 && 0xDC00 <= lo < 0xE000
    requires 0x10000 + (hi - 0xD800) * 0x400 + (lo - 0xDC00) == c as int
    ensures Unescape(s) == Prepend(c, Unescape(t))
  {
  }

  /** How the escape of a character outside the basic plane reads: a
      backslash not starting a short escape, then the two surrogates. */
  lemma PairShape(c: char, t: string)
    requires c as int >= 0x10000
    ensures var s, us := EscapeChar(c) + t, CodeUnits(c);
      && |s| >= 12 && s[0] == '\\' && SimpleEscape(s[1]).None?
      && UnitAt(s) == Some(us[0]) && UnitAt(s[6..]) == Some(us[1]) && s[12..] == t
  {
    var us := CodeUnits(c);
    var a, b := EscapeUnit(us[0]), EscapeUnit(us[1]);
    PairEscape(c);
    assert EscapeChar(c) + t == a + (b + t);
    UnitPair(us[0], us[1], t);
  }

  /** A character outside the basic plane becomes the escapes of its two
      surrogates. */
  lemma PairEscape(c: char)
    requires c as int >= 0x10000
    ensures EscapeChar(c) == EscapeUnit(CodeUnits(c)[0]) + EscapeUnit(CodeUnits(c)[1])
  {
  }

  /** Two escaped code units read back one after the other. */
  lemma UnitPair(hi: nat, lo: nat, t: string)
    requires hi < 0x10000 && lo < 0x10000
    ensures var s := EscapeUnit(hi) + (EscapeUnit(lo) + t);
      && |s| >= 12 && s[0] == '\\' && s[1] == 'u'
      && UnitAt(s) == Some(hi) && UnitAt(s[6..]) == Some(lo) && s[12..] == t
  {
    var s := EscapeUnit(hi) + (EscapeUnit(lo) + t);
    UnitAtEscape(hi, EscapeUnit(lo) + t);
    UnitAtEscape(lo, t);
    assert s[12..] == s[6..][6..];
  }

  /** The two surrogates of a character outside the basic plane recombine to
      that character. */
  lemma SurrogatesJoin(c: char)
    requires c as int >= 0x10000
    ensures var us := CodeUnits(c);
      |us| == 2 && 0x10000 + (us[0] - 0xD800) * 0x400 + (us[1] - 0xDC00) == c as int
  {
    DivMod(c as int - 0x10000, 0x400);
  }

  /** Decoding undoes one escaped character. */
  lemma UnescapeChar(c: char, t: string)
    ensures Unescape(EscapeChar(c) + t) == Prepend(c, Unescape(t))
  {
    if IsWordChar(c) || c == '/' {
      UnescapeWord(c, t);
    } else if c as int < 0x10000 {
      UnescapeBasic(c, t);
    } else {
      UnescapePair(c, t);
    }
  }

  /** The escape round trip: decoding `escapeUnicode(s)` gives back `s`. */
  lemma {:induction false} UnescapeEscape(s: string)
    ensures Unescape(EscapeUnicode(s)) == Some(s)
  {
    EscapeQuotesNoQuote(EscapeAll(s));
    UnescapeAll(s);
  }

  lemma {:induction false} UnescapeAll(s: string)
    ensures Unescape(EscapeAll(s)) == Some(s)
    decreases |s|
  {
    if |s| > 0 {
      UnescapeAll(s[1..]);
      UnescapeChar(s[0], EscapeAll(s[1..]));
      assert [s[0]] + s[1..] == s;
    }
  }

  // ---------------------------------------------------------------------
  // jsonStringify

  /** The values the serialiser is called with. `JUndefined` is a field whose
      value is `undefined`; its entry is written with nothing after the colon. */
  datatype Value =
    | JString(s: string)
    | JObject(fields: seq<Field>)
    | JBool(b: bool)
    | JNumber(n: int)
    | JUndefined

  /** One own property, in insertion order. */
  datatype Field = Field(key: string, value: Value)

  /** `jsonStringify(obj)`: `{`, the comma-joined entries in key order, `}`. */
  function Stringify(fields: seq<Field>): string
    decreases fields, 1
  {
    "{" + EntriesText(fields) + "}"
  }

  /** `entries.join(',')`. */
  function EntriesText(fields: seq<Field>): string
    decreases fields, 0
  {
    if |fields| == 0 then ""
    else if |fields| == 1 then EntryText(fields[0])
    else EntryText(fields[0]) + "," + EntriesText(fields[1..])
  }

  /** `'"' + key + '":'` and the value; keys are written raw. */
  function EntryText(f: Field): string
    decreases f, 0
  {
    "\"" + f.key + "\":" + ValueText(f.value)
  }

  function ValueText(v: Value): string
    decreases v, 0
  {
    match v
    case JString(s) => "\"" + EscapeQuotes(EscapeUnicode(s)) + "\""
    case JObject(fs) => Stringify(fs)
    case JBool(b) => if b then "true" else "false"
    case JNumber(n) => IntToString(n)
    case JUndefined => ""
  }

  /** Keys free of `"` throughout, the one condition under which the raw keys
      can be read back. */
  predicate WellFormed(v: Value)
  {
    match v
    case JObject(fs) => FieldsWellFormed(fs)
    case _ => true
  }

  predicate FieldsWellFormed(fs: seq<Field>)
  {
    forall i :: 0 <= i < |fs| ==> '"' !in fs[i].key && WellFormed(fs[i].value)
  }

  // ---------------------------------------------------------------------
  // Reading the serialiser's output back

  /** The number of leading decimal digits. */
  function DigitRun(s: string): (k: nat)
    ensures k <= |s| && AllDigits(s[..k], 10)
    ensures k < |s| ==> !IsBaseDigit(s[k], 10)
  {
    if |s| == 0 || !IsBaseDigit(s[0], 10) then 0
    else
      var k := 1 + DigitRun(s[1..]);
      assert s[..k] == [s[0]] + s[1..][..k-1];
      k
  }

  function ParseNatural(s: string): (r: Option<(nat, string)>)
    ensures r.Some? ==> |r.value.1| < |s|
  {
    var k := DigitRun(s);
    if k == 0 then None else Some((ParseBase(s[..k], 10), s[k..]))
  }

  /** An optionally negative decimal integer. */
  function ParseNumber(s: string): (r: Option<(Value, string)>)
    requires |s| > 0
    ensures r.Some? ==> |r.value.1| < |s|
  {
    if s[0] == '-' then
      match ParseNatural(s[1..])
      case None => None
      case Some((n, rest)) => Some((JNumber(-(n as int)), rest))
    else
      match ParseNatural(s)
      case None => None
      case Some((n, rest)) => Some((JNumber(n), rest))
  }

  function ParseBool(s: string): (r: Option<(Value, string)>)
    ensures r.Some? ==> |r.value.1| < |s|
  {
    if |s| >= 4 && s[..4] == "true" then Some((JBool(true), s[4..]))
    else if |s| >= 5 && s[..5] == "false" then Some((JBool(false), s[5..]))
    else None
  }

  /** The text between a leading `"` and the next `"`, and what follows. */
  function Quoted(s: string): (r: Option<(string, string)>)
    ensures r.Some? ==> |r.value.1| < |s|
  {
    if |s| == 0 || s[0] != '"' then None
    else
      var j := IndexOf(s[1..], '"');
      if j == -1 then None else Some((s[1..j+1], s[j+2..]))
  }

  function ParseString(s: string): (r: Option<(Value, string)>)
    ensures r.Some? ==> |r.value.1| < |s|
  {
    match Quoted(s)
    case None => None
    case Some((body, rest)) =>
      match Unescape(body)
      case None => None
      case Some(t) => Some((JString(t), rest))
  }

  /** One value; an empty value before `,` or `}` reads as undefined. */
  function ParseValue(s: string): (r: Option<(Value, string)>)
    ensures r.Some? ==> |r.value.1| <= |s|
    decreases |s|, 1
  {
    if |s| == 0 then None
    else if s[0] == '"' then ParseString(s)
    else if s[0] == '{' then ParseObject(s)
    else if s[0] == 't' || s[0] == 'f' then ParseBool(s)
    else if s[0] == '-' || IsBaseDigit(s[0], 10) then ParseNumber(s)
    else if s[0] == ',' || s[0] == '}' then Some((JUndefined, s))
    else None
  }

  function ParseObject(s: string): (r: Option<(Value, string)>)
    ensures r.Some? ==> |r.value.1| < |s|
    decreases |s|, 0
  {
    if |s| < 2 || s[0] != '{' then None
    else if s[1] == '}' then Some((JObject([]), s[2..]))
    else
      match ParseEntries(s[1..])
      case None => None
      case Some((fs, rest)) =>
        if |rest| > 0 && rest[0] == '}' then Some((JObject(fs), rest[1..])) else None
  }

  function ParseEntries(s: string): (r: Option<(seq<Field>, string)>)
    ensures r.Some? ==> |r.value.1| < |s|
    decreases |s|, 3
  {
    match ParseEntry(s)
    case None => None
    case Some((f, rest)) =>
      if |rest| > 0 && rest[0] == ',' then
        match ParseEntries(rest[1..])
        case None => None
        case Some((fs, rest2)) => Some(([f] + fs, rest2))
      else Some(([f], rest))
  }

  function ParseEntry(s: string): (r: Option<(Field, string)>)
    ensures r.Some? ==> |r.value.1| < |s|
    decreases |s|, 2
  {
    match Quoted(s)
    case None => None
    case Some((key, after)) =>
      if |after| == 0 || after[0] != ':' then None
      else
        match ParseValue(after[1..])
        case None => None
        case Some((v, rest)) => Some((Field(key, v), rest))
  }

  /** A character that may follow a value inside an object. */
  predicate Closer(rest: string)
  {
    |rest| > 0 && (rest[0] == ',' || rest[0] == '}')
  }

  lemma QuotedRoundTrip(body: string, rest: string)
    requires '"' !in body
    ensures Quoted("\"" + body + "\"" + rest) == Some((body, rest))
  {
    var s := "\"" + body + "\"" + rest;
    assert s[1..] == body + ['"'] + rest;
    IndexOfFirst(body, '"', rest);
    assert s[1..|body|+1] == body;
    assert s[|body|+2..] == rest;
  }

  lemma {:induction false} DigitRunPrefix(digits: string, rest: string)
    requires AllDigits(digits, 10) && Closer(rest)
    ensures DigitRun(digits + rest) == |digits|
    decreases |digits|
  {
    if |digits| == 0 {
      assert (digits + rest)[0] == rest[0];
    } else {
      assert (digits + rest)[1..] == digits[1..] + rest;
      DigitRunPrefix(digits[1..], rest);
    }
  }

  lemma NaturalRoundTrip(digits: string, rest: string)
    requires |digits| > 0 && AllDigits(digits, 10) && Closer(rest)
    ensures ParseNatural(digits + rest) == Some((ParseBase(digits, 10), rest))
  {
    DigitRunPrefix(digits, rest);
    assert (digits + rest)[..|digits|] == digits;
    assert (digits + rest)[|digits|..] == rest;
  }

  lemma NumberRoundTrip(n: int, rest: string)
    requires Closer(rest)
    ensures ParseValue(IntToString(n) + rest) == Some((JNumber(n), rest))
  {
    var text := IntToString(n);
    var s := text + rest;
    if n < 0 {
      assert s[1..] == text[1..] + rest;
      assert |text[1..]| > 0 by { assert text != "-" by { assert AllDigits(text[1..], 10); assert ParseBase(text[1..], 10) > 0; } }
      NaturalRoundTrip(text[1..], rest);
      assert ParseNumber(s) == Some((JNumber(n), rest));
    } else {
      NaturalRoundTrip(text, rest);
      assert IsBaseDigit(s[0], 10);
      assert ParseNumber(s) == Some((JNumber(n), rest));
    }
  }

  lemma StringRoundTrip(t: string, rest: string)
    ensures ParseValue(ValueText(JString(t)) + rest) == Some((JString(t), rest))
  {
    var e := EscapeUnicode(t);
    EscapeQuotesNoQuote(e);
    var s := "\"" + e + "\"" + rest;
    assert ValueText(JString(t)) + rest == s;
    QuotedRoundTrip(e, rest);
    UnescapeEscape(t);
    assert ParseString(s) == Some((JString(t), rest));
  }

  lemma BoolRoundTrip(b: bool, rest: string)
    ensures ParseValue(ValueText(JBool(b)) + rest) == Some((JBool(b), rest))
  {
    var s := ValueText(JBool(b)) + rest;
    if b {
      assert s[..4] == "true" && s[4..] == rest;
    } else {
      assert s[..4] != "true" by { assert s[0] == 'f'; }
      assert s[..5] == "false" && s[5..] == rest;
    }
    assert ParseBool(s) == Some((JBool(b), rest));
  }

  /** Every well-formed value reads back from its text, whatever may follow
      it inside an object. */
  lemma {:induction false} ValueRoundTrip(v: Value, rest: string)
    requires WellFormed(v) && Closer(rest)
    ensures ParseValue(ValueText(v) + rest) == Some((v, rest))
    decreases v, 3
  {
    match v
    case JString(t) => StringRoundTrip(t, rest);
    case JObject(fs) =>
      ObjectRoundTrip(fs, rest);
      var s := ValueText(v) + rest;
      assert s == Stringify(fs) + rest;
      assert s[0] == '{';
    case JBool(b) => BoolRoundTrip(b, rest);
    case JNumber(n) => NumberRoundTrip(n, rest);
    case JUndefined =>
      assert ValueText(v) + rest == rest;
  }

  lemma {:induction false} EntryRoundTrip(f: Field, rest: string)
    requires '"' !in f.key && WellFormed(f.value) && Closer(rest)
    ensures ParseEntry(EntryText(f) + rest) == Some((f, rest))
    decreases f, 0
  {
    var after := ":" + (ValueText(f.value) + rest);
    assert EntryText(f) + rest == "\"" + f.key + "\"" + after;
    QuotedRoundTrip(f.key, after);
    assert after[1..] == ValueText(f.value) + rest;
    ValueRoundTrip(f.value, rest);
  }

  lemma FieldsTail(fs: seq<Field>)
    requires |fs| >= 1 && FieldsWellFormed(fs)
    ensures '"' !in fs[0].key && WellFormed(fs[0].value)
    ensures FieldsWellFormed(fs[1..])
  {
    forall i | 0 <= i < |fs| - 1 ensures '"' !in fs[1..][i].key && WellFormed(fs[1..][i].value) {
      assert fs[1..][i] == fs[i + 1];
    }
  }

  lemma ParseEntriesLast(s: string, f: Field, rest: string)
    requires ParseEntry(s) == Some((f, rest))
    requires |rest| > 0 && rest[0] == '}'
    ensures ParseEntries(s) == Some(([f], rest))
  {
  }

  lemma ParseEntriesMore(s: string, f: Field, tail: string, fs: seq<Field>, rest: string)
    requires ParseEntry(s) == Some((f, "," + tail))
    requires ParseEntries(tail) == Some((fs, rest))
    ensures ParseEntries(s) == Some(([f] + fs, rest))
  {
    assert ("," + tail)[1..] == tail;
  }

  lemma ParseObjectBody(s: string, fs: seq<Field>, rest: string)
    requires |s| >= 2 && s[0] == '{' && s[1] != '}'
    requires ParseEntries(s[1..]) == Some((fs, "}" + rest))
    ensures ParseObject(s) == Some((JObject(fs), rest))
  {
    assert ("}" + rest)[1..] == rest;
  }

  lemma EntriesStartQuoted(fs: seq<Field>)
    requires |fs| >= 1
    ensures |EntriesText(fs)| > 0 && EntriesText(fs)[0] == '"'
  {
    var e := EntryText(fs[0]);
    EntryStartsQuoted(fs[0]);
    if |fs| > 1 {
      QuotedHead(EntriesText(fs), e, ",", EntriesText(fs[1..]));
    }
  }

  lemma EntryStartsQuoted(f: Field)
    ensures |EntryText(f)| > 0 && EntryText(f)[0] == '"'
  {
    assert EntryText(f) == "\"" + (f.key + "\":" + ValueText(f.value));
  }

  lemma QuotedHead(text: string, e: string, sep: string, more: string)
    requires text == e + sep + more && |e| > 0 && e[0] == '"'
    ensures |text| > 0 && text[0] == '"'
  {
    assert text[0] == (e + sep)[0] == e[0];
  }

  lemma {:induction false} EntriesRoundTrip(fs: seq<Field>, rest: string)
    requires |fs| >= 1 && FieldsWellFormed(fs)
    requires |rest| > 0 && rest[0] == '}'
    ensures ParseEntries(EntriesText(fs) + rest) == Some((fs, rest))
    decreases fs, 1
  {
    FieldsTail(fs);
    if |fs| == 1 {
      assert EntriesText(fs) + rest == EntryText(fs[0]) + rest;
      EntryRoundTrip(fs[0], rest);
      ParseEntriesLast(EntryText(fs[0]) + rest, fs[0], rest);
      assert [fs[0]] == fs;
    } else {
      EntriesRoundTripCons(fs, rest);
    }
  }

  lemma ConcatAssoc(a: string, b: string, c: string, d: string)
    ensures a + b + c + d == a + (b + (c + d))
  {
  }

  lemma {:induction false} EntriesRoundTripCons(fs: seq<Field>, rest: string)
    requires |fs| >= 2 && '"' !in fs[0].key && WellFormed(fs[0].value) && FieldsWellFormed(fs[1..])
    requires |rest| > 0 && rest[0] == '}'
    ensures ParseEntries(EntriesText(fs) + rest) == Some((fs, rest))
    decreases fs, 0
  {
    var a := EntryText(fs[0]);
    var tail := EntriesText(fs[1..]) + rest;
    var s := EntriesText(fs) + rest;
    assert s == a + ("," + tail) by {
      assert EntriesText(fs) == a + "," + EntriesText(fs[1..]);
      ConcatAssoc(a, ",", EntriesText(fs[1..]), rest);
    }
    EntryRoundTrip(fs[0], "," + tail);
    EntriesRoundTrip(fs[1..], rest);
    ParseEntriesMore(s, fs[0], tail, fs[1..], rest);
    assert [fs[0]] + fs[1..] == fs;
  }

  /** The serialiser round trip: reading `jsonStringify(obj)` back gives the
      object, whatever text follows it. */
  lemma {:induction false} ObjectRoundTrip(fs: seq<Field>, rest: string)
    requires FieldsWellFormed(fs)
    ensures ParseObject(Stringify(fs) + rest) == Some((JObject(fs), rest))
    decreases fs, 2
  {
    var s := Stringify(fs) + rest;
    if |fs| == 0 {
      assert s == "{}" + rest;
      assert s[2..] == rest;
    } else {
      var body := EntriesText(fs);
      assert s == "{" + (body + ("}" + rest));
      assert s[1..] == body + ("}" + rest);
      EntriesStartQuoted(fs);
      EntriesRoundTrip(fs, "}" + rest);
      ParseObjectBody(s, fs, rest);
    }
  }

  /** `jsonStringify` output is always read back as the object it came from. */
  lemma StringifyRoundTrip(fs: seq<Field>)
    requires FieldsWellFormed(fs)
    ensures ParseObject(Stringify(fs)) == Some((JObject(fs), ""))
  {
    ObjectRoundTrip(fs, "");
    assert Stringify(fs) + "" == Stringify(fs);
  }
}
