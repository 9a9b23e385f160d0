/**
 * The part of Python's `json` module that the client relies on.
 *
 * `Loads` follows the decoder of CPython's `json.loads` (the C scanner): a
 * single value between optional whitespace, strict strings (no raw control
 * characters), `NaN`/`Infinity`/`-Infinity`, and duplicate object keys where
 * the last one wins. `DumpsString`, `DumpsList` and `DumpsDict` follow
 * `json.dumps` with its defaults (`ensure_ascii`, separators ", " and ": ").
 */
module Json {
  import opened Wrappers

  /** A decoded JSON value. A number keeps its literal text: its numeric value is never inspected. */
  datatype Json =
    | Null
    | Bool(b: bool)
    | Num(lexeme: string)
    | Str(s: string)
    | Arr(items: seq<Json>)
    | Obj(fields: map<string, Json>)

  /** The longest decimal integer literal CPython converts to `int` (`sys.int_info.default_max_str_digits`). */
  const MaxIntDigits := 4300

  /**
   * What a scan from some position gives: a value and the text after it, a
   * decoding error (`JSONDecodeError`), or the plain `ValueError` that `int()`
   * raises on a literal with more than MaxIntDigits digits.
   */
  datatype Parse<+T> = Parsed(value: T, rest: string) | Malformed | IntTooLong

  /** The outcome of `json.loads`. */
  datatype Loaded = Decoded(value: Json) | DecodeError | IntDigitsError

  predicate IsWs(c: char) {
    c == ' ' || c == '\t' || c == '\n' || c == '\r'
  }

  predicate IsDigit(c: char) {
    '0' <= c <= '9'
  }

  predicate StartsWith(s: string, p: string) {
    |p| <= |s| && s[..|p|] == p
  }

  /** Drops leading whitespace. */
  function SkipWs(s: string): (r: string)
    ensures |r| <= |s| && r == s[|s| - |r|..]
    ensures |r| > 0 ==> !IsWs(r[0])
  {
    if |s| > 0 && IsWs(s[0]) then SkipWs(s[1..]) else s
  }

  /** The number of leading ASCII digits. */
  function DigitRun(s: string): (n: nat)
    ensures n <= |s|
    ensures forall i | 0 <= i < n :: IsDigit(s[i])
    ensures n < |s| ==> !IsDigit(s[n])
  {
    if |s| > 0 && IsDigit(s[0]) then 1 + DigitRun(s[1..]) else 0
  }

  function HexValue(c: char): (r: Option<int>)
    ensures r.Some? ==> 0 <= r.value < 16
  {
    if '0' <= c <= '9' then Some(c as int - '0' as int)
    else if 'a' <= c <= 'f' then Some(c as int - 'a' as int + 10)
    else if 'A' <= c <= 'F' then Some(c as int - 'A' as int + 10)
    else None
  }

  /** The value of the four hex digits of a `\uXXXX` escape. */
  function Hex4(s: string): (r: Option<int>)
    requires |s| == 4
    ensures r.Some? ==> 0 <= r.value < 0x1_0000
  {
    match (HexValue(s[0]), HexValue(s[1]), HexValue(s[2]), HexValue(s[3]))
    case (Some(a), Some(b), Some(c), Some(d)) => Some(((a * 16 + b) * 16 + c) * 16 + d)
    case _ => None
  }

  /**
   * Scans the characters of a string literal after its opening quote, up to
   * and including the closing quote. None where the decoder raises: an
   * unterminated literal, a raw control character, an unknown escape, a bad
   * `\uXXXX`, or an escaped surrogate that does not form a pair (which
   * Python keeps as a lone surrogate, a code point a Dafny string cannot hold).
   */
  function ParseChars(s: string, acc: string): (r: Option<(string, string)>)
    ensures r.Some? ==> |r.value.1| < |s|
    decreases |s|
  {
    if |s| == 0 then None
    else if s[0] == '"' then Some((acc, s[1..]))
    else if s[0] == '\\' then
      if |s| < 2 then None
      else if s[1] == '"' || s[1] == '\\' || s[1] == '/' then ParseChars(s[2..], acc + [s[1]])
      else if s[1] == 'b' then ParseChars(s[2..], acc + [8 as char])
      else if s[1] == 'f' then ParseChars(s[2..], acc + [12 as char])
      else if s[1] == 'n' then ParseChars(s[2..], acc + ['\n'])
      else if s[1] == 'r' then ParseChars(s[2..], acc + ['\r'])
      else if s[1] == 't' then ParseChars(s[2..], acc + ['\t'])
      else if s[1] == 'u' && |s| >= 6 then
        match Hex4(s[2..6])
        case None => None
        case Some(u) =>
          if 0xD800 <= u < 0xDC00 then
            if |s| >= 12 && s[6] == '\\' && s[7] == 'u' then
              match Hex4(s[8..12])
              case Some(l) =>
                if 0xDC00 <= l < 0xE000 then
                  ParseChars(s[12..], acc + [(0x1_0000 + (u - 0xD800) * 1024 + (l - 0xDC00)) as char])
                else None
              case None => None
            else None
          else if 0xDC00 <= u < 0xE000 then None
          else ParseChars(s[6..], acc + [u as char])
      else None
    else if s[0] < ' ' then None
    else ParseChars(s[1..], acc + [s[0]])
  }

  /** The end of an exponent part `[eE][+-]?digits` starting at `i`, or `i` when there is none. */
  function ExponentEnd(s: string, i: nat): (j: nat)
    requires i <= |s|
    ensures i <= j <= |s|
  {
    if i < |s| && (s[i] == 'e' || s[i] == 'E') then
      var d := if i + 1 < |s| && (s[i + 1] == '+' || s[i + 1] == '-') then i + 2 else i + 1;
      if d < |s| && IsDigit(s[d]) then d + 1 + DigitRun(s[d + 1..]) else i
    else i
  }

  /** A number `-?(0|[1-9][0-9]*)(\.[0-9]+)?([eE][-+]?[0-9]+)?`. */
  function ParseNumber(s: string): (r: Parse<Json>)
    ensures r.Parsed? ==> |r.rest| < |s| && (s[0] == '-' || IsDigit(s[0]))
  {
    var sign := if |s| > 0 && s[0] == '-' then 1 else 0;
    if |s| <= sign || !IsDigit(s[sign]) then Malformed
    else
      var intEnd := if s[sign] == '0' then sign + 1 else sign + 1 + DigitRun(s[sign + 1..]);
      var fracEnd :=
        if intEnd + 1 < |s| && s[intEnd] == '.' && IsDigit(s[intEnd + 1])
        then intEnd + 2 + DigitRun(s[intEnd + 2..]) else intEnd;
      var expEnd := ExponentEnd(s, fracEnd);
      if fracEnd == intEnd && expEnd == fracEnd && intEnd - sign > MaxIntDigits then IntTooLong
      else Parsed(Num(s[..expEnd]), s[expEnd..])
  }

  /** The characters a value can start with. */
  predicate ValueStart(c: char) {
    c == '"' || c == '{' || c == '[' || c == 'n' || c == 't' || c == 'f' || c == 'N' || c == 'I' || c == '-' || IsDigit(c)
  }

  /** Scans one value starting exactly at `s[0]`; a value always consumes some text. */
  function ParseValue(s: string): (r: Parse<Json>)
    ensures r.Parsed? ==> |r.rest| < |s| && ValueStart(s[0])
    decreases |s|, 0
  {
    if |s| == 0 then Malformed
    else if s[0] == '"' then
      match ParseChars(s[1..], [])
      case Some((str, rest)) => Parsed(Str(str), rest)
      case None => Malformed
    else if s[0] == '{' then ParseObject(s[1..])
    else if s[0] == '[' then ParseArray(s[1..])
    else if StartsWith(s, "null") then Parsed(Null, s[4..])
    else if StartsWith(s, "true") then Parsed(Bool(true), s[4..])
    else if StartsWith(s, "false") then Parsed(Bool(false), s[5..])
    else if StartsWith(s, "NaN") then Parsed(Num("NaN"), s[3..])
    else if StartsWith(s, "Infinity") then Parsed(Num("Infinity"), s[8..])
    else if StartsWith(s, "-Infinity") then Parsed(Num("-Infinity"), s[9..])
    else ParseNumber(s)
  }

  /** An array after its `[`. */
  function ParseArray(s: string): (r: Parse<Json>)
    ensures r.Parsed? ==> |r.rest| < |s|
    decreases |s|, 2
  {
    var t := SkipWs(s);
    if |t| > 0 && t[0] == ']' then Parsed(Arr([]), t[1..])
    else ParseElements(t, [])
  }

  /** The elements of an array from the start of one element; `acc` holds the ones before it. */
  function ParseElements(s: string, acc: seq<Json>): (r: Parse<Json>)
    ensures r.Parsed? ==> |r.rest| < |s|
    decreases |s|, 1
  {
    match ParseValue(s)
    case Parsed(v, rest) =>
      var t := SkipWs(rest);
      if |t| > 0 && t[0] == ']' then Parsed(Arr(acc + [v]), t[1..])
      else if |t| > 0 && t[0] == ',' then ParseElements(SkipWs(t[1..]), acc + [v])
      else Malformed
    case Malformed => Malformed
    case IntTooLong => IntTooLong
  }

  /** An object after its `{`. */
  function ParseObject(s: string): (r: Parse<Json>)
    ensures r.Parsed? ==> |r.rest| < |s|
    decreases |s|, 2
  {
    var t := SkipWs(s);
    if |t| > 0 && t[0] == '}' then Parsed(Obj(map[]), t[1..])
    else ParseMembers(t, map[])
  }

  /** The members of an object from the quote of one key; a repeated key takes the later value. */
  function ParseMembers(s: string, acc: map<string, Json>): (r: Parse<Json>)
    ensures r.Parsed? ==> |r.rest| < |s|
    decreases |s|, 1
  {
    if |s| == 0 || s[0] != '"' then Malformed
    else match ParseChars(s[1..], [])
      case None => Malformed
      case Some((key, afterKey)) =>
        var t := SkipWs(afterKey);
        if |t| == 0 || t[0] != ':' then Malformed
        else match ParseValue(SkipWs(t[1..]))
          case Parsed(v, rest) =>
            var u := SkipWs(rest);
            if |u| > 0 && u[0] == '}' then Parsed(Obj(acc[key := v]), u[1..])
            else if |u| > 0 && u[0] == ',' then ParseMembers(SkipWs(u[1..]), acc[key := v])
            else Malformed
          case Malformed => Malformed
          case IntTooLong => IntTooLong
  }

  /** `json.loads(s)`: one value, optionally surrounded by whitespace, and nothing else. */
  function Loads(s: string): (r: Loaded)
    ensures r.Decoded? ==> exists i | 0 <= i < |s| :: ValueStart(s[i])
  {
    var t := SkipWs(s);
    assert |t| > 0 ==> t[0] == s[|s| - |t|];
    LoadsFrom(t)
  }

  /** `json.loads` once the leading whitespace is skipped: a value and then only whitespace. */
  function LoadsFrom(t: string): (r: Loaded)
    ensures r.Decoded? ==> |t| > 0 && ValueStart(t[0])
  {
    match ParseValue(t)
    case Parsed(v, rest) => if SkipWs(rest) == [] then Decoded(v) else DecodeError
    case Malformed => DecodeError
    case IntTooLong => IntDigitsError
  }

  // ---------------------------------------------------------------------------
  // json.dumps

  /** One lowercase hex digit, as CPython's encoder writes it. */
  function HexDigit(d: int): (c: char)
    requires 0 <= d < 16
    ensures HexValue(c) == Some(d)
  {
    if d < 10 then ('0' as int + d) as char else ('a' as int + d - 10) as char
  }

  /** The four hex digits of a `\uXXXX` escape. */
  function Hex4Of(n: int): (r: string)
    requires 0 <= n < 0x1_0000
    ensures |r| == 4 && Hex4(r) == Some(n)
  {
    var q1 := n / 16;
    var q2 := q1 / 16;
    [HexDigit(q2 / 16), HexDigit(q2 % 16), HexDigit(q1 % 16), HexDigit(n % 16)]
  }

  /**
   * One character of a string as `json.dumps` writes it with ensure_ascii:
   * printable ASCII as itself, the short escapes, everything else as
   * `\uXXXX`, a character beyond the BMP as its UTF-16 surrogate pair.
   */
  function EscapeChar(c: char): (r: string)
    ensures |r| > 0
  {
    if c == '"' then "\\\""
    else if c == '\\' then "\\\\"
    else if c == '\n' then "\\n"
    else if c == '\r' then "\\r"
    else if c == '\t' then "\\t"
    else if c == 8 as char then "\\b"
    else if c == 12 as char then "\\f"
    else if ' ' <= c <= '~' then [c]
    else if c as int < 0x1_0000 then "\\u" + Hex4Of(c as int)
    else
      var v := c as int - 0x1_0000;
      "\\u" + Hex4Of(0xD800 + v / 1024) + "\\u" + Hex4Of(0xDC00 + v % 1024)
  }

  function Escape(s: string): string {
    if |s| == 0 then "" else EscapeChar(s[0]) + Escape(s[1..])
  }

  /** `json.dumps` of a string. */
  function DumpsString(s: string): (r: string)
    ensures |r| >= 2 && r[0] == '"'
  {
    "\"" + Escape(s) + "\""
  }

  /** `", ".join(items)`, the item separator of `json.dumps`. */
  function Join(items: seq<string>): string {
    if |items| == 0 then ""
    else if |items| == 1 then items[0]
    else items[0] + ", " + Join(items[1..])
  }

  /** `json.dumps` of a list, given the text of each element. */
  function DumpsList(items: seq<string>): string {
    "[" + Join(items) + "]"
  }

  /** One `"key": value` member, the key separator of `json.dumps` being ": ". */
  function MemberText(key: string, value: string): string {
    DumpsString(key) + ": " + value
  }

  function MemberTexts(members: seq<(string, string)>): (r: seq<string>)
    ensures |r| == |members|
  {
    if |members| == 0 then [] else [MemberText(members[0].0, members[0].1)] + MemberTexts(members[1..])
  }

  /** `json.dumps` of a dict whose items, in insertion order, are the keys with their values' texts. */
  function DumpsDict(members: seq<(string, string)>): string {
    "{" + Join(MemberTexts(members)) + "}"
  }

  /** The dict that decoding builds from keys and values in order, a later key overriding an earlier one. */
  function WithFields(acc: map<string, Json>, keys: seq<string>, values: seq<Json>): map<string, Json>
    requires |keys| == |values|
    decreases |keys|
  {
    if |keys| == 0 then acc else WithFields(acc[keys[0] := values[0]], keys[1..], values[1..])
  }

  function Keys(members: seq<(string, string)>): (r: seq<string>)
    ensures |r| == |members|
  {
    if |members| == 0 then [] else [members[0].0] + Keys(members[1..])
  }

  // ---------------------------------------------------------------------------
  // Reading back what json.dumps wrote

  /** `text` scans as `v` whatever follows it: it is a self-delimiting encoding of `v`. */
  ghost predicate ReadsBack(text: string, v: Json) {
    forall rest: string :: ParseValue(text + rest) == Parsed(v, rest)
  }

  /** Each text reads back as the value at the same position. */
  ghost predicate AllReadBack(items: seq<string>, values: seq<Json>) {
    && |items| == |values|
    && (|items| == 0 || (ReadsBack(items[0], values[0]) && AllReadBack(items[1..], values[1..])))
  }

  /** Each member's value text reads back as the value at the same position. */
  ghost predicate MembersReadBack(members: seq<(string, string)>, values: seq<Json>) {
    && |members| == |values|
    && (|members| == 0 || (ReadsBack(members[0].1, values[0]) && MembersReadBack(members[1..], values[1..])))
  }

  lemma ReadsBackStart(text: string, v: Json)
    requires ReadsBack(text, v)
    ensures |text| > 0 && ValueStart(text[0])
  {
    assert ParseValue(text + "") == Parsed(v, "");
    assert text + "" == text;
  }

  lemma SkipWsNoSpace(s: string)
    requires |s| > 0 && !IsWs(s[0])
    ensures SkipWs(s) == s
  {
  }

  lemma SkipOneSpace(s: string)
    requires |s| > 0 && !IsWs(s[0])
    ensures SkipWs(" " + s) == s
  {
    assert (" " + s)[1..] == s;
  }

  lemma ParseValueAtQuote(s: string)
    requires |s| > 0 && s[0] == '"'
    ensures ParseValue(s) == match ParseChars(s[1..], [])
      case Some((str, rest)) => Parsed(Str(str), rest)
      case None => Malformed
  {
  }

  lemma ParseValueAtBracket(s: string)
    requires |s| > 0 && s[0] == '['
    ensures ParseValue(s) == ParseArray(s[1..])
  {
  }

  lemma ParseValueAtBrace(s: string)
    requires |s| > 0 && s[0] == '{'
    ensures ParseValue(s) == ParseObject(s[1..])
  {
  }

  lemma ParseElementsLast(s: string, acc: seq<Json>, v: Json, tail: string)
    requires ParseValue(s) == Parsed(v, "]" + tail)
    ensures ParseElements(s, acc) == Parsed(Arr(acc + [v]), tail)
  {
    CloserAhead(']', tail);
    ParseElementsAfterValue(s, acc, v, "]" + tail);
  }

  lemma ParseElementsNext(s: string, acc: seq<Json>, v: Json, more: string)
    requires ParseValue(s) == Parsed(v, ", " + more)
    requires |more| > 0 && !IsWs(more[0])
    ensures ParseElements(s, acc) == ParseElements(more, acc + [v])
  {
    SeparatorAhead(more);
    ParseElementsAfterValue(s, acc, v, ", " + more);
  }

  /** One unfolding of ParseElements, once the element is known. */
  lemma ParseElementsAfterValue(s: string, acc: seq<Json>, v: Json, rest: string)
    requires ParseValue(s) == Parsed(v, rest)
    ensures var t := SkipWs(rest);
      ParseElements(s, acc) ==
        if |t| > 0 && t[0] == ']' then Parsed(Arr(acc + [v]), t[1..])
        else if |t| > 0 && t[0] == ',' then ParseElements(SkipWs(t[1..]), acc + [v])
        else Malformed
  {
  }

  /** Scanning a member's key and separator leaves the value's text. */
  lemma MemberKeyText(key: string, text: string)
    ensures var s := MemberText(key, text);
      |s| > 0 && s[0] == '"' && s[1..] == Escape(key) + "\"" + (": " + text)
  {
    var e := Escape(key);
    var r := e + "\"" + (": " + text);
    assert MemberText(key, text) == "\"" + r;
    assert ("\"" + r)[1..] == r;
  }

  lemma ParseMemberKey(key: string, text: string)
    ensures var s := MemberText(key, text);
      |s| > 0 && s[0] == '"' && ParseChars(s[1..], []) == Some((key, ": " + text))
  {
    MemberKeyText(key, text);
    ParseEscaped(key, ": " + text, []);
    EmptyPrefix(key);
  }

  lemma EmptyPrefix<T>(x: seq<T>)
    ensures [] + x == x
  {
  }

  lemma MemberTextAppend(key: string, text: string, t: string)
    ensures MemberText(key, text) + t == MemberText(key, text + t)
  {
  }

  lemma ParseMembersLast(key: string, text: string, acc: map<string, Json>, v: Json, tail: string)
    requires ParseValue(text + ("}" + tail)) == Parsed(v, "}" + tail)
    ensures ParseMembers(MemberText(key, text) + ("}" + tail), acc) == Parsed(Obj(acc[key := v]), tail)
  {
    var x := text + ("}" + tail);
    ReadsBackStartAt(x);
    ParseMemberKey(key, x);
    AfterKeySeparator(x);
    CloserAhead('}', tail);
    MemberTextAppend(key, text, "}" + tail);
    ParseMembersAfterValue(MemberText(key, x), key, acc, v, x, "}" + tail);
  }

  lemma ParseMembersNext(key: string, text: string, acc: map<string, Json>, v: Json, more: string)
    requires ParseValue(text + (", " + more)) == Parsed(v, ", " + more)
    requires |more| > 0 && !IsWs(more[0])
    ensures ParseMembers(MemberText(key, text) + (", " + more), acc) == ParseMembers(more, acc[key := v])
  {
    var x := text + (", " + more);
    ReadsBackStartAt(x);
    ParseMemberKey(key, x);
    AfterKeySeparator(x);
    SeparatorAhead(more);
    MemberTextAppend(key, text, ", " + more);
    ParseMembersAfterValue(MemberText(key, x), key, acc, v, x, ", " + more);
  }

  /** One unfolding of ParseMembers, once the key and the value are known. */
  lemma ParseMembersAfterValue(s: string, key: string, acc: map<string, Json>, v: Json, x: string, rest: string)
    requires |s| > 0 && s[0] == '"' && ParseChars(s[1..], []) == Some((key, ": " + x))
    requires SkipWs(": " + x) == ": " + x && SkipWs((": " + x)[1..]) == x && ParseValue(x) == Parsed(v, rest)
    ensures var u := SkipWs(rest);
      ParseMembers(s, acc) ==
        if |u| > 0 && u[0] == '}' then Parsed(Obj(acc[key := v]), u[1..])
        else if |u| > 0 && u[0] == ',' then ParseMembers(SkipWs(u[1..]), acc[key := v])
        else Malformed
  {
  }

  lemma AfterKeySeparator(x: string)
    requires |x| > 0 && !IsWs(x[0])
    ensures SkipWs(": " + x) == ": " + x && SkipWs((": " + x)[1..]) == x
  {
    assert (": " + x)[1..] == " " + x;
    SkipOneSpace(x);
  }

  lemma CloserAhead(closer: char, tail: string)
    requires !IsWs(closer)
    ensures SkipWs([closer] + tail) == [closer] + tail && ([closer] + tail)[1..] == tail
  {
  }

  lemma SeparatorAhead(more: string)
    requires |more| > 0 && !IsWs(more[0])
    ensures SkipWs(", " + more) == ", " + more && SkipWs((", " + more)[1..]) == more
  {
    assert (", " + more)[1..] == " " + more;
    SkipOneSpace(more);
  }

  lemma ReadsBackStartAt(s: string)
    requires ParseValue(s).Parsed?
    ensures |s| > 0 && !IsWs(s[0])
  {
  }

  lemma Hex4Surrogates(c: char)
    requires c as int >= 0x1_0000
    ensures var v := c as int - 0x1_0000;
      0xD800 <= 0xD800 + v / 1024 < 0xDC00 && 0xDC00 <= 0xDC00 + v % 1024 < 0xE000 &&
      0x1_0000 + ((0xD800 + v / 1024) - 0xD800) * 1024 + ((0xDC00 + v % 1024) - 0xDC00) == c as int
  {
    var v := c as int - 0x1_0000;
    assert v == (v / 1024) * 1024 + v % 1024;
  }

  lemma ParseShortEscape(c: char, t: string, acc: string)
    requires c == '"' || c == '\\' || c == '\n' || c == '\r' || c == '\t' || c == 8 as char || c == 12 as char
    ensures ParseChars(EscapeChar(c) + t, acc) == ParseChars(t, acc + [c])
  {
    var s := EscapeChar(c) + t;
    assert |EscapeChar(c)| == 2 && s[0] == '\\';
    assert s[2..] == t;
  }

  lemma ParsePlainChar(c: char, t: string, acc: string)
    requires ' ' <= c <= '~' && c != '"' && c != '\\'
    ensures ParseChars(EscapeChar(c) + t, acc) == ParseChars(t, acc + [c])
  {
    var s := EscapeChar(c) + t;
    assert EscapeChar(c) == [c];
    assert s[0] == c && s[1..] == t;
  }

  lemma ParseBmpEscape(c: char, t: string, acc: string)
    requires !(' ' <= c <= '~') && c as int < 0x1_0000
    requires c != '\n' && c != '\r' && c != '\t' && c != 8 as char && c != 12 as char
    ensures ParseChars(EscapeChar(c) + t, acc) == ParseChars(t, acc + [c])
  {
    var h := Hex4Of(c as int);
    assert EscapeChar(c) == "\\u" + h;
    var s := EscapeChar(c) + t;
    assert s[0] == '\\' && s[1] == 'u';
    assert s[2..6] == h;
    assert s[6..] == t;
    assert Hex4(s[2..6]) == Some(c as int);
  }

  lemma ParseCharsPairStep(s: string, acc: string, hi: int, lo: int, c: char)
    requires |s| >= 12 && s[0] == '\\' && s[1] == 'u' && s[6] == '\\' && s[7] == 'u'
    requires Hex4(s[2..6]) == Some(hi) && 0xD800 <= hi < 0xDC00
    requires Hex4(s[8..12]) == Some(lo) && 0xDC00 <= lo < 0xE000
    requires 0x1_0000 + (hi - 0xD800) * 1024 + (lo - 0xDC00) == c as int
    ensures ParseChars(s, acc) == ParseChars(s[12..], acc + [c])
  {
  }

  lemma PairEscapeText(h1: string, h2: string, t: string)
    requires |h1| == 4 && |h2| == 4
    ensures var s := "\\u" + h1 + "\\u" + h2 + t;
      && |s| >= 12 && s[0] == '\\' && s[1] == 'u' && s[6] == '\\' && s[7] == 'u'
      && s[2..6] == h1 && s[8..12] == h2 && s[12..] == t
  {
  }

  /** The surrogate pair `json.dumps` writes for a character outside the basic plane. */
  lemma SurrogatesOf(c: char) returns (hi: int, lo: int)
    requires c as int >= 0x1_0000
    ensures 0xD800 <= hi < 0xDC00 && 0xDC00 <= lo < 0xE000
    ensures 0x1_0000 + (hi - 0xD800) * 1024 + (lo - 0xDC00) == c as int
    ensures EscapeChar(c) == "\\u" + Hex4Of(hi) + "\\u" + Hex4Of(lo)
  {
    var v := c as int - 0x1_0000;
    hi, lo := 0xD800 + v / 1024, 0xDC00 + v % 1024;
    Hex4Surrogates(c);
    EscapeAstral(c, hi, lo);
  }

  lemma EscapeAstral(c: char, hi: int, lo: int)
    requires c as int >= 0x1_0000
    requires hi == 0xD800 + (c as int - 0x1_0000) / 1024 && lo == 0xDC00 + (c as int - 0x1_0000) % 1024
    requires 0xD800 <= hi < 0xDC00 && 0xDC00 <= lo < 0xE000
    ensures EscapeChar(c) == "\\u" + Hex4Of(hi) + "\\u" + Hex4Of(lo)
  {
  }

  lemma ParsePairEscape(c: char, t: string, acc: string)
    requires c as int >= 0x1_0000
    ensures ParseChars(EscapeChar(c) + t, acc) == ParseChars(t, acc + [c])
  {
    var hi, lo := SurrogatesOf(c);
    var h1, h2 := Hex4Of(hi), Hex4Of(lo);
    PairEscapeText(h1, h2, t);
    ParseCharsPairStep("\\u" + h1 + "\\u" + h2 + t, acc, hi, lo, c);
  }

  lemma ParseEscapedChar(c: char, t: string, acc: string)
    ensures ParseChars(EscapeChar(c) + t, acc) == ParseChars(t, acc + [c])
  {
    if c == '"' || c == '\\' || c == '\n' || c == '\r' || c == '\t' || c == 8 as char || c == 12 as char {
      ParseShortEscape(c, t, acc);
    } else if ' ' <= c <= '~' {
      ParsePlainChar(c, t, acc);
    } else if c as int < 0x1_0000 {
      ParseBmpEscape(c, t, acc);
    } else {
      ParsePairEscape(c, t, acc);
    }
  }

  /** Scanning an escaped string up to its closing quote gives the string back. */
  lemma EscapeUnfold(x: string, rest: string)
    requires |x| > 0
    ensures Escape(x) + "\"" + rest == EscapeChar(x[0]) + (Escape(x[1..]) + "\"" + rest)
  {
    assert Escape(x) == EscapeChar(x[0]) + Escape(x[1..]);
    Assoc4(EscapeChar(x[0]), Escape(x[1..]), "\"", rest);
  }

  lemma Assoc4(a: string, b: string, c: string, d: string)
    ensures a + b + c + d == a + (b + c + d)
  {
  }

  lemma EscapeEmpty(x: string, rest: string)
    requires |x| == 0
    ensures Escape(x) + "\"" + rest == "\"" + rest
  {
  }

  lemma ParseCharsClose(rest: string, acc: string)
    ensures ParseChars("\"" + rest, acc) == Some((acc, rest))
  {
    assert ("\"" + rest)[1..] == rest;
  }

  lemma AccStep<T>(acc: seq<T>, x: seq<T>)
    requires |x| > 0
    ensures acc + [x[0]] + x[1..] == acc + x
  {
  }

  lemma {:induction false} ParseEscaped(x: string, rest: string, acc: string)
    ensures ParseChars(Escape(x) + "\"" + rest, acc) == Some((acc + x, rest))
  {
    if |x| == 0 {
      EscapeEmpty(x, rest);
      ParseCharsClose(rest, acc);
      assert acc + x == acc;
    } else {
      EscapeUnfold(x, rest);
      ParseEscapedChar(x[0], Escape(x[1..]) + "\"" + rest, acc);
      ParseEscaped(x[1..], rest, acc + [x[0]]);
      AccStep(acc, x);
    }
  }

  lemma StringReadsBack(x: string)
    ensures ReadsBack(DumpsString(x), Str(x))
  {
    forall rest: string ensures ParseValue(DumpsString(x) + rest) == Parsed(Str(x), rest) {
      var s := DumpsString(x) + rest;
      assert s[1..] == Escape(x) + "\"" + rest;
      ParseEscaped(x, rest, []);
      ParseValueAtQuote(s);
      EmptyPrefix(x);
    }
  }

  lemma JoinStart(items: seq<string>)
    requires |items| > 0 && |items[0]| > 0
    ensures |Join(items)| > 0 && Join(items)[0] == items[0][0]
  {
  }

  lemma ReadsBackAt(text: string, v: Json, rest: string)
    requires ReadsBack(text, v)
    ensures ParseValue(text + rest) == Parsed(v, rest)
  {
  }

  lemma ElementsLastStep(item: string, v: Json, acc: seq<Json>, rest: string)
    requires ReadsBack(item, v)
    ensures ParseElements(Join([item]) + ("]" + rest), acc) == Parsed(Arr(acc + [v]), rest)
  {
    ReadsBackAt(item, v, "]" + rest);
    ParseElementsLast(item + ("]" + rest), acc, v, rest);
  }

  lemma JoinUnfold(items: seq<string>, closer: string)
    requires |items| > 1
    ensures Join(items) + closer == items[0] + (", " + (Join(items[1..]) + closer))
  {
  }

  lemma ElementsNextStep(items: seq<string>, v: Json, acc: seq<Json>, rest: string)
    requires |items| > 1 && ReadsBack(items[0], v)
    requires |items[1]| > 0 && !IsWs(items[1][0])
    ensures ParseElements(Join(items) + ("]" + rest), acc) == ParseElements(Join(items[1..]) + ("]" + rest), acc + [v])
  {
    var more := Join(items[1..]) + ("]" + rest);
    JoinStart(items[1..]);
    JoinUnfold(items, "]" + rest);
    ReadsBackAt(items[0], v, ", " + more);
    ParseElementsNext(items[0] + (", " + more), acc, v, more);
  }

  lemma {:induction false} ParseElementsJoin(items: seq<string>, values: seq<Json>, acc: seq<Json>, rest: string)
    requires |items| > 0 && AllReadBack(items, values)
    ensures ParseElements(Join(items) + ("]" + rest), acc) == Parsed(Arr(acc + values), rest)
    decreases |items|
  {
    if |items| == 1 {
      ElementsLastStep(items[0], values[0], acc, rest);
      assert items == [items[0]] && values == [values[0]];
    } else {
      ReadsBackStart(items[1], values[1]);
      ElementsNextStep(items, values[0], acc, rest);
      ParseElementsJoin(items[1..], values[1..], acc + [values[0]], rest);
      AccStep(acc, values);
    }
  }

  lemma ParseArrayStart(s: string)
    requires |s| > 0 && !IsWs(s[0])
    ensures ParseArray(s) == if s[0] == ']' then Parsed(Arr([]), s[1..]) else ParseElements(s, [])
  {
  }

  lemma EmptyListAt(rest: string)
    ensures ParseValue("[" + ("]" + rest)) == Parsed(Arr([]), rest)
  {
    var t := "]" + rest;
    var s := "[" + t;
    assert s[1..] == t && t[1..] == rest;
    EmptyListFrom(s, t, rest);
  }

  lemma EmptyListFrom(s: string, t: string, rest: string)
    requires |s| > 0 && s[0] == '[' && s[1..] == t
    requires |t| > 0 && t[0] == ']' && t[1..] == rest
    ensures ParseValue(s) == Parsed(Arr([]), rest)
  {
    ParseValueAtBracket(s);
    ParseArrayStart(t);
  }

  lemma ArrayFromElements(inner: string)
    requires |inner| > 0 && ValueStart(inner[0])
    ensures ParseValue("[" + inner) == ParseElements(inner, [])
  {
    var s := "[" + inner;
    assert s[1..] == inner;
    ValueStartNotWs(inner[0]);
    ElementsFrom(s, inner);
  }

  lemma ValueStartNotWs(c: char)
    requires ValueStart(c)
    ensures !IsWs(c) && c != ']'
  {
  }

  lemma ElementsFrom(s: string, inner: string)
    requires |s| > 0 && s[0] == '[' && s[1..] == inner
    requires |inner| > 0 && !IsWs(inner[0]) && inner[0] != ']'
    ensures ParseValue(s) == ParseElements(inner, [])
  {
    ParseValueAtBracket(s);
    ParseArrayStart(inner);
  }

  lemma EmptyListTextAt(items: seq<string>, rest: string)
    requires |items| == 0
    ensures DumpsList(items) + rest == "[" + ("]" + rest)
  {
  }

  lemma ListTextAt(items: seq<string>, rest: string)
    ensures DumpsList(items) + rest == "[" + (Join(items) + ("]" + rest))
  {
  }

  lemma ParseAllElements(items: seq<string>, values: seq<Json>, rest: string)
    requires |items| > 0 && AllReadBack(items, values)
    ensures ParseElements(Join(items) + ("]" + rest), []) == Parsed(Arr(values), rest)
  {
    ParseElementsJoin(items, values, [], rest);
    EmptyPrefix(values);
  }

  lemma NonEmptyListAt(items: seq<string>, values: seq<Json>, rest: string)
    requires |items| > 0 && |items[0]| > 0 && ValueStart(items[0][0])
    requires ParseElements(Join(items) + ("]" + rest), []) == Parsed(Arr(values), rest)
    ensures ParseValue(DumpsList(items) + rest) == Parsed(Arr(values), rest)
  {
    ListTextAt(items, rest);
    JoinStart(items);
    ArrayFromElements(Join(items) + ("]" + rest));
  }

  lemma ListReadsBackAt(items: seq<string>, values: seq<Json>, rest: string)
    requires AllReadBack(items, values)
    ensures ParseValue(DumpsList(items) + rest) == Parsed(Arr(values), rest)
  {
    if |items| == 0 {
      EmptyListTextAt(items, rest);
      EmptyListAt(rest);
      assert values == [];
    } else {
      ReadsBackStart(items[0], values[0]);
      ParseAllElements(items, values, rest);
      NonEmptyListAt(items, values, rest);
    }
  }

  /** `json.loads` reads a dumped list back, element by element. */
  lemma ListReadsBack(items: seq<string>, values: seq<Json>)
    requires AllReadBack(items, values)
    ensures ReadsBack(DumpsList(items), Arr(values))
  {
    forall rest: string ensures ParseValue(DumpsList(items) + rest) == Parsed(Arr(values), rest) {
      ListReadsBackAt(items, values, rest);
    }
  }

  lemma {:induction false} MemberTextsTail(members: seq<(string, string)>)
    requires |members| > 0
    ensures MemberTexts(members)[0] == MemberText(members[0].0, members[0].1)
    ensures MemberTexts(members)[1..] == MemberTexts(members[1..])
  {
  }

  lemma MemberTextsSingle(member: (string, string))
    ensures Join(MemberTexts([member])) == MemberText(member.0, member.1)
  {
    MemberTextsTail([member]);
  }

  lemma StartOfAppend(a: string, b: string)
    requires |a| > 0
    ensures |a + b| > 0 && (a + b)[0] == a[0]
  {
  }

  lemma MembersStart(members: seq<(string, string)>)
    requires |members| > 0
    ensures |Join(MemberTexts(members))| > 0 && Join(MemberTexts(members))[0] == '"'
  {
    MemberTextsTail(members);
    var m := MemberText(members[0].0, members[0].1);
    assert m[0] == DumpsString(members[0].0)[0];
    JoinStart(MemberTexts(members));
  }

  lemma MembersLastStep(member: (string, string), v: Json, acc: map<string, Json>, rest: string)
    requires ReadsBack(member.1, v)
    ensures ParseMembers(Join(MemberTexts([member])) + ("}" + rest), acc) == Parsed(Obj(acc[member.0 := v]), rest)
  {
    MemberTextsSingle(member);
    ReadsBackAt(member.1, v, "}" + rest);
    ParseMembersLast(member.0, member.1, acc, v, rest);
  }

  lemma MembersNextStep(members: seq<(string, string)>, v: Json, acc: map<string, Json>, rest: string)
    requires |members| > 1 && ReadsBack(members[0].1, v)
    ensures ParseMembers(Join(MemberTexts(members)) + ("}" + rest), acc)
         == ParseMembers(Join(MemberTexts(members[1..])) + ("}" + rest), acc[members[0].0 := v])
  {
    var (key, text) := members[0];
    var texts := MemberTexts(members);
    MemberTextsTail(members);
    var more := Join(MemberTexts(members[1..])) + ("}" + rest);
    MembersStart(members[1..]);
    StartOfAppend(Join(MemberTexts(members[1..])), "}" + rest);
    JoinUnfold(texts, "}" + rest);
    ReadsBackAt(text, v, ", " + more);
    ParseMembersNext(key, text, acc, v, more);
  }

  lemma {:induction false} ParseMembersJoin(members: seq<(string, string)>, values: seq<Json>, acc: map<string, Json>, rest: string)
    requires |members| > 0 && MembersReadBack(members, values)
    ensures ParseMembers(Join(MemberTexts(members)) + ("}" + rest), acc)
         == Parsed(Obj(WithFields(acc, Keys(members), values)), rest)
    decreases |members|
  {
    if |members| == 1 {
      MembersLastStep(members[0], values[0], acc, rest);
      assert members == [members[0]];
    } else {
      MembersNextStep(members, values[0], acc, rest);
      ParseMembersJoin(members[1..], values[1..], acc[members[0].0 := values[0]], rest);
    }
  }

  lemma ParseObjectStart(s: string)
    requires |s| > 0 && !IsWs(s[0])
    ensures ParseObject(s) == if s[0] == '}' then Parsed(Obj(map[]), s[1..]) else ParseMembers(s, map[])
  {
  }

  lemma EmptyDictAt(rest: string)
    ensures ParseValue("{" + ("}" + rest)) == Parsed(Obj(map[]), rest)
  {
    var t := "}" + rest;
    var s := "{" + t;
    assert s[1..] == t && t[1..] == rest;
    EmptyDictFrom(s, t, rest);
  }

  lemma EmptyDictFrom(s: string, t: string, rest: string)
    requires |s| > 0 && s[0] == '{' && s[1..] == t
    requires |t| > 0 && t[0] == '}' && t[1..] == rest
    ensures ParseValue(s) == Parsed(Obj(map[]), rest)
  {
    ParseValueAtBrace(s);
    ParseObjectStart(t);
  }

  lemma ObjectFromMembers(inner: string)
    requires |inner| > 0 && inner[0] == '"'
    ensures ParseValue("{" + inner) == ParseMembers(inner, map[])
  {
    var s := "{" + inner;
    assert s[1..] == inner;
    MembersFrom(s, inner);
  }

  lemma MembersFrom(s: string, inner: string)
    requires |s| > 0 && s[0] == '{' && s[1..] == inner
    requires |inner| > 0 && inner[0] == '"'
    ensures ParseValue(s) == ParseMembers(inner, map[])
  {
    ParseValueAtBrace(s);
    ParseObjectStart(inner);
  }

  lemma EmptyDictTextAt(members: seq<(string, string)>, rest: string)
    requires |members| == 0
    ensures DumpsDict(members) + rest == "{" + ("}" + rest)
  {
  }

  lemma DictTextAt(members: seq<(string, string)>, rest: string)
    ensures DumpsDict(members) + rest == "{" + (Join(MemberTexts(members)) + ("}" + rest))
  {
  }

  lemma NonEmptyDictAt(members: seq<(string, string)>, v: Json, rest: string)
    requires |members| > 0
    requires ParseMembers(Join(MemberTexts(members)) + ("}" + rest), map[]) == Parsed(v, rest)
    ensures ParseValue(DumpsDict(members) + rest) == Parsed(v, rest)
  {
    DictTextAt(members, rest);
    MembersStart(members);
    StartOfAppend(Join(MemberTexts(members)), "}" + rest);
    ObjectFromMembers(Join(MemberTexts(members)) + ("}" + rest));
  }

  lemma DictReadsBackAt(members: seq<(string, string)>, values: seq<Json>, rest: string)
    requires MembersReadBack(members, values)
    ensures ParseValue(DumpsDict(members) + rest) == Parsed(Obj(WithFields(map[], Keys(members), values)), rest)
  {
    if |members| == 0 {
      EmptyDictTextAt(members, rest);
      EmptyDictAt(rest);
    } else {
      ParseMembersJoin(members, values, map[], rest);
      NonEmptyDictAt(members, Obj(WithFields(map[], Keys(members), values)), rest);
    }
  }

  /** `json.loads` reads a dumped dict back as the mapping from its keys to their values. */
  lemma DictReadsBack(members: seq<(string, string)>, values: seq<Json>)
    requires MembersReadBack(members, values)
    ensures ReadsBack(DumpsDict(members), Obj(WithFields(map[], Keys(members), values)))
  {
    forall rest: string
      ensures ParseValue(DumpsDict(members) + rest) == Parsed(Obj(WithFields(map[], Keys(members), values)), rest)
    {
      DictReadsBackAt(members, values, rest);
    }
  }

  /** A self-delimiting text is what `json.loads` decodes it to. */
  lemma LoadsReadsBack(text: string, v: Json)
    requires ReadsBack(text, v)
    ensures Loads(text) == Decoded(v)
  {
    ReadsBackStart(text, v);
    assert ParseValue(text + "") == Parsed(v, "");
    assert text + "" == text;
  }

  /** Leading whitespace never changes what `json.loads` decodes. */
  lemma {:induction false} LoadsSkipsLeadingWhitespace(w: string, s: string)
    requires forall i | 0 <= i < |w| :: IsWs(w[i])
    ensures Loads(w + s) == Loads(s)
  {
    SkipWsPrefix(w, s);
    LoadsAfterSkip(w + s, s);
  }

  /** `json.loads` looks at its text only past the leading whitespace. */
  lemma LoadsAfterSkip(a: string, b: string)
    requires SkipWs(a) == SkipWs(b)
    ensures Loads(a) == Loads(b)
  {
  }

  /** Text whose first character starts no value is a decode error. */
  lemma LoadsNoValue(s: string)
    requires |s| > 0 && !IsWs(s[0]) && !ValueStart(s[0])
    ensures Loads(s) == DecodeError
  {
    assert SkipWs(s) == s;
  }

  lemma {:induction false} SkipWsPrefix(w: string, s: string)
    requires forall i | 0 <= i < |w| :: IsWs(w[i])
    ensures SkipWs(w + s) == SkipWs(s)
  {
    if |w| > 0 {
      assert (w + s)[0] == w[0] && IsWs(w[0]);
      assert (w + s)[1..] == w[1..] + s;
      assert forall i | 0 <= i < |w[1..]| :: w[1..][i] == w[i + 1];
      SkipWsPrefix(w[1..], s);
    } else {
      assert w + s == s;
    }
  }

  /** `json.loads` of a dumped two-element list. */
  lemma LoadsPairList(a: string, b: string, va: Json, vb: Json)
    requires ReadsBack(a, va) && ReadsBack(b, vb)
    ensures Loads(DumpsList([a, b])) == Decoded(Arr([va, vb]))
  {
    var items := [a, b];
    assert items[1..] == [b] && [va, vb][1..] == [vb];
    assert AllReadBack([b], [vb]);
    ListReadsBack(items, [va, vb]);
    LoadsReadsBack(DumpsList(items), Arr([va, vb]));
  }

  lemma WithTwoFields(k1: string, v1: Json, k2: string, v2: Json)
    ensures WithFields(map[], [k1, k2], [v1, v2]) == map[k1 := v1][k2 := v2]
  {
    assert [k1, k2][1..] == [k2] && [v1, v2][1..] == [v2];
    assert [k2][1..] == [] && [v2][1..] == [];
    assert WithFields(map[k1 := v1][k2 := v2], [], []) == map[k1 := v1][k2 := v2];
    assert WithFields(map[k1 := v1], [k2], [v2]) == map[k1 := v1][k2 := v2];
  }

  /** A dumped two-member dict reads back, the second key overriding the first if they are equal. */
  lemma PairDictReadsBack(k1: string, t1: string, v1: Json, k2: string, t2: string, v2: Json)
    requires ReadsBack(t1, v1) && ReadsBack(t2, v2)
    ensures ReadsBack(DumpsDict([(k1, t1), (k2, t2)]), Obj(map[k1 := v1][k2 := v2]))
  {
    var members := [(k1, t1), (k2, t2)];
    var values := [v1, v2];
    assert members[1..] == [(k2, t2)] && values[1..] == [v2];
    assert MembersReadBack([(k2, t2)], [v2]);
    assert Keys(members) == [k1, k2];
    WithTwoFields(k1, v1, k2, v2);
    DictReadsBack(members, values);
  }

  /** `json.loads` of a dumped list holding a string and a dict of two strings. */
  lemma LoadsStringAndDict(tag: string, k1: string, s1: string, k2: string, s2: string)
    ensures Loads(DumpsList([DumpsString(tag), DumpsDict([(k1, DumpsString(s1)), (k2, DumpsString(s2))])]))
         == Decoded(Arr([Str(tag), Obj(map[k1 := Str(s1)][k2 := Str(s2)])]))
  {
    StringReadsBack(tag);
    StringReadsBack(s1);
    StringReadsBack(s2);
    PairDictReadsBack(k1, DumpsString(s1), Str(s1), k2, DumpsString(s2), Str(s2));
    LoadsPairList(DumpsString(tag), DumpsDict([(k1, DumpsString(s1)), (k2, DumpsString(s2))]),
                  Str(tag), Obj(map[k1 := Str(s1)][k2 := Str(s2)]));
  }

  /** `json.loads` of a dumped list of two strings. */
  lemma LoadsStringList(a: string, b: string)
    ensures Loads(DumpsList([DumpsString(a), DumpsString(b)])) == Decoded(Arr([Str(a), Str(b)]))
  {
    StringReadsBack(a);
    StringReadsBack(b);
    LoadsPairList(DumpsString(a), DumpsString(b), Str(a), Str(b));
  }

  /** `json.loads` of a dumped string. */
  lemma LoadsString(a: string)
    ensures Loads(DumpsString(a)) == Decoded(Str(a))
  {
    StringReadsBack(a);
    LoadsReadsBack(DumpsString(a), Str(a));
  }

  // ---------------------------------------------------------------------------
  // Integer literals beyond the digit limit

  lemma {:induction false} DigitRunAll(s: string)
    requires forall i | 0 <= i < |s| :: IsDigit(s[i])
    ensures DigitRun(s) == |s|
  {
    if |s| > 0 {
      assert forall i | 0 <= i < |s[1..]| :: s[1..][i] == s[i + 1];
      DigitRunAll(s[1..]);
    }
  }

  /**
   * A bare integer with more digits than the limit makes `json.loads` raise
   * the conversion error rather than a decode error.
   */
  lemma LongIntegerRejected(s: string)
    requires |s| > MaxIntDigits && s[0] != '0'
    requires forall i | 0 <= i < |s| :: IsDigit(s[i])
    ensures Loads(s) == IntDigitsError
  {
    SkipWsNoSpace(s);
    ValueIsNumber(s);
    NumberTooLong(s);
  }

  /** Text starting with a digit is scanned as a number. */
  lemma ValueIsNumber(s: string)
    requires |s| > 0 && IsDigit(s[0])
    ensures ParseValue(s) == ParseNumber(s)
  {
    assert s[0] != '"' && s[0] != '{' && s[0] != '[';
    NoWordAt(s, "null");
    NoWordAt(s, "true");
    NoWordAt(s, "false");
    NoWordAt(s, "NaN");
    NoWordAt(s, "Infinity");
    NoWordAt(s, "-Infinity");
  }

  lemma NoWordAt(s: string, p: string)
    requires |s| > 0 && |p| > 0 && s[0] != p[0]
    ensures !StartsWith(s, p)
  {
    if |p| <= |s| {
      assert s[..|p|][0] == s[0];
    }
  }

  lemma NumberTooLong(s: string)
    requires |s| > MaxIntDigits && s[0] != '0'
    requires forall i | 0 <= i < |s| :: IsDigit(s[i])
    ensures ParseNumber(s) == IntTooLong
  {
    assert forall i | 0 <= i < |s[1..]| :: s[1..][i] == s[i + 1];
    DigitRunAll(s[1..]);
  }
}
