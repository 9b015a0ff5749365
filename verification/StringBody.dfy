/** JSON string bodies (section 7 of RFC 8259) as Go's encoder writes them with HTML escaping off and as its decoder
    reads them, and what a substitution can leave of an escape. */
module StringBody {
  import opened Options
  import opened Escapes

  // ---- Hexadecimal codes -------------------------------------------------------------------------

  predicate IsHex(c: char) {
    '0' <= c <= '9' || 'a' <= c <= 'f' || 'A' <= c <= 'F'
  }

  predicate AllHex(s: string) {
    forall i | 0 <= i < |s| :: IsHex(s[i])
  }

  function HexValue(c: char): (n: nat)
    requires IsHex(c)
    ensures n < 16
  {
    if c <= '9' then c as int - '0' as int
    else if c <= 'F' then c as int - 'A' as int + 10
    else c as int - 'a' as int + 10
  }

  function HexDigit(n: nat): (c: char)
    requires n < 16
    ensures IsHex(c) && HexValue(c) == n
  {
    if n < 10 then (n + '0' as int) as char else (n - 10 + 'a' as int) as char
  }

  /** The number four hexadecimal digits stand for. */
  function CodeValue(code: string): (n: nat)
    requires |code| == 4 && AllHex(code)
    ensures n < 0x1_0000
  {
    ((HexValue(code[0]) * 16 + HexValue(code[1])) * 16 + HexValue(code[2])) * 16 + HexValue(code[3])
  }

  predicate IsSurrogate(n: int) {
    0xD800 <= n < 0xE000
  }

  // ---- Encoding and decoding -------------------------------------------------------------------

  /** The letter of the two-character escape of c, if it has one. */
  function EscapeLetter(c: char): Option<char> {
    match c
    case '\"' => Some('\"')
    case '\\' => Some('\\')
    case '\n' => Some('n')
    case '\r' => Some('r')
    case '\t' => Some('t')
    case '\U{8}' => Some('b')
    case '\U{C}' => Some('f')
    case _ => None
  }

  /** The character an escape letter stands for. Unlike the encoder, the decoder accepts an escaped
      solidus. */
  function Unescape(letter: char): Option<char> {
    match letter
    case '\"' => Some('\"')
    case '\\' => Some('\\')
    case '/' => Some('/')
    case 'n' => Some('\n')
    case 'r' => Some('\r')
    case 't' => Some('\t')
    case 'b' => Some('\U{8}')
    case 'f' => Some('\U{C}')
    case _ => None
  }

  /** The characters written as a code: the other control characters and the two JavaScript line separators. */
  predicate IsCoded(c: char) {
    EscapeLetter(c).None? && (c < ' ' || c == '\U{2028}' || c == '\U{2029}')
  }

  function Code(c: char): (code: string)
    requires IsCoded(c)
    ensures |code| == 4 && AllHex(code) && CodeValue(code) == c as int
  {
    if c < ' ' then ['0', '0', HexDigit(c as int / 16), HexDigit(c as int % 16)]
    else if c == '\U{2028}' then "2028"
    else "2029"
  }

  predicate IsPlain(c: char) {
    EscapeLetter(c).None? && !IsCoded(c)
  }

  function EncodeChar(c: char): string {
    match EscapeLetter(c)
    case Some(letter) => ['\\', letter]
    case None => if IsCoded(c) then "\\u" + Code(c) else [c]
  }

  /** encodeStringBody */
  function Encode(s: string): string {
    if s == "" then "" else EncodeChar(s[0]) + Encode(s[1..])
  }

  /** A code with four digits at the start of t. */
  predicate HexAt(t: string) {
    |t| >= 4 && AllHex(t[..4])
  }

  function CodeNumber(t: string): nat
    requires HexAt(t)
  {
    CodeValue(t[..4])
  }

  /** Whether body starts with two codes that are one character beyond the basic plane. */
  predicate StartsPair(body: string) {
    && |body| >= 8 && HexAt(body[2..]) && body[6] == '\\' && body[7] == 'u' && HexAt(body[8..])
    && 0xD800 <= CodeNumber(body[2..]) < 0xDC00 <= CodeNumber(body[8..]) < 0xE000
  }

  /** The decoded text of a body that starts with a code, from the decoded text behind the code. A surrogate that is
      not half of a pair becomes the replacement character. */
  function DecodeCode(body: string, rest: string): string
    requires |body| >= 2 && HexAt(body[2..])
  {
    var n := CodeNumber(body[2..]);
    if !IsSurrogate(n) then [n as char] + rest
    else if StartsPair(body) && rest != "" then
      [(0x1_0000 + (n - 0xD800) * 0x400 + (CodeNumber(body[8..]) - 0xDC00)) as char] + rest[1..]
    else ['\U{FFFD}'] + rest
  }

  /** json.Unmarshal of a quoted body; None is a decoding error. */
  function Decode(body: string): Option<string> {
    if body == "" then Some("")
    else if body[0] == '\\' then
      if |body| < 2 then None
      else if body[1] == 'u' then
        if !HexAt(body[2..]) then None
        else match Decode(body[6..])
          case Some(rest) => Some(DecodeCode(body, rest))
          case None => None
      else match (Unescape(body[1]), Decode(body[2..]))
        case (Some(c), Some(rest)) => Some([c] + rest)
        case _ => None
    else if body[0] == '\"' || body[0] < ' ' then None
    else match Decode(body[1..])
      case Some(rest) => Some([body[0]] + rest)
      case None => None
  }

  lemma DecodeFirst(c: char, rest: string)
    requires Decode(rest).Some?
    ensures Decode(EncodeChar(c) + rest) == Some([c] + Decode(rest).value)
  {
    hide Decode, Code, Unescape;
    if IsCoded(c) {
      DecodeCoded(c, rest, "\\u" + Code(c) + rest);
    } else if EscapeLetter(c).Some? {
      LetterStandsFor(c);
      DecodeLetter(EscapeLetter(c).value, rest);
    } else {
      DecodePlain(c, rest);
    }
  }

  lemma LetterStandsFor(c: char)
    requires EscapeLetter(c).Some?
    ensures EscapeLetter(c).value != 'u' && Unescape(EscapeLetter(c).value) == Some(c)
  {
  }

  lemma DecodePlain(c: char, rest: string)
    requires Decode(rest).Some? && c != '\\' && c != '\"' && c >= ' '
    ensures Decode([c] + rest) == Some([c] + Decode(rest).value)
  {
    assert ([c] + rest)[1..] == rest;
  }

  lemma DecodeLetter(letter: char, rest: string)
    requires Decode(rest).Some? && letter != 'u' && Unescape(letter).Some?
    ensures Decode(['\\', letter] + rest) == Some([Unescape(letter).value] + Decode(rest).value)
  {
    hide Unescape;
    assert (['\\', letter] + rest)[2..] == rest;
  }

  lemma DecodeCoded(c: char, rest: string, body: string)
    requires IsCoded(c) && Decode(rest).Some? && body == "\\u" + Code(c) + rest
    ensures Decode(body) == Some([c] + Decode(rest).value)
  {
    hide Code, Unescape, EscapeLetter;
    assert body[2..][..4] == Code(c) && body[6..] == rest;
  }

  lemma {:induction false} DecodeEncode(s: string)
    ensures Decode(Encode(s)) == Some(s)
  {
    if s != "" {
      DecodeEncode(s[1..]);
      DecodeFirst(s[0], Encode(s[1..]));
      assert s == [s[0]] + s[1..];
    }
  }

  // ---- What the encoder writes -----------------------------------------------------------------

  /** The code at the start of t is one the encoder writes. */
  predicate CodeAt(t: string) {
    HexAt(t) && !IsSurrogate(CodeNumber(t)) && var c := CodeNumber(t) as char; IsCoded(c) && Code(c) == t[..4]
  }

  /** A letter of the encoder's two-character escapes. */
  predicate IsLetter(c: char) {
    Unescape(c).Some? && c != '/'
  }

  /** body is what the encoder produces for some string. The digits of a code are read as plain characters. */
  predicate WellEncoded(body: string) {
    if body == "" then true
    else if body[0] == '\\' then
      |body| >= 2 && (if body[1] == 'u' then CodeAt(body[2..]) else IsLetter(body[1])) && WellEncoded(body[2..])
    else IsPlain(body[0]) && WellEncoded(body[1..])
  }

  lemma {:induction false} DigitsArePlain(digits: string, rest: string)
    requires AllHex(digits)
    ensures WellEncoded(digits + rest) <==> WellEncoded(rest)
    ensures Patched(digits + rest) <==> Patched(rest)
  {
    if digits == "" {
      assert digits + rest == rest;
    } else {
      assert (digits + rest)[1..] == digits[1..] + rest;
      DigitsArePlain(digits[1..], rest);
    }
  }

  /** Reading on behind the digits of a code. */
  lemma BehindCode(body: string)
    requires |body| >= 2 && HexAt(body[2..])
    ensures WellEncoded(body[2..]) <==> WellEncoded(body[6..])
    ensures Patched(body[2..]) <==> Patched(body[6..])
  {
    assert body[2..] == body[2..][..4] + body[6..];
    DigitsArePlain(body[2..][..4], body[6..]);
  }

  lemma EncodedFirst(c: char, rest: string)
    requires WellEncoded(rest)
    ensures WellEncoded(EncodeChar(c) + rest)
  {
    var code := EncodeChar(c);
    var body := code + rest;
    assert body[|code|..] == rest;
    if IsCoded(c) {
      assert body[2..][..4] == Code(c);
      BehindCode(body);
    }
  }

  lemma {:induction false} EncodeIsWellEncoded(s: string)
    ensures WellEncoded(Encode(s))
  {
    if s != "" {
      EncodeIsWellEncoded(s[1..]);
      EncodedFirst(s[0], Encode(s[1..]));
    }
  }

  /** The number of characters of the unit a body starts with. */
  function UnitSize(body: string): nat {
    if body == "" then 0 else if body[0] != '\\' then 1 else if |body| >= 2 && body[1] == 'u' then 6 else 2
  }

  lemma LetterUnit(letter: char)
    requires IsLetter(letter)
    ensures EncodeChar(Unescape(letter).value) == ['\\', letter]
  {
  }

  lemma CodeUnit(body: string)
    requires |body| >= 2 && body[0] == '\\' && body[1] == 'u' && CodeAt(body[2..])
    ensures EncodeChar(CodeNumber(body[2..]) as char) == body[..6]
  {
    assert body[..6] == ['\\', 'u'] + body[2..][..4];
  }

  /** The character a unit stands for. */
  function UnitChar(body: string): char
    requires body != "" && WellEncoded(body)
  {
    if body[0] != '\\' then body[0]
    else if body[1] == 'u' then CodeNumber(body[2..]) as char
    else Unescape(body[1]).value
  }

  /** The first unit of a well-encoded body decodes to a character that encodes to it. */
  lemma FirstUnit(body: string, unit: nat)
    requires body != "" && WellEncoded(body) && unit == UnitSize(body) && unit <= |body|
    requires Decode(body[unit..]).Some?
    ensures Decode(body) == Some([UnitChar(body)] + Decode(body[unit..]).value)
    ensures EncodeChar(UnitChar(body)) == body[..unit]
  {
    hide Code, CodeNumber, EncodeChar;
    if unit == 1 {
      PlainUnit(body[0]);
      assert body[..1] == [body[0]];
    } else if unit == 2 {
      LetterUnit(body[1]);
      assert body[..2] == ['\\', body[1]];
    } else {
      CodeUnit(body);
    }
  }

  lemma PlainUnit(c: char)
    requires IsPlain(c)
    ensures EncodeChar(c) == [c]
  {
  }

  lemma EncodeFirst(c: char, rest: string)
    ensures Encode([c] + rest) == EncodeChar(c) + Encode(rest)
  {
    assert ([c] + rest)[1..] == rest;
  }

  lemma {:induction false} EncodeConcat(a: string, b: string)
    ensures Encode(a + b) == Encode(a) + Encode(b)
    decreases |a|
  {
    if a == "" {
      assert a + b == b;
    } else {
      assert (a + b)[1..] == a[1..] + b;
      EncodeConcat(a[1..], b);
    }
  }

  /** The encoder writes no control character, which section 7 of RFC 8259 forbids, and no line separator. */
  lemma {:induction false} EncodedIsPrintable(s: string)
    ensures forall i | 0 <= i < |Encode(s)| :: ' ' <= Encode(s)[i] && Encode(s)[i] !in ['\U{2028}', '\U{2029}']
  {
    if s != "" {
      EncodedIsPrintable(s[1..]);
      var code := EncodeChar(s[0]);
      assert forall i | 0 <= i < |code| :: ' ' <= code[i] && code[i] !in ['\U{2028}', '\U{2029}'];
    }
  }

  /** Plain text is its own encoding. */
  lemma {:induction false} EncodePlain(s: string)
    requires forall i | 0 <= i < |s| :: IsPlain(s[i])
    ensures Encode(s) == s
  {
    if s != "" { EncodePlain(s[1..]); }
  }

  /** On a well-encoded body, encoding undoes decoding: no two such bodies decode alike. */
  lemma {:induction false} EncodeDecode(body: string)
    requires WellEncoded(body)
    ensures Decode(body).Some? && Encode(Decode(body).value) == body
    decreases |body|
  {
    if body != "" {
      var unit := UnitSize(body);
      if unit == 6 { BehindCode(body); }
      EncodeDecode(body[unit..]);
      FirstUnit(body, unit);
      EncodeFirst(UnitChar(body), Decode(body[unit..]).value);
      assert body == body[..unit] + body[unit..];
    }
  }

  lemma {:induction false} WellEncodedConcat(a: string, b: string)
    requires WellEncoded(a) && WellEncoded(b)
    ensures WellEncoded(a + b)
  {
    if a == "" {
      assert a + b == b;
    } else {
      var unit := if a[0] == '\\' then 2 else 1;
      assert (a + b)[unit..] == a[unit..] + b;
      if unit == 2 && a[1] == 'u' { assert (a + b)[2..][..4] == a[2..][..4]; }
      WellEncodedConcat(a[unit..], b);
    }
  }

  // ---- Cutting a body ------------------------------------------------------------------------------

  /** s starts with n characters that leave no escape open: one plain character, two behind a backslash, or a code. */
  predicate UnitHead(s: string, n: nat) {
    && n <= |s|
    && ((n == 1 && s[0] != '\\') || (n == 2 && s[0] == '\\') || (n == 6 && s[0] == '\\' && AllHex(s[2..6])))
  }

  lemma HeadClosed(s: string, n: nat)
    requires UnitHead(s, n)
    ensures !Esc(false, s[..n])
  {
    if n == 2 {
      assert s[..2][1..] == [s[1]];
      assert Esc(true, [s[1]]) == Esc(false, "");
    } else {
      if n == 6 { assert IsHex(s[2..6][3]); }
      EscClosedByOther(false, s[..n]);
    }
  }

  /** Behind a unit of a, the rest of a opens an escape exactly when a does. */
  lemma EscBehindUnit(a: string, n: nat)
    requires UnitHead(a, n)
    ensures Esc(false, a) == Esc(false, a[n..])
  {
    HeadClosed(a, n);
    assert a == a[..n] + a[n..];
    EscConcat(false, a[..n], a[n..]);
  }

  lemma OpenBackslash(a: string)
    requires a == "\\"
    ensures Esc(false, a)
  {
    assert Esc(false, a) == Esc(true, a[1..]);
  }

  /** The text behind a cut where no escape is open is well encoded, although the cut may leave the digits of a
      code. */
  lemma {:induction false} WellEncodedBehind(a: string, b: string)
    requires WellEncoded(a + b) && !Esc(false, a)
    ensures WellEncoded(b)
    decreases |a|
  {
    if a == "" {
      assert a + b == b;
    } else {
      if a == "\\" { OpenBackslash(a); }
      var unit := if a[0] == '\\' then 2 else 1;
      assert (a + b)[unit..] == a[unit..] + b;
      EscBehindUnit(a, unit);
      WellEncodedBehind(a[unit..], b);
    }
  }

  /** a ends with a code that has k of its digits. */
  predicate CodeOpen(a: string, k: nat) {
    && k < 4 && |a| >= k + 2
    && a[|a| - k - 2] == '\\' && a[|a| - k - 1] == 'u' && AllHex(a[|a| - k..]) && !Esc(false, a[..|a| - k - 2])
  }

  predicate MidCode(a: string) {
    CodeOpen(a, 0) || CodeOpen(a, 1) || CodeOpen(a, 2) || CodeOpen(a, 3)
  }

  /** The end of a lies inside an escape. */
  predicate Inside(a: string) {
    Esc(false, a) || MidCode(a)
  }

  lemma CodeOpenBehind(a: string, b: string, k: nat)
    requires !Esc(false, a) && CodeOpen(b, k)
    ensures CodeOpen(a + b, k)
  {
    var s := a + b;
    assert s[|s| - k..] == b[|b| - k..];
    assert s[..|s| - k - 2] == a + b[..|b| - k - 2];
    EscConcat(false, a, b[..|b| - k - 2]);
  }

  /** The end of b lies inside an escape also when b stands behind a text that leaves none open. */
  lemma InsideBehind(a: string, b: string)
    requires !Esc(false, a) && Inside(b)
    ensures Inside(a + b)
  {
    hide CodeOpen;
    EscConcat(false, a, b);
    if CodeOpen(b, 0) { CodeOpenBehind(a, b, 0); }
    if CodeOpen(b, 1) { CodeOpenBehind(a, b, 1); }
    if CodeOpen(b, 2) { CodeOpenBehind(a, b, 2); }
    if CodeOpen(b, 3) { CodeOpenBehind(a, b, 3); }
  }

  lemma CodeOpenBehindBracket(a: string, b: string, k: nat)
    requires a != "" && a[|a| - 1] == ']' && CodeOpen(a + b, k)
    ensures CodeOpen(b, k)
  {
    var s := a + b;
    assert s[|a| - 1] == ']';
    assert forall i | |s| - k <= i < |s| :: s[i] == s[|s| - k..][i - (|s| - k)];
    assert s[|s| - k..] == b[|b| - k..];
    assert s[..|s| - k - 2] == a + b[..|b| - k - 2];
    EscClosedByOther(false, a);
    EscConcat(false, a, b[..|b| - k - 2]);
  }

  /** Nothing in front of a closing bracket reaches into what follows it. */
  lemma InsideBehindBracket(a: string, b: string)
    requires a != "" && a[|a| - 1] == ']'
    ensures Inside(a + b) <==> Inside(b)
  {
    hide CodeOpen;
    EscClosedByOther(false, a);
    EscConcat(false, a, b);
    if Inside(b) { InsideBehind(a, b); }
    if CodeOpen(a + b, 0) { CodeOpenBehindBracket(a, b, 0); }
    if CodeOpen(a + b, 1) { CodeOpenBehindBracket(a, b, 1); }
    if CodeOpen(a + b, 2) { CodeOpenBehindBracket(a, b, 2); }
    if CodeOpen(a + b, 3) { CodeOpenBehindBracket(a, b, 3); }
  }

  /** The text in front of a cut is well encoded when the cut lies outside an escape. */
  lemma {:induction false} WellEncodedFront(a: string, b: string)
    requires WellEncoded(a + b) && !Inside(a)
    ensures WellEncoded(a)
    decreases |a|
  {
    if a != "" {
      hide Inside, MidCode;
      NotOpen(a);
      var unit := if a[0] == '\\' then 2 else 1;
      assert (a + b)[unit..] == a[unit..] + b;
      HeadClosed(a, unit);
      assert a == a[..unit] + a[unit..];
      if Inside(a[unit..]) { InsideBehind(a[..unit], a[unit..]); }
      WellEncodedFront(a[unit..], b);
      if unit == 2 && a[1] == 'u' { WholeCode(a, b); }
    }
  }

  lemma NotOpen(a: string)
    requires a != "" && !Inside(a)
    ensures a[0] == '\\' ==> |a| >= 2
  {
    if a == "\\" { OpenBackslash(a); }
  }

  /** A code that a starts with has all its digits in a. */
  lemma WholeCode(a: string, b: string)
    requires |a| >= 2 && a[0] == '\\' && a[1] == 'u' && CodeAt(a[2..] + b) && !Inside(a)
    ensures CodeAt(a[2..])
  {
    var t := a[2..];
    if |t| < 4 {
      assert forall i | 0 <= i < |t| :: t[i] == (t + b)[..4][i];
      assert a[|a| - |t|..] == t && a[..0] == "";
      assert CodeOpen(a, |t|);
    } else {
      assert (t + b)[..4] == t[..4];
    }
  }

  lemma {:induction false} WellEncodedClosed(body: string)
    requires WellEncoded(body)
    ensures !Esc(false, body)
  {
    if body != "" {
      var unit := if body[0] == '\\' then 2 else 1;
      EscBehindUnit(body, unit);
      WellEncodedClosed(body[unit..]);
    }
  }

  // ---- Codes cut short -----------------------------------------------------------------------------

  /** A bracket stands where a digit of a code belongs. */
  predicate CutShort(t: string) {
    exists k | 0 <= k < 4 && k < |t| :: t[k] == '['
  }

  /** What the encoder writes, except that placeholders may have cut codes short. */
  predicate Patched(body: string) {
    if body == "" then true
    else if body[0] == '\\' then
      && |body| >= 2 && (if body[1] == 'u' then CodeAt(body[2..]) || CutShort(body[2..]) else IsLetter(body[1]))
      && Patched(body[2..])
    else IsPlain(body[0]) && Patched(body[1..])
  }

  lemma {:induction false} WellEncodedIsPatched(body: string)
    requires WellEncoded(body)
    ensures Patched(body)
  {
    if body != "" {
      WellEncodedIsPatched(body[if body[0] == '\\' then 2 else 1..]);
    }
  }

  /** A body with a code cut short does not decode, so one that does is as the encoder writes it. */
  lemma {:induction false} DecodablePatched(body: string)
    requires Patched(body) && Decode(body).Some?
    ensures WellEncoded(body)
    decreases |body|
  {
    if body != "" {
      var unit := UnitSize(body);
      if unit == 6 {
        BehindCode(body);
        assert forall k | 0 <= k < 4 :: body[2..][k] == body[2..][..4][k];
      }
      DecodablePatched(body[unit..]);
    }
  }

  lemma {:induction false} PatchedConcat(a: string, b: string)
    requires Patched(a) && Patched(b)
    ensures Patched(a + b)
  {
    if a == "" {
      assert a + b == b;
    } else {
      var unit := if a[0] == '\\' then 2 else 1;
      assert (a + b)[unit..] == a[unit..] + b;
      if unit == 2 && a[1] == 'u' { CodeExtends(a[2..], b); }
      PatchedConcat(a[unit..], b);
    }
  }

  lemma CodeExtends(t: string, b: string)
    requires CodeAt(t) || CutShort(t)
    ensures CodeAt(t + b) || CutShort(t + b)
  {
    if CodeAt(t) {
      assert (t + b)[..4] == t[..4];
    } else {
      var k :| 0 <= k < 4 && k < |t| && t[k] == '[';
      assert (t + b)[k] == '[';
    }
  }

  lemma {:induction false} PatchedBehind(a: string, b: string)
    requires Patched(a + b) && !Esc(false, a)
    ensures Patched(b)
    decreases |a|
  {
    if a == "" {
      assert a + b == b;
    } else {
      if a == "\\" { OpenBackslash(a); }
      var unit := if a[0] == '\\' then 2 else 1;
      assert (a + b)[unit..] == a[unit..] + b;
      EscBehindUnit(a, unit);
      PatchedBehind(a[unit..], b);
    }
  }

  /** A bracket may stand at any cut where no escape is open: a code it cuts short is then one a placeholder cut. */
  lemma {:induction false} PatchedFront(a: string, b: string, c: string)
    requires Patched(a + b) && !Esc(false, a) && Patched(c) && c != "" && c[0] == '['
    ensures Patched(a + c)
    decreases |a|
  {
    if a == "" {
      assert a + c == c;
    } else {
      if a == "\\" { OpenBackslash(a); }
      var unit := if a[0] == '\\' then 2 else 1;
      assert (a + b)[unit..] == a[unit..] + b && (a + c)[unit..] == a[unit..] + c;
      EscBehindUnit(a, unit);
      PatchedFront(a[unit..], b, c);
      if unit == 2 && a[1] == 'u' { CodeBefore(a[2..], b, c); }
    }
  }

  lemma CodeBefore(t: string, b: string, c: string)
    requires (CodeAt(t + b) || CutShort(t + b)) && c != "" && c[0] == '['
    ensures CodeAt(t + c) || CutShort(t + c)
  {
    if |t| < 4 {
      assert (t + c)[|t|] == '[';
    } else {
      assert (t + c)[..4] == (t + b)[..4];
      if !CodeAt(t + b) {
        var k :| 0 <= k < 4 && k < |t + b| && (t + b)[k] == '[';
        assert (t + c)[k] == '[';
      }
    }
  }

  // ---- Severed escapes ---------------------------------------------------------------------------

  /** A bracket at i stands where an escape is open, so a substitution severed that escape there. */
  predicate SeveredAt(s: string, i: int) {
    0 <= i < |s| && s[i] == '[' && Esc(false, s[..i])
  }

  lemma {:induction false} SeveredIsUndecodable(s: string, i: int)
    requires SeveredAt(s, i)
    ensures Decode(s).None?
    decreases |s|
  {
    assert s[..0] == "";
    if s[0] != '\\' {
      SeveredBehindUnit(s, 1, i);
      SeveredIsUndecodable(s[1..], i - 1);
    } else if |s| >= 2 && s[1] != 'u' {
      if i >= 2 {
        SeveredBehindUnit(s, 2, i);
        SeveredIsUndecodable(s[2..], i - 2);
      }
    } else if |s| >= 6 && AllHex(s[2..6]) {
      assert forall k | 2 <= k < 6 :: s[k] == s[2..6][k - 2];
      if i >= 6 {
        SeveredBehindUnit(s, 6, i);
        SeveredIsUndecodable(s[6..], i - 6);
      }
    }
  }

  /** Behind a whole unit the severed escape is still severed. */
  lemma SeveredBehindUnit(s: string, n: nat, i: int)
    requires SeveredAt(s, i) && UnitHead(s, n) && n <= i
    ensures SeveredAt(s[n..], i - n)
  {
    HeadClosed(s, n);
    assert s[..n] + s[n..] == s;
    SeveredShift(s[..n], s[n..], i - n);
  }

  lemma SeveredPrefix(a: string, b: string, i: int)
    requires SeveredAt(a, i)
    ensures SeveredAt(a + b, i)
  {
    assert (a + b)[..i] == a[..i];
  }

  /** Severing shows through any prefix that leaves no escape open. */
  lemma SeveredShift(a: string, b: string, i: int)
    requires !Esc(false, a) && 0 <= i
    ensures SeveredAt(b, i) <==> SeveredAt(a + b, |a| + i)
  {
    if i < |b| {
      assert (a + b)[..|a| + i] == a + b[..i];
      EscConcat(false, a, b[..i]);
    }
  }
}
