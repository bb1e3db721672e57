/**
 The input encoders (src/backend/input.rs): SGR and X10 mouse reports and kitty
 CSI-u key reports, whose shapes are control sequences of section 5.4 of
 ECMA-48, and the parser that takes a stream of them apart again.
*/
module InputReports {
  import opened Common

  type U16 = n: int | 0 <= n < 65_536

  const ESC: Byte := 0x1b
  const BRACKET: Byte := '[' as int
  const LESS: Byte := '<' as int
  const SEMI: Byte := ';' as int
  const UPPER_M: Byte := 'M' as int
  const LOWER_M: Byte := 'm' as int
  const LOWER_U: Byte := 'u' as int

  datatype Button = Left | Middle | Right

  datatype MouseEvent =
    | Press(button: Button, x: U16, y: U16)
    | Release(button: Button, x: U16, y: U16)
    | Move(x: U16, y: U16)
    | Drag(button: Button, x: U16, y: U16)
    | Scroll(up: bool, x: U16, y: U16)

  datatype KeyCode =
    | Char(c: Scalar) | Enter | Escape | Tab | Backspace
    | ArrowUp | ArrowDown | ArrowLeft | ArrowRight | Home | End | PageUp | PageDown | Insert | Delete
    | Function(n: Byte)

  datatype Modifiers = Modifiers(shift: bool, alt: bool, ctrl: bool, super: bool)

  datatype KeyEvent = KeyEvent(code: KeyCode, mods: Modifiers)

  datatype Report = Mouse(event: MouseEvent) | Key(key: KeyEvent)

  // ----- decimal numbers --------------------------------------------------

  predicate IsDigit(b: Byte) { 48 <= b <= 57 }

  function Decimal(n: nat): seq<Byte> {
    if n < 10 then [48 + n] else Decimal(n / 10) + [48 + n % 10]
  }

  function DigitValue(b: Byte): nat
    requires IsDigit(b)
  {
    b - 48
  }

  function NumberOf(digits: seq<Byte>): nat
    requires forall i :: 0 <= i < |digits| ==> IsDigit(digits[i])
  {
    if digits == [] then 0 else 10 * NumberOf(digits[..|digits| - 1]) + DigitValue(digits[|digits| - 1])
  }

  function DigitSpan(s: seq<Byte>): (n: nat)
    ensures n <= |s| && forall i :: 0 <= i < n ==> IsDigit(s[i])
  {
    if s == [] || !IsDigit(s[0]) then 0 else 1 + DigitSpan(s[1..])
  }

  /** A number and what follows it. */
  function TakeNumber(s: seq<Byte>): (nat, seq<Byte>) {
    (NumberOf(s[..DigitSpan(s)]), s[DigitSpan(s)..])
  }

  lemma {:induction false} DecimalDigits(n: nat)
    ensures |Decimal(n)| > 0
    ensures forall i :: 0 <= i < |Decimal(n)| ==> IsDigit(Decimal(n)[i])
    ensures NumberOf(Decimal(n)) == n
  {
    if n >= 10 {
      DecimalDigits(n / 10);
      assert Decimal(n)[..|Decimal(n)| - 1] == Decimal(n / 10);
    }
  }

  lemma {:induction false} SpanOf(digits: seq<Byte>, rest: seq<Byte>)
    requires forall i :: 0 <= i < |digits| ==> IsDigit(digits[i])
    requires rest == [] || !IsDigit(rest[0])
    ensures DigitSpan(digits + rest) == |digits|
  {
    if digits == [] {
      assert digits + rest == rest;
    } else {
      assert (digits + rest)[1..] == digits[1..] + rest;
      SpanOf(digits[1..], rest);
    }
  }

  lemma NumberRoundTrip(n: nat, rest: seq<Byte>)
    requires rest == [] || !IsDigit(rest[0])
    ensures TakeNumber(Decimal(n) + rest) == (n, rest)
  {
    DecimalDigits(n);
    SpanOf(Decimal(n), rest);
    assert (Decimal(n) + rest)[..|Decimal(n)|] == Decimal(n);
  }

  // ----- mouse reports ----------------------------------------------------

  function ButtonBase(b: Button): Byte {
    match b case Left => 0 case Middle => 1 case Right => 2
  }

  /** Button base before release and motion bits, and the motion flag. */
  function Base(ev: MouseEvent): Byte {
    match ev
    case Press(b, _, _) => ButtonBase(b)
    case Release(b, _, _) => ButtonBase(b)
    case Move(_, _) => 3
    case Drag(b, _, _) => ButtonBase(b)
    case Scroll(up, _, _) => if up then 64 else 65
  }

  predicate Motion(ev: MouseEvent) { ev.Move? || ev.Drag? }

  /** `x + 1` on a 16-bit coordinate. */
  function Wire(n: U16): U16 { (n + 1) % 65_536 }

  /** `base | 0x20`: every moving base is below 0x20. */
  function SgrCode(ev: MouseEvent): Byte { Base(ev) + (if Motion(ev) then 0x20 else 0) }

  function SgrReport(ev: MouseEvent): seq<Byte> {
    [ESC, BRACKET, LESS] + Decimal(SgrCode(ev)) + [SEMI] + Decimal(Wire(ev.x)) + [SEMI] + Decimal(Wire(ev.y))
    + [if ev.Release? then LOWER_M else UPPER_M]
  }

  /** The classic report; coordinates above 222 do not fit a byte. */
  function X10Report(ev: MouseEvent): Option<seq<Byte>> {
    if ev.x > 222 || ev.y > 222 then None
    else Some([ESC, BRACKET, UPPER_M, X10Code(ev), ev.x + 1 + 32, ev.y + 1 + 32])
  }

  function X10Code(ev: MouseEvent): Byte {
    Base(ev) + (if ev.Release? then 3 else 0) + 32 + (if Motion(ev) then 0x20 else 0)
  }

  /** The 1005 branch writes the same bytes as the X10 branch. */
  function Utf8Report(ev: MouseEvent): Option<seq<Byte>> { X10Report(ev) }

  // ----- kitty key reports ------------------------------------------------

  function KittyCode(code: KeyCode): Option<nat> {
    match code
    case Char(c) => Some(c)
    case Escape => Some(27)
    case Enter => Some(13)
    case Tab => Some(9)
    case Backspace => Some(127)
    case ArrowUp => Some(0xE000)
    case ArrowDown => Some(0xE001)
    case ArrowLeft => Some(0xE002)
    case ArrowRight => Some(0xE003)
    case Home => Some(0xE004)
    case End => Some(0xE005)
    case Insert => Some(0xE006)
    case Delete => Some(0xE007)
    case PageUp => Some(0xE008)
    case PageDown => Some(0xE009)
    case Function(n) => if 1 <= n <= 20 then Some(0xE00C + (n - 1)) else None
  }

  function Bit(b: bool): nat { if b then 1 else 0 }

  function ModCode(m: Modifiers): nat { 1 + Bit(m.shift) + 2 * Bit(m.alt) + 4 * Bit(m.ctrl) + 8 * Bit(m.super) }

  function KittyReport(key: KeyEvent): Option<seq<Byte>> {
    var code := KittyCode(key.code);
    if code.None? then None
    else if ModCode(key.mods) == 1 then Some([ESC, BRACKET] + Decimal(code.value) + [LOWER_U])
    else Some([ESC, BRACKET] + Decimal(code.value) + [SEMI] + Decimal(ModCode(key.mods)) + [LOWER_U])
  }

  // ----- taking a stream apart --------------------------------------------

  predicate Encodable(r: Report) { r.Key? ==> KittyReport(r.key).Some? }

  function Encode(r: Report): seq<Byte>
    requires Encodable(r)
  {
    match r case Mouse(ev) => SgrReport(ev) case Key(k) => KittyReport(k).value
  }

  function EncodeAll(rs: seq<Report>): seq<Byte>
    requires forall i :: 0 <= i < |rs| ==> Encodable(rs[i])
  {
    if rs == [] then [] else Encode(rs[0]) + EncodeAll(rs[1..])
  }

  function ButtonOf(n: nat): Option<Button> {
    if n == 0 then Some(Left) else if n == 1 then Some(Middle) else if n == 2 then Some(Right) else None
  }

  function Unwire(n: nat): Option<U16> {
    if n == 0 then Some(65_535) else if n < 65_536 then Some(n - 1) else None
  }

  function MouseOf(code: nat, x: U16, y: U16, final: Byte): Option<MouseEvent> {
    if final == LOWER_M then (if ButtonOf(code).Some? then Some(Release(ButtonOf(code).value, x, y)) else None)
    else if final != UPPER_M then None
    else if code == 35 then Some(Move(x, y))
    else if code == 64 || code == 65 then Some(Scroll(code == 64, x, y))
    else if code >= 32 && ButtonOf(code - 32).Some? then Some(Drag(ButtonOf(code - 32).value, x, y))
    else if ButtonOf(code).Some? then Some(Press(ButtonOf(code).value, x, y))
    else None
  }

  /** The named key with this code, or the character. */
  function KeyOf(code: Scalar): KeyCode {
    if code == 27 then Escape else if code == 13 then Enter else if code == 9 then Tab
    else if code == 127 then Backspace
    else if code == 0xE000 then ArrowUp else if code == 0xE001 then ArrowDown
    else if code == 0xE002 then ArrowLeft else if code == 0xE003 then ArrowRight
    else if code == 0xE004 then Home else if code == 0xE005 then End
    else if code == 0xE006 then Insert else if code == 0xE007 then Delete
    else if code == 0xE008 then PageUp else if code == 0xE009 then PageDown
    else if 0xE00C <= code <= 0xE01F then Function(code - 0xE00C + 1)
    else Char(code)
  }

  function ModsOf(n: nat): Modifiers {
    Modifiers(n % 2 == 1, n / 2 % 2 == 1, n / 4 % 2 == 1, n / 8 % 2 == 1)
  }

  function TakeMouse(s: seq<Byte>): Option<(Report, seq<Byte>)> {
    var (code, s1) := TakeNumber(s);
    if s1 == [] || s1[0] != SEMI then None
    else
      var (x, s2) := TakeNumber(s1[1..]);
      if s2 == [] || s2[0] != SEMI then None
      else
        var (y, s3) := TakeNumber(s2[1..]);
        if s3 == [] || Unwire(x).None? || Unwire(y).None? then None
        else
          var ev := MouseOf(code, Unwire(x).value, Unwire(y).value, s3[0]);
          if ev.None? then None else Some((Mouse(ev.value), s3[1..]))
  }

  function TakeKey(s: seq<Byte>): Option<(Report, seq<Byte>)> {
    var (code, s1) := TakeNumber(s);
    if s1 == [] || code >= 0x11_0000 then None
    else if s1[0] == LOWER_U then Some((Key(KeyEvent(KeyOf(code), ModsOf(0))), s1[1..]))
    else if s1[0] != SEMI then None
    else
      var (mods, s2) := TakeNumber(s1[1..]);
      if s2 == [] || s2[0] != LOWER_U || mods == 0 then None
      else Some((Key(KeyEvent(KeyOf(code), ModsOf(mods - 1))), s2[1..]))
  }

  /** One report off the front of a stream. */
  function TakeReport(s: seq<Byte>): Option<(Report, seq<Byte>)> {
    if |s| < 3 || s[0] != ESC || s[1] != BRACKET then None
    else if s[2] == LESS then TakeMouse(s[3..])
    else TakeKey(s[2..])
  }

  function Parse(s: seq<Byte>): Option<seq<Report>>
    decreases |s|
  {
    if s == [] then Some([])
    else
      var first := TakeReport(s);
      if first.None? || |first.value.1| >= |s| then None
      else
        var rest := Parse(first.value.1);
        if rest.None? then None else Some([first.value.0] + rest.value)
  }

  /** A character that shares a named key's code cannot be told from that key. */
  function Canonical(r: Report): Report {
    if r.Key? && r.key.code.Char? then Key(r.key.(code := KeyOf(r.key.code.c))) else r
  }

  predicate NamedCode(c: Scalar) {
    c == 9 || c == 13 || c == 27 || c == 127 || 0xE000 <= c <= 0xE009 || 0xE00C <= c <= 0xE01F
  }

  lemma MouseCodes(ev: MouseEvent)
    ensures MouseOf(SgrCode(ev), ev.x, ev.y, if ev.Release? then LOWER_M else UPPER_M) == Some(ev)
    ensures Unwire(Wire(ev.x)) == Some(ev.x) && Unwire(Wire(ev.y)) == Some(ev.y)
  {
  }

  lemma TakeMouseFields(code: nat, x: nat, y: nat, final: Byte, rest: seq<Byte>)
    requires final == LOWER_M || final == UPPER_M
    requires Unwire(x).Some? && Unwire(y).Some? && MouseOf(code, Unwire(x).value, Unwire(y).value, final).Some?
    ensures TakeMouse(Decimal(code) + ([SEMI] + (Decimal(x) + ([SEMI] + (Decimal(y) + ([final] + rest))))))
         == Some((Mouse(MouseOf(code, Unwire(x).value, Unwire(y).value, final).value), rest))
  {
    hide Decimal, TakeNumber, MouseOf, Unwire;
    var t3 := [final] + rest;
    var t2 := [SEMI] + (Decimal(y) + t3);
    var t1 := [SEMI] + (Decimal(x) + t2);
    NumberRoundTrip(code, t1);
    assert t1[1..] == Decimal(x) + t2;
    NumberRoundTrip(x, t2);
    assert t2[1..] == Decimal(y) + t3;
    NumberRoundTrip(y, t3);
    assert t3[1..] == rest;
  }

  lemma MouseRoundTrip(ev: MouseEvent, rest: seq<Byte>)
    ensures TakeReport(SgrReport(ev) + rest) == Some((Mouse(ev), rest))
  {
    hide Decimal, TakeMouse, MouseOf, Wire, Unwire, SgrCode;
    var final: Byte := if ev.Release? then LOWER_M else UPPER_M;
    MouseCodes(ev);
    TakeMouseFields(SgrCode(ev), Wire(ev.x), Wire(ev.y), final, rest);
    var t2 := [SEMI] + (Decimal(Wire(ev.y)) + ([final] + rest));
    var body := Decimal(SgrCode(ev)) + ([SEMI] + (Decimal(Wire(ev.x)) + t2));
    var s := SgrReport(ev) + rest;
    assert s == [ESC, BRACKET, LESS] + body;
    assert s[3..] == body;
  }

  lemma ModsRoundTrip(m: Modifiers)
    ensures ModsOf(ModCode(m) - 1) == m && (ModCode(m) == 1 ==> ModsOf(0) == m)
  {
  }

  lemma KeyCodes(code: KeyCode)
    requires KittyCode(code).Some?
    ensures KittyCode(code).value < 0x11_0000
    ensures KeyOf(KittyCode(code).value) == if code.Char? then KeyOf(code.c) else code
  {
  }

  /** The first digit tells a key report from a mouse report. */
  lemma {:induction false} DecimalStart(n: nat)
    ensures |Decimal(n)| > 0 && IsDigit(Decimal(n)[0])
  {
    if n >= 10 { DecimalStart(n / 10); }
  }

  lemma TakePlainKey(code: nat, rest: seq<Byte>)
    requires code < 0x11_0000
    ensures TakeKey(Decimal(code) + ([LOWER_U] + rest)) == Some((Key(KeyEvent(KeyOf(code), ModsOf(0))), rest))
  {
    hide Decimal, TakeNumber, KeyOf, ModsOf;
    var t := [LOWER_U] + rest;
    NumberRoundTrip(code, t);
    assert t[1..] == rest;
  }

  lemma TakeModifiedKey(code: nat, mods: nat, rest: seq<Byte>)
    requires code < 0x11_0000 && mods > 0
    ensures TakeKey(Decimal(code) + ([SEMI] + (Decimal(mods) + ([LOWER_U] + rest))))
         == Some((Key(KeyEvent(KeyOf(code), ModsOf(mods - 1))), rest))
  {
    hide Decimal, TakeNumber, KeyOf, ModsOf;
    var t2 := [LOWER_U] + rest;
    var t1 := [SEMI] + (Decimal(mods) + t2);
    NumberRoundTrip(code, t1);
    assert t1[1..] == Decimal(mods) + t2;
    NumberRoundTrip(mods, t2);
    assert t2[1..] == rest;
  }

  /** What follows the introducer of a key report. */
  function KeyBody(code: nat, mods: nat, rest: seq<Byte>): seq<Byte> {
    Decimal(code) + (if mods == 1 then [LOWER_U] + rest else [SEMI] + (Decimal(mods) + ([LOWER_U] + rest)))
  }

  lemma KeyReportShape(key: KeyEvent, rest: seq<Byte>)
    requires KittyReport(key).Some?
    ensures KittyReport(key).value + rest
         == [ESC, BRACKET] + KeyBody(KittyCode(key.code).value, ModCode(key.mods), rest)
  {
  }

  lemma TakeReportOfKey(body: seq<Byte>)
    requires body != [] && IsDigit(body[0])
    ensures TakeReport([ESC, BRACKET] + body) == TakeKey(body)
  {
  }

  lemma KeyRoundTrip(key: KeyEvent, rest: seq<Byte>)
    requires KittyReport(key).Some?
    ensures TakeReport(KittyReport(key).value + rest) == Some((Canonical(Key(key)), rest))
  {
    var code, mods := KittyCode(key.code).value, ModCode(key.mods);
    KeyCodes(key.code);
    ModsRoundTrip(key.mods);
    KeyReportShape(key, rest);
    hide Decimal, TakeKey, TakeReport, KittyCode, KittyReport, ModCode, ModsOf, KeyOf;
    DecimalStart(code);
    TakePlainKey(code, rest);
    TakeModifiedKey(code, mods, rest);
    TakeReportOfKey(KeyBody(code, mods, rest));
  }

  function CanonicalAll(rs: seq<Report>): seq<Report> {
    if rs == [] then [] else [Canonical(rs[0])] + CanonicalAll(rs[1..])
  }

  /**
   Any stream of encodable mouse and key reports parses back to itself, except
   that a character with a named key's code comes back as that key.
  */
  lemma {:induction false} StreamRoundTrip(rs: seq<Report>)
    requires forall i :: 0 <= i < |rs| ==> Encodable(rs[i])
    ensures Parse(EncodeAll(rs)) == Some(CanonicalAll(rs))
  {
    if rs != [] {
      hide TakeReport, SgrReport, KittyReport, Canonical;
      StreamRoundTrip(rs[1..]);
      ReportRoundTrip(rs[0], EncodeAll(rs[1..]));
    }
  }

  lemma ReportRoundTrip(r: Report, rest: seq<Byte>)
    requires Encodable(r)
    ensures |Encode(r)| > 0 && TakeReport(Encode(r) + rest) == Some((Canonical(r), rest))
  {
    hide TakeReport, KeyOf;
    match r
    case Mouse(ev) => MouseRoundTrip(ev, rest);
    case Key(k) => KeyRoundTrip(k, rest);
  }

  /** Exactly the characters with a named key's code are ambiguous. */
  lemma AmbiguousKeys(r: Report)
    ensures Canonical(r) == r <==> !(r.Key? && r.key.code.Char? && NamedCode(r.key.code.c))
  {
  }

  /** Two reports have the same bytes exactly when they differ by such a character only. */
  lemma SameBytes(a: Report, b: Report)
    requires Encodable(a) && Encodable(b)
    ensures Encode(a) == Encode(b) <==> Canonical(a) == Canonical(b)
  {
    ReportRoundTrip(a, []);
    ReportRoundTrip(b, []);
    hide TakeReport;
    if Canonical(a) == Canonical(b) && a != b { CanonicalBytes(a); CanonicalBytes(b); }
  }

  lemma CanonicalBytes(a: Report)
    requires Encodable(a)
    ensures Encodable(Canonical(a)) && Encode(Canonical(a)) == Encode(a)
  {
    hide Decimal, ModCode, SgrReport;
  }

  // ----- classic reports --------------------------------------------------

  function X10All(evs: seq<MouseEvent>): seq<Byte>
    requires forall i :: 0 <= i < |evs| ==> X10Report(evs[i]).Some?
  {
    if evs == [] then [] else X10Report(evs[0]).value + X10All(evs[1..])
  }

  function X10MouseOf(code: Byte, x: U16, y: U16): Option<MouseEvent> {
    if 32 <= code <= 34 then Some(Press(ButtonOf(code - 32).value, x, y))
    else if 35 <= code <= 37 then Some(Release(ButtonOf(code - 35).value, x, y))
    else if code == 67 then Some(Move(x, y))
    else if 64 <= code <= 66 then Some(Drag(ButtonOf(code - 64).value, x, y))
    else if code == 96 || code == 97 then Some(Scroll(code == 96, x, y))
    else None
  }

  function ParseX10(s: seq<Byte>): Option<seq<MouseEvent>> {
    if s == [] then Some([])
    else if |s| < 6 || s[..3] != [ESC, BRACKET, UPPER_M] || s[4] < 33 || s[5] < 33 then None
    else
      var first, rest := X10MouseOf(s[3], s[4] - 33, s[5] - 33), ParseX10(s[6..]);
      if first.None? || rest.None? then None else Some([first.value] + rest.value)
  }

  lemma X10Codes(ev: MouseEvent)
    ensures X10MouseOf(X10Code(ev), ev.x, ev.y) == Some(ev)
  {
  }

  lemma X10First(ev: MouseEvent, rest: seq<Byte>)
    requires ev.x <= 222 && ev.y <= 222 && ParseX10(rest).Some?
    ensures ParseX10(X10Report(ev).value + rest) == Some([ev] + ParseX10(rest).value)
  {
    X10Codes(ev);
    hide X10Code, X10MouseOf;
    var s := X10Report(ev).value + rest;
    assert s[..3] == [ESC, BRACKET, UPPER_M] && s[6..] == rest;
  }

  /** Six bytes a report, every one below 256, and each event comes back. */
  lemma {:induction false} X10RoundTrip(evs: seq<MouseEvent>)
    requires forall i :: 0 <= i < |evs| ==> evs[i].x <= 222 && evs[i].y <= 222
    ensures forall i :: 0 <= i < |evs| ==> X10Report(evs[i]).Some?
    ensures |X10All(evs)| == 6 * |evs| && ParseX10(X10All(evs)) == Some(evs)
  {
    if evs != [] {
      X10RoundTrip(evs[1..]);
      X10First(evs[0], X10All(evs[1..]));
      hide X10Code, ParseX10;
      assert evs == [evs[0]] + evs[1..];
    }
  }

  /**
   The 1005 encoding is documented as UTF-8 code points; the bytes written are
   those exactly while both coordinates stay below 95.
  */
  lemma Utf8ReportIsUtf8(ev: MouseEvent)
    requires ev.x <= 222 && ev.y <= 222
    ensures Utf8Report(ev).value
            == [ESC, BRACKET, UPPER_M] + Utf8Bytes(X10Code(ev)) + Utf8Bytes(ev.x + 33) + Utf8Bytes(ev.y + 33)
            <==> ev.x < 95 && ev.y < 95
  {
  }
}
