/**
 Sending input (src/backend/input.rs, `dispatch` of src/backend/portable_pty.rs):
 the mode-aware key encoding, which inputs are refused before any byte is
 written, and what a written payload says to the application.
*/
module InputDispatch {
  import opened Common
  import opened InputReports
  import Utf8

  datatype MouseMode = NoMouse | PressOnly | PressRelease | ButtonMotion | AnyMotion

  datatype MouseEncoding = Classic | Utf8 | Sgr

  datatype Modes = Modes(
    appCursor: bool, bracketedPaste: bool, mouse: MouseMode, encoding: MouseEncoding, kittyFlags: Byte)

  // ----- keys -------------------------------------------------------------

  predicate IsLower(c: Scalar) { 97 <= c <= 122 }

  predicate IsUpper(c: Scalar) { 65 <= c <= 90 }

  /** The control byte of Ctrl with this character. */
  function ControlByte(c: Scalar): Option<Byte> {
    if IsLower(c) then Some(c - 96)
    else if IsUpper(c) then Some(c - 64)
    else if c == 32 || c == 64 || c == 50 then Some(0)
    else if c == 91 || c == 123 then Some(0x1b)
    else if c == 93 || c == 125 then Some(0x1d)
    else if c == 92 then Some(0x1c)
    else if c == 94 then Some(0x1e)
    else if c == 95 then Some(0x1f)
    else None
  }

  const ONE: Byte := 49
  const TILDE: Byte := 126
  const SS3: Byte := 79

  /** The final letter of an arrow, Home or End key. */
  function Letter(code: KeyCode): Option<Byte> {
    match code
    case ArrowUp => Some(65)
    case ArrowDown => Some(66)
    case ArrowRight => Some(67)
    case ArrowLeft => Some(68)
    case Home => Some(72)
    case End => Some(70)
    case _ => None
  }

  /** The digit of a paging or editing key. */
  function Digit(code: KeyCode): Option<Byte> {
    match code
    case PageUp => Some(53)
    case PageDown => Some(54)
    case Insert => Some(50)
    case Delete => Some(51)
    case _ => None
  }

  predicate IsNavigation(code: KeyCode) { Letter(code).Some? || Digit(code).Some? }

  predicate Modified(m: Modifiers) { m.shift || m.alt || m.ctrl }

  function XtermMods(m: Modifiers): Byte { 1 + Bit(m.shift) + 2 * Bit(m.alt) + 4 * Bit(m.ctrl) }

  function FunctionBytes(n: Byte): Option<seq<Byte>> {
    if 1 <= n <= 4 then Some([ESC, SS3, 79 + n])
    else if n == 5 then Some([ESC, BRACKET, 49, 53, TILDE])
    else if 6 <= n <= 8 then Some([ESC, BRACKET, 49, 49 + n, TILDE])
    else if n == 9 || n == 10 then Some([ESC, BRACKET, 50, 39 + n, TILDE])
    else if n == 11 || n == 12 then Some([ESC, BRACKET, 50, 40 + n, TILDE])
    else None
  }

  /** The unmodified form. */
  function PlainBytes(code: KeyCode, mods: Modifiers, appCursor: bool): Option<seq<Byte>> {
    if Letter(code).Some? then Some([ESC, if appCursor then SS3 else BRACKET, Letter(code).value])
    else if Digit(code).Some? then Some([ESC, BRACKET, Digit(code).value, TILDE])
    else
      match code
      case Char(c) => Some(if mods.shift && IsLower(c) then [c - 32] else Utf8Bytes(c))
      case Enter => Some([13])
      case Tab => Some(if mods.shift then [ESC, BRACKET, 90] else [9])
      case Backspace => Some([127])
      case Escape => Some([ESC])
      case Function(n) => FunctionBytes(n)
  }

  /** The encodings that do without the kitty protocol. */
  function LegacyBytes(key: KeyEvent, appCursor: bool): Option<seq<Byte>> {
    var m := key.mods;
    if m.super then None
    else if m.ctrl && key.code.Char? && ControlByte(key.code.c).Some? then Some([ControlByte(key.code.c).value])
    else if Modified(m) && Letter(key.code).Some? then
      Some([ESC, BRACKET, ONE, SEMI, 48 + XtermMods(m), Letter(key.code).value])
    else if Modified(m) && Digit(key.code).Some? then
      Some([ESC, BRACKET, Digit(key.code).value, SEMI, 48 + XtermMods(m), TILDE])
    else
      var base := PlainBytes(key.code, m, appCursor);
      if base.None? then None else Some((if m.alt then [ESC] else []) + base.value)
  }

  /** `encode_key`. */
  function KeyBytes(modes: Modes, key: KeyEvent): Option<seq<Byte>> {
    if modes.kittyFlags > 0 && KittyReport(key).Some? then KittyReport(key)
    else LegacyBytes(key, modes.appCursor)
  }

  /** Which keys are refused: what a caller can know before it sends one. */
  lemma RefusedKeys(modes: Modes, key: KeyEvent)
    ensures KeyBytes(modes, key).Some?
            <==> if modes.kittyFlags > 0 then key.code.Function? ==> 1 <= key.code.n <= 20
                 else !key.mods.super && (key.code.Function? ==> 1 <= key.code.n <= 12)
  {
  }

  /** What a reader of the legacy encodings takes a navigation sequence for. */
  function LetterKey(b: Byte): Option<KeyCode> {
    if b == 65 then Some(ArrowUp) else if b == 66 then Some(ArrowDown) else if b == 67 then Some(ArrowRight)
    else if b == 68 then Some(ArrowLeft) else if b == 72 then Some(Home) else if b == 70 then Some(End) else None
  }

  function DigitKey(b: Byte): Option<KeyCode> {
    if b == 53 then Some(PageUp) else if b == 54 then Some(PageDown)
    else if b == 50 then Some(Insert) else if b == 51 then Some(Delete) else None
  }

  function XtermModsOf(b: Byte): Modifiers {
    var n := if b >= 49 then b - 49 else 0;
    Modifiers(n % 2 == 1, n / 2 % 2 == 1, n / 4 % 2 == 1, false)
  }

  /** Unmodified arrows follow the cursor mode, everything else is a control sequence. */
  function NavigationOf(s: seq<Byte>, appCursor: bool): Option<KeyEvent> {
    var code :=
      if |s| == 3 && s[..2] == [0x1b, if appCursor then 0x4f else 0x5b] then LetterKey(s[2])
      else if |s| == 4 && s[..2] == [0x1b, 0x5b] && s[3] == 0x7e then DigitKey(s[2])
      else if |s| == 6 && s[..2] == [0x1b, 0x5b] && s[3] == 0x3b then
        (if s[5] == 0x7e then DigitKey(s[2]) else if s[2] == 0x31 then LetterKey(s[5]) else None)
      else None;
    if code.None? then None else Some(KeyEvent(code.value, XtermModsOf(if |s| == 6 then s[4] else 49)))
  }

  lemma XtermModsRoundTrip(m: Modifiers)
    requires !m.super
    ensures XtermModsOf(48 + XtermMods(m)) == m && (!Modified(m) ==> XtermModsOf(49) == m)
  {
  }

  /** Navigation keys keep their modifiers on the wire: each can be read back, so no two share their bytes. */
  lemma NavigationRoundTrip(key: KeyEvent, appCursor: bool)
    requires IsNavigation(key.code) && !key.mods.super
    ensures LegacyBytes(key, appCursor).Some?
    ensures NavigationOf(LegacyBytes(key, appCursor).value, appCursor) == Some(key)
  {
    XtermModsRoundTrip(key.mods);
    hide XtermModsOf, XtermMods;
    var bytes := LegacyBytes(key, appCursor).value;
    if Letter(key.code).Some? { assert LetterKey(Letter(key.code).value) == Some(key.code); }
    else { assert DigitKey(Digit(key.code).value) == Some(key.code); }
    if Modified(key.mods) {
      assert bytes[..2] == [ESC, BRACKET];
    } else {
      assert !key.mods.alt && [] + bytes == bytes;
      assert bytes[..2] == [ESC, if Letter(key.code).Some? && appCursor then SS3 else BRACKET];
    }
  }

  /** Ctrl keeps a character's low five bits; `2` stands for `@`. */
  lemma ControlByteMeans(c: Scalar)
    ensures ControlByte(c)
         == if c == 50 then Some(0)
            else if c == 32 || 64 <= c <= 95 || 97 <= c <= 123 || c == 125 then Some(c % 32)
            else None
  {
    assert 97 <= c <= 122 ==> c % 32 == c - 96;
    assert 64 <= c <= 95 ==> c % 32 == c - 64;
  }

  /** What a VT220 reader takes the bytes of an editing or function key for, and whether Shift is told. */
  function NamedKeyOf(s: seq<Byte>): Option<(KeyCode, bool)> {
    if s == [0x0d] then Some((Enter, false))
    else if s == [0x09] then Some((Tab, false))
    else if s == [0x1b, 0x5b, 0x5a] then Some((Tab, true))
    else if s == [0x7f] then Some((Backspace, false))
    else if s == [0x1b] then Some((Escape, false))
    else if |s| == 3 && s[..2] == [0x1b, 0x4f] && 0x50 <= s[2] <= 0x53 then Some((Function(s[2] - 0x4f), false))
    else if |s| == 5 && s[..2] == [0x1b, 0x5b] && 0x30 <= s[2] <= 0x39 && 0x30 <= s[3] <= 0x39 && s[4] == 0x7e then
      var tens: int, ones: int := s[2], s[3];
      var n: int := 10 * tens + ones - 528;
      if n == 15 then Some((Function(5), false))
      else if 17 <= n <= 21 then Some((Function(n - 11), false))
      else if 23 <= n <= 24 then Some((Function(n - 12), false))
      else None
    else None
  }

  predicate IsNamed(code: KeyCode) { !IsNavigation(code) && !code.Char? }

  /** Enter, Tab, Backspace, Escape and the function keys arrive as themselves, Tab with its Shift. */
  lemma NamedKeysReadBack(key: KeyEvent, appCursor: bool)
    requires IsNamed(key.code) && !key.mods.alt
    ensures LegacyBytes(key, appCursor).Some? ==>
              NamedKeyOf(LegacyBytes(key, appCursor).value) == Some((key.code, key.code == Tab && key.mods.shift))
  {
    var bytes := LegacyBytes(key, appCursor);
    if bytes.Some? {
      var base := PlainBytes(key.code, key.mods, appCursor).value;
      assert bytes.value == [] + base == base;
      match key.code
      case Function(n) =>
        FunctionReadsBack(n);
      case _ =>
    }
  }

  lemma FunctionReadsBack(n: Byte)
    ensures FunctionBytes(n).Some? ==> NamedKeyOf(FunctionBytes(n).value) == Some((Function(n), false))
  {
    var bytes := FunctionBytes(n);
    if 1 <= n <= 4 { assert bytes.value[..2] == [ESC, SS3]; }
    else if bytes.Some? { assert bytes.value[..2] == [ESC, BRACKET]; }
  }

  /**
   Alt is documented as an escape before the key. An encodable key gets it exactly
   when Ctrl does not turn it into a control byte and it is no navigation key,
   whose sequence carries the modifier instead.
  */
  lemma AltPrefix(code: KeyCode, mods: Modifiers, appCursor: bool)
    requires LegacyBytes(KeyEvent(code, mods), appCursor).Some?
    ensures var plain := LegacyBytes(KeyEvent(code, mods.(alt := false)), appCursor);
            var alt := LegacyBytes(KeyEvent(code, mods.(alt := true)), appCursor);
            && plain.Some? && alt.Some?
            && (alt.value == [ESC] + plain.value
                <==> !IsNavigation(code) && !(mods.ctrl && code.Char? && ControlByte(code.c).Some?))
  {
    hide Utf8Bytes, ControlByte, FunctionBytes, PlainBytes;
    PlainIgnoresAlt(code, mods, appCursor);
    if IsNavigation(code) {
      AltOnNavigation(code, mods, appCursor);
    } else if !(mods.ctrl && code.Char? && ControlByte(code.c).Some?) {
      var base := PlainBytes(code, mods, appCursor).value;
      assert [] + base == base;
    } else {
      assert |[ESC] + [ControlByte(code.c).value]| == 2;
    }
  }

  lemma PlainIgnoresAlt(code: KeyCode, mods: Modifiers, appCursor: bool)
    ensures PlainBytes(code, mods.(alt := false), appCursor) == PlainBytes(code, mods, appCursor)
    ensures PlainBytes(code, mods.(alt := true), appCursor) == PlainBytes(code, mods, appCursor)
  {
  }

  lemma AltOnNavigation(code: KeyCode, mods: Modifiers, appCursor: bool)
    requires IsNavigation(code) && !mods.super
    ensures var plain := LegacyBytes(KeyEvent(code, mods.(alt := false)), appCursor);
            var alt := LegacyBytes(KeyEvent(code, mods.(alt := true)), appCursor);
            plain.Some? && alt.Some? && alt.value != [ESC] + plain.value
  {
    var plain := LegacyBytes(KeyEvent(code, mods.(alt := false)), appCursor).value;
    var alt := LegacyBytes(KeyEvent(code, mods.(alt := true)), appCursor).value;
    assert alt[1] == BRACKET && ([ESC] + plain)[1] == ESC;
  }

  // ----- payloads ---------------------------------------------------------

  datatype Input =
    | Key(key: KeyEvent)
    | Keys(keys: seq<KeyEvent>)
    | Text(text: seq<Byte>)
    | Paste(paste: seq<Byte>)
    | Raw(bytes: seq<Byte>)
    | MouseClick(button: Button, x: U16, y: U16)
    | Mouse(event: MouseEvent)

  /** `encode_mouse_event`. */
  function MouseBytes(ev: MouseEvent, encoding: MouseEncoding): Option<seq<Byte>> {
    match encoding
    case Sgr => Some(SgrReport(ev))
    case Classic => X10Report(ev)
    case Utf8 => Utf8Report(ev)
  }

  predicate Reportable(mode: MouseMode, ev: MouseEvent) {
    match mode
    case NoMouse => false
    case PressOnly => ev.Press? || ev.Scroll?
    case PressRelease => ev.Press? || ev.Release? || ev.Scroll?
    case ButtonMotion => !ev.Move?
    case AnyMotion => true
  }

  /** Every mode reports presses and scrolls; releases, drags and moves each take a wider one. */
  lemma ModesWiden(mode: MouseMode, ev: MouseEvent)
    ensures Reportable(mode, ev)
            <==> if ev.Press? || ev.Scroll? then mode != NoMouse
                 else if ev.Release? then mode != NoMouse && mode != PressOnly
                 else if ev.Drag? then mode == ButtonMotion || mode == AnyMotion
                 else mode == AnyMotion
  {
  }

  /** The bytes of all the keys, if every one has an encoding. */
  function KeysBytes(modes: Modes, keys: seq<KeyEvent>): Option<seq<Byte>> {
    if keys == [] then Some([])
    else
      var init, last := KeysBytes(modes, keys[..|keys| - 1]), KeyBytes(modes, keys[|keys| - 1]);
      if init.None? || last.None? then None else Some(init.value + last.value)
  }

  const PASTE_START: seq<Byte> := [ESC, BRACKET, 50, 48, 48, TILDE]
  const PASTE_END: seq<Byte> := [ESC, BRACKET, 50, 48, 49, TILDE]

  /** What an input puts on the wire, or nothing when it is refused. */
  function Payload(modes: Modes, input: Input): Option<seq<Byte>> {
    match input
    case Key(k) => KeyBytes(modes, k)
    case Keys(ks) => KeysBytes(modes, ks)
    case Text(t) => Some(t)
    case Paste(p) => Some(if modes.bracketedPaste then PASTE_START + p + PASTE_END else p)
    case Raw(b) => Some(b)
    case MouseClick(button, x, y) =>
      if modes.mouse.NoMouse? || modes.mouse.PressOnly? then None
      else
        var press := MouseBytes(Press(button, x, y), modes.encoding);
        var release := MouseBytes(Release(button, x, y), modes.encoding);
        if press.None? || release.None? then None else Some(press.value + release.value)
    case Mouse(ev) => if Reportable(modes.mouse, ev) then MouseBytes(ev, modes.encoding) else None
  }

  /** One refused key refuses them all. */
  lemma {:induction false} KeysAllOrNothing(modes: Modes, keys: seq<KeyEvent>)
    ensures KeysBytes(modes, keys).Some? <==> forall i :: 0 <= i < |keys| ==> KeyBytes(modes, keys[i]).Some?
  {
    if keys != [] {
      hide KeyBytes;
      KeysAllOrNothing(modes, keys[..|keys| - 1]);
    }
  }

  lemma {:induction false} RefusedKeyRefusesAll(modes: Modes, keys: seq<KeyEvent>, i: nat)
    requires i < |keys| && KeyBytes(modes, keys[i]).None?
    ensures KeysBytes(modes, keys).None?
  {
    KeysAllOrNothing(modes, keys);
  }

  function ReportsOf(keys: seq<KeyEvent>): seq<Report> {
    seq(|keys|, i requires 0 <= i < |keys| => Report.Key(keys[i]))
  }

  lemma KittyKeysEncodable(modes: Modes, keys: seq<KeyEvent>)
    requires modes.kittyFlags > 0 && KeysBytes(modes, keys).Some?
    ensures forall i :: 0 <= i < |keys| ==>
              KittyReport(keys[i]).Some? && KeyBytes(modes, keys[i]) == KittyReport(keys[i])
  {
    KeysAllOrNothing(modes, keys);
    hide KeysBytes;
    forall i | 0 <= i < |keys|
      ensures KittyReport(keys[i]).Some?
    {
      RefusedKeys(modes, keys[i]);
    }
  }

  predicate AllKitty(keys: seq<KeyEvent>) { forall i :: 0 <= i < |keys| ==> KittyReport(keys[i]).Some? }

  function KittyBytes(keys: seq<KeyEvent>): seq<Byte>
    requires AllKitty(keys)
  {
    EncodeAll(ReportsOf(keys))
  }

  lemma KittyBytesSnoc(init: seq<KeyEvent>, last: KeyEvent)
    requires AllKitty(init) && KittyReport(last).Some?
    ensures KittyBytes(init + [last]) == KittyBytes(init) + KittyReport(last).value
  {
    hide KittyReport, EncodeAll;
    assert ReportsOf(init + [last]) == ReportsOf(init) + [Report.Key(last)];
    EncodeAllSnoc(ReportsOf(init), Report.Key(last));
  }

  lemma {:induction false} KittyKeysBytes(modes: Modes, keys: seq<KeyEvent>)
    requires modes.kittyFlags > 0 && KeysBytes(modes, keys).Some?
    ensures AllKitty(keys) && KeysBytes(modes, keys).value == KittyBytes(keys)
  {
    KittyKeysEncodable(modes, keys);
    if keys == [] {
      NoReports();
    } else {
      hide KittyReport, KeyBytes, KittyBytes;
      var init, last := keys[..|keys| - 1], keys[|keys| - 1];
      KittyKeysBytes(modes, init);
      KittyBytesSnoc(init, last);
      assert keys == init + [last];
    }
  }

  lemma NoReports()
    ensures EncodeAll([]) == []
  {
  }

  lemma {:induction false} EncodeAllSnoc(rs: seq<Report>, r: Report)
    requires Encodable(r) && forall i :: 0 <= i < |rs| ==> Encodable(rs[i])
    ensures EncodeAll(rs + [r]) == EncodeAll(rs) + Encode(r)
  {
    hide Encode, Encodable;
    if rs == [] {
      assert [] + [r] == [r] && [r][1..] == [];
      assert Encode(r) + [] == [] + Encode(r);
    } else {
      EncodeAllSnoc(rs[1..], r);
      assert (rs + [r])[0] == rs[0] && (rs + [r])[1..] == rs[1..] + [r];
      assert Encode(rs[0]) + (EncodeAll(rs[1..]) + Encode(r)) == Encode(rs[0]) + EncodeAll(rs[1..]) + Encode(r);
    }
  }

  /** With kitty flags pushed, the application reads back the keys that were sent, in their canonical form. */
  lemma KeysReadBack(modes: Modes, keys: seq<KeyEvent>)
    requires modes.kittyFlags > 0 && Payload(modes, Keys(keys)).Some?
    ensures Parse(Payload(modes, Keys(keys)).value) == Some(CanonicalAll(ReportsOf(keys)))
  {
    KittyKeysBytes(modes, keys);
    hide KittyReport, KeysBytes, Parse, CanonicalAll, EncodeAll;
    StreamRoundTrip(ReportsOf(keys));
  }

  /** The keys that type a text, with Shift held or not. */
  function Typed(text: seq<Scalar>, shift: bool): seq<KeyEvent> {
    seq(|text|, i requires 0 <= i < |text| => KeyEvent(Char(text[i]), Modifiers(shift, false, false, false)))
  }

  /** The text with the letters a to z in upper case. */
  function Raised(text: seq<Scalar>): seq<Scalar> {
    seq(|text|, i requires 0 <= i < |text| => if 0x61 <= text[i] <= 0x7a then text[i] - 0x20 else text[i])
  }

  lemma TypedCharacter(modes: Modes, c: Scalar, shift: bool)
    requires modes.kittyFlags == 0
    ensures var sent := if shift then Raised([c]) else [c];
            KeyBytes(modes, KeyEvent(Char(c), Modifiers(shift, false, false, false))) == Some(Utf8.Bytes(sent))
  {
    var sent := if shift then Raised([c])[0] else c;
    assert Raised([c]) == [Raised([c])[0]];
    assert [sent][1..] == [] && [] + Utf8Bytes(sent) == Utf8Bytes(sent) == Utf8Bytes(sent) + [];
  }

  /**
   Without kitty flags, typing a text key by key puts the bytes on the wire that
   sending it at once does; with Shift held, those of its upper case.
  */
  lemma {:induction false} TypingIsText(modes: Modes, text: seq<Scalar>, shift: bool)
    requires modes.kittyFlags == 0
    ensures var sent := if shift then Raised(text) else text;
            Payload(modes, Keys(Typed(text, shift))) == Payload(modes, Text(Utf8.Bytes(sent))) == Some(Utf8.Bytes(sent))
  {
    hide Utf8Bytes, KeyBytes;
    if text != [] {
      var init, last := text[..|text| - 1], text[|text| - 1];
      TypingIsText(modes, init, shift);
      TypedCharacter(modes, last, shift);
      assert text == init + [last];
      assert Raised(text) == Raised(init) + Raised([last]);
      Utf8.BytesConcat(if shift then Raised(init) else init, if shift then Raised([last]) else [last]);
      hide Utf8.Bytes, Raised;
      assert Typed(text, shift)[..|text| - 1] == Typed(init, shift);
    }
  }

  /** What a reader of bracketed paste takes for the pasted text. */
  function PastedBy(s: seq<Byte>): Option<seq<Byte>> {
    if |s| < 6 || s[..6] != [0x1b, 0x5b, 0x32, 0x30, 0x30, 0x7e] then None
    else
      var end := Find(s[6..], [0x1b, 0x5b, 0x32, 0x30, 0x31, 0x7e]);
      if end.None? then None else Some(s[6..][..end.value])
  }

  /** A bracketed paste arrives as what was pasted exactly if that does not hold the closing bracket. */
  lemma PasteReadsBack(modes: Modes, p: seq<Byte>)
    requires modes.bracketedPaste
    ensures var wire := Payload(modes, Paste(p)).value;
            PastedBy(wire) == Some(p) <==> forall i: nat :: !OccursAt(p, PASTE_END, i)
  {
    var wire := Payload(modes, Paste(p)).value;
    assert wire[..6] == PASTE_START && wire[6..] == p + PASTE_END;
    assert OccursAt(p + PASTE_END, PASTE_END, |p|);
    forall i: nat | i < |p|
      ensures OccursAt(p + PASTE_END, PASTE_END, i) <==> OccursAt(p, PASTE_END, i)
    {
      ClosesInside(p, i);
    }
    var end := Find(p + PASTE_END, PASTE_END);
    assert end.Some? && end.value <= |p|;
    assert (p + PASTE_END)[..end.value] == p[..end.value];
    if end.value == |p| { assert p[..|p|] == p; }
  }

  /** The closing bracket cannot begin inside the paste and end behind it. */
  lemma ClosesInside(p: seq<Byte>, i: nat)
    requires i < |p|
    ensures OccursAt(p + PASTE_END, PASTE_END, i) <==> OccursAt(p, PASTE_END, i)
  {
    var all := p + PASTE_END;
    if i + 6 <= |p| {
      assert all[i..i + 6] == p[i..i + 6];
    } else {
      assert all[i..i + 6][|p| - i] == all[|p|] == ESC;
      assert PASTE_END[|p| - i] != ESC;
    }
  }

  /** A click is accepted exactly when both its halves are, and is the two of them in one write. */
  lemma ClickIsBothHalves(modes: Modes, button: Button, x: U16, y: U16)
    ensures var press := Payload(modes, Input.Mouse(Press(button, x, y)));
            var release := Payload(modes, Input.Mouse(Release(button, x, y)));
            Payload(modes, MouseClick(button, x, y))
            == if press.None? || release.None? then None else Some(press.value + release.value)
  {
  }

  lemma PairBytes(a: MouseEvent, b: MouseEvent)
    ensures var rs := [Report.Mouse(a), Report.Mouse(b)];
            EncodeAll(rs) == SgrReport(a) + SgrReport(b) && CanonicalAll(rs) == rs
  {
    hide SgrReport;
    var rs := [Report.Mouse(a), Report.Mouse(b)];
    assert rs[1..] == [rs[1]] && [rs[1]][1..] == [];
    assert EncodeAll([rs[1]]) == SgrReport(b) + EncodeAll([]) == SgrReport(b);
    assert CanonicalAll([rs[1]]) == [rs[1]] + CanonicalAll([]) == [rs[1]];
  }

  lemma SgrPair(a: MouseEvent, b: MouseEvent)
    ensures Parse(SgrReport(a) + SgrReport(b)) == Some([Report.Mouse(a), Report.Mouse(b)])
  {
    PairBytes(a, b);
    hide SgrReport, Parse, EncodeAll, CanonicalAll;
    StreamRoundTrip([Report.Mouse(a), Report.Mouse(b)]);
  }

  lemma X10Pair(a: MouseEvent, b: MouseEvent)
    requires X10Report(a).Some? && X10Report(b).Some?
    ensures ParseX10(X10Report(a).value + X10Report(b).value) == Some([a, b])
  {
    X10RoundTrip([a, b]);
    hide ParseX10, X10Code;
    assert [a, b][1..] == [b] && [b][1..] == [];
    assert X10Report(b).value + [] == X10Report(b).value;
  }

  /** The application reads a click as a press and a release, in whichever encoding it negotiated. */
  lemma ClickReadsBack(modes: Modes, button: Button, x: U16, y: U16)
    requires Payload(modes, MouseClick(button, x, y)).Some?
    ensures var bytes := Payload(modes, MouseClick(button, x, y)).value;
            var press, release := Press(button, x, y), Release(button, x, y);
            if modes.encoding.Sgr? then Parse(bytes) == Some([Report.Mouse(press), Report.Mouse(release)])
            else ParseX10(bytes) == Some([press, release])
  {
    hide SgrReport, X10Report, Parse, ParseX10;
    var press, release := Press(button, x, y), Release(button, x, y);
    if modes.encoding.Sgr? { SgrPair(press, release); } else { X10Pair(press, release); }
  }

  // ----- the write boundary -----------------------------------------------

  datatype Outcome = Done | FailedBeforeWrite | FailedInWrite

  class PtyInput {
    var modes: Modes
    var hasSession: bool
    /** Every byte the transport took. */
    ghost var sent: seq<Byte>

    /** The transport may fail after any part of the bytes. */
    method WriteInput(bytes: seq<Byte>) returns (outcome: Outcome)
      modifies this`sent
      ensures !outcome.FailedBeforeWrite?
      ensures outcome.Done? ==> sent == old(sent) + bytes
      ensures exists n: nat :: n <= |bytes| && sent == old(sent) + bytes[..n]
    {
      var taken: int := *;
      ghost var n := if 0 <= taken < |bytes| then taken else |bytes|;
      sent := sent + bytes[..n];
      assert bytes[..|bytes|] == bytes;
      outcome := if 0 <= taken < |bytes| then FailedInWrite else Done;
    }

    /**
     `dispatch`: a refused input leaves no byte behind, and only a refused input
     says so; an accepted one is a single write of its whole payload, of which a
     failing transport has taken a prefix.
    */
    method Dispatch(input: Input) returns (outcome: Outcome)
      modifies this`sent
      ensures outcome.FailedBeforeWrite? <==> !hasSession || Payload(modes, input).None?
      ensures outcome.FailedBeforeWrite? ==> sent == old(sent)
      ensures outcome.Done? ==> sent == old(sent) + Payload(modes, input).value
      ensures outcome.FailedInWrite? ==>
                var bytes := Payload(modes, input).value;
                exists n: nat :: n <= |bytes| && sent == old(sent) + bytes[..n]
    {
      hide KeyBytes, SgrReport, X10Report;
      if !hasSession {
        return FailedBeforeWrite;
      }
      match input
      case Key(k) =>
        var bytes := KeyBytes(modes, k);
        if bytes.None? { return FailedBeforeWrite; }
        outcome := WriteInput(bytes.value);
      case Keys(ks) =>
        var payload := [];
        assert ks[..|ks|] == ks;
        for i := 0 to |ks|
          invariant KeysBytes(modes, ks[..i]) == Some(payload)
          invariant sent == old(sent)
        {
          assert ks[..i + 1][..i] == ks[..i];
          var bytes := KeyBytes(modes, ks[i]);
          if bytes.None? {
            RefusedKeyRefusesAll(modes, ks, i);
            return FailedBeforeWrite;
          }
          payload := payload + bytes.value;
        }
        outcome := WriteInput(payload);
      case Text(t) =>
        outcome := WriteInput(t);
      case Paste(p) =>
        if modes.bracketedPaste {
          outcome := WriteInput(PASTE_START + p + PASTE_END);
        } else {
          outcome := WriteInput(p);
        }
      case Raw(b) =>
        outcome := WriteInput(b);
      case MouseClick(button, x, y) =>
        if modes.mouse.NoMouse? || modes.mouse.PressOnly? { return FailedBeforeWrite; }
        var press := MouseBytes(Press(button, x, y), modes.encoding);
        if press.None? { return FailedBeforeWrite; }
        var release := MouseBytes(Release(button, x, y), modes.encoding);
        if release.None? { return FailedBeforeWrite; }
        outcome := WriteInput(press.value + release.value);
      case Mouse(ev) =>
        if modes.mouse.NoMouse? { return FailedBeforeWrite; }
        var allowed :=
          match modes.mouse {
            case PressOnly => ev.Press? || ev.Scroll?
            case PressRelease => ev.Press? || ev.Release? || ev.Scroll?
            case ButtonMotion => ev.Press? || ev.Release? || ev.Scroll? || ev.Drag?
            case AnyMotion => true
            case NoMouse => false
          };
        if !allowed { return FailedBeforeWrite; }
        var bytes := MouseBytes(ev, modes.encoding);
        if bytes.None? { return FailedBeforeWrite; }
        outcome := WriteInput(bytes.value);
    }
  }
}
