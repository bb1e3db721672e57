/**
 The base64 decoder of the tmux control transport (`decode_base64`,
 src/backend/tmux.rs) against sections 4 and 5 of RFC 4648. The 32-bit
 accumulator is never masked; its high bits fall off on the left.
*/
module Base64 {
  import opened Common

  type Sextet = v: int | 0 <= v < 64

  const WORD: int := 0x1_0000_0000

  /** The digit value of a character, in either alphabet. */
  function Value(c: char): Option<Sextet> {
    if 'A' <= c <= 'Z' then Some(c as int - 'A' as int)
    else if 'a' <= c <= 'z' then Some(c as int - 'a' as int + 26)
    else if '0' <= c <= '9' then Some(c as int - '0' as int + 52)
    else if c == '-' || c == '+' then Some(62)
    else if c == '_' || c == '/' then Some(63)
    else None
  }

  /** The characters `str::trim` removes. */
  predicate IsSpace(c: char) {
    var u := c as int;
    (9 <= u <= 13) || u == 32 || u == 0x85 || u == 0xA0 || u == 0x1680 || (0x2000 <= u <= 0x200A)
    || u == 0x2028 || u == 0x2029 || u == 0x202F || u == 0x205F || u == 0x3000
  }

  function TrimStart(s: string): string {
    if s != "" && IsSpace(s[0]) then TrimStart(s[1..]) else s
  }

  function TrimEnd(s: string): string {
    if s != "" && IsSpace(s[|s| - 1]) then TrimEnd(s[..|s| - 1]) else s
  }

  function Trim(s: string): string { TrimEnd(TrimStart(s)) }

  function TrimPadding(s: string): (r: string)
    ensures |r| <= |s|
  {
    if s != "" && s[|s| - 1] == '=' then TrimPadding(s[..|s| - 1]) else s
  }

  // ----- the RFC's reading: four digits are three bytes -------------------

  function First(p: Sextet, q: Sextet): Byte { p as int * 4 + q as int / 16 }

  function Second(q: Sextet, r: Sextet): Byte { q as int % 16 * 16 + r as int / 4 }

  function Third(r: Sextet, s: Sextet): Byte { r as int % 4 * 64 + s as int }

  /** A final group of two or three digits gives one or two bytes. */
  function DecodeGroups(v: seq<Sextet>): seq<Byte> {
    if |v| < 2 then []
    else if |v| == 2 then [First(v[0], v[1])]
    else if |v| == 3 then [First(v[0], v[1]), Second(v[1], v[2])]
    else [First(v[0], v[1]), Second(v[1], v[2]), Third(v[2], v[3])] + DecodeGroups(v[4..])
  }

  function Digit0(x: Byte): Sextet { x as int / 4 }

  function Digit1(x: Byte, y: Byte): Sextet { x as int % 4 * 16 + y as int / 16 }

  function Digit2(y: Byte, z: Byte): Sextet { y as int % 16 * 4 + z as int / 64 }

  function Digit3(z: Byte): Sextet { z as int % 64 }

  /** 24-bit groups; a short last group is filled with zero bits to whole digits. */
  function EncodeGroups(b: seq<Byte>): seq<Sextet> {
    if b == [] then []
    else if |b| == 1 then [Digit0(b[0]), Digit1(b[0], 0)]
    else if |b| == 2 then [Digit0(b[0]), Digit1(b[0], b[1]), Digit2(b[1], 0)]
    else [Digit0(b[0]), Digit1(b[0], b[1]), Digit2(b[1], b[2]), Digit3(b[2])] + EncodeGroups(b[3..])
  }

  lemma GroupLaws(x: Byte, y: Byte, z: Byte)
    ensures First(Digit0(x), Digit1(x, y)) == x
    ensures Second(Digit1(x, y), Digit2(y, z)) == y
    ensures Third(Digit2(y, z), Digit3(z)) == z
  {
  }

  lemma {:induction false} GroupsRoundTrip(b: seq<Byte>)
    ensures DecodeGroups(EncodeGroups(b)) == b
  {
    hide First, Second, Third, Digit0, Digit1, Digit2, Digit3;
    if |b| >= 3 {
      GroupsRoundTrip(b[3..]);
      GroupLaws(b[0], b[1], b[2]);
      assert EncodeGroups(b)[4..] == EncodeGroups(b[3..]);
      assert b == [b[0], b[1], b[2]] + b[3..];
    } else if |b| == 2 {
      GroupLaws(b[0], b[1], 0);
    } else if |b| == 1 {
      GroupLaws(b[0], 0, 0);
    }
  }

  lemma {:induction false} DecodedLength(v: seq<Sextet>)
    ensures |DecodeGroups(v)| == 6 * |v| / 8
  {
    if |v| >= 4 { DecodedLength(v[4..]); }
  }

  /** What one more digit adds. */
  function Pushed(v: seq<Sextet>, d: Sextet): seq<Byte> {
    if |v| % 4 == 0 then []
    else
      var last := v[|v| - 1];
      if |v| % 4 == 1 then [First(last, d)]
      else if |v| % 4 == 2 then [Second(last, d)]
      else [Third(last, d)]
  }

  lemma {:induction false} GroupsSnoc(v: seq<Sextet>, d: Sextet)
    ensures DecodeGroups(v + [d]) == DecodeGroups(v) + Pushed(v, d)
  {
    if |v| < 4 {
      ShortGroupSnoc(v, d);
    } else {
      FirstGroup(v, []);
      FirstGroup(v, [d]);
      hide DecodeGroups, Pushed;
      GroupsSnoc(v[4..], d);
      PushedByTail(v, d);
      assert v + [] == v;
    }
  }

  lemma PushedByTail(v: seq<Sextet>, d: Sextet)
    requires |v| >= 4
    ensures Pushed(v[4..], d) == Pushed(v, d)
  {
    hide First, Second, Third;
  }

  lemma FirstGroup(v: seq<Sextet>, more: seq<Sextet>)
    requires |v| >= 4
    ensures DecodeGroups(v + more)
         == [First(v[0], v[1]), Second(v[1], v[2]), Third(v[2], v[3])] + DecodeGroups(v[4..] + more)
  {
    hide First, Second, Third;
    assert (v + more)[4..] == v[4..] + more;
  }

  lemma ShortGroups(p: Sextet, q: Sextet, r: Sextet, s: Sextet)
    ensures DecodeGroups([]) == DecodeGroups([p]) == []
    ensures DecodeGroups([p, q]) == [First(p, q)]
    ensures DecodeGroups([p, q, r]) == [First(p, q)] + [Second(q, r)]
    ensures DecodeGroups([p, q, r, s]) == [First(p, q), Second(q, r)] + [Third(r, s)]
  {
    hide First, Second, Third;
    assert [p, q, r, s][4..] == [];
  }

  lemma OneDigitSnoc(p: Sextet, d: Sextet)
    ensures DecodeGroups([p] + [d]) == DecodeGroups([p]) + Pushed([p], d)
  {
    hide First, Second, Third, DecodeGroups;
    assert [p] + [d] == [p, d];
    ShortGroups(p, d, d, d);
  }

  lemma TwoDigitSnoc(p: Sextet, q: Sextet, d: Sextet)
    ensures DecodeGroups([p, q] + [d]) == DecodeGroups([p, q]) + Pushed([p, q], d)
  {
    hide First, Second, Third, DecodeGroups;
    assert [p, q] + [d] == [p, q, d];
    ShortGroups(p, q, d, d);
  }

  lemma ThreeDigitSnoc(p: Sextet, q: Sextet, r: Sextet, d: Sextet)
    ensures DecodeGroups([p, q, r] + [d]) == DecodeGroups([p, q, r]) + Pushed([p, q, r], d)
  {
    hide First, Second, Third, DecodeGroups;
    assert [p, q, r] + [d] == [p, q, r, d];
    ShortGroups(p, q, r, d);
  }

  lemma ShortGroupSnoc(v: seq<Sextet>, d: Sextet)
    requires |v| < 4
    ensures DecodeGroups(v + [d]) == DecodeGroups(v) + Pushed(v, d)
  {
    hide First, Second, Third, DecodeGroups, Pushed;
    if |v| == 0 {
      assert v == [];
      NoDigitSnoc(d);
    } else if |v| == 1 {
      assert v == [v[0]];
      OneDigitSnoc(v[0], d);
    } else if |v| == 2 {
      assert v == [v[0], v[1]];
      TwoDigitSnoc(v[0], v[1], d);
    } else {
      assert v == [v[0], v[1], v[2]];
      ThreeDigitSnoc(v[0], v[1], v[2], d);
    }
  }

  lemma NoDigitSnoc(d: Sextet)
    ensures DecodeGroups([] + [d]) == DecodeGroups([]) + Pushed([], d)
  {
    hide First, Second, Third;
    assert [] + [d] == [d];
  }

  // ----- the source's loop ------------------------------------------------

  /** `(acc << 6) | d` in 32 bits. */
  function Shifted(acc: int, d: Sextet): int { (acc * 64) % WORD + d as int }

  lemma ShiftedWrap(acc: int, d: Sextet) returns (high: int)
    requires acc >= 0
    ensures Shifted(acc, d) == acc * 64 - WORD * high + d as int && 0 <= Shifted(acc, d) < WORD
  {
    high := acc * 64 / WORD;
    var low := acc % 0x400_0000;
    assert acc * 64 == WORD * (acc / 0x400_0000) + 64 * low;
  }

  /** The held-back bits survive the unmasked shift whatever stands above them. */
  lemma Shift0(acc: int, d: Sextet)
    requires acc >= 0
    ensures Shifted(acc, d) % 64 == d as int
  {
    var high := ShiftedWrap(acc, d);
    assert Shifted(acc, d) == 64 * (acc - 0x400_0000 * high) + d as int;
  }

  lemma Shift2(acc: int, d: Sextet)
    requires acc >= 0
    ensures Shifted(acc, d) % 256 == acc % 4 * 64 + d as int
  {
    var high := ShiftedWrap(acc, d);
    assert Shifted(acc, d) == 256 * (acc / 4 - 0x100_0000 * high) + (acc % 4 * 64 + d as int);
  }

  lemma Shift4(acc: int, d: Sextet)
    requires acc >= 0
    ensures Shifted(acc, d) % 1024 == acc % 16 * 64 + d as int
  {
    var high := ShiftedWrap(acc, d);
    assert Shifted(acc, d) == 1024 * (acc / 16 - 0x40_0000 * high) + (acc % 16 * 64 + d as int);
  }

  lemma Shift6(acc: int, d: Sextet)
    requires acc >= 0
    ensures Shifted(acc, d) % 4096 == acc % 64 * 64 + d as int
  {
    var high := ShiftedWrap(acc, d);
    assert Shifted(acc, d) == 4096 * (acc / 64 - 0x10_0000 * high) + (acc % 64 * 64 + d as int);
  }

  /** `(acc >> bits) as u8` when at most four bits stay below the byte. */
  function TopByte(acc: int, bits: nat): Byte
    requires bits == 0 || bits == 2 || bits == 4
  {
    if bits == 0 then acc % 256 else if bits == 2 then acc / 4 % 256 else acc / 16 % 256
  }

  lemma Mod4(k: int, r: int)
    requires 0 <= r < 4
    ensures (4 * k + r) / 4 == k && (4 * k + r) % 4 == r
  {
  }

  lemma Mod16(k: int, r: int)
    requires 0 <= r < 16
    ensures (16 * k + r) / 16 == k && (16 * k + r) % 16 == r
  {
  }

  lemma Mod256(k: int, r: int)
    requires 0 <= r < 256
    ensures (256 * k + r) / 256 == k && (256 * k + r) % 256 == r
  {
  }

  lemma TopByte2(acc: int)
    requires acc >= 0
    ensures acc / 4 % 256 == acc % 1024 / 4 && acc % 4 == acc % 1024 % 4
  {
    var q, r := acc / 1024, acc % 1024;
    Mod4(256 * q + r / 4, r % 4);
    Mod256(q, r / 4);
  }

  lemma TopByte4(acc: int)
    requires acc >= 0
    ensures acc / 16 % 256 == acc % 4096 / 16 && acc % 16 == acc % 4096 % 16
  {
    var q, r := acc / 4096, acc % 4096;
    Mod16(256 * q + r / 16, r % 16);
    Mod256(q, r / 16);
  }

  /** After `v`, the accumulator's low bits are the bits not yet pushed. */
  predicate Holds(acc: int, bits: nat, v: seq<Sextet>) {
    && 0 <= acc < WORD
    && bits == (if |v| % 4 == 0 then 0 else 8 - 2 * (|v| % 4))
    && (|v| % 4 == 1 ==> acc % 64 == v[|v| - 1] as int)
    && (|v| % 4 == 2 ==> acc % 16 == v[|v| - 1] as int % 16)
    && (|v| % 4 == 3 ==> acc % 4 == v[|v| - 1] as int % 4)
  }

  lemma HoldsStep(acc: int, bits: nat, v: seq<Sextet>, d: Sextet)
    requires Holds(acc, bits, v)
    ensures Holds(Shifted(acc, d), if bits == 0 then 6 else bits - 2, v + [d])
  {
    hide Shifted;
    var _ := ShiftedWrap(acc, d);
    var next := Shifted(acc, d);
    NextPhase(|v|);
    if |v| % 4 == 0 {
      Shift0(acc, d);
    } else if |v| % 4 == 1 {
      Shift6(acc, d);
      TopByte4(next);
      LowBits(acc % 64 * 64, d);
    } else if |v| % 4 == 2 {
      Shift4(acc, d);
      TopByte2(next);
      LowBits(acc % 16 * 64, d);
    }
  }

  lemma NextPhase(n: nat)
    ensures (n + 1) % 4 == if n % 4 == 3 then 0 else n % 4 + 1
  {
  }

  /** Whole digits above `d` do not reach its low bits. */
  lemma LowBits(high: int, d: Sextet)
    requires high % 64 == 0
    ensures (high + d as int) % 16 == d as int % 16 && (high + d as int) % 4 == d as int % 4
  {
    var k := high / 64;
    Mod16(4 * k + d as int / 16, d as int % 16);
    Mod4(16 * k + d as int / 4, d as int % 4);
  }

  lemma PushStep(acc: int, bits: nat, v: seq<Sextet>, d: Sextet)
    requires Holds(acc, bits, v) && bits > 0
    ensures Pushed(v, d) == [TopByte(Shifted(acc, d), bits - 2)]
  {
    hide Shifted;
    var _ := ShiftedWrap(acc, d);
    var next := Shifted(acc, d);
    if |v| % 4 == 1 {
      Shift6(acc, d);
      TopByte4(next);
    } else if |v| % 4 == 2 {
      Shift4(acc, d);
      TopByte2(next);
    } else {
      Shift2(acc, d);
    }
  }

  /** One turn of the loop keeps the held-back bits and pushes the RFC's byte. */
  lemma LoopStep(acc: int, bits: nat, v: seq<Sextet>, d: Sextet)
    requires Holds(acc, bits, v)
    ensures bits == 0 || bits == 2 || bits == 4 || bits == 6
    ensures Holds(Shifted(acc, d), if bits == 0 then 6 else bits - 2, v + [d])
    ensures DecodeGroups(v + [d])
         == DecodeGroups(v) + (if bits == 0 then [] else [TopByte(Shifted(acc, d), bits - 2)])
  {
    GroupsSnoc(v, d);
    HoldsStep(acc, bits, v, d);
    hide DecodeGroups, Shifted;
    if bits > 0 { PushStep(acc, bits, v, d); }
  }

  /** The digit values of a text, or nothing when a character is foreign. */
  function Digits(s: string): Option<seq<Sextet>> {
    if s == "" then Some([])
    else
      var init, last := Digits(s[..|s| - 1]), Value(s[|s| - 1]);
      if init.None? || last.None? then None else Some(init.value + [last.value])
  }

  /** What `decode_base64` returns. */
  function Decoded(input: string): seq<Byte> {
    var body := TrimPadding(Trim(input));
    if |Trim(input)| - |body| > 2 || Digits(body).None? then [] else DecodeGroups(Digits(body).value)
  }

  method DecodeBase64(input: string) returns (out: seq<Byte>)
    ensures out == Decoded(input)
  {
    var trimmed := TrimPadding(Trim(input));
    if |Trim(input)| - |trimmed| > 2 {
      return [];
    }
    out := [];
    var acc, bits := 0, 0;
    ghost var v: seq<Sextet> := [];
    assert trimmed[..|trimmed|] == trimmed;
    for i := 0 to |trimmed|
      invariant Digits(trimmed[..i]) == Some(v)
      invariant out == DecodeGroups(v) && Holds(acc, bits, v)
    {
      var d := Value(trimmed[i]);
      assert trimmed[..i + 1][..i] == trimmed[..i];
      if d.None? {
        ForeignCharacter(trimmed, i);
        return [];
      }
      LoopStep(acc, bits, v, d.value);
      hide DecodeGroups, Shifted, Holds, Value;
      acc := Shifted(acc, d.value);
      bits := bits + 6;
      v := v + [d.value];
      if bits >= 8 {
        bits := bits - 8;
        out := out + [TopByte(acc, bits)];
      }
    }
  }

  lemma {:induction false} ForeignCharacter(s: string, i: nat)
    requires i < |s| && Value(s[i]).None?
    ensures Digits(s).None?
  {
    if i < |s| - 1 { ForeignCharacter(s[..|s| - 1], i); }
  }

  // ----- round trip -------------------------------------------------------

  /** The two alphabets of sections 4 and 5 of RFC 4648. */
  function Letter(v: Sextet, urlSafe: bool): char {
    if v < 26 then v as char + 'A'
    else if v < 52 then (v - 26) as char + 'a'
    else if v < 62 then (v - 52) as char + '0'
    else if v == 62 then (if urlSafe then '-' else '+')
    else if urlSafe then '_' else '/'
  }

  function Letters(v: seq<Sextet>, urlSafe: bool): string {
    if v == [] then "" else Letters(v[..|v| - 1], urlSafe) + [Letter(v[|v| - 1], urlSafe)]
  }

  function Padding(n: nat): string { if n == 0 then "" else Padding(n - 1) + "=" }

  /** Encoded text, with `pad` of the padding characters kept. */
  function Encoded(b: seq<Byte>, urlSafe: bool, pad: nat): string {
    Letters(EncodeGroups(b), urlSafe) + Padding(pad)
  }

  lemma LetterValue(v: Sextet, urlSafe: bool)
    ensures Value(Letter(v, urlSafe)) == Some(v)
    ensures Letter(v, urlSafe) != '=' && !IsSpace(Letter(v, urlSafe))
  {
  }

  lemma {:induction false} LettersDigits(v: seq<Sextet>, urlSafe: bool)
    ensures Digits(Letters(v, urlSafe)) == Some(v)
    ensures TrimPadding(Letters(v, urlSafe)) == Letters(v, urlSafe)
    ensures forall i :: 0 <= i < |Letters(v, urlSafe)| ==> !IsSpace(Letters(v, urlSafe)[i])
  {
    if v != [] {
      var init, last := v[..|v| - 1], v[|v| - 1];
      LettersDigits(init, urlSafe);
      LetterValue(last, urlSafe);
      var s := Letters(v, urlSafe);
      assert s[..|s| - 1] == Letters(init, urlSafe) && s[|s| - 1] == Letter(last, urlSafe);
      assert init + [last] == v;
    }
  }

  lemma {:induction false} PaddingTrims(s: string, pad: nat)
    requires TrimPadding(s) == s && forall i :: 0 <= i < |s| ==> !IsSpace(s[i])
    ensures TrimPadding(s + Padding(pad)) == s && |s + Padding(pad)| == |s| + pad
    ensures Trim(s + Padding(pad)) == s + Padding(pad)
  {
    var t := s + Padding(pad);
    if pad > 0 {
      PaddingTrims(s, pad - 1);
      assert t[..|t| - 1] == s + Padding(pad - 1) && t[|t| - 1] == '=';
      assert !IsSpace(t[0]) by { if s == "" { PaddingOnly(pad); } }
    } else {
      assert t == s;
    }
  }

  lemma {:induction false} PaddingOnly(pad: nat)
    requires pad > 0
    ensures Padding(pad)[0] == '='
  {
    if pad > 1 { PaddingOnly(pad - 1); }
  }

  predicate AllSpace(s: string) { forall i :: 0 <= i < |s| ==> s[i] in " \t\n\U{b}\U{c}\r\U{85}\U{a0}" }

  lemma {:induction false} StartTrims(before: string, s: string)
    requires AllSpace(before)
    ensures TrimStart(before + s) == TrimStart(s)
  {
    if before == "" {
      assert before + s == s;
    } else {
      StartTrims(before[1..], s);
      assert (before + s)[1..] == before[1..] + s;
    }
  }

  lemma {:induction false} EndTrims(s: string, after: string)
    requires AllSpace(after)
    ensures TrimEnd(s + after) == TrimEnd(s)
  {
    if after == "" {
      assert s + after == s;
    } else {
      EndTrims(s, after[..|after| - 1]);
      assert (s + after)[..|s + after| - 1] == s + after[..|after| - 1];
    }
  }

  /** Space around a text that neither begins nor ends in space is dropped. */
  lemma SpaceTrims(before: string, s: string, after: string)
    requires AllSpace(before) && AllSpace(after) && Trim(s) == s
    ensures Trim(before + s + after) == s
  {
    assert before + s + after == before + (s + after);
    StartTrims(before, s + after);
    EndKeepsStart(s, after);
    EndTrims(s, after);
    TrimShortens(s);
  }

  lemma EndKeepsStart(s: string, after: string)
    requires AllSpace(after) && Trim(s) == s
    ensures TrimEnd(TrimStart(s + after)) == TrimEnd(s + after)
  {
    TrimShortens(s);
    if s == "" {
      assert s + after == after == after + "";
      StartTrims(after, "");
      EndTrims("", after);
    } else {
      assert !IsSpace(s[0]) && (s + after)[0] == s[0];
    }
  }

  lemma {:induction false} StartShortens(s: string)
    ensures |TrimStart(s)| <= |s|
  {
    if s != "" { StartShortens(s[1..]); }
  }

  lemma {:induction false} EndShortens(s: string)
    ensures |TrimEnd(s)| <= |s|
  {
    if s != "" { EndShortens(s[..|s| - 1]); }
  }

  lemma TrimShortens(s: string)
    ensures Trim(s) == s && s != "" ==> !IsSpace(s[0])
  {
    EndShortens(TrimStart(s));
    if s != "" { StartShortens(s[1..]); }
  }

  /** Every byte string survives, in both alphabets, padded or not, with space around it or not. */
  lemma RoundTrip(b: seq<Byte>, urlSafe: bool, pad: nat, before: string, after: string)
    requires pad <= 2 && AllSpace(before) && AllSpace(after)
    ensures Decoded(before + Encoded(b, urlSafe, pad) + after) == b
  {
    hide EncodeGroups, DecodeGroups, Digits, Letters, Padding, IsSpace;
    var v := EncodeGroups(b);
    LettersDigits(v, urlSafe);
    PaddingTrims(Letters(v, urlSafe), pad);
    SpaceTrims(before, Encoded(b, urlSafe, pad), after);
    GroupsRoundTrip(b);
  }

  predicate InAlphabet(c: char) {
    'A' <= c <= 'Z' || 'a' <= c <= 'z' || '0' <= c <= '9' || c in "+-/_"
  }

  /** Six bits a digit, whole bytes only; one foreign character and nothing comes out. */
  lemma DecodedShape(input: string)
    ensures var body := TrimPadding(Trim(input));
            && (|Trim(input)| - |body| <= 2 && (forall i :: 0 <= i < |body| ==> InAlphabet(body[i]))
                ==> |Decoded(input)| == 6 * |body| / 8)
            && ((exists i :: 0 <= i < |body| && !InAlphabet(body[i])) ==> Decoded(input) == [])
            && (|Trim(input)| - |body| > 2 ==> Decoded(input) == [])
  {
    var body := TrimPadding(Trim(input));
    assert forall c :: InAlphabet(c) <==> Value(c).Some?;
    if i :| 0 <= i < |body| && Value(body[i]).None? {
      ForeignCharacter(body, i);
    } else {
      AllDigits(body);
      if |Trim(input)| - |body| <= 2 { DecodedLength(Digits(body).value); }
    }
  }

  lemma {:induction false} AllDigits(s: string)
    requires forall i :: 0 <= i < |s| ==> Value(s[i]).Some?
    ensures Digits(s).Some? && |Digits(s).value| == |s|
  {
    if s != "" { AllDigits(s[..|s| - 1]); }
  }
}
