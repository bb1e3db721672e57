/** Small vocabulary shared by the component models. */
module Common {
  datatype Option<+T> = None | Some(value: T)

  type Byte = b: int | 0 <= b < 256

  /** A character's code point. */
  type Scalar = c: int | 0 <= c < 0x11_0000

  /** A character's UTF-8 bytes. */
  function Utf8Bytes(c: Scalar): seq<Byte> {
    if c < 0x80 then [c]
    else if c < 0x800 then [0xC0 + c / 64, 0x80 + c % 64]
    else if c < 0x1_0000 then [0xE0 + c / 4096, 0x80 + c / 64 % 64, 0x80 + c % 64]
    else [0xF0 + c / 262_144, 0x80 + c / 4096 % 64, 0x80 + c / 64 % 64, 0x80 + c % 64]
  }

  /** A line cut to the width. */
  function Truncated(line: string, cols: nat): string { if |line| > cols then line[..cols] else line }

  function Max(a: int, b: int): int { if a >= b then a else b }

  function Min(a: int, b: int): int { if a <= b then a else b }

  /** The last `n` elements, or everything when there are fewer. */
  function LastN<T>(s: seq<T>, n: nat): (r: seq<T>)
    ensures |r| == Min(n, |s|)
    ensures forall k :: 0 <= k < |r| ==> r[k] == s[|s| - |r| + k]
  {
    if |s| <= n then s else s[|s| - n..]
  }

  /** Pushing on a full window drops its head. */
  lemma LastNPush<T>(s: seq<T>, x: T, n: nat)
    requires n > 0
    ensures LastN(s + [x], n) == (if |LastN(s, n)| == n then LastN(s, n)[1..] else LastN(s, n)) + [x]
  {
    if |s| >= n { assert (s + [x])[|s| + 1 - n..] == s[|s| - n..][1..] + [x]; }
  }

  /** A bounded window shows the last `k` entries exactly when it still holds that many. */
  lemma LastNOfLastN<T>(s: seq<T>, cap: nat, k: nat)
    ensures LastN(LastN(s, cap), k) == LastN(s, k) <==> Min(k, |s|) <= cap
  {
  }

  function Concat<T>(parts: seq<seq<T>>): seq<T> {
    if parts == [] then [] else Concat(parts[..|parts| - 1]) + parts[|parts| - 1]
  }

  /** `needle` occurs in `hay` at offset `i`. */
  predicate OccursAt<T(==)>(hay: seq<T>, needle: seq<T>, i: nat) {
    i + |needle| <= |hay| && hay[i..i + |needle|] == needle
  }

  /** `str::find`: the first offset at or after `from` where `needle` occurs. */
  function FindFrom<T(==)>(hay: seq<T>, needle: seq<T>, from: nat): (r: Option<nat>)
    requires from <= |hay|
    ensures r.Some? ==> from <= r.value && OccursAt(hay, needle, r.value)
    ensures r.Some? ==> forall i: nat :: from <= i < r.value ==> !OccursAt(hay, needle, i)
    ensures r.None? ==> forall i: nat :: from <= i ==> !OccursAt(hay, needle, i)
    decreases |hay| - from
  {
    if OccursAt(hay, needle, from) then Some(from)
    else if from < |hay| then FindFrom(hay, needle, from + 1)
    else None
  }

  function Find<T(==)>(hay: seq<T>, needle: seq<T>): (r: Option<nat>)
    ensures r.Some? ==> OccursAt(hay, needle, r.value)
    ensures r.Some? ==> forall i: nat :: i < r.value ==> !OccursAt(hay, needle, i)
    ensures r.None? ==> forall i: nat :: !OccursAt(hay, needle, i)
  {
    FindFrom(hay, needle, 0)
  }

  lemma FindIs<T>(hay: seq<T>, needle: seq<T>, at: nat)
    requires OccursAt(hay, needle, at) && forall i: nat :: i < at ==> !OccursAt(hay, needle, i)
    ensures Find(hay, needle) == Some(at)
  {
  }

  lemma FindIsNone<T>(hay: seq<T>, needle: seq<T>)
    requires forall i: nat :: !OccursAt(hay, needle, i)
    ensures Find(hay, needle) == None
  {
  }
}
