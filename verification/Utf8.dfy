/** UTF-8 text: characters never share their bytes, and a character's first byte is told from the others. */
module Utf8 {
  import opened Common

  type Row = seq<Scalar>

  type Text = seq<Byte>

  function Bytes(row: Row): Text {
    if row == [] then [] else Utf8Bytes(row[0]) + Bytes(row[1..])
  }

  predicate IsLead(b: Byte) { b < 0x80 || b >= 0xC0 }

  lemma {:induction false} BytesConcat(a: Row, b: Row)
    ensures Bytes(a + b) == Bytes(a) + Bytes(b)
  {
    hide Utf8Bytes;
    if a == [] {
      assert a + b == b;
    } else {
      BytesConcat(a[1..], b);
      assert (a + b)[0] == a[0] && (a + b)[1..] == a[1..] + b;
      var head := Utf8Bytes(a[0]);
      assert head + (Bytes(a[1..]) + Bytes(b)) == head + Bytes(a[1..]) + Bytes(b);
    }
  }

  /** The bytes in front of the `k`-th character. */
  lemma BytesSplit(row: Row, k: nat)
    requires k <= |row|
    ensures Bytes(row) == Bytes(row[..k]) + Bytes(row[k..])
  {
    hide Bytes, Utf8Bytes;
    BytesConcat(row[..k], row[k..]);
    assert row[..k] + row[k..] == row;
  }

  lemma LeadAndRest(c: Scalar)
    ensures |Utf8Bytes(c)| > 0 && IsLead(Utf8Bytes(c)[0])
    ensures forall i :: 0 < i < |Utf8Bytes(c)| ==> !IsLead(Utf8Bytes(c)[i])
  {
  }

  /** The first byte says how many there are. */
  function Width(lead: Byte): nat {
    if lead < 0x80 then 1 else if lead < 0xE0 then 2 else if lead < 0xF0 then 3 else 4
  }

  lemma WidthOfLead(c: Scalar)
    ensures Width(Utf8Bytes(c)[0]) == |Utf8Bytes(c)|
  {
  }

  lemma Digits64(c: int)
    requires c >= 0
    ensures c == 64 * (c / 64) + c % 64
    ensures c / 64 == 64 * (c / 4096) + c / 64 % 64
    ensures c / 4096 == 64 * (c / 262_144) + c / 4096 % 64
  {
    assert c / 4096 == c / 64 / 64;
    assert c / 262_144 == c / 4096 / 64;
  }

  lemma SameBytesSameScalar(c: Scalar, d: Scalar)
    requires Utf8Bytes(c) == Utf8Bytes(d)
    ensures c == d
  {
    Digits64(c);
    Digits64(d);
    var bc, bd := Utf8Bytes(c), Utf8Bytes(d);
    assert bc[0] == bd[0];
    if |bc| > 1 { assert bc[1] == bd[1]; }
    if |bc| > 2 { assert bc[2] == bd[2]; }
    if |bc| > 3 { assert bc[3] == bd[3]; }
  }

  /** No character's bytes begin another's. */
  lemma PrefixFree(c: Scalar, d: Scalar, s: Text, t: Text)
    requires Utf8Bytes(c) + s == Utf8Bytes(d) + t
    ensures c == d && s == t
  {
    LeadAndRest(c);
    LeadAndRest(d);
    WidthOfLead(c);
    WidthOfLead(d);
    var text, n := Utf8Bytes(c) + s, |Utf8Bytes(c)|;
    assert text[0] == Utf8Bytes(c)[0] == Utf8Bytes(d)[0];
    hide Utf8Bytes, Width, IsLead;
    assert text[..n] == Utf8Bytes(c) && text[..n] == Utf8Bytes(d);
    assert text[n..] == s && text[n..] == t;
    SameBytesSameScalar(c, d);
  }

  /** Text that begins with another text begins with its characters. */
  lemma {:induction false} PrefixIsCharacters(row: Row, q: Row, rest: Text)
    requires Bytes(row) == Bytes(q) + rest
    ensures q <= row
  {
    if q != [] {
      LeadAndRest(q[0]);
      assert Bytes(q) + rest == Utf8Bytes(q[0]) + (Bytes(q[1..]) + rest);
      assert row != [];
      hide Utf8Bytes;
      PrefixFree(row[0], q[0], Bytes(row[1..]), Bytes(q[1..]) + rest);
      PrefixIsCharacters(row[1..], q[1..], rest);
    }
  }

  /** A first byte stands where a character begins. */
  lemma {:induction false} LeadIsBoundary(row: Row, at: nat) returns (k: nat)
    requires at < |Bytes(row)| && IsLead(Bytes(row)[at])
    ensures k < |row| && |Bytes(row[..k])| == at
  {
    var head := Utf8Bytes(row[0]);
    LeadAndRest(row[0]);
    hide Utf8Bytes, IsLead;
    if at < |head| {
      assert Bytes(row)[at] == head[at];
      k := 0;
    } else {
      assert Bytes(row)[at] == Bytes(row[1..])[at - |head|];
      var j := LeadIsBoundary(row[1..], at - |head|);
      k := j + 1;
      assert row[..k][1..] == row[1..][..j] && row[..k][0] == row[0];
    }
  }

  lemma FirstIsLead(q: Row)
    requires q != []
    ensures Bytes(q) != [] && IsLead(Bytes(q)[0])
  {
    LeadAndRest(q[0]);
  }

  lemma MatchSplits(text: Text, piece: Text, at: nat)
    requires OccursAt(text, piece, at) && piece != []
    ensures text[at] == piece[0] && text[at..] == piece + text[at + |piece|..]
  {
    assert text[at..at + |piece|][0] == text[at];
  }

  lemma CharactersAt(row: Row, q: Row, k: nat)
    requires k <= |row| && q <= row[k..]
    ensures k + |q| <= |row| && row[k..k + |q|] == q
    ensures |Bytes(row[..k + |q|])| == |Bytes(row[..k])| + |Bytes(q)|
  {
    hide Bytes, Utf8Bytes;
    assert row[..k + |q|] == row[..k] + q;
    BytesConcat(row[..k], q);
  }

  lemma SecondPart(a: Text, b: Text)
    ensures (a + b)[|a|..] == b
  {
  }

  /** A match of whole characters covers whole characters. */
  lemma MatchIsAligned(row: Row, q: Row, at: nat) returns (k: nat)
    requires q != [] && OccursAt(Bytes(row), Bytes(q), at)
    ensures k + |q| <= |row| && row[k..k + |q|] == q
    ensures |Bytes(row[..k])| == at && |Bytes(row[..k + |q|])| == at + |Bytes(q)|
  {
    var text, n := Bytes(row), |Bytes(q)|;
    FirstIsLead(q);
    hide Bytes, Utf8Bytes, IsLead;
    MatchSplits(text, Bytes(q), at);
    k := LeadIsBoundary(row, at);
    BytesSplit(row, k);
    SecondPart(Bytes(row[..k]), Bytes(row[k..]));
    PrefixIsCharacters(row[k..], q, text[at + n..]);
    CharactersAt(row, q, k);
  }

  lemma {:induction false} BytesGrow(row: Row)
    ensures |Bytes(row)| >= |row|
  {
    if row != [] {
      LeadAndRest(row[0]);
      hide Utf8Bytes;
      BytesGrow(row[1..]);
    }
  }
}
