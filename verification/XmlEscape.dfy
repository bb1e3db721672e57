/**
 The escaping of JUnit reports (`junit_text`, src/main.rs): five replace passes
 over the whole text, one per metacharacter. The entities are those of section
 4.6 of XML 1.0.
*/
module XmlEscape {
  import opened Common

  const AMP := "&amp;"
  const LT := "&lt;"
  const GT := "&gt;"
  const QUOT := "&quot;"
  const APOS := "&apos;"

  /** `str::replace` of one character. */
  function Replace(s: string, c: char, ent: string): string {
    if s == "" then "" else (if s[0] == c then ent else [s[0]]) + Replace(s[1..], c, ent)
  }

  /** `junit_text`. */
  function JunitText(s: string): string {
    Replace(Replace(Replace(Replace(Replace(s, '&', AMP), '<', LT), '>', GT), '"', QUOT), '\'', APOS)
  }

  predicate IsMeta(c: char) { c == '&' || c == '<' || c == '>' || c == '"' || c == '\'' }

  /** The reference: what stands for one character. */
  function Entity(c: char): string {
    if c == '&' then AMP
    else if c == '<' then LT
    else if c == '>' then GT
    else if c == '"' then QUOT
    else if c == '\'' then APOS
    else [c]
  }

  function EachChar(s: string): string {
    if s == "" then "" else Entity(s[0]) + EachChar(s[1..])
  }

  lemma {:induction false} ReplaceConcat(a: string, b: string, c: char, ent: string)
    ensures Replace(a + b, c, ent) == Replace(a, c, ent) + Replace(b, c, ent)
  {
    if a == "" {
      assert a + b == b;
    } else {
      ReplaceConcat(a[1..], b, c, ent);
      assert (a + b)[0] == a[0] && (a + b)[1..] == a[1..] + b;
      var head := if a[0] == c then ent else [a[0]];
      assert head + (Replace(a[1..], c, ent) + Replace(b, c, ent))
          == head + Replace(a[1..], c, ent) + Replace(b, c, ent);
    }
  }

  lemma {:induction false} ReplaceAbsent(s: string, c: char, ent: string)
    ensures c !in s ==> Replace(s, c, ent) == s
  {
    if s != "" {
      ReplaceAbsent(s[1..], c, ent);
      assert s == [s[0]] + s[1..];
    }
  }

  lemma ReplaceOne(x: char, c: char, ent: string)
    ensures Replace([x], c, ent) == if x == c then ent else [x]
  {
  }

  /** No entity holds a metacharacter that a later pass looks for. */
  lemma PassesKeep(t: string)
    requires t == AMP || t == LT || t == GT || t == QUOT || t == APOS
    ensures Replace(t, '<', LT) == t && Replace(t, '>', GT) == t
    ensures Replace(t, '"', QUOT) == t && Replace(t, '\'', APOS) == t
  {
    hide Replace;
    ReplaceAbsent(t, '<', LT);
    ReplaceAbsent(t, '>', GT);
    ReplaceAbsent(t, '"', QUOT);
    ReplaceAbsent(t, '\'', APOS);
  }

  lemma OneChar(c: char)
    ensures JunitText([c]) == Entity(c)
  {
    ReplaceOne(c, '&', AMP);
    ReplaceOne(c, '<', LT);
    ReplaceOne(c, '>', GT);
    ReplaceOne(c, '"', QUOT);
    ReplaceOne(c, '\'', APOS);
    PassesKeep(AMP);
    PassesKeep(LT);
    PassesKeep(GT);
    PassesKeep(QUOT);
    hide Replace;
  }

  lemma JunitConcat(a: string, b: string)
    ensures JunitText(a + b) == JunitText(a) + JunitText(b)
  {
    hide Replace;
    ReplaceConcat(a, b, '&', AMP);
    var a1, b1 := Replace(a, '&', AMP), Replace(b, '&', AMP);
    ReplaceConcat(a1, b1, '<', LT);
    var a2, b2 := Replace(a1, '<', LT), Replace(b1, '<', LT);
    ReplaceConcat(a2, b2, '>', GT);
    var a3, b3 := Replace(a2, '>', GT), Replace(b2, '>', GT);
    ReplaceConcat(a3, b3, '"', QUOT);
    ReplaceConcat(Replace(a3, '"', QUOT), Replace(b3, '"', QUOT), '\'', APOS);
  }

  /** The five passes are one substitution, character by character. */
  lemma {:induction false} FivePassesAreOne(s: string)
    ensures JunitText(s) == EachChar(s)
  {
    if s != "" {
      FivePassesAreOne(s[1..]);
      OneChar(s[0]);
      JunitConcat([s[0]], s[1..]);
      assert s == [s[0]] + s[1..];
      hide JunitText;
    }
  }

  // ----- reading the text back --------------------------------------------

  datatype Reading = Reading(c: char, length: nat)

  /** What a reader takes the front of a text for. */
  function ReadOne(s: string): (r: Reading)
    requires s != ""
    ensures 0 < r.length <= |s|
  {
    if AMP <= s then Reading('&', 5)
    else if LT <= s then Reading('<', 4)
    else if GT <= s then Reading('>', 4)
    else if QUOT <= s then Reading('"', 6)
    else if APOS <= s then Reading('\'', 6)
    else Reading(s[0], 1)
  }

  function Unescape(s: string): string
    decreases |s|
  {
    if s == "" then "" else [ReadOne(s).c] + Unescape(s[ReadOne(s).length..])
  }

  lemma ReadEntity(c: char, rest: string)
    ensures ReadOne(Entity(c) + rest) == Reading(c, |Entity(c)|)
  {
    var s := Entity(c) + rest;
    assert s[0] == Entity(c)[0];
    if IsMeta(c) {
      assert s[1] == Entity(c)[1] && s[2] == Entity(c)[2];
    } else {
      assert AMP[0] == LT[0] == GT[0] == QUOT[0] == APOS[0] == '&';
    }
  }

  /** Reading the escaped text gives the text back, so no two texts escape alike. */
  lemma {:induction false} EscapeRoundTrip(s: string)
    ensures Unescape(JunitText(s)) == s
  {
    FivePassesAreOne(s);
    if s != "" {
      EscapeRoundTrip(s[1..]);
      FivePassesAreOne(s[1..]);
      ReadEntity(s[0], EachChar(s[1..]));
      assert (Entity(s[0]) + EachChar(s[1..]))[|Entity(s[0])|..] == EachChar(s[1..]);
      hide JunitText, ReadOne, Entity;
    }
  }

  /** An ampersand here opens one of the five entities; the other metacharacters do not occur. */
  predicate Clean(s: string, i: nat)
    requires i < |s|
  {
    IsMeta(s[i]) ==> s[i] == '&' && (OccursAt(s, AMP, i) || OccursAt(s, LT, i) || OccursAt(s, GT, i)
                                     || OccursAt(s, QUOT, i) || OccursAt(s, APOS, i))
  }

  lemma OccursLater(head: string, s: string, t: string, i: nat)
    requires OccursAt(s, t, i)
    ensures OccursAt(head + s, t, |head| + i)
  {
  }

  lemma CleanLater(head: string, s: string, i: nat)
    requires i < |s| && Clean(s, i)
    ensures Clean(head + s, |head| + i)
  {
    if IsMeta(s[i]) {
      var t :| t in {AMP, LT, GT, QUOT, APOS} && OccursAt(s, t, i);
      OccursLater(head, s, t, i);
    }
    hide OccursAt;
  }

  lemma CleanEntity(c: char, rest: string, i: nat)
    requires i < |Entity(c)|
    ensures Clean(Entity(c) + rest, i)
  {
  }

  /** No bare metacharacter: section 2.4 of XML 1.0 allows none in character data or attribute values. */
  lemma {:induction false} NothingBare(s: string)
    ensures forall i :: 0 <= i < |JunitText(s)| ==> Clean(JunitText(s), i)
  {
    FivePassesAreOne(s);
    hide JunitText, Clean;
    if s != "" {
      NothingBare(s[1..]);
      FivePassesAreOne(s[1..]);
      var head, rest := Entity(s[0]), EachChar(s[1..]);
      forall i | 0 <= i < |head + rest|
        ensures Clean(head + rest, i)
      {
        if i < |head| { CleanEntity(s[0], rest, i); } else { CleanLater(head, rest, i - |head|); }
      }
    }
  }

  // ----- why the ampersand goes first -------------------------------------

  lemma {:induction false} ReplaceGrows(s: string, c: char, ent: string)
    requires |ent| > 1
    ensures |Replace(s, c, ent)| >= |s|
    ensures |Replace(s, c, ent)| == |s| <==> c !in s
  {
    if s != "" {
      ReplaceGrows(s[1..], c, ent);
      assert s == [s[0]] + s[1..];
    }
  }

  lemma {:induction false} PassesSwap(s: string, c: char, ent: string)
    requires c != '&' && ent != "" && ent[0] == '&' && '&' !in ent[1..] && c !in AMP && c !in ent
    ensures |Replace(Replace(s, c, ent), '&', AMP)| >= |Replace(Replace(s, '&', AMP), c, ent)|
    ensures |Replace(Replace(s, c, ent), '&', AMP)| == |Replace(Replace(s, '&', AMP), c, ent)| ==> c !in s
  {
    if s != "" {
      var head, rest := [s[0]], s[1..];
      assert s == head + rest;
      PassesSwap(rest, c, ent);
      ReplaceOne(s[0], c, ent);
      ReplaceOne(s[0], '&', AMP);
      ReplaceConcat(head, rest, c, ent);
      ReplaceConcat(head, rest, '&', AMP);
      ReplaceConcat(Replace(head, c, ent), Replace(rest, c, ent), '&', AMP);
      ReplaceConcat(Replace(head, '&', AMP), Replace(rest, '&', AMP), c, ent);
      ReplaceAbsent(AMP, c, ent);
      ReplaceGrows(ent, '&', AMP);
      assert ent[0] in ent;
      hide Replace;
    }
  }

  /** A pass before the ampersand's would be escaped twice: it is harmless exactly when it does nothing. */
  lemma AmpersandGoesFirst(s: string, c: char, ent: string)
    requires || (c == '<' && ent == LT) || (c == '>' && ent == GT)
             || (c == '"' && ent == QUOT) || (c == '\'' && ent == APOS)
    ensures Replace(Replace(s, c, ent), '&', AMP) == Replace(Replace(s, '&', AMP), c, ent) <==> c !in s
  {
    PassesSwap(s, c, ent);
    ReplaceAbsent(s, c, ent);
    if c !in s {
      AmpersandAdds(s, c);
      ReplaceAbsent(Replace(s, '&', AMP), c, ent);
    }
    hide Replace;
  }

  lemma {:induction false} AmpersandAdds(s: string, c: char)
    requires c !in s && c !in AMP
    ensures c !in Replace(s, '&', AMP)
  {
    if s != "" {
      AmpersandAdds(s[1..], c);
      assert s == [s[0]] + s[1..];
    }
  }

  /** Only a text with a metacharacter is changed at all. */
  lemma PlainTextStays(s: string)
    ensures JunitText(s) == s <==> forall i :: 0 <= i < |s| ==> !IsMeta(s[i])
  {
    FivePassesAreOne(s);
    PlainEachChar(s);
  }

  lemma {:induction false} PlainEachChar(s: string)
    ensures |EachChar(s)| >= |s|
    ensures EachChar(s) == s <==> forall i :: 0 <= i < |s| ==> !IsMeta(s[i])
    ensures |EachChar(s)| == |s| ==> EachChar(s) == s
  {
    if s != "" {
      PlainEachChar(s[1..]);
      assert s == [s[0]] + s[1..];
      assert forall i :: 0 < i < |s| ==> s[i] == s[1..][i - 1];
      if IsMeta(s[0]) { assert |Entity(s[0])| > 1; }
    }
  }
}
