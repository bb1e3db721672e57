/**
 Comparison of two audit passes (src/audit/compare.rs): every finding of the
 current pass gets a verdict against the baseline, and what only the baseline
 had is fixed.
*/
module FindingCompare {
  import opened Common
  import opened FindingIdentity

  datatype Verdict = Fixed | Regressed | New | Persisting

  datatype Compared = Compared(fingerprint: Text, verdict: Verdict, finding: Finding, baseline: Option<Finding>)

  function Keys(hash: Hash, findings: seq<Finding>): set<Text> {
    set f | f in findings :: Fingerprint(hash, f)
  }

  /** The first finding of this fingerprint. */
  function FirstOf(hash: Hash, findings: seq<Finding>, key: Text): (r: Option<Finding>)
    ensures r.Some? <==> key in Keys(hash, findings)
    ensures r.Some? ==> exists i :: 0 <= i < |findings| && findings[i] == r.value && IsFirst(hash, findings, i, key)
  {
    if findings == [] then None
    else if Fingerprint(hash, findings[0]) == key then
      assert IsFirst(hash, findings, 0, key);
      Some(findings[0])
    else
      var r := FirstOf(hash, findings[1..], key);
      assert findings == [findings[0]] + findings[1..];
      assert r.Some? ==> exists i :: 0 <= i < |findings| - 1 && findings[i + 1] == r.value
                                     && IsFirst(hash, findings[1..], i, key) && IsFirst(hash, findings, i + 1, key);
      r
  }

  predicate IsFirst(hash: Hash, findings: seq<Finding>, i: nat, key: Text) {
    && i < |findings| && Fingerprint(hash, findings[i]) == key
    && forall k :: 0 <= k < i ==> Fingerprint(hash, findings[k]) != key
  }

  /** The record of a current finding: exactly one of three verdicts, and the baseline it continues. */
  predicate Judged(hash: Hash, baseline: seq<Finding>, resolved: set<Text>, f: Finding, c: Compared) {
    var key := Fingerprint(hash, f);
    && c.fingerprint == key && c.finding == f
    && (c.verdict == Persisting <==> key in Keys(hash, baseline))
    && (c.verdict == Regressed <==> key !in Keys(hash, baseline) && key in resolved)
    && (c.verdict == New <==> key !in Keys(hash, baseline) && key !in resolved)
    && c.baseline == FirstOf(hash, baseline, key)
  }

  function FixedRecord(hash: Hash, f: Finding): Compared { Compared(Fingerprint(hash, f), Fixed, f, None) }

  /** What `findings` has beyond `keys`, in order. */
  function Beyond(hash: Hash, findings: seq<Finding>, keys: set<Text>): seq<Finding> {
    if findings == [] then []
    else (if Fingerprint(hash, findings[0]) !in keys then [findings[0]] else []) + Beyond(hash, findings[1..], keys)
  }

  function FixedRecords(hash: Hash, findings: seq<Finding>): seq<Compared> {
    seq(|findings|, i requires 0 <= i < |findings| => FixedRecord(hash, findings[i]))
  }

  /** The documented classification: current findings first, then what was fixed. */
  ghost predicate IsComparison(hash: Hash, baseline: seq<Finding>, current: seq<Finding>, resolved: set<Text>,
                               out: seq<Compared>) {
    && |current| <= |out|
    && (forall i :: 0 <= i < |current| ==> Judged(hash, baseline, resolved, current[i], out[i]))
    && out[|current|..] == FixedRecords(hash, Beyond(hash, baseline, Keys(hash, current)))
  }

  lemma BeyondSnoc(hash: Hash, findings: seq<Finding>, f: Finding, keys: set<Text>)
    ensures Beyond(hash, findings + [f], keys)
         == Beyond(hash, findings, keys) + (if Fingerprint(hash, f) !in keys then [f] else [])
  {
    if findings == [] {
      assert [] + [f] == [f] && [f][1..] == [];
    } else {
      BeyondSnoc(hash, findings[1..], f, keys);
      assert (findings + [f])[1..] == findings[1..] + [f];
    }
  }

  /** `compare_impl`. */
  method CompareImpl(hash: Hash, baseline: seq<Finding>, current: seq<Finding>, resolved: set<Text>)
    returns (out: seq<Compared>)
    ensures IsComparison(hash, baseline, current, resolved, out)
  {
    hide Fingerprint;
    var baseKeys, curKeys := Keys(hash, baseline), Keys(hash, current);
    out := [];
    var i := 0;
    while i < |current|
      invariant i <= |current| && |out| == i
      invariant forall k :: 0 <= k < i ==> Judged(hash, baseline, resolved, current[k], out[k])
    {
      var fp := Fingerprint(hash, current[i]);
      var verdict := if fp in baseKeys then Persisting else if fp in resolved then Regressed else New;
      out := out + [Compared(fp, verdict, current[i], FirstOf(hash, baseline, fp))];
      i := i + 1;
    }
    hide Judged, Beyond;
    i := 0;
    assert baseline[..0] == [] && baseline[..|baseline|] == baseline;
    BeyondNothing(hash, curKeys);
    while i < |baseline|
      invariant i <= |baseline| && |current| <= |out|
      invariant forall k :: 0 <= k < |current| ==> Judged(hash, baseline, resolved, current[k], out[k])
      invariant out[|current|..] == FixedRecords(hash, Beyond(hash, baseline[..i], curKeys))
    {
      BeyondSnoc(hash, baseline[..i], baseline[i], curKeys);
      assert baseline[..i + 1] == baseline[..i] + [baseline[i]];
      ghost var was := out;
      var fp := Fingerprint(hash, baseline[i]);
      if fp !in curKeys {
        out := out + [Compared(fp, Fixed, baseline[i], None)];
        assert out[|current|..] == was[|current|..] + [FixedRecord(hash, baseline[i])];
      }
      i := i + 1;
    }
  }

  lemma BeyondNothing(hash: Hash, keys: set<Text>)
    ensures Beyond(hash, [], keys) == [] && FixedRecords(hash, []) == [] && Fingerprints(hash, []) == []
  {
  }

  // ----- what a comparison says -------------------------------------------

  /** The fingerprints of the records with one of these verdicts. */
  function With(out: seq<Compared>, verdicts: set<Verdict>): seq<Text> {
    if out == [] then []
    else (if out[0].verdict in verdicts then [out[0].fingerprint] else []) + With(out[1..], verdicts)
  }

  function Fingerprints(hash: Hash, findings: seq<Finding>): seq<Text> {
    seq(|findings|, i requires 0 <= i < |findings| => Fingerprint(hash, findings[i]))
  }

  lemma {:induction false} WithConcat(a: seq<Compared>, b: seq<Compared>, verdicts: set<Verdict>)
    ensures With(a + b, verdicts) == With(a, verdicts) + With(b, verdicts)
  {
    if a == [] {
      assert a + b == b;
    } else {
      WithConcat(a[1..], b, verdicts);
      assert (a + b)[0] == a[0] && (a + b)[1..] == a[1..] + b;
      var head := if a[0].verdict in verdicts then [a[0].fingerprint] else [];
      assert head + (With(a[1..], verdicts) + With(b, verdicts)) == head + With(a[1..], verdicts) + With(b, verdicts);
    }
  }

  lemma {:induction false} WithOfFixed(hash: Hash, findings: seq<Finding>, verdicts: set<Verdict>)
    ensures With(FixedRecords(hash, findings), verdicts)
         == if Fixed in verdicts then Fingerprints(hash, findings) else []
  {
    if findings != [] {
      hide Fingerprint;
      WithOfFixed(hash, findings[1..], verdicts);
      assert FixedRecords(hash, findings)[1..] == FixedRecords(hash, findings[1..]);
      assert Fingerprints(hash, findings) == [Fingerprint(hash, findings[0])] + Fingerprints(hash, findings[1..]);
    }
  }

  /** The records of a verdict, one finding at a time. */
  lemma WithOfOne(hash: Hash, f: Finding, rest: seq<Finding>, keys: set<Text>)
    ensures Fingerprints(hash, Beyond(hash, [f] + rest, keys))
         == (if Fingerprint(hash, f) !in keys then [Fingerprint(hash, f)] else [])
            + Fingerprints(hash, Beyond(hash, rest, keys))
  {
    hide Fingerprint;
    assert ([f] + rest)[1..] == rest;
  }

  lemma {:induction false} NewOrRegressed(hash: Hash, baseline: seq<Finding>, resolved: set<Text>,
                                          current: seq<Finding>, records: seq<Compared>)
    requires |records| == |current|
    requires forall i :: 0 <= i < |current| ==> Judged(hash, baseline, resolved, current[i], records[i])
    ensures With(records, {Regressed, New}) == Fingerprints(hash, Beyond(hash, current, Keys(hash, baseline)))
    ensures With(records, {New}) == Fingerprints(hash, Beyond(hash, current, Keys(hash, baseline) + resolved))
    ensures With(records, {Fixed}) == []
  {
    hide Fingerprint, Keys, FirstOf, Beyond, Fingerprints;
    if current == [] {
      BeyondNothing(hash, Keys(hash, baseline));
      BeyondNothing(hash, Keys(hash, baseline) + resolved);
    } else {
      NewOrRegressed(hash, baseline, resolved, current[1..], records[1..]);
      assert Judged(hash, baseline, resolved, current[0], records[0]);
      assert current == [current[0]] + current[1..];
      WithOfOne(hash, current[0], current[1..], Keys(hash, baseline));
      WithOfOne(hash, current[0], current[1..], Keys(hash, baseline) + resolved);
    }
  }

  lemma {:induction false} WithOfJudged(hash: Hash, baseline: seq<Finding>, resolved: set<Text>,
                                        current: seq<Finding>, records: seq<Compared>)
    requires |records| == |current|
    requires forall i :: 0 <= i < |current| ==> Judged(hash, baseline, resolved, current[i], records[i])
    ensures |With(records, {Regressed})| + |With(records, {New})| == |With(records, {Regressed, New})|
    ensures |With(records, {Regressed, New})| + |With(records, {Persisting})| == |current|
    ensures resolved == {} ==> With(records, {Regressed}) == []
  {
    hide Fingerprint, Keys, FirstOf;
    if current != [] {
      WithOfJudged(hash, baseline, resolved, current[1..], records[1..]);
      assert Judged(hash, baseline, resolved, current[0], records[0]);
    }
  }

  /**
   Comparison is read both ways: what A against B calls fixed is, in order, what
   B against A calls new or regressed, whatever was resolved before.
  */
  lemma FixedMirrorsFresh(hash: Hash, a: seq<Finding>, b: seq<Finding>, resolved: set<Text>, resolved': set<Text>,
                          there: seq<Compared>, back: seq<Compared>)
    requires IsComparison(hash, a, b, resolved, there) && IsComparison(hash, b, a, resolved', back)
    ensures With(there, {Fixed}) == With(back, {Regressed, New})
  {
    WithParts(hash, a, b, resolved, there);
    WithParts(hash, b, a, resolved', back);
  }

  lemma WithParts(hash: Hash, a: seq<Finding>, b: seq<Finding>, resolved: set<Text>, out: seq<Compared>)
    requires IsComparison(hash, a, b, resolved, out)
    ensures With(out, {Fixed}) == Fingerprints(hash, Beyond(hash, a, Keys(hash, b)))
    ensures With(out, {Regressed, New}) == Fingerprints(hash, Beyond(hash, b, Keys(hash, a)))
    ensures With(out, {New}) == Fingerprints(hash, Beyond(hash, b, Keys(hash, a) + resolved))
    ensures |With(out, {Regressed})| + |With(out, {New})| == |With(out, {Regressed, New})|
    ensures |With(out, {Regressed})| + |With(out, {New})| + |With(out, {Persisting})| == |b|
    ensures resolved == {} ==> With(out, {Regressed}) == []
  {
    var judged, settled := out[..|b|], out[|b|..];
    assert out == judged + settled;
    WithConcat(judged, settled, {Fixed});
    WithConcat(judged, settled, {Regressed, New});
    WithConcat(judged, settled, {Regressed});
    WithConcat(judged, settled, {New});
    WithConcat(judged, settled, {Persisting});
    var gone := Beyond(hash, a, Keys(hash, b));
    WithOfFixed(hash, gone, {Fixed});
    WithOfFixed(hash, gone, {Regressed, New});
    WithOfFixed(hash, gone, {Regressed});
    WithOfFixed(hash, gone, {New});
    WithOfFixed(hash, gone, {Persisting});
    NewOrRegressed(hash, a, resolved, b, judged);
    WithOfJudged(hash, a, resolved, b, judged);
    hide With, Beyond, Keys, FixedRecords, Fingerprints, Judged;
  }

  // ----- the summary ------------------------------------------------------

  datatype Summary = Summary(fixed: nat, regressed: nat, added: nat, persisting: nat)

  /** `summary`. */
  function Summarize(out: seq<Compared>): Summary {
    Summary(|With(out, {Fixed})|, |With(out, {Regressed})|, |With(out, {New})|, |With(out, {Persisting})|)
  }

  /**
   The counts add up: the three current verdicts to the current findings, the
   fixed one to what the baseline has beyond them. Added are the findings known
   neither to the baseline nor as resolved, persisting the ones the baseline knows.
   Without a resolved set nothing is a regression.
  */
  lemma CountsAddUp(hash: Hash, a: seq<Finding>, b: seq<Finding>, resolved: set<Text>, out: seq<Compared>)
    requires IsComparison(hash, a, b, resolved, out)
    ensures var s := Summarize(out);
            && s.regressed + s.added + s.persisting == |b|
            && s.fixed + s.regressed + s.added + s.persisting == |out|
            && s.fixed == |Beyond(hash, a, Keys(hash, b))|
            && s.added == |Beyond(hash, b, Keys(hash, a) + resolved)|
            && s.persisting == |b| - |Beyond(hash, b, Keys(hash, a))|
            && (resolved == {} ==> s.regressed == 0)
            && (s.fixed == 0 <==> Keys(hash, a) <= Keys(hash, b))
  {
    WithParts(hash, a, b, resolved, out);
    NothingBeyond(hash, a, Keys(hash, b));
    hide With, Beyond, Keys, Judged;
    assert |out| == |b| + |out[|b|..]|;
  }

  lemma {:induction false} NothingBeyond(hash: Hash, findings: seq<Finding>, keys: set<Text>)
    ensures Beyond(hash, findings, keys) == [] <==> Keys(hash, findings) <= keys
  {
    if findings != [] {
      NothingBeyond(hash, findings[1..], keys);
      assert findings == [findings[0]] + findings[1..];
      assert Keys(hash, findings) == {Fingerprint(hash, findings[0])} + Keys(hash, findings[1..]);
    }
  }

  /** A pass compared with itself is all persisting. */
  lemma NothingChanged(hash: Hash, a: seq<Finding>, resolved: set<Text>, out: seq<Compared>)
    requires IsComparison(hash, a, a, resolved, out)
    ensures |out| == |a| && forall i :: 0 <= i < |a| ==> out[i].verdict == Persisting && out[i].finding == a[i]
  {
    NothingBeyond(hash, a, Keys(hash, a));
    forall i | 0 <= i < |a|
      ensures out[i].verdict == Persisting && out[i].finding == a[i]
    {
      assert Judged(hash, a, resolved, a[i], out[i]);
      assert a[i] in a;
    }
  }

  /** The finding carries no other identity than its own: none, or the one `instance` stores. */
  predicate OwnIdentity(hash: Hash, f: Finding) {
    f.occurrence.None? || f.occurrence == Some(OccurrenceId(hash, f))
  }

  /**
   Down to the evidence: between findings that carry no other identity, a current
   one persists exactly when the baseline has one of the same parts.
  */
  lemma PersistingIsSameParts(hash: Hash, a: seq<Finding>, b: seq<Finding>, resolved: set<Text>, out: seq<Compared>,
                              i: nat)
    requires Injective(hash) && IsComparison(hash, a, b, resolved, out) && i < |b|
    requires forall f :: f in a || f in b ==> OwnIdentity(hash, f) && InMemory(Parts(f))
    ensures out[i].verdict == Persisting <==> exists f :: f in a && multiset(Parts(f)) == multiset(Parts(b[i]))
  {
    assert Judged(hash, a, resolved, b[i], out[i]);
    assert b[i] in b;
    hide Judged, IsComparison, FirstOf, InMemory, KeyMaterial;
    forall f | f in a
      ensures Fingerprint(hash, f) == Fingerprint(hash, b[i]) <==> multiset(Parts(f)) == multiset(Parts(b[i]))
    {
      IdentityIsTheParts(hash, f, b[i]);
    }
    hide Fingerprint, Parts;
    KeysOf(hash, a, Fingerprint(hash, b[i]));
  }

  /** What a run records of an audit pass: every finding has passed `instance`. */
  function Recorded(hash: Hash, short: (Text, Text) -> Text, found: seq<Finding>): seq<Finding> {
    seq(|found|, i requires 0 <= i < |found| => Instance(hash, short, found[i]))
  }

  /** Between two recorded passes, a finding persists exactly when one of the same parts was found before. */
  lemma RecordedPersist(hash: Hash, short: (Text, Text) -> Text, a: seq<Finding>, b: seq<Finding>,
                        resolved: set<Text>, out: seq<Compared>, i: nat)
    requires Injective(hash) && IsComparison(hash, Recorded(hash, short, a), Recorded(hash, short, b), resolved, out)
    requires i < |b| && forall f :: f in a || f in b ==> InMemory(Parts(f))
    ensures out[i].verdict == Persisting <==> exists f :: f in a && multiset(Parts(f)) == multiset(Parts(b[i]))
  {
    hide IsComparison, InMemory, KeyMaterial, Injective, Instance, Parts;
    var a', b' := Recorded(hash, short, a), Recorded(hash, short, b);
    forall f | f in a || f in b
      ensures OwnIdentity(hash, Instance(hash, short, f)) && Parts(Instance(hash, short, f)) == Parts(f)
    {
      InstanceOwnsIdentity(hash, short, f);
    }
    assert forall k :: 0 <= k < |a| ==> a[k] in a && a'[k] in a';
    assert forall k :: 0 <= k < |b| ==> b[k] in b;
    PersistingIsSameParts(hash, a', b', resolved, out, i);
    if f :| f in a && multiset(Parts(f)) == multiset(Parts(b[i])) {
      var k :| 0 <= k < |a| && a[k] == f;
      assert a'[k] in a' && Parts(a'[k]) == Parts(f);
    }
  }

  lemma InstanceOwnsIdentity(hash: Hash, short: (Text, Text) -> Text, f: Finding)
    ensures OwnIdentity(hash, Instance(hash, short, f)) && Parts(Instance(hash, short, f)) == Parts(f)
  {
    InstanceSettles(hash, short, f);
    hide KeyMaterial, Kept;
  }

  lemma KeysOf(hash: Hash, findings: seq<Finding>, key: Text)
    ensures key in Keys(hash, findings) <==> exists f :: f in findings && Fingerprint(hash, f) == key
  {
  }

  // ----- defects only -----------------------------------------------------

  function Defects(findings: seq<Finding>): seq<Finding> {
    if findings == [] then []
    else (if findings[0].kind == Defect then [findings[0]] else []) + Defects(findings[1..])
  }

  /** `compare_defects`. */
  method CompareDefects(hash: Hash, baseline: seq<Finding>, current: seq<Finding>) returns (out: seq<Compared>)
    ensures IsComparison(hash, Defects(baseline), Defects(current), {}, out)
    ensures forall c :: c in out ==> c.finding.kind == Defect && c.verdict != Regressed
  {
    out := CompareImpl(hash, Defects(baseline), Defects(current), {});
    DefectsAreDefects(baseline);
    DefectsAreDefects(current);
    BeyondIsPart(hash, Defects(baseline), Keys(hash, Defects(current)));
    hide Defects, Beyond, Keys, FirstOf, Fingerprint;
    forall k | 0 <= k < |out|
      ensures out[k].finding.kind == Defect && out[k].verdict != Regressed
    {
      var n := |Defects(current)|;
      if k < n { assert Judged(hash, Defects(baseline), {}, Defects(current)[k], out[k]); }
      else { assert out[k] == out[n..][k - n]; }
    }
  }

  lemma {:induction false} DefectsAreDefects(findings: seq<Finding>)
    ensures forall i :: 0 <= i < |Defects(findings)| ==> Defects(findings)[i].kind == Defect
  {
    if findings != [] { DefectsAreDefects(findings[1..]); }
  }

  lemma {:induction false} BeyondIsPart(hash: Hash, findings: seq<Finding>, keys: set<Text>)
    ensures forall i :: 0 <= i < |Beyond(hash, findings, keys)| ==> Beyond(hash, findings, keys)[i] in findings
  {
    if findings != [] { BeyondIsPart(hash, findings[1..], keys); }
  }

  /** Telemetry around the defects is invisible to the default comparison. */
  lemma {:induction false} TelemetryIsInvisible(before: seq<Finding>, f: Finding, after: seq<Finding>)
    ensures Defects(before + [f] + after) == Defects(before + after) <==> f.kind != Defect
  {
    DefectsConcat(before + [f], after);
    DefectsConcat(before, [f]);
    DefectsConcat(before, after);
    assert [f][1..] == [];
    hide Defects;
    if f.kind == Defect {
      assert |Defects(before + [f] + after)| == |Defects(before + after)| + |Defects([f])|;
    }
  }

  lemma {:induction false} DefectsConcat(a: seq<Finding>, b: seq<Finding>)
    ensures Defects(a + b) == Defects(a) + Defects(b)
  {
    if a == [] {
      assert a + b == b;
    } else {
      DefectsConcat(a[1..], b);
      assert (a + b)[0] == a[0] && (a + b)[1..] == a[1..] + b;
      var head := if a[0].kind == Defect then [a[0]] else [];
      assert head + (Defects(a[1..]) + Defects(b)) == head + Defects(a[1..]) + Defects(b);
    }
  }
}
