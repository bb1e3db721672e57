/**
 Finding identity (src/audit/mod.rs): what of a finding is hashed into its
 occurrence id, and what `instance` does to a finding. Texts are their UTF-8
 bytes; the hash is a parameter.
*/
module FindingIdentity {
  import opened Common

  type Text = seq<Byte>

  type Hash = Text -> Text

  datatype Kind = Defect | Observation | Metric | Gate

  /** The parts of a finding that identity and comparison read. */
  datatype Finding = Finding(
    kind: Kind,
    id: Text,
    ruleId: Option<Text>,
    category: Text,
    targets: seq<Option<Text>>,
    occurrence: Option<Text>)

  /** A length in memory: it is what the cast to 64 bits assumes. */
  const MAX_LEN: nat := 0x1_0000_0000_0000_0000

  predicate InMemory(parts: seq<Text>) {
    |parts| < MAX_LEN && forall i :: 0 <= i < |parts| ==> |parts[i]| < MAX_LEN
  }

  // ----- byte order and sorting -------------------------------------------

  /** The order of byte strings: the first difference decides, a prefix comes first. */
  predicate Leq(a: Text, b: Text) {
    a == [] || (b != [] && (a[0] < b[0] || (a[0] == b[0] && Leq(a[1..], b[1..]))))
  }

  lemma {:induction false} LeqTotal(a: Text, b: Text)
    ensures Leq(a, b) || Leq(b, a)
    ensures Leq(a, b) && Leq(b, a) ==> a == b
  {
    if a != [] && b != [] {
      LeqTotal(a[1..], b[1..]);
      assert a == [a[0]] + a[1..] && b == [b[0]] + b[1..];
    }
  }

  lemma {:induction false} LeqTransitive(a: Text, b: Text, c: Text)
    requires Leq(a, b) && Leq(b, c)
    ensures Leq(a, c)
  {
    if a != [] && a[0] == b[0] == c[0] { LeqTransitive(a[1..], b[1..], c[1..]); }
  }

  predicate Ordered(parts: seq<Text>) {
    forall i, j :: 0 <= i < j < |parts| ==> Leq(parts[i], parts[j])
  }

  function Insert(x: Text, parts: seq<Text>): seq<Text> {
    if parts == [] || Leq(x, parts[0]) then [x] + parts else [parts[0]] + Insert(x, parts[1..])
  }

  /** `sort`. */
  function Sorted(parts: seq<Text>): seq<Text> {
    if parts == [] then [] else Insert(parts[0], Sorted(parts[1..]))
  }

  lemma {:induction false} InsertKeeps(x: Text, parts: seq<Text>)
    ensures multiset(Insert(x, parts)) == multiset{x} + multiset(parts)
    ensures Ordered(parts) ==> Ordered(Insert(x, parts))
  {
    if parts != [] {
      assert parts == [parts[0]] + parts[1..];
      LeqTotal(x, parts[0]);
      if Leq(x, parts[0]) {
        forall i | 0 <= i < |parts| && Ordered(parts)
          ensures Leq(x, parts[i])
        {
          if i > 0 { LeqTransitive(x, parts[0], parts[i]); }
        }
      } else {
        InsertKeeps(x, parts[1..]);
        var rest := Insert(x, parts[1..]);
        forall i | 0 <= i < |rest| && Ordered(parts)
          ensures Leq(parts[0], rest[i])
        {
          assert rest[i] in multiset(rest);
        }
      }
    }
  }

  lemma {:induction false} SortedIsOrdered(parts: seq<Text>)
    ensures Ordered(Sorted(parts))
    ensures multiset(Sorted(parts)) == multiset(parts)
  {
    if parts != [] {
      SortedIsOrdered(parts[1..]);
      InsertKeeps(parts[0], Sorted(parts[1..]));
      assert parts == [parts[0]] + parts[1..];
    }
  }

  lemma OrderedHead(a: seq<Text>, x: Text)
    requires Ordered(a) && x in multiset(a)
    ensures Leq(a[0], x) && Ordered(a[1..])
    ensures multiset(a[1..]) == multiset(a) - multiset{a[0]}
  {
    LeqTotal(x, x);
    assert x in a;
    hide Leq;
    assert a == [a[0]] + a[1..];
  }

  /** A multiset of texts has one ordered listing. */
  lemma {:induction false} OrderedIsUnique(a: seq<Text>, b: seq<Text>)
    requires Ordered(a) && Ordered(b) && multiset(a) == multiset(b)
    ensures a == b
  {
    hide Ordered, Leq;
    assert |a| == |multiset(a)| && |b| == |multiset(b)|;
    if a != [] {
      assert a[0] in multiset(a) && b[0] in multiset(b);
      OrderedHead(a, b[0]);
      OrderedHead(b, a[0]);
      LeqTotal(a[0], b[0]);
      OrderedIsUnique(a[1..], b[1..]);
      assert a == [a[0]] + a[1..] && b == [b[0]] + b[1..];
    }
  }

  lemma SortedLength(parts: seq<Text>)
    ensures |Sorted(parts)| == |parts|
  {
    SortedIsOrdered(parts);
    assert |Sorted(parts)| == |multiset(Sorted(parts))| && |multiset(parts)| == |parts|;
  }

  lemma SortedForgetsOrder(a: seq<Text>, b: seq<Text>)
    ensures Sorted(a) == Sorted(b) <==> multiset(a) == multiset(b)
  {
    SortedIsOrdered(a);
    SortedIsOrdered(b);
    if multiset(a) == multiset(b) { OrderedIsUnique(Sorted(a), Sorted(b)); }
  }

  // ----- the key material -------------------------------------------------

  /** `to_le_bytes`, `width` bytes of it. */
  function LittleEndian(n: nat, width: nat): Text {
    if width == 0 then [] else [n % 256] + LittleEndian(n / 256, width - 1)
  }

  function Block(p: Text): Text { LittleEndian(|p|, 8) + p }

  function Blocks(parts: seq<Text>): Text {
    if parts == [] then [] else Block(parts[0]) + Blocks(parts[1..])
  }

  /** "finding:v1", "occurrence", each closed by a zero byte. */
  const HEADER: Text :=
    [102, 105, 110, 100, 105, 110, 103, 58, 118, 49, 0, 111, 99, 99, 117, 114, 114, 101, 110, 99, 101, 0]

  function KeyMaterial(parts: seq<Text>): Text {
    HEADER + LittleEndian(|parts|, 8) + Blocks(Sorted(parts))
  }

  // The reader of the format, which the program does not need but the proof does.

  function ReadNumber(bytes: Text, width: nat): nat
    requires width <= |bytes|
  {
    if width == 0 then 0 else bytes[0] + 256 * ReadNumber(bytes[1..], width - 1)
  }

  function Pow256(k: nat): nat { if k == 0 then 1 else 256 * Pow256(k - 1) }

  lemma {:induction false} NumberRoundTrip(n: nat, width: nat, rest: Text)
    requires n < Pow256(width)
    ensures |LittleEndian(n, width)| == width
    ensures ReadNumber(LittleEndian(n, width) + rest, width) == n
  {
    if width > 0 {
      NumberRoundTrip(n / 256, width - 1, rest);
      var bytes := LittleEndian(n, width) + rest;
      assert bytes[1..] == LittleEndian(n / 256, width - 1) + rest;
    }
  }

  lemma EightBytes()
    ensures Pow256(8) == MAX_LEN
  {
  }

  /** Two blocks followed by anything agree only when part and rest agree. */
  lemma BlockPrefixes(p: Text, q: Text, restP: Text, restQ: Text)
    requires |p| < MAX_LEN && |q| < MAX_LEN && Block(p) + restP == Block(q) + restQ
    ensures p == q && restP == restQ
  {
    EightBytes();
    NumberRoundTrip(|p|, 8, p + restP);
    NumberRoundTrip(|q|, 8, q + restQ);
    var bytes := Block(p) + restP;
    hide LittleEndian, ReadNumber, Pow256;
    assert bytes == LittleEndian(|p|, 8) + (p + restP) && bytes == LittleEndian(|q|, 8) + (q + restQ);
    assert bytes[8..] == p + restP && bytes[8..] == q + restQ;
    assert p == bytes[8..][..|p|] && restP == bytes[8..][|p|..];
  }

  lemma {:induction false} BlocksInjective(a: seq<Text>, b: seq<Text>)
    requires InMemory(a) && InMemory(b) && |a| == |b| && Blocks(a) == Blocks(b)
    ensures a == b
  {
    if a != [] {
      BlockPrefixes(a[0], b[0], Blocks(a[1..]), Blocks(b[1..]));
      BlocksInjective(a[1..], b[1..]);
      assert a == [a[0]] + a[1..] && b == [b[0]] + b[1..];
    }
  }

  lemma SortedInMemory(parts: seq<Text>)
    requires InMemory(parts)
    ensures InMemory(Sorted(parts)) && |Sorted(parts)| == |parts|
  {
    SortedIsOrdered(parts);
    SortedLength(parts);
    var s := Sorted(parts);
    forall i | 0 <= i < |s|
      ensures |s[i]| < MAX_LEN
    {
      assert s[i] in multiset(parts);
      assert s[i] in parts;
    }
  }

  /** The bytes fed to the hash agree exactly when the parts do, as multisets. */
  lemma MaterialIsTheMultiset(a: seq<Text>, b: seq<Text>)
    requires InMemory(a) && InMemory(b)
    ensures KeyMaterial(a) == KeyMaterial(b) <==> multiset(a) == multiset(b)
  {
    SortedForgetsOrder(a, b);
    SortedInMemory(a);
    SortedInMemory(b);
    EightBytes();
    NumberRoundTrip(|a|, 8, Blocks(Sorted(a)));
    NumberRoundTrip(|b|, 8, Blocks(Sorted(b)));
    hide Sorted, LittleEndian, ReadNumber, Pow256, Blocks;
    if multiset(a) == multiset(b) {
      assert |a| == |multiset(a)| == |b|;
    }
    if KeyMaterial(a) == KeyMaterial(b) {
      var body := KeyMaterial(a)[|HEADER|..];
      assert body == LittleEndian(|a|, 8) + Blocks(Sorted(a));
      assert body == LittleEndian(|b|, 8) + Blocks(Sorted(b));
      assert body[8..] == Blocks(Sorted(a)) && body[8..] == Blocks(Sorted(b));
      BlocksInjective(Sorted(a), Sorted(b));
    }
  }

  // ----- findings ---------------------------------------------------------

  function Rule(f: Finding): Text { if f.ruleId.Some? then f.ruleId.value else f.id }

  function Kept(targets: seq<Option<Text>>): seq<Text> {
    if targets == [] then []
    else (if targets[0].Some? && targets[0].value != [] then [targets[0].value] else []) + Kept(targets[1..])
  }

  /** What identity is made of: the rule, the category and every nonempty target. */
  function Parts(f: Finding): seq<Text> { [Rule(f), f.category] + Kept(f.targets) }

  function OccurrenceId(hash: Hash, f: Finding): Text { hash(KeyMaterial(Parts(f))) }

  /** `fingerprint`: the stored identity, or the computed one. */
  function Fingerprint(hash: Hash, f: Finding): Text {
    if f.occurrence.Some? then f.occurrence.value else OccurrenceId(hash, f)
  }

  lemma KeptSnoc(targets: seq<Option<Text>>, t: Option<Text>)
    ensures Kept(targets + [t]) == Kept(targets) + (if t.Some? && t.value != [] then [t.value] else [])
  {
    if targets == [] {
      assert [] + [t] == [t] && [t][1..] == [];
    } else {
      KeptSnoc(targets[1..], t);
      assert (targets + [t])[1..] == targets[1..] + [t];
    }
  }

  lemma BlocksSnoc(parts: seq<Text>, p: Text)
    ensures Blocks(parts + [p]) == Blocks(parts) + Block(p)
  {
    hide Block;
    if parts == [] {
      assert [] + [p] == [p] && [p][1..] == [];
      assert Block(p) + [] == Block(p) && [] + Block(p) == Block(p);
    } else {
      BlocksSnoc(parts[1..], p);
      assert (parts + [p])[0] == parts[0] && (parts + [p])[1..] == parts[1..] + [p];
      var h, t, e := Block(parts[0]), Blocks(parts[1..]), Block(p);
      assert h + (t + e) == h + t + e;
    }
  }

  method CollectParts(f: Finding) returns (parts: seq<Text>)
    ensures parts == Parts(f)
  {
    parts := [Rule(f), f.category];
    var i := 0;
    assert f.targets[..0] == [] && f.targets[..|f.targets|] == f.targets;
    while i < |f.targets|
      invariant i <= |f.targets|
      invariant parts == [Rule(f), f.category] + Kept(f.targets[..i])
    {
      KeptSnoc(f.targets[..i], f.targets[i]);
      assert f.targets[..i + 1] == f.targets[..i] + [f.targets[i]];
      hide Kept;
      if f.targets[i].Some? && f.targets[i].value != [] { parts := parts + [f.targets[i].value]; }
      i := i + 1;
    }
  }

  method Feed(before: Text, parts: seq<Text>) returns (fed: Text)
    ensures fed == before + Blocks(parts)
  {
    hide LittleEndian;
    fed := before;
    var i := 0;
    assert parts[..0] == [] && parts[..|parts|] == parts;
    while i < |parts|
      invariant i <= |parts|
      invariant fed == before + Blocks(parts[..i])
    {
      BlocksSnoc(parts[..i], parts[i]);
      assert parts[..i + 1] == parts[..i] + [parts[i]];
      hide Blocks;
      assert before + Blocks(parts[..i]) + Block(parts[i]) == before + (Blocks(parts[..i]) + Block(parts[i]));
      fed := fed + (LittleEndian(|parts[i]|, 8) + parts[i]);
      i := i + 1;
    }
  }

  /** `occurrence_id`: the bytes are fed to the hasher part by part. */
  method ComputeOccurrenceId(hash: Hash, f: Finding) returns (digest: Text)
    ensures digest == OccurrenceId(hash, f)
  {
    hide Sorted, LittleEndian, Parts, HEADER;
    var parts := CollectParts(f);
    SortedLength(parts);
    parts := Sorted(parts);
    var fed := Feed(HEADER + LittleEndian(|parts|, 8), parts);
    digest := hash(fed);
  }

  ghost predicate Injective(hash: Hash) { forall a, b :: hash(a) == hash(b) ==> a == b }

  /**
   Two findings are one occurrence exactly when they agree on their parts, each
   counted, wherever it stands in the evidence.
  */
  lemma IdentityIsTheParts(hash: Hash, f: Finding, g: Finding)
    requires Injective(hash) && InMemory(Parts(f)) && InMemory(Parts(g))
    ensures OccurrenceId(hash, f) == OccurrenceId(hash, g) <==> multiset(Parts(f)) == multiset(Parts(g))
  {
    MaterialIsTheMultiset(Parts(f), Parts(g));
    hide KeyMaterial, Parts;
  }

  /** For one rule and category the identity is the multiset of nonempty targets. */
  lemma SameRuleSamePlace(hash: Hash, f: Finding, g: Finding)
    requires Injective(hash) && InMemory(Parts(f)) && InMemory(Parts(g))
    requires Rule(f) == Rule(g) && f.category == g.category
    ensures OccurrenceId(hash, f) == OccurrenceId(hash, g)
            <==> multiset(Kept(f.targets)) == multiset(Kept(g.targets))
  {
    IdentityIsTheParts(hash, f, g);
    var head := multiset{Rule(f), f.category};
    PartsCounted(f);
    PartsCounted(g);
    hide Parts, Kept;
    if multiset(Parts(f)) == multiset(Parts(g)) {
      assert multiset(Kept(f.targets)) == multiset(Parts(f)) - head;
      assert multiset(Kept(g.targets)) == multiset(Parts(g)) - head;
    }
  }

  // ----- the roles of the parts -------------------------------------------

  predicate OneText(parts: seq<Text>) { forall i :: 0 <= i < |parts| ==> parts[i] == parts[0] }

  function Wrapped(ts: seq<Text>): seq<Option<Text>> {
    if ts == [] then [] else [Some(ts[0])] + Wrapped(ts[1..])
  }

  lemma {:induction false} KeptOfNonempty(ts: seq<Text>)
    requires forall i :: 0 <= i < |ts| ==> ts[i] != []
    ensures Kept(Wrapped(ts)) == ts
  {
    if ts != [] {
      KeptOfNonempty(ts[1..]);
      assert Wrapped(ts)[1..] == Wrapped(ts[1..]);
      assert ts == [ts[0]] + ts[1..];
    }
  }

  lemma {:induction false} KeptIsNonempty(targets: seq<Option<Text>>)
    ensures forall i :: 0 <= i < |Kept(targets)| ==> Kept(targets)[i] != []
  {
    if targets != [] { KeptIsNonempty(targets[1..]); }
  }

  lemma PartsCounted(f: Finding)
    ensures multiset(Parts(f)) == multiset{Rule(f), f.category} + multiset(Kept(f.targets))
  {
  }

  lemma TargetCanMove(f: Finding, i: nat) returns (g: Finding)
    requires Rule(f) == f.category != [] && i < |Kept(f.targets)| && Kept(f.targets)[i] != Rule(f)
    ensures Rule(g) != Rule(f) && multiset(Parts(g)) == multiset(Parts(f))
  {
    var ts := Kept(f.targets);
    var moved := ts[i := Rule(f)];
    g := f.(ruleId := Some(ts[i]), targets := Wrapped(moved));
    KeptIsNonempty(f.targets);
    KeptOfNonempty(moved);
    PartsCounted(f);
    PartsCounted(g);
    hide Parts, Kept, Wrapped;
    assert multiset(moved) == multiset(ts) - multiset{ts[i]} + multiset{Rule(f)};
  }

  /** A finding of the same parts with another rule. */
  lemma RolesCanMove(f: Finding) returns (g: Finding)
    requires !OneText(Parts(f)) && (Rule(f) != [] || f.category != [])
    ensures Rule(g) != Rule(f) && multiset(Parts(g)) == multiset(Parts(f))
  {
    hide Kept;
    if Rule(f) != f.category {
      g := f.(ruleId := Some(f.category), category := Rule(f));
      PartsCounted(f);
      PartsCounted(g);
      hide Parts, OneText;
    } else {
      var j :| 0 <= j < |Parts(f)| && Parts(f)[j] != Parts(f)[0];
      assert j >= 2 && Kept(f.targets)[j - 2] == Parts(f)[j];
      g := TargetCanMove(f, j - 2);
    }
  }

  /** With one text for every part, or empty rule and category, the rule is known. */
  lemma RolesCannotMove(f: Finding, g: Finding)
    requires OneText(Parts(f)) || (Rule(f) == [] && f.category == [])
    requires multiset(Parts(g)) == multiset(Parts(f))
    ensures Rule(g) == Rule(f)
  {
    if OneText(Parts(f)) {
      assert Parts(g)[0] in multiset(Parts(f));
    } else {
      KeptIsNonempty(f.targets);
      KeptIsNonempty(g.targets);
      PartsCounted(f);
      PartsCounted(g);
      assert multiset(Parts(f))[[]] >= 2 && multiset(Kept(g.targets))[[]] == 0;
    }
  }

  /**
   Identity is documented as rule, category and targets, but the sorted parts do
   not say which is which: it determines the rule exactly when all parts are one
   text, or rule and category are both empty.
  */
  lemma RolesAreForgotten(f: Finding)
    ensures (forall g: Finding :: multiset(Parts(g)) == multiset(Parts(f)) ==> Rule(g) == Rule(f))
            <==> OneText(Parts(f)) || (Rule(f) == [] && f.category == [])
  {
    hide Parts, Rule, OneText;
    if OneText(Parts(f)) || (Rule(f) == [] && f.category == []) {
      forall g: Finding | multiset(Parts(g)) == multiset(Parts(f))
        ensures Rule(g) == Rule(f)
      {
        RolesCannotMove(f, g);
      }
    } else {
      var g := RolesCanMove(f);
    }
  }

  // ----- `instance` -------------------------------------------------------

  /** `format!("{rule}@{hash}")`, where `short` is the discriminator of rule and target. */
  function InstanceName(short: (Text, Text) -> Text, rule: Text, target: Text): Text {
    rule + [64] + short(rule, target)
  }

  function FirstTarget(f: Finding): Text {
    if f.targets != [] && f.targets[0].Some? then f.targets[0].value else []
  }

  function Instance(hash: Hash, short: (Text, Text) -> Text, f: Finding): Finding {
    var rule := Rule(f);
    var target := FirstTarget(f);
    var named := f.(ruleId := Some(rule), id := if target == [] then rule else InstanceName(short, rule, target));
    named.(occurrence := Some(OccurrenceId(hash, named)))
  }

  /** `instance`, which rewrites the finding field by field. */
  method MakeInstance(hash: Hash, short: (Text, Text) -> Text, f: Finding) returns (self: Finding)
    ensures self == Instance(hash, short, f)
    ensures var rule := if f.ruleId.Some? then f.ruleId.value else f.id;
            && self.ruleId == Some(rule)
            && self.id == (if f.targets != [] && f.targets[0].Some? && f.targets[0].value != []
                           then InstanceName(short, rule, f.targets[0].value) else rule)
            && self == f.(ruleId := self.ruleId, id := self.id, occurrence := Some(OccurrenceId(hash, self)))
  {
    self := f;
    var rule := Rule(self);
    var target: Option<Text> := if self.targets == [] then None else self.targets[0];
    if self.ruleId.None? { self := self.(ruleId := Some(rule)); }
    if target.None? || target.value == [] {
      self := self.(id := rule);
    } else {
      self := self.(id := InstanceName(short, rule, target.value));
    }
    var digest := ComputeOccurrenceId(hash, self);
    self := self.(occurrence := Some(digest));
  }

  /** The discriminators of one length tell rule and target apart. */
  ghost predicate Discriminates(short: (Text, Text) -> Text) {
    && (forall r: Text, t: Text :: |short(r, t)| == 8)
    && forall r: Text, t: Text, r': Text, t': Text :: short(r, t) == short(r', t') ==> r == r' && t == t'
  }

  /**
   An instance id is documented as unique per rule and target. With such
   discriminators it is, among findings with a target and among those without;
   between the two it is exactly unless a rule reads like the other's instance id.
  */
  lemma InstanceIdsTell(hash: Hash, short: (Text, Text) -> Text, f: Finding, g: Finding)
    requires Discriminates(short)
    ensures var same := Instance(hash, short, f).id == Instance(hash, short, g).id;
            if (FirstTarget(f) == []) == (FirstTarget(g) == []) then
              same <==> Rule(f) == Rule(g) && FirstTarget(f) == FirstTarget(g)
            else if FirstTarget(f) == [] then
              same <==> Rule(f) == InstanceName(short, Rule(g), FirstTarget(g))
            else
              same <==> Rule(g) == InstanceName(short, Rule(f), FirstTarget(f))
  {
    hide Rule, FirstTarget, OccurrenceId, Fingerprint;
    NamesTell(short, Rule(f), FirstTarget(f), Rule(g), FirstTarget(g));
  }

  lemma NamesTell(short: (Text, Text) -> Text, r: Text, t: Text, r': Text, t': Text)
    requires Discriminates(short)
    ensures InstanceName(short, r, t) == InstanceName(short, r', t') <==> r == r' && t == t'
  {
    var a, b := InstanceName(short, r, t), InstanceName(short, r', t');
    assert a[|r| + 1..] == short(r, t) && b[|r'| + 1..] == short(r', t');
    assert |a| == |r| + 9 && |b| == |r'| + 9;
  }

  /**
   `instance` settles a finding: doing it again changes nothing, it leaves the
   identity of what was found alone, and what comparison sees of the finding
   stays the same exactly when no other identity was stored before.
  */
  lemma InstanceSettles(hash: Hash, short: (Text, Text) -> Text, f: Finding)
    ensures var g := Instance(hash, short, f);
            && Instance(hash, short, g) == g
            && Parts(g) == Parts(f)
            && (Fingerprint(hash, g) == Fingerprint(hash, f)
                <==> f.occurrence.None? || f.occurrence == Some(OccurrenceId(hash, f)))
  {
  }
}
