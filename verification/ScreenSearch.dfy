/**
 The screen search shared by the backends (`search_screen`,
 src/backend/mod.rs). Rows are characters, what is scanned is the UTF-8 of their
 lower case; the lower-case table is a parameter. The last section says when the
 reported offsets are offsets in the row.
*/
module ScreenSearch {
  import opened Common
  import opened Utf8

  datatype Region = Viewport | Scrollback

  datatype Hit = Hit(region: Region, row: nat, start: nat, len: nat, line: Row)

  /** The lower case of one character, which may be several. */
  type Lowering = Scalar -> Row

  /** `str::to_lowercase`. */
  function Lowered(lower: Lowering, row: Row): Row {
    if row == [] then [] else lower(row[0]) + Lowered(lower, row[1..])
  }

  /** What is scanned. */
  function LowerText(lower: Lowering, row: Row): Text { Bytes(Lowered(lower, row)) }

  // ----- one row ----------------------------------------------------------

  /** The scan of one lower-cased row from an offset on. */
  function StartsFrom(text: Text, q: Text, from: nat): seq<nat>
    requires q != [] && from <= |text|
    decreases |text| - from
  {
    match FindFrom(text, q, from)
    case None => []
    case Some(at) => [at] + StartsFrom(text, q, at + |q|)
  }

  predicate Spaced(starts: seq<nat>, width: nat) {
    forall i, j :: 0 <= i < j < |starts| ==> starts[i] + width <= starts[j]
  }

  predicate AllOccur(text: Text, q: Text, starts: seq<nat>) {
    forall i {:trigger OccursAt(text, q, starts[i])} :: 0 <= i < |starts| ==> OccursAt(text, q, starts[i])
  }

  /** The `k`-th hit begins at or before `p` and reaches over it. */
  predicate Spans(starts: seq<nat>, width: nat, k: nat, p: nat) {
    k < |starts| && starts[k] <= p < starts[k] + width
  }

  ghost predicate Spanned(starts: seq<nat>, width: nat, p: nat) {
    exists k: nat :: Spans(starts, width, k, p)
  }

  /** From `from` on: apart, sound, and no occurrence is left uncovered. */
  ghost predicate LeftmostFrom(text: Text, q: Text, from: nat, starts: seq<nat>) {
    && Spaced(starts, |q|)
    && AllOccur(text, q, starts)
    && (forall i :: 0 <= i < |starts| ==> from <= starts[i])
    && (forall p: nat :: from <= p && OccursAt(text, q, p) ==> Spanned(starts, |q|, p))
  }

  /** The leftmost non-overlapping occurrences. */
  ghost predicate Leftmost(text: Text, q: Text, starts: seq<nat>) { LeftmostFrom(text, q, 0, starts) }

  lemma FirstThenRest(text: Text, q: Text, from: nat, at: nat, rest: seq<nat>)
    requires q != [] && from <= at && OccursAt(text, q, at) && forall p: nat :: from <= p < at ==> !OccursAt(text, q, p)
    requires LeftmostFrom(text, q, at + |q|, rest)
    ensures LeftmostFrom(text, q, from, [at] + rest)
  {
    hide OccursAt;
    var starts := [at] + rest;
    forall p: nat | from <= p && OccursAt(text, q, p)
      ensures Spanned(starts, |q|, p)
    {
      if p < at + |q| {
        assert Spans(starts, |q|, 0, p);
      } else {
        var k: nat :| Spans(rest, |q|, k, p);
        assert Spans(starts, |q|, k + 1, p);
      }
    }
  }

  lemma {:induction false} ScanIsLeftmostFrom(text: Text, q: Text, from: nat)
    requires q != [] && from <= |text|
    ensures LeftmostFrom(text, q, from, StartsFrom(text, q, from))
    decreases |text| - from
  {
    var found := FindFrom(text, q, from);
    if found.Some? {
      assert found.value + |q| <= |text|;
      ScanIsLeftmostFrom(text, q, found.value + |q|);
      hide LeftmostFrom, OccursAt;
      FirstThenRest(text, q, from, found.value, StartsFrom(text, q, found.value + |q|));
    } else {
      assert StartsFrom(text, q, from) == [];
      hide OccursAt;
    }
  }

  /** The hits of a row are exactly its leftmost non-overlapping occurrences. */
  lemma ScanIsLeftmost(text: Text, q: Text)
    requires q != []
    ensures Leftmost(text, q, StartsFrom(text, q, 0))
  {
    ScanIsLeftmostFrom(text, q, 0);
  }

  /** No list of occurrences that stay apart runs ahead of the leftmost ones. */
  lemma {:induction false} LeftmostIsAhead(text: Text, q: Text, starts: seq<nat>, other: seq<nat>, i: nat)
    requires Leftmost(text, q, starts)
    requires Spaced(other, |q|) && AllOccur(text, q, other) && i < |other|
    ensures i < |starts| && starts[i] <= other[i]
  {
    hide OccursAt;
    assert OccursAt(text, q, other[i]);
    var k: nat :| Spans(starts, |q|, k, other[i]);
    SpacedOf(text, q, starts);
    hide LeftmostFrom, Leftmost, AllOccur;
    if i > 0 {
      LeftmostIsAhead(text, q, starts, other, i - 1);
      assert other[i - 1] + |q| <= other[i];
      assert i <= k;
    }
  }

  lemma SpacedOf(text: Text, q: Text, starts: seq<nat>)
    requires Leftmost(text, q, starts)
    ensures Spaced(starts, |q|) && AllOccur(text, q, starts)
  {
  }

  /** So there are never more of them, and the hits of a row are the only list of their kind. */
  lemma LeftmostIsMost(text: Text, q: Text, starts: seq<nat>, other: seq<nat>)
    requires Leftmost(text, q, starts)
    requires Spaced(other, |q|) && AllOccur(text, q, other)
    ensures |other| <= |starts|
    ensures Leftmost(text, q, other) ==> other == starts
  {
    SpacedOf(text, q, starts);
    hide Leftmost, Spaced, AllOccur;
    if other != [] { LeftmostIsAhead(text, q, starts, other, |other| - 1); }
    if Leftmost(text, q, other) {
      if starts != [] { LeftmostIsAhead(text, q, other, starts, |starts| - 1); }
      forall i | 0 <= i < |other|
        ensures other[i] == starts[i]
      {
        LeftmostIsAhead(text, q, starts, other, i);
        LeftmostIsAhead(text, q, other, starts, i);
      }
    }
  }

  // ----- the screen -------------------------------------------------------

  function RowHits(region: Region, y: nat, line: Row, q: Text, starts: seq<nat>): seq<Hit> {
    seq(|starts|, i requires 0 <= i < |starts| => Hit(region, y, starts[i], |q|, line))
  }

  /** The hits of the rows before `n`. */
  function RegionHits(rows: seq<Row>, region: Region, q: Text, lower: Lowering, n: nat): seq<Hit>
    requires q != [] && n <= |rows|
  {
    if n == 0 then []
    else RegionHits(rows, region, q, lower, n - 1)
         + RowHits(region, n - 1, rows[n - 1], q, StartsFrom(LowerText(lower, rows[n - 1]), q, 0))
  }

  /** What is left of a row's scan. */
  lemma ScanStep(region: Region, y: nat, line: Row, q: Text, text: Text, from: nat)
    requires q != [] && from <= |text|
    ensures var found := FindFrom(text, q, from);
            && (found.Some? ==> from + |q| <= found.value + |q| <= |text|)
            && RowHits(region, y, line, q, StartsFrom(text, q, from))
               == if found.None? then []
                  else [Hit(region, y, found.value, |q|, line)]
                       + RowHits(region, y, line, q, StartsFrom(text, q, found.value + |q|))
  {
  }

  /** The inner loop: one row. */
  method ScanRow(line: Row, region: Region, y: nat, q: Text, text: Text, before: seq<Hit>)
    returns (hits: seq<Hit>)
    requires q != []
    ensures hits == before + RowHits(region, y, line, q, StartsFrom(text, q, 0))
  {
    hide StartsFrom, RowHits, OccursAt;
    hits := before;
    var from := 0;
    while true
      invariant from <= |text|
      invariant hits + RowHits(region, y, line, q, StartsFrom(text, q, from))
             == before + RowHits(region, y, line, q, StartsFrom(text, q, 0))
      decreases |text| - from
    {
      ScanStep(region, y, line, q, text, from);
      var found := FindFrom(text, q, from);
      if found.None? {
        assert hits + [] == hits;
        break;
      }
      ghost var rest := RowHits(region, y, line, q, StartsFrom(text, q, found.value + |q|));
      var hit := Hit(region, y, found.value, |q|, line);
      assert hits + ([hit] + rest) == hits + [hit] + rest;
      hits := hits + [hit];
      from := found.value + |q|;
    }
  }

  /** The closure `scan`. */
  method Scan(rows: seq<Row>, region: Region, q: Text, lower: Lowering, before: seq<Hit>) returns (hits: seq<Hit>)
    requires q != []
    ensures hits == before + RegionHits(rows, region, q, lower, |rows|)
  {
    hide StartsFrom, RowHits, LowerText;
    hits := before;
    var y := 0;
    while y < |rows|
      invariant y <= |rows| && hits == before + RegionHits(rows, region, q, lower, y)
    {
      hits := ScanRow(rows[y], region, y, q, LowerText(lower, rows[y]), hits);
      ghost var row := RowHits(region, y, rows[y], q, StartsFrom(LowerText(lower, rows[y]), q, 0));
      ghost var all := RegionHits(rows, region, q, lower, y);
      assert before + all + row == before + (all + row);
      y := y + 1;
    }
  }

  /**
   `search_screen`: viewport rows first, then scrollback, each from the top. A
   lower-cased query is never empty when the query is not.
  */
  method SearchScreen(viewport: seq<Row>, scrollback: seq<Row>, query: Row, lower: Lowering)
    returns (hits: seq<Hit>)
    requires query != [] ==> LowerText(lower, query) != []
    ensures query == [] ==> hits == []
    ensures query != [] ==> hits == RegionHits(viewport, Viewport, LowerText(lower, query), lower, |viewport|)
                                    + RegionHits(scrollback, Scrollback, LowerText(lower, query), lower, |scrollback|)
  {
    hits := [];
    if query == [] { return; }
    var q := LowerText(lower, query);
    hits := Scan(viewport, Viewport, q, lower, hits);
    hits := Scan(scrollback, Scrollback, q, lower, hits);
    var first := RegionHits(viewport, Viewport, q, lower, |viewport|);
    assert [] + first == first;
  }

  /** The offsets reported for one row, read off a result list. */
  function StartsOf(hits: seq<Hit>, region: Region, y: nat): seq<nat> {
    if hits == [] then []
    else (if hits[0].region == region && hits[0].row == y then [hits[0].start] else []) + StartsOf(hits[1..], region, y)
  }

  lemma {:induction false} StartsOfConcat(a: seq<Hit>, b: seq<Hit>, region: Region, y: nat)
    ensures StartsOf(a + b, region, y) == StartsOf(a, region, y) + StartsOf(b, region, y)
  {
    if a == [] {
      assert a + b == b;
    } else {
      StartsOfConcat(a[1..], b, region, y);
      assert (a + b)[0] == a[0] && (a + b)[1..] == a[1..] + b;
      var head := if a[0].region == region && a[0].row == y then [a[0].start] else [];
      assert head + (StartsOf(a[1..], region, y) + StartsOf(b, region, y))
          == head + StartsOf(a[1..], region, y) + StartsOf(b, region, y);
    }
  }

  lemma {:induction false} StartsOfRow(region: Region, y: nat, line: Row, q: Text, starts: seq<nat>,
                                       region': Region, y': nat)
    ensures StartsOf(RowHits(region, y, line, q, starts), region', y')
         == if region == region' && y == y' then starts else []
  {
    if starts != [] {
      StartsOfRow(region, y, line, q, starts[1..], region', y');
      assert RowHits(region, y, line, q, starts)[1..] == RowHits(region, y, line, q, starts[1..]);
      assert starts == [starts[0]] + starts[1..];
    }
  }

  lemma {:induction false} StartsOfRegion(rows: seq<Row>, region: Region, q: Text, lower: Lowering, n: nat,
                                          region': Region, y: nat)
    requires q != [] && n <= |rows|
    ensures StartsOf(RegionHits(rows, region, q, lower, n), region', y)
         == if region == region' && y < n then StartsFrom(LowerText(lower, rows[y]), q, 0) else []
  {
    hide StartsFrom, RowHits, StartsOf, LowerText;
    if n > 0 {
      var starts := StartsFrom(LowerText(lower, rows[n - 1]), q, 0);
      var row := RowHits(region, n - 1, rows[n - 1], q, starts);
      var before := RegionHits(rows, region, q, lower, n - 1);
      assert RegionHits(rows, region, q, lower, n) == before + row;
      StartsOfConcat(before, row, region', y);
      StartsOfRow(region, n - 1, rows[n - 1], q, starts, region', y);
      StartsOfRegion(rows, region, q, lower, n - 1, region', y);
    } else {
      StartsOfNothing(region', y);
    }
  }

  lemma StartsOfNothing(region: Region, y: nat)
    ensures StartsOf([], region, y) == []
  {
  }

  /** Row by row, the result of a search is the leftmost non-overlapping occurrences, and nothing else. */
  lemma EveryRowIsLeftmost(viewport: seq<Row>, scrollback: seq<Row>, q: Text, lower: Lowering,
                           region: Region, y: nat)
    requires q != []
    ensures var hits := RegionHits(viewport, Viewport, q, lower, |viewport|)
                        + RegionHits(scrollback, Scrollback, q, lower, |scrollback|);
            var rows := if region == Viewport then viewport else scrollback;
            if y < |rows| then Leftmost(LowerText(lower, rows[y]), q, StartsOf(hits, region, y))
            else StartsOf(hits, region, y) == []
  {
    hide StartsFrom, StartsOf, RegionHits, Leftmost;
    StartsOfRegion(viewport, Viewport, q, lower, |viewport|, region, y);
    StartsOfRegion(scrollback, Scrollback, q, lower, |scrollback|, region, y);
    StartsOfConcat(RegionHits(viewport, Viewport, q, lower, |viewport|),
                   RegionHits(scrollback, Scrollback, q, lower, |scrollback|), region, y);
    var rows := if region == Viewport then viewport else scrollback;
    if y < |rows| {
      ScanIsLeftmost(LowerText(lower, rows[y]), q);
      var starts := StartsFrom(LowerText(lower, rows[y]), q, 0);
      assert starts + [] == starts && [] + starts == starts;
    }
  }

  // ----- offsets ----------------------------------------------------------

  /** No character vanishes, and one that becomes several changes its width, as U+0130 does. */
  ghost predicate IsLowerCase(lower: Lowering) {
    forall c :: lower(c) != [] && (|lower(c)| > 1 ==> !KeepsWidth(lower, c))
  }

  predicate KeepsWidth(lower: Lowering, c: Scalar) { |Bytes(lower(c))| == |Utf8Bytes(c)| }

  /** The offsets `search_screen` reports for a query in a row. */
  function Starts(lower: Lowering, row: Row, query: Row): seq<nat>
    requires LowerText(lower, query) != []
  {
    StartsFrom(LowerText(lower, row), LowerText(lower, query), 0)
  }

  lemma LoweredCons(lower: Lowering, c: Scalar, rest: Row)
    ensures Lowered(lower, []) == [] && Lowered(lower, [c] + rest) == lower(c) + Lowered(lower, rest)
  {
    assert ([c] + rest)[1..] == rest;
  }

  lemma {:induction false} LoweredConcat(lower: Lowering, a: Row, b: Row)
    ensures Lowered(lower, a + b) == Lowered(lower, a) + Lowered(lower, b)
  {
    hide Lowered;
    if a == [] {
      LoweredCons(lower, 0, []);
      assert a + b == b && [] + Lowered(lower, b) == Lowered(lower, b);
    } else {
      LoweredConcat(lower, a[1..], b);
      LoweredCons(lower, a[0], a[1..]);
      LoweredCons(lower, a[0], a[1..] + b);
      assert a == [a[0]] + a[1..] && a + b == [a[0]] + (a[1..] + b);
      var head := lower(a[0]);
      assert head + (Lowered(lower, a[1..]) + Lowered(lower, b)) == head + Lowered(lower, a[1..]) + Lowered(lower, b);
    }
  }

  lemma LowerTextConcat(lower: Lowering, a: Row, b: Row)
    ensures LowerText(lower, a + b) == LowerText(lower, a) + LowerText(lower, b)
  {
    LoweredConcat(lower, a, b);
    BytesConcat(Lowered(lower, a), Lowered(lower, b));
    hide Lowered, Bytes;
  }

  lemma {:induction false} LoweredGrows(lower: Lowering, row: Row)
    requires IsLowerCase(lower)
    ensures |Lowered(lower, row)| >= |row|
  {
    if row != [] {
      LoweredGrows(lower, row[1..]);
      assert lower(row[0]) != [];
    }
  }

  /** A query that is not empty is not empty in lower case. */
  lemma QueryStays(lower: Lowering, query: Row)
    requires IsLowerCase(lower) && query != []
    ensures Lowered(lower, query) != [] && LowerText(lower, query) != []
  {
    LoweredGrows(lower, query);
    BytesGrow(Lowered(lower, query));
  }

  /** A hit begins and ends between characters of the lower-cased row, so slicing there is always possible. */
  lemma HitsAreWhole(lower: Lowering, row: Row, query: Row, at: nat) returns (k: nat)
    requires IsLowerCase(lower) && query != [] && OccursAt(LowerText(lower, row), LowerText(lower, query), at)
    ensures var low, q := Lowered(lower, row), Lowered(lower, query);
            && k + |q| <= |low| && low[k..k + |q|] == q
            && |Bytes(low[..k])| == at && |Bytes(low[..k + |q|])| == at + |LowerText(lower, query)|
  {
    QueryStays(lower, query);
    hide Lowered, Bytes, OccursAt;
    k := MatchIsAligned(Lowered(lower, row), Lowered(lower, query), at);
  }

  /** The first `k` characters are as long in lower case. */
  predicate KeepsPrefix(lower: Lowering, row: Row, k: nat)
    requires k <= |row|
  {
    |LowerText(lower, row[..k])| == |Bytes(row[..k])|
  }

  /** The matched text is the lower case of the characters `i` up to `j` of the row. */
  predicate IsPlace(lower: Lowering, row: Row, at: nat, len: nat, i: nat, j: nat) {
    i <= j <= |row| && |LowerText(lower, row[..i])| == at && |LowerText(lower, row[..j])| == at + len
  }

  lemma MiddlePart(a: Text, b: Text, c: Text, text: Text)
    requires text == a + b + c
    ensures text[|a|..|a + b|] == b
  {
  }

  lemma SplitAt(lower: Lowering, row: Row, i: nat, j: nat)
    requires i <= j <= |row|
    ensures LowerText(lower, row[..j]) == LowerText(lower, row[..i]) + LowerText(lower, row[i..j])
    ensures LowerText(lower, row) == LowerText(lower, row[..j]) + LowerText(lower, row[j..])
    ensures Bytes(row[..j]) == Bytes(row[..i]) + Bytes(row[i..j])
  {
    hide LowerText, Bytes;
    assert row[..j] == row[..i] + row[i..j] && row == row[..j] + row[j..];
    LowerTextConcat(lower, row[..i], row[i..j]);
    LowerTextConcat(lower, row[..j], row[j..]);
    BytesConcat(row[..i], row[i..j]);
  }

  /**
   A hit is documented by its offset and length in the row. Where the characters
   `i` up to `j` are what matched, it names them exactly if lower-casing keeps the
   length of the prefixes that end at `i` and at `j`.
  */
  lemma HitIsItsPlace(lower: Lowering, row: Row, query: Row, at: nat, i: nat, j: nat)
    requires LowerText(lower, query) != [] && at in Starts(lower, row, query)
    requires IsPlace(lower, row, at, |LowerText(lower, query)|, i, j)
    ensures LowerText(lower, row[i..j]) == LowerText(lower, query)
    ensures |Bytes(row[..i])| == at && |Bytes(row[i..j])| == |LowerText(lower, query)|
            <==> KeepsPrefix(lower, row, i) && KeepsPrefix(lower, row, j)
  {
    var text, q := LowerText(lower, row), LowerText(lower, query);
    ScanIsLeftmost(text, q);
    HitOccurs(text, q, at);
    SplitAt(lower, row, i, j);
    hide LowerText, Bytes, StartsFrom;
    MiddlePart(LowerText(lower, row[..i]), LowerText(lower, row[i..j]), LowerText(lower, row[j..]), text);
  }

  lemma HitOccurs(text: Text, q: Text, at: nat)
    requires q != [] && at in StartsFrom(text, q, 0) && Leftmost(text, q, StartsFrom(text, q, 0))
    ensures OccursAt(text, q, at)
  {
    hide StartsFrom, OccursAt;
    var starts := StartsFrom(text, q, 0);
    var i :| 0 <= i < |starts| && starts[i] == at;
    assert OccursAt(text, q, starts[i]);
  }

  /** The reported bytes of the row are whole characters, and their lower case is the query's. */
  ghost predicate Names(lower: Lowering, row: Row, query: Row, at: nat) {
    exists i: nat, j: nat :: NamesAs(lower, row, query, at, i, j)
  }

  predicate NamesAs(lower: Lowering, row: Row, query: Row, at: nat, i: nat, j: nat) {
    && i <= j <= |row| && |Bytes(row[..i])| == at && |Bytes(row[..j])| == at + |LowerText(lower, query)|
    && Lowered(lower, row[i..j]) == Lowered(lower, query)
  }

  lemma {:induction false} SteadyRow(lower: Lowering, row: Row)
    requires IsLowerCase(lower) && forall i :: 0 <= i < |row| ==> KeepsWidth(lower, row[i])
    ensures |Lowered(lower, row)| == |row| && |LowerText(lower, row)| == |Bytes(row)|
    ensures forall i :: 0 <= i < |row| ==> lower(row[i]) == [Lowered(lower, row)[i]]
  {
    if row != [] {
      SteadyRow(lower, row[1..]);
      assert KeepsWidth(lower, row[0]) && lower(row[0]) != [];
      BytesConcat(lower(row[0]), Lowered(lower, row[1..]));
      hide Utf8Bytes;
    }
  }

  lemma SteadyPart(lower: Lowering, row: Row, i: nat, j: nat)
    requires IsLowerCase(lower) && forall k :: 0 <= k < |row| ==> KeepsWidth(lower, row[k])
    requires i <= j <= |row|
    ensures |Lowered(lower, row)| == |row| && Lowered(lower, row[i..j]) == Lowered(lower, row)[i..j]
    ensures |LowerText(lower, row[i..j])| == |Bytes(row[i..j])|
  {
    hide Bytes, KeepsWidth;
    SteadyRow(lower, row);
    SteadyRow(lower, row[i..j]);
    hide Lowered, IsLowerCase;
    forall k | 0 <= k < j - i
      ensures Lowered(lower, row[i..j])[k] == Lowered(lower, row)[i + k]
    {
      assert row[i..j][k] == row[i + k];
      assert [Lowered(lower, row[i..j])[k]] == [Lowered(lower, row)[i + k]];
    }
  }

  /** In a row of steady widths every hit is right. */
  lemma SteadyHit(lower: Lowering, row: Row, query: Row, at: nat)
    requires IsLowerCase(lower) && forall k :: 0 <= k < |row| ==> KeepsWidth(lower, row[k])
    requires query != [] && OccursAt(LowerText(lower, row), LowerText(lower, query), at)
    ensures Names(lower, row, query, at)
  {
    hide OccursAt, KeepsWidth, Bytes, Lowered, IsLowerCase;
    var k := HitsAreWhole(lower, row, query, at);
    SteadyPart(lower, row, 0, |row|);
    assert row[0..|row|] == row;
    var j := k + |Lowered(lower, query)|;
    SteadyPart(lower, row, k, j);
    SteadyPart(lower, row, 0, k);
    SteadyPart(lower, row, 0, j);
    assert row[0..k] == row[..k] && row[0..j] == row[..j];
    var low := Lowered(lower, row);
    assert low[0..k] == low[..k] && low[0..j] == low[..j];
    assert NamesAs(lower, row, query, at, k, j);
  }

  /** Searching a row for its own beginning finds it there, and tells the beginning's two lengths apart. */
  lemma PrefixQuery(lower: Lowering, row: Row, k: nat)
    requires IsLowerCase(lower) && 0 < k <= |row|
    ensures LowerText(lower, row[..k]) != [] && 0 in Starts(lower, row, row[..k])
    ensures Names(lower, row, row[..k], 0) ==> KeepsPrefix(lower, row, k)
  {
    QueryStays(lower, row[..k]);
    var text, q := LowerText(lower, row), LowerText(lower, row[..k]);
    SplitAt(lower, row, k, k);
    hide LowerText, Bytes, Lowered, IsLowerCase;
    assert text[0..|q|] == q;
    FoundAtFront(text, q);
    if i: nat, j: nat :| NamesAs(lower, row, row[..k], 0, i, j) {
      BytesGrow(row[..i]);
      assert i == 0 && row[0..j] == row[..j];
      SameLoweredPrefix(lower, row, j, k);
    }
  }

  lemma FoundAtFront(text: Text, q: Text)
    requires q != [] && OccursAt(text, q, 0)
    ensures 0 in StartsFrom(text, q, 0)
  {
    assert StartsFrom(text, q, 0)[0] == 0;
  }

  lemma SameLoweredPrefix(lower: Lowering, row: Row, j: nat, k: nat)
    requires IsLowerCase(lower) && j <= |row| && k <= |row|
    requires Lowered(lower, row[..j]) == Lowered(lower, row[..k])
    ensures j == k
  {
    if j < k {
      LoweredLonger(lower, row, j, k);
    } else if k < j {
      LoweredLonger(lower, row, k, j);
    }
  }

  lemma LoweredLonger(lower: Lowering, row: Row, j: nat, k: nat)
    requires IsLowerCase(lower) && j < k <= |row|
    ensures |Lowered(lower, row[..j])| < |Lowered(lower, row[..k])|
  {
    LoweredGrows(lower, row[j..k]);
    LoweredConcat(lower, row[..j], row[j..k]);
    hide Lowered, IsLowerCase;
    assert row[..j] + row[j..k] == row[..k];
  }

  lemma {:induction false} PrefixesAreWidths(lower: Lowering, row: Row, n: nat)
    requires n <= |row| && forall k: nat :: k <= |row| ==> KeepsPrefix(lower, row, k)
    ensures forall i :: 0 <= i < n ==> KeepsWidth(lower, row[i])
  {
    hide LowerText, Bytes, Utf8Bytes;
    if n > 0 {
      PrefixesAreWidths(lower, row, n - 1);
      SplitAt(lower, row, n - 1, n);
      assert KeepsPrefix(lower, row, n - 1) && KeepsPrefix(lower, row, n);
      assert row[n - 1..n] == [row[n - 1]];
      OneCharacter(lower, row[n - 1]);
    }
  }

  lemma OneCharacter(lower: Lowering, c: Scalar)
    ensures LowerText(lower, [c]) == Bytes(lower(c)) && Bytes([c]) == Utf8Bytes(c)
  {
    hide Utf8Bytes;
    assert [c][1..] == [] && Lowered(lower, []) == [];
    assert Lowered(lower, [c]) == lower(c) + [] == lower(c);
    assert Utf8Bytes(c) + [] == Utf8Bytes(c);
  }

  ghost predicate AllHitsNamed(lower: Lowering, row: Row) {
    forall query: Row, at: nat :: query != [] && LowerText(lower, query) != [] && at in Starts(lower, row, query) ==>
      Names(lower, row, query, at)
  }

  /**
   An offset is documented as one in the row. Over all queries, every hit in a row
   names characters that lower-case to the query exactly if every character of the
   row keeps its width in lower case.
  */
  lemma OffsetsMeanTheRow(lower: Lowering, row: Row)
    requires IsLowerCase(lower)
    ensures AllHitsNamed(lower, row) <==> forall i :: 0 <= i < |row| ==> KeepsWidth(lower, row[i])
  {
    hide IsLowerCase, KeepsWidth, LowerText, Names, Bytes, Lowered;
    if forall i :: 0 <= i < |row| ==> KeepsWidth(lower, row[i]) {
      forall query: Row, at: nat | query != [] && LowerText(lower, query) != [] && at in Starts(lower, row, query)
        ensures Names(lower, row, query, at)
      {
        hide StartsFrom;
        ScanIsLeftmost(LowerText(lower, row), LowerText(lower, query));
        HitOccurs(LowerText(lower, row), LowerText(lower, query), at);
        SteadyHit(lower, row, query, at);
      }
    }
    if AllHitsNamed(lower, row) {
      forall k: nat | k <= |row|
        ensures KeepsPrefix(lower, row, k)
      {
        if k > 0 { PrefixQuery(lower, row, k); } else { EmptyPrefix(lower, row); }
      }
      PrefixesAreWidths(lower, row, |row|);
    }
  }

  lemma EmptyPrefix(lower: Lowering, row: Row)
    ensures KeepsPrefix(lower, row, 0)
  {
  }

  // ----- two rows that shift their hits -----------------------------------

  /** Some of the lower-case table: ASCII letters, the Kelvin sign and the dotted capital I. */
  function SampleLower(c: Scalar): Row {
    if 65 <= c <= 90 then [c + 32] else if c == 0x212A then [0x6B] else if c == 0x130 then [0x69, 0x307] else [c]
  }

  lemma SampleIsLowerCase()
    ensures IsLowerCase(SampleLower)
  {
    assert [0x69, 0x307][1..] == [0x307] && [0x307 as Scalar][1..] == [];
    forall c | |SampleLower(c)| > 1
      ensures !KeepsWidth(SampleLower, c)
    {
      assert Bytes([0x69, 0x307]) == [0x69] + Bytes([0x307]);
    }
  }

  /**
   Under a lower-casing that shortens U+212A and lengthens U+0130, `ab` behind
   either is reported where it does not stand.
  */
  lemma OffsetsCanMissTheRow()
    ensures IsLowerCase(SampleLower)
    ensures var row := [0x212A, 0x61, 0x62];
            Starts(SampleLower, row, [0x61, 0x62]) == [1] && !Names(SampleLower, row, [0x61, 0x62], 1)
    ensures var row := [0x130, 0x61, 0x62];
            Starts(SampleLower, row, [0x61, 0x62]) == [3] && !Names(SampleLower, row, [0x61, 0x62], 3)
  {
    SampleIsLowerCase();
    SampleTexts();
    ShiftedHit([0x6B]);
    ShiftedHit([0x69, 0xCC, 0x87]);
    assert [0x6B, 0x61, 0x62] == [0x6B as Byte] + [0x61, 0x62];
    assert [0x69, 0xCC, 0x87, 0x61, 0x62] == [0x69 as Byte, 0xCC, 0x87] + [0x61, 0x62];
    hide StartsFrom, LowerText, Lowered, Bytes, Utf8Bytes;
    NotNamed(0x212A, 1);
    NotNamed(0x130, 3);
  }

  lemma BytesOfOne(c: Scalar)
    ensures Bytes([c]) == Utf8Bytes(c)
  {
    assert [c][1..] == [] && Utf8Bytes(c) + [] == Utf8Bytes(c);
  }

  lemma SampleTexts()
    ensures LowerText(SampleLower, [0x61, 0x62]) == [0x61, 0x62]
    ensures LowerText(SampleLower, [0x212A, 0x61, 0x62]) == [0x6B, 0x61, 0x62]
    ensures LowerText(SampleLower, [0x130, 0x61, 0x62]) == [0x69, 0xCC, 0x87, 0x61, 0x62]
  {
    LowerPair();
    LowerBehind(0x212A);
    LowerBehind(0x130);
    BytesOfOne(0x6B);
    BytesConcat([0x69], [0x307]);
    BytesOfOne(0x69);
    BytesOfOne(0x307);
    assert [0x69 as Scalar] + [0x307] == [0x69, 0x307];
  }

  lemma LowerPair()
    ensures LowerText(SampleLower, [0x61, 0x62]) == [0x61, 0x62]
  {
    LowerTextConcat(SampleLower, [0x61], [0x62]);
    assert [0x61 as Scalar] + [0x62] == [0x61, 0x62];
    OneCharacter(SampleLower, 0x61);
    OneCharacter(SampleLower, 0x62);
    BytesOfOne(0x61);
    BytesOfOne(0x62);
    hide LowerText, Bytes;
  }

  lemma LowerBehind(c: Scalar)
    ensures LowerText(SampleLower, [c, 0x61, 0x62]) == Bytes(SampleLower(c)) + [0x61, 0x62]
  {
    LowerPair();
    OneCharacter(SampleLower, c);
    LowerTextConcat(SampleLower, [c], [0x61, 0x62]);
    assert [c] + [0x61, 0x62] == [c, 0x61, 0x62];
    hide LowerText, Bytes, SampleLower;
  }

  lemma ShiftedHit(before: Text)
    requires 0x61 !in before
    ensures StartsFrom(before + [0x61, 0x62], [0x61, 0x62], 0) == [|before|]
  {
    var text, q: Text := before + [0x61, 0x62], [0x61, 0x62];
    OnlyAtEnd(before);
    NothingBehind(text, q);
    hide OccursAt;
    FindIs(text, q, |before|);
    var found := FindFrom(text, q, 0);
    assert found == Some(|before|);
    assert StartsFrom(text, q, 0) == [|before|] + StartsFrom(text, q, |before| + |q|);
  }

  lemma OnlyAtEnd(before: Text)
    requires 0x61 !in before
    ensures OccursAt(before + [0x61, 0x62], [0x61, 0x62], |before|)
    ensures forall i: nat :: i < |before| ==> !OccursAt(before + [0x61, 0x62], [0x61, 0x62], i)
  {
    var text, q: Text := before + [0x61, 0x62], [0x61, 0x62];
    assert text[|before|..|before| + 2] == q;
    forall i: nat | i < |before|
      ensures !OccursAt(text, q, i)
    {
      if i + 2 <= |text| { assert text[i..i + 2][0] == before[i]; }
    }
  }

  lemma NothingBehind(text: Text, q: Text)
    requires q != []
    ensures StartsFrom(text, q, |text|) == []
  {
  }

  lemma NotNamed(c: Scalar, at: nat)
    requires (c == 0x212A && at == 1) || (c == 0x130 && at == 3)
    ensures !Names(SampleLower, [c, 0x61, 0x62], [0x61, 0x62], at)
  {
    var row := [c, 0x61, 0x62];
    LowerPair();
    RowPrefixes(c);
    hide Bytes, Lowered, LowerText;
    forall i: nat, j: nat
      ensures !NamesAs(SampleLower, row, [0x61, 0x62], at, i, j)
    {
      if i <= j <= 3 { assert i == 0 || i == 1 || i == 2 || i == 3; }
    }
  }

  lemma RowPrefixes(c: Scalar)
    requires c == 0x212A || c == 0x130
    ensures var row, w := [c, 0x61, 0x62], |Utf8Bytes(c)|;
            && |Bytes(row[..0])| == 0 && |Bytes(row[..1])| == w
            && |Bytes(row[..2])| == w + 1 && |Bytes(row[..3])| == w + 2
  {
    var row := [c, 0x61, 0x62];
    assert row[..1] == [c] && row[..2] == [c] + [0x61] && row[..3] == row[..2] + [0x62];
    BytesOfOne(c);
    BytesOfOne(0x61);
    BytesOfOne(0x62);
    BytesConcat([c], [0x61]);
    BytesConcat(row[..2], [0x62]);
  }

  // ----- ASCII rows -------------------------------------------------------

  function AsciiLower(c: Scalar): Row { [LowerChar(c)] }

  function LowerChar(c: Scalar): Scalar { if 65 <= c <= 90 then c + 32 else c }

  predicate SameLetter(c: Scalar, d: Scalar) {
    c == d || (65 <= c <= 90 && d == c + 32) || (65 <= d <= 90 && c == d + 32)
  }

  lemma SameLetterMeans(c: Scalar, d: Scalar)
    ensures SameLetter(c, d) <==> LowerChar(c) == LowerChar(d)
  {
  }

  predicate IsAscii(row: Row) { forall i :: 0 <= i < |row| ==> row[i] < 0x80 }

  lemma {:induction false} AsciiText(row: Row)
    requires IsAscii(row)
    ensures |LowerText(AsciiLower, row)| == |row|
    ensures forall i :: 0 <= i < |row| ==> LowerText(AsciiLower, row)[i] == LowerChar(row[i])
  {
    if row != [] {
      AsciiText(row[1..]);
      OneCharacter(AsciiLower, row[0]);
      BytesOfOne(LowerChar(row[0]));
      LowerTextConcat(AsciiLower, [row[0]], row[1..]);
      assert [row[0]] + row[1..] == row;
      hide LowerText, Bytes;
    }
  }

  /** On ASCII rows a hit is where the query stands, letter by letter, whatever the case. */
  lemma OffsetsAreTheRows(row: Row, query: Row, at: nat)
    requires IsAscii(row) && IsAscii(query)
    ensures OccursAt(LowerText(AsciiLower, row), LowerText(AsciiLower, query), at)
            <==> at + |query| <= |row| && forall i :: 0 <= i < |query| ==> SameLetter(row[at + i], query[i])
  {
    AsciiText(row);
    AsciiText(query);
    forall c: Scalar, d: Scalar
      ensures SameLetter(c, d) <==> LowerChar(c) == LowerChar(d)
    {
      SameLetterMeans(c, d);
    }
    hide LowerText, LowerChar, SameLetter;
    var text, q := LowerText(AsciiLower, row), LowerText(AsciiLower, query);
    if at + |query| <= |row| {
      var piece := text[at..at + |q|];
      assert forall i :: 0 <= i < |query| ==> piece[i] == LowerChar(row[at + i]) && q[i] == LowerChar(query[i]);
      if forall i :: 0 <= i < |query| ==> SameLetter(row[at + i], query[i]) {
        assert piece == q;
      }
    }
  }
}
