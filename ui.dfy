/** The rendering helpers with logic in them: column padding, the size unit, the score colour, and
    the grouping of scored results into one table per memory tier. What reaches the terminal
    (escape codes, `toFixed` digits, the lines themselves) is not modelled; a rendered table is
    the list of its rows, each with the values its cells are built from. */
module Ui {
  import opened Types
  import opened Ranking

  // ---------------------------------------------------------------------------
  // padRight
  // ---------------------------------------------------------------------------

  /** `" ".repeat(n)`. */
  function Spaces(n: nat): (s: string)
    ensures |s| == n
    ensures forall k :: 0 <= k < n ==> s[k] == ' '
  {
    seq(n, _ => ' ')
  }

  /** Where `str.slice(0, len)` ends when `str.length >= len`: a negative `len` counts back from
      the end of the string, and never past its start. */
  function SliceEnd(length: nat, len: int): (end: nat)
    requires length >= len
    ensures end <= length
  {
    if len >= 0 then len
    else if length + len > 0 then length + len
    else 0
  }

  /** `padRight`: truncate to `len` characters, or fill with spaces up to `len`. */
  function PadRight(str: string, len: int): (r: string)
    ensures len >= 0 ==> |r| == len
    ensures |str| < len ==> r[..|str|] == str && forall k :: |str| <= k < |r| ==> r[k] == ' '
    ensures 0 <= len <= |str| ==> r == str[..len]
    ensures len < 0 ==> |r| == (if |str| + len > 0 then |str| + len else 0) && r == str[..|r|]
  {
    if |str| >= len then str[..SliceEnd(|str|, len)]
    else
      var padded := str + Spaces(len - |str|);
      assert padded[..|str|] == str;
      padded
  }

  /** A padded cell never loses the characters that fit: the first `min(|str|, len)` of them. */
  lemma PadRightKeepsPrefix(str: string, len: nat)
    ensures var n := if |str| < len then |str| else len; PadRight(str, len)[..n] == str[..n]
  {
    var n := if |str| < len then |str| else len;
    if |str| < len {
      assert str[..n] == str;
    }
  }

  // ---------------------------------------------------------------------------
  // formatBytes and the score colour
  // ---------------------------------------------------------------------------

  datatype ByteUnit = KB | MB | GB

  /** A formatted size: the scaled value (printed with `toFixed`) and its unit. */
  datatype SizeText = SizeText(value: real, unit: ByteUnit)

  const KiB: nat := 1024
  const MiB: nat := 1024 * 1024
  const GiB: nat := 1024 * 1024 * 1024

  function Scale(u: ByteUnit): (factor: nat)
    ensures factor > 0
  {
    match u
    case KB => KiB
    case MB => MiB
    case GB => GiB
  }

  /** `formatBytes`: kilobytes below 1024², megabytes below 1024³, gigabytes otherwise. */
  function FormatBytes(bytes: nat): (f: SizeText)
    ensures f.unit == KB <==> bytes < MiB
    ensures f.unit == MB <==> MiB <= bytes < GiB
    ensures f.unit == GB <==> GiB <= bytes
    ensures f.value * Scale(f.unit) as real == bytes as real
  {
    if bytes < MiB then SizeText(bytes as real / KiB as real, KB)
    else if bytes < GiB then SizeText(bytes as real / MiB as real, MB)
    else SizeText(bytes as real / GiB as real, GB)
  }

  /** The unit is the largest one in which the value is at least 1, except that sizes below one
      kilobyte are still shown in kilobytes: the value shown is below 1024 for kilobytes and
      megabytes, and at least 1 for megabytes and gigabytes. */
  lemma FormatBytesRange(bytes: nat)
    ensures FormatBytes(bytes).unit != GB ==> FormatBytes(bytes).value < 1024.0
    ensures FormatBytes(bytes).unit != KB ==> FormatBytes(bytes).value >= 1.0
  {
    var f := FormatBytes(bytes);
    var scale := Scale(f.unit) as real;
    assert f.value * scale == bytes as real;
    if f.unit == KB {
      assert (bytes as real) < 1024.0 * 1024.0;
    } else if f.unit == MB {
      assert (bytes as real) < 1024.0 * 1024.0 * 1024.0;
      assert (bytes as real) >= 1024.0 * 1024.0;
    } else {
      assert (bytes as real) >= 1024.0 * 1024.0 * 1024.0;
    }
  }

  datatype Colour = Red | Yellow | Green

  function ColourRank(c: Colour): nat {
    match c
    case Red => 0
    case Yellow => 1
    case Green => 2
  }

  /** The colour of a composite score: green from 70, yellow from 40, red below. */
  function ScoreColour(score: real): (c: Colour)
    ensures c == Green <==> score >= 70.0
    ensures c == Yellow <==> 40.0 <= score < 70.0
    ensures c == Red <==> score < 40.0
  {
    if score >= 70.0 then Green else if score >= 40.0 then Yellow else Red
  }

  /** A higher score never gets a worse colour. */
  lemma ScoreColourMonotone(a: real, b: real)
    requires a <= b
    ensures ColourRank(ScoreColour(a)) <= ColourRank(ScoreColour(b))
  {
  }

  // ---------------------------------------------------------------------------
  // renderTieredResults
  // ---------------------------------------------------------------------------

  /** One table row: the star, the padded name, host and parameter cells, the size, the colour
      of the score cell, and the scored result the remaining cells are printed from. */
  datatype Row = Row(starred: bool, name: string, host: string, size: SizeText, params: string,
                     colour: Colour, scored: ScoredResult)

  /** One tier's table. */
  datatype Group = Group(tier: Tier, rows: seq<Row>)

  const TierOrder: seq<Tier> := [Tiny, Small, Medium, Large, XL]

  /** `scored.filter((s) => s.tier === tier)`. */
  function InTier(scored: seq<ScoredResult>, tier: Tier): (kept: seq<ScoredResult>)
    ensures |kept| <= |scored|
    ensures forall x :: x in kept ==> x in scored && x.tier == tier
    decreases |scored|
  {
    if |scored| == 0 then []
    else
      var last := scored[|scored| - 1];
      InTier(scored[..|scored| - 1], tier) + (if last.tier == tier then [last] else [])
  }

  /** The row printed at position `i` of a table. */
  function RowAt(s: ScoredResult, i: nat): (row: Row)
    ensures row.starred <==> i == 0
    ensures |row.name| == 28 && |row.host| == 18 && |row.params| == 10
    ensures row.scored == s
  {
    var r := s.result;
    Row(i == 0, PadRight(r.model.name, 28), PadRight(r.model.host.hostname, 18), FormatBytes(r.model.size),
        PadRight(r.model.parameterSize, 10), ScoreColour(s.compositeScore), s)
  }

  /** The rows of a sorted table, in order. */
  function Rows(sorted: seq<ScoredResult>): (rows: seq<Row>)
    ensures |rows| == |sorted|
  {
    seq(|sorted|, i requires 0 <= i < |sorted| => RowAt(sorted[i], i))
  }

  /** The tables for the given tiers, in the given order, skipping tiers with no result. */
  function Tables(scored: seq<ScoredResult>, tiers: seq<Tier>): seq<Group>
    decreases |tiers|
  {
    if |tiers| == 0 then []
    else
      var tier := tiers[|tiers| - 1];
      var inTier := SortDesc(InTier(scored, tier));
      Tables(scored, tiers[..|tiers| - 1]) + (if |inTier| == 0 then [] else [Group(tier, Rows(inTier))])
  }

  function Rendered(scored: seq<ScoredResult>): seq<Group> {
    Tables(scored, TierOrder)
  }

  /** The row loop of `renderTieredResults`: one row per result, the star on row 0. */
  method TableRows(sorted: seq<ScoredResult>) returns (rows: seq<Row>)
    ensures rows == Rows(sorted)
  {
    rows := [];
    for i := 0 to |sorted|
      invariant rows == Rows(sorted)[..i]
    {
      var s := sorted[i];
      var r := s.result;
      var starred := i == 0;
      var colour := ScoreColour(s.compositeScore);
      rows := rows + [Row(starred, PadRight(r.model.name, 28), PadRight(r.model.host.hostname, 18),
                          FormatBytes(r.model.size), PadRight(r.model.parameterSize, 10), colour, s)];
    }
  }

  /** `renderTieredResults`: the loop over the tiers and, inside it, the loop over a tier's rows. */
  method RenderTieredResults(scored: seq<ScoredResult>) returns (groups: seq<Group>)
    ensures groups == Rendered(scored)
  {
    var tiers := TierOrder;
    groups := [];
    for t := 0 to |tiers|
      invariant groups == Tables(scored, tiers[..t])
    {
      var tier := tiers[t];
      assert tiers[..t + 1][..t] == tiers[..t];
      var inTier := SortDesc(InTier(scored, tier));
      if |inTier| == 0 {
        continue;
      }
      var rows := TableRows(inTier);
      groups := groups + [Group(tier, rows)];
    }
    assert tiers[..|tiers|] == tiers;
  }

  // ---------------------------------------------------------------------------
  // what the tables show
  // ---------------------------------------------------------------------------

  /** The scored results of a table's rows, top to bottom. */
  function Results(rows: seq<Row>): (rs: seq<ScoredResult>)
    ensures |rs| == |rows|
  {
    seq(|rows|, i requires 0 <= i < |rows| => rows[i].scored)
  }

  /** Filtering keeps exactly the results of the tier, as many times as they occur. */
  lemma {:induction false} InTierCount(scored: seq<ScoredResult>, tier: Tier, x: ScoredResult)
    ensures multiset(InTier(scored, tier))[x] == if x.tier == tier then multiset(scored)[x] else 0
    decreases |scored|
  {
    if |scored| > 0 {
      InTierCount(scored[..|scored| - 1], tier, x);
      assert scored == scored[..|scored| - 1] + [scored[|scored| - 1]];
    }
  }

  /** Each table's rows are its tier's results, sorted by descending score, with the star on
      the first row only. */
  lemma GroupShape(scored: seq<ScoredResult>, tier: Tier)
    ensures var rows := Rows(SortDesc(InTier(scored, tier)));
      && multiset(Results(rows)) == multiset(InTier(scored, tier))
      && SortedDesc(Results(rows))
      && (forall i :: 0 <= i < |rows| ==> (rows[i].starred <==> i == 0))
      && (forall i :: 0 <= i < |rows| ==> rows[i].scored.tier == tier)
  {
    var sorted := SortDesc(InTier(scored, tier));
    var rows := Rows(sorted);
    SortDescSorted(InTier(scored, tier));
    assert Results(rows) == sorted;
    forall i | 0 <= i < |rows| ensures rows[i].scored.tier == tier {
      InTierCount(scored, tier, sorted[i]);
      assert sorted[i] in multiset(sorted);
    }
  }

  /** A table holds each result of its tier as many times as the scored list does. */
  lemma GroupCount(scored: seq<ScoredResult>, tier: Tier, x: ScoredResult)
    ensures multiset(Results(Rows(SortDesc(InTier(scored, tier)))))[x] == if x.tier == tier then multiset(scored)[x] else 0
  {
    var sorted := SortDesc(InTier(scored, tier));
    assert Results(Rows(sorted)) == sorted;
    InTierCount(scored, tier, x);
  }

  /** Tiers listed in strictly increasing display order. */
  ghost predicate Ascending(tiers: seq<Tier>) {
    forall i, j :: 0 <= i < j < |tiers| ==> TierRank(tiers[i]) < TierRank(tiers[j])
  }

  /** The tables keep the order of the tiers, with no empty table, and each table is its tier's
      results. */
  lemma TablesShape(scored: seq<ScoredResult>, tiers: seq<Tier>)
    requires Ascending(tiers)
    ensures forall i, j :: 0 <= i < j < |Tables(scored, tiers)| ==>
      TierRank(Tables(scored, tiers)[i].tier) < TierRank(Tables(scored, tiers)[j].tier)
    ensures forall g :: g in Tables(scored, tiers) ==>
      g.tier in tiers && |g.rows| > 0 && g.rows == Rows(SortDesc(InTier(scored, g.tier)))
  {
    TablesOrdered(scored, tiers);
    TablesGroups(scored, tiers);
  }

  /** The tables follow the order of the tiers. */
  lemma {:induction false} TablesOrdered(scored: seq<ScoredResult>, tiers: seq<Tier>)
    requires Ascending(tiers)
    ensures forall i, j :: 0 <= i < j < |Tables(scored, tiers)| ==>
      TierRank(Tables(scored, tiers)[i].tier) < TierRank(Tables(scored, tiers)[j].tier)
    decreases |tiers|
  {
    if |tiers| > 0 {
      var init := tiers[..|tiers| - 1];
      var last := tiers[|tiers| - 1];
      assert Ascending(init);
      TablesOrdered(scored, init);
      TablesRankBelow(scored, init, TierRank(last));
      var prev := Tables(scored, init);
      var inTier := SortDesc(InTier(scored, last));
      if |inTier| > 0 {
        GroupsSnocAscending(prev, Group(last, Rows(inTier)));
      } else {
        assert Tables(scored, tiers) == prev + [];
        assert prev + [] == prev;
      }
    }
  }

  /** Tiers ranked below `r` give tables ranked below `r`. */
  lemma {:induction false} TablesRankBelow(scored: seq<ScoredResult>, tiers: seq<Tier>, r: nat)
    requires forall i :: 0 <= i < |tiers| ==> TierRank(tiers[i]) < r
    ensures forall g :: g in Tables(scored, tiers) ==> TierRank(g.tier) < r
    decreases |tiers|
  {
    if |tiers| > 0 {
      var init := tiers[..|tiers| - 1];
      assert forall i :: 0 <= i < |init| ==> init[i] == tiers[i];
      TablesRankBelow(scored, init, r);
    }
  }

  /** Each table is the sorted, non-empty table of one of the given tiers. */
  lemma {:induction false} TablesGroups(scored: seq<ScoredResult>, tiers: seq<Tier>)
    ensures forall g :: g in Tables(scored, tiers) ==>
      g.tier in tiers && |g.rows| > 0 && g.rows == Rows(SortDesc(InTier(scored, g.tier)))
    decreases |tiers|
  {
    if |tiers| > 0 {
      var init := tiers[..|tiers| - 1];
      TablesGroups(scored, init);
      forall g | g in Tables(scored, init) ensures g.tier in tiers {
        var a :| 0 <= a < |init| && init[a] == g.tier;
        assert tiers[a] == init[a];
      }
    }
  }

  /** A table whose tier ranks above every earlier one keeps the tables in ascending order. */
  lemma GroupsSnocAscending(prev: seq<Group>, g: Group)
    requires forall i, j :: 0 <= i < j < |prev| ==> TierRank(prev[i].tier) < TierRank(prev[j].tier)
    requires forall h :: h in prev ==> TierRank(h.tier) < TierRank(g.tier)
    ensures forall i, j :: 0 <= i < j < |prev + [g]| ==> TierRank((prev + [g])[i].tier) < TierRank((prev + [g])[j].tier)
  {
    forall i, j | 0 <= i < j < |prev + [g]| ensures TierRank((prev + [g])[i].tier) < TierRank((prev + [g])[j].tier) {
      assert (prev + [g])[i] == prev[i];
      if j < |prev| {
        assert (prev + [g])[j] == prev[j];
      } else {
        assert prev[i] in prev;
      }
    }
  }

  /** The rendered tables: tiers in display order (Tiny, Small, Medium, Large, XL), no tier twice,
      no empty table, and each scored result in the table of its own tier, once per occurrence. */
  lemma RenderedSpec(scored: seq<ScoredResult>)
    ensures forall i, j :: 0 <= i < j < |Rendered(scored)| ==> TierRank(Rendered(scored)[i].tier) < TierRank(Rendered(scored)[j].tier)
    ensures forall g :: g in Rendered(scored) ==> |g.rows| > 0
    ensures forall g :: g in Rendered(scored) ==> forall x ::
      multiset(Results(g.rows))[x] == if x.tier == g.tier then multiset(scored)[x] else 0
    ensures forall x :: x in scored ==> exists g :: g in Rendered(scored) && g.tier == x.tier
  {
    TierOrderAscending();
    TablesShape(scored, TierOrder);
    RenderedCounts(scored);
    RenderedCovers(scored);
  }

  lemma TierOrderAscending()
    ensures Ascending(TierOrder)
  {
    forall i | 0 <= i < |TierOrder| ensures TierRank(TierOrder[i]) == i { }
  }

  lemma RenderedCounts(scored: seq<ScoredResult>)
    ensures forall g :: g in Rendered(scored) ==> forall x ::
      multiset(Results(g.rows))[x] == if x.tier == g.tier then multiset(scored)[x] else 0
  {
    TierOrderAscending();
    TablesShape(scored, TierOrder);
    forall g | g in Rendered(scored)
      ensures forall x :: multiset(Results(g.rows))[x] == if x.tier == g.tier then multiset(scored)[x] else 0
    {
      forall x ensures multiset(Results(g.rows))[x] == if x.tier == g.tier then multiset(scored)[x] else 0 {
        GroupCount(scored, g.tier, x);
      }
    }
  }

  /** Every tier is in the display order. */
  lemma TierListed(t: Tier)
    ensures t in TierOrder
  {
    assert TierOrder[TierRank(t)] == t;
  }

  lemma RenderedCovers(scored: seq<ScoredResult>)
    ensures forall x :: x in scored ==> exists g :: g in Rendered(scored) && g.tier == x.tier
  {
    forall x | x in scored ensures exists g :: g in Rendered(scored) && g.tier == x.tier {
      TierListed(x.tier);
      TierPresent(scored, x, TierOrder);
    }
  }

  /** A tier with a result gets a table. */
  lemma {:induction false} TierPresent(scored: seq<ScoredResult>, x: ScoredResult, tiers: seq<Tier>)
    requires x in scored && x.tier in tiers
    ensures exists g :: g in Tables(scored, tiers) && g.tier == x.tier
    decreases |tiers|
  {
    var init := tiers[..|tiers| - 1];
    var last := tiers[|tiers| - 1];
    if x.tier == last {
      InTierCount(scored, last, x);
      assert x in multiset(InTier(scored, last));
      var g := Group(last, Rows(SortDesc(InTier(scored, last))));
      assert g in Tables(scored, tiers);
    } else {
      assert tiers == init + [last];
      TierPresent(scored, x, init);
      var g :| g in Tables(scored, init) && g.tier == x.tier;
      assert g in Tables(scored, tiers);
    }
  }
}
