/** The data behind the animated bubble chart (`get_fig_data` in utils.py):
    one frame per year, each holding the reference line of the year's
    in-range share and one bubble series per sport category. Plot styling
    (colours, sizes, hover templates, text positions) is not part of this
    model. */
module Frames {
  import opened Wrappers
  import opened Text
  import opened Medals

  /** The x positions of the reference line. */
  const LineX: seq<real> := [0.0, 0.01, 1.0, 100.0, 150.0]

  /** One bubble: x = FoM, y = AoAll (NaN shown as 0), size = FaM, text =
      iSport, custom data = iDisplay. */
  datatype Point = Point(x: Quotient, y: Quotient, size: nat, text: string, custom: string)

  /** A series of a frame: the dashed reference line, or the bubbles of one
      sport category (None is the missing category), shown with their text
      labels when `withText`. */
  datatype Series =
    | ReferenceLine(xs: seq<real>, ys: seq<Quotient>)
    | BubbleSeries(name: Option<string>, points: seq<Point>, withText: bool)

  datatype Frame = Frame(name: string, data: seq<Series>)

  /** `fig_dict`: the initial series and the frames. */
  datatype Figure = Figure(data: seq<Series>, frames: seq<Frame>)

  // ---------------------------------------------------------------------------
  // Selecting a year's rows
  // ---------------------------------------------------------------------------

  /** `df_bub.query('Year==@yr')`, in row order. */
  function OfYear(bs: seq<Bubble>, yr: int): seq<Bubble> {
    if |bs| == 0 then []
    else
      var n := |bs| - 1;
      OfYear(bs[..n], yr) + (if bs[n].row.year == yr then [bs[n]] else [])
  }

  /** The query keeps exactly the rows of the year. */
  lemma {:induction false} OfYearMembers(bs: seq<Bubble>, yr: int)
    ensures forall b :: b in OfYear(bs, yr) <==> b in bs && b.row.year == yr
  {
    if |bs| > 0 {
      var n := |bs| - 1;
      OfYearMembers(bs[..n], yr);
      assert bs == bs[..n] + [bs[n]];
    }
  }

/** The query keeps the rows of the year in table order, each as often as
      it occurs in the table, and no other row. */
  lemma {:induction false} OfYearIsFilter(bs: seq<Bubble>, yr: int)
    ensures IsSubsequence(OfYear(bs, yr), bs)
    ensures forall b :: multiset(OfYear(bs, yr))[b] == if b.row.year == yr then multiset(bs)[b] else 0
  {
    if |bs| > 0 {
      var n := |bs| - 1;
      var pre, keep := bs[..n], bs[n].row.year == yr;
      OfYearIsFilter(pre, yr);
      assert bs == pre + [bs[n]];
      var prev := OfYear(pre, yr);
      assert OfYear(bs, yr) == prev + (if keep then [bs[n]] else []);
      FilterStep(prev, pre, bs[n], keep);
      forall b ensures multiset(OfYear(bs, yr))[b] == if b.row.year == yr then multiset(bs)[b] else 0 {
        assert multiset(OfYear(bs, yr))[b] == multiset(prev)[b] + (if keep && b == bs[n] then 1 else 0);
        assert multiset(bs)[b] == multiset(pre)[b] + (if b == bs[n] then 1 else 0);
      }
    }
  }

    function SumAll(bs: seq<Bubble>): nat {
    if |bs| == 0 then 0 else SumAll(bs[..|bs| - 1]) + bs[|bs| - 1].row.all
  }

  function SumFaM(bs: seq<Bubble>): nat {
    if |bs| == 0 then 0 else SumFaM(bs[..|bs| - 1]) + bs[|bs| - 1].row.fam
  }

  /** Summing rows whose FaM is at most their All keeps that order. */
  lemma {:induction false} SumsBounded(bs: seq<Bubble>)
    requires forall b :: b in bs ==> b.row.fam <= b.row.all
    ensures SumFaM(bs) <= SumAll(bs)
  {
    if |bs| > 0 {
      var n := |bs| - 1;
      assert bs[n] in bs;
      assert forall b :: b in bs[..n] ==> b in bs;
      SumsBounded(bs[..n]);
    }
  }

  /** `_percent['FaM'] / _percent['All'] * 100` for the year's only group,
      read with `.values[0]`: a year without rows has no group, an IndexError. */
  function PercentOfAge(rows: seq<Bubble>): (r: Result<Quotient>)
    ensures r.Failure? <==> |rows| == 0
    ensures r.Failure? ==> r.error == IndexError
  {
    if |rows| == 0 then Failure(IndexError)
    else
      match Divide(SumFaM(rows), SumAll(rows))
      case Finite(v) => Ok(Finite(v * 100.0))
      case q => Ok(q)
  }

  /** When every row's FaM is within its All, the reference line lies in
      [0, 100], or is NaN when the year had no medalists at all. */
  lemma PercentOfAgeRange(rows: seq<Bubble>)
    requires |rows| > 0
    requires forall b :: b in rows ==> b.row.fam <= b.row.all
    ensures var yy := PercentOfAge(rows).value;
      (yy.Finite? && 0.0 <= yy.value <= 100.0) || (yy == NaN && SumAll(rows) == 0)
  {
    SumsBounded(rows);
    var f, a := SumFaM(rows), SumAll(rows);
    if a > 0 {
      var v := f as real / a as real;
      assert PercentOfAge(rows) == Ok(Finite(v * 100.0));
      ShareAtMostOne(f, a);
    }
  }

  // ---------------------------------------------------------------------------
  // Categories and bubbles
  // ---------------------------------------------------------------------------

  /** The `Sport_cat` column, in row order. */
  function CategoriesIn(rows: seq<Bubble>): (cs: seq<Option<string>>)
    ensures |cs| == |rows| && forall i :: 0 <= i < |rows| ==> cs[i] == rows[i].category
  {
    seq(|rows|, i requires 0 <= i < |rows| => rows[i].category)
  }

  /** `_df.Sport_cat.unique()`: each category once, in order of first
      appearance, the missing one included. */
  function Categories(rows: seq<Bubble>): seq<Option<string>> {
    Dedup(CategoriesIn(rows))
  }

  /** `_df.query('Sport_cat==@cat')`: a missing category (NaN) equals
      nothing, so it selects no row. */
  function InCategory(rows: seq<Bubble>, cat: Option<string>): (r: seq<Bubble>)
    ensures forall b :: b in r <==> b in rows && cat.Some? && b.category == cat
  {
    if |rows| == 0 || cat.None? then []
    else
      var n := |rows| - 1;
      assert rows == rows[..n] + [rows[n]];
      InCategory(rows[..n], cat) + (if rows[n].category == cat then [rows[n]] else [])
  }

/** The category's rows, in the year's order and with their multiplicity. */
  lemma {:induction false} InCategoryIsFilter(rows: seq<Bubble>, cat: Option<string>)
    ensures IsSubsequence(InCategory(rows, cat), rows)
    ensures forall b ::
      multiset(InCategory(rows, cat))[b] == if cat.Some? && b.category == cat then multiset(rows)[b] else 0
  {
    if |rows| > 0 && cat.Some? {
      var n := |rows| - 1;
      var pre, keep := rows[..n], rows[n].category == cat;
      InCategoryIsFilter(pre, cat);
      assert rows == pre + [rows[n]];
      var prev := InCategory(pre, cat);
      assert InCategory(rows, cat) == prev + (if keep then [rows[n]] else []);
      FilterStep(prev, pre, rows[n], keep);
      forall b ensures multiset(InCategory(rows, cat))[b] == if cat.Some? && b.category == cat then multiset(rows)[b] else 0 {
        assert multiset(InCategory(rows, cat))[b] == multiset(prev)[b] + (if keep && b == rows[n] then 1 else 0);
        assert multiset(rows)[b] == multiset(pre)[b] + (if b == rows[n] then 1 else 0);
      }
    } else if |rows| > 0 {
      SubsequenceNone(rows);
    }
  }

  /** One bubble per row: `FoM` and `AoAll` with NaN filled by 0. */
  function PointOf(b: Bubble): (p: Point)
    ensures p.x != NaN && p.y != NaN
    ensures b.row.fom != NaN ==> p.x == b.row.fom
    ensures b.row.aoAll != NaN ==> p.y == b.row.aoAll
  {
    Point(FillNaN(b.row.fom, 0.0), FillNaN(b.row.aoAll, 0.0), b.row.fam, b.title, b.row.display)
  }

  function Points(rows: seq<Bubble>): (ps: seq<Point>)
    ensures |ps| == |rows| && forall i :: 0 <= i < |rows| ==> ps[i] == PointOf(rows[i])
  {
    seq(|rows|, i requires 0 <= i < |rows| => PointOf(rows[i]))
  }

  function BubblesOf(rows: seq<Bubble>, cat: Option<string>, showText: bool): Series {
    BubbleSeries(cat, Points(InCategory(rows, cat)), showText)
  }

  // ---------------------------------------------------------------------------
  // Frames
  // ---------------------------------------------------------------------------

  /** The reference line at height `yy` over the five x positions. */
  function LineAt(yy: Quotient): Series {
    ReferenceLine(LineX, [yy, yy, yy, yy, yy])
  }

  /** The frame of year `yr`, named `str(yr)`. */
  function FrameFor(bs: seq<Bubble>, yr: int, showText: bool): (r: Result<Frame>)
    ensures r.Failure? <==> |OfYear(bs, yr)| == 0
    ensures r.Failure? ==> r.error == IndexError
    ensures r.Ok? ==> r.value.name == IntToString(yr)
  {
    var rows := OfYear(bs, yr);
    match PercentOfAge(rows)
    case Failure(e) => Failure(e)
    case Ok(yy) => Ok(Frame(IntToString(yr), FrameData(rows, yy, showText)))
  }

  /** A frame's series: the reference line at height `yy`, then one bubble
      series per category of the rows. */
  function FrameData(rows: seq<Bubble>, yy: Quotient, showText: bool): seq<Series> {
    var cats := Categories(rows);
    [LineAt(yy)] + seq(|cats|, i requires 0 <= i < |cats| => BubblesOf(rows, cats[i], showText))
  }

  /** The frames of `years`, in order, or the first year's IndexError. */
  function FramesFor(bs: seq<Bubble>, years: seq<int>, showText: bool): (r: Result<seq<Frame>>)
    ensures r.Ok? ==> |r.value| == |years|
    ensures r.Failure? ==> r.error == IndexError
  {
    if |years| == 0 then Ok([])
    else
      var n := |years| - 1;
      match FramesFor(bs, years[..n], showText)
      case Failure(e) => Failure(e)
      case Ok(prev) =>
        match FrameFor(bs, years[n], showText)
        case Failure(e) => Failure(e)
        case Ok(f) => Ok(prev + [f])
  }

  /** Frame i of the list is the frame of year i. */
  lemma {:induction false} FramesForEach(bs: seq<Bubble>, years: seq<int>, showText: bool)
    requires FramesFor(bs, years, showText).Ok?
    ensures forall i :: 0 <= i < |years| ==>
      FrameFor(bs, years[i], showText) == Ok(FramesFor(bs, years, showText).value[i])
  {
    if |years| > 0 {
      var n := |years| - 1;
      var all := FramesFor(bs, years, showText).value;
      FramesForEach(bs, years[..n], showText);
      var prev := FramesFor(bs, years[..n], showText).value;
      var f := FrameFor(bs, years[n], showText);
      assert f.Ok? && all == prev + [f.value];
      forall i | 0 <= i < |years|
        ensures FrameFor(bs, years[i], showText) == Ok(all[i])
      {
        if i < n {
          assert years[i] == years[..n][i];
          assert FrameFor(bs, years[..n][i], showText) == Ok(prev[i]);
          assert all[i] == prev[i];
        } else {
          assert i == n && all[i] == f.value;
        }
      }
    }
  }

  /** What `get_fig_data(df_bub, years, show_text)` returns: the frames, and
      as initial data the last frame's series (an IndexError without years). */
  function FigureSpec(bs: seq<Bubble>, years: seq<int>, showText: bool): (r: Result<Figure>)
    ensures r.Ok? ==> |r.value.frames| == |years| > 0
    ensures r.Failure? ==> r.error == IndexError
  {
    match FramesFor(bs, years, showText)
    case Failure(e) => Failure(e)
    case Ok(frames) =>
      if |frames| == 0 then Failure(IndexError)
      else Ok(Figure(frames[|frames| - 1].data, frames))
  }

  /** One frame per year, in the order of `years` and named after it; the
      initial data is the last frame's. */
  lemma FigureFrames(bs: seq<Bubble>, years: seq<int>, showText: bool)
    requires FigureSpec(bs, years, showText).Ok?
    ensures var fig := FigureSpec(bs, years, showText).value;
      && |fig.frames| == |years| > 0
      && (forall i :: 0 <= i < |years| ==> fig.frames[i].name == IntToString(years[i]))
      && fig.data == fig.frames[|years| - 1].data
  {
    var frames := FramesFor(bs, years, showText).value;
    assert FigureSpec(bs, years, showText).value.frames == frames;
    FramesForEach(bs, years, showText);
    forall i | 0 <= i < |years| ensures frames[i].name == IntToString(years[i]) {
      assert FrameFor(bs, years[i], showText) == Ok(frames[i]);
    }
  }

  /** Distinct years give frames with distinct names. */
  lemma FrameNamesDistinct(frames: seq<Frame>, years: seq<int>)
    requires |frames| == |years| && Distinct(years)
    requires forall i :: 0 <= i < |years| ==> frames[i].name == IntToString(years[i])
    ensures forall i, j :: 0 <= i < j < |frames| ==> frames[i].name != frames[j].name
  {
    forall i, j | 0 <= i < j < |frames| ensures frames[i].name != frames[j].name {
      if frames[i].name == frames[j].name {
        IntToStringInjective(years[i], years[j]);
      }
    }
  }

  /** Some year of the list has no row. */
  predicate SomeYearEmpty(bs: seq<Bubble>, years: seq<int>) {
    |years| > 0 && (SomeYearEmpty(bs, years[..|years| - 1]) || |OfYear(bs, years[|years| - 1])| == 0)
  }

  lemma {:induction false} FramesFailureStep(bs: seq<Bubble>, years: seq<int>, showText: bool)
    ensures FramesFor(bs, years, showText).Failure? <==> SomeYearEmpty(bs, years)
  {
    if |years| > 0 {
      FramesFailureStep(bs, years[..|years| - 1], showText);
    }
  }

  lemma {:induction false} SomeYearEmptyIff(bs: seq<Bubble>, years: seq<int>)
    ensures SomeYearEmpty(bs, years) <==> exists i :: 0 <= i < |years| && |OfYear(bs, years[i])| == 0
  {
    if |years| > 0 {
      var n := |years| - 1;
      var init := years[..n];
      SomeYearEmptyIff(bs, init);
      if exists i :: 0 <= i < n && |OfYear(bs, init[i])| == 0 {
        var k :| 0 <= k < n && |OfYear(bs, init[k])| == 0;
        assert years[k] == init[k];
      }
      if exists i :: 0 <= i < |years| && |OfYear(bs, years[i])| == 0 {
        var k :| 0 <= k < |years| && |OfYear(bs, years[k])| == 0;
        if k < n {
          assert years[k] == init[k];
        }
      }
    }
  }

  /** The frames fail exactly when some year has no row. */
  lemma FramesFailure(bs: seq<Bubble>, years: seq<int>, showText: bool)
    ensures FramesFor(bs, years, showText).Failure? <==>
      exists i :: 0 <= i < |years| && |OfYear(bs, years[i])| == 0
  {
    FramesFailureStep(bs, years, showText);
    SomeYearEmptyIff(bs, years);
  }

  /** The figure fails, with an IndexError, exactly when there is no year or
      some year has no row. */
  lemma FigureFailure(bs: seq<Bubble>, years: seq<int>, showText: bool)
    ensures FigureSpec(bs, years, showText).Failure? <==>
      |years| == 0 || exists i :: 0 <= i < |years| && |OfYear(bs, years[i])| == 0
    ensures FigureSpec(bs, years, showText).Failure? ==> FigureSpec(bs, years, showText).error == IndexError
  {
    FramesFailure(bs, years, showText);
  }

  /** Each category of the year's rows is a series name exactly once, in
      order of first appearance. */
  lemma CategoriesSpec(rows: seq<Bubble>)
    ensures Distinct(Categories(rows))
    ensures FirstAppearanceOrder(Categories(rows), CategoriesIn(rows))
    ensures forall c :: c in Categories(rows) <==> exists b :: b in rows && b.category == c
  {
    DedupSpec(CategoriesIn(rows));
    forall c ensures c in Categories(rows) <==> exists b :: b in rows && b.category == c {
      if c in CategoriesIn(rows) {
        var k :| 0 <= k < |rows| && CategoriesIn(rows)[k] == c;
        assert rows[k] in rows;
      }
      if exists b :: b in rows && b.category == c {
        var b :| b in rows && b.category == c;
        var k :| 0 <= k < |rows| && rows[k] == b;
        assert CategoriesIn(rows)[k] == c;
      }
    }
  }

  /** A frame starts with the reference line at the year's share, followed by
      one bubble series per category of the year's rows (see CategoriesSpec);
      a series holds the bubbles of exactly that category's rows. */
  lemma FrameShape(bs: seq<Bubble>, yr: int, showText: bool)
    requires FrameFor(bs, yr, showText).Ok?
    ensures var rows := OfYear(bs, yr);
      var data := FrameFor(bs, yr, showText).value.data;
      var cats := Categories(rows);
      && |data| == 1 + |cats|
      && data[0] == LineAt(PercentOfAge(rows).value)
      && (forall i :: 1 <= i < |data| ==>
            data[i] == BubbleSeries(cats[i - 1], Points(InCategory(rows, cats[i - 1])), showText))
  {
    var rows := OfYear(bs, yr);
    var yy := PercentOfAge(rows).value;
    var cats := Categories(rows);
    var bubbles := seq(|cats|, i requires 0 <= i < |cats| => BubblesOf(rows, cats[i], showText));
    assert FrameFor(bs, yr, showText).value.data == FrameData(rows, yy, showText);
    var data := [LineAt(yy)] + bubbles;
    assert FrameData(rows, yy, showText) == data;
    forall i | 1 <= i < |data|
      ensures data[i] == BubbleSeries(cats[i - 1], Points(InCategory(rows, cats[i - 1])), showText)
    {
      assert data[i] == bubbles[i - 1];
    }
  }

  /** Every bubble of a frame is the point of one of that year's rows, of
      the series' category. */
  lemma PointInFrame(bs: seq<Bubble>, yr: int, showText: bool, j: nat, p: Point)
    requires FrameFor(bs, yr, showText).Ok?
    requires j < |FrameFor(bs, yr, showText).value.data|
    requires FrameFor(bs, yr, showText).value.data[j].BubbleSeries?
    requires p in FrameFor(bs, yr, showText).value.data[j].points
    ensures exists b ::
      && b in bs && b.row.year == yr
      && b.category == FrameFor(bs, yr, showText).value.data[j].name && p == PointOf(b)
  {
    var rows := OfYear(bs, yr);
    var cats := Categories(rows);
    FrameShape(bs, yr, showText);
    assert j >= 1;
    var inCat := InCategory(rows, cats[j - 1]);
    var k :| 0 <= k < |inCat| && Points(inCat)[k] == p;
    var b := inCat[k];
    assert b in inCat;
    OfYearMembers(bs, yr);
  }

  /** `p` is the bubble of a row of `table` from year `yr` and category
      `cat`: x is the FoM sentinel law of the row's counts, y a percentage in
      [0, 100] (NaN shown as 0), and the size the row's FaM, the in-range
      medalists, never more than All. */
  predicate BubbleOfRow(table: seq<Bubble>, yr: int, cat: Option<string>, p: Point) {
    exists b ::
      && b in table && b.row.year == yr && b.category == cat && p == PointOf(b)
      && p.x == Finite(FoMLaw(b.row.female, b.row.male))
      && p.y.Finite? && 0.0 <= p.y.value <= 100.0
      && p.size == b.row.fam == b.row.female + b.row.male && p.size <= b.row.all
  }

  /** In a frame built from the table `get_dfs_bub` returns, every bubble is
      a row's bubble as BubbleOfRow describes. */
  lemma FramePointsOfBubbleTable(df: seq<Medalist>, lo: int, hi: int, countries: seq<string>, tableYears: seq<int>,
                                 categories: map<string, string>, yr: int, showText: bool, j: nat, p: Point)
    requires BubbleTable(df, lo, hi, countries, tableYears, categories).Ok?
    requires var table := BubbleTable(df, lo, hi, countries, tableYears, categories).value;
      && FrameFor(table, yr, showText).Ok?
      && j < |FrameFor(table, yr, showText).value.data|
      && FrameFor(table, yr, showText).value.data[j].BubbleSeries?
      && p in FrameFor(table, yr, showText).value.data[j].points
    ensures var table := BubbleTable(df, lo, hi, countries, tableYears, categories).value;
      BubbleOfRow(table, yr, FrameFor(table, yr, showText).value.data[j].name, p)
  {
    var table := BubbleTable(df, lo, hi, countries, tableYears, categories).value;
    PointInFrame(table, yr, showText, j, p);
    var b :| b in table && b.row.year == yr && b.category == FrameFor(table, yr, showText).value.data[j].name
      && p == PointOf(b);
    FigureOfBubbleTable(df, lo, hi, countries, tableYears, categories, showText, b);
  }

  /** In the figure built from the table `get_dfs_bub` returns, every bubble
      of frame i is a bubble of a row of year i and of the series' category,
      placed and sized as BubbleOfRow says. */
  lemma FigurePointsOfBubbleTable(df: seq<Medalist>, lo: int, hi: int, countries: seq<string>, tableYears: seq<int>,
                                  categories: map<string, string>, years: seq<int>, showText: bool)
    requires BubbleTable(df, lo, hi, countries, tableYears, categories).Ok?
    requires FigureSpec(BubbleTable(df, lo, hi, countries, tableYears, categories).value, years, showText).Ok?
    ensures var table := BubbleTable(df, lo, hi, countries, tableYears, categories).value;
      var fig := FigureSpec(table, years, showText).value;
      forall i, j, p ::
        (0 <= i < |fig.frames| && 0 <= j < |fig.frames[i].data|
         && fig.frames[i].data[j].BubbleSeries? && p in fig.frames[i].data[j].points)
        ==> BubbleOfRow(table, years[i], fig.frames[i].data[j].name, p)
  {
    var table := BubbleTable(df, lo, hi, countries, tableYears, categories).value;
    var fig := FigureSpec(table, years, showText).value;
    assert fig.frames == FramesFor(table, years, showText).value;
    FramesForEach(table, years, showText);
    forall i, j, p | 0 <= i < |fig.frames| && 0 <= j < |fig.frames[i].data|
        && fig.frames[i].data[j].BubbleSeries? && p in fig.frames[i].data[j].points
      ensures BubbleOfRow(table, years[i], fig.frames[i].data[j].name, p)
    {
      assert FrameFor(table, years[i], showText) == Ok(fig.frames[i]);
      FramePointsOfBubbleTable(df, lo, hi, countries, tableYears, categories, years[i], showText, j, p);
    }
  }

  /** For the table `get_dfs_bub` builds, every reference line lies in
      [0, 100] or is NaN for a year without medalists, and every bubble sits
      at the sentinel-law ratio on x and at a percentage in [0, 100] on y. */
  lemma FigureOfBubbleTable(df: seq<Medalist>, lo: int, hi: int, countries: seq<string>, years: seq<int>,
                            categories: map<string, string>, showText: bool, b: Bubble)
    requires BubbleTable(df, lo, hi, countries, years, categories).Ok?
    requires b in BubbleTable(df, lo, hi, countries, years, categories).value
    ensures b.row.fam == b.row.female + b.row.male && b.row.fam <= b.row.all
    ensures PointOf(b).x == Finite(FoMLaw(b.row.female, b.row.male))
    ensures PointOf(b).y.Finite? && 0.0 <= PointOf(b).y.value <= 100.0
  {
    var rows := AllYears(df, lo, hi, countries, years).value;
    var k :| 0 <= k < |rows| && BubbleTable(df, lo, hi, countries, years, categories).value[k] == b;
    AllYearsRows(df, lo, hi, countries, years, k);
  }

  /** Every row of the concatenated table belongs to one of the requested
      years and carries that year's counts for its sport: All over every
      age, Male and Female within the (widened) age range, FaM their sum and
      within All; FoM follows the sentinel law and AoAll is bounded. */
  lemma {:induction false} AllYearsRows(df: seq<Medalist>, lo: int, hi: int, countries: seq<string>,
                                        years: seq<int>, k: nat)
    requires AllYears(df, lo, hi, countries, years).Ok?
    requires k < |AllYears(df, lo, hi, countries, years).value|
    ensures var t := AllYears(df, lo, hi, countries, years).value[k];
      var rows := ByCountry(df, countries);
      && t.year in years
      && t.all == CountAll(rows, t.sport, t.year)
      && t.male == CountGender(rows, t.sport, t.year, lo, NormalizeUpper(hi), "Male")
      && t.female == CountGender(rows, t.sport, t.year, lo, NormalizeUpper(hi), "Female")
      && t.fam == t.female + t.male
      && t.fam <= t.all
      && t.fom == Finite(FoMLaw(t.female, t.male))
      && (t.all > 0 ==> t.aoAll.Finite? && 0.0 <= t.aoAll.value <= 100.0)
      && (t.all == 0 ==> t.aoAll == NaN)
  {
    var n := |years| - 1;
    var prev := AllYears(df, lo, hi, countries, years[..n]).value;
    if k < |prev| {
      AllYearsRows(df, lo, hi, countries, years[..n], k);
      assert forall y :: y in years[..n] ==> y in years;
    } else {
      YearTableShape(df, years[n], lo, hi, countries);
      YearTableCounts(df, years[n], lo, hi, countries, k - |prev|);
      YearTableRatios(df, years[n], lo, hi, countries, k - |prev|);
    }
  }

  // ---------------------------------------------------------------------------
  // The loop
  // ---------------------------------------------------------------------------

  lemma FramesFailurePropagates(bs: seq<Bubble>, years: seq<int>, showText: bool, i: nat)
    requires i < |years| && |OfYear(bs, years[i])| == 0
    ensures FramesFor(bs, years, showText).Failure?
  {
    FramesFailure(bs, years, showText);
  }

  /** One iteration of the year loop of `get_fig_data`: the reference line,
      then one bubble series appended per category. */
  method BuildFrame(bs: seq<Bubble>, yr: int, showText: bool) returns (r: Result<Frame>)
    ensures r == FrameFor(bs, yr, showText)
  {
    var rows := OfYear(bs, yr);
    var percent := PercentOfAge(rows);
    if percent.Failure? {
      return Failure(percent.error);
    }
    var data := [LineAt(percent.value)];
    var cats := Categories(rows);
    for j := 0 to |cats|
      invariant data == [LineAt(percent.value)] + seq(j, k requires 0 <= k < j => BubblesOf(rows, cats[k], showText))
    {
      data := data + [BubbleSeries(cats[j], Points(InCategory(rows, cats[j])), showText)];
    }
    assert data == FrameData(rows, percent.value, showText);
    r := Ok(Frame(IntToString(yr), data));
  }

  /** The frames of one more year extend the frames built so far. */
  lemma FramesStep(bs: seq<Bubble>, years: seq<int>, showText: bool, i: nat, frames: seq<Frame>, f: Frame)
    requires i < |years| && FramesFor(bs, years[..i], showText) == Ok(frames)
    requires FrameFor(bs, years[i], showText) == Ok(f)
    ensures FramesFor(bs, years[..i + 1], showText) == Ok(frames + [f])
  {
    assert years[..i + 1][..i] == years[..i];
  }

  /** A year without rows makes the whole figure an IndexError. */
  lemma FigureFailsAt(bs: seq<Bubble>, years: seq<int>, showText: bool, i: nat)
    requires i < |years| && |OfYear(bs, years[i])| == 0
    ensures FigureSpec(bs, years, showText) == Failure(IndexError)
  {
    FramesFailurePropagates(bs, years, showText, i);
  }

  /** Once all frames are built, the figure is an IndexError without frames
      and otherwise starts on the last frame's series. */
  lemma FigureOfFrames(bs: seq<Bubble>, years: seq<int>, showText: bool, frames: seq<Frame>)
    requires FramesFor(bs, years, showText) == Ok(frames)
    ensures FigureSpec(bs, years, showText) ==
      if |frames| == 0 then Failure(IndexError) else Ok(Figure(frames[|frames| - 1].data, frames))
  {
  }

  /** `get_fig_data`: one frame per year, then the last frame's series as the
      figure's initial data. */
  method FigData(bs: seq<Bubble>, years: seq<int>, showText: bool) returns (r: Result<Figure>)
    ensures r == FigureSpec(bs, years, showText)
  {
    var frames: seq<Frame> := [];
    for i := 0 to |years|
      invariant FramesFor(bs, years[..i], showText) == Ok(frames)
    {
      var f := BuildFrame(bs, years[i], showText);
      if f.Failure? {
        FigureFailsAt(bs, years, showText, i);
        return Failure(IndexError);
      }
      FramesStep(bs, years, showText, i, frames, f.value);
      frames := frames + [f.value];
    }
    assert years[..|years|] == years;
    FigureOfFrames(bs, years, showText, frames);
    if |frames| == 0 {
      return Failure(IndexError);
    }
    r := Ok(Figure(frames[|frames| - 1].data, frames));
  }
}
