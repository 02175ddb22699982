/** Per-year medal aggregation (`get_df_bub_1_yr` and `get_dfs_bub` in
    utils.py). The medalist table is a sequence of records; the pandas
    group-by counts become counting functions over it, and float division
    becomes an explicit quotient with pandas' infinity and NaN. */
module Medals {
  import opened Wrappers
  import opened Text
  import opened Settings
  import Roster

  /** One medal: a row of the medalist table. `meta` is the row's
      `player::age::gender::country` entry. */
  datatype Medalist = Medalist(year: int, sport: string, gender: string, country: string,
                               age: int, player: string, meta: string)

  /** A quotient as pandas computes it: x / 0 is infinity for x > 0 and NaN
      for x = 0. */
  datatype Quotient = Finite(value: real) | Infinity | NaN

  /** One row of the per-year table; the fields are the columns `Sport`,
      `YearsofOccurance`, `All`, `Male`, `Female`, `iMeta`, `Year`, `FaM`,
      `FoM`, `AoAll` and `iDisplay`. A missing `iMeta` (NaN) is None. */
  datatype YearRow = YearRow(sport: string, occurrences: set<int>, all: nat, male: nat,
                             female: nat, meta: Option<seq<string>>, year: int, fam: nat,
                             fom: Quotient, aoAll: Quotient, display: string)

  /** The upper age bound that stands for "no upper bound". */
  const NoUpperBound: int := 1000

  /** `if age[1] == age_max: age[1] = 1000`. */
  function NormalizeUpper(hi: int): int {
    if hi == AgeMax then NoUpperBound else hi
  }

  /** Normalising twice is normalising once, so later years see the same
      bound as the first one even though the first call overwrote it. */
  lemma NormalizeUpperIdempotent(hi: int)
    ensures NormalizeUpper(NormalizeUpper(hi)) == NormalizeUpper(hi)
    ensures NormalizeUpper(hi) != AgeMax
  {
  }

  // ---------------------------------------------------------------------------
  // Selecting rows
  // ---------------------------------------------------------------------------

  /** The rows whose country is one of `countries`, in order. */
  function KeepCountries(df: seq<Medalist>, countries: seq<string>): (rows: seq<Medalist>)
    ensures |rows| <= |df|
    ensures forall m :: m in rows <==> m in df && m.country in countries
  {
    if |df| == 0 then []
    else
      var n := |df| - 1;
      assert df == df[..n] + [df[n]];
      KeepCountries(df[..n], countries) + (if df[n].country in countries then [df[n]] else [])
  }

/** The rows of the chosen countries, in table order and with their
      multiplicity: a medalist who won several medals counts each time. */
  lemma {:induction false} KeepCountriesIsFilter(df: seq<Medalist>, countries: seq<string>)
    ensures IsSubsequence(KeepCountries(df, countries), df)
    ensures forall m ::
      multiset(KeepCountries(df, countries))[m] == if m.country in countries then multiset(df)[m] else 0
  {
    if |df| > 0 {
      var n := |df| - 1;
      var pre, keep := df[..n], df[n].country in countries;
      KeepCountriesIsFilter(pre, countries);
      assert df == pre + [df[n]];
      var prev := KeepCountries(pre, countries);
      assert KeepCountries(df, countries) == prev + (if keep then [df[n]] else []);
      FilterStep(prev, pre, df[n], keep);
      forall m ensures multiset(KeepCountries(df, countries))[m] == if m.country in countries then multiset(df)[m] else 0 {
        assert multiset(KeepCountries(df, countries))[m] == multiset(prev)[m] + (if keep && m == df[n] then 1 else 0);
        assert multiset(df)[m] == multiset(pre)[m] + (if m == df[n] then 1 else 0);
      }
    }
  }

  /** The country filter: skipped exactly when the selection is `['All']`. */
  function ByCountry(df: seq<Medalist>, countries: seq<string>): (rows: seq<Medalist>)
    ensures countries == ["All"] ==> rows == df
    ensures countries != ["All"] ==> forall m :: m in rows <==> m in df && m.country in countries
  {
    if countries == ["All"] then df else KeepCountries(df, countries)
  }

/** The country filter keeps rows in table order and with their
      multiplicity: all of them for `['All']`, else those of the chosen
      countries. */
  lemma ByCountryIsFilter(df: seq<Medalist>, countries: seq<string>)
    ensures IsSubsequence(ByCountry(df, countries), df)
    ensures forall m ::
      multiset(ByCountry(df, countries))[m] == if countries == ["All"] || m.country in countries then multiset(df)[m] else 0
  {
    if countries == ["All"] {
      SubsequenceSelf(df);
    } else {
      KeepCountriesIsFilter(df, countries);
    }
  }

    /** The sport of every row, in order. */
  function SportsIn(rows: seq<Medalist>): (ss: seq<string>)
    ensures forall s :: s in ss <==> exists m :: m in rows && m.sport == s
  {
    if |rows| == 0 then []
    else
      var n := |rows| - 1;
      assert rows == rows[..n] + [rows[n]];
      SportsIn(rows[..n]) + [rows[n].sport]
  }

  /** The sports of the country-filtered table, sorted and without repeats:
      the index of `_all_sports`. */
  function Sports(df: seq<Medalist>, countries: seq<string>): (ss: seq<string>)
    ensures StrictlySorted(ss)
    ensures forall s :: s in ss <==> exists m :: m in ByCountry(df, countries) && m.sport == s
  {
    SortedDistinct(SportsIn(ByCountry(df, countries)))
  }

  /** The years in which a sport occurs. */
  function YearsOf(rows: seq<Medalist>, s: string): set<int> {
    set m | m in rows && m.sport == s :: m.year
  }

  // ---------------------------------------------------------------------------
  // Counting
  // ---------------------------------------------------------------------------

  /** `_base`: the medalists of sport `s` in year `yr`, of any age. */
  function CountAll(rows: seq<Medalist>, s: string, yr: int): (c: nat)
    ensures c <= |rows|
  {
    if |rows| == 0 then 0
    else
      var m := rows[|rows| - 1];
      CountAll(rows[..|rows| - 1], s, yr) + (if m.sport == s && m.year == yr then 1 else 0)
  }

  predicate InRange(m: Medalist, yr: int, lo: int, hi: int) {
    m.year == yr && lo <= m.age <= hi
  }

  /** `_male` / `_female`: the medalists of sport `s` in year `yr` with age in
      the inclusive range [lo, hi] and gender exactly `g`. */
  function CountGender(rows: seq<Medalist>, s: string, yr: int, lo: int, hi: int, g: string): (c: nat)
    ensures c <= CountAll(rows, s, yr)
  {
    if |rows| == 0 then 0
    else
      var m := rows[|rows| - 1];
      CountGender(rows[..|rows| - 1], s, yr, lo, hi, g)
        + (if m.sport == s && InRange(m, yr, lo, hi) && m.gender == g then 1 else 0)
  }

  /** `_info`: the roster entries of sport `s` in year `yr` within the age
      range, in row order. */
  function MetaList(rows: seq<Medalist>, s: string, yr: int, lo: int, hi: int): seq<string> {
    if |rows| == 0 then []
    else
      var m := rows[|rows| - 1];
      MetaList(rows[..|rows| - 1], s, yr, lo, hi)
        + (if m.sport == s && InRange(m, yr, lo, hi) then [m.meta] else [])
  }

  /** The rows of `df_age_yr` of sport `s`: the medalists `_info` lists. */
  function RangeRows(rows: seq<Medalist>, s: string, yr: int, lo: int, hi: int): seq<Medalist> {
    if |rows| == 0 then []
    else
      var n := |rows| - 1;
      RangeRows(rows[..n], s, yr, lo, hi) + (if rows[n].sport == s && InRange(rows[n], yr, lo, hi) then [rows[n]] else [])
  }

  /** The `iMeta` column of some rows. */
  function Metas(rs: seq<Medalist>): seq<string> {
    seq(|rs|, i requires 0 <= i < |rs| => rs[i].meta)
  }

  /** The rows `_info` draws from are the medalists of sport `s` in year
      `yr` within the age range, of any gender, in row order and each as
      often as it occurs. */
  lemma {:induction false} RangeRowsIsFilter(rows: seq<Medalist>, s: string, yr: int, lo: int, hi: int)
    ensures IsSubsequence(RangeRows(rows, s, yr, lo, hi), rows)
    ensures forall m ::
      multiset(RangeRows(rows, s, yr, lo, hi))[m] == if m.sport == s && InRange(m, yr, lo, hi) then multiset(rows)[m] else 0
  {
    if |rows| > 0 {
      var n := |rows| - 1;
      var pre, keep := rows[..n], rows[n].sport == s && InRange(rows[n], yr, lo, hi);
      RangeRowsIsFilter(pre, s, yr, lo, hi);
      assert rows == pre + [rows[n]];
      var prev := RangeRows(pre, s, yr, lo, hi);
      var r := RangeRows(rows, s, yr, lo, hi);
      assert r == prev + (if keep then [rows[n]] else []);
      FilterStep(prev, pre, rows[n], keep);
      forall m: Medalist ensures multiset(r)[m] == if m.sport == s && InRange(m, yr, lo, hi) then multiset(rows)[m] else 0 {
        assert multiset(r)[m] == multiset(prev)[m] + (if keep && m == rows[n] then 1 else 0);
        assert multiset(rows)[m] == multiset(pre)[m] + (if m == rows[n] then 1 else 0);
      }
    }
  }

  /** `_info` is the `iMeta` column of those rows. */
  lemma {:induction false} MetaListOfRangeRows(rows: seq<Medalist>, s: string, yr: int, lo: int, hi: int)
    ensures MetaList(rows, s, yr, lo, hi) == Metas(RangeRows(rows, s, yr, lo, hi))
  {
    if |rows| > 0 {
      var n := |rows| - 1;
      MetaListOfRangeRows(rows[..n], s, yr, lo, hi);
      var prev := RangeRows(rows[..n], s, yr, lo, hi);
      var tail := if rows[n].sport == s && InRange(rows[n], yr, lo, hi) then [rows[n]] else [];
      assert Metas(prev + tail) == Metas(prev) + Metas(tail);
    }
  }

  /** `_info` lists the roster strings of exactly the medalists of sport `s`
      in year `yr` within the age range, of any gender, in row order and
      each as often as it occurs. */
  lemma MetaListIsFilter(rows: seq<Medalist>, s: string, yr: int, lo: int, hi: int)
    ensures MetaList(rows, s, yr, lo, hi) == Metas(RangeRows(rows, s, yr, lo, hi))
    ensures IsSubsequence(MetaList(rows, s, yr, lo, hi), Metas(rows))
    ensures IsSubsequence(RangeRows(rows, s, yr, lo, hi), rows)
    ensures forall m ::
      multiset(RangeRows(rows, s, yr, lo, hi))[m] == if m.sport == s && InRange(m, yr, lo, hi) then multiset(rows)[m] else 0
  {
    RangeRowsIsFilter(rows, s, yr, lo, hi);
    MetaListOfRangeRows(rows, s, yr, lo, hi);
    MetasSubsequence(RangeRows(rows, s, yr, lo, hi), rows);
  }

  /** Taking the `iMeta` column keeps a subsequence a subsequence. */
  lemma {:induction false} MetasSubsequence(a: seq<Medalist>, b: seq<Medalist>)
    requires IsSubsequence(a, b)
    ensures IsSubsequence(Metas(a), Metas(b))
    decreases |b|
  {
    if |a| > 0 {
      assert Metas(b)[1..] == Metas(b[1..]);
      if a[0] == b[0] {
        MetasSubsequence(a[1..], b[1..]);
        assert Metas(a)[1..] == Metas(a[1..]);
      } else {
        MetasSubsequence(a, b[1..]);
        SubsequenceDropHead(Metas(a), Metas(b));
      }
    }
  }

  /** The male and female medalists within the age range are among all the
      medalists of that sport and year. */
  lemma {:induction false} CountsBounded(rows: seq<Medalist>, s: string, yr: int, lo: int, hi: int)
    ensures CountGender(rows, s, yr, lo, hi, "Male") + CountGender(rows, s, yr, lo, hi, "Female")
      <= CountAll(rows, s, yr)
  {
    if |rows| > 0 {
      CountsBounded(rows[..|rows| - 1], s, yr, lo, hi);
    }
  }

  /** A sport with no medalist in `yr` counts zero everywhere. */
  lemma {:induction false} AbsentSportCountsZero(rows: seq<Medalist>, s: string, yr: int, lo: int, hi: int)
    requires forall m :: m in rows ==> m.sport != s || m.year != yr
    ensures CountAll(rows, s, yr) == 0
    ensures CountGender(rows, s, yr, lo, hi, "Male") == 0
    ensures CountGender(rows, s, yr, lo, hi, "Female") == 0
  {
    if |rows| > 0 {
      var n := |rows| - 1;
      assert rows[n] in rows;
      assert forall m :: m in rows[..n] ==> m in rows;
      AbsentSportCountsZero(rows[..n], s, yr, lo, hi);
    }
  }

  // ---------------------------------------------------------------------------
  // Ratios
  // ---------------------------------------------------------------------------

  /** Float division of two counts. */
  function Divide(a: nat, b: nat): (q: Quotient)
    ensures b > 0 ==> q.Finite? && q.value * (b as real) == a as real
    ensures b == 0 ==> (q == NaN <==> a == 0) && (q == Infinity <==> a > 0)
  {
    if b > 0 then Finite(a as real / b as real)
    else if a == 0 then NaN
    else Infinity
  }

  /** `round(x, 2)`, rounding halves up. */
  function Round2(x: real): (r: real)
    ensures (r * 100.0).Floor as real == r * 100.0
  {
    ((x * 100.0 + 0.5).Floor as real) / 100.0
  }

  /** The rounded value is within half a hundredth of the original. */
  lemma Round2Close(x: real)
    ensures x - 0.005 < Round2(x) <= x + 0.005
  {
  }

  /** A non-negative value rounds to zero exactly when it is below 0.005. */
  lemma Round2Zero(x: real)
    requires x >= 0.0
    ensures Round2(x) == 0.0 <==> x < 0.005
  {
    var f := (x * 100.0 + 0.5).Floor;
    if x < 0.005 {
      assert 0.0 <= x * 100.0 + 0.5 < 1.0;
      assert f == 0;
    } else {
      assert x * 100.0 + 0.5 >= 1.0;
      assert f >= 1;
    }
  }

  /** Rounding keeps a percentage within [0, 100]. */
  lemma Round2Percent(x: real)
    requires 0.0 <= x <= 100.0
    ensures 0.0 <= Round2(x) <= 100.0
  {
    var f := (x * 100.0 + 0.5).Floor;
    assert f as real <= 10000.5;
    assert f <= 10000;
  }

  /** `round(q, 2)` on a quotient: infinity and NaN are left as they are. */
  function RoundQuotient(q: Quotient): Quotient {
    match q
    case Finite(v) => Finite(Round2(v))
    case _ => q
  }

  /** `round(Female / Male, 2)`. */
  function RoundedRatio(female: nat, male: nat): Quotient {
    RoundQuotient(Divide(female, male))
  }

  /** `round(FaM / All * 100, 2)`. */
  function Percent(part: nat, whole: nat): Quotient {
    match Divide(part, whole)
    case Finite(v) => Finite(Round2(v * 100.0))
    case q => q
  }

  /** A part of a non-empty whole is a percentage in [0, 100]; an empty whole
      (hence an empty part) gives NaN. */
  lemma PercentRange(part: nat, whole: nat)
    requires part <= whole
    ensures whole > 0 ==> (Percent(part, whole).Finite?
      && 0.0 <= Percent(part, whole).value <= 100.0)
    ensures whole == 0 ==> Percent(part, whole) == NaN
  {
    if whole > 0 {
      var v := part as real / whole as real;
      ShareAtMostOne(part, whole);
      Round2Percent(v * 100.0);
    }
  }

  /** A part of a non-empty whole is a share in [0, 1]. */
  lemma ShareAtMostOne(f: nat, a: nat)
    requires 0 < a && f <= a
    ensures 0.0 <= f as real / a as real <= 1.0
  {
    var v := f as real / a as real;
    assert v * (a as real) == f as real;
    if v > 1.0 {
      MulMonotone(1.0, v, a as real);
      assert false;
    }
  }

  /** `temp.replace({'FoM': {0: 0.01, np.inf: 100}})`. */
  function ReplaceSentinels(q: Quotient): (r: Quotient)
    ensures r != Infinity && r != Finite(0.0)
    ensures r == NaN <==> q == NaN
    ensures q.Finite? && q.value != 0.0 ==> r == q
  {
    match q
    case Finite(v) => if v == 0.0 then Finite(0.01) else q
    case Infinity => Finite(100.0)
    case NaN => NaN
  }

  /** `fillna(d)`. */
  function FillNaN(q: Quotient, d: real): (r: Quotient)
    ensures r != NaN
    ensures q != NaN ==> r == q
  {
    if q == NaN then Finite(d) else q
  }

  /** The female-to-male ratio with its sentinels, stated case by case:
      -100 when there is nobody, 100 when there are only women, 0.01 when the
      ratio is below 0.005 (so it would round to 0), the rounded ratio
      otherwise. */
  function FoMLaw(female: nat, male: nat): real {
    if male == 0 && female == 0 then -100.0
    else if male == 0 then 100.0
    else if 200 * female < male then 0.01
    else Round2(female as real / male as real)
  }

  lemma RatioThreshold(female: nat, male: nat)
    requires male > 0
    ensures female as real / male as real < 0.005 <==> 200 * female < male
  {
    var v := female as real / male as real;
    var m := male as real;
    assert v * m == female as real;
    if v < 0.005 {
      MulMonotone(v, 0.005, m);
    } else {
      MulMonotone(0.005, v, m);
    }
  }

  lemma MulMonotone(a: real, b: real, m: real)
    requires a <= b && m > 0.0
    ensures a * m <= b * m
    ensures a < b ==> a * m < b * m
  {
  }

  /** The code's pipeline (divide, round, replace 0 and infinity, fill NaN)
      computes exactly the sentinel law, and its result is never 0. */
  lemma FoMSentinelLaw(female: nat, male: nat)
    ensures FillNaN(ReplaceSentinels(RoundedRatio(female, male)), -100.0) == Finite(FoMLaw(female, male))
    ensures FoMLaw(female, male) != 0.0
  {
    if male > 0 {
      var v := female as real / male as real;
      Round2Zero(v);
      RatioThreshold(female, male);
    }
  }

  // ---------------------------------------------------------------------------
  // The per-year table
  // ---------------------------------------------------------------------------

  /** One row of `temp` as `pd.concat` and the two `assign` calls build it,
      before the sentinels and the roster text. */
  function Tally(rows: seq<Medalist>, s: string, yr: int, lo: int, hi: int): (t: YearRow)
    ensures t.sport == s && t.year == yr
    ensures t.fam == t.female + t.male <= t.all
    ensures var l := MetaList(rows, s, yr, lo, hi); t.meta == if l == [] then None else Some(l)
  {
    CountsBounded(rows, s, yr, lo, hi);
    var all := CountAll(rows, s, yr);
    var male := CountGender(rows, s, yr, lo, hi, "Male");
    var female := CountGender(rows, s, yr, lo, hi, "Female");
    var meta := MetaList(rows, s, yr, lo, hi);
    YearRow(s, YearsOf(rows, s), all, male, female, if |meta| == 0 then None else Some(meta),
            yr, female + male, RoundedRatio(female, male), Percent(female + male, all), "")
  }

  /** The row after `temp.replace`. */
  function Replaced(t: YearRow): YearRow {
    t.(fom := ReplaceSentinels(t.fom))
  }

  /** The row after `temp.fillna({'FoM': -100})`. */
  function Filled(t: YearRow): YearRow {
    t.(fom := FillNaN(t.fom, -100.0))
  }

  /** The rows with their roster text (`iDisplay`), or the ValueError of the
      first malformed roster. */
  function WithDisplay(ts: seq<YearRow>): (r: Result<seq<YearRow>>)
    ensures r.Ok? ==> |r.value| == |ts|
    ensures r.Ok? ==> forall i :: 0 <= i < |ts| ==>
      r.value[i] == ts[i].(display := r.value[i].display)
      && Roster.FormatInfoSpec(ts[i].meta) == Ok(r.value[i].display)
    ensures r.Failure? ==> r.error == ValueError
  {
    if |ts| == 0 then Ok([])
    else
      var n := |ts| - 1;
      match WithDisplay(ts[..n])
      case Failure(e) => Failure(e)
      case Ok(prev) =>
        match Roster.FormatInfoSpec(ts[n].meta)
        case Failure(e) => Failure(e)
        case Ok(s) => Ok(prev + [ts[n].(display := s)])
  }

  /** What `get_df_bub_1_yr(df, yr, [lo, hi], countries)` returns. */
  function YearTable(df: seq<Medalist>, yr: int, lo: int, hi: int, countries: seq<string>): (r: Result<seq<YearRow>>)
    ensures r.Ok? ==> |r.value| == |Sports(df, countries)|
    ensures r.Failure? ==> r.error == ValueError
  {
    var rows := ByCountry(df, countries);
    var sports := Sports(df, countries);
    WithDisplay(seq(|sports|, i requires 0 <= i < |sports| =>
      Filled(Replaced(Tally(rows, sports[i], yr, lo, NormalizeUpper(hi))))))
  }

  /** One row per sport of the filtered table, sorted by sport, all for `yr`. */
  lemma YearTableShape(df: seq<Medalist>, yr: int, lo: int, hi: int, countries: seq<string>)
    requires YearTable(df, yr, lo, hi, countries).Ok?
    ensures var ts := YearTable(df, yr, lo, hi, countries).value;
      && |ts| == |Sports(df, countries)|
      && (forall i :: 0 <= i < |ts| ==> ts[i].sport == Sports(df, countries)[i] && ts[i].year == yr)
      && (forall i, j :: 0 <= i < j < |ts| ==> Less(ts[i].sport, ts[j].sport))
  {
  }

  /** The counts of each row: All is the sport's medalists in `yr`, Male and
      Female those within the age range (the bound 40 meaning no bound), and
      FaM = Female + Male <= All. */
  lemma YearTableCounts(df: seq<Medalist>, yr: int, lo: int, hi: int, countries: seq<string>, i: nat)
    requires YearTable(df, yr, lo, hi, countries).Ok?
    requires i < |YearTable(df, yr, lo, hi, countries).value|
    ensures var t := YearTable(df, yr, lo, hi, countries).value[i];
      var rows := ByCountry(df, countries);
      && t.all == CountAll(rows, t.sport, yr)
      && t.male == CountGender(rows, t.sport, yr, lo, NormalizeUpper(hi), "Male")
      && t.female == CountGender(rows, t.sport, yr, lo, NormalizeUpper(hi), "Female")
      && t.fam == t.female + t.male <= t.all
      && t.meta == (var l := MetaList(rows, t.sport, yr, lo, NormalizeUpper(hi)); if l == [] then None else Some(l))
  {
    var t := YearTable(df, yr, lo, hi, countries).value[i];
    CountsBounded(ByCountry(df, countries), t.sport, yr, lo, NormalizeUpper(hi));
  }

  /** The ratios of each row: FoM follows the sentinel law, and AoAll is a
      percentage in [0, 100] when the sport had medalists in `yr` and NaN
      otherwise. */
  lemma YearTableRatios(df: seq<Medalist>, yr: int, lo: int, hi: int, countries: seq<string>, i: nat)
    requires YearTable(df, yr, lo, hi, countries).Ok?
    requires i < |YearTable(df, yr, lo, hi, countries).value|
    ensures var t := YearTable(df, yr, lo, hi, countries).value[i];
      && t.fom == Finite(FoMLaw(t.female, t.male))
      && (t.all > 0 ==> t.aoAll.Finite? && 0.0 <= t.aoAll.value <= 100.0)
      && (t.all == 0 ==> t.aoAll == NaN)
  {
    var rows := ByCountry(df, countries);
    var sports := Sports(df, countries);
    var ts := seq(|sports|, k requires 0 <= k < |sports| =>
      Filled(Replaced(Tally(rows, sports[k], yr, lo, NormalizeUpper(hi)))));
    var t := YearTable(df, yr, lo, hi, countries).value[i];
    assert t == ts[i].(display := t.display);
    TallyRatios(rows, sports[i], yr, lo, NormalizeUpper(hi));
  }

  /** The ratio laws for one freshly tallied row, after the replacements and
      the fill. */
  lemma TallyRatios(rows: seq<Medalist>, s: string, yr: int, lo: int, hi: int)
    ensures var t := Filled(Replaced(Tally(rows, s, yr, lo, hi)));
      && t.fom == Finite(FoMLaw(t.female, t.male))
      && (t.all > 0 ==> t.aoAll.Finite? && 0.0 <= t.aoAll.value <= 100.0)
      && (t.all == 0 ==> t.aoAll == NaN)
  {
    var t := Tally(rows, s, yr, lo, hi);
    CountsBounded(rows, s, yr, lo, hi);
    FoMSentinelLaw(t.female, t.male);
    PercentRange(t.fam, t.all);
  }

  lemma {:induction false} DisplayFailurePropagates(ts: seq<YearRow>, i: nat)
    requires i <= |ts| && WithDisplay(ts[..i]).Failure?
    ensures WithDisplay(ts).Failure?
    decreases |ts| - i
  {
    if i < |ts| {
      assert ts[..i + 1][..i] == ts[..i];
      DisplayFailurePropagates(ts, i + 1);
    } else {
      assert ts[..i] == ts;
    }
  }

  /** `temp.replace({'FoM': {0: 0.01, np.inf: 100}}, inplace=True)`. */
  method ReplaceSentinelsInPlace(temp: array<YearRow>)
    modifies temp
    ensures forall k :: 0 <= k < temp.Length ==> temp[k] == Replaced(old(temp[k]))
  {
    for i := 0 to temp.Length
      invariant forall k :: 0 <= k < i ==> temp[k] == Replaced(old(temp[k]))
      invariant forall k :: i <= k < temp.Length ==> temp[k] == old(temp[k])
    {
      temp[i] := temp[i].(fom := ReplaceSentinels(temp[i].fom));
    }
  }

  /** `temp = temp.fillna({'FoM': -100})`. */
  method FillFoMInPlace(temp: array<YearRow>)
    modifies temp
    ensures forall k :: 0 <= k < temp.Length ==> temp[k] == Filled(old(temp[k]))
  {
    for i := 0 to temp.Length
      invariant forall k :: 0 <= k < i ==> temp[k] == Filled(old(temp[k]))
      invariant forall k :: i <= k < temp.Length ==> temp[k] == old(temp[k])
    {
      temp[i] := temp[i].(fom := FillNaN(temp[i].fom, -100.0));
    }
  }

  /** `temp['iDisplay'] = temp.apply(format_info_by_gender_country, axis=1)`. */
  method AddDisplays(ts: seq<YearRow>) returns (r: Result<seq<YearRow>>)
    ensures r == WithDisplay(ts)
  {
    var out: seq<YearRow> := [];
    for i := 0 to |ts|
      invariant WithDisplay(ts[..i]) == Ok(out)
    {
      assert ts[..i + 1][..i] == ts[..i];
      var shown := Roster.FormatInfo(ts[i].meta);
      if shown.Failure? {
        DisplayFailurePropagates(ts, i + 1);
        return Failure(shown.error);
      }
      out := out + [ts[i].(display := shown.value)];
    }
    assert ts[..|ts|] == ts;
    r := Ok(out);
  }

  /** `get_df_bub_1_yr`. `age` is the caller's `[lo, hi]` list, whose upper
      bound the function overwrites with 1000 when it equals the slider's
      maximum. */
  method BubblesForYear(df: seq<Medalist>, yr: int, age: array<int>, countries: seq<string>)
    returns (r: Result<seq<YearRow>>)
    requires age.Length >= 2
    modifies age
    ensures age[0] == old(age[0]) && age[1] == NormalizeUpper(old(age[1]))
    ensures forall k :: 2 <= k < age.Length ==> age[k] == old(age[k])
    ensures r == YearTable(df, yr, old(age[0]), old(age[1]), countries)
  {
    var rows := ByCountry(df, countries);
    var sports := Sports(df, countries);
    if age[1] == AgeMax {
      age[1] := NoUpperBound;
    }
    var lo, hi := age[0], age[1];
    var temp := new YearRow[|sports|](i requires 0 <= i < |sports| => Tally(rows, sports[i], yr, lo, hi));
    ReplaceSentinelsInPlace(temp);
    FillFoMInPlace(temp);
    assert temp[..] == seq(|sports|, i requires 0 <= i < |sports| =>
      Filled(Replaced(Tally(rows, sports[i], yr, lo, NormalizeUpper(old(age[1]))))));
    r := AddDisplays(temp[..]);
  }

  // ---------------------------------------------------------------------------
  // All years
  // ---------------------------------------------------------------------------

  /** A row of the concatenated table with its `Sport_cat` (None when the
      sport is missing from the category map) and its `iSport` label. */
  datatype Bubble = Bubble(row: YearRow, category: Option<string>, title: string)

  /** The per-year tables concatenated in the order of `years`. */
  function AllYears(df: seq<Medalist>, lo: int, hi: int, countries: seq<string>, years: seq<int>): (r: Result<seq<YearRow>>)
    ensures r.Failure? ==> r.error == ValueError
  {
    if |years| == 0 then Ok([])
    else
      var n := |years| - 1;
      match AllYears(df, lo, hi, countries, years[..n])
      case Failure(e) => Failure(e)
      case Ok(prev) =>
        match YearTable(df, years[n], lo, hi, countries)
        case Failure(e) => Failure(e)
        case Ok(ts) => Ok(prev + ts)
  }

  /** `Sport_cat` and `iSport` for every row, or the ValueError of the first
      sport name without `(`. */
  function Categorise(rows: seq<YearRow>, categories: map<string, string>): (r: Result<seq<Bubble>>)
    ensures r.Ok? ==> |r.value| == |rows|
    ensures r.Ok? ==> forall i :: 0 <= i < |rows| ==>
      && r.value[i].row == rows[i]
      && r.value[i].category == (if rows[i].sport in categories then Some(categories[rows[i].sport]) else None)
      && Roster.SportLabel(rows[i].sport) == Ok(r.value[i].title)
    ensures r.Failure? <==> exists i :: 0 <= i < |rows| && '(' !in rows[i].sport
    ensures r.Failure? ==> r.error == ValueError
  {
    if |rows| == 0 then Ok([])
    else
      var n := |rows| - 1;
      var t := rows[n];
      match Categorise(rows[..n], categories)
      case Failure(e) =>
        var k :| 0 <= k < n && '(' !in rows[..n][k].sport;
        assert rows[k] == rows[..n][k];
        Failure(e)
      case Ok(prev) =>
        assert forall k :: 0 <= k < n ==> rows[k] == rows[..n][k];
        match Roster.SportLabel(t.sport)
        case Failure(e) => Failure(e)
        case Ok(s) =>
          Ok(prev + [Bubble(t, if t.sport in categories then Some(categories[t.sport]) else None, s)])
  }

  /** What `get_dfs_bub(df, [lo, hi], countries, years)` returns; with no
      year, the empty frame has no `Sport` column (a KeyError). */
  function BubbleTable(df: seq<Medalist>, lo: int, hi: int, countries: seq<string>, years: seq<int>,
                       categories: map<string, string>): (r: Result<seq<Bubble>>)
    ensures r.Failure? ==> (r.error == KeyError <==> |years| == 0)
    ensures r.Failure? ==> r.error == KeyError || r.error == ValueError
  {
    if |years| == 0 then Failure(KeyError)
    else
      match AllYears(df, lo, hi, countries, years)
      case Failure(e) => Failure(e)
      case Ok(rows) => Categorise(rows, categories)
  }

  /** `ts` is one year's block: one row per sport, in the order of `sports`. */
  predicate OneYear(ts: seq<YearRow>, yr: int, sports: seq<string>) {
    |ts| == |sports| && forall j :: 0 <= j < |ts| ==> ts[j].sport == sports[j] && ts[j].year == yr
  }

  /** `rows` is the blocks of `years`, in that order. */
  predicate Blocks(rows: seq<YearRow>, years: seq<int>, sports: seq<string>)
    decreases |years|
  {
    if |years| == 0 then rows == []
    else
      var k := |rows| - |sports|;
      && k >= 0
      && OneYear(rows[k..], years[|years| - 1], sports)
      && Blocks(rows[..k], years[..|years| - 1], sports)
  }

  /** A table of |years| blocks has |years| * |sports| rows. */
  lemma {:induction false} BlocksLength(rows: seq<YearRow>, years: seq<int>, sports: seq<string>)
    requires Blocks(rows, years, sports)
    ensures |rows| == |years| * |sports|
    decreases |years|
  {
    if |years| > 0 {
      var n := |years| - 1;
      BlocksLength(rows[..|rows| - |sports|], years[..n], sports);
      MulSucc(n, |sports|);
    }
  }

  lemma MulSucc(n: nat, w: nat)
    ensures (n + 1) * w == n * w + w
  {
  }

  /** The concatenation is the per-year blocks in the order of `years`, each
      holding one row per sport in sorted order. */
  lemma {:induction false} AllYearsBlocks(df: seq<Medalist>, lo: int, hi: int, countries: seq<string>, years: seq<int>)
    requires AllYears(df, lo, hi, countries, years).Ok?
    ensures Blocks(AllYears(df, lo, hi, countries, years).value, years, Sports(df, countries))
  {
    if |years| > 0 {
      var n := |years| - 1;
      AllYearsBlocks(df, lo, hi, countries, years[..n]);
      YearTableShape(df, years[n], lo, hi, countries);
      var prev := AllYears(df, lo, hi, countries, years[..n]).value;
      var ts := YearTable(df, years[n], lo, hi, countries).value;
      var rows := prev + ts;
      assert rows[..|prev|] == prev && rows[|prev|..] == ts;
    }
  }

  /** With at least one year, `get_dfs_bub` returns |years| * |sports| rows,
      year by year in the order of `years`, each year's rows sorted by sport. */
  lemma BubbleTableRowCount(df: seq<Medalist>, lo: int, hi: int, countries: seq<string>, years: seq<int>,
                            categories: map<string, string>)
    requires BubbleTable(df, lo, hi, countries, years, categories).Ok?
    ensures |years| > 0
    ensures Blocks(Rows(BubbleTable(df, lo, hi, countries, years, categories).value), years, Sports(df, countries))
    ensures |BubbleTable(df, lo, hi, countries, years, categories).value| == |years| * |Sports(df, countries)|
  {
    AllYearsBlocks(df, lo, hi, countries, years);
    var rows := AllYears(df, lo, hi, countries, years).value;
    assert Rows(Categorise(rows, categories).value) == rows;
    BlocksLength(rows, years, Sports(df, countries));
  }

  /** The table rows underneath the bubbles. */
  function Rows(bs: seq<Bubble>): (rows: seq<YearRow>)
    ensures |rows| == |bs| && forall i :: 0 <= i < |bs| ==> rows[i] == bs[i].row
  {
    seq(|bs|, i requires 0 <= i < |bs| => bs[i].row)
  }

  lemma {:induction false} YearsFailurePropagates(df: seq<Medalist>, lo: int, hi: int, countries: seq<string>,
                                                  years: seq<int>, i: nat)
    requires i <= |years| && AllYears(df, lo, hi, countries, years[..i]).Failure?
    ensures AllYears(df, lo, hi, countries, years).Failure?
    decreases |years| - i
  {
    if i < |years| {
      assert years[..i + 1][..i] == years[..i];
      YearsFailurePropagates(df, lo, hi, countries, years, i + 1);
    } else {
      assert years[..i] == years;
    }
  }

  /** The loop of `get_dfs_bub` that concatenates the per-year tables. */
  method ConcatYears(df: seq<Medalist>, age: array<int>, countries: seq<string>, years: seq<int>)
    returns (r: Result<seq<YearRow>>)
    requires age.Length >= 2
    modifies age
    ensures age[0] == old(age[0])
    ensures age[1] == if |years| > 0 then NormalizeUpper(old(age[1])) else old(age[1])
    ensures r == AllYears(df, old(age[0]), old(age[1]), countries, years)
  {
    ghost var lo, hi := age[0], age[1];
    var dfBub: seq<YearRow> := [];
    for i := 0 to |years|
      invariant age[0] == lo
      invariant age[1] == if i > 0 then NormalizeUpper(hi) else hi
      invariant AllYears(df, lo, hi, countries, years[..i]) == Ok(dfBub)
    {
      assert years[..i + 1][..i] == years[..i];
      NormalizeUpperIdempotent(hi);
      var yearRows := BubblesForYear(df, years[i], age, countries);
      assert yearRows == YearTable(df, years[i], lo, hi, countries);
      if yearRows.Failure? {
        YearsFailurePropagates(df, lo, hi, countries, years, i + 1);
        return Failure(yearRows.error);
      }
      dfBub := dfBub + yearRows.value;
    }
    assert years[..|years|] == years;
    r := Ok(dfBub);
  }

  /** `df_bub['Sport_cat'] = df_bub['Sport'].map(sportcats)` and
      `df_bub['iSport'] = df_bub.apply(format_sport_en_cn, axis=1)`. */
  method AddCategories(rows: seq<YearRow>, categories: map<string, string>) returns (r: Result<seq<Bubble>>)
    ensures r == Categorise(rows, categories)
  {
    var bubbles: seq<Bubble> := [];
    for i := 0 to |rows|
      invariant Categorise(rows[..i], categories) == Ok(bubbles)
    {
      assert rows[..i + 1][..i] == rows[..i];
      var t := rows[i];
      var category := if t.sport in categories then Some(categories[t.sport]) else None;
      var title := Roster.SportLabel(t.sport);
      if title.Failure? {
        assert rows[i] == rows[..i + 1][i];
        return Failure(title.error);
      }
      bubbles := bubbles + [Bubble(t, category, title.value)];
    }
    assert rows[..|rows|] == rows;
    r := Ok(bubbles);
  }

  /** `get_dfs_bub`: the per-year tables concatenated, then the category and
      label columns. */
  method BubblesForYears(df: seq<Medalist>, age: array<int>, countries: seq<string>, years: seq<int>,
                         categories: map<string, string>) returns (r: Result<seq<Bubble>>)
    requires age.Length >= 2
    modifies age
    ensures age[0] == old(age[0])
    ensures age[1] == if |years| > 0 then NormalizeUpper(old(age[1])) else old(age[1])
    ensures r == BubbleTable(df, old(age[0]), old(age[1]), countries, years, categories)
  {
    var dfBub := ConcatYears(df, age, countries, years);
    if |years| == 0 {
      return Failure(KeyError);
    }
    if dfBub.Failure? {
      return Failure(dfBub.error);
    }
    r := AddCategories(dfBub.value, categories);
  }
}
