/** The hover-text roster of a bubble (`format_info_by_gender_country` in
    utils.py) and the two-line sport label (`format_sport_en_cn`).
    Roster entries have the form `player::age::gender::country`; they are
    grouped by gender, then by country in first-appearance order, and each
    country's list gets a line break after every six players. */
module Roster {
  import opened Wrappers
  import opened Text

  /** Players per line of a country's list. */
  const PlayersPerLine: nat := 6
  /** The marker inserted into a country's list after every six players. */
  const LineBreak: string := "<br>&nbsp;&nbsp;"
  const FieldSeparator: string := "::"
  const PlayerSeparator: string := " ,"
  const FemalesHeader: string := "<br><b>Females</b>:<br>"
  const MalesHeader: string := "<br><b>Males</b>:<br>"

  /** One roster entry, split into its four fields. */
  datatype Entry = Entry(player: string, age: string, gender: string, country: string)

  /** The players of each country, and the countries in the order in which
      they were first added (a Python dict of lists keeps that order). */
  datatype Groups = Groups(order: seq<string>, players: map<string, seq<string>>)

  const NoGroups: Groups := Groups([], map[])

  // ---------------------------------------------------------------------------
  // Parsing entries
  // ---------------------------------------------------------------------------

  /** `player, age, gender, country = each.split('::')`; any other number of
      fields is the ValueError of the unpacking. */
  function ParseEntry(each: string): (r: Result<Entry>)
    ensures r.Ok? ==> Join([r.value.player, r.value.age, r.value.gender, r.value.country], FieldSeparator) == each
    ensures r.Failure? <==> |Split(each, FieldSeparator)| != 4
  {
    var fields := Split(each, FieldSeparator);
    JoinSplit(each, FieldSeparator);
    if |fields| != 4 then Failure(ValueError)
    else
      assert fields == [fields[0], fields[1], fields[2], fields[3]];
      Ok(Entry(fields[0], fields[1], fields[2], fields[3]))
  }

  /** Every entry of the list, in order, or the first ValueError. */
  function ParseEntries(xs: seq<string>): (r: Result<seq<Entry>>)
    ensures r.Ok? ==> |r.value| == |xs|
    ensures r.Ok? ==> forall k :: 0 <= k < |xs| ==> ParseEntry(xs[k]) == Ok(r.value[k])
    ensures r.Failure? ==> r.error == ValueError
  {
    if |xs| == 0 then Ok([])
    else
      var n := |xs| - 1;
      match ParseEntries(xs[..n])
      case Failure(e) => Failure(e)
      case Ok(es) =>
        match ParseEntry(xs[n])
        case Failure(e) => Failure(e)
        case Ok(e) =>
          assert forall k :: 0 <= k < n ==> xs[k] == xs[..n][k];
          assert forall k :: 0 <= k < n ==> ParseEntry(xs[k]) == Ok(es[k]);
          Ok(es + [e])
  }

  /** `f'{player}({age})'`. */
  function Label(e: Entry): (s: string)
    ensures |s| > 0 && s[|s| - 1] == ')'
  {
    e.player + "(" + e.age + ")"
  }

  // ---------------------------------------------------------------------------
  // Routing by gender and grouping by country
  // ---------------------------------------------------------------------------

  /** The entries that go to the male map (`male`) or to the female map: an
      entry is male exactly when its gender field is `Male`. */
  function OfGender(es: seq<Entry>, male: bool): (r: seq<Entry>)
    ensures forall e :: e in r ==> e in es && (e.gender == "Male") == male
    ensures forall e :: e in es && (e.gender == "Male") == male ==> e in r
  {
    if |es| == 0 then []
    else
      var n := |es| - 1;
      assert es == es[..n] + [es[n]];
      OfGender(es[..n], male) + (if (es[n].gender == "Male") == male then [es[n]] else [])
  }

/** Routing keeps an entry's roster order and multiplicity: the entries of
      the chosen gender, each as often as it occurs in the roster. */
  lemma {:induction false} OfGenderIsFilter(es: seq<Entry>, male: bool)
    ensures IsSubsequence(OfGender(es, male), es)
    ensures forall e ::
      multiset(OfGender(es, male))[e] == if (e.gender == "Male") == male then multiset(es)[e] else 0
  {
    if |es| > 0 {
      var n := |es| - 1;
      var pre, keep := es[..n], (es[n].gender == "Male") == male;
      OfGenderIsFilter(pre, male);
      assert es == pre + [es[n]];
      var prev := OfGender(pre, male);
      assert OfGender(es, male) == prev + (if keep then [es[n]] else []);
      FilterStep(prev, pre, es[n], keep);
      forall e ensures multiset(OfGender(es, male))[e] == if (e.gender == "Male") == male then multiset(es)[e] else 0 {
        assert multiset(OfGender(es, male))[e] == multiset(prev)[e] + (if keep && e == es[n] then 1 else 0);
        assert multiset(es)[e] == multiset(pre)[e] + (if e == es[n] then 1 else 0);
      }
    }
  }

  /** `d[country].append(item)` on a defaultdict(list): the country's list
      (empty when new) grows by the item, and no other list changes. */
  function Add(g: Groups, country: string, item: string): (r: Groups)
    ensures r.players.Keys == g.players.Keys + {country}
    ensures r.players[country] == (if country in g.players then g.players[country] else []) + [item]
    ensures forall c :: c in g.players && c != country ==> r.players[c] == g.players[c]
  {
    if country in g.players then Groups(g.order, g.players[country := g.players[country] + [item]])
    else Groups(g.order + [country], g.players[country := [item]])
  }

  /** The groups after appending every entry, in order. */
  function Group(es: seq<Entry>): (r: Groups)
    ensures |r.order| <= |es|
  {
    if |es| == 0 then NoGroups
    else
      var n := |es| - 1;
      Add(Group(es[..n]), es[n].country, Label(es[n]))
  }

  /** The country of every entry, in order. */
  function Countries(es: seq<Entry>): (cs: seq<string>)
    ensures |cs| == |es|
    ensures forall k :: 0 <= k < |es| ==> cs[k] == es[k].country
  {
    if |es| == 0 then [] else Countries(es[..|es| - 1]) + [es[|es| - 1].country]
  }

  /** The labels of the entries from `country`, in input order. */
  function PlayersOf(es: seq<Entry>, country: string): seq<string> {
    if |es| == 0 then []
    else
      var n := |es| - 1;
      PlayersOf(es[..n], country) + (if es[n].country == country then [Label(es[n])] else [])
  }

  /** Grouping lists a country exactly when some entry comes from it, once,
      and holds a list of players for exactly the listed countries. */
  lemma {:induction false} GroupCountries(es: seq<Entry>)
    ensures Distinct(Group(es).order)
    ensures forall c :: c in Group(es).players <==> c in Group(es).order
    ensures forall c :: c in Group(es).order <==> c in Countries(es)
  {
    if |es| > 0 {
      var n := |es| - 1;
      GroupCountries(es[..n]);
      assert Countries(es) == Countries(es[..n]) + [es[n].country];
      var prev, c := Group(es[..n]), es[n].country;
      assert Group(es) == Add(prev, c, Label(es[n]));
      if c in prev.players {
        assert Group(es).order == prev.order;
      } else {
        assert Group(es).order == prev.order + [c];
      }
    }
  }

  /** Each country's list holds the labels of its entries, in input order. */
  lemma {:induction false} GroupPlayers(es: seq<Entry>)
    ensures forall c :: c in Group(es).players ==> Group(es).players[c] == PlayersOf(es, c)
  {
    if |es| > 0 {
      var n := |es| - 1;
      GroupPlayers(es[..n]);
      GroupCountries(es[..n]);
      var prev := Group(es[..n]);
      if es[n].country !in prev.players {
        assert es[n].country !in Countries(es[..n]);
        PlayersOfAbsent(es[..n], es[n].country);
      }
    }
  }

  lemma {:induction false} PlayersOfAbsent(es: seq<Entry>, c: string)
    requires c !in Countries(es)
    ensures PlayersOf(es, c) == []
  {
    if |es| > 0 {
      var n := |es| - 1;
      assert Countries(es) == Countries(es[..n]) + [es[n].country];
      PlayersOfAbsent(es[..n], c);
    }
  }

  /** The countries are the distinct countries of the entries in order of
      first appearance (a dict keeps insertion order). */
  lemma {:induction false} GroupOrder(es: seq<Entry>)
    ensures Group(es).order == Dedup(Countries(es))
  {
    if |es| > 0 {
      var n := |es| - 1;
      GroupOrder(es[..n]);
      GroupCountries(es[..n]);
      assert Countries(es) == Countries(es[..n]) + [es[n].country];
      assert Countries(es)[..n] == Countries(es[..n]);
    }
  }

  /** Hence the countries come without repeats and in the order of their first
      appearance in the input. */
  lemma GroupFirstAppearance(es: seq<Entry>)
    ensures Distinct(Group(es).order)
    ensures FirstAppearanceOrder(Group(es).order, Countries(es))
  {
    GroupOrder(es);
    DedupSpec(Countries(es));
  }

  // ---------------------------------------------------------------------------
  // Line breaks
  // ---------------------------------------------------------------------------

  /** A country's list with a line break after every full run of six players. */
  function WithBreaks(ps: seq<string>): (r: seq<string>)
    ensures |r| == |ps| + |ps| / PlayersPerLine
    decreases |ps|
  {
    if |ps| < PlayersPerLine then ps
    else ps[..PlayersPerLine] + [LineBreak] + WithBreaks(ps[PlayersPerLine..])
  }

  /** A full run of six more players adds one more break, at the end. */
  lemma {:induction false} WithBreaksAppendRun(xs: seq<string>, run: seq<string>)
    requires |xs| % PlayersPerLine == 0 && |run| == PlayersPerLine
    ensures WithBreaks(xs + run) == WithBreaks(xs) + run + [LineBreak]
    decreases |xs|
  {
    if |xs| == 0 {
      assert xs + run == run;
      assert run[PlayersPerLine..] == [];
      assert run[..PlayersPerLine] == run;
    } else {
      assert (xs + run)[..PlayersPerLine] == xs[..PlayersPerLine];
      assert (xs + run)[PlayersPerLine..] == xs[PlayersPerLine..] + run;
      WithBreaksAppendRun(xs[PlayersPerLine..], run);
    }
  }

  /** Fewer than six trailing players get no break. */
  lemma {:induction false} WithBreaksAppendTail(xs: seq<string>, tail: seq<string>)
    requires |xs| % PlayersPerLine == 0 && |tail| < PlayersPerLine
    ensures WithBreaks(xs + tail) == WithBreaks(xs) + tail
    decreases |xs|
  {
    if |xs| == 0 {
      assert xs + tail == tail;
    } else {
      assert (xs + tail)[..PlayersPerLine] == xs[..PlayersPerLine];
      assert (xs + tail)[PlayersPerLine..] == xs[PlayersPerLine..] + tail;
      WithBreaksAppendTail(xs[PlayersPerLine..], tail);
    }
  }

  /** One `players.insert` call: with b breaks placed, the next one goes to
      index (b + 1) * 6 + b, right after the next run of six players. */
  lemma InsertStep(players: seq<string>, b: nat, out: seq<string>)
    requires b < |players| / PlayersPerLine
    requires out == WithBreaks(players[..PlayersPerLine * b]) + players[PlayersPerLine * b..]
    ensures var at := (b + 1) * PlayersPerLine + b;
      at <= |out| && out[..at] + [LineBreak] + out[at..]
        == WithBreaks(players[..PlayersPerLine * (b + 1)]) + players[PlayersPerLine * (b + 1)..]
  {
    var done := players[..PlayersPerLine * b];
    var run := players[PlayersPerLine * b..PlayersPerLine * (b + 1)];
    var at := (b + 1) * PlayersPerLine + b;
    assert |WithBreaks(done)| == PlayersPerLine * b + b;
    assert out[..at] == WithBreaks(done) + run;
    assert out[at..] == players[PlayersPerLine * (b + 1)..];
    WithBreaksAppendRun(done, run);
    assert done + run == players[..PlayersPerLine * (b + 1)];
  }

  /** The loop of `players.insert` calls, on the list it mutates: the b-th
      break (from 0) goes to index (b + 1) * 6 + b. */
  method InsertBreaks(players: seq<string>) returns (out: seq<string>)
    ensures out == WithBreaks(players)
  {
    out := players;
    var runs := |players| / PlayersPerLine;
    var b := 0;
    assert players[..0] == [];
    while b < runs
      invariant 0 <= b <= runs
      invariant out == WithBreaks(players[..PlayersPerLine * b]) + players[PlayersPerLine * b..]
    {
      var at := (b + 1) * PlayersPerLine + b;
      InsertStep(players, b, out);
      out := out[..at] + [LineBreak] + out[at..];
      b := b + 1;
    }
    InsertDone(players, out);
  }

  /** n players split into n div 6 full runs and fewer than six left over. */
  lemma FullRuns(n: nat)
    ensures var runs := n / PlayersPerLine;
      && 0 <= PlayersPerLine * runs <= n
      && n - PlayersPerLine * runs < PlayersPerLine
      && (PlayersPerLine * runs) % PlayersPerLine == 0
  {
  }

  /** After the last full run, the players left over get no break. */
  lemma InsertDone(players: seq<string>, out: seq<string>)
    requires var runs := |players| / PlayersPerLine;
      out == WithBreaks(players[..PlayersPerLine * runs]) + players[PlayersPerLine * runs..]
    ensures out == WithBreaks(players)
  {
    var runs := |players| / PlayersPerLine;
    var full := PlayersPerLine * runs;
    assert 0 <= full <= |players| && |players| - full < PlayersPerLine && full % PlayersPerLine == 0 by {
      FullRuns(|players|);
    }
    var head, tail := players[..full], players[full..];
    assert head + tail == players;
    WithBreaksAppendTail(head, tail);
  }

  /** The list without its break markers. */
  function RemoveBreaks(ps: seq<string>): seq<string> {
    if |ps| == 0 then []
    else (if ps[0] == LineBreak then [] else [ps[0]]) + RemoveBreaks(ps[1..])
  }

  /** How many break markers the list holds. */
  function CountBreaks(ps: seq<string>): nat {
    if |ps| == 0 then 0 else (if ps[0] == LineBreak then 1 else 0) + CountBreaks(ps[1..])
  }

  lemma {:induction false} RemoveBreaksAppend(a: seq<string>, b: seq<string>)
    ensures RemoveBreaks(a + b) == RemoveBreaks(a) + RemoveBreaks(b)
    ensures CountBreaks(a + b) == CountBreaks(a) + CountBreaks(b)
  {
    if |a| > 0 {
      assert (a + b)[1..] == a[1..] + b;
      RemoveBreaksAppend(a[1..], b);
    } else {
      assert a + b == b;
    }
  }

  lemma {:induction false} NoBreaksIn(ps: seq<string>)
    requires LineBreak !in ps
    ensures RemoveBreaks(ps) == ps && CountBreaks(ps) == 0
  {
    if |ps| > 0 { NoBreaksIn(ps[1..]); }
  }

  lemma BreakAlone()
    ensures RemoveBreaks([LineBreak]) == [] && CountBreaks([LineBreak]) == 1
  {
    assert [LineBreak][1..] == [];
    assert [LineBreak][0] == LineBreak;
  }

  /** A list of n players (none of them a break marker) gets exactly n div 6
      breaks, and removing them gives the list back. */
  lemma {:induction false} BreaksRemovable(ps: seq<string>)
    requires LineBreak !in ps
    ensures RemoveBreaks(WithBreaks(ps)) == ps
    ensures CountBreaks(WithBreaks(ps)) == |ps| / PlayersPerLine
    decreases |ps|
  {
    if |ps| < PlayersPerLine {
      NoBreaksIn(ps);
    } else {
      var run, rest := ps[..PlayersPerLine], ps[PlayersPerLine..];
      var head := run + [LineBreak];
      assert WithBreaks(ps) == head + WithBreaks(rest);
      assert RemoveBreaks(head) == run && CountBreaks(head) == 1 by {
        NoBreaksIn(run);
        BreakAlone();
        RemoveBreaksAppend(run, [LineBreak]);
      }
      BreaksRemovable(rest);
      RemoveBreaksAppend(head, WithBreaks(rest));
      assert run + rest == ps;
      assert |rest| / PlayersPerLine + 1 == |ps| / PlayersPerLine;
    }
  }

  /** The k-th break (from 0) stands at index 7k + 6, so six players precede
      the first one and six lie between consecutive ones. */
  lemma {:induction false} BreakPositions(ps: seq<string>, k: nat)
    requires k < |ps| / PlayersPerLine
    ensures WithBreaks(ps)[(PlayersPerLine + 1) * k + PlayersPerLine] == LineBreak
    decreases |ps|
  {
    if k > 0 {
      BreakPositions(ps[PlayersPerLine..], k - 1);
    }
  }

  /** Labels end in `)`, so no player is ever mistaken for a break marker. */
  lemma LabelsAreNotBreaks(es: seq<Entry>, c: string)
    ensures LineBreak !in PlayersOf(es, c)
  {
    if |es| > 0 {
      LabelsAreNotBreaks(es[..|es| - 1], c);
    }
  }

  // ---------------------------------------------------------------------------
  // The roster text
  // ---------------------------------------------------------------------------

  predicate Complete(g: Groups) {
    forall c :: c in g.order ==> c in g.players
  }

  /** `f'{country}: {s_player}<br>'` for one country. */
  function CountryLine(country: string, players: seq<string>): (s: string)
    ensures |s| >= |country| + 6
    ensures s[..|country| + 2] == country + ": " && s[|s| - 4..] == "<br>"
  {
    country + ": " + Join(WithBreaks(players), PlayerSeparator) + "<br>"
  }

  /** The lines of the first `n` countries, accumulated in order. */
  function Block(g: Groups, n: nat): (s: string)
    requires Complete(g) && n <= |g.order|
    ensures forall m: nat :: m < n ==> Block(g, m) < s
  {
    if n == 0 then "" else Block(g, n - 1) + CountryLine(g.order[n - 1], g.players[g.order[n - 1]])
  }

  /** The returned text: the Females block, then the Males block. */
  function Display(male: Groups, female: Groups): (s: string)
    requires Complete(male) && Complete(female)
    ensures FemalesHeader <= s
    ensures male.order == [] && female.order == [] ==> s == FemalesHeader + MalesHeader
  {
    FemalesHeader + Block(female, |female.order|) + MalesHeader + Block(male, |male.order|)
  }

  lemma GroupComplete(es: seq<Entry>)
    ensures Complete(Group(es))
  {
    GroupCountries(es);
  }

  /** The male and the female groups of a roster list, or the ValueError of
      its first malformed entry. */
  function Route(xs: seq<string>): (r: Result<(Groups, Groups)>)
    ensures r.Ok? ==> Complete(r.value.0) && Complete(r.value.1)
    ensures r.Failure? ==> r.error == ValueError
  {
    match ParseEntries(xs)
    case Failure(e) => Failure(e)
    case Ok(es) =>
      GroupComplete(OfGender(es, true));
      GroupComplete(OfGender(es, false));
      Ok((Group(OfGender(es, true)), Group(OfGender(es, false))))
  }

  /** What `format_info_by_gender_country` returns for a row whose roster is
      `info` (None when it is not a list, as for a sport with nobody in range). */
  function FormatInfoSpec(info: Option<seq<string>>): (r: Result<string>)
    ensures r.Failure? ==> r.error == ValueError
  {
    GroupComplete([]);
    match info
    case None => Ok(Display(NoGroups, NoGroups))
    case Some(xs) =>
      match Route(xs)
      case Failure(e) => Failure(e)
      case Ok((male, female)) => Ok(Display(male, female))
  }

  /** The loop that builds `s_male` or `s_female`. */
  method FormatBlock(g: Groups) returns (s: string)
    requires Complete(g)
    ensures s == Block(g, |g.order|)
  {
    s := "";
    for i := 0 to |g.order|
      invariant s == Block(g, i)
    {
      var country := g.order[i];
      var players := InsertBreaks(g.players[country]);
      var joined := Join(players, PlayerSeparator);
      s := s + country + ": " + joined + "<br>";
    }
  }

  lemma ParseStep(xs: seq<string>, i: nat, es: seq<Entry>, e: Entry)
    requires i < |xs| && ParseEntries(xs[..i]) == Ok(es) && ParseEntry(xs[i]) == Ok(e)
    ensures ParseEntries(xs[..i + 1]) == Ok(es + [e])
  {
    assert xs[..i + 1][..i] == xs[..i];
  }

  lemma OfGenderStep(es: seq<Entry>, e: Entry, male: bool)
    ensures OfGender(es + [e], male) ==
      OfGender(es, male) + (if (e.gender == "Male") == male then [e] else [])
  {
    assert (es + [e])[..|es|] == es;
  }

  lemma GroupAppend(ys: seq<Entry>, e: Entry)
    ensures Group(ys + [e]) == Add(Group(ys), e.country, Label(e))
  {
    assert (ys + [e])[..|ys|] == ys;
  }

  lemma GroupStep(es: seq<Entry>, e: Entry, male: bool)
    ensures Group(OfGender(es + [e], male)) ==
      if (e.gender == "Male") == male then Add(Group(OfGender(es, male)), e.country, Label(e))
      else Group(OfGender(es, male))
  {
    OfGenderStep(es, e, male);
    var ys := OfGender(es, male);
    if (e.gender == "Male") == male {
      GroupAppend(ys, e);
    } else {
      assert ys + [] == ys;
    }
  }

  /** A malformed entry after well-formed ones makes the routing a ValueError. */
  lemma RouteFailsAt(xs: seq<string>, i: nat)
    requires i < |xs| && ParseEntries(xs[..i]).Ok? && ParseEntry(xs[i]).Failure?
    ensures Route(xs) == Failure(ValueError)
  {
    assert xs[..i + 1][..i] == xs[..i];
    ParseFailurePropagates(xs, i + 1);
  }

  /** Once every entry is parsed, the routing is the grouping of each gender. */
  lemma RouteOfAll(xs: seq<string>, es: seq<Entry>)
    requires ParseEntries(xs[..|xs|]) == Ok(es)
    ensures Route(xs) == Ok((Group(OfGender(es, true)), Group(OfGender(es, false))))
  {
    assert xs[..|xs|] == xs;
  }

  /** The loop over the roster list that appends each player to the male or
      the female dictionary. */
  method GroupByGender(xs: seq<string>) returns (r: Result<(Groups, Groups)>)
    ensures r == Route(xs)
  {
    var dMale, dFemale := NoGroups, NoGroups;
    ghost var es: seq<Entry> := [];
    for i := 0 to |xs|
      invariant ParseEntries(xs[..i]) == Ok(es)
      invariant dMale == Group(OfGender(es, true)) && dFemale == Group(OfGender(es, false))
    {
      var parsed := ParseEntry(xs[i]);
      if parsed.Failure? {
        RouteFailsAt(xs, i);
        return Failure(ValueError);
      }
      var e := parsed.value;
      var isMale := e.gender == "Male";
      var d := if isMale then dMale else dFemale;
      ghost var before := d;
      if e.country in d.players {
        d := Groups(d.order, d.players[e.country := d.players[e.country] + [Label(e)]]);
      } else {
        d := Groups(d.order + [e.country], d.players[e.country := [Label(e)]]);
      }
      assert d == Add(before, e.country, Label(e));
      if isMale { dMale := d; } else { dFemale := d; }
      ParseStep(xs, i, es, e);
      GroupStep(es, e, true);
      GroupStep(es, e, false);
      es := es + [e];
    }
    RouteOfAll(xs, es);
    r := Ok((dMale, dFemale));
  }

  /** `format_info_by_gender_country`. */
  method FormatInfo(info: Option<seq<string>>) returns (r: Result<string>)
    ensures r == FormatInfoSpec(info)
  {
    GroupComplete([]);
    var dMale, dFemale := NoGroups, NoGroups;
    if info.Some? {
      var grouped := GroupByGender(info.value);
      if grouped.Failure? {
        return Failure(grouped.error);
      }
      dMale, dFemale := grouped.value.0, grouped.value.1;
    }
    var sMale := FormatBlock(dMale);
    var sFemale := FormatBlock(dFemale);
    r := Ok(FemalesHeader + sFemale + MalesHeader + sMale);
  }

  lemma {:induction false} ParseFailurePropagates(xs: seq<string>, i: nat)
    requires i <= |xs| && ParseEntries(xs[..i]).Failure?
    ensures ParseEntries(xs).Failure?
    decreases |xs| - i
  {
    if i < |xs| {
      assert xs[..i + 1][..i] == xs[..i];
      ParseFailurePropagates(xs, i + 1);
    } else {
      assert xs[..i] == xs;
    }
  }

  /** A row whose roster is not a list gets the two headers and nothing else. */
  lemma NoRosterGivesEmptyBlocks()
    ensures FormatInfoSpec(None) == Ok("<br><b>Females</b>:<br><br><b>Males</b>:<br>")
  {
    assert |NoGroups.order| == 0 && Block(NoGroups, 0) == "";
    assert FormatInfoSpec(None) == Ok(Display(NoGroups, NoGroups));
    assert Display(NoGroups, NoGroups) == FemalesHeader + MalesHeader;
    assert FemalesHeader + MalesHeader == "<br><b>Females</b>:<br><br><b>Males</b>:<br>";
  }

  // ---------------------------------------------------------------------------
  // The two-line sport label
  // ---------------------------------------------------------------------------

  /** `format_sport_en_cn`: the sport name with `<br>` inserted before its first
      `(`; `str.index` raises a ValueError when there is none. */
  function SportLabel(sport: string): (r: Result<string>)
    ensures r.Failure? <==> '(' !in sport
    ensures r.Failure? ==> r.error == ValueError
    ensures r.Ok? ==> |r.value| == |sport| + 4
  {
    var i := IndexOf(sport, '(');
    if i < 0 then Failure(ValueError) else Ok(sport[..i] + "<br>" + sport[i..])
  }

  /** The label is the text before the first `(`, then `<br>`, then the rest
      from that `(` on; deleting the `<br>` gives the sport name back. */
  lemma SportLabelSplitsAtFirstParen(sport: string)
    requires '(' in sport
    ensures SportLabel(sport).Ok?
    ensures exists i :: (0 <= i < |sport| && sport[i] == '(' && '(' !in sport[..i]
      && SportLabel(sport).value == sport[..i] + "<br>" + sport[i..]
      && SportLabel(sport).value[..i] + SportLabel(sport).value[i + 4..] == sport)
  {
    var i := IndexOf(sport, '(');
    assert '(' !in sport[..i];
    var s := sport[..i] + "<br>" + sport[i..];
    assert s[..i] == sport[..i] && s[i + 4..] == sport[i..];
    assert sport[..i] + sport[i..] == sport;
  }

  /** An English name followed by a parenthesised Chinese name is shown on two
      lines, the parenthesised part on the second. */
  lemma BilingualSportLabel(en: string, cn: string)
    requires '(' !in en
    ensures SportLabel(en + "(" + cn + ")") == Ok(en + "<br>" + "(" + cn + ")")
  {
    var s := en + "(" + cn + ")";
    assert s[|en|] == '(';
    assert forall k :: 0 <= k < |en| ==> s[k] == en[k];
    assert IndexOf(s, '(') == |en|;
    assert s[..|en|] == en;
    assert s[|en|..] == "(" + cn + ")";
    assert SportLabel(s) == Ok(s[..|en|] + "<br>" + s[|en|..]);
    assert s[..|en|] + "<br>" + s[|en|..] == en + "<br>" + "(" + cn + ")";
  }
}
