/** The parser for one clause of the data table's filter query
    (`split_filter_part` in app_goFrames.py): a clause such as `{Age} ge 18`
    becomes a column name, a canonical operator word and a value. */
module FilterQuery {
  import opened Wrappers
  import opened Text

  /** The operator table, searched group by group and, inside a group, token by
      token. Word tokens carry the space that must follow them in a query. */
  const Operators: seq<seq<string>> :=
    [["ge ", ">="], ["le ", "<="], ["lt ", "<"], ["gt ", ">"], ["ne ", "!="], ["eq ", "="],
     ["contains "], ["datestartswith "]]

  /** The operator words a parsed clause can carry, one per group. */
  const OperatorWords: seq<string> :=
    ["ge", "le", "lt", "gt", "ne", "eq", "contains", "datestartswith"]

  /** A parsed value: a Python float or a Python str. */
  datatype Value = Num(x: real) | Str(s: string)

  /** A recognised clause; an unrecognised one is `None` (Python's `[None] * 3`). */
  datatype Clause = Clause(column: string, op: string, value: Value)

  // ---------------------------------------------------------------------------
  // The operator search
  // ---------------------------------------------------------------------------

  /** (g, k) names token k of group g of the operator table. */
  predicate IsToken(g: int, k: int) {
    0 <= g < |Operators| && 0 <= k < |Operators[g]|
  }

  /** (g1, k1) is tried before (g2, k2) by the nested search. */
  predicate Before(g1: int, k1: int, g2: int, k2: int) {
    g1 < g2 || (g1 == g2 && k1 < k2)
  }

  /** The nested search from token (g, k) on: the first token, in table order,
      that occurs anywhere in `part`. */
  function SearchFrom(part: string, g: nat, k: nat): (r: Option<(nat, nat)>)
    requires g <= |Operators| && (g < |Operators| ==> k <= |Operators[g]|)
    ensures r.Some? ==> IsToken(r.value.0, r.value.1) && !Before(r.value.0, r.value.1, g, k)
    ensures r.Some? ==> Occurs(part, Operators[r.value.0][r.value.1])
    ensures r.Some? ==> forall g', k' ::
      (IsToken(g', k') && !Before(g', k', g, k) && Before(g', k', r.value.0, r.value.1))
      ==> !Occurs(part, Operators[g'][k'])
    ensures r.None? ==> forall g', k' ::
      (IsToken(g', k') && !Before(g', k', g, k)) ==> !Occurs(part, Operators[g'][k'])
    decreases |Operators| - g, if g < |Operators| then |Operators[g]| - k else 0
  {
    if g == |Operators| then None
    else if k == |Operators[g]| then SearchFrom(part, g + 1, 0)
    else if Occurs(part, Operators[g][k]) then Some((g, k))
    else SearchFrom(part, g, k + 1)
  }

  /** The token `split_filter_part` splits at: the first one, in table order,
      that occurs anywhere in the clause; None when no token occurs. */
  function FindOperator(part: string): (r: Option<(nat, nat)>)
    ensures r.Some? ==> IsToken(r.value.0, r.value.1) && Occurs(part, Operators[r.value.0][r.value.1])
    ensures r.Some? ==> forall g', k' ::
      (IsToken(g', k') && Before(g', k', r.value.0, r.value.1)) ==> !Occurs(part, Operators[g'][k'])
    ensures r.None? <==> forall g', k' :: IsToken(g', k') ==> !Occurs(part, Operators[g'][k'])
  {
    SearchFrom(part, 0, 0)
  }

  /** The operator a clause reports: the group's word token without its space. */
  function OperatorName(g: nat): (name: string)
    requires g < |Operators|
    ensures name == OperatorWords[g]
  {
    var word := Operators[g][0];
    assert word == OperatorWords[g] + " ";
    StripRightPadded(OperatorWords[g], " ");
    StripLeftPadded("", OperatorWords[g]);
    assert "" + OperatorWords[g] == OperatorWords[g];
    Strip(word)
  }

  // ---------------------------------------------------------------------------
  // The column name
  // ---------------------------------------------------------------------------

  /** `name_part[name_part.find('{') + 1: name_part.rfind('}')]`. */
  function ColumnName(namePart: string): (name: string)
    ensures |name| <= |namePart|
  {
    PySlice(namePart, IndexOf(namePart, '{') + 1, LastIndexOf(namePart, '}'))
  }

  /** The column name is what lies between the first `{` and the last `}`. */
  lemma ColumnNameBetweenBraces(pre: string, name: string, post: string)
    requires '{' !in pre && '}' !in post
    ensures ColumnName(pre + "{" + name + "}" + post) == name
  {
    var s := pre + "{" + name + "}" + post;
    var i, j := |pre|, |pre| + 1 + |name|;
    assert s[i] == '{' && s[j] == '}';
    assert forall k :: 0 <= k < i ==> s[k] == pre[k];
    assert forall k :: j < k < |s| ==> s[k] == post[k - j - 1];
    assert IndexOf(s, '{') == i;
    assert LastIndexOf(s, '}') == j;
    assert s[i + 1..j] == name;
  }

  // ---------------------------------------------------------------------------
  // The value
  // ---------------------------------------------------------------------------

  predicate IsQuote(c: char) {
    c == '\'' || c == '"' || c == '`'
  }

  /** `s.replace('\\' + q, q)`: every backslash-quote pair, scanning left to
      right without overlap, becomes the quote alone. */
  function Unescape(s: string, q: char): (r: string)
    ensures |r| <= |s|
  {
    if |s| == 0 then ""
    else if |s| >= 2 && s[0] == '\\' && s[1] == q then [q] + Unescape(s[2..], q)
    else [s[0]] + Unescape(s[1..], q)
  }

  /** The inverse of Unescape: a backslash in front of every quote. */
  function Escape(s: string, q: char): string {
    if |s| == 0 then ""
    else (if s[0] == q then ['\\', q] else [s[0]]) + Escape(s[1..], q)
  }

  /** Escaping a text and then unescaping it gives the text back, whatever
      backslashes the text already holds. */
  lemma {:induction false} UnescapeEscape(s: string, q: char)
    requires q != '\\'
    ensures Unescape(Escape(s, q), q) == s
  {
    if |s| > 0 {
      var e := Escape(s, q);
      var rest := Escape(s[1..], q);
      UnescapeEscape(s[1..], q);
      if s[0] == q {
        assert e == ['\\', q] + rest;
        assert e[2..] == rest;
      } else {
        assert e == [s[0]] + rest;
        assert e[1..] == rest;
        if s[0] == '\\' && |rest| > 0 {
          assert rest[0] == (if s[1] == q then '\\' else s[1]);
        }
      }
    }
  }

  function Pow10(n: nat): (p: nat)
    ensures p >= 1
  {
    if n == 0 then 1 else 10 * Pow10(n - 1)
  }

  /** Python's `float(t)` on an already stripped text, for plain decimal
      notation: an optional sign, then digits with at most one point and at
      least one digit. None is the ValueError. */
  function ParseFloat(t: string): (r: Option<real>)
    ensures r.Some? ==> |t| > 0
  {
    var signed := |t| > 0 && (t[0] == '-' || t[0] == '+');
    match ParseMagnitude(if signed then t[1..] else t)
    case None => None
    case Some(magnitude) => Some(if signed && t[0] == '-' then -magnitude else magnitude)
  }

  /** The unsigned part of a decimal literal: digits, optionally split by
      one dot, with at least one digit in all. */
  function ParseMagnitude(body: string): (r: Option<real>)
    ensures r.Some? ==> |body| > 0
  {
    var dot := IndexOf(body, '.');
    var intPart := if dot < 0 then body else body[..dot];
    var fracPart := if dot < 0 then "" else body[dot + 1..];
    if AllDigits(intPart) && AllDigits(fracPart) && |intPart| + |fracPart| > 0 then
      Some(ParseNat(intPart) as real + Fraction(fracPart))
    else None
  }

  /** The value of the digits after the point. */
  function Fraction(fracPart: string): (f: real)
    requires AllDigits(fracPart)
    ensures fracPart == "" ==> f == 0.0
  {
    ParseNat(fracPart) as real / Pow10(|fracPart|) as real
  }

  /** A non-empty run of digits is a whole-number magnitude. */
  lemma ParseMagnitudeDigits(digits: string)
    requires |digits| > 0 && AllDigits(digits)
    ensures ParseMagnitude(digits) == Some(ParseNat(digits) as real)
  {
    assert digits[0] != '.';
    assert IndexOf(digits, '.') == -1;
    assert AllDigits("") && Fraction("") == 0.0;
  }

  /** `float(str(n))` is n for every integer. */
  lemma ParseFloatInt(n: int)
    ensures ParseFloat(IntToString(n)) == Some(n as real)
  {
    var m: nat := if n < 0 then -n else n;
    var t := IntToString(n);
    var digits := NatToString(m);
    ParseNatToString(m);
    ParseMagnitudeDigits(digits);
    if n < 0 {
      assert t[0] == '-' && t[1..] == digits;
    } else {
      assert t == digits && IsDigit(t[0]);
    }
  }

  /** The value of a clause, from the text after the operator: a quoted text
      (the same quote at both ends) is unquoted and unescaped, else a number if
      it parses, else the stripped text. An empty text is the IndexError of
      `value_part[0]`. */
  function ParseValue(valuePart: string): (r: Result<Value>)
    ensures r.Failure? <==> Strip(valuePart) == ""
    ensures r.Failure? ==> r.error == IndexError
  {
    ParseStripped(Strip(valuePart))
  }

  function ParseStripped(v: string): (r: Result<Value>)
    ensures r.Failure? <==> v == ""
    ensures r.Failure? ==> r.error == IndexError
  {
    if |v| == 0 then Failure(IndexError)
    else if v[0] == v[|v| - 1] && IsQuote(v[0]) then Ok(Str(Unescape(PySlice(v, 1, -1), v[0])))
    else match ParseFloat(v)
      case Some(x) => Ok(Num(x))
      case None => Ok(Str(v))
  }

  /** A quoted, escaped text between any whitespace padding reads back as the text. */
  lemma ParseValueQuoted(w1: string, x: string, q: char, w2: string)
    requires AllSpace(w1) && AllSpace(w2) && IsQuote(q)
    ensures ParseValue(w1 + [q] + Escape(x, q) + [q] + w2) == Ok(Str(x))
  {
    var m := [q] + Escape(x, q) + [q];
    assert w1 + [q] + Escape(x, q) + [q] + w2 == w1 + m + w2;
    StripPadded(w1, m, w2);
    assert m[0] == q && m[|m| - 1] == q;
    assert PySlice(m, 1, -1) == Escape(x, q) by {
      assert m[1..|m| - 1] == Escape(x, q);
    }
    UnescapeEscape(x, q);
  }

  /** The text of an integer starts with a digit or a minus and ends with a
      digit: no padding, no quote. */
  lemma IntToStringEnds(n: int)
    ensures var m := IntToString(n);
      !IsSpace(m[0]) && !IsSpace(m[|m| - 1]) && !IsQuote(m[0])
  {
    var m := IntToString(n);
    var digits := NatToString(if n < 0 then -n else n);
    ParseNatToString(if n < 0 then -n else n);
    assert m[|m| - 1] == digits[|digits| - 1];
    assert IsDigit(m[|m| - 1]) && (IsDigit(m[0]) || m[0] == '-');
  }

  /** An unquoted integer between any whitespace padding reads back as a number. */
  lemma ParseValueInt(w1: string, n: int, w2: string)
    requires AllSpace(w1) && AllSpace(w2)
    ensures ParseValue(w1 + IntToString(n) + w2) == Ok(Num(n as real))
  {
    var m := IntToString(n);
    IntToStringEnds(n);
    StripPadded(w1, m, w2);
    ParseFloatInt(n);
    assert ParseStripped(m) == Ok(Num(n as real));
  }

  /** An unquoted text that is not a number, between any whitespace padding,
      reads as the text itself: the `except ValueError` branch. */
  lemma ParseValueText(w1: string, m: string, w2: string)
    requires AllSpace(w1) && AllSpace(w2)
    requires |m| > 0 && !IsSpace(m[0]) && !IsSpace(m[|m| - 1])
    requires !(m[0] == m[|m| - 1] && IsQuote(m[0]))
    requires ParseFloat(m).None?
    ensures ParseValue(w1 + m + w2) == Ok(Str(m))
  {
    StripPadded(w1, m, w2);
  }

  /** `China` is not a float, so ` China` reads as the text `China`. */
  lemma ChinaIsText()
    ensures ParseValue(" China") == Ok(Str("China"))
  {
    var m := "China";
    assert ParseFloat(m).None? by {
      assert !IsDigit(m[0]) && m[0] != '-' && m[0] != '+' && m[0] != '.';
      assert IndexOf(m, '.') == -1 by {
        assert forall j :: 0 <= j < |m| ==> m[j] != '.';
      }
      assert !AllDigits(m);
    }
    assert AllSpace(" ") && AllSpace("");
    assert " " + m + "" == " China";
    ParseValueText(" ", m, "");
  }

  // ---------------------------------------------------------------------------
  // split_filter_part
  // ---------------------------------------------------------------------------

  /** `split_filter_part`: Ok(None) when no operator token occurs, the
      IndexError when the text after the operator is blank, else the clause. */
  function SplitFilterPart(part: string): (r: Result<Option<Clause>>)
    ensures r.Ok? && r.value.Some? ==> r.value.value.op in OperatorWords
    ensures r.Failure? ==> r.error == IndexError
  {
    match FindOperator(part)
    case None => Ok(None)
    case Some((g, k)) =>
      var token := Operators[g][k];
      var i := Find(part, token).value;
      SplitAt(part, g, i, i + |token|)
  }

  /** What follows `filter_part.split(operator, 1)` when the chosen token of
      group `g` spans `part[i..j]`. */
  function SplitAt(part: string, g: nat, i: nat, j: nat): (r: Result<Option<Clause>>)
    requires g < |Operators| && i <= j <= |part|
    ensures r.Ok? ==> r.value.Some? && r.value.value.op == OperatorWords[g]
    ensures r.Failure? <==> Strip(part[j..]) == ""
    ensures r.Failure? ==> r.error == IndexError
  {
    var namePart, valuePart := part[..i], part[j..];
    match ParseValue(valuePart)
    case Failure(e) => Failure(e)
    case Ok(v) => Ok(Some(Clause(ColumnName(namePart), OperatorName(g), v)))
  }

  /** A clause in which no operator token occurs is unrecognised, and only such
      a clause is. */
  lemma UnrecognisedIff(part: string)
    ensures SplitFilterPart(part) == Ok(None)
      <==> forall g, k :: IsToken(g, k) ==> !Occurs(part, Operators[g][k])
  {
  }

  /** `split_filter_part` on a clause whose chosen token is the first one, in
      table order, that occurs in it, and occurs first right after
      `namePart`: the column is read from `namePart`, the operator is the
      group's word and the value is read from what follows the token; a blank
      remainder is the IndexError of `value_part[0]`. */
  lemma SplitFilterPartAt(namePart: string, g: nat, k: nat, valuePart: string)
    requires IsToken(g, k)
    requires forall g', k' :: IsToken(g', k') && Before(g', k', g, k) ==>
      !Occurs(namePart + Operators[g][k] + valuePart, Operators[g'][k'])
    requires forall j: nat :: j < |namePart| ==> !OccursAt(namePart + Operators[g][k] + valuePart, Operators[g][k], j)
    ensures SplitFilterPart(namePart + Operators[g][k] + valuePart) ==
      if Strip(valuePart) == "" then Failure(IndexError)
      else Ok(Some(Clause(ColumnName(namePart), OperatorWords[g], ParseValue(valuePart).value)))
  {
    var token := Operators[g][k];
    var part := namePart + token + valuePart;
    var i := |namePart|;
    assert part[i..i + |token|] == token;
    FindFirst(part, token, i);
    var r := FindOperator(part);
    assert r.Some?;
    var (g2, k2) := r.value;
    assert !Before(g2, k2, g, k);
    assert !Before(g, k, g2, k2);
    assert g2 == g && k2 == k;
    assert part[..i] == namePart;
    assert part[i + |token|..] == valuePart;
  }

  /** A clause `{name}` + blanks + token + blanks + integer reads as that
      column, the group's word and the integer as a number, whenever the
      token is the first in table order to occur and occurs first there. */
  lemma SplitNumericClause(name: string, w1: string, g: nat, k: nat, w2: string, n: int)
    requires IsToken(g, k) && AllSpace(w1) && AllSpace(w2)
    requires var namePart := "{" + name + "}" + w1;
      var part := namePart + Operators[g][k] + (w2 + IntToString(n));
      && (forall g', k' :: IsToken(g', k') && Before(g', k', g, k) ==> !Occurs(part, Operators[g'][k']))
      && (forall j: nat :: j < |namePart| ==> !OccursAt(part, Operators[g][k], j))
    ensures SplitFilterPart("{" + name + "}" + w1 + Operators[g][k] + (w2 + IntToString(n)))
      == Ok(Some(Clause(name, OperatorWords[g], Num(n as real))))
  {
    var namePart := "{" + name + "}" + w1;
    var valuePart := w2 + IntToString(n);
    assert ParseValue(valuePart) == Ok(Num(n as real)) by {
      ParseValueInt(w2, n, "");
      assert w2 + IntToString(n) + "" == valuePart;
    }
    assert ColumnName(namePart) == name by {
      assert '}' !in w1 by {
        assert !IsSpace('}');
      }
      assert "" + "{" + name + "}" + w1 == namePart by {
        assert "" + "{" == "{";
      }
      ColumnNameBetweenBraces("", name, w1);
    }
    SplitFilterPartAt(namePart, g, k, valuePart);
  }

  /** A clause `{name}` + blanks + token + blanks + a quoted, escaped text
      reads as that column, the group's word and the original text, under
      the same conditions on the token. */
  lemma SplitQuotedClause(name: string, w1: string, g: nat, k: nat, w2: string, x: string, q: char)
    requires IsToken(g, k) && AllSpace(w1) && AllSpace(w2) && IsQuote(q)
    requires var namePart := "{" + name + "}" + w1;
      var part := namePart + Operators[g][k] + (w2 + [q] + Escape(x, q) + [q]);
      && (forall g', k' :: IsToken(g', k') && Before(g', k', g, k) ==> !Occurs(part, Operators[g'][k']))
      && (forall j: nat :: j < |namePart| ==> !OccursAt(part, Operators[g][k], j))
    ensures SplitFilterPart("{" + name + "}" + w1 + Operators[g][k] + (w2 + [q] + Escape(x, q) + [q]))
      == Ok(Some(Clause(name, OperatorWords[g], Str(x))))
  {
    var namePart := "{" + name + "}" + w1;
    var valuePart := w2 + [q] + Escape(x, q) + [q];
    assert ParseValue(valuePart) == Ok(Str(x)) by {
      ParseValueQuoted(w2, x, q, "");
      assert w2 + [q] + Escape(x, q) + [q] + "" == valuePart;
    }
    assert ColumnName(namePart) == name by {
      assert '}' !in w1 by {
        assert !IsSpace('}');
      }
      assert "" + "{" + name + "}" + w1 == namePart by {
        assert "" + "{" == "{";
      }
      ColumnNameBetweenBraces("", name, w1);
    }
    SplitFilterPartAt(namePart, g, k, valuePart);
  }

  /** A clause `{name}` + blanks + token + blanks + an unquoted text that is
      not a number reads as that column, the group's word and the text
      itself, under the same conditions on the token. */
  lemma SplitTextClause(name: string, w1: string, g: nat, k: nat, w2: string, m: string)
    requires IsToken(g, k) && AllSpace(w1) && AllSpace(w2)
    requires |m| > 0 && !IsSpace(m[0]) && !IsSpace(m[|m| - 1])
    requires !(m[0] == m[|m| - 1] && IsQuote(m[0])) && ParseFloat(m).None?
    requires var namePart := "{" + name + "}" + w1;
      var part := namePart + Operators[g][k] + (w2 + m);
      && (forall g', k' :: IsToken(g', k') && Before(g', k', g, k) ==> !Occurs(part, Operators[g'][k']))
      && (forall j: nat :: j < |namePart| ==> !OccursAt(part, Operators[g][k], j))
    ensures SplitFilterPart("{" + name + "}" + w1 + Operators[g][k] + (w2 + m))
      == Ok(Some(Clause(name, OperatorWords[g], Str(m))))
  {
    var namePart := "{" + name + "}" + w1;
    var valuePart := w2 + m;
    assert ParseValue(valuePart) == Ok(Str(m)) by {
      ParseValueText(w2, m, "");
      assert w2 + m + "" == valuePart;
    }
    assert ColumnName(namePart) == name by {
      assert '}' !in w1 by {
        assert !IsSpace('}');
      }
      assert "" + "{" + name + "}" + w1 == namePart by {
        assert "" + "{" == "{";
      }
      ColumnNameBetweenBraces("", name, w1);
    }
    SplitFilterPartAt(namePart, g, k, valuePart);
  }

  /** The clause `{Age} ge 18` reads as the column `Age`, the operator `ge`
      and the number 18. */
  lemma AgeAtLeastEighteen()
    ensures SplitFilterPart("{Age} ge 18") == Ok(Some(Clause("Age", "ge", Num(18.0))))
  {
    var part := "{Age} ge 18";
    assert IntToString(18) == "18";
    assert "{" + "Age" + "}" + " " + Operators[0][0] + ("" + IntToString(18)) == part;
    assert |"{" + "Age" + "}" + " "| == 6;
    assert Operators[0][0] == "ge ";
    forall j: nat | j < 6 ensures !OccursAt(part, Operators[0][0], j) {
      if j == 2 {
        assert part[j..j + 3][2] == part[4] == '}';
      } else {
        assert part[j..j + 3][0] == part[j] != 'g';
      }
    }
    SplitNumericClause("Age", " ", 0, 0, "", 18);
  }
}
