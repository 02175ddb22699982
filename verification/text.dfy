/** The pieces of Python's `str` behaviour the dashboard relies on: substring
    search, `split`/`join`, `strip`, slicing with negative indices, `str(int)`
    and string ordering. Strings are sequences of code points, as in Python 3. */
module Text {
  import opened Wrappers

  // ---------------------------------------------------------------------------
  // Substring search (`t in s`, `s.find(t)`)
  // ---------------------------------------------------------------------------

  /** `t` occurs in `s` starting at index `i`. */
  predicate OccursAt(s: string, t: string, i: nat) {
    i + |t| <= |s| && s[i..i + |t|] == t
  }

  /** The index of the first occurrence of `t` in `s` (Python `s.find(t)`). */
  function Find(s: string, t: string): (r: Option<nat>)
    ensures r.Some? ==> OccursAt(s, t, r.value)
    ensures r.Some? ==> forall j: nat :: j < r.value ==> !OccursAt(s, t, j)
    ensures r.None? ==> forall j: nat :: !OccursAt(s, t, j)
    decreases |s|
  {
    if |t| > |s| then None
    else if StartsWith(s, t) then Some(0)
    else
      var rest := Find(s[1..], t);
      ShiftOccurs(s, t);
      assert !OccursAt(s, t, 0);
      match rest
      case None => None
      case Some(i) => Some(i + 1)
  }

  /** `s` begins with `t`, compared character by character. */
  predicate StartsWith(s: string, t: string)
    ensures StartsWith(s, t) <==> |t| <= |s| && s[..|t|] == t
  {
    |t| == 0 || (|s| > 0 && s[0] == t[0] && StartsWith(s[1..], t[1..]))
  }

  /** An occurrence in `s[1..]` is an occurrence in `s` one place further on. */
  lemma ShiftOccurs(s: string, t: string)
    requires |s| > 0
    ensures forall j: nat :: OccursAt(s[1..], t, j) <==> OccursAt(s, t, j + 1)
    ensures forall j: nat :: 0 < j ==> (OccursAt(s, t, j) <==> OccursAt(s[1..], t, j - 1))
  {
    forall j: nat
      ensures OccursAt(s[1..], t, j) <==> OccursAt(s, t, j + 1)
    {
      if j + |t| <= |s[1..]| {
        assert s[1..][j..j + |t|] == s[j + 1..j + 1 + |t|];
      }
    }
  }

  /** The first occurrence is the one Find reports. */
  lemma FindFirst(s: string, t: string, i: nat)
    requires OccursAt(s, t, i)
    requires forall j: nat :: j < i ==> !OccursAt(s, t, j)
    ensures Find(s, t) == Some(i)
  {
  }

  /** Python's `t in s`. */
  predicate Occurs(s: string, t: string) {
    Find(s, t).Some?
  }

  /** Python's `s.find(c)` for one character: -1 when absent. */
  function IndexOf(s: string, c: char): (r: int)
    ensures -1 <= r < |s|
    ensures r >= 0 ==> s[r] == c && forall j :: 0 <= j < r ==> s[j] != c
    ensures r == -1 ==> forall j :: 0 <= j < |s| ==> s[j] != c
  {
    if |s| == 0 then -1
    else if s[0] == c then 0
    else
      var r := IndexOf(s[1..], c);
      if r == -1 then -1 else r + 1
  }

  /** Python's `s.rfind(c)` for one character: -1 when absent. */
  function LastIndexOf(s: string, c: char): (r: int)
    ensures -1 <= r < |s|
    ensures r >= 0 ==> s[r] == c && forall j :: r < j < |s| ==> s[j] != c
    ensures r == -1 ==> forall j :: 0 <= j < |s| ==> s[j] != c
  {
    if |s| == 0 then -1
    else if s[|s| - 1] == c then |s| - 1
    else LastIndexOf(s[..|s| - 1], c)
  }

  // ---------------------------------------------------------------------------
  // Slicing with Python's index rules
  // ---------------------------------------------------------------------------

  /** How Python normalises a slice bound `i` for a sequence of length `n`:
      a negative bound counts from the end, and the result is clamped to [0, n]. */
  function PyBound(n: nat, i: int): (r: nat)
    ensures r <= n
    ensures 0 <= i <= n ==> r == i
    ensures -(n as int) <= i < 0 ==> r == n + i
  {
    if i < 0 then (if n + i < 0 then 0 else n + i)
    else if i > n then n
    else i
  }

  /** Python's `s[a:b]`. */
  function PySlice(s: string, a: int, b: int): (r: string)
    ensures |r| <= |s|
  {
    var lo, hi := PyBound(|s|, a), PyBound(|s|, b);
    if lo < hi then s[lo..hi] else ""
  }

  // ---------------------------------------------------------------------------
  // split / join
  // ---------------------------------------------------------------------------

  /** Python's `s.split(sep)` for a non-empty separator: the pieces between the
      leftmost non-overlapping occurrences of `sep`. No piece contains `sep`. */
  function Split(s: string, sep: string): (parts: seq<string>)
    requires |sep| > 0
    ensures |parts| >= 1
    ensures forall k :: 0 <= k < |parts| ==> !Occurs(parts[k], sep)
    decreases |s|
  {
    match Find(s, sep)
    case None => [s]
    case Some(i) =>
      NoOccurrenceInPrefix(s, sep, i);
      [s[..i]] + Split(s[i + |sep|..], sep)
  }

  /** Nothing before the first occurrence of `t` contains `t`. */
  lemma NoOccurrenceInPrefix(s: string, t: string, i: nat)
    requires |t| > 0 && i <= |s|
    requires forall j: nat :: j < i ==> !OccursAt(s, t, j)
    ensures !Occurs(s[..i], t)
  {
    var p := s[..i];
    if Find(p, t).Some? {
      var j := Find(p, t).value;
      assert p[j..j + |t|] == s[j..j + |t|];
      assert OccursAt(s, t, j);
    }
  }

  /** Python's `sep.join(parts)`. */
  function Join(parts: seq<string>, sep: string): (r: string)
    ensures |parts| == 1 ==> r == parts[0]
  {
    if |parts| == 0 then ""
    else if |parts| == 1 then parts[0]
    else parts[0] + sep + Join(parts[1..], sep)
  }

  lemma JoinCons(p: string, tail: seq<string>, sep: string)
    requires |tail| >= 1
    ensures Join([p] + tail, sep) == p + sep + Join(tail, sep)
  {
    assert ([p] + tail)[1..] == tail;
  }

  /** Joining the pieces of a split with the same separator gives the string back. */
  lemma {:induction false} JoinSplit(s: string, sep: string)
    requires |sep| > 0
    ensures Join(Split(s, sep), sep) == s
    decreases |s|
  {
    var f := Find(s, sep);
    if f.Some? {
      var i := f.value;
      var rest := s[i + |sep|..];
      JoinSplit(rest, sep);
      var tail := Split(rest, sep);
      assert Split(s, sep) == [s[..i]] + tail;
      JoinCons(s[..i], tail, sep);
      assert s == s[..i] + sep + rest;
    } else {
      assert Split(s, sep) == [s];
    }
  }

  // ---------------------------------------------------------------------------
  // strip
  // ---------------------------------------------------------------------------

  /** Python's `str.isspace` for one character. */
  predicate IsSpace(c: char) {
    c == ' ' || c == '\t' || c == '\n' || c == '\r' || c == '\U{B}' || c == '\U{C}'
    || ('\U{1C}' <= c <= '\U{1F}') || c == '\U{85}' || c == '\U{A0}' || c == '\U{1680}'
    || ('\U{2000}' <= c <= '\U{200A}') || c == '\U{2028}' || c == '\U{2029}'
    || c == '\U{202F}' || c == '\U{205F}' || c == '\U{3000}'
  }

  /** `s` without its leading whitespace: a suffix of `s`, everything dropped is
      whitespace, and what is kept does not start with whitespace. */
  function StripLeft(s: string): (r: string)
    ensures |r| <= |s| && r == s[|s| - |r|..]
    ensures forall k :: 0 <= k < |s| - |r| ==> IsSpace(s[k])
    ensures |r| > 0 ==> !IsSpace(r[0])
  {
    if |s| > 0 && IsSpace(s[0]) then StripLeft(s[1..]) else s
  }

  /** `s` without its trailing whitespace: a prefix of `s`, everything dropped is
      whitespace, and what is kept does not end with whitespace. */
  function StripRight(s: string): (r: string)
    ensures |r| <= |s| && r == s[..|r|]
    ensures forall k :: |r| <= k < |s| ==> IsSpace(s[k])
    ensures |r| > 0 ==> !IsSpace(r[|r| - 1])
  {
    if |s| > 0 && IsSpace(s[|s| - 1]) then StripRight(s[..|s| - 1]) else s
  }

  /** Python's `s.strip()`. */
  function Strip(s: string): (r: string)
    ensures |r| <= |s|
    ensures |r| > 0 ==> !IsSpace(r[0]) && !IsSpace(r[|r| - 1])
  {
    StripRight(StripLeft(s))
  }

  predicate AllSpace(s: string) {
    forall k :: 0 <= k < |s| ==> IsSpace(s[k])
  }

  lemma {:induction false} StripLeftPadded(w: string, m: string)
    requires AllSpace(w)
    requires |m| > 0 && !IsSpace(m[0])
    ensures StripLeft(w + m) == m
    decreases |w|
  {
    if |w| > 0 {
      assert (w + m)[1..] == w[1..] + m;
      StripLeftPadded(w[1..], m);
    } else {
      assert w + m == m;
    }
  }

  lemma {:induction false} StripRightPadded(m: string, w: string)
    requires AllSpace(w)
    requires |m| > 0 && !IsSpace(m[|m| - 1])
    ensures StripRight(m + w) == m
    decreases |w|
  {
    if |w| > 0 {
      assert (m + w)[..|m + w| - 1] == m + w[..|w| - 1];
      StripRightPadded(m, w[..|w| - 1]);
    } else {
      assert m + w == m;
    }
  }

  /** Stripping removes exactly the whitespace padding around a text that
      neither starts nor ends with whitespace. */
  lemma StripPadded(w1: string, m: string, w2: string)
    requires AllSpace(w1) && AllSpace(w2)
    requires |m| > 0 && !IsSpace(m[0]) && !IsSpace(m[|m| - 1])
    ensures Strip(w1 + m + w2) == m
  {
    assert w1 + m + w2 == w1 + (m + w2);
    StripLeftPadded(w1, m + w2);
    StripRightPadded(m, w2);
  }

  // ---------------------------------------------------------------------------
  // str(int) and its inverse
  // ---------------------------------------------------------------------------

  predicate IsDigit(c: char) {
    '0' <= c <= '9'
  }

  predicate AllDigits(s: string) {
    forall k :: 0 <= k < |s| ==> IsDigit(s[k])
  }

  function DigitChar(d: nat): (c: char)
    requires d < 10
    ensures IsDigit(c)
  {
    ('0' as int + d) as char
  }

  function DigitValue(c: char): (d: nat)
    requires IsDigit(c)
    ensures d < 10 && DigitChar(d) == c
  {
    (c as int - '0' as int) as nat
  }

  /** Python's `str(n)` for a non-negative integer: decimal digits, most
      significant first. */
  function NatToString(n: nat): (s: string)
    ensures |s| > 0
  {
    if n < 10 then [DigitChar(n)] else NatToString(n / 10) + [DigitChar(n % 10)]
  }

  /** Python's `int(s)` for a string of decimal digits. */
  function ParseNat(s: string): (n: nat)
    requires AllDigits(s)
  {
    if |s| == 0 then 0 else ParseNat(s[..|s| - 1]) * 10 + DigitValue(s[|s| - 1])
  }

  /** `str(n)` is made of digits, and `int` reads it back as n. */
  lemma {:induction false} ParseNatToString(n: nat)
    ensures AllDigits(NatToString(n)) && ParseNat(NatToString(n)) == n
  {
    var s := NatToString(n);
    if n >= 10 {
      ParseNatToString(n / 10);
      assert s[..|s| - 1] == NatToString(n / 10);
      assert DigitValue(s[|s| - 1]) == n % 10;
      assert ParseNat(s) == ParseNat(NatToString(n / 10)) * 10 + n % 10;
    } else {
      assert s[..0] == [];
    }
  }

  /** Python's `str(i)` for an integer. */
  function IntToString(i: int): (s: string)
    ensures |s| > 0
  {
    if i < 0 then "-" + NatToString(-i) else NatToString(i)
  }

  /** Python's `int(s)` on the strings `str` produces. */
  function ParseInt(s: string): int
    requires |s| > 0
    requires s[0] == '-' ==> AllDigits(s[1..])
    requires s[0] != '-' ==> AllDigits(s)
  {
    if s[0] == '-' then -(ParseNat(s[1..]) as int) else ParseNat(s)
  }

  /** `str` on integers is inverted by `int`, so distinct integers print differently. */
  lemma IntToStringRoundTrip(i: int)
    ensures var s := IntToString(i);
      (s[0] == '-' ==> AllDigits(s[1..])) && (s[0] != '-' ==> AllDigits(s)) && ParseInt(s) == i
  {
    if i < 0 {
      assert IntToString(i)[1..] == NatToString(-i);
      ParseNatToString(-i);
    } else {
      ParseNatToString(i);
    }
  }

  lemma IntToStringInjective(i: int, j: int)
    requires IntToString(i) == IntToString(j)
    ensures i == j
  {
    IntToStringRoundTrip(i);
    IntToStringRoundTrip(j);
  }

  // ---------------------------------------------------------------------------
  // String ordering (Python's `<` on str) and sorting
  // ---------------------------------------------------------------------------

  /** Python's `a < b` on strings: code point order at the first difference,
      a proper prefix before the longer string. */
  predicate Less(a: string, b: string) {
    if |b| == 0 then false
    else if |a| == 0 then true
    else if a[0] != b[0] then a[0] < b[0]
    else Less(a[1..], b[1..])
  }

  lemma {:induction false} LessIrreflexive(a: string)
    ensures !Less(a, a)
  {
    if |a| > 0 { LessIrreflexive(a[1..]); }
  }

  lemma {:induction false} LessTrichotomy(a: string, b: string)
    ensures a == b || Less(a, b) || Less(b, a)
  {
    if |a| > 0 && |b| > 0 && a[0] == b[0] {
      LessTrichotomy(a[1..], b[1..]);
      if a[1..] == b[1..] {
        assert a == [a[0]] + a[1..] && b == [b[0]] + b[1..];
      }
    }
  }

  lemma {:induction false} LessAsymmetric(a: string, b: string)
    requires Less(a, b)
    ensures !Less(b, a)
  {
    if |a| > 0 && |b| > 0 && a[0] == b[0] { LessAsymmetric(a[1..], b[1..]); }
  }

  lemma {:induction false} LessTransitive(a: string, b: string, c: string)
    requires Less(a, b) && Less(b, c)
    ensures Less(a, c)
  {
    if |a| > 0 && |b| > 0 && |c| > 0 && a[0] == b[0] && b[0] == c[0] {
      LessTransitive(a[1..], b[1..], c[1..]);
    }
  }

  /** Strictly increasing, hence also free of duplicates. */
  predicate StrictlySorted(xs: seq<string>) {
    forall i, j :: 0 <= i < j < |xs| ==> Less(xs[i], xs[j])
  }

  /** Adds `x` to a strictly sorted sequence unless it is already there. */
  function Insert(xs: seq<string>, x: string): (r: seq<string>)
    requires StrictlySorted(xs)
    ensures StrictlySorted(r)
    ensures forall y :: y in r <==> y == x || y in xs
  {
    if |xs| == 0 then [x]
    else if x == xs[0] then xs
    else if Less(x, xs[0]) then
      forall j | 0 < j < |xs| ensures Less(x, xs[j]) { LessTransitive(x, xs[0], xs[j]); }
      [x] + xs
    else
      LessTrichotomy(x, xs[0]);
      var rest := Insert(xs[1..], x);
      forall y | y in rest ensures Less(xs[0], y) {
        if y != x {
          var k :| 0 <= k < |xs[1..]| && xs[1..][k] == y;
          assert xs[k + 1] == y;
        }
      }
      assert xs == [xs[0]] + xs[1..];
      [xs[0]] + rest
  }

  /** The distinct elements of `xs` in increasing order: the order pandas gives
      to the keys of a `groupby` and `sort_values` gives to unique labels. */
  function SortedDistinct(xs: seq<string>): (r: seq<string>)
    ensures StrictlySorted(r)
    ensures forall y :: y in r <==> y in xs
    decreases |xs|
  {
    if |xs| == 0 then []
    else
      var r := Insert(SortedDistinct(xs[..|xs| - 1]), xs[|xs| - 1]);
      assert xs == xs[..|xs| - 1] + [xs[|xs| - 1]];
      r
  }

  // ---------------------------------------------------------------------------
  // Distinct values in order of first appearance (`Series.unique()`, the keys
  // of a dict filled in order)
  // ---------------------------------------------------------------------------

  predicate Distinct<T(==)>(xs: seq<T>) {
    forall i, j :: 0 <= i < j < |xs| ==> xs[i] != xs[j]
  }

  /** The index of the first occurrence of `x`. */
  function First<T(==)>(xs: seq<T>, x: T): (i: nat)
    requires x in xs
    ensures i < |xs| && xs[i] == x && x !in xs[..i]
  {
    if xs[0] == x then 0 else 1 + First(xs[1..], x)
  }

  /** `order` lists elements of `xs` in the order of their first occurrence
      in `xs`. */
  predicate FirstAppearanceOrder<T(==)>(order: seq<T>, xs: seq<T>) {
    && (forall i :: 0 <= i < |order| ==> order[i] in xs)
    && (forall i, j :: 0 <= i < j < |order| ==> First(xs, order[i]) < First(xs, order[j]))
  }

  /** The distinct elements of `xs`, each where it first occurs. */
  function Dedup<T(==,!new)>(xs: seq<T>): (r: seq<T>)
    ensures forall x :: x in r <==> x in xs
  {
    if |xs| == 0 then []
    else
      var n := |xs| - 1;
      var prev := Dedup(xs[..n]);
      assert xs == xs[..n] + [xs[n]];
      if xs[n] in prev then prev else prev + [xs[n]]
  }

  lemma FirstOfExtension<T>(xs: seq<T>, y: T, x: T)
    requires x in xs
    ensures First(xs + [y], x) == First(xs, x)
  {
    if xs[0] != x {
      assert (xs + [y])[1..] == xs[1..] + [y];
      FirstOfExtension(xs[1..], y, x);
    }
  }

  lemma FirstOfNew<T>(xs: seq<T>, x: T)
    requires x !in xs
    ensures First(xs + [x], x) == |xs|
  {
    if |xs| > 0 {
      assert (xs + [x])[1..] == xs[1..] + [x];
      FirstOfNew(xs[1..], x);
    }
  }

  lemma ExtendKeepsOrder<T>(order: seq<T>, xs: seq<T>, y: T)
    requires FirstAppearanceOrder(order, xs)
    ensures FirstAppearanceOrder(order, xs + [y])
  {
    forall i | 0 <= i < |order| ensures First(xs + [y], order[i]) == First(xs, order[i]) {
      FirstOfExtension(xs, y, order[i]);
    }
  }

  lemma ExtendWithNewKeepsOrder<T>(order: seq<T>, xs: seq<T>, y: T)
    requires FirstAppearanceOrder(order, xs) && y !in xs
    ensures FirstAppearanceOrder(order + [y], xs + [y])
  {
    ExtendKeepsOrder(order, xs, y);
    FirstOfNew(xs, y);
    var o := order + [y];
    forall i | 0 <= i < |order| ensures First(xs + [y], o[i]) < |xs| {
      assert o[i] == order[i];
    }
  }

  /** Deduplication keeps each value once, in the order of its first
      occurrence. */
  lemma {:induction false} DedupSpec<T(!new)>(xs: seq<T>)
    ensures Distinct(Dedup(xs))
    ensures FirstAppearanceOrder(Dedup(xs), xs)
  {
    if |xs| > 0 {
      var n := |xs| - 1;
      DedupSpec(xs[..n]);
      assert xs == xs[..n] + [xs[n]];
      if xs[n] in Dedup(xs[..n]) {
        ExtendKeepsOrder(Dedup(xs[..n]), xs[..n], xs[n]);
      } else {
        ExtendWithNewKeepsOrder(Dedup(xs[..n]), xs[..n], xs[n]);
      }
    }
  }

  // ---------------------------------------------------------------------------
  // Subsequences (what a row filter keeps, in order)
  // ---------------------------------------------------------------------------

  /** `a` is `b` with some elements left out. */
  predicate IsSubsequence<T(==)>(a: seq<T>, b: seq<T>)
    decreases |b|
  {
    if |a| == 0 then true
    else if |b| == 0 then false
    else if a[0] == b[0] then IsSubsequence(a[1..], b[1..])
    else IsSubsequence(a, b[1..])
  }

  lemma {:induction false} SubsequenceDropHead<T>(a: seq<T>, b: seq<T>)
    requires |b| > 0 && IsSubsequence(a, b[1..])
    ensures IsSubsequence(a, b)
    decreases |b|, |a|
  {
    if |a| > 0 && a[0] == b[0] {
      SubsequenceTail(a, b[1..]);
    }
  }

  lemma {:induction false} SubsequenceTail<T>(a: seq<T>, b: seq<T>)
    requires |a| > 0 && IsSubsequence(a, b)
    ensures IsSubsequence(a[1..], b)
    decreases |b|, |a|
  {
    if a[0] != b[0] {
      SubsequenceTail(a, b[1..]);
      SubsequenceDropHead(a[1..], b);
    } else if |a| > 1 {
      SubsequenceDropHead(a[1..], b);
    }
  }

  /** Leaving nothing out is a subsequence. */
  lemma {:induction false} SubsequenceSelf<T>(a: seq<T>)
    ensures IsSubsequence(a, a)
  {
    if |a| > 0 {
      SubsequenceSelf(a[1..]);
    }
  }

  lemma SubsequenceNone<T>(a: seq<T>)
    ensures IsSubsequence([], a)
  {
  }

  /** One step of a filter over a growing sequence: the next element is
      kept or dropped, and both the order and the counts follow. */
  lemma FilterStep<T>(r: seq<T>, xs: seq<T>, x: T, keep: bool)
    requires IsSubsequence(r, xs)
    ensures IsSubsequence(r + (if keep then [x] else []), xs + [x])
    ensures forall y ::
      multiset(r + (if keep then [x] else []))[y] == multiset(r)[y] + (if keep && y == x then 1 else 0)
    ensures forall y :: multiset(xs + [x])[y] == multiset(xs)[y] + (if y == x then 1 else 0)
  {
    SubsequenceSnoc(r, xs, x);
    if !keep {
      assert r + [] == r;
    }
  }

  /** Appending one element to the longer sequence keeps a subsequence, and
      so does appending it to both. */
  lemma {:induction false} SubsequenceSnoc<T>(a: seq<T>, b: seq<T>, x: T)
    requires IsSubsequence(a, b)
    ensures IsSubsequence(a, b + [x]) && IsSubsequence(a + [x], b + [x])
    decreases |b|
  {
    if |b| > 0 {
      assert (b + [x])[1..] == b[1..] + [x];
      if |a| > 0 {
        assert (a + [x])[1..] == a[1..] + [x];
        if a[0] == b[0] {
          SubsequenceSnoc(a[1..], b[1..], x);
        } else {
          SubsequenceSnoc(a, b[1..], x);
        }
      } else {
        SubsequenceSnoc(a, b[1..], x);
      }
    } else {
      assert a == [] && a + [x] == b + [x];
      assert (a + [x])[1..] == [];
    }
  }

  // ---------------------------------------------------------------------------
  // Case folding
  // ---------------------------------------------------------------------------

  /** Lower-cases an ASCII letter and leaves every other character alone. */
  function LowerChar(c: char): char {
    if 'A' <= c <= 'Z' then (c as int + 32) as char else c
  }

  function Lower(s: string): (r: string)
    ensures |r| == |s|
    ensures forall k :: 0 <= k < |s| ==> r[k] == LowerChar(s[k])
  {
    seq(|s|, k requires 0 <= k < |s| => LowerChar(s[k]))
  }
}
