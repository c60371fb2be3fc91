/** `month_from_filename`: infer a `YYYY-MM` reporting period from a file
    name by trying four regular expressions in priority order, or return the
    sentinel "ALL". Each expression is written out as a matcher at one start
    position; `re.search` is the leftmost start position that matches. */
module PeriodInference {
  import opened Wrappers
  import opened Text

  /** The four patterns, in the order the function tries them. */
  datatype Pattern =
    | MonthNameYear  // _(Jan|...|Dec)[a-z]*[_-]?(\d{4}), case-insensitive
    | YearSepMonth   // _(20\d{2})[_-]?(0[1-9]|1[0-2])
    | YearMonth      // _(20\d{2})(0[1-9]|1[0-2])
    | YearMonthDay   // _(20\d{2})(0[1-9]|1[0-2])\d{2}

  /** The two capture groups of a match. */
  datatype Groups = Groups(first: string, second: string)

  /** A match object: where the match starts and what it captured. */
  datatype Hit = Hit(start: nat, groups: Groups)

  /** The `month_map` of the month-name branch. */
  const MonthNumbers: map<string, string> := map[
    "jan" := "01", "feb" := "02", "mar" := "03", "apr" := "04",
    "may" := "05", "jun" := "06", "jul" := "07", "aug" := "08",
    "sep" := "09", "oct" := "10", "nov" := "11", "dec" := "12"]

  /** The sentinel for "period could not be determined". */
  const Unknown: string := "ALL"

  predicate IsSep(c: char) { c == '_' || c == '-' }

  /** `(0[1-9]|1[0-2])` at position i. */
  predicate MonthDigitsAt(s: string, i: nat) {
    i + 2 <= |s| &&
    ((s[i] == '0' && '1' <= s[i + 1] <= '9') || (s[i] == '1' && '0' <= s[i + 1] <= '2'))
  }

  /** `\d{n}` at position i (ASCII digits). */
  predicate DigitsAt(s: string, i: nat, n: nat) {
    i + n <= |s| && forall k :: i <= k < i + n ==> IsDigit(s[k])
  }

  /** `20\d{2}` at position i. */
  predicate Year20At(s: string, i: nat) {
    i + 4 <= |s| && s[i] == '2' && s[i + 1] == '0' && DigitsAt(s, i + 2, 2)
  }

  /** A string of the form YYYY-MM with MM in 01..12. */
  predicate IsPeriod(r: string) {
    |r| == 7 && DigitsAt(r, 0, 4) && r[4] == '-' && MonthDigitsAt(r, 5)
  }

  /** End of the maximal run of letters starting at j: what the greedy
      `[a-z]*` consumes under `re.I`. */
  function LetterRunEnd(s: string, j: nat): (k: nat)
    requires j <= |s|
    ensures j <= k <= |s|
    ensures forall i :: j <= i < k ==> IsLetter(s[i])
    ensures k < |s| ==> !IsLetter(s[k])
    decreases |s| - j
  {
    if j < |s| && IsLetter(s[j]) then LetterRunEnd(s, j + 1) else j
  }

  /** The month-name pattern at start p. The three letters after `_` pick the
      month whatever their case; the rest of the letter run is skipped; one
      optional `_` or `-`; then four digits of any value. Since letters,
      digits and separators are disjoint, backtracking finds nothing the
      greedy reading misses. */
  function MonthNameAt(s: string, p: nat): (r: Option<Groups>)
    ensures r.Some? ==> |r.value.first| == 3 && Lower(r.value.first) in MonthNumbers
    ensures r.Some? ==> |r.value.second| == 4 && DigitsAt(r.value.second, 0, 4)
    ensures r.Some? ==> p < |s| && s[p] == '_'
  {
    if p + 4 <= |s| && s[p] == '_' && Lower(s[p + 1..p + 4]) in MonthNumbers then
      var j := LetterRunEnd(s, p + 4);
      var k := if j < |s| && IsSep(s[j]) then j + 1 else j;
      if DigitsAt(s, k, 4) then Some(Groups(s[p + 1..p + 4], s[k..k + 4])) else None
    else None
  }

  /** `_(20\d{2})[_-]?(0[1-9]|1[0-2])` at start p: the separator is tried
      first, then its absence. */
  function YearSepMonthAt(s: string, p: nat): (r: Option<Groups>)
    ensures r.Some? ==> Year20At(r.value.first, 0) && |r.value.first| == 4
    ensures r.Some? ==> MonthDigitsAt(r.value.second, 0) && |r.value.second| == 2
    ensures r.Some? ==> p < |s| && s[p] == '_'
  {
    if p < |s| && s[p] == '_' && Year20At(s, p + 1) then
      var q := p + 5;
      if q < |s| && IsSep(s[q]) && MonthDigitsAt(s, q + 1) then
        Some(Groups(s[p + 1..p + 5], s[q + 1..q + 3]))
      else if MonthDigitsAt(s, q) then
        Some(Groups(s[p + 1..p + 5], s[q..q + 2]))
      else None
    else None
  }

  /** `_(20\d{2})(0[1-9]|1[0-2])` at start p. */
  function YearMonthAt(s: string, p: nat): (r: Option<Groups>)
    ensures r.Some? ==> Year20At(r.value.first, 0) && |r.value.first| == 4
    ensures r.Some? ==> MonthDigitsAt(r.value.second, 0) && |r.value.second| == 2
    ensures r.Some? ==> p < |s| && s[p] == '_'
  {
    if p < |s| && s[p] == '_' && Year20At(s, p + 1) && MonthDigitsAt(s, p + 5) then
      Some(Groups(s[p + 1..p + 5], s[p + 5..p + 7]))
    else None
  }

  /** `_(20\d{2})(0[1-9]|1[0-2])\d{2}` at start p. */
  function YearMonthDayAt(s: string, p: nat): (r: Option<Groups>)
    ensures r.Some? ==> Year20At(r.value.first, 0) && |r.value.first| == 4
    ensures r.Some? ==> MonthDigitsAt(r.value.second, 0) && |r.value.second| == 2
    ensures r.Some? ==> p < |s| && s[p] == '_'
  {
    if p < |s| && s[p] == '_' && Year20At(s, p + 1) && MonthDigitsAt(s, p + 5)
       && DigitsAt(s, p + 7, 2) then
      Some(Groups(s[p + 1..p + 5], s[p + 5..p + 7]))
    else None
  }

  function MatchAt(pat: Pattern, s: string, p: nat): Option<Groups> {
    match pat
    case MonthNameYear => MonthNameAt(s, p)
    case YearSepMonth => YearSepMonthAt(s, p)
    case YearMonth => YearMonthAt(s, p)
    case YearMonthDay => YearMonthDayAt(s, p)
  }

  /** `re.search` from position `from` on: the leftmost start that matches. */
  function SearchFrom(pat: Pattern, s: string, from: nat): (r: Option<Hit>)
    requires from <= |s|
    ensures r.Some? ==> from <= r.value.start < |s|
                        && MatchAt(pat, s, r.value.start) == Some(r.value.groups)
    ensures r.Some? ==> forall q :: from <= q < r.value.start ==> MatchAt(pat, s, q).None?
    ensures r.None? ==> forall q :: from <= q < |s| ==> MatchAt(pat, s, q).None?
    decreases |s| - from
  {
    if from == |s| then None
    else
      match MatchAt(pat, s, from)
      case Some(g) => Some(Hit(from, g))
      case None => SearchFrom(pat, s, from + 1)
  }

  function Search(pat: Pattern, s: string): Option<Hit> {
    SearchFrom(pat, s, 0)
  }

  /** The period string a match stands for. */
  function Meaning(pat: Pattern, g: Groups): string
    requires pat == MonthNameYear ==> Lower(g.first) in MonthNumbers
  {
    if pat == MonthNameYear then g.second + "-" + MonthNumbers[Lower(g.first)]
    else g.first + "-" + g.second
  }

  /** What one pattern contributes: the meaning of its leftmost match. */
  function Try(pat: Pattern, s: string): Option<string> {
    match Search(pat, s)
    case Some(h) => Some(Meaning(pat, h.groups))
    case None => None
  }

  /** `month_from_filename`: the first pattern (in priority order) that
      matches anywhere decides; "ALL" when none does. */
  function MonthFromFilename(fname: string): (r: string)
    ensures r == Unknown || IsPeriod(r)
  {
    MonthNameMeaningIsPeriod(fname);
    NumericMeaningIsPeriod(fname);
    match Try(MonthNameYear, fname)
    case Some(m) => m
    case None =>
      match Try(YearSepMonth, fname)
      case Some(m) => m
      case None =>
        match Try(YearMonth, fname)
        case Some(m) => m
        case None =>
          match Try(YearMonthDay, fname)
          case Some(m) => m
          case None => Unknown
  }

  lemma MonthNumbersAreMonths(k: string)
    requires k in MonthNumbers
    ensures |MonthNumbers[k]| == 2 && MonthDigitsAt(MonthNumbers[k], 0)
  {
  }

  lemma MonthNameMeaningIsPeriod(s: string)
    ensures Try(MonthNameYear, s).Some? ==> IsPeriod(Try(MonthNameYear, s).value)
  {
    var h := Search(MonthNameYear, s);
    if h.Some? {
      var g := h.value.groups;
      MonthNumbersAreMonths(Lower(g.first));
      var r := Meaning(MonthNameYear, g);
      assert r[..4] == g.second && r[5..] == MonthNumbers[Lower(g.first)];
    }
  }

  lemma NumericMeaningIsPeriod(s: string)
    ensures Try(YearSepMonth, s).Some? ==> IsPeriod(Try(YearSepMonth, s).value)
    ensures Try(YearMonth, s).Some? ==> IsPeriod(Try(YearMonth, s).value)
    ensures Try(YearMonthDay, s).Some? ==> IsPeriod(Try(YearMonthDay, s).value)
  {
    var h := Search(YearSepMonth, s);
    if h.Some? { JoinIsPeriod(h.value.groups); }
    var h2 := Search(YearMonth, s);
    if h2.Some? { JoinIsPeriod(h2.value.groups); }
    var h3 := Search(YearMonthDay, s);
    if h3.Some? { JoinIsPeriod(h3.value.groups); }
  }

  lemma JoinIsPeriod(g: Groups)
    requires |g.first| == 4 && Year20At(g.first, 0)
    requires |g.second| == 2 && MonthDigitsAt(g.second, 0)
    ensures IsPeriod(g.first + "-" + g.second)
  {
    var r := g.first + "-" + g.second;
    assert r[..4] == g.first && r[5..] == g.second;
  }

  // ---------- The leftmost match ----------

  /** The converse of SearchFrom's contract: a match with no match before it
      is the one `re.search` returns. */
  lemma LeftmostMatchIsFound(pat: Pattern, s: string, p: nat)
    requires MatchAt(pat, s, p).Some?
    requires forall q :: 0 <= q < p ==> MatchAt(pat, s, q).None?
    ensures Search(pat, s) == Some(Hit(p, MatchAt(pat, s, p).value))
  {
    var r := Search(pat, s);
    assert p < |s| by { MatchNeedsUnderscore(pat, s, p); }
    assert r.Some?;
    assert r.value.start == p;
  }

  lemma MatchNeedsUnderscore(pat: Pattern, s: string, p: nat)
    requires MatchAt(pat, s, p).Some?
    ensures p < |s| && s[p] == '_'
  {
  }

  // ---------- The two dead branches ----------

  /** A match of the no-separator pattern (line 43) is a match of the
      optional-separator pattern (line 38) at the same position with the
      same groups. */
  lemma YearMonthIsYearSepMonth(s: string, p: nat)
    requires YearMonthAt(s, p).Some?
    ensures YearSepMonthAt(s, p) == YearMonthAt(s, p)
  {
    assert !IsSep(s[p + 5]);
  }

  /** Likewise a match of the year-month-day pattern (line 48) is one of
      the no-separator pattern. */
  lemma YearMonthDayIsYearMonth(s: string, p: nat)
    requires YearMonthDayAt(s, p).Some?
    ensures YearMonthAt(s, p) == YearMonthDayAt(s, p)
  {
  }

  /** Wherever the no-separator or the year-month-day pattern matches, the
      optional-separator pattern matches too, so neither is ever reached. */
  lemma LaterNumericPatternsUnreachable(s: string)
    ensures Search(YearMonth, s).Some? ==> Search(YearSepMonth, s).Some?
    ensures Search(YearMonthDay, s).Some? ==> Search(YearSepMonth, s).Some?
  {
    var h := Search(YearMonth, s);
    if h.Some? {
      YearMonthIsYearSepMonth(s, h.value.start);
      assert MatchAt(YearSepMonth, s, h.value.start).Some?;
    }
    var h2 := Search(YearMonthDay, s);
    if h2.Some? {
      YearMonthDayIsYearMonth(s, h2.value.start);
      YearMonthIsYearSepMonth(s, h2.value.start);
      assert MatchAt(YearSepMonth, s, h2.value.start).Some?;
    }
  }

  /** So `month_from_filename` is "month name, else year[_-]?month, else
      ALL". */
  lemma {:induction false} TwoPatternsSuffice(fname: string)
    ensures MonthFromFilename(fname)
            == Try(MonthNameYear, fname).GetOr(Try(YearSepMonth, fname).GetOr(Unknown))
  {
    LaterNumericPatternsUnreachable(fname);
  }

  lemma NoMatchWithoutUnderscore(pat: Pattern, s: string, p: nat)
    requires p < |s| && s[p] != '_'
    ensures MatchAt(pat, s, p).None?
  {
  }

  /** Every pattern starts with `_`: a name without one has no period. */
  lemma NoUnderscoreMeansUnknown(fname: string)
    requires '_' !in fname
    ensures MonthFromFilename(fname) == Unknown
  {
    forall pat: Pattern, q | 0 <= q < |fname| ensures MatchAt(pat, fname, q).None? {
      assert fname[q] in fname;
      NoMatchWithoutUnderscore(pat, fname, q);
    }
  }

  /** A month-name match anywhere decides the result, however many numeric
      matches there are, and the decisive match starts no later than it. */
  lemma MonthNameWins(fname: string, p: nat)
    requires MonthNameAt(fname, p).Some?
    ensures Search(MonthNameYear, fname).Some?
    ensures Search(MonthNameYear, fname).value.start <= p
    ensures MonthFromFilename(fname) == Try(MonthNameYear, fname).value
  {
    assert MatchAt(MonthNameYear, fname, p).Some?;
    MatchNeedsUnderscore(MonthNameYear, fname, p);
  }

  // ---------- Case-insensitivity ----------

  /** Two names that differ at most in the case of their letters. */
  predicate SameUpToCase(s: string, t: string) {
    |s| == |t| && forall i :: 0 <= i < |s| ==> LowerChar(s[i]) == LowerChar(t[i])
  }

  lemma NonLetterSame(a: char, b: char)
    requires LowerChar(a) == LowerChar(b) && !IsLetter(a)
    ensures a == b
  {
  }

  lemma {:induction false} LetterRunEndAgrees(s: string, t: string, j: nat)
    requires SameUpToCase(s, t) && j <= |s|
    ensures LetterRunEnd(s, j) == LetterRunEnd(t, j)
    decreases |s| - j
  {
    if j < |s| {
      assert IsLetter(s[j]) <==> IsLetter(LowerChar(s[j]));
      assert IsLetter(t[j]) <==> IsLetter(LowerChar(t[j]));
      if IsLetter(s[j]) { LetterRunEndAgrees(s, t, j + 1); }
    }
  }

  /** Slices made only of non-letters are equal in both names. */
  lemma SliceSame(s: string, t: string, i: nat, j: nat)
    requires SameUpToCase(s, t) && i <= j <= |s|
    requires forall k :: i <= k < j ==> !IsLetter(s[k])
    ensures s[i..j] == t[i..j]
  {
    forall k | i <= k < j ensures s[k] == t[k] { NonLetterSame(s[k], t[k]); }
  }

  lemma DigitsAtAgrees(s: string, t: string, i: nat, n: nat)
    requires SameUpToCase(s, t)
    ensures DigitsAt(s, i, n) ==> DigitsAt(t, i, n) && s[i..i + n] == t[i..i + n]
  {
    if DigitsAt(s, i, n) {
      forall k | i <= k < i + n ensures s[k] == t[k] { NonLetterSame(s[k], t[k]); }
    }
  }

  lemma CharAgrees(s: string, t: string, i: nat)
    requires SameUpToCase(s, t) && i < |s| && !IsLetter(s[i])
    ensures s[i] == t[i]
  {
    NonLetterSame(s[i], t[i]);
  }

  lemma NonLettersKept(s: string, t: string)
    requires SameUpToCase(s, t)
    ensures forall k :: 0 <= k < |s| && !IsLetter(s[k]) ==> t[k] == s[k]
  {
    forall k | 0 <= k < |s| && !IsLetter(s[k]) ensures t[k] == s[k] {
      NonLetterSame(s[k], t[k]);
    }
  }

  lemma SameUpToCaseSymmetric(s: string, t: string)
    requires SameUpToCase(s, t)
    ensures SameUpToCase(t, s)
  {
  }

  lemma LowerSliceAgrees(s: string, t: string, i: nat, j: nat)
    requires SameUpToCase(s, t) && i <= j <= |s|
    ensures Lower(s[i..j]) == Lower(t[i..j])
  {
    forall k | 0 <= k < j - i ensures Lower(s[i..j])[k] == Lower(t[i..j])[k] {
      assert s[i..j][k] == s[i + k] && t[i..j][k] == t[i + k];
    }
  }

  /** The months named by two names that differ only in case agree. */
  lemma MonthNameTransfers(s: string, t: string, p: nat)
    requires SameUpToCase(s, t) && MonthNameAt(s, p).Some?
    ensures MonthNameAt(t, p).Some?
    ensures Lower(MonthNameAt(t, p).value.first) == Lower(MonthNameAt(s, p).value.first)
    ensures MonthNameAt(t, p).value.second == MonthNameAt(s, p).value.second
  {
    CharAgrees(s, t, p);
    LowerSliceAgrees(s, t, p + 1, p + 4);
    LetterRunEndAgrees(s, t, p + 4);
    var j := LetterRunEnd(s, p + 4);
    if j < |s| { CharAgrees(s, t, j); }
    var k := if j < |s| && IsSep(s[j]) then j + 1 else j;
    DigitsAtAgrees(s, t, k, 4);
  }

  /** Letters stay letters, and everything else stays put. */
  lemma CharClassAgrees(s: string, t: string, i: nat)
    requires SameUpToCase(s, t) && i < |s|
    ensures IsLetter(s[i]) <==> IsLetter(t[i])
    ensures !IsLetter(s[i]) ==> s[i] == t[i]
  {
    assert LowerChar(s[i]) == LowerChar(t[i]);
  }

  lemma MonthDigitsAgree(s: string, t: string, i: nat)
    requires SameUpToCase(s, t)
    ensures MonthDigitsAt(s, i) <==> MonthDigitsAt(t, i)
    ensures MonthDigitsAt(s, i) ==> s[i..i + 2] == t[i..i + 2]
  {
    if i + 2 <= |s| {
      CharClassAgrees(s, t, i);
      CharClassAgrees(s, t, i + 1);
    }
  }

  lemma Year20Agree(s: string, t: string, i: nat)
    requires SameUpToCase(s, t)
    ensures Year20At(s, i) <==> Year20At(t, i)
    ensures Year20At(s, i) ==> s[i..i + 4] == t[i..i + 4]
  {
    if i + 4 <= |s| {
      CharClassAgrees(s, t, i);
      CharClassAgrees(s, t, i + 1);
      CharClassAgrees(s, t, i + 2);
      CharClassAgrees(s, t, i + 3);
    }
  }

  lemma YearSepMonthTransfers(s: string, t: string, p: nat)
    requires SameUpToCase(s, t) && YearSepMonthAt(s, p).Some?
    ensures YearSepMonthAt(t, p) == YearSepMonthAt(s, p)
  {
    CharClassAgrees(s, t, p);
    Year20Agree(s, t, p + 1);
    var q := p + 5;
    if q < |s| { CharClassAgrees(s, t, q); }
    MonthDigitsAgree(s, t, q + 1);
    MonthDigitsAgree(s, t, q);
  }

  lemma YearMonthTransfers(s: string, t: string, p: nat)
    requires SameUpToCase(s, t) && YearMonthAt(s, p).Some?
    ensures YearMonthAt(t, p) == YearMonthAt(s, p)
  {
    NonLettersKept(s, t);
    assert s[p + 1..p + 5] == t[p + 1..p + 5];
    assert s[p + 5..p + 7] == t[p + 5..p + 7];
  }

  lemma YearMonthDayTransfers(s: string, t: string, p: nat)
    requires SameUpToCase(s, t) && YearMonthDayAt(s, p).Some?
    ensures YearMonthDayAt(t, p) == YearMonthDayAt(s, p)
  {
    NonLettersKept(s, t);
    assert s[p + 1..p + 5] == t[p + 1..p + 5];
    assert s[p + 5..p + 7] == t[p + 5..p + 7];
  }

  /** The period a match at p stands for. */
  function ResultAt(pat: Pattern, s: string, p: nat): Option<string> {
    match MatchAt(pat, s, p)
    case Some(g) => Some(Meaning(pat, g))
    case None => None
  }

  lemma ResultTransfers(pat: Pattern, s: string, t: string, p: nat)
    requires SameUpToCase(s, t) && MatchAt(pat, s, p).Some?
    ensures MatchAt(pat, t, p).Some? && ResultAt(pat, t, p) == ResultAt(pat, s, p)
  {
    match pat
    case MonthNameYear => MonthNameTransfers(s, t, p);
    case YearSepMonth => YearSepMonthTransfers(s, t, p);
    case YearMonth => YearMonthTransfers(s, t, p);
    case YearMonthDay => YearMonthDayTransfers(s, t, p);
  }

  lemma SearchTransfers(pat: Pattern, s: string, t: string)
    requires SameUpToCase(s, t) && Search(pat, s).Some?
    ensures Search(pat, t).Some? && Search(pat, t).value.start == Search(pat, s).value.start
    ensures Try(pat, t) == Try(pat, s)
  {
    var a := Search(pat, s).value.start;
    ResultTransfers(pat, s, t, a);
    var b := Search(pat, t).value.start;
    SameUpToCaseSymmetric(s, t);
    ResultTransfers(pat, t, s, b);
    assert b == a;
  }

  lemma TryAgrees(pat: Pattern, s: string, t: string)
    requires SameUpToCase(s, t)
    ensures Try(pat, s) == Try(pat, t)
  {
    SameUpToCaseSymmetric(s, t);
    if Search(pat, s).Some? { SearchTransfers(pat, s, t); }
    if Search(pat, t).Some? { SearchTransfers(pat, t, s); }
  }

  /** `re.I` on the only pattern with letters makes the whole function blind
      to the case of letters. */
  lemma CaseInsensitive(s: string, t: string)
    requires SameUpToCase(s, t)
    ensures MonthFromFilename(s) == MonthFromFilename(t)
  {
    TryAgrees(MonthNameYear, s, t);
    TryAgrees(YearSepMonth, s, t);
    TryAgrees(YearMonth, s, t);
    TryAgrees(YearMonthDay, s, t);
  }

  // ---------- The documented examples ----------

  lemma NoMatchInSpan(pat: Pattern, s: string, from: nat, to: nat)
    requires from <= to <= |s| && '_' !in s[from..to]
    ensures forall q :: from <= q < to ==> MatchAt(pat, s, q).None?
  {
    forall q | from <= q < to ensures MatchAt(pat, s, q).None? {
      assert s[q] == s[from..to][q - from];
      NoMatchWithoutUnderscore(pat, s, q);
    }
  }

  lemma NoUnderscoreIn(w: string)
    requires forall i :: 0 <= i < |w| ==> w[i] != '_'
    ensures '_' !in w
  {
  }

  lemma DigitsInSlice(s: string, i: nat, n: nat)
    requires i + n <= |s| && DigitsAt(s[i..i + n], 0, n)
    ensures DigitsAt(s, i, n)
  {
    forall k | i <= k < i + n ensures IsDigit(s[k]) {
      assert s[k] == s[i..i + n][k - i];
    }
  }

  lemma FourDigits(y: string)
    requires |y| == 4 && IsDigit(y[0]) && IsDigit(y[1]) && IsDigit(y[2]) && IsDigit(y[3])
    ensures DigitsAt(y, 0, 4)
  {
  }

  /** Lower-casing a three-letter word, one character at a time. */
  lemma MonthWord(w: string, k: string)
    requires |w| == 3 && [LowerChar(w[0]), LowerChar(w[1]), LowerChar(w[2])] == k
    ensures Lower(w) == k
  {
  }

  /** Both numeric-free searches failing leaves the sentinel. */
  lemma NoMatchMeansUnknown(s: string)
    requires forall q :: 0 <= q < |s| ==> MatchAt(MonthNameYear, s, q).None?
    requires forall q :: 0 <= q < |s| ==> MatchAt(YearSepMonth, s, q).None?
    ensures MonthFromFilename(s) == Unknown
  {
    TwoPatternsSuffice(s);
    assert Search(MonthNameYear, s).None?;
    assert Search(YearSepMonth, s).None?;
  }

  lemma MonthKeyInitials()
    ensures forall k :: k in MonthNumbers ==> |k| == 3 && k[0] in "jfmasond"
  {
  }

  /** A word whose first character, lower-cased, starts no month names no
      month. */
  lemma NoMonthInitial(w: string)
    requires |w| == 3 && LowerChar(w[0]) !in "jfmasond"
    ensures Lower(w) !in MonthNumbers
  {
    MonthKeyInitials();
    assert Lower(w)[0] == LowerChar(w[0]);
  }

  lemma OctIsTen()
    ensures "oct" in MonthNumbers && MonthNumbers["oct"] == "10"
  {
  }

  lemma JanIsOne()
    ensures "jan" in MonthNumbers && MonthNumbers["jan"] == "01"
  {
  }

  lemma Year2024()
    ensures Year20At("2024", 0) && MonthDigitsAt("10", 0)
  {
  }

  lemma October2024()
    ensures "2024" + "-" + "10" == "2024-10"
  {
  }

  lemma January1999()
    ensures "1999" + "-" + "01" == "1999-01"
  {
  }

  lemma NotAMonthName(s: string, p: nat)
    requires p + 4 <= |s| && Lower(s[p + 1..p + 4]) !in MonthNumbers
    ensures MatchAt(MonthNameYear, s, p).None?
  {
  }

  /** The matcher read on pieces: a month word followed at once by four
      digits. */
  lemma MonthNameThenYear(s: string, p: nat)
    requires p + 8 <= |s| && s[p] == '_' && Lower(s[p + 1..p + 4]) in MonthNumbers
    requires DigitsAt(s[p + 4..p + 8], 0, 4)
    ensures MatchAt(MonthNameYear, s, p) == Some(Groups(s[p + 1..p + 4], s[p + 4..p + 8]))
  {
    DigitsInSlice(s, p + 4, 4);
    assert IsDigit(s[p + 4]);
    assert LetterRunEnd(s, p + 4) == p + 4;
  }

  lemma {:induction false} LetterRunTo(s: string, j: nat, k: nat)
    requires j <= k < |s| && !IsLetter(s[k])
    requires forall i :: j <= i < k ==> IsLetter(s[i])
    ensures LetterRunEnd(s, j) == k
    decreases k - j
  {
    if j < k { LetterRunTo(s, j + 1, k); }
  }

  /** ... and a month word, more letters, a separator, four digits. */
  lemma MonthNameLettersSepYear(s: string, p: nat, j: nat)
    requires p + 4 <= j && j + 5 <= |s| && s[p] == '_'
    requires Lower(s[p + 1..p + 4]) in MonthNumbers
    requires forall i :: p + 4 <= i < j ==> IsLetter(s[i])
    requires IsSep(s[j]) && DigitsAt(s[j + 1..j + 5], 0, 4)
    ensures MatchAt(MonthNameYear, s, p) == Some(Groups(s[p + 1..p + 4], s[j + 1..j + 5]))
  {
    LetterRunTo(s, p + 4, j);
    DigitsInSlice(s, j + 1, 4);
  }

  lemma Year20InSlice(s: string, i: nat)
    requires i + 4 <= |s| && Year20At(s[i..i + 4], 0)
    ensures Year20At(s, i)
  {
    assert s[i] == s[i..i + 4][0] && s[i + 1] == s[i..i + 4][1];
    assert s[i + 2] == s[i..i + 4][2] && s[i + 3] == s[i..i + 4][3];
  }

  lemma MonthDigitsInSlice(s: string, i: nat)
    requires i + 2 <= |s| && MonthDigitsAt(s[i..i + 2], 0)
    ensures MonthDigitsAt(s, i)
  {
    assert s[i] == s[i..i + 2][0] && s[i + 1] == s[i..i + 2][1];
  }

  /** The year[_-]?month matcher read on pieces, with a separator ... */
  lemma YearSepMonthWithSep(s: string, p: nat)
    requires p + 8 <= |s| && s[p] == '_' && Year20At(s[p + 1..p + 5], 0)
    requires IsSep(s[p + 5]) && MonthDigitsAt(s[p + 6..p + 8], 0)
    ensures MatchAt(YearSepMonth, s, p) == Some(Groups(s[p + 1..p + 5], s[p + 6..p + 8]))
  {
    Year20InSlice(s, p + 1);
    MonthDigitsInSlice(s, p + 6);
  }

  /** ... and with the month right after the year. */
  lemma YearSepMonthWithoutSep(s: string, p: nat)
    requires p + 7 <= |s| && s[p] == '_' && Year20At(s[p + 1..p + 5], 0)
    requires !IsSep(s[p + 5]) && MonthDigitsAt(s[p + 5..p + 7], 0)
    ensures MatchAt(YearSepMonth, s, p) == Some(Groups(s[p + 1..p + 5], s[p + 5..p + 7]))
  {
    Year20InSlice(s, p + 1);
    MonthDigitsInSlice(s, p + 5);
  }

  lemma NotAYear20(s: string, p: nat)
    requires p + 1 < |s| && s[p + 1] != '2'
    ensures MatchAt(YearSepMonth, s, p).None?
  {
  }

  /** A leftmost month-name match decides the result. */
  lemma MonthNameDecides(s: string, p: nat, g: Groups)
    requires MatchAt(MonthNameYear, s, p) == Some(g)
    requires forall q :: 0 <= q < p ==> MatchAt(MonthNameYear, s, q).None?
    ensures MonthFromFilename(s) == Meaning(MonthNameYear, g)
  {
    LeftmostMatchIsFound(MonthNameYear, s, p);
  }

  /** With no month-name match, a leftmost year[_-]?month match decides. */
  lemma YearSepMonthDecides(s: string, p: nat, g: Groups)
    requires forall q :: 0 <= q < |s| ==> MatchAt(MonthNameYear, s, q).None?
    requires MatchAt(YearSepMonth, s, p) == Some(g)
    requires forall q :: 0 <= q < p ==> MatchAt(YearSepMonth, s, q).None?
    ensures MonthFromFilename(s) == Meaning(YearSepMonth, g)
  {
    LeftmostMatchIsFound(YearSepMonth, s, p);
  }

  /** With the two underscores of a name ruled out, nothing matches. */
  lemma NothingBetween(pat: Pattern, s: string, u: nat, v: nat)
    requires u < v < |s| && '_' !in s[..u] && '_' !in s[u + 1..v] && '_' !in s[v + 1..]
    requires MatchAt(pat, s, u).None? && MatchAt(pat, s, v).None?
    ensures forall q :: 0 <= q < |s| ==> MatchAt(pat, s, q).None?
  {
    NoMatchInSpan(pat, s, 0, u);
    NoMatchInSpan(pat, s, u + 1, v);
    NoMatchInSpan(pat, s, v + 1, |s|);
  }

  lemma MonthNameMeaning(g: Groups, k: string, m: string)
    requires Lower(g.first) == k && k in MonthNumbers && MonthNumbers[k] == m
    ensures Meaning(MonthNameYear, g) == g.second + "-" + m
  {
  }

  /** A name made of pieces around one underscore ... */
  lemma OneUnderscore(a: string, c: string)
    ensures var s := a + "_" + c;
            |s| == |a| + 1 + |c| && s[..|a|] == a && s[|a|] == '_' && s[|a| + 1..] == c
  {
    var s := a + "_" + c;
    assert s[..|a|] == a;
    assert s[|a| + 1..] == c;
  }

  /** ... or two. */
  lemma TwoUnderscores(a: string, b: string, c: string)
    ensures var s := a + "_" + b + "_" + c;
            && |s| == |a| + |b| + |c| + 2 && s[..|a|] == a && s[|a|] == '_'
            && s[|a| + 1..|a| + 1 + |b|] == b && s[|a| + 1 + |b|] == '_'
            && s[|a| + |b| + 2..] == c && s[|a| + 1..] == b + "_" + c
  {
    var s := a + "_" + b + "_" + c;
    assert s == a + "_" + (b + "_" + c);
    OneUnderscore(a, b + "_" + c);
    OneUnderscore(b, c);
    assert s[|a| + 1..|a| + 1 + |b|] == (b + "_" + c)[..|b|];
    assert s[|a| + |b| + 2..] == (b + "_" + c)[|b| + 1..];
  }

  lemma SubSlice(s: string, k: nat, c: string, i: nat, j: nat)
    requires k <= |s| && s[k..] == c && i <= j <= |c|
    ensures s[k + i..k + j] == c[i..j]
  {
    forall t | 0 <= t < j - i
      ensures s[k + i..k + j][t] == c[i..j][t]
    {
      assert s[k..][i + t] == s[k + i + t];
    }
  }

  // The facts about each name's literal pieces are kept in lemmas of their
  // own, away from the name itself.

  lemma OctWords()
    ensures Lower("Oct") == "oct" && Lower("OCT") == "oct" && Lower("oct") == "oct"
  {
    MonthWord("Oct", "oct");
    MonthWord("OCT", "oct");
    MonthWord("oct", "oct");
  }

  lemma Digits2024()
    ensures |"2024"| == 4 && DigitsAt("2024", 0, 4)
  {
    FourDigits("2024");
  }

  /** NH_ProviderInfo_Oct2024.csv: a month name. */
  const ProviderInfoName: string := "NH" + "_" + "ProviderInfo" + "_" + "Oct2024.csv"

  lemma ProviderInfoPieces()
    ensures '_' !in "NH" && '_' !in "ProviderInfo"
    ensures ("ProviderInfo" + "_" + "Oct2024.csv")[0..3] == "Pro" && Lower("Pro") !in MonthNumbers
    ensures "Oct2024.csv"[0..3] == "Oct" && "Oct2024.csv"[3..7] == "2024"
  {
    NoUnderscoreIn("NH");
    NoUnderscoreIn("ProviderInfo");
    NoMonthInitial("Pro");
  }

  lemma ProviderInfoNoEarlierMatch(s: string)
    requires s == ProviderInfoName
    ensures forall q :: 0 <= q < 15 ==> MatchAt(MonthNameYear, s, q).None?
  {
    var a, b, c := "NH", "ProviderInfo", "Oct2024.csv";
    TwoUnderscores(a, b, c);
    ProviderInfoPieces();
    NoMatchInSpan(MonthNameYear, s, 0, 2);
    NoMatchInSpan(MonthNameYear, s, 3, 15);
    SubSlice(s, 3, b + "_" + c, 0, 3);
    NotAMonthName(s, 2);
  }

  lemma ProviderInfoMatch(s: string)
    requires s == ProviderInfoName
    ensures MatchAt(MonthNameYear, s, 15) == Some(Groups("Oct", "2024"))
  {
    var a, b, c := "NH", "ProviderInfo", "Oct2024.csv";
    TwoUnderscores(a, b, c);
    ProviderInfoPieces();
    SubSlice(s, 16, c, 0, 3);
    SubSlice(s, 16, c, 3, 7);
    OctIsTen();
    OctWords();
    Digits2024();
    MonthNameThenYear(s, 15);
  }

  // The proof of ExampleMonthName, on the name as its pieces build it.
  lemma MonthNameSteps(s: string)
    requires s == ProviderInfoName
    ensures MonthFromFilename(s) == "2024-10"
  {
    ProviderInfoNoEarlierMatch(s);
    ProviderInfoMatch(s);
    MonthNameDecides(s, 15, Groups("Oct", "2024"));
    OctWords();
    OctIsTen();
    MonthNameMeaning(Groups("Oct", "2024"), "oct", "10");
    October2024();
  }

  /** The first example of the doc-comment. */
  lemma ExampleMonthName()
    ensures MonthFromFilename("NH_ProviderInfo_Oct2024.csv") == "2024-10"
  {
    assert ProviderInfoName == "NH_ProviderInfo_Oct2024.csv";
    MonthNameSteps(ProviderInfoName);
  }

  /** export_20241027.csv: a year-month-day stamp. */
  const ExportName: string := "export" + "_" + "20241027.csv"

  lemma ExportPieces()
    ensures '_' !in "export" && '_' !in "20241027.csv"
    ensures "20241027.csv"[0..3] == "202" && Lower("202") !in MonthNumbers
    ensures "20241027.csv"[0..4] == "2024" && "20241027.csv"[4..6] == "10"
    ensures "20241027.csv"[4] == '1'
  {
    NoUnderscoreIn("export");
    NoUnderscoreIn("20241027.csv");
    NoMonthInitial("202");
  }

  lemma ExportNoMonthName(s: string)
    requires s == ExportName
    ensures forall q :: 0 <= q < |s| ==> MatchAt(MonthNameYear, s, q).None?
  {
    var a, c := "export", "20241027.csv";
    OneUnderscore(a, c);
    ExportPieces();
    NoMatchInSpan(MonthNameYear, s, 0, 6);
    NoMatchInSpan(MonthNameYear, s, 7, |s|);
    SubSlice(s, 7, c, 0, 3);
    NotAMonthName(s, 6);
  }

  lemma ExportMatch(s: string)
    requires s == ExportName
    ensures MatchAt(YearSepMonth, s, 6) == Some(Groups("2024", "10"))
    ensures forall q :: 0 <= q < 6 ==> MatchAt(YearSepMonth, s, q).None?
  {
    var a, c := "export", "20241027.csv";
    OneUnderscore(a, c);
    ExportPieces();
    NoMatchInSpan(YearSepMonth, s, 0, 6);
    SubSlice(s, 7, c, 0, 4);
    SubSlice(s, 7, c, 4, 6);
    assert s[11] == s[7..][4];
    Year2024();
    YearSepMonthWithoutSep(s, 6);
  }

  // The proof of ExampleYearMonthDay, on the name as its pieces build it.
  lemma YearMonthDaySteps(s: string)
    requires s == ExportName
    ensures MonthFromFilename(s) == "2024-10"
  {
    ExportNoMonthName(s);
    ExportMatch(s);
    YearSepMonthDecides(s, 6, Groups("2024", "10"));
    October2024();
  }

  /** The second example of the doc-comment. */
  lemma ExampleYearMonthDay()
    ensures MonthFromFilename("export_20241027.csv") == "2024-10"
  {
    assert ExportName == "export_20241027.csv";
    YearMonthDaySteps(ExportName);
  }

  /** data_2024_10.csv: year and month separated by an underscore. */
  const DataName: string := "data" + "_" + "2024" + "_" + "10.csv"

  lemma DataPieces()
    ensures '_' !in "data" && '_' !in "2024" && '_' !in "10.csv"
    ensures ("2024" + "_" + "10.csv")[0..3] == "202" && Lower("202") !in MonthNumbers
    ensures "10.csv"[0..3] == "10." && Lower("10.") !in MonthNumbers
    ensures "10.csv"[0..2] == "10"
  {
    NoUnderscoreIn("data");
    NoUnderscoreIn("2024");
    NoUnderscoreIn("10.csv");
    NoMonthInitial("202");
    NoMonthInitial("10.");
  }

  lemma DataNoMonthName(s: string)
    requires s == DataName
    ensures forall q :: 0 <= q < |s| ==> MatchAt(MonthNameYear, s, q).None?
  {
    var a, b, c := "data", "2024", "10.csv";
    TwoUnderscores(a, b, c);
    DataPieces();
    SubSlice(s, 5, b + "_" + c, 0, 3);
    NotAMonthName(s, 4);
    SubSlice(s, 10, c, 0, 3);
    NotAMonthName(s, 9);
    NothingBetween(MonthNameYear, s, 4, 9);
  }

  lemma DataMatch(s: string)
    requires s == DataName
    ensures MatchAt(YearSepMonth, s, 4) == Some(Groups("2024", "10"))
    ensures forall q :: 0 <= q < 4 ==> MatchAt(YearSepMonth, s, q).None?
  {
    var a, b, c := "data", "2024", "10.csv";
    TwoUnderscores(a, b, c);
    DataPieces();
    NoMatchInSpan(YearSepMonth, s, 0, 4);
    SubSlice(s, 10, c, 0, 2);
    Year2024();
    YearSepMonthWithSep(s, 4);
  }

  // The proof of ExampleYearSepMonth, on the name as its pieces build it.
  lemma YearSepMonthSteps(s: string)
    requires s == DataName
    ensures MonthFromFilename(s) == "2024-10"
  {
    DataNoMonthName(s);
    DataMatch(s);
    YearSepMonthDecides(s, 4, Groups("2024", "10"));
    October2024();
  }

  /** The third example of the doc-comment. */
  lemma ExampleYearSepMonth()
    ensures MonthFromFilename("data_2024_10.csv") == "2024-10"
  {
    assert DataName == "data_2024_10.csv";
    YearSepMonthSteps(DataName);
  }

  /** A month name spelt out in lower case, then a dash: only its first
      three letters count. */
  const SpeltOutName: string := "report" + "_" + "october-2024.csv"

  lemma SpeltOutPieces()
    ensures '_' !in "report"
    ensures var c := "october-2024.csv";
            && c[0..3] == "oct" && c[8..12] == "2024" && c[7] == '-'
            && forall i :: 3 <= i < 7 ==> IsLetter(c[i])
  {
    NoUnderscoreIn("report");
  }

  lemma SpeltOutMatch(s: string)
    requires s == SpeltOutName
    ensures MatchAt(MonthNameYear, s, 6) == Some(Groups("oct", "2024"))
    ensures forall q :: 0 <= q < 6 ==> MatchAt(MonthNameYear, s, q).None?
  {
    var a, c := "report", "october-2024.csv";
    OneUnderscore(a, c);
    SpeltOutPieces();
    NoMatchInSpan(MonthNameYear, s, 0, 6);
    SubSlice(s, 7, c, 0, 3);
    SubSlice(s, 7, c, 8, 12);
    forall i | 10 <= i <= 14 ensures s[i] == c[i - 7] {
      assert s[i] == s[7..][i - 7];
    }
    OctIsTen();
    OctWords();
    Digits2024();
    MonthNameLettersSepYear(s, 6, 14);
  }

  // The proof of ExampleSpeltOutMonth, on the name as its pieces build it.
  lemma SpeltOutMonthSteps(s: string)
    requires s == SpeltOutName
    ensures MonthFromFilename(s) == "2024-10"
  {
    SpeltOutMatch(s);
    MonthNameDecides(s, 6, Groups("oct", "2024"));
    OctWords();
    OctIsTen();
    MonthNameMeaning(Groups("oct", "2024"), "oct", "10");
    October2024();
  }

  lemma ExampleSpeltOutMonth()
    ensures MonthFromFilename("report_october-2024.csv") == "2024-10"
  {
    assert SpeltOutName == "report_october-2024.csv";
    SpeltOutMonthSteps(SpeltOutName);
  }

  /** The same month in capitals, with no separator. */
  const CapitalsName: string := "report" + "_" + "OCT2024.csv"

  lemma CapitalsPieces()
    ensures '_' !in "report"
    ensures "OCT2024.csv"[0..3] == "OCT" && "OCT2024.csv"[3..7] == "2024"
  {
    NoUnderscoreIn("report");
  }

  lemma CapitalsMatch(s: string)
    requires s == CapitalsName
    ensures MatchAt(MonthNameYear, s, 6) == Some(Groups("OCT", "2024"))
    ensures forall q :: 0 <= q < 6 ==> MatchAt(MonthNameYear, s, q).None?
  {
    var a, c := "report", "OCT2024.csv";
    OneUnderscore(a, c);
    CapitalsPieces();
    NoMatchInSpan(MonthNameYear, s, 0, 6);
    SubSlice(s, 7, c, 0, 3);
    SubSlice(s, 7, c, 3, 7);
    OctIsTen();
    OctWords();
    Digits2024();
    MonthNameThenYear(s, 6);
  }

  // The proof of ExampleCapitalMonth, on the name as its pieces build it.
  lemma CapitalMonthSteps(s: string)
    requires s == CapitalsName
    ensures MonthFromFilename(s) == "2024-10"
  {
    CapitalsMatch(s);
    MonthNameDecides(s, 6, Groups("OCT", "2024"));
    OctWords();
    OctIsTen();
    MonthNameMeaning(Groups("OCT", "2024"), "oct", "10");
    October2024();
  }

  lemma ExampleCapitalMonth()
    ensures MonthFromFilename("report_OCT2024.csv") == "2024-10"
  {
    assert CapitalsName == "report_OCT2024.csv";
    CapitalMonthSteps(CapitalsName);
  }

  /** The month-name pattern takes any four digits as the year ... */
  const OldMonthName: string := "archive" + "_" + "Jan1999.csv"

  lemma OldMonthPieces()
    ensures '_' !in "archive"
    ensures "Jan1999.csv"[0..3] == "Jan" && "Jan1999.csv"[3..7] == "1999"
    ensures Lower("Jan") == "jan" && |"1999"| == 4 && DigitsAt("1999", 0, 4)
  {
    NoUnderscoreIn("archive");
    MonthWord("Jan", "jan");
    FourDigits("1999");
  }

  lemma OldMonthMatch(s: string)
    requires s == OldMonthName
    ensures MatchAt(MonthNameYear, s, 7) == Some(Groups("Jan", "1999"))
    ensures forall q :: 0 <= q < 7 ==> MatchAt(MonthNameYear, s, q).None?
  {
    var a, c := "archive", "Jan1999.csv";
    OneUnderscore(a, c);
    OldMonthPieces();
    NoMatchInSpan(MonthNameYear, s, 0, 7);
    SubSlice(s, 8, c, 0, 3);
    SubSlice(s, 8, c, 3, 7);
    JanIsOne();
    MonthNameThenYear(s, 7);
  }

  // The proof of ExampleAnyYearAfterMonthName, on the name as its pieces build it.
  lemma AnyYearAfterMonthNameSteps(s: string)
    requires s == OldMonthName
    ensures MonthFromFilename(s) == "1999-01"
  {
    OldMonthMatch(s);
    MonthNameDecides(s, 7, Groups("Jan", "1999"));
    OldMonthPieces();
    JanIsOne();
    MonthNameMeaning(Groups("Jan", "1999"), "jan", "01");
    January1999();
  }

  lemma ExampleAnyYearAfterMonthName()
    ensures MonthFromFilename("archive_Jan1999.csv") == "1999-01"
  {
    assert OldMonthName == "archive_Jan1999.csv";
    AnyYearAfterMonthNameSteps(OldMonthName);
  }

  /** ... while the numeric patterns only take years 20xx. */
  const OldNumericName: string := "data" + "_" + "1999" + "_" + "01.csv"

  lemma OldNumericPieces()
    ensures '_' !in "data" && '_' !in "1999" && '_' !in "01.csv"
    ensures ("1999" + "_" + "01.csv")[0..3] == "199" && Lower("199") !in MonthNumbers
    ensures "01.csv"[0..3] == "01." && Lower("01.") !in MonthNumbers
    ensures ("1999" + "_" + "01.csv")[0] == '1' && "01.csv"[0] == '0'
  {
    NoUnderscoreIn("data");
    NoUnderscoreIn("1999");
    NoUnderscoreIn("01.csv");
    NoMonthInitial("199");
    NoMonthInitial("01.");
  }

  lemma OldNumericNoMatch(s: string, pat: Pattern)
    requires s == OldNumericName && (pat == MonthNameYear || pat == YearSepMonth)
    ensures forall q :: 0 <= q < |s| ==> MatchAt(pat, s, q).None?
  {
    var a, b, c := "data", "1999", "01.csv";
    TwoUnderscores(a, b, c);
    OldNumericPieces();
    if pat == MonthNameYear {
      SubSlice(s, 5, b + "_" + c, 0, 3);
      NotAMonthName(s, 4);
      SubSlice(s, 10, c, 0, 3);
      NotAMonthName(s, 9);
    } else {
      assert s[5] == s[5..][0] && s[10] == s[10..][0];
      NotAYear20(s, 4);
      NotAYear20(s, 9);
    }
    NothingBetween(pat, s, 4, 9);
  }

  // The proof of ExampleNumericNeeds20xx, on the name as its pieces build it.
  lemma NumericNeeds20xxSteps(s: string)
    requires s == OldNumericName
    ensures MonthFromFilename(s) == Unknown
  {
    OldNumericNoMatch(s, MonthNameYear);
    OldNumericNoMatch(s, YearSepMonth);
    NoMatchMeansUnknown(s);
  }

  lemma ExampleNumericNeeds20xx()
    ensures MonthFromFilename("data_1999_01.csv") == Unknown
  {
    assert OldNumericName == "data_1999_01.csv";
    NumericNeeds20xxSteps(OldNumericName);
  }
}
