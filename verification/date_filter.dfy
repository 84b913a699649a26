/**
 `filter_files_by_date`, identical in both scripts: keep the files whose
 name starts with a `YYYY-MM-DD` date that `datetime.strptime` accepts and
 that lies within the optional inclusive bounds.

 `strptime(s, '%Y-%m-%d')` is modelled after CPython's `_strptime`: the
 format becomes the regular expression
   (\d\d\d\d)-(1[0-2]|0[1-9]|[1-9])-(3[01]|[12]\d|0[1-9]|[1-9]| [1-9])
 whose alternatives are tried in order, the match must cover the whole
 string ("unconverted data remains" otherwise), and the resulting
 calendar date must exist (year at least 1, day within its month under the
 Gregorian leap rule); every failure is a `ValueError`, here `None`.
 */
module DateFilter {
  import opened Optional
  import opened Text

  datatype Date = Date(year: int, month: int, day: int)

  predicate IsLeap(y: int) {
    y % 4 == 0 && (y % 100 != 0 || y % 400 == 0)
  }

  function DaysInMonth(y: int, m: int): (n: int)
    requires 1 <= m <= 12
    ensures 28 <= n <= 31
    ensures n == 29 <==> m == 2 && IsLeap(y)
  {
    if m == 2 then (if IsLeap(y) then 29 else 28)
    else if m == 4 || m == 6 || m == 9 || m == 11 then 30
    else 31
  }

  /** A date `datetime.date` can hold. */
  predicate Valid(d: Date) {
    1 <= d.year <= 9999 && 1 <= d.month <= 12 && 1 <= d.day <= DaysInMonth(d.year, d.month)
  }

  /** `datetime` comparison on midnight values: lexicographic on (year, month, day). */
  predicate Before(a: Date, b: Date) {
    a.year < b.year
    || (a.year == b.year && (a.month < b.month || (a.month == b.month && a.day < b.day)))
  }

  predicate IsDigit(c: char) {
    '0' <= c <= '9'
  }

  function Val(c: char): (n: nat)
    requires IsDigit(c)
    ensures n <= 9
  {
    c as int - '0' as int
  }

  function Digit(n: nat): (c: char)
    requires n <= 9
    ensures IsDigit(c) && Val(c) == n
  {
    ('0' as int + n) as char
  }

  // ---------------------------------------------------------------------
  // strptime('%Y-%m-%d')

  /** The `%m` group at i, followed by the '-' separator: the month and the
      position after the separator. */
  function MonthAt(s: string, i: nat): (r: Option<(int, nat)>)
    ensures r.Some? ==> 1 <= r.value.0 <= 12 && i + 2 <= r.value.1 <= |s| && s[r.value.1 - 1] == '-'
  {
    if i + 3 <= |s| && s[i] == '1' && '0' <= s[i + 1] <= '2' && s[i + 2] == '-' then
      Some((10 + Val(s[i + 1]), i + 3))
    else if i + 3 <= |s| && s[i] == '0' && '1' <= s[i + 1] <= '9' && s[i + 2] == '-' then
      Some((Val(s[i + 1]), i + 3))
    else if i + 2 <= |s| && '1' <= s[i] <= '9' && s[i + 1] == '-' then
      Some((Val(s[i]), i + 2))
    else None
  }

  /** The `%d` group at i: the first alternative that matches, with the day
      and the position after it. */
  function DayAt(s: string, i: nat): (r: Option<(int, nat)>)
    ensures r.Some? ==> 1 <= r.value.0 <= 31 && i < r.value.1 <= |s|
  {
    if i + 2 <= |s| && s[i] == '3' && '0' <= s[i + 1] <= '1' then
      Some((30 + Val(s[i + 1]), i + 2))
    else if i + 2 <= |s| && '1' <= s[i] <= '2' && IsDigit(s[i + 1]) then
      Some((10 * Val(s[i]) + Val(s[i + 1]), i + 2))
    else if i + 2 <= |s| && s[i] == '0' && '1' <= s[i + 1] <= '9' then
      Some((Val(s[i + 1]), i + 2))
    else if i + 1 <= |s| && '1' <= s[i] <= '9' then
      Some((Val(s[i]), i + 1))
    else if i + 2 <= |s| && s[i] == ' ' && '1' <= s[i + 1] <= '9' then
      Some((Val(s[i + 1]), i + 2))
    else None
  }

  function Year(s: string): (y: int)
    requires |s| >= 4 && IsDigit(s[0]) && IsDigit(s[1]) && IsDigit(s[2]) && IsDigit(s[3])
    ensures 0 <= y <= 9999
  {
    1000 * Val(s[0]) + 100 * Val(s[1]) + 10 * Val(s[2]) + Val(s[3])
  }

  /** `datetime.strptime(s, '%Y-%m-%d')`, with `None` for `ValueError`. */
  function ParseDate(s: string): (r: Option<Date>)
    ensures r.Some? ==> Valid(r.value)
  {
    if |s| < 5 || !(IsDigit(s[0]) && IsDigit(s[1]) && IsDigit(s[2]) && IsDigit(s[3])) || s[4] != '-' then None
    else match MonthAt(s, 5)
      case None => None
      case Some((m, i)) =>
        match DayAt(s, i)
        case None => None
        case Some((d, e)) =>
          var date := Date(Year(s), m, d);
          if e == |s| && Valid(date) then Some(date) else None
  }

  // ---------------------------------------------------------------------
  // The inverse: zero-padded `YYYY-MM-DD`

  function Pad2(n: nat): (s: string)
    requires n <= 99
    ensures |s| == 2 && IsDigit(s[0]) && IsDigit(s[1]) && 10 * Val(s[0]) + Val(s[1]) == n
  {
    [Digit(n / 10), Digit(n % 10)]
  }

  function Pad4(n: nat): (s: string)
    requires n <= 9999
    ensures |s| == 4 && IsDigit(s[0]) && IsDigit(s[1]) && IsDigit(s[2]) && IsDigit(s[3])
    ensures Year(s) == n
  {
    var s := Pad2(n / 100) + Pad2(n % 100);
    assert Year(s) == 100 * (n / 100) + n % 100;
    s
  }

  /** `date.strftime('%Y-%m-%d')` of a valid date. */
  function Format(d: Date): (s: string)
    requires Valid(d)
    ensures |s| == 10 && DateShape(s)
  {
    Pad4(d.year) + "-" + Pad2(d.month) + "-" + Pad2(d.day)
  }

  /** Parsing reads every formatted date back. */
  lemma ParseFormat(d: Date)
    requires Valid(d)
    ensures ParseDate(Format(d)) == Some(d)
  {
    var s := Format(d);
    assert s[..4] == Pad4(d.year);
    assert s[5..7] == Pad2(d.month) && s[8..10] == Pad2(d.day);
    MonthOfShape(s);
    DayOfShape(s);
  }

  // ---------------------------------------------------------------------
  // The `\d{4}-\d{2}-\d{2}` filename prefix

  /** Ten characters shaped `\d{4}-\d{2}-\d{2}` start s. */
  predicate DateShape(s: string) {
    |s| >= 10
    && IsDigit(s[0]) && IsDigit(s[1]) && IsDigit(s[2]) && IsDigit(s[3]) && s[4] == '-'
    && IsDigit(s[5]) && IsDigit(s[6]) && s[7] == '-' && IsDigit(s[8]) && IsDigit(s[9])
  }

  /** The date the ten characters spell, whether or not it exists. */
  function Spelled(s: string): Date
    requires DateShape(s)
  {
    Date(Year(s), 10 * Val(s[5]) + Val(s[6]), 10 * Val(s[8]) + Val(s[9]))
  }

  lemma MonthOfShape(s: string)
    requires DateShape(s)
    ensures var m := 10 * Val(s[5]) + Val(s[6]);
      MonthAt(s, 5) == if 1 <= m <= 12 then Some((m, 8)) else None
  {
  }

  lemma DayOfShape(s: string)
    requires DateShape(s) && |s| == 10
    ensures var d := 10 * Val(s[8]) + Val(s[9]);
      1 <= d <= 31 ==> DayAt(s, 8) == Some((d, 10))
    ensures var d := 10 * Val(s[8]) + Val(s[9]);
      !(1 <= d <= 31) ==> DayAt(s, 8).None? || DayAt(s, 8).value.1 < 10
  {
  }

  /** On a well-shaped ten-character string `strptime` succeeds exactly when
      the spelled date exists. */
  lemma ParseShaped(s: string)
    requires DateShape(s) && |s| == 10
    ensures ParseDate(s) == if Valid(Spelled(s)) then Some(Spelled(s)) else None
  {
    MonthOfShape(s);
    DayOfShape(s);
  }

  // ---------------------------------------------------------------------
  // filter_files_by_date

  /** An argument Python treats as false: `None` or the empty string. */
  predicate Unset(bound: Option<string>) {
    bound.None? || bound.value == []
  }

  /** The date a file name starts with, if it has one `strptime` accepts. */
  function FileDate(path: string): (r: Option<Date>)
    ensures r.Some? <==> DateShape(Basename(path)) && Valid(Spelled(Basename(path)))
    ensures r.Some? ==> r.value == Spelled(Basename(path)) && Valid(r.value)
  {
    var name := Basename(path);
    if DateShape(name) then
      var head := name[..10];
      assert head[0] == name[0] && head[1] == name[1] && head[2] == name[2] && head[3] == name[3];
      assert DateShape(head) && Spelled(head) == Spelled(name);
      ParseShaped(head);
      ParseDate(head)
    else None
  }

  /** The loop body's verdict on one file, following the branches in order. */
  function Keep(path: string, from: Option<string>, to: Option<string>): bool
  {
    match FileDate(path)
    case None => false
    case Some(fileDate) =>
      if !Unset(from) && (ParseDate(from.value).None? || Before(fileDate, ParseDate(from.value).value)) then false
      else if !Unset(to) && (ParseDate(to.value).None? || Before(ParseDate(to.value).value, fileDate)) then false
      else true
  }

  /** A file passes exactly when its name starts with a date that exists,
      every set bound is a date, and the file's date is on or after the
      lower bound and on or before the upper bound. */
  lemma KeepIff(path: string, from: Option<string>, to: Option<string>)
    ensures Keep(path, from, to) <==> (
      && FileDate(path).Some?
      && (Unset(from) || (ParseDate(from.value).Some? && !Before(FileDate(path).value, ParseDate(from.value).value)))
      && (Unset(to) || (ParseDate(to.value).Some? && !Before(ParseDate(to.value).value, FileDate(path).value))))
  {
  }

  /** The elements of xs that pass, in order: a list comprehension with a
      condition, holding every element that passes. */
  function Select<T>(xs: seq<T>, pass: T -> bool): (ys: seq<T>)
    ensures |ys| <= |xs|
    ensures forall k :: 0 <= k < |ys| ==> ys[k] in xs && pass(ys[k])
    ensures forall i :: 0 <= i < |xs| && pass(xs[i]) ==> xs[i] in ys
  {
    if xs == [] then []
    else
      var rest := Select(xs[1..], pass);
      assert forall i :: 1 <= i < |xs| ==> xs[i] == xs[1..][i - 1];
      if pass(xs[0]) then [xs[0]] + rest else rest
  }

  /** ys is obtained from xs by deleting elements. */
  predicate Subsequence<T(==)>(ys: seq<T>, xs: seq<T>)
    decreases |xs|
  {
    if ys == [] then true
    else if xs == [] then false
    else (ys[0] == xs[0] && Subsequence(ys[1..], xs[1..])) || Subsequence(ys, xs[1..])
  }

  lemma SelectCons<T>(xs: seq<T>, pass: T -> bool)
    requires xs != []
    ensures Select(xs, pass) == (if pass(xs[0]) then [xs[0]] else []) + Select(xs[1..], pass)
  {
  }

  lemma {:induction false} SelectNone<T>(xs: seq<T>, pass: T -> bool)
    requires forall x :: !pass(x)
    ensures Select(xs, pass) == []
    decreases |xs|
  {
    if xs != [] {
      SelectNone(xs[1..], pass);
    }
  }

  /** `Select` keeps the input order. */
  lemma {:induction false} SelectSubsequence<T>(xs: seq<T>, pass: T -> bool)
    ensures Subsequence(Select(xs, pass), xs)
    decreases |xs|
  {
    if xs != [] {
      SelectSubsequence(xs[1..], pass);
      var ys := Select(xs, pass);
      if pass(xs[0]) {
        assert ys[1..] == Select(xs[1..], pass);
      }
    }
  }

  /** The files kept, in input order. */
  function Kept(files: seq<string>, from: Option<string>, to: Option<string>): seq<string> {
    Select(files, path => Keep(path, from, to))
  }

  /** The loop of `filter_files_by_date`: append each element that passes. */
  method Filter<T>(xs: seq<T>, pass: T -> bool) returns (filtered: seq<T>)
    ensures filtered == Select(xs, pass)
  {
    filtered := [];
    var i := 0;
    while i < |xs|
      invariant i <= |xs|
      invariant Select(xs, pass) == filtered + Select(xs[i..], pass)
    {
      SelectCons(xs[i..], pass);
      assert xs[i..][1..] == xs[i + 1..];
      if pass(xs[i]) {
        filtered := filtered + [xs[i]];
      }
      i := i + 1;
    }
  }

  method FilterFilesByDate(files: seq<string>, from: Option<string>, to: Option<string>)
    returns (filtered: seq<string>)
    ensures forall k :: 0 <= k < |filtered| ==> filtered[k] in files && Keep(filtered[k], from, to)
    ensures forall i :: 0 <= i < |files| && Keep(files[i], from, to) ==> files[i] in filtered
    ensures filtered == Kept(files, from, to)
  {
    filtered := Filter(files, path => Keep(path, from, to));
  }

  /** The kept files are an order-preserving subsequence of the input. */
  lemma KeptInOrder(files: seq<string>, from: Option<string>, to: Option<string>)
    ensures Subsequence(Kept(files, from, to), files)
  {
    SelectSubsequence(files, path => Keep(path, from, to));
  }

  /** A bound that is set but not a date drops every file. */
  lemma BadBoundDropsAll(files: seq<string>, from: Option<string>, to: Option<string>)
    requires (!Unset(from) && ParseDate(from.value).None?) || (!Unset(to) && ParseDate(to.value).None?)
    ensures Kept(files, from, to) == []
  {
    forall path ensures !Keep(path, from, to) {
      KeepIff(path, from, to);
    }
    SelectNone(files, path => Keep(path, from, to));
  }

  /** Both bounds are inclusive: a file dated exactly at a bound passes it. */
  lemma InclusiveBounds(path: string, d: Date)
    requires FileDate(path) == Some(d)
    ensures Keep(path, Some(Format(d)), Some(Format(d)))
  {
    ParseFormat(d);
  }

  /** A file whose name does not start with an existing date is dropped,
      whatever the bounds. */
  lemma UndatedDropped(path: string, from: Option<string>, to: Option<string>)
    requires !DateShape(Basename(path)) || !Valid(Spelled(Basename(path)))
    ensures !Keep(path, from, to)
  {
    var name := Basename(path);
    if DateShape(name) {
      assert name[..10][..10] == name[..10];
      ParseShaped(name[..10]);
      assert Spelled(name[..10]) == Spelled(name);
    }
  }
}
