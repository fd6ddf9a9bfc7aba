/**
 The log viewer (view_logs.py) as pure functions over the lines of a log
 file: counting lines per level, picking the most recent lines, and the
 search, user-activity and today filters, together with the parsing the
 menu applies to what the user types. Reading files and printing are left
 to the caller.
 */
module LogView {
  import opened Text
  import opened Options

  // ---------------------------------------------------------------- level statistics

  /** The levels in the order of the counting dictionary, which is the order they are tried in. */
  datatype Level = Info | Warning | Error | Debug

  function Rank(l: Level): nat {
    match l
    case Info => 0
    case Warning => 1
    case Error => 2
    case Debug => 3
  }

  function LevelName(l: Level): string {
    match l
    case Info => "INFO"
    case Warning => "WARNING"
    case Error => "ERROR"
    case Debug => "DEBUG"
  }

  /** The text that marks a line of a level: `' - LEVEL - '`. */
  function Marker(l: Level): string {
    " - " + LevelName(l) + " - "
  }

  /** The counter a line adds to: the first level, in dictionary order, whose marker occurs in the line. */
  function Classify(line: string): (c: Option<Level>)
    ensures c.None? <==> forall l :: !Contains(line, Marker(l))
    ensures c.Some? ==> Contains(line, Marker(c.value))
    ensures c.Some? ==> forall l :: Rank(l) < Rank(c.value) ==> !Contains(line, Marker(l))
  {
    if Contains(line, Marker(Info)) then Some(Info)
    else if Contains(line, Marker(Warning)) then Some(Warning)
    else if Contains(line, Marker(Error)) then Some(Error)
    else if Contains(line, Marker(Debug)) then Some(Debug)
    else None
  }

  /** The classification of each line, in file order. */
  function Classes(lines: seq<string>): seq<Option<Level>> {
    seq(|lines|, i requires 0 <= i < |lines| => Classify(lines[i]))
  }

  /** How many lines are classified as `c` (`None` counts the lines that match no level). */
  function Tally(lines: seq<string>, c: Option<Level>): (n: nat)
    ensures n == multiset(Classes(lines))[c]
    ensures n <= |lines|
  {
    if |lines| == 0 then 0
    else
      var init := lines[..|lines| - 1];
      assert Classes(lines) == Classes(init) + [Classify(lines[|lines| - 1])];
      Tally(init, c) + (if Classify(lines[|lines| - 1]) == c then 1 else 0)
  }

  /** Every line is counted exactly once: under its level, or as matching none. */
  lemma {:induction false} TallyPartition(lines: seq<string>)
    ensures Tally(lines, Some(Info)) + Tally(lines, Some(Warning)) + Tally(lines, Some(Error))
      + Tally(lines, Some(Debug)) + Tally(lines, None) == |lines|
  {
    if |lines| > 0 {
      TallyPartition(lines[..|lines| - 1]);
    }
  }

  datatype Counts = Counts(info: nat, warning: nat, error: nat, debug: nat) {
    function Sum(): nat {
      info + warning + error + debug
    }
  }

  /** The statistics block of `show_log_stats`: the line count and the per-level counters. */
  method LogStats(lines: seq<string>) returns (total: nat, counts: Counts)
    ensures total == |lines|
    ensures counts.info == Tally(lines, Some(Info))
    ensures counts.warning == Tally(lines, Some(Warning))
    ensures counts.error == Tally(lines, Some(Error))
    ensures counts.debug == Tally(lines, Some(Debug))
    ensures counts.Sum() <= |lines|
  {
    total := |lines|;
    counts := Counts(0, 0, 0, 0);
    var i := 0;
    while i < |lines|
      invariant 0 <= i <= |lines|
      invariant counts.info == Tally(lines[..i], Some(Info))
      invariant counts.warning == Tally(lines[..i], Some(Warning))
      invariant counts.error == Tally(lines[..i], Some(Error))
      invariant counts.debug == Tally(lines[..i], Some(Debug))
    {
      assert lines[..i + 1][..i] == lines[..i];
      match Classify(lines[i]) {
        case Some(Info) => counts := counts.(info := counts.info + 1);
        case Some(Warning) => counts := counts.(warning := counts.warning + 1);
        case Some(Error) => counts := counts.(error := counts.error + 1);
        case Some(Debug) => counts := counts.(debug := counts.debug + 1);
        case None =>
      }
      i := i + 1;
    }
    assert lines[..i] == lines;
    TallyPartition(lines);
  }

  // ---------------------------------------------------------------- recent lines

  /** Python's `s[k:]` for any integer `k`: a negative start counts from the end, and both are clamped. */
  function SliceFrom<T>(s: seq<T>, k: int): seq<T> {
    if k < 0 then (if -k >= |s| then s else s[|s| + k..])
    else if k >= |s| then []
    else s[k..]
  }

  /** `all_lines[-lines:] if len(all_lines) > lines else all_lines`. */
  function RecentLines(lines: seq<string>, n: int): (r: seq<string>)
    ensures n >= 1 ==> r == lines[|lines| - Min(n, |lines|)..]
    ensures n == 0 ==> r == lines
    ensures n < 0 ==> r == lines[Min(-n, |lines|)..]
  {
    if |lines| > n then SliceFrom(lines, -n) else lines
  }

  function Min(a: int, b: int): int {
    if a < b then a else b
  }

  /** With a positive count the most recent lines come out in file order and at most `n` of them. */
  lemma RecentLinesAreLast(lines: seq<string>, n: int)
    requires n >= 1
    ensures var r := RecentLines(lines, n);
      && |r| == Min(n, |lines|)
      && forall k :: 0 <= k < |r| ==> r[k] == lines[|lines| - |r| + k]
  {
  }

  // ---------------------------------------------------------------- filters

  /** The lines satisfying `p`, in file order. */
  function Filter(lines: seq<string>, p: string -> bool): (r: seq<string>)
    ensures |r| <= |lines|
    ensures forall k :: 0 <= k < |r| ==> p(r[k])
  {
    if |lines| == 0 then []
    else (if p(lines[0]) then [lines[0]] else []) + Filter(lines[1..], p)
  }

  /** A filter keeps every copy of each line it accepts and no copy of the others. */
  lemma {:induction false} FilterCounts(lines: seq<string>, p: string -> bool)
    ensures forall x :: multiset(Filter(lines, p))[x] == if p(x) then multiset(lines)[x] else 0
  {
    if |lines| > 0 {
      FilterCounts(lines[1..], p);
      assert lines == [lines[0]] + lines[1..];
    }
  }

  lemma {:induction false} FilterAppend(a: seq<string>, b: seq<string>, p: string -> bool)
    ensures Filter(a + b, p) == Filter(a, p) + Filter(b, p)
  {
    if |a| > 0 {
      assert (a + b)[1..] == a[1..] + b;
      FilterAppend(a[1..], b, p);
    } else {
      assert a + b == b;
    }
  }

  /** Filtering one more line of a prefix appends that line when it is accepted. */
  lemma FilterStep(lines: seq<string>, i: nat, p: string -> bool)
    requires i < |lines|
    ensures Filter(lines[..i + 1], p) == Filter(lines[..i], p) + (if p(lines[i]) then [lines[i]] else [])
  {
    assert lines[..i + 1] == lines[..i] + [lines[i]];
    FilterAppend(lines[..i], [lines[i]], p);
  }

  /** `r` can be obtained from `s` by deleting elements. */
  predicate IsSubsequence(r: seq<string>, s: seq<string>)
    decreases |s|
  {
    |r| == 0 ||
    (|s| > 0 && ((r[0] == s[0] && IsSubsequence(r[1..], s[1..])) || IsSubsequence(r, s[1..])))
  }

  /** A filter keeps the order of the lines it keeps. */
  lemma {:induction false} FilterIsSubsequence(lines: seq<string>, p: string -> bool)
    ensures IsSubsequence(Filter(lines, p), lines)
  {
    if |lines| > 0 {
      FilterIsSubsequence(lines[1..], p);
      var rest := Filter(lines[1..], p);
      if p(lines[0]) {
        assert Filter(lines, p) == [lines[0]] + rest;
        assert ([lines[0]] + rest)[1..] == rest;
      } else {
        assert Filter(lines, p) == rest;
      }
    }
  }

  /** The piece of `line` starting at `i` spells `term`, up to case. */
  predicate FoldedAt(line: string, term: string, i: int) {
    0 <= i <= |line| - |term| && Lower(line[i..i + |term|]) == Lower(term)
  }

  /**
   `term.lower() in line.lower()`, with ASCII case folding: some piece of the
   line is the term up to case.
   */
  function MatchesIgnoringCase(line: string, term: string): (b: bool)
    ensures b <==> exists i :: FoldedAt(line, term, i)
  {
    FoldedAtIff(line, term);
    Contains(Lower(line), Lower(term))
  }

  lemma FoldedAtIff(line: string, term: string)
    ensures Contains(Lower(line), Lower(term)) <==> exists i :: FoldedAt(line, term, i)
  {
    var hay, needle := Lower(line), Lower(term);
    ContainsIff(hay, needle);
    if Contains(hay, needle) {
      var i :| 0 <= i <= |hay| - |needle| && StartsWith(hay[i..], needle);
      LowerSlice(line, i, i + |term|);
      assert hay[i..][..|needle|] == hay[i..i + |term|];
      assert FoldedAt(line, term, i);
    }
    if exists i :: FoldedAt(line, term, i) {
      var i :| FoldedAt(line, term, i);
      LowerSlice(line, i, i + |term|);
      assert hay[i..][..|needle|] == hay[i..i + |term|];
      assert StartsWith(hay[i..], needle);
    }
  }

  /** The match ignores case on both sides: lowering the line or the term first changes nothing. */
  lemma MatchesIgnoringCaseFolds(line: string, term: string)
    ensures MatchesIgnoringCase(Lower(line), term) == MatchesIgnoringCase(line, term)
    ensures MatchesIgnoringCase(line, Lower(term)) == MatchesIgnoringCase(line, term)
  {
    LowerIdempotent(line);
    LowerIdempotent(term);
  }

  /** The test `search_logs` and `view_user_activity` apply to each line. */
  function Mentioning(term: string): string -> bool {
    line => MatchesIgnoringCase(line, term)
  }

  datatype Hit = Hit(lineNo: nat, line: string)

  /** The text of each hit, in order. */
  function HitLines(hits: seq<Hit>): seq<string> {
    if |hits| == 0 then [] else [hits[0].line] + HitLines(hits[1..])
  }

  /**
   `search_logs`: the lines containing the term, ignoring case, each with its
   1-based line number. The hit lines are exactly the user-activity filter for
   the same text.
   */
  method SearchLogs(lines: seq<string>, term: string) returns (hits: seq<Hit>)
    ensures forall k :: 0 <= k < |hits| ==>
      && 1 <= hits[k].lineNo <= |lines|
      && hits[k].line == lines[hits[k].lineNo - 1]
      && MatchesIgnoringCase(hits[k].line, term)
    ensures forall k, m :: 0 <= k < m < |hits| ==> hits[k].lineNo < hits[m].lineNo
    ensures HitLines(hits) == UserActivity(lines, term)
    ensures forall i :: 0 <= i < |lines| && MatchesIgnoringCase(lines[i], term) ==> lines[i] in HitLines(hits)
  {
    hits := NumberedMatches(lines, Mentioning(term));
    forall i | 0 <= i < |lines| && MatchesIgnoringCase(lines[i], term)
      ensures lines[i] in HitLines(hits)
    {
      var activity := UserActivity(lines, term);
      assert lines[i] in multiset(lines);
      assert multiset(activity)[lines[i]] == multiset(lines)[lines[i]];
      assert lines[i] in multiset(HitLines(hits));
    }
  }

  /** The scan of `search_logs` for any line test: the accepted lines with their 1-based numbers. */
  method NumberedMatches(lines: seq<string>, p: string -> bool) returns (hits: seq<Hit>)
    ensures forall k :: 0 <= k < |hits| ==> 1 <= hits[k].lineNo <= |lines|
    ensures forall k :: 0 <= k < |hits| ==> hits[k].line == lines[hits[k].lineNo - 1]
    ensures forall k :: 0 <= k < |hits| ==> p(hits[k].line)
    ensures forall k, m :: 0 <= k < m < |hits| ==> hits[k].lineNo < hits[m].lineNo
    ensures HitLines(hits) == Filter(lines, p)
  {
    hits := [];
    var i := 0;
    while i < |lines|
      invariant i <= |lines|
      invariant hits == HitsUpTo(lines, p, i)
    {
      if p(lines[i]) {
        hits := hits + [Hit(i + 1, lines[i])];
      }
      i := i + 1;
    }
    HitsUpToSound(lines, p, i);
    HitsUpToIncreasing(lines, p, i);
    HitsUpToLines(lines, p, i);
    PrefixIsWhole(lines);
  }

  /** The hits the scan has collected after looking at the first `i` lines. */
  function HitsUpTo(lines: seq<string>, p: string -> bool, i: nat): seq<Hit>
    requires i <= |lines|
  {
    if i == 0 then []
    else HitsUpTo(lines, p, i - 1) + (if p(lines[i - 1]) then [Hit(i, lines[i - 1])] else [])
  }

  /** Every hit is an accepted line among the first `i`, carrying its own 1-based number. */
  predicate HitsSound(lines: seq<string>, p: string -> bool, i: nat, hits: seq<Hit>)
    requires i <= |lines|
  {
    && (forall k :: 0 <= k < |hits| ==> 1 <= hits[k].lineNo <= i)
    && (forall k :: 0 <= k < |hits| ==> hits[k].line == lines[hits[k].lineNo - 1])
    && (forall k :: 0 <= k < |hits| ==> p(hits[k].line))
  }

  predicate Increasing(hits: seq<Hit>) {
    forall k, m :: 0 <= k < m < |hits| ==> hits[k].lineNo < hits[m].lineNo
  }

  lemma {:induction false} HitsUpToSound(lines: seq<string>, p: string -> bool, i: nat)
    requires i <= |lines|
    ensures HitsSound(lines, p, i, HitsUpTo(lines, p, i))
  {
    if i > 0 {
      HitsUpToSound(lines, p, i - 1);
      var prev := HitsUpTo(lines, p, i - 1);
      var hits := HitsUpTo(lines, p, i);
      if p(lines[i - 1]) {
        assert hits == prev + [Hit(i, lines[i - 1])];
      } else {
        assert hits == prev;
      }
    }
  }

  lemma {:induction false} HitsUpToIncreasing(lines: seq<string>, p: string -> bool, i: nat)
    requires i <= |lines|
    ensures Increasing(HitsUpTo(lines, p, i))
  {
    if i > 0 {
      HitsUpToIncreasing(lines, p, i - 1);
      HitsUpToSound(lines, p, i - 1);
      var prev := HitsUpTo(lines, p, i - 1);
      var hits := HitsUpTo(lines, p, i);
      if p(lines[i - 1]) {
        assert hits == prev + [Hit(i, lines[i - 1])];
      } else {
        assert hits == prev;
      }
    }
  }

  lemma {:induction false} HitsUpToLines(lines: seq<string>, p: string -> bool, i: nat)
    requires i <= |lines|
    ensures HitLines(HitsUpTo(lines, p, i)) == Filter(lines[..i], p)
  {
    if i > 0 {
      HitsUpToLines(lines, p, i - 1);
      FilterStep(lines, i - 1, p);
      var prev := HitsUpTo(lines, p, i - 1);
      var before := Filter(lines[..i - 1], p);
      if p(lines[i - 1]) {
        HitLinesAppend(prev, Hit(i, lines[i - 1]));
        assert HitsUpTo(lines, p, i) == prev + [Hit(i, lines[i - 1])];
        assert Filter(lines[..i], p) == before + [lines[i - 1]];
      } else {
        assert HitsUpTo(lines, p, i) == prev;
        assert Filter(lines[..i], p) == before;
      }
    } else {
      assert lines[..0] == [];
    }
  }

  lemma PrefixIsWhole(lines: seq<string>)
    ensures lines[..|lines|] == lines
  {
  }

  lemma {:induction false} HitLinesAppend(hits: seq<Hit>, h: Hit)
    ensures HitLines(hits + [h]) == HitLines(hits) + [h.line]
  {
    if |hits| > 0 {
      assert (hits + [h])[1..] == hits[1..] + [h];
      HitLinesAppend(hits[1..], h);
    }
  }

  /** `view_user_activity`: the lines mentioning the user name, ignoring case, in file order. */
  function UserActivity(lines: seq<string>, username: string): (r: seq<string>)
    ensures forall k :: 0 <= k < |r| ==> MatchesIgnoringCase(r[k], username)
    ensures forall x :: MatchesIgnoringCase(x, username) ==> multiset(r)[x] == multiset(lines)[x]
    ensures IsSubsequence(r, lines)
  {
    FilterIsSubsequence(lines, Mentioning(username));
    FilterCounts(lines, Mentioning(username));
    Filter(lines, Mentioning(username))
  }

  // ---------------------------------------------------------------- today's lines

  /** `n` written with exactly `width` decimal digits, zero-padded on the left. */
  function Padded(n: nat, width: nat): (s: string)
    ensures |s| == width
    ensures forall i :: 0 <= i < |s| ==> IsDigit(s[i])
  {
    if width == 0 then []
    else Padded(n / 10, width - 1) + [('0' as int + n % 10) as char]
  }

  lemma {:induction false} PaddedValue(n: nat, width: nat)
    requires n < Pow10(width)
    ensures DecimalValue(Padded(n, width)) == n
  {
    if width > 0 {
      DropLastDigit(n, Pow10(width - 1));
      PaddedValue(n / 10, width - 1);
      var s := Padded(n, width);
      assert s[..|s| - 1] == Padded(n / 10, width - 1);
    }
  }

  lemma DropLastDigit(n: nat, p: nat)
    requires n < 10 * p
    ensures n / 10 < p && n == 10 * (n / 10) + n % 10
  {
  }

  function Pow10(k: nat): (p: nat)
    ensures p >= 1
  {
    if k == 0 then 1 else 10 * Pow10(k - 1)
  }

  /** `strftime('%Y-%m-%d')` for a four-digit year. */
  function IsoDate(year: nat, month: nat, day: nat): (s: string)
    requires 1000 <= year <= 9999 && 1 <= month <= 12 && 1 <= day <= 31
    ensures |s| == 10 && s[4] == '-' && s[7] == '-'
  {
    Padded(year, 4) + "-" + Padded(month, 2) + "-" + Padded(day, 2)
  }

  /** The date string reads back as the date it was written from. */
  lemma IsoDateRoundTrip(year: nat, month: nat, day: nat)
    requires 1000 <= year <= 9999 && 1 <= month <= 12 && 1 <= day <= 31
    ensures var s := IsoDate(year, month, day);
      && DecimalValue(s[..4]) == year
      && DecimalValue(s[5..7]) == month
      && DecimalValue(s[8..]) == day
  {
    var s := IsoDate(year, month, day);
    assert s[..4] == Padded(year, 4);
    assert s[5..7] == Padded(month, 2);
    assert s[8..] == Padded(day, 2);
    assert Pow10(4) == 10000 && Pow10(2) == 100;
    PaddedValue(year, 4);
    PaddedValue(month, 2);
    PaddedValue(day, 2);
  }

  /** `view_today_logs`: the lines containing today's date string, matched exactly. */
  function TodayLogs(lines: seq<string>, today: string): (r: seq<string>)
    ensures forall k :: 0 <= k < |r| ==> Contains(r[k], today)
    ensures forall x :: Contains(x, today) ==> multiset(r)[x] == multiset(lines)[x]
    ensures IsSubsequence(r, lines)
  {
    FilterIsSubsequence(lines, line => Contains(line, today));
    FilterCounts(lines, line => Contains(line, today));
    Filter(lines, line => Contains(line, today))
  }

  // ---------------------------------------------------------------- menu input

  /** The line-count prompt: a stripped answer of digits only is the count, anything else the default. */
  function ParseLineCount(answer: string, default: nat): (n: nat)
    ensures IsDigits(Strip(answer)) ==> n == DecimalValue(Strip(answer))
    ensures !IsDigits(Strip(answer)) ==> n == default
  {
    var s := Strip(answer);
    if IsDigits(s) then DecimalValue(s) else default
  }

  /** Typing a number gives that number back; an empty answer gives the default. */
  lemma ParseLineCountRoundTrip(n: nat, default: nat)
    ensures ParseLineCount(Decimal(n), default) == n
    ensures ParseLineCount("", default) == default
  {
    var s := Decimal(n);
    StripByKeeps(s, IsSpace);
    DecimalRoundTrip(n);
  }

  /** Menu choice 2: the most recent lines of the main log, 50 by default. */
  function RecentFromMenu(lines: seq<string>, answer: string): (r: seq<string>)
    ensures !IsDigits(Strip(answer)) ==> r == RecentLines(lines, 50)
    ensures !IsDigits(Strip(answer)) ==> r == lines[|lines| - Min(50, |lines|)..]
    ensures IsDigits(Strip(answer)) && DecimalValue(Strip(answer)) >= 1 ==>
      r == lines[|lines| - Min(DecimalValue(Strip(answer)), |lines|)..]
    ensures ParseLineCount(answer, 50) == 0 ==> r == lines
  {
    RecentLines(lines, ParseLineCount(answer, 50))
  }

  /** Menu choice 3: the most recent lines of the error log, 20 by default. */
  function ErrorsFromMenu(lines: seq<string>, answer: string): (r: seq<string>)
    ensures !IsDigits(Strip(answer)) ==> r == RecentLines(lines, 20)
    ensures !IsDigits(Strip(answer)) ==> r == lines[|lines| - Min(20, |lines|)..]
    ensures IsDigits(Strip(answer)) && DecimalValue(Strip(answer)) >= 1 ==>
      r == lines[|lines| - Min(DecimalValue(Strip(answer)), |lines|)..]
    ensures ParseLineCount(answer, 20) == 0 ==> r == lines
  {
    RecentLines(lines, ParseLineCount(answer, 20))
  }

  /** Menu choices 4 and 5: the stripped search term or user name, refused when empty. */
  function AcceptTerm(answer: string): (r: Option<string>)
    ensures r.None? <==> Strip(answer) == []
    ensures r.Some? ==> r.value == Strip(answer)
    ensures r.Some? ==> |r.value| > 0 && !IsSpace(r.value[0]) && !IsSpace(r.value[|r.value| - 1])
  {
    var s := Strip(answer);
    if s == [] then None else Some(s)
  }
}
