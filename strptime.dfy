/**
 * `datetime.strptime` for the three formats the reader uses: `%Y%m%d`,
 * `%H%M` and `%H%M%S`. Python turns each directive into a regular
 * expression of ordered alternatives, takes the first match the regular
 * expression engine finds (trying alternatives in order and backtracking
 * only when the rest of the format cannot match), rejects the text if that
 * match leaves characters unconsumed, and then builds a date or time whose
 * constructor checks the ranges.
 */
module Strptime {
  import opened Wrappers
  import opened Numbers

  /** One character position of an alternative: a literal or a range. */
  datatype CharClass = Exactly(c: char) | Between(lo: char, hi: char)

  predicate Admits(cc: CharClass, c: char) {
    match cc
    case Exactly(x) => c == x
    case Between(lo, hi) => lo <= c <= hi
  }

  type Alternative = seq<CharClass>

  /** A directive's alternatives, in the order the regular expression tries them. */
  type Directive = seq<Alternative>

  const Digit := Between('0', '9')
  /** `%Y`: `\d\d\d\d` */
  const Year: Directive := [[Digit, Digit, Digit, Digit]]
  /** `%m`: `1[0-2]|0[1-9]|[1-9]` */
  const Month: Directive := [[Exactly('1'), Between('0', '2')], [Exactly('0'), Between('1', '9')], [Between('1', '9')]]
  /** `%d`: `3[01]|[12]\d|0[1-9]|[1-9]| [1-9]` */
  const Day: Directive :=
    [[Exactly('3'), Between('0', '1')], [Between('1', '2'), Digit], [Exactly('0'), Between('1', '9')],
     [Between('1', '9')], [Exactly(' '), Between('1', '9')]]
  /** `%H`: `2[0-3]|[0-1]\d|\d` */
  const Hour: Directive := [[Exactly('2'), Between('0', '3')], [Between('0', '1'), Digit], [Digit]]
  /** `%M`: `[0-5]\d|\d` */
  const Minute: Directive := [[Between('0', '5'), Digit], [Digit]]
  /** `%S`: `6[0-1]|[0-5]\d|\d` */
  const Second: Directive := [[Exactly('6'), Between('0', '1')], [Between('0', '5'), Digit], [Digit]]

  predicate MatchesAt(alt: Alternative, s: string, i: nat) {
    i + |alt| <= |s| && forall j :: 0 <= j < |alt| ==> Admits(alt[j], s[i + j])
  }

  /**
   * The first match of the directives `ds` starting at `i`: the text of each
   * group and the index where the match ends.
   */
  function MatchFrom(ds: seq<Directive>, s: string, i: nat): (r: Option<(seq<string>, nat)>)
    requires i <= |s|
    ensures r.Some? ==> |r.value.0| == |ds| && i <= r.value.1 <= |s|
    decreases |ds|, 0
  {
    if ds == [] then Some(([], i)) else TryEach(ds[0], ds[1..], s, i)
  }

  /** Try the alternatives of one directive in order; the first that lets `rest` match wins. */
  function TryEach(alts: Directive, rest: seq<Directive>, s: string, i: nat): (r: Option<(seq<string>, nat)>)
    requires i <= |s|
    ensures r.Some? ==> |r.value.0| == |rest| + 1 && i <= r.value.1 <= |s|
    decreases |rest|, |alts|
  {
    if alts == [] then None
    else if MatchesAt(alts[0], s, i) then
      var w := |alts[0]|;
      match MatchFrom(rest, s, i + w)
      case Some((gs, e)) => Some(([s[i..i + w]] + gs, e))
      case None => TryEach(alts[1..], rest, s, i)
    else TryEach(alts[1..], rest, s, i)
  }

  /** The group texts, when the first match consumes the whole of `s`. */
  function Strptime(s: string, ds: seq<Directive>): (r: Option<seq<string>>)
    ensures r.Some? ==> |r.value| == |ds|
  {
    match MatchFrom(ds, s, 0)
    case None => None
    case Some((gs, e)) => if e == |s| then Some(gs) else None
  }

  /** `int(group)`; every group the directives above capture is digits, possibly after one space. */
  function GroupInt(g: string): int {
    match ParseInt(g)
    case Some(n) => n
    case None => 0
  }

  // ---------------------------------------------------------------- dates

  datatype CalendarDate = CalendarDate(year: int, month: int, day: int)

  predicate IsLeapYear(y: int) {
    y % 4 == 0 && (y % 100 != 0 || y % 400 == 0)
  }

  function DaysInMonth(y: int, m: int): int {
    if m == 2 then (if IsLeapYear(y) then 29 else 28)
    else if m == 4 || m == 6 || m == 9 || m == 11 then 30
    else 31
  }

  /** The checks of `datetime.date(year, month, day)`. */
  predicate ValidDate(d: CalendarDate) {
    1 <= d.year <= 9999 && 1 <= d.month <= 12 && 1 <= d.day <= DaysInMonth(d.year, d.month)
  }

  /** `datetime.strptime(s, '%Y%m%d').date()`; `None` stands for `ValueError`. */
  function ParseDate(s: string): (r: Option<CalendarDate>)
    ensures r.Some? ==> ValidDate(r.value)
  {
    match Strptime(s, [Year, Month, Day])
    case None => None
    case Some(g) =>
      var d := CalendarDate(GroupInt(g[0]), GroupInt(g[1]), GroupInt(g[2]));
      if ValidDate(d) then Some(d) else None
  }

  // ---------------------------------------------------------------- times

  /** `'%H%M'` and `'%H%M%S'`. */
  datatype TimeFormat = HourMinute | HourMinuteSecond

  datatype TimeOfDay = TimeOfDay(hour: int, minute: int, second: int)

  /** The checks of `datetime.datetime(1900, 1, 1, hour, minute, second)`. */
  predicate ValidTime(t: TimeOfDay) {
    0 <= t.hour <= 23 && 0 <= t.minute <= 59 && 0 <= t.second <= 59
  }

  function Directives(f: TimeFormat): seq<Directive> {
    if f == HourMinute then [Hour, Minute] else [Hour, Minute, Second]
  }

  /** `datetime.strptime(s, fmt).time()`; `None` stands for `ValueError`. */
  function ParseTime(s: string, f: TimeFormat): (r: Option<TimeOfDay>)
    ensures r.Some? ==> ValidTime(r.value)
  {
    match Strptime(s, Directives(f))
    case None => None
    case Some(g) =>
      var t := TimeOfDay(GroupInt(g[0]), GroupInt(g[1]), if f == HourMinute then 0 else GroupInt(g[2]));
      if ValidTime(t) then Some(t) else None
  }

  // ---------------------------------------------------------------- lemmas

  /** The group texts, one after the other. */
  function Concat(gs: seq<string>): string
    decreases |gs|
  {
    if gs == [] then [] else gs[0] + Concat(gs[1..])
  }

  /** The groups of a match tile the text it consumes: nothing is skipped and nothing is read twice. */
  lemma {:induction false} MatchFromTiles(ds: seq<Directive>, s: string, i: nat)
    requires i <= |s|
    ensures var r := MatchFrom(ds, s, i);
            r.Some? ==> Concat(r.value.0) == s[i..r.value.1]
    decreases |ds|, 0
  {
    if ds != [] {
      TryEachTiles(ds[0], ds[1..], s, i);
    }
  }

  /** The groups of the first alternative that lets the rest match tile the text they consume. */
  lemma {:induction false} TryEachTiles(alts: Directive, rest: seq<Directive>, s: string, i: nat)
    requires i <= |s|
    ensures var r := TryEach(alts, rest, s, i);
            r.Some? ==> Concat(r.value.0) == s[i..r.value.1]
    decreases |rest|, |alts|
  {
    if alts != [] {
      if MatchesAt(alts[0], s, i) {
        var w := |alts[0]|;
        MatchFromTiles(rest, s, i + w);
        match MatchFrom(rest, s, i + w)
        case Some((gs, e)) =>
          assert ([s[i..i + w]] + gs)[1..] == gs;
          assert s[i..i + w] + s[i + w..e] == s[i..e];
        case None =>
          TryEachTiles(alts[1..], rest, s, i);
      } else {
        TryEachTiles(alts[1..], rest, s, i);
      }
    }
  }

  /** The groups `strptime` accepts spell out the whole text. */
  lemma StrptimeTiles(s: string, ds: seq<Directive>)
    ensures Strptime(s, ds).Some? ==> Concat(Strptime(s, ds).value) == s
  {
    MatchFromTiles(ds, s, 0);
  }

  /** When alternative `k` is the first to match and the rest then matches, `TryEach` picks it. */
  lemma {:induction false} PickAlternative(alts: Directive, k: nat, rest: seq<Directive>, s: string, i: nat,
                                           gs: seq<string>, e: nat)
    requires i <= |s| && k < |alts|
    requires forall j :: 0 <= j < k ==> !MatchesAt(alts[j], s, i)
    requires MatchesAt(alts[k], s, i)
    requires MatchFrom(rest, s, i + |alts[k]|) == Some((gs, e))
    ensures TryEach(alts, rest, s, i) == Some(([s[i..i + |alts[k]|]] + gs, e))
    decreases k
  {
    if k > 0 {
      PickAlternative(alts[1..], k - 1, rest, s, i, gs, e);
    }
  }

  lemma TwoDigits(t: string)
    requires |t| == 2 && AllDigits(t)
    ensures DigitsValue(t) == 10 * DigitValue(t[0]) + DigitValue(t[1])
  {
    var h := t[..1];
    assert h[..0] == [] && h[0] == t[0] && t[..|t| - 1] == h;
    assert DigitsValue(h) == DigitValue(t[0]);
  }

  /**
   * A two-digit group in 1..12 (when `mon`) or 1..31 (otherwise) is matched by
   * its two-character alternative, in front of a `rest` that matches from `i + 2`.
   */
  lemma TwoDigitField(d: Directive, rest: seq<Directive>, s: string, i: nat, gs: seq<string>, e: nat)
    requires d == Month || d == Day
    requires i + 2 <= |s| && AllDigits(s[i..i + 2])
    requires d == Month ==> 1 <= DigitsValue(s[i..i + 2]) <= 12
    requires d == Day ==> 1 <= DigitsValue(s[i..i + 2]) <= 31
    requires MatchFrom(rest, s, i + 2) == Some((gs, e))
    ensures TryEach(d, rest, s, i) == Some(([s[i..i + 2]] + gs, e))
  {
    var t := s[i..i + 2];
    TwoDigits(t);
    assert t[0] == s[i] && t[1] == s[i + 1];
    var v := DigitsValue(t);
    if d == Month {
      if v >= 10 {
        PickAlternative(d, 0, rest, s, i, gs, e);
      } else {
        assert !Admits(d[0][0], s[i]);
        PickAlternative(d, 1, rest, s, i, gs, e);
      }
    } else {
      if v >= 30 {
        PickAlternative(d, 0, rest, s, i, gs, e);
      } else if v >= 10 {
        assert !Admits(d[0][0], s[i]);
        PickAlternative(d, 1, rest, s, i, gs, e);
      } else {
        assert !Admits(d[0][0], s[i]) && !Admits(d[1][0], s[i]);
        PickAlternative(d, 2, rest, s, i, gs, e);
      }
    }
  }

  /** A two-digit hour (0..23), minute or second (0..59) is matched by its two-character alternative. */
  lemma TwoDigitClock(d: Directive, rest: seq<Directive>, s: string, i: nat, gs: seq<string>, e: nat)
    requires d == Hour || d == Minute || d == Second
    requires i + 2 <= |s| && AllDigits(s[i..i + 2])
    requires DigitsValue(s[i..i + 2]) <= (if d == Hour then 23 else 59)
    requires MatchFrom(rest, s, i + 2) == Some((gs, e))
    ensures TryEach(d, rest, s, i) == Some(([s[i..i + 2]] + gs, e))
  {
    var t := s[i..i + 2];
    TwoDigits(t);
    assert t[0] == s[i] && t[1] == s[i + 1];
    var v := DigitsValue(t);
    if d == Hour {
      if v >= 20 {
        PickAlternative(d, 0, rest, s, i, gs, e);
      } else {
        assert !Admits(d[0][0], s[i]);
        PickAlternative(d, 1, rest, s, i, gs, e);
      }
    } else if d == Minute {
      PickAlternative(d, 0, rest, s, i, gs, e);
    } else {
      assert !Admits(d[0][0], s[i]);
      PickAlternative(d, 1, rest, s, i, gs, e);
    }
  }

  lemma MatchFromCons(d: Directive, rest: seq<Directive>, s: string, i: nat)
    requires i <= |s|
    ensures MatchFrom([d] + rest, s, i) == TryEach(d, rest, s, i)
  {
    assert ([d] + rest)[0] == d && ([d] + rest)[1..] == rest;
  }

  /** The directives `ds` each take two characters of a run of digits within their ranges. */
  lemma TwoDigitGroups(s: string)
    requires |s| == 8 && AllDigits(s)
    requires 1 <= DigitsValue(s[4..6]) <= 12 && 1 <= DigitsValue(s[6..8]) <= 31
    ensures Strptime(s, [Year, Month, Day]) == Some([s[..4], s[4..6], s[6..8]])
  {
    TwoDigitField(Day, [], s, 6, [], 8);
    MatchFromCons(Day, [], s, 6);
    assert [Day] + [] == [Day] && [s[6..8]] + [] == [s[6..8]];
    TwoDigitField(Month, [Day], s, 4, [s[6..8]], 8);
    MatchFromCons(Month, [Day], s, 4);
    assert [Month] + [Day] == [Month, Day] && [s[4..6]] + [s[6..8]] == [s[4..6], s[6..8]];
    PickAlternative(Year, 0, [Month, Day], s, 0, [s[4..6], s[6..8]], 8);
    MatchFromCons(Year, [Month, Day], s, 0);
    assert [Year] + [Month, Day] == [Year, Month, Day];
    assert [s[0..4]] + [s[4..6], s[6..8]] == [s[..4], s[4..6], s[6..8]];
  }

  /** A `YYYYMMDD` text of eight digits that names a calendar date parses to that date. */
  lemma DateFixedWidth(s: string)
    requires |s| == 8 && AllDigits(s)
    requires ValidDate(CalendarDate(DigitsValue(s[..4]), DigitsValue(s[4..6]), DigitsValue(s[6..])))
    ensures ParseDate(s) == Some(CalendarDate(DigitsValue(s[..4]), DigitsValue(s[4..6]), DigitsValue(s[6..])))
  {
    assert s[6..] == s[6..8];
    TwoDigitGroups(s);
    var g := [s[..4], s[4..6], s[6..8]];
    assert GroupInt(g[0]) == DigitsValue(s[..4]) by {
      ParseDigits(s[..4]);
    }
    assert GroupInt(g[1]) == DigitsValue(s[4..6]) by {
      ParseDigits(s[4..6]);
    }
    assert GroupInt(g[2]) == DigitsValue(s[6..]) by {
      ParseDigits(s[6..8]);
    }
    var d := CalendarDate(GroupInt(g[0]), GroupInt(g[1]), GroupInt(g[2]));
    assert ParseDate(s) == Some(d);
  }

  lemma ClockGroupsHM(s: string)
    requires |s| == 4 && AllDigits(s)
    requires DigitsValue(s[..2]) <= 23 && DigitsValue(s[2..4]) <= 59
    ensures Strptime(s, Directives(HourMinute)) == Some([s[..2], s[2..4]])
  {
    TwoDigitClock(Minute, [], s, 2, [], 4);
    MatchFromCons(Minute, [], s, 2);
    assert [Minute] + [] == [Minute] && [s[2..4]] + [] == [s[2..4]];
    assert s[..2] == s[0..2];
    TwoDigitClock(Hour, [Minute], s, 0, [s[2..4]], 4);
    MatchFromCons(Hour, [Minute], s, 0);
    assert [Hour] + [Minute] == [Hour, Minute] && [s[0..2]] + [s[2..4]] == [s[..2], s[2..4]];
  }

  lemma ClockGroupsHMS(s: string)
    requires |s| == 6 && AllDigits(s)
    requires DigitsValue(s[..2]) <= 23 && DigitsValue(s[2..4]) <= 59 && DigitsValue(s[4..6]) <= 59
    ensures Strptime(s, Directives(HourMinuteSecond)) == Some([s[..2], s[2..4], s[4..6]])
  {
    TwoDigitClock(Second, [], s, 4, [], 6);
    MatchFromCons(Second, [], s, 4);
    assert [Second] + [] == [Second] && [s[4..6]] + [] == [s[4..6]];
    TwoDigitClock(Minute, [Second], s, 2, [s[4..6]], 6);
    MatchFromCons(Minute, [Second], s, 2);
    assert [Minute] + [Second] == [Minute, Second] && [s[2..4]] + [s[4..6]] == [s[2..4], s[4..6]];
    assert s[..2] == s[0..2];
    TwoDigitClock(Hour, [Minute, Second], s, 0, [s[2..4], s[4..6]], 6);
    MatchFromCons(Hour, [Minute, Second], s, 0);
    assert [Hour] + [Minute, Second] == [Hour, Minute, Second];
    assert [s[0..2]] + [s[2..4], s[4..6]] == [s[..2], s[2..4], s[4..6]];
  }

  /** An `HHMM` text of four digits naming a time of day parses to it, with seconds 0. */
  lemma TimeFourDigits(s: string)
    requires |s| == 4 && AllDigits(s)
    requires DigitsValue(s[..2]) <= 23 && DigitsValue(s[2..]) <= 59
    ensures ParseTime(s, HourMinute) == Some(TimeOfDay(DigitsValue(s[..2]), DigitsValue(s[2..]), 0))
  {
    assert s[2..] == s[2..4];
    ClockGroupsHM(s);
    var g := [s[..2], s[2..4]];
    assert GroupInt(g[0]) == DigitsValue(s[..2]) by {
      ParseDigits(s[..2]);
    }
    assert GroupInt(g[1]) == DigitsValue(s[2..]) by {
      ParseDigits(s[2..4]);
    }
    var t := TimeOfDay(GroupInt(g[0]), GroupInt(g[1]), 0);
    assert ValidTime(t);
    assert ParseTime(s, HourMinute) == Some(t);
  }

  /** An `HHMMSS` text of six digits naming a time of day parses to it. */
  lemma TimeSixDigits(s: string)
    requires |s| == 6 && AllDigits(s)
    requires DigitsValue(s[..2]) <= 23 && DigitsValue(s[2..4]) <= 59 && DigitsValue(s[4..]) <= 59
    ensures ParseTime(s, HourMinuteSecond) ==
            Some(TimeOfDay(DigitsValue(s[..2]), DigitsValue(s[2..4]), DigitsValue(s[4..])))
  {
    assert s[4..] == s[4..6];
    ClockGroupsHMS(s);
    var g := [s[..2], s[2..4], s[4..6]];
    assert GroupInt(g[0]) == DigitsValue(s[..2]) by {
      ParseDigits(s[..2]);
    }
    assert GroupInt(g[1]) == DigitsValue(s[2..4]) by {
      ParseDigits(s[2..4]);
    }
    assert GroupInt(g[2]) == DigitsValue(s[4..]) by {
      ParseDigits(s[4..6]);
    }
    var t := TimeOfDay(GroupInt(g[0]), GroupInt(g[1]), GroupInt(g[2]));
    assert ValidTime(t);
    assert ParseTime(s, HourMinuteSecond) == Some(t);
  }
}
