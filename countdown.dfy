/** `hhmmss_to_text`: a countdown of hours, minutes and seconds turned
    into the phrase shown next to an event. */
module Countdown {
  import opened Wrappers
  import opened Text
  import opened Numerals

  const NowActive := "NOW ACTIVE"

  /** Whole minutes left, rounding up once 30 seconds are left over. */
  function TotalMinutes(h: int, m: int, s: int): int {
    h * 60 + m + (if s >= 30 then 1 else 0)
  }

  /** `f"{n} {word}{'s' if n != 1 else ''}"`. */
  function Counted(n: nat, word: string): (r: string)
    ensures |r| > 0 && IsDigit(r[0])
    ensures '\n' !in word ==> '\n' !in r
  {
    var d := Decimal(n);
    assert '\n' !in d by {
      assert forall i :: 0 <= i < |d| ==> IsDigit(d[i]);
    }
    d + " " + word + (if n != 1 then "s" else "")
  }

  function HhmmssToText(h: int, m: int, s: int): (r: string)
    ensures r == NowActive <==> TotalMinutes(h, m, s) <= 0
    ensures h >= 0 && m >= 0 && s >= 0 ==> (r == NowActive <==> h == 0 && m == 0 && s < 30)
    ensures '\n' !in r
  {
    var minutes := TotalMinutes(h, m, s);
    if minutes <= 0 then NowActive
    else if minutes < 60 then Counted(minutes, "minute")
    else
      var hours := minutes / 60;
      var mins := minutes % 60;
      if mins == 0 then Counted(hours, "hour")
      else Counted(hours, "hour") + " " + Counted(mins, "minute")
  }

  /** What a phrase announces: the event is on, or starts in so many minutes. */
  datatype Timing = Active | StartsIn(minutes: nat)

  /** A positive count written as `str` writes it. */
  function ReadCount(w: string): Option<nat> {
    if Canonical(w) && w[0] != '0' then Some(DecimalValue(w)) else None
  }

  /** `unit` is `word` for a count of one and `word + "s"` for any other. */
  predicate Agrees(n: nat, unit: string, word: string) {
    (n == 1 && unit == word) || (n != 1 && unit == word + "s")
  }

  /** The grammar of countdown phrases, read back to the minutes they
      announce: `NOW ACTIVE`, `<n> minute(s)` with n below 60,
      `<h> hour(s)`, or `<h> hour(s) <n> minute(s)` with n from 1 to 59;
      counts are positive, written without leading zeros, and the unit
      is singular exactly for a count of one. */
  function ReadPhrase(r: string): Option<Timing> {
    if r == NowActive then Some(Active) else ReadWords(Split(r, ' '))
  }

  /** The same grammar over the space-separated words of a phrase. */
  function ReadWords(w: seq<string>): Option<Timing> {
    if |w| == 2 && ReadCount(w[0]).Some? then
      var n := ReadCount(w[0]).value;
      if n < 60 && Agrees(n, w[1], "minute") then Some(StartsIn(n))
      else if Agrees(n, w[1], "hour") then Some(StartsIn(60 * n))
      else None
    else if |w| == 4 && ReadCount(w[0]).Some? && ReadCount(w[2]).Some? then
      var hours, mins := ReadCount(w[0]).value, ReadCount(w[2]).value;
      if mins < 60 && Agrees(hours, w[1], "hour") && Agrees(mins, w[3], "minute")
      then Some(StartsIn(60 * hours + mins))
      else None
    else None
  }

  lemma StartsWithDigit(r: string)
    requires |r| > 0 && IsDigit(r[0])
    ensures r != NowActive
  {
    assert NowActive[0] == 'N';
  }

  lemma DecimalHasNoSpace(n: nat)
    ensures ' ' !in Decimal(n)
  {
    var d := Decimal(n);
    assert forall i :: 0 <= i < |d| ==> IsDigit(d[i]);
  }

  /** A positive numeral written by `str` reads back as its count. */
  lemma ReadCountDecimal(n: nat)
    requires n >= 1
    ensures ReadCount(Decimal(n)) == Some(n)
  {
  }

  /** A counted unit splits into its numeral and its unit word. */
  lemma CountedWords(n: nat, word: string)
    requires ' ' !in word
    ensures Split(Counted(n, word), ' ') == [Decimal(n), word + (if n != 1 then "s" else "")]
  {
    var unit := word + (if n != 1 then "s" else "");
    assert Counted(n, word) == Decimal(n) + [' '] + unit;
    DecimalHasNoSpace(n);
    SplitTwoWords(Decimal(n), unit, ' ');
  }

  /** An hours clause followed by a minutes clause splits into four words. */
  lemma CountedPairWords(hours: nat, mins: nat, hourWord: string, minuteWord: string)
    requires ' ' !in hourWord && ' ' !in minuteWord
    ensures Split(Counted(hours, hourWord) + " " + Counted(mins, minuteWord), ' ')
            == [Decimal(hours), hourWord + (if hours != 1 then "s" else ""),
                Decimal(mins), minuteWord + (if mins != 1 then "s" else "")]
  {
    var a, b := Counted(hours, hourWord), Counted(mins, minuteWord);
    CountedWords(hours, hourWord);
    CountedWords(mins, minuteWord);
    assert a + " " + b == a + [' '] + b;
    SplitAppend(a, b, ' ');
  }

  lemma ReadNowActive()
    ensures ReadPhrase(NowActive) == Some(Active)
  {
  }

  /** A phrase other than `NOW ACTIVE` is read word by word. */
  lemma ReadPhraseWords(r: string, w: seq<string>)
    requires r != NowActive && Split(r, ' ') == w
    ensures ReadPhrase(r) == ReadWords(w)
  {
  }

  lemma ReadHoursAndMinutesWords(hours: nat, mins: nat)
    requires hours >= 1 && 1 <= mins < 60
    ensures ReadWords([Decimal(hours), "hour" + (if hours != 1 then "s" else ""),
                       Decimal(mins), "minute" + (if mins != 1 then "s" else "")])
            == Some(StartsIn(60 * hours + mins))
  {
    ReadCountDecimal(hours);
    ReadCountDecimal(mins);
  }

  lemma ReadHoursAndMinutes(hours: nat, mins: nat)
    requires hours >= 1 && 1 <= mins < 60
    ensures ReadPhrase(Counted(hours, "hour") + " " + Counted(mins, "minute"))
            == Some(StartsIn(60 * hours + mins))
  {
    var r := Counted(hours, "hour") + " " + Counted(mins, "minute");
    var w := [Decimal(hours), "hour" + (if hours != 1 then "s" else ""),
              Decimal(mins), "minute" + (if mins != 1 then "s" else "")];
    assert Split(r, ' ') == w by { CountedPairWords(hours, mins, "hour", "minute"); }
    assert r != NowActive by { StartsWithDigit(r); }
    assert ReadPhrase(r) == ReadWords(w) by { ReadPhraseWords(r, w); }
    assert ReadWords(w) == Some(StartsIn(60 * hours + mins)) by { ReadHoursAndMinutesWords(hours, mins); }
  }

  lemma ReadSingleClause(n: nat, word: string)
    requires n >= 1 && (word == "minute" || word == "hour")
    ensures ReadPhrase(Counted(n, word))
            == ReadWords([Decimal(n), word + (if n != 1 then "s" else "")])
    ensures ReadCount(Decimal(n)) == Some(n)
  {
    var r, w := Counted(n, word), [Decimal(n), word + (if n != 1 then "s" else "")];
    assert Split(r, ' ') == w by { CountedWords(n, word); }
    assert r != NowActive by { StartsWithDigit(r); }
    ReadPhraseWords(r, w);
    ReadCountDecimal(n);
  }

  /** Every phrase reads back, under the grammar above, to exactly the
      rounded number of minutes it was made from. */
  lemma PhraseRoundTrip(h: int, m: int, s: int)
    ensures ReadPhrase(HhmmssToText(h, m, s))
            == Some(if TotalMinutes(h, m, s) <= 0 then Active else StartsIn(TotalMinutes(h, m, s)))
  {
    var minutes := TotalMinutes(h, m, s);
    if minutes <= 0 {
      ReadNowActive();
    } else if minutes < 60 {
      MinutesOnlyRoundTrip(h, m, s);
    } else if minutes % 60 == 0 {
      WholeHoursRoundTrip(h, m, s);
    } else {
      HoursAndMinutesRoundTrip(h, m, s);
    }
  }

  lemma MinutesOnlyRoundTrip(h: int, m: int, s: int)
    requires 0 < TotalMinutes(h, m, s) < 60
    ensures ReadPhrase(HhmmssToText(h, m, s)) == Some(StartsIn(TotalMinutes(h, m, s)))
  {
    var minutes := TotalMinutes(h, m, s);
    var r := HhmmssToText(h, m, s);
    assert r == Counted(minutes, "minute");
    var w := [Decimal(minutes), "minute" + (if minutes != 1 then "s" else "")];
    assert ReadPhrase(r) == ReadWords(w) by { ReadSingleClause(minutes, "minute"); }
    assert ReadWords(w) == Some(StartsIn(minutes)) by { ReadCountDecimal(minutes); }
  }

  lemma WholeHoursRoundTrip(h: int, m: int, s: int)
    requires 60 <= TotalMinutes(h, m, s) && TotalMinutes(h, m, s) % 60 == 0
    ensures ReadPhrase(HhmmssToText(h, m, s)) == Some(StartsIn(TotalMinutes(h, m, s)))
  {
    var minutes := TotalMinutes(h, m, s);
    var hours := minutes / 60;
    var r := HhmmssToText(h, m, s);
    assert r == Counted(hours, "hour");
    assert minutes == 60 * hours;
    var w := [Decimal(hours), "hour" + (if hours != 1 then "s" else "")];
    assert ReadPhrase(r) == ReadWords(w) by { ReadSingleClause(hours, "hour"); }
    assert ReadWords(w) == Some(StartsIn(60 * hours)) by { ReadWholeHoursWords(hours); }
  }

  lemma ReadWholeHoursWords(hours: nat)
    requires hours >= 1
    ensures ReadWords([Decimal(hours), "hour" + (if hours != 1 then "s" else "")]) == Some(StartsIn(60 * hours))
  {
    ReadCountDecimal(hours);
    var unit := "hour" + (if hours != 1 then "s" else "");
    assert !Agrees(hours, unit, "minute") by {
      assert unit[0] == 'h';
    }
  }

  lemma HoursAndMinutesRoundTrip(h: int, m: int, s: int)
    requires 60 <= TotalMinutes(h, m, s) && TotalMinutes(h, m, s) % 60 != 0
    ensures ReadPhrase(HhmmssToText(h, m, s)) == Some(StartsIn(TotalMinutes(h, m, s)))
  {
    var minutes := TotalMinutes(h, m, s);
    var hours, mins := minutes / 60, minutes % 60;
    var r := HhmmssToText(h, m, s);
    assert r == Counted(hours, "hour") + " " + Counted(mins, "minute") by {
      HoursAndMinutesPhrase(h, m, s);
    }
    assert minutes == 60 * hours + mins;
    ReadHoursAndMinutes(hours, mins);
  }

  lemma HoursAndMinutesPhrase(h: int, m: int, s: int)
    requires 60 <= TotalMinutes(h, m, s) && TotalMinutes(h, m, s) % 60 != 0
    ensures HhmmssToText(h, m, s)
            == Counted(TotalMinutes(h, m, s) / 60, "hour") + " " + Counted(TotalMinutes(h, m, s) % 60, "minute")
  {
  }

  /** Two countdowns get the same phrase only when they round to the same
      number of minutes, or are both already due. */
  lemma PhraseDeterminesMinutes(h1: int, m1: int, s1: int, h2: int, m2: int, s2: int)
    requires HhmmssToText(h1, m1, s1) == HhmmssToText(h2, m2, s2)
    ensures TotalMinutes(h1, m1, s1) == TotalMinutes(h2, m2, s2)
            || (TotalMinutes(h1, m1, s1) <= 0 && TotalMinutes(h2, m2, s2) <= 0)
  {
    PhraseRoundTrip(h1, m1, s1);
    PhraseRoundTrip(h2, m2, s2);
  }
}
