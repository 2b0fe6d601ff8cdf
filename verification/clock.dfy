/**
 The wall-clock instants the application stamps onto records and export
 file names. The clock itself is not modelled: callers pass the instant in.
 Only the two `strftime` formats the application uses are defined here:
 "%Y-%m-%d %H:%M:%S" for a task's creation time and "%Y%m%d_%H%M%S" for the
 export file name.
 */
module Clock {
  import opened Maybe
  import opened Decimal

  /** A local date and time to the second, as `datetime.now()` yields it. */
  datatype Instant = Instant(year: nat, month: nat, day: nat, hour: nat, minute: nat, second: nat)

  predicate IsLeapYear(year: nat) {
    (year % 4 == 0 && year % 100 != 0) || year % 400 == 0
  }

  function DaysInMonth(year: nat, month: nat): nat
    requires 1 <= month <= 12
  {
    if month == 2 then (if IsLeapYear(year) then 29 else 28)
    else if month in {4, 6, 9, 11} then 30
    else 31
  }

  /** The range `datetime` keeps every field in. */
  predicate Valid(t: Instant) {
    && 1 <= t.year <= 9999
    && 1 <= t.month <= 12
    && 1 <= t.day <= DaysInMonth(t.year, t.month)
    && t.hour < 24 && t.minute < 60 && t.second < 60
  }

  type Stamp = t: Instant | Valid(t) witness Instant(1970, 1, 1, 0, 0, 0)

  /** `strftime("%Y-%m-%d %H:%M:%S")`, the `created_at` text of a new task. */
  function CreatedAtText(t: Stamp): (s: string)
    ensures |s| == 19
    ensures s[4] == '-' && s[7] == '-' && s[10] == ' ' && s[13] == ':' && s[16] == ':'
  {
    Fixed(t.year, 4) + "-" + Fixed(t.month, 2) + "-" + Fixed(t.day, 2) + " "
      + Fixed(t.hour, 2) + ":" + Fixed(t.minute, 2) + ":" + Fixed(t.second, 2)
  }

  /** `strftime("%Y%m%d_%H%M%S")`, the stamp in an export file name. */
  function ExportStampText(t: Stamp): (s: string)
    ensures |s| == 15 && s[8] == '_'
    ensures AllDigits(s[..8]) && AllDigits(s[9..])
  {
    var date := Fixed(t.year, 4) + Fixed(t.month, 2) + Fixed(t.day, 2);
    var time := Fixed(t.hour, 2) + Fixed(t.minute, 2) + Fixed(t.second, 2);
    Split3(date, "_", time);
    date + "_" + time
  }

  /** The three parts of a concatenation are its slices at the part boundaries. */
  lemma Split3(a: string, b: string, c: string)
    ensures (a + b + c)[..|a|] == a
    ensures (a + b + c)[|a|..|a| + |b|] == b
    ensures (a + b + c)[|a| + |b|..] == c
  {
    var s := a + b + c;
    assert s[..|a|] == a;
    assert s[|a|..|a| + |b|] == b;
    assert s[|a| + |b|..] == c;
  }

  /** A slice of a slice is a slice of the whole. */
  lemma SubSlice(s: string, i: nat, j: nat, k: nat, l: nat)
    requires i <= j <= |s| && k <= l <= j - i
    ensures s[i..j][k..l] == s[i + k..i + l]
  {
    assert forall m :: 0 <= m < l - k ==> s[i..j][k..l][m] == s[i + k + m];
  }

  /** The export stamp names the instant it was made from: each of its six
      digit fields reads back as the matching field of `t`. */
  lemma ExportStampFields(t: Stamp)
    ensures var s := ExportStampText(t);
      && s[0..4] == Fixed(t.year, 4) && s[4..6] == Fixed(t.month, 2) && s[6..8] == Fixed(t.day, 2)
      && s[9..11] == Fixed(t.hour, 2) && s[11..13] == Fixed(t.minute, 2) && s[13..15] == Fixed(t.second, 2)
      && Value(s[0..4]) == t.year && Value(s[4..6]) == t.month && Value(s[6..8]) == t.day
      && Value(s[9..11]) == t.hour && Value(s[11..13]) == t.minute && Value(s[13..15]) == t.second
  {
    ExportStampSlices(t);
    ValueFixed(t.year, 4);
    ValueFixed(t.month, 2);
    ValueFixed(t.day, 2);
    ValueFixed(t.hour, 2);
    ValueFixed(t.minute, 2);
    ValueFixed(t.second, 2);
  }

  /** Where each field of the instant sits in its export stamp. */
  lemma ExportStampSlices(t: Stamp)
    ensures var s := ExportStampText(t);
      && s[0..4] == Fixed(t.year, 4) && s[4..6] == Fixed(t.month, 2) && s[6..8] == Fixed(t.day, 2)
      && s[9..11] == Fixed(t.hour, 2) && s[11..13] == Fixed(t.minute, 2) && s[13..15] == Fixed(t.second, 2)
  {
    var date := Fixed(t.year, 4) + Fixed(t.month, 2) + Fixed(t.day, 2);
    var time := Fixed(t.hour, 2) + Fixed(t.minute, 2) + Fixed(t.second, 2);
    var s := ExportStampText(t);
    Split3(date, "_", time);
    Split3(Fixed(t.year, 4), Fixed(t.month, 2), Fixed(t.day, 2));
    Split3(Fixed(t.hour, 2), Fixed(t.minute, 2), Fixed(t.second, 2));
    assert s[0..8] == date && s[9..15] == time;
    SubSlice(s, 0, 8, 0, 4);
    SubSlice(s, 0, 8, 4, 6);
    SubSlice(s, 0, 8, 6, 8);
    SubSlice(s, 9, 15, 0, 2);
    SubSlice(s, 9, 15, 2, 4);
    SubSlice(s, 9, 15, 4, 6);
  }

  /** The export stamp is the `created_at` text of the same instant with its
      separators dropped and the date and time joined by an underscore. */
  lemma ExportStampOfCreatedAt(t: Stamp)
    ensures var c := CreatedAtText(t);
      ExportStampText(t) == c[0..4] + c[5..7] + c[8..10] + "_" + c[11..13] + c[14..16] + c[17..19]
  {
    var c := CreatedAtText(t);
    assert c[0..4] == Fixed(t.year, 4) && c[5..7] == Fixed(t.month, 2) && c[8..10] == Fixed(t.day, 2);
    assert c[11..13] == Fixed(t.hour, 2) && c[14..16] == Fixed(t.minute, 2) && c[17..19] == Fixed(t.second, 2);
  }

  /** Distinct instants get distinct export stamps. */
  lemma ExportStampInjective(a: Stamp, b: Stamp)
    requires ExportStampText(a) == ExportStampText(b)
    ensures a == b
  {
    ExportStampFields(a);
    ExportStampFields(b);
  }

  /** The shape of a `CreatedAtText` result: digits with the separators in place. */
  predicate IsCreatedAtShape(s: string) {
    && |s| == 19
    && s[4] == '-' && s[7] == '-' && s[10] == ' ' && s[13] == ':' && s[16] == ':'
    && AllDigits(s[0..4]) && AllDigits(s[5..7]) && AllDigits(s[8..10])
    && AllDigits(s[11..13]) && AllDigits(s[14..16]) && AllDigits(s[17..19])
  }

  /** Reads a `created_at` text back into the instant it names, if it is one. */
  function ParseCreatedAt(s: string): Option<Stamp> {
    if !IsCreatedAtShape(s) then None
    else
      var t := Instant(Value(s[0..4]), Value(s[5..7]), Value(s[8..10]),
                       Value(s[11..13]), Value(s[14..16]), Value(s[17..19]));
      if Valid(t) then var stamp: Stamp := t; Some(stamp) else None
  }

  /** Every instant's `created_at` text reads back as that instant. */
  lemma ParseCreatedAtText(t: Stamp)
    ensures ParseCreatedAt(CreatedAtText(t)) == Some(t)
  {
    var s := CreatedAtText(t);
    assert s[0..4] == Fixed(t.year, 4);
    assert s[5..7] == Fixed(t.month, 2);
    assert s[8..10] == Fixed(t.day, 2);
    assert s[11..13] == Fixed(t.hour, 2);
    assert s[14..16] == Fixed(t.minute, 2);
    assert s[17..19] == Fixed(t.second, 2);
    ValueFixed(t.year, 4);
    ValueFixed(t.month, 2);
    ValueFixed(t.day, 2);
    ValueFixed(t.hour, 2);
    ValueFixed(t.minute, 2);
    ValueFixed(t.second, 2);
  }

  /** A text of the `created_at` shape is its six digit fields joined by
      the five separators. */
  lemma CreatedAtShapeSplits(s: string)
    requires IsCreatedAtShape(s)
    ensures s == s[0..4] + "-" + s[5..7] + "-" + s[8..10] + " " + s[11..13] + ":" + s[14..16] + ":" + s[17..19]
  {
    assert s[4..5] == "-" && s[7..8] == "-" && s[10..11] == " ";
    assert s[13..14] == ":" && s[16..17] == ":";
    assert s == s[0..4] + s[4..5] + s[5..7] + s[7..8] + s[8..10] + s[10..11]
      + s[11..13] + s[13..14] + s[14..16] + s[16..17] + s[17..19];
  }

  /** Every text that reads as an instant is exactly that instant's
      `created_at` text, so the format is a bijection onto its readable texts. */
  lemma CreatedAtTextOfParse(s: string)
    requires ParseCreatedAt(s).Some?
    ensures CreatedAtText(ParseCreatedAt(s).value) == s
  {
    var t := ParseCreatedAt(s).value;
    FixedValue(s[0..4]);
    FixedValue(s[5..7]);
    FixedValue(s[8..10]);
    FixedValue(s[11..13]);
    FixedValue(s[14..16]);
    FixedValue(s[17..19]);
    assert Fixed(t.year, 4) == s[0..4] && Fixed(t.month, 2) == s[5..7] && Fixed(t.day, 2) == s[8..10];
    assert Fixed(t.hour, 2) == s[11..13] && Fixed(t.minute, 2) == s[14..16] && Fixed(t.second, 2) == s[17..19];
    CreatedAtShapeSplits(s);
  }

  /** Distinct instants get distinct `created_at` texts. */
  lemma CreatedAtTextInjective(a: Stamp, b: Stamp)
    requires CreatedAtText(a) == CreatedAtText(b)
    ensures a == b
  {
    ParseCreatedAtText(a);
    ParseCreatedAtText(b);
  }
}
