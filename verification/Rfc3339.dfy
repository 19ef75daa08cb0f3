/** Splitting of strings at a separator character, as Rust's `split_once` and `splitn` do it. */
module Text {
  import opened Wrappers

  /** The first position of `c`, or the length when there is none. */
  function IndexOf(s: string, c: char): (i: nat)
    ensures i <= |s| && (i < |s| ==> s[i] == c) && forall j | 0 <= j < i :: s[j] != c
  {
    if s == "" || s[0] == c then 0 else 1 + IndexOf(s[1..], c)
  }

  function SplitOnce(s: string, c: char): Option<(string, string)> {
    var i := IndexOf(s, c);
    if i == |s| then None else Some((s[..i], s[i + 1..]))
  }

  function SplitN(s: string, n: nat, c: char): (r: seq<string>)
    requires n >= 1
    ensures 1 <= |r| <= n
    decreases n
  {
    var i := IndexOf(s, c);
    if n == 1 || i == |s| then [s] else [s[..i]] + SplitN(s[i + 1..], n - 1, c)
  }

  lemma IndexOfSeparator(a: string, c: char, b: string)
    requires c !in a
    ensures IndexOf(a + [c] + b, c) == |a|
  {
    var s := a + [c] + b;
    assert s[|a|] == c;
    assert forall j | 0 <= j < |a| :: s[j] == a[j];
  }

  lemma SplitOnceAt(a: string, c: char, b: string)
    requires c !in a
    ensures SplitOnce(a + [c] + b, c) == Some((a, b))
  {
    IndexOfSeparator(a, c, b);
    var s := a + [c] + b;
    assert s[..|a|] == a && s[|a| + 1..] == b;
  }

  lemma SplitNStep(x: string, rest: string, n: nat, c: char)
    requires c !in x && n > 1
    ensures SplitN(x + [c] + rest, n, c) == [x] + SplitN(rest, n - 1, c)
  {
    IndexOfSeparator(x, c, rest);
    var s := x + [c] + rest;
    assert s[..|x|] == x && s[|x| + 1..] == rest;
  }

  lemma SplitThree(x: string, y: string, z: string, c: char)
    requires c !in x && c !in y && c !in z
    ensures SplitN(x + [c] + y + [c] + z, 4, c) == [x, y, z]
  {
    assert x + [c] + y + [c] + z == x + [c] + (y + [c] + z);
    SplitNStep(x, y + [c] + z, 4, c);
    SplitNStep(y, z, 3, c);
    assert IndexOf(z, c) == |z|;
  }
}

/** The time parser of the command line and the time printer of the safety log. */
module Rfc3339 {
  import opened Wrappers
  import opened Text
  import opened CivilDate
  import Decimal

  const TWO_63: int := 0x8000_0000_0000_0000
  const TWO_64: int := 0x1_0000_0000_0000_0000
  const MAX_U32: int := 0xFFFF_FFFF

  /** Two's complement wrap-around to 64 bits. */
  function Wrap64(x: int): int { (x + TWO_63) % TWO_64 - TWO_63 }

  /** A date and a time of day, not necessarily real ones. */
  datatype Stamp = Stamp(date: Date, h: int, mn: int, sec: int)

  // ----- Parsing -----

  /** `str::parse::<i64>`: an optional sign and decimal digits, in range. */
  function ParseI64(s: string): Option<int> {
    var signed := s != "" && (s[0] == '-' || s[0] == '+');
    var digits := if signed then s[1..] else s;
    if digits == "" || !Decimal.AllDigits(digits) then None
    else
      var n: int := Decimal.Value(digits);
      var v := if signed && s[0] == '-' then -n else n;
      if -TWO_63 <= v < TWO_63 then Some(v) else None
  }

  function StripSuffix(s: string, suffix: string): Option<string> {
    if |s| >= |suffix| && s[|s| - |suffix|..] == suffix then Some(s[..|s| - |suffix|]) else None
  }

  function StripZone(s: string): Option<string> {
    match StripSuffix(s, "Z")
    case Some(t) => Some(t)
    case None => StripSuffix(s, "+00:00")
  }

  function ParseThree(s: string, c: char): Option<(int, int, int)> {
    var parts := SplitN(s, 4, c);
    if |parts| != 3 then None
    else
      match (ParseI64(parts[0]), ParseI64(parts[1]), ParseI64(parts[2]))
      case (Some(x), Some(y), Some(z)) => Some((x, y, z))
      case _ => None
  }

  /** The fields of date and time, up to and including the range checks. */
  function ParseFields(datePart: string, timePart: string): Option<Stamp> {
    if |timePart| < 8 then None
    else
      match (ParseThree(datePart, '-'), ParseThree(timePart, ':'))
      case (Some((y, m, d)), Some((h, mn, sec))) =>
        if !(1 <= m <= 12) || !(1 <= d <= 31) || h > 23 || mn > 59 || sec > 60 then None
        else Some(Stamp(Date(y, m, d), h, mn, sec))
      case _ => None
  }

  /** A time text without its zone: the fraction of the second is cut off. */
  function ParseBody(body: string): Option<Stamp> {
    match SplitOnce(body, 'T')
    case None => None
    case Some((datePart, timeAndFrac)) => ParseFields(datePart, timeAndFrac[..IndexOf(timeAndFrac, '.')])
  }

  function ParseStamp(s: string): Option<Stamp> {
    match StripZone(s)
    case None => None
    case Some(body) => ParseBody(body)
  }

  function StampSeconds(t: Stamp): int {
    DaysFromCivil(t.date) * 86400 + t.h * 3600 + t.mn * 60 + t.sec
  }

  function Rfc3339ToUnix(s: string): Option<int> {
    match ParseStamp(s)
    case None => None
    case Some(t) => Some(Wrap64(StampSeconds(t)))
  }

  /** Whole hours from `epoch` to `now`, when they fit 32 bits. */
  function HoursBetween(epoch: int, now: int): Option<int> {
    if epoch > now then None
    else
      var hours := TruncDiv(now - epoch, 3600);
      if hours <= MAX_U32 then Some(hours) else None
  }

  /** Whole hours since the moment `s`, on a clock that shows `now`. */
  function SinceToHours(s: string, now: int): Option<int> {
    match Rfc3339ToUnix(s)
    case None => None
    case Some(epoch) => HoursBetween(epoch, now)
  }

  // ----- Printing -----

  function Zeros(n: nat): string { seq(n, _ => '0') }

  /** A number printed with leading zeros to at least `width` digits. */
  function Padded(n: nat, width: nat): string {
    var s := Decimal.Print(n);
    if |s| >= width then s else Zeros(width - |s|) + s
  }

  predicate Printable(t: Stamp) {
    t.date.y >= 0 && t.date.m >= 0 && t.date.d >= 0 && t.h >= 0 && t.mn >= 0 && t.sec >= 0
  }

  function DateText(c: Date): string
    requires c.y >= 0 && c.m >= 0 && c.d >= 0
  {
    Padded(c.y, 4) + "-" + Padded(c.m, 2) + "-" + Padded(c.d, 2)
  }

  function TimeText(h: nat, mn: nat, sec: nat): string { Padded(h, 2) + ":" + Padded(mn, 2) + ":" + Padded(sec, 2) }

  function PrintStamp(t: Stamp): string
    requires Printable(t)
  {
    DateText(t.date) + "T" + TimeText(t.h, t.mn, t.sec) + "Z"
  }

  function StampFromUnix(secs: nat): (t: Stamp) {
    var tod := secs % 86400;
    Stamp(CivilFromDays(secs / 86400), tod / 3600, tod % 3600 / 60, tod % 60)
  }

  lemma TimeOfDay(tod: nat)
    requires tod < 86400
    ensures tod == tod / 3600 * 3600 + tod % 3600 / 60 * 60 + tod % 60
  {
    var h, r := tod / 3600, tod % 3600;
    assert tod == 3600 * h + r;
    assert tod % 60 == r % 60;
  }

  lemma StampFromUnixIsReal(secs: nat)
    ensures var t := StampFromUnix(secs);
            && ValidDate(t.date) && t.date.y >= 1970
            && 0 <= t.h <= 23 && 0 <= t.mn <= 59 && 0 <= t.sec <= 59
            && StampSeconds(t) == secs
  {
    CivilFromDaysInverts(secs / 86400);
    FromEpoch(CivilFromDays(secs / 86400));
    TimeOfDay(secs % 86400);
  }

  function FormatRfc3339(secs: nat): string {
    StampFromUnixIsReal(secs);
    PrintStamp(StampFromUnix(secs))
  }

  // ----- A printed time is read back -----

  lemma {:induction false} LeadingZeros(k: nat, s: string)
    requires Decimal.AllDigits(s)
    ensures Decimal.AllDigits(Zeros(k) + s) && Decimal.Value(Zeros(k) + s) == Decimal.Value(s)
    decreases k + |s|
  {
    var z := Zeros(k) + s;
    if s != "" {
      assert z[..|z| - 1] == Zeros(k) + s[..|s| - 1];
      LeadingZeros(k, s[..|s| - 1]);
    } else if k > 0 {
      assert z[..|z| - 1] == Zeros(k - 1) + s;
      LeadingZeros(k - 1, s);
    }
  }

  lemma PaddedShape(n: nat, width: nat)
    ensures var p := Padded(n, width);
            Decimal.AllDigits(p) && p != "" && Decimal.Value(p) == n && |p| >= width
  {
    var s := Decimal.Print(n);
    Decimal.ValueOfPrint(n);
    if |s| < width {
      LeadingZeros(width - |s|, s);
    }
  }

  lemma ParsePadded(n: nat, width: nat)
    ensures ParseI64(Padded(n, width)) == if n < TWO_63 then Some(n) else None
    ensures forall c | !Decimal.IsDigit(c) :: c !in Padded(n, width)
  {
    PaddedShape(n, width);
    var p := Padded(n, width);
    assert Decimal.IsDigit(p[0]);
  }

  lemma ParseThreePadded(x: nat, wx: nat, y: nat, wy: nat, z: nat, wz: nat, c: char)
    requires x < TWO_63 && y < TWO_63 && z < TWO_63 && !Decimal.IsDigit(c)
    ensures ParseThree(Padded(x, wx) + [c] + Padded(y, wy) + [c] + Padded(z, wz), c) == Some((x, y, z))
  {
    ParsePadded(x, wx);
    ParsePadded(y, wy);
    ParsePadded(z, wz);
    SplitThree(Padded(x, wx), Padded(y, wy), Padded(z, wz), c);
  }

  predicate InRange(t: Stamp) {
    && 0 <= t.date.y < TWO_63 && 1 <= t.date.m <= 12 && 1 <= t.date.d <= 31
    && 0 <= t.h <= 23 && 0 <= t.mn <= 59 && 0 <= t.sec <= 60
  }

  lemma ZoneStripped(body: string)
    ensures StripZone(body + "Z") == Some(body) && StripZone(body + "+00:00") == Some(body)
  {
    assert (body + "+00:00")[|body|..] == "+00:00";
    assert (body + "Z")[|body|..] == "Z";
    assert (body + "+00:00")[|body| + 5..] == "0";
  }

  lemma BodyParts(date: string, time: string, fraction: string)
    requires 'T' !in date && '.' !in time
    ensures ParseBody(date + "T" + time) == ParseFields(date, time)
    ensures ParseBody(date + "T" + (time + "." + fraction)) == ParseFields(date, time)
  {
    SplitOnceAt(date, 'T', time);
    SplitOnceAt(date, 'T', time + "." + fraction);
    IndexOfSeparator(time, '.', fraction);
    assert (time + "." + fraction)[..|time|] == time;
    assert IndexOf(time, '.') == |time| && time[..|time|] == time;
  }

  lemma DigitsOnly(t: Stamp, c: char)
    requires InRange(t) && !Decimal.IsDigit(c)
    ensures c !in Padded(t.date.y, 4) && c !in Padded(t.date.m, 2) && c !in Padded(t.date.d, 2)
    ensures c !in Padded(t.h, 2) && c !in Padded(t.mn, 2) && c !in Padded(t.sec, 2)
  {
    ParsePadded(t.date.y, 4);
    ParsePadded(t.date.m, 2);
    ParsePadded(t.date.d, 2);
    ParsePadded(t.h, 2);
    ParsePadded(t.mn, 2);
    ParsePadded(t.sec, 2);
  }

  lemma DateTextParses(c: Date)
    requires 0 <= c.y < TWO_63 && 1 <= c.m <= 12 && 1 <= c.d <= 31
    ensures 'T' !in DateText(c) && ParseThree(DateText(c), '-') == Some((c.y, c.m, c.d))
  {
    DigitsOnly(Stamp(c, 0, 0, 0), 'T');
    ParseThreePadded(c.y, 4, c.m, 2, c.d, 2, '-');
  }

  lemma TimeTextParses(h: nat, mn: nat, sec: nat)
    requires h < TWO_63 && mn < TWO_63 && sec < TWO_63
    ensures var time := TimeText(h, mn, sec);
            '.' !in time && |time| >= 8 && ParseThree(time, ':') == Some((h, mn, sec))
  {
    ParsePadded(h, 2);
    ParsePadded(mn, 2);
    ParsePadded(sec, 2);
    PaddedShape(h, 2);
    PaddedShape(mn, 2);
    PaddedShape(sec, 2);
    ParseThreePadded(h, 2, mn, 2, sec, 2, ':');
    NoDotInThree(Padded(h, 2), Padded(mn, 2), Padded(sec, 2));
  }

  lemma NoDotInThree(a: string, b: string, c: string)
    requires '.' !in a && '.' !in b && '.' !in c
    ensures '.' !in a + ":" + b + ":" + c && |a + ":" + b + ":" + c| == |a| + |b| + |c| + 2
  {
  }

  /** Printing is undone by parsing, for all fields that pass the parser's range checks. */
  lemma ParsePrinted(t: Stamp)
    requires InRange(t)
    ensures ParseStamp(PrintStamp(t)) == Some(t)
  {
    var date, time := DateText(t.date), TimeText(t.h, t.mn, t.sec);
    DateTextParses(t.date);
    TimeTextParses(t.h, t.mn, t.sec);
    ZoneStripped(date + "T" + time);
    BodyParts(date, time, "");
  }

  lemma YearFits(secs: nat)
    requires secs < TWO_64
    ensures InRange(StampFromUnix(secs))
  {
    StampFromUnixIsReal(secs);
    var c := StampFromUnix(secs).date;
    ClosedForm(c);
    var z := if c.m > 2 then c.y else c.y - 1;
    assert 365 * z <= MarchDays(z);
  }

  lemma WrapIsIdentity(x: nat)
    requires x < TWO_64
    ensures Wrap64(x) == x <==> x < TWO_63
    ensures Wrap64(x) != x ==> Wrap64(x) < 0
  {
  }

  /** Printing then parsing a time: the identity exactly for the times that fit a signed 64-bit number. */
  lemma ParseOfFormat(secs: nat)
    requires secs < TWO_64
    ensures Rfc3339ToUnix(FormatRfc3339(secs)) == Some(Wrap64(secs))
    ensures Rfc3339ToUnix(FormatRfc3339(secs)) == Some(secs) <==> secs < TWO_63
  {
    StampFromUnixIsReal(secs);
    YearFits(secs);
    ParsePrinted(StampFromUnix(secs));
    WrapIsIdentity(secs);
  }

  /** The bound is sharp: the first number of seconds beyond it comes back as the most negative one. */
  lemma FirstLostMoment()
    ensures Rfc3339ToUnix(FormatRfc3339(TWO_63)) == Some(-TWO_63)
  {
    ParseOfFormat(TWO_63);
  }

  lemma StampRestored(t: Stamp)
    requires InRange(t) && t.date.y >= 1970 && ValidDate(t.date) && t.sec <= 59
    ensures StampSeconds(t) >= 0 && StampFromUnix(StampSeconds(t)) == t
  {
    FromEpoch(t.date);
    DaysFromCivilInverts(t.date);
    TimeParts(t.h, t.mn, t.sec);
    DayParts(DaysFromCivil(t.date), t.h * 3600 + t.mn * 60 + t.sec);
  }

  lemma TimeParts(h: int, mn: int, sec: int)
    requires 0 <= h <= 23 && 0 <= mn <= 59 && 0 <= sec <= 59
    ensures var tod := h * 3600 + mn * 60 + sec;
            0 <= tod < 86400 && tod / 3600 == h && tod % 3600 / 60 == mn && tod % 60 == sec
  {
    assert (h * 3600 + mn * 60 + sec) % 3600 == mn * 60 + sec;
  }

  lemma DayParts(days: nat, tod: nat)
    requires tod < 86400
    ensures var secs := days * 86400 + tod; secs / 86400 == days && secs % 86400 == tod
  {
  }

  /** Parsing then printing restores the text of a time from 1970 on exactly when its date is in the
      calendar and it is not a leap second; the parser accepts the others and moves them. */
  lemma FormatOfParse(t: Stamp)
    requires InRange(t) && t.date.y >= 1970 && StampSeconds(t) < TWO_63
    ensures StampSeconds(t) >= 0 && Rfc3339ToUnix(PrintStamp(t)) == Some(StampSeconds(t))
    ensures FormatRfc3339(StampSeconds(t)) == PrintStamp(t) <==> ValidDate(t.date) && t.sec <= 59
  {
    ParsePrinted(t);
    NotBeforeEpoch(t.date);
    var secs: nat := StampSeconds(t);
    WrapIsIdentity(secs);
    if ValidDate(t.date) && t.sec <= 59 {
      StampRestored(t);
    }
    if FormatRfc3339(secs) == PrintStamp(t) {
      YearFits(secs);
      ParsePrinted(StampFromUnix(secs));
      StampFromUnixIsReal(secs);
    }
  }

  /** `s` is the printed form of the real moment `t`. */
  predicate Prints(s: string, t: Stamp) {
    && InRange(t) && t.date.y >= 1970 && ValidDate(t.date) && t.sec <= 59 && StampSeconds(t) < TWO_63
    && s == PrintStamp(t)
  }

  /** Of all texts that the parser accepts, exactly the printed forms of real moments are restored by printing. */
  lemma FormatOfAccepted(s: string, secs: nat)
    requires Rfc3339ToUnix(s) == Some(secs)
    ensures FormatRfc3339(secs) == s <==> exists t :: Prints(s, t)
  {
    assert secs < TWO_63;
    if FormatRfc3339(secs) == s {
      StampFromUnixIsReal(secs);
      YearFits(secs);
      assert Prints(s, StampFromUnix(secs));
    }
    if t :| Prints(s, t) {
      FormatOfParse(t);
    }
  }

  // ----- What else the parser accepts -----

  /** Two texts of one moment, the second of them real: printing gives the second. */
  lemma MovedTo(t: Stamp, moment: Stamp)
    requires InRange(t) && t.date.y >= 1970 && StampSeconds(t) == StampSeconds(moment) < TWO_63
    requires InRange(moment) && moment.date.y >= 1970 && ValidDate(moment.date) && moment.sec <= 59
    ensures StampSeconds(t) >= 0 && Rfc3339ToUnix(PrintStamp(t)) == Some(StampSeconds(t))
    ensures StampFromUnix(StampSeconds(t)) == moment
  {
    ParsePrinted(t);
    NotBeforeEpoch(t.date);
    WrapIsIdentity(StampSeconds(t));
    StampRestored(moment);
  }

  lemma SomeDays()
    ensures DaysFromCivil(Date(2023, 2, 31)) == 19419 == DaysFromCivil(Date(2023, 3, 3))
    ensures DaysFromCivil(Date(2016, 12, 31)) == 17166 && DaysFromCivil(Date(2017, 1, 1)) == 17167
  {
  }

  /** Witnesses: the 31st of February is taken for the 3rd of March, a leap second for the midnight after it. */
  lemma FebruaryMovesToMarch()
    ensures var t, moment := Stamp(Date(2023, 2, 31), 0, 0, 0), Stamp(Date(2023, 3, 3), 0, 0, 0);
            && StampSeconds(t) >= 0 && Rfc3339ToUnix(PrintStamp(t)) == Some(StampSeconds(t))
            && StampFromUnix(StampSeconds(t)) == moment
  {
    SomeDays();
    MovedTo(Stamp(Date(2023, 2, 31), 0, 0, 0), Stamp(Date(2023, 3, 3), 0, 0, 0));
  }

  lemma LeapSecondMovesToMidnight()
    ensures var t, moment := Stamp(Date(2016, 12, 31), 23, 59, 60), Stamp(Date(2017, 1, 1), 0, 0, 0);
            && StampSeconds(t) >= 0 && Rfc3339ToUnix(PrintStamp(t)) == Some(StampSeconds(t))
            && StampFromUnix(StampSeconds(t)) == moment
  {
    SomeDays();
    MovedTo(Stamp(Date(2016, 12, 31), 23, 59, 60), Stamp(Date(2017, 1, 1), 0, 0, 0));
  }

  /** A number with a sign when it is negative. */
  function Signed(x: int, width: nat): string { if x < 0 then "-" + Padded(-x, width) else Padded(x, width) }

  function PrintSigned(t: Stamp): string
    requires t.date.y >= 0 && t.date.m >= 0 && t.date.d >= 0
  {
    DateText(t.date) + "T" + SignedTime(t.h, t.mn, t.sec) + "Z"
  }

  lemma ParseSigned(x: int, width: nat)
    requires -TWO_63 <= x < TWO_63
    ensures ParseI64(Signed(x, width)) == Some(x) && |Signed(x, width)| >= width
    ensures '.' !in Signed(x, width) && ':' !in Signed(x, width)
  {
    var n := if x < 0 then -x else x;
    PaddedShape(n, width);
    ParsePadded(n, width);
    if x < 0 {
      assert Signed(x, width)[1..] == Padded(n, width);
    } else {
      assert Decimal.IsDigit(Padded(n, width)[0]);
    }
  }

  lemma ParseThreeSigned(x: int, y: int, z: int)
    requires -TWO_63 <= x < TWO_63 && -TWO_63 <= y < TWO_63 && -TWO_63 <= z < TWO_63
    ensures ParseThree(Signed(x, 2) + ":" + Signed(y, 2) + ":" + Signed(z, 2), ':') == Some((x, y, z))
  {
    ParseSigned(x, 2);
    ParseSigned(y, 2);
    ParseSigned(z, 2);
    SplitThree(Signed(x, 2), Signed(y, 2), Signed(z, 2), ':');
  }

  /** The ranges that the parser really checks: the fields of the time have no lower bound. */
  predicate Accepted(t: Stamp) {
    && 0 <= t.date.y < TWO_63 && 1 <= t.date.m <= 12 && 1 <= t.date.d <= 31
    && -TWO_63 <= t.h <= 23 && -TWO_63 <= t.mn <= 59 && -TWO_63 <= t.sec <= 60
  }

  function SignedTime(h: int, mn: int, sec: int): string { Signed(h, 2) + ":" + Signed(mn, 2) + ":" + Signed(sec, 2) }

  lemma SignedTimeParses(h: int, mn: int, sec: int)
    requires -TWO_63 <= h < TWO_63 && -TWO_63 <= mn < TWO_63 && -TWO_63 <= sec < TWO_63
    ensures var time := SignedTime(h, mn, sec);
            '.' !in time && |time| >= 8 && ParseThree(time, ':') == Some((h, mn, sec))
  {
    ParseSigned(h, 2);
    ParseSigned(mn, 2);
    ParseSigned(sec, 2);
    ParseThreeSigned(h, mn, sec);
    NoDotInThree(Signed(h, 2), Signed(mn, 2), Signed(sec, 2));
  }

  lemma ParsePrintedSigned(t: Stamp)
    requires Accepted(t)
    ensures ParseStamp(PrintSigned(t)) == Some(t)
  {
    var date, time := DateText(t.date), SignedTime(t.h, t.mn, t.sec);
    DateTextParses(t.date);
    SignedTimeParses(t.h, t.mn, t.sec);
    ZoneStripped(date + "T" + time);
    BodyParts(date, time, "");
  }

  /** Negative hours, minutes and seconds are accepted, and never restored. */
  lemma NegativeFieldsAccepted(t: Stamp)
    requires Accepted(t)
    ensures Rfc3339ToUnix(PrintSigned(t)) == Some(Wrap64(StampSeconds(t)))
    ensures Wrap64(StampSeconds(t)) >= 0 && (t.h < 0 || t.mn < 0 || t.sec < 0) ==>
              FormatRfc3339(Wrap64(StampSeconds(t))) != PrintSigned(t)
  {
    ParsePrintedSigned(t);
    var v := Wrap64(StampSeconds(t));
    if v >= 0 {
      YearFits(v);
      ParsePrinted(StampFromUnix(v));
      StampFromUnixIsReal(v);
    }
  }

  /** Both spellings of the zone mean the same. */
  lemma ZonesAgree(body: string)
    ensures Rfc3339ToUnix(body + "Z") == Rfc3339ToUnix(body + "+00:00")
  {
    ZoneStripped(body);
  }

  /** Fractions of a second are dropped. */
  lemma FractionDropped(date: string, time: string, fraction: string)
    requires 'T' !in date && '.' !in time
    ensures Rfc3339ToUnix(date + "T" + (time + "." + fraction) + "Z") == Rfc3339ToUnix(date + "T" + time + "Z")
  {
    ZoneStripped(date + "T" + time);
    ZoneStripped(date + "T" + (time + "." + fraction));
    BodyParts(date, time, fraction);
  }

  lemma NotBeforeEpoch(c: Date)
    requires c.y >= 1970 && 1 <= c.m <= 12 && 1 <= c.d <= 31
    ensures DaysFromCivil(c) >= 0
  {
    FromEpoch(Date(c.y, c.m, 1));
    ClosedForm(c);
    ClosedForm(Date(c.y, c.m, 1));
  }

  lemma WholeHours(epoch: nat, now: nat)
    ensures var r := HoursBetween(epoch, now);
            && (r.None? <==> epoch > now || (now - epoch) / 3600 > MAX_U32)
            && (r.Some? ==> r.value == (now - epoch) / 3600 && r.value * 3600 <= now - epoch < (r.value + 1) * 3600)
  {
  }

  lemma HoursSince(s: string, epoch: int, now: int)
    requires Rfc3339ToUnix(s) == Some(epoch)
    ensures SinceToHours(s, now) == HoursBetween(epoch, now)
  {
  }

  /** The hours since a printed time: none for a future time, otherwise whole hours, when they fit. */
  lemma SinceToHoursOfFormat(secs: nat, now: nat)
    requires secs < TWO_63 && now < TWO_63
    ensures var r := SinceToHours(FormatRfc3339(secs), now);
            && (r.None? <==> secs > now || (now - secs) / 3600 > 4294967295)
            && (r.Some? ==> r.value == (now - secs) / 3600 && r.value * 3600 <= now - secs < (r.value + 1) * 3600)
  {
    ParseOfFormat(secs);
    HoursSince(FormatRfc3339(secs), secs, now);
    WholeHours(secs, now);
  }

  // ----- Exactly what the parser accepts -----

  /** The pieces of a time text. */
  datatype Parts = Parts(y: string, m: string, d: string, h: string, mn: string, sec: string,
                         tail: string, zone: string)

  function DatePart(p: Parts): string { p.y + ['-'] + p.m + ['-'] + p.d }

  function TimePart(p: Parts): string { p.h + [':'] + p.mn + [':'] + p.sec }

  function WholeText(p: Parts): string { DatePart(p) + ['T'] + (TimePart(p) + p.tail) + p.zone }

  /** Decimal digits behind at most one sign, for a number of 64 bits. */
  predicate Number(s: string, n: int) {
    s != "" &&
    var digits := if s[0] == '-' || s[0] == '+' then s[1..] else s;
    && digits != "" && Decimal.AllDigits(digits)
    && n == (if s[0] == '-' then 0 - Decimal.Value(digits) else Decimal.Value(digits))
    && -0x8000_0000_0000_0000 <= n < 0x8000_0000_0000_0000
  }

  /** Six numbers, a tail that is empty or starts with a point, and a zone, with the fields in the ranges that are
      checked: the date without signs of its own, no lower bounds on the time, at least eight characters of time. */
  predicate Spelled(p: Parts, t: Stamp) {
    && Number(p.y, t.date.y) && Number(p.m, t.date.m) && Number(p.d, t.date.d)
    && Number(p.h, t.h) && Number(p.mn, t.mn) && Number(p.sec, t.sec)
    && '-' !in p.y && '-' !in p.m && '-' !in p.d
    && (p.tail == "" || p.tail[0] == '.') && (p.zone == "Z" || p.zone == "+00:00")
    && 1 <= t.date.m <= 12 && 1 <= t.date.d <= 31 && t.h <= 23 && t.mn <= 59 && t.sec <= 60
    && |p.h| + |p.mn| + |p.sec| >= 6
  }

  lemma NumberParses(s: string, n: int)
    ensures Number(s, n) <==> ParseI64(s) == Some(n)
    ensures Number(s, n) ==> forall c | c in s :: Decimal.IsDigit(c) || c == '-' || c == '+'
  {
    if Number(s, n) {
      var digits := if s[0] == '-' || s[0] == '+' then s[1..] else s;
      assert s == digits || s == [s[0]] + digits;
    }
  }

  lemma ThreeParse(x: string, y: string, z: string, a: int, b: int, d: int, c: char)
    requires Number(x, a) && Number(y, b) && Number(z, d) && c !in x && c !in y && c !in z
    ensures ParseThree(x + [c] + y + [c] + z, c) == Some((a, b, d))
  {
    NumberParses(x, a);
    NumberParses(y, b);
    NumberParses(z, d);
    SplitThree(x, y, z, c);
  }

  lemma NumberHolds(s: string, n: int, c: char)
    requires Number(s, n) && !Decimal.IsDigit(c) && c != '-' && c != '+'
    ensures c !in s
  {
    NumberParses(s, n);
  }

  lemma NoneInThree(x: string, y: string, z: string, separator: char, c: char)
    requires c !in x && c !in y && c !in z && c != separator
    ensures c !in x + [separator] + y + [separator] + z
  {
  }

  lemma DateParses(p: Parts, t: Stamp)
    requires Spelled(p, t)
    ensures 'T' !in DatePart(p) && ParseThree(DatePart(p), '-') == Some((t.date.y, t.date.m, t.date.d))
  {
    NumberHolds(p.y, t.date.y, 'T');
    NumberHolds(p.m, t.date.m, 'T');
    NumberHolds(p.d, t.date.d, 'T');
    NoneInThree(p.y, p.m, p.d, '-', 'T');
    ThreeParse(p.y, p.m, p.d, t.date.y, t.date.m, t.date.d, '-');
  }

  lemma TimeHolds(p: Parts, t: Stamp, c: char)
    requires Spelled(p, t) && !Decimal.IsDigit(c) && c != '-' && c != '+'
    ensures c !in p.h && c !in p.mn && c !in p.sec
  {
    NumberHolds(p.h, t.h, c);
    NumberHolds(p.mn, t.mn, c);
    NumberHolds(p.sec, t.sec, c);
  }

  lemma TimeParses(p: Parts, t: Stamp)
    requires Spelled(p, t)
    ensures '.' !in TimePart(p) && |TimePart(p)| >= 8 && ParseThree(TimePart(p), ':') == Some((t.h, t.mn, t.sec))
  {
    TimeHolds(p, t, '.');
    TimeHolds(p, t, ':');
    NoneInThree(p.h, p.mn, p.sec, ':', '.');
    ThreeParse(p.h, p.mn, p.sec, t.h, t.mn, t.sec, ':');
  }

  lemma BodyWithTail(date: string, time: string, tail: string)
    requires 'T' !in date && '.' !in time && (tail == "" || tail[0] == '.')
    ensures ParseBody(date + ['T'] + (time + tail)) == ParseFields(date, time)
  {
    if tail == "" {
      assert time + tail == time;
      BodyParts(date, time, "");
    } else {
      assert tail == "." + tail[1..] && time + tail == time + "." + tail[1..];
      BodyParts(date, time, tail[1..]);
    }
  }

  lemma FieldsParse(date: string, time: string, t: Stamp)
    requires |time| >= 8 && ParseThree(date, '-') == Some((t.date.y, t.date.m, t.date.d))
    requires ParseThree(time, ':') == Some((t.h, t.mn, t.sec))
    requires 1 <= t.date.m <= 12 && 1 <= t.date.d <= 31 && t.h <= 23 && t.mn <= 59 && t.sec <= 60
    ensures ParseFields(date, time) == Some(t)
  {
  }

  lemma SpelledParses(p: Parts, t: Stamp)
    requires Spelled(p, t)
    ensures ParseStamp(WholeText(p)) == Some(t)
  {
    DateParses(p, t);
    TimeParses(p, t);
    ZoneStripped(DatePart(p) + ['T'] + (TimePart(p) + p.tail));
    BodyWithTail(DatePart(p), TimePart(p), p.tail);
    FieldsParse(DatePart(p), TimePart(p), t);
  }

  lemma ZoneOf(s: string) returns (zone: string)
    requires StripZone(s).Some?
    ensures s == StripZone(s).value + zone && (zone == "Z" || zone == "+00:00")
  {
    zone := if StripSuffix(s, "Z").Some? then "Z" else "+00:00";
  }

  /** The first piece of a split, and the text that the other pieces come from. */
  lemma SplitFirstOff(s: string, n: nat, c: char) returns (rest: string)
    requires n > 1 && |SplitN(s, n, c)| > 1
    ensures var ps := SplitN(s, n, c);
            s == ps[0] + [c] + rest && c !in ps[0] && ps[1..] == SplitN(rest, n - 1, c)
  {
    var i := IndexOf(s, c);
    rest := s[i + 1..];
    assert s == s[..i] + [c] + rest;
  }

  lemma SplitOff(s: string, n: nat, c: char)
    requires n > 1 && |SplitN(s, n, c)| == 1
    ensures SplitN(s, n, c)[0] == s && c !in s
  {
  }

  lemma Ungrouped(x: string, c: string, y: string, z: string)
    ensures x + c + (y + c + z) == x + c + y + c + z
  {
  }

  lemma SplitIntoThree(s: string, c: char)
    requires |SplitN(s, 4, c)| == 3
    ensures var ps := SplitN(s, 4, c);
            s == ps[0] + [c] + ps[1] + [c] + ps[2] && c !in ps[0] && c !in ps[1] && c !in ps[2]
  {
    var ps := SplitN(s, 4, c);
    var s1 := SplitFirstOff(s, 4, c);
    var s2 := SplitFirstOff(s1, 3, c);
    SplitOff(s2, 2, c);
    assert ps[1] == ps[1..][0] && ps[2] == ps[1..][1..][0];
    Ungrouped(ps[0], [c], ps[1], ps[2]);
  }

  lemma ThreeOf(s: string, c: char) returns (ps: seq<string>)
    requires ParseThree(s, c).Some?
    ensures |ps| == 3 && s == ps[0] + [c] + ps[1] + [c] + ps[2] && c !in ps[0] && c !in ps[1] && c !in ps[2]
    ensures var (x, y, z) := ParseThree(s, c).value; Number(ps[0], x) && Number(ps[1], y) && Number(ps[2], z)
  {
    ps := SplitN(s, 4, c);
    SplitIntoThree(s, c);
    var (x, y, z) := ParseThree(s, c).value;
    NumberParses(ps[0], x);
    NumberParses(ps[1], y);
    NumberParses(ps[2], z);
  }

  lemma PartsOf(date: string, time: string, tail: string, zone: string, t: Stamp) returns (p: Parts)
    requires ParseFields(date, time) == Some(t)
    requires (tail == "" || tail[0] == '.') && (zone == "Z" || zone == "+00:00")
    ensures Spelled(p, t) && WholeText(p) == date + ['T'] + (time + tail) + zone
  {
    var ds := ThreeOf(date, '-');
    var ts := ThreeOf(time, ':');
    p := Parts(ds[0], ds[1], ds[2], ts[0], ts[1], ts[2], tail, zone);
  }

  lemma CutAt(s: string, i: nat)
    requires i < |s|
    ensures s == s[..i] + [s[i]] + s[i + 1..]
  {
  }

  lemma CutBefore(s: string, i: nat)
    requires i <= |s|
    ensures s == s[..i] + s[i..]
  {
  }

  lemma BodyPieces(body: string) returns (date: string, time: string, tail: string)
    requires ParseBody(body).Some?
    ensures body == date + ['T'] + (time + tail) && (tail == "" || tail[0] == '.')
    ensures ParseBody(body) == ParseFields(date, time)
  {
    var i := IndexOf(body, 'T');
    CutAt(body, i);
    var rest := body[i + 1..];
    CutBefore(rest, IndexOf(rest, '.'));
    date, time, tail := body[..i], rest[..IndexOf(rest, '.')], rest[IndexOf(rest, '.')..];
  }

  lemma ParsedIsSpelled(s: string, t: Stamp) returns (p: Parts)
    requires ParseStamp(s) == Some(t)
    ensures Spelled(p, t) && WholeText(p) == s
  {
    var zone := ZoneOf(s);
    var date, time, tail := BodyPieces(StripZone(s).value);
    p := PartsOf(date, time, tail, zone, t);
  }

  /** The text is spelled from these parts, which stand for that date and time. */
  ghost predicate Spells(s: string, p: Parts, t: Stamp) { s == WholeText(p) && Spelled(p, t) }

  lemma StampExactly(s: string, t: Stamp)
    ensures ParseStamp(s) == Some(t) <==> exists p :: Spells(s, p, t)
  {
    if ParseStamp(s) == Some(t) {
      var p := ParsedIsSpelled(s, t);
      assert Spells(s, p, t);
    }
    if p :| Spells(s, p, t) {
      SpelledParses(p, t);
    }
  }

  /** The seconds that the fields add up to, wrapped to 64 bits. */
  ghost predicate Yields(t: Stamp, v: int) {
    v == Wrap64(86400 * DaysFromCivil(t.date) + 3600 * t.h + 60 * t.mn + t.sec)
  }

  lemma YieldsStamp(t: Stamp)
    ensures forall v :: Yields(t, v) <==> v == Wrap64(StampSeconds(t))
  {
    assert StampSeconds(t) == 86400 * DaysFromCivil(t.date) + 3600 * t.h + 60 * t.mn + t.sec;
  }

  lemma UnixOf(s: string, t: Stamp)
    ensures ParseStamp(s) == Some(t) ==> forall v :: Rfc3339ToUnix(s) == Some(v) <==> Yields(t, v)
    ensures ParseStamp(s).None? ==> Rfc3339ToUnix(s).None?
  {
    YieldsStamp(t);
  }

  /** The parser accepts exactly the spelled times, and yields the seconds that their numbers add up to. */
  lemma AcceptedExactly(s: string, v: int)
    ensures Rfc3339ToUnix(s) == Some(v) <==> exists p, t :: Spells(s, p, t) && Yields(t, v)
  {
    if Rfc3339ToUnix(s) == Some(v) {
      UnixOf(s, Stamp(Date(0, 0, 0), 0, 0, 0));
      var t := ParseStamp(s).value;
      StampExactly(s, t);
      UnixOf(s, t);
    }
    if p, t :| Spells(s, p, t) && Yields(t, v) {
      StampExactly(s, t);
      UnixOf(s, t);
    }
  }
}
