/** How long a preview can be approved: the store compares two differently written times as text. */
module ApprovalTtl {
  import opened Wrappers
  import opened Bytes
  import opened CivilDate
  import opened Jobs
  import opened AuditChain
  import opened TransactionStore
  import Decimal
  import KeyOrder
  import Rfc3339

  const TTL_SECONDS := 15 * 60

  const SECONDS_PER_DAY := 86400

  /** `n` in `width` decimal digits, as `strftime` prints its fields. */
  function Fixed(n: nat, width: nat): (b: seq<byte>)
    ensures |b| == width
  {
    if width == 0 then [] else Fixed(n / 10, width - 1) + [(0x30 + n % 10) as byte]
  }

  function PowerOfTen(width: nat): (p: nat)
    ensures p > 0
  {
    if width == 0 then 1 else 10 * PowerOfTen(width - 1)
  }

  const DASH: byte := 0x2D
  const COLON: byte := 0x3A
  const DOT: byte := 0x2E
  const SPACE: byte := 0x20
  const LETTER_T: byte := 0x54
  const LETTER_Z: byte := 0x5A

  function DateText(c: Date): seq<byte>
    requires c.y >= 0 && c.m >= 0 && c.d >= 0
  {
    Fixed(c.y, 4) + ([DASH] + (Fixed(c.m, 2) + ([DASH] + Fixed(c.d, 2))))
  }

  function ClockText(secondOfDay: nat): seq<byte> {
    Fixed(secondOfDay / 3600, 2) + [COLON] + Fixed(secondOfDay / 60 % 60, 2) + [COLON] + Fixed(secondOfDay % 60, 2)
  }

  function DayOf(secs: nat): nat { secs / SECONDS_PER_DAY }

  function DateOf(secs: nat): (c: Date)
    ensures ValidDate(c) && c.y >= 1970 && DaysFromCivil(c) == DayOf(secs)
  {
    CivilFromDaysInverts(DayOf(secs));
    FromEpoch(CivilFromDays(DayOf(secs)));
    CivilFromDays(DayOf(secs))
  }

  /** `strftime('%Y-%m-%dT%H:%M:%fZ')`: the creation time a row is given. */
  function CreatedAt(secs: nat, millis: nat): seq<byte> {
    DateText(DateOf(secs)) + ([LETTER_T] + ClockText(secs % SECONDS_PER_DAY) + [DOT] + Fixed(millis, 3) + [LETTER_Z])
  }

  /** `datetime(...)`: the form of the cutoff it is compared with. */
  function DateTimeText(secs: nat): seq<byte> {
    DateText(DateOf(secs)) + ([SPACE] + ClockText(secs % SECONDS_PER_DAY))
  }

  /** The text of the cutoff `datetime('now', '-15 minutes')`. */
  function Cutoff(now: nat): seq<byte>
    requires now >= TTL_SECONDS
  {
    DateTimeText(now - TTL_SECONDS)
  }

  /** `created_at > datetime(...)`, for a cutoff at `moment`. */
  predicate Newer(created: nat, millis: nat, moment: nat) {
    KeyOrder.Less(DateTimeText(moment), CreatedAt(created, millis))
  }

  lemma {:induction false} LessConcat(a: seq<byte>, x: seq<byte>, b: seq<byte>, y: seq<byte>)
    requires |a| == |b|
    ensures KeyOrder.Less(a + x, b + y) <==> KeyOrder.Less(a, b) || (a == b && KeyOrder.Less(x, y))
  {
    if a == [] {
      assert a + x == x && b + y == y;
    } else {
      LessConcat(a[1..], x, b[1..], y);
      assert (a + x)[1..] == a[1..] + x && (b + y)[1..] == b[1..] + y;
      assert a == [a[0]] + a[1..] && b == [b[0]] + b[1..];
    }
  }

  /** Fixed-width numbers are ordered as texts the way they are as numbers. */
  lemma {:induction false} FixedLess(n: nat, m: nat, width: nat)
    requires n < PowerOfTen(width) && m < PowerOfTen(width)
    ensures KeyOrder.Less(Fixed(n, width), Fixed(m, width)) <==> n < m
    ensures Fixed(n, width) == Fixed(m, width) <==> n == m
  {
    if width > 0 {
      FixedLess(n / 10, m / 10, width - 1);
      var d, e: byte := (0x30 + n % 10) as byte, (0x30 + m % 10) as byte;
      LessConcat(Fixed(n / 10, width - 1), [d], Fixed(m / 10, width - 1), [e]);
      KeyOrder.Trichotomy(Fixed(n, width), Fixed(m, width));
      assert KeyOrder.Less([d], [e]) <==> d < e;
      assert Fixed(n, width)[width - 1] == d && Fixed(m, width)[width - 1] == e;
      assert Fixed(n, width)[..width - 1] == Fixed(n / 10, width - 1);
      assert Fixed(m, width)[..width - 1] == Fixed(m / 10, width - 1);
    }
  }

  lemma DateTextLess(a: Date, b: Date)
    requires ValidDate(a) && ValidDate(b) && 0 <= a.y <= 9999 && 0 <= b.y <= 9999
    ensures KeyOrder.Less(DateText(a), DateText(b)) <==> Before(a, b)
    ensures DateText(a) == DateText(b) ==> a == b
  {
    assert PowerOfTen(2) == 100 && PowerOfTen(4) == 10000;
    FixedLess(a.y, b.y, 4);
    FixedLess(a.m, b.m, 2);
    FixedLess(a.d, b.d, 2);
    var da, db := [DASH] + Fixed(a.d, 2), [DASH] + Fixed(b.d, 2);
    var ma, mb := Fixed(a.m, 2) + da, Fixed(b.m, 2) + db;
    LessConcat(Fixed(a.y, 4), [DASH] + ma, Fixed(b.y, 4), [DASH] + mb);
    LessConcat([DASH], ma, [DASH], mb);
    LessConcat(Fixed(a.m, 2), da, Fixed(b.m, 2), db);
    LessConcat([DASH], Fixed(a.d, 2), [DASH], Fixed(b.d, 2));
    KeyOrder.Trichotomy([DASH], [DASH]);
    KeyOrder.Trichotomy(DateText(a), DateText(b));
    KeyOrder.Trichotomy(DateText(b), DateText(a));
    if DateText(a) == DateText(b) {
      assert DateText(a)[..4] == Fixed(a.y, 4) && DateText(b)[..4] == Fixed(b.y, 4);
      assert DateText(a)[5..7] == Fixed(a.m, 2) && DateText(b)[5..7] == Fixed(b.m, 2);
      assert DateText(a)[8..] == Fixed(a.d, 2) && DateText(b)[8..] == Fixed(b.d, 2);
    }
  }

  /** SQLite's dates end with the year 9999. */
  predicate InSqliteRange(secs: nat) { secs < 253402300800 }

  lemma YearInRange(secs: nat)
    requires InSqliteRange(secs)
    ensures DateOf(secs).y <= 9999
  {
    var last := Date(9999, 12, 31);
    assert DaysFromCivil(last) == 2932896;
    DaysFromCivilMonotone(last, DateOf(secs));
  }

  /** `created_at > datetime('now', '-15 minutes')` */
  predicate Fresh(created: nat, millis: nat, now: nat)
    requires now >= TTL_SECONDS
  {
    Newer(created, millis, now - TTL_SECONDS)
  }

  /** The two texts differ in the separator, so only their dates are really compared: a row is newer than a
      cutoff exactly when its UTC day is not before the cutoff's. */
  lemma NewerComparesDays(created: nat, millis: nat, moment: nat)
    requires InSqliteRange(created) && InSqliteRange(moment)
    ensures Newer(created, millis, moment) <==> DayOf(moment) <= DayOf(created)
  {
    var a, b := DateOf(moment), DateOf(created);
    YearInRange(moment);
    YearInRange(created);
    DateTextLess(a, b);
    DaysFromCivilMonotone(a, b);
    var x := [SPACE] + ClockText(moment % SECONDS_PER_DAY);
    var y := [LETTER_T] + ClockText(created % SECONDS_PER_DAY) + [DOT] + Fixed(millis, 3) + [LETTER_Z];
    assert x[0] == SPACE && y[0] == LETTER_T;
    LessConcat(DateText(a), x, DateText(b), y);
  }

  lemma FreshComparesDays(created: nat, millis: nat, now: nat)
    requires now >= TTL_SECONDS && InSqliteRange(created) && InSqliteRange(now)
    ensures Fresh(created, millis, now) <==> DayOf(now - TTL_SECONDS) <= DayOf(created)
  {
    NewerComparesDays(created, millis, now - TTL_SECONDS);
  }

  /** A queued row can be found for execution exactly through the UTC day after which its cutoff falls;
      from then on, and only then, cleanup cancels it. */
  lemma FoundOrCanceledByDay(t: Table, i: nat, hash: seq<byte>, created: nat, millis: nat, now: nat)
    requires now >= TTL_SECONDS && InSqliteRange(created) && InSqliteRange(now)
    requires i < |t.chain| && t.chain[i].content.createdAt == CreatedAt(created, millis)
    requires t.chain[i].content.requestHash == hash
    requires RowId(t.chain[i]) in t.status && t.status[RowId(t.chain[i])] == Queued
    requires forall j | 0 <= j < |t.chain| && j != i :: RowId(t.chain[j]) != RowId(t.chain[i])
    ensures Matches(t, t.chain[i], hash, Cutoff(now)) <==> DayOf(now - TTL_SECONDS) <= DayOf(created)
    ensures RowId(t.chain[i]) in StaleIds(t, Cutoff(now)) <==> DayOf(created) < DayOf(now - TTL_SECONDS)
  {
    FreshComparesDays(created, millis, now);
    assert Stale(t, RowId(t.chain[i]), Cutoff(now)) <==> !NewerThan(t.chain[i], Cutoff(now));
  }

  /** The fifteen minutes of the documentation. */
  predicate WithinTtl(created: nat, now: nat) { now - 15 * 60 < created }

  /** The comparison never refuses a row within its fifteen minutes, and it enforces them exactly
      when the row was not created earlier on the UTC day of the cutoff. */
  lemma TtlKeptExactly(created: nat, millis: nat, now: nat)
    requires now >= TTL_SECONDS && InSqliteRange(created) && InSqliteRange(now)
    ensures WithinTtl(created, now) ==> Fresh(created, millis, now)
    ensures (Fresh(created, millis, now) <==> WithinTtl(created, now))
            <==> !(created <= now - TTL_SECONDS && DayOf(created) == DayOf(now - TTL_SECONDS))
    ensures Fresh(created, millis, now) ==> now - created < 15 * 60 + 24 * 3600
  {
    FreshComparesDays(created, millis, now);
  }

  /** The bound is sharp: a preview of midnight can be approved for twenty-four hours and fifteen minutes. */
  lemma MidnightLastsLongest(day: nat, millis: nat, age: nat)
    requires var created := day * SECONDS_PER_DAY;
             created >= TTL_SECONDS && InSqliteRange(created + age)
    ensures var created := day * SECONDS_PER_DAY;
            Fresh(created, millis, created + age) <==> age < 24 * 3600 + 15 * 60
  {
    var created := day * SECONDS_PER_DAY;
    FreshComparesDays(created, millis, created + age);
    assert DayOf(created) == day;
    DayBound(day, created + age - TTL_SECONDS);
  }

  lemma DayBound(day: nat, secs: nat)
    ensures DayOf(secs) <= day <==> secs < (day + 1) * SECONDS_PER_DAY
  {
  }

  // ----- The printed times are times -----

  function AsText(b: seq<byte>): string { seq(|b|, i requires 0 <= i < |b| => b[i] as int as char) }

  lemma AsTextJoins(a: seq<byte>, b: seq<byte>)
    ensures AsText(a + b) == AsText(a) + AsText(b)
  {
  }

  lemma {:induction false} FixedValue(n: nat, width: nat)
    requires n < PowerOfTen(width)
    ensures Decimal.AllDigits(AsText(Fixed(n, width))) && Decimal.Value(AsText(Fixed(n, width))) == n
  {
    if width > 0 {
      var rest, last := Fixed(n / 10, width - 1), (0x30 + n % 10) as byte;
      FixedValue(n / 10, width - 1);
      AsTextJoins(rest, [last]);
      var s := AsText(Fixed(n, width));
      assert s[..|s| - 1] == AsText(rest) && s[|s| - 1] == last as int as char;
    }
  }

  lemma FixedIsNumber(n: nat, width: nat)
    requires 0 < width <= 4 && n < PowerOfTen(width)
    ensures Rfc3339.Number(AsText(Fixed(n, width)), n) && |AsText(Fixed(n, width))| == width
    ensures '-' !in AsText(Fixed(n, width))
  {
    FixedValue(n, width);
    assert Decimal.IsDigit(AsText(Fixed(n, width))[0]);
    assert PowerOfTen(1) == 10 && PowerOfTen(2) == 100 && PowerOfTen(3) == 1000 && PowerOfTen(4) == 10000;
  }

  /** The pieces of a creation time. */
  function CreatedParts(c: Date, h: nat, mn: nat, sec: nat, millis: nat): Rfc3339.Parts
    requires c.y >= 0 && c.m >= 0 && c.d >= 0
  {
    Rfc3339.Parts(AsText(Fixed(c.y, 4)), AsText(Fixed(c.m, 2)), AsText(Fixed(c.d, 2)),
                  AsText(Fixed(h, 2)), AsText(Fixed(mn, 2)), AsText(Fixed(sec, 2)),
                  "." + AsText(Fixed(millis, 3)), "Z")
  }

  lemma CreatedIsSpelled(c: Date, h: nat, mn: nat, sec: nat, millis: nat)
    requires ValidDate(c) && 0 <= c.y <= 9999 && h <= 23 && mn <= 59 && sec <= 59
    ensures Rfc3339.Spelled(CreatedParts(c, h, mn, sec, millis), Rfc3339.Stamp(c, h, mn, sec))
  {
    assert PowerOfTen(2) == 100 && PowerOfTen(4) == 10000;
    FixedIsNumber(c.y, 4);
    FixedIsNumber(c.m, 2);
    FixedIsNumber(c.d, 2);
    FixedIsNumber(h, 2);
    FixedIsNumber(mn, 2);
    FixedIsNumber(sec, 2);
  }

  lemma Seven(a: seq<byte>, b: seq<byte>, c: seq<byte>, d: seq<byte>, e: seq<byte>, f: seq<byte>, g: seq<byte>)
    ensures AsText(a + ([DASH] + (b + ([DASH] + c)))
                   + ([LETTER_T] + (d + [COLON] + e + [COLON] + f) + [DOT] + g + [LETTER_Z]))
         == AsText(a) + ['-'] + AsText(b) + ['-'] + AsText(c) + ['T']
            + (AsText(d) + [':'] + AsText(e) + [':'] + AsText(f) + ("." + AsText(g))) + "Z"
  {
  }

  lemma ClockFields(tod: nat)
    requires tod < 86400
    ensures tod / 3600 <= 23 && tod / 60 % 60 <= 59 && tod % 60 <= 59
    ensures tod == 3600 * (tod / 3600) + 60 * (tod / 60 % 60) + tod % 60
  {
    assert tod / 3600 == tod / 60 / 60;
  }

  function CreatedStamp(secs: nat): Rfc3339.Stamp {
    var tod := secs % 86400;
    Rfc3339.Stamp(DateOf(secs), tod / 3600, tod / 60 % 60, tod % 60)
  }

  lemma DayAndClock(secs: nat)
    ensures var tod := secs % 86400;
            DayOf(secs) * 86400 + tod / 3600 * 3600 + tod / 60 % 60 * 60 + tod % 60 == secs
  {
    ClockFields(secs % 86400);
  }

  lemma CreatedSeconds(secs: nat)
    ensures Rfc3339.StampSeconds(CreatedStamp(secs)) == secs
  {
    DayAndClock(secs);
    assert DaysFromCivil(DateOf(secs)) == DayOf(secs);
  }

  lemma CreatedYields(secs: nat)
    requires InSqliteRange(secs)
    ensures Rfc3339.Yields(CreatedStamp(secs), secs)
  {
    CreatedSeconds(secs);
    Rfc3339.WrapIsIdentity(secs);
    Rfc3339.YieldsStamp(CreatedStamp(secs));
  }

  lemma CreatedSpells(secs: nat, millis: nat)
    requires InSqliteRange(secs)
    ensures exists p :: Rfc3339.Spells(AsText(CreatedAt(secs, millis)), p, CreatedStamp(secs))
  {
    var c, tod := DateOf(secs), secs % 86400;
    var h, mn, sec := tod / 3600, tod / 60 % 60, tod % 60;
    YearInRange(secs);
    ClockFields(tod);
    CreatedIsSpelled(c, h, mn, sec, millis);
    Seven(Fixed(c.y, 4), Fixed(c.m, 2), Fixed(c.d, 2), Fixed(h, 2), Fixed(mn, 2), Fixed(sec, 2), Fixed(millis, 3));
    assert Rfc3339.Spells(AsText(CreatedAt(secs, millis)), CreatedParts(c, h, mn, sec, millis), CreatedStamp(secs));
  }

  /** The creation time of a row, as the store writes it, is read by the command line's parser as the second it was
      created in. */
  lemma CreatedAtIsRead(secs: nat, millis: nat)
    requires InSqliteRange(secs)
    ensures Rfc3339.Rfc3339ToUnix(AsText(CreatedAt(secs, millis))) == Some(secs)
  {
    CreatedSpells(secs, millis);
    CreatedYields(secs);
    Rfc3339.AcceptedExactly(AsText(CreatedAt(secs, millis)), secs);
  }

  /** The cutoff is written like a creation time, but with a space and up to the seconds only. */
  lemma CutoffText(secs: nat, millis: nat)
    ensures var created := CreatedAt(secs, millis);
            && |created| == 24
            && DateTimeText(secs) == created[..10] + [0x20] + created[11..19]
  {
  }

  // ----- The history filter -----

  /** The moment that a `since` filter asks the store for: whole hours before now. */
  function FilterMoment(since: nat, now: nat): nat
    requires since <= now
  {
    now - (now - since) / 3600 * 3600
  }

  lemma FilterMomentIsNear(since: nat, now: nat)
    requires since <= now
    ensures since <= FilterMoment(since, now) < since + 3600 && FilterMoment(since, now) <= now
  {
  }

  /** The hours that the command line sends for a printed time lead to that moment. */
  lemma HoursLeadToMoment(since: nat, now: nat)
    requires since <= now < Rfc3339.TWO_63
    ensures var hours := Rfc3339.SinceToHours(Rfc3339.FormatRfc3339(since), now);
            && (hours.Some? <==> (now - since) / 3600 <= 4294967295)
            && (hours.Some? ==> now - hours.value * 3600 == FilterMoment(since, now))
  {
    Rfc3339.SinceToHoursOfFormat(since, now);
  }

  /** The filter lists whole UTC days. It leaves no later row out exactly when the rounding to hours stays
      within the day, and lets no earlier row in exactly when no earlier moment lies on that day. */
  lemma SinceListsWholeDays(since: nat, now: nat, millis: nat)
    requires since <= now && InSqliteRange(now)
    ensures var moment := FilterMoment(since, now);
            && (forall created: nat | InSqliteRange(created) ::
                  Newer(created, millis, moment) <==> DayOf(moment) <= DayOf(created))
            && ((forall created: nat | InSqliteRange(created) && since <= created :: Newer(created, millis, moment))
                <==> DayOf(since) == DayOf(moment))
            && ((forall created: nat | created < since :: !Newer(created, millis, moment))
                <==> since <= DayOf(moment) * SECONDS_PER_DAY)
  {
    var moment := FilterMoment(since, now);
    FilterMomentIsNear(since, now);
    forall created: nat | InSqliteRange(created)
      ensures Newer(created, millis, moment) <==> DayOf(moment) <= DayOf(created)
    {
      NewerComparesDays(created, millis, moment);
    }
    DayOrder(since, moment);
    if DayOf(moment) * SECONDS_PER_DAY < since {
      DayOrder(moment, since - 1);
      assert InSqliteRange(since - 1) && DayOf(moment) <= DayOf(since - 1);
      assert Newer(since - 1, millis, moment);
    }
    forall created: nat | created < since && since <= DayOf(moment) * SECONDS_PER_DAY
      ensures !Newer(created, millis, moment)
    {
      assert DayOf(created) < DayOf(moment);
    }
    forall created: nat | InSqliteRange(created) && since <= created && DayOf(since) == DayOf(moment)
      ensures Newer(created, millis, moment)
    {
      DayOrder(since, created);
    }
  }

  lemma DayOrder(a: nat, b: nat)
    ensures a <= b ==> DayOf(a) <= DayOf(b)
    ensures DayOf(a) * SECONDS_PER_DAY <= b ==> DayOf(a) <= DayOf(b)
  {
  }
}
