/** UTC instants as calendar fields, their ISO-8601 text, and the proof that the
    byte order of the text is the order of time. */
module Instants {
  import opened Options
  import opened Texts

  predicate IsLeap(year: nat) {
    year % 4 == 0 && (year % 100 != 0 || year % 400 == 0)
  }

  function DaysInMonth(year: nat, month: nat): nat {
    if month == 2 then (if IsLeap(year) then 29 else 28)
    else if month == 4 || month == 6 || month == 9 || month == 11 then 30
    else 31
  }

  /** A UTC `datetime`, field by field. */
  datatype Instant = Instant(year: nat, month: nat, day: nat, hour: nat, minute: nat, second: nat, micro: nat) {

    predicate Valid() {
      && 1 <= year <= 9999 && 1 <= month <= 12 && 1 <= day <= DaysInMonth(year, month)
      && hour < 24 && minute < 60 && second < 60 && micro < 1_000_000
    }

    /** Field-by-field order packed into one number. */
    function Rank(): int {
      (((((year * 13 + month) * 32 + day) * 24 + hour) * 60 + minute) * 60 + second) * 1_000_000 + micro
    }
  }

  type Time = t: Instant | t.Valid() witness Instant(1970, 1, 1, 0, 0, 0, 0)

  /** Chronological order: the first field that differs decides. */
  predicate Before(a: Time, b: Time) {
    if a.year != b.year then a.year < b.year
    else if a.month != b.month then a.month < b.month
    else if a.day != b.day then a.day < b.day
    else if a.hour != b.hour then a.hour < b.hour
    else if a.minute != b.minute then a.minute < b.minute
    else if a.second != b.second then a.second < b.second
    else a.micro < b.micro
  }

  lemma BeforeIsRankOrder(a: Time, b: Time)
    ensures Before(a, b) <==> a.Rank() < b.Rank()
    ensures a.Rank() == b.Rank() <==> a == b
  {
    assert a.month - b.month < 13 && b.month - a.month < 13;
  }

  /** The datetime with a given rank. */
  function FieldsOf(rank: int): Instant
    requires rank >= 0
  {
    var minutes := rank / 60_000_000;
    var days := minutes / 1440;
    Instant(days / 32 / 13, days / 32 % 13, days % 32, minutes / 60 % 24, minutes % 60,
            rank / 1_000_000 % 60, rank % 1_000_000)
  }

  /** A number that is the rank of some datetime. */
  predicate IsMoment(rank: int) {
    rank >= 0 && FieldsOf(rank).Valid() && FieldsOf(rank).Rank() == rank
  }

  /** Every datetime has a rank of its own. */
  lemma EveryInstantIsAMoment(t: Time)
    ensures IsMoment(t.Rank()) && FieldsOf(t.Rank()) == t
  {
    var days := (t.year * 13 + t.month) * 32 + t.day;
    var minutes := (days * 24 + t.hour) * 60 + t.minute;
    DivMod(minutes * 60 + t.second, 1_000_000, t.micro);
    DivMod(minutes, 60_000_000, t.second * 1_000_000 + t.micro);
    DivMod(minutes, 60, t.second);
    DivMod(days, 1440, t.hour * 60 + t.minute);
    DivMod(days * 24 + t.hour, 60, t.minute);
    DivMod(days, 24, t.hour);
    DivMod(t.year * 13 + t.month, 32, t.day);
    DivMod(t.year, 13, t.month);
  }

  lemma DivMod(q: nat, d: nat, r: nat)
    requires r < d
    ensures (q * d + r) / d == q && (q * d + r) % d == r
  {
    var n := q * d + r;
    var e := n / d - q;
    assert d * (n / d) - d * q == d * e;
    MultipleOf(d, e);
  }

  lemma MultipleOf(d: nat, e: int)
    ensures e >= 1 ==> d * e >= d
    ensures e <= -1 ==> d * e <= 0 - d
  {
  }

  // ---- Decimal fields ----

  function Digit(n: nat): (c: char)
    requires n < 10
    ensures '0' <= c <= '9'
  {
    ('0' as int + n) as char
  }

  function Pow10(w: nat): nat {
    if w == 0 then 1 else 10 * Pow10(w - 1)
  }

  /** `n` in exactly `w` digits. */
  function Pad(n: nat, w: nat): (s: string)
    ensures |s| == w
    ensures forall i :: 0 <= i < |s| ==> '0' <= s[i] <= '9'
  {
    if w == 0 then "" else Pad(n / 10, w - 1) + [Digit(n % 10)]
  }

  lemma LastCharDecides(p: string, q: string, c: char, d: char)
    requires |p| == |q|
    ensures TextLess(p + [c], q + [d]) <==> TextLess(p, q) || (p == q && c < d)
    ensures p + [c] == q + [d] <==> p == q && c == d
  {
    PrefixDecides(p, q, [c], [d]);
    assert TextLess([c], [d]) <==> c < d;
    if p + [c] == q + [d] {
      assert (p + [c])[..|p|] == p && (q + [d])[..|p|] == q;
      assert (p + [c])[|p|] == c && (q + [d])[|p|] == d;
    }
  }

  lemma {:induction false} PadOrder(n: nat, m: nat, w: nat)
    requires n < Pow10(w) && m < Pow10(w)
    ensures TextLess(Pad(n, w), Pad(m, w)) <==> n < m
    ensures Pad(n, w) == Pad(m, w) <==> n == m
  {
    if w > 0 {
      PadOrder(n / 10, m / 10, w - 1);
      LastCharDecides(Pad(n / 10, w - 1), Pad(m / 10, w - 1), Digit(n % 10), Digit(m % 10));
    }
  }

  /** A field decides the order of two texts, and after equal fields the rest does. */
  lemma FieldDecides(n: nat, m: nat, w: nat, x: string, y: string)
    requires n < Pow10(w) && m < Pow10(w)
    ensures TextLess(Pad(n, w) + x, Pad(m, w) + y) <==> n < m || (n == m && TextLess(x, y))
  {
    PadOrder(n, m, w);
    PrefixDecides(Pad(n, w), Pad(m, w), x, y);
  }

  lemma SeparatorSkips(c: char, x: string, y: string)
    ensures TextLess([c] + x, [c] + y) <==> TextLess(x, y)
  {
    PrefixDecides([c], [c], x, y);
    TextLessIrreflexive([c]);
  }

  // ---- isoformat ----

  function Fraction(micro: nat): string {
    if micro == 0 then "" else "." + Pad(micro, 6)
  }

  /** `isoformat` with a given offset text. */
  function IsoText(t: Time, offset: string): string {
    Pad(t.year, 4) + ("-" + (Pad(t.month, 2) + ("-" + (Pad(t.day, 2) + ("T" + ClockText(t, offset))))))
  }

  function ClockText(t: Time, offset: string): string {
    Pad(t.hour, 2) + (":" + (Pad(t.minute, 2) + (":" + (Pad(t.second, 2) + (Fraction(t.micro) + offset)))))
  }

  const UTC_SUFFIX := "+00:00"

  /** `_iso`. */
  function Iso(t: Time): string {
    IsoText(t, UTC_SUFFIX)
  }

  /** The number that decimal digits spell. */
  function Number(digits: string): int {
    if digits == "" then 0 else 10 * Number(digits[..|digits| - 1]) + (digits[|digits| - 1] as int - '0' as int)
  }

  /** Decimal digits of a given width that spell a number. */
  predicate Spells(digits: string, width: nat, n: nat) {
    |digits| == width && (forall i :: 0 <= i < |digits| ==> '0' <= digits[i] <= '9') && Number(digits) == n
  }

  lemma {:induction false} PadSpells(n: nat, w: nat)
    requires n < Pow10(w)
    ensures Spells(Pad(n, w), w, n)
  {
    if w > 0 {
      PadSpells(n / 10, w - 1);
      assert Pad(n, w)[..w - 1] == Pad(n / 10, w - 1);
    }
  }

  /** The text is YYYY-MM-DDTHH:MM:SS, a fraction of six digits unless it is zero, and "+00:00". */
  lemma IsoLayout(t: Time)
    returns (year: string, month: string, day: string, hour: string, minute: string, second: string, micro: string)
    ensures Spells(year, 4, t.year) && Spells(month, 2, t.month) && Spells(day, 2, t.day)
    ensures Spells(hour, 2, t.hour) && Spells(minute, 2, t.minute) && Spells(second, 2, t.second)
    ensures Spells(micro, 6, t.micro)
    ensures var end := if t.micro == 0 then "+00:00" else "." + micro + "+00:00";
            var clock := hour + (":" + (minute + (":" + (second + end))));
            Iso(t) == year + ("-" + (month + ("-" + (day + ("T" + clock)))))
  {
    year, month, day := Pad(t.year, 4), Pad(t.month, 2), Pad(t.day, 2);
    hour, minute, second, micro := Pad(t.hour, 2), Pad(t.minute, 2), Pad(t.second, 2), Pad(t.micro, 6);
    FieldsSpell(t);
    FractionEnds(t.micro, micro);
  }

  lemma FractionEnds(m: nat, digits: string)
    requires digits == Pad(m, 6)
    ensures Fraction(m) + UTC_SUFFIX == if m == 0 then "+00:00" else "." + digits + "+00:00"
  {
  }

  lemma FieldsSpell(t: Time)
    ensures Spells(Pad(t.year, 4), 4, t.year) && Spells(Pad(t.month, 2), 2, t.month) && Spells(Pad(t.day, 2), 2, t.day)
    ensures Spells(Pad(t.hour, 2), 2, t.hour) && Spells(Pad(t.minute, 2), 2, t.minute)
    ensures Spells(Pad(t.second, 2), 2, t.second) && Spells(Pad(t.micro, 6), 6, t.micro)
  {
    Powers();
    PadSpells(t.year, 4);
    PadSpells(t.month, 2);
    PadSpells(t.day, 2);
    PadSpells(t.hour, 2);
    PadSpells(t.minute, 2);
    PadSpells(t.second, 2);
    PadSpells(t.micro, 6);
  }

  lemma Powers()
    ensures Pow10(2) == 100 && Pow10(4) == 10_000 && Pow10(6) == 1_000_000
  {
    assert Pow10(3) == 1000;
    assert Pow10(5) == 100_000;
  }

  lemma FractionText(m: nat)
    ensures m == 0 ==> Fraction(m) + UTC_SUFFIX == UTC_SUFFIX
    ensures m > 0 ==> Fraction(m) + UTC_SUFFIX == ['.'] + (Pad(m, 6) + UTC_SUFFIX)
    ensures (Fraction(m) + UTC_SUFFIX)[0] == if m == 0 then '+' else '.'
  {
  }

  /** The tail of the text: a missing fraction sorts first, because '+' sorts before '.'. */
  lemma FractionOrder(m: nat, n: nat)
    requires m < 1_000_000 && n < 1_000_000
    ensures TextLess(Fraction(m) + UTC_SUFFIX, Fraction(n) + UTC_SUFFIX) <==> m < n
  {
    FractionText(m);
    FractionText(n);
    var x, y := Fraction(m) + UTC_SUFFIX, Fraction(n) + UTC_SUFFIX;
    if m == 0 && n == 0 {
      TextLessIrreflexive(UTC_SUFFIX);
    } else if m == 0 {
      FirstCharDecides(x, y);
    } else if n == 0 {
      FirstCharDecides(y, x);
    } else {
      Powers();
      SeparatorSkips('.', Pad(m, 6) + UTC_SUFFIX, Pad(n, 6) + UTC_SUFFIX);
      FieldDecides(m, n, 6, UTC_SUFFIX, UTC_SUFFIX);
      TextLessIrreflexive(UTC_SUFFIX);
    }
  }

  lemma ClockOrder(a: Time, b: Time)
    ensures TextLess(ClockText(a, UTC_SUFFIX), ClockText(b, UTC_SUFFIX))
            <==> if a.hour != b.hour then a.hour < b.hour
                 else if a.minute != b.minute then a.minute < b.minute
                 else if a.second != b.second then a.second < b.second
                 else a.micro < b.micro
  {
    Powers();
    var x, y := Fraction(a.micro) + UTC_SUFFIX, Fraction(b.micro) + UTC_SUFFIX;
    FractionOrder(a.micro, b.micro);
    FieldDecides(a.second, b.second, 2, x, y);
    var x1, y1 := Pad(a.second, 2) + x, Pad(b.second, 2) + y;
    SeparatorSkips(':', x1, y1);
    FieldDecides(a.minute, b.minute, 2, ":" + x1, ":" + y1);
    var x2, y2 := Pad(a.minute, 2) + (":" + x1), Pad(b.minute, 2) + (":" + y1);
    SeparatorSkips(':', x2, y2);
    FieldDecides(a.hour, b.hour, 2, ":" + x2, ":" + y2);
  }

  /** Text order is time order, for all instants. */
  lemma TextOrderIsTimeOrder(a: Time, b: Time)
    ensures TextLess(Iso(a), Iso(b)) <==> Before(a, b)
  {
    Powers();
    var x, y := ClockText(a, UTC_SUFFIX), ClockText(b, UTC_SUFFIX);
    ClockOrder(a, b);
    SeparatorSkips('T', x, y);
    FieldDecides(a.day, b.day, 2, "T" + x, "T" + y);
    var x1, y1 := Pad(a.day, 2) + ("T" + x), Pad(b.day, 2) + ("T" + y);
    SeparatorSkips('-', x1, y1);
    FieldDecides(a.month, b.month, 2, "-" + x1, "-" + y1);
    var x2, y2 := Pad(a.month, 2) + ("-" + x1), Pad(b.month, 2) + ("-" + y1);
    SeparatorSkips('-', x2, y2);
    FieldDecides(a.year, b.year, 4, "-" + x2, "-" + y2);
  }

  /** The text determines the instant. */
  lemma IsoIsInjective(a: Time, b: Time)
    requires Iso(a) == Iso(b)
    ensures a == b
  {
    TextOrderIsTimeOrder(a, b);
    TextOrderIsTimeOrder(b, a);
    TextLessIrreflexive(Iso(a));
  }

  // ---- Text written by earlier versions: naive, or with any offset ----

  datatype Offset = Offset(negative: bool, hours: nat, minutes: nat, seconds: nat, micros: nat) {

    predicate Valid() {
      && hours < 24 && minutes < 60 && seconds < 60 && micros < 1_000_000
      && (negative ==> hours + minutes + seconds + micros > 0)
    }
  }

  const UTC := Offset(false, 0, 0, 0, 0)

  function OffsetText(o: Option<Offset>): string {
    match o
    case None => ""
    case Some(o) =>
      (if o.negative then "-" else "+")
      + (Pad(o.hours, 2) + (":" + (Pad(o.minutes, 2) + SecondsText(o.seconds, o.micros))))
  }

  /** Seconds are written if they or the microseconds are not zero. */
  function SecondsText(seconds: nat, micros: nat): string {
    if seconds == 0 && micros == 0 then "" else ":" + (Pad(seconds, 2) + Fraction(micros))
  }

  predicate EndsWith(text: string, suffix: string) {
    |text| >= |suffix| && text[|text| - |suffix|..] == suffix
  }

  /** Without an offset the text ends in ":SS" or in a digit six places from the end. */
  lemma NaiveEnd(t: Time)
    ensures var s := IsoText(t, ""); |s| >= 6 && s[|s| - 6] != '+'
  {
    var head := Pad(t.year, 4) + ("-" + (Pad(t.month, 2) + ("-" + (Pad(t.day, 2) + ("T" + Pad(t.hour, 2))))));
    var tail := ":" + (Pad(t.minute, 2) + (":" + (Pad(t.second, 2) + (Fraction(t.micro) + ""))));
    assert IsoText(t, "") == head + tail;
    if t.micro == 0 {
      assert |tail| == 6 && tail[0] == ':';
    } else {
      assert tail[6..] == "." + Pad(t.micro, 6);
      assert tail[7] == Pad(t.micro, 6)[0];
    }
  }

  lemma SuffixStartsWithPlus(text: string)
    requires |text| >= 6
    ensures EndsWith(text, UTC_SUFFIX) ==> text[|text| - 6] == '+'
  {
    assert text[|text| - 6..][0] == text[|text| - 6] && UTC_SUFFIX[0] == '+';
  }

  lemma IsoTextSplits(t: Time, offset: string)
    ensures IsoText(t, offset) == IsoText(t, "") + offset
  {
    ClockTextSplits(t, offset);
    var x, y := ClockText(t, offset), ClockText(t, "");
    PrependSplits("T", x, y, offset);
    PrependSplits(Pad(t.day, 2), "T" + x, "T" + y, offset);
    var x1, y1 := Pad(t.day, 2) + ("T" + x), Pad(t.day, 2) + ("T" + y);
    PrependSplits("-", x1, y1, offset);
    PrependSplits(Pad(t.month, 2), "-" + x1, "-" + y1, offset);
    var x2, y2 := Pad(t.month, 2) + ("-" + x1), Pad(t.month, 2) + ("-" + y1);
    PrependSplits("-", x2, y2, offset);
    PrependSplits(Pad(t.year, 4), "-" + x2, "-" + y2, offset);
  }

  lemma ClockTextSplits(t: Time, offset: string)
    ensures ClockText(t, offset) == ClockText(t, "") + offset
  {
    var x, y := Fraction(t.micro) + offset, Fraction(t.micro) + "";
    assert x == y + offset;
    PrependSplits(Pad(t.second, 2), x, y, offset);
    var x1, y1 := Pad(t.second, 2) + x, Pad(t.second, 2) + y;
    PrependSplits(":", x1, y1, offset);
    PrependSplits(Pad(t.minute, 2), ":" + x1, ":" + y1, offset);
    var x2, y2 := Pad(t.minute, 2) + (":" + x1), Pad(t.minute, 2) + (":" + y1);
    PrependSplits(":", x2, y2, offset);
    PrependSplits(Pad(t.hour, 2), ":" + x2, ":" + y2, offset);
  }

  lemma PrependSplits(p: string, x: string, y: string, offset: string)
    requires x == y + offset
    ensures p + x == (p + y) + offset
  {
  }

  /** The pattern '%+00:00' matches exactly the texts written in UTC. */
  lemma SuffixMeansUtc(t: Time, o: Option<Offset>)
    requires o.Some? ==> o.value.Valid()
    ensures EndsWith(IsoText(t, OffsetText(o)), UTC_SUFFIX) <==> o == Some(UTC)
  {
    IsoTextSplits(t, OffsetText(o));
    NaiveEnd(t);
    if o.Some? {
      OffsetEnds(o.value);
    }
    SuffixOfConcat(IsoText(t, ""), OffsetText(o));
  }

  /** Six characters at the end of a text are those at the end of its last part, if that is long enough. */
  lemma SuffixOfConcat(head: string, end: string)
    requires |end| >= 6 || (end == "" && |head| >= 6 && head[|head| - 6] != '+')
    ensures EndsWith(head + end, UTC_SUFFIX) <==> |end| >= 6 && end[|end| - 6..] == UTC_SUFFIX
    ensures |end| >= 6 && end[|end| - 6] != '+' ==> !EndsWith(head + end, UTC_SUFFIX)
  {
    var text := head + end;
    SuffixStartsWithPlus(text);
    if |end| >= 6 {
      assert text[|text| - 6..] == end[|end| - 6..];
      assert text[|text| - 6] == end[|end| - 6];
    } else {
      assert text == head;
    }
  }

  /** The last six characters of an offset: all of it, or a tail that starts with a colon or a digit. */
  lemma OffsetEnds(o: Offset)
    requires o.Valid()
    ensures var text := OffsetText(Some(o));
            && |text| >= 6
            && (if o.seconds == 0 && o.micros == 0 then |text| == 6 && (text == UTC_SUFFIX <==> o == UTC)
                else text[|text| - 6] != '+')
  {
    var text := OffsetText(Some(o));
    if o.seconds == 0 && o.micros == 0 {
      ShortOffset(o);
    } else if o.micros == 0 {
      MiddleOffset(o);
    } else {
      LongOffset(o);
    }
  }

  lemma SixthFromEnd(head: string, end: string)
    requires |end| == 6
    ensures (head + end)[|head + end| - 6] == end[0]
  {
  }

  lemma MiddleOffset(o: Offset)
    requires o.Valid() && o.seconds > 0 && o.micros == 0
    ensures var text := OffsetText(Some(o)); |text| >= 6 && text[|text| - 6] != '+'
  {
    var sign, end := if o.negative then "-" else "+", ":" + (Pad(o.minutes, 2) + (":" + (Pad(o.seconds, 2) + "")));
    PrependSplits(sign, Pad(o.hours, 2) + end, Pad(o.hours, 2), end);
    assert OffsetText(Some(o)) == (sign + Pad(o.hours, 2)) + end;
    SixthFromEnd(sign + Pad(o.hours, 2), end);
  }

  lemma LongOffset(o: Offset)
    requires o.Valid() && o.micros > 0
    ensures var text := OffsetText(Some(o)); |text| >= 6 && text[|text| - 6] != '+'
  {
    var sign, end := if o.negative then "-" else "+", Pad(o.micros, 6);
    var x4 := Pad(o.seconds, 2) + ".";
    var x3 := ":" + x4;
    var x2 := Pad(o.minutes, 2) + x3;
    var x1 := ":" + x2;
    var x0 := Pad(o.hours, 2) + x1;
    assert Pad(o.seconds, 2) + Fraction(o.micros) == x4 + end;
    assert SecondsText(o.seconds, o.micros) == x3 + end;
    PrependSplits(Pad(o.minutes, 2), x3 + end, x3, end);
    PrependSplits(":", x2 + end, x2, end);
    PrependSplits(Pad(o.hours, 2), x1 + end, x1, end);
    PrependSplits(sign, x0 + end, x0, end);
    assert OffsetText(Some(o)) == (sign + x0) + end;
    SixthFromEnd(sign + x0, end);
  }

  lemma ShortOffset(o: Offset)
    requires o.Valid() && o.seconds == 0 && o.micros == 0
    ensures |OffsetText(Some(o))| == 6 && (OffsetText(Some(o)) == UTC_SUFFIX <==> o == UTC)
  {
    Powers();
    PadZero();
    var end := ":" + (Pad(o.minutes, 2) + "");
    assert OffsetText(Some(o)) == (if o.negative then "-" else "+") + (Pad(o.hours, 2) + end);
    assert UTC_SUFFIX == "+" + (Pad(0, 2) + (":" + (Pad(0, 2) + "")));
    FieldEquals(o.minutes, 0, 2, "", "");
    TextEquals(":", ":", Pad(o.minutes, 2) + "", Pad(0, 2) + "");
    FieldEquals(o.hours, 0, 2, end, ":" + (Pad(0, 2) + ""));
    TextEquals(if o.negative then "-" else "+", "+", Pad(o.hours, 2) + end, Pad(0, 2) + (":" + (Pad(0, 2) + "")));
  }

  lemma TextEquals(p: string, q: string, x: string, y: string)
    requires |p| == |q|
    ensures p + x == q + y <==> p == q && x == y
  {
    if p + x == q + y {
      assert (p + x)[..|p|] == p && (q + y)[..|p|] == q;
      assert (p + x)[|p|..] == x && (q + y)[|p|..] == y;
    }
  }

  lemma FieldEquals(n: nat, m: nat, w: nat, x: string, y: string)
    requires n < Pow10(w) && m < Pow10(w)
    ensures Pad(n, w) + x == Pad(m, w) + y <==> n == m && x == y
  {
    PadOrder(n, m, w);
    TextEquals(Pad(n, w), Pad(m, w), x, y);
  }

  lemma PadZero()
    ensures Pad(0, 2) == "00"
  {
    assert Pad(0, 1) == "0";
  }
}
