/**
  Unix and GPS time of cyber/common/time_conversion.h, over any table of leap seconds.  Values are
  64-bit signed and far from overflow; the comparison in `GpsToUnixSeconds` is made on 32 bits.
  Seconds come first; micro- and nanoseconds run through the same two functions, with the fraction of
  the second carried over, and so inherit what is proved of seconds.
*/
module LeapSeconds {
  import opened Common
  import Modular

  const UNIX_GPS_DIFF: int := 315964800

  /** From Unix time `date` on, GPS has counted `leaps` inserted seconds. */
  datatype Row = Row(date: int, leaps: int)

  const LEAP_SECONDS: seq<Row> := [
    Row(1483228800, 18), Row(1435708800, 17), Row(1341100800, 16), Row(1230768000, 15), Row(1136073600, 14)]

  /** Newest first, one leap second a row, all behind the GPS epoch and well inside 32 bits. */
  ghost predicate TableOk(t: seq<Row>) {
    && t != []
    && (forall i :: 0 <= i < |t| - 1 ==> t[i].date > t[i + 1].date && t[i].leaps == t[i + 1].leaps + 1)
    && UNIX_GPS_DIFF <= t[|t| - 1].date && 0 <= t[|t| - 1].leaps
    && t[0].date + |t| <= TWO_31
  }

  lemma ShippedTableIsOk()
    ensures TableOk(LEAP_SECONDS)
  {
  }

  /** The rows are tried from row `i` on; zero stands for a time before the table. */
  function UnixToGpsFrom(t: seq<Row>, i: nat, unixSeconds: int): int
    requires i <= |t|
    decreases |t| - i
  {
    if i == |t| then 0
    else if unixSeconds >= t[i].date then unixSeconds - (UNIX_GPS_DIFF - t[i].leaps)
    else UnixToGpsFrom(t, i + 1, unixSeconds)
  }

  function UnixToGpsSeconds(t: seq<Row>, unixSeconds: int): int {
    UnixToGpsFrom(t, 0, unixSeconds)
  }

  function GpsToUnixFrom(t: seq<Row>, i: nat, gpsSeconds: int): int
    requires i <= |t|
    decreases |t| - i
  {
    if i == |t| then 0
    else
      var result := gpsSeconds + (UNIX_GPS_DIFF - t[i].leaps);
      if ToInt32(result) >= t[i].date then result else GpsToUnixFrom(t, i + 1, gpsSeconds)
  }

  function GpsToUnixSeconds(t: seq<Row>, gpsSeconds: int): int {
    GpsToUnixFrom(t, 0, gpsSeconds)
  }

  function Oldest(t: seq<Row>): int
    requires t != []
  {
    t[|t| - 1].date
  }

  /** The distance of two rows, in leap seconds and at least in time. */
  lemma {:induction false} RowsApart(t: seq<Row>, i: nat, j: nat)
    requires TableOk(t) && i <= j < |t|
    ensures t[i].leaps == t[j].leaps + (j - i) && t[i].date >= t[j].date + (j - i)
    decreases j - i
  {
    if i < j {
      RowsApart(t, i + 1, j);
    }
  }

  /** The row that `UnixToGpsSeconds` uses: the newest one not behind the time. */
  lemma {:induction false} UnixRow(t: seq<Row>, i: nat, u: int) returns (k: nat)
    requires TableOk(t) && i < |t| && u >= Oldest(t)
    ensures i <= k < |t| && u >= t[k].date && (forall j :: i <= j < k ==> u < t[j].date)
    ensures UnixToGpsFrom(t, i, u) == u - UNIX_GPS_DIFF + t[k].leaps
    decreases |t| - i
  {
    if u >= t[i].date {
      k := i;
    } else {
      k := UnixRow(t, i + 1, u);
    }
  }

  /** Going back, the newer rows do not take the result as long as it is inside 32 bits. */
  lemma {:induction false} BackFrom(t: seq<Row>, i: nat, k: nat, u: int)
    requires TableOk(t) && i <= k < |t| && t[k].date <= u < TWO_31 && forall j :: i <= j < k ==> u < t[j].date
    ensures GpsToUnixFrom(t, i, u - UNIX_GPS_DIFF + t[k].leaps) == u
    decreases k - i
  {
    RowsApart(t, i, k);
    RowsApart(t, 0, i);
    RowsApart(t, k, |t| - 1);
    if i < k {
      BackFrom(t, i + 1, k, u);
    }
  }

  /** Behind 32 bits a wrong row may take the time, or none, but never with the right result. */
  lemma {:induction false} BackIsLater(t: seq<Row>, i: nat, u: int)
    requires TableOk(t) && 1 <= i <= |t| && u > 0
    ensures GpsToUnixFrom(t, i, u - UNIX_GPS_DIFF + t[0].leaps) != u
    decreases |t| - i
  {
    if i < |t| {
      RowsApart(t, 0, i);
      BackIsLater(t, i + 1, u);
    }
  }

  /**
    Unix to GPS and back is the identity for every time from the oldest row on that fits 32 bits,
    and of the later ones exactly for those whose low 32 bits happen to pass the newest row.
  */
  lemma UnixRoundTrip(t: seq<Row>, u: int)
    requires TableOk(t) && u >= Oldest(t)
    ensures GpsToUnixSeconds(t, UnixToGpsSeconds(t, u)) == u <==> u < TWO_31 || ToInt32(u) >= t[0].date
  {
    var k := UnixRow(t, 0, u);
    RowsApart(t, 0, |t| - 1);
    if u < TWO_31 {
      BackFrom(t, 0, k, u);
    } else {
      assert u >= t[0].date && k == 0;
      BackIsLater(t, 1, u);
    }
  }

  /** Not before the Unix epoch by the newest row, and before the oldest row by that row. */
  predicate EarlyGps(t: seq<Row>, g: int)
    requires t != []
  {
    0 <= g + UNIX_GPS_DIFF - t[0].leaps && g + UNIX_GPS_DIFF - t[|t| - 1].leaps < Oldest(t)
  }

  /** Times before the table, and far from overflow, have no row: both ways give zero. */
  lemma BeforeTable(t: seq<Row>, u: int, g: int)
    requires TableOk(t)
    ensures u < Oldest(t) ==> UnixToGpsSeconds(t, u) == 0
    ensures EarlyGps(t, g) ==> GpsToUnixSeconds(t, g) == 0
  {
    if u < Oldest(t) {
      NoRowBehind(t, 0, u);
    }
    if EarlyGps(t, g) {
      RowsApart(t, 0, |t| - 1);
      NoRowTakesEarly(t, 0, g);
    }
  }

  lemma {:induction false} NoRowBehind(t: seq<Row>, i: nat, u: int)
    requires TableOk(t) && i <= |t| && u < Oldest(t)
    ensures UnixToGpsFrom(t, i, u) == 0
    decreases |t| - i
  {
    if i < |t| {
      RowsApart(t, i, |t| - 1);
      NoRowBehind(t, i + 1, u);
    }
  }

  lemma {:induction false} NoRowTakesEarly(t: seq<Row>, i: nat, g: int)
    requires TableOk(t) && i <= |t| && EarlyGps(t, g)
    ensures GpsToUnixFrom(t, i, g) == 0
    decreases |t| - i
  {
    if i < |t| {
      RowsApart(t, i, |t| - 1);
      RowsApart(t, 0, i);
      NoRowTakesEarly(t, i + 1, g);
    }
  }

  /** From 2038 on, for 68 years, the way back finds no row of any table of sensible size and gives zero. */
  lemma After2038(t: seq<Row>, u: int)
    requires TableOk(t) && |t| <= UNIX_GPS_DIFF && TWO_31 <= u < TWO_32
    ensures GpsToUnixSeconds(t, UnixToGpsSeconds(t, u)) == 0
  {
    RowsApart(t, 0, |t| - 1);
    var k := UnixRow(t, 0, u);
    assert u >= t[0].date && k == 0;
    NoRowTakes(t, 0, u);
  }

  lemma {:induction false} NoRowTakes(t: seq<Row>, i: nat, u: int)
    requires TableOk(t) && |t| <= UNIX_GPS_DIFF && i <= |t| && TWO_31 <= u < TWO_32
    ensures GpsToUnixFrom(t, i, u - UNIX_GPS_DIFF + t[0].leaps) == 0
    decreases |t| - i
  {
    if i < |t| {
      RowsApart(t, 0, i);
      RowsApart(t, i, |t| - 1);
      HighBits(u + i, i);
      NoRowTakes(t, i + 1, u);
    }
  }

  /** Behind 2^31 the 32-bit value is negative, and little more than zero right behind 2^32. */
  lemma HighBits(x: int, i: nat)
    requires TWO_31 <= x < TWO_32 + i && i < TWO_31
    ensures ToInt32(x) < 0 || ToInt32(x) < i
  {
    if x < TWO_32 {
      Modular.DivModUnique(x, TWO_32, 0, x);
    } else {
      Modular.DivModUnique(x, TWO_32, 1, x - TWO_32);
    }
  }

  /** GPS time runs on: later Unix times have later GPS times. */
  lemma UnixToGpsIncreases(t: seq<Row>, u: int, v: int)
    requires TableOk(t) && Oldest(t) <= u < v
    ensures UnixToGpsSeconds(t, u) < UnixToGpsSeconds(t, v)
  {
    var j := UnixRow(t, 0, u);
    var k := UnixRow(t, 0, v);
    assert k <= j;
    RowsApart(t, k, j);
  }

  /** The GPS second right before the one that Unix time `t[i].date` maps to was inserted. */
  ghost predicate IsInserted(t: seq<Row>, g: int) {
    exists i: nat :: i < |t| - 1 && g == t[i].date - UNIX_GPS_DIFF + t[i].leaps - 1
  }

  /** The row that `GpsToUnixSeconds` uses. */
  lemma {:induction false} GpsRow(t: seq<Row>, i: nat, g: int) returns (k: nat)
    requires TableOk(t) && i < |t|
    requires g >= Oldest(t) - UNIX_GPS_DIFF + t[|t| - 1].leaps && g + UNIX_GPS_DIFF - t[0].leaps < TWO_31
    requires i > 0 ==> g + UNIX_GPS_DIFF - t[i - 1].leaps < t[i - 1].date
    ensures i <= k < |t| && GpsToUnixFrom(t, i, g) == g + UNIX_GPS_DIFF - t[k].leaps >= t[k].date
    ensures k > 0 ==> g + UNIX_GPS_DIFF - t[k - 1].leaps < t[k - 1].date
    decreases |t| - i
  {
    RowsApart(t, i, |t| - 1);
    RowsApart(t, 0, i);
    if i > 0 {
      RowsApart(t, 0, i - 1);
    }
    var result := g + (UNIX_GPS_DIFF - t[i].leaps);
    assert -TWO_31 <= result < TWO_31;
    if result >= t[i].date {
      k := i;
    } else {
      k := GpsRow(t, i + 1, g);
    }
  }

  /**
    GPS to Unix and back is the identity except at an inserted second, which Unix time does not
    have: it comes back as the next second.  So it is for every GPS time from the oldest row on
    whose Unix time fits 32 bits, and of the later ones exactly for those whose Unix time happens to
    pass the newest row in its low 32 bits.
  */
  lemma GpsRoundTrip(t: seq<Row>, g: int)
    requires TableOk(t) && g >= UnixToGpsSeconds(t, Oldest(t))
    ensures UnixToGpsSeconds(t, GpsToUnixSeconds(t, g)) == (if IsInserted(t, g) then g + 1 else g)
      <==> var u := g + UNIX_GPS_DIFF - t[0].leaps; u < TWO_31 || ToInt32(u) >= t[0].date
  {
    hide GpsToUnixFrom, UnixToGpsSeconds, IsInserted, ToInt32;
    if g + UNIX_GPS_DIFF - t[0].leaps < TWO_31 {
      GpsRoundTripBefore2038(t, g);
    } else {
      GpsRoundTripAfter2038(t, g);
    }
  }

  lemma GpsRoundTripBefore2038(t: seq<Row>, g: int)
    requires TableOk(t)
    requires g >= UnixToGpsSeconds(t, Oldest(t)) && g + UNIX_GPS_DIFF - t[0].leaps < TWO_31
    ensures UnixToGpsSeconds(t, GpsToUnixSeconds(t, g)) == if IsInserted(t, g) then g + 1 else g
  {
    var o := UnixRow(t, 0, Oldest(t));
    RowsApart(t, o, |t| - 1);
    var k := GpsRow(t, 0, g);
    var u := GpsToUnixSeconds(t, g);
    RowsApart(t, k, |t| - 1);
    var j := UnixRow(t, 0, u);
    RowsApart(t, j, k);
    if j < k {
      RowsApart(t, j, k - 1);
      assert j == k - 1 && u == t[j].date;
      assert IsInserted(t, g);
    } else {
      NotInserted(t, k, g);
    }
  }

  lemma GpsRoundTripAfter2038(t: seq<Row>, g: int)
    requires TableOk(t) && g + UNIX_GPS_DIFF - t[0].leaps >= TWO_31
    ensures !IsInserted(t, g)
    ensures UnixToGpsSeconds(t, GpsToUnixSeconds(t, g)) == g
      <==> ToInt32(g + UNIX_GPS_DIFF - t[0].leaps) >= t[0].date
  {
    RowsApart(t, 0, |t| - 1);
    NotInserted(t, 0, g);
    GpsIsLater(t, 1, g);
  }

  /** Behind 32 bits a wrong row may take the GPS time, or none, but never with a result that leads back. */
  lemma {:induction false} GpsIsLater(t: seq<Row>, i: nat, g: int)
    requires TableOk(t) && 1 <= i <= |t| && g + UNIX_GPS_DIFF - t[0].leaps >= TWO_31
    ensures UnixToGpsSeconds(t, GpsToUnixFrom(t, i, g)) != g && GpsToUnixFrom(t, i, g) >= 0
    decreases |t| - i
  {
    RowsApart(t, 0, |t| - 1);
    if i < |t| {
      RowsApart(t, 0, i);
      GpsIsLater(t, i + 1, g);
    } else {
      ZeroIsBeforeTable(t, 0);
    }
  }

  lemma {:induction false} ZeroIsBeforeTable(t: seq<Row>, i: nat)
    requires TableOk(t) && i <= |t|
    ensures UnixToGpsFrom(t, i, 0) == 0
    decreases |t| - i
  {
    if i < |t| {
      RowsApart(t, i, |t| - 1);
      ZeroIsBeforeTable(t, i + 1);
    }
  }

  /** A second that goes through row `k` there and back was not inserted. */
  lemma NotInserted(t: seq<Row>, k: nat, g: int)
    requires TableOk(t) && k < |t| && g + UNIX_GPS_DIFF - t[k].leaps >= t[k].date
    requires forall j :: 0 <= j < k ==> g + UNIX_GPS_DIFF - t[k].leaps < t[j].date
    ensures !IsInserted(t, g)
  {
    if IsInserted(t, g) {
      var i: nat :| i < |t| - 1 && g == t[i].date - UNIX_GPS_DIFF + t[i].leaps - 1;
      if i < k { RowsApart(t, i, k); } else { RowsApart(t, k, i); }
    }
  }

  // ---------------------------------------------------------------- micro- and nanoseconds

  const ONE_MILLION: int := 1_000_000
  const ONE_BILLION: int := 1_000_000_000

  /** Division and remainder that truncate toward zero. */
  function TruncDiv(x: int, m: int): int
    requires m > 0
  {
    if x >= 0 then x / m else -(-x / m)
  }

  function TruncMod(x: int, m: int): int
    requires m > 0
  {
    x - TruncDiv(x, m) * m
  }

  /** The remainder has the sign of the dividend. */
  lemma TruncRule(x: int, m: nat)
    requires m > 0
    ensures x == TruncDiv(x, m) * m + TruncMod(x, m) && 0 - m < TruncMod(x, m) < m
    ensures (x >= 0 ==> TruncMod(x, m) >= 0) && (x <= 0 ==> TruncMod(x, m) <= 0)
  {
  }

  /** `UnixToGpsMicroseconds` and `UnixToGpsNanoseconds`, with `m` fractions to the second. */
  function UnixToGpsFractions(t: seq<Row>, m: int, x: int): int
    requires m > 0
  {
    UnixToGpsSeconds(t, TruncDiv(x, m)) * m + TruncMod(x, m)
  }

  /** `GpsToUnixMicroseconds` and `GpsToUnixNanoseconds`. */
  function GpsToUnixFractions(t: seq<Row>, m: int, x: int): int
    requires m > 0
  {
    GpsToUnixSeconds(t, TruncDiv(x, m)) * m + TruncMod(x, m)
  }

  lemma FractionsSplit(q: int, r: int, m: nat)
    requires 0 <= r < m && q >= 0
    ensures TruncDiv(q * m + r, m) == q && TruncMod(q * m + r, m) == r
  {
    assert q * m >= 0;
    Modular.DivModUnique(q * m + r, m, q, r);
  }

  lemma FractionsOf(x: int, m: nat)
    requires m > 0 && x >= 0
    ensures 0 <= TruncMod(x, m) < m && x == TruncDiv(x, m) * m + TruncMod(x, m) && TruncDiv(x, m) >= 0
  {
  }

  lemma SecondsFrom(x: int, m: nat, lo: nat)
    requires m > 0 && lo * m <= x
    ensures x >= 0 && lo <= TruncDiv(x, m)
  {
    assert 0 <= lo * m;
    FractionsOf(x, m);
    var q := TruncDiv(x, m);
    assert (q + 1) * m == q * m + m;
    Modular.MulMonotone(q + 1, lo, m);
  }

  lemma SecondsBelow(x: int, m: nat, hi: nat)
    requires m > 0 && 0 <= x < hi * m
    ensures TruncDiv(x, m) < hi
  {
    FractionsOf(x, m);
    Modular.MulMonotone(hi, TruncDiv(x, m), m);
  }

  /** Earlier times have fewer seconds, or as many and fewer fractions. */
  lemma FractionsOrdered(x: int, y: int, m: nat)
    requires m > 0 && 0 <= x < y
    ensures TruncDiv(x, m) < TruncDiv(y, m) || (TruncDiv(x, m) == TruncDiv(y, m) && TruncMod(x, m) < TruncMod(y, m))
  {
    FractionsOf(x, m);
    FractionsOf(y, m);
    var u, v := TruncDiv(x, m), TruncDiv(y, m);
    assert (v + 1) * m == v * m + m;
    Modular.MulMonotone(v + 1, u, m);
  }

  lemma GpsIsPositive(t: seq<Row>, u: int)
    requires TableOk(t) && u >= Oldest(t)
    ensures UnixToGpsSeconds(t, u) >= 0
  {
    var k := UnixRow(t, 0, u);
    RowsApart(t, k, |t| - 1);
  }

  /** The round trip of whole seconds carries over to their fractions, with the same condition. */
  lemma UnixFractionsRoundTrip(t: seq<Row>, m: nat, x: int)
    requires TableOk(t) && m > 0 && Oldest(t) * m <= x
    ensures GpsToUnixFractions(t, m, UnixToGpsFractions(t, m, x)) == x
      <==> TruncDiv(x, m) < TWO_31 || ToInt32(TruncDiv(x, m)) >= t[0].date
  {
    SecondsFrom(x, m, Oldest(t));
    FractionsOf(x, m);
    var u := TruncDiv(x, m);
    GpsIsPositive(t, u);
    FractionsSplit(UnixToGpsSeconds(t, u), TruncMod(x, m), m);
    UnixRoundTrip(t, u);
    MultiplesDiffer(GpsToUnixSeconds(t, UnixToGpsSeconds(t, u)), u, m);
  }

  lemma MultiplesDiffer(a: int, b: int, m: nat)
    requires m > 0
    ensures a * m == b * m <==> a == b
  {
    Modular.MulMonotone(a + 1, b, m);
    Modular.MulMonotone(b + 1, a, m);
    assert (a + 1) * m == a * m + m && (b + 1) * m == b * m + m;
  }

  /** With the shipped table: micro- and nanoseconds from 2006 to 2038 survive the way there and back. */
  lemma ShippedRoundTrips(us: int, ns: int)
    requires 1136073600 * ONE_MILLION <= us < TWO_31 * ONE_MILLION
    requires 1136073600 * ONE_BILLION <= ns < TWO_31 * ONE_BILLION
    ensures GpsToUnixFractions(LEAP_SECONDS, ONE_MILLION, UnixToGpsFractions(LEAP_SECONDS, ONE_MILLION, us)) == us
    ensures GpsToUnixFractions(LEAP_SECONDS, ONE_BILLION, UnixToGpsFractions(LEAP_SECONDS, ONE_BILLION, ns)) == ns
  {
    ShippedTableIsOk();
    UnixFractionsRoundTrip(LEAP_SECONDS, ONE_MILLION, us);
    UnixFractionsRoundTrip(LEAP_SECONDS, ONE_BILLION, ns);
    SecondsBelow(us, ONE_MILLION, TWO_31);
    SecondsBelow(ns, ONE_BILLION, TWO_31);
  }

  /** And so does the GPS round trip. */
  lemma GpsFractionsRoundTrip(t: seq<Row>, m: nat, x: int)
    requires TableOk(t) && m > 0 && x >= 0 && TruncDiv(x, m) >= UnixToGpsSeconds(t, Oldest(t))
    ensures var g := TruncDiv(x, m); var u := g + UNIX_GPS_DIFF - t[0].leaps;
      UnixToGpsFractions(t, m, GpsToUnixFractions(t, m, x)) == (if IsInserted(t, g) then x + m else x)
      <==> u < TWO_31 || ToInt32(u) >= t[0].date
  {
    hide GpsToUnixSeconds, UnixToGpsSeconds, IsInserted, ToInt32;
    FractionsOf(x, m);
    var g := TruncDiv(x, m);
    UnixIsPositive(t, g);
    FractionsSplit(GpsToUnixSeconds(t, g), TruncMod(x, m), m);
    GpsRoundTrip(t, g);
    assert (g + 1) * m == g * m + m;
    var g' := UnixToGpsSeconds(t, GpsToUnixSeconds(t, g));
    MultiplesDiffer(g', if IsInserted(t, g) then g + 1 else g, m);
  }

  lemma UnixIsPositive(t: seq<Row>, g: int)
    requires TableOk(t) && g >= UnixToGpsSeconds(t, Oldest(t))
    ensures GpsToUnixSeconds(t, g) >= 0
  {
    if g + UNIX_GPS_DIFF - t[0].leaps < TWO_31 {
      var o := UnixRow(t, 0, Oldest(t));
      RowsApart(t, o, |t| - 1);
      var k := GpsRow(t, 0, g);
      RowsApart(t, k, |t| - 1);
    } else {
      GpsIsLater(t, 1, g);
    }
  }

  lemma UnixToGpsFractionsIncreases(t: seq<Row>, m: nat, x: int, y: int)
    requires TableOk(t) && m > 0 && Oldest(t) * m <= x < y
    ensures UnixToGpsFractions(t, m, x) < UnixToGpsFractions(t, m, y)
  {
    SecondsFrom(x, m, Oldest(t));
    FractionsOf(x, m);
    FractionsOf(y, m);
    FractionsOrdered(x, y, m);
    var u, v := TruncDiv(x, m), TruncDiv(y, m);
    if u < v {
      UnixToGpsIncreases(t, u, v);
      var g := UnixToGpsSeconds(t, u);
      assert (g + 1) * m == g * m + m;
      Modular.MulMonotone(g + 1, UnixToGpsSeconds(t, v), m);
    }
  }

  /** At Unix time `date` GPS has counted `leaps` seconds, one of them inserted right before. */
  ghost predicate LeapsAt(date: int, leaps: int) {
    var before := date - 1 - UNIX_GPS_DIFF + leaps - 1;
    && UnixToGpsSeconds(LEAP_SECONDS, date - 1) == before
    && UnixToGpsSeconds(LEAP_SECONDS, date) == before + 2
    && IsInserted(LEAP_SECONDS, before + 1) && GpsToUnixSeconds(LEAP_SECONDS, before + 1) == date
  }

  lemma LeapsAtRow(i: nat)
    requires i < |LEAP_SECONDS| - 1
    ensures LeapsAt(LEAP_SECONDS[i].date, LEAP_SECONDS[i].leaps)
  {
    ShippedTableIsOk();
    var t := LEAP_SECONDS;
    var date, leaps := t[i].date, t[i].leaps;
    RowsApart(t, 0, i);
    RowsApart(t, i, i + 1);
    RowsApart(t, i + 1, |t| - 1);
    var j := UnixRow(t, 0, date - 1);
    if j <= i { RowsApart(t, j, i); } else { RowsApart(t, i + 1, j); }
    assert j == i + 1;
    var k := UnixRow(t, 0, date);
    if k < i { RowsApart(t, k, i); } else { RowsApart(t, i, k); }
    assert k == i;
    var g := date - UNIX_GPS_DIFF + leaps - 1;
    k := GpsRow(t, 0, g);
    if k <= i { RowsApart(t, k, i); } else { RowsApart(t, i + 1, k); }
    assert k == i + 1;
  }

  /**
    The leap seconds since the table begins: at the end of 2008, as the comment of time_conversion.h
    tabulates it, of June 2012, of June 2015 and of 2016.
  */
  lemma LeapSecondsOfTable()
    ensures UnixToGpsSeconds(LEAP_SECONDS, 1230767999) == 914803213
    ensures UnixToGpsSeconds(LEAP_SECONDS, 1230768000) == 914803215
    ensures IsInserted(LEAP_SECONDS, 914803214) && GpsToUnixSeconds(LEAP_SECONDS, 914803214) == 1230768000
    ensures LeapsAt(1341100800, 16) && LeapsAt(1435708800, 17) && LeapsAt(1483228800, 18)
  {
    LeapsAtRow(0);
    LeapsAtRow(1);
    LeapsAtRow(2);
    LeapsAtRow(3);
  }
}
