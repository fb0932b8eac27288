/** The conversions between UTC and GPS time of chirpstack/src/gpstime.rs: two loops over a table of
    leap seconds. Instants and durations are whole numbers of a tick of any length. */
module GpsTime {

  /** From the instant after `at`, UTC is `length` behind what it was. */
  datatype Leap = Leap(at: int, length: int)

  /** The leaps that lie strictly before t, added up. */
  function Offset(table: seq<Leap>, t: int): int {
    if table == [] then 0
    else (if table[0].at < t then table[0].length else 0) + Offset(table[1..], t)
  }

  function ToGps(table: seq<Leap>, epoch: int, t: int): int {
    t - epoch + Offset(table, t)
  }

  /** x with every leap it lies beyond taken off, in the order of the table. */
  function Stripped(table: seq<Leap>, x: int): int {
    if table == [] then x
    else Stripped(table[1..], if table[0].at < x then x - table[0].length else x)
  }

  function ToDate(table: seq<Leap>, epoch: int, d: int): int {
    Stripped(table, epoch + d)
  }

  method ToGpsTime(table: seq<Leap>, epoch: int, t: int) returns (d: int)
    ensures d == ToGps(table, epoch, t)
  {
    var offset := 0;
    for i := 0 to |table|
      invariant offset + Offset(table[i..], t) == Offset(table, t)
    {
      if table[i].at < t {
        offset := offset + table[i].length;
      }
      assert table[i..][1..] == table[i + 1..];
    }
    return t - epoch + offset;
  }

  method ToDateTime(table: seq<Leap>, epoch: int, d: int) returns (t: int)
    ensures t == ToDate(table, epoch, d)
  {
    t := epoch + d;
    for i := 0 to |table|
      invariant Stripped(table[i..], t) == ToDate(table, epoch, d)
    {
      if table[i].at < t {
        t := t - table[i].length;
      }
    }
  }

  // From UTC and back

  /** A table in the order of time, whose leaps all go forward. */
  predicate Sorted(table: seq<Leap>) {
    (forall i :: 0 <= i < |table| ==> table[i].length >= 0) &&
    (forall i, j :: 0 <= i < j < |table| ==> table[i].at <= table[j].at)
  }

  lemma {:induction false} NothingBefore(table: seq<Leap>, t: int)
    requires forall i :: 0 <= i < |table| ==> table[i].at >= t
    ensures Offset(table, t) == 0
    ensures Stripped(table, t) == t
  {
    if table != [] {
      NothingBefore(table[1..], t);
    }
  }

  lemma {:induction false} OffsetMonotone(table: seq<Leap>, t: int, u: int)
    requires t <= u && forall i :: 0 <= i < |table| ==> table[i].length >= 0
    ensures 0 <= Offset(table, t) <= Offset(table, u)
  {
    if table != [] {
      OffsetMonotone(table[1..], t, u);
    }
  }

  lemma {:induction false} StripOffset(table: seq<Leap>, t: int)
    requires Sorted(table)
    ensures Stripped(table, t + Offset(table, t)) == t
  {
    if table != [] {
      if table[0].at < t {
        OffsetMonotone(table[1..], t, t);
        StripOffset(table[1..], t);
      } else {
        NothingBefore(table, t);
      }
    }
  }

  /** Every instant survives the way to GPS time and back. */
  lemma DateOfGps(table: seq<Leap>, epoch: int, t: int)
    requires Sorted(table)
    ensures ToDate(table, epoch, ToGps(table, epoch, t)) == t
  {
    StripOffset(table, t);
    assert epoch + ToGps(table, epoch, t) == t + Offset(table, t);
  }

  lemma GpsIncreases(table: seq<Leap>, epoch: int, t: int, u: int)
    requires Sorted(table) && t < u
    ensures ToGps(table, epoch, t) < ToGps(table, epoch, u)
  {
    OffsetMonotone(table, t, u);
  }

  // From GPS time and back

  /** A table in which every leap is real and no longer than the time since the leap before it. */
  predicate Spaced(table: seq<Leap>) {
    (forall i :: 0 <= i < |table| ==> table[i].length > 0) &&
    (forall i, j :: 0 <= i < j < |table| ==> table[i].at + table[j].length <= table[j].at)
  }

  lemma SpacedIsSorted(table: seq<Leap>)
    requires Spaced(table)
    ensures Sorted(table)
  {}

  /** The leaps ahead of place i, added up. */
  function Total(table: seq<Leap>, i: nat): int
    requires i <= |table|
  {
    if i == 0 then 0 else table[0].length + Total(table[1..], i - 1)
  }

  /** GPS times that no instant has: those that pass while UTC stands at the end of leap i. */
  predicate InLeap(table: seq<Leap>, epoch: int, i: nat, d: int)
    requires i < |table|
  {
    var start := table[i].at - epoch + Total(table, i);
    start < d <= start + table[i].length
  }

  /** How much of x is lost, going to UTC and back. */
  function Lost(table: seq<Leap>, x: int): int {
    if table == [] || x <= table[0].at then 0
    else if x <= table[0].at + table[0].length then table[0].length
    else Lost(table[1..], x - table[0].length)
  }

  lemma {:induction false} StrippedAbove(table: seq<Leap>, x: int, low: int)
    requires Spaced(table) && x > low
    requires forall i :: 0 <= i < |table| ==> low + table[i].length <= table[i].at
    ensures Stripped(table, x) > low
  {
    if table != [] {
      StrippedAbove(table[1..], if table[0].at < x then x - table[0].length else x, low);
    }
  }

  lemma {:induction false} LostIs(table: seq<Leap>, x: int)
    requires Spaced(table)
    ensures var t := Stripped(table, x);
            t + Offset(table, t) == x - Lost(table, x)
  {
    if table != [] {
      var y := x - table[0].length;
      if x <= table[0].at {
        NothingBefore(table, x);
      } else if x <= table[0].at + table[0].length {
        NothingBefore(table, y);
        NothingBefore(table[1..], y);
      } else {
        LostIs(table[1..], y);
        StrippedAbove(table[1..], y, table[0].at);
      }
    }
  }

  lemma {:induction false} LostInLeap(table: seq<Leap>, epoch: int, i: nat, d: int)
    requires Spaced(table) && i < |table| && InLeap(table, epoch, i, d)
    ensures Lost(table, epoch + d) == table[i].length
  {
    if i > 0 {
      TotalPositive(table[1..], i - 1);
      assert table[1..][i - 1] == table[i];
      LostInLeap(table[1..], epoch, i - 1, d - table[0].length);
    }
  }

  lemma {:induction false} TotalPositive(table: seq<Leap>, i: nat)
    requires Spaced(table) && i <= |table|
    ensures Total(table, i) >= 0
  {
    if i > 0 {
      TotalPositive(table[1..], i - 1);
    }
  }

  lemma {:induction false} LostOnlyInLeap(table: seq<Leap>, epoch: int, d: int) returns (i: nat)
    requires Spaced(table) && Lost(table, epoch + d) != 0
    ensures i < |table| && InLeap(table, epoch, i, d)
  {
    if epoch + d <= table[0].at + table[0].length {
      i := 0;
    } else {
      var j := LostOnlyInLeap(table[1..], epoch, d - table[0].length);
      i := j + 1;
      assert table[1..][j] == table[i];
    }
  }

  /** A GPS time survives the way to UTC and back unless it falls in a leap, and then loses just that leap. */
  lemma GpsOfDate(table: seq<Leap>, epoch: int, d: int)
    requires Spaced(table)
    ensures var back := ToGps(table, epoch, ToDate(table, epoch, d));
            (back == d <==> forall i :: 0 <= i < |table| ==> !InLeap(table, epoch, i, d)) &&
            (forall i :: 0 <= i < |table| && InLeap(table, epoch, i, d) ==> back == d - table[i].length)
  {
    LostIs(table, epoch + d);
    forall i | 0 <= i < |table| && InLeap(table, epoch, i, d)
      ensures Lost(table, epoch + d) == table[i].length
    {
      LostInLeap(table, epoch, i, d);
    }
    if Lost(table, epoch + d) != 0 {
      var i := LostOnlyInLeap(table, epoch, d);
    }
  }

  /** The skipped GPS times are exactly those that are the GPS time of nothing. */
  lemma InLeapIsUnreached(table: seq<Leap>, epoch: int, d: int)
    requires Spaced(table)
    ensures (exists i :: 0 <= i < |table| && InLeap(table, epoch, i, d)) <==> forall t :: ToGps(table, epoch, t) != d
  {
    GpsOfDate(table, epoch, d);
    SpacedIsSorted(table);
    if t :| ToGps(table, epoch, t) == d {
      DateOfGps(table, epoch, t);
    }
  }

  // The table of the source, in nanoseconds since the start of the year 1

  const SECOND: int := 1_000_000_000

  function DaysBeforeMonth(m: int): int {
    match m
    case 1 => 0
    case 6 => 151
    case 7 => 181
    case 12 => 334
    case _ => 0
  }

  /** Midnight at the start of a day of January, June, July or December. */
  function Midnight(year: int, month: int, day: int): int {
    var leapDay := if month > 2 && year % 4 == 0 && (year % 100 != 0 || year % 400 == 0) then 1 else 0;
    var y := year - 1;
    (365 * y + y / 4 - y / 100 + y / 400 + DaysBeforeMonth(month) + leapDay + day - 1) * 86400 * SECOND
  }

  function LastSecond(year: int, month: int, day: int): Leap {
    Leap(Midnight(year, month, day) + 86399 * SECOND, SECOND)
  }

  const GPS_EPOCH_TIME := Midnight(1980, 1, 6)

  function LeapSeconds(): seq<Leap> {
    [LastSecond(1981, 6, 30), LastSecond(1982, 6, 30), LastSecond(1983, 6, 30), LastSecond(1985, 6, 30),
     LastSecond(1987, 12, 31), LastSecond(1989, 12, 31), LastSecond(1990, 12, 31), LastSecond(1992, 6, 30),
     LastSecond(1993, 6, 30), LastSecond(1994, 6, 30), LastSecond(1995, 12, 31), LastSecond(1997, 6, 30),
     LastSecond(1998, 12, 31), LastSecond(2005, 12, 31), LastSecond(2008, 12, 31), LastSecond(2012, 6, 30),
     LastSecond(2015, 6, 30), LastSecond(2016, 12, 31)]
  }

  /** The instants of the table, in seconds since the GPS epoch. */
  function LeapInstants(): seq<int> {
    [46828799, 78364799, 109900799, 173059199, 252028799, 315187199, 346723199, 393983999, 425519999,
     457055999, 504489599, 551750399, 599183999, 820108799, 914803199, 1025135999, 1119743999, 1167263999]
  }

  function SecondAfter(seconds: int): Leap {
    Leap(GPS_EPOCH_TIME + seconds * SECOND, SECOND)
  }

  lemma InstantsUntil1989()
    ensures LastSecond(1981, 6, 30) == SecondAfter(46828799)
    ensures LastSecond(1982, 6, 30) == SecondAfter(78364799)
    ensures LastSecond(1983, 6, 30) == SecondAfter(109900799)
    ensures LastSecond(1985, 6, 30) == SecondAfter(173059199)
    ensures LastSecond(1987, 12, 31) == SecondAfter(252028799)
    ensures LastSecond(1989, 12, 31) == SecondAfter(315187199)
  {}

  lemma InstantsUntil1997()
    ensures LastSecond(1990, 12, 31) == SecondAfter(346723199)
    ensures LastSecond(1992, 6, 30) == SecondAfter(393983999)
    ensures LastSecond(1993, 6, 30) == SecondAfter(425519999)
    ensures LastSecond(1994, 6, 30) == SecondAfter(457055999)
    ensures LastSecond(1995, 12, 31) == SecondAfter(504489599)
    ensures LastSecond(1997, 6, 30) == SecondAfter(551750399)
  {}

  lemma InstantsUntil2016()
    ensures LastSecond(1998, 12, 31) == SecondAfter(599183999)
    ensures LastSecond(2005, 12, 31) == SecondAfter(820108799)
    ensures LastSecond(2008, 12, 31) == SecondAfter(914803199)
    ensures LastSecond(2012, 6, 30) == SecondAfter(1025135999)
    ensures LastSecond(2015, 6, 30) == SecondAfter(1119743999)
    ensures LastSecond(2016, 12, 31) == SecondAfter(1167263999)
  {}

  lemma InstantsAre()
    ensures |LeapSeconds()| == |LeapInstants()| == 18
    ensures forall i :: 0 <= i < 18 ==>
              LeapSeconds()[i] == SecondAfter(LeapInstants()[i])
  {
    InstantsUntil1989();
    InstantsUntil1997();
    InstantsUntil2016();
    hide LastSecond, SecondAfter;
  }

  lemma TableIsSpaced()
    ensures Spaced(LeapSeconds())
  {
    InstantsAre();
    var table := LeapSeconds();
    forall i, j | 0 <= i < j < |table|
      ensures table[i].at + table[j].length <= table[j].at
    {
      InstantsAscend(i, j);
    }
  }

  lemma InstantsAscend(i: nat, j: nat)
    requires i < j < |LeapInstants()|
    ensures LeapInstants()[i] + 1 < LeapInstants()[j]
  {}

  lemma {:induction false} TotalOfSeconds(table: seq<Leap>, k: nat)
    requires k <= |table| && forall i :: 0 <= i < |table| ==> table[i].length == SECOND
    ensures Total(table, k) == k * SECOND
  {
    if k > 0 {
      TotalOfSeconds(table[1..], k - 1);
    }
  }

  lemma {:induction false} OffsetIsTotal(table: seq<Leap>, t: int, k: nat)
    requires k <= |table|
    requires forall i :: 0 <= i < k ==> table[i].at < t
    requires forall i :: k <= i < |table| ==> table[i].at >= t
    ensures Offset(table, t) == Total(table, k)
  {
    if k > 0 {
      OffsetIsTotal(table[1..], t, k - 1);
    } else {
      NothingBefore(table, t);
    }
  }

  /** GPS time of an instant that k leaps of the table precede. */
  lemma AfterLeaps(seconds: int, k: nat)
    requires k <= 18
    requires k > 0 ==> LeapInstants()[k - 1] < seconds
    requires k < 18 ==> seconds <= LeapInstants()[k]
    ensures ToGps(LeapSeconds(), GPS_EPOCH_TIME, GPS_EPOCH_TIME + seconds * SECOND) == (seconds + k) * SECOND
  {
    InstantsAre();
    hide LeapSeconds;
    var table, t := LeapSeconds(), GPS_EPOCH_TIME + seconds * SECOND;
    forall i | 0 <= i < 18
      ensures i < k ==> table[i].at < t
      ensures i >= k ==> table[i].at >= t
    {
      if i < k - 1 {
        InstantsAscend(i, k - 1);
      } else if i > k {
        InstantsAscend(k, i);
      }
    }
    OffsetIsTotal(table, t, k);
    TotalOfSeconds(table, k);
  }

  /** The instants the source lists with their GPS times, in both directions. */
  lemma KnownInstants()
    ensures Known(GPS_EPOCH_TIME, 0)
    ensures Known(Midnight(2010, 1, 28) + (16 * 3600 + 36 * 60 + 24) * SECOND, 948731799)
    ensures Known(Midnight(2025, 7, 14), 1436486418)
    ensures Known(Midnight(2012, 6, 30) + 86399 * SECOND, 1025136014)
    ensures Known(Midnight(2012, 7, 1), 1025136016)
  {
    InstantsAt();
    hide *;
    InstantsKnown();
    KnownAfterLeaps(0, 0);
    KnownAfterLeaps(948731784, 15);
    KnownAfterLeaps(1436486400, 18);
    KnownAfterLeaps(1025135999, 15);
    KnownAfterLeaps(1025136000, 16);
  }

  lemma InstantsAt()
    ensures |LeapInstants()| == 18
    ensures 0 <= LeapInstants()[0]
    ensures LeapInstants()[14] < 948731784 <= LeapInstants()[15]
    ensures LeapInstants()[14] < 1025135999 <= LeapInstants()[15] < 1025136000 <= LeapInstants()[16]
    ensures LeapInstants()[17] < 1436486400
  {}

  /** An instant and its GPS time in seconds are converted into each other. */
  predicate Known(t: int, seconds: int) {
    Gps(t) == seconds * SECOND && ToDate(LeapSeconds(), GPS_EPOCH_TIME, seconds * SECOND) == t
  }

  lemma KnownAfterLeaps(seconds: int, k: nat)
    requires k <= 18
    requires k > 0 ==> LeapInstants()[k - 1] < seconds
    requires k < 18 ==> seconds <= LeapInstants()[k]
    ensures Known(GPS_EPOCH_TIME + seconds * SECOND, seconds + k)
  {
    hide ToGps, ToDate, LeapSeconds;
    AfterLeaps(seconds, k);
    SourceTableRoundTrip(GPS_EPOCH_TIME + seconds * SECOND, 0);
  }

  function Gps(t: int): int {
    ToGps(LeapSeconds(), GPS_EPOCH_TIME, t)
  }

  lemma InstantsKnown()
    ensures Midnight(2010, 1, 28) + (16 * 3600 + 36 * 60 + 24) * SECOND == GPS_EPOCH_TIME + 948731784 * SECOND
    ensures Midnight(2025, 7, 14) == GPS_EPOCH_TIME + 1436486400 * SECOND
    ensures Midnight(2012, 6, 30) + 86399 * SECOND == GPS_EPOCH_TIME + 1025135999 * SECOND
    ensures Midnight(2012, 7, 1) == GPS_EPOCH_TIME + 1025136000 * SECOND
  {}

  /** With the table of the source, GPS time is a strictly increasing, invertible reading of UTC. */
  lemma SourceTableRoundTrip(t: int, u: int)
    ensures ToDate(LeapSeconds(), GPS_EPOCH_TIME, Gps(t)) == t
    ensures t < u <==> Gps(t) < Gps(u)
  {
    TableIsSpaced();
    hide LeapSeconds, ToDate, ToGps;
    SpacedIsSorted(LeapSeconds());
    DateOfGps(LeapSeconds(), GPS_EPOCH_TIME, t);
    if t < u {
      GpsIncreases(LeapSeconds(), GPS_EPOCH_TIME, t, u);
    } else if u < t {
      GpsIncreases(LeapSeconds(), GPS_EPOCH_TIME, u, t);
    }
  }

  /** Where the leaps of the source's table lie in GPS time. */
  lemma SourceLeaps(i: nat, d: int)
    requires i < 18
    ensures |LeapSeconds()| == 18
    ensures InLeap(LeapSeconds(), GPS_EPOCH_TIME, i, d) <==>
            (LeapInstants()[i] + i) * SECOND < d <= (LeapInstants()[i] + i + 1) * SECOND
  {
    InstantsAre();
    hide LeapSeconds, LeapInstants;
    TotalOfSeconds(LeapSeconds(), i);
  }

  /** For the source's table: a GPS time comes back from UTC as it was, or a second early if it lies within one
      of the 18 leaps. */
  lemma SourceTableLoses(d: int)
    ensures var back := Gps(ToDate(LeapSeconds(), GPS_EPOCH_TIME, d));
            && (back == d || back == d - SECOND)
            && (back == d - SECOND <==>
                exists i :: 0 <= i < 18 && (LeapInstants()[i] + i) * SECOND < d <= (LeapInstants()[i] + i + 1) * SECOND)
  {
    TableIsSpaced();
    InstantsAre();
    forall i | 0 <= i < 18
      ensures InLeap(LeapSeconds(), GPS_EPOCH_TIME, i, d) <==>
              (LeapInstants()[i] + i) * SECOND < d <= (LeapInstants()[i] + i + 1) * SECOND
    {
      SourceLeaps(i, d);
    }
    hide LeapSeconds, LeapInstants, ToGps, ToDate, InLeap;
    GpsOfDate(LeapSeconds(), GPS_EPOCH_TIME, d);
  }

  /** The second 46828800 of GPS time, the first to lie in a leap, comes back as the one before. */
  lemma LostSecond()
    ensures Gps(ToDate(LeapSeconds(), GPS_EPOCH_TIME, 46828800 * SECOND)) == 46828799 * SECOND
  {
    hide LeapSeconds, ToGps, ToDate;
    SourceTableLoses(46828800 * SECOND);
    assert (LeapInstants()[0] + 0) * SECOND < 46828800 * SECOND <= (LeapInstants()[0] + 0 + 1) * SECOND;
  }
}
