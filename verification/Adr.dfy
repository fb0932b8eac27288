/** The default data-rate algorithm of examples/adr_plugins/default.js. Numbers are integers, and reals
    where the script divides; the rounding of floating point is not modelled. */
module Adr {

  datatype Uplink = Uplink(fCnt: int, maxSnr: real, txPowerIndex: int)

  datatype Request = Request(
    adr: bool, dr: int, maxDr: int, txPowerIndex: int, maxTxPowerIndex: int, nbTrans: int,
    requiredSnrForDr: real, installationMargin: real, uplinkHistory: seq<Uplink>)

  datatype Response = Response(dr: int, txPowerIndex: int, nbTrans: int)

  const REQUIRED_HISTORY_COUNT := 20

  // The step loop

  function Min(a: int, b: int): int {
    if a < b then a else b
  }

  /** Where n steps lead: up the data rate first, then down the power; back steps only raise the power. */
  function IdealDr(n: int, dr: int, maxDr: int): int {
    if n > 0 && dr < maxDr then Min(dr + n, maxDr) else dr
  }

  function IdealTxPowerIndex(n: int, txPowerIndex: int, dr: int, maxTxPowerIndex: int, maxDr: int): int {
    if n > 0 then
      if txPowerIndex < maxTxPowerIndex then Min(txPowerIndex + n - (IdealDr(n, dr, maxDr) - dr), maxTxPowerIndex)
      else txPowerIndex
    else if txPowerIndex > 0 then
      if txPowerIndex + n > 0 then txPowerIndex + n else 0
    else txPowerIndex
  }

  method GetIdealTxPowerIndexAndDr(nbStep: int, txPowerIndex: int, dr: int, maxTxPowerIndex: int, maxDr: int)
    returns (p: int, d: int)
    ensures p == IdealTxPowerIndex(nbStep, txPowerIndex, dr, maxTxPowerIndex, maxDr)
    ensures d == IdealDr(nbStep, dr, maxDr)
  {
    var n := nbStep;
    p, d := txPowerIndex, dr;
    while n != 0
      invariant IdealDr(n, d, maxDr) == IdealDr(nbStep, dr, maxDr)
      invariant IdealTxPowerIndex(n, p, d, maxTxPowerIndex, maxDr)
             == IdealTxPowerIndex(nbStep, txPowerIndex, dr, maxTxPowerIndex, maxDr)
      decreases if n > 0 then n else -n
    {
      if n > 0 {
        if d < maxDr {
          d := d + 1;
        } else if p < maxTxPowerIndex {
          p := p + 1;
        }
        n := n - 1;
      } else {
        if p > 0 {
          p := p - 1;
        }
        n := n + 1;
      }
    }
  }

  /** Steps in one direction add up: n of them and then m more are n + m. */
  lemma StepsAdd(n: int, m: int, p: int, d: int, maxP: int, maxD: int)
    requires (n >= 0 && m >= 0) || (n <= 0 && m <= 0)
    ensures var d1, p1 := IdealDr(n, d, maxD), IdealTxPowerIndex(n, p, d, maxP, maxD);
            IdealDr(m, d1, maxD) == IdealDr(n + m, d, maxD) &&
            IdealTxPowerIndex(m, p1, d1, maxP, maxD) == IdealTxPowerIndex(n + m, p, d, maxP, maxD)
  {
    if n > 0 && m > 0 {
      var d1 := IdealDr(n, d, maxD);
      assert IdealDr(m, d1, maxD) == IdealDr(n + m, d, maxD);
    }
  }

  /** Steps in opposite directions do not cancel: the data rate is never given back. */
  lemma StepsDoNotCancel()
    ensures var d1, p1 := IdealDr(2, 0, 5), IdealTxPowerIndex(2, 1, 0, 7, 5);
            IdealDr(-2, d1, 5) == 2 && IdealTxPowerIndex(-2, p1, d1, 7, 5) == 0
  {}

  /** No step leaves the limits, and forward steps are all spent unless both limits are reached. */
  lemma StepsStayInLimits(n: int, p: int, d: int, maxP: int, maxD: int)
    requires 0 <= p <= maxP && d <= maxD
    ensures var d1, p1 := IdealDr(n, d, maxD), IdealTxPowerIndex(n, p, d, maxP, maxD);
            d <= d1 <= maxD && 0 <= p1 <= maxP &&
            (n >= 0 ==> p1 >= p && d1 - d + p1 - p == Min(n, maxD - d + maxP - p)) &&
            (p1 > p ==> d1 == maxD) &&
            (n <= 0 ==> d1 == d && p - p1 == Min(-n, p))
  {}

  /** A larger margin never lowers the data rate or raises the power. */
  lemma StepsMonotone(n: int, m: int, p: int, d: int, maxP: int, maxD: int)
    requires n <= m
    ensures IdealDr(n, d, maxD) <= IdealDr(m, d, maxD)
    ensures IdealTxPowerIndex(n, p, d, maxP, maxD) <= IdealTxPowerIndex(m, p, d, maxP, maxD)
  {}

  // Repetitions

  function NbTransFor(currentNbTrans: int, pktLossRate: real): int {
    var table := [[1, 1, 2], [1, 2, 3], [2, 3, 3], [3, 3, 3]];
    var current := if currentNbTrans < 1 then 1 else if currentNbTrans > 3 then 3 else currentNbTrans;
    var row := if pktLossRate < 5.0 then 0 else if pktLossRate < 10.0 then 1 else if pktLossRate < 30.0 then 2 else 3;
    table[row][current - 1]
  }

  method GetNbTrans(currentNbTrans: int, pktLossRate: real) returns (n: int)
    ensures n == NbTransFor(currentNbTrans, pktLossRate)
  {
    var pktLossTable := [[1, 1, 2], [1, 2, 3], [2, 3, 3], [3, 3, 3]];
    var current := currentNbTrans;
    if current < 1 {
      current := 1;
    }
    if current > 3 {
      current := 3;
    }
    var nbTransIndex := current - 1;
    if pktLossRate < 5.0 {
      return pktLossTable[0][nbTransIndex];
    } else if pktLossRate < 10.0 {
      return pktLossTable[1][nbTransIndex];
    } else if pktLossRate < 30.0 {
      return pktLossTable[2][nbTransIndex];
    }
    return pktLossTable[3][nbTransIndex];
  }

  /** Repetitions stay between 1 and 3, and move by at most one from a value in that range, two at a loss of 30. */
  lemma NbTransRange(n: int, loss: real)
    ensures 1 <= NbTransFor(n, loss) <= 3
    ensures 1 <= n <= 3 && loss < 30.0 ==> n - 1 <= NbTransFor(n, loss) <= n + 1
    ensures 5.0 <= loss ==> NbTransFor(n, loss) >= Min(n, 3)
  {}

  lemma NbTransMonotone(n: int, m: int, loss: real, more: real)
    requires n <= m && loss <= more
    ensures NbTransFor(n, loss) <= NbTransFor(m, more)
  {}

  /** At a steady loss the repetitions settle in two rounds. */
  lemma NbTransSettles(n: int, loss: real)
    ensures var two := NbTransFor(NbTransFor(n, loss), loss);
            NbTransFor(two, loss) == two
  {}

  // History

  /** Packets missing between the first uplink and the last. */
  function Gaps(history: seq<Uplink>): int {
    if |history| < 2 then 0 else history[1].fCnt - history[0].fCnt - 1 + Gaps(history[1..])
  }

  lemma {:induction false} GapsTelescope(history: seq<Uplink>)
    requires |history| >= 1
    ensures Gaps(history) == history[|history| - 1].fCnt - history[0].fCnt - (|history| - 1)
  {
    if |history| >= 2 {
      GapsTelescope(history[1..]);
    }
  }

  method GetPacketLossPercentage(history: seq<Uplink>) returns (r: real)
    ensures r == PacketLoss(history)
  {
    if |history| < REQUIRED_HISTORY_COUNT {
      return 0.0;
    }
    var lostPackets := 0;
    var previousFCnt := history[0].fCnt;
    for i := 1 to |history|
      invariant previousFCnt == history[i - 1].fCnt
      invariant lostPackets == previousFCnt - history[0].fCnt - (i - 1)
    {
      lostPackets := lostPackets + (history[i].fCnt - previousFCnt - 1);
      previousFCnt := history[i].fCnt;
    }
    return lostPackets as real / |history| as real * 100.0;
  }

  /** The share of the counters between first and last that did not arrive, in percent of the uplinks that did. */
  function PacketLoss(history: seq<Uplink>): real {
    if |history| < REQUIRED_HISTORY_COUNT then 0.0
    else (history[|history| - 1].fCnt - history[0].fCnt - (|history| - 1)) as real / |history| as real * 100.0
  }

  /** With counters that rise, the loss is never negative, and it is zero exactly when none is missing. */
  lemma LossIsZeroIff(history: seq<Uplink>)
    requires |history| >= REQUIRED_HISTORY_COUNT
    requires forall i :: 0 < i < |history| ==> history[i - 1].fCnt < history[i].fCnt
    ensures PacketLoss(history) >= 0.0
    ensures PacketLoss(history) == 0.0 <==> forall i :: 0 < i < |history| ==> history[i].fCnt == history[i - 1].fCnt + 1
  {
    var k := |history|;
    GapsTelescope(history);
    GapsZeroIff(history);
    var lost := history[k - 1].fCnt - history[0].fCnt - (k - 1);
    Percent(lost, k);
  }

  lemma Percent(lost: int, k: int)
    requires k > 0
    ensures lost >= 0 ==> lost as real / k as real * 100.0 >= 0.0
    ensures lost as real / k as real * 100.0 == 0.0 <==> lost == 0
  {}

  lemma {:induction false} GapsZeroIff(history: seq<Uplink>)
    requires forall i :: 0 < i < |history| ==> history[i - 1].fCnt < history[i].fCnt
    ensures Gaps(history) >= 0
    ensures Gaps(history) == 0 <==> forall i :: 0 < i < |history| ==> history[i].fCnt == history[i - 1].fCnt + 1
  {
    if |history| >= 2 {
      var rest := history[1..];
      assert forall i :: 0 < i < |rest| ==> rest[i] == history[i + 1] && rest[i - 1] == history[i];
      GapsZeroIff(rest);
      if Gaps(history) == 0 {
        forall i | 0 < i < |history|
          ensures history[i].fCnt == history[i - 1].fCnt + 1
        {
          if i > 1 {
            assert rest[i - 1].fCnt == rest[i - 2].fCnt + 1;
          }
        }
      }
    }
  }

  /** The largest SNR seen, and never less than -999. */
  function MaxSnr(history: seq<Uplink>): (r: real)
    ensures r >= -999.0
    ensures forall i :: 0 <= i < |history| ==> history[i].maxSnr <= r
    ensures r == -999.0 || exists i :: 0 <= i < |history| && history[i].maxSnr == r
  {
    if history == [] then -999.0
    else
      var last := history[|history| - 1].maxSnr;
      var before := MaxSnr(history[..|history| - 1]);
      if last > before then last else before
  }

  method GetMaxSnr(history: seq<Uplink>) returns (maxSnr: real)
    ensures maxSnr == MaxSnr(history)
  {
    maxSnr := -999.0;
    for i := 0 to |history|
      invariant maxSnr == MaxSnr(history[..i])
    {
      assert history[..i + 1][..i] == history[..i];
      if history[i].maxSnr > maxSnr {
        maxSnr := history[i].maxSnr;
      }
    }
    assert history[..|history|] == history;
  }

  function HistoryCount(history: seq<Uplink>, txPowerIndex: int): nat {
    if history == [] then 0
    else (if history[0].txPowerIndex == txPowerIndex then 1 else 0) + HistoryCount(history[1..], txPowerIndex)
  }

  method GetHistoryCount(history: seq<Uplink>, txPowerIndex: int) returns (count: nat)
    ensures count == HistoryCount(history, txPowerIndex)
  {
    count := 0;
    for i := 0 to |history|
      invariant count + HistoryCount(history[i..], txPowerIndex) == HistoryCount(history, txPowerIndex)
    {
      if history[i].txPowerIndex == txPowerIndex {
        count := count + 1;
      }
    }
  }

  // The algorithm

  function StepCount(req: Request): int {
    ((MaxSnr(req.uplinkHistory) - req.requiredSnrForDr - req.installationMargin) / 3.0).Floor
  }

  function Handled(req: Request): Response {
    if !req.adr then Response(req.dr, req.txPowerIndex, req.nbTrans)
    else
      var dr := Min(req.dr, req.maxDr);
      var nbTrans := NbTransFor(req.nbTrans, PacketLoss(req.uplinkHistory));
      var n := StepCount(req);
      if n < 0 && HistoryCount(req.uplinkHistory, req.txPowerIndex) != REQUIRED_HISTORY_COUNT then
        Response(dr, req.txPowerIndex, nbTrans)
      else
        Response(IdealDr(n, dr, req.maxDr),
                 IdealTxPowerIndex(n, req.txPowerIndex, dr, req.maxTxPowerIndex, req.maxDr), nbTrans)
  }

  method Handle(req: Request) returns (resp: Response)
    ensures resp == Handled(req)
  {
    resp := Response(req.dr, req.txPowerIndex, req.nbTrans);
    if !req.adr {
      return;
    }
    if req.dr > req.maxDr {
      resp := resp.(dr := req.maxDr);
    }
    var loss := GetPacketLossPercentage(req.uplinkHistory);
    var nbTrans := GetNbTrans(req.nbTrans, loss);
    resp := resp.(nbTrans := nbTrans);
    var snrMax := GetMaxSnr(req.uplinkHistory);
    var snrMargin := snrMax - req.requiredSnrForDr - req.installationMargin;
    var nStep := (snrMargin / 3.0).Floor;
    var count := GetHistoryCount(req.uplinkHistory, req.txPowerIndex);
    if nStep < 0 && count != REQUIRED_HISTORY_COUNT {
      return;
    }
    var p, d := GetIdealTxPowerIndexAndDr(nStep, resp.txPowerIndex, resp.dr, req.maxTxPowerIndex, req.maxDr);
    resp := resp.(dr := d, txPowerIndex := p);
  }

  // What the answer is, without the functions that compute it.

  /** The largest SNR of the history, and no less than -999. */
  ghost predicate IsTop(top: real, history: seq<Uplink>) {
    && top >= -999.0
    && (forall i :: 0 <= i < |history| ==> history[i].maxSnr <= top)
    && (top == -999.0 || exists i :: 0 <= i < |history| && history[i].maxSnr == top)
  }

  /** n is the greatest number of steps of 3 dB that fit between what is required, with the margin, and `top`. */
  predicate FitsSteps(req: Request, top: real, n: int) {
    var needed := req.requiredSnrForDr + req.installationMargin;
    needed + 3.0 * n as real <= top < needed + 3.0 * (n + 1) as real
  }

  lemma TopIs(top: real, history: seq<Uplink>)
    ensures IsTop(top, history) <==> top == MaxSnr(history)
  {
    var m := MaxSnr(history);
    if IsTop(top, history) {
      if i :| 0 <= i < |history| && history[i].maxSnr == top {
        assert top <= m;
      }
      if j :| 0 <= j < |history| && history[j].maxSnr == m {
        assert m <= top;
      }
    }
    hide MaxSnr;
  }

  lemma FloorIs(x: real, n: int)
    ensures (x / 3.0).Floor == n <==> 3.0 * n as real <= x < 3.0 * (n + 1) as real
  {
    var y := x / 3.0;
    assert x == 3.0 * y;
    assert y.Floor as real <= y < y.Floor as real + 1.0;
    assert n as real <= y < (n + 1) as real <==> y.Floor == n;
  }

  lemma StepCountIs(req: Request, top: real, n: int)
    requires IsTop(top, req.uplinkHistory)
    ensures StepCount(req) == n <==> FitsSteps(req, top, n)
  {
    TopIs(top, req.uplinkHistory);
    FloorIs(top - req.requiredSnrForDr - req.installationMargin, n);
    hide MaxSnr, IsTop;
  }

  /** The indices of the uplinks at a power index. */
  function SentAt(history: seq<Uplink>, txPowerIndex: int): set<nat> {
    set i: nat | i < |history| && history[i].txPowerIndex == txPowerIndex
  }

  function Shifted(s: set<nat>): set<nat> {
    set i | i in s :: i + 1
  }

  lemma InShifted(s: set<nat>, i: nat)
    ensures i in Shifted(s) <==> i > 0 && i - 1 in s
  {
    if i > 0 && i - 1 in s {
      assert i == (i - 1) + 1;
    }
  }

  lemma {:induction false} ShiftedSize(s: set<nat>)
    ensures |Shifted(s)| == |s|
  {
    if x :| x in s {
      var t := s - {x};
      ShiftedSize(t);
      forall i: nat
        ensures i in Shifted(s) <==> i in Shifted(t) + {x + 1}
        ensures i in Shifted(t) ==> i != x + 1
      {
        InShifted(s, i);
        InShifted(t, i);
      }
      assert Shifted(s) == Shifted(t) + {x + 1};
      hide Shifted;
    } else {
      assert Shifted(s) == {};
    }
  }

  lemma InSentAt(history: seq<Uplink>, txPowerIndex: int, i: nat)
    requires history != []
    ensures i in SentAt(history, txPowerIndex) <==>
            if i == 0 then history[0].txPowerIndex == txPowerIndex else i - 1 in SentAt(history[1..], txPowerIndex)
  {}

  lemma SentAtStep(history: seq<Uplink>, txPowerIndex: int)
    requires history != []
    ensures var rest := Shifted(SentAt(history[1..], txPowerIndex));
            && 0 !in rest
            && SentAt(history, txPowerIndex) == if history[0].txPowerIndex == txPowerIndex then {0} + rest else rest
  {
    var rest := SentAt(history[1..], txPowerIndex);
    InShifted(rest, 0);
    forall i: nat
      ensures i in SentAt(history, txPowerIndex) <==>
              (i == 0 && history[0].txPowerIndex == txPowerIndex) || i in Shifted(rest)
    {
      InSentAt(history, txPowerIndex, i);
      InShifted(rest, i);
    }
    hide SentAt, Shifted;
  }

  lemma {:induction false} HistoryCountIs(history: seq<Uplink>, txPowerIndex: int)
    ensures HistoryCount(history, txPowerIndex) == |SentAt(history, txPowerIndex)|
  {
    if history != [] {
      HistoryCountIs(history[1..], txPowerIndex);
      ShiftedSize(SentAt(history[1..], txPowerIndex));
      SentAtStep(history, txPowerIndex);
      hide SentAt, Shifted;
    }
  }

  /** The repetitions: rows by loss, columns by present value. */
  lemma NbTransTable(n: int, loss: real)
    ensures loss < 5.0 ==> NbTransFor(n, loss) == if n <= 2 then 1 else 2
    ensures 5.0 <= loss < 10.0 ==> NbTransFor(n, loss) == if n <= 1 then 1 else if n == 2 then 2 else 3
    ensures 10.0 <= loss < 30.0 ==> NbTransFor(n, loss) == if n <= 1 then 2 else 3
    ensures 30.0 <= loss ==> NbTransFor(n, loss) == 3
  {}

  /** The loss: missing counters per hundred uplinks of a full history. */
  lemma PacketLossIs(history: seq<Uplink>)
    ensures |history| < 20 ==> PacketLoss(history) == 0.0
    ensures |history| >= 20 ==>
              PacketLoss(history) * |history| as real ==
              100.0 * (history[|history| - 1].fCnt - history[0].fCnt - (|history| - 1)) as real
  {
    if |history| >= 20 {
      Quotient((history[|history| - 1].fCnt - history[0].fCnt - (|history| - 1)) as real, |history| as real);
    }
  }

  lemma Quotient(a: real, b: real)
    requires b > 0.0
    ensures a / b * 100.0 * b == 100.0 * a
  {
    assert a / b * b == a;
  }

  /** The answer with ADR off, and with n steps: forward, they are spent on the data rate and then on the power
      index; back, on the power index alone, and only if exactly 20 uplinks were sent at the present one. */
  lemma HandledMoves(req: Request, top: real, n: int)
    requires IsTop(top, req.uplinkHistory) && FitsSteps(req, top, n)
    ensures var r, dr := Handled(req), if req.dr > req.maxDr then req.maxDr else req.dr;
            && (!req.adr ==> r == Response(req.dr, req.txPowerIndex, req.nbTrans))
            && (req.adr ==> r.nbTrans == NbTransFor(req.nbTrans, PacketLoss(req.uplinkHistory)))
            && (req.adr && n >= 0 ==>
                  && r.dr == (if dr + n <= req.maxDr then dr + n else req.maxDr)
                  && var left := n - (r.dr - dr);
                     r.txPowerIndex ==
                     if req.txPowerIndex >= req.maxTxPowerIndex then req.txPowerIndex
                     else if req.txPowerIndex + left <= req.maxTxPowerIndex then req.txPowerIndex + left
                     else req.maxTxPowerIndex)
            && (req.adr && n < 0 ==>
                  && r.dr == dr
                  && r.txPowerIndex ==
                     if |SentAt(req.uplinkHistory, req.txPowerIndex)| != 20 || req.txPowerIndex <= 0
                     then req.txPowerIndex
                     else if req.txPowerIndex + n >= 0 then req.txPowerIndex + n
                     else 0)
  {
    StepCountIs(req, top, n);
    HistoryCountIs(req.uplinkHistory, req.txPowerIndex);
    hide StepCount, FitsSteps, IsTop, HistoryCount, SentAt, NbTransFor, PacketLoss;
  }

  /** Requests that differ in nothing but the signal, and allow at least as many steps. */
  predicate AllowsMore(a: Request, b: Request) {
    && b.uplinkHistory == a.uplinkHistory
    && b == a.(requiredSnrForDr := b.requiredSnrForDr, installationMargin := b.installationMargin)
    && b.requiredSnrForDr + b.installationMargin <= a.requiredSnrForDr + a.installationMargin
  }

  /** Asking for a larger margin, or a larger SNR, never raises the data rate or lowers the power. */
  lemma MarginLowers(strict: Request, lax: Request)
    requires AllowsMore(strict, lax)
    ensures var r, s := Handled(strict), Handled(lax);
            r.dr <= s.dr && r.txPowerIndex <= s.txPowerIndex && r.nbTrans == s.nbTrans
  {
    hide MaxSnr, HistoryCount, PacketLoss;
    MoreSteps(strict, lax);
  }

  /** 3 dB more margin are exactly one step less. */
  lemma ThreeDecibels(req: Request, top: real, n: int)
    requires IsTop(top, req.uplinkHistory)
    ensures FitsSteps(req, top, n) <==>
            FitsSteps(req.(installationMargin := req.installationMargin + 3.0), top, n - 1)
    ensures StepCount(req.(installationMargin := req.installationMargin + 3.0)) == StepCount(req) - 1
  {
    var more := req.(installationMargin := req.installationMargin + 3.0);
    StepCountIs(req, top, StepCount(req));
    StepCountIs(more, top, StepCount(req) - 1);
    hide StepCount, IsTop;
  }

  /** The answer stays in its limits, never lowers an allowed data rate, and raises the power only
      when exactly the required number of uplinks was sent at the present one and the margin is negative. */
  lemma HandledInLimits(req: Request)
    requires req.adr && 0 <= req.txPowerIndex <= req.maxTxPowerIndex
    ensures var r := Handled(req);
            Min(req.dr, req.maxDr) <= r.dr <= req.maxDr &&
            0 <= r.txPowerIndex <= req.maxTxPowerIndex &&
            1 <= r.nbTrans <= 3 &&
            (r.txPowerIndex > req.txPowerIndex ==> r.dr == req.maxDr) &&
            (r.txPowerIndex < req.txPowerIndex <==>
             StepCount(req) < 0 && req.txPowerIndex > 0 &&
             HistoryCount(req.uplinkHistory, req.txPowerIndex) == REQUIRED_HISTORY_COUNT)
  {
    NbTransRange(req.nbTrans, PacketLoss(req.uplinkHistory));
    StepsStayInLimits(StepCount(req), req.txPowerIndex, Min(req.dr, req.maxDr), req.maxTxPowerIndex, req.maxDr);
    hide StepCount, HistoryCount, NbTransFor, PacketLoss, IdealDr, IdealTxPowerIndex;
  }

  lemma {:induction false} HistoryCountBound(history: seq<Uplink>, txPowerIndex: int)
    ensures HistoryCount(history, txPowerIndex) <= |history|
  {
    if history != [] {
      HistoryCountBound(history[1..], txPowerIndex);
    }
  }

  /** The server hands over at most the required number of uplinks, and then "not as many" is "fewer": power is
      raised only for a whole history at the present power. */
  lemma FullHistory(req: Request)
    requires |req.uplinkHistory| <= REQUIRED_HISTORY_COUNT
    ensures var count := HistoryCount(req.uplinkHistory, req.txPowerIndex);
            && (count != REQUIRED_HISTORY_COUNT <==> count < REQUIRED_HISTORY_COUNT)
            && (Handled(req).txPowerIndex < req.txPowerIndex ==> count == |req.uplinkHistory| == REQUIRED_HISTORY_COUNT)
  {
    HistoryCountBound(req.uplinkHistory, req.txPowerIndex);
  }

  /** The same uplinks, received at least as well. */
  predicate ReceivedBetter(a: seq<Uplink>, b: seq<Uplink>) {
    |a| == |b| &&
    forall i :: 0 <= i < |a| ==>
      a[i].fCnt == b[i].fCnt && a[i].txPowerIndex == b[i].txPowerIndex && a[i].maxSnr <= b[i].maxSnr
  }

  lemma {:induction false} BetterHistory(a: seq<Uplink>, b: seq<Uplink>, txPowerIndex: int)
    requires ReceivedBetter(a, b)
    ensures HistoryCount(a, txPowerIndex) == HistoryCount(b, txPowerIndex)
  {
    hide MaxSnr;
    if a != [] {
      BetterHistory(a[1..], b[1..], txPowerIndex);
    }
  }

  lemma BetterSnr(a: seq<Uplink>, b: seq<Uplink>)
    requires ReceivedBetter(a, b)
    ensures MaxSnr(a) <= MaxSnr(b)
    ensures PacketLoss(a) == PacketLoss(b)
  {
    if i :| 0 <= i < |a| && a[i].maxSnr == MaxSnr(a) {
      assert a[i].maxSnr <= b[i].maxSnr <= MaxSnr(b);
    }
  }

  /** More steps never lead to a lower data rate or more power. */
  lemma MoreSteps(a: Request, b: Request)
    requires b == a.(requiredSnrForDr := b.requiredSnrForDr, installationMargin := b.installationMargin,
                     uplinkHistory := b.uplinkHistory)
    requires StepCount(a) <= StepCount(b) && PacketLoss(a.uplinkHistory) == PacketLoss(b.uplinkHistory)
    requires HistoryCount(a.uplinkHistory, a.txPowerIndex) == HistoryCount(b.uplinkHistory, a.txPowerIndex)
    ensures var r, s := Handled(a), Handled(b);
            r.dr <= s.dr && r.txPowerIndex <= s.txPowerIndex && r.nbTrans == s.nbTrans
  {
    hide StepCount, HistoryCount, NbTransFor, PacketLoss, IdealDr, IdealTxPowerIndex;
    var n, m, d := StepCount(a), StepCount(b), Min(a.dr, a.maxDr);
    StepsMonotone(n, m, a.txPowerIndex, d, a.maxTxPowerIndex, a.maxDr);
    if m >= 0 {
      StepsMonotone(0, m, a.txPowerIndex, d, a.maxTxPowerIndex, a.maxDr);
    }
    NoSteps(a.txPowerIndex, d, a.maxTxPowerIndex, a.maxDr);
  }

  /** A better signal never leads to a lower data rate, more power, or other repetitions. */
  lemma BetterSignal(req: Request, better: seq<Uplink>)
    requires ReceivedBetter(req.uplinkHistory, better)
    ensures var r, s := Handled(req), Handled(req.(uplinkHistory := better));
            r.dr <= s.dr && r.txPowerIndex <= s.txPowerIndex && r.nbTrans == s.nbTrans
  {
    BetterHistory(req.uplinkHistory, better, req.txPowerIndex);
    BetterSnr(req.uplinkHistory, better);
    StepCountMonotone(req, req.(uplinkHistory := better));
    MoreSteps(req, req.(uplinkHistory := better));
  }

  lemma NoSteps(p: int, d: int, maxP: int, maxD: int)
    ensures IdealDr(0, d, maxD) == d && IdealTxPowerIndex(0, p, d, maxP, maxD) == p
  {}

  lemma StepCountMonotone(a: Request, b: Request)
    requires MaxSnr(a.uplinkHistory) <= MaxSnr(b.uplinkHistory)
    requires a.requiredSnrForDr == b.requiredSnrForDr && a.installationMargin == b.installationMargin
    ensures StepCount(a) <= StepCount(b)
  {}
}
