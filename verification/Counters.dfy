/** The 32-bit frame counter behind the 16 bits that a frame carries (get_full_f_cnt_up of
    chirpstack/src/storage/device.rs). */
module Counters {
  import opened Bytes
  import opened FrameProofs

  /** The low half of the counter before the one expected next. */
  function LastLow(next: u32): u32 {
    ((next & 0xffff) as u16 - 1) as u32
  }

  /** How far the received half lies after the expected one, modulo 2^16. */
  function Gap(next: u32, truncated: u32): u32 {
    ((truncated & 0xffff) as u16 - (next & 0xffff) as u16) as u32
  }

  function Advance(next: u32, gap: u32): u32 {
    next + gap
  }

  function Before(next: u32): u32 {
    next - 1
  }

  /** A counter one below the expected is a retransmission. Before the first frame there is none to repeat: the
      subtraction overflows. */
  function FullFCnt(next: u32, truncated: u32): Result<u32> {
    if truncated == LastLow(next) then
      if next == 0 then Err else Ok(Before(next))
    else
      Ok(Advance(next, Gap(next, truncated)))
  }

  /** How far a counter is ahead of the expected one, modulo 2^32. */
  function Ahead(next: u32, fCnt: u32): u32 {
    fCnt - next
  }

  lemma GapInline(next: u32, fCnt: u32)
    ensures Gap(next, fCnt & 0xffff) == Low16(fCnt - next)
  {}

  lemma GapIs(next: u32, fCnt: u32)
    ensures Gap(next, Low16(fCnt)) == Low16(Ahead(next, fCnt))
  {
    GapInline(next, fCnt);
    assert Low16(fCnt) == fCnt & 0xffff && Ahead(next, fCnt) == fCnt - next;
    hide Gap;
  }

  lemma LastToGap(next: u32, fCnt: u32)
    requires fCnt & 0xffff == LastLow(next)
    ensures Gap(next, fCnt & 0xffff) == 0xffff
  {}

  lemma GapToLast(next: u32, fCnt: u32)
    requires Gap(next, fCnt & 0xffff) == 0xffff
    ensures fCnt & 0xffff == LastLow(next)
  {}

  lemma LastIs(next: u32, fCnt: u32)
    ensures Low16(fCnt) == LastLow(next) <==> Low16(Ahead(next, fCnt)) == 0xffff
  {
    GapIs(next, fCnt);
    if Low16(fCnt) == LastLow(next) {
      LastToGap(next, fCnt);
    }
    if Gap(next, Low16(fCnt)) == 0xffff {
      GapToLast(next, fCnt);
    }
    assert Low16(fCnt) == fCnt & 0xffff;
    hide LastLow, Gap, Ahead, Low16;
  }

  lemma AdvanceBack(next: u32, fCnt: u32)
    ensures Advance(next, fCnt - next) == fCnt
  {}

  lemma AheadBack(next: u32, gap: u32)
    ensures Ahead(next, next + gap) == gap
  {}

  lemma AdvanceIs(next: u32, fCnt: u32, gap: u32)
    ensures Advance(next, gap) == fCnt <==> gap == Ahead(next, fCnt)
  {
    AdvanceBack(next, fCnt);
    AheadBack(next, gap);
    assert Advance(next, gap) == next + gap && Ahead(next, fCnt) == fCnt - next;
    hide Advance, Ahead;
  }

  lemma BeforeIsAdvance(next: u32)
    ensures Advance(next, 0xffff_ffff) == Before(next)
  {}

  lemma BeforeIs(next: u32, fCnt: u32)
    ensures Before(next) == fCnt <==> Ahead(next, fCnt) == 0xffff_ffff
  {
    BeforeIsAdvance(next);
    hide *;
    AdvanceIs(next, fCnt, 0xffff_ffff);
  }

  lemma Halves(d: u32)
    ensures Low16(d) == d <==> d <= 0xffff
    ensures Low16(d) == 0xffff && d <= 0xffff ==> d == 0xffff
    ensures d < 0xffff ==> Low16(d) != 0xffff
    ensures Low16(0xffff_ffff) == 0xffff && Low16(0xffff) == 0xffff
  {}

  /** A counter that repeats the last one, or is at most 65534 ahead of the one expected. */
  predicate InStep(next: u32, fCnt: u32) {
    (next != 0 && fCnt == Before(next)) || Ahead(next, fCnt) < 0xffff
  }

  /** Exactly the counters in step are restored. */
  lemma FullFCntIff(next: u32, fCnt: u32)
    ensures FullFCnt(next, Low16(fCnt)) == Ok(fCnt) <==> InStep(next, fCnt)
  {
    var d := Ahead(next, fCnt);
    GapIs(next, fCnt);
    LastIs(next, fCnt);
    AdvanceIs(next, fCnt, Low16(d));
    BeforeIs(next, fCnt);
    Halves(d);
    hide LastLow, Gap, Advance, Before, Ahead, Low16;
  }

  lemma LastOfZero()
    ensures LastLow(0) == 0xffff
  {}

  /** The overflow happens for nothing but 65535 before the first frame. */
  lemma FullFCntFails(next: u32, truncated: u32)
    ensures FullFCnt(next, truncated).Err? <==> next == 0 && truncated == 0xffff
  {
    LastOfZero();
    hide LastLow, Gap, Advance, Before;
  }
}
