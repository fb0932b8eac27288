/** The frequency codec of lrwn/src/helpers.rs: units of 100 Hz, or of 200 Hz in the 2.4 GHz band. */
module Helpers {
  import opened Bytes
  import opened Numbers

  /** A frequency in Hz, as held in a u32. */
  type Hz = f: nat | f < 0x1_0000_0000

  function EncodedFreq(freq: Hz): Result<Bytes3> {
    var f := if freq >= 2400000000 then freq / 2 else freq;
    if f / 100 >= 0x100_0000 || f % 100 != 0 then Err else Ok(Le24(f / 100))
  }

  function DecodedFreq(b: Bytes3): (freq: Hz)
  {
    Le24FromLe24(b);
    var n := FromLe24(b);
    if n >= 12000000 then n * 200 else n * 100
  }

  lemma FromLe24Is(b: Bytes3)
    ensures FromLe24(b) == LeNum(b)
  {
    LeNum3(b);
  }

  /** The three bytes, low byte first, count steps of 100 Hz, or of 200 Hz from 2.4 GHz on. */
  lemma EncodedFreqIs(freq: Hz)
    requires EncodedFreq(freq).Ok?
    ensures LeNum(EncodedFreq(freq).value) == if freq >= 2400000000 then freq / 200 else freq / 100
  {
    FromLe24Is(EncodedFreq(freq).value);
    FromLe24Le24(if freq >= 2400000000 then freq / 2 / 100 else freq / 100);
    hide LeNum, Le24, FromLe24;
  }

  lemma DecodedFreqIs(b: Bytes3)
    ensures DecodedFreq(b) == if LeNum(b) >= 12000000 then 200 * LeNum(b) else 100 * LeNum(b)
  {
    FromLe24Is(b);
    hide LeNum, FromLe24;
  }

  method EncodeFreq(freq: Hz) returns (r: Result<Bytes3>)
    ensures r == EncodedFreq(freq)
    ensures r.Ok? <==>
            if freq >= 2400000000 then (freq % 200 <= 1 && freq < 3355443200)
            else (freq % 100 == 0 && freq < 1677721600)
    ensures r.Ok? ==> LeNum(r.value) == if freq >= 2400000000 then freq / 200 else freq / 100
    ensures r.Ok? ==> (DecodedFreq(r.value) == freq <==> CanonicalFreq(freq))
  {
    EncodableFreq(freq);
    if EncodedFreq(freq).Ok? {
      EncodedFreqIs(freq);
      DecodeEncodedFreq(freq);
    }
    hide CanonicalFreq, DecodedFreq, LeNum;
    var f := freq;
    if f >= 2400000000 {
      f := f / 2;
    }
    if f / 100 >= 0x100_0000 {
      return Err;
    }
    if f % 100 != 0 {
      return Err;
    }
    return Ok(Le24(f / 100));
  }

  method DecodeFreq(b: bytes) returns (r: Result<Hz>)
    ensures r == if |b| == 3 then Ok(DecodedFreq(b)) else Err
    ensures |b| == 3 ==> r == Ok(if LeNum(b) >= 12000000 then 200 * LeNum(b) else 100 * LeNum(b))
    ensures r.Ok? ==> EncodedFreq(r.value) == Ok(b) && CanonicalFreq(r.value)
  {
    if |b| != 3 {
      return Err;
    }
    EncodeDecodedFreq(b);
    DecodedFreqIs(b);
    hide CanonicalFreq, EncodedFreq, LeNum;
    var freq := FromLe24(b);
    Le24FromLe24(b);
    if freq >= 12000000 {
      freq := freq * 200;
    } else {
      freq := freq * 100;
    }
    return Ok(freq);
  }

  /** The frequencies that survive the codec: those outside the gap the two step sizes leave open. */
  predicate CanonicalFreq(freq: Hz) {
    freq < 1200000000 || (freq >= 2400000000 && freq % 2 == 0)
  }

  /** Every three bytes are the encoding of the frequency they decode to. */
  lemma EncodeDecodedFreq(b: Bytes3)
    ensures EncodedFreq(DecodedFreq(b)) == Ok(b)
    ensures CanonicalFreq(DecodedFreq(b))
  {
    Le24FromLe24(b);
    hide Le24, FromLe24;
    StepsBack(FromLe24(b));
  }

  lemma StepsBack(n: nat)
    ensures n * 100 / 100 == n && n * 100 % 100 == 0
    ensures n * 200 / 2 / 100 == n && n * 200 / 2 % 100 == 0 && n * 200 % 2 == 0
  {}

  /** Decoding undoes encoding exactly outside 1.2 GHz .. 2.4 GHz and away from odd 2.4 GHz values. */
  lemma DecodeEncodedFreq(freq: Hz)
    requires EncodedFreq(freq).Ok?
    ensures DecodedFreq(EncodedFreq(freq).value) == freq <==> CanonicalFreq(freq)
  {
    var f := if freq >= 2400000000 then freq / 2 else freq;
    FromLe24Le24(f / 100);
  }

  /** What encodes: multiples of the step below the 24-bit limit; one odd Hz is dropped at 2.4 GHz. */
  lemma EncodableFreq(freq: Hz)
    ensures EncodedFreq(freq).Ok? <==>
            if freq >= 2400000000 then (freq % 200 <= 1 && freq < 3355443200)
            else (freq % 100 == 0 && freq < 1677721600)
  {
    if freq >= 2400000000 {
      HalfStep(freq);
    }
  }

  lemma HalfStep(freq: Hz)
    ensures freq / 2 % 100 == 0 <==> freq % 200 <= 1
    ensures freq / 2 / 100 < 0x100_0000 <==> freq < 3355443200
  {}

  /** The gap is real: 1.5 GHz encodes, and comes back as 3 GHz. */
  lemma FreqGap()
    ensures EncodedFreq(1500000000).Ok?
    ensures DecodedFreq(EncodedFreq(1500000000).value) == 3000000000
  {
    FromLe24Le24(15000000);
  }

  lemma DecodedFreqMonotone(a: Bytes3, b: Bytes3)
    ensures LeNum(a) < LeNum(b) <==> DecodedFreq(a) < DecodedFreq(b)
  {
    DecodedFreqIs(a);
    DecodedFreqIs(b);
    hide DecodedFreq, LeNum;
  }
}
