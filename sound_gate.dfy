/**
  The sound gate: on every timer tick the microphone reading is compared with
  a fixed threshold, and the whole 5x5 WS2812 matrix is filled either with
  the colour (255, 255, 255), which the source calls white (loud), or with
  (0, 0, 0), black (quiet).

  The PIO state machine that drives the LEDs is modelled as an abstract sink:
  `Ws2812Pio.fifo` is the sequence of every 32-bit word pushed to its transmit
  FIFO, oldest first. `put_pixel` appends one word, `fill_matrix` appends one
  frame of `NUM_PIXELS` words, and the timer callback appends the frame the
  current reading selects.
 */
module SoundGate {
  import opened Grb

  /** Number of LEDs in the matrix (5 x 5). */
  const NUM_PIXELS: nat := 25

  /** ADC level a reading must exceed to count as sound. */
  const SOUND_THRESHOLD: nat := 2100

  /** The `uint16_t` that holds the ADC reading; the 12-bit ADC fills only 0..4095 of it. */
  type AdcReading = x: int | 0 <= x < 0x1_0000

  const White := Rgb(255, 255, 255)
  const Black := Rgb(0, 0, 0)

  /** The word the FIFO receives for every pixel of a white matrix (green shifted out). */
  const WhiteOnWire: bv32 := 0xFFFF_0000

  /** The strict comparison of the callback: the threshold itself is quiet. */
  predicate IsLoud(rawAdc: AdcReading)
  {
    rawAdc > SOUND_THRESHOLD
  }

  /** The colour the callback fills the matrix with for a reading. */
  function TickColor(rawAdc: AdcReading): Rgb
  {
    if IsLoud(rawAdc) then White else Black
  }

  /** `n` copies of the word `w`. */
  function Repeat(w: bv32, n: nat): (s: seq<bv32>)
    ensures |s| == n
    ensures forall k :: 0 <= k < |s| ==> s[k] == w
  {
    if n == 0 then [] else Repeat(w, n - 1) + [w]
  }

  /**
    The words `fill_matrix` pushes for a colour: one per pixel, each the
    packed colour after the extra shift of `put_pixel`.
   */
  function FillFrame(c: Rgb): (f: seq<bv32>)
    ensures |f| == NUM_PIXELS
    ensures forall k :: 0 <= k < |f| ==> ByteOf(f[k], 3) == c.r && ByteOf(f[k], 2) == c.b
    ensures forall k :: 0 <= k < |f| ==> ByteOf(f[k], 1) == 0 && ByteOf(f[k], 0) == 0
  {
    Repeat(ShiftForPio(PackGrb(c)), NUM_PIXELS)
  }

  /** The frame one tick of the timer pushes for a reading. */
  function TickFrame(rawAdc: AdcReading): seq<bv32>
  {
    FillFrame(TickColor(rawAdc))
  }

  /** Every frame holds exactly one word per LED, all of them the same word. */
  lemma FillFrameUniform(c: Rgb, i: nat, j: nat)
    requires i < NUM_PIXELS && j < NUM_PIXELS
    ensures |FillFrame(c)| == NUM_PIXELS
    ensures FillFrame(c)[i] == FillFrame(c)[j]
  {
  }

  /** A loud reading gives 25 copies of the white word, which on the wire is `0xFFFF0000`. */
  lemma LoudTick(rawAdc: AdcReading)
    requires rawAdc > SOUND_THRESHOLD
    ensures TickColor(rawAdc) == White
    ensures TickFrame(rawAdc) == Repeat(WhiteOnWire, NUM_PIXELS)
  {
    EmittedWord(White);
  }

  /** A quiet reading, including one equal to the threshold, gives 25 zero words. */
  lemma QuietTick(rawAdc: AdcReading)
    requires rawAdc <= SOUND_THRESHOLD
    ensures TickColor(rawAdc) == Black
    ensures TickFrame(rawAdc) == Repeat(0, NUM_PIXELS)
  {
    EmittedWord(Black);
  }

  /** The threshold reading itself is dark; the next one up is lit. */
  lemma ThresholdIsDark()
    ensures TickFrame(SOUND_THRESHOLD) == Repeat(0, NUM_PIXELS)
    ensures TickFrame(SOUND_THRESHOLD + 1) == Repeat(WhiteOnWire, NUM_PIXELS)
  {
    QuietTick(SOUND_THRESHOLD);
    LoudTick(SOUND_THRESHOLD + 1);
  }

  /** A frame is all zero exactly when the reading does not exceed the threshold. */
  lemma {:induction false} DarkFrameIff(rawAdc: AdcReading)
    ensures (forall k :: 0 <= k < NUM_PIXELS ==> TickFrame(rawAdc)[k] == 0) <==> rawAdc <= SOUND_THRESHOLD
  {
    if rawAdc <= SOUND_THRESHOLD {
      QuietTick(rawAdc);
    } else {
      LoudTick(rawAdc);
      assert TickFrame(rawAdc)[0] == WhiteOnWire;
    }
  }

  /** Two readings give the same frame exactly when they fall on the same side of the threshold. */
  lemma {:induction false} SameFrameIff(a: AdcReading, b: AdcReading)
    ensures TickFrame(a) == TickFrame(b) <==> IsLoud(a) == IsLoud(b)
  {
    if IsLoud(a) != IsLoud(b) {
      DarkFrameIff(a);
      DarkFrameIff(b);
    }
  }

  /** Louder never gives a darker frame: the gate is monotone in the reading. */
  lemma GateMonotone(a: AdcReading, b: AdcReading)
    requires a <= b && IsLoud(a)
    ensures TickFrame(b) == TickFrame(a)
  {
  }

  /**
    What the FIFO receives from successive ticks, one reading per tick. It is
    defined tick by tick: the callback keeps no state between ticks.
   */
  function TickStream(readings: seq<AdcReading>): (s: seq<bv32>)
    ensures |s| == NUM_PIXELS * |readings|
  {
    if readings == [] then []
    else TickStream(readings[..|readings| - 1]) + TickFrame(readings[|readings| - 1])
  }

  /** The words of tick `k` in a stream are exactly the frame of reading `k`, whatever came before. */
  lemma {:induction false} TickStreamSlice(readings: seq<AdcReading>, k: nat)
    requires k < |readings|
    ensures |TickStream(readings)| == NUM_PIXELS * |readings|
    ensures TickStream(readings)[NUM_PIXELS * k .. NUM_PIXELS * (k + 1)] == TickFrame(readings[k])
  {
    var n := |readings|;
    var front := readings[..n - 1];
    var last := TickFrame(readings[n - 1]);
    assert TickStream(readings) == TickStream(front) + last;
    var lo, hi := NUM_PIXELS * k, NUM_PIXELS * (k + 1);
    if k < n - 1 {
      TickStreamSlice(front, k);
      assert hi <= |TickStream(front)|;
      assert (TickStream(front) + last)[lo .. hi] == TickStream(front)[lo .. hi];
    } else {
      assert lo == |TickStream(front)|;
      assert (TickStream(front) + last)[lo .. hi] == last;
    }
  }

  /**
    The PIO state machine and its transmit FIFO, seen as a sink of 32-bit
    words. Blocking on a full FIFO and the bit timing on the wire are not
    part of the model.
   */
  class Ws2812Pio {
    /** Every word pushed so far, oldest first. */
    var fifo: seq<bv32>

    constructor ()
      ensures fifo == []
    {
      fifo := [];
    }

    /** `put_pixel`: pushes the GRB word shifted left by 8. */
    method PutPixel(pixelGrb: bv32)
      modifies this
      ensures fifo == old(fifo) + [ShiftForPio(pixelGrb)]
    {
      fifo := fifo + [pixelGrb << 8];
    }

    /** `fill_matrix`: packs the colour once and pushes it for every LED. */
    method FillMatrix(r: bv8, g: bv8, b: bv8)
      modifies this
      ensures fifo == old(fifo) + FillFrame(Rgb(r, g, b))
    {
      var pixelColor := (g as bv32 << 24) | (r as bv32 << 16) | (b as bv32 << 8);
      assert pixelColor == PackGrb(Rgb(r, g, b));
      var i := 0;
      while i < NUM_PIXELS
        invariant 0 <= i <= NUM_PIXELS
        invariant fifo == old(fifo) + Repeat(ShiftForPio(pixelColor), i)
      {
        PutPixel(pixelColor);
        i := i + 1;
      }
    }

    /**
      `repeating_timer_callback`: one tick. The reading is a parameter
      (the ADC read is hardware). Appends the tick's frame and always asks
      the timer to keep repeating.
     */
    method RepeatingTimerCallback(rawAdc: AdcReading) returns (keepRunning: bool)
      modifies this
      ensures keepRunning
      ensures fifo == old(fifo) + TickFrame(rawAdc)
    {
      if rawAdc > SOUND_THRESHOLD {
        FillMatrix(255, 255, 255);
      } else {
        FillMatrix(0, 0, 0);
      }
      keepRunning := true;
    }

    /**
      The repeating timer registered by `main`: it runs the callback once per
      reading, in order. What the FIFO receives is `TickStream(readings)`.
     */
    method RunTimer(readings: seq<AdcReading>)
      modifies this
      ensures fifo == old(fifo) + TickStream(readings)
    {
      var i := 0;
      while i < |readings|
        invariant 0 <= i <= |readings|
        invariant fifo == old(fifo) + TickStream(readings[..i])
      {
        var keepRunning := RepeatingTimerCallback(readings[i]);
        assert readings[..i + 1][..i] == readings[..i];
        i := i + 1;
      }
      assert readings[..|readings|] == readings;
    }
  }
}
