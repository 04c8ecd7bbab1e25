# Sound-gated WS2812 matrix: per-tick frame encoder

A Raspberry Pi Pico samples a microphone on ADC channel 2 every 50 ms. On
each tick, `repeating_timer_callback` compares the 12-bit reading strictly
with `SOUND_THRESHOLD` (2100). Above it, it calls `fill_matrix(255, 255, 255)`,
which the source's comment calls white, for all 25 LEDs of the 5x5 WS2812
matrix. Otherwise it calls `fill_matrix(0, 0, 0)`, which turns them off. `fill_matrix` packs the colour into a GRB `uint32_t`
(`g << 24 | r << 16 | b << 8`) and calls `put_pixel` once per LED.
`put_pixel` shifts the word left by 8 once more and pushes it to the PIO
transmit FIFO.

The model has two modules:

- `Grb` (`grb.dfy`) holds the 32-bit colour word. The C operators on
  `uint32_t` are modelled on `bv32`, so the second shift in `put_pixel`
  discards the green byte exactly as the C code does. `ByteOf` and
  `Unsigned` read a word back as bytes and as a number. The helper lemmas
  `BytesDetermineWord`, `DigitsUnique` and `UnsignedInjective` show that
  these readings lose nothing: a word is fixed by its bytes, and two words
  are equal exactly when their unsigned values are.
- `SoundGate` (`sound_gate.dfy`) holds the constants, the threshold
  decision and the frame functions. It also holds the class `Ws2812Pio`,
  whose `fifo` sequence stands for every word pushed to the PIO FIFO.
  `PutPixel`, `FillMatrix` and `RepeatingTimerCallback` append to `fifo`,
  and each is proved against a specification function.

`main.c` has no colour wheel, grid addressing, hold-over window or
animation; the frame depends only on the current reading.

One consequence is stated exactly: `fill_matrix` already leaves the low
byte free, and `put_pixel` shifts by 8 again, so the word that reaches the
FIFO is `r << 24 | b << 16`. Green never reaches the FIFO, and (255, 255, 255) goes
out as `0xFFFF0000`. The comment at main.c:33-34 says the PIO program expects
GRB and that the 8-bit shift is made for it; the PIO program itself is not
part of this model, so the model states what is emitted without claiming
what the LEDs show.

## Model

| member | source | states |
|---|---|---|
| Grb.PackGrb | main.c:42 | The packed word has green in byte 3, red in byte 2, blue in byte 1 and a zero low byte |
| Grb.UnpackPack | main.c:42 | Decoding a packed colour gives the colour back, and a packed word has a zero low byte |
| Grb.PackUnpack | main.c:42 | Every word with a zero low byte is the packing of its own decoding, so packing is onto those words |
| Grb.PackGrbInjective | main.c:42 | Two colours pack to the same word if and only if they are equal |
| Grb.PackGrbValue | main.c:42 | As an unsigned number the packed word is g*2^24 + r*2^16 + b*2^8 |
| Grb.Unsigned | main.c:42 | The unsigned reading of a word is below 2^32 |
| Grb.ShiftForPio | main.c:35-36 | The shifted word holds bytes 2, 1 and 0 of the argument in bytes 3, 2 and 1, with a zero low byte; byte 3 of the argument is lost |
| Grb.ShiftForPioValue | main.c:35-36 | As a number the emitted word is (w * 256) mod 2^32 |
| Grb.EmittedWord | main.c:35-42 | For a packed colour the emitted word is (r << 24) OR (b << 16), numerically r*2^24 + b*2^16, with the low 16 bits zero |
| Grb.EmittedWordSameIff | main.c:35-42 | Two colours give the same emitted word if and only if their red and blue agree, so green has no effect |
| SoundGate.Repeat | main.c:44-46 | n copies of a word: the length is n and every element is that word |
| SoundGate.FillFrame | main.c:40-47 | The frame of `fill_matrix` has NUM_PIXELS = 25 words, each with red in byte 3, blue in byte 2 and zero bytes 1 and 0 |
| SoundGate.FillFrameUniform | main.c:42-46 | All 25 words of one `fill_matrix` call are identical |
| SoundGate.LoudTick | main.c:62-64 | A reading above 2100 selects (255, 255, 255) and emits 25 copies of 0xFFFF0000 |
| SoundGate.QuietTick | main.c:65-68 | A reading of at most 2100 selects black and emits 25 zero words |
| SoundGate.ThresholdIsDark | main.c:20-62 | The strict comparison makes 2100 itself dark and 2101 lit |
| SoundGate.DarkFrameIff | main.c:62-68 | A tick's frame is all zero if and only if the reading is at most 2100 |
| SoundGate.SameFrameIff | main.c:62-68 | Two readings give the same frame if and only if they fall on the same side of the threshold |
| SoundGate.GateMonotone | main.c:62 | Any reading at or above a loud reading gives the same lit frame |
| SoundGate.TickStream | main.c:52-72 | Successive ticks emit 25 words per reading |
| SoundGate.TickStreamSlice | main.c:52-72 | The words of tick k are exactly the frame of reading k, whatever the earlier readings were: no state is carried between ticks |
| SoundGate.Ws2812Pio.constructor | main.c:28-29 | The FIFO sink starts empty |
| SoundGate.Ws2812Pio.PutPixel | main.c:35-37 | Appends exactly one word, the argument shifted left by 8 modulo 2^32, and changes nothing else |
| SoundGate.Ws2812Pio.FillMatrix | main.c:40-47 | Appends exactly the 25-word frame of the packed colour and changes nothing else |
| SoundGate.Ws2812Pio.RepeatingTimerCallback | main.c:52-72 | Appends exactly the tick's frame for the reading and returns true, so the timer keeps repeating |
| SoundGate.Ws2812Pio.RunTimer | main.c:99-101 | Running the callback once per reading appends exactly `TickStream(readings)`, the readings' frames in order |

## Left out

- ADC set-up and reading (`adc_init`, `adc_gpio_init`, `adc_select_input`, `adc_read`): hardware. The reading is a parameter of `RepeatingTimerCallback`, typed as the `uint16_t` that holds it (0..65535). The hardware only produces 0..4095.
- PIO set-up (`pio_add_program`, `pio_claim_unused_sm`, `ws2812_program_init`) and the WS2812 bit timing: hardware, and the PIO program source is not part of this model. The FIFO is an unbounded sequence of words.
- SoundGate.Ws2812Pio.PutPixel: `pio_sm_put_blocking` blocks while the FIFO is full. The model appends at once and does not model blocking or the PIO draining the FIFO.
- `printf` and `stdio_init_all`: console output only, with no effect on the frames.
- `main`: timer registration with `add_repeating_timer_ms`, its failure path that returns 1, and the endless idle loop. These are timer and interrupt plumbing that never terminates. `RunTimer` stands for the timer only as a finite run of callbacks over a given sequence of readings; timing, the 50 ms period and the failure path are not modelled.
