# Person/category detection demo: pixel conversion and score scan

This project models the two pieces of byte-level logic in the firmware entry
point `main/main_functions.cc` of an ESP32 image-classification demo built on
TensorFlow Lite Micro:

- **Pixel sign conversion** (`run_inference`). Every unsigned 8-bit grayscale
  pixel of a `kNumCols * kNumRows` frame is written into the model's input
  tensor as `pixel ^ 0x80`, read as an `int8_t`. The int8-quantised model
  expects signed input, and flipping the sign bit is the same as subtracting
  128.
- **Score scan** (`loop`). After inference, the firmware scans the
  `kCategoryCount` output bytes. Each byte is read through the tensor's
  `uint8` view and stored into an `int8_t`, so scores compare as signed
  bytes. The scan keeps `max_confidence`, its first position `idx`, and
  `idx2`. Then it looks both indices up in the label table.

Tensor buffers are modelled as their raw bytes, `array<bv8>`. The C union
views `data.uint8` and `data.int8` are the byte itself and `Bytes.ToSigned`
of it (two's complement). Storing `pixel ^ 0x80` into an `int8_t` keeps the
low eight bits, so the byte written is `pixel ^ 0x80`. The conversion method
lets the pixel buffer and the input tensor be the same array, because
position `i` is read before it is written.

`idx2` is modelled as written. It is not the runner-up score's position. It
is the value `idx` held before its last change: 0 when the first score is
already the maximum, otherwise the first position of the largest score
before `idx` (`ScoreScan.Idx2IsPreviousIdx`, `ScoreScan.Idx2IsNotRunnerUp`).
Both `max_confidence` (line 150) and `cur_confidence` (line 156) are read the
same way, from `data.uint8` into an `int8_t`. So the comparison at line 158
is a consistent signed comparison, not a mix of signed and unsigned readings
(`ScoreScan.ScoresCompareSigned`).

Files: `bytes.dfy` (module `Bytes`), `pixel_conversion.dfy` (module
`PixelConversion`), `score_scan.dfy` (module `ScoreScan`).

## Model

| member | source | states |
|---|---|---|
| `Bytes.ToSigned` | main/main_functions.cc:150-156 | reading a byte into an `int8_t` gives the one value in [-128, 127] congruent to it mod 256; it is negative exactly when the sign bit is set |
| `Bytes.ToSignedInjective` | main/main_functions.cc:150-156 | different bytes read as different signed values, so the `int8` and `uint8` views of a tensor byte determine each other |
| `Bytes.FlipSignBitInvolutive` | main/main_functions.cc:274 | flipping the sign bit (`^ 0x80`) twice restores the byte |
| `Bytes.SignedOrderIsFlippedUnsignedOrder` | main/main_functions.cc:156-158 | two bytes compare as signed values exactly as they compare as unsigned values once their sign bits are flipped |
| `PixelConversion.ConvertPixel` | main/main_functions.cc:44-49 | the signed input for a pixel, `pixel ^ 0x80` read as `int8_t`, equals the pixel minus 128, so it lies in [-128, 127] |
| `PixelConversion.ConvertPixelRoundTrip` | main/main_functions.cc:274 | any byte that reads as a pixel's converted value gives back that pixel when its sign bit is flipped again |
| `PixelConversion.ConvertPixelMonotone` | main/main_functions.cc:44-49 | a larger pixel gives a strictly larger signed value, and equal values come only from equal pixels |
| `PixelConversion.FlipSignBits` | main/main_functions.cc:272-274 | the raw bytes a frame of pixels becomes, one per pixel, each with its sign bit flipped; the converted frame has as many bytes as the frame |
| `PixelConversion.FlipSignBitsAt` | main/main_functions.cc:272-274 | position k of a converted frame holds pixel k with its sign bit flipped, which read as signed is pixel k minus 128 |
| `PixelConversion.FlipSignBitsInvolutive` | main/main_functions.cc:272-274 | converting a converted frame again gives back the original frame |
| `PixelConversion.ConvertFrame` | main/main_functions.cc:272-277 | the loop writes exactly positions 0 .. cols*rows-1 of the input tensor, each from the same position of the pixel buffer as pixel minus 128, and leaves every other byte unchanged, even when the two buffers are one |
| `ScoreScan.SignedScores` | main/main_functions.cc:150-156 | the scores as the loop compares them: one per output byte, each the byte read through `data.uint8` and stored into an `int8_t` |
| `ScoreScan.Step` | main/main_functions.cc:158-162 | one iteration never lowers `max_confidence` and leaves it at least the current score; the state changes only when the current score is strictly larger, and then `max_confidence` becomes the current score, `idx` the current position and `idx2` the old `idx` |
| `ScoreScan.ScanUpTo` | main/main_functions.cc:148-162 | the scan state after k iterations has `idx2 <= idx`, and `idx` below k, or below 1 when k = 0 |
| `ScoreScan.Scan` | main/main_functions.cc:148-166 | the whole loop over the category scores; its final `idx` is below the category count and `idx2` is at most `idx` |
| `ScoreScan.ScanUpToInvariant` | main/main_functions.cc:154-162 | after k iterations `idx` is the first position of the largest of the first k scores, `max_confidence` is its score, and `idx2` is 0 when `idx` is 0 and otherwise the first position of the largest score before `idx` |
| `ScoreScan.FirstMaxUnique` | main/main_functions.cc:158 | the first position of a maximum is unique, so the scan's result is fully determined by the properties proved of it |
| `ScoreScan.ScanFindsFirstMax` | main/main_functions.cc:148-162 | after the scan `idx` and `idx2` are below the category count, no score exceeds `max_confidence`, which is the score at `idx`, and ties go to the earliest position |
| `ScoreScan.Idx2IsPreviousIdx` | main/main_functions.cc:149-160 | `idx2` is the value `idx` held just before its last update: 0 if `idx` is 0, otherwise the `idx` of the scan of the scores before `idx` |
| `ScoreScan.FirstScoreMaximal` | main/main_functions.cc:148-160 | when the first score is a maximum, `idx == idx2 == 0` |
| `ScoreScan.Idx2IsNotRunnerUp` | main/main_functions.cc:158-169 | with scores [1, 9, 5] the scan gives `idx = 1`, `idx2 = 0`, not the runner-up at position 2; with [9, 1, 5] it gives `idx = idx2 = 0` |
| `ScoreScan.ScoresCompareSigned` | main/main_functions.cc:150-158 | score bytes compare as signed values: of the raw bytes [0x7F, 0x80] the scan picks position 0 |
| `ScoreScan.ScanScores` | main/main_functions.cc:148-166 | the loop's final `idx`, `idx2`, `max_confidence` are those of the scan function; `idx` is the first position of the largest signed score, `max_confidence` that score, `idx2` as in `Idx2IsPreviousIdx`, both indices below the category count |
| `ScoreScan.DetectLabels` | main/main_functions.cc:168-169 | both label lookups are in bounds and return the labels at the scan's `idx` and `idx2` |

## Left out

- `setup()` (lines 62-123): mapping the model, the schema-version check, allocating the tensor arena, registering operators, building the interpreter and `AllocateTensors`. These are calls into TensorFlow Lite Micro and ESP-IDF.
- `interpreter->Invoke()`, `interpreter->input` and `interpreter->output`: the inference runtime is external. The model takes the output tensor's bytes as a parameter.
- `InitCamera` and `GetImage`: camera driver I/O. `GetImage` (line 129) writes the frame straight into `input->data.int8` on the `loop()` path, where no sign conversion runs. The pixel buffer of `PixelConversion.ConvertFrame` stands for `run_inference`'s `ptr` argument, whose caller is outside this model. A failed capture is only logged by the source, so the model does not depend on it.
- The `float max_tmp` tracking of `output->data.f[i]` (lines 152-155, 163-165): floating point over reinterpreted tensor memory, and its result is never used. Line 155 also reads `output->data.f[i]`, four bytes per category, for every i below `kCategoryCount`, while the `data.uint8[i]` reads show one byte per category: it reads past the end of the output tensor, a defect of the source that this model does not represent.
- The commented-out dequantisation code (lines 176-250, 312-392): it is dead code.
- `printf` and `MicroPrintf` logging (including the per-pixel `printf` at line 275), `vTaskDelay` and the `COLLECT_CPU_STATS` timing: I/O, scheduling and timers.
- `kNumCols`, `kNumRows`, `kCategoryCount` and `kCategoryLabels` come from `model_settings.h` and `model_settings.cc`, which are not part of this model. They are parameters: `cols`, `rows`, `n` and `labels`. `DetectLabels` requires one label per category, as the table's declared size promises.
- `PixelConversion.ConvertFrame` covers a pixel buffer that is a separate array from the input tensor or the very same array. A pixel buffer that overlaps the tensor's data at an offset is not modelled; if it starts before the tensor's data, line 274 re-reads bytes it has already written and the result is no longer the flipped frame.
- The source stores values above 127 into an `int8_t`: the `int` `pixel ^ 0x80` at line 274, and the `uint8_t` score bytes at lines 150 and 156. Before C++20 that conversion is implementation-defined. `Bytes.ToSigned` and the model take the modulo-256 result that GCC gives, for the pixels and the scores alike.
- The C loop counters are `int`. The model uses unbounded naturals, assuming the frame size and category count fit in an `int`, as they do for the demo's constants.
