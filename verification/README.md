# protowave in Dafny

protowave draws idealised timing diagrams for three serial protocols:
I²C, SPI and UART. The user types data as a binary or hexadecimal string
and picks a protocol. The program returns a list of named signal lines,
and each line is a list of logic levels, one per time slot. The
repository holds three generators of these lines:

- `script.js` is the browser page. It trims the data field, reads it as
  binary when it is made only of `0` and `1`, and otherwise converts it
  from hexadecimal with `hexToBin`. It then builds the lines with
  `generateWaveform`. The clocked protocols use two slots per bit, clock
  low then clock high, with the data level held across both. Framing
  slots go around the data: idle and start, stop, chip select.
- `protocol.js` is a standalone generator. It builds an I²C or SPI clock
  from a `clockArray` function defined elsewhere, plus one level per
  character. For UART it builds a start bit, the data levels and a stop
  bit.
- `waveforms.py` is the server's generator. It is the same as
  `protocol.js`, with its own `generate_clock`, and wraps the list in a
  `{"signals": [...]}` object.

The Dafny modules follow that split:

- `Signals` (`signals.dfy`) holds the shared vocabulary: the `Signal`
  line, the `'1'`-to-level mapping, and two reference receivers that
  read a line back:
  - `RisingEdgeSamples` is a clocked receiver that latches data on every
    rising clock edge.
  - `Unframe` is a UART receiver that checks the start and stop bits and
    returns the bits between them.
- `ScriptInput` (`script_input.dfy`) holds the input normaliser of the
  page: `trim`, the binary test and `hexToBin`.
- `ScriptWaveform` (`script_waveform.dfy`) holds the page's
  `generateWaveform` and the click handler.
- `ProtocolWave` (`protocol_wave.dfy`) holds `generateProtocolWave`. The
  clock source is a function parameter.
- `Waveforms` (`waveforms.dfy`) holds the Python generator.
- `Variants` (`variants.dfy`) states where the three generators agree and
  where they differ.

The model follows the code. In particular:

- Bits go out most significant first, exactly as typed. Nothing is
  reversed.
- There is no padding or truncation to whole bytes. A binary input keeps
  its length.
- I²C has no address, R/W or ACK slots.
- `hexToBin` cuts the string into pieces of two digits from the left. A
  lone last digit becomes the byte `0000dddd`.
- An input that trims to nothing makes `"".match(...)` return null, and
  the next call throws. The model returns the error `MatchIsNull`, and the
  click handler then keeps the previous waveform.

## Model

| member | source | states |
|---|---|---|
| ScriptInput.Trim | script.js:128 | the result is a slice of the field with only whitespace (ECMAScript WhiteSpace and LineTerminator) before and after it, and none at its own ends; it is empty exactly when the whole field is whitespace; a string with non-whitespace ends is returned unchanged |
| ScriptInput.TrimIsUnique | script.js:128 | any slice of the field with only whitespace around it and none at its own ends is the trimmed field, so the contract of `Trim` fixes its result |
| ScriptInput.Pairs | script.js:17 | `/.{1,2}/g` splits a string of length n into ⌈n/2⌉ pieces, each one or two hexadecimal digits when the string is hexadecimal |
| ScriptInput.PairAt | script.js:17 | piece k is the slice starting at 2k, two characters long or running to the end |
| ScriptInput.PairsJoin | script.js:17 | putting the pieces back together gives the original string, so no character is lost or duplicated |
| ScriptInput.Match | script.js:17 | on the trimmed field that `hexToBin` receives, `match` is null exactly when that field is empty, and otherwise yields the pieces |
| ScriptInput.ToBase2 | script.js:18 | `toString(2)` is a bit string without leading zeros (a single digit for 0 and 1) whose binary value is the number |
| ScriptInput.Byte8 | script.js:18 | `toString(2).padStart(8, "0")` of a piece value below 256 is exactly eight binary digits denoting that value |
| ScriptInput.BitsValueInjective | script.js:18 | two bit strings of the same length with the same value are equal, so eight digits determine the byte |
| ScriptInput.PieceValue | script.js:18 | `parseInt(piece, 16)` is below 256, and below 16 for a one-digit piece |
| ScriptInput.HexToBin | script.js:16-20 | an empty input is the null-match error; a non-hexadecimal character is an error; otherwise the result is a bit string of 8·⌈n/2⌉ digits |
| ScriptInput.HexToBinIsNibbleExpansion | script.js:16-20 | an even number of digits gives each digit as its own four binary digits, in order; an odd number gives the same for all but the last digit, then `0000`, then the last digit's four binary digits |
| ScriptInput.NibbleValue | script.js:18 | the four binary digits written for a hexadecimal digit denote that digit's value (either case) |
| ScriptInput.PairIsTwoNibbles | script.js:18 | a two-digit piece becomes the high digit's four bits followed by the low digit's four bits |
| ScriptInput.SingleIsZeroNibble | script.js:18 | a one-digit piece becomes `0000` followed by the digit's four bits |
| ScriptInput.Normalise | script.js:128-135 | the result is always a non-empty bit string or an error; the null-match error exactly when the field is blank, the non-hexadecimal error exactly when the trimmed field is neither blank nor hexadecimal; a binary field is taken as it stands |
| ScriptInput.NormaliseKeepsBits | script.js:128-132 | a non-empty bit string is its own normal form |
| ScriptInput.NormaliseIdempotent | script.js:128-135 | normalising the result again changes nothing |
| ScriptInput.NormaliseReadsHex | script.js:128-135 | a field whose trimmed text is not binary goes to `hexToBin` trimmed, whatever whitespace surrounds it |
| ScriptInput.NormaliseHexField | script.js:128-135 | a field whose trimmed text is hexadecimal but not binary becomes the four binary digits of each digit, with `0000` before the last one when the number of digits is odd |
| ScriptInput.BinaryReadingWins | script.js:131-135 | `10` is read as the two bits `10`, although as hexadecimal it would have been `00010000` |
| ScriptInput.HexExampleB5 | script.js:128-135 | the field `B5` becomes `10110101` |
| ScriptInput.PaddedB5Trims | script.js:128 | the field ` B5` followed by a tab trims to `B5` |
| ScriptInput.HexExamplePaddedB5 | script.js:128-135 | the field ` B5` followed by a tab becomes `10110101`: the whitespace is dropped before conversion |
| ScriptWaveform.ClockSlotsAt | script.js:34-39 | in the clocked part of the page's buses, slot k is low for even k and high for odd k |
| ScriptWaveform.DataSlotsAt | script.js:34-39 | slot k of the data part carries the level of bit k/2 |
| ScriptWaveform.I2cScl | script.js:27-44 | SCL has 2n+3 slots: high in the idle and start slots and in the stop slot |
| ScriptWaveform.I2cSda | script.js:27-45 | SDA has 2n+3 slots: high then low for the start condition, high in the stop slot |
| ScriptWaveform.SpiCs | script.js:53-63 | chip select has 2n+3 slots and is high exactly in the first and the last one |
| ScriptWaveform.UartTx | script.js:73-82 | TX has n+3 slots: idle high, start 0, the data levels in order, stop 1 |
| ScriptWaveform.GenerateWaveform | script.js:22-86 | the line names per protocol (SCL, SDA / SCLK, MOSI, MISO, CS / TX); no lines exactly for an unknown protocol; the line lengths per protocol |
| ScriptWaveform.I2cReadBack | script.js:25-46 | a receiver latching SDA on every rising edge of SCL reads exactly the data levels; the start and stop slots add no sample |
| ScriptWaveform.SpiReadBack | script.js:48-69 | a receiver latching MOSI on every rising edge of SCLK reads exactly the data levels |
| ScriptWaveform.UartReadBack | script.js:71-83 | a UART receiver after the idle slot sees a valid frame holding exactly the data levels |
| ScriptWaveform.ReadBackIsInput | script.js:22-86 | for a bit string, every protocol's receiver gives back the typed bits |
| ScriptWaveform.HeldAcrossCycle | script.js:34-39 | the data level is the same in both slots of a clock cycle |
| ScriptWaveform.I2cDataChangesOnlyWhenClockLow | script.js:30-42 | SDA changes while SCL is high only in the start slot and the stop slot |
| ScriptWaveform.I2cStartAndStop | script.js:30-42 | SDA always falls while SCL is high (start), but the stop slot raises SDA only when there are no bits or the last bit is not `1` |
| ScriptWaveform.SpiDataChangesOnlyWhenClockLow | script.js:58-61 | MOSI changes only in clock-low slots, so it is stable at every rising edge (SPI mode 0) |
| ScriptWaveform.SpiChipSelectOutlastsClock | script.js:55-68 | CS is three slots longer than SCLK, and MISO is all zeros as long as SCLK |
| ScriptWaveform.Click | script.js:126-139 | the selected protocol is always stored; when reading the field fails, the waveform and scroll offset stay as they were; otherwise the waveform is generated from a bit string and the scroll offset is reset |
| ScriptWaveform.ClickUartCarriesBinaryInput | script.js:126-139 | a binary field with UART puts exactly the typed bits on TX, as a UART receiver reads them |
| ScriptWaveform.ClickI2cCarriesInput | script.js:126-139 | with I²C, a receiver on SCL and SDA reads back the normalised field, whether typed in binary or hexadecimal |
| ProtocolWave.GenerateProtocolWave | protocol.js:9-41 | the names per protocol; no lines exactly for an unknown protocol; I²C and SPI take their clock from the clock source for the data length and carry one level per character, 1 exactly for `1`; the UART line is a valid frame of the data levels |
| ProtocolWave.ProtocolCarriesBits | protocol.js:9-41 | for a bit string, the data line (I²C, SPI) or the unframed TX line (UART) gives back the input |
| ProtocolWave.ClockIgnoresContent | protocol.js:11-26 | the clock line depends only on the data length |
| Waveforms.ClockSamplesAt | waveforms.py:1-6 | sample i of the clock is `i % 2` |
| Waveforms.GenerateClock | waveforms.py:1-6 | the clock has 2·length samples, and none for a length of zero or below |
| Waveforms.ClockCycle | waveforms.py:1-6 | cycle i of the clock is a low sample followed by a high one |
| Waveforms.ClockIsCycles | waveforms.py:1-6 | the clock is exactly n repetitions of low-high |
| Waveforms.ClockedWaveform | waveforms.py:9-24 | `generate_i2c` (SCL, SDA) and `generate_spi` (CLK, MOSI) share one shape: the clock line is twice as long as the data line, and the data line has one level per character, 1 exactly for `1` |
| Waveforms.GenerateUart | waveforms.py:27-35 | TX is a valid UART frame of the data levels, two samples longer than the data |
| Waveforms.GenerateWaveform | waveforms.py:38-47 | the names per protocol, and an empty signal list exactly for an unknown protocol |
| Waveforms.DataAlignsWithCycles | waveforms.py:9-24 | data sample i sits under clock cycle i (low at 2i, high at 2i+1) |
| Waveforms.WaveformCarriesBits | waveforms.py:9-35 | for a bit string, the data line or the unframed TX line gives back the input |
| Signals.Levels | protocol.js:16 | one level per character, 1 exactly where the character is `1` |
| Signals.CharsOfLevels | waveforms.py:13 | writing the levels of a bit string back as characters gives the bit string |
| Signals.LevelsOfChars | waveforms.py:13 | the other half of the inverse pair: writing a level sequence as characters and mapping them back gives the levels |
| Signals.LevelsSeeOnlyOnes | waveforms.py:13 | two strings have the same levels exactly when they have the same length and `1` in the same places; any other character counts as 0 |
| Variants.ProtocolMatchesServer | protocol.js:9-41 | with the server's clock as its clock source, `protocol.js` returns the server's signal list for every protocol and data string |
| Variants.PageClockIsServerClock | script.js:34-39 | the page's clocked slots for n bits equal the server's clock for n bits |
| Variants.PageDataDoublesServerData | script.js:34-39 | page data slot k is server data sample k/2 |
| Variants.PageSpiAgainstServer | script.js:58-61 | the page's SCLK equals the server's CLK, MOSI is twice as long, and a receiver on the page's lines reads the server's MOSI |
| Variants.PageUartIsIdlePlusServerFrame | script.js:73-81 | the page's TX is the server's TX frame preceded by one idle-high slot |
| Variants.PageI2cAgainstServer | script.js:27-45 | the page's SCL is the server's clock between the idle and start slots and the stop slot; a receiver on the page's lines reads the server's SDA |

## Left out

- Drawing on the canvas, the scrolling animation and the DOM wiring of `script.js` (lines 1-15, 88-124, 140-143) are I/O.
- `clock.js` and `waveform.js` only draw. `main.py` only serves `generate_waveform` over HTTP. None of them is part of this model.
- `clockArray`, used by `protocol.js`, is not defined in the modelled files. It is a function parameter, and every property of `ProtocolWave` holds for any clock source.
- ScriptInput.HexToBin: the error `NotHexDigit` stands for what JavaScript does with a non-hexadecimal piece, because that behaviour produces no bit string.
  - `parseInt(piece, 16)` skips leading whitespace, reads an optional sign, drops a leading `0x` or `0X`, and then reads the longest run of hexadecimal digits. An empty run gives `NaN`. So `"AZ"` gives 10, `" B"` gives 11, `"-1"` gives -1, and `"0x"` gives `NaN`.
  - The result is then written as text. A non-negative value gives valid binary digits. `NaN` gives `"00000NaN"`, and -1 gives `"000000-1"`; `generateWaveform` turns those characters into `NaN` levels.
  - The model reports an error for any character outside `[0-9A-Fa-f]` instead.
- ScriptInput.Pairs: `.` in `/.{1,2}/g` does not match line terminators, so JavaScript skips a newline inside the trimmed field. The model keeps every character; such a field holds a character that is not hexadecimal and is reported as `NotHexDigit`.
- ScriptInput.Match: for the same reason, JavaScript's `match` is also null for a string made only of line terminators, such as `"\n"`, where the model yields the pieces. `hexToBin` only ever receives trimmed text, which is empty or has a non-whitespace character at each end, so the two agree on every input the page passes.
- ScriptInput.Normalise: the `NotHexDigit` error has the same cause as in `HexToBin`. The click handler treats it like the blank-field error.
- ScriptWaveform.Click: a field that is neither binary nor hexadecimal does not throw in JavaScript; the page stores a new waveform and resets the scroll offset. The model keeps the previous waveform, as it does for a blank field, where the page really does throw.
  - When `parseInt` reads a non-negative number from every piece, the page draws the bits of those numbers: `"AZ"` gives `00001010`, and `"A B"` and `"A  B"` both give `0000101000001011`.
  - When some piece yields `NaN` or a negative number, that piece's text holds characters other than `0` and `1` (`N`, `a`, `-`), and the page draws `NaN` levels in their slots. Examples are `"ZZ"` and `"-1"`, and also `"0x1F"`, whose first piece `"0x"` gives `NaN`, so the field becomes `00000NaN00011111`.
- ScriptWaveform.GenerateWaveform: it requires a bit string, and `parseInt(bit)` becomes the level of `0` or `1`. Its only caller passes the normalised field, which `Normalise` proves is a bit string. For other characters `parseInt` gives the digit's value or `NaN`, and that is not modelled.
- JavaScript strings are UTF-16 code units, while Dafny `char` values are Unicode scalar values. Code points outside the Basic Multilingual Plane count as two characters in JavaScript and one here. That makes no difference for whitespace, binary digits or hexadecimal digits.
- The Python `data` parameter is a `str` whose characters are compared with `"1"`. The model uses the same `char` sequence.
- The page's `scrollOffset` is changed by the animation loop. Only its reset on a successful click is modelled.
