/**
 The server-side generator of `waveforms.py`: the same three protocols as
 the page, each wrapped in a `{"signals": [...]}` object, with a clock of
 one low and one high sample per data character.
 */
module Waveforms {
  import opened Signals

  /** The `{"signals": [...]}` object every generator returns. */
  datatype Waveform = Waveform(signals: seq<Signal>)

  /** The first `m` samples of the alternating clock: sample `i` is
      `i % 2`. */
  function ClockSamples(m: nat): (clk: seq<int>)
    ensures |clk| == m && IsLevels(clk)
  {
    if m == 0 then [] else ClockSamples(m - 1) + [(m - 1) % 2]
  }

  /** Sample `i` of the clock is `i % 2`: low on even samples, high on odd
      ones. */
  lemma {:induction false} ClockSamplesAt(m: nat, i: nat)
    requires i < m
    ensures ClockSamples(m)[i] == i % 2
  {
    if i < m - 1 {
      ClockSamplesAt(m - 1, i);
    }
  }

  /** `generate_clock(length)`: `range(length * 2)` is empty for a length
      of zero or below. */
  function GenerateClock(length: int): (clk: seq<int>)
    ensures |clk| == if length > 0 then 2 * length else 0
    ensures IsLevels(clk)
  {
    ClockSamples(if length > 0 then 2 * length else 0)
  }

  /** Cycle `i` of the clock (for `i < length`) is a low sample followed by
      a high one. */
  lemma {:induction false} ClockCycle(length: int, i: nat)
    requires i < length
    ensures GenerateClock(length)[2 * i] == 0 && GenerateClock(length)[2 * i + 1] == 1
  {
    ClockSamplesAt(2 * length, 2 * i);
    ClockSamplesAt(2 * length, 2 * i + 1);
  }

  /** The clock is `length` repetitions of the cycle low-high. */
  function Cycles(n: nat): (c: seq<int>)
    ensures |c| == 2 * n
  {
    if n == 0 then [] else [0, 1] + Cycles(n - 1)
  }

  /** `generate_clock` builds exactly `length` low-high cycles. */
  lemma {:induction false} ClockIsCycles(n: nat)
    ensures GenerateClock(n) == Cycles(n)
  {
    var clk := GenerateClock(n);
    var ref := Cycles(n);
    forall i | 0 <= i < 2 * n
      ensures clk[i] == ref[i]
    {
      CyclesAt(n, i);
      ClockSamplesAt(2 * n, i);
    }
  }

  /** Sample `i` of `Cycles(n)` is `i % 2`. */
  lemma {:induction false} CyclesAt(n: nat, i: nat)
    requires i < 2 * n
    ensures Cycles(n)[i] == i % 2
  {
    if 2 <= i {
      CyclesAt(n - 1, i - 2);
      assert (i - 2) % 2 == i % 2;
    }
  }

  /** The shape shared by `generate_i2c` and `generate_spi`: a clock line of
      two samples per character and a data line of one level per
      character. */
  function ClockedWaveform(clockName: string, dataName: string, data: string): (w: Waveform)
    ensures Names(w.signals) == [clockName, dataName]
    ensures |w.signals[0].data| == 2 * |w.signals[1].data| == 2 * |data|
    ensures IsLevels(w.signals[0].data) && IsLevels(w.signals[1].data)
    ensures forall i :: 0 <= i < |data| ==> (w.signals[1].data[i] == 1 <==> data[i] == '1')
  {
    Waveform([Signal(clockName, GenerateClock(|data|)), Signal(dataName, Levels(data))])
  }

  /** `generate_i2c(data)`. */
  function GenerateI2c(data: string): Waveform {
    ClockedWaveform("SCL", "SDA", data)
  }

  /** `generate_spi(data)`. */
  function GenerateSpi(data: string): Waveform {
    ClockedWaveform("CLK", "MOSI", data)
  }

  /** `generate_uart(data)`: a start bit, the data levels, a stop bit. */
  function GenerateUart(data: string): (w: Waveform)
    ensures Names(w.signals) == ["TX"]
    ensures |w.signals[0].data| == |data| + 2 && IsLevels(w.signals[0].data)
    ensures Unframe(w.signals[0].data) == Some(Levels(data))
  {
    Waveform([Signal("TX", [0] + Levels(data) + [1])])
  }

  /** `generate_waveform(protocol, data)`: the dispatcher; an unknown protocol
      gives an empty signal list. */
  function GenerateWaveform(protocol: string, data: string): (w: Waveform)
    ensures protocol == "i2c" ==> Names(w.signals) == ["SCL", "SDA"]
    ensures protocol == "spi" ==> Names(w.signals) == ["CLK", "MOSI"]
    ensures protocol == "uart" ==> Names(w.signals) == ["TX"]
    ensures protocol !in {"i2c", "spi", "uart"} <==> w.signals == []
  {
    if protocol == "i2c" then GenerateI2c(data)
    else if protocol == "spi" then GenerateSpi(data)
    else if protocol == "uart" then GenerateUart(data)
    else Waveform([])
  }

  /** On the clocked protocols each data sample lines up with one clock
      cycle: the clock is twice as long as the data line, and data sample
      `i` sits under the low-high cycle `i`. */
  lemma {:induction false} DataAlignsWithCycles(protocol: string, data: string, i: nat)
    requires protocol in {"i2c", "spi"} && i < |data|
    ensures var w := GenerateWaveform(protocol, data);
            |w.signals[0].data| == 2 * |w.signals[1].data|
            && w.signals[0].data[2 * i] == 0 && w.signals[0].data[2 * i + 1] == 1
            && (w.signals[1].data[i] == 1 <==> data[i] == '1')
  {
    ClockCycle(|data|, i);
  }

  /** For a bit string, every protocol's data line gives the input back:
      directly on I²C and SPI, through a UART receiver on TX. */
  lemma {:induction false} WaveformCarriesBits(protocol: string, data: string)
    requires IsBitString(data) && protocol in {"i2c", "spi", "uart"}
    ensures var w := GenerateWaveform(protocol, data);
            if protocol == "uart" then Chars(Unframe(w.signals[0].data).value) == data
            else Chars(w.signals[1].data) == data
  {
    CharsOfLevels(data);
  }
}
