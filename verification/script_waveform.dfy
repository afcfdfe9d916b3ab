/**
 The in-page generator of `script.js`: one time slot per array entry, two
 slots per data bit on the clocked buses (clock low, then clock high, the
 data level held across both), framing slots around the data, and the
 click handler that feeds it the normalised input.
 */
module ScriptWaveform {
  import opened Signals
  import ScriptInput

  /** `n` clock cycles, each a low slot followed by a high slot. */
  function ClockSlots(n: nat): (clk: seq<int>)
    ensures |clk| == 2 * n && IsLevels(clk)
  {
    if n == 0 then [] else ClockSlots(n - 1) + [0, 1]
  }

  /** Slot `k` of the clock is low when `k` is even and high when it is
      odd. */
  lemma {:induction false} ClockSlotsAt(n: nat, k: nat)
    requires k < 2 * n
    ensures ClockSlots(n)[k] == k % 2
  {
    if k < 2 * (n - 1) {
      ClockSlotsAt(n - 1, k);
    } else {
      Parity(n, k);
    }
  }

  /** The last two slots before `2n` are `2n - 2` (even) and `2n - 1` (odd). */
  lemma Parity(n: nat, k: nat)
    requires 2 * (n - 1) <= k < 2 * n
    ensures k % 2 == k - 2 * (n - 1) && k / 2 == n - 1
  {
  }

  /** Every data level held for the two slots of its clock cycle. */
  function DataSlots(bits: string): (d: seq<int>)
    ensures |d| == 2 * |bits| && IsLevels(d)
  {
    if |bits| == 0 then []
    else
      var b := Level(bits[|bits| - 1]);
      DataSlots(bits[..|bits| - 1]) + [b, b]
  }

  /** Slot `k` of the data carries the level of bit `k / 2`. */
  lemma {:induction false} DataSlotsAt(bits: string, k: nat)
    requires k < 2 * |bits|
    ensures DataSlots(bits)[k] == Level(bits[k / 2])
  {
    var n := |bits|;
    var init := bits[..n - 1];
    if k < 2 * (n - 1) {
      DataSlotsAt(init, k);
      assert bits[k / 2] == init[k / 2];
    } else {
      Parity(n, k);
    }
  }

  /** `n` slots of level 0. */
  function Zeros(n: nat): (z: seq<int>)
    ensures |z| == n && forall k :: 0 <= k < n ==> z[k] == 0
  {
    seq(n, _ => 0)
  }

  /** I²C SCL: high for the idle and start slots, one cycle per bit, high
      for the stop slot. */
  function I2cScl(n: nat): (scl: seq<int>)
    ensures |scl| == 2 * n + 3 && IsLevels(scl)
    ensures scl[0] == 1 && scl[1] == 1 && scl[|scl| - 1] == 1
  {
    [1, 1] + ClockSlots(n) + [1]
  }

  /** I²C SDA: idle high, low for the start condition, the data slots,
      high for the stop condition. */
  function I2cSda(bits: string): (sda: seq<int>)
    ensures |sda| == 2 * |bits| + 3 && IsLevels(sda)
    ensures sda[0] == 1 && sda[1] == 0 && sda[|sda| - 1] == 1
  {
    [1, 0] + DataSlots(bits) + [1]
  }

  /** SPI chip select: inactive, selected for the select slot and every data
      slot, inactive again. */
  function SpiCs(n: nat): (cs: seq<int>)
    ensures |cs| == 2 * n + 3 && IsLevels(cs)
    ensures forall k :: 0 <= k < |cs| ==> (cs[k] == 1 <==> k == 0 || k == |cs| - 1)
  {
    [1, 0] + Zeros(2 * n) + [1]
  }

  /** UART TX: idle high, start bit 0, the data levels, stop bit 1. */
  function UartTx(bits: string): (tx: seq<int>)
    ensures |tx| == |bits| + 3 && IsLevels(tx)
    ensures tx[0] == 1 && tx[1] == 0 && tx[|tx| - 1] == 1
    ensures tx[2..|tx| - 1] == Levels(bits)
  {
    [1, 0] + Levels(bits) + [1]
  }

  /** `generateWaveform(protocol, dataBits)`. The data string is a bit
      string, so `parseInt(bit)` is the level of the character. An unknown
      protocol gives no lines. */
  function GenerateWaveform(protocol: string, dataBits: string): (lines: seq<Signal>)
    requires IsBitString(dataBits)
    ensures protocol == "i2c" ==> Names(lines) == ["SCL", "SDA"]
    ensures protocol == "spi" ==> Names(lines) == ["SCLK", "MOSI", "MISO", "CS"]
    ensures protocol == "uart" ==> Names(lines) == ["TX"]
    ensures protocol !in {"i2c", "spi", "uart"} <==> lines == []
    ensures protocol == "spi" ==>
              |lines[0].data| == |lines[1].data| == |lines[2].data| == 2 * |dataBits|
              && |lines[3].data| == 2 * |dataBits| + 3
    ensures protocol == "i2c" ==> |lines[0].data| == |lines[1].data| == 2 * |dataBits| + 3
    ensures protocol == "uart" ==> |lines[0].data| == |dataBits| + 3
  {
    var n := |dataBits|;
    if protocol == "i2c" then
      [Signal("SCL", I2cScl(n)), Signal("SDA", I2cSda(dataBits))]
    else if protocol == "spi" then
      [Signal("SCLK", ClockSlots(n)), Signal("MOSI", DataSlots(dataBits)),
       Signal("MISO", Zeros(2 * n)), Signal("CS", SpiCs(n))]
    else if protocol == "uart" then
      [Signal("TX", UartTx(dataBits))]
    else
      []
  }

  // ---------------------------------------------------------------------
  // What a receiver reads back
  // ---------------------------------------------------------------------

  /** Appending a two-slot cycle is appending its slots one at a time.
      Kept as a lemma: stated inline in `SamplesOfSlots`, among the facts
      about `RisingEdgeSamples`, the step runs out of solver resources. */
  lemma AppendPair(a: seq<int>, x: seq<int>, u: int, v: int)
    ensures a + (x + [u, v]) == a + x + [u] + [v]
  {
  }

  /** Appending to a concatenation appends to its second part. A lemma of
      its own for the same reason as `AppendPair`. */
  lemma AppendOne(a: seq<int>, x: seq<int>, b: int)
    ensures a + x + [b] == a + (x + [b])
  {
  }

  /** One clock cycle (low, then high) holding level `b` adds exactly one
      sample, `b`, when the clock before it ends high or is empty. */
  lemma {:induction false} SamplesOfCycle(c: seq<int>, d: seq<int>, b: int)
    requires |c| == |d|
    requires c == [] || c[|c| - 1] == 1
    ensures RisingEdgeSamples(c + [0] + [1], d + [b] + [b]) == RisingEdgeSamples(c, d) + [b]
  {
    RisingEdgeSamplesSnoc(c, d, 0, b);
    RisingEdgeSamplesSnoc(c + [0], d + [b], 1, b);
  }

  /** Clocking data slots onto lines whose clock ends high (or is empty)
      adds exactly the data levels to what a clocked receiver latches. */
  lemma {:induction false} SamplesOfSlots(c0: seq<int>, d0: seq<int>, bits: string)
    requires |c0| == |d0|
    requires c0 == [] || c0[|c0| - 1] == 1
    ensures RisingEdgeSamples(c0 + ClockSlots(|bits|), d0 + DataSlots(bits))
            == RisingEdgeSamples(c0, d0) + Levels(bits)
    decreases |bits|
  {
    if |bits| == 0 {
      assert c0 + ClockSlots(0) == c0 && d0 + DataSlots(bits) == d0;
    } else {
      var n := |bits|;
      var init := bits[..n - 1];
      var b := Level(bits[n - 1]);
      var c1 := c0 + ClockSlots(n - 1);
      var d1 := d0 + DataSlots(init);
      var before := RisingEdgeSamples(c0, d0);
      SamplesOfSlots(c0, d0, init);
      SamplesOfCycle(c1, d1, b);
      AppendPair(c0, ClockSlots(n - 1), 0, 1);
      AppendPair(d0, DataSlots(init), b, b);
      LevelsSnoc(bits);
      AppendOne(before, Levels(init), b);
    }
  }

  /** The idle and start slots hold no rising clock edge. */
  lemma {:induction false} StartSamplesNothing()
    ensures RisingEdgeSamples([1, 1], [1, 0]) == []
  {
    assert [1, 1][..1] == [1] && [1, 0][..1] == [1];
  }

  /** A receiver latching SDA on every rising edge of SCL reads back the data
      levels: the start and stop slots add no sample. */
  lemma {:induction false} I2cReadBack(bits: string)
    ensures RisingEdgeSamples(I2cScl(|bits|), I2cSda(bits)) == Levels(bits)
  {
    var c := [1, 1] + ClockSlots(|bits|);
    var d := [1, 0] + DataSlots(bits);
    SamplesOfSlots([1, 1], [1, 0], bits);
    StartSamplesNothing();
    RisingEdgeSamplesSnoc(c, d, 1, 1);
    assert I2cScl(|bits|) == c + [1] && I2cSda(bits) == d + [1];
  }

  /** A receiver latching MOSI on every rising edge of SCLK reads back the
      data levels (SPI mode 0). */
  lemma {:induction false} SpiReadBack(bits: string)
    ensures RisingEdgeSamples(ClockSlots(|bits|), DataSlots(bits)) == Levels(bits)
  {
    SamplesOfSlots([], [], bits);
    assert [] + ClockSlots(|bits|) == ClockSlots(|bits|);
    assert [] + DataSlots(bits) == DataSlots(bits);
  }

  /** A UART receiver fed the line after its idle slot recovers the data
      levels. */
  lemma {:induction false} UartReadBack(bits: string)
    ensures Unframe(UartTx(bits)[1..]) == Some(Levels(bits))
  {
    var tx := UartTx(bits);
    assert tx[1..][1..|tx[1..]| - 1] == tx[2..|tx| - 1];
  }

  /** For a bit string, each generated protocol carries the bits unchanged:
      the receiver's levels written back as characters give the input. */
  lemma {:induction false} ReadBackIsInput(bits: string)
    requires IsBitString(bits)
    ensures Chars(RisingEdgeSamples(I2cScl(|bits|), I2cSda(bits))) == bits
    ensures Chars(RisingEdgeSamples(ClockSlots(|bits|), DataSlots(bits))) == bits
    ensures Unframe(UartTx(bits)[1..]) == Some(Levels(bits)) && Chars(Levels(bits)) == bits
  {
    I2cReadBack(bits);
    SpiReadBack(bits);
    UartReadBack(bits);
    CharsOfLevels(bits);
  }

  // ---------------------------------------------------------------------
  // Bus conditions
  // ---------------------------------------------------------------------

  /** Within a clock cycle the data level is held: slot 2i+1 repeats
      slot 2i. */
  lemma {:induction false} HeldAcrossCycle(bits: string, k: nat)
    requires 0 < k < 2 * |bits| && k % 2 == 1
    ensures DataSlots(bits)[k] == DataSlots(bits)[k - 1]
  {
    DataSlotsAt(bits, k);
    DataSlotsAt(bits, k - 1);
    assert k / 2 == (k - 1) / 2;
  }

  /** On the I²C lines SDA changes while SCL is high only in slot 1 (the
      start condition) and in the last slot (the stop condition); every other
      change falls in a clock-low slot. */
  lemma {:induction false} I2cDataChangesOnlyWhenClockLow(bits: string, k: nat)
    requires 0 < k < 2 * |bits| + 3
    requires I2cSda(bits)[k] != I2cSda(bits)[k - 1]
    ensures I2cScl(|bits|)[k] == 0 || k == 1 || k == 2 * |bits| + 2
  {
    var n := |bits|;
    if 2 <= k < 2 * n + 2 {
      assert I2cScl(n)[k] == ClockSlots(n)[k - 2];
      ClockSlotsAt(n, k - 2);
      if (k - 2) % 2 == 1 {
        assert I2cSda(bits)[k] == DataSlots(bits)[k - 2];
        assert I2cSda(bits)[k - 1] == DataSlots(bits)[k - 3];
        HeldAcrossCycle(bits, k - 2);
      }
    }
  }

  /** The start condition is always there: SDA falls while SCL is high. The
      stop slot raises SDA while SCL is high exactly when SDA was low before
      it, that is when there are no bits or the last bit is not '1'. */
  lemma {:induction false} I2cStartAndStop(bits: string)
    ensures var scl, sda := I2cScl(|bits|), I2cSda(bits);
            scl[0] == scl[1] == 1 && sda[0] == 1 && sda[1] == 0
    ensures var scl, sda := I2cScl(|bits|), I2cSda(bits);
            var last := |sda| - 1;
            scl[last - 1] == scl[last] == 1
            && (sda[last - 1] == 0 <==> |bits| == 0 || bits[|bits| - 1] != '1')
  {
    var n := |bits|;
    var sda := I2cSda(bits);
    if n > 0 {
      assert sda[2 * n + 1] == DataSlots(bits)[2 * n - 1];
      DataSlotsAt(bits, 2 * n - 1);
    }
  }

  /** SPI MOSI changes only in slots where SCLK is low, so it is stable at
      every rising edge. */
  lemma {:induction false} SpiDataChangesOnlyWhenClockLow(bits: string, k: nat)
    requires 0 < k < 2 * |bits|
    requires DataSlots(bits)[k] != DataSlots(bits)[k - 1]
    ensures ClockSlots(|bits|)[k] == 0
  {
    if k % 2 == 1 {
      HeldAcrossCycle(bits, k);
    } else {
      ClockSlotsAt(|bits|, k);
    }
  }

  /** The SPI chip-select line is three slots longer than the clock: it has
      its own select slot and idle slots around the clocked ones. */
  lemma SpiChipSelectOutlastsClock(bits: string)
    requires IsBitString(bits)
    ensures var lines := GenerateWaveform("spi", bits);
            |lines[3].data| == |lines[0].data| + 3
            && lines[2].data == Zeros(|lines[0].data|)
  {
  }

  // ---------------------------------------------------------------------
  // The click handler
  // ---------------------------------------------------------------------

  /** The page state the click handler writes. */
  datatype Page = Page(protocol: string, waveformData: seq<Signal>, scrollOffset: int)

  /** One click on "Go": the selected protocol is stored first; the input is
      trimmed and read as binary or as hexadecimal; on success the waveform is
      generated and the scroll offset reset. When reading the input throws,
      the handler stops after storing the protocol. */
  function Click(page: Page, selected: string, raw: string): (r: Page)
    ensures r.protocol == selected
    ensures ScriptInput.Normalise(raw).Err? ==>
              r.waveformData == page.waveformData && r.scrollOffset == page.scrollOffset
    ensures ScriptInput.Normalise(raw).Ok? ==>
              r.scrollOffset == 0
              && IsBitString(ScriptInput.Normalise(raw).value)
              && r.waveformData == GenerateWaveform(selected, ScriptInput.Normalise(raw).value)
  {
    match ScriptInput.Normalise(raw)
    case Err(_) => page.(protocol := selected)
    case Ok(bits) => Page(selected, GenerateWaveform(selected, bits), 0)
  }

  /** Typing a binary string and choosing UART puts exactly those bits on the
      TX line: a UART receiver after the idle slot gives them back. */
  lemma {:induction false} ClickUartCarriesBinaryInput(page: Page, raw: string)
    requires ScriptInput.IsBinaryInput(ScriptInput.Trim(raw))
    ensures var lines := Click(page, "uart", raw).waveformData;
            |lines| == 1 && lines[0].name == "TX"
            && Unframe(lines[0].data[1..]) == Some(Levels(ScriptInput.Trim(raw)))
            && Chars(Levels(ScriptInput.Trim(raw))) == ScriptInput.Trim(raw)
  {
    var bits := ScriptInput.Trim(raw);
    UartReadBack(bits);
    CharsOfLevels(bits);
  }

  /** Choosing I²C, a receiver clocking SDA on SCL's rising edges reads back
      the normalised input, whether it was typed in binary or in hex. */
  lemma {:induction false} ClickI2cCarriesInput(page: Page, raw: string)
    requires ScriptInput.Normalise(raw).Ok?
    ensures var lines := Click(page, "i2c", raw).waveformData;
            var bits := ScriptInput.Normalise(raw).value;
            |lines| == 2
            && Chars(RisingEdgeSamples(lines[0].data, lines[1].data)) == bits
  {
    var bits := ScriptInput.Normalise(raw).value;
    I2cReadBack(bits);
    CharsOfLevels(bits);
  }
}
