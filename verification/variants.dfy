/**
 How the three generators relate. The page generator of `script.js`, the
 standalone `protocol.js` and the server's `waveforms.py` draw the same
 protocols differently: this module states exactly where they agree and
 where they differ.
 */
module Variants {
  import opened Signals
  import ScriptWaveform
  import ProtocolWave
  import Waveforms

  /** The clock source that makes `protocol.js` behave like the server. */
  function ServerClock(n: nat): seq<int> {
    Waveforms.GenerateClock(n)
  }

  /** With the server's clock as its clock source, `protocol.js` returns the
      server's signal list for every protocol and every data string. */
  lemma ProtocolMatchesServer(protocol: string, data: string)
    ensures ProtocolWave.GenerateProtocolWave(ServerClock, protocol, data)
            == Waveforms.GenerateWaveform(protocol, data).signals
  {
  }

  /** The page's clock for `n` bits is the server's clock for `n` bits. */
  lemma {:induction false} PageClockIsServerClock(n: nat)
    ensures ScriptWaveform.ClockSlots(n) == Waveforms.GenerateClock(n)
  {
    var page := ScriptWaveform.ClockSlots(n);
    var server := Waveforms.GenerateClock(n);
    forall k | 0 <= k < 2 * n
      ensures page[k] == server[k]
    {
      ScriptWaveform.ClockSlotsAt(n, k);
      Waveforms.ClockSamplesAt(2 * n, k);
    }
  }

  /** The page holds every data level for two samples where the server has
      one: page slot `k` is server sample `k / 2`. */
  lemma {:induction false} PageDataDoublesServerData(bits: string, k: nat)
    requires k < 2 * |bits|
    ensures ScriptWaveform.DataSlots(bits)[k] == Waveforms.GenerateI2c(bits).signals[1].data[k / 2]
  {
    ScriptWaveform.DataSlotsAt(bits, k);
  }

  /** The page's SPI clock and MOSI line against the server's: the clocks are
      equal, MOSI holds each server sample for two slots, and a receiver on
      the page's lines latches the server's MOSI samples. */
  lemma {:induction false} PageSpiAgainstServer(bits: string)
    ensures var server := Waveforms.GenerateSpi(bits).signals;
            ScriptWaveform.ClockSlots(|bits|) == server[0].data
            && |ScriptWaveform.DataSlots(bits)| == 2 * |server[1].data|
            && RisingEdgeSamples(ScriptWaveform.ClockSlots(|bits|), ScriptWaveform.DataSlots(bits))
               == server[1].data
  {
    PageClockIsServerClock(|bits|);
    ScriptWaveform.SpiReadBack(bits);
  }

  /** The page's UART line is the server's frame preceded by one idle-high
      sample. */
  lemma {:induction false} PageUartIsIdlePlusServerFrame(bits: string)
    ensures ScriptWaveform.UartTx(bits) == [1] + Waveforms.GenerateUart(bits).signals[0].data
  {
    var levels := Levels(bits);
    assert Waveforms.GenerateUart(bits).signals[0].data == [0] + levels + [1];
    assert [1, 0] + levels + [1] == [1] + ([0] + levels + [1]);
  }

  /** The page's I²C lines against the server's: SCL has the idle and start
      slots before the server's clock and the stop slot after it, and a
      receiver on the page's lines latches the server's SDA samples. */
  lemma {:induction false} PageI2cAgainstServer(bits: string)
    ensures var server := Waveforms.GenerateI2c(bits).signals;
            ScriptWaveform.I2cScl(|bits|) == [1, 1] + server[0].data + [1]
            && RisingEdgeSamples(ScriptWaveform.I2cScl(|bits|), ScriptWaveform.I2cSda(bits))
               == server[1].data
  {
    PageClockIsServerClock(|bits|);
    ScriptWaveform.I2cReadBack(bits);
  }
}
