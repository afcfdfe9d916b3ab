/**
 The standalone generator of `protocol.js`. Its clock comes from a
 `clockArray` function that is defined elsewhere in the page; here it is a
 parameter, so every property below holds for any clock source.
 */
module ProtocolWave {
  import opened Signals

  /** `generateProtocolWave(protocol, data)`: a clock of `data.length` from
      the clock source plus one level per data character for I²C and SPI, a
      framed TX line for UART, nothing for any other protocol. */
  function GenerateProtocolWave(clockArray: nat -> seq<int>, protocol: string, data: string)
    : (lines: seq<Signal>)
    ensures protocol == "i2c" ==> Names(lines) == ["SCL", "SDA"]
    ensures protocol == "spi" ==> Names(lines) == ["CLK", "MOSI"]
    ensures protocol == "uart" ==> Names(lines) == ["TX"]
    ensures protocol !in {"i2c", "spi", "uart"} <==> lines == []
    ensures protocol in {"i2c", "spi"} ==>
              lines[0].data == clockArray(|data|)
              && |lines[1].data| == |data| && IsLevels(lines[1].data)
              && forall i :: 0 <= i < |data| ==> (lines[1].data[i] == 1 <==> data[i] == '1')
    ensures protocol == "uart" ==>
              |lines[0].data| == |data| + 2 && IsLevels(lines[0].data)
              && Unframe(lines[0].data) == Some(Levels(data))
  {
    match protocol
    case "i2c" => [Signal("SCL", clockArray(|data|)), Signal("SDA", Levels(data))]
    case "spi" => [Signal("CLK", clockArray(|data|)), Signal("MOSI", Levels(data))]
    case "uart" => [Signal("TX", [0] + Levels(data) + [1])]
    case _ => []
  }

  /** For a bit string, the UART frame decodes back to the typed
      characters, and the I²C and SPI data lines write back to them. */
  lemma {:induction false} ProtocolCarriesBits(clockArray: nat -> seq<int>, protocol: string, data: string)
    requires IsBitString(data)
    requires protocol in {"i2c", "spi", "uart"}
    ensures var lines := GenerateProtocolWave(clockArray, protocol, data);
            if protocol == "uart" then Chars(Unframe(lines[0].data).value) == data
            else Chars(lines[1].data) == data
  {
    CharsOfLevels(data);
  }

  /** The clock depends only on the length of the data: two inputs of the
      same length get the same clock, whatever their characters. */
  lemma ClockIgnoresContent(
    clockArray: nat -> seq<int>, protocol: string, d1: string, d2: string)
    requires protocol in {"i2c", "spi"} && |d1| == |d2|
    ensures GenerateProtocolWave(clockArray, protocol, d1)[0]
            == GenerateProtocolWave(clockArray, protocol, d2)[0]
  {
  }
}
