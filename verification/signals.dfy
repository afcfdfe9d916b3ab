/**
 The vocabulary shared by the three waveform generators: a named line of
 logic levels, the mapping of a data character to a level, and two
 reference receivers (a clocked one and a UART one) that read a line
 back.
 */
module Signals {

  /** One named line of logic levels: `{ name, data }` in the JavaScript
      variants, `{"name": ..., "data": ...}` in the Python one. One entry of
      `data` is one time slot. */
  datatype Signal = Signal(name: string, data: seq<int>)

  datatype Option<+T> = None | Some(value: T)

  /** Every character is a binary digit (the empty string included). */
  predicate IsBitString(s: string) {
    forall i :: 0 <= i < |s| ==> s[i] == '0' || s[i] == '1'
  }

  /** Bit strings are closed under concatenation. */
  lemma {:induction false} BitStringConcat(a: string, b: string)
    requires IsBitString(a) && IsBitString(b)
    ensures IsBitString(a + b)
  {
    assert forall i :: 0 <= i < |a + b| ==> (a + b)[i] == if i < |a| then a[i] else b[i - |a|];
  }

  /** Every entry is a logic level 0 or 1. */
  predicate IsLevels(ls: seq<int>) {
    forall i :: 0 <= i < |ls| ==> ls[i] == 0 || ls[i] == 1
  }

  /** The names of a list of signals, in order. */
  function Names(lines: seq<Signal>): seq<string> {
    seq(|lines|, i requires 0 <= i < |lines| => lines[i].name)
  }

  /** The level of one data character, `bit === "1" ? 1 : 0`, which is
      also the value of a binary digit. */
  function Level(c: char): nat {
    if c == '1' then 1 else 0
  }

  /** A data string mapped character by character to levels. */
  function Levels(s: string): (ls: seq<int>)
    ensures |ls| == |s| && IsLevels(ls)
    ensures forall i :: 0 <= i < |s| ==> (ls[i] == 1 <==> s[i] == '1')
  {
    seq(|s|, i requires 0 <= i < |s| => Level(s[i]))
  }

  /** Levels written back as a bit string; the inverse of `Levels`. */
  function Chars(ls: seq<int>): (s: string)
    ensures |s| == |ls| && IsBitString(s)
  {
    seq(|ls|, i requires 0 <= i < |ls| => if ls[i] == 1 then '1' else '0')
  }

  /** Writing the levels of a bit string back gives the bit string. */
  lemma {:induction false} CharsOfLevels(s: string)
    requires IsBitString(s)
    ensures Chars(Levels(s)) == s
  {
    assert forall i :: 0 <= i < |s| ==> Chars(Levels(s))[i] == s[i];
  }

  /** Reading back the characters of a level sequence gives the levels. */
  lemma {:induction false} LevelsOfChars(ls: seq<int>)
    requires IsLevels(ls)
    ensures Levels(Chars(ls)) == ls
  {
    assert forall i :: 0 <= i < |ls| ==> Levels(Chars(ls))[i] == ls[i];
  }

  /** The mapping sees only where the '1' characters are: every other
      character, '0' or not, becomes level 0. */
  lemma {:induction false} LevelsSeeOnlyOnes(s: string, t: string)
    ensures Levels(s) == Levels(t) <==>
            |s| == |t| && forall i :: 0 <= i < |s| ==> (s[i] == '1' <==> t[i] == '1')
  {
    if |s| == |t| && forall i :: 0 <= i < |s| ==> (s[i] == '1' <==> t[i] == '1') {
      assert forall i :: 0 <= i < |s| ==> Levels(s)[i] == Levels(t)[i];
    }
  }

  /** `Levels` commutes with taking a prefix. */
  lemma LevelsPrefix(s: string, n: nat)
    requires n <= |s|
    ensures Levels(s[..n]) == Levels(s)[..n]
  {
  }

  /** The levels of a string are the levels of all but its last character,
      then the level of the last one. */
  lemma {:induction false} LevelsSnoc(s: string)
    requires |s| > 0
    ensures Levels(s) == Levels(s[..|s| - 1]) + [Level(s[|s| - 1])]
  {
    LevelsPrefix(s, |s| - 1);
  }

  /** What a clocked receiver latches: the data level in every slot where the
      clock has just risen (low in the slot before, high in this one), in
      slot order. */
  function RisingEdgeSamples(clk: seq<int>, data: seq<int>): seq<int>
    requires |clk| == |data|
    decreases |clk|
  {
    if |clk| < 2 then []
    else
      var n := |clk|;
      RisingEdgeSamples(clk[..n - 1], data[..n - 1])
        + (if clk[n - 2] == 0 && clk[n - 1] == 1 then [data[n - 1]] else [])
  }

  /** Appending one slot to both lines adds at most that slot's sample. */
  lemma {:induction false} RisingEdgeSamplesSnoc(clk: seq<int>, data: seq<int>, c: int, d: int)
    requires |clk| == |data|
    ensures RisingEdgeSamples(clk + [c], data + [d])
            == RisingEdgeSamples(clk, data)
               + (if |clk| > 0 && clk[|clk| - 1] == 0 && c == 1 then [d] else [])
  {
    assert (clk + [c])[..|clk|] == clk;
    assert (data + [d])[..|data|] == data;
  }

  /** A UART receiver for one frame: a start bit 0, the data bits, a stop
      bit 1. `None` when either framing bit is wrong. */
  function Unframe(tx: seq<int>): Option<seq<int>> {
    if |tx| >= 2 && tx[0] == 0 && tx[|tx| - 1] == 1 then Some(tx[1..|tx| - 1]) else None
  }
}
