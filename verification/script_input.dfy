/**
 The input normaliser of the browser front end (script.js): the text of the
 data field is trimmed; if what remains is made only of '0' and '1' it is
 the bit string as it stands, otherwise it is read as hexadecimal by
 `hexToBin`, which cuts it into pieces of two digits and writes each piece
 as eight binary digits.
 */
module ScriptInput {
  import opened Signals

  /** Why no bit string came out of the data field. */
  datatype InputError =
    | MatchIsNull   // nothing left after trimming: `"".match(...)` is null and `.map` throws
    | NotHexDigit   // a character outside [0-9A-Fa-f] reached `hexToBin`

  datatype Result<+T> = Ok(value: T) | Err(error: InputError)

  /** The ECMAScript WhiteSpace and LineTerminator code points, which
      `String.prototype.trim` removes at both ends. */
  predicate IsJsWhitespace(c: char) {
    || c == '\t' || c == '\n' || c == '\U{B}' || c == '\U{C}' || c == '\r'
    || c == ' ' || c == '\U{A0}' || c == '\U{1680}'
    || ('\U{2000}' <= c <= '\U{200A}')
    || c == '\U{2028}' || c == '\U{2029}' || c == '\U{202F}' || c == '\U{205F}'
    || c == '\U{3000}' || c == '\U{FEFF}'
  }

  /** The string with its leading whitespace removed. */
  function TrimStart(s: string): (r: string)
    ensures |r| <= |s| && r == s[|s| - |r|..]
    ensures forall i :: 0 <= i < |s| - |r| ==> IsJsWhitespace(s[i])
    ensures r == [] || !IsJsWhitespace(r[0])
    decreases |s|
  {
    if |s| > 0 && IsJsWhitespace(s[0]) then TrimStart(s[1..]) else s
  }

  /** The string with its trailing whitespace removed. */
  function TrimEnd(s: string): (r: string)
    ensures |r| <= |s| && r == s[..|r|]
    ensures forall i :: |r| <= i < |s| ==> IsJsWhitespace(s[i])
    ensures r == [] || !IsJsWhitespace(r[|r| - 1])
    decreases |s|
  {
    if |s| > 0 && IsJsWhitespace(s[|s| - 1]) then TrimEnd(s[..|s| - 1]) else s
  }

  /** `r` is the slice of `s` starting at `i`, and everything of `s` before
      and after that slice is whitespace. */
  predicate CutAt(s: string, r: string, i: nat) {
    i <= |s| - |r| && r == s[i..i + |r|]
    && (forall k :: 0 <= k < i ==> IsJsWhitespace(s[k]))
    && (forall k :: i + |r| <= k < |s| ==> IsJsWhitespace(s[k]))
  }

  /** `raw.trim()`: the field with its leading and trailing whitespace cut
      off and nothing else changed. */
  function Trim(s: string): (r: string)
    ensures r == [] || (!IsJsWhitespace(r[0]) && !IsJsWhitespace(r[|r| - 1]))
    ensures r == [] <==> forall i :: 0 <= i < |s| ==> IsJsWhitespace(s[i])
    ensures (s == [] || (!IsJsWhitespace(s[0]) && !IsJsWhitespace(s[|s| - 1]))) ==> r == s
    ensures exists i: nat :: CutAt(s, r, i)
  {
    var front := TrimStart(s);
    var r := TrimEnd(front);
    assert r == [] ==> front == [];
    var i := |s| - |front|;
    assert r == front[..|r|] && front == s[i..];
    assert r == s[i..i + |r|];
    assert CutAt(s, r, i);
    r
  }

  /** Trimming has exactly one answer: any slice of `s` with only whitespace
      around it and none at its own ends is `Trim(s)`. */
  lemma {:induction false} TrimIsUnique(s: string, r: string, i: nat)
    requires CutAt(s, r, i)
    requires r == [] || (!IsJsWhitespace(r[0]) && !IsJsWhitespace(r[|r| - 1]))
    ensures r == Trim(s)
  {
    var t := Trim(s);
    var j: nat :| CutAt(s, t, j);
    if r == [] {
      assert forall k :: 0 <= k < |s| ==> IsJsWhitespace(s[k]);
    } else {
      assert r[0] == s[i] && r[|r| - 1] == s[i + |r| - 1];
      assert t != [] && j + |t| <= |s|;
      assert t[0] == s[j] && t[|t| - 1] == s[j + |t| - 1];
      assert !IsJsWhitespace(s[j]) && !IsJsWhitespace(s[j + |t| - 1]);
      assert i == j;
      assert i + |r| == j + |t|;
    }
  }

  /** The test `/^[0-1]+$/.test(raw)`. */
  predicate IsBinaryInput(s: string) {
    |s| > 0 && IsBitString(s)
  }

  /** A digit `parseInt(_, 16)` accepts: 0-9, a-f, A-F. */
  predicate IsHexDigit(c: char) {
    ('0' <= c <= '9') || ('a' <= c <= 'f') || ('A' <= c <= 'F')
  }

  /** Every character is a hexadecimal digit. */
  predicate AllHex(s: string) {
    forall i :: 0 <= i < |s| ==> IsHexDigit(s[i])
  }

  /** The value of one hexadecimal digit, either case. */
  function HexDigitValue(c: char): (v: nat)
    requires IsHexDigit(c)
    ensures v < 16
  {
    if '0' <= c <= '9' then c as int - '0' as int
    else if 'a' <= c <= 'f' then c as int - 'a' as int + 10
    else c as int - 'A' as int + 10
  }

  /** Two to the power `k`. */
  function Pow2(k: nat): (p: nat)
    ensures p >= 1
  {
    if k == 0 then 1 else 2 * Pow2(k - 1)
  }

  /** Powers of two grow with the exponent. */
  lemma {:induction false} Pow2Monotone(i: nat, j: nat)
    requires i <= j
    ensures Pow2(i) <= Pow2(j)
    decreases j
  {
    if i < j {
      Pow2Monotone(i, j - 1);
    }
  }

  /** The number a string of binary digits denotes, most significant digit
      first; each digit is worth its `Level` (any character other than '1'
      counts as a 0 digit). */
  function BitsValue(s: string): nat
  {
    if s == [] then 0 else 2 * BitsValue(s[..|s| - 1]) + Level(s[|s| - 1])
  }

  /** `v.toString(2)`: binary digits without leading zeros ("0" for 0). */
  function ToBase2(v: nat): (r: string)
    ensures 1 <= |r| && IsBitString(r)
    ensures BitsValue(r) == v
    ensures |r| == 1 || Pow2(|r| - 1) <= v
    decreases v
  {
    if v < 2 then
      [if v == 1 then '1' else '0']
    else
      var high := ToBase2(v / 2);
      var r := high + [if v % 2 == 1 then '1' else '0'];
      assert r[..|r| - 1] == high;
      r
  }

  /** A value below 256 has at most eight binary digits. */
  lemma {:induction false} ByteDigits(v: nat)
    requires v < 256
    ensures |ToBase2(v)| <= 8
  {
    var n := |ToBase2(v)|;
    if n > 8 {
      Pow2Monotone(8, n - 1);
    }
  }

  /** `s.padStart(width, fill)` for a one-character fill. */
  function PadStart(s: string, width: nat, fill: char): (r: string)
    ensures |r| == if |s| >= width then |s| else width
    ensures r[|r| - |s|..] == s
    ensures forall i :: 0 <= i < |r| - |s| ==> r[i] == fill
  {
    if |s| >= width then s else seq(width - |s|, _ => fill) + s
  }

  /** Leading zeros do not change the value of a binary numeral. */
  lemma {:induction false} BitsValueLeadingZeros(z: string, s: string)
    requires forall i :: 0 <= i < |z| ==> z[i] == '0'
    ensures BitsValue(z + s) == BitsValue(s)
    decreases |s|
  {
    if s == [] {
      assert z + s == z;
      AllZerosValue(z);
    } else {
      var s' := s[..|s| - 1];
      assert (z + s)[..|z + s| - 1] == z + s';
      BitsValueLeadingZeros(z, s');
    }
  }

  /** A string of zeros denotes 0. */
  lemma {:induction false} AllZerosValue(z: string)
    requires forall i :: 0 <= i < |z| ==> z[i] == '0'
    ensures BitsValue(z) == 0
    decreases |z|
  {
    if z != [] {
      AllZerosValue(z[..|z| - 1]);
    }
  }

  /** The value of a concatenation: the left part is shifted by the length
      of the right part. */
  lemma {:induction false} BitsValueAppend(a: string, b: string)
    ensures BitsValue(a + b) == BitsValue(a) * Pow2(|b|) + BitsValue(b)
    decreases |b|
  {
    if b == [] {
      assert a + b == a;
    } else {
      var b' := b[..|b| - 1];
      var last := Level(b[|b| - 1]);
      assert (a + b)[..|a + b| - 1] == a + b';
      assert BitsValue(a + b) == 2 * BitsValue(a + b') + last;
      BitsValueAppend(a, b');
      var x, p := BitsValue(a), Pow2(|b'|);
      assert Pow2(|b|) == 2 * p;
      assert BitsValue(b) == 2 * BitsValue(b') + last;
      DoubleProduct(x, p);
    }
  }

  /** Doubling a product doubles either factor. A lemma of its own, because
      proved inline amid the facts about `BitsValue` the step runs out of
      solver resources. */
  lemma DoubleProduct(x: nat, p: nat)
    ensures 2 * (x * p) == x * (2 * p)
  {
  }

  /** Two bit strings of one length with one value are the same string. */
  lemma {:induction false} BitsValueInjective(a: string, b: string)
    requires IsBitString(a) && IsBitString(b) && |a| == |b|
    requires BitsValue(a) == BitsValue(b)
    ensures a == b
    decreases |a|
  {
    if a != [] {
      var a', b' := a[..|a| - 1], b[..|b| - 1];
      assert a[|a| - 1] == b[|b| - 1];
      BitsValueInjective(a', b');
      assert a == a' + [a[|a| - 1]];
      assert b == b' + [b[|b| - 1]];
    }
  }

  /** `parseInt(byte, 16).toString(2).padStart(8, "0")` for a value of at
      most two hexadecimal digits: eight binary digits denoting `v`. */
  function Byte8(v: nat): (r: string)
    requires v < 256
    ensures |r| == 8 && IsBitString(r)
    ensures BitsValue(r) == v
  {
    var digits := ToBase2(v);
    ByteDigits(v);
    var r := PadStart(digits, 8, '0');
    assert r == r[..|r| - |digits|] + digits;
    BitsValueLeadingZeros(r[..|r| - |digits|], digits);
    r
  }

  /** Concatenation of a list of strings: `.join("")`. */
  function Join(parts: seq<string>): string {
    if parts == [] then [] else parts[0] + Join(parts[1..])
  }

  /** The global matches of `/.{1,2}/g` on a string with no line terminator:
      consecutive pieces of two characters, the last one of one character
      when the length is odd. */
  function Pairs(s: string): (ps: seq<string>)
    ensures |ps| == (|s| + 1) / 2
    ensures AllHex(s) ==> forall k :: 0 <= k < |ps| ==> IsHexPiece(ps[k])
    decreases |s|
  {
    if |s| == 0 then []
    else if |s| <= 2 then [s]
    else
      assert AllHex(s) ==> AllHex(s[2..]);
      [s[..2]] + Pairs(s[2..])
  }

  /** Piece `k` is the slice of the string from `2k`, two characters long
      or up to the end. */
  lemma {:induction false} PairAt(s: string, k: nat)
    requires k < |Pairs(s)|
    ensures Pairs(s)[k] == s[2 * k..if 2 * k + 2 <= |s| then 2 * k + 2 else |s|]
    decreases |s|
  {
    if |s| > 2 && k > 0 {
      var rest := s[2..];
      assert Pairs(s)[k] == Pairs(rest)[k - 1];
      PairAt(rest, k - 1);
      assert rest[2 * (k - 1)..] == s[2 * k..];
    }
  }

  /** The pieces put back together are the string they were cut from. */
  lemma {:induction false} PairsJoin(s: string)
    ensures Join(Pairs(s)) == s
    decreases |s|
  {
    if |s| > 2 {
      PairsJoin(s[2..]);
      assert Pairs(s)[1..] == Pairs(s[2..]);
      assert s == s[..2] + s[2..];
    }
  }

  /** `s.match(/.{1,2}/g)`: `None` (null) when there is no match at all. */
  function Match(s: string): (m: Option<seq<string>>)
    ensures m.None? <==> s == []
    ensures m.Some? ==> m.value == Pairs(s)
  {
    if s == [] then None else Some(Pairs(s))
  }

  /** A piece `match` may produce, made of hexadecimal digits. */
  predicate IsHexPiece(p: string) {
    1 <= |p| <= 2 && AllHex(p)
  }

  /** `parseInt(piece, 16)`. */
  function PieceValue(p: string): (v: nat)
    requires IsHexPiece(p)
    ensures v < 256
    ensures |p| == 1 ==> v < 16
  {
    if |p| == 1 then HexDigitValue(p[0]) else 16 * HexDigitValue(p[0]) + HexDigitValue(p[1])
  }

  /** The `.map(...)` then `.join("")` of `hexToBin`. */
  function Bytes(pieces: seq<string>): (r: string)
    requires forall k :: 0 <= k < |pieces| ==> IsHexPiece(pieces[k])
    ensures |r| == 8 * |pieces| && IsBitString(r)
  {
    if pieces == [] then []
    else
      var rest := pieces[1..];
      assert forall k :: 0 <= k < |rest| ==> rest[k] == pieces[k + 1];
      var head, tail := Byte8(PieceValue(pieces[0])), Bytes(rest);
      BitStringConcat(head, tail);
      head + tail
  }

  /** The bits of the pieces of a hexadecimal string. */
  function HexBytes(hex: string): (r: string)
    requires AllHex(hex)
    ensures |r| == 8 * ((|hex| + 1) / 2) && IsBitString(r)
  {
    Bytes(Pairs(hex))
  }

  /** `hexToBin(hex)`. An empty string makes `match` return null, so the
      call throws; a non-hexadecimal character is an error of this model. */
  function HexToBin(hex: string): (r: Result<string>)
    ensures r == Err(MatchIsNull) <==> hex == []
    ensures r == Err(NotHexDigit) <==> hex != [] && !AllHex(hex)
    ensures r.Ok? ==> IsBitString(r.value) && |r.value| == 8 * ((|hex| + 1) / 2)
  {
    match Match(hex)
    case None => Err(MatchIsNull)
    case Some(_) =>
      if !AllHex(hex) then Err(NotHexDigit) else Ok(HexBytes(hex))
  }

  /** The four binary digits of one hexadecimal digit, most significant
      first: the textbook expansion, independent of `toString(2)`. */
  function Nibble(c: char): (r: string)
    requires IsHexDigit(c)
  {
    var v := HexDigitValue(c);
    [if v / 8 == 1 then '1' else '0',
     if (v / 4) % 2 == 1 then '1' else '0',
     if (v / 2) % 2 == 1 then '1' else '0',
     if v % 2 == 1 then '1' else '0']
  }

  /** Each hexadecimal digit replaced by its four binary digits. */
  function Nibbles(hex: string): (r: string)
    requires AllHex(hex)
    ensures |r| == 4 * |hex|
  {
    if hex == [] then [] else Nibble(hex[0]) + Nibbles(hex[1..])
  }

  /** The value of four binary digits, weighted 8, 4, 2, 1. */
  lemma {:induction false} FourBitsValue(a: char, b: char, c: char, d: char)
    ensures BitsValue([a, b, c, d]) == 8 * Level(a) + 4 * Level(b) + 2 * Level(c) + Level(d)
  {
    assert [a, b, c, d][..3] == [a, b, c];
    assert [a, b, c][..2] == [a, b];
    assert [a, b][..1] == [a];
    assert [a][..0] == [];
    assert BitsValue([a]) == Level(a);
    assert BitsValue([a, b]) == 2 * Level(a) + Level(b);
    assert BitsValue([a, b, c]) == 4 * Level(a) + 2 * Level(b) + Level(c);
  }

  /** A number below 16 is the weighted sum of its four binary digits. */
  lemma NibbleArithmetic(v: nat)
    requires v < 16
    ensures v / 8 < 2
    ensures 8 * (v / 8) + 4 * ((v / 4) % 2) + 2 * ((v / 2) % 2) + v % 2 == v
  {
  }

  /** The four binary digits of a hexadecimal digit denote its value. */
  lemma {:induction false} NibbleValue(c: char)
    requires IsHexDigit(c)
    ensures |Nibble(c)| == 4 && IsBitString(Nibble(c))
    ensures BitsValue(Nibble(c)) == HexDigitValue(c)
  {
    var v := HexDigitValue(c);
    var n := Nibble(c);
    FourBitsValue(n[0], n[1], n[2], n[3]);
    assert n == [n[0], n[1], n[2], n[3]];
    NibbleArithmetic(v);
  }

  /** Two nibbles side by side denote 16 times the first digit plus the
      second. */
  lemma {:induction false} TwoNibblesValue(hi: char, lo: char)
    requires IsHexDigit(hi) && IsHexDigit(lo)
    ensures |Nibble(hi) + Nibble(lo)| == 8 && IsBitString(Nibble(hi) + Nibble(lo))
    ensures BitsValue(Nibble(hi) + Nibble(lo)) == 16 * HexDigitValue(hi) + HexDigitValue(lo)
  {
    NibbleValue(hi);
    NibbleValue(lo);
    assert Pow2(4) == 16;
    BitsValueAppend(Nibble(hi), Nibble(lo));
  }

  /** Two hexadecimal digits give the eight binary digits of their two
      nibbles side by side. */
  lemma {:induction false} PairIsTwoNibbles(hi: char, lo: char)
    requires IsHexDigit(hi) && IsHexDigit(lo)
    ensures Byte8(PieceValue([hi, lo])) == Nibble(hi) + Nibble(lo)
  {
    TwoNibblesValue(hi, lo);
    assert PieceValue([hi, lo]) == 16 * HexDigitValue(hi) + HexDigitValue(lo);
    BitsValueInjective(Byte8(PieceValue([hi, lo])), Nibble(hi) + Nibble(lo));
  }

  /** A lone trailing digit gives four zeros before its nibble. */
  lemma {:induction false} SingleIsZeroNibble(d: char)
    requires IsHexDigit(d)
    ensures Byte8(PieceValue([d])) == "0000" + Nibble(d)
  {
    var n, v := Nibble(d), PieceValue([d]);
    assert v == HexDigitValue(d);
    NibbleValue(d);
    var z := "0000";
    assert |z| == 4 && IsBitString(z) && forall i :: 0 <= i < |z| ==> z[i] == '0';
    BitsValueLeadingZeros(z, n);
    BitStringConcat(z, n);
    BitsValueInjective(Byte8(v), z + n);
  }

  /** The bits of a hexadecimal string of one or two digits. */
  lemma {:induction false} HexBytesShort(hex: string)
    requires AllHex(hex) && 1 <= |hex| <= 2
    ensures |hex| == 1 ==> HexBytes(hex) == "0000" + Nibble(hex[0])
    ensures |hex| == 2 ==> HexBytes(hex) == Nibble(hex[0]) + Nibble(hex[1])
  {
    var ps := Pairs(hex);
    assert ps == [hex];
    assert HexBytes(hex) == Byte8(PieceValue(hex)) + Bytes([]);
    if |hex| == 1 {
      assert hex == [hex[0]];
      SingleIsZeroNibble(hex[0]);
    } else {
      assert hex == [hex[0], hex[1]];
      PairIsTwoNibbles(hex[0], hex[1]);
    }
  }

  /** The first two digits of a longer hexadecimal string give their two
      nibbles ahead of the bits of the rest. */
  lemma {:induction false} HexBytesCons(hex: string)
    requires AllHex(hex) && |hex| > 2
    ensures HexBytes(hex) == Nibble(hex[0]) + Nibble(hex[1]) + HexBytes(hex[2..])
  {
    var ps := Pairs(hex);
    assert ps[0] == [hex[0], hex[1]];
    assert ps[1..] == Pairs(hex[2..]);
    assert HexBytes(hex) == Byte8(PieceValue(ps[0])) + Bytes(ps[1..]);
    PairIsTwoNibbles(hex[0], hex[1]);
  }

  /** Expanding a concatenation expands each part. */
  lemma {:induction false} NibblesAppend(a: string, b: string)
    requires AllHex(a) && AllHex(b)
    ensures Nibbles(a + b) == Nibbles(a) + Nibbles(b)
  {
    if a != [] {
      assert (a + b)[1..] == a[1..] + b;
      NibblesAppend(a[1..], b);
    } else {
      assert a + b == b;
    }
  }

  /** The two leading digits of a longer string, as nibbles. */
  lemma {:induction false} HexBytesHead(hex: string)
    requires AllHex(hex) && |hex| > 2
    ensures HexBytes(hex) == Nibbles(hex[..2]) + HexBytes(hex[2..])
  {
    HexBytesCons(hex);
    assert hex[..2] == [hex[0]] + [hex[1]];
    NibblesAppend([hex[0]], [hex[1]]);
  }

  /** Two digits: each becomes its own nibble. */
  lemma {:induction false} HexBytesPair(hex: string)
    requires AllHex(hex) && |hex| == 2
    ensures HexBytes(hex) == Nibbles(hex)
  {
    HexBytesShort(hex);
    NibblesOfTwo(hex);
  }

  /** One digit: four zeros, then its nibble. */
  lemma {:induction false} HexBytesSingle(hex: string)
    requires AllHex(hex) && |hex| == 1
    ensures HexBytes(hex) == Nibbles(hex[..0]) + "0000" + Nibble(hex[0])
  {
    HexBytesShort(hex);
    assert hex[..0] == [];
  }

  /** Concatenation regrouped. Kept as a lemma: stated inline in
      `OddHexBytes`, among the facts about `HexBytes` and `Nibbles`, the
      step runs out of solver resources. */
  lemma Regroup(a: string, b: string, c: string, d: string)
    ensures a + (b + c + d) == (a + b) + c + d
  {
  }

  /** Removing two keeps the parity. Kept as a lemma so that the modular
      arithmetic is proved apart from the sequence facts of its callers,
      where it runs out of solver resources. */
  lemma DropTwoParity(n: int)
    ensures (n - 2) % 2 == n % 2
  {
  }

  /** One less than an odd number is even. */
  lemma {:induction false} OddDropOne(n: int)
    requires n % 2 == 1
    ensures (n - 1) % 2 == 0
  {
    assert n - 1 == 2 * (n / 2);
  }

  /** An even number of digits: every digit becomes its own nibble. */
  lemma {:induction false} EvenHexBytes(hex: string)
    requires AllHex(hex) && |hex| % 2 == 0
    ensures HexBytes(hex) == Nibbles(hex)
    decreases |hex|
  {
    if |hex| == 2 {
      HexBytesPair(hex);
    } else if |hex| > 2 {
      HexBytesHead(hex);
      var rest := hex[2..];
      assert AllHex(rest);
      DropTwoParity(|hex|);
      EvenHexBytes(rest);
      assert hex == hex[..2] + hex[2..];
      NibblesAppend(hex[..2], hex[2..]);
    }
  }

  /** An odd number of digits: the lone last digit `d` becomes 0000 and then
      its nibble. */
  lemma {:induction false} OddHexBytes(hex: string, d: char)
    requires AllHex(hex) && |hex| % 2 == 0 && IsHexDigit(d)
    ensures AllHex(hex + [d])
    ensures HexBytes(hex + [d]) == Nibbles(hex) + "0000" + Nibble(d)
    decreases |hex|
  {
    var s := hex + [d];
    if hex == [] {
      assert s == [d];
      HexBytesSingle(s);
      assert s[..0] == [];
    } else {
      assert s[2..] == hex[2..] + [d];
      HexBytesHead(s);
      DropTwoParity(|hex|);
      OddHexBytes(hex[2..], d);
      assert s[..2] == hex[..2];
      assert hex == hex[..2] + hex[2..];
      NibblesAppend(hex[..2], hex[2..]);
      Regroup(Nibbles(hex[..2]), Nibbles(hex[2..]), "0000", Nibble(d));
    }
  }

  /** `hexToBin` writes each hexadecimal digit as four binary digits when the
      number of digits is even; when it is odd, the lone last digit `d` is
      written as 0000 followed by the four binary digits of `d`. */
  lemma {:induction false} HexToBinIsNibbleExpansion(hex: string)
    requires hex != [] && AllHex(hex)
    ensures |hex| % 2 == 0 ==> HexToBin(hex) == Ok(Nibbles(hex))
    ensures |hex| % 2 == 1 ==>
              HexToBin(hex) == Ok(Nibbles(hex[..|hex| - 1]) + "0000" + Nibble(hex[|hex| - 1]))
  {
    if |hex| % 2 == 0 {
      HexToBinEven(hex);
    } else {
      HexToBinOdd(hex);
    }
  }

  /** The even case of `HexToBinIsNibbleExpansion`. */
  lemma {:induction false} HexToBinEven(hex: string)
    requires hex != [] && AllHex(hex) && |hex| % 2 == 0
    ensures HexToBin(hex) == Ok(Nibbles(hex))
  {
    HexToBinOk(hex);
    EvenHexBytes(hex);
  }

  /** The odd case of `HexToBinIsNibbleExpansion`. */
  lemma {:induction false} HexToBinOdd(hex: string)
    requires hex != [] && AllHex(hex) && |hex| % 2 == 1
    ensures HexToBin(hex) == Ok(Nibbles(hex[..|hex| - 1]) + "0000" + Nibble(hex[|hex| - 1]))
  {
    var init, d := hex[..|hex| - 1], hex[|hex| - 1];
    assert hex == init + [d];
    OddDropOne(|hex|);
    OddHexBytes(init, d);
    HexToBinOk(hex);
  }

  /** Valid hexadecimal input converts to the bits of its pieces. */
  lemma HexToBinOk(hex: string)
    requires hex != [] && AllHex(hex)
    ensures HexToBin(hex) == Ok(HexBytes(hex))
  {
  }

  /** The binary-or-hex choice of the click handler on the trimmed field. */
  function Normalise(raw: string): (r: Result<string>)
    ensures r.Ok? ==> IsBinaryInput(r.value)
    ensures r == Err(MatchIsNull) <==> Trim(raw) == []
    ensures r == Err(NotHexDigit) <==> Trim(raw) != [] && !AllHex(Trim(raw))
    ensures IsBinaryInput(Trim(raw)) ==> r == Ok(Trim(raw))
  {
    var t := Trim(raw);
    if IsBinaryInput(t) then Ok(t) else HexToBin(t)
  }

  /** A non-empty bit string is its own normal form. */
  lemma {:induction false} NormaliseKeepsBits(b: string)
    requires IsBinaryInput(b)
    ensures Normalise(b) == Ok(b)
  {
    assert b[0] == '0' || b[0] == '1';
    assert b[|b| - 1] == '0' || b[|b| - 1] == '1';
    assert Trim(b) == b;
  }

  /** Normalising twice is normalising once. */
  lemma {:induction false} NormaliseIdempotent(raw: string)
    requires Normalise(raw).Ok?
    ensures Normalise(Normalise(raw).value) == Normalise(raw)
  {
    NormaliseKeepsBits(Normalise(raw).value);
  }

  /** A field whose trimmed text is not binary goes to `hexToBin` trimmed. */
  lemma NormaliseReadsHex(raw: string)
    requires !IsBinaryInput(Trim(raw))
    ensures Normalise(raw) == HexToBin(Trim(raw))
  {
  }

  /** A field whose trimmed text is hexadecimal but not binary becomes the
      nibbles of its digits, with 0000 before the last one when their
      number is odd, whatever whitespace surrounds it. */
  lemma {:induction false} NormaliseHexField(raw: string)
    requires Trim(raw) != [] && AllHex(Trim(raw)) && !IsBinaryInput(Trim(raw))
    ensures var t := Trim(raw);
            |t| % 2 == 0 ==> Normalise(raw) == Ok(Nibbles(t))
    ensures var t := Trim(raw);
            |t| % 2 == 1 ==> Normalise(raw) == Ok(Nibbles(t[..|t| - 1]) + "0000" + Nibble(t[|t| - 1]))
  {
    NormaliseTrimmedHex(raw, Trim(raw));
  }

  /** `NormaliseHexField` with the trimmed text `t` named. */
  lemma {:induction false} NormaliseTrimmedHex(raw: string, t: string)
    requires t == Trim(raw)
    requires t != [] && AllHex(t) && !IsBinaryInput(t)
    ensures |t| % 2 == 0 ==> Normalise(raw) == Ok(Nibbles(t))
    ensures |t| % 2 == 1 ==> Normalise(raw) == Ok(Nibbles(t[..|t| - 1]) + "0000" + Nibble(t[|t| - 1]))
  {
    NormaliseReadsHex(raw);
    if |t| % 2 == 0 {
      HexToBinEven(t);
    } else {
      HexToBinOdd(t);
    }
  }

  /** Two digits expand to two nibbles. */
  lemma {:induction false} NibblesOfTwo(s: string)
    requires |s| == 2 && AllHex(s)
    ensures Nibbles(s) == Nibble(s[0]) + Nibble(s[1])
  {
    assert Nibbles(s[1..]) == Nibble(s[1]) + Nibbles([]);
  }

  /** The nibbles of the digits used in the examples below. */
  lemma {:induction false} SomeNibbles()
    ensures Nibble('1') + Nibble('0') == "00010000"
    ensures Nibble('B') + Nibble('5') == "10110101"
  {
    assert Nibble('0') == "0000" && Nibble('1') == "0001";
    assert Nibble('5') == "0101" && Nibble('B') == "1011";
  }

  /** Input that is both binary and hexadecimal is taken as binary: "10"
      stays "10", whereas `hexToBin("10")` would be "00010000". */
  lemma {:induction false} BinaryReadingWins(raw: string)
    requires raw == "10"
    ensures Normalise(raw) == Ok(raw)
    ensures HexToBin(raw) == Ok("00010000")
  {
    NormaliseKeepsBits(raw);
    HexToBinIsNibbleExpansion(raw);
    NibblesOfTwo(raw);
    SomeNibbles();
    assert raw[0] == '1' && raw[1] == '0';
  }

  /** `hexToBin("B5")` is 10110101. */
  lemma {:induction false} HexToBinB5(raw: string)
    requires raw == "B5"
    ensures HexToBin(raw) == Ok("10110101")
  {
    HexToBinIsNibbleExpansion(raw);
    NibblesOfTwo(raw);
    SomeNibbles();
    assert raw[0] == 'B' && raw[1] == '5';
  }

  /** "B5" survives trimming and is not binary. */
  lemma {:induction false} B5IsTrimmedHex(raw: string)
    requires raw == "B5"
    ensures Trim(raw) == raw && !IsBinaryInput(raw)
  {
    var first, last := raw[0], raw[|raw| - 1];
    assert first == 'B' && last == '5';
    assert !IsJsWhitespace(first) && !IsJsWhitespace(last);
    assert !(first == '0' || first == '1');
  }

  /** The field " B5" followed by a tab trims to "B5". */
  lemma {:induction false} PaddedB5Trims(raw: string)
    requires raw == " B5\t"
    ensures Trim(raw) == "B5"
  {
    var r := "B5";
    assert raw[1..3] == r;
    assert IsJsWhitespace(raw[0]) && IsJsWhitespace(raw[3]);
    assert CutAt(raw, r, 1);
    assert !IsJsWhitespace(r[0]) && !IsJsWhitespace(r[1]);
    TrimIsUnique(raw, r, 1);
  }

  /** The whitespace around a hexadecimal field is dropped before
      conversion: " B5" followed by a tab becomes 10110101. */
  lemma {:induction false} HexExamplePaddedB5(raw: string)
    requires raw == " B5\t"
    ensures Normalise(raw) == Ok("10110101")
  {
    PaddedB5Trims(raw);
    B5IsTrimmedHex("B5");
    NormaliseReadsHex(raw);
    HexToBinB5("B5");
  }

  /** Hexadecimal input "B5" becomes 1011 followed by 0101. */
  lemma {:induction false} HexExampleB5(raw: string)
    requires raw == "B5"
    ensures Normalise(raw) == Ok("10110101")
  {
    B5IsTrimmedHex(raw);
    NormaliseReadsHex(raw);
    HexToBinB5(raw);
  }
}
