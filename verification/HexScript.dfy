/**
 The script tool's hexadecimal notation: printing bytes, and reading a line of a script.
 */
module HexScript {
  import opened Common

  const SPACE: Byte := 32
  const BUFFER := 2048

  /** Longest data the printer's static buffer holds. */
  const MAX_DUMP := 682

  function LowerDigit(n: int): Byte
    requires 0 <= n < 16
  {
    if n < 10 then 48 + n else 87 + n
  }

  /** Value of a hexadecimal digit of either case, -1 for any other character. */
  function Unhex(c: Byte): int {
    if 48 <= c < 58 then c - 48
    else if 97 <= c < 103 then 10 + c - 97
    else if 65 <= c < 71 then 10 + c - 65
    else -1
  }

  /** A character has the value of a digit exactly when it is that digit, in either case. */
  lemma UnhexIff(c: Byte, n: nat)
    requires n < 16
    ensures Unhex(c) == n <==> c == "0123456789abcdef"[n] as int || c == "0123456789ABCDEF"[n] as int
    ensures Unhex(c) < 16
  {
  }

  predicate IsHex(c: Byte) { Unhex(c) >= 0 }

  // ----- printing -----

  /** A blank and two digits per byte. */
  function Dump(data: Text): (t: Text)
    ensures |t| == 3 * |data|
  {
    if data == [] then []
    else Dump(data[..|data| - 1]) + [SPACE, LowerDigit(data[|data| - 1] / 16), LowerDigit(data[|data| - 1] % 16)]
  }

  /** Fills the buffer up to the point where another byte would not fit. */
  method HexDump(data: Text) returns (t: Text)
    ensures t == Dump(if |data| <= 682 then data else data[..682])
  {
    var buffer := new Byte[BUFFER](_ => 0);
    var i, n: nat := 0, 0;
    while n < |data|
      invariant n <= |data| && n <= MAX_DUMP && i == 3 * n
      invariant buffer[..i] == Dump(data[..n])
    {
      if i >= BUFFER - 4 {
        break;
      }
      assert data[..n + 1][..n] == data[..n];
      buffer[i], buffer[i + 1], buffer[i + 2] := SPACE, LowerDigit(data[n] / 16), LowerDigit(data[n] % 16);
      i, n := i + 3, n + 1;
    }
    assert data[..|data|] == data;
    t := buffer[..i];
  }

  // ----- reading -----

  /** One byte from two characters; a second character that is no digit counts as -1. */
  function Pair(hi: Byte, lo: Byte): Byte
    requires IsHex(hi)
  {
    (Unhex(hi) * 16 + Unhex(lo)) % 256
  }

  /** Reads a line from `pos` on: a digit takes the next character with it, anything else is skipped. */
  function Read(line: Text, pos: nat): Text
    decreases |line| - pos
  {
    if pos + 1 >= |line| then []
    else if IsHex(line[pos]) then [Pair(line[pos], line[pos + 1])] + Read(line, pos + 2)
    else Read(line, pos + 1)
  }

  /** Decodes a line; the result never needs more than half the line's length. */
  method MakeCommand(line: Text) returns (data: Text)
    ensures data == Read(line, 0) && 2 * |data| <= |line|
  {
    var buffer := new Byte[|line|](_ => 0);
    var pos, n: nat := 0, 0;
    while pos < |line|
      invariant 2 * n <= pos <= |line|
      invariant buffer[..n] + Read(line, pos) == Read(line, 0)
    {
      if IsHex(line[pos]) && pos + 1 < |line| {
        ghost var before := buffer[..n];
        buffer[n] := Pair(line[pos], line[pos + 1]);
        assert buffer[..n + 1] == before + [buffer[n]];
        assert before + ([buffer[n]] + Read(line, pos + 2)) == (before + [buffer[n]]) + Read(line, pos + 2);
        pos, n := pos + 1, n + 1;
      }
      pos := pos + 1;
    }
    data := buffer[..n];
  }

  // ----- round trip -----

  lemma DigitsRoundTrip(b: Byte)
    ensures IsHex(LowerDigit(b / 16)) && Pair(LowerDigit(b / 16), LowerDigit(b % 16)) == b
  {
  }

  lemma {:induction false} DumpAt(data: Text, k: nat)
    requires k < |data|
    ensures var t := Dump(data);
            t[3 * k] == 32 && t[3 * k + 1] == LowerDigit(data[k] / 16) && t[3 * k + 2] == LowerDigit(data[k] % 16)
    decreases |data|
  {
    hide LowerDigit;
    if k < |data| - 1 {
      DumpAt(data[..|data| - 1], k);
    }
  }

  lemma DigitIsLower(n: nat)
    requires n < 16
    ensures LowerDigit(n) == "0123456789abcdef"[n] as int
  {
  }

  /** What is printed for each byte: a blank and its two digits in lower case. */
  lemma DumpShows(data: Text, k: nat)
    requires k < |data|
    ensures var t, digits := Dump(data), "0123456789abcdef";
            t[3 * k] == 32 && t[3 * k + 1] == digits[data[k] / 16] as int && t[3 * k + 2] == digits[data[k] % 16] as int
  {
    DumpAt(data, k);
    DigitIsLower(data[k] / 16);
    DigitIsLower(data[k] % 16);
  }

  lemma {:induction false} ReadDump(data: Text, k: nat)
    requires k <= |data|
    ensures Read(Dump(data), 3 * k) == data[k..]
    decreases |data| - k
  {
    if k < |data| {
      var t := Dump(data);
      DumpAt(data, k);
      DigitsRoundTrip(data[k]);
      ReadDump(data, k + 1);
      assert Read(t, 3 * k) == Read(t, 3 * k + 1);
    }
  }

  /** The same line with its letters in upper case. */
  function Upper(line: Text): Text {
    seq(|line|, i requires 0 <= i < |line| => if 97 <= line[i] <= 122 then line[i] - 32 else line[i])
  }

  /** Scripts may be written in either case. */
  lemma {:induction false} ReadUpper(line: Text, pos: nat)
    ensures Read(Upper(line), pos) == Read(line, pos)
    decreases |line| - pos
  {
    var up := Upper(line);
    if pos + 1 < |line| {
      UnhexUpper(line[pos]);
      UnhexUpper(line[pos + 1]);
      assert Unhex(up[pos]) == Unhex(line[pos]) && Unhex(up[pos + 1]) == Unhex(line[pos + 1]);
      hide Upper;
      hide Unhex;
      ReadUpper(line, pos + (if IsHex(line[pos]) then 2 else 1));
    }
  }

  lemma UnhexUpper(c: Byte)
    ensures 97 <= c <= 122 ==> Unhex(c) == Unhex(c - 32)
  {
  }

  /** A digit followed by a character that is none still takes it along, and counts it as -1. */
  lemma LoneDigit(hi: Byte, lo: Byte)
    requires IsHex(hi) && !IsHex(lo)
    ensures Read([hi, lo], 0) == [(16 * Unhex(hi) + 255) % 256]
  {
    assert Read([hi, lo], 2) == [];
  }

  /** Printing and reading back gives the data, cut off after the bytes the printer's buffer holds. */
  method RoundTrip(data: Text) returns (back: Text)
    ensures back == if |data| <= 682 then data else data[..682]
  {
    var line := HexDump(data);
    back := MakeCommand(line);
    var kept := if |data| <= MAX_DUMP then data else data[..MAX_DUMP];
    ReadDump(kept, 0);
    assert kept[0..] == kept;
  }
}
