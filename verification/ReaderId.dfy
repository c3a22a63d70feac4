/**
 Reader IDs of the CCID driver: the device's serial number, percent-escaped, between the vendor
 and product numbers and a fixed suffix. Text is a sequence of byte values.
 */
module ReaderId {
  import opened Common

  type Word = x: int | 0 <= x < 0x1_0000

  const NEWLINE: Byte := 10
  const PERCENT: Byte := 37
  const COLON: Byte := 58
  const USB_DT_STRING: Byte := 3

  function HexDigit(n: int): (c: Byte)
    requires 0 <= n < 16
    ensures 48 <= c <= 70 && c != COLON
  {
    if n < 10 then 48 + n else 55 + n
  }

  lemma HexDigitIs(n: nat)
    requires n < 16
    ensures HexDigit(n) == "0123456789ABCDEF"[n] as int && HexValue(HexDigit(n)) == n
  {
  }

  function HexValue(c: Byte): int { if c < 58 then c - 48 else c - 55 }

  predicate NeedsEscape(lo: Byte) { lo <= 0x20 || lo >= 0x7f || lo == PERCENT || lo == COLON }

  /** One UTF-16LE code unit of the serial number string. */
  function EscapeUnit(lo: Byte, hi: Byte): Text {
    if hi != 0 then [0xff]
    else if NeedsEscape(lo) then [PERCENT, HexDigit(lo / 16), HexDigit(lo % 16)]
    else [lo]
  }

  /** Escaped form of the code units of a string descriptor, from offset `i` to `len`. */
  function Escaped(d: Text, i: nat, len: nat): Text
    requires len <= |d|
    decreases len - i
  {
    if i + 1 >= len then [] else EscapeUnit(d[i], d[i + 1]) + Escaped(d, i + 2, len)
  }

  /** A received string descriptor is usable when it is one and is not longer than what arrived. */
  predicate Usable(d: Text) { |d| >= 2 && d[1] == USB_DT_STRING && d[0] <= |d| }

  /** The counting pass. */
  method CountEscaped(d: Text, len: nat) returns (n: nat)
    requires len <= |d|
    ensures n == |Escaped(d, 2, len)|
  {
    var i: nat := 2;
    n := 0;
    while i + 1 < len
      invariant n + |Escaped(d, i, len)| == |Escaped(d, 2, len)|
      decreases len - i
    {
      if d[i + 1] != 0 {
        n := n + 1;
      } else if NeedsEscape(d[i]) {
        n := n + 3;
      } else {
        n := n + 1;
      }
      i := i + 2;
    }
  }

  method PutUnit(lo: Byte, hi: Byte, result: array<Byte>, at: nat) returns (next: nat)
    requires at + |EscapeUnit(lo, hi)| <= result.Length
    modifies result
    ensures next == at + |EscapeUnit(lo, hi)|
    ensures result[..next] == old(result[..at]) + EscapeUnit(lo, hi)
  {
    if hi != 0 {
      result[at] := 0xff;
      next := at + 1;
    } else if NeedsEscape(lo) {
      result[at], result[at + 1], result[at + 2] := PERCENT, HexDigit(lo / 16), HexDigit(lo % 16);
      next := at + 3;
    } else {
      result[at] := lo;
      next := at + 1;
    }
  }

  /** The writing pass: it needs exactly the room the counting pass found. */
  method WriteEscaped(d: Text, len: nat, result: array<Byte>, start: nat) returns (at: nat)
    requires len <= |d| && start + |Escaped(d, 2, len)| <= result.Length
    modifies result
    ensures at == start + |Escaped(d, 2, len)|
    ensures result[..at] == old(result[..start]) + Escaped(d, 2, len)
  {
    hide EscapeUnit;
    ghost var front, done: Text := result[..start], [];
    var i: nat := 2;
    at := start;
    while i + 1 < len
      invariant done + Escaped(d, i, len) == Escaped(d, 2, len)
      invariant at == start + |done| && result[..at] == front + done
      decreases len - i
    {
      EscapedSplit(done, d, i, len);
      at := PutUnit(d[i], d[i + 1], result, at);
      AppendAssoc(front, done, EscapeUnit(d[i], d[i + 1]));
      done := done + EscapeUnit(d[i], d[i + 1]);
      i := i + 2;
    }
  }

  lemma AppendAssoc(a: Text, b: Text, c: Text)
    ensures (a + b) + c == a + (b + c)
  {
  }

  lemma EscapedSplit(done: Text, d: Text, i: nat, len: nat)
    requires i + 1 < len <= |d|
    ensures done + Escaped(d, i, len) == (done + EscapeUnit(d[i], d[i + 1])) + Escaped(d, i + 2, len)
  {
    AppendAssoc(done, EscapeUnit(d[i], d[i + 1]), Escaped(d, i + 2, len));
  }

  /** The escaped string between `prefix` and `suffix`, in a buffer it fills exactly. */
  method GetEscaped(d: Text, prefix: Text, suffix: Text) returns (r: Option<Text>)
    ensures r.Some? <==> |d| >= 2 && d[1] == 3 && d[0] <= |d|
    ensures r.Some? ==> r.value == prefix + Escaped(d, 2, d[0]) + suffix
  {
    if |d| < 2 || d[1] != USB_DT_STRING || d[0] > |d| {
      return None;
    }
    var n := CountEscaped(d, d[0]);
    var result := new Byte[|prefix| + n + |suffix|](_ => 0);
    forall k | 0 <= k < |prefix| {
      result[k] := prefix[k];
    }
    assert result[..|prefix|] == prefix;
    var at := WriteEscaped(d, d[0], result, |prefix|);
    ghost var front := result[..at];
    forall k | 0 <= k < |suffix| {
      result[at + k] := suffix[k];
    }
    assert result[..at] == front && result[at..] == suffix;
    assert result[..] == result[..at] + result[at..];
    r := Some(result[..]);
  }

  // ----- the escaping can be undone and keeps separators out -----

  predicate Plain(b: Byte) { b > 0x20 && b != 58 }

  lemma {:induction false} EscapedIsPlain(d: Text, i: nat, len: nat)
    requires len <= |d|
    ensures forall b <- Escaped(d, i, len) :: Plain(b)
    decreases len - i
  {
    if i + 1 < len {
      EscapedIsPlain(d, i + 2, len);
    }
  }

  function Unescape(t: Text): Text {
    if t == [] then []
    else if t[0] == 37 && |t| >= 3 then
      var v := 16 * HexValue(t[1]) + HexValue(t[2]);
      [if 0 <= v < 256 then v else 0] + Unescape(t[3..])
    else [t[0]] + Unescape(t[1..])
  }

  /** The code units from offset `i` to `len` as bytes: 0xff stands for one that does not fit. */
  function Folded(d: Text, i: nat, len: nat): Text
    requires len <= |d|
    decreases len - i
  {
    if i + 1 >= len then [] else [if d[i + 1] == 0 then d[i] else 0xff] + Folded(d, i + 2, len)
  }

  /** Number of code units that are a byte other than a printable character, or a percent sign or a
      colon. */
  function Awkward(d: Text, i: nat, len: nat): nat
    requires len <= |d|
    decreases len - i
  {
    if i + 1 >= len then 0
    else
      (if d[i + 1] == 0 && !(0x21 <= d[i] <= 0x7e && d[i] != 37 && d[i] != 58) then 1 else 0) + Awkward(d, i + 2, len)
  }

  lemma UnitLength(lo: Byte, hi: Byte)
    ensures var unit := EscapeUnit(lo, hi);
            if hi == 0 && !(0x21 <= lo <= 0x7e && lo != 37 && lo != 58) then |unit| == 3
            else unit == [if hi == 0 then lo else 0xff]
  {
  }

  /** Every awkward code unit takes two bytes more than a byte, and no other one does. */
  lemma {:induction false} EscapedLength(d: Text, i: nat, len: nat)
    requires len <= |d|
    ensures |Escaped(d, i, len)| == |Folded(d, i, len)| + 2 * Awkward(d, i, len)
    decreases len - i
  {
    if i + 1 < len {
      UnitLength(d[i], d[i + 1]);
      hide EscapeUnit;
      EscapedLength(d, i + 2, len);
    }
  }

  /** A serial number without awkward code units is left as it is. */
  lemma {:induction false} EscapedKeeps(d: Text, i: nat, len: nat)
    requires len <= |d| && Awkward(d, i, len) == 0
    ensures Escaped(d, i, len) == Folded(d, i, len)
    decreases len - i
  {
    if i + 1 < len {
      UnitLength(d[i], d[i + 1]);
      hide EscapeUnit;
      EscapedKeeps(d, i + 2, len);
    }
  }

  lemma UnescapeUnit(lo: Byte, hi: Byte, rest: Text)
    ensures Unescape(EscapeUnit(lo, hi) + rest) == [if hi == 0 then lo else 0xff] + Unescape(rest)
  {
    var unit := EscapeUnit(lo, hi);
    if hi == 0 && NeedsEscape(lo) {
      assert (unit + rest)[3..] == rest;
    } else {
      assert (unit + rest)[1..] == rest;
    }
  }

  /** Unescaping recovers every code unit that fits a byte, and 0xff for every other one. */
  lemma {:induction false} EscapeRoundTrip(d: Text, i: nat, len: nat)
    requires len <= |d|
    ensures Unescape(Escaped(d, i, len)) == Folded(d, i, len)
    decreases len - i
  {
    if i + 1 < len {
      EscapeRoundTrip(d, i + 2, len);
      UnescapeUnit(d[i], d[i + 1], Escaped(d, i + 2, len));
    }
  }

  /** Two serial numbers escape to the same text only if they have the same code units, up to those that
      do not fit a byte. */
  lemma EscapeInjective(d: Text, e: Text)
    requires Usable(d) && Usable(e)
    ensures Escaped(d, 2, d[0]) == Escaped(e, 2, e[0]) ==> Folded(d, 2, d[0]) == Folded(e, 2, e[0])
  {
    EscapeRoundTrip(d, 2, d[0]);
    EscapeRoundTrip(e, 2, e[0]);
  }

  // ----- reader IDs -----

  function Hex4(n: Word): (t: Text)
    ensures |t| == 4
  {
    [HexDigit(n / 4096), HexDigit(n / 256 % 16), HexDigit(n / 16 % 16), HexDigit(n % 16)]
  }

  function Prefix(vendor: Word, product: Word): (t: Text)
    ensures |t| == 10
  {
    Hex4(vendor % 0x1000) + [COLON] + Hex4(product) + [COLON]
  }

  const SUFFIX: Text := [COLON, 48]

  /** The serial part of an ID; a missing or unusable descriptor gives the letter X. */
  function SerialText(serial: Option<Text>): Text {
    if serial.Some? && Usable(serial.value) then Escaped(serial.value, 2, serial.value[0]) else [88]
  }

  function IdText(vendor: Word, product: Word, serial: Option<Text>): Text
  {
    Prefix(vendor, product) + SerialText(serial) + SUFFIX
  }

  method MakeReaderId(vendor: Word, product: Word, serial: Option<Text>) returns (rid: Text)
    ensures rid == IdText(vendor, product, serial)
  {
    var prefix := Prefix(vendor, product);
    var r := None;
    if serial.Some? {
      r := GetEscaped(serial.value, prefix, SUFFIX);
    }
    rid := if r.Some? then r.value else prefix + [88] + SUFFIX;
  }

  /** The number a text of hexadecimal digits stands for. */
  function HexNumber(t: Text): int {
    if t == [] then 0 else 16 * HexNumber(t[..|t| - 1]) + HexValue(t[|t| - 1])
  }

  lemma {:induction false} HexNumberSnoc(t: Text, c: Byte)
    ensures HexNumber(t + [c]) == 16 * HexNumber(t) + HexValue(c)
  {
    assert (t + [c])[..|t|] == t;
  }

  lemma Hex4Reads(n: Word)
    ensures HexNumber(Hex4(n)) == n
  {
    var a, b, c, d := HexDigit(n / 4096), HexDigit(n / 256 % 16), HexDigit(n / 16 % 16), HexDigit(n % 16);
    assert HexValue(a) == n / 4096 && HexValue(b) == n / 256 % 16 && HexValue(c) == n / 16 % 16 && HexValue(d) == n % 16;
    HexNumberSnoc([], a);
    HexNumberSnoc([a], b);
    HexNumberSnoc([a, b], c);
    HexNumberSnoc([a, b, c], d);
    assert [] + [a] == [a] && [a] + [b] == [a, b] && [a, b] + [c] == [a, b, c] && [a, b, c] + [d] == Hex4(n);
    FourDigits(n);
    hide HexNumber;
    hide HexDigit;
    hide HexValue;
  }

  /** How an ID reads: the low twelve bits of the vendor and the product in hexadecimal, the serial text
      or the letter X, and interface 0, with colons between them. */
  lemma IdReads(vendor: Word, product: Word, serial: Option<Text>)
    ensures var id := IdText(vendor, product, serial);
            && |id| >= 12 && HexNumber(id[..4]) == vendor % 4096 && HexNumber(id[5..9]) == product
            && id[4] == id[9] == 58 && id[|id| - 2..] == [58, 48]
            && id[10..|id| - 2] == SerialText(serial)
            && (serial.None? ==> id[10..|id| - 2] == [88])
  {
    var id := IdText(vendor, product, serial);
    Hex4Reads(vendor % 4096);
    Hex4Reads(product);
    hide HexNumber;
    hide Hex4;
    assert id[..4] == Hex4(vendor % 4096) && id[5..9] == Hex4(product) && id[10..|id| - 2] == SerialText(serial);
  }

  lemma HexDigitInjective(a: int, b: int)
    requires 0 <= a < 16 && 0 <= b < 16 && HexDigit(a) == HexDigit(b)
    ensures a == b
  {
  }

  lemma FourDigits(n: Word)
    ensures n == 4096 * (n / 4096) + 256 * (n / 256 % 16) + 16 * (n / 16 % 16) + n % 16
  {
    assert n / 256 == n / 16 / 16 && n / 4096 == n / 256 / 16;
  }

  lemma Hex4Injective(a: Word, b: Word)
    requires Hex4(a) == Hex4(b)
    ensures a == b
  {
    FourDigits(a);
    FourDigits(b);
    hide HexDigit;
    assert Hex4(a)[0] == Hex4(b)[0] && Hex4(a)[1] == Hex4(b)[1] && Hex4(a)[2] == Hex4(b)[2] && Hex4(a)[3] == Hex4(b)[3];
    HexDigitInjective(a / 4096, b / 4096);
    HexDigitInjective(a / 256 % 16, b / 256 % 16);
    HexDigitInjective(a / 16 % 16, b / 16 % 16);
    HexDigitInjective(a % 16, b % 16);
  }

  /** Two IDs are equal exactly when product, serial text and the low twelve bits of the vendor
      agree: the top four vendor bits are masked away before printing. */
  lemma SameIdIff(v1: Word, p1: Word, s1: Option<Text>, v2: Word, p2: Word, s2: Option<Text>)
    ensures IdText(v1, p1, s1) == IdText(v2, p2, s2)
            <==> v1 % 0x1000 == v2 % 0x1000 && p1 == p2 && SerialText(s1) == SerialText(s2)
  {
    var a, b := IdText(v1, p1, s1), IdText(v2, p2, s2);
    if a == b {
      hide SerialText;
      hide HexDigit;
      assert a[..4] == Hex4(v1 % 0x1000) && b[..4] == Hex4(v2 % 0x1000);
      assert a[5..9] == Hex4(p1) && b[5..9] == Hex4(p2);
      assert a[10..|a| - 2] == SerialText(s1) && b[10..|b| - 2] == SerialText(s2);
      Hex4Injective(v1 % 0x1000, v2 % 0x1000);
      Hex4Injective(p1, p2);
    }
  }

  /** Two vendors that share an ID: 0x04e6 (SCM) and 0x14e6. */
  lemma VendorsCollide(product: Word, serial: Option<Text>)
    ensures IdText(0x04e6, product, serial) == IdText(0x14e6, product, serial)
  {
    hide IdText;
    SameIdIff(0x04e6, product, serial, 0x14e6, product, serial);
  }

  lemma IdHasNoNewline(vendor: Word, product: Word, serial: Option<Text>)
    ensures NEWLINE !in IdText(vendor, product, serial)
  {
    if serial.Some? && Usable(serial.value) {
      EscapedIsPlain(serial.value, 2, serial.value[0]);
    }
    assert NEWLINE !in SerialText(serial);
  }

  // ----- newline-terminated lists -----

  function Lines(ids: seq<Text>): Text {
    if ids == [] then [] else Lines(ids[..|ids| - 1]) + ids[|ids| - 1] + [NEWLINE]
  }

  /** Complete lines of a text, without their newlines. */
  function SplitLines(t: Text, line: Text): seq<Text> {
    if t == [] then []
    else if t[0] == 10 then [line] + SplitLines(t[1..], [])
    else SplitLines(t[1..], line + [t[0]])
  }

  lemma {:induction false} SplitLine(head: Text, id: Text, rest: Text)
    requires NEWLINE !in id
    ensures SplitLines(id + [NEWLINE] + rest, head) == [head + id] + SplitLines(rest, [])
    decreases |id|
  {
    var t := id + [NEWLINE] + rest;
    if id == [] {
      assert t[1..] == rest && head + id == head;
    } else {
      assert t[1..] == id[1..] + [NEWLINE] + rest;
      SplitLine(head + [id[0]], id[1..], rest);
      assert head + [id[0]] + id[1..] == head + id;
    }
  }

  lemma {:induction false} SplitLinesAll(ids: seq<Text>, rest: Text)
    requires forall id <- ids :: NEWLINE !in id
    ensures SplitLines(Lines(ids) + rest, []) == ids + SplitLines(rest, [])
    decreases |ids|
  {
    if ids == [] {
      assert Lines(ids) + rest == rest;
    } else {
      var front, last := ids[..|ids| - 1], ids[|ids| - 1];
      SplitLinesAll(front, last + [NEWLINE] + rest);
      SplitLine([], last, rest);
      assert Lines(ids) + rest == Lines(front) + (last + [NEWLINE] + rest);
      assert [] + last == last;
    }
  }
}
