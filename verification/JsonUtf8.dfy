// \uXXXX escapes: four hex digits to a code, one or two codes to UTF-8.
//
// Bytes and codes are numbers; the shifts and masks of the program are written
// as quotients and remainders, which BitsAreArithmetic justifies for words.
module JsonUtf8 {
  import opened Lists
  import opened Options

  const QUOTE: byte := 0x22
  const BACKSLASH: byte := 0x5C

  lemma BitsAreArithmetic(cp: bv32, high: bv32, low: bv32)
    ensures cp & 0x3F == cp % 64 && cp >> 6 == cp / 64
    ensures ((cp | 0x80) & 0xBF) & 0xFF == 0x80 + cp % 64
    ensures cp < 0x20 ==> (cp | 0xC0) & 0xFF == 0xC0 + cp
    ensures cp < 0x10 ==> (cp | 0xE0) & 0xFF == 0xE0 + cp
    ensures cp < 0x08 ==> (cp | 0xF0) & 0xFF == 0xF0 + cp
    ensures cp < 0x80 ==> cp & 0x7F == cp
    ensures ((high & 0x3FF) << 10) | (low & 0x3FF) == (high % 1024) * 1024 + low % 1024
    ensures cp < 0x1000 ==> cp << 4 == cp * 16
  {
  }

  function HexDigit(c: byte): Option<nat>
  {
    if 0x30 <= c <= 0x39 then Some(c - 0x30)
    else if 0x41 <= c <= 0x46 then Some(10 + c - 0x41)
    else if 0x61 <= c <= 0x66 then Some(10 + c - 0x61)
    else None
  }

  // The number written by hex digits.
  function HexValue(h: seq<byte>): (v: Option<nat>)
    ensures v.Some? ==> forall k :: 0 <= k < |h| ==> HexDigit(h[k]).Some?
  {
    if h == [] then Some(0)
    else
      var v, d := HexValue(h[..|h| - 1]), HexDigit(h[|h| - 1]);
      if v.None? || d.None? then None else Some(16 * v.value + d.value)
  }

  lemma {:induction false} HexRange(h: seq<byte>)
    requires HexValue(h).Some? && |h| <= 4
    ensures HexValue(h).value < 0x10000
    ensures |h| <= 3 ==> HexValue(h).value < 0x1000
    ensures |h| <= 2 ==> HexValue(h).value < 0x100
    ensures |h| <= 1 ==> HexValue(h).value < 0x10
  {
    if h != [] {
      HexRange(h[..|h| - 1]);
    }
  }

  // The code of four hex digits; 0 when one of them is none.
  function Hex4(h: seq<byte>): (code: nat)
    requires |h| == 4
    ensures code < 0x10000
  {
    if HexValue(h).Some? then HexRange(h); HexValue(h).value else 0
  }

  // c is the hex digit for d, in either case.
  predicate IsHex(c: byte, d: nat)
    requires d < 16
  {
    c == "0123456789abcdef"[d] as int || c == "0123456789ABCDEF"[d] as int
  }

  // The four digits h write v.
  predicate Writes(h: seq<byte>, v: nat)
  {
    && |h| == 4 && v < 0x10000
    && IsHex(h[0], v / 0x1000) && IsHex(h[1], v / 0x100 % 16) && IsHex(h[2], v / 0x10 % 16) && IsHex(h[3], v % 16)
  }

  lemma DigitReads(c: byte, d: nat)
    requires d < 16 && IsHex(c, d)
    ensures HexDigit(c) == Some(d)
  {
  }

  lemma HexValueStep(h: seq<byte>, c: byte)
    ensures HexValue(h + [c]) ==
      if HexValue(h).None? || HexDigit(c).None? then None else Some(16 * HexValue(h).value + HexDigit(c).value)
  {
    assert (h + [c])[..|h|] == h;
  }

  lemma HexNone()
    ensures HexValue([]) == Some(0)
  {
  }

  lemma HexFour(a: byte, b: byte, c: byte, d: byte)
    requires HexDigit(a).Some? && HexDigit(b).Some? && HexDigit(c).Some? && HexDigit(d).Some?
    ensures HexValue([a, b, c, d])
      == Some(((HexDigit(a).value * 16 + HexDigit(b).value) * 16 + HexDigit(c).value) * 16 + HexDigit(d).value)
  {
    hide HexDigit, HexValue;
    HexNone();
    HexValueStep([], a);
    HexValueStep([] + [a], b);
    HexValueStep([] + [a] + [b], c);
    HexValueStep([] + [a] + [b] + [c], d);
    assert [a, b, c, d] == [] + [a] + [b] + [c] + [d];
  }

  lemma FourDigits(v: nat)
    requires v < 0x10000
    ensures ((v / 0x1000 * 16 + v / 0x100 % 16) * 16 + v / 0x10 % 16) * 16 + v % 16 == v && v / 0x1000 < 16
  {
    assert v == v / 16 * 16 + v % 16;
    assert v / 16 == v / 0x100 * 16 + v / 16 % 16;
    assert v / 0x100 == v / 0x1000 * 16 + v / 0x100 % 16;
  }

  lemma WritesBelow(h: seq<byte>, v: nat)
    requires Writes(h, v)
    ensures v < 0x10000
  {
  }

  lemma Digits(h: seq<byte>, v: nat)
    requires Writes(h, v)
    ensures |h| == 4 && HexDigit(h[0]) == Some(v / 0x1000) && HexDigit(h[1]) == Some(v / 0x100 % 16)
    ensures HexDigit(h[2]) == Some(v / 0x10 % 16) && HexDigit(h[3]) == Some(v % 16)
  {
    hide IsHex, HexDigit;
    DigitReads(h[0], v / 0x1000);
    DigitReads(h[1], v / 0x100 % 16);
    DigitReads(h[2], v / 0x10 % 16);
    DigitReads(h[3], v % 16);
  }

  // Four digits are read as the number they write, whatever the case of each.
  lemma HexReads(h: seq<byte>, v: nat)
    requires Writes(h, v)
    ensures Hex4(h) == v
  {
    hide Writes, HexDigit, HexValue;
    Digits(h, v);
    WritesBelow(h, v);
    FourDigits(v);
    HexFour(h[0], h[1], h[2], h[3]);
    assert h == [h[0], h[1], h[2], h[3]];
  }

  lemma HexNeedsAll(h: seq<byte>)
    ensures HexValue(h).Some? ==> forall k :: 0 <= k < |h| ==> HexDigit(h[k]).Some?
  {
  }

  // parse_hex4 as the program runs it, digit by digit.
  method ParseHex4(h: seq<byte>) returns (code: nat)
    requires |h| == 4
    ensures code == Hex4(h)
  {
    code := 0;
    var i := 0;
    assert h[..4] == h;
    while i < 4
      invariant 0 <= i <= 4 && HexValue(h[..i]).Some?
      invariant code == if i < 4 then 16 * HexValue(h[..i]).value else HexValue(h).value
    {
      var d := HexDigit(h[i]);
      assert h[..i + 1][..i] == h[..i];
      if d.None? {
        HexNeedsAll(h);
        return 0;
      }
      code := code + d.value;
      if i < 3 {
        code := code * 16;
      }
      i := i + 1;
    }
  }

  predicate HighSurrogate(c: nat) { 0xD800 <= c <= 0xDBFF }

  predicate LowSurrogate(c: nat) { 0xDC00 <= c <= 0xDFFF }

  function Join(high: nat, low: nat): nat
  {
    0x10000 + (high % 1024) * 1024 + low % 1024
  }

  // The UTF-8 of a code point.
  function Encode(cp: nat): (u: seq<byte>)
    requires cp <= 0x10FFFF
    ensures 1 <= |u| <= 4
  {
    if cp < 0x80 then [cp]
    else if cp < 0x800 then [0xC0 + cp / 64, 0x80 + cp % 64]
    else if cp < 0x10000 then [0xE0 + cp / 64 / 64, 0x80 + cp / 64 % 64, 0x80 + cp % 64]
    else [0xF0 + cp / 64 / 64 / 64, 0x80 + cp / 64 / 64 % 64, 0x80 + cp / 64 % 64, 0x80 + cp % 64]
  }

  // The last bytes are written first, each with the low six bits of what is left.
  method EncodeInto(cp: nat, out: array<byte>, at: nat) returns (n: nat)
    requires cp <= 0x10FFFF && at + |Encode(cp)| <= out.Length
    modifies out
    ensures n == |Encode(cp)|
    ensures out[..] == old(out[..at]) + Encode(cp) + old(out[at + n..])
  {
    var mark;
    if cp < 0x80 {
      n, mark := 1, 0;
    } else if cp < 0x800 {
      n, mark := 2, 0xC0;
    } else if cp < 0x10000 {
      n, mark := 3, 0xE0;
    } else {
      n, mark := 4, 0xF0;
    }
    var left, pos := cp, n - 1;
    while pos > 0
      invariant 0 <= pos < n
      invariant left ==
        if pos == n - 1 then cp
        else if pos == n - 2 then cp / 64
        else if pos == n - 3 then cp / 64 / 64
        else cp / 64 / 64 / 64
      invariant forall k :: pos < k < n ==> out[at + k] == Encode(cp)[k]
      invariant forall k :: 0 <= k < out.Length && !(at < k < at + n) ==> out[k] == old(out[k])
    {
      out[at + pos] := 0x80 + left % 64;
      left := left / 64;
      pos := pos - 1;
    }
    out[at] := if n > 1 then mark + left else left;
    assert forall k :: 0 <= k < n ==> out[at + k] == Encode(cp)[k];
  }

  // Section 3 of RFC 3629, read as a decoder: the scalar value that a sequence
  // of octets stands for, if it is the one well-formed sequence for it.
  predicate Tail(b: byte) { 0x80 <= b < 0xC0 }

  predicate Scalar(cp: nat)
  {
    cp <= 0x10FFFF && !(0xD800 <= cp <= 0xDFFF)
  }

  function Low(b: byte, mark: int): int { b - mark }

  function Checked(least: nat, cp: int): Option<nat>
  {
    if cp >= least && Scalar(cp) then Some(cp) else None
  }

  function Decode(b: seq<byte>): Option<nat>
  {
    if |b| == 1 && b[0] < 0x80 then Some(b[0])
    else if |b| == 2 && 0xC0 <= b[0] < 0xE0 && Tail(b[1]) then
      Checked(0x80, Low(b[0], 0xC0) * 64 + Low(b[1], 0x80))
    else if |b| == 3 && 0xE0 <= b[0] < 0xF0 && Tail(b[1]) && Tail(b[2]) then
      Checked(0x800, (Low(b[0], 0xE0) * 64 + Low(b[1], 0x80)) * 64 + Low(b[2], 0x80))
    else if |b| == 4 && 0xF0 <= b[0] < 0xF8 && Tail(b[1]) && Tail(b[2]) && Tail(b[3]) then
      Checked(0x10000, ((Low(b[0], 0xF0) * 64 + Low(b[1], 0x80)) * 64 + Low(b[2], 0x80)) * 64 + Low(b[3], 0x80))
    else None
  }

  // What the program writes for a scalar value is its UTF-8.
  lemma EncodeIsUtf8(cp: nat)
    requires Scalar(cp)
    ensures Decode(Encode(cp)) == Some(cp)
  {
    assert cp == cp / 64 * 64 + cp % 64;
    assert cp / 64 == cp / 64 / 64 * 64 + cp / 64 % 64;
    assert cp / 64 / 64 == cp / 64 / 64 / 64 * 64 + cp / 64 / 64 % 64;
  }

  // A pair of surrogates joins to a scalar value above the first plane, and
  // every such value is the join of exactly one pair.
  lemma JoinIsScalar(high: nat, low: nat)
    requires HighSurrogate(high) && LowSurrogate(low)
    ensures Scalar(Join(high, low)) && Join(high, low) >= 0x10000
    ensures high == 0xD800 + (Join(high, low) - 0x10000) / 1024
    ensures low == 0xDC00 + (Join(high, low) - 0x10000) % 1024
  {
    assert high % 1024 == high - 0xD800 && low % 1024 == low - 0xDC00;
  }
}
