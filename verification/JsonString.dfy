// String literals: the two passes of the parser over one, and the printer's
// escapes.
module JsonString {
  import opened Lists
  import opened Options
  import opened JsonUtf8

  // ---- first pass: where the literal ends ----

  // The first quote at or after i that no backslash escapes.
  function StringEnd(s: seq<byte>, i: nat): (r: Option<nat>)
    requires i <= |s|
    ensures r.Some? ==> i <= r.value < |s| && s[r.value] == QUOTE
    decreases |s| - i
  {
    if i == |s| then None
    else if s[i] == QUOTE then Some(i)
    else if s[i] == BACKSLASH then if i + 1 >= |s| then None else StringEnd(s, i + 2)
    else StringEnd(s, i + 1)
  }

  // For a first pass that started at a: position i is the second half of an
  // escape, and, the first half of one.
  predicate Mid(s: seq<byte>, a: nat, i: nat)
    requires i <= |s|
  {
    i > a && s[i - 1] == BACKSLASH && !Mid(s, a, i - 1)
  }

  predicate Start(s: seq<byte>, a: nat, i: nat)
    requires i < |s|
  {
    s[i] == BACKSLASH && !Mid(s, a, i)
  }

  // How many escapes start in [i, end).
  function Starts(s: seq<byte>, a: nat, i: nat, end: nat): nat
    requires end <= |s|
    decreases if i < end then end - i else 0
  {
    if i >= end then 0 else (if Start(s, a, i) then 1 else 0) + Starts(s, a, i + 1, end)
  }

  lemma {:induction false} StartsSplit(s: seq<byte>, a: nat, i: nat, m: nat, end: nat)
    requires i <= m <= end <= |s|
    ensures Starts(s, a, i, end) == Starts(s, a, i, m) + Starts(s, a, m, end)
    decreases m - i
  {
    if i < m {
      StartsSplit(s, a, i + 1, m, end);
    }
  }

  lemma StartsTwo(s: seq<byte>, a: nat, i: nat)
    requires a <= i && i + 2 <= |s|
    ensures Starts(s, a, i, i + 2) <= 1
  {
    assert Starts(s, a, i + 1, i + 2) == if Start(s, a, i + 1) then 1 else 0;
  }

  lemma {:induction false} NoStarts(s: seq<byte>, a: nat, i: nat, end: nat)
    requires i <= end <= |s| && forall k :: i <= k < end ==> s[k] != BACKSLASH
    ensures Starts(s, a, i, end) == 0
    decreases end - i
  {
    if i < end {
      NoStarts(s, a, i + 1, end);
    }
  }

  lemma StartsSix(s: seq<byte>, a: nat, i: nat)
    requires a <= i && i + 6 <= |s|
    ensures Starts(s, a, i, i + 6) <= 3
    ensures (forall k :: i < k < i + 6 ==> s[k] != BACKSLASH) ==> Starts(s, a, i, i + 6) <= 1
  {
    StartsSplit(s, a, i, i + 2, i + 6);
    StartsSplit(s, a, i + 2, i + 4, i + 6);
    StartsTwo(s, a, i);
    StartsTwo(s, a, i + 2);
    StartsTwo(s, a, i + 4);
    if forall k :: i < k < i + 6 ==> s[k] != BACKSLASH {
      NoStarts(s, a, i + 2, i + 6);
    }
  }

  // The end that the first pass finds is not the second half of an escape.
  lemma {:induction false} EndNotMid(s: seq<byte>, a: nat, i: nat)
    requires a <= i <= |s| && StringEnd(s, i).Some? && !Mid(s, a, i)
    ensures !Mid(s, a, StringEnd(s, i).value)
    decreases |s| - i
  {
    if s[i] != QUOTE {
      if s[i] == BACKSLASH {
        assert Mid(s, a, i + 1);
        EndNotMid(s, a, i + 2);
      } else {
        EndNotMid(s, a, i + 1);
      }
    }
  }

  // ---- second pass: the bytes of the literal ----

  // One element of a literal: its bytes, and how much text it takes.
  datatype Piece = Bad | Piece(bytes: seq<byte>, length: nat)

  // utf16_literal_to_utf8 on the text s[i..end].
  function Utf16Literal(s: seq<byte>, i: nat, end: nat): (p: Piece)
    requires i <= end <= |s|
    ensures p.Piece? ==> i + p.length <= end && p.length > 0
  {
    if end - i < 6 then Bad
    else
      var first := Hex4(s[i + 2..i + 6]);
      if LowSurrogate(first) then Bad
      else if HighSurrogate(first) then
        if end - (i + 6) < 6 then Bad
        else if s[i + 6] != BACKSLASH || s[i + 7] != 0x75 then Bad
        else
          var second := Hex4(s[i + 8..i + 12]);
          if !LowSurrogate(second) then Bad
          else JoinIsScalar(first, second); Piece(Encode(Join(first, second)), 12)
      else Piece(Encode(first), 6)
  }

  // The byte for the letter behind a backslash, but for u.
  function Unescape(c: byte): Option<byte>
  {
    if c == 0x62 then Some(0x08)
    else if c == 0x66 then Some(0x0C)
    else if c == 0x6E then Some(0x0A)
    else if c == 0x72 then Some(0x0D)
    else if c == 0x74 then Some(0x09)
    else if c == QUOTE || c == BACKSLASH || c == 0x2F then Some(c)
    else None
  }

  function PieceAt(s: seq<byte>, i: nat, end: nat): (p: Piece)
    requires i < end < |s|
    ensures p.Piece? ==> p.length > 0
  {
    if s[i] != BACKSLASH then Piece([s[i]], 1)
    else if s[i + 1] == 0x75 then Utf16Literal(s, i, end)
    else if Unescape(s[i + 1]).Some? then Piece([Unescape(s[i + 1]).value], 2)
    else Bad
  }

  function Unescaped(s: seq<byte>, i: nat, end: nat): Option<seq<byte>>
    requires end < |s|
    decreases if i < end then end - i else 0
  {
    if i >= end then Some([])
    else
      var p := PieceAt(s, i, end);
      if p.Bad? then None
      else
        var r := Unescaped(s, i + p.length, end);
        if r.None? then None else Some(p.bytes + r.value)
  }

  lemma HexPlain(s: seq<byte>, i: nat)
    requires i + 4 <= |s| && HexValue(s[i..i + 4]).Some?
    ensures forall k :: i <= k < i + 4 ==> s[k] != BACKSLASH
  {
    forall k | i <= k < i + 4
      ensures s[k] != BACKSLASH
    {
      assert HexDigit(s[i..i + 4][k - i]).Some?;
    }
  }

  // A piece writes no more bytes than it takes, less the escapes the first
  // pass counted in it, however the two passes are aligned.
  lemma PieceFits(s: seq<byte>, a: nat, i: nat, end: nat)
    requires a <= i < end < |s| && !Mid(s, a, end) && PieceAt(s, i, end).Piece?
    ensures var p := PieceAt(s, i, end);
      var next := if i + p.length < end then i + p.length else end;
      |p.bytes| + Starts(s, a, i, next) <= next - i
  {
    var p := PieceAt(s, i, end);
    if s[i] != BACKSLASH {
      assert Starts(s, a, i, i + 1) == 0;
    } else if s[i + 1] == 0x75 {
      var first := Hex4(s[i + 2..i + 6]);
      StartsSix(s, a, i);
      if HighSurrogate(first) {
        var second := Hex4(s[i + 8..i + 12]);
        HexPlain(s, i + 2);
        HexPlain(s, i + 8);
        StartsSix(s, a, i + 6);
        StartsSplit(s, a, i, i + 6, i + 12);
      } else if HexValue(s[i + 2..i + 6]).Some? {
        HexPlain(s, i + 2);
      }
    } else if i + 2 <= end {
      StartsTwo(s, a, i);
    } else {
      assert Starts(s, a, i, end) == if Start(s, a, i) then 1 else 0;
    }
  }

  // For every text: what the second pass writes, with the NUL behind it, fits
  // the room the first pass reserved, and a byte of it stays free.
  lemma {:induction false} UnescapedFits(s: seq<byte>, a: nat, i: nat, end: nat)
    requires a <= i && end < |s| && !Mid(s, a, end) && Unescaped(s, i, end).Some?
    ensures |Unescaped(s, i, end).value| + Starts(s, a, i, end) <= if i < end then end - i else 0
    decreases if i < end then end - i else 0
  {
    if i < end {
      var p := PieceAt(s, i, end);
      PieceFits(s, a, i, end);
      UnescapedFits(s, a, i + p.length, end);
      if i + p.length < end {
        StartsSplit(s, a, i, i + p.length, end);
      }
    }
  }

  // ---- the printer's escapes ----

  function HexChar(d: nat): byte
    requires d < 16
  {
    if d < 10 then 0x30 + d else 0x61 + d - 10
  }

  // The letter behind the backslash, for the bytes that have a short escape.
  function ShortEscape(b: byte): Option<byte>
  {
    if b == BACKSLASH || b == QUOTE then Some(b)
    else if b == 0x08 then Some(0x62)
    else if b == 0x0C then Some(0x66)
    else if b == 0x0A then Some(0x6E)
    else if b == 0x0D then Some(0x72)
    else if b == 0x09 then Some(0x74)
    else None
  }

  function Escape(b: byte): (e: seq<byte>)
    ensures 1 <= |e| <= 6
  {
    if b > 31 && b != QUOTE && b != BACKSLASH then [b]
    else if ShortEscape(b).Some? then [BACKSLASH, ShortEscape(b).value]
    else [BACKSLASH, 0x75, 0x30, 0x30, HexChar(b / 16), HexChar(b % 16)]
  }

  function Escaped(t: seq<byte>): seq<byte>
  {
    if t == [] then [] else Escape(t[0]) + Escaped(t[1..])
  }

  // The extra bytes the printer counts before it writes.
  function ExtraOf(b: byte): nat
  {
    if b == QUOTE || b == BACKSLASH || b == 0x08 || b == 0x0C || b == 0x0A || b == 0x0D || b == 0x09 then 1
    else if b < 32 then 5
    else 0
  }

  function Extra(t: seq<byte>): nat
  {
    if t == [] then 0 else ExtraOf(t[0]) + Extra(t[1..])
  }

  // The length computed ahead is the length written.
  lemma {:induction false} EscapedLength(t: seq<byte>)
    ensures |Escaped(t)| == |t| + Extra(t)
    ensures Extra(t) == 0 ==> Escaped(t) == t
  {
    if t != [] {
      EscapedLength(t[1..]);
    }
  }

  lemma {:induction false} EscapedConcat(a: seq<byte>, b: seq<byte>)
    ensures Escaped(a + b) == Escaped(a) + Escaped(b)
    ensures Extra(a + b) == Extra(a) + Extra(b)
  {
    if a == [] {
      assert a + b == b;
    } else {
      assert (a + b)[1..] == a[1..] + b;
      EscapedConcat(a[1..], b);
    }
  }

  // ---- parse of print ----

  predicate TextAt(s: seq<byte>, i: nat, x: seq<byte>)
  {
    i + |x| <= |s| && s[i..i + |x|] == x
  }

  lemma TextAtSplit(s: seq<byte>, i: nat, a: seq<byte>, b: seq<byte>)
    ensures TextAt(s, i, a + b) <==> TextAt(s, i, a) && TextAt(s, i + |a|, b)
  {
    if i + |a| + |b| <= |s| {
      var w := s[i..i + |a| + |b|];
      assert w[..|a|] == s[i..i + |a|] && w[|a|..] == s[i + |a|..i + |a| + |b|];
      assert w == w[..|a|] + w[|a|..];
      assert (a + b)[..|a|] == a && (a + b)[|a|..] == b;
    }
  }

  predicate NulFree(t: seq<byte>)
  {
    forall k :: 0 <= k < |t| ==> t[k] != 0
  }

  // ---- spellings ----

  // One element of a string literal as section 7 of RFC 8259 has it: a byte that
  // stands for itself, a short escape, or a code point in one literal or in a
  // surrogate pair.
  datatype Unit =
    | Plain(b: byte)
    | Short(letter: byte)
    | Code(cp: nat, h: seq<byte>)
    | Pair(cp: nat, h: seq<byte>, l: seq<byte>)

  predicate Proper(u: Unit)
  {
    match u
    case Plain(b) => b != 0x22 && b != 0x5C
    case Short(c) => c in {0x22, 0x5C, 0x2F, 0x62, 0x66, 0x6E, 0x72, 0x74}
    case Code(cp, h) => Scalar(cp) && Writes(h, cp)
    case Pair(cp, h, l) =>
      Scalar(cp) && cp >= 0x10000
      && Writes(h, 0xD800 + (cp - 0x10000) / 1024) && Writes(l, 0xDC00 + (cp - 0x10000) % 1024)
  }

  predicate AllProper(us: seq<Unit>) { forall u :: u in us ==> Proper(u) }

  function Spell(u: Unit): (t: seq<byte>)
    ensures t != []
  {
    match u
    case Plain(b) => [b]
    case Short(c) => [0x5C, c]
    case Code(_, h) => [0x5C, 0x75] + h
    case Pair(_, h, l) => [0x5C, 0x75] + h + [0x5C, 0x75] + l
  }

  // The byte that a short escape stands for: \", \\ and \/ for themselves, the
  // others for backspace, form feed, line feed, carriage return and tab.
  function ShortMeaning(c: byte): byte
  {
    if c == 0x62 then 8 else if c == 0x66 then 12 else if c == 0x6E then 10 else if c == 0x72 then 13
    else if c == 0x74 then 9 else c
  }

  function Meaning(u: Unit): seq<byte>
    requires Proper(u)
  {
    match u
    case Plain(b) => [b]
    case Short(c) => [ShortMeaning(c)]
    case Code(cp, _) => Encode(cp)
    case Pair(cp, _, _) => Encode(cp)
  }

  function SpellAll(us: seq<Unit>): seq<byte>
  {
    if us == [] then [] else Spell(us[0]) + SpellAll(us[1..])
  }

  function MeaningAll(us: seq<Unit>): seq<byte>
    requires AllProper(us)
  {
    if us == [] then [] else Meaning(us[0]) + MeaningAll(us[1..])
  }

  lemma Indexed(s: seq<byte>, i: nat, t: seq<byte>)
    requires TextAt(s, i, t)
    ensures i + |t| <= |s| && forall k :: 0 <= k < |t| ==> s[i + k] == t[k]
  {
    var w := s[i..i + |t|];
    assert forall k :: 0 <= k < |t| ==> w[k] == s[i + k];
  }

  lemma HexPlainIs(h: seq<byte>, v: nat)
    requires Writes(h, v)
    ensures forall k :: 0 <= k < 4 ==> h[k] != QUOTE && h[k] != BACKSLASH
  {
  }

  lemma WritesFour(h: seq<byte>, v: nat)
    requires Writes(h, v)
    ensures |h| == 4
  {
  }

  // The second pass reads an element as what it means.
  lemma PairReads(s: seq<byte>, i: nat, end: nat, u: Unit)
    requires Proper(u) && u.Pair? && TextAt(s, i, Spell(u)) && i + 12 <= end < |s|
    ensures PieceAt(s, i, end) == Piece(Meaning(u), 12)
  {
    hide Writes, Encode;
    Indexed(s, i, Spell(u));
    var high, low := 0xD800 + (u.cp - 0x10000) / 1024, 0xDC00 + (u.cp - 0x10000) % 1024;
    assert |u.h| == 4 && |u.l| == 4 by {
      WritesFour(u.h, high);
      WritesFour(u.l, low);
    }
    assert forall k :: 0 <= k < 4 ==> s[i + (2 + k)] == u.h[k] && s[i + (8 + k)] == u.l[k];
    assert s[i + 2..i + 6] == u.h && s[i + 8..i + 12] == u.l;
    HexReads(u.h, high);
    HexReads(u.l, low);
    assert Join(high, low) == u.cp;
  }

  lemma CodeReads(s: seq<byte>, i: nat, end: nat, u: Unit)
    requires Proper(u) && u.Code? && TextAt(s, i, Spell(u)) && i + 6 <= end < |s|
    ensures PieceAt(s, i, end) == Piece(Meaning(u), 6)
  {
    hide Writes, Encode;
    WritesFour(u.h, u.cp);
    Indexed(s, i, Spell(u));
    assert s[i + 2..i + 6] == u.h;
    HexReads(u.h, u.cp);
  }

  lemma UnitReads(s: seq<byte>, i: nat, end: nat, u: Unit)
    requires Proper(u) && TextAt(s, i, Spell(u)) && i + |Spell(u)| <= end < |s|
    ensures PieceAt(s, i, end) == Piece(Meaning(u), |Spell(u)|)
  {
    match u
    case Code(_, _) => CodeReads(s, i, end, u);
    case Pair(_, _, _) => PairReads(s, i, end, u);
    case _ => Indexed(s, i, Spell(u));
  }

  lemma {:induction false} PlainPassed(s: seq<byte>, i: nat, n: nat)
    requires i + n <= |s| && forall k :: i <= k < i + n ==> s[k] != QUOTE && s[k] != BACKSLASH
    ensures StringEnd(s, i) == StringEnd(s, i + n)
    decreases n
  {
    if n > 0 {
      PlainPassed(s, i + 1, n - 1);
    }
  }

  lemma LiteralPassed(s: seq<byte>, i: nat, h: seq<byte>, v: nat)
    requires Writes(h, v) && TextAt(s, i, [0x5C, 0x75] + h)
    ensures i + 6 <= |s| && StringEnd(s, i) == StringEnd(s, i + 6)
  {
    HexPlainIs(h, v);
    Indexed(s, i, [0x5C, 0x75] + h);
    assert forall k :: 0 <= k < 4 ==> s[i + 2 + k] == h[k];
    PlainPassed(s, i + 2, 4);
  }

  // The first pass steps over an element.
  lemma UnitPassed(s: seq<byte>, i: nat, u: Unit)
    requires Proper(u) && TextAt(s, i, Spell(u))
    ensures i + |Spell(u)| <= |s| && StringEnd(s, i) == StringEnd(s, i + |Spell(u)|)
  {
    hide Writes;
    match u
    case Code(cp, h) =>
      WritesFour(h, cp);
      LiteralPassed(s, i, h, cp);
    case Pair(cp, h, l) =>
      var high, low := 0xD800 + (cp - 0x10000) / 1024, 0xDC00 + (cp - 0x10000) % 1024;
      WritesFour(h, high);
      WritesFour(l, low);
      assert Spell(u) == ([0x5C, 0x75] + h) + ([0x5C, 0x75] + l);
      TextAtSplit(s, i, [0x5C, 0x75] + h, [0x5C, 0x75] + l);
      LiteralPassed(s, i, h, high);
      LiteralPassed(s, i + 6, l, low);
    case _ => Indexed(s, i, Spell(u));
  }

  lemma QuoteEnds(s: seq<byte>, i: nat)
    requires i < |s| && s[i] == QUOTE
    ensures StringEnd(s, i) == Some(i)
  {
  }

  lemma UnescapedNone(s: seq<byte>, i: nat)
    requires i < |s|
    ensures Unescaped(s, i, i) == Some([])
  {
  }

  lemma UnescapedStep(s: seq<byte>, i: nat, end: nat)
    requires i < end < |s| && PieceAt(s, i, end).Piece?
    ensures var p := PieceAt(s, i, end);
      var r := Unescaped(s, i + p.length, end);
      Unescaped(s, i, end) == if r.None? then None else Some(p.bytes + r.value)
  {
    hide PieceAt;
  }

  // Both passes, over any spelling up to the closing quote.
  lemma {:induction false} SpelledParses(s: seq<byte>, i: nat, us: seq<Unit>)
    requires AllProper(us) && TextAt(s, i, SpellAll(us)) && i + |SpellAll(us)| < |s| && s[i + |SpellAll(us)|] == QUOTE
    ensures var end := i + |SpellAll(us)|;
      StringEnd(s, i) == Some(end) && Unescaped(s, i, end) == Some(MeaningAll(us))
    decreases |us|
  {
    hide Proper, Meaning, PieceAt, StringEnd, TextAt, Unescaped, Spell;
    if us == [] {
      QuoteEnds(s, i);
      UnescapedNone(s, i);
    } else {
      var e := Spell(us[0]);
      TextAtSplit(s, i, e, SpellAll(us[1..]));
      UnitReads(s, i, i + |SpellAll(us)|, us[0]);
      UnescapedStep(s, i, i + |SpellAll(us)|);
      UnitPassed(s, i, us[0]);
      SpelledParses(s, i + |e|, us[1..]);
    }
  }

  // ---- the printer's spelling ----

  function UnitOf(b: byte): Unit
  {
    if b > 31 && b != QUOTE && b != BACKSLASH then Plain(b)
    else if ShortEscape(b).Some? then Short(ShortEscape(b).value)
    else Code(b, [0x30, 0x30, HexChar(b / 16), HexChar(b % 16)])
  }

  function UnitsOf(t: seq<byte>): seq<Unit>
  {
    if t == [] then [] else [UnitOf(t[0])] + UnitsOf(t[1..])
  }

  lemma HexOfByte(b: byte)
    requires b < 32
    ensures Writes([0x30, 0x30, HexChar(b / 16), HexChar(b % 16)], b) && Encode(b) == [b] && Scalar(b)
  {
  }

  lemma UnitOfIs(b: byte)
    ensures Proper(UnitOf(b)) && Spell(UnitOf(b)) == Escape(b) && Meaning(UnitOf(b)) == [b]
  {
    hide Writes, Encode, HexChar, Scalar;
    if b < 32 {
      HexOfByte(b);
    }
  }

  lemma {:induction false} UnitsOfAre(t: seq<byte>)
    ensures AllProper(UnitsOf(t)) && SpellAll(UnitsOf(t)) == Escaped(t) && MeaningAll(UnitsOf(t)) == t
  {
    hide Proper, Spell, Meaning, Escape, UnitOf;
    if t != [] {
      UnitOfIs(t[0]);
      UnitsOfAre(t[1..]);
      assert UnitsOf(t)[1..] == UnitsOf(t[1..]);
      assert [t[0]] + t[1..] == t;
    }
  }

  // Both passes over a printed string give the string back.
  lemma EscapedParses(s: seq<byte>, i: nat, t: seq<byte>)
    requires TextAt(s, i, Escaped(t)) && i + |Escaped(t)| < |s| && s[i + |Escaped(t)|] == QUOTE
    ensures var end := i + |Escaped(t)|;
      StringEnd(s, i) == Some(end) && Unescaped(s, i, end) == Some(t)
  {
    UnitsOfAre(t);
    SpelledParses(s, i, UnitsOf(t));
  }
}
