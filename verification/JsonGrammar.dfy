// JSON texts in any spelling, and what the parser makes of them.
module JsonGrammar {
  import opened Lists
  import opened Options
  import opened JsonUtf8
  import opened JsonString
  import opened JsonText

  // ---- texts as section 2 of RFC 8259 builds them ----

  datatype Entries =
    | NoEntry
    | Entry(before: seq<byte>, key: seq<Unit>, keyed: seq<byte>, colon: seq<byte>, value: Term, behind: seq<byte>,
            next: Entries)

  // inside is the white space of an empty array or object.
  datatype Term =
    | NullWord
    | FalseWord
    | TrueWord
    | Integer(minus: bool, digits: seq<byte>)
    | Str(units: seq<Unit>)
    | List(inside: seq<byte>, elements: Elements)
    | Dict(inside: seq<byte>, entries: Entries)

  // With the white space that stands before and behind.
  datatype Elements = NoElement | Element(before: seq<byte>, value: Term, behind: seq<byte>, next: Elements)

  predicate White(w: seq<byte>)
  {
    forall k :: 0 <= k < |w| ==> w[k] <= 32
  }

  predicate FineEntries(c: Entries)
  {
    c.Entry? ==>
      && White(c.before) && AllProper(c.key) && White(c.keyed) && White(c.colon) && Fine(c.value) && White(c.behind)
      && FineEntries(c.next)
  }

  function SpellText(us: seq<Unit>): seq<byte> { [0x22] + SpellAll(us) + [0x22] }

  function SpellElements(c: Elements): seq<byte>
  {
    match c
    case NoElement => []
    case Element(b, v, e, next) => b + SpellTerm(v) + e + (if next.Element? then [0x2C] else []) + SpellElements(next)
  }

  function SpellEntries(c: Entries): seq<byte>
  {
    match c
    case NoEntry => []
    case Entry(b, key, w, x, v, e, next) =>
      b + SpellText(key) + w + [0x3A] + x + SpellTerm(v) + e + (if next.Entry? then [0x2C] else [])
      + SpellEntries(next)
  }

  function SpellTerm(t: Term): seq<byte>
  {
    match t
    case NullWord => [0x6E, 0x75, 0x6C, 0x6C]
    case FalseWord => [0x66, 0x61, 0x6C, 0x73, 0x65]
    case TrueWord => [0x74, 0x72, 0x75, 0x65]
    case Integer(minus, d) => (if minus then [0x2D] else []) + d
    case Str(us) => SpellText(us)
    case List(w, c) => [0x5B] + (if c.NoElement? then w else SpellElements(c)) + [0x5D]
    case Dict(w, c) => [0x7B] + (if c.NoEntry? then w else SpellEntries(c)) + [0x7D]
  }

  // The program keeps 63 bytes of a number.
  predicate Fine(t: Term)
  {
    match t
    case Integer(minus, d) => d != [] && |SpellTerm(t)| <= 63 && forall k :: 0 <= k < |d| ==> IsDigit(d[k])
    case Str(us) => AllProper(us)
    case List(w, c) => White(w) && FineElements(c)
    case Dict(w, c) => White(w) && FineEntries(c)
    case _ => true
  }

  predicate FineElements(c: Elements)
  {
    c.Element? ==> White(c.before) && Fine(c.value) && White(c.behind) && FineElements(c.next)
  }

  function MembersOf(c: Entries): Members
    requires FineEntries(c)
  {
    if c.NoEntry? then NoMember else Member(CString(MeaningAll(c.key)), TreeOf(c.value), MembersOf(c.next))
  }

  // The tree that a text stands for; a string ends at its first NUL, and a
  // number beyond an int is the nearest one.
  function TreeOf(t: Term): Json
    requires Fine(t)
  {
    match t
    case NullWord => Null
    case FalseWord => False
    case TrueWord => True
    case Integer(minus, d) =>
      var n: int := DecValue(d);
      var v := if minus then -n else n;
      Number(if v > 0x7FFF_FFFF then 0x7FFF_FFFF else if v < -0x8000_0000 then -0x8000_0000 else v)
    case Str(us) => Text(CString(MeaningAll(us)))
    case List(_, c) => Array(ItemsOf(c))
    case Dict(_, c) => Object(MembersOf(c))
  }

  function ItemsOf(c: Elements): Items
    requires FineElements(c)
  {
    if c.NoElement? then NoItem else Item(TreeOf(c.value), ItemsOf(c.next))
  }

  function Max(a: nat, b: nat): nat { if a < b then b else a }

  function DepthEntries(c: Entries): nat
  {
    if c.NoEntry? then 0 else Max(Depth(c.value), DepthEntries(c.next))
  }

  // How deep arrays and objects are nested.
  function Depth(t: Term): nat
  {
    match t
    case List(_, c) => 1 + DepthElements(c)
    case Dict(_, c) => 1 + DepthEntries(c)
    case _ => 0
  }

  function DepthElements(c: Elements): nat
  {
    if c.NoElement? then 0 else Max(Depth(c.value), DepthElements(c.next))
  }

  // ---- white space ----

  lemma {:induction false} SkipWhite(s: seq<byte>, o: nat, w: seq<byte>)
    requires TextAt(s, o, w) && White(w) && o + |w| < |s| && s[o + |w|] > 32
    ensures PastWhite(s, o) == o + |w| && Skip(s, o) == o + |w|
    decreases |w|
  {
    if w != [] {
      TextAtSplit(s, o, w[..1], w[1..]);
      assert w == w[..1] + w[1..];
      assert s[o] == s[o..o + |w|][0];
      SkipWhite(s, o + 1, w[1..]);
    }
  }

  lemma SkipNone(s: seq<byte>, o: nat)
    requires o < |s| && s[o] > 32
    ensures Skip(s, o) == o
  {
  }

  lemma FirstByte(s: seq<byte>, o: nat, t: seq<byte>)
    requires TextAt(s, o, t) && t != []
    ensures o < |s| && s[o] == t[0]
  {
    assert s[o..o + |t|][0] == s[o];
  }

  // ---- numbers ----

  predicate NumberChars(t: seq<byte>)
  {
    forall k :: 0 <= k < |t| ==> IsNumberChar(t[k])
  }

  lemma {:induction false} SpanOf(s: seq<byte>, o: nat, t: seq<byte>, limit: nat)
    requires TextAt(s, o, t) && NumberChars(t) && |t| <= limit
    requires o + |t| < |s| && !IsNumberChar(s[o + |t|])
    ensures NumberSpan(s, o, limit) == |t|
    decreases |t|
  {
    if t != [] {
      FirstByte(s, o, t);
      assert t == t[..1] + t[1..];
      TextAtSplit(s, o, t[..1], t[1..]);
      SpanOf(s, o + 1, t[1..], limit - 1);
    }
  }

  lemma {:induction false} AllDigits(t: seq<byte>)
    requires forall k :: 0 <= k < |t| ==> IsDigit(t[k])
    ensures DigitSpan(t) == |t|
  {
    if t != [] {
      AllDigits(t[1..]);
    }
  }

  lemma TextAtSlice(s: seq<byte>, o: nat, t: seq<byte>)
    requires TextAt(s, o, t)
    ensures o + |t| <= |s| && s[o..o + |t|] == t
  {
  }

  lemma IntegerParses(s: seq<byte>, o: nat, t: Term)
    requires t.Integer? && Fine(t) && TextAt(s, o, SpellTerm(t))
    requires o + |SpellTerm(t)| < |s| && !IsNumberChar(s[o + |SpellTerm(t)|])
    ensures ParseNumber(s, o) == Ok(TreeOf(t), o + |SpellTerm(t)|)
    ensures o < |s| && (s[o] == MINUS || IsDigit(s[o]))
  {
    hide NumberSpan, DecValue, DigitSpan, TextAt;
    var x, sign := SpellTerm(t), if t.minus then 1 else 0;
    TextAtSlice(s, o, x);
    SpanOf(s, o, x, 63);
    FirstByte(s, o, x);
    assert x[sign..] == t.digits;
    AllDigits(t.digits);
    assert t.digits[..|t.digits|] == t.digits;
  }

  // ---- strings ----

  lemma {:induction false} NulFreeIsCString(t: seq<byte>)
    requires NulFree(t)
    ensures CString(t) == t
  {
    if t != [] {
      NulFreeIsCString(t[1..]);
    }
  }

  lemma TextParses(s: seq<byte>, o: nat, us: seq<Unit>)
    requires AllProper(us) && TextAt(s, o, SpellText(us))
    ensures ParseText(s, o) == Ok(CString(MeaningAll(us)), o + |SpellText(us)|) && s[o] == QUOTE && o < |s|
  {
    hide SpellAll, MeaningAll, StringEnd, Unescaped, CString, TextAt, Proper;
    FirstByte(s, o, SpellText(us));
    assert SpellText(us) == [QUOTE] + (SpellAll(us) + [QUOTE]);
    TextAtSplit(s, o, [QUOTE], SpellAll(us) + [QUOTE]);
    TextAtSplit(s, o + 1, SpellAll(us), [QUOTE]);
    FirstByte(s, o + 1 + |SpellAll(us)|, [QUOTE]);
    SpelledParses(s, o + 1, us);
  }

  lemma Single(u: Unit)
    requires Proper(u)
    ensures AllProper([u]) && SpellAll([u]) == Spell(u) && MeaningAll([u]) == Meaning(u)
  {
    assert [u][1..] == [];
  }

  // A code point in one literal or in a surrogate pair, with digits in any case:
  // the bytes read are its UTF-8.  U+0000 ends the string.
  lemma LiteralMeans(s: seq<byte>, o: nat, u: Unit)
    requires Proper(u) && (u.Code? || u.Pair?) && TextAt(s, o, [0x22] + Spell(u) + [0x22])
    ensures ParseText(s, o).Ok? && ParseText(s, o).off == o + |Spell(u)| + 2
    ensures if u.cp == 0 then ParseText(s, o).value == [] else Decode(ParseText(s, o).value) == Some(u.cp)
  {
    Single(u);
    TextParses(s, o, [u]);
    EncodeIsUtf8(u.cp);
    if u.cp > 0 {
      NulFreeIsCString(Encode(u.cp));
    }
  }

  // What each short escape stands for.
  lemma ShortMeans(s: seq<byte>, o: nat, c: byte, b: byte)
    requires (c, b) in
      {(0x22, 0x22), (0x5C, 0x5C), (0x2F, 0x2F), (0x62, 8), (0x66, 12), (0x6E, 10), (0x72, 13), (0x74, 9)}
    requires TextAt(s, o, [0x22, 0x5C, c, 0x22])
    ensures ParseText(s, o) == Ok([b], o + 4)
  {
    Single(Short(c));
    assert SpellText([Short(c)]) == [0x22, 0x5C, c, 0x22];
    TextParses(s, o, [Short(c)]);
    NulFreeIsCString([b]);
  }

  // Four bytes that are not all hex digits count as U+0000, and end the string.
  lemma BadDigits(s: seq<byte>, o: nat, h: seq<byte>)
    requires |h| == 4 && HexValue(h).None? && forall k :: 0 <= k < 4 ==> h[k] != QUOTE && h[k] != BACKSLASH
    requires TextAt(s, o, [0x22, 0x5C, 0x75] + h + [0x22])
    ensures ParseText(s, o) == Ok([], o + 8)
  {
    hide HexValue;
    Indexed(s, o, [0x22, 0x5C, 0x75] + h + [0x22]);
    assert forall k :: 0 <= k < 4 ==> s[o + (3 + k)] == h[k];
    assert s[o + 7] == 0x22;
    PlainPassed(s, o + 3, 4);
    QuoteEnds(s, o + 7);
    assert StringEnd(s, o + 1) == Some(o + 7);
    assert s[o + 3..o + 7] == h;
    assert PieceAt(s, o + 1, o + 7) == Piece([0], 6);
    UnescapedNone(s, o + 7);
    UnescapedStep(s, o + 1, o + 7);
    assert [0] + [] == [0];
  }

  // ---- values ----

  // What may stand behind a value: nothing a number could go on with.
  predicate Ended(s: seq<byte>, end: nat)
  {
    end < |s| && !IsNumberChar(s[end])
  }

  // The literals differ from everything else in their first byte.
  lemma NotLiteral(s: seq<byte>, o: nat)
    requires o < |s| && s[o] != 0x6E && s[o] != 0x66 && s[o] != 0x74
    ensures !TextAt(s, o, NULL) && !TextAt(s, o, FALSE) && !TextAt(s, o, TRUE)
  {
    if TextAt(s, o, NULL) { FirstByte(s, o, NULL); }
    if TextAt(s, o, FALSE) { FirstByte(s, o, FALSE); }
    if TextAt(s, o, TRUE) { FirstByte(s, o, TRUE); }
  }

  lemma FirstIs(s: seq<byte>, o: nat, t: seq<byte>, u: seq<byte>)
    requires TextAt(s, o, t) && t != [] && u != [] && t[0] != u[0]
    ensures !TextAt(s, o, u)
  {
    FirstByte(s, o, t);
    if TextAt(s, o, u) { FirstByte(s, o, u); }
  }

  lemma TermStarts(t: Term)
    requires Fine(t)
    ensures SpellTerm(t) != [] && SpellTerm(t)[0] > 32 && SpellTerm(t)[0] != CLOSE_ARRAY
  {
  }

  function ElementRest(c: Elements): seq<byte>
    requires c.Element?
  {
    if c.next.Element? then [COMMA] + (SpellElements(c.next) + [CLOSE_ARRAY]) else [CLOSE_ARRAY]
  }

  lemma ElementText(c: Elements)
    requires c.Element?
    ensures SpellElements(c) + [CLOSE_ARRAY] == c.before + (SpellTerm(c.value) + (c.behind + ElementRest(c)))
    ensures |SpellElements(c)| + 1 == |c.before| + |SpellTerm(c.value)| + |c.behind| + |ElementRest(c)|
  {
    hide SpellTerm;
  }

  // White space behind a value, and what follows it.
  lemma Behind(s: seq<byte>, e: nat, w: seq<byte>, tail: seq<byte>)
    requires White(w) && TextAt(s, e, w + tail) && tail != [] && tail[0] > 32 && !IsNumberChar(tail[0])
    ensures Ended(s, e) && Skip(s, e) == e + |w| && e + |w| < |s| && s[e + |w|] == tail[0]
    ensures TextAt(s, e + |w|, tail)
  {
    TextAtSplit(s, e, w, tail);
    FirstByte(s, e + |w|, tail);
    SkipWhite(s, e, w);
    if w != [] {
      FirstByte(s, e, w);
    }
  }

  // The text of an element, part by part, up to the comma or the bracket.
  lemma ElementParts(s: seq<byte>, p: nat, c: Elements)
    requires c.Element? && FineElements(c) && TextAt(s, p, SpellElements(c) + [CLOSE_ARRAY])
    ensures var q := p + |c.before|;
      var e := q + |SpellTerm(c.value)|;
      var x := e + |c.behind|;
      && TextAt(s, p, c.before) && TextAt(s, q, SpellTerm(c.value)) && Ended(s, e) && Skip(s, e) == x && x < |s|
      && (c.next.NoElement? ==> s[x] == CLOSE_ARRAY && x == p + |SpellElements(c)|)
      && (c.next.Element? ==>
            && s[x] == COMMA && TextAt(s, x + 1, SpellElements(c.next) + [CLOSE_ARRAY])
            && p + |SpellElements(c)| == x + 1 + |SpellElements(c.next)|)
  {
    hide SpellTerm, Fine, TextAt, Skip, SpellElements, White;
    var v, tail := SpellTerm(c.value), ElementRest(c);
    var e := p + |c.before| + |v|;
    ElementText(c);
    TextAtSplit(s, p, c.before, v + (c.behind + tail));
    TextAtSplit(s, p + |c.before|, v, c.behind + tail);
    Behind(s, e, c.behind, tail);
    if c.next.Element? {
      TextAtSplit(s, e + |c.behind|, [COMMA], SpellElements(c.next) + [CLOSE_ARRAY]);
    }
  }

  // White space in front of a value.
  lemma Before(s: seq<byte>, p: nat, w: seq<byte>, v: seq<byte>)
    requires White(w) && TextAt(s, p, w) && TextAt(s, p + |w|, v) && v != [] && v[0] > 32
    ensures Skip(s, p) == p + |w|
  {
    FirstByte(s, p + |w|, v);
    SkipWhite(s, p, w);
  }

  lemma ElementBefore(s: seq<byte>, p: nat, c: Elements)
    requires c.Element? && FineElements(c) && TextAt(s, p, SpellElements(c) + [CLOSE_ARRAY])
    ensures Skip(s, p) == p + |c.before| && p + |c.before| < |s|
  {
    hide SpellTerm, TextAt, Skip, SpellElements;
    ElementParts(s, p, c);
    TermStarts(c.value);
    Before(s, p, c.before, SpellTerm(c.value));
    FirstByte(s, p + |c.before|, SpellTerm(c.value));
  }

  // What the parser makes of an element whose value lies in [q, e).
  lemma ElementRead(s: seq<byte>, o: nat, depth: nat, v: Json, e: nat)
    requires o < |s|
    ensures ParseValue(s, Skip(s, o + 1), depth).Fail? ==> ParseItems(s, o, depth).Fail?
    ensures ParseValue(s, Skip(s, o + 1), depth) == Ok(v, e) && e <= |s| && Skip(s, e) < |s| ==>
      var x := Skip(s, e);
      && (s[x] == COMMA && ParseItems(s, x, depth).Fail? ==> ParseItems(s, o, depth).Fail?)
      && (s[x] == COMMA && ParseItems(s, x, depth).Ok? ==>
            ParseItems(s, o, depth) == Ok(Item(v, ParseItems(s, x, depth).value), ParseItems(s, x, depth).off))
      && (s[x] == CLOSE_ARRAY ==> ParseItems(s, o, depth) == Ok(Item(v, NoItem), x + 1))
  {
    hide ParseValue, Skip;
  }

  lemma ElementStart(s: seq<byte>, p: nat, c: Elements)
    requires c.Element? && FineElements(c) && TextAt(s, p, SpellElements(c) + [CLOSE_ARRAY])
    ensures p + |c.before| < |s| && s[p + |c.before|] != CLOSE_ARRAY && Skip(s, p + |c.before|) == p + |c.before|
  {
    hide SpellTerm, TextAt, SpellElements;
    ElementParts(s, p, c);
    TermStarts(c.value);
    FirstByte(s, p + |c.before|, SpellTerm(c.value));
    SkipNone(s, p + |c.before|);
  }

  lemma {:induction false} ListParses(s: seq<byte>, o: nat, t: Term, depth: nat)
    requires t.List? && Fine(t) && TextAt(s, o, SpellTerm(t)) && o < |s| && s[o] == OPEN_ARRAY
    ensures ParseArray(s, o, depth) ==
      if depth + Depth(t) <= NESTING_LIMIT then Ok(TreeOf(t), o + |SpellTerm(t)|) else Fail
    decreases t, 0
  {
    hide TextAt, Skip, ParseItems, SpellElements;
    var c := t.elements;
    var body := if c.NoElement? then t.inside else SpellElements(c);
    assert SpellTerm(t) == [OPEN_ARRAY] + (body + [CLOSE_ARRAY]);
    TextAtSplit(s, o, [OPEN_ARRAY], body + [CLOSE_ARRAY]);
    if c.NoElement? {
      Behind(s, o + 1, body, [CLOSE_ARRAY]);
    } else if depth < NESTING_LIMIT {
      var q := o + 1 + |c.before|;
      ElementBefore(s, o + 1, c);
      ElementStart(s, o + 1, c);
      ElementsParse(s, q - 1, o + 1, c, depth + 1);
    }
  }

  // The text of an entry from its value on, up to the comma or the brace.
  function EntryRest(c: Entries): seq<byte>
    requires c.Entry?
  {
    SpellTerm(c.value)
    + (c.behind + if c.next.Entry? then [COMMA] + (SpellEntries(c.next) + [CLOSE_OBJECT]) else [CLOSE_OBJECT])
  }

  lemma EntryText(c: Entries)
    requires c.Entry?
    ensures var key := SpellText(c.key);
      && SpellEntries(c) + [CLOSE_OBJECT]
         == c.before + (key + (c.keyed + ([COLON] + (c.colon + EntryRest(c)))))
      && |SpellEntries(c)| + 1 == |c.before| + |key| + |c.keyed| + 1 + |c.colon| + |EntryRest(c)|
  {
    hide SpellTerm, SpellText;
  }

  // An entry up to its value.
  lemma EntryKey(s: seq<byte>, p: nat, c: Entries)
    requires c.Entry? && FineEntries(c) && TextAt(s, p, SpellEntries(c) + [CLOSE_OBJECT])
    ensures var q := p + |c.before|;
      var k := q + |SpellText(c.key)|;
      var n := k + |c.keyed|;
      && TextAt(s, p, c.before) && TextAt(s, q, SpellText(c.key)) && Skip(s, k) == n && n < |s| && s[n] == COLON
      && TextAt(s, n + 1, c.colon) && TextAt(s, n + 1 + |c.colon|, EntryRest(c))
      && p + |SpellEntries(c)| + 1 == n + 1 + |c.colon| + |EntryRest(c)|
  {
    hide SpellTerm, SpellText, Fine, TextAt, Skip, AllProper, SpellEntries, EntryRest;
    var key := SpellText(c.key);
    var rest := [COLON] + (c.colon + EntryRest(c));
    EntryText(c);
    var q := p + |c.before|;
    var n := q + |key| + |c.keyed|;
    TextAtSplit(s, p, c.before, key + (c.keyed + rest));
    TextAtSplit(s, q, key, c.keyed + rest);
    Behind(s, q + |key|, c.keyed, rest);
    TextAtSplit(s, n, [COLON], c.colon + EntryRest(c));
    TextAtSplit(s, n + 1, c.colon, EntryRest(c));
  }

  lemma EntryBefore(s: seq<byte>, p: nat, c: Entries)
    requires c.Entry? && FineEntries(c) && TextAt(s, p, SpellEntries(c) + [CLOSE_OBJECT])
    ensures var q := p + |c.before|; Skip(s, p) == q && Skip(s, q) == q && q < |s| && s[q] == QUOTE
  {
    hide SpellTerm, TextAt, Skip, SpellEntries, SpellAll, EntryRest;
    EntryKey(s, p, c);
    Before(s, p, c.before, SpellText(c.key));
    FirstByte(s, p + |c.before|, SpellText(c.key));
    SkipNone(s, p + |c.before|);
  }

  lemma EntryValue(s: seq<byte>, v: nat, c: Entries)
    requires c.Entry? && White(c.behind) && TextAt(s, v, EntryRest(c))
    ensures var e := v + |SpellTerm(c.value)|;
      var x := e + |c.behind|;
      && TextAt(s, v, SpellTerm(c.value)) && Ended(s, e) && Skip(s, e) == x && x < |s|
      && (c.next.NoEntry? ==> s[x] == CLOSE_OBJECT && v + |EntryRest(c)| == x + 1)
      && (c.next.Entry? ==>
            && s[x] == COMMA && TextAt(s, x + 1, SpellEntries(c.next) + [CLOSE_OBJECT])
            && v + |EntryRest(c)| == x + 1 + |SpellEntries(c.next)| + 1)
  {
    hide SpellTerm, TextAt, Skip, SpellEntries, White;
    var tail := if c.next.Entry? then [COMMA] + (SpellEntries(c.next) + [CLOSE_OBJECT]) else [CLOSE_OBJECT];
    var e := v + |SpellTerm(c.value)|;
    TextAtSplit(s, v, SpellTerm(c.value), c.behind + tail);
    Behind(s, e, c.behind, tail);
    if c.next.Entry? {
      TextAtSplit(s, e + |c.behind|, [COMMA], SpellEntries(c.next) + [CLOSE_OBJECT]);
    }
  }

  // What the parser makes of an entry whose key ends at k and value at e.
  lemma EntryRead(s: seq<byte>, o: nat, depth: nat, key: seq<byte>, k: nat, v: Json, e: nat)
    requires o < |s| && ParseText(s, Skip(s, o + 1)) == Ok(key, k) && k <= |s|
    requires Skip(s, k) < |s| && s[Skip(s, k)] == COLON
    ensures var q := Skip(s, Skip(s, k) + 1);
      && (ParseValue(s, q, depth).Fail? ==> ParseMembers(s, o, depth).Fail?)
      && (ParseValue(s, q, depth) == Ok(v, e) && e <= |s| && Skip(s, e) < |s| ==>
            var x := Skip(s, e);
            && (s[x] == COMMA && ParseMembers(s, x, depth).Fail? ==> ParseMembers(s, o, depth).Fail?)
            && (s[x] == COMMA && ParseMembers(s, x, depth).Ok? ==>
                  ParseMembers(s, o, depth)
                  == Ok(Member(key, v, ParseMembers(s, x, depth).value), ParseMembers(s, x, depth).off))
            && (s[x] == CLOSE_OBJECT ==> ParseMembers(s, o, depth) == Ok(Member(key, v, NoMember), x + 1)))
  {
    hide ParseValue, Skip, ParseText;
  }

  // The entries from p on, when the parser gets from o to the first key.
  lemma {:induction false} EntriesParse(s: seq<byte>, o: nat, p: nat, c: Entries, depth: nat)
    requires c.Entry? && FineEntries(c) && TextAt(s, p, SpellEntries(c) + [CLOSE_OBJECT])
    requires o < |s| && Skip(s, o + 1) == p + |c.before| && depth <= NESTING_LIMIT
    ensures ParseMembers(s, o, depth) ==
      if depth + DepthEntries(c) <= NESTING_LIMIT then Ok(MembersOf(c), p + |SpellEntries(c)| + 1) else Fail
    decreases c, 1
  {
    hide SpellTerm, SpellText, TextAt, Skip, ParseValue, ParseText, ParseMembers, SpellEntries, Depth, Fine, White;
    hide AllProper, CString, MeaningAll, EntryRest;
    var q := p + |c.before|;
    var k := q + |SpellText(c.key)|;
    var n := k + |c.keyed|;
    var v := n + 1 + |c.colon|;
    var e := v + |SpellTerm(c.value)|;
    var x := e + |c.behind|;
    EntryKey(s, p, c);
    EntryValue(s, v, c);
    TextParses(s, q, c.key);
    TermStarts(c.value);
    Before(s, n + 1, c.colon, SpellTerm(c.value));
    EntryRead(s, o, depth, CString(MeaningAll(c.key)), k, TreeOf(c.value), e);
    TermParses(s, v, c.value, depth);
    if c.next.Entry? {
      EntryBefore(s, x + 1, c.next);
      EntriesParse(s, x, x + 1, c.next, depth);
    }
  }

  lemma {:induction false} DictParses(s: seq<byte>, o: nat, t: Term, depth: nat)
    requires t.Dict? && Fine(t) && TextAt(s, o, SpellTerm(t)) && o < |s| && s[o] == OPEN_OBJECT
    ensures ParseObject(s, o, depth) ==
      if depth + Depth(t) <= NESTING_LIMIT then Ok(TreeOf(t), o + |SpellTerm(t)|) else Fail
    decreases t, 0
  {
    hide TextAt, Skip, ParseMembers, SpellEntries;
    var c := t.entries;
    var body := if c.NoEntry? then t.inside else SpellEntries(c);
    assert SpellTerm(t) == [OPEN_OBJECT] + (body + [CLOSE_OBJECT]);
    TextAtSplit(s, o, [OPEN_OBJECT], body + [CLOSE_OBJECT]);
    if c.NoEntry? {
      Behind(s, o + 1, body, [CLOSE_OBJECT]);
    } else if depth < NESTING_LIMIT {
      var q := o + 1 + |c.before|;
      EntryBefore(s, o + 1, c);
      EntriesParse(s, q - 1, o + 1, c, depth + 1);
    }
  }

  // Any text of the grammar, with white space, escapes and digits in any way it
  // allows: the parser reads the tree it stands for and stops behind it, unless
  // it is nested deeper than 1000 levels, and then it fails.
  lemma {:induction false} TermParses(s: seq<byte>, o: nat, t: Term, depth: nat)
    requires Fine(t) && TextAt(s, o, SpellTerm(t)) && Ended(s, o + |SpellTerm(t)|) && depth <= NESTING_LIMIT
    ensures ParseValue(s, o, depth) ==
      if depth + Depth(t) <= NESTING_LIMIT then Ok(TreeOf(t), o + |SpellTerm(t)|) else Fail
    decreases t, 1
  {
    var x := SpellTerm(t);
    TermStarts(t);
    FirstByte(s, o, x);
    match t
    case NullWord =>
    case FalseWord => FirstIs(s, o, x, NULL);
    case TrueWord => FirstIs(s, o, x, NULL); FirstIs(s, o, x, FALSE);
    case Integer(_, _) =>
      IntegerParses(s, o, t);
      NotLiteral(s, o);
    case Str(us) =>
      TextParses(s, o, us);
      NotLiteral(s, o);
    case List(_, _) =>
      NotLiteral(s, o);
      ListParses(s, o, t, depth);
    case Dict(_, _) =>
      NotLiteral(s, o);
      DictParses(s, o, t, depth);
  }

  // The elements from p on, when the parser gets from o to the first.
  lemma {:induction false} ElementsParse(s: seq<byte>, o: nat, p: nat, c: Elements, depth: nat)
    requires c.Element? && FineElements(c) && TextAt(s, p, SpellElements(c) + [CLOSE_ARRAY])
    requires o < |s| && Skip(s, o + 1) == p + |c.before| && depth <= NESTING_LIMIT
    ensures ParseItems(s, o, depth) ==
      if depth + DepthElements(c) <= NESTING_LIMIT then Ok(ItemsOf(c), p + |SpellElements(c)| + 1) else Fail
    decreases c, 1
  {
    hide SpellTerm, TextAt, Skip, ParseValue, ParseItems, SpellElements, Depth, Fine, White;
    var q := p + |c.before|;
    var e := q + |SpellTerm(c.value)|;
    var x := e + |c.behind|;
    ElementParts(s, p, c);
    ElementRead(s, o, depth, TreeOf(c.value), e);
    TermParses(s, q, c.value, depth);
    if c.next.Element? {
      ElementBefore(s, x + 1, c.next);
      ElementsParse(s, x, x + 1, c.next, depth);
    }
  }
}
