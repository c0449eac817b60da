// Parsing what was printed gives back the tree.
module JsonRoundTrip {
  import opened Lists
  import opened JsonUtf8
  import opened JsonString
  import opened JsonText
  import opened JsonGrammar

  predicate PrintableMembers(c: Members)
  {
    c.Member? ==> NulFree(c.key) && Printable(c.value) && PrintableMembers(c.next)
  }

  // Trees the printed text can carry: integers of 32 bits, strings without NUL.
  predicate Printable(j: Json)
  {
    match j
    case Number(n) => INT_MIN <= n <= INT_MAX
    case Text(t) => NulFree(t)
    case Array(c) => PrintableItems(c)
    case Object(c) => PrintableMembers(c)
    case _ => true
  }

  predicate PrintableItems(c: Items)
  {
    c.Item? ==> Printable(c.value) && PrintableItems(c.next)
  }

  function NestingMembers(c: Members): nat
  {
    if c.NoMember? then 0
    else if Nesting(c.value) < NestingMembers(c.next) then NestingMembers(c.next) else Nesting(c.value)
  }

  // How deep arrays and objects are nested.
  function Nesting(j: Json): nat
  {
    match j
    case Array(c) => 1 + NestingItems(c)
    case Object(c) => 1 + NestingMembers(c)
    case _ => 0
  }

  function NestingItems(c: Items): nat
  {
    if c.NoItem? then 0
    else if Nesting(c.value) < NestingItems(c.next) then NestingItems(c.next) else Nesting(c.value)
  }

  // ---- the layout of the printed text ----

  lemma ArrayLayout(c: Items, format: bool, depth: nat)
    ensures Printed(Array(c), format, depth) == [0x5B] + PrintedItems(c, format, depth + 1) + [0x5D]
  {
    hide PrintedItems;
  }

  lemma PrintedItemsIs(c: Items, format: bool, depth: nat)
    requires c.Item?
    ensures PrintedItems(c, format, depth) ==
      Printed(c.value, format, depth) + If(c.next.Item?, ItemSeparator(format)) + PrintedItems(c.next, format, depth)
    ensures PrintedItems(NoItem, format, depth) == []
  {
    hide Printed;
  }

  // A comma between two, and a space behind it when the text is formatted.
  lemma ItemLayout(a: Json, next: Items, format: bool, depth: nat)
    ensures var m, r := PrintedItems(Item(a, next), format, depth), PrintedItems(next, format, depth);
      var x := Printed(a, format, depth);
      && (next.NoItem? ==> m == x && r == [])
      && (next.Item? && format ==> m == x + [0x2C, 0x20] + r)
      && (next.Item? && !format ==> m == x + [0x2C] + r)
  {
    hide Printed, PrintedItems;
    PrintedItemsIs(Item(a, next), format, depth);
    assert [COMMA] + [SPACE] == [0x2C, 0x20] && [COMMA] + [] == [0x2C];
  }

  lemma PrintedMembersIs(c: Members, format: bool, depth: nat)
    requires c.Member?
    ensures PrintedMembers(c, format, depth) ==
      (If(format, Tabs(depth)) + Quoted(c.key) + [COLON] + If(format, [TAB]))
      + (Printed(c.value, format, depth) + If(c.next.Member?, [COMMA]) + If(format, [NEWLINE]))
      + PrintedMembers(c.next, format, depth)
  {
  }

  lemma ObjectLayout(c: Members, format: bool, depth: nat)
    ensures Printed(Object(c), format, depth) ==
      if format then [0x7B, 0x0A] + PrintedMembers(c, format, depth + 1) + Tabs(depth) + [0x7D]
      else [0x7B] + PrintedMembers(c, format, depth + 1) + [0x7D]
  {
    hide PrintedMembers, Tabs;
  }

  lemma NothingPrinted(format: bool, depth: nat)
    ensures PrintedMembers(NoMember, format, depth) == []
  {
  }

  lemma MemberCases(q: seq<byte>, x: seq<byte>, t: seq<byte>, r: seq<byte>)
    ensures (t + q + [COLON] + [TAB]) + (x + [COMMA] + [NEWLINE]) + r == t + q + [0x3A, 0x09] + x + [0x2C, 0x0A] + r
    ensures (t + q + [COLON] + [TAB]) + (x + [] + [NEWLINE]) + [] == t + q + [0x3A, 0x09] + x + [0x0A]
    ensures ([] + q + [COLON] + []) + (x + [COMMA] + []) + r == q + [0x3A] + x + [0x2C] + r
    ensures ([] + q + [COLON] + []) + (x + [] + []) + [] == q + [0x3A] + x
  {
  }

  // Formatted: a line for each member, with a tab for each level in front and one
  // behind the colon.  Else only the colon and the comma.
  lemma MemberLayout(k: seq<byte>, a: Json, next: Members, format: bool, depth: nat)
    ensures var m, r := PrintedMembers(Member(k, a, next), format, depth), PrintedMembers(next, format, depth);
      var q, x := Quoted(k), Printed(a, format, depth);
      && (format && next.Member? ==> m == Tabs(depth) + q + [0x3A, 0x09] + x + [0x2C, 0x0A] + r)
      && (format && next.NoMember? ==> m == Tabs(depth) + q + [0x3A, 0x09] + x + [0x0A])
      && (!format && next.Member? ==> m == q + [0x3A] + x + [0x2C] + r)
      && (!format && next.NoMember? ==> m == q + [0x3A] + x)
  {
    hide PrintedMembers, Printed, Quoted, Tabs;
    PrintedMembersIs(Member(k, a, next), format, depth);
    NothingPrinted(format, depth);
    MemberCases(Quoted(k), Printed(a, format, depth), Tabs(depth), PrintedMembers(next, format, depth));
  }

  // ---- the printed text as a text of the grammar ----

  function NewLine(format: bool, depth: nat): seq<byte> { If(format, [NEWLINE]) + If(format, Tabs(depth)) }

  // The line breaks in front of each entry and behind the last.
  function EntriesFor(c: Members, format: bool, depth: nat): Entries
    requires depth > 0
  {
    match c
    case NoMember => NoEntry
    case Member(key, v, next) =>
      Entry(NewLine(format, depth), UnitsOf(key), [], If(format, [TAB]), TermOf(v, format, depth),
            if next.Member? then [] else NewLine(format, depth - 1), EntriesFor(next, format, depth))
  }

  function TermOf(j: Json, format: bool, depth: nat): Term
  {
    match j
    case Null => NullWord
    case False => FalseWord
    case True => TrueWord
    case Number(n) => Integer(n < 0, DigitsOf(if n < 0 then -n else n))
    case Text(t) => Str(UnitsOf(t))
    case Array(c) => List([], ElementsFor(c, [], format, depth + 1))
    case Object(c) => Dict(NewLine(format, depth), EntriesFor(c, format, depth + 1))
  }

  function ElementsFor(c: Items, before: seq<byte>, format: bool, depth: nat): Elements
  {
    match c
    case NoItem => NoElement
    case Item(v, next) =>
      Element(before, TermOf(v, format, depth), [], ElementsFor(next, If(format, [SPACE]), format, depth))
  }

  lemma NoItems(format: bool, indent: nat)
    ensures PrintedItems(NoItem, format, indent) == []
  {
  }

  lemma ElementsStep(c: Items, before: seq<byte>, format: bool, depth: nat)
    requires c.Item?
    ensures var next := ElementsFor(c.next, If(format, [SPACE]), format, depth);
      SpellElements(ElementsFor(c, before, format, depth)) ==
        before + SpellTerm(TermOf(c.value, format, depth)) + [] + If(c.next.Item?, [COMMA]) + SpellElements(next)
  {
    hide Printed, SpellTerm, TermOf;
  }

  lemma Separated(before: seq<byte>, v: seq<byte>, w: seq<byte>, r: seq<byte>)
    ensures before + v + [] + [COMMA] + (w + r) == before + (v + ([COMMA] + w) + r)
    ensures before + v + [] + [] + [] == before + (v + [] + [])
  {
  }

  lemma QuotedSpells(t: seq<byte>)
    ensures AllProper(UnitsOf(t)) && SpellText(UnitsOf(t)) == Quoted(t) && MeaningAll(UnitsOf(t)) == t
  {
    UnitsOfAre(t);
  }

  lemma EntriesStep(c: Members, format: bool, depth: nat)
    requires c.Member? && depth > 0
    ensures var next := EntriesFor(c.next, format, depth);
      SpellEntries(EntriesFor(c, format, depth)) ==
        NewLine(format, depth) + SpellText(UnitsOf(c.key)) + [] + [COLON] + If(format, [TAB])
        + SpellTerm(TermOf(c.value, format, depth)) + (if c.next.Member? then [] else NewLine(format, depth - 1))
        + If(c.next.Member?, [COMMA]) + SpellEntries(next)
  {
    hide SpellTerm, SpellText, TermOf, NewLine;
  }

  lemma LinesRegrouped(nl: seq<byte>, t: seq<byte>, q: seq<byte>, tab: seq<byte>, v: seq<byte>, r: seq<byte>,
                       u: seq<byte>)
    ensures (nl + t) + q + [] + [COLON] + tab + v + [] + [COMMA] + (nl + r + u)
      == nl + ((t + q + [COLON] + tab) + (v + [COMMA] + nl) + r) + u
    ensures (nl + t) + q + [] + [COLON] + tab + v + (nl + u) + [] + []
      == nl + ((t + q + [COLON] + tab) + (v + [] + nl) + []) + u
  {
  }

  lemma NothingSpelled(format: bool, depth: nat)
    requires depth > 0
    ensures SpellEntries(EntriesFor(NoMember, format, depth)) == []
  {
  }

  lemma {:induction false} EntriesSpell(c: Members, format: bool, depth: nat)
    requires depth > 0 && c.Member?
    ensures SpellEntries(EntriesFor(c, format, depth)) ==
      If(format, [NEWLINE]) + PrintedMembers(c, format, depth) + If(format, Tabs(depth - 1))
    decreases c
  {
    hide Printed, PrintedMembers, SpellTerm, SpellEntries, SpellText, Quoted, TermOf, EntriesFor, Tabs;
    var nl, q, tab, v := If(format, [NEWLINE]), Quoted(c.key), If(format, [TAB]), Printed(c.value, format, depth);
    var t, u := If(format, Tabs(depth)), If(format, Tabs(depth - 1));
    PrintedMembersIs(c, format, depth);
    EntriesStep(c, format, depth);
    QuotedSpells(c.key);
    TermSpells(c.value, format, depth);
    if c.next.Member? {
      EntriesSpell(c.next, format, depth);
      LinesRegrouped(nl, t, q, tab, v, PrintedMembers(c.next, format, depth), u);
    } else {
      NothingPrinted(format, depth);
      NothingSpelled(format, depth);
      LinesRegrouped(nl, t, q, tab, v, [], u);
    }
  }

  lemma ArraySpells(c: Items, format: bool, depth: nat)
    requires SpellElements(ElementsFor(c, [], format, depth + 1)) == PrintedItems(c, format, depth + 1)
    ensures SpellTerm(TermOf(Array(c), format, depth)) == Printed(Array(c), format, depth)
  {
    hide SpellElements, PrintedItems;
    NoItems(format, depth + 1);
  }

  lemma ObjectPrinted(c: Members, format: bool, depth: nat)
    ensures Printed(Object(c), format, depth) ==
      [OPEN_OBJECT] + (If(format, [NEWLINE]) + PrintedMembers(c, format, depth + 1) + If(format, Tabs(depth)))
      + [CLOSE_OBJECT]
  {
    hide PrintedMembers, Tabs;
  }

  lemma DictSpelled(w: seq<byte>, c: Entries)
    ensures SpellTerm(Dict(w, c)) == [OPEN_OBJECT] + (if c.NoEntry? then w else SpellEntries(c)) + [CLOSE_OBJECT]
  {
    hide SpellEntries;
  }

  lemma ObjectSpells(c: Members, format: bool, depth: nat)
    requires c.Member? ==>
      SpellEntries(EntriesFor(c, format, depth + 1)) ==
        If(format, [NEWLINE]) + PrintedMembers(c, format, depth + 1) + If(format, Tabs(depth))
    ensures SpellTerm(TermOf(Object(c), format, depth)) == Printed(Object(c), format, depth)
  {
    hide SpellEntries, PrintedMembers, Tabs, SpellTerm, Printed;
    NothingPrinted(format, depth + 1);
    NothingSpelled(format, depth + 1);
    ObjectPrinted(c, format, depth);
    DictSpelled(NewLine(format, depth), EntriesFor(c, format, depth + 1));
    if c.NoMember? {
      assert If(format, [NEWLINE]) + [] + If(format, Tabs(depth)) == NewLine(format, depth);
    }
  }

  lemma {:induction false} TermSpells(j: Json, format: bool, depth: nat)
    ensures SpellTerm(TermOf(j, format, depth)) == Printed(j, format, depth)
    decreases j
  {
    hide SpellElements, SpellEntries, PrintedItems, PrintedMembers, Tabs, SpellText, Quoted;
    match j
    case Array(c) =>
      ElementsSpell(c, [], format, depth + 1);
      NoItems(format, depth + 1);
      ArraySpells(c, format, depth);
    case Object(c) =>
      if c.Member? {
        EntriesSpell(c, format, depth + 1);
      }
      ObjectSpells(c, format, depth);
    case Text(t) => QuotedSpells(t);
    case _ =>
  }

  lemma {:induction false} ElementsSpell(c: Items, before: seq<byte>, format: bool, depth: nat)
    ensures SpellElements(ElementsFor(c, before, format, depth)) ==
      if c.NoItem? then [] else before + PrintedItems(c, format, depth)
    decreases c
  {
    if c.Item? {
      hide Printed, PrintedItems, SpellTerm, SpellElements, TermOf, ElementsFor;
      ElementsStep(c, before, format, depth);
      PrintedItemsIs(c, format, depth);
      TermSpells(c.value, format, depth);
      ElementsSpell(c.next, If(format, [SPACE]), format, depth);
      NoItems(format, depth);
      Separated(before, Printed(c.value, format, depth), If(format, [SPACE]), PrintedItems(c.next, format, depth));
    }
  }

  // ---- numbers ----

  lemma {:induction false} DigitsValue(n: nat)
    ensures DecValue(DigitsOf(n)) == n
  {
    var d := DigitsOf(n);
    if n < 10 {
      assert d[..0] == [];
    } else {
      DigitsValue(n / 10);
      assert d[..|d| - 1] == DigitsOf(n / 10);
    }
  }

  function Pow10(k: nat): nat { if k == 0 then 1 else 10 * Pow10(k - 1) }

  lemma {:induction false} DigitsLength(n: nat, k: nat, bound: nat)
    requires bound == Pow10(k) && n < bound && k > 0
    ensures |DigitsOf(n)| <= k
    decreases k
  {
    if n >= 10 {
      DigitsLength(n / 10, k - 1, Pow10(k - 1));
    }
  }

  lemma IntLength(n: int)
    requires INT_MIN <= n <= INT_MAX
    ensures |IntText(n)| <= 11
  {
    assert Pow10(5) == 100000;
    assert Pow10(10) == 10000000000 by {
      assert Pow10(8) == 1000 * Pow10(5);
    }
    DigitsLength(if n < 0 then -n else n, 10, Pow10(10));
  }

  lemma IntegerFor(n: int, format: bool, depth: nat)
    requires INT_MIN <= n <= INT_MAX
    ensures var t := TermOf(Number(n), format, depth); Fine(t) && TreeOf(t) == Number(n)
  {
    IntLength(n);
    DigitsValue(if n < 0 then -n else n);
  }

  lemma NewLineWhite(format: bool, depth: nat)
    ensures White(NewLine(format, depth)) && White(If(format, [SPACE])) && White(If(format, [TAB]))
  {
  }

  lemma NoneWhite()
    ensures White([])
  {
  }

  lemma {:induction false} EntriesMean(c: Members, format: bool, depth: nat)
    requires PrintableMembers(c) && depth > 0
    ensures var e := EntriesFor(c, format, depth);
      FineEntries(e) && MembersOf(e) == c && DepthEntries(e) == NestingMembers(c)
    decreases c
  {
    hide Fine, TreeOf, TermOf, Depth, Nesting, Printable, NewLine, White, UnitsOf, AllProper, MeaningAll;
    if c.Member? {
      NewLineWhite(format, depth);
      NewLineWhite(format, depth - 1);
      NoneWhite();
      QuotedSpells(c.key);
      NulFreeIsCString(c.key);
      TermMeans(c.value, format, depth);
      EntriesMean(c.next, format, depth);
    }
  }

  // It stands for the tree.
  lemma {:induction false} TermMeans(j: Json, format: bool, depth: nat)
    requires Printable(j)
    ensures var t := TermOf(j, format, depth); Fine(t) && TreeOf(t) == j && Depth(t) == Nesting(j)
    decreases j
  {
    match j
    case Number(n) => IntegerFor(n, format, depth);
    case Text(t) =>
      QuotedSpells(t);
      NulFreeIsCString(t);
    case Array(c) => ElementsMean(c, [], format, depth + 1);
    case Object(c) =>
      NewLineWhite(format, depth);
      EntriesMean(c, format, depth + 1);
    case _ =>
  }

  lemma {:induction false} ElementsMean(c: Items, before: seq<byte>, format: bool, depth: nat)
    requires PrintableItems(c) && White(before)
    ensures var e := ElementsFor(c, before, format, depth);
      FineElements(e) && ItemsOf(e) == c && DepthElements(e) == NestingItems(c)
    decreases c
  {
    hide Fine, TreeOf, TermOf, Depth, Nesting, Printable;
    if c.Item? {
      NewLineWhite(format, depth);
      TermMeans(c.value, format, depth);
      ElementsMean(c.next, If(format, [SPACE]), format, depth);
    }
  }

  // ---- parse of print ----

  lemma IntParses(s: seq<byte>, o: nat, n: int)
    requires INT_MIN <= n <= INT_MAX && TextAt(s, o, IntText(n))
    requires o + |IntText(n)| < |s| && !IsNumberChar(s[o + |IntText(n)|])
    ensures ParseNumber(s, o) == Ok(Number(n), o + |IntText(n)|)
    ensures s[o] == MINUS || IsDigit(s[o])
  {
    hide ParseNumber, Fine, TreeOf, SpellTerm, TextAt, DigitsOf, IsNumberChar;
    IntegerFor(n, false, 0);
    TermSpells(Number(n), false, 0);
    IntegerParses(s, o, TermOf(Number(n), false, 0));
  }

  lemma QuotedParses(s: seq<byte>, o: nat, t: seq<byte>)
    requires NulFree(t) && TextAt(s, o, Quoted(t))
    ensures ParseText(s, o) == Ok(t, o + |Quoted(t)|) && s[o] == QUOTE && o < |s|
  {
    hide ParseText;
    QuotedSpells(t);
    TextParses(s, o, UnitsOf(t));
    NulFreeIsCString(t);
  }

  lemma PrintedStarts(j: Json, format: bool, depth: nat)
    ensures Printed(j, format, depth) != [] && Printed(j, format, depth)[0] > 32
    ensures Printed(j, format, depth)[0] != CLOSE_ARRAY
  {
    if j.Number? && j.value >= 0 {
      assert IsDigit(DigitsOf(j.value)[0]);
    }
  }

  lemma ArrayParses(s: seq<byte>, o: nat, c: Items, format: bool, indent: nat, depth: nat)
    requires PrintableItems(c) && TextAt(s, o, Printed(Array(c), format, indent)) && o < |s| && s[o] == OPEN_ARRAY
    requires depth + 1 + NestingItems(c) <= NESTING_LIMIT
    ensures ParseArray(s, o, depth) == Ok(Array(c), o + |Printed(Array(c), format, indent)|)
  {
    hide Printed, TextAt, SpellTerm, Fine, TreeOf, ParseArray;
    TermSpells(Array(c), format, indent);
    TermMeans(Array(c), format, indent);
    ListParses(s, o, TermOf(Array(c), format, indent), depth);
  }

  lemma ObjectParses(s: seq<byte>, o: nat, c: Members, format: bool, indent: nat, depth: nat)
    requires PrintableMembers(c) && TextAt(s, o, Printed(Object(c), format, indent)) && o < |s| && s[o] == OPEN_OBJECT
    requires depth + 1 + NestingMembers(c) <= NESTING_LIMIT
    ensures ParseObject(s, o, depth) == Ok(Object(c), o + |Printed(Object(c), format, indent)|)
  {
    hide Printed, TextAt, SpellTerm, Fine, TreeOf, ParseObject;
    TermSpells(Object(c), format, indent);
    TermMeans(Object(c), format, indent);
    DictParses(s, o, TermOf(Object(c), format, indent), depth);
  }

  lemma PrintedParses(s: seq<byte>, o: nat, j: Json, format: bool, indent: nat, depth: nat)
    requires Printable(j) && TextAt(s, o, Printed(j, format, indent)) && Ended(s, o + |Printed(j, format, indent)|)
    requires depth + Nesting(j) <= NESTING_LIMIT
    ensures ParseValue(s, o, depth) == Ok(j, o + |Printed(j, format, indent)|)
  {
    hide Printed, TextAt, SpellTerm, Fine, TreeOf, ParseValue;
    TermSpells(j, format, indent);
    TermMeans(j, format, indent);
    TermParses(s, o, TermOf(j, format, indent), depth);
  }

  // cJSON_Parse of a printed text, with the NUL behind it that the program
  // counts in: the same tree, and the position just past the value.
  lemma ParsePrinted(j: Json, format: bool)
    requires Printable(j) && Nesting(j) <= NESTING_LIMIT
    ensures var t := Printed(j, format, 0);
      ParseValue(t + [0], Skip(t + [0], 0), 0) == Ok(j, |t|)
  {
    var t := Printed(j, format, 0);
    PrintedStarts(j, format, 0);
    SkipNone(t + [0], 0);
    assert (t + [0])[0..0 + |t|] == t;
    PrintedParses(t + [0], 0, j, format, 0, 0);
  }
}
