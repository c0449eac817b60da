// The entry points: print a tree into a fresh buffer, parse a text.
module JsonEntry {
  import opened Lists
  import opened Options
  import opened JsonUtf8
  import opened JsonString
  import opened JsonText
  import opened JsonGrammar
  import opened JsonRoundTrip
  import opened JsonPrinter
  import opened JsonParser

  const DEFAULT_BUFFER_SIZE: nat := 256

  // The copy that print hands out.
  method CopyOut(p: PrintBuffer, ghost t: seq<byte>) returns (printed: array<byte>)
    requires p.Has(t)
    ensures fresh(printed) && printed[..] == t + [0]
  {
    printed := new byte[p.offset + 1];
    var i := 0;
    while i < p.offset
      invariant 0 <= i <= p.offset && printed[..i] == p.buffer[..i]
      modifies printed
    {
      printed[i] := p.buffer[i];
      i := i + 1;
    }
    printed[p.offset] := 0;
    assert printed[..] == printed[..p.offset] + [0];
  }

  // print: the text of a tree and a NUL, in a block of just that size.
  method Print(j: Json, format: bool) returns (printed: array?<byte>)
    requires Printable(j)
    ensures printed == null || fresh(printed)
    ensures printed == null <==> |Printed(j, format, 0)| + 2 > INT_MAX
    ensures printed != null ==> printed[..] == Printed(j, format, 0) + [0]
  {
    hide Printed, PrintBuffer.Wrote, NulFree;
    var p := new PrintBuffer(DEFAULT_BUFFER_SIZE, false, format);
    assert p.buffer[..0] == [];
    var ok := p.WriteValue(j, []);
    if !ok {
      return null;
    }
    PrintedNulFree(j, format, 0);
    assert [] + Printed(j, format, 0) == Printed(j, format, 0);
    p.UpdateOffset([], Printed(j, format, 0));
    printed := CopyOut(p, Printed(j, format, 0));
  }

  // Behind the mark that some editors put in front of UTF-8 text.
  function PastBom(s: seq<byte>): (o: nat)
    ensures o <= |s|
  {
    if 4 < |s| && s[..3] == [0xEF, 0xBB, 0xBF] then 3 else 0
  }

  // cJSON_ParseWithOpts on a text and its NUL.
  function Document(s: seq<byte>, requireEnd: bool): Option<Json>
  {
    var r := ParseValue(s, Skip(s, PastBom(s)), 0);
    if r.Fail? then None
    else if !requireEnd then Some(r.value)
    else
      var q := Skip(s, r.off);
      if q >= |s| || s[q] != 0 then None else Some(r.value)
  }

  method Parse(s: seq<byte>, requireEnd: bool) returns (j: Option<Json>)
    requires Terminated(s)
    ensures j == Document(s, requireEnd)
  {
    hide JsonText.ParseValue;
    var p := new ParseBuffer(s);
    if 4 < |s| && s[..3] == [0xEF, 0xBB, 0xBF] {
      p.offset := 3;
    }
    SkipInside(s, p.offset);
    p.SkipWhitespace();
    var ok, v := p.ParseValue();
    if !ok {
      return None;
    }
    if requireEnd {
      SkipInside(s, p.offset);
      p.SkipWhitespace();
      if s[p.offset] != 0 {
        return None;
      }
    }
    return Some(v);
  }

  // The NUL at the end counts as white space, and the parser steps back to it.
  lemma {:induction false} WhiteToEnd(s: seq<byte>, o: nat)
    requires o <= |s| && White(s[o..])
    ensures PastWhite(s, o) == |s|
    decreases |s| - o
  {
    if o < |s| {
      assert s[o] == s[o..][0] && s[o..][1..] == s[o + 1..];
      WhiteToEnd(s, o + 1);
    }
  }

  lemma TermAscii(t: Term)
    requires Fine(t)
    ensures SpellTerm(t) != [] && SpellTerm(t)[0] < 128
  {
  }

  lemma BomOrNot(bom: bool, w: seq<byte>, t: Term, x: seq<byte>)
    requires White(w) && Fine(t)
    ensures var mark := if bom then [0xEF, 0xBB, 0xBF] else [];
      PastBom(mark + w + SpellTerm(t) + x + [0]) == |mark|
  {
    hide SpellTerm, Fine;
    TermAscii(t);
    var mark: seq<byte> := if bom then [0xEF, 0xBB, 0xBF] else [];
    var s := mark + w + SpellTerm(t) + x + [0];
    if bom {
      assert s[..3] == mark;
    } else {
      assert s[0] == if w == [] then SpellTerm(t)[0] else w[0];
      if 4 < |s| {
        assert s[..3][0] == s[0];
      }
    }
  }

  lemma At(a: seq<byte>, b: seq<byte>, c: seq<byte>)
    ensures TextAt(a + b + c, |a|, b) && (a + b + c)[|a| + |b|..] == c
  {
  }

  lemma SkipBack(s: seq<byte>, o: nat)
    requires o < |s| && PastWhite(s, o) == |s|
    ensures Skip(s, o) == |s| - 1
  {
  }

  lemma NulWhite(x: seq<byte>)
    requires White(x)
    ensures White(x + [0]) && !IsNumberChar((x + [0])[0])
  {
  }

  // Where the parts lie, and that only white space is behind the value.
  lemma PartsOf(mark: seq<byte>, w: seq<byte>, v: seq<byte>, x: seq<byte>)
    requires White(w) && White(x) && v != [] && v[0] > 32
    ensures var s, o := mark + w + v + x + [0], |mark| + |w|;
      && Skip(s, |mark|) == o && TextAt(s, o, v) && Ended(s, o + |v|) && Skip(s, o + |v|) == |s| - 1 && s[|s| - 1] == 0
  {
    hide Skip, TextAt, PastWhite, White;
    var s, o := mark + w + v + x + [0], |mark| + |w|;
    At(mark, w, v + x + [0]);
    At(mark + w, v, x + [0]);
    assert mark + w + (v + x + [0]) == s && mark + w + v + (x + [0]) == s;
    Before(s, |mark|, w, v);
    assert s[o + |v|] == (x + [0])[0];
    NulWhite(x);
    WhiteToEnd(s, o + |v|);
    SkipBack(s, o + |v|);
  }

  // A text of the grammar with white space and a byte order mark or not, and its
  // NUL: a document of its tree, whether or not the end is demanded, unless it is
  // nested deeper than 1000 levels.
  lemma DocumentOfTerm(bom: bool, w: seq<byte>, t: Term, x: seq<byte>, requireEnd: bool)
    requires White(w) && Fine(t) && White(x)
    ensures var mark := if bom then [0xEF, 0xBB, 0xBF] else [];
      Document(mark + w + SpellTerm(t) + x + [0], requireEnd) == if Depth(t) <= 1000 then Some(TreeOf(t)) else None
  {
    hide SpellTerm, Fine, TreeOf, Depth, JsonText.ParseValue, Skip, TextAt, PastBom, White;
    var mark: seq<byte> := if bom then [0xEF, 0xBB, 0xBF] else [];
    var s := mark + w + SpellTerm(t) + x + [0];
    BomOrNot(bom, w, t, x);
    TermStarts(t);
    PartsOf(mark, w, SpellTerm(t), x);
    TermParses(s, |mark| + |w|, t, 0);
  }

  // The text of a tree parses to that tree, whether or not the end of the text
  // is demanded behind it.
  lemma DocumentOfPrinted(j: Json, format: bool, requireEnd: bool)
    requires Printable(j) && Nesting(j) <= NESTING_LIMIT
    ensures Document(Printed(j, format, 0) + [0], requireEnd) == Some(j)
  {
    hide Printed, TermOf, Document;
    TermSpells(j, format, 0);
    TermMeans(j, format, 0);
    DocumentOfTerm(false, [], TermOf(j, format, 0), [], requireEnd);
    assert [] + [] + Printed(j, format, 0) + [] + [0] == Printed(j, format, 0) + [0];
  }

  // Printing and parsing back, as a program would call them.
  method PrintThenParse(j: Json, format: bool) returns (back: Option<Json>)
    requires Printable(j) && Nesting(j) <= NESTING_LIMIT && |Printed(j, format, 0)| + 2 <= INT_MAX
    ensures back == Some(j)
  {
    var text := Print(j, format);
    DocumentOfPrinted(j, format, true);
    back := Parse(text[..], true);
  }
}
