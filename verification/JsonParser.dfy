// The parser: an offset and a depth that move over a text.
module JsonParser {
  import opened Lists
  import opened Options
  import opened JsonUtf8
  import opened JsonString
  import opened JsonText
  import opened JsonRoundTrip

  // The elements vs in front of c.
  function Linked(vs: seq<Json>, c: Items): Items
  {
    if vs == [] then c else Item(vs[0], Linked(vs[1..], c))
  }

  lemma {:induction false} LinkedMore(vs: seq<Json>, v: Json, c: Items)
    ensures Linked(vs + [v], c) == Linked(vs, Item(v, c))
  {
    if vs == [] {
      assert (vs + [v])[1..] == [];
    } else {
      assert (vs + [v])[1..] == vs[1..] + [v];
      LinkedMore(vs[1..], v, c);
    }
  }

  datatype Named = Named(key: seq<byte>, value: Json)

  function Chained(vs: seq<Named>, c: Members): Members
  {
    if vs == [] then c else Member(vs[0].key, vs[0].value, Chained(vs[1..], c))
  }

  lemma {:induction false} ChainedMore(vs: seq<Named>, v: Named, c: Members)
    ensures Chained(vs + [v], c) == Chained(vs, Member(v.key, v.value, c))
  {
    if vs == [] {
      assert (vs + [v])[1..] == [];
    } else {
      assert (vs + [v])[1..] == vs[1..] + [v];
      ChainedMore(vs[1..], v, c);
    }
  }

  // What the whole list is once vs is read, when r is what the rest is.
  function After(vs: seq<Json>, r: Parsed<Items>): Parsed<Items>
  {
    if r.Fail? then Fail else Ok(Linked(vs, r.value), r.off)
  }

  function AfterNamed(vs: seq<Named>, r: Parsed<Members>): Parsed<Members>
  {
    if r.Fail? then Fail else Ok(Chained(vs, r.value), r.off)
  }

  // A text that ends in NUL, as the entry point supplies it.
  predicate Terminated(s: seq<byte>) { s != [] && s[|s| - 1] == 0 }

  // The bytes before the first NUL, read with a loop.
  method ReadCString(a: array<byte>, n: nat) returns (t: seq<byte>)
    requires n < a.Length && a[n] == 0
    ensures t == CString(a[..n])
  {
    var k := 0;
    while a[k] != 0
      invariant k <= n
      invariant CString(a[..n]) == a[..k] + CString(a[k..n])
      decreases n - k
    {
      assert a[k..n][1..] == a[k + 1..n];
      assert a[..k] + [a[k]] == a[..k + 1];
      k := k + 1;
    }
    assert CString(a[k..n]) == [];
    t := a[..k];
  }

  function ClosedNamed(s: seq<byte>, o: nat, vs: seq<Named>): Parsed<Members>
    requires o < |s|
  {
    if s[o] == CLOSE_OBJECT then Ok(Chained(vs, NoMember), o + 1) else Fail
  }

  // What is read behind a pair: more pairs, or the end of the list.
  function AfterPair(s: seq<byte>, o: nat, v: Named, depth: nat): Parsed<Members>
    requires o < |s|
  {
    if s[o] == COMMA then AfterNamed([v], ParseMembers(s, o, depth)) else ClosedNamed(s, o, [v])
  }

  lemma AfterNoName(r: Parsed<Members>)
    ensures AfterNamed([], r) == r
  {
  }

  lemma ChainedOne(v: Named, c: Members)
    ensures Chained([v], c) == Member(v.key, v.value, c)
  {
    assert [v][1..] == [];
  }

  lemma AfterMoreNamed(s: seq<byte>, o: nat, vs: seq<Named>, v: Named, r: Parsed<Members>)
    requires o < |s|
    ensures AfterNamed(vs, AfterNamed([v], r)) == AfterNamed(vs + [v], r)
    ensures AfterNamed(vs, ClosedNamed(s, o, [v])) == ClosedNamed(s, o, vs + [v])
  {
    ChainedOne(v, NoMember);
    ChainedMore(vs, v, NoMember);
    if r.Ok? {
      ChainedOne(v, r.value);
      ChainedMore(vs, v, r.value);
    }
  }

  lemma MembersUnfold(s: seq<byte>, o: nat, depth: nat)
    requires Terminated(s) && o < |s| - 1
    ensures var k := ParseText(s, Skip(s, o + 1));
      && (k.Fail? ==> ParseMembers(s, o, depth).Fail?)
      && (k.Ok? && Skip(s, k.off) < |s| ==>
            var c := Skip(s, k.off);
            && (s[c] != COLON ==> ParseMembers(s, o, depth).Fail?)
            && (s[c] == COLON ==>
                  var v := ParseValue(s, Skip(s, c + 1), depth);
                  && (v.Fail? ==> ParseMembers(s, o, depth).Fail?)
                  && (v.Ok? && Skip(s, v.off) < |s| ==>
                        var p, n := Skip(s, v.off), Named(k.value, v.value);
                        ParseMembers(s, o, depth) == AfterPair(s, p, n, depth))))
  {
    hide JsonText.ParseValue, Skip, ParseText;
    var k := ParseText(s, Skip(s, o + 1));
    if k.Ok? && Skip(s, k.off) < |s| && s[Skip(s, k.off)] == COLON {
      var v := ParseValue(s, Skip(s, Skip(s, k.off) + 1), depth);
      if v.Ok? && Skip(s, v.off) < |s| {
        var p, n := Skip(s, v.off), Named(k.value, v.value);
        ChainedOne(n, NoMember);
        if s[p] == COMMA && ParseMembers(s, p, depth).Ok? {
          ChainedOne(n, ParseMembers(s, p, depth).value);
        }
      }
    }
  }

  // A string ends in front of the NUL.
  lemma TextInside(s: seq<byte>, o: nat)
    requires Terminated(s) && o < |s| && ParseText(s, o).Ok?
    ensures ParseText(s, o).off < |s|
  {
  }

  // A list that ends here, after vs.
  function Closed(s: seq<byte>, o: nat, vs: seq<Json>): Parsed<Items>
    requires o < |s|
  {
    if s[o] == CLOSE_ARRAY then Ok(Linked(vs, NoItem), o + 1) else Fail
  }

  lemma AfterNothing(r: Parsed<Items>)
    ensures After([], r) == r
  {
  }

  lemma LinkedOne(v: Json, c: Items)
    ensures Linked([v], c) == Item(v, c)
  {
    assert [v][1..] == [];
  }

  lemma AfterMore(s: seq<byte>, o: nat, vs: seq<Json>, v: Json, r: Parsed<Items>)
    requires o < |s|
    ensures After(vs, After([v], r)) == After(vs + [v], r)
    ensures After(vs, Closed(s, o, [v])) == Closed(s, o, vs + [v])
  {
    LinkedOne(v, NoItem);
    LinkedMore(vs, v, NoItem);
    if r.Ok? {
      LinkedOne(v, r.value);
      LinkedMore(vs, v, r.value);
    }
  }

  lemma ItemsUnfold(s: seq<byte>, o: nat, depth: nat)
    requires Terminated(s) && o < |s| - 1
    ensures var v := ParseValue(s, Skip(s, o + 1), depth);
      && (v.Fail? ==> ParseItems(s, o, depth).Fail?)
      && (v.Ok? && Skip(s, v.off) < |s| ==>
            var p := Skip(s, v.off);
            ParseItems(s, o, depth) ==
              if s[p] == COMMA then After([v.value], ParseItems(s, p, depth)) else Closed(s, p, [v.value]))
  {
    hide JsonText.ParseValue, Skip;
    var v := ParseValue(s, Skip(s, o + 1), depth);
    if v.Ok? && Skip(s, v.off) < |s| {
      var p := Skip(s, v.off);
      LinkedOne(v.value, NoItem);
      if s[p] == COMMA && ParseItems(s, p, depth).Ok? {
        LinkedOne(v.value, ParseItems(s, p, depth).value);
      }
    }
  }

  lemma SkipInside(s: seq<byte>, o: nat)
    requires Terminated(s) && o < |s|
    ensures o <= Skip(s, o) < |s|
  {
  }

  // strtod on a text that starts with an integer: how much of it is digits, and
  // whether a sign stands before them.
  method IntegerPrefix(t: seq<byte>) returns (ok: bool, n: nat, sign: nat)
    ensures sign == if t != [] && t[0] == MINUS then 1 else 0
    ensures n == DigitSpan(t[sign..])
    ensures ok <==> n > 0 && !(sign + n < |t| && (t[sign + n] == 0x2E || t[sign + n] == 0x65 || t[sign + n] == 0x45))
  {
    sign := if t != [] && t[0] == MINUS then 1 else 0;
    n := DigitSpan(t[sign..]);
    ok := n > 0 && !(sign + n < |t| && (t[sign + n] == 0x2E || t[sign + n] == 0x65 || t[sign + n] == 0x45));
  }

  function Joined(t: seq<byte>, r: Option<seq<byte>>): Option<seq<byte>>
  {
    if r.None? then None else Some(t + r.value)
  }

  lemma Joined0(t: seq<byte>, r: Option<seq<byte>>)
    requires t == []
    ensures Joined(t, r) == r
  {
    if r.Some? {
      assert t + r.value == r.value;
    }
  }

  lemma JoinedMore(t: seq<byte>, b: seq<byte>, r: Option<seq<byte>>)
    ensures Joined(t, Joined(b, r)) == Joined(t + b, r)
  {
    if r.Some? {
      assert t + (b + r.value) == t + b + r.value;
    }
  }

  lemma Joined1(t: seq<byte>)
    ensures Joined(t, Some([])) == Some(t)
  {
    assert t + [] == t;
  }

  function Least(a: nat, b: nat): nat { if a < b then a else b }

  lemma {:induction false} StartsBound(s: seq<byte>, a: nat, i: nat, end: nat)
    requires a <= i <= end < |s|
    ensures Starts(s, a, i, end) <= end - i
    decreases end - i
  {
    if i < end {
      StartsBound(s, a, i + 1, end);
    }
  }

  // What is written so far leaves a byte free for the NUL.
  lemma RoomLeft(s: seq<byte>, a: nat, i: nat, end: nat, written: nat)
    requires a <= i <= end < |s|
    requires written + Starts(s, a, a, i) + a <= i
    ensures written + Starts(s, a, a, end) + a <= end
  {
    StartsSplit(s, a, a, i, end);
    StartsBound(s, a, i, end);
  }

  lemma NothingStarts(s: seq<byte>, a: nat)
    requires a <= |s|
    ensures Starts(s, a, a, a) == 0
  {
  }

  lemma PieceInside(s: seq<byte>, i: nat, end: nat)
    requires i < end < |s| && PieceAt(s, i, end).Piece?
    ensures i + PieceAt(s, i, end).length <= |s|
  {
  }

  lemma PieceRoom(s: seq<byte>, a: nat, i: nat, end: nat, written: nat)
    requires a <= i < end < |s| && !Mid(s, a, end) && PieceAt(s, i, end).Piece?
    requires written + Starts(s, a, a, i) + a <= i
    ensures var p := PieceAt(s, i, end);
      var next := Least(i + p.length, end);
      written + |p.bytes| + Starts(s, a, a, next) + a <= next && written + |p.bytes| + Starts(s, a, a, end) + a <= end
  {
    var p := PieceAt(s, i, end);
    var next := Least(i + p.length, end);
    PieceFits(s, a, i, end);
    StartsSplit(s, a, a, i, next);
    RoomLeft(s, a, next, end, written + |p.bytes|);
  }

  class ParseBuffer {
    const content: seq<byte>

    var offset: nat
    var depth: nat

    constructor (content: seq<byte>)
      ensures this.content == content && offset == 0 && depth == 0
    {
      this.content, offset, depth := content, 0, 0;
    }

    method SkipWhitespace()
      requires offset <= |content|
      modifies this`offset
      ensures offset == Skip(content, old(offset))
    {
      if offset == |content| {
        return;
      }
      while offset < |content| && content[offset] <= 32
        invariant old(offset) <= offset <= |content|
        invariant PastWhite(content, old(offset)) == PastWhite(content, offset)
      {
        offset := offset + 1;
      }
      if offset == |content| {
        offset := offset - 1;
      }
    }

    // The first pass: the closing quote and the escapes on the way to it.
    method FindEnd() returns (end: Option<nat>, skipped: nat)
      requires offset < |content|
      ensures end == StringEnd(content, offset + 1)
      ensures end.Some? ==> !Mid(content, offset + 1, end.value)
      ensures end.Some? ==> skipped == Starts(content, offset + 1, offset + 1, end.value)
    {
      var a := offset + 1;
      var e := a;
      skipped := 0;
      while e < |content| && content[e] != QUOTE
        invariant a <= e <= |content| && !Mid(content, a, e)
        invariant StringEnd(content, a) == StringEnd(content, e)
        invariant skipped == Starts(content, a, a, e)
      {
        if content[e] == BACKSLASH {
          if e + 1 >= |content| {
            return None, skipped;
          }
          StartsSplit(content, a, a, e, e + 2);
          assert Mid(content, a, e + 1);
          assert Starts(content, a, e + 1, e + 2) == 0;
          assert Starts(content, a, e, e + 2) == 1;
          skipped := skipped + 1;
          e := e + 2;
        } else {
          StartsSplit(content, a, a, e, e + 1);
          assert Starts(content, a, e, e + 1) == 0;
          e := e + 1;
        }
      }
      end := if e < |content| then Some(e) else None;
    }

    // utf16_literal_to_utf8: 0 when the literal is bad.
    method Utf16ToUtf8(output: array<byte>, at: nat, input: nat, end: nat) returns (length: nat, n: nat)
      requires input < end < |content|
      requires var p := Utf16Literal(content, input, end); p.Piece? ==> at + |p.bytes| <= output.Length
      modifies output
      ensures (length == 0) == Utf16Literal(content, input, end).Bad?
      ensures length > 0 ==>
        var p := Utf16Literal(content, input, end);
        length == p.length && n == |p.bytes| && at <= output.Length && output[..at + n] == old(output[..at]) + p.bytes
    {
      length, n := 0, 0;
      if end - input < 6 {
        return;
      }
      var first := ParseHex4(content[input + 2..input + 6]);
      if 0xDC00 <= first <= 0xDFFF {
        return;
      }
      var codepoint := first;
      var taken := 6;
      if 0xD800 <= first <= 0xDBFF {
        var second := input + 6;
        if end - second < 6 || content[second] != BACKSLASH || content[second + 1] != 0x75 {
          return;
        }
        assert second + 2 == input + 8 && second + 6 == input + 12;
        var low := ParseHex4(content[second + 2..second + 6]);
        if low < 0xDC00 || low > 0xDFFF {
          return;
        }
        JoinIsScalar(first, low);
        codepoint := Join(first, low);
        taken := 12;
      }
      n := EncodeInto(codepoint, output, at);
      length := taken;
    }

    // One element of the literal.
    method UnescapePiece(output: array<byte>, at: nat, input: nat, end: nat) returns (ok: bool, length: nat, n: nat)
      requires input < end < |content|
      requires var p := PieceAt(content, input, end); p.Piece? ==> at + |p.bytes| <= output.Length
      modifies output
      ensures ok == PieceAt(content, input, end).Piece?
      ensures ok ==>
        var p := PieceAt(content, input, end);
        length == p.length && n == |p.bytes| && at <= output.Length && output[..at + n] == old(output[..at]) + p.bytes
    {
      ok, length, n := true, 1, 1;
      if content[input] != BACKSLASH {
        output[at] := content[input];
        return;
      }
      length := 2;
      var c := content[input + 1];
      if c == 0x62 {
        output[at] := 0x08;
      } else if c == 0x66 {
        output[at] := 0x0C;
      } else if c == 0x6E {
        output[at] := 0x0A;
      } else if c == 0x72 {
        output[at] := 0x0D;
      } else if c == 0x74 {
        output[at] := 0x09;
      } else if c == QUOTE || c == BACKSLASH || c == 0x2F {
        output[at] := c;
      } else if c == 0x75 {
        length, n := Utf16ToUtf8(output, at, input, end);
        ok := length > 0;
      } else {
        ok := false;
      }
    }

    // A turn of the second pass: the element is read, and the room still lasts.
    method UnescapeTurn(output: array<byte>, end: nat, i: nat, w: nat) returns (ok: bool, input: nat, written: nat)
      requires offset + 1 <= i < end < |content| && !Mid(content, offset + 1, end)
      requires output.Length == end - offset - Starts(content, offset + 1, offset + 1, end) + 1
      requires w + Starts(content, offset + 1, offset + 1, i) + offset + 1 <= i
      modifies output
      ensures ok == PieceAt(content, i, end).Piece? && w <= output.Length
      ensures ok ==> var p := PieceAt(content, i, end);
        && input == i + p.length <= |content| && written == w + |p.bytes| <= output.Length
        && output[..written] == old(output[..w]) + p.bytes
      ensures ok ==>
        var next := Least(input, end); written + Starts(content, offset + 1, offset + 1, next) + offset + 1 <= next
    {
      hide Mid, Starts, PieceAt;
      RoomLeft(content, offset + 1, i, end, w);
      if PieceAt(content, i, end).Piece? {
        PieceInside(content, i, end);
        PieceRoom(content, offset + 1, i, end, w);
      }
      var length, n;
      ok, length, n := UnescapePiece(output, w, i, end);
      input, written := i + length, w + n;
    }

    // The second pass, over the literal that ends at end.
    method Unescape(output: array<byte>, end: nat) returns (ok: bool, input: nat, written: nat)
      requires offset + 1 <= end < |content| && !Mid(content, offset + 1, end)
      requires output.Length == end - offset - Starts(content, offset + 1, offset + 1, end) + 1
      modifies output
      ensures ok <==> Unescaped(content, offset + 1, end).Some?
      ensures ok ==> written + 1 < output.Length && output[written] == 0
      ensures ok ==> Unescaped(content, offset + 1, end) == Some(output[..written])
      ensures input <= |content|
    {
      hide Mid, PieceAt, Starts;
      var a := offset + 1;
      input, written := a, 0;
      ghost var all := Unescaped(content, a, end);
      Joined0(output[..0], all);
      NothingStarts(content, a);
      while input < end
        invariant a <= input <= |content| && written <= output.Length
        invariant written + Starts(content, a, a, Least(input, end)) + a <= Least(input, end)
        invariant all == Joined(output[..written], Unescaped(content, input, end))
      {
        ghost var p, t, i := PieceAt(content, input, end), output[..written], input;
        var was := input;
        ok, input, written := UnescapeTurn(output, end, input, written);
        if !ok {
          return ok, was, written;
        }
        JoinedMore(t, p.bytes, Unescaped(content, i + p.length, end));
      }
      RoomLeft(content, a, end, end, written);
      Joined1(output[..written]);
      output[written] := 0;
      ok := true;
    }

    // The string at the offset.  Every write of the second pass is inside the
    // block that the first pass sized.
    method ParseString() returns (ok: bool, text: seq<byte>)
      requires offset < |content|
      modifies this`offset
      ensures ok <==> ParseText(content, old(offset)).Ok?
      ensures ok ==> ParseText(content, old(offset)) == Ok(text, offset)
      ensures offset <= |content|
    {
      ok, text := false, [];
      var input := offset + 1;
      if content[offset] != QUOTE {
        offset := input;
        return;
      }
      var end, skipped := FindEnd();
      if end.None? {
        offset := input;
        return;
      }
      StartsBound(content, input, input, end.value);
      var length := end.value - offset - skipped;
      var output := new byte[length + 1];
      var written;
      ok, input, written := Unescape(output, end.value);
      if !ok {
        offset := input;
        return;
      }
      text := ReadCString(output, written);
      offset := end.value + 1;
    }

    // The bytes that may belong to a number, at most 63.
    method CopyNumber() returns (t: seq<byte>)
      requires offset <= |content|
      ensures t == content[offset..offset + NumberSpan(content, offset, 63)]
    {
      var i := 0;
      while i < 63 && offset + i < |content| && IsNumberChar(content[offset + i])
        invariant i <= 63 && offset + i <= |content|
        invariant NumberSpan(content, offset, 63) == i + NumberSpan(content, offset + i, 63 - i)
      {
        i := i + 1;
      }
      t := content[offset..offset + i];
    }

    // The integer at the front of those bytes, kept in the range of a C int.
    method ParseNumber() returns (ok: bool, j: Json)
      requires offset <= |content|
      modifies this`offset
      ensures ok <==> JsonText.ParseNumber(content, old(offset)).Ok?
      ensures ok ==> JsonText.ParseNumber(content, old(offset)) == Ok(j, offset)
      ensures offset <= |content|
    {
      hide NumberSpan, DecValue;
      j := Null;
      var t := CopyNumber();
      var n, sign;
      ok, n, sign := IntegerPrefix(t);
      if !ok {
        return;
      }
      var magnitude: int := DecValue(t[sign..][..n]);
      var number: int := if sign == 1 then -magnitude else magnitude;
      if number >= INT_MAX {
        j := Number(INT_MAX);
      } else if number <= INT_MIN {
        j := Number(INT_MIN);
      } else {
        j := Number(number);
      }
      offset := offset + sign + n;
    }

    // parse_array.
    method ParseArray() returns (ok: bool, j: Json)
      requires Terminated(content) && offset < |content| && content[offset] == OPEN_ARRAY
      modifies this`offset, this`depth
      ensures ok <==> JsonText.ParseArray(content, old(offset), old(depth)).Ok?
      ensures ok ==> JsonText.ParseArray(content, old(offset), old(depth)) == Ok(j, offset)
      ensures ok ==> depth == old(depth) && offset < |content|
      decreases |content| - offset, 2
    {
      hide JsonText.ParseItems, JsonText.ParseValue;
      ok, j := false, Array(NoItem);
      if depth >= NESTING_LIMIT {
        return;
      }
      depth := depth + 1;
      offset := offset + 1;
      SkipWhitespace();
      if content[offset] != CLOSE_ARRAY {
        offset := offset - 1;
        var vs;
        ok, vs := ParseElements();
        if !ok {
          return;
        }
        j := Array(Linked(vs, NoItem));
      }
      depth := depth - 1;
      offset := offset + 1;
      ok := true;
    }

    // A key, a colon, a value, and the white space behind it.
    method ParsePair() returns (ok: bool, v: Named)
      requires Terminated(content) && offset < |content| - 1
      modifies this`offset, this`depth
      ensures !ok ==> ParseMembers(content, old(offset), old(depth)).Fail?
      ensures ok ==> old(offset) < offset < |content| && depth == old(depth)
      ensures ok ==> ParseMembers(content, old(offset), depth) == AfterPair(content, offset, v, depth)
      decreases |content| - offset, 0
    {
      hide ParseMembers, JsonText.ParseValue, Skip, Chained, ParseText;
      v := Named([], Null);
      ghost var o := offset;
      MembersUnfold(content, o, depth);
      offset := offset + 1;
      SkipInside(content, offset);
      SkipWhitespace();
      var key;
      ok, key := ParseString();
      if !ok {
        return;
      }
      TextInside(content, Skip(content, o + 1));
      SkipInside(content, offset);
      SkipWhitespace();
      if content[offset] != COLON {
        ok := false;
        return;
      }
      offset := offset + 1;
      SkipInside(content, offset);
      SkipWhitespace();
      var j;
      ok, j := ParseValue();
      if !ok {
        return;
      }
      SkipInside(content, offset);
      SkipWhitespace();
      v := Named(key, j);
    }

    // The loop over the members; it stops at the closing brace.
    method ParsePairs() returns (ok: bool, vs: seq<Named>)
      requires Terminated(content) && offset < |content| - 1
      modifies this`offset, this`depth
      ensures ok <==> ParseMembers(content, old(offset), old(depth)).Ok?
      ensures ok ==> ParseMembers(content, old(offset), old(depth)) == Ok(Chained(vs, NoMember), offset + 1)
      ensures ok ==> depth == old(depth) && offset < |content| - 1
      decreases |content| - offset, 1
    {
      hide ParseMembers, JsonText.ParseValue, Skip, Chained, ParseText;
      vs := [];
      ghost var all := ParseMembers(content, offset, depth);
      AfterNoName(all);
      var more := true;
      while more
        invariant old(offset) <= offset < |content| && depth == old(depth)
        invariant more ==> offset < |content| - 1 && all == AfterNamed(vs, ParseMembers(content, offset, depth))
        invariant !more ==> all == ClosedNamed(content, offset, vs)
        decreases more, |content| - offset
      {
        ghost var o := offset;
        var v;
        ok, v := ParsePair();
        if !ok {
          return;
        }
        ghost var rest := if content[offset] == COMMA then ParseMembers(content, offset, depth) else Fail;
        AfterMoreNamed(content, offset, vs, v, rest);
        vs := vs + [v];
        more := content[offset] == COMMA;
      }
      ok := content[offset] == CLOSE_OBJECT;
    }

    // parse_object.
    method ParseObject() returns (ok: bool, j: Json)
      requires Terminated(content) && offset < |content| && content[offset] == OPEN_OBJECT
      modifies this`offset, this`depth
      ensures ok <==> JsonText.ParseObject(content, old(offset), old(depth)).Ok?
      ensures ok ==> JsonText.ParseObject(content, old(offset), old(depth)) == Ok(j, offset)
      ensures ok ==> depth == old(depth) && offset < |content|
      decreases |content| - offset, 2
    {
      hide JsonText.ParseMembers, JsonText.ParseValue;
      ok, j := false, Object(NoMember);
      if depth >= NESTING_LIMIT {
        return;
      }
      depth := depth + 1;
      offset := offset + 1;
      SkipWhitespace();
      if content[offset] != CLOSE_OBJECT {
        offset := offset - 1;
        var vs;
        ok, vs := ParsePairs();
        if !ok {
          return;
        }
        j := Object(Chained(vs, NoMember));
      }
      depth := depth - 1;
      offset := offset + 1;
      ok := true;
    }

    // parse_value: the value at the offset.
    method ParseValue() returns (ok: bool, j: Json)
      requires Terminated(content) && offset < |content|
      modifies this`offset, this`depth
      ensures ok <==> JsonText.ParseValue(content, old(offset), old(depth)).Ok?
      ensures ok ==> JsonText.ParseValue(content, old(offset), old(depth)) == Ok(j, offset)
      ensures ok ==> depth == old(depth) && offset < |content|
      decreases |content| - offset, 3
    {
      hide NumberSpan, DigitSpan;
      ok, j := true, Null;
      if TextAt(content, offset, NULL) {
        offset := offset + 4;
      } else if TextAt(content, offset, FALSE) {
        j := False;
        offset := offset + 5;
      } else if TextAt(content, offset, TRUE) {
        j := True;
        offset := offset + 4;
      } else if content[offset] == QUOTE {
        var text;
        ok, text := ParseString();
        j := Text(text);
      } else if content[offset] == MINUS || IsDigit(content[offset]) {
        ok, j := ParseNumber();
      } else if content[offset] == OPEN_ARRAY {
        ok, j := ParseArray();
      } else if content[offset] == OPEN_OBJECT {
        ok, j := ParseObject();
      } else {
        ok := false;
      }
    }

    // The loop over the elements; it stops at the closing bracket.
    method ParseElements() returns (ok: bool, vs: seq<Json>)
      requires Terminated(content) && offset < |content| - 1
      modifies this`offset, this`depth
      ensures ok <==> ParseItems(content, old(offset), old(depth)).Ok?
      ensures ok ==> ParseItems(content, old(offset), old(depth)) == Ok(Linked(vs, NoItem), offset + 1)
      ensures ok ==> depth == old(depth) && offset < |content| - 1
      decreases |content| - offset, 1
    {
      hide ParseItems, JsonText.ParseValue, Skip, Linked;
      vs := [];
      ghost var all := ParseItems(content, offset, depth);
      AfterNothing(all);
      var more := true;
      while more
        invariant old(offset) <= offset < |content| && depth == old(depth)
        invariant more ==> offset < |content| - 1 && all == After(vs, ParseItems(content, offset, depth))
        invariant !more ==> all == Closed(content, offset, vs)
        decreases more, |content| - offset
      {
        ghost var o := offset;
        offset := offset + 1;
        SkipInside(content, offset);
        SkipWhitespace();
        var v;
        ok, v := ParseValue();
        ItemsUnfold(content, o, old(depth));
        if !ok {
          return;
        }
        SkipInside(content, offset);
        SkipWhitespace();
        ghost var rest := if content[offset] == COMMA then ParseItems(content, offset, depth) else Fail;
        AfterMore(content, offset, vs, v, rest);
        vs := vs + [v];
        more := content[offset] == COMMA;
      }
      ok := content[offset] == CLOSE_ARRAY;
    }
  }
}
