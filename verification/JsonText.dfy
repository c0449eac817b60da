// JSON trees, the text the printer makes of them, and the parser as a function.
module JsonText {
  import opened Lists
  import opened JsonUtf8
  import opened JsonString

  datatype Items = NoItem | Item(value: Json, next: Items)

  datatype Members = NoMember | Member(key: seq<byte>, value: Json, next: Members)

  // Children are linked siblings, as in the program.
  datatype Json =
    | Null
    | False
    | True
    | Number(value: int)
    | Text(text: seq<byte>)
    | Array(items: Items)
    | Object(members: Members)

  const NESTING_LIMIT: nat := 1000
  const INT_MAX: int := 0x7FFF_FFFF
  const INT_MIN: int := -0x8000_0000
  const NULL: seq<byte> := [0x6E, 0x75, 0x6C, 0x6C]
  const FALSE: seq<byte> := [0x66, 0x61, 0x6C, 0x73, 0x65]
  const TRUE: seq<byte> := [0x74, 0x72, 0x75, 0x65]
  const COMMA: byte := 0x2C
  const COLON: byte := 0x3A
  const MINUS: byte := 0x2D
  const OPEN_ARRAY: byte := 0x5B
  const CLOSE_ARRAY: byte := 0x5D
  const OPEN_OBJECT: byte := 0x7B
  const CLOSE_OBJECT: byte := 0x7D
  const NEWLINE: byte := 0x0A
  const TAB: byte := 0x09
  const SPACE: byte := 0x20

  // ---- printing ----

  predicate IsDigit(c: byte) { 0x30 <= c <= 0x39 }

  function DigitsOf(n: nat): (d: seq<byte>)
    ensures d != [] && forall k :: 0 <= k < |d| ==> IsDigit(d[k])
  {
    if n < 10 then [0x30 + n] else DigitsOf(n / 10) + [0x30 + n % 10]
  }

  function IntText(n: int): (d: seq<byte>)
    ensures d != []
  {
    if n < 0 then [MINUS] + DigitsOf(-n) else DigitsOf(n)
  }

  function Quoted(t: seq<byte>): seq<byte> { [QUOTE] + Escaped(t) + [QUOTE] }

  function If(b: bool, t: seq<byte>): seq<byte> { if b then t else [] }

  function Tabs(n: nat): (t: seq<byte>)
    ensures |t| == n && forall k :: 0 <= k < n ==> t[k] == TAB
  {
    seq(n, _ => TAB)
  }

  function ItemSeparator(format: bool): seq<byte> { [COMMA] + If(format, [SPACE]) }

  function PrintedItems(c: Items, format: bool, depth: nat): seq<byte>
  {
    match c
    case NoItem => []
    case Item(v, next) =>
      Printed(v, format, depth) + If(next.Item?, ItemSeparator(format)) + PrintedItems(next, format, depth)
  }

  function PrintedMembers(c: Members, format: bool, depth: nat): seq<byte>
  {
    match c
    case NoMember => []
    case Member(key, v, next) =>
      (If(format, Tabs(depth)) + Quoted(key) + [COLON] + If(format, [TAB]))
      + (Printed(v, format, depth) + If(next.Member?, [COMMA]) + If(format, [NEWLINE]))
      + PrintedMembers(next, format, depth)
  }

  // The text of a value; depth is the number of arrays and objects around it.
  function Printed(j: Json, format: bool, depth: nat): seq<byte>
  {
    match j
    case Null => NULL
    case False => FALSE
    case True => TRUE
    case Number(n) => IntText(n)
    case Text(t) => Quoted(t)
    case Array(c) => [OPEN_ARRAY] + PrintedItems(c, format, depth + 1) + [CLOSE_ARRAY]
    case Object(c) =>
      [OPEN_OBJECT] + If(format, [NEWLINE]) + PrintedMembers(c, format, depth + 1) + If(format, Tabs(depth))
      + [CLOSE_OBJECT]
  }

  // ---- parsing ----

  datatype Parsed<T> = Fail | Ok(value: T, off: nat)

  predicate IsNumberChar(c: byte)
  {
    IsDigit(c) || c == 0x2B || c == MINUS || c == 0x65 || c == 0x45 || c == 0x2E
  }

  // The first position at or after o that does not hold white space.
  function PastWhite(s: seq<byte>, o: nat): (p: nat)
    requires o <= |s|
    ensures o <= p <= |s|
    decreases |s| - o
  {
    if o < |s| && s[o] <= 32 then PastWhite(s, o + 1) else o
  }

  // buffer_skip_whitespace; it steps back from the end of the text.
  function Skip(s: seq<byte>, o: nat): (p: nat)
    requires o <= |s|
    ensures o <= p <= |s|
  {
    if o == |s| then o
    else
      var p := PastWhite(s, o);
      if p == |s| then p - 1 else p
  }

  function CString(t: seq<byte>): seq<byte>
  {
    if t == [] || t[0] == 0 then [] else [t[0]] + CString(t[1..])
  }

  function ParseText(s: seq<byte>, o: nat): (r: Parsed<seq<byte>>)
    requires o <= |s|
    ensures r.Ok? ==> o < r.off <= |s|
  {
    if o == |s| || s[o] != QUOTE then Fail
    else
      var end := StringEnd(s, o + 1);
      if end.None? then Fail
      else
        var t := Unescaped(s, o + 1, end.value);
        if t.None? then Fail else Ok(CString(t.value), end.value + 1)
  }

  // How many bytes from o on are number characters, up to limit.
  function NumberSpan(s: seq<byte>, o: nat, limit: nat): (n: nat)
    requires o <= |s|
    ensures n <= limit && o + n <= |s|
    decreases limit
  {
    if limit == 0 || o == |s| || !IsNumberChar(s[o]) then 0 else 1 + NumberSpan(s, o + 1, limit - 1)
  }

  function DigitSpan(t: seq<byte>): (n: nat)
    ensures n <= |t| && forall k :: 0 <= k < n ==> IsDigit(t[k])
  {
    if t == [] || !IsDigit(t[0]) then 0 else 1 + DigitSpan(t[1..])
  }

  function DigitOf(c: byte): nat
    requires IsDigit(c)
  {
    c - 0x30
  }

  function DecValue(d: seq<byte>): nat
    requires forall k :: 0 <= k < |d| ==> IsDigit(d[k])
  {
    if d == [] then 0 else 10 * DecValue(d[..|d| - 1]) + DigitOf(d[|d| - 1])
  }

  function Saturated(n: int): int
  {
    if n >= INT_MAX then INT_MAX else if n <= INT_MIN then INT_MIN else n
  }

  // The number text of at most 63 bytes at o.  Only integers are modelled: a
  // text with a fraction or an exponent fails.
  function ParseNumber(s: seq<byte>, o: nat): (r: Parsed<Json>)
    requires o <= |s|
    ensures r.Ok? ==> o < r.off <= |s|
  {
    var t := s[o..o + NumberSpan(s, o, 63)];
    var sign := if t != [] && t[0] == MINUS then 1 else 0;
    var n := DigitSpan(t[sign..]);
    if n == 0 then Fail
    else if sign + n < |t| && (t[sign + n] == 0x2E || t[sign + n] == 0x65 || t[sign + n] == 0x45) then Fail
    else
      var v: int := DecValue(t[sign..][..n]);
      Ok(Number(Saturated(if sign == 1 then -v else v)), o + sign + n)
  }

  // The elements behind position o, which holds what stands before the first.
  function ParseItems(s: seq<byte>, o: nat, depth: nat): (r: Parsed<Items>)
    requires o < |s|
    ensures r.Ok? ==> o < r.off <= |s|
    decreases |s| - o, 1
  {
    var v := ParseValue(s, Skip(s, o + 1), depth);
    if v.Fail? then Fail
    else
      var p := Skip(s, v.off);
      if p < |s| && s[p] == COMMA then
        var r := ParseItems(s, p, depth);
        if r.Fail? then Fail else Ok(Item(v.value, r.value), r.off)
      else if p == |s| || s[p] != CLOSE_ARRAY then Fail
      else Ok(Item(v.value, NoItem), p + 1)
  }

  function ParseArray(s: seq<byte>, o: nat, depth: nat): (r: Parsed<Json>)
    requires o < |s| && s[o] == OPEN_ARRAY
    ensures r.Ok? ==> o < r.off <= |s|
    decreases |s| - o, 2
  {
    if depth >= NESTING_LIMIT then Fail
    else
      var p := Skip(s, o + 1);
      if p < |s| && s[p] == CLOSE_ARRAY then Ok(Array(NoItem), p + 1)
      else if p == |s| then Fail
      else
        var r := ParseItems(s, p - 1, depth + 1);
        if r.Fail? then Fail else Ok(Array(r.value), r.off)
  }

  function ParseMembers(s: seq<byte>, o: nat, depth: nat): (r: Parsed<Members>)
    requires o < |s|
    ensures r.Ok? ==> o < r.off <= |s|
    decreases |s| - o, 1
  {
    var k := ParseText(s, Skip(s, o + 1));
    if k.Fail? then Fail
    else
      var c := Skip(s, k.off);
      if c == |s| || s[c] != COLON then Fail
      else
        var v := ParseValue(s, Skip(s, c + 1), depth);
        if v.Fail? then Fail
        else
          var p := Skip(s, v.off);
          if p < |s| && s[p] == COMMA then
            var r := ParseMembers(s, p, depth);
            if r.Fail? then Fail else Ok(Member(k.value, v.value, r.value), r.off)
          else if p == |s| || s[p] != CLOSE_OBJECT then Fail
          else Ok(Member(k.value, v.value, NoMember), p + 1)
  }

  function ParseObject(s: seq<byte>, o: nat, depth: nat): (r: Parsed<Json>)
    requires o < |s| && s[o] == OPEN_OBJECT
    ensures r.Ok? ==> o < r.off <= |s|
    decreases |s| - o, 2
  {
    if depth >= NESTING_LIMIT then Fail
    else
      var p := Skip(s, o + 1);
      if p < |s| && s[p] == CLOSE_OBJECT then Ok(Object(NoMember), p + 1)
      else if p == |s| then Fail
      else
        var r := ParseMembers(s, p - 1, depth + 1);
        if r.Fail? then Fail else Ok(Object(r.value), r.off)
  }

  function ParseValue(s: seq<byte>, o: nat, depth: nat): (r: Parsed<Json>)
    requires o <= |s|
    ensures r.Ok? ==> o < r.off <= |s|
    decreases |s| - o, 3
  {
    if TextAt(s, o, NULL) then Ok(Null, o + 4)
    else if TextAt(s, o, FALSE) then Ok(False, o + 5)
    else if TextAt(s, o, TRUE) then Ok(True, o + 4)
    else if o == |s| then Fail
    else if s[o] == QUOTE then
      var r := ParseText(s, o);
      if r.Fail? then Fail else Ok(Text(r.value), r.off)
    else if s[o] == MINUS || IsDigit(s[o]) then ParseNumber(s, o)
    else if s[o] == OPEN_ARRAY then ParseArray(s, o, depth)
    else if s[o] == OPEN_OBJECT then ParseObject(s, o, depth)
    else Fail
  }
}
