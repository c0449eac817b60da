// The printer: a growing buffer, and the functions that write a tree into it.
module JsonPrinter {
  import opened Lists
  import opened JsonUtf8
  import opened JsonString
  import opened JsonText
  import opened JsonRoundTrip

  function KeyText(c: Members, format: bool, depth: nat): seq<byte>
    requires c.Member?
  {
    If(format, Tabs(depth)) + Quoted(c.key) + ([COLON] + If(format, [TAB]))
  }

  lemma EscapedNone()
    ensures Escaped([]) == []
  {
  }

  lemma EscapedStep(t: seq<byte>, i: nat)
    requires i < |t|
    ensures Escaped(t[..i + 1]) == Escaped(t[..i]) + Escape(t[i])
    ensures |Escaped(t[i..])| == |Escape(t[i])| + |Escaped(t[i + 1..])|
  {
    assert t[..i + 1] == t[..i] + [t[i]] && t[i..][1..] == t[i + 1..];
    EscapedConcat(t[..i], [t[i]]);
    assert Escaped([t[i]]) == Escape(t[i]) + Escaped([t[i]][1..]);
  }

  function MemberText(c: Members, format: bool, depth: nat): seq<byte>
    requires c.Member?
  {
    (If(format, Tabs(depth)) + Quoted(c.key) + [COLON] + If(format, [TAB]))
    + (Printed(c.value, format, depth) + If(c.next.Member?, [COMMA]) + If(format, [NEWLINE]))
  }

  lemma MemberParts(pre: seq<byte>, m: Members, format: bool, depth: nat)
    requires m.Member?
    ensures var k, v := KeyText(m, format, depth), Printed(m.value, format, depth);
      var last := If(m.next.Member?, [COMMA]) + If(format, [NEWLINE]);
      && pre + k + v + last == pre + MemberText(m, format, depth)
      && |MemberText(m, format, depth)| == |k| + |v| + |last|
  {
    hide Printed, Quoted, Tabs;
  }

  lemma ObjectText(c: Members, format: bool, depth: nat)
    ensures Printed(Object(c), format, depth) ==
      [OPEN_OBJECT] + If(format, [NEWLINE]) + PrintedMembers(c, format, depth + 1)
      + (If(format, Tabs(depth)) + [CLOSE_OBJECT])
  {
  }

  lemma MembersText(c: Members, format: bool, depth: nat)
    requires c.Member?
    ensures PrintedMembers(c, format, depth) == MemberText(c, format, depth) + PrintedMembers(c.next, format, depth)
  {
  }

  lemma NoMembers(format: bool, depth: nat)
    ensures PrintedMembers(NoMember, format, depth) == []
  {
  }

  lemma ArrayText(c: Items, format: bool, depth: nat)
    ensures Printed(Array(c), format, depth) == [OPEN_ARRAY] + PrintedItems(c, format, depth + 1) + [CLOSE_ARRAY]
  {
  }

  function ItemPart(c: Items, format: bool, depth: nat): seq<byte>
    requires c.Item?
  {
    Printed(c.value, format, depth) + If(c.next.Item?, ItemSeparator(format))
  }

  lemma ItemText(c: Items, format: bool, depth: nat)
    requires c.Item?
    ensures PrintedItems(c, format, depth) == ItemPart(c, format, depth) + PrintedItems(c.next, format, depth)
  {
  }

  lemma Regrouped(pre: seq<byte>, d: seq<byte>, m: seq<byte>, rest: seq<byte>)
    ensures pre + d + m == pre + (d + m)
    ensures d + (m + rest) == (d + m) + rest
    ensures d + [] == d
  {
  }

  lemma {:induction false} EscapedNulFree(t: seq<byte>)
    ensures NulFree(Escaped(t)) && NulFree(Quoted(t))
  {
    if t != [] {
      EscapedNulFree(t[1..]);
    }
  }

  lemma {:induction false} ItemsNulFree(c: Items, format: bool, depth: nat)
    ensures NulFree(PrintedItems(c, format, depth))
    decreases c
  {
    if c.Item? {
      PrintedNulFree(c.value, format, depth);
      ItemsNulFree(c.next, format, depth);
    }
  }

  lemma {:induction false} MembersNulFree(c: Members, format: bool, depth: nat)
    ensures NulFree(PrintedMembers(c, format, depth))
    decreases c
  {
    if c.Member? {
      EscapedNulFree(c.key);
      PrintedNulFree(c.value, format, depth);
      MembersNulFree(c.next, format, depth);
    }
  }

  lemma {:induction false} PrintedNulFree(j: Json, format: bool, depth: nat)
    ensures NulFree(Printed(j, format, depth))
    decreases j
  {
    match j
    case Text(t) => EscapedNulFree(t);
    case Array(c) => ItemsNulFree(c, format, depth + 1);
    case Object(c) => MembersNulFree(c, format, depth + 1);
    case _ =>
  }

  class PrintBuffer {
    var buffer: array<byte>
    var offset: nat
    var depth: nat

    const noalloc: bool
    const format: bool

    predicate Valid()
      reads this`buffer, this`offset
    {
      buffer.Length <= INT_MAX && (offset < buffer.Length || (offset == 0 && buffer.Length == 0))
    }

    constructor (size: nat, noalloc: bool, format: bool)
      requires size <= INT_MAX
      ensures Valid() && fresh(buffer) && buffer.Length == size && offset == 0 && depth == 0
      ensures this.noalloc == noalloc && this.format == format
    {
      buffer := new byte[size];
      offset, depth := 0, 0;
      this.noalloc, this.format := noalloc, format;
    }

    // The most bytes the buffer can come to hold.
    function Cap(): int
      reads this`buffer
    {
      if noalloc then buffer.Length else INT_MAX
    }

    // pre is written and counted in the offset.
    ghost predicate Has(pre: seq<byte>)
      reads this`buffer, this`offset, buffer
    {
      Valid() && offset == |pre| && offset <= buffer.Length && buffer[..offset] == pre
    }

    // pre and t are written, and a NUL behind them; the offset is in t.
    ghost predicate Wrote(pre: seq<byte>, t: seq<byte>)
      reads this`buffer, this`offset, buffer
    {
      && Valid() && |pre| <= offset <= |pre| + |t| < buffer.Length
      && buffer[..|pre| + |t|] == pre + t && buffer[|pre| + |t|] == 0
    }

    // Room for needed more bytes, and one more.
    method Ensure(needed: nat) returns (ok: bool)
      requires buffer.Length <= INT_MAX && (buffer.Length == 0 ==> offset == 0)
      modifies this`buffer
      ensures buffer == old(buffer) || fresh(buffer)
      ensures ok <==> (old(buffer.Length) == 0 || offset < old(buffer.Length)) && offset + needed + 1 <= old(Cap())
      ensures ok ==> offset + needed < buffer.Length <= INT_MAX && offset <= old(buffer.Length)
      ensures ok ==> buffer[..offset] == old(buffer[..offset])
      ensures noalloc || !ok ==> buffer == old(buffer)
    {
      if buffer.Length > 0 && offset >= buffer.Length {
        return false;
      }
      if needed > INT_MAX {
        return false;
      }
      var total := needed + offset + 1;
      if total <= buffer.Length {
        return true;
      }
      if noalloc {
        return false;
      }
      var newsize;
      if total > INT_MAX / 2 {
        if total <= INT_MAX {
          newsize := INT_MAX;
        } else {
          return false;
        }
      } else {
        newsize := total * 2;
      }
      var newbuffer := new byte[newsize];
      var i := 0;
      while i < offset
        invariant 0 <= i <= offset && newbuffer.Length == newsize
        invariant newbuffer[..i] == buffer[..i]
        modifies newbuffer
      {
        newbuffer[i] := buffer[i];
        i := i + 1;
      }
      buffer := newbuffer;
      return true;
    }

    // Steps over the text that was written last.
    method UpdateOffset(ghost pre: seq<byte>, ghost t: seq<byte>)
      requires Wrote(pre, t) && NulFree(t)
      modifies this`offset
      ensures Has(pre + t)
    {
      var n := 0;
      while buffer[offset + n] != 0
        invariant offset + n <= |pre| + |t|
        invariant forall k :: offset <= k < |pre| + |t| ==> buffer[k] == (pre + t)[k] && buffer[k] != 0
        decreases |pre| + |t| - offset - n
        modifies {}
      {
        n := n + 1;
      }
      assert buffer[offset + n] == buffer[..|pre| + |t| + 1][offset + n];
      offset := offset + n;
    }

    // Writes t and a NUL at the offset, and leaves the offset.
    method Put(t: seq<byte>, ghost pre: seq<byte>)
      requires Has(pre) && offset + |t| < buffer.Length
      modifies buffer
      ensures Wrote(pre, t)
    {
      var i := 0;
      while i < |t|
        invariant 0 <= i <= |t|
        invariant buffer[..|pre| + i] == pre + t[..i]
      {
        buffer[offset + i] := t[i];
        i := i + 1;
      }
      buffer[offset + i] := 0;
      assert t[..i] == t;
    }

    method CountExtra(t: seq<byte>) returns (extra: nat)
      ensures extra == Extra(t)
    {
      extra := 0;
      var i := 0;
      while i < |t|
        invariant 0 <= i <= |t| && extra + Extra(t[i..]) == Extra(t)
      {
        assert t[i..][1..] == t[i + 1..];
        extra := extra + ExtraOf(t[i]);
        i := i + 1;
      }
      assert t[i..] == [];
    }

    method PutEscape(b: byte, at: nat, ghost before: seq<byte>) returns (p: nat)
      requires at + |Escape(b)| <= buffer.Length && buffer[..at] == before && |before| == at
      modifies buffer
      ensures p == at + |Escape(b)| && buffer[..p] == before + Escape(b)
    {
      p := at;
      if b > 31 && b != QUOTE && b != BACKSLASH {
        buffer[p] := b;
      } else {
        buffer[p] := BACKSLASH;
        p := p + 1;
        if ShortEscape(b).Some? {
          buffer[p] := ShortEscape(b).value;
        } else {
          buffer[p], buffer[p + 1], buffer[p + 2], buffer[p + 3], buffer[p + 4] :=
            0x75, 0x30, 0x30, HexChar(b / 16), HexChar(b % 16);
          p := p + 4;
        }
      }
      p := p + 1;
    }

    // Writes byte after byte, each escaped; the closing quote goes where the
    // length computed before says.
    method PutEscaped(t: seq<byte>, ghost pre: seq<byte>, length: nat)
      requires Has(pre) && length == |Escaped(t)| && offset + length + 2 < buffer.Length
      modifies buffer
      ensures Wrote(pre, Quoted(t))
    {
      hide Escape, Escaped;
      buffer[offset] := QUOTE;
      var i, p := 0, offset + 1;
      EscapedNone();
      assert t[..0] == [] && t[0..] == t;
      assert buffer[..p] == pre + [QUOTE] + Escaped([]);
      while i < |t|
        invariant 0 <= i <= |t| && p == offset + 1 + |Escaped(t[..i])|
        invariant |Escaped(t[..i])| + |Escaped(t[i..])| == length
        invariant buffer[..p] == pre + [QUOTE] + Escaped(t[..i])
      {
        ghost var done := Escaped(t[..i]);
        EscapedStep(t, i);
        p := PutEscape(t[i], p, pre + [QUOTE] + done);
        i := i + 1;
      }
      assert t[..i] == t;
      buffer[offset + length + 1] := QUOTE;
      buffer[offset + length + 2] := 0;
      assert buffer[..|pre| + |Quoted(t)|] == pre + Quoted(t);
    }

    // print_string_ptr: the length is computed first, then written.
    method WriteString(t: seq<byte>, ghost pre: seq<byte>) returns (ok: bool)
      requires Has(pre) && NulFree(t)
      modifies this`buffer, buffer
      ensures buffer == old(buffer) || fresh(buffer)
      ensures noalloc ==> buffer == old(buffer)
      ensures ok <==> |pre| + |Quoted(t)| + 2 <= old(Cap())
      ensures ok ==> Wrote(pre, Quoted(t))
    {
      var extra := CountExtra(t);
      EscapedLength(t);
      var length := |t| + extra;
      ok := Ensure(length + 3);
      if !ok {
        return;
      }
      if extra == 0 {
        Put(Quoted(t), pre);
      } else {
        PutEscaped(t, pre, length);
      }
    }

    // print_number, for integers: the offset is moved here already.
    method WriteNumber(n: int, ghost pre: seq<byte>) returns (ok: bool)
      requires Has(pre)
      modifies this`buffer, this`offset, buffer
      ensures buffer == old(buffer) || fresh(buffer)
      ensures noalloc ==> buffer == old(buffer)
      ensures ok <==> |pre| + |IntText(n)| + 2 <= old(Cap())
      ensures ok ==> Wrote(pre, IntText(n))
    {
      var t := IntText(n);
      ok := Ensure(|t| + 1);
      if ok {
        Put(t, pre);
        offset := offset + |t|;
      }
    }

    method WriteLiteral(t: seq<byte>, ghost pre: seq<byte>) returns (ok: bool)
      requires Has(pre)
      modifies this`buffer, buffer
      ensures buffer == old(buffer) || fresh(buffer)
      ensures noalloc ==> buffer == old(buffer)
      ensures ok <==> |pre| + |t| + 2 <= old(Cap())
      ensures ok ==> Wrote(pre, t)
    {
      ok := Ensure(|t| + 1);
      if ok {
        Put(t, pre);
      }
    }

    // Writes t, and counts it; a NUL goes behind it.
    method Append(t: seq<byte>, ghost pre: seq<byte>) returns (ok: bool)
      requires Has(pre)
      modifies this`buffer, this`offset, buffer
      ensures buffer == old(buffer) || fresh(buffer)
      ensures noalloc ==> buffer == old(buffer)
      ensures ok <==> |pre| + |t| + 2 <= old(Cap())
      ensures ok ==> Has(pre + t)
    {
      ok := Ensure(|t| + 1);
      if ok {
        Put(t, pre);
        offset := offset + |t|;
      }
    }

    // Writes t without a NUL, in room for needed bytes, and counts it.
    method Add(t: seq<byte>, needed: nat, ghost pre: seq<byte>) returns (ok: bool)
      requires Has(pre) && |t| <= needed
      modifies this`buffer, this`offset, buffer
      ensures buffer == old(buffer) || fresh(buffer)
      ensures noalloc ==> buffer == old(buffer)
      ensures ok <==> |pre| + needed + 1 <= old(Cap())
      ensures ok ==> Has(pre + t)
    {
      ok := Ensure(needed);
      if ok {
        var i := 0;
        while i < |t|
          invariant 0 <= i <= |t| && buffer[..|pre| + i] == pre + t[..i]
          modifies buffer
        {
          buffer[offset + i] := t[i];
          i := i + 1;
        }
        assert t[..i] == t;
        offset := offset + |t|;
      }
    }

    lemma Widen(a: seq<byte>, b: seq<byte>, c: seq<byte>)
      requires Wrote(a + b, c)
      ensures Wrote(a, b + c)
    {
      assert a + (b + c) == a + b + c;
    }

    // One element, and the comma behind it unless it is the last.
    method WriteItem(c: Items, ghost pre: seq<byte>) returns (ok: bool)
      requires Has(pre) && c.Item? && PrintableItems(c)
      modifies this`buffer, this`offset, this`depth, buffer
      ensures buffer == old(buffer) || fresh(buffer)
      ensures noalloc ==> buffer == old(buffer)
      ensures !ok ==> |pre| + |ItemPart(c, format, old(depth))| + 2 > old(Cap())
      ensures ok ==> |pre| + |ItemPart(c, format, old(depth))| + 2 <= old(Cap())
      ensures ok ==> Has(pre + ItemPart(c, format, depth)) && depth == old(depth)
      decreases c, 1
    {
      hide Printed, Has, Wrote, NulFree;
      ghost var v := Printed(c.value, format, depth);
      Regrouped(pre, v, If(c.next.Item?, ItemSeparator(format)), []);
      ok := WriteValue(c.value, pre);
      if !ok {
        return;
      }
      PrintedNulFree(c.value, format, depth);
      UpdateOffset(pre, v);
      if c.next.Item? {
        ok := Append(ItemSeparator(format), pre + v);
      }
    }

    method WriteArray(c: Items, ghost pre: seq<byte>) returns (ok: bool)
      requires Has(pre) && PrintableItems(c)
      modifies this`buffer, this`offset, this`depth, buffer
      ensures buffer == old(buffer) || fresh(buffer)
      ensures noalloc ==> buffer == old(buffer)
      ensures ok <==> |pre| + |Printed(Array(c), format, old(depth))| + 2 <= old(Cap())
      ensures ok ==> Wrote(pre, Printed(Array(c), format, depth)) && depth == old(depth)
      decreases c, 2
    {
      hide Printed, PrintedItems, Wrote, Has, ItemPart, PrintBuffer.Valid, Printable;
      ghost var d, all := [OPEN_ARRAY], PrintedItems(c, format, depth + 1);
      ArrayText(c, format, depth);
      ok := Add([OPEN_ARRAY], 1, pre);
      if !ok {
        return;
      }
      depth := depth + 1;
      var item := c;
      assert [OPEN_ARRAY] + all == d + all;
      while item.Item?
        invariant PrintableItems(item) && Has(pre + d) && depth == old(depth) + 1
        invariant [OPEN_ARRAY] + all == d + PrintedItems(item, format, depth)
        invariant buffer == old(buffer) || fresh(buffer)
        invariant noalloc ==> buffer == old(buffer)
        invariant item == c || item < c
        decreases item
      {
        ItemText(item, format, depth);
        ghost var m := ItemPart(item, format, depth);
        ok := WriteItem(item, pre + d);
        if !ok {
          return;
        }
        Regrouped(pre, d, m, PrintedItems(item.next, format, depth));
        d := d + m;
        item := item.next;
      }
      NoItems(format, depth);
      assert d + [] == d;
      ok := WriteLiteral([CLOSE_ARRAY], pre + d);
      if !ok {
        return;
      }
      depth := depth - 1;
      Widen(pre, d, [CLOSE_ARRAY]);
    }

    // The tabs, the key and the colon of a member.
    method WriteKey(m: Members, ghost pre: seq<byte>) returns (ok: bool)
      requires Has(pre) && m.Member? && NulFree(m.key)
      modifies this`buffer, this`offset, buffer
      ensures buffer == old(buffer) || fresh(buffer)
      ensures noalloc ==> buffer == old(buffer)
      ensures !ok ==> |pre| + |KeyText(m, format, depth)| + 2 > old(Cap())
      ensures ok ==> Has(pre + KeyText(m, format, depth))
    {
      hide Has, Wrote, Escaped, Tabs, NulFree;
      ghost var q := Quoted(m.key);
      ghost var p1 := pre + If(format, Tabs(depth));
      var colon := [COLON] + If(format, [TAB]);
      assert pre + [] == pre;
      assert p1 + q + colon == pre + KeyText(m, format, depth);
      if format {
        ok := Add(Tabs(depth), depth, pre);
        if !ok {
          return;
        }
      }
      ok := WriteString(m.key, p1);
      if !ok {
        return;
      }
      EscapedNulFree(m.key);
      UpdateOffset(p1, q);
      ok := Add(colon, |colon|, p1 + q);
    }

    // One member: tabs, key, colon, value, and what stands behind it.
    method WriteMember(m: Members, ghost pre: seq<byte>) returns (ok: bool)
      requires Has(pre) && m.Member? && PrintableMembers(m)
      modifies this`buffer, this`offset, this`depth, buffer
      ensures buffer == old(buffer) || fresh(buffer)
      ensures noalloc ==> buffer == old(buffer)
      ensures !ok ==> |pre| + |MemberText(m, format, old(depth))| + 2 > old(Cap())
      ensures ok ==> |pre| + |MemberText(m, format, old(depth))| + 1 <= old(Cap())
      ensures ok ==> Has(pre + MemberText(m, format, depth)) && depth == old(depth)
      decreases m, 1
    {
      hide Printed, Has, Wrote, MemberText, Escaped, Tabs, NulFree, Quoted;
      ghost var key, v := KeyText(m, format, depth), Printed(m.value, format, depth);
      MemberParts(pre, m, format, depth);
      ok := WriteKey(m, pre);
      if !ok {
        return;
      }
      ok := WriteValue(m.value, pre + key);
      if !ok {
        return;
      }
      PrintedNulFree(m.value, format, depth);
      UpdateOffset(pre + key, v);
      ok := Append(If(m.next.Member?, [COMMA]) + If(format, [NEWLINE]), pre + key + v);
    }

    // The loop over the members.
    method WriteMembers(c: Members, ghost pre: seq<byte>) returns (ok: bool)
      requires Has(pre) && PrintableMembers(c)
      modifies this`buffer, this`offset, this`depth, buffer
      ensures buffer == old(buffer) || fresh(buffer)
      ensures noalloc ==> buffer == old(buffer)
      ensures !ok ==> |pre| + |PrintedMembers(c, format, old(depth))| + 2 > old(Cap())
      ensures ok ==> Has(pre + PrintedMembers(c, format, depth)) && depth == old(depth)
      decreases c, 2
    {
      hide PrintedMembers, Has, MemberText;
      ghost var all, d := PrintedMembers(c, format, depth), [];
      var member := c;
      ok := true;
      assert pre + d == pre && d + all == all;
      while member.Member?
        invariant PrintableMembers(member) && Has(pre + d) && depth == old(depth) && ok
        invariant all == d + PrintedMembers(member, format, depth)
        invariant buffer == old(buffer) || fresh(buffer)
        invariant noalloc ==> buffer == old(buffer)
        invariant member == c || member < c
        decreases member
      {
        MembersText(member, format, depth);
        ghost var m := MemberText(member, format, depth);
        ok := WriteMember(member, pre + d);
        if !ok {
          return;
        }
        Regrouped(pre, d, m, PrintedMembers(member.next, format, depth));
        d := d + m;
        member := member.next;
      }
      NoMembers(format, depth);
      assert d + [] == d;
    }

    // The closing brace, with the tabs of the level outside.
    method WriteClose(ghost pre: seq<byte>) returns (ok: bool)
      requires Has(pre) && depth > 0
      modifies this`buffer, buffer
      ensures buffer == old(buffer) || fresh(buffer)
      ensures noalloc ==> buffer == old(buffer)
      ensures ok <==> |pre| + |If(format, Tabs(depth - 1)) + [CLOSE_OBJECT]| + 2 <= old(Cap())
      ensures ok ==> Wrote(pre, If(format, Tabs(depth - 1)) + [CLOSE_OBJECT])
    {
      ok := Ensure(if format then depth + 1 else 2);
      if ok {
        Put(If(format, Tabs(depth - 1)) + [CLOSE_OBJECT], pre);
      }
    }

    method WriteObject(c: Members, ghost pre: seq<byte>) returns (ok: bool)
      requires Has(pre) && PrintableMembers(c)
      modifies this`buffer, this`offset, this`depth, buffer
      ensures buffer == old(buffer) || fresh(buffer)
      ensures noalloc ==> buffer == old(buffer)
      ensures ok <==> |pre| + |Printed(Object(c), format, old(depth))| + 2 <= old(Cap())
      ensures ok ==> Wrote(pre, Printed(Object(c), format, depth)) && depth == old(depth)
      decreases c, 3
    {
      hide Printed, PrintedMembers, Wrote, Has, Tabs, MemberText;
      ghost var d, all := [OPEN_OBJECT] + If(format, [NEWLINE]), PrintedMembers(c, format, depth + 1);
      ghost var close := If(format, Tabs(depth)) + [CLOSE_OBJECT];
      ObjectText(c, format, depth);
      var open := [OPEN_OBJECT] + If(format, [NEWLINE]);
      ok := Add(open, |open| + 1, pre);
      if !ok {
        return;
      }
      depth := depth + 1;
      ok := WriteMembers(c, pre + d);
      if !ok {
        return;
      }
      Regrouped(pre, d, all, []);
      ok := WriteClose(pre + (d + all));
      if !ok {
        return;
      }
      depth := depth - 1;
      Widen(pre, d + all, close);
    }

    method WriteValue(j: Json, ghost pre: seq<byte>) returns (ok: bool)
      requires Has(pre) && Printable(j)
      modifies this`buffer, this`offset, this`depth, buffer
      ensures buffer == old(buffer) || fresh(buffer)
      ensures noalloc ==> buffer == old(buffer)
      ensures ok <==> |pre| + |Printed(j, format, old(depth))| + 2 <= old(Cap())
      ensures ok ==> Wrote(pre, Printed(j, format, depth)) && depth == old(depth)
      decreases j, 1
    {
      match j
      case Null => ok := WriteLiteral(NULL, pre);
      case False => ok := WriteLiteral(FALSE, pre);
      case True => ok := WriteLiteral(TRUE, pre);
      case Number(n) => ok := WriteNumber(n, pre);
      case Text(t) => ok := WriteString(t, pre);
      case Array(c) => ok := WriteArray(c, pre);
      case Object(c) => ok := WriteObject(c, pre);
    }
  }
}
