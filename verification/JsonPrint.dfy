/** Printing a JSON value into a buffer that grows when needed, or must do as it is. */
module JsonPrint {
  import opened Bytes
  import opened JsonText

  /** t put over b from position p on. */
  function Put(b: Text, p: nat, t: Text): (r: Text)
    requires p + |t| <= |b|
    ensures |r| == |b| && r[..p] == b[..p] && r[p..p + |t|] == t
  {
    b[..p] + t + b[p + |t|..]
  }

  class PrintBuffer {
    var buffer: Text
    var offset: nat
    var depth: nat
    const noalloc: bool
    const format: bool

    /** A buffer with the given bytes to begin with. */
    constructor (buffer: Text, noalloc: bool, format: bool)
      requires |buffer| <= INT_MAX
      ensures Valid() && offset == 0 && depth == 0 && this.buffer == buffer && this.noalloc == noalloc &&
        this.format == format
    {
      this.buffer, offset, depth, this.noalloc, this.format := buffer, 0, 0, noalloc, format;
    }

    ghost predicate Valid()
      reads this
    {
      |buffer| <= INT_MAX && (offset < |buffer| || (offset == 0 && buffer == []))
    }

    /** How large the buffer may become. */
    ghost function Limit(): nat
      reads this
    {
      if noalloc then |buffer| else INT_MAX
    }

    /** The text in the buffer, zero-terminated, is t; the offset has perhaps not come to its end yet. */
    ghost predicate Ends(t: Text)
      reads `buffer, `offset
    {
      offset <= |t| < |buffer| && buffer[..|t|] == t && buffer[|t|] == 0 && NulFree(t[offset..])
    }

    /** ensure: makes room for some bytes behind the offset and one more. */
    method Ensure(needed: nat) returns (ok: bool)
      requires Valid()
      modifies `buffer
      ensures Valid() && Limit() == old(Limit())
      ensures ok <==> offset + needed + 1 <= Limit()
      ensures ok ==> offset + needed + 1 <= |buffer| && buffer[..offset] == old(buffer[..offset])
    {
      if |buffer| > 0 && offset >= |buffer| {
        return false;
      }
      if needed > INT_MAX {
        return false;
      }
      var n := needed + offset + 1;
      if n <= |buffer| {
        return true;
      }
      if noalloc {
        return false;
      }
      var newsize;
      if n > INT_MAX / 2 {
        if n <= INT_MAX {
          newsize := INT_MAX;
        } else {
          return false;
        }
      } else {
        newsize := n * 2;
      }
      var more := new byte[newsize - |buffer|];
      buffer := buffer + more[..];
      ok := true;
    }

    /** Bytes written at some position inside the buffer. */
    method Store(p: nat, t: Text)
      requires p + |t| <= |buffer|
      modifies `buffer
      ensures buffer == Put(old(buffer), p, t)
    {
      buffer := Put(buffer, p, t);
    }

    /** update_offset: moves the offset to the end of the text. */
    method UpdateOffset(ghost t: Text)
      requires Valid() && Ends(t)
      modifies `offset
      ensures Valid() && Ends(t) && offset == |t|
    {
      var n := offset;
      while buffer[n] != 0
        invariant offset <= n <= |t|
        decreases |t| - n
      {
        n := n + 1;
      }
      offset := n;
    }

    /** Some bytes go to the end, and the offset behind them. */
    method Append(t: Text, needed: nat, terminate: bool) returns (ok: bool)
      requires Valid() && |t| <= needed
      modifies `buffer, `offset
      ensures Valid() && Limit() == old(Limit())
      ensures ok <==> old(offset) + needed + 1 <= Limit()
      ensures ok ==> offset == old(offset) + |t| && buffer[..offset] == old(buffer[..offset]) + t
    {
      ok := Ensure(needed);
      if ok {
        var u := if terminate then t + [0] else t;
        Store(offset, u);
        assert buffer[..offset + |t|] == buffer[..offset] + u[..|t|] by {
          Joined(buffer, 0, offset, offset + |t|);
          SliceSlice(buffer, offset, offset + |u|, 0, |t|);
        }
        offset := offset + |t|;
      }
    }

    /** The last bytes of a value and a terminator; the offset is left to be updated. */
    method Close(t: Text, needed: nat) returns (ok: bool)
      requires Valid() && |t| <= needed && NulFree(t)
      modifies `buffer
      ensures Valid() && Limit() == old(Limit())
      ensures ok <==> offset + needed + 1 <= Limit()
      ensures ok ==> Ends(old(buffer[..offset]) + t)
    {
      ok := Ensure(needed);
      if ok {
        Store(offset, t + [0]);
        assert buffer[offset..offset + |t| + 1][|t|] == 0;
        assert buffer[..offset + |t|] == buffer[..offset] + t by {
          Joined(buffer, 0, offset, offset + |t|);
          SliceSlice(buffer, offset, offset + |t| + 1, 0, |t|);
        }
      }
    }

    /** print_number, for integers. */
    method PrintNumber(n: int) returns (ok: bool)
      requires Valid() && INT_MIN <= n <= INT_MAX
      modifies `buffer, `offset
      ensures Valid() && Limit() == old(Limit())
      ensures ok <==> old(offset) + |Decimal(n)| + 2 <= Limit()
      ensures ok ==> Ends(old(buffer[..offset]) + Decimal(n))
    {
      hide Decimal;
      DecimalFacts(n);
      var t := Decimal(n);
      if |t| > 25 {
        return false;
      }
      ghost var b := buffer[..offset];
      ok := Close(t, |t| + 1);
      if ok {
        offset := offset + |t|;
        assert b + t == buffer[..offset];
      }
    }

    /** How many bytes escaping adds. */
    method CountEscapes(s: Text) returns (n: nat)
      ensures |s| + n == |Escaped(s)|
    {
      n := 0;
      var i := 0;
      while i < |s|
        invariant 0 <= i <= |s| && i + n == |Escaped(s[..i])|
      {
        EscapedMore(s, i);
        var b := s[i];
        if b == QUOTE || b == BACKSLASH || b == 8 || b == 12 || b == 10 || b == 13 || b == 9 {
          n := n + 1;
        } else if b < 32 {
          n := n + 5;
        }
        i := i + 1;
      }
      assert s[..|s|] == s;
    }

    /** One byte of a string, escaped if need be. */
    method StoreEscaped(p: nat, b: byte) returns (q: nat)
      requires p + |EscapedByte(b)| < |buffer|
      modifies `buffer
      ensures |buffer| == |old(buffer)| && q == p + |EscapedByte(b)|
      ensures buffer[..q] == old(buffer[..p]) + EscapedByte(b)
    {
      if b > 31 && b != QUOTE && b != BACKSLASH {
        Store(p, [b]);
        q := p + 1;
      } else {
        var e := ShortEscape(b);
        if e != 0 {
          Store(p, [BACKSLASH, e]);
          q := p + 2;
        } else {
          var hi, lo := HexDigit(b as int / 16), HexDigit(b as int % 16);
          Store(p, [BACKSLASH, 117, 48, 48, hi, lo, 0]);
          q := p + 6;
          assert buffer[p..p + 7][..6] == [BACKSLASH, 117, 48, 48, hi, lo];
          SliceSlice(buffer, p, p + 7, 0, 6);
        }
      }
      Joined(buffer, 0, p, q);
    }

    /** print_string_ptr: the second pass writes exactly as many bytes as the first has counted. */
    method PrintString(s: Text) returns (ok: bool)
      requires Valid() && NulFree(s)
      modifies `buffer
      ensures Valid() && Limit() == old(Limit())
      ensures ok <==> offset + |Quoted(s)| + 2 <= Limit()
      ensures ok ==> Ends(old(buffer[..offset]) + Quoted(s))
    {
      hide Escaped, EscapedByte, PrintBuffer.Ends;
      var n := CountEscapes(s);
      var length := |s| + n;
      ok := Ensure(length + 3);
      if !ok {
        return;
      }
      QuotedNulFree(s);
      if n == 0 {
        EscapedSame(s);
        Store(offset, [QUOTE] + s + [QUOTE, 0]);
        assert [QUOTE] + s + [QUOTE, 0] == Quoted(s) + [0];
        Settled(old(buffer[..offset]), Quoted(s));
      } else {
        Store(offset, [QUOTE]);
        StoreAll(s, offset + 1);
        Store(offset + length + 1, [QUOTE, 0]);
        QuotedParts(old(buffer[..offset]), s);
      }
    }

    /** The loop of the second pass. */
    method StoreAll(s: Text, start: nat)
      requires start + |Escaped(s)| < |buffer|
      modifies `buffer
      ensures |buffer| == |old(buffer)| && buffer[..start + |Escaped(s)|] == old(buffer[..start]) + Escaped(s)
    {
      var i, p := 0, start;
      while i < |s|
        invariant 0 <= i <= |s| && |buffer| == |old(buffer)| && start <= p && p == start + |Escaped(s[..i])|
        invariant p <= |buffer| && buffer[..p] == old(buffer[..start]) + Escaped(s[..i])
      {
        EscapedMore(s, i);
        EscapedShorter(s, i + 1);
        p := StoreEscaped(p, s[i]);
        i := i + 1;
      }
      assert s[..|s|] == s;
    }

    /** What was stored behind the offset, with its terminator. */
    lemma Settled(b: Text, t: Text)
      requires Valid() && offset == |b| && |b| + |t| + 1 <= |buffer| && buffer[..|b|] == b && NulFree(t)
      requires buffer[|b|..|b| + |t| + 1] == t + [0]
      ensures Ends(b + t)
    {
      assert buffer[|b|..|b| + |t| + 1][|t|] == 0;
      Joined(buffer, 0, |b|, |b| + |t|);
      SliceSlice(buffer, |b|, |b| + |t| + 1, 0, |t|);
    }

    lemma QuotedParts(b: Text, s: Text)
      requires Valid() && offset == |b| && NulFree(Quoted(s))
      requires |b| + |Escaped(s)| + 3 <= |buffer|
      requires buffer[..|b| + 1 + |Escaped(s)|] == b + [QUOTE] + Escaped(s)
      requires buffer[|b| + 1 + |Escaped(s)|..|b| + |Escaped(s)| + 3] == [QUOTE, 0]
      ensures Ends(b + Quoted(s))
    {
      hide Escaped;
      var e := |b| + 1 + |Escaped(s)|;
      Joined(buffer, 0, e, e + 1);
      assert buffer[e] == buffer[e..e + 2][0] == QUOTE;
      assert buffer[e + 1] == buffer[e..e + 2][1] == 0;
      assert buffer[..e + 1] == b + Quoted(s);
    }

    /** print_value: succeeds exactly when two bytes more than the text find room. */
    method PrintValue(v: Value) returns (ok: bool)
      requires Valid() && Good(v)
      modifies this
      ensures Valid() && Limit() == old(Limit())
      ensures ok <==> old(offset) + |Printed(v, format, old(depth))| + 2 <= Limit()
      ensures ok ==> depth == old(depth) && Ends(old(buffer[..offset]) + Printed(v, format, old(depth)))
      decreases v, 3
    {
      match v {
        case Null => ok := Close(NULL_TEXT, 5);
        case False => ok := Close(FALSE_TEXT, 6);
        case True => ok := Close(TRUE_TEXT, 5);
        case Number(_, n) => ok := PrintNumber(n);
        case String(s) => ok := PrintString(s);
        case Array(_) => ok := PrintArray(v);
        case Object(_) => ok := PrintObject(v);
      }
    }

    method PrintArray(v: Value) returns (ok: bool)
      requires Valid() && v.Array? && Good(v)
      modifies this
      ensures Valid() && Limit() == old(Limit())
      ensures ok <==> old(offset) + |Printed(v, format, old(depth))| + 2 <= Limit()
      ensures ok ==> depth == old(depth) && Ends(old(buffer[..offset]) + Printed(v, format, old(depth)))
      decreases v, 2
    {
      hide Printed, ItemsText, PrintBuffer.Ends;
      ghost var b, d := buffer[..offset], depth + 1;
      ghost var full := b + Printed(v, format, depth);
      ArrayText(b, v, format, depth);
      ok := Append([OPEN_BRACKET], 1, false);
      if !ok {
        return;
      }
      depth := depth + 1;
      var i := 0;
      while i < |v.items|
        invariant 0 <= i <= |v.items| && Valid() && depth == d && Limit() == old(Limit())
        invariant full == buffer[..offset] + (ItemsText(v, i, format, d) + [CLOSE_BRACKET])
      {
        ok := PrintItem(v, i, full);
        if !ok {
          return;
        }
        i := i + 1;
      }
      ItemsEnd(v, format, d);
      ok := Close([CLOSE_BRACKET], 2);
      depth := depth - 1;
    }

    /** One element and what separates it from the next. */
    method PrintItem(v: Value, i: nat, ghost full: Text) returns (ok: bool)
      requires Valid() && v.Array? && Good(v) && i < |v.items|
      requires full == buffer[..offset] + (ItemsText(v, i, format, depth) + [CLOSE_BRACKET])
      modifies this
      ensures Valid() && Limit() == old(Limit())
      ensures if ok then
        depth == old(depth) && full == buffer[..offset] + (ItemsText(v, i + 1, format, depth) + [CLOSE_BRACKET])
        else |full| + 2 > Limit()
      decreases v, 1
    {
      hide Printed, ItemsText, PrintBuffer.Ends;
      ghost var b, t := buffer[..offset], Printed(v.items[i], format, depth);
      ItemsStep(b, v, i, format, depth);
      ok := PrintValue(v.items[i]);
      if !ok {
        return;
      }
      UpdateOffset(b + t);
      EndsText(b + t);
      if i + 1 < |v.items| {
        var length := if format then 2 else 1;
        ok := Append([COMMA] + Optional(format, SPACE), length + 1, true);
      }
    }

    lemma EndsText(t: Text)
      requires Ends(t) && offset == |t|
      ensures buffer[..offset] == t
    {
    }

    method PrintObject(v: Value) returns (ok: bool)
      requires Valid() && v.Object? && Good(v)
      modifies this
      ensures Valid() && Limit() == old(Limit())
      ensures ok <==> old(offset) + |Printed(v, format, old(depth))| + 2 <= Limit()
      ensures ok ==> depth == old(depth) && Ends(old(buffer[..offset]) + Printed(v, format, old(depth)))
      decreases v, 2
    {
      hide Printed, MembersText, PrintBuffer.Ends, Tabs;
      ghost var b, d := buffer[..offset], depth + 1;
      ghost var full := b + Printed(v, format, depth);
      ObjectText(b, v, format, depth);
      var length := if format then 2 else 1;
      ok := Append([OPEN_BRACE] + Optional(format, NEWLINE), length + 1, false);
      if !ok {
        return;
      }
      depth := depth + 1;
      var i := 0;
      while i < |v.members|
        invariant 0 <= i <= |v.members| && Valid() && depth == d && Limit() == old(Limit())
        invariant full == buffer[..offset] + (MembersText(v, i, format, d) + (Indent(format, d - 1) + [CLOSE_BRACE]))
      {
        ok := PrintMember(v, i, full, Indent(format, d - 1) + [CLOSE_BRACE]);
        if !ok {
          return;
        }
        i := i + 1;
      }
      MembersEnd(v, format, d);
      var last := Indent(format, depth - 1) + [CLOSE_BRACE];
      LastNulFree(format, depth - 1);
      ok := Close(last, if format then depth + 1 else 2);
      depth := depth - 1;
    }

    /** The line of a member up to its value. */
    method PrintKey(name: Text) returns (ok: bool)
      requires Valid() && NulFree(name)
      modifies `buffer, `offset
      ensures Valid() && Limit() == old(Limit())
      ensures var key := Indent(format, depth) + Quoted(name) + ([COLON] + Optional(format, TAB));
        if ok then buffer[..offset] == old(buffer[..offset]) + key else old(offset) + |key| + 3 > Limit()
    {
      hide PrintBuffer.Ends, Tabs, Quoted, Indent, Optional;
      IndentLength(format, depth);
      OptionalLength(format, TAB);
      ghost var b0, t1, t2 := buffer[..offset], Indent(format, depth), Quoted(name);
      if format {
        ok := Append(Tabs(depth), depth, false);
        if !ok {
          return;
        }
      }
      ghost var b := buffer[..offset];
      assert b == b0 + t1;
      ok := PrintString(name);
      if !ok {
        return;
      }
      UpdateOffset(b + t2);
      EndsText(b + t2);
      var length := if format then 2 else 1;
      ok := Append([COLON] + Optional(format, TAB), length, false);
      assert b0 + t1 + t2 + ([COLON] + Optional(format, TAB)) == b0 + (t1 + t2 + ([COLON] + Optional(format, TAB)));
    }

    /** One member, its separator and its line end. */
    method PrintMember(v: Value, i: nat, ghost full: Text, ghost last: Text) returns (ok: bool)
      requires Valid() && v.Object? && Good(v) && i < |v.members| && last != []
      requires full == buffer[..offset] + (MembersText(v, i, format, depth) + last)
      modifies this
      ensures Valid() && Limit() == old(Limit())
      ensures if ok then depth == old(depth) && full == buffer[..offset] + (MembersText(v, i + 1, format, depth) + last)
        else |full| + 2 > Limit()
      decreases v, 1
    {
      hide Printed, MembersText, PrintBuffer.Ends, Quoted, Indent, Optional;
      var m, more := v.members[i], i + 1 < |v.members|;
      MembersPieces(buffer[..offset], v, i, format, depth, last);
      PrintedFacts(m.value, format, depth);
      ghost var key := Indent(format, depth) + Quoted(m.name) + ([COLON] + Optional(format, TAB));
      ghost var t := Printed(m.value, format, depth);
      ok := PrintKey(m.name);
      if !ok {
        return;
      }
      ghost var b := buffer[..offset];
      ok := PrintValue(m.value);
      if !ok {
        return;
      }
      UpdateOffset(b + t);
      EndsText(b + t);
      OptionalLength(format, NEWLINE);
      OptionalLength(more, COMMA);
      var length := (if format then 1 else 0) + (if more then 1 else 0);
      ok := Append(Optional(more, COMMA) + Optional(format, NEWLINE), length + 1, true);
    }
  }

  /** Some bytes nobody has set. */
  method Allocate(n: nat) returns (b: Text)
    ensures |b| == n
  {
    var a := new byte[n];
    b := a[..];
  }

  /** print: the text of a value, zero-terminated, in a buffer of its size. */
  method Print(v: Value, fmt: bool) returns (ok: bool, printed: Text)
    requires Good(v)
    ensures ok <==> |Printed(v, fmt, 0)| + 2 <= INT_MAX
    ensures ok ==> printed == Printed(v, fmt, 0) + [0]
  {
    hide Printed;
    printed := Allocate(256);
    var p := new PrintBuffer(printed, false, fmt);
    ok := p.PrintValue(v);
    if ok {
      ghost var t := [] + Printed(v, fmt, 0);
      assert t == Printed(v, fmt, 0);
      p.UpdateOffset(t);
      printed := p.buffer[..p.offset + 1];
    }
  }

  /** cJSON_PrintBuffered: the first buffer has a size chosen by the caller. */
  method PrintBuffered(v: Value, prebuffer: int, fmt: bool) returns (ok: bool, printed: Text)
    requires Good(v) && prebuffer <= INT_MAX
    ensures ok <==> prebuffer >= 0 && |Printed(v, fmt, 0)| + 2 <= INT_MAX
    ensures ok ==> Printed(v, fmt, 0) + [0] <= printed
  {
    hide Printed;
    printed := [];
    if prebuffer < 0 {
      return false, printed;
    }
    printed := Allocate(prebuffer);
    var p := new PrintBuffer(printed, false, fmt);
    ok := p.PrintValue(v);
    if ok {
      assert [] + Printed(v, fmt, 0) == Printed(v, fmt, 0);
      printed := p.buffer;
    }
  }

  /** cJSON_PrintPreallocated: two bytes more than the text are enough, and no fewer. */
  method PrintPreallocated(v: Value, buffer: Text, fmt: bool) returns (ok: bool, printed: Text)
    requires Good(v) && |buffer| <= INT_MAX
    ensures ok <==> |Printed(v, fmt, 0)| + 2 <= |buffer|
    ensures |printed| == |buffer| && (ok ==> Printed(v, fmt, 0) + [0] <= printed)
  {
    hide Printed;
    var p := new PrintBuffer(buffer, true, fmt);
    ok := p.PrintValue(v);
    printed := p.buffer;
    assert [] + Printed(v, fmt, 0) == Printed(v, fmt, 0);
  }

  /** A buffer of five bytes, enough for null and its terminator, is refused. */
  method FiveBytesForNull(buffer: Text) returns (ok: bool, printed: Text)
    requires |buffer| == 5
    ensures !ok && |Printed(Null, false, 0) + [0]| == 5
  {
    ok, printed := PrintPreallocated(Null, buffer, false);
  }

  lemma EscapedMore(s: Text, i: nat)
    requires i < |s|
    ensures Escaped(s[..i + 1]) == Escaped(s[..i]) + EscapedByte(s[i])
  {
    assert s[..i + 1] == s[..i] + [s[i]];
    EscapedAppend(s[..i], [s[i]]);
    assert Escaped([s[i]]) == EscapedByte(s[i]) + Escaped([]);
  }

  lemma EscapedShorter(s: Text, i: nat)
    requires i <= |s|
    ensures |Escaped(s[..i])| <= |Escaped(s)|
  {
    assert s == s[..i] + s[i..];
    EscapedAppend(s[..i], s[i..]);
  }

  lemma {:induction false} EscapedLonger(s: Text)
    ensures |Escaped(s)| >= |s|
  {
    if s != [] {
      EscapedLonger(s[1..]);
    }
  }

  /** Where escaping adds nothing, it changes nothing. */
  lemma {:induction false} EscapedSame(s: Text)
    requires |Escaped(s)| == |s|
    ensures Escaped(s) == s
  {
    if s != [] {
      EscapedLonger(s[1..]);
      EscapedSame(s[1..]);
    }
  }
}
