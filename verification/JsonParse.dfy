/** The recursive parser: it reads exactly the texts of the grammar, and so whatever was printed. */
module JsonParse {
  import opened Bytes
  import opened JsonText
  import opened JsonStringParse
  import opened JsonGrammar
  import opened JsonPrint

  class ParseBuffer {
    const source: Source
    var offset: nat
    var depth: nat
    /** Has a byte behind the end of the bytes been looked at? */
    var overrun: bool

    constructor (source: Source)
      requires Sound(source)
      ensures Valid() && offset == 0 && depth == 0 && !overrun && this.source == source
    {
      this.source, offset, depth, overrun := source, 0, 0, false;
    }

    ghost predicate Valid()
      reads this
    {
      Sound(source) && depth <= NESTING_LIMIT
    }

    predicate CanAccess()
      reads `offset
    {
      offset < source.length
    }

    function Left(): nat
      reads `offset
    {
      if offset < source.length then source.length - offset else 0
    }

    /** buffer_skip_whitespace: stops at the next byte that is no blank, or else at the last byte. */
    method SkipWhitespace()
      requires source.length <= |source.content|
      modifies `offset
      ensures old(offset) >= source.length ==> offset == old(offset)
      ensures old(offset) < source.length ==>
        old(offset) <= offset < source.length && Blank(source.content, old(offset), offset)
      ensures old(offset) < source.length && source.content[offset] > 32 ==> StopsAt(source, old(offset), offset)
      ensures old(offset) < source.length ==>
        source.content[offset] > 32 ||
        (offset == source.length - 1 && Blank(source.content, old(offset), source.length))
      ensures StopsOnlyAt(source, old(offset), offset) &&
        (old(offset) >= source.length ==> OnlyBlanks(source, old(offset)))
      ensures old(offset) < source.length && Blank(source.content, old(offset), source.length) ==>
        offset == source.length - 1
    {
      if !CanAccess() {
        return;
      }
      while CanAccess() && source.content[offset] <= 32
        invariant old(offset) <= offset <= source.length && Blank(source.content, old(offset), offset)
        decreases source.length - offset
      {
        offset := offset + 1;
      }
      if offset == source.length {
        offset := offset - 1;
      }
    }

    /** parse_number: the number strtod makes of the bytes that may belong to one. */
    method ParseNumber() returns (ok: bool, item: Value)
      requires Valid() && CanAccess()
      modifies `offset
      ensures ok <==> source.strtod(NumberText(source, old(offset))).consumed > 0
      ensures ok ==> item.Number? && old(offset) < offset <= source.length
      ensures ok && (source.content[old(offset)] == MINUS || IsDigit(source.content[old(offset)])) ==>
        NumberIs(source, old(offset), item.valuedouble, item.valueint, offset)
    {
      var i := 0;
      while i < NUMBER_SIZE && offset + i < source.length && InNumber(source.content[offset + i])
        invariant 0 <= i <= NUMBER_SIZE && offset + i <= source.length && offset == old(offset)
        invariant NumberRun(source, offset, i) == NumberRun(source, offset, 0)
      {
        i := i + 1;
      }
      var number_c_string := source.content[offset..offset + i];
      assert number_c_string == NumberText(source, offset);
      var conversion := source.strtod(number_c_string);
      if conversion.consumed == 0 {
        return false, Null;
      }
      item := Number(conversion.number, Saturated(conversion.number));
      offset := offset + conversion.consumed;
      ok := true;
    }

    /** parse_string.  Behind the bytes counted no literal can end, whatever the byte looked at there is. */
    method ParseString() returns (ok: bool, text: Text)
      requires Valid() && offset <= source.length
      modifies `offset, `overrun
      ensures ok ==> offset <= source.length && LiteralIs(source.content, old(offset), text, offset)
      ensures forall t: Text, e: nat :: LiteralIs(source.content, old(offset), t, e) && e <= source.length ==>
        ok && text == t && offset == e
      ensures overrun <==> old(overrun) || old(offset) == |source.content|
    {
      ok, text := false, [];
      if offset == |source.content| {
        overrun := true;
        return;
      }
      var next;
      ok, text, next := ParseLiteral(source.content, source.length, offset);
      offset := next;
    }

    /**
     * parse_value.  It succeeds exactly when the text at the offset derives a value that is not nested too deeply, and
     * yields that value, which is the only one, and the end of its text.  A byte behind the end is looked at exactly
     * when the text breaks off behind a comma of an object.
     */
    method ParseValue() returns (ok: bool, item: Value)
      requires Valid() && !overrun
      modifies `offset, `depth, `overrun
      ensures Outcome(source, old(offset), old(depth), ok, item, offset)
      ensures ok ==> depth == old(depth) && !overrun
      ensures overrun <==> Breaks(source, old(offset), old(depth))
      decreases Left(), 4
    {
      hide Derives, Fits, Breaks, LiteralIs, StopsAt, NumberIs;
      ghost var start, d := offset, depth;
      KindOf(source, start, d);
      WordsFirst(source.content, offset);
      item := Null;
      if offset + 4 <= source.length && source.content[offset..offset + 4] == NULL_TEXT {
        offset := offset + 4;
        ok := true;
      } else if offset + 5 <= source.length && source.content[offset..offset + 5] == FALSE_TEXT {
        offset := offset + 5;
        ok, item := true, False;
      } else if offset + 4 <= source.length && source.content[offset..offset + 4] == TRUE_TEXT {
        offset := offset + 4;
        ok, item := true, True;
      } else if CanAccess() && source.content[offset] == QUOTE {
        var text;
        ok, text := ParseString();
        item := String(text);
        StringOutcome(source, start, d, ok, text, offset);
        return;
      } else if CanAccess() &&
        (source.content[offset] == MINUS || (source.content[offset] >= 48 && source.content[offset] <= 57)) {
        ok, item := ParseNumber();
        NumberOutcome(source, start, d, ok, item, offset);
        return;
      } else if CanAccess() && source.content[offset] == OPEN_BRACKET {
        ok, item := ParseArray();
        return;
      } else if CanAccess() && source.content[offset] == OPEN_BRACE {
        ok, item := ParseObject();
        return;
      } else {
        ok := false;
      }
      WordOutcome(source, start, d, ok, item, offset);
    }

    /** One element and the blanks around it. */
    method ParseElement() returns (ok: bool, item: Value, ghost at: Place)
      requires Valid() && offset <= source.length && !overrun
      modifies `offset, `depth, `overrun
      ensures ElementOutcome(source, old(offset), old(depth), ok, item, offset)
      ensures ok ==> old(offset) <= offset <= source.length && depth == old(depth) && Fits(item, depth)
      ensures ok && offset < source.length && source.content[offset] > 32 ==>
        ItemAt(source, item, old(offset), at) && at.stop == offset
      ensures overrun <==> BreaksBehind(source, old(offset), old(depth))
      ensures ok ==> !overrun
      decreases Left(), 5
    {
      hide Derives, Fits, Breaks, StopsAt, Outcome, ElementOutcome, BreaksBehind, StopsOnlyAt, Blank;
      at := Place(0, 0, 0);
      ghost var start, d := offset, depth;
      SkipWhitespace();
      ghost var from := offset;
      ok, item := ParseValue();
      ghost var end := offset;
      ElementBreaks(source, start, from, d);
      if ok {
        OutcomeMeans(source, from, d, item, end);
        SkipWhitespace();
        at := Place(from, end, offset);
        ElementEnds(source, start, from, d, item, at);
      } else {
        ElementRefused(source, start, from, d, item, offset);
      }
    }

    /** parse_array */
    method ParseArray() returns (ok: bool, item: Value)
      requires Valid() && CanAccess() && source.content[offset] == OPEN_BRACKET && !overrun
      modifies `offset, `depth, `overrun
      ensures Outcome(source, old(offset), old(depth), ok, item, offset)
      ensures ok ==> depth == old(depth) && !overrun
      ensures overrun <==> Breaks(source, old(offset), old(depth))
      decreases Left(), 3
    {
      hide Derives, Fits, Breaks, ItemsState, ItemsFollow, ItemsOpen, StopsAt, Blank, StopsOnlyAt, OnlyBlanks, Refused,
        OnlyOne;
      ghost var start, d := offset, depth;
      ok, item := false, Null;
      if depth >= NESTING_LIMIT {
        TooDeep(source, start, d);
        return;
      }
      depth := depth + 1;
      offset := offset + 1;
      var items := [];
      SkipWhitespace();
      ghost var q := offset;
      var more := !(CanAccess() && source.content[offset] == CLOSE_BRACKET);
      if more {
        if !CanAccess() {
          NoArray(source, start, d);
          offset := offset - 1;
          return;
        }
        offset := offset - 1;
      }
      ghost var read: seq<Place> := [];
      ItemsBegin(source, start, q, d, more);
      while more
        invariant Valid() && start <= offset < source.length && depth == d + 1 && !overrun
        invariant ItemsState(source, start, offset, depth, items, read, more)
        invariant ItemsFollow(source, start, offset, items, read, more) &&
          ItemsOpen(source, start, d, items, read, more)
        decreases source.length - offset, more
      {
        ok, items, more, read := ParseItem(items, start, read);
        if !ok {
          return;
        }
      }
      ItemsDone(source, start, offset, items, read, depth);
      depth := depth - 1;
      item := Array(items);
      offset := offset + 1;
      ok := true;
    }

    /** One turn of the loop of parse_array. */
    method ParseItem(items: seq<Value>, ghost start: nat, ghost read: seq<Place>)
      returns (ok: bool, items': seq<Value>, more: bool, ghost read': seq<Place>)
      requires Valid() && depth > 0 && start <= offset < source.length && !overrun
      requires ItemsState(source, start, offset, depth, items, read, true)
      requires ItemsFollow(source, start, offset, items, read, true) &&
        ItemsOpen(source, start, depth - 1, items, read, true)
      modifies `offset, `depth, `overrun
      ensures ok ==> depth == old(depth) && old(offset) < offset < source.length && !overrun
      ensures ok ==> ItemsState(source, start, offset, depth, items', read', more)
      ensures ok ==>
        ItemsFollow(source, start, offset, items', read', more) &&
        ItemsOpen(source, start, depth - 1, items', read', more)
      ensures !ok ==> Refused(source, start, old(depth) - 1) && (overrun <==> Breaks(source, start, old(depth) - 1))
      decreases Left(), 2
    {
      hide Derives, Fits, Breaks, ItemsState, ItemsFollow, ItemsOpen, ItemAt, StopsAt, ElementOutcome, BreaksBehind,
        Refused;
      ghost var before, d := offset, depth;
      items', read', more := items, read, false;
      offset := offset + 1;
      var element;
      ghost var at;
      ok, element, at := ParseElement();
      if ok && CanAccess() && source.content[offset] == COMMA {
        more := true;
      } else if !ok || !CanAccess() || source.content[offset] != CLOSE_BRACKET {
        FollowFails(source, start, before, offset, d, items, read, ok, element);
        OpenFails(source, start, before, offset, d, items, read, ok, element);
        ok := false;
        return;
      }
      StateMore(source, start, before, offset, depth, items, read, element, at, more);
      FollowMore(source, start, before, offset, depth, items, read, element, at, more);
      OpenMore(source, start, before, offset, depth, items, read, element, at, more);
      items', read' := items + [element], read + [at];
    }

    /** One member: a name, a colon and a value, and the blanks around them. */
    method ParseMember() returns (ok: bool, m: Member, ghost at: MemberPlace)
      requires Valid() && offset <= source.length && !overrun
      modifies `offset, `depth, `overrun
      ensures MemberOutcome(source, old(offset), old(depth), ok, m, offset)
      ensures ok ==> old(offset) < offset <= source.length && depth == old(depth) && Fits(m.value, depth) && !overrun
      ensures ok && offset < source.length && source.content[offset] > 32 ==>
        MemberAt(source, m.name, m.value, old(offset), at) && at.value.stop == offset
      ensures overrun <==> MemberBreaks(source, old(offset), old(depth))
      decreases Left(), 6
    {
      hide Derives, Fits, Breaks, StopsAt, StopsOnlyAt, OnlyBlanks, Blank, ElementOutcome, MemberOutcome, MemberBreaks,
        BreaksBehind, LiteralIs, ItemAt, MemberAt;
      at := MemberPlace(0, 0, 0, Place(0, 0, 0));
      m := Member([], Null);
      ghost var start, d := offset, depth;
      SkipWhitespace();
      ghost var from := offset;
      var text;
      ok, text := ParseString();
      if !ok {
        NoName(source, start, from, d, m, offset);
        return;
      }
      ghost var end := offset;
      SkipWhitespace();
      if !CanAccess() || source.content[offset] != COLON {
        NoColon(source, start, from, end, text, offset, d, m);
        return false, m, at;
      }
      ghost var colon := offset;
      offset := offset + 1;
      var value;
      ghost var place;
      ok, value, place := ParseElement();
      m := Member(text, value);
      at := MemberPlace(from, end, colon, place);
      MemberEnds(source, start, from, end, text, colon, d, ok, value, place, offset);
    }

    /** parse_object */
    method ParseObject() returns (ok: bool, item: Value)
      requires Valid() && CanAccess() && source.content[offset] == OPEN_BRACE && !overrun
      modifies `offset, `depth, `overrun
      ensures Outcome(source, old(offset), old(depth), ok, item, offset)
      ensures ok ==> depth == old(depth) && !overrun
      ensures overrun <==> Breaks(source, old(offset), old(depth))
      decreases Left(), 3
    {
      hide Derives, Fits, Breaks, MembersState, MembersFollow, MembersOpen, StopsAt, Blank, StopsOnlyAt, OnlyBlanks,
        Refused, OnlyOne;
      ghost var start, d := offset, depth;
      ok, item := false, Null;
      if depth >= NESTING_LIMIT {
        TooDeep(source, start, d);
        return;
      }
      depth := depth + 1;
      offset := offset + 1;
      var members := [];
      SkipWhitespace();
      ghost var q := offset;
      var more := !(CanAccess() && source.content[offset] == CLOSE_BRACE);
      if more {
        if !CanAccess() {
          NoObject(source, start, d);
          offset := offset - 1;
          return;
        }
        offset := offset - 1;
      }
      ghost var read: seq<MemberPlace> := [];
      MembersBegin(source, start, q, d, more);
      while more
        invariant Valid() && start <= offset < source.length && depth == d + 1 && !overrun
        invariant MembersState(source, start, offset, depth, members, read, more)
        invariant MembersFollow(source, start, offset, members, read, more) &&
          MembersOpen(source, start, d, members, read, more)
        decreases source.length - offset, more
      {
        ok, members, more, read := ParseNext(members, start, read);
        if !ok {
          return;
        }
      }
      MembersDone(source, start, offset, members, read, depth);
      depth := depth - 1;
      item := Object(members);
      offset := offset + 1;
      ok := true;
    }

    /** One turn of the loop of parse_object. */
    method ParseNext(members: seq<Member>, ghost start: nat, ghost read: seq<MemberPlace>)
      returns (ok: bool, members': seq<Member>, more: bool, ghost read': seq<MemberPlace>)
      requires Valid() && depth > 0 && start <= offset < source.length && !overrun
      requires MembersState(source, start, offset, depth, members, read, true)
      requires MembersFollow(source, start, offset, members, read, true) &&
        MembersOpen(source, start, depth - 1, members, read, true)
      modifies `offset, `depth, `overrun
      ensures ok ==> depth == old(depth) && old(offset) < offset < source.length && !overrun
      ensures ok ==> MembersState(source, start, offset, depth, members', read', more)
      ensures ok ==>
        MembersFollow(source, start, offset, members', read', more) &&
        MembersOpen(source, start, depth - 1, members', read', more)
      ensures !ok ==> Refused(source, start, old(depth) - 1) && (overrun <==> Breaks(source, start, old(depth) - 1))
      decreases Left(), 2
    {
      hide Derives, Fits, Breaks, MembersState, MembersFollow, MembersOpen, MemberAt, StopsAt, MemberOutcome,
        MemberBreaks, Refused;
      ghost var before, d := offset, depth;
      members', read', more := members, read, false;
      offset := offset + 1;
      var member;
      ghost var at;
      ok, member, at := ParseMember();
      if ok && CanAccess() && source.content[offset] == COMMA {
        more := true;
      } else if !ok || !CanAccess() || source.content[offset] != CLOSE_BRACE {
        MembersFollowFails(source, start, before, offset, d, members, read, ok, member);
        MembersOpenFails(source, start, before, offset, d, members, read, ok, member);
        ok := false;
        return;
      }
      MembersStateMore(source, start, before, offset, depth, members, read, member, at, more);
      MembersFollowMore(source, start, before, offset, depth, members, read, member, at, more);
      MembersOpenMore(source, start, before, offset, depth, members, read, member, at, more);
      members', read' := members + [member], read + [at];
    }
  }

  /** skip_utf8_bom */
  method SkipBom(buffer: ParseBuffer)
    requires buffer.Valid()
    modifies buffer`offset
    ensures buffer.Valid()
    ensures buffer.offset == if old(buffer.offset) == 0 then BomLength(buffer.source) else old(buffer.offset)
  {
    if buffer.offset != 0 {
      return;
    }
    if 4 < buffer.source.length && buffer.source.content[..3] == BOM {
      buffer.offset := buffer.offset + 3;
    }
  }

  const BOM: Text := [0xEF, 0xBB, 0xBF]

  function BomLength(s: Source): nat
    requires s.length <= |s.content|
  {
    if 4 < s.length && s.content[..3] == [0xEF, 0xBB, 0xBF] then 3 else 0
  }

  datatype Parsed = Failed | Item(item: Value, end: nat)

  /** Nothing but blanks up to a zero byte, the last counted. */
  ghost predicate EndsWithNull(s: Source, p: nat) {
    p < s.length <= |s.content| && Blank(s.content, p, s.length) && s.content[s.length - 1] == 0
  }

  /** The whole text derives a value: behind a byte order mark and blanks, and in front of a zero byte if need be. */
  ghost predicate TextDerives(s: Source, requireNull: bool, q: nat, v: Value, e: nat) {
    Sound(s) && StopsAt(s, BomLength(s), q) && Derives(s, q, v, e) && (requireNull ==> EndsWithNull(s, e))
  }

  /**
   * cJSON_ParseWithLengthOpts.  A text is parsed exactly when it derives a value that is nested no deeper than the
   * limit, into that value.  The byte behind the bytes given is looked at exactly when the text breaks off behind a
   * comma of an object, with nothing behind it.
   */
  method ParseWithLengthOpts(source: Source, requireNull: bool) returns (r: Parsed, overrun: bool)
    requires Sound(source)
    ensures r.Item? ==>
      exists q, e :: TextDerives(source, requireNull, q, r.item, e) && Fits(r.item, 0) &&
        r.end == if requireNull then source.length - 1 else e
    ensures forall q, v, e :: TextDerives(source, requireNull, q, v, e) ==>
      r == if Fits(v, 0) then Item(v, if requireNull then source.length - 1 else e) else Failed
    ensures overrun <==> BreaksBehind(source, BomLength(source), 0)
    ensures overrun ==>
      r == Failed && 0 < source.length == |source.content| && source.content[source.length - 1] == COMMA
  {
    hide Derives, Fits, Breaks, StopsAt, BreaksBehind, EndsWithNull, Refused, OnlyOne, StopsOnlyAt;
    if source.length == 0 {
      NoText(source);
      return Failed, false;
    }
    var buffer := new ParseBuffer(source);
    SkipBom(buffer);
    ghost var bom := buffer.offset;
    buffer.SkipWhitespace();
    ghost var start := buffer.offset;
    var ok, item := buffer.ParseValue();
    overrun := buffer.overrun;
    ElementBreaks(source, bom, start, 0);
    if Breaks(source, start, 0) {
      BreaksFirst(source, start, 0);
    }
    ghost var end := buffer.offset;
    TextOutcome(source, requireNull, start, ok, item, end);
    if !ok {
      return Failed, overrun;
    }
    Stops(source, bom, start);
    if requireNull {
      buffer.SkipWhitespace();
      NullStops(source, end, buffer.offset);
      if buffer.offset >= buffer.source.length || buffer.source.content[buffer.offset] != 0 {
        return Failed, overrun;
      }
    }
    assert TextDerives(source, requireNull, start, item, end);
    r := Item(item, buffer.offset);
  }

  lemma NoText(s: Source)
    requires s.length == 0
    ensures OnlyBlanks(s, BomLength(s)) && !BreaksBehind(s, BomLength(s), 0)
  {
    hide Breaks;
  }

  /** The value parsed is the one in question. */
  lemma TextOutcome(s: Source, requireNull: bool, start: nat, ok: bool, item: Value, end: nat)
    requires Sound(s) && Outcome(s, start, 0, ok, item, end) && StopsOnlyAt(s, BomLength(s), start)
    ensures ok ==> Derives(s, start, item, end) && Fits(item, 0) && start < end <= s.length && s.content[start] > 32
    ensures forall q, v, e :: TextDerives(s, requireNull, q, v, e) ==>
      q == start && (Fits(v, 0) <==> ok) && (ok ==> v == item && e == end) && (requireNull ==> EndsWithNull(s, e))
  {
    hide Derives, Fits, StopsAt, EndsWithNull;
    if ok {
      DerivesFirst(s, start, item, end);
    }
  }

  lemma NullStops(s: Source, p: nat, q: nat)
    requires Sound(s) && (p >= s.length ==> q == p)
    requires p < s.length ==> p <= q < s.length && Blank(s.content, p, q)
    requires p < s.length && Blank(s.content, p, s.length) ==> q == s.length - 1
    requires p < s.length ==> s.content[q] > 32 || (q == s.length - 1 && Blank(s.content, p, s.length))
    ensures EndsWithNull(s, p) <==> q < s.length && s.content[q] == 0
    ensures EndsWithNull(s, p) ==> q == s.length - 1
  {
  }
}
