/** Parsing undoes printing: the text of a value derives that value, whatever the layout. */
module JsonRoundTrip {
  import opened Bytes
  import opened JsonText
  import opened JsonStringParse
  import opened JsonGrammar
  import opened JsonPrint
  import opened JsonParse

  /** The number that may have ended in front of p does not go on there. */
  ghost predicate Delimited(c: Text, length: nat, p: nat) {
    length <= |c| && (p >= length || !InNumber(c[p]))
  }

  /** The text of v stands at p, within the given length, and ends there. */
  ghost predicate Stands(c: Text, length: nat, p: nat, v: Value, fmt: bool, d: nat) {
    && Good(v) && At(c, p, Printed(v, fmt, d)) && p + |Printed(v, fmt, d)| <= length
    && Delimited(c, length, p + |Printed(v, fmt, d)|)
  }

  /** From p on, blanks up to q and something else there. */
  ghost predicate Halts(c: Text, length: nat, p: nat, q: nat) {
    p <= q < length <= |c| && Blank(c, p, q) && c[q] > 32
  }

  lemma HaltsStops(s: Source, p: nat, q: nat)
    ensures StopsAt(s, p, q) <==> Halts(s.content, s.length, p, q)
  {
  }

  lemma StandsFirst(c: Text, length: nat, p: nat, v: Value, fmt: bool, d: nat)
    requires Stands(c, length, p, v, fmt, d)
    ensures p < length <= |c| && c[p] == Printed(v, fmt, d)[0] && 32 < c[p] < 128 && c[p] != CLOSE_BRACKET
    ensures Printed(v, fmt, d) != []
  {
    hide Printed, Good;
    PrintedFacts(v, fmt, d);
    PrintedFirst(v, fmt, d);
    AtByte(c, p, Printed(v, fmt, d), 0);
  }

  lemma PrintedFirst(v: Value, fmt: bool, d: nat)
    requires Good(v)
    ensures Printed(v, fmt, d) != []
    ensures var b := Printed(v, fmt, d)[0];
      && (v.Null? ==> b == 110) && (v.False? ==> b == 102) && (v.True? ==> b == 116)
      && (v.Number? ==> b == MINUS || IsDigit(b)) && (v.String? ==> b == QUOTE)
      && (v.Array? ==> b == OPEN_BRACKET) && (v.Object? ==> b == OPEN_BRACE)
  {
    hide ItemsText, MembersText, Decimal;
    if v.Number? {
      DecimalFacts(v.valueint);
    }
  }

  /** The elements of v from the i-th on, and the closing bracket, stand at r behind blanks from p on. */
  ghost predicate ItemsAt(c: Text, length: nat, p: nat, r: nat, v: Value, i: nat, fmt: bool, d: nat) {
    && v.Array? && Good(v) && i < |v.items| && length <= |c|
    && Blank(c, p, r) && At(c, r, ItemsText(v, i, fmt, d) + [CLOSE_BRACKET]) && r + |ItemsText(v, i, fmt, d)| < length
  }

  lemma ArrayAt(c: Text, length: nat, p: nat, v: Value, fmt: bool, d: nat)
    requires v.Array? && Stands(c, length, p, v, fmt, d)
    ensures Good(v) && p + 1 < length <= |c| && Blank(c, p + 1, p + 1)
    ensures |Printed(v, fmt, d)| == |ItemsText(v, 0, fmt, d + 1)| + 2
    ensures v.items == [] ==> c[p + 1] == CLOSE_BRACKET && |Printed(v, fmt, d)| == 2
    ensures v.items != [] ==>
      ItemsAt(c, length, p + 1, p + 1, v, 0, fmt, d + 1) && Blank(c, p + 1, p + 1) && c[p + 1] > 32 &&
      c[p + 1] != CLOSE_BRACKET
  {
    hide Stands, Good, ItemsText, Printed, At;
    StandsFacts(c, length, p, v, fmt, d);
    ArrayText([], v, fmt, d);
    var t := ItemsText(v, 0, fmt, d + 1) + [CLOSE_BRACKET];
    assert [] + Printed(v, fmt, d) == Printed(v, fmt, d) && [] + [OPEN_BRACKET] == [OPEN_BRACKET];
    AtSplit(c, p, [OPEN_BRACKET], t);
    if v.items == [] {
      ItemsEnd(v, fmt, d + 1);
      AtByte(c, p + 1, [CLOSE_BRACKET], 0);
    } else {
      PrintedItem(c, length, p + 1, p + 1, v, 0, fmt, d + 1);
      StandsFirst(c, length, p + 1, v.items[0], fmt, d + 1);
    }
  }

  lemma StandsFacts(c: Text, length: nat, p: nat, v: Value, fmt: bool, d: nat)
    requires Stands(c, length, p, v, fmt, d)
    ensures Good(v) && At(c, p, Printed(v, fmt, d)) && p + |Printed(v, fmt, d)| <= length <= |c|
  {
  }

  lemma GoodItem(v: Value, i: nat)
    requires v.Array? && Good(v) && i < |v.items|
    ensures Good(v.items[i])
  {
  }

  lemma PrintedItem(c: Text, length: nat, p: nat, r: nat, v: Value, i: nat, fmt: bool, d: nat)
    requires ItemsAt(c, length, p, r, v, i, fmt, d)
    ensures Good(v) && i < |v.items| && Stands(c, length, r, v.items[i], fmt, d) && Blank(c, p, r)
    ensures var q := r + |Printed(v.items[i], fmt, d)|;
      && q < length <= |c| && Halts(c, length, q, q)
      && (i + 1 == |v.items| ==> c[q] == CLOSE_BRACKET && q == r + |ItemsText(v, i, fmt, d)|)
      && (i + 1 < |v.items| ==>
        && c[q] == COMMA
        && ItemsAt(c, length, q + 1, q + 1 + |Optional(fmt, SPACE)|, v, i + 1, fmt, d)
        && r + |ItemsText(v, i, fmt, d)| == q + 1 + |Optional(fmt, SPACE)| + |ItemsText(v, i + 1, fmt, d)|)
  {
    hide Good, ItemsText, Printed, At, Optional, Delimited, Blank;
    GoodItem(v, i);
    ItemsStep([], v, i, fmt, d);
    OptionalBlank(fmt);
    ItemsEnd(v, fmt, d);
    var t, rest := Printed(v.items[i], fmt, d), ItemsText(v, i + 1, fmt, d) + [CLOSE_BRACKET];
    assert [] + (ItemsText(v, i, fmt, d) + [CLOSE_BRACKET]) == ItemsText(v, i, fmt, d) + [CLOSE_BRACKET];
    assert [] + t == t;
    if i + 1 == |v.items| {
      SplitLast(c, r, t);
    } else {
      SplitMiddle(c, r, t, Optional(fmt, SPACE), rest);
    }
    DelimitedBy(c, length, r + |t|);
    HaltsHere(c, length, r + |t|);
  }

  lemma SplitLast(c: Text, r: nat, t: Text)
    requires At(c, r, t + [CLOSE_BRACKET])
    ensures At(c, r, t) && r + |t| < |c| && c[r + |t|] == CLOSE_BRACKET
  {
    AtSplit(c, r, t, [CLOSE_BRACKET]);
    AtByte(c, r + |t|, [CLOSE_BRACKET], 0);
  }

  lemma SplitMiddle(c: Text, r: nat, t: Text, sp: Text, rest: Text)
    requires At(c, r, t + ([COMMA] + sp) + rest) && forall i :: 0 <= i < |sp| ==> sp[i] <= 32
    ensures var q := r + |t|;
      At(c, r, t) && q < |c| && c[q] == COMMA && Blank(c, q + 1, q + 1 + |sp|) && At(c, q + 1 + |sp|, rest)
  {
    hide At, Blank;
    var sep := [COMMA] + sp;
    assert t + sep + rest == t + (sep + rest);
    AtSplit(c, r, t, sep + rest);
    AtSplit(c, r + |t|, sep, rest);
    AtByte(c, r + |t|, sep, 0);
    BlankAt(c, r + |t|, COMMA, sp);
  }

  lemma DelimitedBy(c: Text, length: nat, q: nat)
    requires q < length <= |c| && (c[q] == COMMA || c[q] == CLOSE_BRACKET || c[q] == CLOSE_BRACE || c[q] == NEWLINE)
    ensures Delimited(c, length, q)
  {
  }

  /** Blanks behind some byte. */
  lemma BlankAt(c: Text, q: nat, b: byte, t: Text)
    requires At(c, q, [b] + t)
    ensures (forall i :: 0 <= i < |t| ==> t[i] <= 32) ==> Blank(c, q + 1, q + 1 + |t|)
  {
    AtSplit(c, q, [b], t);
    forall k | q + 1 <= k < q + 1 + |t|
      ensures c[k] == t[k - q - 1]
    {
      AtByte(c, q + 1, t, k - q - 1);
    }
  }

  lemma OptionalBlank(fmt: bool)
    ensures forall i :: 0 <= i < |Optional(fmt, SPACE)| ==> Optional(fmt, SPACE)[i] <= 32
    ensures forall i :: 0 <= i < |Optional(fmt, TAB)| ==> Optional(fmt, TAB)[i] <= 32
    ensures forall i :: 0 <= i < |Optional(fmt, NEWLINE)| ==> Optional(fmt, NEWLINE)[i] <= 32
  {
  }

  // ----- Objects -----

  /** The members of v from the name of the i-th on, and the closing brace. */
  ghost function KeyText(v: Value, i: nat, fmt: bool, d: nat): (t: Text)
    requires v.Object? && i < |v.members| && d > 0
  {
    Quoted(v.members[i].name) + ([COLON] + Optional(fmt, TAB)) + Printed(v.members[i].value, fmt, d) + (
      Optional(i + 1 < |v.members|, COMMA) + Optional(fmt, NEWLINE)) +
        (MembersText(v, i + 1, fmt, d) + (Indent(fmt, d - 1) + [CLOSE_BRACE]))
  }

  ghost predicate MembersAt(c: Text, length: nat, p: nat, r: nat, v: Value, i: nat, fmt: bool, d: nat) {
    && v.Object? && Good(v) && i < |v.members| && d > 0 && length <= |c|
    && Blank(c, p, r) && At(c, r, KeyText(v, i, fmt, d)) && r + |KeyText(v, i, fmt, d)| <= length
  }

  /** A name, a colon and a value stand at r. */
  ghost predicate MemberStands(c: Text, length: nat, r: nat, m: Member, fmt: bool, d: nat) {
    var q := r + |Quoted(m.name)|;
    && length <= |c| && At(c, r, Quoted(m.name)) && q < length && c[q] == COLON
    && Blank(c, q + 1, q + 1 + |Optional(fmt, TAB)|)
    && Stands(c, length, q + 1 + |Optional(fmt, TAB)|, m.value, fmt, d)
  }

  ghost function MemberEnd(m: Member, fmt: bool, d: nat, r: nat): nat {
    r + |Quoted(m.name)| + 1 + |Optional(fmt, TAB)| + |Printed(m.value, fmt, d)|
  }

  ghost function ValueEnd(v: Value, i: nat, fmt: bool, d: nat, r: nat): nat
    requires v.Object? && i < |v.members|
  {
    MemberEnd(v.members[i], fmt, d, r)
  }

  lemma ObjectAt(c: Text, length: nat, p: nat, v: Value, fmt: bool, d: nat) returns (r: nat)
    requires v.Object? && Stands(c, length, p, v, fmt, d)
    ensures p + 1 < length <= |c|
    ensures Halts(c, length, p + 1, r)
    ensures v.members == [] ==> c[r] == CLOSE_BRACE && r + 1 == p + |Printed(v, fmt, d)|
    ensures v.members != [] ==>
      c[r] != CLOSE_BRACE && MembersAt(c, length, r, r, v, 0, fmt, d + 1) &&
      r + |KeyText(v, 0, fmt, d + 1)| == p + |Printed(v, fmt, d)|
  {
    hide Stands, Good, MembersText, Printed, At, Indent, Optional, Blank, KeyText;
    StandsFacts(c, length, p, v, fmt, d);
    ObjectText([], v, fmt, d);
    var o := [OPEN_BRACE] + Optional(fmt, NEWLINE);
    assert [] + Printed(v, fmt, d) == Printed(v, fmt, d) && [] + o == o;
    AtSplit(c, p, o, MembersText(v, 0, fmt, d + 1) + (Indent(fmt, d) + [CLOSE_BRACE]));
    BlankAt(c, p, OPEN_BRACE, Optional(fmt, NEWLINE));
    OptionalBlank(fmt);
    r := ObjectBody(c, length, p + |o|, v, fmt, d);
    BlankJoin(c, p + 1, p + |o|, r);
  }

  lemma ObjectBody(c: Text, length: nat, q: nat, v: Value, fmt: bool, d: nat) returns (r: nat)
    requires v.Object? && Good(v) && length <= |c|
    requires var t := MembersText(v, 0, fmt, d + 1) + (Indent(fmt, d) + [CLOSE_BRACE]); At(c, q, t) && q + |t| <= length
    ensures Blank(c, q, r) && q <= r < length && c[r] > 32
    ensures var n := q + |MembersText(v, 0, fmt, d + 1) + (Indent(fmt, d) + [CLOSE_BRACE])|;
      if v.members == [] then c[r] == CLOSE_BRACE && r + 1 == n
      else c[r] != CLOSE_BRACE && MembersAt(c, length, r, r, v, 0, fmt, d + 1) && r + |KeyText(v, 0, fmt, d + 1)| == n
  {
    hide Good, MembersText, At, Indent, Blank, KeyText;
    if v.members == [] {
      MembersEnd(v, fmt, d + 1);
      r := LastBrace(c, length, q, fmt, d);
    } else {
      MembersKey(v, 0, fmt, d + 1);
      r := q + |Indent(fmt, d + 1)|;
      KeyBehindBlanks(c, length, q, v, 0, fmt, d + 1);
      KeyFirst(c, r, v, 0, fmt, d + 1);
      BlankNone(c, r);
    }
  }

  lemma BlankNone(c: Text, r: nat)
    ensures r <= |c| ==> Blank(c, r, r)
  {
  }

  lemma BlankJoin(c: Text, i: nat, j: nat, k: nat)
    requires Blank(c, i, j) && Blank(c, j, k)
    ensures Blank(c, i, k)
  {
  }

  /** An indent and the closing brace. */
  lemma LastBrace(c: Text, length: nat, q: nat, fmt: bool, d: nat) returns (r: nat)
    requires length <= |c| && At(c, q, Indent(fmt, d) + [CLOSE_BRACE]) && q + |Indent(fmt, d)| < length
    ensures Blank(c, q, r) && r == q + |Indent(fmt, d)| < length && c[r] == CLOSE_BRACE
  {
    hide At, Blank, Indent;
    r := q + |Indent(fmt, d)|;
    AtSplit(c, q, Indent(fmt, d), [CLOSE_BRACE]);
    AtByte(c, r, [CLOSE_BRACE], 0);
    IndentBlank(fmt, d);
    AllBlank(c, q, Indent(fmt, d));
  }

  lemma IndentBlank(fmt: bool, d: nat)
    ensures forall i :: 0 <= i < |Indent(fmt, d)| ==> Indent(fmt, d)[i] <= 32
  {
  }

  lemma AllBlank(c: Text, q: nat, t: Text)
    requires At(c, q, t) && forall i :: 0 <= i < |t| ==> t[i] <= 32
    ensures Blank(c, q, q + |t|)
  {
    forall k | q <= k < q + |t|
      ensures c[k] == t[k - q]
    {
      AtByte(c, q, t, k - q);
    }
  }

  /** In front of the text of a member comes its indent. */
  lemma MembersKey(v: Value, i: nat, fmt: bool, d: nat)
    requires v.Object? && i < |v.members| && d > 0
    ensures MembersText(v, i, fmt, d) + (Indent(fmt, d - 1) + [CLOSE_BRACE]) == Indent(fmt, d) + KeyText(v, i, fmt, d)
  {
    hide MembersText, Printed, Quoted, Indent, Optional;
    var m, last := v.members[i], Indent(fmt, d - 1) + [CLOSE_BRACE];
    MembersStep(v, i, fmt, d);
    MemberRegroup(Indent(fmt, d), Quoted(m.name), [COLON] + Optional(fmt, TAB), Printed(m.value, fmt, d),
      Optional(i + 1 < |v.members|, COMMA) + Optional(fmt, NEWLINE), MembersText(v, i + 1, fmt, d), last);
  }

  lemma MemberRegroup(t0: Text, t1: Text, t2: Text, t3: Text, t4: Text, r: Text, last: Text)
    ensures (t0 + (t1 + (t2 + (t3 + (t4 + r))))) + last == t0 + (t1 + t2 + t3 + t4 + (r + last))
  {
    var x, y := t1 + (t2 + (t3 + (t4 + r))), t1 + t2 + t3 + t4;
    assert x == y + r;
    assert (t0 + (y + r)) + last == t0 + (y + (r + last));
  }

  lemma KeyBehindBlanks(c: Text, length: nat, q: nat, v: Value, i: nat, fmt: bool, d: nat)
    requires v.Object? && i < |v.members| && d > 0 && length <= |c|
    requires At(c, q, Indent(fmt, d) + KeyText(v, i, fmt, d))
    ensures Blank(c, q, q + |Indent(fmt, d)|) && At(c, q + |Indent(fmt, d)|, KeyText(v, i, fmt, d))
  {
    hide At, Blank, Indent, KeyText;
    AtSplit(c, q, Indent(fmt, d), KeyText(v, i, fmt, d));
    IndentBlank(fmt, d);
    AllBlank(c, q, Indent(fmt, d));
  }

  lemma KeyFirst(c: Text, r: nat, v: Value, i: nat, fmt: bool, d: nat)
    requires v.Object? && i < |v.members| && d > 0 && At(c, r, KeyText(v, i, fmt, d))
    ensures r < |c| && c[r] == QUOTE && |KeyText(v, i, fmt, d)| > 0
  {
    hide Printed, MembersText, Indent, Optional, Escaped;
    AtByte(c, r, KeyText(v, i, fmt, d), 0);
  }

  lemma PrintedMember(c: Text, length: nat, p: nat, r: nat, v: Value, i: nat, fmt: bool, d: nat) returns (end: nat)
    requires MembersAt(c, length, p, r, v, i, fmt, d)
    ensures Good(v) && i < |v.members| && Blank(c, p, r) && MemberStands(c, length, r, v.members[i], fmt, d)
    ensures var q := ValueEnd(v, i, fmt, d, r);
      && (i + 1 == |v.members| ==>
        Halts(c, length, q, end) && c[end] == CLOSE_BRACE && end + 1 == r + |KeyText(v, i, fmt, d)|)
      && (i + 1 < |v.members| ==>
        && Halts(c, length, q, q) && c[q] == COMMA && q + 1 < length
        && MembersAt(c, length, q + 1, end, v, i + 1, fmt, d)
        && end + |KeyText(v, i + 1, fmt, d)| == r + |KeyText(v, i, fmt, d)|)
  {
    hide MembersText, Printed, At, Indent, Optional, Blank, Quoted, Halts, Stands, Good, Delimited;
    var m, more := v.members[i], i + 1 < |v.members|;
    GoodMember(v, i);
    var t1, t2, t3, t4 :=
      Quoted(m.name), [COLON] + Optional(fmt, TAB), Printed(m.value, fmt, d),
      Optional(more, COMMA) + Optional(fmt, NEWLINE);
    AtFive(c, r, t1, t2, t3, t4, MembersText(v, i + 1, fmt, d) + (Indent(fmt, d - 1) + [CLOSE_BRACE]));
    AtByte(c, r + |t1|, t2, 0);
    BlankAt(c, r + |t1|, COLON, Optional(fmt, TAB));
    OptionalBlank(fmt);
    var q := r + |t1| + |t2| + |t3|;
    assert q == ValueEnd(v, i, fmt, d, r);
    if more {
      end := MemberMore(c, length, q, v, i + 1, fmt, d);
    } else {
      end := MemberLast(c, length, q, v, fmt, d);
    }
    StandsIf(c, length, q - |t3|, m.value, fmt, d);
  }

  /** Behind a value that is not the last. */
  lemma MemberMore(c: Text, length: nat, q: nat, v: Value, i: nat, fmt: bool, d: nat) returns (end: nat)
    requires v.Object? && Good(v) && i < |v.members| && d > 0 && length <= |c|
    requires var t, rest :=
      Optional(true, COMMA) + Optional(fmt, NEWLINE), MembersText(v, i, fmt, d) + (Indent(fmt, d - 1) + [CLOSE_BRACE]);
      At(c, q, t) && At(c, q + |t|, rest) && q + |t| + |rest| <= length
    ensures Halts(c, length, q, q) && c[q] == COMMA && q + 1 < length && Delimited(c, length, q)
    ensures MembersAt(c, length, q + 1, end, v, i, fmt, d)
    ensures end + |KeyText(v, i, fmt, d)| ==
      q + |Optional(true, COMMA) + Optional(fmt, NEWLINE)|
        + |MembersText(v, i, fmt, d) + (Indent(fmt, d - 1) + [CLOSE_BRACE])|
  {
    hide MembersText, At, Indent, Optional, Blank, Good, KeyText;
    OptionalCases(true);
    OptionalBlank(fmt);
    var t := [COMMA] + Optional(fmt, NEWLINE);
    AtByte(c, q, t, 0);
    BlankAt(c, q, COMMA, Optional(fmt, NEWLINE));
    MembersKey(v, i, fmt, d);
    KeyBehindBlanks(c, length, q + |t|, v, i, fmt, d);
    end := q + |t| + |Indent(fmt, d)|;
    KeyFirst(c, end, v, i, fmt, d);
    BlankJoin(c, q + 1, q + |t|, end);
    HaltsHere(c, length, q);
  }

  /** Behind the last value. */
  lemma MemberLast(c: Text, length: nat, q: nat, v: Value, fmt: bool, d: nat) returns (end: nat)
    requires v.Object? && d > 0 && length <= |c|
    requires var t, rest :=
      Optional(false, COMMA) + Optional(fmt, NEWLINE),
      MembersText(v, |v.members|, fmt, d) + (Indent(fmt, d - 1) + [CLOSE_BRACE]);
      At(c, q, t) && At(c, q + |t|, rest) && q + |t| + |rest| <= length
    ensures Halts(c, length, q, end) && c[end] == CLOSE_BRACE && Delimited(c, length, q)
    ensures end + 1 ==
      q + |Optional(false, COMMA) + Optional(fmt, NEWLINE)|
        + |MembersText(v, |v.members|, fmt, d) + (Indent(fmt, d - 1) + [CLOSE_BRACE])|
  {
    hide MembersText, At, Indent, Optional, Blank, Delimited;
    OptionalCases(false);
    OptionalBlank(fmt);
    MembersEnd(v, fmt, d);
    var t := Optional(fmt, NEWLINE);
    assert Optional(false, COMMA) + t == t;
    AllBlank(c, q, t);
    end := LastBrace(c, length, q + |t|, fmt, d - 1);
    BlankJoin(c, q, q + |t|, end);
    HaltsBlank(c, length, q, end);
    LineEnd(c, length, q, fmt, d - 1);
    DelimitedBy(c, length, q);
  }

  lemma StandsIf(c: Text, length: nat, p: nat, v: Value, fmt: bool, d: nat)
    requires Good(v) && At(c, p, Printed(v, fmt, d)) && p + |Printed(v, fmt, d)| <= length &&
      Delimited(c, length, p + |Printed(v, fmt, d)|)
    ensures Stands(c, length, p, v, fmt, d)
  {
  }

  lemma HaltsHere(c: Text, length: nat, q: nat)
    requires q < length <= |c| && c[q] > 32
    ensures Halts(c, length, q, q)
  {
  }

  lemma HaltsBlank(c: Text, length: nat, q: nat, end: nat)
    requires q <= end < length <= |c| && Blank(c, q, end) && c[end] > 32
    ensures Halts(c, length, q, end)
  {
  }

  /** Behind the last value comes a line end, or the brace. */
  lemma LineEnd(c: Text, length: nat, q: nat, fmt: bool, d: nat)
    requires length <= |c| && At(c, q, Optional(fmt, NEWLINE)) &&
      At(c, q + |Optional(fmt, NEWLINE)|, Indent(fmt, d) + [CLOSE_BRACE])
    requires q + |Optional(fmt, NEWLINE)| + |Indent(fmt, d)| < length
    ensures q < length && (c[q] == NEWLINE || c[q] == CLOSE_BRACE)
  {
    if fmt {
      AtByte(c, q, [NEWLINE], 0);
    } else {
      AtByte(c, q, Indent(fmt, d) + [CLOSE_BRACE], 0);
    }
  }

  lemma OptionalCases(on: bool)
    ensures Optional(on, COMMA) == if on then [COMMA] else []
  {
  }

  lemma AtFive(c: Text, r: nat, t1: Text, t2: Text, t3: Text, t4: Text, t5: Text)
    requires At(c, r, t1 + t2 + t3 + t4 + t5)
    ensures At(c, r, t1) && At(c, r + |t1|, t2) && At(c, r + |t1| + |t2|, t3)
    ensures At(c, r + |t1| + |t2| + |t3|, t4) && At(c, r + |t1| + |t2| + |t3| + |t4|, t5)
  {
    hide At;
    AtSplit(c, r, t1 + t2 + t3 + t4, t5);
    AtSplit(c, r, t1 + t2 + t3, t4);
    AtSplit(c, r, t1 + t2, t3);
    AtSplit(c, r, t1, t2);
  }

  lemma GoodMember(v: Value, i: nat)
    requires v.Object? && Good(v) && i < |v.members|
    ensures Good(v.members[i].value) && NulFree(v.members[i].name)
  {
  }

  // ----- The text of a value derives it -----

  lemma {:induction false} RunTo(s: Source, p: nat, i: nat, n: nat)
    requires s.length <= |s.content| && p + n <= s.length && i <= n <= NUMBER_SIZE
    requires forall j :: p <= j < p + n ==> InNumber(s.content[j])
    requires n == NUMBER_SIZE || p + n == s.length || !InNumber(s.content[p + n])
    ensures NumberRun(s, p, i) == n
    decreases n - i
  {
    if i < n {
      RunTo(s, p, i + 1, n);
    }
  }

  lemma DecimalDerives(s: Source, p: nat, n: int)
    requires Sound(s) && ReadsIntegers(s.strtod) && INT_MIN <= n <= INT_MAX && At(s.content, p, Decimal(n))
    requires p + |Decimal(n)| <= s.length && Delimited(s.content, s.length, p + |Decimal(n)|)
    ensures Derives(s, p, Number(n as real, n), p + |Decimal(n)|)
  {
    hide Decimal, At, ReadsIntegers;
    var t := Decimal(n);
    DecimalFacts(n);
    ReadsDecimal(s.strtod, n);
    forall j | p <= j < p + |t|
      ensures InNumber(s.content[j])
    {
      AtByte(s.content, p, t, j - p);
    }
    AtByte(s.content, p, t, 0);
    RunTo(s, p, 0, |t|);
    AtText(s.content, p, t);
  }

  lemma AtText(c: Text, p: nat, t: Text)
    requires At(c, p, t)
    ensures p + |t| <= |c| && c[p..p + |t|] == t
  {
  }

  lemma {:induction false} PrintedDerives(s: Source, p: nat, v: Value, fmt: bool, d: nat)
    requires Sound(s) && ReadsIntegers(s.strtod) && Stands(s.content, s.length, p, v, fmt, d)
    ensures Derives(s, p, v, p + |Printed(v, fmt, d)|)
    decreases v, 1, 0
  {
    hide Derives, ReadsIntegers, Stands, Printed;
    if v.Array? {
      PrintedArray(s, p, v, fmt, d);
    } else if v.Object? {
      PrintedObject(s, p, v, fmt, d);
    } else {
      PrintedSimple(s, p, v, fmt, d);
    }
  }

  lemma PrintedSimple(s: Source, p: nat, v: Value, fmt: bool, d: nat)
    requires Sound(s) && ReadsIntegers(s.strtod) && !v.Array? && !v.Object? && Stands(s.content, s.length, p, v, fmt, d)
    ensures Derives(s, p, v, p + |Printed(v, fmt, d)|)
  {
    hide Derives, At, ReadsIntegers, Delimited, Quoted, NumberIs, LiteralIs;
    if v.Number? {
      DecimalDerives(s, p, v.valueint);
    } else if v.String? {
      QuotedIs(s.content, p, v.valuestring);
      LiteralFirst(s.content, p, v.valuestring, p + |Quoted(v.valuestring)|);
      SimpleDerives(s, p, v, p + |Quoted(v.valuestring)|);
    } else {
      AtText(s.content, p, Printed(v, fmt, d));
      SimpleDerives(s, p, v, p + |Printed(v, fmt, d)|);
    }
  }

  lemma PrintedArray(s: Source, p: nat, v: Value, fmt: bool, d: nat)
    requires Sound(s) && ReadsIntegers(s.strtod) && v.Array? && Stands(s.content, s.length, p, v, fmt, d)
    ensures Derives(s, p, v, p + |Printed(v, fmt, d)|)
    decreases v, 0, |v.items| + 1
  {
    hide Derives, At, ReadsIntegers, ItemsText, Printed, Stands, Good, ItemsFrom, ItemsAt, Blank;
    ArrayAt(s.content, s.length, p, v, fmt, d);
    StandsFirst(s.content, s.length, p, v, fmt, d);
    PrintedFirst(v, fmt, d);
    if v.items == [] {
      HaltsStops(s, p + 1, p + 1);
      EmptyDerives(s, p, p + 2);
    } else {
      var ls := BuildItems(s, p, p + 1, v, 0, fmt, d + 1);
      ItemsAll(s, p, v, ls);
    }
  }

  /** The places of the elements from the i-th on. */
  lemma {:induction false} BuildItems(s: Source, p: nat, r: nat, v: Value, i: nat, fmt: bool, d: nat)
    returns (ls: seq<Place>)
    requires Sound(s) && ReadsIntegers(s.strtod) && v.Array? && ItemsAt(s.content, s.length, p + 1, r, v, i, fmt, d)
    ensures i < |v.items| && ItemsFrom(s, p, v, i, ls, CLOSE_BRACKET) && ls != []
    ensures ls[|ls| - 1].stop == r + |ItemsText(v, i, fmt, d)|
    decreases v, 0, |v.items| - i
  {
    hide At, ReadsIntegers, ItemsText, Printed, Stands, Good, ItemsFrom, ItemsAt, Blank, Optional, Halts, Derives;
    PrintedItem(s.content, s.length, p + 1, r, v, i, fmt, d);
    PrintedDerives(s, r, v.items[i], fmt, d);
    var q := r + |Printed(v.items[i], fmt, d)|;
    var l := Place(r, q, q);
    StandsFirst(s.content, s.length, r, v.items[i], fmt, d);
    HaltsHere(s.content, s.length, q);
    ElementAt(s, v.items[i], p + 1, l);
    if i + 1 == |v.items| {
      ItemsOne(s, p, v, i, l);
      ls := [l];
    } else {
      var rest := BuildItems(s, q, q + 1 + |Optional(fmt, SPACE)|, v, i + 1, fmt, d);
      ItemsCons(s, p, v, i, l, rest);
      ls := [l] + rest;
    }
  }

  lemma ElementAt(s: Source, v: Value, p: nat, l: Place)
    requires Sound(s) && Blank(s.content, p, l.start) && l.start < s.length && s.content[l.start] > 32
    requires Derives(s, l.start, v, l.end) && Halts(s.content, s.length, l.end, l.stop)
    ensures ItemAt(s, v, p, l)
  {
    hide Derives;
    HaltsStops(s, l.end, l.stop);
  }

  lemma ItemsOne(s: Source, p: nat, v: Value, i: nat, l: Place)
    requires v.Array? && i + 1 == |v.items| && ItemAt(s, v.items[i], p + 1, l) && l.stop < s.length <= |s.content| &&
      s.content[l.stop] == CLOSE_BRACKET
    ensures ItemsFrom(s, p, v, i, [l], CLOSE_BRACKET)
  {
    hide Derives;
  }

  lemma ItemsCons(s: Source, p: nat, v: Value, i: nat, l: Place, rest: seq<Place>)
    requires v.Array? && i + 1 < |v.items| && ItemAt(s, v.items[i], p + 1, l) && l.stop < s.length <= |s.content| &&
      s.content[l.stop] == COMMA
    requires ItemsFrom(s, l.stop, v, i + 1, rest, CLOSE_BRACKET)
    ensures ItemsFrom(s, p, v, i, [l] + rest, CLOSE_BRACKET)
  {
    hide ItemAt;
    var ls := [l] + rest;
    forall k | 0 <= k < |ls|
      ensures ItemStep(s, p, v, i, ls, CLOSE_BRACKET, k)
    {
      if k > 0 {
        assert ItemStep(s, l.stop, v, i + 1, rest, CLOSE_BRACKET, k - 1);
        assert ls[k] == rest[k - 1] && ItemStart(p, ls, k) == ItemStart(l.stop, rest, k - 1) &&
          i + k == i + 1 + (k - 1);
      }
    }
  }

  lemma PrintedObject(s: Source, p: nat, v: Value, fmt: bool, d: nat)
    requires Sound(s) && ReadsIntegers(s.strtod) && v.Object? && Stands(s.content, s.length, p, v, fmt, d)
    ensures Derives(s, p, v, p + |Printed(v, fmt, d)|)
    decreases v, 0, |v.members| + 1
  {
    hide Derives, At, ReadsIntegers, MembersText, Printed, Stands, Good, MembersFrom, MembersAt, Blank, KeyText;
    var r := ObjectAt(s.content, s.length, p, v, fmt, d);
    StandsFirst(s.content, s.length, p, v, fmt, d);
    StandsFacts(s.content, s.length, p, v, fmt, d);
    PrintedFirst(v, fmt, d);
    if v.members == [] {
      HaltsStops(s, p + 1, r);
      EmptyDerives(s, p, r + 1);
    } else {
      BehindBlanks(s, p, r, v, fmt, d + 1);
      var ls := BuildMembers(s, p, r, v, 0, fmt, d + 1);
      MembersAll(s, p, v, ls);
    }
  }

  lemma BehindBlanks(s: Source, p: nat, r: nat, v: Value, fmt: bool, d: nat)
    requires Halts(s.content, s.length, p + 1, r) && MembersAt(s.content, s.length, r, r, v, 0, fmt, d)
    ensures MembersAt(s.content, s.length, p + 1, r, v, 0, fmt, d)
  {
    hide KeyText, At, Good;
  }

  lemma {:induction false} BuildMembers(s: Source, p: nat, r: nat, v: Value, i: nat, fmt: bool, d: nat)
    returns (ls: seq<MemberPlace>)
    requires Sound(s) && ReadsIntegers(s.strtod) && v.Object? && d > 0 &&
      MembersAt(s.content, s.length, p + 1, r, v, i, fmt, d)
    ensures i < |v.members| && MembersFrom(s, p, v, i, ls, CLOSE_BRACE) && ls != []
    ensures ls[|ls| - 1].value.stop + 1 == r + |KeyText(v, i, fmt, d)|
    decreases v, 0, |v.members| - i
  {
    hide At, ReadsIntegers, KeyText, Printed, Stands, Good, MembersFrom, MembersAt, Blank, Optional, Halts, Derives,
      MemberStands, ValueEnd;
    var end := PrintedMember(s.content, s.length, p + 1, r, v, i, fmt, d);
    var m, more := v.members[i], i + 1 < |v.members|;
    var q := ValueEnd(v, i, fmt, d, r);
    var start := MemberParts(s, r, m, fmt, d, q, v, i);
    PrintedDerives(s, start, m.value, fmt, d);
    var l := MemberPlace(r, r + |Quoted(m.name)|, r + |Quoted(m.name)|, Place(start, q, if more then q else end));
    NamedAt(s, m, p + 1, l, fmt, d);
    if more {
      var rest := BuildMembers(s, q, end, v, i + 1, fmt, d);
      MembersCons(s, p, v, i, l, rest);
      ls := [l] + rest;
    } else {
      MembersOne(s, p, v, i, l);
      ls := [l];
    }
  }

  lemma MemberParts(s: Source, r: nat, m: Member, fmt: bool, d: nat, q: nat, v: Value, i: nat) returns (start: nat)
    requires Sound(s) && MemberStands(s.content, s.length, r, m, fmt, d)
    requires v.Object? && i < |v.members| && m == v.members[i] && q == ValueEnd(v, i, fmt, d, r)
    ensures start == r + |Quoted(m.name)| + 1 + |Optional(fmt, TAB)| && q == start + |Printed(m.value, fmt, d)|
    ensures Stands(s.content, s.length, start, m.value, fmt, d)
  {
    start := r + |Quoted(m.name)| + 1 + |Optional(fmt, TAB)|;
  }

  lemma NamedAt(s: Source, m: Member, p: nat, l: MemberPlace, fmt: bool, d: nat)
    requires Sound(s) && MemberStands(s.content, s.length, l.start, m, fmt, d) && Blank(s.content, p, l.start)
    requires l.end == l.colon == l.start + |Quoted(m.name)| && l.value.start == l.colon + 1 + |Optional(fmt, TAB)|
    requires Derives(s, l.value.start, m.value, l.value.end) && Halts(s.content, s.length, l.value.end, l.value.stop)
    ensures MemberAt(s, m.name, m.value, p, l)
  {
    hide Derives, At, Quoted, Printed, Good;
    QuotedIs(s.content, l.start, m.name);
    LiteralFirst(s.content, l.start, m.name, l.end);
    DerivesFirst(s, l.value.start, m.value, l.value.end);
    ElementAt(s, m.value, l.colon + 1, l.value);
    hide LiteralIs, ItemAt;
  }

  lemma MembersOne(s: Source, p: nat, v: Value, i: nat, l: MemberPlace)
    requires v.Object? && i + 1 == |v.members| && MemberAt(s, v.members[i].name, v.members[i].value, p + 1, l)
    requires l.value.stop < s.length <= |s.content| && s.content[l.value.stop] == CLOSE_BRACE
    ensures MembersFrom(s, p, v, i, [l], CLOSE_BRACE)
  {
    hide ItemAt, LiteralIs;
  }

  lemma MembersCons(s: Source, p: nat, v: Value, i: nat, l: MemberPlace, rest: seq<MemberPlace>)
    requires v.Object? && i + 1 < |v.members| && MemberAt(s, v.members[i].name, v.members[i].value, p + 1, l)
    requires l.value.stop < s.length <= |s.content| && s.content[l.value.stop] == COMMA
    requires MembersFrom(s, l.value.stop, v, i + 1, rest, CLOSE_BRACE)
    ensures MembersFrom(s, p, v, i, [l] + rest, CLOSE_BRACE)
  {
    hide MemberAt;
    var ls := [l] + rest;
    forall k | 0 <= k < |ls|
      ensures MemberStep(s, p, v, i, ls, CLOSE_BRACE, k)
    {
      if k > 0 {
        assert MemberStep(s, l.value.stop, v, i + 1, rest, CLOSE_BRACE, k - 1);
        assert ls[k] == rest[k - 1] && MemberStart(p, ls, k) == MemberStart(l.value.stop, rest, k - 1) &&
          i + k == i + 1 + (k - 1);
      }
    }
  }

  /**
   * Round trip: the text a value is printed as, formatted or not, is parsed into that value again, if it is printed
   * at all and not nested too deeply.
   */
  method PrintThenParse(v: Value, fmt: bool, requireNull: bool, strtod: Text -> Conversion)
    returns (printed: bool, r: Parsed)
    requires Good(v) && ReadsIntegers(strtod) && forall t: Text :: strtod(t).consumed <= |t|
    ensures printed <==> |Printed(v, fmt, 0)| + 2 <= INT_MAX
    ensures printed && Nesting(v) <= NESTING_LIMIT ==> r.Item? && r.item == v
    ensures printed && Nesting(v) > NESTING_LIMIT ==> r == Failed
  {
    hide ReadsIntegers, Nesting, Printed, Good, TextDerives;
    r := Failed;
    var text;
    printed, text := Print(v, fmt);
    if printed {
      var source := Source(text, |text|, strtod);
      WholeText(source, Printed(v, fmt, 0), v, fmt, requireNull);
      var overrun;
      r, overrun := ParseWithLengthOpts(source, requireNull);
      assert TextDerives(source, requireNull, 0, v, |Printed(v, fmt, 0)|);
    }
  }

  /** A printed value and its terminator derive the value. */
  lemma WholeText(s: Source, t: Text, v: Value, fmt: bool, requireNull: bool)
    requires Good(v) && t == Printed(v, fmt, 0) && s.content == t + [0] && s.length == |t| + 1
    requires Sound(s) && ReadsIntegers(s.strtod)
    ensures TextDerives(s, requireNull, 0, v, |t|)
  {
    hide Printed, Good, Derives, ReadsIntegers;
    assert s.content[0..|t|] == t;
    PrintedDerives(s, 0, v, fmt, 0);
    DerivesFirst(s, 0, v, |t|);
    StandsFirst(s.content, s.length, 0, v, fmt, 0);
    assert |s.content| >= 3 ==> s.content[..3][0] == s.content[0];
  }

  // ----- The comma at the end -----

  /** The seven bytes {"a":1, */
  const UNFINISHED: Text := [OPEN_BRACE, QUOTE, 97, QUOTE, COLON, 49, COMMA]

  /** Parsing them as a text of length 7, with nothing behind it, looks at the byte behind them. */
  method UnfinishedOverruns(strtod: Text -> Conversion) returns (r: Parsed, overrun: bool)
    requires ReadsIntegers(strtod) && forall t: Text :: strtod(t).consumed <= |t|
    ensures overrun && r == Failed
  {
    hide Breaks, Fits, ReadsIntegers, BreaksBehind;
    var source := Source(UNFINISHED, 7, strtod);
    UnfinishedBreaks(source);
    r, overrun := ParseWithLengthOpts(source, false);
  }

  lemma UnfinishedBreaks(s: Source)
    requires s.content == UNFINISHED && s.length == 7 && Sound(s) && ReadsIntegers(s.strtod)
    ensures BreaksBehind(s, BomLength(s), 0)
  {
    hide ReadsIntegers, Derives, ItemAt, MemberAt, LiteralIs, Fits, Breaks, Delimited, At, OpenMembers;
    var v := Object([Member([97], Number(1.0, 1))]);
    var l := MemberPlace(1, 4, 4, Place(5, 6, 6));
    assert UNFINISHED[..3][0] == OPEN_BRACE;
    UnfinishedParts();
    QuotedIs(s.content, 1, [97]);
    DecimalDerives(s, 5, 1);
    ElementAt(s, Number(1.0, 1), 5, l.value);
    MemberHere(s, l);
    FitsMeans(v, 0);
    FitsMeans(Number(1.0, 1), 1);
    OpenOne(s, v, l);
    BreaksInObject(s, 0, 0, v, [l]);
    assert StopsAt(s, 0, 0);
  }

  lemma UnfinishedParts()
    ensures At(UNFINISHED, 1, Quoted([97])) && |Quoted([97])| == 3
    ensures At(UNFINISHED, 5, Decimal(1)) && |Decimal(1)| == 1 && Delimited(UNFINISHED, 7, 6)
  {
    assert [97 as byte][1..] == [];
    assert Quoted([97]) == [QUOTE, 97, QUOTE] == UNFINISHED[1..4];
    assert Decimal(1) == [49] == UNFINISHED[5..6];
  }

  lemma MemberHere(s: Source, l: MemberPlace)
    requires Sound(s) && s.content == UNFINISHED && s.length == 7 && l == MemberPlace(1, 4, 4, Place(5, 6, 6))
    requires LiteralIs(s.content, 1, [97], 4) && ItemAt(s, Number(1.0, 1), 5, l.value)
    ensures MemberAt(s, [97], Number(1.0, 1), 1, l)
  {
    hide LiteralIs, ItemAt;
  }

  lemma OpenOne(s: Source, v: Value, l: MemberPlace)
    requires Sound(s) && s.content == UNFINISHED && s.length == 7 && v == Object([Member([97], Number(1.0, 1))]) &&
      Fits(v, 0)
    requires MemberAt(s, [97], Number(1.0, 1), 1, l) && l.value.stop == 6
    ensures OpenMembers(s, 0, 0, v, [l])
  {
    hide MemberAt, Fits;
    assert MemberStep(s, 0, v, 0, [l], COMMA, 0);
  }
}
