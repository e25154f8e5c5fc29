/**
 * The texts the parser is meant to read: which values a stretch of text derives, by the grammar of RFC 8259 in the
 * parser's reading of it, and which texts break off where the parser looks at a byte too many.
 */
module JsonGrammar {
  import opened Bytes
  import opened JsonText
  import opened JsonStringParse

  const NESTING_LIMIT: nat := 1000
  const NUMBER_SIZE: nat := 63

  /** What the C library's strtod makes of a text: a number, and how many bytes of the text it took. */
  datatype Conversion = Conversion(number: real, consumed: nat)

  /** The bytes handed to the parser, of which it is told to read so many, and the C library's strtod. */
  datatype Source = Source(content: Text, length: nat, strtod: Text -> Conversion)

  /** The bytes are there, and strtod takes no more than it is given. */
  ghost predicate Sound(s: Source) {
    s.length <= |s.content| && forall t: Text :: s.strtod(t).consumed <= |t|
  }

  /** strtod takes the whole of a decimal integer of at most 32 bits, and makes of it the number it stands for. */
  ghost predicate ReadsIntegers(strtod: Text -> Conversion) {
    forall t: Text :: IsInteger(t) && INT_MIN <= IntegerValue(t) <= INT_MAX ==>
      strtod(t) == Conversion(IntegerValue(t) as real, |t|)
  }

  /** So it reads what is printed for a number as that number. */
  lemma ReadsDecimal(strtod: Text -> Conversion, n: int)
    requires ReadsIntegers(strtod) && INT_MIN <= n <= INT_MAX
    ensures strtod(Decimal(n)) == Conversion(n as real, |Decimal(n)|)
  {
    hide Decimal, IsInteger, IntegerValue;
    DecimalIs(n);
  }

  /** A double cut to an int, with saturation. */
  function Saturated(x: real): (n: int)
    ensures INT_MIN <= n <= INT_MAX
  {
    if x >= INT_MAX as real then INT_MAX
    else if x <= INT_MIN as real then INT_MIN
    else if x >= 0.0 then x.Floor else -(-x).Floor
  }

  /** The part in front of the point, for numbers of at most 32 bits, and else the nearest number of 32 bits. */
  lemma SaturatedIs(x: real)
    ensures var n := Saturated(x);
      && (-2147483648.0 <= x <= 2147483647.0 ==>
           (x >= 0.0 ==> n as real <= x < n as real + 1.0) && (x <= 0.0 ==> n as real - 1.0 < x <= n as real))
      && (x > 2147483647.0 ==> n == 2147483647) && (x < -2147483648.0 ==> n == -2147483648)
  {
  }

  /** Only blanks from i to j. */
  ghost predicate Blank(c: Text, i: nat, j: nat) {
    i <= j <= |c| && forall k :: i <= k < j ==> c[k] <= 32
  }

  /** From p on, blanks up to q and something else there. */
  ghost predicate StopsAt(s: Source, p: nat, q: nat) {
    p <= q < s.length <= |s.content| && Blank(s.content, p, q) && s.content[q] > 32
  }

  /** If anything but blanks follows p, it is at q. */
  ghost predicate StopsOnlyAt(s: Source, p: nat, q: nat) {
    forall r: nat :: StopsAt(s, p, r) ==> r == q
  }

  ghost predicate OnlyBlanks(s: Source, p: nat) {
    forall r: nat :: !StopsAt(s, p, r)
  }

  /** Where the bytes that may belong to a number end, of which i have been seen. */
  ghost function NumberRun(s: Source, p: nat, i: nat): (r: nat)
    requires s.length <= |s.content| && p + i <= s.length && i <= NUMBER_SIZE
    ensures i <= r <= NUMBER_SIZE && p + r <= s.length
    decreases NUMBER_SIZE - i
  {
    if i < 63 && p + i < s.length && InNumber(s.content[p + i]) then NumberRun(s, p, i + 1) else i
  }

  ghost function NumberText(s: Source, p: nat): (t: Text)
    requires s.length <= |s.content| && p <= s.length
  {
    s.content[p..p + NumberRun(s, p, 0)]
  }

  // ----- Values -----

  /** Where an element begins and ends, and where the next byte that is no blank is. */
  datatype Place = Place(start: nat, end: nat, stop: nat)

  /** The same for a member: its name, the colon and its value. */
  datatype MemberPlace = MemberPlace(start: nat, end: nat, colon: nat, value: Place)

  /** The text from p up to e derives the value. */
  ghost predicate Derives(s: Source, p: nat, v: Value, e: nat)
    decreases v, 3
  {
    && Sound(s) && p < e <= s.length
    && match v
       case Null => e == p + 4 && s.content[p..e] == NULL_TEXT
       case False => e == p + 5 && s.content[p..e] == FALSE_TEXT
       case True => e == p + 4 && s.content[p..e] == TRUE_TEXT
       case Number(x, n) => NumberIs(s, p, x, n, e)
       case String(t) => LiteralIs(s.content, p, t, e)
       case Array(items) =>
         s.content[p] == OPEN_BRACKET &&
         if items == [] then StopsAt(s, p + 1, e - 1) && s.content[e - 1] == CLOSE_BRACKET
         else exists ls: seq<Place> :: ItemsDerive(s, p, v, ls, e)
       case Object(members) =>
         s.content[p] == OPEN_BRACE &&
         if members == [] then StopsAt(s, p + 1, e - 1) && s.content[e - 1] == CLOSE_BRACE
         else exists ls: seq<MemberPlace> :: MembersDerive(s, p, v, ls, e)
  }

  ghost predicate NumberIs(s: Source, p: nat, x: real, n: int, e: nat)
    requires Sound(s) && p < s.length
  {
    var r := s.strtod(NumberText(s, p));
    && (s.content[p] == MINUS || IsDigit(s.content[p]))
    && r.consumed > 0 && e == p + r.consumed && x == r.number && n == Saturated(x)
  }

  /** Behind the byte at p, elements separated by commas, and a bracket. */
  ghost predicate ItemsDerive(s: Source, p: nat, v: Value, ls: seq<Place>, e: nat)
    requires v.Array?
    decreases v, 2
  {
    ItemsFrom(s, p, v, 0, ls, CLOSE_BRACKET) && ls != [] && e == ls[|ls| - 1].stop + 1
  }

  /** Elements from the i-th on, each followed by a comma, but the last by some byte. */
  ghost predicate ItemsFrom(s: Source, p: nat, v: Value, i: nat, ls: seq<Place>, last: byte)
    requires v.Array?
    decreases v, 1
  {
    Sound(s) && i + |ls| == |v.items| && forall k :: 0 <= k < |ls| ==> ItemStep(s, p, v, i, ls, last, k)
  }

  ghost predicate ItemStep(s: Source, p: nat, v: Value, i: nat, ls: seq<Place>, last: byte, k: nat)
    requires v.Array? && i + |ls| == |v.items| && k < |ls|
    decreases v, 0
  {
    && ItemAt(s, v.items[i + k], ItemStart(p, ls, k), ls[k]) && ls[k].stop < s.length <= |s.content|
    && s.content[ls[k].stop] == if k + 1 < |ls| then COMMA else last
  }

  /** Where the k-th element may begin. */
  ghost function ItemStart(p: nat, ls: seq<Place>, k: nat): (q: nat)
    requires k <= |ls|
  {
    (if k == 0 then p else ls[k - 1].stop) + 1
  }

  ghost predicate ItemAt(s: Source, v: Value, p: nat, l: Place)
    decreases v, 4
  {
    Sound(s) && StopsAt(s, p, l.start) && Derives(s, l.start, v, l.end) && StopsAt(s, l.end, l.stop)
  }

  /** Behind the byte at p, members separated by commas, and a brace. */
  ghost predicate MembersDerive(s: Source, p: nat, v: Value, ls: seq<MemberPlace>, e: nat)
    requires v.Object?
    decreases v, 2
  {
    MembersFrom(s, p, v, 0, ls, CLOSE_BRACE) && ls != [] && e == ls[|ls| - 1].value.stop + 1
  }

  ghost predicate MembersFrom(s: Source, p: nat, v: Value, i: nat, ls: seq<MemberPlace>, last: byte)
    requires v.Object?
    decreases v, 1
  {
    Sound(s) && i + |ls| == |v.members| && forall k :: 0 <= k < |ls| ==> MemberStep(s, p, v, i, ls, last, k)
  }

  ghost predicate MemberStep(s: Source, p: nat, v: Value, i: nat, ls: seq<MemberPlace>, last: byte, k: nat)
    requires v.Object? && i + |ls| == |v.members| && k < |ls|
    decreases v, 0
  {
    var m := v.members[i + k];
    && MemberAt(s, m.name, m.value, MemberStart(p, ls, k), ls[k]) && ls[k].value.stop < s.length <= |s.content|
    && s.content[ls[k].value.stop] == if k + 1 < |ls| then COMMA else last
  }

  ghost function MemberStart(p: nat, ls: seq<MemberPlace>, k: nat): (q: nat)
    requires k <= |ls|
  {
    (if k == 0 then p else ls[k - 1].value.stop) + 1
  }

  ghost predicate MemberAt(s: Source, name: Text, v: Value, p: nat, l: MemberPlace)
    decreases v, 5
  {
    && Sound(s) && StopsAt(s, p, l.start) && LiteralIs(s.content, l.start, name, l.end) && l.end <= s.length
    && StopsAt(s, l.end, l.colon) && s.content[l.colon] == COLON
    && ItemAt(s, v, l.colon + 1, l.value)
  }

  /** An array that is open behind some elements, each followed by a comma. */
  ghost predicate OpenItems(s: Source, p: nat, d: nat, v: Value, ls: seq<Place>) {
    v.Array? && p < s.length <= |s.content| && s.content[p] == OPEN_BRACKET && ItemsFrom(s, p, v, 0, ls, COMMA) &&
      Fits(v, d)
  }

  ghost predicate OpenMembers(s: Source, p: nat, d: nat, v: Value, ls: seq<MemberPlace>) {
    v.Object? && p < s.length <= |s.content| && s.content[p] == OPEN_BRACE && MembersFrom(s, p, v, 0, ls, COMMA) &&
      Fits(v, d)
  }

  /** A member's name and colon, and the place where its value begins. */
  ghost predicate OpenMember(s: Source, name: Text, p: nat, l: MemberPlace) {
    && StopsAt(s, p, l.start) && LiteralIs(s.content, l.start, name, l.end) && l.end <= s.length
    && StopsAt(s, l.end, l.colon) && s.content[l.colon] == COLON && StopsAt(s, l.colon + 1, l.value.start)
  }

  /**
   * The text from p on breaks off behind a comma of an object: the last byte there is a comma behind a member of an
   * object, which may lie in further arrays and objects that are still open.
   */
  ghost predicate Breaks(s: Source, p: nat, d: nat)
    decreases s.length - p
  {
    && Sound(s) && p < s.length == |s.content| && d < 1000
    && ((exists v, ls :: BreaksHere(s, p, d, v, ls))
        || (exists v, ls, x ::
              OpenItems(s, p, d, v, ls) && StopsAt(s, ItemStart(p, ls, |ls|), x) && p < x && Breaks(s, x, d + 1))
        || (exists v, ls, name, l ::
              && OpenMembers(s, p, d, v, ls) && OpenMember(s, name, MemberStart(p, ls, |ls|), l)
              && p < l.value.start < s.length && Breaks(s, l.value.start, d + 1)))
  }

  ghost predicate BreaksHere(s: Source, p: nat, d: nat, v: Value, ls: seq<MemberPlace>) {
    OpenMembers(s, p, d, v, ls) && ls != [] && MemberStart(p, ls, |ls|) == s.length
  }

  /** The same for the text behind blanks. */
  ghost predicate BreaksBehind(s: Source, p: nat, d: nat) {
    exists x :: StopsAt(s, p, x) && Breaks(s, x, d)
  }

  /** The same for a member, or the end of the text in its place. */
  ghost predicate MemberBreaks(s: Source, p: nat, d: nat) {
    p == |s.content| || exists name, l :: OpenMember(s, name, p, l) && Breaks(s, l.value.start, d)
  }

  // ----- Nesting -----

  lemma {:induction false} ItemsNestingFits(v: Value, i: nat, d: nat)
    requires v.Array? && i <= |v.items|
    ensures d + ItemsNesting(v, i) <= NESTING_LIMIT <==>
      d <= NESTING_LIMIT && forall k :: i <= k < |v.items| ==> d + Nesting(v.items[k]) <= NESTING_LIMIT
    decreases |v.items| - i
  {
    hide Nesting;
    if i < |v.items| {
      ItemsNestingFits(v, i + 1, d);
    }
  }

  lemma {:induction false} MembersNestingFits(v: Value, i: nat, d: nat)
    requires v.Object? && i <= |v.members|
    ensures d + MembersNesting(v, i) <= NESTING_LIMIT <==>
      d <= NESTING_LIMIT && forall k :: i <= k < |v.members| ==> d + Nesting(v.members[k].value) <= NESTING_LIMIT
    decreases |v.members| - i
  {
    hide Nesting;
    if i < |v.members| {
      MembersNestingFits(v, i + 1, d);
    }
  }

  /** A value is nested no deeper than the limit allows at depth d. */
  ghost predicate Fits(v: Value, d: nat) { d + Nesting(v) <= 1000 }

  lemma FitsMeans(v: Value, d: nat)
    requires d <= NESTING_LIMIT
    ensures v.Array? ==>
      (Fits(v, d) <==> d < NESTING_LIMIT && forall k :: 0 <= k < |v.items| ==> Fits(v.items[k], d + 1))
    ensures v.Object? ==>
      (Fits(v, d) <==> d < NESTING_LIMIT && forall k :: 0 <= k < |v.members| ==> Fits(v.members[k].value, d + 1))
    ensures !v.Array? && !v.Object? ==> Fits(v, d)
  {
    if v.Array? {
      ItemsNestingFits(v, 0, d + 1);
    } else if v.Object? {
      MembersNestingFits(v, 0, d + 1);
    }
    hide ItemsNesting, MembersNesting;
  }

  // ----- Steps of reading -----

  /** Every value begins with a byte that tells its kind. */
  lemma DerivesFirst(s: Source, p: nat, v: Value, e: nat)
    requires Derives(s, p, v, e)
    ensures Sound(s) && p < e <= s.length && s.content[p] > 32 && s.content[p] != CLOSE_BRACKET
    ensures v.Null? <==> s.content[p] == 110
    ensures v.False? <==> s.content[p] == 102
    ensures v.True? <==> s.content[p] == 116
    ensures v.String? <==> s.content[p] == QUOTE
    ensures v.Number? <==> s.content[p] == MINUS || IsDigit(s.content[p])
    ensures v.Array? <==> s.content[p] == OPEN_BRACKET
    ensures v.Object? <==> s.content[p] == OPEN_BRACE
  {
    hide LiteralIs, ItemsDerive, MembersDerive;
    if v.Null? || v.False? || v.True? {
      assert s.content[p] == s.content[p..e][0];
    }
    if v.String? {
      LiteralFirst(s.content, p, v.valuestring, e);
    }
  }

  lemma LiteralFirst(c: Text, p: nat, t: Text, e: nat)
    requires LiteralIs(c, p, t, e)
    ensures p < e <= |c| && c[p] == QUOTE
  {
  }

  /** Blanks in front of an element make no difference. */
  lemma ItemShift(s: Source, v: Value, p: nat, q: nat, l: Place)
    requires Sound(s) && Blank(s.content, p, q)
    ensures ItemAt(s, v, p, l) <==> ItemAt(s, v, q, l)
  {
    hide Derives;
    StopsShift(s, p, q, l.start);
  }

  lemma StopsShift(s: Source, p: nat, q: nat, r: nat)
    requires Blank(s.content, p, q)
    ensures StopsAt(s, p, r) <==> StopsAt(s, q, r)
  {
  }

  lemma MemberShift(s: Source, name: Text, v: Value, p: nat, q: nat, l: MemberPlace)
    requires Sound(s) && Blank(s.content, p, q)
    ensures MemberAt(s, name, v, p, l) <==> MemberAt(s, name, v, q, l)
  {
    hide ItemAt, LiteralIs;
    StopsShift(s, p, q, l.start);
  }

  lemma ItemAscends(s: Source, v: Value, p: nat, l: Place)
    requires ItemAt(s, v, p, l)
    ensures p <= l.start < l.end <= l.stop < s.length <= |s.content| && s.content[l.stop] > 32
  {
    hide Derives;
    DerivesFirst(s, l.start, v, l.end);
  }

  lemma MemberAscends(s: Source, name: Text, v: Value, p: nat, l: MemberPlace)
    requires MemberAt(s, name, v, p, l)
    ensures p <= l.start < l.end <= l.colon < l.value.stop < s.length <= |s.content| && s.content[l.value.stop] > 32
  {
    hide ItemAt, LiteralIs;
    LiteralFirst(s.content, l.start, name, l.end);
    ItemAscends(s, v, l.colon + 1, l.value);
  }

  /** One element more of an array that began at p. */
  lemma ItemsMore(s: Source, p: nat, v: Value, ls: seq<Place>, x: Value, l: Place, last: byte)
    requires v.Array? && ItemsFrom(s, p, v, 0, ls, COMMA) && ItemAt(s, x, ItemStart(p, ls, |ls|), l)
    requires l.stop < s.length && s.content[l.stop] == last
    ensures ItemsFrom(s, p, Array(v.items + [x]), 0, ls + [l], last)
  {
    hide ItemAt;
    var w, ms := Array(v.items + [x]), ls + [l];
    forall k | 0 <= k < |ms|
      ensures ItemStep(s, p, w, 0, ms, last, k)
    {
      if k < |ls| {
        assert ItemStep(s, p, v, 0, ls, COMMA, k);
      }
    }
  }

  lemma ItemsAll(s: Source, p: nat, v: Value, ls: seq<Place>)
    requires v.Array? && ItemsFrom(s, p, v, 0, ls, CLOSE_BRACKET) && ls != [] && p < s.length &&
      s.content[p] == OPEN_BRACKET
    ensures Derives(s, p, v, ls[|ls| - 1].stop + 1)
  {
    ItemsAscend(s, p, v, ls, CLOSE_BRACKET, |ls| - 1);
    hide ItemsFrom;
    assert ItemsDerive(s, p, v, ls, ls[|ls| - 1].stop + 1);
  }

  lemma {:induction false} ItemsAscend(s: Source, p: nat, v: Value, ls: seq<Place>, last: byte, k: nat)
    requires v.Array? && ItemsFrom(s, p, v, 0, ls, last) && k < |ls|
    ensures p < ls[k].stop < s.length
  {
    hide ItemAt;
    if k > 0 {
      ItemsAscend(s, p, v, ls, last, k - 1);
    }
    assert ItemStep(s, p, v, 0, ls, last, k);
    ItemAscends(s, v.items[k], ItemStart(p, ls, k), ls[k]);
  }

  lemma ItemPart(s: Source, p: nat, v: Value, ls: seq<Place>, last: byte, k: nat)
    requires v.Array? && ItemsFrom(s, p, v, 0, ls, last) && k < |ls|
    ensures |ls| == |v.items| && ItemAt(s, v.items[k], ItemStart(p, ls, k), ls[k]) &&
      ls[k].stop < s.length <= |s.content|
    ensures s.content[ls[k].stop] == (if k + 1 < |ls| then COMMA else last)
  {
    hide ItemAt, ItemStart;
    assert ItemStep(s, p, v, 0, ls, last, k);
  }

  /** Between the brackets of an array there are its elements. */
  lemma ArrayParts(s: Source, p: nat, v: Value, e: nat) returns (ls: seq<Place>)
    requires Derives(s, p, v, e) && v.Array?
    ensures Sound(s) && p < e <= s.length && |ls| == |v.items|
    ensures v.items == [] ==> StopsAt(s, p + 1, e - 1) && s.content[e - 1] == CLOSE_BRACKET
    ensures v.items != [] ==> ItemsDerive(s, p, v, ls, e)
  {
    hide ItemStep;
    if v.items == [] {
      ls := [];
    } else {
      ls :| ItemsDerive(s, p, v, ls, e);
      ItemsCount(s, p, v, ls, e);
    }
  }

  lemma ItemsCount(s: Source, p: nat, v: Value, ls: seq<Place>, e: nat)
    requires v.Array? && ItemsDerive(s, p, v, ls, e)
    ensures |ls| == |v.items| && ls != [] && e == ls[|ls| - 1].stop + 1 && ItemsFrom(s, p, v, 0, ls, CLOSE_BRACKET)
  {
  }

  lemma MembersMore(s: Source, p: nat, v: Value, ls: seq<MemberPlace>, m: Member, l: MemberPlace, last: byte)
    requires v.Object? && MembersFrom(s, p, v, 0, ls, COMMA) &&
      MemberAt(s, m.name, m.value, MemberStart(p, ls, |ls|), l)
    requires l.value.stop < s.length && s.content[l.value.stop] == last
    ensures MembersFrom(s, p, Object(v.members + [m]), 0, ls + [l], last)
  {
    hide MemberAt;
    var w, ms := Object(v.members + [m]), ls + [l];
    forall k | 0 <= k < |ms|
      ensures MemberStep(s, p, w, 0, ms, last, k)
    {
      if k < |ls| {
        assert MemberStep(s, p, v, 0, ls, COMMA, k);
      }
    }
  }

  lemma MembersAll(s: Source, p: nat, v: Value, ls: seq<MemberPlace>)
    requires v.Object? && MembersFrom(s, p, v, 0, ls, CLOSE_BRACE) && ls != [] && p < s.length &&
      s.content[p] == OPEN_BRACE
    ensures Derives(s, p, v, ls[|ls| - 1].value.stop + 1)
  {
    MembersAscend(s, p, v, ls, CLOSE_BRACE, |ls| - 1);
    hide MembersFrom;
    assert MembersDerive(s, p, v, ls, ls[|ls| - 1].value.stop + 1);
  }

  lemma {:induction false} MembersAscend(s: Source, p: nat, v: Value, ls: seq<MemberPlace>, last: byte, k: nat)
    requires v.Object? && MembersFrom(s, p, v, 0, ls, last) && k < |ls|
    ensures p < ls[k].value.stop < s.length
  {
    hide MemberAt;
    if k > 0 {
      MembersAscend(s, p, v, ls, last, k - 1);
    }
    assert MemberStep(s, p, v, 0, ls, last, k);
    MemberAscends(s, v.members[k].name, v.members[k].value, MemberStart(p, ls, k), ls[k]);
  }

  lemma MemberPart(s: Source, p: nat, v: Value, ls: seq<MemberPlace>, last: byte, k: nat)
    requires v.Object? && MembersFrom(s, p, v, 0, ls, last) && k < |ls|
    ensures |ls| == |v.members| && MemberAt(s, v.members[k].name, v.members[k].value, MemberStart(p, ls, k), ls[k])
    ensures ls[k].value.stop < s.length <= |s.content| &&
      s.content[ls[k].value.stop] == (if k + 1 < |ls| then COMMA else last)
  {
    hide MemberAt, MemberStart;
    assert MemberStep(s, p, v, 0, ls, last, k);
  }

  /** Between the braces of an object there are its members. */
  lemma ObjectParts(s: Source, p: nat, v: Value, e: nat) returns (ls: seq<MemberPlace>)
    requires Derives(s, p, v, e) && v.Object?
    ensures Sound(s) && p < e <= s.length && |ls| == |v.members|
    ensures v.members == [] ==> StopsAt(s, p + 1, e - 1) && s.content[e - 1] == CLOSE_BRACE
    ensures v.members != [] ==> MembersDerive(s, p, v, ls, e)
  {
    hide MemberStep;
    if v.members == [] {
      ls := [];
    } else {
      ls :| MembersDerive(s, p, v, ls, e);
      MembersCount(s, p, v, ls, e);
    }
  }

  lemma MembersCount(s: Source, p: nat, v: Value, ls: seq<MemberPlace>, e: nat)
    requires v.Object? && MembersDerive(s, p, v, ls, e)
    ensures |ls| == |v.members| && ls != [] && e == ls[|ls| - 1].value.stop + 1 &&
      MembersFrom(s, p, v, 0, ls, CLOSE_BRACE)
  {
  }

  /** Words, numbers and strings. */
  lemma SimpleDerives(s: Source, p: nat, v: Value, e: nat)
    requires Sound(s) && !v.Array? && !v.Object?
    ensures Derives(s, p, v, e) <==>
      && p < e <= s.length
      && (v.Null? ==> e == p + 4 && s.content[p..e] == NULL_TEXT)
      && (v.False? ==> e == p + 5 && s.content[p..e] == FALSE_TEXT)
      && (v.True? ==> e == p + 4 && s.content[p..e] == TRUE_TEXT)
      && (v.Number? ==> NumberIs(s, p, v.valuedouble, v.valueint, e))
      && (v.String? ==> LiteralIs(s.content, p, v.valuestring, e))
  {
    hide LiteralIs, NumberIs;
  }

  lemma WordsFirst(c: Text, p: nat)
    ensures p + 4 <= |c| && c[p..p + 4] == NULL_TEXT ==> c[p] == 110
    ensures p + 5 <= |c| && c[p..p + 5] == FALSE_TEXT ==> c[p] == 102
    ensures p + 4 <= |c| && c[p..p + 4] == TRUE_TEXT ==> c[p] == 116
  {
    assert p + 4 <= |c| ==> c[p] == c[p..p + 4][0];
    assert p + 5 <= |c| ==> c[p] == c[p..p + 5][0];
  }

  lemma EmptyDerives(s: Source, p: nat, e: nat)
    requires Sound(s) && p < e <= s.length && StopsAt(s, p + 1, e - 1)
    ensures s.content[p] == OPEN_BRACKET && s.content[e - 1] == CLOSE_BRACKET ==> Derives(s, p, Array([]), e)
    ensures s.content[p] == OPEN_BRACE && s.content[e - 1] == CLOSE_BRACE ==> Derives(s, p, Object([]), e)
  {
  }

  lemma Stops(s: Source, p: nat, q: nat)
    requires p <= q < s.length <= |s.content| && Blank(s.content, p, q) && s.content[q] > 32
    ensures StopsAt(s, p, q)
  {
  }

  lemma NoItems(s: Source, p: nat)
    requires Sound(s)
    ensures ItemsFrom(s, p, Array([]), 0, [], COMMA) && ItemsFrom(s, p, Array([]), 0, [], CLOSE_BRACKET)
    ensures MembersFrom(s, p, Object([]), 0, [], COMMA) && MembersFrom(s, p, Object([]), 0, [], CLOSE_BRACE)
  {
  }

  // ----- Texts that break off -----

  /** Such a text begins with a bracket or a brace, and ends with a comma. */
  lemma {:induction false} BreaksFirst(s: Source, p: nat, d: nat)
    requires Breaks(s, p, d)
    ensures Sound(s) && p < s.length == |s.content| && d < NESTING_LIMIT
    ensures (s.content[p] == OPEN_BRACKET || s.content[p] == OPEN_BRACE) && s.content[s.length - 1] == COMMA
    decreases s.length - p
  {
    hide ItemsFrom, Fits, LiteralIs, MembersFrom;
    if v, ls :| BreaksHere(s, p, d, v, ls) {
      LastComma(s, p, v, ls);
    } else if v, ls, x :|
      OpenItems(s, p, d, v, ls) && StopsAt(s, ItemStart(p, ls, |ls|), x) && p < x && Breaks(s, x, d + 1)
    {
      BreaksFirst(s, x, d + 1);
    } else {
      var v, ls, name, l :| OpenMembers(s, p, d, v, ls) && OpenMember(s, name, MemberStart(p, ls, |ls|), l)
        && p < l.value.start < s.length && Breaks(s, l.value.start, d + 1);
      BreaksFirst(s, l.value.start, d + 1);
    }
  }

  lemma LastComma(s: Source, p: nat, v: Value, ls: seq<MemberPlace>)
    requires v.Object? && MembersFrom(s, p, v, 0, ls, COMMA) && ls != [] && MemberStart(p, ls, |ls|) == s.length
    ensures 0 < s.length <= |s.content| && s.content[s.length - 1] == COMMA
  {
    hide MembersFrom, MemberAt;
    MemberPart(s, p, v, ls, COMMA, |ls| - 1);
  }

  /** An array that breaks off has some elements, and then breaks off in another. */
  lemma OpenArray(s: Source, p: nat, d: nat) returns (v: Value, ls: seq<Place>)
    requires Breaks(s, p, d) && s.content[p] == OPEN_BRACKET
    ensures OpenItems(s, p, d, v, ls) && BreaksBehind(s, ItemStart(p, ls, |ls|), d + 1)
  {
    hide ItemsFrom, Fits, MembersFrom, OpenMember, StopsAt;
    var x :| exists v, ls ::
      OpenItems(s, p, d, v, ls) && StopsAt(s, ItemStart(p, ls, |ls|), x) && p < x && Breaks(s, x, d + 1);
    v, ls :| OpenItems(s, p, d, v, ls) && StopsAt(s, ItemStart(p, ls, |ls|), x) && p < x && Breaks(s, x, d + 1);
  }

  lemma OpenObject(s: Source, p: nat, d: nat) returns (v: Value, ls: seq<MemberPlace>)
    requires Breaks(s, p, d) && s.content[p] == OPEN_BRACE
    ensures OpenMembers(s, p, d, v, ls) && MemberBreaks(s, MemberStart(p, ls, |ls|), d + 1)
    ensures ls == [] ==> p + 1 < |s.content|
  {
    hide ItemsFrom, Fits, MembersFrom, OpenMember, StopsAt;
    if w, ks :| BreaksHere(s, p, d, w, ks) {
      v, ls := w, ks;
    } else {
      var w, ks, name, l :| OpenMembers(s, p, d, w, ks) && OpenMember(s, name, MemberStart(p, ks, |ks|), l)
        && p < l.value.start < s.length && Breaks(s, l.value.start, d + 1);
      v, ls := w, ks;
      OpenMemberAscends(s, name, MemberStart(p, ks, |ks|), l);
    }
  }

  lemma OpenMemberAscends(s: Source, name: Text, p: nat, l: MemberPlace)
    requires OpenMember(s, name, p, l)
    ensures p <= l.start < l.end <= l.colon < l.value.start < s.length <= |s.content|
    ensures s.content[l.start] == QUOTE && s.content[l.colon] == COLON
  {
    hide LiteralIs;
    LiteralFirst(s.content, l.start, name, l.end);
  }

  /** And the other way round. */
  lemma BreaksInArray(s: Source, p: nat, d: nat, v: Value, ls: seq<Place>)
    requires OpenItems(s, p, d, v, ls) && d < NESTING_LIMIT && BreaksBehind(s, ItemStart(p, ls, |ls|), d + 1)
    ensures Breaks(s, p, d)
  {
    hide ItemsFrom, Fits, StopsAt;
    var x :| StopsAt(s, ItemStart(p, ls, |ls|), x) && Breaks(s, x, d + 1);
    ItemsStart(s, p, v, ls);
    StopsInside(s, ItemStart(p, ls, |ls|), x);
    BreaksFirst(s, x, d + 1);
    hide BreaksHere, OpenMembers, OpenItems;
    assert OpenItems(s, p, d, v, ls) && StopsAt(s, ItemStart(p, ls, |ls|), x) && p < x && Breaks(s, x, d + 1);
  }

  lemma StopsInside(s: Source, p: nat, q: nat)
    requires StopsAt(s, p, q)
    ensures p <= q < s.length
  {
  }

  lemma ItemsStart(s: Source, p: nat, v: Value, ls: seq<Place>)
    requires v.Array? && ItemsFrom(s, p, v, 0, ls, COMMA)
    ensures p < ItemStart(p, ls, |ls|)
  {
    hide ItemsFrom;
    if ls != [] {
      ItemsAscend(s, p, v, ls, COMMA, |ls| - 1);
    }
  }

  lemma MembersStart(s: Source, p: nat, v: Value, ls: seq<MemberPlace>)
    requires v.Object? && MembersFrom(s, p, v, 0, ls, COMMA)
    ensures p < MemberStart(p, ls, |ls|)
  {
    hide MembersFrom;
    if ls != [] {
      MembersAscend(s, p, v, ls, COMMA, |ls| - 1);
    }
  }

  lemma BreaksInObject(s: Source, p: nat, d: nat, v: Value, ls: seq<MemberPlace>)
    requires Sound(s) && OpenMembers(s, p, d, v, ls) && d < NESTING_LIMIT &&
      MemberBreaks(s, MemberStart(p, ls, |ls|), d + 1)
    requires MemberStart(p, ls, |ls|) <= s.length && (ls == [] ==> p + 1 < |s.content|)
    ensures Breaks(s, p, d)
  {
    hide MembersFrom, Fits, OpenMember, BreaksBehind, OpenItems;
    MembersStart(s, p, v, ls);
    if MemberStart(p, ls, |ls|) == |s.content| {
      assert BreaksHere(s, p, d, v, ls);
    } else {
      var name, l :| OpenMember(s, name, MemberStart(p, ls, |ls|), l) && Breaks(s, l.value.start, d + 1);
      OpenMemberAscends(s, name, MemberStart(p, ls, |ls|), l);
      BreaksFirst(s, l.value.start, d + 1);
      hide OpenMembers, BreaksHere;
      assert OpenMembers(s, p, d, v, ls) && OpenMember(s, name, MemberStart(p, ls, |ls|), l)
        && p < l.value.start < s.length && Breaks(s, l.value.start, d + 1);
    }
  }

  lemma BreaksShift(s: Source, p: nat, q: nat, d: nat)
    requires Sound(s) && Blank(s.content, p, q)
    ensures BreaksBehind(s, p, d) <==> BreaksBehind(s, q, d)
  {
    hide Breaks, Blank, StopsAt;
    forall x: nat
      ensures StopsAt(s, p, x) <==> StopsAt(s, q, x)
    {
      StopsShift(s, p, q, x);
    }
  }

  // ----- The loops over elements and members -----

  /** What has been read of the array at p, when its loop is in front of the byte behind `offset`. */
  ghost predicate ItemsState(s: Source, p: nat, offset: nat, depth: nat, items: seq<Value>, read: seq<Place>,
    more: bool) {
    && p <= offset < s.length <= |s.content| && p < s.length && s.content[p] == OPEN_BRACKET
    && ItemsFrom(s, p, Array(items), 0, read, if more then COMMA else CLOSE_BRACKET)
    && (forall k :: 0 <= k < |items| ==> Fits(items[k], depth))
    && (if more then |read| == |items| && Blank(s.content, ItemStart(p, read, |read|), offset + 1)
      else Derives(s, p, Array(items), offset + 1))
  }

  /** Some of the elements of the array have been read. */
  ghost predicate ItemsRead(p: nat, v: Value, ls: seq<Place>, items: seq<Value>, read: seq<Place>) {
    && v.Array? && |read| == |items| <= |v.items| == |ls| && items == v.items[..|items|]
    && ItemStart(p, ls, |items|) == ItemStart(p, read, |items|)
  }

  /** What is to come, when the text derives v. */
  ghost predicate ItemsGoal(s: Source, p: nat, offset: nat, v: Value, ls: seq<Place>, e: nat, items: seq<Value>,
    read: seq<Place>, more: bool) {
    if more then ItemsRead(p, v, ls, items, read) && |items| < |v.items| && ItemsDerive(s, p, v, ls, e)
    else v == Array(items) && offset + 1 == e
  }

  /** It is so for whatever value the text derives. */
  ghost predicate ItemsFollow(s: Source, p: nat, offset: nat, items: seq<Value>, read: seq<Place>, more: bool) {
    forall v, e :: Derives(s, p, v, e) ==> exists ls :: ItemsGoal(s, p, offset, v, ls, e, items, read, more)
  }

  /** Before the loop: the next byte that is no blank is at q. */
  lemma ItemsAhead(s: Source, p: nat, v: Value, e: nat) returns (ls: seq<Place>, q: nat)
    requires Derives(s, p, v, e) && p < s.length <= |s.content| && s.content[p] == OPEN_BRACKET
    ensures v.Array? && q < s.length && StopsAt(s, p + 1, q) && (v.items == [] <==> s.content[q] == CLOSE_BRACKET)
    ensures ItemsGoal(s, p, q, v, ls, e, [], [], v.items != [])
  {
    hide Derives, ItemsDerive, ItemsFrom;
    DerivesFirst(s, p, v, e);
    ls := ArrayParts(s, p, v, e);
    q := e - 1;
    if v.items != [] {
      ItemsCount(s, p, v, ls, e);
      q := FirstItem(s, p, v, ls, CLOSE_BRACKET);
    }
  }

  /** The first byte behind the bracket that is no blank begins the first element. */
  lemma FirstItem(s: Source, p: nat, v: Value, ls: seq<Place>, last: byte) returns (q: nat)
    requires v.Array? && ItemsFrom(s, p, v, 0, ls, last) && ls != []
    ensures StopsAt(s, p + 1, q) && s.content[q] != CLOSE_BRACKET
  {
    hide ItemsFrom, Derives;
    ItemPart(s, p, v, ls, last, 0);
    DerivesFirst(s, ls[0].start, v.items[0], ls[0].end);
    q := ls[0].start;
  }

  lemma FirstMember(s: Source, p: nat, v: Value, ls: seq<MemberPlace>, last: byte) returns (q: nat)
    requires v.Object? && MembersFrom(s, p, v, 0, ls, last) && ls != []
    ensures StopsAt(s, p + 1, q) && s.content[q] != CLOSE_BRACE
  {
    hide MembersFrom, ItemAt, LiteralIs;
    MemberPart(s, p, v, ls, last, 0);
    LiteralFirst(s.content, ls[0].start, v.members[0].name, ls[0].end);
    q := ls[0].start;
  }

  /**
   * How the reading of a value at p ended: with its only derivation, or because there is none within the nesting limit.
   */
  ghost predicate Outcome(s: Source, p: nat, d: nat, ok: bool, item: Value, e: nat) {
    if ok then Derives(s, p, item, e) && Fits(item, d) && OnlyOne(s, p, item, e) else Refused(s, p, d)
  }

  ghost predicate OnlyOne(s: Source, p: nat, item: Value, e: nat) {
    forall v, f :: Derives(s, p, v, f) ==> v == item && f == e
  }

  ghost predicate Refused(s: Source, p: nat, d: nat) {
    forall v, e :: Derives(s, p, v, e) ==> !Fits(v, d)
  }

  /** The same for an element and the blanks around it. */
  ghost predicate ElementOutcome(s: Source, p: nat, d: nat, ok: bool, item: Value, stop: nat) {
    forall v, l :: ItemAt(s, v, p, l) ==> (ok <==> Fits(v, d)) && (ok ==> v == item && l.stop == stop)
  }

  ghost predicate MemberOutcome(s: Source, p: nat, d: nat, ok: bool, m: Member, stop: nat) {
    forall name, v, l :: MemberAt(s, name, v, p, l) ==>
      (ok <==> Fits(v, d)) && (ok ==> m == Member(name, v) && l.value.stop == stop)
  }

  lemma ItemsBegin(s: Source, p: nat, q: nat, d: nat, more: bool)
    requires Sound(s) && p < s.length && s.content[p] == OPEN_BRACKET && d < NESTING_LIMIT
    requires p < q < s.length && Blank(s.content, p + 1, q) && StopsOnlyAt(s, p + 1, q)
    requires more <==> s.content[q] != CLOSE_BRACKET
    ensures var offset := if more then q - 1 else q;
      ItemsState(s, p, offset, d + 1, [], [], more) && ItemsFollow(s, p, offset, [], [], more) &&
        ItemsOpen(s, p, d, [], [], more)
  {
    hide Derives, ItemsFrom, StopsAt, ItemsDerive, Breaks, Blank, Fits, BreaksBehind;
    var offset := if more then q - 1 else q;
    NoItems(s, p);
    if !more {
      Stops(s, p + 1, q);
      EmptyDerives(s, p, q + 1);
    }
    forall v, e | Derives(s, p, v, e)
      ensures exists ls :: ItemsGoal(s, p, offset, v, ls, e, [], [], more)
    {
      var ls, r := ItemsAhead(s, p, v, e);
      assert r == q;
      assert ItemsGoal(s, p, offset, v, ls, e, [], [], more);
    }
    if Breaks(s, p, d) {
      var v, ls := OpenArray(s, p, d);
      OpenStops(s, p, d, v, ls, q);
      assert ItemsBreak(s, p, d, v, ls, [], []);
    }
  }

  lemma OpenStops(s: Source, p: nat, d: nat, v: Value, ls: seq<Place>, q: nat)
    requires OpenItems(s, p, d, v, ls) && BreaksBehind(s, ItemStart(p, ls, |ls|), d + 1)
    requires q < s.length && StopsOnlyAt(s, p + 1, q)
    ensures s.content[q] != CLOSE_BRACKET && |ls| == |v.items|
  {
    hide Fits, StopsAt, Breaks;
    ItemsLength(s, p, v, ls, COMMA);
    hide ItemsFrom;
    if ls == [] {
      var x :| StopsAt(s, p + 1, x) && Breaks(s, x, d + 1);
      BreaksFirst(s, x, d + 1);
    } else {
      var r := FirstItem(s, p, v, ls, COMMA);
      assert r == q;
    }
  }

  lemma ItemsLength(s: Source, p: nat, v: Value, ls: seq<Place>, last: byte)
    requires v.Array? && ItemsFrom(s, p, v, 0, ls, last)
    ensures |ls| == |v.items|
  {
  }

  lemma MembersLength(s: Source, p: nat, v: Value, ls: seq<MemberPlace>, last: byte)
    requires v.Object? && MembersFrom(s, p, v, 0, ls, last)
    ensures |ls| == |v.members|
  {
  }

  /** Where nothing but blanks follows, there is no array. */
  lemma NoArray(s: Source, p: nat, d: nat)
    requires Sound(s) && p < s.length && s.content[p] == OPEN_BRACKET && OnlyBlanks(s, p + 1)
    ensures Refused(s, p, d) && !Breaks(s, p, d)
  {
    hide Derives, StopsAt, Breaks, ItemsGoal, ItemsFrom, BreaksBehind, Fits;
    forall v, e | Derives(s, p, v, e)
      ensures false
    {
      var ls, r := ItemsAhead(s, p, v, e);
    }
    if Breaks(s, p, d) {
      var v, ls := OpenArray(s, p, d);
      OpenSomewhere(s, p, d, v, ls);
    }
  }

  lemma OpenSomewhere(s: Source, p: nat, d: nat, v: Value, ls: seq<Place>)
    requires OpenItems(s, p, d, v, ls) && BreaksBehind(s, ItemStart(p, ls, |ls|), d + 1)
    ensures !OnlyBlanks(s, p + 1)
  {
    hide Fits, StopsAt, Breaks, ItemsFrom;
    if ls == [] {
      var x :| StopsAt(s, p + 1, x) && Breaks(s, x, d + 1);
    } else {
      var r := FirstItem(s, p, v, ls, COMMA);
    }
  }

  /** The elements read are the first of an array that breaks off later. */
  ghost predicate ItemsBreak(s: Source, p: nat, d: nat, v: Value, ls: seq<Place>, items: seq<Value>, read: seq<Place>) {
    OpenItems(s, p, d, v, ls) && BreaksBehind(s, ItemStart(p, ls, |ls|), d + 1) && ItemsRead(p, v, ls, items, read)
  }

  /** If the text breaks off, it still does. */
  ghost predicate ItemsOpen(s: Source, p: nat, d: nat, items: seq<Value>, read: seq<Place>, more: bool) {
    Breaks(s, p, d) ==> more && exists v, ls :: ItemsBreak(s, p, d, v, ls, items, read)
  }

  /** The next element is where the text has it. */
  lemma NextItem(s: Source, p: nat, offset: nat, v: Value, ls: seq<Place>, e: nat, items: seq<Value>, read: seq<Place>,
    depth: nat)
    requires Sound(s) && ItemsState(s, p, offset, depth, items, read, true) &&
      ItemsGoal(s, p, offset, v, ls, e, items, read, true)
    requires 0 < depth <= NESTING_LIMIT
    ensures v.Array? && |items| < |v.items| == |ls| && ItemAt(s, v.items[|items|], offset + 1, ls[|items|])
    ensures ls[|items|].stop < s.length <= |s.content|
    ensures s.content[ls[|items|].stop] == if |items| + 1 < |v.items| then COMMA else CLOSE_BRACKET
    ensures |items| + 1 == |v.items| ==> e == ls[|items|].stop + 1
    ensures !Fits(v.items[|items|], depth) ==> !Fits(v, depth - 1)
  {
    hide ItemAt, ItemsFrom, ItemsDerive, Fits, Derives;
    ItemsCount(s, p, v, ls, e);
    ItemPart(s, p, v, ls, CLOSE_BRACKET, |items|);
    ItemShift(s, v.items[|items|], ItemStart(p, ls, |items|), offset + 1, ls[|items|]);
    FitsMeans(v, depth - 1);
  }

  lemma StateMore(s: Source, p: nat, before: nat, offset: nat, depth: nat, items: seq<Value>, read: seq<Place>,
    x: Value, at: Place, more: bool)
    requires Sound(s) && ItemsState(s, p, before, depth, items, read, true) && Fits(x, depth) &&
      ItemAt(s, x, before + 1, at)
    requires before < offset == at.stop < s.length && s.content[offset] == if more then COMMA else CLOSE_BRACKET
    ensures ItemsState(s, p, offset, depth, items + [x], read + [at], more)
  {
    hide ItemAt, ItemsFrom, Fits, Derives, Sound;
    ItemShift(s, x, ItemStart(p, read, |read|), before + 1, at);
    ItemsMore(s, p, Array(items), read, x, at, if more then COMMA else CLOSE_BRACKET);
    if !more {
      ItemsAll(s, p, Array(items + [x]), read + [at]);
    }
  }

  lemma ReadMore(p: nat, v: Value, ls: seq<Place>, items: seq<Value>, read: seq<Place>, x: Value, at: Place)
    requires ItemsRead(p, v, ls, items, read) && |items| < |v.items| && x == v.items[|items|] &&
      at.stop == ls[|items|].stop
    ensures ItemsRead(p, v, ls, items + [x], read + [at])
  {
  }

  /** One element on, on the way of every derivation. */
  lemma FollowMore(s: Source, p: nat, before: nat, offset: nat, depth: nat, items: seq<Value>, read: seq<Place>,
    x: Value, at: Place, more: bool)
    requires Sound(s) && ItemsState(s, p, before, depth, items, read, true) &&
      ItemsFollow(s, p, before, items, read, true)
    requires 0 < depth <= NESTING_LIMIT && ElementOutcome(s, before + 1, depth, true, x, offset) &&
      at.stop == offset < s.length
    requires s.content[offset] == if more then COMMA else CLOSE_BRACKET
    ensures ItemsFollow(s, p, offset, items + [x], read + [at], more)
  {
    hide ItemsState, Derives, ItemAt, ItemsDerive, Fits, ItemsRead;
    forall v, e | Derives(s, p, v, e)
      ensures exists ls :: ItemsGoal(s, p, offset, v, ls, e, items + [x], read + [at], more)
    {
      var ls :| ItemsGoal(s, p, before, v, ls, e, items, read, true);
      NextItem(s, p, before, v, ls, e, items, read, depth);
      ReadMore(p, v, ls, items, read, x, at);
      ReadAll(p, v, ls, items + [x], read + [at]);
      assert ItemsGoal(s, p, offset, v, ls, e, items + [x], read + [at], more);
    }
  }

  lemma ReadAll(p: nat, v: Value, ls: seq<Place>, items: seq<Value>, read: seq<Place>)
    requires ItemsRead(p, v, ls, items, read)
    ensures v.Array? && |items| <= |v.items| && (|items| == |v.items| ==> v == Array(items))
  {
  }

  /** An element that is refused, or not followed by what should follow it. */
  lemma FollowFails(s: Source, p: nat, before: nat, offset: nat, depth: nat, items: seq<Value>, read: seq<Place>,
    ok: bool, x: Value)
    requires Sound(s) && ItemsState(s, p, before, depth, items, read, true) &&
      ItemsFollow(s, p, before, items, read, true)
    requires 0 < depth <= NESTING_LIMIT && ElementOutcome(s, before + 1, depth, ok, x, offset)
    requires ok && offset < s.length ==> s.content[offset] != COMMA && s.content[offset] != CLOSE_BRACKET
    ensures Refused(s, p, depth - 1)
  {
    hide ItemsState, Derives, ItemAt, ItemsDerive, Fits, ItemsRead;
    forall v, e | Derives(s, p, v, e)
      ensures !Fits(v, depth - 1)
    {
      var ls :| ItemsGoal(s, p, before, v, ls, e, items, read, true);
      NextItem(s, p, before, v, ls, e, items, read, depth);
    }
  }

  /** A text that breaks off does so in the next element or goes on behind it. */
  lemma NextOpen(s: Source, p: nat, before: nat, depth: nat, items: seq<Value>, read: seq<Place>, ok: bool, x: Value,
    stop: nat)
    returns (v: Value, ls: seq<Place>)
    requires 0 < depth <= NESTING_LIMIT && Sound(s) && ItemsState(s, p, before, depth, items, read, true) &&
      ItemsOpen(s, p, depth - 1, items, read, true)
    requires ElementOutcome(s, before + 1, depth, ok, x, stop) && Breaks(s, p, depth - 1)
    ensures BreaksBehind(s, before + 1, depth) ||
      (ok && stop < s.length <= |s.content| && s.content[stop] == COMMA &&
        ItemsBreak(s, p, depth - 1, v, ls, items, read)
       && |items| < |ls| == |v.items| && x == v.items[|items|] && stop == ls[|items|].stop)
  {
    hide Breaks, ItemsFrom, ItemAt, Fits, BreaksBehind, Blank;
    v, ls :| ItemsBreak(s, p, depth - 1, v, ls, items, read);
    ItemsLength(s, p, v, ls, COMMA);
    if |items| == |ls| {
      BreaksShift(s, ItemStart(p, ls, |ls|), before + 1, depth);
    } else {
      ItemPart(s, p, v, ls, COMMA, |items|);
      ItemShift(s, v.items[|items|], ItemStart(p, ls, |items|), before + 1, ls[|items|]);
      FitsMeans(v, depth - 1);
    }
  }

  lemma OpenMore(s: Source, p: nat, before: nat, offset: nat, depth: nat, items: seq<Value>, read: seq<Place>, x: Value,
    at: Place, more: bool)
    requires 0 < depth <= NESTING_LIMIT && Sound(s) && ItemsState(s, p, before, depth, items, read, true) &&
      ItemsOpen(s, p, depth - 1, items, read, true)
    requires ElementOutcome(s, before + 1, depth, true, x, offset) && at.stop == offset < s.length
    requires s.content[offset] == (if more then COMMA else CLOSE_BRACKET) && !BreaksBehind(s, before + 1, depth)
    ensures ItemsOpen(s, p, depth - 1, items + [x], read + [at], more)
  {
    hide ItemsState, Breaks, ItemAt, ItemsRead, BreaksBehind, OpenItems;
    if Breaks(s, p, depth - 1) {
      var v, ls := NextOpen(s, p, before, depth, items, read, true, x, offset);
      ReadMore(p, v, ls, items, read, x, at);
      assert ItemsBreak(s, p, depth - 1, v, ls, items + [x], read + [at]);
    }
  }

  /** An array whose next element fails breaks off exactly when that does. */
  lemma OpenFails(s: Source, p: nat, before: nat, offset: nat, depth: nat, items: seq<Value>, read: seq<Place>,
    ok: bool, x: Value)
    requires 0 < depth <= NESTING_LIMIT && Sound(s) && ItemsState(s, p, before, depth, items, read, true) &&
      ItemsOpen(s, p, depth - 1, items, read, true)
    requires ElementOutcome(s, before + 1, depth, ok, x, offset)
    requires ok && offset < s.length ==> s.content[offset] != COMMA
    ensures Breaks(s, p, depth - 1) <==> BreaksBehind(s, before + 1, depth)
  {
    hide Breaks, ItemAt, ItemsRead, BreaksBehind, Blank, ItemsFrom, Fits, Derives;
    if Breaks(s, p, depth - 1) {
      var v, ls := NextOpen(s, p, before, depth, items, read, ok, x, offset);
    }
    if BreaksBehind(s, before + 1, depth) {
      BreaksShift(s, ItemStart(p, read, |read|), before + 1, depth);
      FitsMeans(Array(items), depth - 1);
      BreaksInArray(s, p, depth - 1, Array(items), read);
    }
  }

  lemma ItemsDone(s: Source, p: nat, offset: nat, items: seq<Value>, read: seq<Place>, depth: nat)
    requires ItemsState(s, p, offset, depth, items, read, false) && 0 < depth <= NESTING_LIMIT
    requires ItemsFollow(s, p, offset, items, read, false) && ItemsOpen(s, p, depth - 1, items, read, false)
    ensures Outcome(s, p, depth - 1, true, Array(items), offset + 1) && !Breaks(s, p, depth - 1)
  {
    hide ItemsFrom, Fits, Derives, Breaks;
    FitsMeans(Array(items), depth - 1);
  }

  // The same for members.

  ghost predicate MembersState(s: Source, p: nat, offset: nat, depth: nat, ms: seq<Member>, read: seq<MemberPlace>,
    more: bool) {
    && p <= offset < s.length <= |s.content| && p < s.length && s.content[p] == OPEN_BRACE
    && MembersFrom(s, p, Object(ms), 0, read, if more then COMMA else CLOSE_BRACE)
    && (forall k :: 0 <= k < |ms| ==> Fits(ms[k].value, depth))
    && (if more then
          && |read| == |ms| && Blank(s.content, MemberStart(p, read, |read|), offset + 1)
          && (offset + 1 == |s.content| ==> read != [] && MemberStart(p, read, |read|) == offset + 1)
        else Derives(s, p, Object(ms), offset + 1))
  }

  ghost predicate MembersRead(p: nat, v: Value, ls: seq<MemberPlace>, ms: seq<Member>, read: seq<MemberPlace>) {
    && v.Object? && |read| == |ms| <= |v.members| == |ls| && ms == v.members[..|ms|]
    && MemberStart(p, ls, |ms|) == MemberStart(p, read, |ms|)
  }

  ghost predicate MembersGoal(s: Source, p: nat, offset: nat, v: Value, ls: seq<MemberPlace>, e: nat, ms: seq<Member>,
    read: seq<MemberPlace>, more: bool) {
    if more then MembersRead(p, v, ls, ms, read) && |ms| < |v.members| && MembersDerive(s, p, v, ls, e)
    else v == Object(ms) && offset + 1 == e
  }

  ghost predicate MembersFollow(s: Source, p: nat, offset: nat, ms: seq<Member>, read: seq<MemberPlace>, more: bool) {
    forall v, e :: Derives(s, p, v, e) ==> exists ls :: MembersGoal(s, p, offset, v, ls, e, ms, read, more)
  }

  ghost predicate MembersBreak(s: Source, p: nat, d: nat, v: Value, ls: seq<MemberPlace>, ms: seq<Member>,
    read: seq<MemberPlace>) {
    && OpenMembers(s, p, d, v, ls) && MemberBreaks(s, MemberStart(p, ls, |ls|), d + 1)
    && (ls == [] ==> p + 1 < |s.content|)
    && MembersRead(p, v, ls, ms, read)
  }

  ghost predicate MembersOpen(s: Source, p: nat, d: nat, ms: seq<Member>, read: seq<MemberPlace>, more: bool) {
    Breaks(s, p, d) ==> more && exists v, ls :: MembersBreak(s, p, d, v, ls, ms, read)
  }

  lemma MembersAhead(s: Source, p: nat, v: Value, e: nat) returns (ls: seq<MemberPlace>, q: nat)
    requires Derives(s, p, v, e) && p < s.length <= |s.content| && s.content[p] == OPEN_BRACE
    ensures v.Object? && q < s.length && StopsAt(s, p + 1, q) && (v.members == [] <==> s.content[q] == CLOSE_BRACE)
    ensures MembersGoal(s, p, q, v, ls, e, [], [], v.members != [])
  {
    hide Derives, MembersDerive, MembersFrom;
    DerivesFirst(s, p, v, e);
    ls := ObjectParts(s, p, v, e);
    q := e - 1;
    if v.members != [] {
      MembersCount(s, p, v, ls, e);
      q := FirstMember(s, p, v, ls, CLOSE_BRACE);
    }
  }

  lemma MembersBegin(s: Source, p: nat, q: nat, d: nat, more: bool)
    requires Sound(s) && p < s.length && s.content[p] == OPEN_BRACE && d < NESTING_LIMIT
    requires p < q < s.length && Blank(s.content, p + 1, q) && StopsOnlyAt(s, p + 1, q)
    requires more <==> s.content[q] != CLOSE_BRACE
    ensures var offset := if more then q - 1 else q;
      MembersState(s, p, offset, d + 1, [], [], more) && MembersFollow(s, p, offset, [], [], more) &&
        MembersOpen(s, p, d, [], [], more)
  {
    hide Derives, MembersFrom, StopsAt, MembersDerive, Breaks, Blank, Fits, MemberBreaks;
    var offset := if more then q - 1 else q;
    NoItems(s, p);
    if !more {
      Stops(s, p + 1, q);
      EmptyDerives(s, p, q + 1);
    }
    forall v, e | Derives(s, p, v, e)
      ensures exists ls :: MembersGoal(s, p, offset, v, ls, e, [], [], more)
    {
      var ls, r := MembersAhead(s, p, v, e);
      assert r == q;
      assert MembersGoal(s, p, offset, v, ls, e, [], [], more);
    }
    if Breaks(s, p, d) {
      var v, ls := OpenObject(s, p, d);
      var r := OpenMemberStops(s, p, d, v, ls);
      assert r == q;
      assert MembersBreak(s, p, d, v, ls, [], []);
    }
  }

  lemma OpenMemberStops(s: Source, p: nat, d: nat, v: Value, ls: seq<MemberPlace>) returns (r: nat)
    requires OpenMembers(s, p, d, v, ls) && MemberBreaks(s, MemberStart(p, ls, |ls|), d + 1) &&
      (ls == [] ==> p + 1 < |s.content|)
    ensures StopsAt(s, p + 1, r) && s.content[r] != CLOSE_BRACE && |ls| == |v.members|
  {
    hide Fits, StopsAt, Breaks, OpenMember;
    MembersLength(s, p, v, ls, COMMA);
    hide MembersFrom;
    if ls == [] {
      var name, l :| OpenMember(s, name, p + 1, l) && Breaks(s, l.value.start, d + 1);
      OpenMemberAscends(s, name, p + 1, l);
      OpenMemberFirst(s, name, p + 1, l);
      r := l.start;
    } else {
      r := FirstMember(s, p, v, ls, COMMA);
    }
  }

  lemma OpenMemberFirst(s: Source, name: Text, p: nat, l: MemberPlace)
    requires OpenMember(s, name, p, l)
    ensures StopsAt(s, p, l.start) && LiteralIs(s.content, l.start, name, l.end) && l.end <= s.length
    ensures StopsAt(s, l.end, l.colon) && StopsAt(s, l.colon + 1, l.value.start)
  {
  }

  lemma NoObject(s: Source, p: nat, d: nat)
    requires Sound(s) && p < s.length && s.content[p] == OPEN_BRACE && OnlyBlanks(s, p + 1)
    ensures Refused(s, p, d) && !Breaks(s, p, d)
  {
    hide Derives, StopsAt, Breaks, MembersGoal, OpenMembers, MemberBreaks, Fits;
    forall v, e | Derives(s, p, v, e)
      ensures false
    {
      var ls, r := MembersAhead(s, p, v, e);
    }
    if Breaks(s, p, d) {
      var v, ls := OpenObject(s, p, d);
      var r := OpenMemberStops(s, p, d, v, ls);
    }
  }

  lemma NextMember(s: Source, p: nat, offset: nat, v: Value, ls: seq<MemberPlace>, e: nat, ms: seq<Member>,
    read: seq<MemberPlace>, depth: nat)
    requires Sound(s) && MembersState(s, p, offset, depth, ms, read, true) &&
      MembersGoal(s, p, offset, v, ls, e, ms, read, true)
    requires 0 < depth <= NESTING_LIMIT
    ensures v.Object? && |ms| < |v.members| == |ls|
    ensures MemberAt(s, v.members[|ms|].name, v.members[|ms|].value, offset + 1, ls[|ms|])
    ensures ls[|ms|].value.stop < s.length <= |s.content|
    ensures s.content[ls[|ms|].value.stop] == if |ms| + 1 < |v.members| then COMMA else CLOSE_BRACE
    ensures |ms| + 1 == |v.members| ==> e == ls[|ms|].value.stop + 1
    ensures !Fits(v.members[|ms|].value, depth) ==> !Fits(v, depth - 1)
  {
    hide MemberAt, MembersFrom, MembersDerive, Fits, Derives;
    var m := v.members[|ms|];
    MembersCount(s, p, v, ls, e);
    MemberPart(s, p, v, ls, CLOSE_BRACE, |ms|);
    MemberShift(s, m.name, m.value, MemberStart(p, ls, |ms|), offset + 1, ls[|ms|]);
    FitsMeans(v, depth - 1);
  }

  lemma MembersStateMore(s: Source, p: nat, before: nat, offset: nat, depth: nat, ms: seq<Member>,
    read: seq<MemberPlace>, m: Member, at: MemberPlace, more: bool)
    requires Sound(s) && MembersState(s, p, before, depth, ms, read, true) && Fits(m.value, depth) &&
      MemberAt(s, m.name, m.value, before + 1, at)
    requires before < offset == at.value.stop < s.length && s.content[offset] == if more then COMMA else CLOSE_BRACE
    ensures MembersState(s, p, offset, depth, ms + [m], read + [at], more)
  {
    hide MemberAt, MembersFrom, Fits, Derives, Sound;
    MemberShift(s, m.name, m.value, MemberStart(p, read, |read|), before + 1, at);
    MembersMore(s, p, Object(ms), read, m, at, if more then COMMA else CLOSE_BRACE);
    if !more {
      MembersAll(s, p, Object(ms + [m]), read + [at]);
    }
  }

  lemma MembersReadMore(p: nat, v: Value, ls: seq<MemberPlace>, ms: seq<Member>, read: seq<MemberPlace>, m: Member,
    at: MemberPlace)
    requires MembersRead(p, v, ls, ms, read) && |ms| < |v.members| && m == v.members[|ms|] &&
      at.value.stop == ls[|ms|].value.stop
    ensures MembersRead(p, v, ls, ms + [m], read + [at])
  {
  }

  lemma MembersReadAll(p: nat, v: Value, ls: seq<MemberPlace>, ms: seq<Member>, read: seq<MemberPlace>)
    requires MembersRead(p, v, ls, ms, read)
    ensures v.Object? && |ms| <= |v.members| && (|ms| == |v.members| ==> v == Object(ms))
  {
  }

  lemma MembersFollowMore(s: Source, p: nat, before: nat, offset: nat, depth: nat, ms: seq<Member>,
    read: seq<MemberPlace>, m: Member, at: MemberPlace, more: bool)
    requires Sound(s) && MembersState(s, p, before, depth, ms, read, true) &&
      MembersFollow(s, p, before, ms, read, true)
    requires 0 < depth <= NESTING_LIMIT && MemberOutcome(s, before + 1, depth, true, m, offset) &&
      at.value.stop == offset < s.length
    requires s.content[offset] == if more then COMMA else CLOSE_BRACE
    ensures MembersFollow(s, p, offset, ms + [m], read + [at], more)
  {
    hide MembersState, Derives, MemberAt, MembersDerive, Fits, MembersRead;
    forall v, e | Derives(s, p, v, e)
      ensures exists ls :: MembersGoal(s, p, offset, v, ls, e, ms + [m], read + [at], more)
    {
      var ls :| MembersGoal(s, p, before, v, ls, e, ms, read, true);
      NextMember(s, p, before, v, ls, e, ms, read, depth);
      MembersReadMore(p, v, ls, ms, read, m, at);
      MembersReadAll(p, v, ls, ms + [m], read + [at]);
      assert MembersGoal(s, p, offset, v, ls, e, ms + [m], read + [at], more);
    }
  }

  lemma MembersFollowFails(s: Source, p: nat, before: nat, offset: nat, depth: nat, ms: seq<Member>,
    read: seq<MemberPlace>, ok: bool, m: Member)
    requires Sound(s) && MembersState(s, p, before, depth, ms, read, true) &&
      MembersFollow(s, p, before, ms, read, true)
    requires 0 < depth <= NESTING_LIMIT && MemberOutcome(s, before + 1, depth, ok, m, offset)
    requires ok && offset < s.length ==> s.content[offset] != COMMA && s.content[offset] != CLOSE_BRACE
    ensures Refused(s, p, depth - 1)
  {
    hide MembersState, Derives, MemberAt, MembersDerive, Fits, MembersRead;
    forall v, e | Derives(s, p, v, e)
      ensures !Fits(v, depth - 1)
    {
      var ls :| MembersGoal(s, p, before, v, ls, e, ms, read, true);
      NextMember(s, p, before, v, ls, e, ms, read, depth);
    }
  }

  /** In front of a member, blanks make no difference, unless only they are left. */
  lemma MemberBreaksShift(s: Source, p: nat, q: nat, d: nat)
    requires Sound(s) && Blank(s.content, p, q) && (q == |s.content| ==> p == q)
    ensures MemberBreaks(s, p, d) <==> MemberBreaks(s, q, d)
  {
    hide Breaks, LiteralIs;
    forall name, l
      ensures OpenMember(s, name, p, l) <==> OpenMember(s, name, q, l)
    {
      StopsShift(s, p, q, l.start);
    }
    BlankInside(s, p, q);
    hide OpenMember, Blank;
  }

  lemma BlankInside(s: Source, p: nat, q: nat)
    requires Blank(s.content, p, q)
    ensures p <= q <= |s.content|
  {
  }

  lemma NextOpenMember(s: Source, p: nat, before: nat, depth: nat, ms: seq<Member>, read: seq<MemberPlace>, ok: bool,
    m: Member, stop: nat)
    returns (v: Value, ls: seq<MemberPlace>)
    requires 0 < depth <= NESTING_LIMIT && Sound(s) && MembersState(s, p, before, depth, ms, read, true) &&
      MembersOpen(s, p, depth - 1, ms, read, true)
    requires MemberOutcome(s, before + 1, depth, ok, m, stop) && Breaks(s, p, depth - 1)
    ensures MemberBreaks(s, before + 1, depth) ||
      (ok && stop < s.length <= |s.content| && s.content[stop] == COMMA &&
        MembersBreak(s, p, depth - 1, v, ls, ms, read)
       && |ms| < |ls| == |v.members| && m == v.members[|ms|] && stop == ls[|ms|].value.stop)
  {
    hide Breaks, MembersFrom, MemberAt, Fits, MemberBreaks, Blank;
    v, ls :| MembersBreak(s, p, depth - 1, v, ls, ms, read);
    MembersLength(s, p, v, ls, COMMA);
    if |ms| == |ls| {
      MemberBreaksShift(s, MemberStart(p, ls, |ls|), before + 1, depth);
    } else {
      MemberPart(s, p, v, ls, COMMA, |ms|);
      MemberShift(s, v.members[|ms|].name, v.members[|ms|].value, MemberStart(p, ls, |ms|), before + 1, ls[|ms|]);
      FitsMeans(v, depth - 1);
    }
  }

  lemma MembersOpenMore(s: Source, p: nat, before: nat, offset: nat, depth: nat, ms: seq<Member>,
    read: seq<MemberPlace>, m: Member, at: MemberPlace, more: bool)
    requires 0 < depth <= NESTING_LIMIT && Sound(s) && MembersState(s, p, before, depth, ms, read, true) &&
      MembersOpen(s, p, depth - 1, ms, read, true)
    requires MemberOutcome(s, before + 1, depth, true, m, offset) && at.value.stop == offset < s.length
    requires s.content[offset] == (if more then COMMA else CLOSE_BRACE) && !MemberBreaks(s, before + 1, depth)
    ensures MembersOpen(s, p, depth - 1, ms + [m], read + [at], more)
  {
    hide MembersState, Breaks, MemberAt, MembersRead, MemberBreaks, OpenMembers;
    if Breaks(s, p, depth - 1) {
      var v, ls := NextOpenMember(s, p, before, depth, ms, read, true, m, offset);
      MembersReadMore(p, v, ls, ms, read, m, at);
      assert MembersBreak(s, p, depth - 1, v, ls, ms + [m], read + [at]);
    }
  }

  lemma MembersOpenFails(s: Source, p: nat, before: nat, offset: nat, depth: nat, ms: seq<Member>,
    read: seq<MemberPlace>, ok: bool, m: Member)
    requires 0 < depth <= NESTING_LIMIT && Sound(s) && MembersState(s, p, before, depth, ms, read, true) &&
      MembersOpen(s, p, depth - 1, ms, read, true)
    requires MemberOutcome(s, before + 1, depth, ok, m, offset)
    requires ok && offset < s.length ==> s.content[offset] != COMMA
    ensures Breaks(s, p, depth - 1) <==> MemberBreaks(s, before + 1, depth)
  {
    hide Breaks, MemberAt, MembersRead, MemberBreaks, Blank, MembersFrom, Fits, Derives;
    if Breaks(s, p, depth - 1) {
      var v, ls := NextOpenMember(s, p, before, depth, ms, read, ok, m, offset);
    }
    if MemberBreaks(s, before + 1, depth) {
      MemberBreaksShift(s, MemberStart(p, read, |read|), before + 1, depth);
      FitsMeans(Object(ms), depth - 1);
      BlankInside(s, MemberStart(p, read, |read|), before + 1);
      BreaksInObject(s, p, depth - 1, Object(ms), read);
    }
  }

  lemma MembersDone(s: Source, p: nat, offset: nat, ms: seq<Member>, read: seq<MemberPlace>, depth: nat)
    requires MembersState(s, p, offset, depth, ms, read, false) && 0 < depth <= NESTING_LIMIT
    requires MembersFollow(s, p, offset, ms, read, false) && MembersOpen(s, p, depth - 1, ms, read, false)
    ensures Outcome(s, p, depth - 1, true, Object(ms), offset + 1) && !Breaks(s, p, depth - 1)
  {
    hide MembersFrom, Fits, Derives, Breaks;
    FitsMeans(Object(ms), depth - 1);
  }

  // ----- Single values -----

  /** A value is told by its first byte, and so is a text that breaks off. */
  lemma KindOf(s: Source, p: nat, d: nat)
    requires Sound(s)
    ensures p >= s.length ==> Refused(s, p, d)
    ensures Breaks(s, p, d) ==> p < s.length && (s.content[p] == OPEN_BRACKET || s.content[p] == OPEN_BRACE)
  {
    hide Derives, Fits, Breaks;
    forall v, e | Derives(s, p, v, e)
      ensures p < s.length
    {
      DerivesFirst(s, p, v, e);
    }
    if Breaks(s, p, d) {
      BreaksFirst(s, p, d);
    }
  }

  lemma WordOutcome(s: Source, p: nat, d: nat, ok: bool, item: Value, e: nat)
    requires Sound(s) && d <= NESTING_LIMIT
    requires if p + 4 <= s.length && s.content[p..p + 4] == NULL_TEXT then ok && item == Null && e == p + 4
      else if p + 5 <= s.length && s.content[p..p + 5] == FALSE_TEXT then ok && item == False && e == p + 5
      else if p + 4 <= s.length && s.content[p..p + 4] == TRUE_TEXT then ok && item == True && e == p + 4
      else !ok && (p < s.length ==>
        var b := s.content[p]; b != QUOTE && b != MINUS && !IsDigit(b) && b != OPEN_BRACKET && b != OPEN_BRACE)
    ensures Outcome(s, p, d, ok, item, e)
  {
    hide Derives, Fits;
    WordsFirst(s.content, p);
    forall v, f | Derives(s, p, v, f)
      ensures ok && v == item && f == e
    {
      DerivesFirst(s, p, v, f);
      SimpleDerives(s, p, v, f);
    }
    if ok {
      SimpleDerives(s, p, item, e);
      FitsMeans(item, d);
    }
  }

  lemma StringOutcome(s: Source, p: nat, d: nat, ok: bool, text: Text, e: nat)
    requires Sound(s) && d <= NESTING_LIMIT && p < s.length && s.content[p] == QUOTE
    requires ok ==> e <= s.length && LiteralIs(s.content, p, text, e)
    requires forall t: Text, f: nat :: LiteralIs(s.content, p, t, f) && f <= s.length ==> ok && text == t && e == f
    ensures Outcome(s, p, d, ok, String(text), e)
  {
    hide Derives, Fits, LiteralIs;
    forall v, f | Derives(s, p, v, f)
      ensures ok && v == String(text) && f == e
    {
      DerivesFirst(s, p, v, f);
      SimpleDerives(s, p, v, f);
    }
    if ok {
      LiteralFirst(s.content, p, text, e);
      SimpleDerives(s, p, String(text), e);
      FitsMeans(String(text), d);
    }
  }

  lemma NumberOutcome(s: Source, p: nat, d: nat, ok: bool, item: Value, e: nat)
    requires Sound(s) && d <= NESTING_LIMIT && p < s.length && (s.content[p] == MINUS || IsDigit(s.content[p]))
    requires ok <==> s.strtod(NumberText(s, p)).consumed > 0
    requires ok ==> item.Number? && p < e <= s.length && NumberIs(s, p, item.valuedouble, item.valueint, e)
    ensures Outcome(s, p, d, ok, item, e)
  {
    hide Derives, Fits, NumberText;
    forall v, f | Derives(s, p, v, f)
      ensures ok && v == item && f == e
    {
      DerivesFirst(s, p, v, f);
      SimpleDerives(s, p, v, f);
    }
    if ok {
      SimpleDerives(s, p, item, e);
      FitsMeans(item, d);
    }
  }

  /** Behind the limit nothing is read. */
  lemma TooDeep(s: Source, p: nat, d: nat)
    requires Sound(s) && p < s.length && (s.content[p] == OPEN_BRACKET || s.content[p] == OPEN_BRACE) &&
      d == NESTING_LIMIT
    ensures Refused(s, p, d) && !Breaks(s, p, d)
  {
    hide Derives, Fits;
    forall v, e | Derives(s, p, v, e)
      ensures !Fits(v, d)
    {
      DerivesFirst(s, p, v, e);
      FitsMeans(v, d);
    }
  }

  // ----- Elements and members between blanks -----

  lemma OutcomeMeans(s: Source, p: nat, d: nat, item: Value, e: nat)
    requires Outcome(s, p, d, true, item, e)
    ensures Fits(item, d) && Derives(s, p, item, e) && p < e <= s.length <= |s.content| && s.content[p] > 32
  {
    hide Derives, Fits;
    DerivesFirst(s, p, item, e);
  }

  lemma ElementBreaks(s: Source, p: nat, q: nat, d: nat)
    requires Sound(s) && StopsOnlyAt(s, p, q)
    requires if p >= s.length then q == p else p <= q < s.length && Blank(s.content, p, q)
    ensures BreaksBehind(s, p, d) <==> Breaks(s, q, d)
  {
    hide Breaks, StopsAt, Blank;
    if Breaks(s, q, d) {
      BreaksFirst(s, q, d);
      Stops(s, p, q);
    }
  }

  lemma ElementRefused(s: Source, p: nat, q: nat, d: nat, item: Value, stop: nat)
    requires Outcome(s, q, d, false, item, stop) && StopsOnlyAt(s, p, q)
    ensures ElementOutcome(s, p, d, false, item, stop)
  {
    hide Derives, StopsAt, Fits, ItemAt;
    forall v, l | ItemAt(s, v, p, l)
      ensures !Fits(v, d)
    {
      ItemParts(s, v, p, l);
    }
  }

  lemma ItemParts(s: Source, v: Value, p: nat, l: Place)
    requires ItemAt(s, v, p, l)
    ensures StopsAt(s, p, l.start) && Derives(s, l.start, v, l.end) && StopsAt(s, l.end, l.stop)
  {
    hide Derives;
  }

  lemma ElementEnds(s: Source, p: nat, q: nat, d: nat, item: Value, at: Place)
    requires Sound(s) && at.start == q && Outcome(s, q, d, true, item, at.end) && StopsOnlyAt(s, p, q) &&
      StopsOnlyAt(s, at.end, at.stop)
    requires if p >= s.length then q == p else p <= q < s.length && Blank(s.content, p, q)
    requires at.end < s.length ==> at.end <= at.stop < s.length && Blank(s.content, at.end, at.stop)
    ensures ElementOutcome(s, p, d, true, item, at.stop)
    ensures at.end < s.length && s.content[at.stop] > 32 ==> ItemAt(s, item, p, at)
  {
    hide Derives, StopsAt, Fits, Blank;
    DerivesFirst(s, q, item, at.end);
    Stops(s, p, q);
    if at.end < s.length && s.content[at.stop] > 32 {
      Stops(s, at.end, at.stop);
    }
    forall v, l | ItemAt(s, v, p, l)
      ensures v == item && l.stop == at.stop
    {
      ItemParts(s, v, p, l);
    }
  }

  lemma MemberAtParts(s: Source, name: Text, v: Value, p: nat, l: MemberPlace)
    requires MemberAt(s, name, v, p, l)
    ensures StopsAt(s, p, l.start) && LiteralIs(s.content, l.start, name, l.end) && l.end <= s.length
    ensures StopsAt(s, l.end, l.colon) && l.colon < s.length <= |s.content| && s.content[l.colon] == COLON &&
      ItemAt(s, v, l.colon + 1, l.value)
  {
    hide LiteralIs, ItemAt;
    StopsInside(s, l.end, l.colon);
  }

  /** No name stands at q. */
  lemma NoName(s: Source, p: nat, q: nat, d: nat, m: Member, stop: nat)
    requires Sound(s) && StopsOnlyAt(s, p, q) && (p >= s.length ==> q == p) && (p < s.length ==> p <= q < s.length)
    requires forall t: Text, e: nat :: LiteralIs(s.content, q, t, e) ==> e > s.length
    ensures MemberOutcome(s, p, d, false, m, stop) && (MemberBreaks(s, p, d) <==> q == |s.content|)
  {
    hide StopsAt, LiteralIs, MemberAt, Fits, Breaks, OpenMember;
    forall name, v, l | MemberAt(s, name, v, p, l)
      ensures false
    {
      MemberAtParts(s, name, v, p, l);
    }
    forall name, l | OpenMember(s, name, p, l)
      ensures false
    {
      OpenMemberFirst(s, name, p, l);
    }
  }

  /** No colon stands behind the name. */
  lemma NoColon(s: Source, p: nat, q: nat, end: nat, text: Text, colon: nat, d: nat, m: Member)
    requires Sound(s) && StopsOnlyAt(s, p, q) && StopsOnlyAt(s, end, colon) && p <= q < end <= s.length
    requires forall t: Text, e: nat :: LiteralIs(s.content, q, t, e) && e <= s.length ==> text == t && end == e
    requires colon < s.length ==> s.content[colon] != COLON
    ensures MemberOutcome(s, p, d, false, m, colon) && !MemberBreaks(s, p, d)
  {
    hide StopsAt, LiteralIs, MemberAt, Fits, Breaks, OpenMember;
    forall name, v, l | MemberAt(s, name, v, p, l)
      ensures false
    {
      MemberAtParts(s, name, v, p, l);
    }
    forall name, l | OpenMember(s, name, p, l)
      ensures false
    {
      OpenMemberFirst(s, name, p, l);
      OpenMemberAscends(s, name, p, l);
    }
  }

  /** What follows the colon decides. */
  lemma MemberEnds(s: Source, p: nat, q: nat, end: nat, text: Text, colon: nat, d: nat, ok: bool, value: Value,
    place: Place, stop: nat)
    requires Sound(s) && StopsOnlyAt(s, p, q) && StopsOnlyAt(s, end, colon) && p <= q < end <= colon < s.length
    requires Blank(s.content, p, q) && Blank(s.content, end, colon) && LiteralIs(s.content, q, text, end)
    requires forall t: Text, e: nat :: LiteralIs(s.content, q, t, e) && e <= s.length ==> text == t && end == e
    requires s.content[colon] == COLON && ElementOutcome(s, colon + 1, d, ok, value, stop)
    ensures MemberOutcome(s, p, d, ok, Member(text, value), stop)
    ensures MemberBreaks(s, p, d) <==> BreaksBehind(s, colon + 1, d)
    ensures ItemAt(s, value, colon + 1, place) ==> MemberAt(s, text, value, p, MemberPlace(q, end, colon, place))
  {
    hide LiteralIs, Fits, Breaks, Blank, StopsAt, OpenMember, MemberAt, ItemAt;
    LiteralFirst(s.content, q, text, end);
    Stops(s, p, q);
    Stops(s, end, colon);
    forall name, v, l | MemberAt(s, name, v, p, l)
      ensures name == text && ItemAt(s, v, colon + 1, l.value)
    {
      MemberAtParts(s, name, v, p, l);
    }
    forall name, l | OpenMember(s, name, p, l)
      ensures StopsAt(s, colon + 1, l.value.start)
    {
      OpenMemberFirst(s, name, p, l);
      OpenMemberAscends(s, name, p, l);
    }
    if BreaksBehind(s, colon + 1, d) {
      var x :| StopsAt(s, colon + 1, x) && Breaks(s, x, d);
      MemberOpens(s, p, q, end, text, colon, x);
    }
    if ItemAt(s, value, colon + 1, place) {
      MemberComplete(s, text, value, p, MemberPlace(q, end, colon, place));
    }
  }

  lemma MemberOpens(s: Source, p: nat, q: nat, end: nat, name: Text, colon: nat, x: nat)
    requires StopsAt(s, p, q) && LiteralIs(s.content, q, name, end) && end <= s.length
    requires StopsAt(s, end, colon) && s.content[colon] == COLON && StopsAt(s, colon + 1, x)
    ensures OpenMember(s, name, p, MemberPlace(q, end, colon, Place(x, x, x)))
  {
    hide LiteralIs;
  }

  lemma MemberComplete(s: Source, name: Text, v: Value, p: nat, l: MemberPlace)
    requires Sound(s) && StopsAt(s, p, l.start) && LiteralIs(s.content, l.start, name, l.end) && l.end <= s.length
    requires StopsAt(s, l.end, l.colon) && s.content[l.colon] == COLON && ItemAt(s, v, l.colon + 1, l.value)
    ensures MemberAt(s, name, v, p, l)
  {
    hide LiteralIs, ItemAt;
  }
}
