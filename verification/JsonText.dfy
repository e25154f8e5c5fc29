/** JSON values, the text they are printed as, and what is true of every such text. */
module JsonText {
  import opened Bytes

  type Text = seq<byte>

  datatype Value =
    | Null
    | False
    | True
    | Number(valuedouble: real, valueint: int)
    | String(valuestring: Text)
    | Array(items: seq<Value>)
    | Object(members: seq<Member>)

  datatype Member = Member(name: Text, value: Value)

  const QUOTE: byte := 34
  const COMMA: byte := 44
  const MINUS: byte := 45
  const SLASH: byte := 47
  const COLON: byte := 58
  const OPEN_BRACKET: byte := 91
  const BACKSLASH: byte := 92
  const CLOSE_BRACKET: byte := 93
  const OPEN_BRACE: byte := 123
  const CLOSE_BRACE: byte := 125
  const SPACE: byte := 32
  const TAB: byte := 9
  const NEWLINE: byte := 10

  const NULL_TEXT: Text := [110, 117, 108, 108]
  const FALSE_TEXT: Text := [102, 97, 108, 115, 101]
  const TRUE_TEXT: Text := [116, 114, 117, 101]

  /** The bytes of some characters. */
  function Codes(s: string): (t: Text)
    requires forall i :: 0 <= i < |s| ==> s[i] as int < 128
    ensures |t| == |s| && forall i :: 0 <= i < |s| ==> t[i] == s[i] as int
  {
    seq(|s|, i requires 0 <= i < |s| => s[i] as int)
  }

  /** The structural characters and literal names of section 2 of RFC 8259, and the blanks printed. */
  lemma Characters()
    ensures [OPEN_BRACKET, OPEN_BRACE, CLOSE_BRACKET, CLOSE_BRACE, COLON, COMMA] == Codes("[{]}:,")
    ensures NULL_TEXT == Codes("null") && FALSE_TEXT == Codes("false") && TRUE_TEXT == Codes("true")
    ensures [QUOTE, BACKSLASH, SLASH, MINUS, SPACE, TAB, NEWLINE] == Codes("\"\\/- \t\n")
  {
  }

  const INT_MIN := -0x8000_0000
  const INT_MAX := 0x7FFF_FFFF

  // ----- Numbers -----

  /** Decimal digits of n, as %d prints them. */
  function Digits(n: nat): (t: Text)
    ensures t != []
  {
    if n < 10 then [48 + n] else Digits(n / 10) + [48 + n % 10]
  }

  function Decimal(n: int): (t: Text)
    ensures t != []
  {
    if n < 0 then [MINUS] + Digits(-n) else Digits(n)
  }

  predicate IsDigit(b: byte) { 48 <= b <= 57 }

  ghost predicate AllDigits(t: Text) { forall i :: 0 <= i < |t| ==> IsDigit(t[i]) }

  /** They are the bytes of these characters. */
  lemma NumberCharacters(b: byte)
    ensures InNumber(b) <==> b in Codes("0123456789+-.eE")
  {
    var t := Codes("0123456789+-.eE");
    assert t == [48, 49, 50, 51, 52, 53, 54, 55, 56, 57, 43, 45, 46, 101, 69];
  }

  /** The number a run of digits stands for: the last counts once, and what is in front of it ten times. */
  ghost function Positional(t: Text): (n: nat)
    requires AllDigits(t)
  {
    if t == [] then 0 else
      var last: int := t[|t| - 1];
      10 * Positional(t[..|t| - 1]) + (last - 48)
  }

  /** A decimal integer in the sense of C: digits, and perhaps a minus sign in front. */
  ghost predicate IsInteger(t: Text) {
    var d := if t != [] && t[0] == 45 then t[1..] else t;
    d != [] && AllDigits(d)
  }

  ghost function IntegerValue(t: Text): (n: int)
    requires IsInteger(t)
  {
    if t[0] == 45 then 0 - Positional(t[1..]) else Positional(t)
  }

  /** The digits of a number stand for it, with no zero in front. */
  lemma {:induction false} DigitsAre(n: nat)
    ensures AllDigits(Digits(n)) && Positional(Digits(n)) == n
    ensures Digits(n)[0] == 48 <==> n == 0
    ensures n == 0 ==> |Digits(n)| == 1
  {
    if n >= 10 {
      var d := Digits(n / 10);
      DigitsAre(n / 10);
      assert Digits(n) == d + [48 + n % 10] && Digits(n)[..|d|] == d;
    }
  }

  /**
   * What %d prints: the one decimal integer that stands for n, without zeros in front, with a minus sign exactly for
   * negative numbers.
   */
  lemma DecimalIs(n: int)
    ensures IsInteger(Decimal(n)) && IntegerValue(Decimal(n)) == n
    ensures Decimal(n)[0] == 45 <==> n < 0
    ensures Decimal(n)[0] == 48 ==> n == 0
    ensures n < 0 ==> |Decimal(n)| > 1 && Decimal(n)[1] != 48
  {
    hide Digits;
    DigitsAre(if n < 0 then -n else n);
    if n < 0 {
      assert Decimal(n)[1..] == Digits(-n);
    }
  }

  /** Twelve is 12, and minus two hundred and five is -205. */
  lemma TwoNumbers()
    ensures Decimal(12) == [49, 50] && Decimal(-205) == [45, 50, 48, 53]
  {
    assert Digits(20) == [50, 48];
  }

  /** A byte that parse_number collects: a digit or one of + - . e E. */
  predicate InNumber(b: byte) { IsDigit(b) || b == 43 || b == 45 || b == 46 || b == 101 || b == 69 }

  lemma {:induction false} DigitsFacts(n: nat, k: nat, limit: nat)
    requires k > 0 && n < limit && limit == Pow10(k)
    ensures |Digits(n)| <= k && forall i :: 0 <= i < |Digits(n)| ==> IsDigit(Digits(n)[i])
    decreases n
  {
    if n >= 10 {
      DigitsFacts(n / 10, k - 1, Pow10(k - 1));
    }
  }

  function Pow10(k: nat): (r: nat)
    ensures r > 0
  {
    if k == 0 then 1 else 10 * Pow10(k - 1)
  }

  /**
   * A 32-bit integer is printed in at most eleven bytes, the first a digit or a minus sign, all of them parts of a
   * number.
   */
  lemma DecimalFacts(n: int)
    requires INT_MIN <= n <= INT_MAX
    ensures |Decimal(n)| <= 11
    ensures Decimal(n)[0] == MINUS || IsDigit(Decimal(n)[0])
    ensures forall i :: 0 <= i < |Decimal(n)| ==> InNumber(Decimal(n)[i])
  {
    assert Pow10(10) == 10000000000 by {
      assert Pow10(5) == 100000;
    }
    DigitsFacts(if n < 0 then -n else n, 10, Pow10(10));
  }

  // ----- Strings -----

  function HexDigit(x: nat): (b: byte)
    requires x < 16
  {
    if x < 10 then 48 + x else 87 + x
  }

  /** The letter of a short escape sequence; 0 when there is none. */
  function ShortEscape(b: byte): byte {
    if b == QUOTE || b == BACKSLASH then b
    else if b == 8 then 98
    else if b == 12 then 102
    else if b == 10 then 110
    else if b == 13 then 114
    else if b == 9 then 116
    else 0
  }

  /** How one byte of a string is printed. */
  function EscapedByte(b: byte): (t: Text)
    ensures 0 < |t| <= 6
  {
    if ShortEscape(b) != 0 then [BACKSLASH, ShortEscape(b)]
    else if b < 32 then [BACKSLASH, 117, 48, 48, HexDigit(b as int / 16), HexDigit(b as int % 16)]
    else [b]
  }

  /** Exactly control characters, quotes and backslashes are escaped, if there is no short escape with two digits. */
  lemma EscapedIs(b: byte)
    ensures EscapedByte(b) == [b] <==> b >= 32 && b != 34 && b != 92
    ensures |EscapedByte(b)| == 2 <==> b in Codes("\"\\\t\n\r") || b == 8 || b == 12
    ensures b < 32 && |EscapedByte(b)| != 2 ==>
      EscapedByte(b) == Codes("\\u00") + [48 + b / 16, Codes("0123456789abcdef")[b % 16]]
  {
    HexDigitIs(b as int % 16);
    assert Codes("\"\\\t\n\r") == [34, 92, 9, 10, 13];
    assert Codes("\\u00") == [92, 117, 48, 48];
  }

  lemma ShortEscapes()
    ensures EscapedByte(34) == Codes("\\\"") && EscapedByte(92) == Codes("\\\\")
    ensures EscapedByte(8) == Codes("\\b") && EscapedByte(9) == Codes("\\t") && EscapedByte(10) == Codes("\\n")
    ensures EscapedByte(12) == Codes("\\f") && EscapedByte(13) == Codes("\\r")
  {
  }

  lemma HexDigitIs(x: nat)
    requires x < 16
    ensures HexDigit(x) == Codes("0123456789abcdef")[x]
  {
  }

  function Escaped(s: Text): (t: Text) {
    if s == [] then [] else EscapedByte(s[0]) + Escaped(s[1..])
  }

  function Quoted(s: Text): (t: Text)
    ensures |t| == |Escaped(s)| + 2 && t[0] == QUOTE
  {
    [QUOTE] + Escaped(s) + [QUOTE]
  }

  ghost predicate NulFree(t: Text) { forall i :: 0 <= i < |t| ==> t[i] != 0 }

  lemma {:induction false} EscapedAppend(a: Text, b: Text)
    ensures Escaped(a + b) == Escaped(a) + Escaped(b)
  {
    if a == [] {
      assert a + b == b;
    } else {
      assert (a + b)[1..] == a[1..] + b;
      EscapedAppend(a[1..], b);
    }
  }

  lemma {:induction false} EscapedNulFree(s: Text)
    requires NulFree(s)
    ensures NulFree(Escaped(s))
  {
    if s != [] {
      EscapedNulFree(s[1..]);
    }
  }

  // ----- Layout -----

  function Tabs(n: nat): (t: Text)
    ensures |t| == n && forall i :: 0 <= i < n ==> t[i] == TAB
  {
    seq(n, i => TAB)
  }

  function Optional(on: bool, b: byte): (t: Text) { if on then [b] else [] }

  function Indent(fmt: bool, n: nat): Text { if fmt then Tabs(n) else [] }

  /** The text of a value at nesting depth d, formatted or not. */
  function Printed(v: Value, fmt: bool, d: nat): (t: Text)
    decreases v, 1, 0
  {
    match v
    case Null => NULL_TEXT
    case False => FALSE_TEXT
    case True => TRUE_TEXT
    case Number(_, n) => Decimal(n)
    case String(s) => Quoted(s)
    case Array(items) => [OPEN_BRACKET] + ItemsText(v, 0, fmt, d + 1) + [CLOSE_BRACKET]
    case Object(members) =>
      [OPEN_BRACE] + Optional(fmt, NEWLINE) + (MembersText(v, 0, fmt, d + 1) + (Indent(fmt, d) + [CLOSE_BRACE]))
  }

  /** Elements from the i-th on. */
  function ItemsText(v: Value, i: nat, fmt: bool, d: nat): (t: Text)
    requires v.Array? && i <= |v.items|
    decreases v, 0, |v.items| - i
  {
    if i == |v.items| then [] else
      Printed(v.items[i], fmt, d) + (
        if i + 1 == |v.items| then [] else
          [COMMA] + Optional(fmt, SPACE) + ItemsText(v, i + 1, fmt, d))
  }

  /** Members from the i-th on. */
  function MembersText(v: Value, i: nat, fmt: bool, d: nat): (t: Text)
    requires v.Object? && i <= |v.members|
    decreases v, 0, |v.members| - i
  {
    if i == |v.members| then [] else
      Indent(fmt, d) + (Quoted(v.members[i].name) + ([COLON] + Optional(fmt, TAB) + (
        Printed(v.members[i].value, fmt, d) + (
          Optional(i + 1 < |v.members|, COMMA) + Optional(fmt, NEWLINE) + MembersText(v, i + 1, fmt, d)))))
  }

  lemma Push(a: Text, b: Text, t: Text)
    ensures (a + b) + t == a + (b + t)
  {
  }

  /** Formatted, a space follows each comma of an array. */
  lemma ArrayLayout(a: Value, b: Value, d: nat)
    ensures Printed(Array([a, b]), false, d) ==
      Codes("[") + (Printed(a, false, d + 1) + (Codes(",") + (Printed(b, false, d + 1) + Codes("]"))))
    ensures Printed(Array([a, b]), true, d) ==
      Codes("[") + (Printed(a, true, d + 1) + (Codes(", ") + (Printed(b, true, d + 1) + Codes("]"))))
  {
    hide Printed, Codes;
    TwoItems(a, b, false, d);
    TwoItems(a, b, true, d);
    Separators();
    assert [COMMA] + [] == [COMMA];
  }

  lemma TwoItems(a: Value, b: Value, fmt: bool, d: nat)
    ensures Printed(Array([a, b]), fmt, d) == [OPEN_BRACKET] +
      (Printed(a, fmt, d + 1) + (([COMMA] + Optional(fmt, SPACE)) + (Printed(b, fmt, d + 1) + [CLOSE_BRACKET])))
  {
    var v, p, q, s := Array([a, b]), Printed(a, fmt, d + 1), Printed(b, fmt, d + 1), [COMMA] + Optional(fmt, SPACE);
    assert ItemsText(v, 1, fmt, d + 1) == q;
    assert ItemsText(v, 0, fmt, d + 1) == p + (s + q);
    Push([OPEN_BRACKET], p + (s + q), [CLOSE_BRACKET]);
    Push(p, s + q, [CLOSE_BRACKET]);
    Push(s, q, [CLOSE_BRACKET]);
  }

  /** Formatted, each member of an object is on a line of its own, indented by a tab for each level. */
  lemma ObjectLayout(m: Member, n: Member, d: nat)
    ensures Printed(Object([m, n]), false, d) ==
      Codes("{") + (Quoted(m.name) + (Codes(":") + (Printed(m.value, false, d + 1) + (Codes(",") +
      (Quoted(n.name) + (Codes(":") + (Printed(n.value, false, d + 1) + Codes("}"))))))))
    ensures Printed(Object([m, n]), true, d) ==
      Codes("{\n") + (Tabs(d + 1) + (Quoted(m.name) + (Codes(":\t") + (Printed(m.value, true, d + 1) + (Codes(",\n") +
      (Tabs(d + 1) + (Quoted(n.name) + (Codes(":\t") + (Printed(n.value, true, d + 1) + (Codes("\n") +
      (Tabs(d) + Codes("}"))))))))))))
  {
    Plain(m, n, d);
    Formatted(m, n, d);
  }

  lemma Plain(m: Member, n: Member, d: nat)
    ensures Printed(Object([m, n]), false, d) ==
      Codes("{") + (Quoted(m.name) + (Codes(":") + (Printed(m.value, false, d + 1) + (Codes(",") +
      (Quoted(n.name) + (Codes(":") + (Printed(n.value, false, d + 1) + Codes("}"))))))))
  {
    hide Quoted, Printed, Codes, Optional, Indent;
    TwoMembers(m, n, false, d);
    Separators();
    Blanks(d);
    assert forall t: Text :: [] + t == t && t + [] == t;
  }

  lemma Formatted(m: Member, n: Member, d: nat)
    ensures Printed(Object([m, n]), true, d) ==
      Codes("{\n") + (Tabs(d + 1) + (Quoted(m.name) + (Codes(":\t") + (Printed(m.value, true, d + 1) + (Codes(",\n") +
      (Tabs(d + 1) + (Quoted(n.name) + (Codes(":\t") + (Printed(n.value, true, d + 1) + (Codes("\n") +
      (Tabs(d) + Codes("}"))))))))))))
  {
    hide Quoted, Printed, Codes, Optional, Indent, Tabs;
    TwoMembers(m, n, true, d);
    Separators();
    Blanks(d);
  }

  lemma Blanks(d: nat)
    ensures forall b: byte :: Optional(true, b) == [b] && Optional(false, b) == []
    ensures forall k: nat :: Indent(true, k) == Tabs(k) && Indent(false, k) == []
  {
  }

  lemma TwoMembers(m: Member, n: Member, fmt: bool, d: nat)
    ensures Printed(Object([m, n]), fmt, d) ==
      ([OPEN_BRACE] + Optional(fmt, NEWLINE)) + (Indent(fmt, d + 1) + (Quoted(m.name) +
      (([COLON] + Optional(fmt, TAB)) + (Printed(m.value, fmt, d + 1) + (([COMMA] + Optional(fmt, NEWLINE)) +
      (Indent(fmt, d + 1) + (Quoted(n.name) + (([COLON] + Optional(fmt, TAB)) +
      (Printed(n.value, fmt, d + 1) + (Optional(fmt, NEWLINE) + (Indent(fmt, d) + [CLOSE_BRACE])))))))))))
  {
    hide Quoted, Indent, Optional, MembersText;
    var v, e := Object([m, n]), Indent(fmt, d) + [CLOSE_BRACE];
    assert Printed(v, fmt, d) == ([OPEN_BRACE] + Optional(fmt, NEWLINE)) + (MembersText(v, 0, fmt, d + 1) + e);
    hide Printed;
    MemberPushed(v, 0, fmt, d + 1, e);
    MemberPushed(v, 1, fmt, d + 1, e);
    NoMore(v, fmt, d + 1, e);
    Blanks(d);
  }

  lemma NoMore(v: Value, fmt: bool, d: nat, e: Text)
    requires v.Object?
    ensures MembersText(v, |v.members|, fmt, d) + e == e && [] + Optional(fmt, NEWLINE) == Optional(fmt, NEWLINE)
  {
  }

  lemma Separators()
    ensures [OPEN_BRACE] == Codes("{") && [COLON] == Codes(":") && [COMMA] == Codes(",") && [CLOSE_BRACE] == Codes("}")
    ensures [OPEN_BRACE] + [NEWLINE] == Codes("{\n") && [COLON] + [TAB] == Codes(":\t") &&
      [COMMA] + [NEWLINE] == Codes(",\n") && [NEWLINE] == Codes("\n")
    ensures [OPEN_BRACKET] == Codes("[") && [CLOSE_BRACKET] == Codes("]") && [COMMA] + [SPACE] == Codes(", ")
  {
  }

  lemma MemberPushed(v: Value, i: nat, fmt: bool, d: nat, e: Text)
    requires v.Object? && i < |v.members|
    ensures MembersText(v, i, fmt, d) + e ==
      Indent(fmt, d) + (Quoted(v.members[i].name) + (([COLON] + Optional(fmt, TAB)) +
      (Printed(v.members[i].value, fmt, d) + ((Optional(i + 1 < |v.members|, COMMA) + Optional(fmt, NEWLINE)) +
      (MembersText(v, i + 1, fmt, d) + e)))))
  {
    hide Quoted, Printed, Indent, Optional;
    var t, q, k, p, s, r := Indent(fmt, d), Quoted(v.members[i].name), [COLON] + Optional(fmt, TAB),
      Printed(v.members[i].value, fmt, d), Optional(i + 1 < |v.members|, COMMA) + Optional(fmt, NEWLINE),
      MembersText(v, i + 1, fmt, d);
    Push(t, q + (k + (p + (s + r))), e);
    Push(q, k + (p + (s + r)), e);
    Push(k, p + (s + r), e);
    Push(p, s + r, e);
    Push(s, r, e);
  }

  /** How deeply arrays and objects are nested. */
  ghost function Nesting(v: Value): (n: nat)
    decreases v, 1, 0
  {
    match v
    case Array(_) => 1 + ItemsNesting(v, 0)
    case Object(_) => 1 + MembersNesting(v, 0)
    case _ => 0
  }

  ghost function Max(a: nat, b: nat): nat { if a > b then a else b }

  ghost function ItemsNesting(v: Value, i: nat): (n: nat)
    requires v.Array? && i <= |v.items|
    decreases v, 0, |v.items| - i
  {
    if i == |v.items| then 0 else Max(Nesting(v.items[i]), ItemsNesting(v, i + 1))
  }

  ghost function MembersNesting(v: Value, i: nat): (n: nat)
    requires v.Object? && i <= |v.members|
    decreases v, 0, |v.members| - i
  {
    if i == |v.members| then 0 else Max(Nesting(v.members[i].value), MembersNesting(v, i + 1))
  }

  /** Values within the scope of this model: numbers are 32-bit integers, strings have no zero byte. */
  ghost predicate Good(v: Value)
    decreases v
  {
    match v
    case Number(d, n) => INT_MIN <= n <= INT_MAX && d == n as real
    case String(s) => NulFree(s)
    case Array(items) => forall i :: 0 <= i < |items| ==> Good(items[i])
    case Object(members) => forall i :: 0 <= i < |members| ==> NulFree(members[i].name) && Good(members[i].value)
    case _ => true
  }

  // ----- Facts about printed text -----

  lemma NulFreeAppend(a: Text, b: Text)
    requires NulFree(a) && NulFree(b)
    ensures NulFree(a + b)
  {
  }

  /** Printed text begins with a byte that is no blank and has no zero byte. */
  lemma {:induction false} PrintedFacts(v: Value, fmt: bool, d: nat)
    requires Good(v)
    ensures Printed(v, fmt, d) != [] && Printed(v, fmt, d)[0] > 32 && NulFree(Printed(v, fmt, d))
    decreases v, 1, 0
  {
    match v
    case Null =>
    case False =>
    case True =>
    case Number(_, n) =>
      DecimalFacts(n);
    case String(s) =>
      QuotedNulFree(s);
    case Array(items) =>
      ItemsNulFree(v, 0, fmt, d + 1);
    case Object(members) =>
      MembersNulFree(v, 0, fmt, d + 1);
      ObjectNulFree(MembersText(v, 0, fmt, d + 1), fmt, d);
  }

  lemma ObjectNulFree(t: Text, fmt: bool, d: nat)
    requires NulFree(t)
    ensures NulFree([OPEN_BRACE] + Optional(fmt, NEWLINE) + (t + (Indent(fmt, d) + [CLOSE_BRACE])))
  {
    NulFreeAppend(Indent(fmt, d), [CLOSE_BRACE]);
    NulFreeAppend(t, Indent(fmt, d) + [CLOSE_BRACE]);
    NulFreeAppend([OPEN_BRACE], Optional(fmt, NEWLINE));
    hide Indent, Optional;
    NulFreeAppend([OPEN_BRACE] + Optional(fmt, NEWLINE), t + (Indent(fmt, d) + [CLOSE_BRACE]));
  }

  lemma QuotedNulFree(s: Text)
    requires NulFree(s)
    ensures NulFree(Quoted(s))
  {
    EscapedNulFree(s);
  }

  lemma {:induction false} ItemsNulFree(v: Value, i: nat, fmt: bool, d: nat)
    requires Good(v) && v.Array? && i <= |v.items|
    ensures NulFree(ItemsText(v, i, fmt, d))
    decreases v, 0, |v.items| - i
  {
    if i < |v.items| {
      PrintedFacts(v.items[i], fmt, d);
      if i + 1 < |v.items| {
        ItemsNulFree(v, i + 1, fmt, d);
      }
    }
  }

  lemma {:induction false} MembersNulFree(v: Value, i: nat, fmt: bool, d: nat)
    requires Good(v) && v.Object? && i <= |v.members|
    ensures NulFree(MembersText(v, i, fmt, d))
    decreases v, 0, |v.members| - i
  {
    if i < |v.members| {
      var m := v.members[i];
      PrintedFacts(m.value, fmt, d);
      MembersNulFree(v, i + 1, fmt, d);
      QuotedNulFree(m.name);
      var more := i + 1 < |v.members|;
      var rest := MembersText(v, i + 1, fmt, d);
      var p := Printed(m.value, fmt, d);
      hide Printed, MembersText, Quoted, Good;
      MemberNulFree(Indent(fmt, d), Quoted(m.name), [COLON] + Optional(fmt, TAB), p,
        Optional(more, COMMA) + Optional(fmt, NEWLINE), rest);
      MembersStep(v, i, fmt, d);
    }
  }

  lemma MembersStep(v: Value, i: nat, fmt: bool, d: nat)
    requires v.Object? && i < |v.members|
    ensures MembersText(v, i, fmt, d) ==
      Indent(fmt, d) + (Quoted(v.members[i].name) + ([COLON] + Optional(fmt, TAB) + (
        Printed(v.members[i].value, fmt, d) + (
          Optional(i + 1 < |v.members|, COMMA) + Optional(fmt, NEWLINE) + MembersText(v, i + 1, fmt, d)))))
  {
  }

  lemma MemberNulFree(a: Text, b: Text, c: Text, p: Text, e: Text, r: Text)
    requires NulFree(a) && NulFree(b) && NulFree(c) && NulFree(p) && NulFree(e) && NulFree(r)
    ensures NulFree(a + (b + (c + (p + (e + r)))))
  {
    NulFreeAppend(e, r);
    NulFreeAppend(p, e + r);
    NulFreeAppend(c, p + (e + r));
    NulFreeAppend(b, c + (p + (e + r)));
  }

  // ----- The text of arrays and objects, piece by piece -----

  lemma ArrayText(b: Text, v: Value, fmt: bool, d: nat)
    requires v.Array?
    ensures b + Printed(v, fmt, d) == (b + [OPEN_BRACKET]) + (ItemsText(v, 0, fmt, d + 1) + [CLOSE_BRACKET])
  {
    hide ItemsText;
    var t := ItemsText(v, 0, fmt, d + 1);
    assert Printed(v, fmt, d) == [OPEN_BRACKET] + t + [CLOSE_BRACKET];
    hide Printed;
    assert [OPEN_BRACKET] + t + [CLOSE_BRACKET] == [OPEN_BRACKET] + (t + [CLOSE_BRACKET]);
  }

  lemma ItemsEnd(v: Value, fmt: bool, d: nat)
    requires v.Array?
    ensures ItemsText(v, |v.items|, fmt, d) + [CLOSE_BRACKET] == [CLOSE_BRACKET]
  {
  }

  lemma ItemsStep(b: Text, v: Value, i: nat, fmt: bool, d: nat)
    requires v.Array? && i < |v.items|
    ensures var t, r := Printed(v.items[i], fmt, d), ItemsText(v, i + 1, fmt, d);
      b + (ItemsText(v, i, fmt, d) + [CLOSE_BRACKET]) ==
        if i + 1 == |v.items| then (b + t) + (r + [CLOSE_BRACKET])
        else (b + t + ([COMMA] + Optional(fmt, SPACE))) + (r + [CLOSE_BRACKET])
  {
    hide Printed, Optional;
    var t, r := Printed(v.items[i], fmt, d), ItemsText(v, i + 1, fmt, d);
    if i + 1 == |v.items| {
      assert ItemsText(v, i, fmt, d) == t + [];
    } else {
      var c := [COMMA] + Optional(fmt, SPACE);
      assert ItemsText(v, i, fmt, d) == t + (c + r);
      hide ItemsText;
      assert b + ((t + (c + r)) + [CLOSE_BRACKET]) == (b + t + c) + (r + [CLOSE_BRACKET]);
    }
  }

  lemma ObjectText(b: Text, v: Value, fmt: bool, d: nat)
    requires v.Object?
    ensures b + Printed(v, fmt, d) ==
      (b + ([OPEN_BRACE] + Optional(fmt, NEWLINE))) + (MembersText(v, 0, fmt, d + 1) + (Indent(fmt, d) + [CLOSE_BRACE]))
  {
    hide MembersText, Optional, Indent;
    var o, t := [OPEN_BRACE] + Optional(fmt, NEWLINE), MembersText(v, 0, fmt, d + 1) + (Indent(fmt, d) + [CLOSE_BRACE]);
    assert Printed(v, fmt, d) == o + t;
    hide Printed;
    assert b + (o + t) == (b + o) + t;
  }

  lemma MembersEnd(v: Value, fmt: bool, d: nat)
    requires v.Object?
    ensures forall last: Text :: MembersText(v, |v.members|, fmt, d) + last == last
  {
  }

  lemma LastNulFree(fmt: bool, d: nat)
    ensures NulFree(Indent(fmt, d) + [CLOSE_BRACE]) && |Indent(fmt, d)| == if fmt then d else 0
  {
  }

  lemma IndentLength(fmt: bool, d: nat)
    ensures Indent(fmt, d) == if fmt then Tabs(d) else []
    ensures |Tabs(d)| == d
  {
  }

  lemma OptionalLength(on: bool, b: byte)
    ensures |Optional(on, b)| == if on then 1 else 0
  {
  }

  /** The text of the members from the i-th on, taken apart. */
  lemma MembersPieces(b: Text, v: Value, i: nat, fmt: bool, d: nat, last: Text)
    requires v.Object? && i < |v.members|
    ensures var m, more := v.members[i], i + 1 < |v.members|;
      var key := Indent(fmt, d) + Quoted(m.name) + ([COLON] + Optional(fmt, TAB));
      b + (MembersText(v, i, fmt, d) + last) ==
        (b + key + Printed(m.value, fmt, d) + (Optional(more, COMMA) + Optional(fmt, NEWLINE))) +
          (MembersText(v, i + 1, fmt, d) + last)
  {
    MembersStep(v, i, fmt, d);
    var m, more := v.members[i], i + 1 < |v.members|;
    var t1, t2, t3, t4 := Indent(fmt, d), Quoted(m.name), [COLON] + Optional(fmt, TAB), Printed(m.value, fmt, d);
    var t5, r := Optional(more, COMMA) + Optional(fmt, NEWLINE), MembersText(v, i + 1, fmt, d);
    hide Printed, Quoted, MembersText, Indent, Optional;
    assert MembersText(v, i, fmt, d) == t1 + (t2 + (t3 + (t4 + (t5 + r))));
    Flatten(b, t1, t2, t3, t4, t5, r, last);
  }

  lemma Flatten(b: Text, t1: Text, t2: Text, t3: Text, t4: Text, t5: Text, r: Text, last: Text)
    ensures b + ((t1 + (t2 + (t3 + (t4 + (t5 + r))))) + last) == (b + (t1 + t2 + t3) + t4 + t5) + (r + last)
  {
    assert t1 + (t2 + (t3 + (t4 + (t5 + r)))) == t1 + t2 + t3 + (t4 + (t5 + r));
    var k := t1 + t2 + t3;
    assert b + ((k + (t4 + (t5 + r))) + last) == (b + k + t4 + t5) + (r + last);
  }
}
