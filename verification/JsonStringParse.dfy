/** Parsing JSON string literals: two passes, the first of which decides how much room the second gets. */
module JsonStringParse {
  import opened Bytes
  import opened JsonText
  import opened JsonUnicode

  /** The bytes t stand at position p. */
  ghost predicate At(c: Text, p: nat, t: Text) {
    p + |t| <= |c| && c[p..p + |t|] == t
  }

  lemma AtSplit(c: Text, p: nat, a: Text, b: Text)
    requires At(c, p, a + b)
    ensures At(c, p, a) && At(c, p + |a|, b)
  {
    var t := a + b;
    SliceSlice(c, p, p + |t|, 0, |a|);
    SliceSlice(c, p, p + |t|, |a|, |t|);
    assert t[..|a|] == a && t[|a|..] == b;
  }

  lemma AtByte(c: Text, p: nat, t: Text, i: nat)
    requires At(c, p, t) && i < |t|
    ensures p + i < |c| && c[p + i] == t[i]
  {
    assert c[p..p + |t|][i] == t[i];
  }

  // ----- The first pass -----

  /** Reading from s on: how many escapes have begun before k, and whether k is the byte behind their backslash. */
  ghost function Scan(c: Text, s: nat, k: nat): (r: (nat, bool))
    requires s <= k <= |c|
    ensures r.0 <= k - s
    decreases k
  {
    if k == s then (0, false) else
      var (n, escaped) := Scan(c, s, k - 1);
      if escaped then (n, false) else if c[k - 1] == BACKSLASH then (n + 1, true) else (n, false)
  }

  /** Bytes of output there is room for before k. */
  ghost function Room(c: Text, s: nat, k: nat): (r: nat)
    requires s <= k <= |c|
  {
    k - s - Scan(c, s, k).0
  }

  lemma RoomOne(c: Text, s: nat, k: nat)
    requires s <= k < |c|
    ensures Room(c, s, k) <= Room(c, s, k + 1) <= Room(c, s, k) + 1
    ensures c[k] != BACKSLASH ==> Room(c, s, k + 1) == Room(c, s, k) + 1
  {
  }

  lemma RoomTwo(c: Text, s: nat, k: nat)
    requires s <= k && k + 2 <= |c|
    ensures Room(c, s, k) + 1 <= Room(c, s, k + 2)
  {
    assert Scan(c, s, k + 1) == Scan(c, s, k + 1);
  }

  lemma RoomSix(c: Text, s: nat, k: nat)
    requires s <= k && k + 6 <= |c|
    ensures Room(c, s, k) + 3 <= Room(c, s, k + 6)
  {
    hide Room;
    RoomTwo(c, s, k);
    RoomTwo(c, s, k + 2);
    RoomTwo(c, s, k + 4);
  }

  /** The literal from s on ends with the quote at e, the first one that is not escaped. */
  ghost predicate EndsAt(c: Text, s: nat, e: nat) {
    && s <= e < |c| && c[e] == QUOTE && !Scan(c, s, e).1
    && forall k :: s <= k < e && !Scan(c, s, k).1 ==> c[k] != QUOTE
  }

  /** The first pass: the position of the closing quote and the number of escapes, if there is such a quote. */
  method FindEnd(c: Text, length: nat, s: nat) returns (ok: bool, end: nat, skipped: nat)
    requires length <= |c| && s <= length + 1
    ensures ok ==> end < length && EndsAt(c, s, end) && skipped == Scan(c, s, end).0
    ensures forall e: nat :: EndsAt(c, s, e) && e < length ==> ok && end == e
  {
    end, skipped, ok := s, 0, false;
    while end < length && c[end] != QUOTE
      invariant s <= end && (end <= length || end == s)
      invariant end <= length ==>
        Scan(c, s, end) == (skipped, false) && forall k :: s <= k < end && !Scan(c, s, k).1 ==> c[k] != QUOTE
      decreases length - end
    {
      ScanStep(c, s, end);
      if c[end] == BACKSLASH {
        if end + 1 >= length {
          return;
        }
        skipped := skipped + 1;
        ScanStep(c, s, end + 1);
        end := end + 1;
      }
      end := end + 1;
    }
    if end >= length || c[end] != QUOTE {
      return;
    }
    ok := true;
  }

  lemma ScanStep(c: Text, s: nat, k: nat)
    requires s <= k < |c|
    ensures var (n, escaped) := Scan(c, s, k);
      Scan(c, s, k + 1) == if escaped then (n, false) else if c[k] == BACKSLASH then (n + 1, true) else (n, false)
  {
  }

  /** No quote before k is free, and k is not escaped. */
  ghost predicate NoQuote(c: Text, s: nat, k: nat) {
    s <= k <= |c| && !Scan(c, s, k).1 && forall j :: s <= j < k && !Scan(c, s, j).1 ==> c[j] != QUOTE
  }

  lemma NoQuoteOne(c: Text, s: nat, k: nat)
    requires NoQuote(c, s, k) && k < |c| && c[k] != QUOTE && c[k] != BACKSLASH
    ensures NoQuote(c, s, k + 1)
  {
    ScanStep(c, s, k);
  }

  lemma NoQuoteTwo(c: Text, s: nat, k: nat)
    requires NoQuote(c, s, k) && k + 2 <= |c| && c[k] == BACKSLASH
    ensures NoQuote(c, s, k + 2)
  {
    ScanStep(c, s, k);
    ScanStep(c, s, k + 1);
    hide Scan;
  }

  lemma NoQuoteByte(c: Text, s: nat, k: nat, b: byte)
    requires NoQuote(c, s, k) && At(c, k, EscapedByte(b))
    ensures NoQuote(c, s, k + |EscapedByte(b)|)
  {
    hide NoQuote;
    var t := EscapedByte(b);
    AtByte(c, k, t, 0);
    if |t| == 1 {
      NoQuoteOne(c, s, k);
    } else if |t| == 2 {
      NoQuoteTwo(c, s, k);
    } else {
      NoQuoteTwo(c, s, k);
      AtByte(c, k, t, 2);
      NoQuoteOne(c, s, k + 2);
      AtByte(c, k, t, 3);
      NoQuoteOne(c, s, k + 3);
      AtByte(c, k, t, 4);
      NoQuoteOne(c, s, k + 4);
      AtByte(c, k, t, 5);
      NoQuoteOne(c, s, k + 5);
    }
  }

  lemma {:induction false} NoQuoteAll(c: Text, s: nat, k: nat, t: Text)
    requires NoQuote(c, s, k) && At(c, k, Escaped(t))
    ensures NoQuote(c, s, k + |Escaped(t)|)
    decreases |t|
  {
    hide NoQuote, At, EscapedByte;
    if t != [] {
      AtSplit(c, k, EscapedByte(t[0]), Escaped(t[1..]));
      NoQuoteByte(c, s, k, t[0]);
      NoQuoteAll(c, s, k + |EscapedByte(t[0])|, t[1..]);
    }
  }

  /** The first pass stops at the quote a printed string ends with. */
  lemma PrintedEndsAt(c: Text, s: nat, t: Text)
    requires At(c, s, Escaped(t) + [QUOTE])
    ensures EndsAt(c, s, s + |Escaped(t)|) && At(c, s, Escaped(t))
  {
    AtSplit(c, s, Escaped(t), [QUOTE]);
    AtByte(c, s + |Escaped(t)|, [QUOTE], 0);
    NoQuoteAll(c, s, s, t);
  }

  // ----- The second pass -----

  datatype Unescaped = Invalid | Bytes(text: Text, length: nat)

  /** What the escape sequence at p stands for, and how many bytes it takes. */
  ghost function Unescape(c: Text, p: nat, end: nat): (u: Unescaped)
    requires p < end < |c|
    ensures u.Bytes? ==> 0 < |u.text| <= 4 && (u.length == 2 || u.length == 6 || u.length == 12)
    ensures u.Bytes? && u.length > 2 ==> p + u.length <= end
    ensures u.Bytes? ==> |u.text| <= if u.length == 2 then 1 else if u.length == 6 then 3 else 4
  {
    var b := c[p + 1];
    if b == 98 then Bytes([8], 2)
    else if b == 102 then Bytes([12], 2)
    else if b == 110 then Bytes([10], 2)
    else if b == 114 then Bytes([13], 2)
    else if b == 116 then Bytes([9], 2)
    else if b == QUOTE || b == BACKSLASH || b == SLASH then Bytes([b], 2)
    else if b == 117 then
      match LiteralAt(c, p, end)
      case Bad => Invalid
      case Code(cp, n) => Bytes(Utf8(cp), n)
    else Invalid
  }

  lemma HexDigitValue(x: nat)
    requires x < 16
    ensures HexValue(HexDigit(x)) == x
  {
  }

  /** Unescaping inverts escaping, byte by byte. */
  lemma UnescapeByte(c: Text, p: nat, end: nat, b: byte)
    requires At(c, p, EscapedByte(b)) && p + |EscapedByte(b)| <= end < |c|
    ensures c[p] == BACKSLASH <==> EscapedByte(b) != [b]
    ensures c[p] == BACKSLASH ==> Unescape(c, p, end) == Bytes([b], |EscapedByte(b)|)
    ensures c[p] != BACKSLASH ==> c[p] == b
  {
    var t := EscapedByte(b);
    AtByte(c, p, t, 0);
    if |t| == 2 {
      AtByte(c, p, t, 1);
    } else if |t| == 6 {
      AtByte(c, p, t, 1);
      ControlEscape(c, p, b);
      hide Hex4;
      assert LiteralAt(c, p, end) == Code(b, 6);
    }
  }

  lemma ControlEscape(c: Text, p: nat, b: byte)
    requires b < 32 && At(c, p, [BACKSLASH, 117, 48, 48, HexDigit(b as int / 16), HexDigit(b as int % 16)])
    ensures Hex4(c[p + 2..p + 6]) == b as int
  {
    var hi, lo := b as int / 16, b as int % 16;
    var t := [BACKSLASH, 117, 48, 48, HexDigit(hi), HexDigit(lo)];
    HexDigitValue(hi);
    HexDigitValue(lo);
    SliceSlice(c, p, p + 6, 2, 6);
    assert t[2..6] == [48, 48, HexDigit(hi), HexDigit(lo)];
    hide HexDigit;
  }

  /** One escape sequence. */
  method ParseEscape(c: Text, p: nat, end: nat, output: array<byte>, o: nat) returns (length: nat, n: nat)
    requires p < end < |c| && o < output.Length
    requires p + 6 <= end ==> o + 3 <= output.Length
    requires p + 12 <= end ==> o + 4 <= output.Length
    modifies output
    ensures Unescape(c, p, end).Invalid? <==> length == 0
    ensures length != 0 ==> var u := Unescape(c, p, end);
      u.length == length && |u.text| == n && o + n <= output.Length && output[..o + n] == old(output[..o]) + u.text
  {
    hide LiteralAt, Utf8, Hex4;
    length, n := 2, 1;
    var b := c[p + 1];
    if b == 98 {
      output[o] := 8;
    } else if b == 102 {
      output[o] := 12;
    } else if b == 110 {
      output[o] := 10;
    } else if b == 114 {
      output[o] := 13;
    } else if b == 116 {
      output[o] := 9;
    } else if b == QUOTE || b == BACKSLASH || b == SLASH {
      output[o] := b;
    } else if b == 117 {
      var cp;
      cp, length := ReadLiteral(c, p, end);
      if length == 0 {
        return 0, 0;
      }
      n := WriteUtf8(cp, output, o);
    } else {
      return 0, 0;
    }
  }

  /** The bytes a followed by what u stands for. */
  ghost function Join(a: Text, u: Unescaped): Unescaped {
    if u.Bytes? then Bytes(a + u.text, 0) else Invalid
  }

  /** What the literal stands for from p up to its closing quote. */
  ghost function Meaning(c: Text, p: nat, end: nat): (u: Unescaped)
    requires end < |c|
    decreases end - p
  {
    if p >= end then Bytes([], 0)
    else if c[p] != BACKSLASH then Join([c[p]], Meaning(c, p + 1, end))
    else
      match Unescape(c, p, end)
      case Invalid => Invalid
      case Bytes(w, n) => Join(w, Meaning(c, p + n, end))
  }

  lemma MeaningStep(c: Text, p: nat, end: nat, a: Text)
    requires p < end < |c|
    ensures Join(a, Meaning(c, p, end)) ==
      if c[p] != BACKSLASH then Join(a + [c[p]], Meaning(c, p + 1, end))
      else if Unescape(c, p, end).Invalid? then Invalid
      else Join(a + Unescape(c, p, end).text, Meaning(c, p + Unescape(c, p, end).length, end))
  {
    hide Unescape;
    var w := if c[p] != BACKSLASH then [c[p]] else if Unescape(c, p, end).Bytes? then Unescape(c, p, end).text else [];
    var n := if c[p] != BACKSLASH then 1 else if Unescape(c, p, end).Bytes? then Unescape(c, p, end).length else 1;
    var m := Meaning(c, p + n, end);
    if m.Bytes? {
      assert a + (w + m.text) == a + w + m.text;
    }
  }

  lemma MeaningEnds(c: Text, p: nat, end: nat, a: Text)
    requires end < |c|
    ensures p >= end ==> Join(a, Meaning(c, p, end)) == Bytes(a, 0)
    ensures Meaning(c, p, end).Bytes? ==> Join([], Meaning(c, p, end)).text == Meaning(c, p, end).text
    ensures Meaning(c, p, end).Bytes? <==> Join([], Meaning(c, p, end)).Bytes?
  {
  }

  /** The loop of the second pass; it never leaves the room given by the first, whatever the text is. */
  method UnescapeAll(c: Text, s: nat, end: nat, output: array<byte>) returns (ok: bool, o: nat, p: nat)
    requires s <= end && EndsAt(c, s, end) && output.Length == Room(c, s, end) + 2
    modifies output
    ensures o < output.Length && p <= end + 1
    ensures ok <==> Meaning(c, s, end).Bytes?
    ensures ok ==> output[..o] == Meaning(c, s, end).text
  {
    hide Room, EndsAt, Scan, Unescape, Meaning, Join;
    o, p, ok := 0, s, false;
    RoomStart(c, s, end);
    ghost var m := Join([], Meaning(c, s, end));
    MeaningEnds(c, s, end, []);
    while p < end
      invariant s <= p <= end + 1 && end < |c| && o < output.Length
      invariant m == Join(output[..o], Meaning(c, p, end))
      invariant if p <= end then o <= Room(c, s, p) else o <= Room(c, s, end) + 1
      decreases end - p
    {
      RoomUp(c, s, p, end);
      MeaningStep(c, p, end, output[..o]);
      ghost var before := output[..o];
      if c[p] != BACKSLASH {
        output[o] := c[p];
        assert output[..o + 1] == before + [c[p]];
        o := o + 1;
        p := p + 1;
      } else {
        var length, n := ParseEscape(c, p, end, output, o);
        if length == 0 {
          return;
        }
        o := o + n;
        p := p + length;
      }
    }
    MeaningEnds(c, p, end, output[..o]);
    ok := true;
  }

  lemma RoomStart(c: Text, s: nat, end: nat)
    requires s <= end && EndsAt(c, s, end)
    ensures end < |c| && Room(c, s, s) == 0
  {
  }

  lemma {:induction false} RoomMonotone(c: Text, s: nat, j: nat, k: nat)
    requires s <= j <= k <= |c|
    ensures Room(c, s, j) <= Room(c, s, k)
    decreases k
  {
    if j < k {
      RoomMonotone(c, s, j, k - 1);
      RoomOne(c, s, k - 1);
    }
  }

  /** Room for what comes next. */
  lemma RoomUp(c: Text, s: nat, p: nat, end: nat)
    requires s <= p < end < |c|
    ensures Room(c, s, p) <= Room(c, s, end)
    ensures c[p] != BACKSLASH ==> Room(c, s, p + 1) == Room(c, s, p) + 1
    ensures p + 2 <= end ==> Room(c, s, p) + 1 <= Room(c, s, p + 2) <= Room(c, s, end)
    ensures p + 6 <= end ==> Room(c, s, p) + 3 <= Room(c, s, p + 6) <= Room(c, s, end)
    ensures p + 12 <= end ==> Room(c, s, p) + 6 <= Room(c, s, p + 12) <= Room(c, s, end)
  {
    hide Room;
    RoomMonotone(c, s, p, end);
    RoomOne(c, s, p);
    if p + 2 <= end {
      RoomTwo(c, s, p);
      RoomMonotone(c, s, p + 2, end);
    }
    if p + 6 <= end {
      RoomSix(c, s, p);
      RoomMonotone(c, s, p + 6, end);
    }
    if p + 12 <= end {
      RoomSix(c, s, p + 6);
      RoomMonotone(c, s, p + 12, end);
    }
  }

  // ----- What literals are meant to be (section 7 of RFC 8259) -----

  /** A byte that stands for itself, a short escape, or the escape of a code point. */
  datatype Char = Raw(b: byte) | Short(b: byte) | Point(cp: nat)

  /** The character is written at p. */
  ghost predicate WrittenAt(c: Text, p: nat, ch: Char) {
    match ch
    case Raw(b) => p < |c| && c[p] == b && b != QUOTE && b != BACKSLASH
    case Short(b) => p + 2 <= |c| && c[p] == BACKSLASH &&
      (if b == SLASH then c[p + 1] == SLASH else ShortEscape(b) != 0 && c[p + 1] == ShortEscape(b))
    case Point(cp) => EscapeAt(c, p, cp)
  }

  ghost function CharLength(ch: Char): (n: nat)
    ensures n > 0
  {
    match ch
    case Raw(_) => 1
    case Short(_) => 2
    case Point(cp) => EscapeLength(cp)
  }

  /** The bytes it stands for: UTF-8 in the case of an escape. */
  ghost function CharText(ch: Char): (t: Text) {
    match ch
    case Raw(b) => [b]
    case Short(b) => [b]
    case Point(cp) => if cp <= 0x10_FFFF then Utf8(cp) else []
  }

  ghost predicate AllWritten(c: Text, p: nat, chs: seq<Char>, end: nat)
    decreases |chs|
  {
    if chs == [] then p == end
    else
      && WrittenAt(c, p, chs[0]) && p + CharLength(chs[0]) <= end
      && AllWritten(c, p + CharLength(chs[0]), chs[1..], end)
  }

  ghost function CharsText(chs: seq<Char>): (t: Text) {
    if chs == [] then [] else CharText(chs[0]) + CharsText(chs[1..])
  }

  lemma CharMeans(c: Text, p: nat, end: nat, ch: Char)
    requires WrittenAt(c, p, ch) && p + CharLength(ch) <= end < |c|
    ensures if ch.Raw? then c[p] != BACKSLASH && CharText(ch) == [c[p]]
      else c[p] == BACKSLASH && Unescape(c, p, end) == Bytes(CharText(ch), CharLength(ch))
  {
    hide LiteralAt, EscapeAt;
    if ch.Point? {
      EscapeIsRead(c, p, end, ch.cp);
      EscapeBegins(c, p, ch.cp);
    }
  }

  lemma EscapeBegins(c: Text, p: nat, cp: nat)
    requires EscapeAt(c, p, cp)
    ensures p + EscapeLength(cp) <= |c| && c[p] == BACKSLASH && c[p + 1] == 117 && cp <= 0x10_FFFF
  {
  }

  /** Whatever way a string is written, its meaning is the bytes its characters stand for. */
  lemma {:induction false} WrittenMeans(c: Text, p: nat, chs: seq<Char>, end: nat)
    requires AllWritten(c, p, chs, end) && end < |c|
    ensures p <= end && Meaning(c, p, end) == Bytes(CharsText(chs), 0)
    decreases |chs|
  {
    hide Unescape, WrittenAt, CharText, CharLength;
    if chs != [] {
      CharMeans(c, p, end, chs[0]);
      WrittenMeans(c, p + CharLength(chs[0]), chs[1..], end);
      RawIsOne(chs[0]);
    }
  }

  lemma RawIsOne(ch: Char)
    ensures CharLength(ch) > 0 && (ch.Raw? ==> CharLength(ch) == 1)
  {
  }

  /** A quote behind the characters is where the literal ends. */
  lemma {:induction false} WrittenNoQuote(c: Text, s: nat, p: nat, chs: seq<Char>, end: nat)
    requires NoQuote(c, s, p) && AllWritten(c, p, chs, end)
    ensures NoQuote(c, s, end)
    decreases |chs|
  {
    hide NoQuote, WrittenAt, CharLength;
    if chs != [] {
      CharNoQuote(c, s, p, chs[0]);
      WrittenNoQuote(c, s, p + CharLength(chs[0]), chs[1..], end);
    }
  }

  lemma CharNoQuote(c: Text, s: nat, p: nat, ch: Char)
    requires NoQuote(c, s, p) && WrittenAt(c, p, ch)
    ensures NoQuote(c, s, p + CharLength(ch))
  {
    hide NoQuote;
    match ch
    case Raw(_) => NoQuoteOne(c, s, p);
    case Short(_) => NoQuoteTwo(c, s, p);
    case Point(cp) =>
      if cp < 0x1_0000 {
        UnitNoQuote(c, s, p, cp);
      } else {
        UnitNoQuote(c, s, p, 0xD800 + (cp - 0x1_0000) / 0x400);
        UnitNoQuote(c, s, p + 6, 0xDC00 + (cp - 0x1_0000) % 0x400);
      }
  }

  lemma UnitNoQuote(c: Text, s: nat, p: nat, h: nat)
    requires NoQuote(c, s, p) && UnitAt(c, p, h)
    ensures NoQuote(c, s, p + 6)
  {
    hide NoQuote, HexValue;
    UnitDigit(c, p, h, 0);
    UnitDigit(c, p, h, 1);
    UnitDigit(c, p, h, 2);
    UnitDigit(c, p, h, 3);
    hide UnitAt;
    NoQuoteTwo(c, s, p);
    NoQuoteOne(c, s, p + 2);
    NoQuoteOne(c, s, p + 3);
    NoQuoteOne(c, s, p + 4);
    NoQuoteOne(c, s, p + 5);
  }

  lemma UnitDigit(c: Text, p: nat, h: nat, i: nat)
    requires UnitAt(c, p, h) && i < 4
    ensures p + 6 <= |c| && c[p] == BACKSLASH && c[p + 2 + i] != QUOTE && c[p + 2 + i] != BACKSLASH
  {
    var t := c[p + 2..p + 6];
    assert c[p + 2 + i] == t[i] && HexValue(t[i]) >= 0;
  }

  /** A literal stands at p, up to e: quotes around something with a meaning. */
  ghost predicate LiteralIs(c: Text, p: nat, t: Text, e: nat) {
    && p + 2 <= e <= |c| && c[p] == QUOTE && EndsAt(c, p + 1, e - 1)
    && Meaning(c, p + 1, e - 1).Bytes? && Meaning(c, p + 1, e - 1).text == t
  }

  /** Every string of RFC 8259, however it is written, stands for the bytes of its characters. */
  lemma WrittenIs(c: Text, p: nat, chs: seq<Char>, end: nat)
    requires p < |c| && c[p] == QUOTE && AllWritten(c, p + 1, chs, end) && end < |c| && c[end] == QUOTE
    ensures LiteralIs(c, p, CharsText(chs), end + 1)
  {
    hide Meaning;
    WrittenMeans(c, p + 1, chs, end);
    WrittenNoQuote(c, p + 1, p + 1, chs, end);
  }

  // ----- Printed strings -----

  lemma {:induction false} EscapedMeans(c: Text, p: nat, end: nat, t: Text)
    requires end < |c| && At(c, p, Escaped(t)) && p + |Escaped(t)| == end
    ensures Meaning(c, p, end) == Bytes(t, 0)
    decreases |t|
  {
    hide At, EscapedByte, Unescape;
    if t != [] {
      AtSplit(c, p, EscapedByte(t[0]), Escaped(t[1..]));
      UnescapeByte(c, p, end, t[0]);
      EscapedMeans(c, p + |EscapedByte(t[0])|, end, t[1..]);
    }
  }

  /** A printed string stands for the string. */
  lemma QuotedIs(c: Text, p: nat, t: Text)
    requires At(c, p, Quoted(t))
    ensures LiteralIs(c, p, t, p + |Quoted(t)|)
  {
    hide At, Meaning, EndsAt;
    QuotedAt(c, p, t);
    EndFacts(c, p + 1, p + 1 + |Escaped(t)|);
    EscapedMeans(c, p + 1, p + 1 + |Escaped(t)|, t);
  }

  /**
   * parse_string, from the position of its opening quote on.  The caller has seen to it that this position can be
   * read.  It succeeds exactly when a literal stands there, and yields what that stands for.
   */
  method ParseLiteral(c: Text, length: nat, offset: nat) returns (ok: bool, text: Text, next: nat)
    requires length <= |c| && offset <= length && offset < |c|
    ensures ok ==> next <= length && LiteralIs(c, offset, text, next)
    ensures forall t: Text, e: nat :: LiteralIs(c, offset, t, e) && e <= length ==> ok && text == t && next == e
  {
    hide Room, EndsAt, Scan, Meaning;
    ok, text, next := false, [], offset + 1;
    if c[offset] != QUOTE {
      return;
    }
    var end, skipped;
    ok, end, skipped := FindEnd(c, length, offset + 1);
    if !ok {
      return;
    }
    EndFacts(c, offset + 1, end);
    var allocation_length := end - offset - skipped;
    var output := new byte[allocation_length + 1];
    var o, p;
    ok, o, p := UnescapeAll(c, offset + 1, end, output);
    if !ok {
      next := p;
      return;
    }
    output[o] := 0;
    text := output[..o];
    next := end + 1;
  }

  lemma EndFacts(c: Text, s: nat, e: nat)
    requires EndsAt(c, s, e)
    ensures s <= e < |c| && Room(c, s, e) == e - s - Scan(c, s, e).0
  {
  }

  lemma QuotedAt(c: Text, p: nat, t: Text)
    requires At(c, p, Quoted(t))
    ensures p < |c| && c[p] == QUOTE
    ensures EndsAt(c, p + 1, p + 1 + |Escaped(t)|) && At(c, p + 1, Escaped(t))
  {
    hide At, EndsAt, Escaped;
    AtByte(c, p, Quoted(t), 0);
    assert Quoted(t) == [QUOTE] + (Escaped(t) + [QUOTE]);
    AtSplit(c, p, [QUOTE], Escaped(t) + [QUOTE]);
    PrintedEndsAt(c, p + 1, t);
  }
}
