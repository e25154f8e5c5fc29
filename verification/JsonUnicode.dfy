/** Escapes of the form \uXXXX, one or two of them for a code point, and their UTF-8 encoding. */
module JsonUnicode {
  import opened Bytes
  import opened JsonText

  function HexValue(b: byte): (x: int)
    ensures -1 <= x < 16
  {
    if 48 <= b <= 57 then b as int - 48 else if 65 <= b <= 70 then b as int - 55
      else if 97 <= b <= 102 then b as int - 87 else -1
  }

  /** Four hexadecimal digits; 0 when one of them is none. */
  function Hex4(t: Text): (h: nat)
    requires |t| == 4
    ensures h < 0x1_0000
  {
    var a, b, c, d := HexValue(t[0]), HexValue(t[1]), HexValue(t[2]), HexValue(t[3]);
    if a < 0 || b < 0 || c < 0 || d < 0 then 0 else 0x1000 * a + 0x100 * b + 0x10 * c + d
  }

  /** parse_hex4 */
  method ParseHex4(input: Text) returns (h: nat)
    requires |input| == 4
    ensures h == Hex4(input)
  {
    h := 0;
    var i := 0;
    while i < 4
      invariant 0 <= i <= 4 && forall j :: 0 <= j < i ==> HexValue(input[j]) >= 0
      invariant i == 1 ==> h == 0x10 * HexValue(input[0])
      invariant i == 2 ==> h == 0x100 * HexValue(input[0]) + 0x10 * HexValue(input[1])
      invariant i == 3 ==> h == 0x1000 * HexValue(input[0]) + 0x100 * HexValue(input[1]) + 0x10 * HexValue(input[2])
      invariant i == 4 ==> h == Hex4(input)
      invariant i == 0 ==> h == 0
    {
      var b := input[i];
      if b >= 48 && b <= 57 {
        h := h + (b as int - 48);
      } else if b >= 65 && b <= 70 {
        h := h + (10 + b as int - 65);
      } else if b >= 97 && b <= 102 {
        h := h + (10 + b as int - 97);
      } else {
        return 0;
      }
      if i < 3 {
        h := h * 16;
      }
      i := i + 1;
    }
  }

  /** Octets of a code point (section 3 of RFC 3629). */
  function Utf8(c: nat): (t: Text)
    requires c <= 0x10_FFFF
    ensures 0 < |t| <= 4 && (|t| == 4 ==> c >= 0x1_0000)
  {
    if c < 0x80 then [c]
    else if c < 0x800 then [0xC0 + c / 0x40, 0x80 + c % 0x40]
    else if c < 0x1_0000 then [0xE0 + c / 0x1000, 0x80 + c / 0x40 % 0x40, 0x80 + c % 0x40]
    else [0xF0 + c / 0x4_0000, 0x80 + c / 0x1000 % 0x40, 0x80 + c / 0x40 % 0x40, 0x80 + c % 0x40]
  }

  /** The bits of an octet below its mark. */
  function Payload(b: byte, m: nat): (x: nat)
    requires m > 0
  {
    var x: int := b;
    x % m
  }

  /** The code point an octet sequence stands for, by the bit layout of section 3 of RFC 3629. */
  function Decoded(t: Text): (c: nat)
    requires 0 < |t| <= 4
  {
    if |t| == 1 then Payload(t[0], 0x80)
    else if |t| == 2 then Payload(t[0], 0x20) * 0x40 + Payload(t[1], 0x40)
    else if |t| == 3 then Payload(t[0], 0x10) * 0x1000 + Payload(t[1], 0x40) * 0x40 + Payload(t[2], 0x40)
    else Payload(t[0], 8) * 0x4_0000 + Payload(t[1], 0x40) * 0x1000 + Payload(t[2], 0x40) * 0x40 + Payload(t[3], 0x40)
  }

  /** A number without its k lowest sextets. */
  function Shifted(c: nat, k: nat): (r: nat) {
    if k == 0 then c else if k == 1 then c / 0x40 else if k == 2 then c / 0x1000 else c / 0x4_0000
  }

  function Sextet(c: nat, k: nat): (r: nat)
    ensures r < 0x40
  {
    Shifted(c, k) % 0x40
  }

  lemma ShiftedNext(c: nat, k: nat)
    requires k < 3
    ensures Shifted(c, k + 1) == Shifted(c, k) / 0x40
    ensures Sextet(c, k) == Shifted(c, k) % 0x40
  {
  }

  lemma ShiftedSum(c: nat, k: nat)
    requires k < 3
    ensures Shifted(c, k) == 0x40 * Shifted(c, k + 1) + Sextet(c, k)
  {
  }

  lemma Low(base: nat, m: nat, x: nat)
    requires m > 0 && base % m == 0 && x < m && base + x < 256
    ensures Payload(base + x, m) == x
  {
    var q := base / m;
    assert base == m * q;
    Split(base + x, m, q, x);
  }

  lemma ShiftedSmall(c: nat)
    requires c <= 0x10_FFFF
    ensures c < 0x800 ==> Shifted(c, 1) < 0x20
    ensures c < 0x1_0000 ==> Shifted(c, 2) < 0x10
    ensures Shifted(c, 3) < 8
  {
  }

  /** The octets, by sextets. */
  lemma Utf8At(c: nat)
    requires c <= 0x10_FFFF
    ensures var t := Utf8(c);
      && (|t| == 1 ==> t[0] as int == c)
      && (|t| == 2 ==> t[0] as int == 0xC0 + Shifted(c, 1))
      && (|t| == 3 ==> t[0] as int == 0xE0 + Shifted(c, 2))
      && (|t| == 4 ==> t[0] as int == 0xF0 + Shifted(c, 3))
      && forall i :: 0 < i < |t| ==> t[i] as int == 0x80 + Sextet(c, |t| - 1 - i)
  {
  }

  lemma Utf8Size(c: nat)
    requires c <= 0x10_FFFF
    ensures |Utf8(c)| == if c < 0x80 then 1 else if c < 0x800 then 2 else if c < 0x1_0000 then 3 else 4
  {
  }

  lemma Join2(a: nat, b: nat)
    requires a < 0x20 && b < 0x40
    ensures Decoded([0xC0 + a, 0x80 + b]) == a * 0x40 + b
  {
    Low(0xC0, 0x20, a);
    Low(0x80, 0x40, b);
  }

  lemma Join3(a: nat, b: nat, d: nat)
    requires a < 0x10 && b < 0x40 && d < 0x40
    ensures Decoded([0xE0 + a, 0x80 + b, 0x80 + d]) == a * 0x1000 + b * 0x40 + d
  {
    Low(0xE0, 0x10, a);
    Low(0x80, 0x40, b);
    Low(0x80, 0x40, d);
    hide Payload;
  }

  lemma Join4(a: nat, b: nat, d: nat, e: nat)
    requires a < 8 && b < 0x40 && d < 0x40 && e < 0x40
    ensures Decoded([0xF0 + a, 0x80 + b, 0x80 + d, 0x80 + e]) == a * 0x4_0000 + b * 0x1000 + d * 0x40 + e
  {
    Low(0xF0, 8, a);
    Low(0x80, 0x40, b);
    Low(0x80, 0x40, d);
    Low(0x80, 0x40, e);
    hide Payload;
  }

  /** Every code point is recovered from its octets. */
  lemma Utf8RoundTrip(c: nat)
    requires c <= 0x10_FFFF
    ensures Decoded(Utf8(c)) == c
  {
    hide Shifted, Sextet, Utf8, Payload, Decoded;
    Utf8At(c);
    Utf8Size(c);
    ShiftedSmall(c);
    ShiftedSum(c, 0);
    ShiftedSum(c, 1);
    ShiftedSum(c, 2);
    ShiftedNone(c);
    var t, r0, r1, r2 := Utf8(c), Sextet(c, 0), Sextet(c, 1), Sextet(c, 2);
    if |t| == 1 {
      JoinOne(t);
    } else if |t| == 2 {
      Join2(Shifted(c, 1), r0);
      assert t == [0xC0 + Shifted(c, 1), 0x80 + r0];
    } else if |t| == 3 {
      Join3(Shifted(c, 2), r1, r0);
      assert t == [0xE0 + Shifted(c, 2), 0x80 + r1, 0x80 + r0];
    } else {
      Join4(Shifted(c, 3), r2, r1, r0);
      assert t == [0xF0 + Shifted(c, 3), 0x80 + r2, 0x80 + r1, 0x80 + r0];
    }
  }

  lemma JoinOne(t: Text)
    requires |t| == 1 && t[0] < 0x80
    ensures Decoded(t) == t[0] as int
  {
  }

  datatype Literal = Bad | Code(codepoint: nat, length: nat)

  /** The code point of the escape at p, and how many bytes it takes. */
  ghost function LiteralAt(c: Text, p: nat, end: nat): (l: Literal)
    requires end <= |c|
    ensures l.Code? ==> l.codepoint <= 0x10_FFFF && p + l.length <= end
    ensures l.Code? ==> (l.length == 6 && l.codepoint < 0x1_0000) || (l.length == 12 && l.codepoint >= 0x1_0000)
  {
    if p + 6 > end then Bad else
      var first := Hex4(c[p + 2..p + 6]);
      if 0xDC00 <= first <= 0xDFFF then Bad
      else if 0xD800 <= first <= 0xDBFF then
        if p + 12 > end || c[p + 6] != BACKSLASH || c[p + 7] != 117 then Bad else
          var second := Hex4(c[p + 8..p + 12]);
          if 0xDC00 <= second <= 0xDFFF then Code(0x1_0000 + first % 0x400 * 0x400 + second % 0x400, 12) else Bad
      else Code(first, 6)
  }

  // ----- What escapes are meant to be (section 7 of RFC 8259) -----

  /** Four hexadecimal digits, of either case, for a 16-bit number. */
  ghost predicate Digits4(t: Text, h: nat) {
    && |t| == 4
    && HexValue(t[0]) == h / 0x1000 && HexValue(t[1]) == h / 0x100 % 16
    && HexValue(t[2]) == h / 0x10 % 16 && HexValue(t[3]) == h % 16
  }

  ghost predicate UnitAt(c: Text, p: nat, h: nat) {
    p + 6 <= |c| && c[p] == BACKSLASH && c[p + 1] == 117 && Digits4(c[p + 2..p + 6], h)
  }

  ghost predicate Surrogate(h: nat) { 0xD800 <= h <= 0xDFFF }

  /** The escape of a code point stands at p: one of six bytes, or two for the halves of a surrogate pair. */
  ghost predicate EscapeAt(c: Text, p: nat, cp: nat) {
    if cp < 0x1_0000 then !Surrogate(cp) && UnitAt(c, p, cp)
    else
      && cp <= 0x10_FFFF
      && UnitAt(c, p, 0xD800 + (cp - 0x1_0000) / 0x400) && UnitAt(c, p + 6, 0xDC00 + (cp - 0x1_0000) % 0x400)
  }

  ghost function EscapeLength(cp: nat): (n: nat) { if cp < 0x1_0000 then 6 else 12 }

  lemma Digits4Value(t: Text, h: nat)
    requires Digits4(t, h) && h < 0x1_0000
    ensures Hex4(t) == h
  {
    NibbleSum(h);
    hide HexValue;
  }

  lemma NibbleSum(h: nat)
    ensures h == 0x1000 * (h / 0x1000) + 0x100 * (h / 0x100 % 16) + 0x10 * (h / 0x10 % 16) + h % 16
  {
    var h1 := h / 0x10;
    var h2 := h1 / 0x10;
    var h3 := h2 / 0x10;
    assert h == 0x10 * h1 + h % 16 && h1 == 0x10 * h2 + h1 % 16 && h2 == 0x10 * h3 + h2 % 16;
    assert h / 0x100 == h2 && h / 0x1000 == h3;
  }

  /** The escape of any code point is read as that code point. */
  lemma EscapeIsRead(c: Text, p: nat, end: nat, cp: nat)
    requires EscapeAt(c, p, cp) && p + EscapeLength(cp) <= end <= |c|
    ensures LiteralAt(c, p, end) == Code(cp, EscapeLength(cp))
  {
    hide Digits4, Hex4;
    if cp < 0x1_0000 {
      Digits4Value(c[p + 2..p + 6], cp);
    } else {
      var x := cp - 0x1_0000;
      var hi, lo := 0xD800 + x / 0x400, 0xDC00 + x % 0x400;
      Digits4Value(c[p + 2..p + 6], hi);
      Digits4Value(c[p + 8..p + 12], lo);
      assert hi % 0x400 == x / 0x400 && lo % 0x400 == x % 0x400;
      assert 0x400 * (x / 0x400) + x % 0x400 == x;
    }
  }

  /** Some byte of the four from q on is no hexadecimal digit. */
  ghost predicate BadDigits(c: Text, q: nat) {
    q + 4 <= |c| && exists b :: b in c[q..q + 4] && HexValue(b) < 0
  }

  /** What the n bytes from p on, in front of end, are read as: what they are an escape of, or 0 for bad digits. */
  ghost predicate ReadAs(c: Text, p: nat, end: nat, cp: nat, n: nat) {
    p + n <= end <= |c| && ((EscapeAt(c, p, cp) && n == EscapeLength(cp)) || (cp == 0 && n == 6 && BadDigits(c, p + 2)))
  }

  /** Where the digits end in something else, the value is 0. */
  lemma BadIsZero(c: Text, q: nat)
    requires BadDigits(c, q)
    ensures Hex4(c[q..q + 4]) == 0
  {
    var t := c[q..q + 4];
    var b :| b in t && HexValue(b) < 0;
    hide HexValue;
    assert t[0] == b || t[1] == b || t[2] == b || t[3] == b;
  }

  /** Any four hexadecimal digits are those of their value. */
  lemma GoodIsDigits(c: Text, q: nat)
    requires q + 4 <= |c| && !BadDigits(c, q)
    ensures Digits4(c[q..q + 4], Hex4(c[q..q + 4]))
  {
    var t := c[q..q + 4];
    assert t[0] in t && t[1] in t && t[2] in t && t[3] in t;
    var a, b, d, e := HexValue(t[0]), HexValue(t[1]), HexValue(t[2]), HexValue(t[3]);
    hide HexValue;
    Nibbles(a, b, d, e);
  }

  lemma Nibbles(a: nat, b: nat, d: nat, e: nat)
    requires a < 16 && b < 16 && d < 16 && e < 16
    ensures var h := 0x1000 * a + 0x100 * b + 0x10 * d + e;
      h / 0x1000 == a && h / 0x100 % 16 == b && h / 0x10 % 16 == d && h % 16 == e
  {
    var h := 0x1000 * a + 0x100 * b + 0x10 * d + e;
    Split(h, 0x10, 0x100 * a + 0x10 * b + d, e);
    Split(0x100 * a + 0x10 * b + d, 0x10, 0x10 * a + b, d);
    Split(h, 0x100, 0x10 * a + b, 0x10 * d + e);
    Split(0x10 * a + b, 0x10, a, b);
    Split(h, 0x1000, a, 0x100 * b + 0x10 * d + e);
  }

  /** Whatever is read, and not refused, is an escape or has bad digits in front. */
  lemma ReadMeans(c: Text, p: nat, end: nat)
    requires p + 2 <= end <= |c| && c[p] == BACKSLASH && c[p + 1] == 117 && LiteralAt(c, p, end).Code?
    ensures var l := LiteralAt(c, p, end); ReadAs(c, p, end, l.codepoint, l.length)
  {
    hide Digits4, Hex4, BadDigits;
    if BadDigits(c, p + 2) {
      BadIsZero(c, p + 2);
    } else {
      GoodIsDigits(c, p + 2);
      var first, l := Hex4(c[p + 2..p + 6]), LiteralAt(c, p, end);
      if l.length == 12 {
        if BadDigits(c, p + 8) {
          BadIsZero(c, p + 8);
        }
        GoodIsDigits(c, p + 8);
        HalvesJoin(first, Hex4(c[p + 8..p + 12]));
      }
    }
  }

  /** The halves of a surrogate pair are those of the code point they make. */
  lemma HalvesJoin(first: nat, second: nat)
    requires 0xD800 <= first <= 0xDBFF && 0xDC00 <= second <= 0xDFFF
    ensures var x := first % 0x400 * 0x400 + second % 0x400;
      x <= 0xF_FFFF && first == 0xD800 + x / 0x400 && second == 0xDC00 + x % 0x400
  {
  }

  /**
   * Behind a backslash and a u, some bytes are read as a code point exactly when they are an escape of it, or have
   * something else among their first four digits: then they are not refused, but read as 0.
   */
  lemma ReadExactly(c: Text, p: nat, end: nat, cp: nat, n: nat)
    requires p + 2 <= end <= |c| && c[p] == BACKSLASH && c[p + 1] == 117
    ensures LiteralAt(c, p, end) == Code(cp, n) <==> ReadAs(c, p, end, cp, n)
  {
    hide EscapeAt, BadDigits;
    if LiteralAt(c, p, end) == Code(cp, n) {
      ReadMeans(c, p, end);
    }
    if ReadAs(c, p, end, cp, n) {
      if EscapeAt(c, p, cp) && n == EscapeLength(cp) {
        EscapeIsRead(c, p, end, cp);
      } else {
        BadIsZero(c, p + 2);
      }
    }
  }

  /** Bad digits in the second half of a surrogate pair are refused. */
  lemma BadHalfIsRefused(c: Text, p: nat, end: nat)
    requires p + 12 <= end <= |c| && 0xD800 <= Hex4(c[p + 2..p + 6]) <= 0xDBFF && BadDigits(c, p + 8)
    ensures LiteralAt(c, p, end) == Bad
  {
    hide Hex4, BadDigits;
    BadIsZero(c, p + 8);
  }

  /** The six bytes of a backslash, a u and four letters z are read as the code point 0. */
  lemma BadDigitsAreZero()
    ensures LiteralAt([BACKSLASH, 117, 122, 122, 122, 122], 0, 6) == Code(0, 6)
  {
    var c: Text := [BACKSLASH, 117, 122, 122, 122, 122];
    assert c[2..6][0] == 122 && c[2..6][0] in c[2..6];
    ReadExactly(c, 0, 6, 0, 6);
  }

  /** The part of utf16_literal_to_utf8 that reads; length 0 stands for a bad escape. */
  method ReadLiteral(c: Text, p: nat, end: nat) returns (codepoint: nat, length: nat)
    requires p <= end <= |c|
    ensures LiteralAt(c, p, end) == if length == 0 then Bad else Code(codepoint, length)
    ensures p + 2 <= end && c[p] == BACKSLASH && c[p + 1] == 117 ==>
      if length == 0 then forall cp, n :: !ReadAs(c, p, end, cp, n) else ReadAs(c, p, end, codepoint, length)
  {
    hide ReadAs;
    if p + 2 <= end && c[p] == BACKSLASH && c[p + 1] == 117 {
      forall cp, n
        ensures LiteralAt(c, p, end) == Code(cp, n) <==> ReadAs(c, p, end, cp, n)
      {
        ReadExactly(c, p, end, cp, n);
      }
    }
    if end - p < 6 {
      return 0, 0;
    }
    var first := ParseHex4(c[p + 2..p + 6]);
    if first >= 0xDC00 && first <= 0xDFFF {
      return 0, 0;
    }
    if first >= 0xD800 && first <= 0xDBFF {
      var second_sequence := p + 6;
      if end - second_sequence < 6 {
        return 0, 0;
      }
      if c[second_sequence] != BACKSLASH || c[second_sequence + 1] != 117 {
        return 0, 0;
      }
      var second := ParseHex4(c[second_sequence + 2..second_sequence + 6]);
      if second < 0xDC00 || second > 0xDFFF {
        return 0, 0;
      }
      codepoint, length := 0x1_0000 + first % 0x400 * 0x400 + second % 0x400, 12;
    } else {
      codepoint, length := first, 6;
    }
  }

  /** The part of utf16_literal_to_utf8 that writes, last octet first. */
  method WriteUtf8(codepoint: nat, output: array<byte>, o: nat) returns (n: nat)
    requires codepoint <= 0x10_FFFF && o + |Utf8(codepoint)| <= output.Length
    modifies output
    ensures n == |Utf8(codepoint)| && output[..o + n] == old(output[..o]) + Utf8(codepoint)
  {
    hide Utf8, Shifted, Sextet;
    Utf8Size(codepoint);
    Utf8At(codepoint);
    ShiftedNone(codepoint);
    ShiftedSmall(codepoint);
    var mark := 0;
    if codepoint < 0x80 {
      n := 1;
    } else if codepoint < 0x800 {
      n, mark := 2, 0xC0;
    } else if codepoint < 0x1_0000 {
      n, mark := 3, 0xE0;
    } else {
      n, mark := 4, 0xF0;
    }
    var c, i := codepoint, n - 1;
    ghost var t := Utf8(codepoint);
    while i > 0
      invariant 0 <= i < n && c == Shifted(codepoint, n - 1 - i)
      invariant output[..o] == old(output[..o])
      invariant forall j :: o + i < j < o + n ==> output[j] == t[j - o]
    {
      ShiftedNext(codepoint, n - 1 - i);
      output[o + i] := 0x80 + c % 0x40;
      c := c / 0x40;
      i := i - 1;
    }
    output[o] := if n > 1 then c + mark else c;
    assert output[o] == t[0];
    Appended(output[..], o, t);
  }

  lemma Appended(s: seq<byte>, o: nat, t: Text)
    requires o + |t| <= |s| && forall j :: o <= j < o + |t| ==> s[j] == t[j - o]
    ensures s[..o + |t|] == s[..o] + t
  {
  }

  lemma ShiftedNone(c: nat)
    ensures Shifted(c, 0) == c
  {
  }
}
