/**
 * JSON texts at large: whatever the escapes, the spelling of numbers and the
 * white space, a text written by the grammar of RFC 8259, sections 2 to 7, is
 * read as what it says.
 */
module JsonText {
  import opened Bytes
  import opened Common
  import opened Json

  // ------------------------------------------------------------ characters

  /** The code points that a byte string of UTF-8 stands for, up to three bytes each. */
  function Scalars(s: Text): Option<seq<nat>> {
    if s == [] then Some([])
    else if s[0] < 0x80 then Onto(s[0], Scalars(s[1..]))
    else if 0xC0 <= s[0] < 0xE0 && |s| >= 2 && Tail(s[1]) then
      Onto(Above(s[0], 0xC0) * 64 + Above(s[1], 0x80), Scalars(s[2..]))
    else if 0xE0 <= s[0] < 0xF0 && |s| >= 3 && Tail(s[1]) && Tail(s[2]) then
      Onto(Above(s[0], 0xE0) * 4096 + Above(s[1], 0x80) * 64 + Above(s[2], 0x80), Scalars(s[3..]))
    else None
  }

  function Above(b: byte, base: nat): nat
    requires base <= b
  {
    var n: int := b;
    n - base
  }

  function Onto(cp: nat, r: Option<seq<nat>>): Option<seq<nat>> {
    if r.None? then None else Some([cp] + r.value)
  }

  /** What a code point becomes as a character: surrogates are replaced. */
  function Replaced(cp: nat): nat { if 0xD800 <= cp < 0xE000 then 0xFFFD else cp }

  lemma CodePointDecodes(cp: nat, more: Text)
    requires cp < 0x10000
    ensures Scalars(CodePoint(cp) + more) == Onto(Replaced(cp), Scalars(more))
  {
    var s := CodePoint(cp) + more;
    var n := |CodePoint(cp)|;
    assert s[n..] == more;
    if cp >= 0x800 && !(0xD800 <= cp < 0xE000) {
      assert cp / 4096 * 4096 + cp / 64 % 64 * 64 + cp % 64 == cp by {
        assert cp / 64 == cp / 4096 * 64 + cp / 64 % 64;
      }
    }
  }

  lemma CodePointIsUtf8(cp: nat, more: Text)
    requires cp < 0x10000 && Utf8(more)
    ensures Utf8(CodePoint(cp) + more)
  {
    var s := CodePoint(cp) + more;
    assert s[|CodePoint(cp)|..] == more;
  }

  /** A byte taken as a character is the code point with that number. */
  lemma WidenedIsCodePoint(b: byte)
    ensures Widened(b) == CodePoint(b)
  {
  }

  // --------------------------------------------------------------- strings

  /** One character of a written string: a byte as it stands, an escape of two
      characters, or \u with four digits of which some are capitals. */
  datatype Piece = Raw(b: byte) | Short(c: byte) | Long(cp: nat, capital: seq<bool>)

  predicate ValidPiece(p: Piece) {
    match p
    case Raw(b) => b != 34 && b != 92
    case Short(c) => c in [34, 92, 47, 8, 12, 10, 13, 9]
    case Long(cp, capital) => cp < 0x10000 && |capital| == 4
  }

  /** The letter after the backslash: " \ / b f n r t. */
  function Letter(c: byte): byte {
    if c == 8 then 98
    else if c == 12 then 102
    else if c == 10 then 110
    else if c == 13 then 114
    else if c == 9 then 116
    else c
  }

  /** The digit 0 to 9, a to f or A to F. */
  function HexLetter(d: nat, capital: bool): byte
    requires d < 16
  {
    if d < 10 then 48 + d else if capital then 65 + (d - 10) else 97 + (d - 10)
  }

  function PieceText(p: Piece): Text
    requires ValidPiece(p)
  {
    match p
    case Raw(b) => [b]
    case Short(c) => [92, Letter(c)]
    case Long(cp, u) =>
      [92, 117, HexLetter(cp / 4096, u[0]), HexLetter(cp / 256 % 16, u[1]),
       HexLetter(cp / 16 % 16, u[2]), HexLetter(cp % 16, u[3])]
  }

  /** The code point that a character stands for. */
  function PieceMeans(p: Piece): nat {
    match p
    case Raw(b) => b
    case Short(c) => c
    case Long(cp, _) => Replaced(cp)
  }

  predicate ValidPieces(ps: seq<Piece>) { forall i :: 0 <= i < |ps| ==> ValidPiece(ps[i]) }

  function PiecesText(ps: seq<Piece>): Text
    requires ValidPieces(ps)
  {
    if ps == [] then [] else PieceText(ps[0]) + PiecesText(ps[1..])
  }

  function Means(ps: seq<Piece>): seq<nat> {
    if ps == [] then [] else [PieceMeans(ps[0])] + Means(ps[1..])
  }

  predicate AllRaw(ps: seq<Piece>) { forall i :: 0 <= i < |ps| ==> ps[i].Raw? }

  function PieceBytes(p: Piece): Text
    requires ValidPiece(p)
  {
    match p
    case Raw(b) => Widened(b)
    case Short(c) => [c]
    case Long(cp, _) => CodePoint(cp)
  }

  function PiecesBytes(ps: seq<Piece>): Text
    requires ValidPieces(ps)
  {
    if ps == [] then [] else PieceBytes(ps[0]) + PiecesBytes(ps[1..])
  }

  lemma {:induction false} BytesDecode(ps: seq<Piece>)
    requires ValidPieces(ps)
    ensures Scalars(PiecesBytes(ps)) == Some(Means(ps)) && Utf8(PiecesBytes(ps))
  {
    if ps != [] {
      BytesDecode(ps[1..]);
      var more := PiecesBytes(ps[1..]);
      match ps[0] {
        case Raw(b) => WidenedIsCodePoint(b); CodePointDecodes(b, more); CodePointIsUtf8(b, more);
        case Short(c) => assert CodePoint(c) == [c]; CodePointDecodes(c, more); CodePointIsUtf8(c, more);
        case Long(cp, _) => CodePointDecodes(cp, more); CodePointIsUtf8(cp, more);
      }
    }
  }

  lemma HexLetterRead(d: nat, capital: bool)
    requires d < 16
    ensures HexDigit(HexLetter(d, capital)) == Some(d) && HexLetter(d, capital) != PLUS
  {
  }

  lemma HexRead(a: nat, b: nat, c: nat, d: nat, u: seq<bool>)
    requires a < 16 && b < 16 && c < 16 && d < 16 && |u| == 4
    ensures Hex4([HexLetter(a, u[0]), HexLetter(b, u[1]), HexLetter(c, u[2]), HexLetter(d, u[3])]) ==
            Some(((a * 16 + b) * 16 + c) * 16 + d)
  {
    HexLetterRead(a, u[0]);
    HexLetterRead(b, u[1]);
    HexLetterRead(c, u[2]);
    HexLetterRead(d, u[3]);
    var s: Text := [HexLetter(a, u[0]), HexLetter(b, u[1]), HexLetter(c, u[2]), HexLetter(d, u[3])];
    assert s[1..][1..][1..][1..] == [];
    var n := (a * 16 + b) * 16 + c;
    assert Hex(s[1..][1..][1..], n) == Some(n * 16 + d);
    assert Hex(s[1..][1..], a * 16 + b) == Hex(s[1..][1..][1..], n);
    assert Hex(s[1..], a) == Hex(s[1..][1..], a * 16 + b);
  }

  /** Of four characters the first may also be a plus; the other three are then the number. */
  lemma PlusRead(b: nat, c: nat, d: nat, u: seq<bool>)
    requires b < 16 && c < 16 && d < 16 && |u| == 3
    ensures Hex4([43, HexLetter(b, u[0]), HexLetter(c, u[1]), HexLetter(d, u[2])]) == Some((b * 16 + c) * 16 + d)
  {
    HexLetterRead(b, u[0]);
    HexLetterRead(c, u[1]);
    HexLetterRead(d, u[2]);
    var s: Text := [43, HexLetter(b, u[0]), HexLetter(c, u[1]), HexLetter(d, u[2])];
    assert s[1..][1..][1..][1..] == [];
    assert Hex(s[1..][1..][1..], b * 16 + c) == Some((b * 16 + c) * 16 + d);
    assert Hex(s[1..][1..], b) == Hex(s[1..][1..][1..], b * 16 + c);
    assert Hex(s[1..], 0) == Hex(s[1..][1..], b);
  }

  lemma HexOf(cp: nat, u: seq<bool>)
    requires cp < 0x10000 && |u| == 4
    ensures Hex4(PieceText(Long(cp, u))[2..]) == Some(cp)
  {
    var a, b, c, d := cp / 4096, cp / 256 % 16, cp / 16 % 16, cp % 16;
    HexRead(a, b, c, d, u);
    HexDigits(cp);
  }

  lemma HexDigits(n: nat)
    requires n < 0x10000
    ensures ((n / 4096 * 16 + n / 256 % 16) * 16 + n / 16 % 16) * 16 + n % 16 == n
  {
    assert n / 256 == n / 4096 * 16 + n / 256 % 16;
    assert n / 16 == n / 256 * 16 + n / 16 % 16;
  }

  /** One character read. */
  lemma PieceDecoded(p: Piece, more: Text, acc: Text)
    requires ValidPiece(p)
    ensures Decoded(PieceText(p) + more, acc) == Decoded(more, acc + PieceBytes(p))
  {
    var s := PieceText(p) + more;
    match p {
      case Raw(b) => assert s[1..] == more;
      case Short(c) =>
        assert s[2..] == more;
        ShortRead(c);
      case Long(cp, u) =>
        assert s[6..] == more && s[2..6] == PieceText(p)[2..];
        HexOf(cp, u);
    }
  }

  lemma ShortRead(c: byte)
    requires ValidPiece(Short(c))
    ensures Unescaped(Letter(c)) == Some(c) && Letter(c) != 117
  {
  }

  lemma {:induction false} PiecesDecoded(ps: seq<Piece>, acc: Text, rest: Text)
    requires ValidPieces(ps)
    ensures Decoded(PiecesText(ps) + [QUOTE] + rest, acc) == Some((acc + PiecesBytes(ps), rest))
  {
    if ps == [] {
      assert PiecesText(ps) + [QUOTE] + rest == [QUOTE] + rest && acc + [] == acc;
      assert ([QUOTE] + rest)[1..] == rest;
    } else {
      var more := PiecesText(ps[1..]) + [QUOTE] + rest;
      EscapedFront(PieceText(ps[0]), PiecesText(ps[1..]), rest);
      PieceDecoded(ps[0], more, acc);
      PiecesDecoded(ps[1..], acc + PieceBytes(ps[0]), rest);
      Assoc(acc, PieceBytes(ps[0]), PiecesBytes(ps[1..]));
    }
  }

  /** Without an escape the bytes stand as they are, up to the closing quote. */
  lemma {:induction false} RawText(ps: seq<Piece>)
    requires ValidPieces(ps) && AllRaw(ps)
    ensures NoSpecial(PiecesText(ps))
  {
    if ps != [] {
      RawText(ps[1..]);
    }
  }

  /** The first escape comes before the closing quote. */
  lemma {:induction false} BackslashFirst(ps: seq<Piece>, rest: Text)
    requires ValidPieces(ps) && !AllRaw(ps)
    ensures var t := PiecesText(ps) + [QUOTE] + rest;
            FirstSpecial(t) < |t| && t[FirstSpecial(t)] == BACKSLASH
  {
    var t := PiecesText(ps) + [QUOTE] + rest;
    EscapedFront(PieceText(ps[0]), PiecesText(ps[1..]), rest);
    if ps[0].Raw? {
      BackslashFirst(ps[1..], rest);
      assert t[1..] == PiecesText(ps[1..]) + [QUOTE] + rest;
    } else {
      assert t[0] == BACKSLASH;
    }
  }

  /** The bytes of the string that is read. */
  function StringOf(ps: seq<Piece>): Text
    requires ValidPieces(ps)
  {
    if AllRaw(ps) then PiecesText(ps) else PiecesBytes(ps)
  }

  lemma RawRead(t: Text, rest: Text)
    requires NoSpecial(t)
    ensures ReadString([QUOTE] + (t + [QUOTE] + rest)) == Some((t, rest))
  {
    var u := t + [QUOTE] + rest;
    assert ([QUOTE] + u)[1..] == u;
    FirstSpecialAt(u, |t|);
    assert u[..|t|] == t && u[|t| + 1..] == rest;
  }

  lemma EscapedRead(ps: seq<Piece>, rest: Text)
    requires ValidPieces(ps) && !AllRaw(ps)
    ensures ReadString([QUOTE] + (PiecesText(ps) + [QUOTE] + rest)) == Some((PiecesBytes(ps), rest))
  {
    var u := PiecesText(ps) + [QUOTE] + rest;
    assert ([QUOTE] + u)[1..] == u;
    BackslashFirst(ps, rest);
    PiecesDecoded(ps, [], rest);
    assert [] + PiecesBytes(ps) == PiecesBytes(ps);
  }

  function QuotedPieces(ps: seq<Piece>): Text
    requires ValidPieces(ps)
  {
    [QUOTE] + PiecesText(ps) + [QUOTE]
  }

  lemma StringRead(ps: seq<Piece>, rest: Text)
    requires ValidPieces(ps)
    ensures ReadString(QuotedPieces(ps) + rest) == Some((StringOf(ps), rest))
  {
    Bracketed(QUOTE, PiecesText(ps), [QUOTE], rest);
    if AllRaw(ps) {
      RawText(ps);
      RawRead(PiecesText(ps), rest);
    } else {
      EscapedRead(ps, rest);
    }
  }

  /**
   * A string with an escape in it is read as the code points that its
   * characters stand for: escapes for what section 7 of RFC 8259 says, \u for
   * the number of its digits or U+FFFD for a surrogate, and every other byte
   * for the code point with its number.
   */
  lemma EscapesMeanWhatTheySay(ps: seq<Piece>, rest: Text)
    requires ValidPieces(ps) && !AllRaw(ps)
    ensures exists s :: ReadString(QuotedPieces(ps) + rest) == Some((s, rest)) &&
                        Scalars(s) == Some(Means(ps)) && Utf8(s)
  {
    StringRead(ps, rest);
    BytesDecode(ps);
  }

  // --------------------------------------------------------------- numbers

  /** An exponent: e or E, a sign or none, and digits. */
  datatype Power = Power(letter: byte, sign: Option<byte>, digits: Text)

  predicate ValidPower(p: Power) {
    && (p.letter == 101 || p.letter == 69) && p.digits != [] && AllDigits(p.digits)
    && (p.sign.Some? ==> p.sign.value == 43 || p.sign.value == 45)
  }

  function PowerText(p: Power): Text { [p.letter] + (if p.sign.Some? then [p.sign.value] else []) + p.digits }

  /** A number: a minus or none, digits, a point and digits or none, an exponent or none. */
  datatype WrittenNumber = WrittenNumber(negative: bool, whole: Text, fraction: Option<Text>, power: Option<Power>)

  predicate ValidNumeral(n: WrittenNumber) {
    && n.whole != [] && AllDigits(n.whole)
    && (n.fraction.Some? ==> n.fraction.value != [] && AllDigits(n.fraction.value))
    && (n.power.Some? ==> ValidPower(n.power.value))
  }

  function SignText(n: WrittenNumber): Text { if n.negative then [45] else [] }

  function FractionText(n: WrittenNumber): Text { if n.fraction.Some? then [46] + n.fraction.value else [] }

  function NumeralText(n: WrittenNumber): Text {
    SignText(n) + n.whole + FractionText(n) + if n.power.Some? then PowerText(n.power.value) else []
  }

  /** All digits before the exponent as one number. */
  function Significand(n: WrittenNumber): nat
    requires ValidNumeral(n)
  {
    Value(n.whole + if n.fraction.Some? then n.fraction.value else [])
  }

  /** The power of ten that this number is multiplied by. */
  function Magnitude(n: WrittenNumber): int
    requires ValidNumeral(n)
  {
    var places := if n.fraction.Some? then |n.fraction.value| else 0;
    var e: int := if n.power.Some? then Value(n.power.value.digits) else 0;
    (if n.power.Some? && n.power.value.sign == Some(45) then -e else e) - places
  }

  lemma {:induction false} ReadConcat(d: Numeral, a: Text, b: Text)
    ensures Read(d, a + b) == Read(Read(d, a), b)
    decreases |a|
  {
    if a == [] {
      assert a + b == b;
    } else {
      assert (a + b)[1..] == a[1..] + b;
      ReadConcat(Next(d, a[0]), a[1..], b);
    }
  }

  lemma ReadOne(d: Numeral, b: byte)
    ensures Read(d, [b]) == Next(d, b)
  {
    assert [b][1..] == [];
  }

  /** Digits after the point go on with the significand and are counted. */
  lemma {:induction false} ReadFraction(d: Numeral, before: Text, digits: Text)
    requires AllDigits(before) && AllDigits(digits) && !d.exponential && d.point && d.places == 0
    requires d.mantissa == Value(before)
    ensures AllDigits(before + digits)
    ensures Read(d, digits) == d.(mantissa := Value(before + digits), places := |digits|)
    decreases |digits|
  {
    if digits == [] {
      assert before + digits == before;
    } else {
      var front, last := digits[..|digits| - 1], digits[|digits| - 1];
      ReadFraction(d, before, front);
      ReadSnoc(d, front, last);
      assert front + [last] == digits && (before + digits)[..|before + digits| - 1] == before + front;
    }
  }

  lemma {:induction false} ReadExponent(d: Numeral, digits: Text)
    requires AllDigits(digits) && d.exponential && d.exponent == 0
    ensures Read(d, digits) == d.(exponent := Value(digits))
    decreases |digits|
  {
    if digits != [] {
      var front, last := digits[..|digits| - 1], digits[|digits| - 1];
      ReadExponent(d, front);
      ReadSnoc(d, front, last);
      assert front + [last] == digits;
    }
  }

  /** What is read of the sign, the digits and the fraction. */
  lemma ReadSignificand(n: WrittenNumber)
    requires ValidNumeral(n)
    ensures Read(BLANK, SignText(n) + n.whole + FractionText(n)) ==
            BLANK.(negative := n.negative, mantissa := Significand(n), point := n.fraction.Some?,
                   places := if n.fraction.Some? then |n.fraction.value| else 0)
  {
    var d := BLANK.(negative := n.negative);
    assert Read(BLANK, SignText(n)) == d by {
      if n.negative { ReadOne(BLANK, 45); }
    }
    ReadConcat(BLANK, SignText(n), n.whole);
    ReadDigits(d, n.whole);
    var d1 := d.(mantissa := Value(n.whole));
    ReadConcat(BLANK, SignText(n) + n.whole, FractionText(n));
    if n.fraction.Some? {
      ReadConcat(d1, [46], n.fraction.value);
      ReadOne(d1, 46);
      ReadFraction(d1.(point := true), n.whole, n.fraction.value);
    } else {
      assert n.whole + [] == n.whole;
    }
  }

  lemma ReadPower(d: Numeral, p: Power)
    requires ValidPower(p) && !d.exponential && !d.down && d.exponent == 0
    ensures Read(d, PowerText(p)) == d.(exponential := true, down := p.sign == Some(45), exponent := Value(p.digits))
  {
    var sign := if p.sign.Some? then [p.sign.value] else [];
    var d1 := d.(exponential := true);
    ReadOne(d, p.letter);
    ReadConcat(d, [p.letter], sign);
    var d2 := d1.(down := p.sign == Some(45));
    assert Read(d1, sign) == d2 by {
      if p.sign.Some? { ReadOne(d1, p.sign.value); }
    }
    ReadConcat(d, [p.letter] + sign, p.digits);
    ReadExponent(d2, p.digits);
  }

  /** The text of a number is read as its sign, its digits and its power of ten. */
  lemma NumeralRead(n: WrittenNumber)
    requires ValidNumeral(n)
    ensures var d := Read(BLANK, NumeralText(n));
            && d.negative == n.negative && d.mantissa == Significand(n) && Exponent(d) == Magnitude(n)
            && d.point == n.fraction.Some? && d.exponential == n.power.Some?
  {
    var head := SignText(n) + n.whole + FractionText(n);
    ReadSignificand(n);
    if n.power.Some? {
      ReadConcat(BLANK, head, PowerText(n.power.value));
      ReadPower(Read(BLANK, head), n.power.value);
    } else {
      assert head + [] == head;
    }
  }

  /**
   * A number text of section 6 of RFC 8259 stands for an integer if it is one
   * of at most 2^53, for infinity if its value is from half a step above the
   * largest double on, and otherwise for itself.
   */
  lemma NumeralMeans(n: WrittenNumber)
    requires ValidNumeral(n)
    ensures var t, v := NumeralText(n), Significand(n);
            Converted(t) ==
              if n.fraction.None? && n.power.None? && v <= 0x20_0000_0000_0000 then
                Number(if n.negative then -(v as int) else v as int)
              else if Overflows(v, Magnitude(n)) then Infinite(n.negative)
              else Literal(t)
  {
    NumeralRead(n);
  }

  lemma NumeralScanned(n: WrittenNumber)
    requires ValidNumeral(n)
    ensures var t := NumeralText(n); t != [] && NumberEnd(t) == |t| && Convertible(t)
  {
    var t := NumeralText(n);
    var pow := if n.power.Some? then PowerText(n.power.value) else [];
    WholeScanned(t, n, pow);
    FractionScanned(t, IntEnd(t), n, pow);
    PowerScanned(t, FractionEnd(t), n, pow);
  }

  lemma WholeScanned(t: Text, n: WrittenNumber, pow: Text)
    requires ValidNumeral(n) && pow == (if n.power.Some? then PowerText(n.power.value) else [])
    requires t == SignText(n) + n.whole + FractionText(n) + pow
    ensures SignEnd(t) == |SignText(n)| && IntEnd(t) == |SignText(n)| + |n.whole|
  {
    var more := FractionText(n) + pow;
    assert more == [] || more[0] == 46 || more[0] == 101 || more[0] == 69;
    WholeAt(SignText(n), n.whole, more);
    Assoc(SignText(n) + n.whole, FractionText(n), pow);
  }

  lemma WholeAt(sign: Text, whole: Text, more: Text)
    requires (sign == [] || sign == [45]) && whole != [] && AllDigits(whole) && (more == [] || !IsDigit(more[0]))
    ensures var t := sign + whole + more; SignEnd(t) == |sign| && IntEnd(t) == |sign| + |whole|
  {
    var t := sign + whole + more;
    assert t[|sign|..] == whole + more;
    DigitRunAt(whole, more);
  }

  lemma FractionScanned(t: Text, j: nat, n: WrittenNumber, pow: Text)
    requires ValidNumeral(n) && pow == (if n.power.Some? then PowerText(n.power.value) else [])
    requires t == SignText(n) + n.whole + FractionText(n) + pow && j == |SignText(n)| + |n.whole| == IntEnd(t)
    ensures FractionEnd(t) == j + |FractionText(n)|
  {
    if n.fraction.Some? {
      assert t[j] == 46 && t[j + 1..] == n.fraction.value + pow;
      DigitRunAt(n.fraction.value, pow);
    }
  }

  lemma PowerScanned(t: Text, k: nat, n: WrittenNumber, pow: Text)
    requires ValidNumeral(n) && pow == (if n.power.Some? then PowerText(n.power.value) else [])
    requires t == SignText(n) + n.whole + FractionText(n) + pow && k == |t| - |pow| == FractionEnd(t)
    ensures NumberEnd(t) == |t|
    ensures if n.power.Some? then k < ExponentStart(t) < |t| else ExponentStart(t) == k
  {
    if n.power.Some? {
      PowerAt(SignText(n) + n.whole + FractionText(n), n.power.value);
    }
  }

  lemma PowerAt(head: Text, p: Power)
    requires ValidPower(p) && FractionEnd(head + PowerText(p)) == |head|
    ensures var t := head + PowerText(p); |head| < ExponentStart(t) < |t| == NumberEnd(t)
  {
    var t, k := head + PowerText(p), |head|;
    var sign := if p.sign.Some? then [p.sign.value] else [];
    var m := k + 1 + |sign|;
    assert t == head + [p.letter] + sign + p.digits;
    PowerStarts(t, k, sign, p.digits[0]);
    assert t[m..] == p.digits == p.digits + [];
    DigitRunAt(p.digits, []);
  }

  lemma PowerStarts(t: Text, k: nat, sign: Text, d: byte)
    requires FractionEnd(t) == k && k + 1 + |sign| < |t| && (t[k] == 101 || t[k] == 69)
    requires (sign == [] || sign == [43] || sign == [45]) && IsDigit(d)
    requires t[k + 1] == if sign == [] then d else sign[0]
    ensures ExponentStart(t) == k + 1 + |sign|
  {
  }

  // ------------------------------------------------------------- documents

  /** White space of section 2 of RFC 8259, and form feed. */
  predicate White(w: Text) { forall i :: 0 <= i < |w| ==> w[i] in [32, 9, 10, 13, 12] }

  /** A written value. Items and members come with the white space around their parts. */
  datatype Doc =
    | NullDoc | TrueDoc | FalseDoc
    | NumberDoc(n: WrittenNumber)
    | StringDoc(ps: seq<Piece>)
    | EmptyArray(inside: Text) | EmptyObject(inside: Text)
    | ArrayDoc(items: seq<Item>) | ObjectDoc(members: seq<Member>)

  datatype Item = Item(before: Text, doc: Doc, after: Text)

  datatype Member = Member(before: Text, key: seq<Piece>, mid: Text, next: Text, doc: Doc, after: Text)

  predicate ValidDoc(d: Doc) {
    match d
    case NumberDoc(n) => ValidNumeral(n)
    case StringDoc(ps) => ValidPieces(ps)
    case EmptyArray(w) => White(w)
    case EmptyObject(w) => White(w)
    case ArrayDoc(items) => items != [] && forall i :: 0 <= i < |items| ==> ValidItem(items[i])
    case ObjectDoc(ms) => ms != [] && forall i :: 0 <= i < |ms| ==> ValidMember(ms[i])
    case _ => true
  }

  predicate ValidItem(x: Item) { White(x.before) && ValidDoc(x.doc) && White(x.after) }

  predicate ValidMember(m: Member) {
    White(m.before) && ValidPieces(m.key) && White(m.mid) && White(m.next) && ValidDoc(m.doc) && White(m.after)
  }

  function DocText(d: Doc): Text
    requires ValidDoc(d)
  {
    match d
    case NullDoc => [110, 117, 108, 108]
    case TrueDoc => [116, 114, 117, 101]
    case FalseDoc => [102, 97, 108, 115, 101]
    case NumberDoc(n) => NumeralText(n)
    case StringDoc(ps) => QuotedPieces(ps)
    case EmptyArray(w) => [91] + w + [93]
    case EmptyObject(w) => [123] + w + [125]
    case ArrayDoc(items) => [91] + ItemsText(items) + [93]
    case ObjectDoc(ms) => [123] + MembersText(ms) + [125]
  }

  function ItemText(x: Item): Text
    requires ValidItem(x)
  {
    x.before + (DocText(x.doc) + x.after)
  }

  function ItemsText(items: seq<Item>): Text
    requires forall i :: 0 <= i < |items| ==> ValidItem(items[i])
  {
    if items == [] then []
    else if |items| == 1 then ItemText(items[0])
    else ItemText(items[0]) + [44] + ItemsText(items[1..])
  }

  function MemberText(m: Member): Text
    requires ValidMember(m)
  {
    m.before + (QuotedPieces(m.key) + (m.mid + ([58] + (m.next + (DocText(m.doc) + m.after)))))
  }

  function MembersText(ms: seq<Member>): Text
    requires forall i :: 0 <= i < |ms| ==> ValidMember(ms[i])
  {
    if ms == [] then []
    else if |ms| == 1 then MemberText(ms[0])
    else MemberText(ms[0]) + [44] + MembersText(ms[1..])
  }

  /** The tree that a written value describes. */
  function DocValue(d: Doc): JsonValue
    requires ValidDoc(d)
  {
    match d
    case NullDoc => Null
    case TrueDoc => Bool(true)
    case FalseDoc => Bool(false)
    case NumberDoc(n) => Converted(NumeralText(n))
    case StringDoc(ps) => String(StringOf(ps))
    case EmptyArray(_) => Array([])
    case EmptyObject(_) => Object([])
    case ArrayDoc(items) => Array(ItemValues(items))
    case ObjectDoc(ms) => Object(MemberValues(ms))
  }

  function ItemValues(items: seq<Item>): seq<JsonValue>
    requires forall i :: 0 <= i < |items| ==> ValidItem(items[i])
  {
    if items == [] then [] else [ItemValue(items[0])] + ItemValues(items[1..])
  }

  function ItemValue(x: Item): JsonValue
    requires ValidItem(x)
  {
    DocValue(x.doc)
  }

  function MemberValue(m: Member): (Text, JsonValue)
    requires ValidMember(m)
  {
    (StringOf(m.key), DocValue(m.doc))
  }

  function MemberValues(ms: seq<Member>): seq<(Text, JsonValue)>
    requires forall i :: 0 <= i < |ms| ==> ValidMember(ms[i])
  {
    if ms == [] then [] else [MemberValue(ms[0])] + MemberValues(ms[1..])
  }

  // ------------------------------------------------- every document is read

  lemma {:induction false} WhiteSkipped(w: Text, s: Text)
    requires White(w)
    ensures SkipSpace(w + s) == SkipSpace(s) && AllSpace(w)
  {
    if w == [] {
      assert w + s == s;
    } else {
      assert (w + s)[1..] == w[1..] + s;
      WhiteSkipped(w[1..], s);
      assert forall i :: 0 < i < |w| ==> w[i] == w[1..][i - 1];
    }
  }

  lemma WhiteBefore(w: Text, s: Text)
    requires White(w) && s != [] && !IsSpace(s[0])
    ensures SkipSpace(w + s) == s
  {
    WhiteSkipped(w, s);
  }

  /** A written value starts with neither white space nor a closing bracket. */
  lemma DocStart(d: Doc)
    requires ValidDoc(d)
    ensures DocText(d) != [] && !IsSpace(DocText(d)[0]) && DocText(d)[0] != CLOSE_ARRAY && DocText(d)[0] != CLOSE_OBJECT
    ensures d.NumberDoc? ==> NumberByte(DocText(d)[0])
  {
    if d.NumberDoc? {
      NumeralScanned(d.n);
      NumberStart(DocText(d));
      NumberByteIsNone(DocText(d)[0]);
    }
  }

  lemma NumberDocRead(n: WrittenNumber, rest: Text)
    requires ValidNumeral(n) && Ends(rest)
    ensures ReadValue(NumeralText(n) + rest) == Some((Converted(NumeralText(n)), rest))
  {
    var t := NumeralText(n);
    NumeralScanned(n);
    NumberStart(t);
    LiteralRead(t, rest);
    DispatchNumber(t + rest);
  }

  lemma StringDocRead(ps: seq<Piece>, rest: Text)
    requires ValidPieces(ps)
    ensures ReadValue(QuotedPieces(ps) + rest) == Some((String(StringOf(ps)), rest))
  {
    StringRead(ps, rest);
    assert (QuotedPieces(ps) + rest)[0] == QUOTE;
  }

  lemma WordDocRead(d: Doc, rest: Text)
    requires d.NullDoc? || d.TrueDoc? || d.FalseDoc?
    ensures ReadValue(DocText(d) + rest) == Some((DocValue(d), rest))
  {
    WordBack(DocValue(d), rest);
    assert DocText(d) == Print(DocValue(d));
  }

  lemma EmptyRead(w: Text, rest: Text)
    requires White(w)
    ensures ReadValue([91] + w + [93] + rest) == Some((Array([]), rest))
    ensures ReadValue([123] + w + [125] + rest) == Some((Object([]), rest))
  {
    Bracketed(91, w, [93], rest);
    Bracketed(123, w, [125], rest);
    Assoc(w, [93], rest);
    Assoc(w, [125], rest);
    WhiteBefore(w, [93] + rest);
    WhiteBefore(w, [125] + rest);
    assert ([91] + (w + ([93] + rest)))[1..] == w + ([93] + rest);
    assert ([123] + (w + ([125] + rest)))[1..] == w + ([125] + rest);
  }

  /** What may follow a value inside a document, after white space: a comma or a closing bracket. */
  lemma AfterEnds(w: Text, b: byte, more: Text)
    requires White(w) && (b == COMMA || b == CLOSE_ARRAY || b == CLOSE_OBJECT)
    ensures Ends(w + ([b] + more)) && SkipSpace(w + ([b] + more)) == [b] + more
  {
    WhiteBefore(w, [b] + more);
  }

  lemma {:induction false} DocRead(d: Doc, rest: Text)
    requires ValidDoc(d) && Ends(rest)
    ensures ReadValue(DocText(d) + rest) == Some((DocValue(d), rest))
    decreases d, 1
  {
    match d {
      case NumberDoc(n) => NumberDocRead(n, rest);
      case StringDoc(ps) => StringDocRead(ps, rest);
      case EmptyArray(w) => EmptyRead(w, rest);
      case EmptyObject(w) => EmptyRead(w, rest);
      case ArrayDoc(items) => ArrayDocRead(items, rest);
      case ObjectDoc(ms) => ObjectDocRead(ms, rest);
      case _ => WordDocRead(d, rest);
    }
  }

  /** Reading goes on behind the bracket, past white space. */
  lemma ArrayOpens(w: Text, s: Text)
    requires White(w) && s != [] && !IsSpace(s[0]) && s[0] != CLOSE_ARRAY
    ensures ReadValue([91] + (w + s)) == ReadItems(s, [])
  {
    WhiteBefore(w, s);
    assert ([91] + (w + s))[1..] == w + s;
  }

  lemma ObjectOpens(w: Text, s: Text)
    requires White(w) && s != [] && !IsSpace(s[0]) && s[0] != CLOSE_OBJECT
    ensures ReadValue([123] + (w + s)) == ReadFields(s, [])
  {
    WhiteBefore(w, s);
    assert ([123] + (w + s))[1..] == w + s;
  }

  /** The items start with white space and a value. */
  lemma ItemsStartWith(items: seq<Item>, rest: Text) returns (s: Text)
    requires ValidDoc(ArrayDoc(items))
    ensures ItemsText(items) + [CLOSE_ARRAY] + rest == items[0].before + s
    ensures s != [] && !IsSpace(s[0]) && s[0] != CLOSE_ARRAY
  {
    var x := items[0];
    assert ValidItem(x);
    DocStart(x.doc);
    var more := if |items| == 1 then [CLOSE_ARRAY] + rest else [44] + ItemsText(items[1..]) + [CLOSE_ARRAY] + rest;
    assert ItemsText(items) + [CLOSE_ARRAY] + rest == ItemText(x) + more;
    s := DocText(x.doc) + (x.after + more);
    Parts(x.before, DocText(x.doc), x.after, more);
  }

  lemma {:induction false} ArrayDocRead(items: seq<Item>, rest: Text)
    requires ValidDoc(ArrayDoc(items))
    ensures ReadValue(DocText(ArrayDoc(items)) + rest) == Some((DocValue(ArrayDoc(items)), rest))
    decreases items, 1
  {
    Bracketed(91, ItemsText(items), [93], rest);
    var s := ItemsStartWith(items, rest);
    ArrayOpens(items[0].before, s);
    ItemsDocRead(items, [], rest);
    ItemsSkip(items[0].before, s, []);
    assert [] + ItemValues(items) == ItemValues(items);
  }

  /** Leading white space makes no difference to the items. */
  lemma ItemsSkip(w: Text, s: Text, acc: seq<JsonValue>)
    requires White(w) && s != [] && !IsSpace(s[0])
    ensures ReadItems(w + s, acc) == ReadItems(s, acc)
  {
    WhiteBefore(w, s);
  }

  lemma ItemRead(before: Text, t: Text, x: JsonValue, after: Text, tail: Text, acc: seq<JsonValue>)
    requires White(before) && t != [] && !IsSpace(t[0]) && tail != [] && (tail[0] == COMMA || tail[0] == CLOSE_ARRAY)
    requires White(after) && ReadValue(t + (after + tail)) == Some((x, after + tail))
    ensures ReadItems(before + (t + (after + tail)), acc) ==
            if tail[0] == COMMA then ReadItems(tail[1..], acc + [x]) else Some((Array(acc + [x]), tail[1..]))
  {
    WhiteBefore(before, t + (after + tail));
    WhiteBefore(after, tail);
  }

  lemma Parts(a: Text, b: Text, c: Text, tail: Text)
    ensures a + (b + c) + tail == a + (b + (c + tail))
  {
  }

  lemma {:induction false} ItemsDocRead(items: seq<Item>, acc: seq<JsonValue>, rest: Text)
    requires items != [] && forall i :: 0 <= i < |items| ==> ValidItem(items[i])
    ensures ReadItems(ItemsText(items) + [CLOSE_ARRAY] + rest, acc) == Some((Array(acc + ItemValues(items)), rest))
    decreases items, 0
  {
    var x, xs := items[0], items[1..];
    var tail := After(ItemsText(xs), xs == [], CLOSE_ARRAY, rest);
    Separated(ItemText(x), ItemsText(xs), xs == [], CLOSE_ARRAY, rest);
    Parts(x.before, DocText(x.doc), x.after, tail);
    assert tail == [tail[0]] + tail[1..];
    AfterEnds(x.after, tail[0], tail[1..]);
    DocRead(x.doc, x.after + tail);
    DocStart(x.doc);
    ItemRead(x.before, DocText(x.doc), DocValue(x.doc), x.after, tail, acc);
    if xs == [] {
      assert ItemValues(items) == [DocValue(x.doc)];
    } else {
      ItemsDocRead(xs, acc + [DocValue(x.doc)], rest);
      Assoc(acc, [DocValue(x.doc)], ItemValues(xs));
    }
  }

  lemma MembersStartWith(ms: seq<Member>, rest: Text) returns (s: Text)
    requires ValidDoc(ObjectDoc(ms))
    ensures MembersText(ms) + [CLOSE_OBJECT] + rest == ms[0].before + s
    ensures s != [] && !IsSpace(s[0]) && s[0] != CLOSE_OBJECT
  {
    var m := ms[0];
    assert ValidMember(m);
    var more := if |ms| == 1 then [CLOSE_OBJECT] + rest else [44] + MembersText(ms[1..]) + [CLOSE_OBJECT] + rest;
    assert MembersText(ms) + [CLOSE_OBJECT] + rest == MemberText(m) + more;
    MemberParts(m, more);
    s := QuotedPieces(m.key) + (m.mid + ([COLON] + (m.next + (DocText(m.doc) + (m.after + more)))));
    assert s[0] == QuotedPieces(m.key)[0] == QUOTE;
  }

  lemma {:induction false} ObjectDocRead(ms: seq<Member>, rest: Text)
    requires ValidDoc(ObjectDoc(ms))
    ensures ReadValue(DocText(ObjectDoc(ms)) + rest) == Some((DocValue(ObjectDoc(ms)), rest))
    decreases ms, 1
  {
    Bracketed(123, MembersText(ms), [125], rest);
    var s := MembersStartWith(ms, rest);
    ObjectOpens(ms[0].before, s);
    MembersDocRead(ms, [], rest);
    FieldsSkip(ms[0].before, s, []);
    assert [] + MemberValues(ms) == MemberValues(ms);
  }

  lemma FieldsSkip(w: Text, s: Text, acc: seq<(Text, JsonValue)>)
    requires White(w) && s != [] && !IsSpace(s[0])
    ensures ReadFields(w + s, acc) == ReadFields(s, acc)
  {
    WhiteBefore(w, s);
  }

  lemma MemberKeyRead(m: Member, v: Text)
    requires ValidMember(m)
    ensures var u := [COLON] + v;
            && ReadString(SkipSpace(m.before + (QuotedPieces(m.key) + (m.mid + u)))) ==
                 Some((StringOf(m.key), m.mid + u))
            && SkipSpace(m.mid + u) == u && u[1..] == v
  {
    var u := [COLON] + v;
    assert (QuotedPieces(m.key) + (m.mid + u))[0] == QUOTE;
    WhiteBefore(m.before, QuotedPieces(m.key) + (m.mid + u));
    StringRead(m.key, m.mid + u);
    WhiteBefore(m.mid, u);
  }

  lemma MemberParts(m: Member, tail: Text)
    requires ValidMember(m)
    ensures MemberText(m) + tail ==
            m.before + (QuotedPieces(m.key) + (m.mid + ([COLON] + (m.next + (DocText(m.doc) + (m.after + tail))))))
  {
    var q, t := QuotedPieces(m.key), DocText(m.doc);
    Assoc(m.before, q + (m.mid + ([58] + (m.next + (t + m.after)))), tail);
    Assoc(q, m.mid + ([58] + (m.next + (t + m.after))), tail);
    Assoc(m.mid, [58] + (m.next + (t + m.after)), tail);
    Assoc([58], m.next + (t + m.after), tail);
    Assoc(m.next, t + m.after, tail);
    Assoc(t, m.after, tail);
  }

  /** One member: its key, its colon and its value. */
  lemma {:induction false} MemberRead(m: Member, tail: Text)
    requires ValidMember(m) && tail != [] && (tail[0] == COMMA || tail[0] == CLOSE_OBJECT)
    ensures ReadField(MemberText(m) + tail) == Some(((StringOf(m.key), DocValue(m.doc)), m.after + tail))
    decreases m, 0
  {
    var w := DocText(m.doc) + (m.after + tail);
    MemberParts(m, tail);
    MemberKeyRead(m, m.next + w);
    DocStart(m.doc);
    WhiteBefore(m.next, w);
    assert tail == [tail[0]] + tail[1..];
    AfterEnds(m.after, tail[0], tail[1..]);
    DocRead(m.doc, m.after + tail);
    FieldSpaced(MemberText(m) + tail, StringOf(m.key), m.mid + ([COLON] + (m.next + w)), m.next + w, w,
                DocValue(m.doc), m.after + tail);
  }

  lemma FieldSpaced(s: Text, key: Text, r: Text, v: Text, w: Text, x: JsonValue, after: Text)
    requires ReadString(SkipSpace(s)) == Some((key, r)) && SkipSpace(r) == [COLON] + v && SkipSpace(v) == w
    requires ReadValue(w) == Some((x, after))
    ensures ReadField(s) == Some(((key, x), after))
  {
    assert ([COLON] + v)[1..] == v;
  }

  lemma FieldsOnceSpaced(s: Text, acc: seq<(Text, JsonValue)>, f: (Text, JsonValue), after: Text, tail: Text)
    requires ReadField(s) == Some((f, after + tail)) && White(after)
    requires tail != [] && (tail[0] == COMMA || tail[0] == CLOSE_OBJECT)
    ensures ReadFields(s, acc) ==
            if tail[0] == COMMA then ReadFields(tail[1..], acc + [f]) else Some((Object(acc + [f]), tail[1..]))
  {
    WhiteBefore(after, tail);
  }

  lemma {:induction false} MembersDocRead(ms: seq<Member>, acc: seq<(Text, JsonValue)>, rest: Text)
    requires ms != [] && forall i :: 0 <= i < |ms| ==> ValidMember(ms[i])
    ensures ReadFields(MembersText(ms) + [CLOSE_OBJECT] + rest, acc) == Some((Object(acc + MemberValues(ms)), rest))
    decreases ms, 0
  {
    var m, more := ms[0], ms[1..];
    var f := (StringOf(m.key), DocValue(m.doc));
    var tail := After(MembersText(more), more == [], CLOSE_OBJECT, rest);
    Separated(MemberText(m), MembersText(more), more == [], CLOSE_OBJECT, rest);
    MemberRead(m, tail);
    FieldsOnceSpaced(MemberText(m) + tail, acc, f, m.after, tail);
    if more == [] {
      assert MemberValues(ms) == [f];
    } else {
      MembersDocRead(more, acc + [f], rest);
      Assoc(acc, [f], MemberValues(more));
    }
  }

  lemma {:induction false} TrimmedFront(w: Text, s: Text)
    requires White(w)
    ensures Trimmed(w + s) == Trimmed(s)
  {
    if w == [] {
      assert w + s == s;
    } else {
      assert (w + s)[1..] == w[1..] + s;
      TrimmedFront(w[1..], s);
    }
  }

  lemma {:induction false} TrimmedBack(s: Text, w: Text)
    requires White(w) && s != [] && !Trimmable(s[0])
    ensures Trimmed(s + w) == Trimmed(s)
  {
    if w == [] {
      assert s + w == s;
    } else {
      var front := w[..|w| - 1];
      assert (s + w)[..|s + w| - 1] == s + front;
      TrimmedBack(s, front);
    }
  }

  /** Every document of RFC 8259, with white space around it, is read as the tree that it describes. */
  lemma DocumentsAreRead(before: Text, d: Doc, after: Text)
    requires White(before) && ValidDoc(d) && White(after)
    ensures Parse(before + (DocText(d) + after)) == Some(DocValue(d))
  {
    var t := DocText(d);
    DocStart(d);
    DocEdges(d);
    TrimmedFront(before, t + after);
    TrimmedBack(t, after);
    assert t + [] == t && Trimmed(t) == t;
    DocRead(d, []);
  }

  /** Anything but white space after a document is refused. */
  lemma MoreIsRefused(d: Doc, after: Text, more: Text)
    requires ValidDoc(d) && White(after) && more != [] && Ends(after + more)
    requires !Trimmable(more[0]) && !Trimmable(more[|more| - 1])
    ensures Parse(DocText(d) + (after + more)) == None
  {
    var t := DocText(d) + (after + more);
    DocEdges(d);
    assert t[0] == DocText(d)[0] && t[|t| - 1] == more[|more| - 1];
    assert Trimmed(t) == t;
    DocRead(d, after + more);
    assert (after + more)[|after|] == more[0];
  }

  /** A backslash before anything but the letters of the table is refused. */
  lemma {:induction false} OtherEscapeRefused(ps: seq<Piece>, b: byte, rest: Text)
    requires ValidPieces(ps) && b !in [34, 92, 47, 98, 102, 110, 114, 116, 117]
    ensures ReadString([QUOTE] + (PiecesText(ps) + ([BACKSLASH, b] + rest))) == None
  {
    var t := PiecesText(ps) + ([BACKSLASH, b] + rest);
    assert ([QUOTE] + t)[1..] == t;
    OtherEscapeFirst(ps, b, rest);
    OtherEscapeDecoded(ps, b, rest, []);
  }

  lemma {:induction false} OtherEscapeFirst(ps: seq<Piece>, b: byte, rest: Text)
    requires ValidPieces(ps)
    ensures var t := PiecesText(ps) + ([BACKSLASH, b] + rest);
            FirstSpecial(t) < |t| && t[FirstSpecial(t)] == BACKSLASH
  {
    var t := PiecesText(ps) + ([BACKSLASH, b] + rest);
    if ps == [] {
      assert t[0] == BACKSLASH;
    } else {
      Assoc(PieceText(ps[0]), PiecesText(ps[1..]), [BACKSLASH, b] + rest);
      if ps[0].Raw? {
        OtherEscapeFirst(ps[1..], b, rest);
        assert t[1..] == PiecesText(ps[1..]) + ([BACKSLASH, b] + rest);
      } else {
        assert t[0] == BACKSLASH;
      }
    }
  }

  lemma {:induction false} OtherEscapeDecoded(ps: seq<Piece>, b: byte, rest: Text, acc: Text)
    requires ValidPieces(ps) && b !in [34, 92, 47, 98, 102, 110, 114, 116, 117]
    ensures Decoded(PiecesText(ps) + ([BACKSLASH, b] + rest), acc) == None
    decreases ps
  {
    if ps == [] {
      assert PiecesText(ps) + ([BACKSLASH, b] + rest) == [BACKSLASH, b] + rest;
    } else {
      var more := PiecesText(ps[1..]) + ([BACKSLASH, b] + rest);
      Assoc(PieceText(ps[0]), PiecesText(ps[1..]), [BACKSLASH, b] + rest);
      PieceDecoded(ps[0], more, acc);
      OtherEscapeDecoded(ps[1..], b, rest, acc + PieceBytes(ps[0]));
    }
  }

  /** A written value neither starts nor ends with what is trimmed. */
  lemma DocEdges(d: Doc)
    requires ValidDoc(d)
    ensures DocText(d) != [] && !Trimmable(DocText(d)[0]) && !Trimmable(DocText(d)[|DocText(d)| - 1])
  {
    if d.NumberDoc? {
      NumeralScanned(d.n);
      ShownEnds(DocText(d));
    }
  }
}
