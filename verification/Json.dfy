/**
 * JSON trees: printing, parsing, and exactly when one undoes the other.
 *
 * Text and strings are byte strings.  A double is an integer of at most 2^53 in
 * size, infinite, not a number, or else the text that stands for it.
 */
module Json {
  import opened Bytes
  import opened Common

  type Text = seq<byte>

  datatype JsonValue =
    | Null
    | Bool(b: bool)
    | Number(n: int)
    | Infinite(negative: bool)
    | NotANumber
    | Literal(text: Text)
    | String(s: Text)
    | Array(items: seq<JsonValue>)
    | Object(fields: seq<(Text, JsonValue)>)

  const QUOTE: byte := 34
  const BACKSLASH: byte := 92
  const COMMA: byte := 44
  const COLON: byte := 58
  const OPEN_ARRAY: byte := 91
  const CLOSE_ARRAY: byte := 93
  const OPEN_OBJECT: byte := 123
  const CLOSE_OBJECT: byte := 125
  const DOT: byte := 46
  const TRUE: Text := [116, 114, 117, 101]
  const FALSE: Text := [102, 97, 108, 115, 101]
  const NULL: Text := [110, 117, 108, 108]
  const INF: Text := [105, 110, 102]
  const NAN: Text := [78, 97, 78]
  const EXACT: int := 0x20_0000_0000_0000

  // ------------------------------------------------------------- printing

  predicate Special(b: byte) { b == QUOTE || b == BACKSLASH }

  function Escaped(s: Text): Text {
    if s == [] then []
    else (if Special(s[0]) then [BACKSLASH, s[0]] else [s[0]]) + Escaped(s[1..])
  }

  function Quoted(s: Text): Text { [QUOTE] + Escaped(s) + [QUOTE] }

  function Print(v: JsonValue): Text {
    match v
    case Null => NULL
    case Bool(b) => if b then TRUE else FALSE
    case Number(n) => IntText(n)
    case Infinite(negative) => if negative then [MINUS] + INF else INF
    case NotANumber => NAN
    case Literal(text) => text
    case String(s) => Quoted(s)
    case Array(items) => [OPEN_ARRAY] + PrintItems(items) + [CLOSE_ARRAY]
    case Object(fields) => [OPEN_OBJECT] + PrintFields(fields) + [CLOSE_OBJECT]
  }

  function PrintItems(items: seq<JsonValue>): Text {
    if items == [] then []
    else if |items| == 1 then Print(items[0])
    else Print(items[0]) + [COMMA] + PrintItems(items[1..])
  }

  function PrintField(f: (Text, JsonValue)): Text { Quoted(f.0) + [COLON] + Print(f.1) }

  function PrintFields(fields: seq<(Text, JsonValue)>): Text {
    if fields == [] then []
    else if |fields| == 1 then PrintField(fields[0])
    else PrintField(fields[0]) + [COMMA] + PrintFields(fields[1..])
  }

  // -------------------------------------------------------------- parsing

  predicate IsSpace(b: byte) { b == 32 || b == 9 || b == 10 || b == 12 || b == 13 }

  function SkipSpace(s: Text): (r: Text)
    ensures |r| <= |s|
  {
    if s != [] && IsSpace(s[0]) then SkipSpace(s[1..]) else s
  }

  /** A byte pushed as the character with that code, in UTF-8. */
  function Widened(b: byte): Text {
    if b < 128 then [b] else [192 + b / 64, 128 + b % 64]
  }

  /** A code point below 0x10000 in UTF-8; surrogates become U+FFFD. */
  function CodePoint(cp: nat): Text
    requires cp < 0x10000
  {
    if 0xD800 <= cp < 0xE000 then [0xEF, 0xBF, 0xBD]
    else if cp < 0x80 then [cp]
    else if cp < 0x800 then [192 + cp / 64, 128 + cp % 64]
    else [224 + cp / 4096, 128 + cp / 64 % 64, 128 + cp % 64]
  }

  function HexDigit(b: byte): Option<nat> {
    if IsDigit(b) then Some(b - 48)
    else if 97 <= b <= 102 then Some(b - 87)
    else if 65 <= b <= 70 then Some(b - 55)
    else None
  }

  function Hex(s: Text, acc: nat): Option<nat> {
    if s == [] then Some(acc)
    else
      match HexDigit(s[0])
      case None => None
      case Some(d) => Hex(s[1..], acc * 16 + d)
  }

  /** Four bytes read as a number in base 16, with an optional leading plus. */
  function Hex4(s: Text): (r: Option<nat>)
    requires |s| == 4
    ensures r.Some? ==> r.value < 0x10000
  {
    var t := if s[0] == PLUS then s[1..] else s;
    HexBound(t, 0);
    Hex(t, 0)
  }

  function Pow16(k: nat): nat { if k == 0 then 1 else 16 * Pow16(k - 1) }

  lemma {:induction false} HexBound(s: Text, acc: nat)
    requires |s| <= 4
    ensures Hex(s, acc).Some? ==> Hex(s, acc).value < (acc + 1) * Pow16(|s|)
    ensures Pow16(|s|) <= 65536
    decreases |s|
  {
    if s != [] && HexDigit(s[0]).Some? {
      var d := HexDigit(s[0]).value;
      assert d < 16;
      HexBound(s[1..], acc * 16 + d);
      assert (acc * 16 + d + 1) <= 16 * (acc + 1);
      ScaleUp(acc * 16 + d + 1, 16 * (acc + 1), Pow16(|s| - 1));
    }
    assert Pow16(1) == 16 && Pow16(2) == 256 && Pow16(3) == 4096 && Pow16(4) == 65536;
  }

  lemma ScaleUp(a: nat, b: nat, c: nat)
    requires a <= b
    ensures a * c <= b * c
  {
  }

  /** The character that a one-letter escape stands for. */
  function Unescaped(b: byte): Option<byte> {
    if b == QUOTE || b == BACKSLASH || b == 47 then Some(b)
    else if b == 110 then Some(10)
    else if b == 114 then Some(13)
    else if b == 116 then Some(9)
    else if b == 98 then Some(8)
    else if b == 102 then Some(12)
    else None
  }

  /** The rest of a string that contains an escape, up to its closing quote. */
  function Decoded(s: Text, acc: Text): (r: Option<(Text, Text)>)
    ensures r.Some? ==> |r.value.1| < |s|
    decreases |s|
  {
    if s == [] then None
    else if s[0] == QUOTE then Some((acc, s[1..]))
    else if s[0] != BACKSLASH then Decoded(s[1..], acc + Widened(s[0]))
    else if |s| == 1 then None
    else if s[1] != 117 then
      match Unescaped(s[1])
      case None => None
      case Some(b) => Decoded(s[2..], acc + [b])
    else if |s| < 6 then None
    else
      match Hex4(s[2..6])
      case None => None
      case Some(cp) => Decoded(s[6..], acc + CodePoint(cp))
  }

  /** The first quote or backslash, or the length. */
  function FirstSpecial(s: Text): (i: nat)
    ensures i <= |s| && (i < |s| ==> Special(s[i])) && forall j :: 0 <= j < i ==> !Special(s[j])
  {
    if s == [] || Special(s[0]) then 0 else 1 + FirstSpecial(s[1..])
  }

  /** A string: taken as it stands up to its closing quote unless an escape comes first. */
  function ReadString(s: Text): (r: Option<(Text, Text)>)
    ensures r.Some? ==> |r.value.1| < |s|
  {
    if s == [] || s[0] != QUOTE then None
    else
      var t := s[1..];
      var i := FirstSpecial(t);
      if i == |t| then None
      else if t[i] == QUOTE then Some((t[..i], t[i + 1..]))
      else Decoded(t, [])
  }

  /** How many digits come first. */
  function DigitRun(s: Text): (k: nat)
    ensures k <= |s| && AllDigits(s[..k])
  {
    if s == [] || !IsDigit(s[0]) then 0 else 1 + DigitRun(s[1..])
  }

  /** Where the optional sign, the digits, the fraction and the exponent end. */
  function SignEnd(s: Text): nat { if s != [] && s[0] == MINUS then 1 else 0 }

  function IntEnd(s: Text): (i: nat)
    ensures SignEnd(s) <= i <= |s| && AllDigits(s[SignEnd(s)..i])
  {
    var k := DigitRun(s[SignEnd(s)..]);
    assert s[SignEnd(s)..][..k] == s[SignEnd(s)..SignEnd(s) + k];
    SignEnd(s) + k
  }

  function FractionEnd(s: Text): (i: nat)
    ensures IntEnd(s) <= i <= |s|
  {
    var i := IntEnd(s);
    if i < |s| && s[i] == DOT then i + 1 + DigitRun(s[i + 1..]) else i
  }

  function ExponentStart(s: Text): (i: nat)
    ensures FractionEnd(s) <= i <= |s|
  {
    var i := FractionEnd(s);
    if i < |s| && (s[i] == 101 || s[i] == 69) then
      if i + 1 < |s| && (s[i + 1] == PLUS || s[i + 1] == MINUS) then i + 2 else i + 1
    else i
  }

  function NumberEnd(s: Text): (i: nat)
    ensures ExponentStart(s) <= i <= |s|
  {
    var i := ExponentStart(s);
    if i == FractionEnd(s) then i else i + DigitRun(s[i..])
  }

  /** A number text that converts: a digit before the exponent, and one in it if there is one. */
  predicate Convertible(s: Text) {
    FractionEnd(s) - SignEnd(s) > (if FractionEnd(s) > IntEnd(s) then 1 else 0) &&
    (ExponentStart(s) > FractionEnd(s) ==> NumberEnd(s) > ExponentStart(s))
  }

  /** What the bytes of a number text say: a sign, digits, how many of them come
      after the point, and an exponent. */
  datatype Numeral = Numeral(negative: bool, mantissa: nat, point: bool, places: nat,
                                 exponential: bool, down: bool, exponent: nat)

  const BLANK := Numeral(false, 0, false, 0, false, false, 0)

  function Next(d: Numeral, b: byte): Numeral {
    if IsDigit(b) then
      if d.exponential then d.(exponent := d.exponent * 10 + (b - 48))
      else d.(mantissa := d.mantissa * 10 + (b - 48), places := if d.point then d.places + 1 else 0)
    else if b == DOT then d.(point := true)
    else if b == 101 || b == 69 then d.(exponential := true)
    else if b != MINUS then d
    else if d.exponential then d.(down := true)
    else d.(negative := true)
  }

  function Read(d: Numeral, t: Text): Numeral
    decreases |t|
  {
    if t == [] then d else Read(Next(d, t[0]), t[1..])
  }

  /** The power of ten that the digits are multiplied by. */
  function Exponent(d: Numeral): int {
    var e: int := d.exponent;
    (if d.down then -e else e) - d.places
  }

  function PowerOfTwo(k: nat): nat { if k == 0 then 1 else 2 * PowerOfTwo(k - 1) }

  /** Multiplied by ten, k times. */
  function Scaled(n: int, k: nat): int { if k == 0 then n else 10 * Scaled(n, k - 1) }

  const MAX_EXPONENT: nat := 1024

  /** Half a step above the largest double: from here on, the nearest double is infinite. */
  function Overflow(): int { PowerOfTwo(MAX_EXPONENT) - PowerOfTwo(MAX_EXPONENT - 54) }

  predicate Overflows(mantissa: nat, exponent: int) {
    if exponent >= 0 then Scaled(mantissa, exponent) >= Overflow() else mantissa >= Scaled(Overflow(), -exponent)
  }

  /** The double nearest to a number text. */
  function Converted(t: Text): JsonValue {
    var d := Read(BLANK, t);
    var n: int := d.mantissa;
    if !d.point && !d.exponential && n <= EXACT then Number(if d.negative then -n else n)
    else if Overflows(d.mantissa, Exponent(d)) then Infinite(d.negative)
    else Literal(t)
  }

  function ReadNumber(s: Text): (r: Option<(JsonValue, Text)>)
    ensures r.Some? ==> |r.value.1| < |s|
  {
    if NumberEnd(s) == 0 || !Convertible(s) then None else Some((Converted(s[..NumberEnd(s)]), s[NumberEnd(s)..]))
  }

  function ReadValue(s: Text): (r: Option<(JsonValue, Text)>)
    ensures r.Some? ==> |r.value.1| < |s|
    decreases |s|, 0
  {
    var t := SkipSpace(s);
    if t == [] then None
    else if t[0] == QUOTE then
      (match ReadString(t)
       case None => None
       case Some((x, r)) => Some((String(x), r)))
    else if t[0] == OPEN_OBJECT then
      var u := SkipSpace(t[1..]);
      if u != [] && u[0] == CLOSE_OBJECT then Some((Object([]), u[1..])) else ReadFields(u, [])
    else if t[0] == OPEN_ARRAY then
      var u := SkipSpace(t[1..]);
      if u != [] && u[0] == CLOSE_ARRAY then Some((Array([]), u[1..])) else ReadItems(u, [])
    else if TRUE <= t then Some((Bool(true), t[4..]))
    else if FALSE <= t then Some((Bool(false), t[5..]))
    else if NULL <= t then Some((Null, t[4..]))
    else ReadNumber(t)
  }

  /** The items of an array after those in acc. */
  function ReadItems(s: Text, acc: seq<JsonValue>): (r: Option<(JsonValue, Text)>)
    ensures r.Some? ==> |r.value.1| < |s|
    decreases |s|, 1
  {
    match ReadValue(SkipSpace(s))
    case None => None
    case Some((x, r)) =>
      var u := SkipSpace(r);
      if u == [] then None
      else if u[0] == COMMA then ReadItems(u[1..], acc + [x])
      else if u[0] == CLOSE_ARRAY then Some((Array(acc + [x]), u[1..]))
      else None
  }

  /** A key, its colon and its value. */
  function ReadField(s: Text): (r: Option<((Text, JsonValue), Text)>)
    ensures r.Some? ==> |r.value.1| < |s|
    decreases |s|, 1
  {
    match ReadString(SkipSpace(s))
    case None => None
    case Some((k, r)) =>
      var u := SkipSpace(r);
      if u == [] || u[0] != COLON then None
      else
        match ReadValue(SkipSpace(u[1..]))
        case None => None
        case Some((v, r')) => Some(((k, v), r'))
  }

  /** The members of an object after those in acc. */
  function ReadFields(s: Text, acc: seq<(Text, JsonValue)>): (r: Option<(JsonValue, Text)>)
    ensures r.Some? ==> |r.value.1| < |s|
    decreases |s|, 2
  {
    match ReadField(s)
    case None => None
    case Some((f, r)) =>
      var u := SkipSpace(r);
      if u == [] then None
      else if u[0] == COMMA then ReadFields(u[1..], acc + [f])
      else if u[0] == CLOSE_OBJECT then Some((Object(acc + [f]), u[1..]))
      else None
  }

  predicate Trimmable(b: byte) { IsSpace(b) || b == 11 }

  function Trimmed(s: Text): Text {
    if s == [] then []
    else if Trimmable(s[0]) then Trimmed(s[1..])
    else if Trimmable(s[|s| - 1]) then Trimmed(s[..|s| - 1])
    else s
  }

  predicate AllSpace(s: Text) { forall i :: 0 <= i < |s| ==> IsSpace(s[i]) }

  function Parse(s: Text): Option<JsonValue> {
    match ReadValue(Trimmed(s))
    case None => None
    case Some((v, r)) => if AllSpace(r) then Some(v) else None
  }

  // ------------------------------------------------ what printing loses

  predicate NoSpecial(s: Text) { forall i :: 0 <= i < |s| ==> !Special(s[i]) }

  predicate Ascii(s: Text) { forall i :: 0 <= i < |s| ==> s[i] < 128 }

  function WidenedAll(s: Text): Text {
    if s == [] then [] else Widened(s[0]) + WidenedAll(s[1..])
  }

  /** What a string becomes when it is printed and parsed. */
  function RereadString(s: Text): Text { if NoSpecial(s) then s else WidenedAll(s) }

  function Reread(v: JsonValue): JsonValue {
    match v
    case String(s) => String(RereadString(s))
    case Array(items) => Array(RereadItems(items))
    case Object(fields) => Object(RereadFields(fields))
    case _ => v
  }

  function RereadItems(items: seq<JsonValue>): seq<JsonValue> {
    if items == [] then [] else [Reread(items[0])] + RereadItems(items[1..])
  }

  function RereadField(f: (Text, JsonValue)): (Text, JsonValue) { (RereadString(f.0), Reread(f.1)) }

  function RereadFields(fields: seq<(Text, JsonValue)>): seq<(Text, JsonValue)> {
    if fields == [] then [] else [RereadField(fields[0])] + RereadFields(fields[1..])
  }

  /** A text that is a number as a whole, and that neither of the other forms stands for. */
  predicate Shown(t: Text) { NumberEnd(t) == |t| && Convertible(t) && Converted(t) == Literal(t) }

  /** Every number is in the form that stands for it. */
  predicate Printable(v: JsonValue) {
    match v
    case Number(n) => -EXACT <= n <= EXACT
    case Literal(text) => Shown(text)
    case Array(items) => forall i :: 0 <= i < |items| ==> Printable(items[i])
    case Object(fields) => forall i :: 0 <= i < |fields| ==> Printable(fields[i].1)
    case _ => true
  }

  /** Every number is finite. */
  predicate Finite(v: JsonValue) {
    match v
    case Infinite(_) => false
    case NotANumber => false
    case Array(items) => forall i :: 0 <= i < |items| ==> Finite(items[i])
    case Object(fields) => forall i :: 0 <= i < |fields| ==> Finite(fields[i].1)
    case _ => true
  }

  /** A string that survives: nothing to escape, or nothing outside ASCII. */
  predicate PlainString(s: Text) { NoSpecial(s) || Ascii(s) }

  predicate Plain(v: JsonValue) {
    match v
    case String(s) => PlainString(s)
    case Array(items) => forall i :: 0 <= i < |items| ==> Plain(items[i])
    case Object(fields) => forall i :: 0 <= i < |fields| ==> PlainString(fields[i].0) && Plain(fields[i].1)
    case _ => true
  }

  lemma {:induction false} WidenedLonger(s: Text)
    ensures |WidenedAll(s)| >= |s| && (WidenedAll(s) == s <==> Ascii(s))
  {
    if s != [] {
      WidenedLonger(s[1..]);
      var rest := s[1..];
      assert s == [s[0]] + rest;
      if s[0] < 128 {
        assert WidenedAll(s)[1..] == WidenedAll(rest);
        assert Ascii(s) <==> Ascii(rest);
      } else {
        assert |WidenedAll(s)| > |s|;
      }
    }
  }

  lemma RereadStringIff(s: Text)
    ensures RereadString(s) == s <==> PlainString(s)
  {
    WidenedLonger(s);
  }

  lemma {:induction false} RereadIff(v: JsonValue)
    ensures Reread(v) == v <==> Plain(v)
  {
    match v {
      case String(s) => RereadStringIff(s);
      case Array(items) => RereadItemsIff(items);
      case Object(fields) => RereadFieldsIff(fields);
      case _ =>
    }
  }

  lemma {:induction false} RereadItemsIff(items: seq<JsonValue>)
    ensures RereadItems(items) == items <==> forall i :: 0 <= i < |items| ==> Plain(items[i])
  {
    if items != [] {
      RereadIff(items[0]);
      RereadItemsIff(items[1..]);
      assert items == [items[0]] + items[1..];
      assert RereadItems(items)[1..] == RereadItems(items[1..]);
    }
  }

  lemma {:induction false} RereadFieldIff(f: (Text, JsonValue))
    ensures RereadField(f) == f <==> PlainString(f.0) && Plain(f.1)
  {
    RereadStringIff(f.0);
    RereadIff(f.1);
  }

  lemma {:induction false} RereadFieldsIff(fields: seq<(Text, JsonValue)>)
    ensures RereadFields(fields) == fields <==>
            forall i :: 0 <= i < |fields| ==> PlainString(fields[i].0) && Plain(fields[i].1)
  {
    if fields != [] {
      RereadFieldIff(fields[0]);
      RereadFieldsIff(fields[1..]);
      assert fields == [fields[0]] + fields[1..];
      assert RereadFields(fields)[1..] == RereadFields(fields[1..]);
    }
  }

  // -------------------------------------------------- reading what was printed

  /** What may follow a number without being taken for a part of it. */
  predicate Ends(rest: Text) {
    rest == [] || !(IsDigit(rest[0]) || rest[0] == DOT || rest[0] == 101 || rest[0] == 69)
  }

  lemma {:induction false} DigitRunAt(d: Text, rest: Text)
    requires AllDigits(d) && (rest == [] || !IsDigit(rest[0]))
    ensures DigitRun(d + rest) == |d|
  {
    if d == [] {
      assert d + rest == rest;
    } else {
      assert (d + rest)[1..] == d[1..] + rest;
      DigitRunAt(d[1..], rest);
    }
  }

  lemma NumberEnds(sign: Text, d: Text, rest: Text)
    requires sign == [] || sign == [MINUS]
    requires d != [] && AllDigits(d) && Ends(rest)
    ensures var s := sign + d + rest;
            SignEnd(s) == |sign| && IntEnd(s) == FractionEnd(s) == NumberEnd(s) == ExponentStart(s) == |sign| + |d|
    ensures (sign + d + rest)[|sign|..|sign| + |d|] == d && (sign + d + rest)[|sign| + |d|..] == rest
  {
    var s := sign + d + rest;
    assert s[|sign|..] == d + rest;
    DigitRunAt(d, rest);
  }

  lemma {:induction false} ReadSnoc(d: Numeral, t: Text, b: byte)
    ensures Read(d, t + [b]) == Next(Read(d, t), b)
    decreases |t|
  {
    if t == [] {
      assert t + [b] == [b] && [b][1..] == [];
    } else {
      assert (t + [b])[1..] == t[1..] + [b];
      ReadSnoc(Next(d, t[0]), t[1..], b);
    }
  }

  lemma {:induction false} ReadDigits(d: Numeral, digits: Text)
    requires AllDigits(digits) && d.mantissa == 0 && !d.exponential && !d.point && d.places == 0
    ensures Read(d, digits) == d.(mantissa := Value(digits))
  {
    if digits != [] {
      var front, last := digits[..|digits| - 1], digits[|digits| - 1];
      ReadDigits(d, front);
      ReadSnoc(d, front, last);
      assert front + [last] == digits;
    }
  }

  lemma ConvertedInteger(n: int)
    requires -EXACT <= n <= EXACT
    ensures Converted(IntText(n)) == Number(n)
  {
    var m: nat := if n < 0 then -n else n;
    DecimalValue(m);
    if n < 0 {
      assert IntText(n)[1..] == Decimal(m);
      ReadDigits(BLANK.(negative := true), Decimal(m));
    } else {
      ReadDigits(BLANK, Decimal(m));
    }
  }

  lemma ReadConverted(s: Text, k: nat)
    requires NumberEnd(s) == k > 0 && Convertible(s)
    ensures ReadNumber(s) == Some((Converted(s[..k]), s[k..]))
  {
  }

  lemma NumberBack(n: int, rest: Text)
    requires -EXACT <= n <= EXACT && Ends(rest)
    ensures ReadNumber(IntText(n) + rest) == Some((Number(n), rest))
  {
    var m: nat := if n < 0 then -n else n;
    var sign := if n < 0 then [MINUS] else [];
    var t := IntText(n);
    assert t == sign + Decimal(m);
    DecimalValue(m);
    NumberEnds(sign, Decimal(m), rest);
    assert (t + rest)[..|t|] == t;
    ConvertedInteger(n);
    ReadConverted(t + rest, |t|);
  }

  // A number text reads the same with more after it.

  lemma {:induction false} RunExtends(x: Text, rest: Text)
    requires rest == [] || !IsDigit(rest[0])
    ensures DigitRun(x + rest) == DigitRun(x)
  {
    if x == [] {
      assert x + rest == rest;
    } else {
      assert (x + rest)[1..] == x[1..] + rest;
      RunExtends(x[1..], rest);
    }
  }

  lemma TailOf(t: Text, rest: Text, i: nat)
    requires i <= |t|
    ensures (t + rest)[i..] == t[i..] + rest
  {
  }

  lemma DigitsExtend(t: Text, rest: Text, i: nat)
    requires i <= |t| && Ends(rest)
    ensures DigitRun((t + rest)[i..]) == DigitRun(t[i..])
  {
    TailOf(t, rest, i);
    RunExtends(t[i..], rest);
  }

  lemma FractionExtends(t: Text, rest: Text)
    requires t != [] && Ends(rest)
    ensures var s := t + rest;
            SignEnd(s) == SignEnd(t) && IntEnd(s) == IntEnd(t) && FractionEnd(s) == FractionEnd(t)
  {
    DigitsExtend(t, rest, SignEnd(t));
    var i := IntEnd(t);
    if i < |t| && t[i] == DOT {
      assert (t + rest)[i] == DOT;
      DigitsExtend(t, rest, i + 1);
    }
  }

  lemma ExponentExtends(t: Text, rest: Text)
    requires t != [] && Ends(rest) && NumberEnd(t) == |t| && Convertible(t)
    ensures ExponentStart(t + rest) == ExponentStart(t)
  {
    FractionExtends(t, rest);
    var i := FractionEnd(t);
    if i < |t| {
      assert (t + rest)[i] == t[i];
      if i + 1 < |t| {
        assert (t + rest)[i + 1] == t[i + 1];
      }
    }
  }

  lemma EndExtends(t: Text, rest: Text)
    requires t != [] && Ends(rest) && NumberEnd(t) == |t| && Convertible(t)
    ensures NumberEnd(t + rest) == |t| && Convertible(t + rest)
  {
    FractionExtends(t, rest);
    ExponentExtends(t, rest);
    DigitsExtend(t, rest, ExponentStart(t));
  }

  lemma LiteralRead(t: Text, rest: Text)
    requires t != [] && NumberEnd(t) == |t| && Convertible(t) && Ends(rest)
    ensures ReadNumber(t + rest) == Some((Converted(t), rest))
  {
    EndExtends(t, rest);
    assert (t + rest)[..|t|] == t && (t + rest)[|t|..] == rest;
    ReadConverted(t + rest, |t|);
  }

  /** A byte that a number can begin or end with. */
  predicate NumberByte(b: byte) { b == MINUS || b == DOT || IsDigit(b) }

  lemma NumberByteIsNone(b: byte)
    requires NumberByte(b)
    ensures !Trimmable(b) && b != CLOSE_ARRAY && b != CLOSE_OBJECT
  {
  }

  lemma NumberStart(t: Text)
    requires Convertible(t)
    ensures t != [] && NumberByte(t[0])
  {
  }

  lemma NumberLast(t: Text)
    requires NumberEnd(t) == |t| && Convertible(t)
    ensures t != [] && NumberByte(t[|t| - 1])
  {
    var n := |t| - 1;
    if ExponentStart(t) > FractionEnd(t) {
      LastOfRun(t, ExponentStart(t));
    } else if FractionEnd(t) > IntEnd(t) + 1 {
      LastOfRun(t, IntEnd(t) + 1);
    } else if FractionEnd(t) == IntEnd(t) {
      LastOfRun(t, SignEnd(t));
    }
  }

  lemma LastOfRun(t: Text, i: nat)
    requires i < |t| && i + DigitRun(t[i..]) == |t|
    ensures IsDigit(t[|t| - 1])
  {
    assert t[i..][..|t| - i][|t| - 1 - i] == t[|t| - 1];
  }

  lemma ShownEnds(t: Text)
    requires NumberEnd(t) == |t| && Convertible(t)
    ensures t != [] && NumberByte(t[0]) && !Trimmable(t[0]) && t[0] != CLOSE_ARRAY && t[0] != CLOSE_OBJECT
    ensures !Trimmable(t[|t| - 1])
  {
    NumberStart(t);
    NumberLast(t);
    NumberByteIsNone(t[0]);
    NumberByteIsNone(t[|t| - 1]);
  }

  lemma LiteralBack(t: Text, rest: Text)
    requires Shown(t) && Ends(rest)
    ensures ReadValue(t + rest) == Some((Literal(t), rest))
  {
    ShownEnds(t);
    LiteralRead(t, rest);
    DispatchNumber(t + rest);
  }

  lemma {:induction false} EscapedPlain(s: Text)
    requires NoSpecial(s)
    ensures Escaped(s) == s
  {
    if s != [] {
      EscapedPlain(s[1..]);
    }
  }

  lemma {:induction false} FirstSpecialAt(s: Text, i: nat)
    requires i < |s| && Special(s[i]) && forall j :: 0 <= j < i ==> !Special(s[j])
    ensures FirstSpecial(s) == i
  {
  }

  lemma {:induction false} EscapeFirst(s: Text, rest: Text)
    requires !NoSpecial(s)
    ensures var t := Escaped(s) + [QUOTE] + rest;
            FirstSpecial(t) < |t| && t[FirstSpecial(t)] == BACKSLASH
  {
    var t := Escaped(s) + [QUOTE] + rest;
    if !Special(s[0]) {
      EscapeFirst(s[1..], rest);
      assert t[1..] == Escaped(s[1..]) + [QUOTE] + rest;
    }
  }

  lemma EscapedFront(e: Text, more: Text, rest: Text)
    ensures e + more + [QUOTE] + rest == e + (more + [QUOTE] + rest)
  {
  }

  lemma {:induction false} DecodedBack(s: Text, acc: Text, rest: Text)
    ensures Decoded(Escaped(s) + [QUOTE] + rest, acc) == Some((acc + WidenedAll(s), rest))
  {
    if s == [] {
      assert Escaped(s) + [QUOTE] + rest == [QUOTE] + rest && acc + [] == acc;
    } else {
      var e := if Special(s[0]) then [BACKSLASH, s[0]] else [s[0]];
      EscapedFront(e, Escaped(s[1..]), rest);
      DecodedOne(s[0], Escaped(s[1..]) + [QUOTE] + rest, acc);
      DecodedBack(s[1..], acc + Widened(s[0]), rest);
      Assoc(acc, Widened(s[0]), WidenedAll(s[1..]));
    }
  }

  lemma DecodedOne(b: byte, u: Text, acc: Text)
    ensures Decoded((if Special(b) then [BACKSLASH, b] else [b]) + u, acc) == Decoded(u, acc + Widened(b))
  {
    if Special(b) {
      assert ([BACKSLASH, b] + u)[2..] == u;
    } else {
      assert ([b] + u)[1..] == u;
      if b == QUOTE || b == BACKSLASH {
        assert false;
      }
    }
  }

  lemma StringBack(s: Text, rest: Text)
    ensures ReadString(Quoted(s) + rest) == Some((RereadString(s), rest))
  {
    var t := Escaped(s) + [QUOTE] + rest;
    assert Quoted(s) + rest == [QUOTE] + t;
    assert ([QUOTE] + t)[1..] == t;
    if NoSpecial(s) {
      EscapedPlain(s);
      FirstSpecialAt(t, |s|);
      assert t[..|s|] == s && t[|s| + 1..] == rest;
    } else {
      EscapeFirst(s, rest);
      DecodedBack(s, [], rest);
      assert [] + WidenedAll(s) == WidenedAll(s);
    }
  }

  lemma IntEnds(n: int)
    ensures var s := IntText(n);
            s != [] && (s[0] == MINUS || IsDigit(s[0])) && IsDigit(s[|s| - 1])
  {
    DecimalValue(if n < 0 then -n else n);
  }

  /** The first byte of a printed value: no space and no closing bracket. */
  lemma PrintStart(v: JsonValue)
    requires Printable(v)
    ensures Print(v) != [] && !Trimmable(Print(v)[0])
    ensures Print(v)[0] != CLOSE_ARRAY && Print(v)[0] != CLOSE_OBJECT
  {
    match v
    case Number(n) => IntEnds(n);
    case Literal(text) => ShownEnds(text);
    case _ =>
  }

  lemma NoWord(s: Text, word: Text)
    requires s != [] && word != [] && s[0] != word[0]
    ensures !(word <= s)
  {
  }

  lemma NumberByteIsOther(b: byte)
    requires NumberByte(b)
    ensures !IsSpace(b) && b != QUOTE && b != OPEN_OBJECT && b != OPEN_ARRAY
    ensures b != TRUE[0] && b != FALSE[0] && b != NULL[0]
  {
  }

  /** What starts with none of the marks of the other values is read as a number. */
  lemma DispatchOther(s: Text)
    requires s != [] && !IsSpace(s[0]) && s[0] != QUOTE && s[0] != OPEN_OBJECT && s[0] != OPEN_ARRAY
    requires !(TRUE <= s) && !(FALSE <= s) && !(NULL <= s)
    ensures ReadValue(s) == ReadNumber(s)
  {
  }

  lemma DispatchNumber(s: Text)
    requires s != [] && NumberByte(s[0])
    ensures ReadValue(s) == ReadNumber(s)
  {
    NumberByteIsOther(s[0]);
    NoWord(s, TRUE);
    NoWord(s, FALSE);
    NoWord(s, NULL);
    DispatchOther(s);
  }

  lemma DispatchArray(t: Text)
    requires t != [] && !IsSpace(t[0])
    ensures ReadValue([OPEN_ARRAY] + t) ==
            if t[0] == CLOSE_ARRAY then Some((Array([]), t[1..])) else ReadItems(t, [])
  {
    assert ([OPEN_ARRAY] + t)[1..] == t;
  }

  lemma DispatchObject(t: Text)
    requires t != [] && !IsSpace(t[0])
    ensures ReadValue([OPEN_OBJECT] + t) ==
            if t[0] == CLOSE_OBJECT then Some((Object([]), t[1..])) else ReadFields(t, [])
  {
    assert ([OPEN_OBJECT] + t)[1..] == t;
  }

  lemma ItemsOnce(s: Text, acc: seq<JsonValue>, x: JsonValue, after: Text)
    requires s != [] && !IsSpace(s[0]) && ReadValue(s) == Some((x, after))
    requires after != [] && (after[0] == COMMA || after[0] == CLOSE_ARRAY)
    ensures ReadItems(s, acc) ==
            if after[0] == COMMA then ReadItems(after[1..], acc + [x]) else Some((Array(acc + [x]), after[1..]))
  {
  }

  lemma NoItem(s: Text, acc: seq<JsonValue>)
    requires s != [] && !IsSpace(s[0]) && ReadValue(s) == None
    ensures ReadItems(s, acc) == None
  {
  }

  lemma NoField(s: Text, k: Text, w: Text)
    requires s != [] && !IsSpace(s[0]) && ReadString(s) == Some((k, [COLON] + w))
    requires w != [] && !IsSpace(w[0]) && ReadValue(w) == None
    ensures ReadField(s) == None
  {
    assert ([COLON] + w)[1..] == w;
  }

  lemma NoFields(s: Text, acc: seq<(Text, JsonValue)>)
    requires ReadField(s) == None
    ensures ReadFields(s, acc) == None
  {
  }

  lemma FieldsOnce(s: Text, acc: seq<(Text, JsonValue)>, f: (Text, JsonValue), after: Text)
    requires ReadField(s) == Some((f, after))
    requires after != [] && (after[0] == COMMA || after[0] == CLOSE_OBJECT)
    ensures ReadFields(s, acc) ==
            if after[0] == COMMA then ReadFields(after[1..], acc + [f]) else Some((Object(acc + [f]), after[1..]))
  {
  }

  lemma FieldOnce(s: Text, k: Text, w: Text, v: JsonValue, rest: Text)
    requires s != [] && !IsSpace(s[0]) && ReadString(s) == Some((k, [COLON] + w))
    requires w != [] && !IsSpace(w[0]) && ReadValue(w) == Some((v, rest))
    ensures ReadField(s) == Some(((k, v), rest))
  {
    assert ([COLON] + w)[1..] == w;
  }

  lemma NumberValueBack(n: int, rest: Text)
    requires -EXACT <= n <= EXACT && Ends(rest)
    ensures ReadValue(IntText(n) + rest) == Some((Number(n), rest))
  {
    DecimalValue(if n < 0 then -n else n);
    NumberBack(n, rest);
    DispatchNumber(IntText(n) + rest);
  }

  lemma StringValueBack(s: Text, rest: Text)
    ensures ReadValue(Quoted(s) + rest) == Some((String(RereadString(s)), rest))
  {
    StringBack(s, rest);
    assert (Quoted(s) + rest)[0] == QUOTE;
  }

  lemma WordBack(v: JsonValue, rest: Text)
    requires v.Null? || v.Bool?
    ensures ReadValue(Print(v) + rest) == Some((v, rest))
  {
    var s := Print(v) + rest;
    assert s[|Print(v)|..] == rest && Print(v) <= s;
  }

  lemma NaNUnread(rest: Text)
    ensures ReadValue(NAN + rest) == None
  {
    var s := NAN + rest;
    assert s[0] == 78 && SignEnd(s) == 0 && s[0..] == s && DigitRun(s) == 0;
    assert NumberEnd(s) == 0;
    assert SkipSpace(s) == s && TRUE[0] != s[0] && FALSE[0] != s[0] && NULL[0] != s[0];
  }

  /** What an infinite number prints is not a value. */
  lemma InfiniteUnread(negative: bool, rest: Text)
    ensures ReadValue(Print(Infinite(negative)) + rest) == None
  {
    var s := Print(Infinite(negative)) + rest;
    var i := if negative then 1 else 0;
    assert s[i] == 105 && SignEnd(s) == i && s[i..][0] == 105;
    assert DigitRun(s[i..]) == 0;
    assert NumberEnd(s) == FractionEnd(s) == i;
    assert SkipSpace(s) == s && TRUE[0] != s[0] && FALSE[0] != s[0] && NULL[0] != s[0];
  }

  /** Printing and parsing a finite value rereads its strings, and stops where it ends. */
  lemma {:induction false} ValueBack(v: JsonValue, rest: Text)
    requires Printable(v) && Ends(rest)
    ensures ReadValue(Print(v) + rest) == if Finite(v) then Some((Reread(v), rest)) else None
    decreases v, 1
  {
    match v {
      case Array(items) => ArrayBack(items, rest);
      case Object(fields) => ObjectBack(fields, rest);
      case Number(n) => NumberValueBack(n, rest);
      case Infinite(negative) => InfiniteUnread(negative, rest);
      case NotANumber => NaNUnread(rest);
      case Literal(text) => LiteralBack(text, rest);
      case String(s) => StringValueBack(s, rest);
      case _ => WordBack(v, rest);
    }
  }

  lemma {:induction false} ArrayBack(items: seq<JsonValue>, rest: Text)
    requires Printable(Array(items))
    ensures ReadValue(Print(Array(items)) + rest) ==
            if Finite(Array(items)) then Some((Reread(Array(items)), rest)) else None
    decreases items, 1
  {
    var t := PrintItems(items) + [CLOSE_ARRAY] + rest;
    Bracketed(OPEN_ARRAY, PrintItems(items), [CLOSE_ARRAY], rest);
    if items == [] {
      assert t == [CLOSE_ARRAY] + rest;
    } else {
      ItemsStart(items);
      ItemsBack(items, [], rest);
      assert [] + RereadItems(items) == RereadItems(items);
    }
    DispatchArray(t);
  }

  lemma Bracketed(open: byte, a: Text, close: Text, rest: Text)
    ensures [open] + a + close + rest == [open] + (a + close + rest)
  {
  }

  lemma ItemsStart(items: seq<JsonValue>)
    requires items != [] && Printable(items[0])
    ensures PrintItems(items) != [] && !IsSpace(PrintItems(items)[0]) && PrintItems(items)[0] != CLOSE_ARRAY
  {
    PrintStart(items[0]);
  }

  /** The text after the first of several: the closing bracket, or a comma and the others. */
  function After(others: Text, last: bool, close: byte, rest: Text): Text {
    if last then [close] + rest else [COMMA] + (others + [close] + rest)
  }

  lemma Separated(first: Text, others: Text, last: bool, close: byte, rest: Text)
    ensures (if last then first else first + [COMMA] + others) + [close] + rest ==
            first + After(others, last, close, rest)
    ensures After(others, last, close, rest)[1..] == if last then rest else others + [close] + rest
  {
  }

  /** What reading the printed items after those in acc gives. */
  function ItemsRead(items: seq<JsonValue>, acc: seq<JsonValue>, rest: Text): Option<(JsonValue, Text)> {
    if Finite(Array(items)) then Some((Array(acc + RereadItems(items)), rest)) else None
  }

  lemma ItemsReadFirst(items: seq<JsonValue>, acc: seq<JsonValue>, rest: Text)
    requires items != []
    ensures ItemsRead(items, acc, rest) ==
            if !Finite(items[0]) then None
            else if |items| == 1 then Some((Array(acc + [Reread(items[0])]), rest))
            else ItemsRead(items[1..], acc + [Reread(items[0])], rest)
  {
    FirstItemFinite(items);
    Assoc(acc, [Reread(items[0])], RereadItems(items[1..]));
    if |items| == 1 {
      assert RereadItems(items) == [Reread(items[0])];
    }
  }

  lemma FirstItemFinite(items: seq<JsonValue>)
    requires items != []
    ensures Finite(Array(items)) <==> Finite(items[0]) && Finite(Array(items[1..]))
  {
    var xs := items[1..];
    assert forall i :: 0 < i < |items| ==> items[i] == xs[i - 1];
    assert forall i :: 0 <= i < |xs| ==> xs[i] == items[i + 1];
  }

  lemma {:induction false} ItemsBack(items: seq<JsonValue>, acc: seq<JsonValue>, rest: Text)
    requires items != [] && forall i :: 0 <= i < |items| ==> Printable(items[i])
    ensures ReadItems(PrintItems(items) + [CLOSE_ARRAY] + rest, acc) == ItemsRead(items, acc, rest)
    decreases items, 0
  {
    var x, xs := items[0], items[1..];
    var after := After(PrintItems(xs), xs == [], CLOSE_ARRAY, rest);
    Separated(Print(x), PrintItems(xs), xs == [], CLOSE_ARRAY, rest);
    ItemsReadFirst(items, acc, rest);
    ValueBack(x, after);
    PrintStart(x);
    if !Finite(x) {
      NoItem(Print(x) + after, acc);
    } else {
      ItemsOnce(Print(x) + after, acc, Reread(x), after);
      if xs != [] {
        ItemsBack(xs, acc + [Reread(x)], rest);
      }
    }
  }

  lemma {:induction false} ObjectBack(fields: seq<(Text, JsonValue)>, rest: Text)
    requires Printable(Object(fields))
    ensures ReadValue(Print(Object(fields)) + rest) ==
            if Finite(Object(fields)) then Some((Reread(Object(fields)), rest)) else None
    decreases fields, 1
  {
    var t := PrintFields(fields) + [CLOSE_OBJECT] + rest;
    Bracketed(OPEN_OBJECT, PrintFields(fields), [CLOSE_OBJECT], rest);
    if fields == [] {
      assert t == [CLOSE_OBJECT] + rest;
    } else {
      FieldsStart(fields);
      FieldsBack(fields, [], rest);
      assert [] + RereadFields(fields) == RereadFields(fields);
    }
    DispatchObject(t);
  }

  lemma FieldsStart(fields: seq<(Text, JsonValue)>)
    requires fields != []
    ensures PrintFields(fields) != [] && PrintFields(fields)[0] == QUOTE
  {
    assert PrintField(fields[0])[0] == Quoted(fields[0].0)[0];
  }

  lemma {:induction false} FieldBack(f: (Text, JsonValue), rest: Text)
    requires Printable(f.1) && Ends(rest)
    ensures ReadField(PrintField(f) + rest) == if Finite(f.1) then Some((RereadField(f), rest)) else None
    decreases f, 0
  {
    var q, w := Quoted(f.0), Print(f.1) + rest;
    Colon(q, Print(f.1), rest);
    StringBack(f.0, [COLON] + w);
    PrintStart(f.1);
    ValueBack(f.1, rest);
    if Finite(f.1) {
      FieldOnce(q + ([COLON] + w), RereadString(f.0), w, Reread(f.1), rest);
    } else {
      NoField(q + ([COLON] + w), RereadString(f.0), w);
    }
  }

  lemma Colon(q: Text, v: Text, rest: Text)
    ensures q + [COLON] + v + rest == q + ([COLON] + (v + rest))
  {
  }

  /** What reading the printed members after those in acc gives. */
  function FieldsRead(fields: seq<(Text, JsonValue)>, acc: seq<(Text, JsonValue)>, rest: Text)
    : Option<(JsonValue, Text)>
  {
    if Finite(Object(fields)) then Some((Object(acc + RereadFields(fields)), rest)) else None
  }

  lemma FieldsReadFirst(fields: seq<(Text, JsonValue)>, acc: seq<(Text, JsonValue)>, rest: Text)
    requires fields != []
    ensures FieldsRead(fields, acc, rest) ==
            if !Finite(fields[0].1) then None
            else if |fields| == 1 then Some((Object(acc + [RereadField(fields[0])]), rest))
            else FieldsRead(fields[1..], acc + [RereadField(fields[0])], rest)
  {
    FirstFieldFinite(fields);
    Assoc(acc, [RereadField(fields[0])], RereadFields(fields[1..]));
    if |fields| == 1 {
      assert RereadFields(fields) == [RereadField(fields[0])];
    }
  }

  lemma FirstFieldFinite(fields: seq<(Text, JsonValue)>)
    requires fields != []
    ensures Finite(Object(fields)) <==> Finite(fields[0].1) && Finite(Object(fields[1..]))
  {
    var xs := fields[1..];
    assert forall i :: 0 < i < |fields| ==> fields[i] == xs[i - 1];
    assert forall i :: 0 <= i < |xs| ==> xs[i] == fields[i + 1];
  }

  lemma {:induction false} FieldsBack(fields: seq<(Text, JsonValue)>, acc: seq<(Text, JsonValue)>, rest: Text)
    requires fields != [] && forall i :: 0 <= i < |fields| ==> Printable(fields[i].1)
    ensures ReadFields(PrintFields(fields) + [CLOSE_OBJECT] + rest, acc) == FieldsRead(fields, acc, rest)
    decreases fields, 0
  {
    var x, xs := fields[0], fields[1..];
    var after := After(PrintFields(xs), xs == [], CLOSE_OBJECT, rest);
    Separated(PrintField(x), PrintFields(xs), xs == [], CLOSE_OBJECT, rest);
    FieldsReadFirst(fields, acc, rest);
    FieldBack(x, after);
    if Finite(x.1) {
      FieldsOnce(PrintField(x) + after, acc, RereadField(x), after);
      if xs != [] {
        FieldsBack(xs, acc + [RereadField(x)], rest);
      }
    } else {
      NoFields(PrintField(x) + after, acc);
    }
  }

  lemma EndsWith(a: Text, b: byte)
    requires b == QUOTE || b == CLOSE_ARRAY || b == CLOSE_OBJECT
    ensures a + [b] != [] && !Trimmable((a + [b])[|a + [b]| - 1])
  {
  }

  lemma PrintEnd(v: JsonValue)
    requires Printable(v)
    ensures Print(v) != [] && !Trimmable(Print(v)[|Print(v)| - 1])
  {
    match v
    case Number(n) => IntEnds(n); NumberByteIsNone(IntText(n)[|IntText(n)| - 1]);
    case Literal(text) => ShownEnds(text);
    case String(t) => EndsWith([QUOTE] + Escaped(t), QUOTE);
    case Array(items) => EndsWith([OPEN_ARRAY] + PrintItems(items), CLOSE_ARRAY);
    case Object(fields) => EndsWith([OPEN_OBJECT] + PrintFields(fields), CLOSE_OBJECT);
    case _ =>
  }

  /**
   * The printed text of a tree parses exactly when every number is finite. It
   * gives back the same tree exactly when, besides, every string and key is
   * free of quotes and backslashes or is ASCII.
   */
  lemma RoundTripIff(v: JsonValue)
    requires Printable(v)
    ensures Parse(Print(v)) == if Finite(v) then Some(Reread(v)) else None
    ensures Parse(Print(v)) == Some(v) <==> Finite(v) && Plain(v)
  {
    PrintStart(v);
    PrintEnd(v);
    assert Print(v) + [] == Print(v);
    ValueBack(v, []);
    RereadIff(v);
  }

  // ------------------------------------- what the parser gives can be printed

  lemma {:induction false} RunCut(x: Text, n: nat)
    requires DigitRun(x) <= n <= |x|
    ensures DigitRun(x[..n]) == DigitRun(x)
  {
    if n > 0 && IsDigit(x[0]) {
      assert x[..n][1..] == x[1..][..n - 1];
      RunCut(x[1..], n - 1);
    }
  }

  lemma DigitsCut(s: Text, i: nat, n: nat)
    requires i <= |s| && i + DigitRun(s[i..]) <= n <= |s|
    ensures DigitRun(s[..n][i..]) == DigitRun(s[i..])
  {
    RunCut(s[i..], n - i);
    assert s[..n][i..] == s[i..][..n - i];
  }

  lemma FractionCut(s: Text, n: nat)
    requires FractionEnd(s) <= n <= |s| && n > 0
    ensures var t := s[..n];
            SignEnd(t) == SignEnd(s) && IntEnd(t) == IntEnd(s) && FractionEnd(t) == FractionEnd(s)
  {
    DigitsCut(s, SignEnd(s), n);
    var i := IntEnd(s);
    if i < |s| && s[i] == DOT {
      assert i < n && s[..n][i] == DOT;
      DigitsCut(s, i + 1, n);
    }
  }

  lemma ExponentCut(s: Text)
    requires Convertible(s)
    ensures ExponentStart(s[..NumberEnd(s)]) == ExponentStart(s)
  {
    NumberStart(s);
    FractionCut(s, NumberEnd(s));
    var i, n := FractionEnd(s), NumberEnd(s);
    if i < n {
      assert s[..n][i] == s[i];
      if i + 1 < n {
        assert s[..n][i + 1] == s[i + 1];
      }
    }
  }

  lemma EndCut(s: Text)
    requires Convertible(s)
    ensures NumberEnd(s[..NumberEnd(s)]) == NumberEnd(s) && Convertible(s[..NumberEnd(s)])
  {
    NumberStart(s);
    FractionCut(s, NumberEnd(s));
    ExponentCut(s);
    if ExponentStart(s) > FractionEnd(s) {
      DigitsCut(s, ExponentStart(s), NumberEnd(s));
    }
  }

  lemma ConvertedPrintable(s: Text)
    requires Convertible(s)
    ensures Printable(Converted(s[..NumberEnd(s)]))
  {
    EndCut(s);
  }

  lemma {:induction false} ReadValuePrintable(s: Text)
    ensures ReadValue(s).Some? ==> Printable(ReadValue(s).value.0)
    decreases |s|, 0
  {
    var t := SkipSpace(s);
    if t != [] {
      if t[0] == OPEN_ARRAY {
        ReadItemsPrintable(SkipSpace(t[1..]), []);
      } else if t[0] == OPEN_OBJECT {
        ReadFieldsPrintable(SkipSpace(t[1..]), []);
      } else if ReadNumber(t).Some? {
        ConvertedPrintable(t);
      }
    }
  }

  lemma {:induction false} ReadItemsPrintable(s: Text, acc: seq<JsonValue>)
    requires Printable(Array(acc))
    ensures ReadItems(s, acc).Some? ==> Printable(ReadItems(s, acc).value.0)
    decreases |s|, 1
  {
    var r := ReadValue(SkipSpace(s));
    ReadValuePrintable(SkipSpace(s));
    if r.Some? {
      var u := SkipSpace(r.value.1);
      assert Printable(Array(acc + [r.value.0]));
      if u != [] && u[0] == COMMA {
        ReadItemsPrintable(u[1..], acc + [r.value.0]);
      }
    }
  }

  lemma {:induction false} ReadFieldPrintable(s: Text)
    ensures ReadField(s).Some? ==> Printable(ReadField(s).value.0.1)
    decreases |s|, 1
  {
    var r := ReadString(SkipSpace(s));
    if r.Some? {
      var u := SkipSpace(r.value.1);
      if u != [] {
        ReadValuePrintable(SkipSpace(u[1..]));
      }
    }
  }

  lemma {:induction false} ReadFieldsPrintable(s: Text, acc: seq<(Text, JsonValue)>)
    requires Printable(Object(acc))
    ensures ReadFields(s, acc).Some? ==> Printable(ReadFields(s, acc).value.0)
    decreases |s|, 2
  {
    var r := ReadField(s);
    ReadFieldPrintable(s);
    if r.Some? {
      var u := SkipSpace(r.value.1);
      assert Printable(Object(acc + [r.value.0]));
      if u != [] && u[0] == COMMA {
        ReadFieldsPrintable(u[1..], acc + [r.value.0]);
      }
    }
  }

  /** A text that is stored survives being printed and parsed again exactly when
      what it holds is finite and plain. */
  lemma StoredTextIff(text: Text)
    requires Parse(text).Some?
    ensures var v := Parse(text).value;
            Printable(v) && (Parse(Print(v)) == Some(v) <==> Finite(v) && Plain(v))
  {
    ReadValuePrintable(Trimmed(text));
    RoundTripIff(Parse(text).value);
  }

  /** The string é" comes back as Ã©". */
  lemma AccentBeforeQuoteChanges()
    ensures Parse(Print(String([0xC3, 0xA9, QUOTE]))) == Some(String([0xC3, 0x83, 0xC2, 0xA9, QUOTE]))
  {
    var s: Text := [0xC3, 0xA9, QUOTE];
    RoundTripIff(String(s));
    assert WidenedAll(s) == [0xC3, 0x83, 0xC2, 0xA9, QUOTE] by {
      var t: Text := [0xA9, QUOTE];
      var u: Text := [QUOTE];
      assert s[1..] == t && t[1..] == u && u[1..] == [];
      assert WidenedAll(u) == u + WidenedAll([]);
      assert WidenedAll(t) == [0xC2, 0xA9] + u;
      assert WidenedAll(s) == [0xC3, 0x83] + WidenedAll(t);
    }
    assert Special(s[2]);
  }

  lemma {:induction false} PowersGrow(j: nat, k: nat)
    requires j <= k
    ensures 0 < PowerOfTwo(j) <= PowerOfTwo(k)
  {
    if j > 0 {
      PowersGrow(j - 1, k - 1);
    } else if k > 0 {
      PowersGrow(j, k - 1);
    }
  }

  lemma {:induction false} PowerSum(j: nat, k: nat)
    ensures PowerOfTwo(j + k) == PowerOfTwo(j) * PowerOfTwo(k)
  {
    if j > 0 {
      PowerSum(j - 1, k);
      TwiceProduct(PowerOfTwo(j - 1), PowerOfTwo(k));
    }
  }

  lemma TwiceProduct(x: nat, y: nat)
    ensures 2 * (x * y) == (2 * x) * y
  {
  }

  lemma ScaledOnce(n: int, k: nat)
    ensures Scaled(n, k + 1) == Scaled(10 * n, k)
    decreases k
  {
    if k > 0 {
      ScaledOnce(n, k - 1);
    }
  }

  /** Moving the point changes nothing: digits times ten and one power less are the same number. */
  lemma PointMoves(mantissa: nat, exponent: int)
    ensures Overflows(10 * mantissa, exponent - 1) <==> Overflows(mantissa, exponent)
  {
    if exponent > 0 {
      ScaledOnce(mantissa, exponent - 1);
    } else {
      assert Scaled(Overflow(), 1 - exponent) == 10 * Scaled(Overflow(), -exponent);
    }
  }

  lemma HalfWay(b: nat, e: nat)
    requires b < e
    ensures 2 * (PowerOfTwo(e) - PowerOfTwo(e - b - 1)) == (PowerOfTwo(b) - 1) * PowerOfTwo(e - b) + PowerOfTwo(e)
  {
    PowerSum(b, e - b);
    var p: int, q: int := PowerOfTwo(b), PowerOfTwo(e - b);
    assert q == 2 * PowerOfTwo(e - b - 1);
    assert (p - 1) * q == p * q - q;
  }

  /** The threshold lies half way between the largest double, which is 2^53 - 1 times 2^971, and 2^1024. */
  lemma OverflowIsHalfWay(b: nat, e: nat)
    requires b == 53 && e == 1024
    ensures 2 * Overflow() == (PowerOfTwo(b) - 1) * PowerOfTwo(e - b) + PowerOfTwo(e)
  {
    HalfWay(b, e);
    assert Overflow() == PowerOfTwo(e) - PowerOfTwo(e - b - 1);
  }

  /** Ten is more than two to the third. */
  lemma {:induction false} TensAgainstTwos(k: nat)
    ensures Scaled(1, k) >= PowerOfTwo(3 * k)
  {
    if k > 0 {
      TensAgainstTwos(k - 1);
      var n := 3 * k;
      assert PowerOfTwo(n) == 2 * PowerOfTwo(n - 1) && PowerOfTwo(n - 1) == 2 * PowerOfTwo(n - 2);
      assert PowerOfTwo(n - 2) == 2 * PowerOfTwo(n - 3);
    }
  }

  lemma TensOverflow(k: nat)
    requires k >= 342
    ensures Overflows(1, k)
  {
    TensAgainstTwos(k);
    PowersGrow(MAX_EXPONENT, 3 * k);
    PowersGrow(0, MAX_EXPONENT - 54);
  }

  /** The text 1e999. */
  const HUGE: Text := [49, 101, 57, 57, 57]

  lemma HugeParts()
    ensures NumberEnd(HUGE) == 5 && Convertible(HUGE)
  {
    DigitRunAt([49], [101, 57, 57, 57]);
    assert HUGE == [49] + [101, 57, 57, 57] && HUGE[0..] == HUGE;
    var d: Text := [57, 57, 57];
    DigitRunAt(d, []);
    assert HUGE[2..] == d == d + [];
  }

  lemma HugeConverts()
    ensures Converted(HUGE) == Infinite(false)
  {
    assert HUGE[1..] == [101, 57, 57, 57] && HUGE[1..][1..] == [57, 57, 57];
    assert HUGE[1..][1..][1..] == [57, 57] && HUGE[1..][1..][1..][1..] == [57];
    var one := BLANK.(mantissa := 1, exponential := true);
    assert Read(one.(exponent := 99), [57]) == one.(exponent := 999) by {
      assert [57][1..] == [];
    }
    assert Read(one.(exponent := 9), [57, 57]) == one.(exponent := 999);
    assert Read(one, [57, 57, 57]) == one.(exponent := 999);
    assert Read(BLANK.(mantissa := 1), HUGE[1..]) == one.(exponent := 999);
    TensOverflow(999);
  }

  /** The text 1e999 is accepted as a number, which prints as a text that is not. */
  lemma HugeNumberUnreadable()
    ensures Parse(HUGE) == Some(Infinite(false)) && Parse(Print(Infinite(false))) == None
  {
    HugeParts();
    HugeConverts();
    assert HUGE[..5] == HUGE;
    DispatchNumber(HUGE);
    assert Trimmed(HUGE) == HUGE;
    RoundTripIff(Infinite(false));
  }
}
