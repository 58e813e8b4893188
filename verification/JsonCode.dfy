/**
 * The JSON printer and parser as they run: a buffer that is appended to,
 * index loops over the input, and loops that collect items, each computing
 * what the functions of Json say.
 */
module JsonCode {
  import opened Bytes
  import opened Common
  import opened Json

  // ------------------------------------------------------------- printing

  function EscapedByte(b: byte): Text { if Special(b) then [BACKSLASH, b] else [b] }

  lemma {:induction false} EscapedSnoc(s: Text, b: byte)
    ensures Escaped(s + [b]) == Escaped(s) + EscapedByte(b)
  {
    if s == [] {
      assert s + [b] == [b] && [b][1..] == [];
    } else {
      assert (s + [b])[1..] == s[1..] + [b];
      EscapedSnoc(s[1..], b);
    }
  }

  lemma EscapedUpTo(s: Text, i: nat)
    requires i < |s|
    ensures Escaped(s[..i + 1]) == Escaped(s[..i]) + EscapedByte(s[i])
  {
    assert s[..i + 1] == s[..i] + [s[i]];
    EscapedSnoc(s[..i], s[i]);
  }

  lemma {:induction false} ItemsSnoc(xs: seq<JsonValue>, x: JsonValue)
    ensures PrintItems(xs + [x]) == (if xs == [] then [] else PrintItems(xs) + [COMMA]) + Print(x)
  {
    if xs == [] {
      assert xs + [x] == [x];
    } else {
      assert (xs + [x])[1..] == xs[1..] + [x];
      ItemsSnoc(xs[1..], x);
    }
  }

  lemma {:induction false} FieldsSnoc(fs: seq<(Text, JsonValue)>, f: (Text, JsonValue))
    ensures PrintFields(fs + [f]) == (if fs == [] then [] else PrintFields(fs) + [COMMA]) + PrintField(f)
  {
    if fs == [] {
      assert fs + [f] == [f];
    } else {
      assert (fs + [f])[1..] == fs[1..] + [f];
      FieldsSnoc(fs[1..], f);
    }
  }

  /** Between two items there is a comma, before the first there is none. */
  lemma ItemsUpTo(base: Text, xs: seq<JsonValue>, i: nat)
    requires i < |xs|
    ensures base + PrintItems(xs[..i]) + (if i == 0 then [] else [COMMA]) + Print(xs[i]) ==
            base + PrintItems(xs[..i + 1])
  {
    assert xs[..i + 1] == xs[..i] + [xs[i]];
    ItemsSnoc(xs[..i], xs[i]);
    Onto(base, PrintItems(xs[..i]), if i == 0 then [] else [COMMA], Print(xs[i]));
  }

  lemma Onto(base: Text, a: Text, b: Text, c: Text)
    ensures base + a + b + c == base + (a + b + c)
  {
  }

  lemma FieldsUpTo(base: Text, fs: seq<(Text, JsonValue)>, i: nat)
    requires i < |fs|
    ensures base + PrintFields(fs[..i]) + (if i == 0 then [] else [COMMA]) + PrintField(fs[i]) ==
            base + PrintFields(fs[..i + 1])
  {
    assert fs[..i + 1] == fs[..i] + [fs[i]];
    FieldsSnoc(fs[..i], fs[i]);
    Onto(base, PrintFields(fs[..i]), if i == 0 then [] else [COMMA], PrintField(fs[i]));
  }

  lemma SliceSnoc(s: Text, lo: nat, i: nat)
    requires lo <= i < |s|
    ensures s[lo..i + 1] == s[lo..i] + [s[i]]
  {
    assert s[lo..i + 1][..i - lo] == s[lo..i] && s[lo..i + 1][i - lo] == s[i];
  }

  /** The text buffer the printer pushes into. */
  class Out {
    var text: Text

    constructor ()
      ensures text == []
    {
      text := [];
    }

    /** Copies stretches between the characters to escape. */
    method WriteString(value: Text)
      modifies this
      ensures text == old(text) + Quoted(value)
    {
      text := text + [QUOTE];
      ghost var base := text;
      var start := 0;
      for i := 0 to |value|
        invariant start <= i
        invariant text + value[start..i] == base + Escaped(value[..i])
      {
        EscapedUpTo(value, i);
        if Special(value[i]) {
          Assoc(base, Escaped(value[..i]), [BACKSLASH, value[i]]);
          text := text + value[start..i];
          text := text + [BACKSLASH, value[i]];
          start := i + 1;
        } else {
          SliceSnoc(value, start, i);
          Assoc(text, value[start..i], [value[i]]);
          Assoc(base, Escaped(value[..i]), [value[i]]);
        }
      }
      assert value[..|value|] == value;
      text := text + value[start..];
      Assoc(old(text), [QUOTE], Escaped(value));
      Assoc(old(text), [QUOTE] + Escaped(value), [QUOTE]);
      text := text + [QUOTE];
    }

    method WriteItems(items: seq<JsonValue>)
      modifies this
      ensures text == old(text) + PrintItems(items)
      decreases items, 0
    {
      ghost var base := text;
      for i := 0 to |items|
        invariant text == base + PrintItems(items[..i])
      {
        ItemsUpTo(base, items, i);
        if i != 0 {
          text := text + [COMMA];
        }
        Write(items[i]);
      }
      assert items[..|items|] == items;
    }

    method WriteField(f: (Text, JsonValue))
      modifies this
      ensures text == old(text) + PrintField(f)
      decreases f, 0
    {
      WriteString(f.0);
      text := text + [COLON];
      Write(f.1);
      Assoc(old(text), Quoted(f.0), [COLON]);
      Assoc(old(text), Quoted(f.0) + [COLON], Print(f.1));
    }

    method WriteFields(fields: seq<(Text, JsonValue)>)
      modifies this
      ensures text == old(text) + PrintFields(fields)
      decreases fields, 0
    {
      ghost var base := text;
      for i := 0 to |fields|
        invariant text == base + PrintFields(fields[..i])
      {
        FieldsUpTo(base, fields, i);
        if i != 0 {
          text := text + [COMMA];
        }
        WriteField(fields[i]);
      }
      assert fields[..|fields|] == fields;
    }

    method Write(v: JsonValue)
      modifies this
      ensures text == old(text) + Print(v)
      decreases v, 1
    {
      match v {
        case Null => text := text + NULL;
        case Bool(b) => text := text + if b then TRUE else FALSE;
        case Number(n) => text := text + IntText(n);
        case Infinite(negative) => text := text + if negative then [MINUS] + INF else INF;
        case NotANumber => text := text + NAN;
        case Literal(t) => text := text + t;
        case String(s) => WriteString(s);
        case Array(items) =>
          text := text + [OPEN_ARRAY];
          WriteItems(items);
          text := text + [CLOSE_ARRAY];
          Nested(old(text), OPEN_ARRAY, PrintItems(items), CLOSE_ARRAY);
        case Object(fields) =>
          text := text + [OPEN_OBJECT];
          WriteFields(fields);
          text := text + [CLOSE_OBJECT];
          Nested(old(text), OPEN_OBJECT, PrintFields(fields), CLOSE_OBJECT);
      }
    }
  }

  lemma Nested(base: Text, open: byte, inner: Text, close: byte)
    ensures base + [open] + inner + [close] == base + ([open] + inner + [close])
  {
  }

  // -------------------------------------------------------------- parsing

  method SkipWs(input: Text) returns (r: Text)
    ensures r == SkipSpace(input)
  {
    var i := 0;
    while i < |input| && IsSpace(input[i])
      invariant i <= |input| && SkipSpace(input) == SkipSpace(input[i..])
    {
      i := i + 1;
    }
    r := input[i..];
  }

  /** Whether the string has an escape, and where it ends if it has none. */
  method FindQuote(input: Text) returns (i: nat, hasEscape: bool)
    requires input != [] && input[0] == QUOTE
    ensures var t := input[1..];
            var first := FirstSpecial(t);
            if hasEscape then first < |t| && t[first] == BACKSLASH
            else i == first + 1 && (first < |t| ==> t[first] == QUOTE)
  {
    i, hasEscape := 1, false;
    ghost var t := input[1..];
    while i < |input|
      invariant i >= 1
      invariant if hasEscape then FirstSpecial(t) < |t| && t[FirstSpecial(t)] == BACKSLASH
                else i <= |input| && forall j :: 0 <= j < i - 1 ==> !Special(t[j])
    {
      if input[i] == QUOTE {
        if !hasEscape {
          FirstSpecialAt(t, i - 1);
        }
        break;
      } else if input[i] == BACKSLASH {
        if !hasEscape {
          FirstSpecialAt(t, i - 1);
        }
        hasEscape := true;
        i := i + 2;
      } else {
        i := i + 1;
      }
    }
  }

  /** One escape, from the byte after the backslash: the bytes it adds and how many it takes. */
  method ReadEscape(input: Text, i: nat) returns (r: Option<(Text, nat)>)
    requires i < |input|
    ensures r == if input[i] != 117 then
                   match Unescaped(input[i]) { case None => None case Some(b) => Some(([b], 1)) }
                 else if i + 4 >= |input| then None
                 else match Hex4(input[i + 1..i + 5]) { case None => None case Some(cp) => Some((CodePoint(cp), 5)) }
  {
    if input[i] == 117 {
      if i + 4 >= |input| {
        return None;
      }
      var cp := Hex4(input[i + 1..i + 5]);
      return if cp.None? then None else Some((CodePoint(cp.value), 5));
    }
    var b := Unescaped(input[i]);
    return if b.None? then None else Some(([b.value], 1));
  }

  lemma DecodedEscape(input: Text, i: nat)
    requires i + 1 < |input| && input[i] == BACKSLASH
    ensures var s := input[i..];
            s[1] == input[i + 1] && s[2..] == input[i + 2..] &&
            (i + 5 < |input| ==> s[2..6] == input[i + 2..i + 6] && s[6..] == input[i + 6..])
  {
  }

  method DecodeString(input: Text) returns (r: Option<(Text, Text)>)
    requires input != []
    ensures r == Decoded(input[1..], [])
  {
    var i, s: Text := 1, [];
    while i < |input|
      invariant 1 <= i <= |input| && Decoded(input[i..], s) == Decoded(input[1..], [])
    {
      if input[i] == QUOTE {
        return Some((s, input[i + 1..]));
      } else if input[i] == BACKSLASH {
        if i + 1 >= |input| {
          return None;
        }
        DecodedEscape(input, i);
        var e := ReadEscape(input, i + 1);
        if e.None? {
          return None;
        }
        s := s + e.value.0;
        i := i + 1 + e.value.1;
      } else {
        s := s + Widened(input[i]);
        i := i + 1;
      }
    }
    return None;
  }

  method ParseString(input: Text) returns (r: Option<(Text, Text)>)
    ensures r == ReadString(input)
  {
    if input == [] || input[0] != QUOTE {
      return None;
    }
    var i, hasEscape := FindQuote(input);
    if hasEscape {
      r := DecodeString(input);
      return;
    }
    if i >= |input| {
      return None;
    }
    assert input[1..][..i - 1] == input[1..i] && input[1..][i..] == input[i + 1..];
    return Some((input[1..i], input[i + 1..]));
  }

  method SkipDigits(input: Text, start: nat) returns (i: nat)
    requires start <= |input|
    ensures i == start + DigitRun(input[start..])
  {
    i := start;
    while i < |input| && IsDigit(input[i])
      invariant start <= i <= |input| && start + DigitRun(input[start..]) == i + DigitRun(input[i..])
    {
      i := i + 1;
    }
  }

  /** The end of the exponent, from the end of the fraction. */
  method SkipExponent(input: Text, start: nat) returns (i: nat)
    requires start == FractionEnd(input)
    ensures i == NumberEnd(input)
  {
    i := start;
    if i < |input| && (input[i] == 101 || input[i] == 69) {
      i := i + 1;
      if i < |input| && (input[i] == PLUS || input[i] == MINUS) {
        i := i + 1;
      }
      i := SkipDigits(input, i);
    }
  }

  method ParseNumber(input: Text) returns (r: Option<(JsonValue, Text)>)
    ensures r == ReadNumber(input)
  {
    var i := 0;
    if i < |input| && input[i] == MINUS {
      i := i + 1;
    }
    i := SkipDigits(input, i);
    if i < |input| && input[i] == DOT {
      i := SkipDigits(input, i + 1);
    }
    i := SkipExponent(input, i);
    if i == 0 || !Convertible(input) {
      return None;
    }
    return Some((Converted(input[..i]), input[i..]));
  }

  method ParseArray(input: Text) returns (r: Option<(JsonValue, Text)>)
    requires input != [] && input[0] == OPEN_ARRAY
    ensures r == ReadValue(input)
    decreases |input|, 0
  {
    var rest := SkipWs(input[1..]);
    if rest != [] && rest[0] == CLOSE_ARRAY {
      return Some((Array([]), rest[1..]));
    }
    var items: seq<JsonValue> := [];
    assert ReadValue(input) == ReadItems(rest, []);
    while true
      invariant |rest| < |input| && ReadItems(rest, items) == ReadValue(input)
      decreases |rest|
    {
      rest := SkipWs(rest);
      var v := ParseValue(rest);
      if v.None? {
        return None;
      }
      items := items + [v.value.0];
      rest := SkipWs(v.value.1);
      if rest == [] {
        return None;
      } else if rest[0] == COMMA {
        rest := rest[1..];
      } else if rest[0] == CLOSE_ARRAY {
        return Some((Array(items), rest[1..]));
      } else {
        return None;
      }
    }
  }

  method ParseField(input: Text) returns (r: Option<((Text, JsonValue), Text)>)
    ensures r == ReadField(input)
    decreases |input|, 2
  {
    var rest := SkipWs(input);
    var key := ParseString(rest);
    if key.None? {
      return None;
    }
    rest := SkipWs(key.value.1);
    if rest == [] || rest[0] != COLON {
      return None;
    }
    rest := SkipWs(rest[1..]);
    var v := ParseValue(rest);
    if v.None? {
      return None;
    }
    return Some(((key.value.0, v.value.0), v.value.1));
  }

  method ParseObject(input: Text) returns (r: Option<(JsonValue, Text)>)
    requires input != [] && input[0] == OPEN_OBJECT
    ensures r == ReadValue(input)
    decreases |input|, 0
  {
    var rest := SkipWs(input[1..]);
    if rest != [] && rest[0] == CLOSE_OBJECT {
      return Some((Object([]), rest[1..]));
    }
    var fields: seq<(Text, JsonValue)> := [];
    assert ReadValue(input) == ReadFields(rest, []);
    while true
      invariant |rest| < |input| && ReadFields(rest, fields) == ReadValue(input)
      decreases |rest|
    {
      var f := ParseField(rest);
      if f.None? {
        return None;
      }
      fields := fields + [f.value.0];
      rest := SkipWs(f.value.1);
      if rest == [] {
        return None;
      } else if rest[0] == COMMA {
        rest := rest[1..];
      } else if rest[0] == CLOSE_OBJECT {
        return Some((Object(fields), rest[1..]));
      } else {
        return None;
      }
    }
  }

  lemma {:induction false} SpaceSkipped(s: Text)
    ensures SkipSpace(s) != [] ==> !IsSpace(SkipSpace(s)[0])
    ensures SkipSpace(SkipSpace(s)) == SkipSpace(s) && ReadValue(SkipSpace(s)) == ReadValue(s)
  {
    if s != [] && IsSpace(s[0]) {
      SpaceSkipped(s[1..]);
    }
  }

  method ParseValue(input: Text) returns (r: Option<(JsonValue, Text)>)
    ensures r == ReadValue(input)
    decreases |input|, 1
  {
    var t := SkipWs(input);
    if t == [] {
      return None;
    }
    SpaceSkipped(input);
    if t[0] == QUOTE {
      var s := ParseString(t);
      r := if s.None? then None else Some((String(s.value.0), s.value.1));
    } else if t[0] == OPEN_OBJECT {
      r := ParseObject(t);
    } else if t[0] == OPEN_ARRAY {
      r := ParseArray(t);
    } else if TRUE <= t {
      r := Some((Bool(true), t[4..]));
    } else if FALSE <= t {
      r := Some((Bool(false), t[5..]));
    } else if NULL <= t {
      r := Some((Null, t[4..]));
    } else {
      r := ParseNumber(t);
    }
  }

  method ParseText(input: Text) returns (r: Option<JsonValue>)
    ensures r == Parse(input)
  {
    var t := Trimmed(input);
    if t == [] {
      return None;
    }
    var v := ParseValue(t);
    if v.None? || !AllSpace(v.value.1) {
      return None;
    }
    return Some(v.value.0);
  }
}
