/**
 * The RESP wire format: the writers, the incremental parser over its
 * growing read buffer, and the read loop of a connection.
 *
 * A `Vec<u8>` is a sequence held in a field.  A parsed argument is the byte
 * string captured when the parser records it.
 */
module Resp {
  import opened Bytes
  import opened Common

  type Bytestring = seq<byte>
  type Command = seq<Bytestring>

  const CRLF: Bytestring := [13, 10]
  const STAR: byte := 42
  const DOLLAR: byte := 36
  const NL: byte := 10
  const MAX_ARRAY_ELEMENTS: nat := 1024
  const MAX_BULK_BYTES: nat := 512 * 1024 * 1024
  const USIZE_MAX: nat := 0xFFFF_FFFF_FFFF_FFFF

  // ---------------------------------------------------------------- writing

  /** One bulk string on the wire. */
  function Bulk(s: Bytestring): Bytestring {
    [DOLLAR] + Decimal(|s|) + CRLF + s + CRLF
  }

  function Bulks(items: Command): Bytestring {
    if items == [] then [] else Bulk(items[0]) + Bulks(items[1..])
  }

  /** One command, an array of bulk strings, on the wire. */
  function Encode(c: Command): Bytestring {
    [STAR] + Decimal(|c|) + CRLF + Bulks(c)
  }

  function EncodeAll(cs: seq<Command>): Bytestring {
    if cs == [] then [] else Encode(cs[0]) + EncodeAll(cs[1..])
  }

  function Reversed(s: Bytestring): Bytestring {
    if s == [] then [] else Reversed(s[1..]) + [s[0]]
  }

  lemma {:induction false} ReversedSnoc(s: Bytestring, b: byte)
    ensures Reversed(s + [b]) == [b] + Reversed(s)
  {
    if s != [] {
      assert (s + [b])[1..] == s[1..] + [b];
      ReversedSnoc(s[1..], b);
    } else {
      assert s + [b] == [b];
    }
  }

  lemma {:induction false} BulksSnoc(items: Command, s: Bytestring)
    ensures Bulks(items + [s]) == Bulks(items) + Bulk(s)
  {
    if items != [] {
      assert (items + [s])[1..] == items[1..] + [s];
      BulksSnoc(items[1..], s);
    } else {
      assert items + [s] == [s];
    }
  }

  lemma BulksUpTo(items: Command, i: nat)
    requires i < |items|
    ensures Bulks(items[..i + 1]) == Bulks(items[..i]) + Bulk(items[i])
  {
    assert items[..i + 1] == items[..i] + [items[i]];
    BulksSnoc(items[..i], items[i]);
  }

  lemma HeadThen(a: Bytestring, b: Bytestring, c: Bytestring, d: Bytestring, e: Bytestring)
    ensures a + b + c + d + e == a + (b + c + d + e)
  {
  }

  lemma ShortDecimal(n: nat)
    ensures n < 10 ==> Decimal(n) == [48 + n]
    ensures 10 <= n < 100 ==> Decimal(n) == [48 + n / 10, 48 + n % 10]
  {
    assert Digits(0) == [];
    if 10 <= n < 100 {
      assert Digits(n / 10) == Digits(0) + [48 + n / 10];
    }
  }

  /** The output buffer the writers append to. */
  class Out {
    var data: Bytestring

    constructor ()
      ensures data == []
    {
      data := [];
    }

    method WriteUsize(n: nat)
      modifies this
      ensures data == old(data) + Decimal(n)
    {
      if n == 0 {
        data := data + [48];
        return;
      }
      var start := |data|;
      ghost var pushed: Bytestring := [];
      var m := n;
      while m > 0
        invariant data == old(data) + pushed
        invariant Digits(n) == Digits(m) + Reversed(pushed)
      {
        data := data + [48 + m % 10];
        ReversedSnoc(pushed, 48 + m % 10);
        pushed := pushed + [48 + m % 10];
        m := m / 10;
      }
      assert data[start..] == pushed;
      data := data[..start] + Reversed(data[start..]);
    }

    method WriteBulkBytes(s: Bytestring)
      modifies this
      ensures data == old(data) + Bulk(s)
    {
      var len := |s|;
      ShortDecimal(len);
      if len < 10 {
        data := data + [DOLLAR] + [48 + len] + CRLF;
      } else if len < 100 {
        data := data + [DOLLAR] + [48 + len / 10, 48 + len % 10] + CRLF;
      } else {
        data := data + [DOLLAR];
        WriteUsize(len);
        data := data + CRLF;
      }
      HeadThen(old(data), [DOLLAR], Decimal(len), CRLF, s + CRLF);
      data := data + (s + CRLF);
      Assoc([DOLLAR] + Decimal(len) + CRLF, s, CRLF);
    }

    method WriteArrayHeader(len: nat)
      modifies this
      ensures data == old(data) + [STAR] + Decimal(len) + CRLF
    {
      data := data + [STAR];
      WriteUsize(len);
      data := data + CRLF;
    }

    method WriteArray(items: Command)
      modifies this
      ensures data == old(data) + Encode(items)
    {
      WriteArrayHeader(|items|);
      ghost var head := data;
      for i := 0 to |items|
        invariant data == head + Bulks(items[..i])
      {
        WriteBulkBytes(items[i]);
        BulksUpTo(items, i);
        Assoc(head, Bulks(items[..i]), Bulk(items[i]));
      }
      assert items[..|items|] == items;
      HeadThen(old(data), [STAR], Decimal(|items|), CRLF, Bulks(items));
    }
  }

  // ---------------------------------------------------- what a stream means

  /** The first newline, or the length when there is none. */
  function Newline(s: Bytestring): (r: nat)
    ensures r <= |s|
    ensures r < |s| ==> s[r] == NL
    ensures forall i :: 0 <= i < r ==> s[i] != NL
  {
    if s == [] || s[0] == NL then 0 else 1 + Newline(s[1..])
  }

  /** The number that a length field denotes, if it denotes one within the limit. */
  function Length(s: Bytestring, max: nat): Option<nat> {
    if s == [] || !AllDigits(s) || Value(s) > max then None else Some(Value(s))
  }

  datatype Header = NeedMore | Malformed | Overrun | Count(n: nat, rest: Bytestring)

  /**
   * A header line: the mark, a length, one ignored byte, a newline.  Overrun
   * is the slice whose end lies before its start.
   */
  function ReadHeader(s: Bytestring, mark: byte, max: nat): (r: Header)
    ensures r.Count? ==> |r.rest| < |s| && r.n <= max
  {
    var nl := Newline(s);
    if nl == |s| then NeedMore
    else if s[0] != mark || nl == 0 then Malformed
    else if nl == 1 then Overrun
    else
      match Length(s[1..nl - 1], max)
      case None => Malformed
      case Some(n) => Count(n, s[nl + 1..])
  }

  datatype Outcome = Complete(parts: Command, rest: Bytestring) | Incomplete | Error | Panic

  /** One bulk string: its header, its bytes, and two more that are not looked at. */
  function ReadBulk(s: Bytestring): (r: Outcome)
    ensures r.Complete? ==> |r.parts| == 1 && |r.rest| < |s|
  {
    match ReadHeader(s, DOLLAR, MAX_BULK_BYTES)
    case NeedMore => Incomplete
    case Malformed => Error
    case Overrun => Panic
    case Count(n, rest) =>
      if |rest| < n + 2 then Incomplete
      else Complete([rest[..n]], rest[n + 2..])
  }

  /** Reading `count` more bulk strings after those in `parts`. */
  function ReadBulks(s: Bytestring, count: nat, parts: Command): (r: Outcome)
    ensures r.Complete? ==> |r.rest| <= |s|
    decreases count
  {
    if count == 0 then Complete(parts, s)
    else
      var b := ReadBulk(s);
      if b.Complete? then ReadBulks(b.rest, count - 1, parts + b.parts) else b
  }

  predicate Leads(s: Bytestring, count: nat, parts: Command, r: Outcome) {
    ReadBulks(s, count, parts) == r
  }

  lemma LeadsOnce(s: Bytestring, count: nat, parts: Command, r: Outcome)
    requires Leads(s, count, parts, r) && count > 0
    ensures var b := ReadBulk(s);
            if b.Complete? then Leads(b.rest, count - 1, parts + b.parts, r) else b == r
  {
  }

  /** What the unread bytes say: a command and what follows it, or why there is none. */
  function Parse(s: Bytestring): (r: Outcome)
    ensures r.Complete? ==> |r.rest| < |s|
  {
    match ReadHeader(s, STAR, MAX_ARRAY_ELEMENTS)
    case NeedMore => Incomplete
    case Malformed => Error
    case Overrun => Panic
    case Count(n, rest) => ReadBulks(rest, n, [])
  }

  // ------------------------------------------ more input changes no verdict

  lemma {:induction false} NewlineStable(s: Bytestring, t: Bytestring)
    requires Newline(s) < |s|
    ensures Newline(s + t) == Newline(s)
  {
    if s[0] != NL {
      assert (s + t)[1..] == s[1..] + t;
      NewlineStable(s[1..], t);
    }
  }

  lemma HeaderStable(s: Bytestring, t: Bytestring, mark: byte, max: nat)
    requires !ReadHeader(s, mark, max).NeedMore?
    ensures var h := ReadHeader(s, mark, max);
            ReadHeader(s + t, mark, max) == if h.Count? then Count(h.n, h.rest + t) else h
  {
    NewlineStable(s, t);
    var nl := Newline(s);
    if nl > 1 {
      assert (s + t)[1..nl - 1] == s[1..nl - 1];
    }
    assert (s + t)[nl + 1..] == s[nl + 1..] + t;
  }

  function Followed(o: Outcome, t: Bytestring): Outcome {
    if o.Complete? then Complete(o.parts, o.rest + t) else o
  }

  lemma BulkStable(s: Bytestring, t: Bytestring)
    requires !ReadBulk(s).Incomplete?
    ensures ReadBulk(s + t) == Followed(ReadBulk(s), t)
  {
    HeaderStable(s, t, DOLLAR, MAX_BULK_BYTES);
    var h := ReadHeader(s, DOLLAR, MAX_BULK_BYTES);
    if h.Count? {
      assert (h.rest + t)[..h.n] == h.rest[..h.n];
      assert (h.rest + t)[h.n + 2..] == h.rest[h.n + 2..] + t;
    }
  }

  lemma {:induction false} BulksStable(s: Bytestring, t: Bytestring, count: nat, parts: Command)
    requires !ReadBulks(s, count, parts).Incomplete?
    ensures ReadBulks(s + t, count, parts) == Followed(ReadBulks(s, count, parts), t)
    decreases count
  {
    if count > 0 {
      BulkStable(s, t);
      var b := ReadBulk(s);
      if b.Complete? {
        BulksStable(b.rest, t, count - 1, parts + b.parts);
      }
    }
  }

  /** A verdict other than "incomplete" does not depend on what arrives later. */
  lemma ParseStable(s: Bytestring, t: Bytestring)
    requires !Parse(s).Incomplete?
    ensures Parse(s + t) == Followed(Parse(s), t)
  {
    HeaderStable(s, t, STAR, MAX_ARRAY_ELEMENTS);
    var h := ReadHeader(s, STAR, MAX_ARRAY_ELEMENTS);
    if h.Count? {
      BulksStable(h.rest, t, h.n, []);
    }
  }

  // --------------------------------------------------- encoded commands

  predicate BulksFit(c: Command) { forall i :: 0 <= i < |c| ==> |c[i]| <= MAX_BULK_BYTES }

  predicate WithinLimits(c: Command) { |c| <= MAX_ARRAY_ELEMENTS && BulksFit(c) }

  lemma {:induction false} NewlineAt(s: Bytestring, k: nat)
    requires k < |s| && s[k] == NL && forall i :: 0 <= i < k ==> s[i] != NL
    ensures Newline(s) == k
  {
  }

  lemma HeaderEncoded(mark: byte, n: nat, max: nat, rest: Bytestring)
    requires mark != NL
    ensures ReadHeader([mark] + Decimal(n) + CRLF + rest, mark, max) ==
            if n <= max then Count(n, rest) else Malformed
  {
    DecimalValue(n);
    HeaderOf(mark, Decimal(n), max, rest);
  }

  lemma HeaderOf(mark: byte, d: Bytestring, max: nat, rest: Bytestring)
    requires mark != NL && d != [] && AllDigits(d)
    ensures ReadHeader([mark] + d + CRLF + rest, mark, max) ==
            if Value(d) <= max then Count(Value(d), rest) else Malformed
  {
    var s := [mark] + d + CRLF + rest;
    NewlineAt(s, |d| + 2);
    assert s[1..|d| + 1] == d;
    assert s[|d| + 3..] == rest;
  }

  lemma BulkEncoded(x: Bytestring, rest: Bytestring)
    ensures ReadBulk(Bulk(x) + rest) == if |x| <= MAX_BULK_BYTES then Complete([x], rest) else Error
  {
    var after := x + CRLF + rest;
    assert Bulk(x) + rest == [DOLLAR] + Decimal(|x|) + CRLF + after;
    HeaderEncoded(DOLLAR, |x|, MAX_BULK_BYTES, after);
    assert after[..|x|] == x;
    assert after[|x| + 2..] == rest;
  }

  lemma {:induction false} BulksEncoded(c: Command, parts: Command, rest: Bytestring)
    ensures ReadBulks(Bulks(c) + rest, |c|, parts) == if BulksFit(c) then Complete(parts + c, rest) else Error
  {
    if c == [] {
      assert Bulks(c) + rest == rest && parts + c == parts;
    } else {
      var x, xs := c[0], c[1..];
      assert BulksFit(c) <==> |x| <= MAX_BULK_BYTES && BulksFit(xs) by {
        assert c == [x] + xs;
      }
      BulksEncoded(xs, parts + [x], rest);
      BulkEncoded(x, Bulks(xs) + rest);
      Assoc(Bulk(x), Bulks(xs), rest);
      Pieces(parts, c, 1);
      assert c[..1] == [x];
    }
  }

  /** The parser undoes the writer, whatever follows, exactly for commands within the limits. */
  lemma ParseEncoded(c: Command, rest: Bytestring)
    ensures Parse(Encode(c) + rest) == if WithinLimits(c) then Complete(c, rest) else Error
  {
    assert Encode(c) + rest == [STAR] + Decimal(|c|) + CRLF + (Bulks(c) + rest);
    HeaderEncoded(STAR, |c|, MAX_ARRAY_ELEMENTS, Bulks(c) + rest);
    BulksEncoded(c, [], rest);
    assert [] + c == c;
  }

  lemma FollowedLeftover(o: Outcome, t: Bytestring)
    requires t != []
    ensures forall c :: Followed(o, t) != Complete(c, [])
  {
    if o.Complete? {
      assert |o.rest + t| > 0;
    }
  }

  /** Part of a command is always "incomplete", never an error or another command. */
  lemma ParseTruncated(c: Command, k: nat)
    requires WithinLimits(c) && k < |Encode(c)|
    ensures Parse(Encode(c)[..k]).Incomplete?
  {
    var s, t := Encode(c)[..k], Encode(c)[k..];
    assert s + t == Encode(c) == Encode(c) + [];
    ParseEncoded(c, []);
    FollowedLeftover(Parse(s), t);
    if !Parse(s).Incomplete? {
      ParseStable(s, t);
    }
  }

  // --------------------------------------- everything that is accepted

  /** A header line as it may stand on the wire: digits, leading zeros and all,
      any byte but a newline, and a newline. */
  datatype Line = Line(digits: Bytestring, ignored: byte)

  predicate ValidLine(l: Line, n: nat) {
    l.digits != [] && AllDigits(l.digits) && Value(l.digits) == n && l.ignored != 10
  }

  function LineText(mark: byte, l: Line): Bytestring { [mark] + l.digits + [l.ignored, 10] }

  /** A bulk string on the wire: its line, and the two bytes after its own. */
  datatype WireBulk = WireBulk(line: Line, y: byte, z: byte)

  predicate ValidBulk(b: WireBulk, part: Bytestring) { ValidLine(b.line, |part|) && |part| <= 536870912 }

  function BulkText(b: WireBulk, part: Bytestring): Bytestring { LineText(36, b.line) + (part + [b.y, b.z]) }

  predicate ValidBulks(bs: seq<WireBulk>, parts: Command) {
    |bs| == |parts| && forall i :: 0 <= i < |bs| ==> ValidBulk(bs[i], parts[i])
  }

  function BulksText(bs: seq<WireBulk>, parts: Command): Bytestring
    requires |bs| == |parts|
  {
    if bs == [] then [] else BulkText(bs[0], parts[0]) + BulksText(bs[1..], parts[1..])
  }

  /** A command on the wire. */
  datatype Wire = Wire(line: Line, bulks: seq<WireBulk>)

  predicate ValidWire(w: Wire, parts: Command) {
    ValidLine(w.line, |parts|) && |parts| <= 1024 && ValidBulks(w.bulks, parts)
  }

  function WireText(w: Wire, parts: Command): Bytestring
    requires |w.bulks| == |parts|
  {
    LineText(42, w.line) + BulksText(w.bulks, parts)
  }

  lemma LineRead(mark: byte, l: Line, n: nat, max: nat, rest: Bytestring)
    requires ValidLine(l, n) && n <= max && mark != NL
    ensures ReadHeader(LineText(mark, l) + rest, mark, max) == Count(n, rest)
  {
    var s, k := LineText(mark, l) + rest, |l.digits|;
    NewlineAt(s, k + 2);
    assert s[1..k + 1] == l.digits && s[k + 3..] == rest;
  }

  lemma LineFound(s: Bytestring, mark: byte, max: nat) returns (l: Line)
    requires ReadHeader(s, mark, max).Count?
    ensures var h := ReadHeader(s, mark, max);
            ValidLine(l, h.n) && h.n <= max && s == LineText(mark, l) + h.rest
  {
    var nl := Newline(s);
    l := Line(s[1..nl - 1], s[nl - 1]);
    assert s == [s[0]] + s[1..nl - 1] + [s[nl - 1], s[nl]] + s[nl + 1..];
  }

  lemma BulkRead(b: WireBulk, part: Bytestring, rest: Bytestring)
    requires ValidBulk(b, part)
    ensures ReadBulk(BulkText(b, part) + rest) == Complete([part], rest)
  {
    var after := part + [b.y, b.z] + rest;
    Assoc(LineText(36, b.line), part + [b.y, b.z], rest);
    LineRead(DOLLAR, b.line, |part|, MAX_BULK_BYTES, after);
    assert after[..|part|] == part && after[|part| + 2..] == rest;
  }

  lemma BulkFound(s: Bytestring) returns (b: WireBulk)
    requires ReadBulk(s).Complete?
    ensures var o := ReadBulk(s);
            ValidBulk(b, o.parts[0]) && o.parts == [o.parts[0]] && s == BulkText(b, o.parts[0]) + o.rest
  {
    var l := LineFound(s, DOLLAR, MAX_BULK_BYTES);
    var h := ReadHeader(s, DOLLAR, MAX_BULK_BYTES);
    b := WireBulk(l, h.rest[h.n], h.rest[h.n + 1]);
    var part := h.rest[..h.n];
    assert h.rest == part + [b.y, b.z] + h.rest[h.n + 2..];
    Assoc(LineText(36, l), part + [b.y, b.z], h.rest[h.n + 2..]);
  }

  lemma BulksOnce(s: Bytestring, count: nat, acc: Command, part: Bytestring, rest: Bytestring)
    requires count > 0 && ReadBulk(s) == Complete([part], rest)
    ensures ReadBulks(s, count, acc) == ReadBulks(rest, count - 1, acc + [part])
  {
  }

  lemma BulksSplit(b: WireBulk, part: Bytestring, bs: seq<WireBulk>, parts: Command, rest: Bytestring)
    requires |bs| == |parts|
    ensures BulksText([b] + bs, [part] + parts) + rest == BulkText(b, part) + (BulksText(bs, parts) + rest)
    ensures ValidBulks([b] + bs, [part] + parts) <==> ValidBulk(b, part) && ValidBulks(bs, parts)
  {
    var cs, ps := [b] + bs, [part] + parts;
    assert cs[1..] == bs && ps[1..] == parts;
    Assoc(BulkText(b, part), BulksText(bs, parts), rest);
    if ValidBulks(cs, ps) {
      assert ValidBulk(cs[0], ps[0]);
      forall i | 0 <= i < |bs| ensures ValidBulk(bs[i], parts[i]) {
        assert ValidBulk(cs[i + 1], ps[i + 1]);
      }
    }
  }

  lemma {:induction false} BulksRead(bs: seq<WireBulk>, parts: Command, acc: Command, rest: Bytestring)
    requires ValidBulks(bs, parts)
    ensures ReadBulks(BulksText(bs, parts) + rest, |parts|, acc) == Complete(acc + parts, rest)
    decreases |bs|
  {
    if bs == [] {
      assert BulksText(bs, parts) + rest == rest && acc + parts == acc;
    } else {
      var more := BulksText(bs[1..], parts[1..]) + rest;
      assert bs == [bs[0]] + bs[1..] && parts == [parts[0]] + parts[1..];
      BulksSplit(bs[0], parts[0], bs[1..], parts[1..], rest);
      BulkRead(bs[0], parts[0], more);
      BulksOnce(BulksText(bs, parts) + rest, |parts|, acc, parts[0], more);
      BulksRead(bs[1..], parts[1..], acc + [parts[0]], rest);
      Assoc(acc, [parts[0]], parts[1..]);
    }
  }

  lemma {:induction false} BulksFound(s: Bytestring, count: nat, acc: Command, o: Outcome)
    returns (bs: seq<WireBulk>, parts: Command)
    requires ReadBulks(s, count, acc) == o && o.Complete?
    ensures o.parts == acc + parts && |parts| == count && ValidBulks(bs, parts) && s == BulksText(bs, parts) + o.rest
    decreases count
  {
    if count == 0 {
      bs, parts := [], [];
      assert acc + [] == acc && [] + s == s;
    } else {
      var b, part, rest := FirstBulkFound(s, count, acc);
      var bs', parts' := BulksFound(rest, count - 1, acc + [part], o);
      bs, parts := [b] + bs', [part] + parts';
      OneBulkMore(b, part, bs', parts', acc, o.rest);
    }
  }

  lemma OneBulkMore(b: WireBulk, part: Bytestring, bs: seq<WireBulk>, parts: Command, acc: Command, rest: Bytestring)
    requires ValidBulk(b, part) && ValidBulks(bs, parts)
    ensures ValidBulks([b] + bs, [part] + parts) && acc + [part] + parts == acc + ([part] + parts)
    ensures BulksText([b] + bs, [part] + parts) + rest == BulkText(b, part) + (BulksText(bs, parts) + rest)
  {
    BulksSplit(b, part, bs, parts, rest);
    Assoc(acc, [part], parts);
  }

  lemma FirstBulkFound(s: Bytestring, count: nat, acc: Command)
    returns (b: WireBulk, part: Bytestring, rest: Bytestring)
    requires count > 0 && ReadBulks(s, count, acc).Complete?
    ensures ValidBulk(b, part) && s == BulkText(b, part) + rest
    ensures ReadBulks(s, count, acc) == ReadBulks(rest, count - 1, acc + [part])
  {
    b := BulkFound(s);
    part, rest := ReadBulk(s).parts[0], ReadBulk(s).rest;
    BulksOnce(s, count, acc, part, rest);
  }

  /** The bytes hold the command on the wire and then the rest. */
  ghost predicate OnWire(s: Bytestring, parts: Command, rest: Bytestring) {
    exists w :: ValidWire(w, parts) && s == WireText(w, parts) + rest
  }

  /**
   * The parser accepts exactly the commands on the wire: an array line and as
   * many bulk strings as it says, each as long as its line says.
   */
  lemma ParseIff(s: Bytestring, parts: Command, rest: Bytestring)
    ensures Parse(s) == Complete(parts, rest) <==> OnWire(s, parts, rest)
  {
    if OnWire(s, parts, rest) {
      var w :| ValidWire(w, parts) && s == WireText(w, parts) + rest;
      Assoc(LineText(42, w.line), BulksText(w.bulks, parts), rest);
      LineRead(STAR, w.line, |parts|, MAX_ARRAY_ELEMENTS, BulksText(w.bulks, parts) + rest);
      BulksRead(w.bulks, parts, [], rest);
      assert [] + parts == parts;
    }
    if Parse(s) == Complete(parts, rest) {
      var l := LineFound(s, STAR, MAX_ARRAY_ELEMENTS);
      var h := ReadHeader(s, STAR, MAX_ARRAY_ELEMENTS);
      var bs, found := BulksFound(h.rest, h.n, [], Parse(s));
      assert [] + found == found;
      Assoc(LineText(42, l), BulksText(bs, found), rest);
      assert ValidWire(Wire(l, bs), parts) && s == WireText(Wire(l, bs), parts) + rest;
    }
  }

  // ------------------------------------------------------ whole connections

  datatype Session = Session(commands: seq<Command>, rest: Bytestring, open: bool)

  /** Parsing as long as commands are complete. */
  function Drain(s: Bytestring): (r: Session)
    decreases |s|
  {
    match Parse(s)
    case Complete(parts, rest) =>
      var d := Drain(rest);
      Session([parts] + d.commands, d.rest, d.open)
    case Incomplete => Session([], s, true)
    case _ => Session([], s, false)
  }

  /** Draining `all` gives `commands` and then what draining `left` gives. */
  predicate Resumes(all: Bytestring, commands: seq<Command>, left: Bytestring) {
    var d := Drain(left);
    Drain(all) == Session(commands + d.commands, d.rest, d.open)
  }

  lemma DrainOnce(all: Bytestring, commands: seq<Command>, left: Bytestring)
    requires Resumes(all, commands, left)
    ensures var p := Parse(left);
            if p.Complete? then Resumes(all, commands + [p.parts], p.rest)
            else Drain(all) == Session(commands, left, p.Incomplete?)
  {
    var p := Parse(left);
    if p.Complete? {
      Assoc(commands, [p.parts], Drain(p.rest).commands);
    }
  }

  /** Draining in two goes finds what draining at once finds. */
  lemma {:induction false} DrainSplit(s: Bytestring, t: Bytestring)
    ensures var a := Drain(s);
            a.open ==> var b := Drain(a.rest + t);
                       Drain(s + t) == Session(a.commands + b.commands, b.rest, b.open)
    ensures !Drain(s).open ==> Drain(s + t).commands == Drain(s).commands && !Drain(s + t).open
    decreases |s|
  {
    var p := Parse(s);
    if !p.Incomplete? {
      ParseStable(s, t);
    }
    if p.Complete? {
      var d := Drain(p.rest);
      DrainSplit(p.rest, t);
      Assoc([p.parts], d.commands, Drain(d.rest + t).commands);
    }
  }

  /** The commands dispatched when the bytes come in the given bursts. */
  function Received(unread: Bytestring, bursts: seq<Bytestring>): (r: Session)
    decreases |bursts|
  {
    if bursts == [] then Session([], unread, true)
    else
      var d := Drain(unread + bursts[0]);
      if !d.open then d
      else
        var rest := Received(d.rest, bursts[1..]);
        Session(d.commands + rest.commands, rest.rest, rest.open)
  }

  function Flatten(bursts: seq<Bytestring>): Bytestring {
    if bursts == [] then [] else bursts[0] + Flatten(bursts[1..])
  }

  lemma {:induction false} ReceivedIsDrain(unread: Bytestring, bursts: seq<Bytestring>)
    requires Drain(unread) == Session([], unread, true)
    ensures Received(unread, bursts).commands == Drain(unread + Flatten(bursts)).commands
    ensures Received(unread, bursts).open == Drain(unread + Flatten(bursts)).open
    ensures Received(unread, bursts).open ==> Received(unread, bursts) == Drain(unread + Flatten(bursts))
    decreases |bursts|
  {
    if bursts == [] {
      assert unread + Flatten(bursts) == unread;
    } else {
      var first := unread + bursts[0];
      var d := Drain(first);
      DrainSplit(first, Flatten(bursts[1..]));
      Assoc(unread, bursts[0], Flatten(bursts[1..]));
      if d.open {
        DrainSettles(first);
        ReceivedIsDrain(d.rest, bursts[1..]);
      }
    }
  }

  lemma {:induction false} DrainSettles(s: Bytestring)
    requires Drain(s).open
    ensures Drain(Drain(s).rest) == Session([], Drain(s).rest, true)
    decreases |s|
  {
    if Parse(s).Complete? {
      DrainSettles(Parse(s).rest);
    }
  }

  /** Any stream, well formed or not, means the same however it is cut into bursts. */
  lemma ChunkingIrrelevant(a: seq<Bytestring>, b: seq<Bytestring>)
    requires Flatten(a) == Flatten(b)
    ensures Received([], a).commands == Received([], b).commands
    ensures Received([], a).open == Received([], b).open
    ensures Received([], a).open ==> Received([], a) == Received([], b)
  {
    assert Drain([]) == Session([], [], true);
    ReceivedIsDrain([], a);
    ReceivedIsDrain([], b);
  }

  lemma DrainFirst(c: Command, rest: Bytestring)
    requires WithinLimits(c)
    ensures var d := Drain(rest); Drain(Encode(c) + rest) == Session([c] + d.commands, d.rest, d.open)
  {
    ParseEncoded(c, rest);
  }

  predicate AllWithin(cs: seq<Command>) { forall i :: 0 <= i < |cs| ==> WithinLimits(cs[i]) }

  lemma FirstAndRest<T>(xs: seq<T>, ys: seq<T>)
    requires xs != []
    ensures [xs[0]] + (xs[1..] + ys) == xs + ys
  {
  }

  lemma EncodedFirst(cs: seq<Command>, tail: Bytestring)
    requires cs != [] && AllWithin(cs)
    ensures EncodeAll(cs) + tail == Encode(cs[0]) + (EncodeAll(cs[1..]) + tail)
    ensures WithinLimits(cs[0]) && AllWithin(cs[1..])
  {
    Assoc(Encode(cs[0]), EncodeAll(cs[1..]), tail);
  }

  /** Draining written commands and a tail finds the commands and then what draining the tail finds. */
  lemma {:induction false} DrainAfter(cs: seq<Command>, tail: Bytestring, d: Session)
    requires AllWithin(cs) && Drain(tail) == d
    ensures Drain(EncodeAll(cs) + tail) == Session(cs + d.commands, d.rest, d.open)
    decreases |cs|
  {
    if cs == [] {
      assert EncodeAll(cs) + tail == tail && cs + d.commands == d.commands;
    } else {
      EncodedFirst(cs, tail);
      DrainAfter(cs[1..], tail, d);
      DrainFirst(cs[0], EncodeAll(cs[1..]) + tail);
      FirstAndRest(cs, d.commands);
    }
  }

  lemma DrainEncoded(cs: seq<Command>, tail: Bytestring)
    requires forall i :: 0 <= i < |cs| ==> WithinLimits(cs[i])
    requires Parse(tail).Incomplete?
    ensures Drain(EncodeAll(cs) + tail) == Session(cs, tail, true)
  {
    DrainAfter(cs, tail, Session([], tail, true));
    assert cs + [] == cs;
  }

  /** Bytes that are no command close the connection, after the commands before them. */
  lemma ErrorCloses(cs: seq<Command>, bad: Bytestring)
    requires forall i :: 0 <= i < |cs| ==> WithinLimits(cs[i])
    requires Parse(bad).Error?
    ensures Drain(EncodeAll(cs) + bad) == Session(cs, bad, false)
  {
    DrainAfter(cs, bad, Session([], bad, false));
    assert cs + [] == cs;
  }

  /** A line that does not start with a star is such bytes. */
  lemma WrongMarkIsError(s: Bytestring)
    requires Newline(s) < |s| && s[0] != 42
    ensures Parse(s).Error?
  {
  }

  /**
   * Commands within the limits, written one after another and followed by k
   * bytes of one more, arrive exactly and in order through any bursts.
   */
  lemma CommandsArrive(cs: seq<Command>, next: Command, k: nat, bursts: seq<Bytestring>)
    requires forall i :: 0 <= i < |cs| ==> WithinLimits(cs[i])
    requires WithinLimits(next) && k < |Encode(next)|
    requires Flatten(bursts) == EncodeAll(cs) + Encode(next)[..k]
    ensures Received([], bursts) == Session(cs, Encode(next)[..k], true)
  {
    assert Drain([]) == Session([], [], true);
    ParseTruncated(next, k);
    DrainEncoded(cs, Encode(next)[..k]);
    ReceivedIsDrain([], bursts);
    assert [] + Flatten(bursts) == Flatten(bursts);
  }

  // ---------------------------------------------------------- the parser

  lemma {:induction false} ValueGrows(s: Bytestring, k: nat)
    requires AllDigits(s) && k <= |s|
    ensures Value(s[..k]) <= Value(s)
    decreases |s|
  {
    if k < |s| {
      ValueGrows(s[..|s| - 1], k);
      assert s[..|s| - 1][..k] == s[..k];
    } else {
      assert s[..k] == s;
    }
  }

  lemma SliceOfSlice(s: Bytestring, lo: nat, hi: nat, i: nat, j: nat)
    requires lo <= hi <= |s| && i <= j <= hi - lo
    ensures s[lo..hi][i..j] == s[lo + i..lo + j]
  {
    forall k | 0 <= k < j - i ensures s[lo..hi][i..j][k] == s[lo + i..lo + j][k] {
      assert s[lo..hi][i + k] == s[lo + i + k];
    }
  }

  lemma Pieces<T>(before: seq<T>, left: seq<T>, n: nat)
    requires n <= |left|
    ensures before + left[..n] + left[n..] == before + left
  {
    assert left[..n] + left[n..] == left;
    Assoc(before, left[..n], left[n..]);
  }

  lemma TooBig(s: Bytestring, k: nat, max: nat)
    requires k <= |s| && AllDigits(s[..k]) && Value(s[..k]) > max
    ensures Length(s, max).None?
  {
    if AllDigits(s) {
      ValueGrows(s, k);
    }
  }

  /** Overflow of the machine word is refused like any value above the limit. */
  method ParseUsize(s: Bytestring, max: nat) returns (r: Option<nat>)
    requires max <= USIZE_MAX
    ensures r == Length(s, max)
  {
    if |s| == 0 {
      return None;
    }
    var n := 0;
    if |s| <= 3 {
      for i := 0 to |s|
        invariant AllDigits(s[..i]) && n == Value(s[..i])
      {
        if !IsDigit(s[i]) {
          return None;
        }
        assert s[..i + 1][..i] == s[..i];
        n := n * 10 + (s[i] - 48);
      }
      assert s[..|s|] == s;
      if n > max {
        return None;
      }
      return Some(n);
    }
    for i := 0 to |s|
      invariant AllDigits(s[..i]) && n == Value(s[..i]) && n <= max
    {
      if !IsDigit(s[i]) {
        return None;
      }
      assert s[..i + 1][..i] == s[..i];
      n := n * 10 + (s[i] - 48);
      if n > USIZE_MAX || n > max {
        TooBig(s, i + 1, max);
        return None;
      }
    }
    assert s[..|s|] == s;
    return Some(n);
  }

  /** A read buffer above this size is given back when it is drained. */
  const OVERSIZED: nat := 16 * 1024

  /** The parts lie in the buffer where the spans say. */
  ghost predicate Found(buf: Bytestring, spans: seq<(nat, nat)>, parts: Command) {
    |spans| == |parts| &&
    forall i :: 0 <= i < |spans| ==>
      spans[i].0 + spans[i].1 <= |buf| && parts[i] == buf[spans[i].0..spans[i].0 + spans[i].1]
  }

  lemma FoundOneMore(buf: Bytestring, spans: seq<(nat, nat)>, parts: Command, span: (nat, nat), more: Command)
    requires Found(buf, spans, parts) && Found(buf, [span], more)
    ensures Found(buf, spans + [span], parts + more)
  {
  }

  class RespParser {
    var rbuf: Bytestring
    var filled: nat
    var pos: nat
    var parts: Command
    var spans: seq<(nat, nat)>  // where the parts were found: start and length
    var allocation: nat         // which block of memory the buffer is

    ghost predicate Valid()
      reads this
    {
      pos <= filled <= |rbuf| && |rbuf| >= 2048
    }

    /** The bytes received and not yet parsed. */
    ghost function Unread(): Bytestring
      requires Valid()
      reads this
    {
      rbuf[pos..filled]
    }

    constructor ()
      ensures Valid() && Unread() == []
    {
      rbuf := seq(2048, _ => 0);
      filled := 0;
      pos := 0;
      parts := [];
      spans := [];
      allocation := 0;
    }

    /** Makes room: the caller may write into rbuf[filled..]. */
    method ReadBuf()
      requires Valid()
      modifies this
      ensures Valid() && Unread() == old(Unread())
      ensures |rbuf| - filled >= 1024
    {
      if |rbuf| - filled < 1024 {
        if pos > 0 {
          rbuf := rbuf[pos..filled] + rbuf[filled - pos..];
          filled := filled - pos;
          pos := 0;
        }
        if |rbuf| - filled < 1024 {
          rbuf := rbuf + seq(|rbuf|, _ => 0);
          allocation := allocation + 1;
        }
      }
    }

    /** The socket has put `bytes` into the free part of the buffer. */
    method DidFill(bytes: Bytestring)
      requires Valid() && |bytes| <= |rbuf| - filled
      modifies this
      ensures Valid() && Unread() == old(Unread()) + bytes
    {
      rbuf := rbuf[..filled] + bytes + rbuf[filled + |bytes|..];
      filled := filled + |bytes|;
    }

    /** The next line, as start and end; the byte before the newline is not part of it. */
    method ScanLine() returns (r: Option<(nat, nat)>)
      requires Valid()
      modifies this`pos
      ensures Valid()
      ensures r.None? <==> Newline(old(Unread())) == |old(Unread())|
      ensures r.None? ==> pos == old(pos)
      ensures r.Some? ==> var nl := Newline(old(Unread()));
                          r.value == (old(pos), if nl > 0 then old(pos) + nl - 1 else old(pos)) &&
                          pos == old(pos) + nl + 1
    {
      var rel := Newline(rbuf[pos..filled]);
      if rel == filled - pos {
        return None;
      }
      var start := pos;
      var nl := pos + rel;
      pos := nl + 1;
      var end := if nl > start then nl - 1 else nl;
      return Some((start, end));
    }

    /** A header line at `pos`: the scan, the mark and the length. */
    method Header(mark: byte, max: nat) returns (h: Header)
      requires Valid() && max <= USIZE_MAX && mark != NL
      modifies this`pos
      ensures Valid()
      ensures h == ReadHeader(old(Unread()), mark, max)
      ensures h.Count? ==> Unread() == h.rest
    {
      ghost var s := Unread();
      var line := ScanLine();
      if line.None? {
        return NeedMore;
      }
      var (start, end) := line.value;
      assert s[0] == rbuf[start];
      if rbuf[start] != mark {
        return Malformed;
      }
      if end < start + 1 {
        return Overrun;
      }
      SliceOfSlice(rbuf, start, filled, 1, Newline(s) - 1);
      var n := ParseUsize(rbuf[start + 1..end], max);
      if n.None? {
        return Malformed;
      }
      return Count(n.value, rbuf[pos..filled]);
    }

    /** One bulk string at `pos`. */
    method NextBulk() returns (b: Outcome, span: (nat, nat))
      requires Valid()
      modifies this`pos
      ensures Valid()
      ensures b == ReadBulk(old(Unread()))
      ensures b.Complete? ==> Unread() == b.rest && Found(rbuf, [span], b.parts)
    {
      span := (0, 0);
      var h := Header(DOLLAR, MAX_BULK_BYTES);
      match h {
        case NeedMore => return Incomplete, span;
        case Malformed => return Error, span;
        case Overrun => return Panic, span;
        case Count(_, _) =>
      }
      if filled - pos < h.n + 2 {
        return Incomplete, span;
      }
      SliceOfSlice(rbuf, pos, filled, 0, h.n);
      SliceOfSlice(rbuf, pos, filled, h.n + 2, filled - pos);
      b, span := Complete([rbuf[pos..pos + h.n]], h.rest[h.n + 2..]), (pos, h.n);
      pos := pos + h.n + 2;
    }

    /** One more bulk string of a command, recorded in `parts`. */
    method NextPart(remaining: nat, ghost r: Outcome) returns (b: Outcome)
      requires Valid() && remaining > 0 && Leads(Unread(), remaining, parts, r) && Found(rbuf, spans, parts)
      modifies this`pos, this`parts, this`spans
      ensures Valid() && Found(rbuf, spans, parts)
      ensures if b.Complete? then Leads(Unread(), remaining - 1, parts, r) else b == r
    {
      LeadsOnce(Unread(), remaining, parts, r);
      var span;
      b, span := NextBulk();
      if b.Complete? {
        FoundOneMore(rbuf, spans, parts, span, b.parts);
        parts := parts + b.parts;
        spans := spans + [span];
      }
    }

    /** The bulk strings of a command. */
    method NextBulks(count: nat) returns (r: Outcome)
      requires Valid()
      modifies this`pos, this`parts, this`spans
      ensures Valid() && Found(rbuf, spans, parts)
      ensures r == ReadBulks(old(Unread()), count, [])
      ensures r.Complete? ==> parts == r.parts && Unread() == r.rest
    {
      parts, spans := [], [];
      ghost var expected := ReadBulks(Unread(), count, []);
      for i := 0 to count
        invariant Valid() && Leads(Unread(), count - i, parts, expected) && Found(rbuf, spans, parts)
      {
        var b := NextPart(count - i, expected);
        if !b.Complete? {
          return b;
        }
      }
      r := Complete(parts, rbuf[pos..filled]);
    }

    /** After a full drain an oversized buffer is given back. */
    method Shrink()
      requires Valid()
      modifies this`rbuf, this`filled, this`pos, this`allocation
      ensures Valid() && Unread() == old(Unread())
      ensures allocation == old(allocation) <==> old(Unread()) != [] || |old(rbuf)| <= OVERSIZED
      ensures allocation == old(allocation) ==> rbuf == old(rbuf)
    {
      if pos == filled && |rbuf| > OVERSIZED {
        allocation := allocation + 1;
        rbuf := rbuf[..2 * 1024];
        filled := 0;
        pos := 0;
      }
    }

    /**
     * Parses one command; an incomplete one leaves the buffer where it was.
     * The parts were found where the spans say, and that is still in the
     * buffer exactly when bytes are left or the buffer was not oversized.
     */
    method ParseOne() returns (r: Outcome)
      requires Valid()
      modifies this
      ensures Valid()
      ensures r == Parse(old(Unread()))
      ensures r.Complete? ==> parts == r.parts && Unread() == r.rest
      ensures r.Incomplete? ==> pos == old(pos) && rbuf == old(rbuf) && filled == old(filled)
      ensures r.Complete? ==> Found(old(rbuf), spans, parts)
      ensures r.Complete? ==> (allocation == old(allocation) <==> r.rest != [] || |old(rbuf)| <= OVERSIZED)
      ensures allocation == old(allocation) ==> rbuf == old(rbuf)
    {
      parts, spans := [], [];
      var startPos := pos;
      var h := Header(STAR, MAX_ARRAY_ELEMENTS);
      match h {
        case NeedMore => pos := startPos; return Incomplete;
        case Malformed => return Error;
        case Overrun => return Panic;
        case Count(_, _) =>
      }
      r := NextBulks(h.n);
      if r.Incomplete? {
        pos := startPos;
      } else if r.Complete? {
        Shrink();
      }
    }

    /** Everything the socket has is read, in pieces of any size that fit. */
    method Fill(burst: Bytestring)
      requires Valid()
      modifies this
      ensures Valid() && Unread() == old(Unread()) + burst
    {
      var left := burst;
      while left != []
        invariant Valid() && Unread() + left == old(Unread()) + burst
        decreases |left|
      {
        ReadBuf();
        var n :| 1 <= n <= |left| && n <= |rbuf| - filled;
        Pieces(Unread(), left, n);
        DidFill(left[..n]);
        left := left[n..];
      }
      assert Unread() + [] == Unread();
    }

    /** Reads what has arrived and dispatches every complete command. */
    method DoRead(burst: Bytestring) returns (commands: seq<Command>, open: bool)
      requires Valid()
      modifies this
      ensures Valid()
      ensures var d := Drain(old(Unread()) + burst);
              commands == d.commands && open == d.open && (open ==> Unread() == d.rest)
    {
      Fill(burst);
      ghost var all := Unread();
      commands := [];
      while true
        invariant Valid()
        invariant Resumes(all, commands, Unread())
        decreases |Unread()|
      {
        ghost var s := Unread();
        var r := ParseOne();
        DrainOnce(all, commands, s);
        match r {
          case Complete(c, _) => commands := commands + [c];
          case Incomplete => return commands, true;
          case _ => return commands, false;
        }
      }
    }
  }
}
