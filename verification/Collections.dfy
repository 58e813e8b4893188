/**
 * Hashes and sets that change their representation with their size and
 * contents, and the map and the set of strings that they stand for.
 */
module Collections {
  import opened Bytes
  import opened Common

  type Str = seq<byte>

  const COMPACT_THRESHOLD: nat := 64
  const I64_MIN: int := -0x8000_0000_0000_0000
  const I64_MAX: int := 0x7FFF_FFFF_FFFF_FFFF

  // --------------------------------------------------------- integer text

  predicate InI64(n: int) { I64_MIN <= n <= I64_MAX }

  /** Decimal text with an optional sign, as a 64-bit integer. */
  function ParseI64(s: Str): Option<int> {
    var digits := if s != [] && (s[0] == MINUS || s[0] == PLUS) then s[1..] else s;
    if digits == [] || !AllDigits(digits) then None
    else
      var v: int := Value(digits);
      var n := if s[0] == MINUS then -v else v;
      if InI64(n) then Some(n) else None
  }

  /** The integer whose own text is s, if there is one. */
  function CanonicalI64(s: Str): Option<int> {
    var n := ParseI64(s);
    if n.Some? && IntText(n.value) == s then n else None
  }

  lemma ParseText(n: int)
    requires InI64(n)
    ensures ParseI64(IntText(n)) == Some(n)
  {
    var m: nat := if n < 0 then -n else n;
    DecimalValue(m);
    if n < 0 {
      assert IntText(n)[1..] == Decimal(m);
    }
  }

  /** Reading canonical text and printing integers are inverse to each other. */
  lemma CanonicalIff(s: Str, n: int)
    ensures CanonicalI64(s) == Some(n) <==> InI64(n) && s == IntText(n)
  {
    if InI64(n) && s == IntText(n) {
      ParseText(n);
    }
  }

  /** A leading zero or plus sign makes text a string, not an integer. */
  lemma NotCanonical(s: Str)
    requires |s| > 1 && (s[0] == 48 || s[0] == PLUS)
    ensures CanonicalI64(s).None?
  {
    var n := ParseI64(s);
    if n.Some? {
      TextStart(n.value);
    }
  }

  lemma TextStart(n: int)
    ensures var s := IntText(n);
            s != [] && s[0] != PLUS && (s[0] == 48 ==> s == [48])
  {
    var m: nat := if n < 0 then -n else n;
    DecimalValue(m);
  }

  // --------------------------------------------------------------- hashes

  datatype HashForm = Compact(v: seq<Str>) | Full(m: map<Str, Str>)

  /** Field and value number i of a flat list. */
  function FieldAt(v: seq<Str>, i: nat): Str requires 2 * i + 1 < |v| { v[2 * i] }
  function ValueAt(v: seq<Str>, i: nat): Str requires 2 * i + 1 < |v| { v[2 * i + 1] }

  predicate PairAt(v: seq<Str>, i: nat, k: Str) { 2 * i + 1 < |v| && FieldAt(v, i) == k }

  /** A flat list of distinct fields and their values. */
  ghost predicate Lists(v: seq<Str>, m: map<Str, Str>) {
    && |v| % 2 == 0
    && (forall i :: 0 <= 2 * i < |v| ==> FieldAt(v, i) in m && m[FieldAt(v, i)] == ValueAt(v, i))
    && (forall i, j :: 0 <= 2 * i < 2 * j < |v| ==> FieldAt(v, i) != FieldAt(v, j))
    && (forall k :: k in m ==> exists i :: PairAt(v, i, k))
  }

  lemma ListsPush(v: seq<Str>, m: map<Str, Str>, k: Str, x: Str)
    requires Lists(v, m) && k !in m
    ensures Lists(v + [k, x], m[k := x])
  {
    var v', m' := v + [k, x], m[k := x];
    var n := |v| / 2;
    assert forall i :: 0 <= 2 * i < |v| ==> FieldAt(v', i) == FieldAt(v, i) && ValueAt(v', i) == ValueAt(v, i);
    assert FieldAt(v', n) == k && ValueAt(v', n) == x;
    forall q | q in m' ensures exists i :: PairAt(v', i, q) {
      if q == k {
        assert PairAt(v', n, q);
      } else {
        var i :| PairAt(v, i, q);
        assert PairAt(v', i, q);
      }
    }
  }

  lemma ListsOverwrite(v: seq<Str>, m: map<Str, Str>, i: nat, x: Str)
    requires Lists(v, m) && 2 * i + 1 < |v|
    ensures Lists(v[2 * i + 1 := x], m[FieldAt(v, i) := x])
  {
    var v' := v[2 * i + 1 := x];
    assert forall j :: 0 <= 2 * j < |v| ==> FieldAt(v', j) == FieldAt(v, j);
    assert forall j :: 0 <= 2 * j < |v| && j != i ==> ValueAt(v', j) == ValueAt(v, j);
    forall q | q in m ensures exists j :: PairAt(v', j, q) {
      var j :| PairAt(v, j, q);
      assert PairAt(v', j, q);
    }
  }

  /** The last pair moved into place i, and the list shortened. */
  function SwapOut(v: seq<Str>, i: nat): seq<Str>
    requires |v| % 2 == 0 && 2 * i + 1 < |v|
  {
    v[2 * i := v[|v| - 2]][2 * i + 1 := v[|v| - 1]][..|v| - 2]
  }

  lemma SwapOutAt(v: seq<Str>, i: nat, j: nat)
    requires |v| % 2 == 0 && 2 * i + 1 < |v| && 2 * j + 1 < |v| - 2
    ensures var from := if j == i then |v| / 2 - 1 else j;
            FieldAt(SwapOut(v, i), j) == FieldAt(v, from) && ValueAt(SwapOut(v, i), j) == ValueAt(v, from)
  {
  }

  lemma SwapOutKeeps(v: seq<Str>, m: map<Str, Str>, i: nat)
    requires Lists(v, m) && 2 * i + 1 < |v|
    ensures var v', m' := SwapOut(v, i), m - {FieldAt(v, i)};
            (forall j :: 0 <= 2 * j < |v'| ==> FieldAt(v', j) in m' && m'[FieldAt(v', j)] == ValueAt(v', j)) &&
            (forall j, j' :: 0 <= 2 * j < 2 * j' < |v'| ==> FieldAt(v', j) != FieldAt(v', j'))
  {
    var v', m' := SwapOut(v, i), m - {FieldAt(v, i)};
    forall j | 0 <= 2 * j < |v'| ensures FieldAt(v', j) in m' && m'[FieldAt(v', j)] == ValueAt(v', j) {
      SwapOutAt(v, i, j);
    }
    forall j, j' | 0 <= 2 * j < 2 * j' < |v'| ensures FieldAt(v', j) != FieldAt(v', j') {
      SwapOutAt(v, i, j);
      SwapOutAt(v, i, j');
    }
  }

  lemma SwapOutFinds(v: seq<Str>, i: nat, j: nat)
    requires |v| % 2 == 0 && 2 * i + 1 < |v| && 2 * j + 1 < |v| && i != j
    ensures exists to :: PairAt(SwapOut(v, i), to, FieldAt(v, j))
  {
    var to := if j == |v| / 2 - 1 then i else j;
    SwapOutAt(v, i, to);
    assert PairAt(SwapOut(v, i), to, FieldAt(v, j));
  }

  /** Removing a pair by moving the last one into its place removes its field. */
  lemma ListsSwapOut(v: seq<Str>, m: map<Str, Str>, i: nat)
    requires Lists(v, m) && 2 * i + 1 < |v|
    ensures Lists(SwapOut(v, i), m - {FieldAt(v, i)})
  {
    SwapOutKeeps(v, m, i);
    forall q | q in m && q != FieldAt(v, i) ensures exists j :: PairAt(SwapOut(v, i), j, q) {
      var j :| PairAt(v, j, q);
      SwapOutFinds(v, i, j);
    }
  }

  lemma NoPairs(v: seq<Str>, m: map<Str, Str>)
    requires Lists(v, m) && v == []
    ensures m == map[]
  {
    assert forall i: nat, k :: !PairAt(v, i, k);
    assert forall k :: k !in m;
  }

  lemma OneLess(m: map<Str, Str>, k: Str)
    requires k in m
    ensures |m - {k}| + 1 == |m|
  {
    assert m == (m - {k})[k := m[k]];
  }

  lemma {:induction false} ListsSize(v: seq<Str>, m: map<Str, Str>)
    requires Lists(v, m)
    ensures |m| == |v| / 2
    decreases |v|
  {
    if v == [] {
      NoPairs(v, m);
    } else {
      var n := |v| / 2 - 1;
      var k := FieldAt(v, n);
      ListsSwapOut(v, m, n);
      ListsSize(SwapOut(v, n), m - {k});
      OneLess(m, k);
    }
  }

  lemma ListsTail(v: seq<Str>, m: map<Str, Str>, i: nat)
    requires Lists(v, m) && 2 * i == |v|
    ensures forall k :: k in m <==> exists j :: 0 <= j < i && PairAt(v, j, k)
  {
    forall k | k in m ensures exists j :: 0 <= j < i && PairAt(v, j, k) {
      var j: nat :| PairAt(v, j, k);
      assert j < i;
    }
  }

  class HashInner {
    var form: HashForm
    ghost var Table: map<Str, Str>

    ghost predicate Valid()
      reads this
    {
      match form
      case Compact(v) => Lists(v, Table) && |v| <= 2 * COMPACT_THRESHOLD
      case Full(m) => m == Table && |m| > COMPACT_THRESHOLD / 2
    }

    constructor ()
      ensures Valid() && Table == map[]
    {
      form := Compact([]);
      Table := map[];
    }

    /** The pair of a field in the flat list, or none. */
    method Find(field: Str) returns (r: Option<nat>)
      requires Valid() && form.Compact?
      ensures r.Some? ==> PairAt(form.v, r.value, field)
      ensures r.None? <==> field !in Table
    {
      var v := form.v;
      var i := 0;
      while 2 * i < |v|
        invariant 2 * i <= |v| && forall j :: 0 <= j < i ==> !PairAt(v, j, field)
      {
        if v[2 * i] == field {
          assert PairAt(v, i, field);
          return Some(i);
        }
        i := i + 1;
      }
      ListsTail(v, Table, i);
      return None;
    }

    method Get(field: Str) returns (r: Option<Str>)
      requires Valid()
      ensures r == if field in Table then Some(Table[field]) else None
    {
      match form {
        case Compact(v) =>
          var i := Find(field);
          r := if i.None? then None else Some(v[2 * i.value + 1]);
        case Full(m) => r := if field in m then Some(m[field]) else None;
      }
    }

    method Len() returns (n: nat)
      requires Valid()
      ensures n == |Table|
    {
      match form {
        case Compact(v) =>
          ListsSize(v, Table);
          n := |v| / 2;
        case Full(m) => n := |m|;
      }
    }

    /** Moves the pairs of a flat list into a table. */
    method Promote()
      requires form.Compact? && Lists(form.v, Table)
      modifies this`form
      ensures form == Full(Table)
    {
      var v := form.v;
      var m: map<Str, Str> := map[];
      var i := 0;
      while 2 * i < |v|
        invariant 2 * i <= |v|
        invariant forall k :: k in m <==> exists j :: 0 <= j < i && PairAt(v, j, k)
        invariant forall k :: k in m ==> k in Table && m[k] == Table[k]
      {
        assert FieldAt(v, i) in Table && Table[FieldAt(v, i)] == ValueAt(v, i);
        assert PairAt(v, i, v[2 * i]);
        m := m[v[2 * i] := v[2 * i + 1]];
        i := i + 1;
      }
      ListsTail(v, Table, i);
      assert m == Table;
      form := Full(m);
    }

    /** Moves the entries of a small table, in some order, into a flat list. */
    method Demote()
      requires form == Full(Table)
      modifies this`form
      ensures if |Table| > COMPACT_THRESHOLD / 2 then form == old(form) else form.Compact? && Valid()
    {
      var m := form.m;
      if |m| > COMPACT_THRESHOLD / 2 {
        return;
      }
      var v: seq<Str> := [];
      ghost var done: map<Str, Str> := map[];
      while m != map[]
        invariant Lists(v, done) && Splits(done, m, Table)
        decreases |m|
      {
        var k :| k in m;
        ListsPush(v, done, k, m[k]);
        MoveOver(done, m, Table, k);
        v := v + [k, m[k]];
        done := done[k := m[k]];
        m := m - {k};
      }
      assert done == Table;
      ListsSize(v, Table);
      form := Compact(v);
    }

    method Insert(field: Str, value: Str) returns (isNew: bool)
      requires Valid()
      modifies this
      ensures Valid() && Table == old(Table)[field := value] && isNew == (field !in old(Table))
    {
      match form {
        case Compact(v) =>
          var i := Find(field);
          if i.Some? {
            ListsOverwrite(v, Table, i.value, value);
            form := Compact(v[2 * i.value + 1 := value]);
            Table := Table[field := value];
            return false;
          }
          ListsPush(v, Table, field, value);
          form := Compact(v + [field, value]);
          Table := Table[field := value];
          ListsSize(form.v, Table);
          if |form.v| / 2 > COMPACT_THRESHOLD {
            Promote();
          }
          return true;
        case Full(m) =>
          GrowsBy(Table, field, value);
          form := Full(m[field := value]);
          isNew := field !in m;
          Table := Table[field := value];
      }
    }

    /** What comes back is the value from a table, but the field itself from a flat list. */
    method Remove(field: Str) returns (out: Option<Str>)
      requires Valid()
      modifies this
      ensures Valid() && Table == old(Table) - {field} && (out.Some? <==> field in old(Table))
      ensures out.Some? ==> out.value == if old(form).Compact? then field else old(Table)[field]
    {
      match form {
        case Compact(v) =>
          var i := Find(field);
          if i.None? {
            assert Table - {field} == Table;
            return None;
          }
          ListsSwapOut(v, Table, i.value);
          form := Compact(SwapOut(v, i.value));
          Table := Table - {field};
          return Some(v[2 * i.value]);
        case Full(m) =>
          out := if field in m then Some(m[field]) else None;
          form := Full(m - {field});
          Table := Table - {field};
          if |m - {field}| <= COMPACT_THRESHOLD / 2 {
            Demote();
          }
      }
    }
  }

  /** The two maps split a third. */
  ghost predicate Splits(a: map<Str, Str>, b: map<Str, Str>, whole: map<Str, Str>) {
    && (forall k :: k in whole <==> k in a || k in b)
    && (forall k :: k in a ==> k !in b && a[k] == whole[k])
    && (forall k :: k in b ==> b[k] == whole[k])
  }

  lemma MoveOver(done: map<Str, Str>, m: map<Str, Str>, whole: map<Str, Str>, k: Str)
    requires k in m && Splits(done, m, whole)
    ensures Splits(done[k := m[k]], m - {k}, whole) && |m - {k}| < |m|
  {
    OneLess(m, k);
  }

  lemma GrowsBy(m: map<Str, Str>, k: Str, x: Str)
    ensures |m[k := x]| >= |m|
  {
    assert m[k := x].Keys == m.Keys + {k};
  }

  // ----------------------------------------------------------------- sets

  datatype SetForm = Integers(ns: seq<int>) | Strings(v: seq<Str>) | Hashed(s: set<Str>)

  predicate Increasing(ns: seq<int>) { forall i, j :: 0 <= i < j < |ns| ==> ns[i] < ns[j] }

  predicate AllI64(ns: seq<int>) { forall i :: 0 <= i < |ns| ==> InI64(ns[i]) }

  predicate Distinct(v: seq<Str>) { forall i, j :: 0 <= i < j < |v| ==> v[i] != v[j] }

  function Texts(ns: seq<int>): seq<Str> { seq(|ns|, i requires 0 <= i < |ns| => IntText(ns[i])) }

  function Elements(v: seq<Str>): set<Str> { set x | x in v }

  /** A string is the text of one of the integers exactly when it is canonical and its integer is one. */
  lemma TextsHas(ns: seq<int>, s: Str)
    requires AllI64(ns)
    ensures s in Elements(Texts(ns)) <==> CanonicalI64(s).Some? && CanonicalI64(s).value in ns
  {
    var ts := Texts(ns);
    if s in Elements(ts) {
      var i :| 0 <= i < |ts| && ts[i] == s;
      CanonicalIff(s, ns[i]);
    }
    var c := CanonicalI64(s);
    if c.Some? && c.value in ns {
      var i :| 0 <= i < |ns| && ns[i] == c.value;
      CanonicalIff(s, ns[i]);
      assert ts[i] == s;
    }
  }

  lemma TextsDistinct(ns: seq<int>)
    requires AllI64(ns) && Increasing(ns)
    ensures Distinct(Texts(ns))
  {
    var ts := Texts(ns);
    forall i, j | 0 <= i < j < |ts| ensures ts[i] != ts[j] {
      CanonicalIff(ts[i], ns[i]);
      CanonicalIff(ts[j], ns[j]);
    }
  }

  lemma {:induction false} ElementsSize(v: seq<Str>)
    requires Distinct(v)
    ensures |Elements(v)| == |v|
  {
    if v != [] {
      var front, last := v[..|v| - 1], v[|v| - 1];
      ElementsSize(front);
      assert v == front + [last];
      assert Elements(v) == Elements(front) + {last};
      assert last !in front;
    }
  }

  lemma ElementsPush(v: seq<Str>, x: Str)
    ensures Elements(v + [x]) == Elements(v) + {x}
    ensures Distinct(v) && x !in v ==> Distinct(v + [x])
  {
  }

  function SwapRemove(v: seq<Str>, i: nat): seq<Str>
    requires i < |v|
  {
    v[i := v[|v| - 1]][..|v| - 1]
  }

  lemma SwapRemoved(v: seq<Str>, i: nat)
    requires i < |v| && Distinct(v)
    ensures Distinct(SwapRemove(v, i)) && Elements(SwapRemove(v, i)) == Elements(v) - {v[i]}
  {
    var w := SwapRemove(v, i);
    assert forall j :: 0 <= j < |w| ==> w[j] == v[if j == i then |v| - 1 else j];
    forall x | x in Elements(v) - {v[i]} ensures x in w {
      var j :| 0 <= j < |v| && v[j] == x;
      assert w[if j == |v| - 1 then i else j] == x;
    }
  }

  /** Where n is, or where it belongs, in an increasing list. */
  method BinarySearch(ns: seq<int>, n: int) returns (found: bool, pos: nat)
    requires Increasing(ns)
    ensures pos <= |ns| && found == (n in ns) && (found ==> pos < |ns| && ns[pos] == n)
    ensures !found ==> (forall i :: 0 <= i < pos ==> ns[i] < n) && (forall i :: pos <= i < |ns| ==> n < ns[i])
  {
    var lo, hi := 0, |ns|;
    while lo < hi
      invariant lo <= hi <= |ns|
      invariant forall i :: 0 <= i < lo ==> ns[i] < n
      invariant forall i :: hi <= i < |ns| ==> n < ns[i]
    {
      var mid := lo + (hi - lo) / 2;
      if ns[mid] == n {
        return true, mid;
      } else if ns[mid] < n {
        lo := mid + 1;
      } else {
        hi := mid;
      }
    }
    return false, lo;
  }

  lemma InsertedAt(ns: seq<int>, pos: nat, n: int)
    requires pos <= |ns| && AllI64(ns) && Increasing(ns) && InI64(n)
    requires (forall i :: 0 <= i < pos ==> ns[i] < n) && (forall i :: pos <= i < |ns| ==> n < ns[i])
    ensures var ns' := ns[..pos] + [n] + ns[pos..];
            AllI64(ns') && Increasing(ns') && forall x :: x in ns' <==> x in ns || x == n
  {
    var ns' := ns[..pos] + [n] + ns[pos..];
    assert forall i :: 0 <= i < |ns'| ==> ns'[i] == if i < pos then ns[i] else if i == pos then n else ns[i - 1];
    InsertedElements(ns, pos, n);
  }

  lemma InsertedElements(ns: seq<int>, pos: nat, n: int)
    requires pos <= |ns|
    ensures forall x :: x in ns[..pos] + [n] + ns[pos..] <==> x in ns || x == n
  {
    assert ns == ns[..pos] + ns[pos..];
  }

  lemma IntegerAdded(ns: seq<int>, pos: nat, n: int)
    requires pos <= |ns| && AllI64(ns) && Increasing(ns) && InI64(n)
    requires (forall i :: 0 <= i < pos ==> ns[i] < n) && (forall i :: pos <= i < |ns| ==> n < ns[i])
    ensures var ns' := ns[..pos] + [n] + ns[pos..];
            AllI64(ns') && Increasing(ns') && Elements(Texts(ns')) == Elements(Texts(ns)) + {IntText(n)}
  {
    var ns' := ns[..pos] + [n] + ns[pos..];
    InsertedAt(ns, pos, n);
    forall s ensures s in Elements(Texts(ns')) <==> s in Elements(Texts(ns)) || s == IntText(n) {
      TextsHas(ns', s);
      TextsHas(ns, s);
      CanonicalIff(s, n);
    }
  }

  lemma RemovedAt(ns: seq<int>, pos: nat)
    requires pos < |ns| && AllI64(ns) && Increasing(ns)
    ensures var ns' := ns[..pos] + ns[pos + 1..];
            AllI64(ns') && Increasing(ns') && forall x :: x in ns' <==> x in ns && x != ns[pos]
  {
    var ns' := ns[..pos] + ns[pos + 1..];
    assert forall i :: 0 <= i < |ns'| ==> ns'[i] == if i < pos then ns[i] else ns[i + 1];
    assert forall x :: x in ns <==> x in ns[..pos] || x == ns[pos] || x in ns[pos + 1..] by {
      assert ns == ns[..pos] + [ns[pos]] + ns[pos + 1..];
    }
  }

  lemma IntegerRemoved(ns: seq<int>, pos: nat)
    requires pos < |ns| && AllI64(ns) && Increasing(ns)
    ensures var ns' := ns[..pos] + ns[pos + 1..];
            AllI64(ns') && Increasing(ns') && Elements(Texts(ns')) == Elements(Texts(ns)) - {IntText(ns[pos])}
  {
    var ns' := ns[..pos] + ns[pos + 1..];
    RemovedAt(ns, pos);
    forall s ensures s in Elements(Texts(ns')) <==> s in Elements(Texts(ns)) && s != IntText(ns[pos]) {
      TextsHas(ns', s);
      TextsHas(ns, s);
      CanonicalIff(s, ns[pos]);
    }
  }

  lemma SetGrows(s: set<Str>, x: Str)
    ensures |s + {x}| >= |s|
  {
    if x in s {
      assert s + {x} == s;
    }
  }

  class SetInner {
    var form: SetForm
    ghost var Members: set<Str>

    ghost predicate Valid()
      reads this
    {
      match form
      case Integers(ns) => AllI64(ns) && Increasing(ns) && Members == Elements(Texts(ns))
      case Strings(v) => Distinct(v) && Members == Elements(v)
      case Hashed(s) => s == Members && |s| > COMPACT_THRESHOLD / 2
    }

    constructor ()
      ensures Valid() && Members == {}
    {
      form := Integers([]);
      Members := {};
      new;
      assert Texts([]) == [];
    }

    method Contains(member: Str) returns (r: bool)
      requires Valid()
      ensures r == (member in Members)
    {
      match form {
        case Integers(ns) =>
          TextsHas(ns, member);
          var n := CanonicalI64(member);
          if n.None? {
            return false;
          }
          var found, _ := BinarySearch(ns, n.value);
          r := found;
        case Strings(v) => r := member in v;
        case Hashed(s) => r := member in s;
      }
    }

    method Len() returns (n: nat)
      requires Valid()
      ensures n == |Members|
    {
      match form {
        case Integers(ns) =>
          TextsDistinct(ns);
          ElementsSize(Texts(ns));
          n := |ns|;
        case Strings(v) =>
          ElementsSize(v);
          n := |v|;
        case Hashed(s) => n := |s|;
      }
    }

    /** Moves a list into a table. */
    method Promote()
      requires form.Strings? && Distinct(form.v) && Members == Elements(form.v)
      modifies this`form
      ensures form == Hashed(Members)
    {
      var v := form.v;
      var s: set<Str> := {};
      for i := 0 to |v|
        invariant s == Elements(v[..i])
      {
        assert v[..i + 1] == v[..i] + [v[i]];
        ElementsPush(v[..i], v[i]);
        s := s + {v[i]};
      }
      assert v[..|v|] == v;
      form := Hashed(s);
    }

    /** Moves a small table, in some order, into a list. */
    method Demote()
      requires form == Hashed(Members)
      modifies this`form
      ensures if |Members| > COMPACT_THRESHOLD / 2 then form == old(form) else form.Strings? && Valid()
    {
      var s := form.s;
      if |s| > COMPACT_THRESHOLD / 2 {
        return;
      }
      var v: seq<Str> := [];
      while s != {}
        invariant Distinct(v) && Elements(v) !! s && Elements(v) + s == Members
        decreases |s|
      {
        var x :| x in s;
        ElementsPush(v, x);
        v := v + [x];
        s := s - {x};
      }
      form := Strings(v);
    }

    /** An integer joins integers; the first other string turns them all into strings. */
    method InsertInteger(ns: seq<int>, member: Str) returns (isNew: bool)
      requires Valid() && form == Integers(ns)
      modifies this
      ensures Valid() && Members == old(Members) + {member} && isNew == (member !in old(Members))
    {
      TextsHas(ns, member);
      var n := CanonicalI64(member);
      if n.None? {
        TextsDistinct(ns);
        ElementsPush(Texts(ns), member);
        form := Strings(Texts(ns) + [member]);
        Members := Members + {member};
        return true;
      }
      CanonicalIff(member, n.value);
      var found, pos := BinarySearch(ns, n.value);
      if found {
        assert Members + {member} == Members;
        return false;
      }
      IntegerAdded(ns, pos, n.value);
      form := Integers(ns[..pos] + [n.value] + ns[pos..]);
      Members := Members + {member};
      return true;
    }

    method Insert(member: Str) returns (isNew: bool)
      requires Valid()
      modifies this
      ensures Valid() && Members == old(Members) + {member} && isNew == (member !in old(Members))
    {
      match form {
        case Integers(ns) => isNew := InsertInteger(ns, member);
        case Strings(v) =>
          if member in v {
            assert Members + {member} == Members;
            return false;
          }
          ElementsPush(v, member);
          form := Strings(v + [member]);
          Members := Members + {member};
          if |v| + 1 > COMPACT_THRESHOLD {
            ElementsSize(v + [member]);
            Promote();
          }
          return true;
        case Hashed(s) =>
          isNew := member !in s;
          form := Hashed(s + {member});
          Members := Members + {member};
          SetGrows(s, member);
      }
    }

    method RemoveInteger(ns: seq<int>, member: Str) returns (removed: bool)
      requires Valid() && form == Integers(ns)
      modifies this
      ensures Valid() && Members == old(Members) - {member} && removed == (member in old(Members))
    {
      TextsHas(ns, member);
      assert member !in Members ==> Members - {member} == Members;
      var n := CanonicalI64(member);
      if n.None? {
        return false;
      }
      CanonicalIff(member, n.value);
      var found, pos := BinarySearch(ns, n.value);
      if !found {
        return false;
      }
      IntegerRemoved(ns, pos);
      form := Integers(ns[..pos] + ns[pos + 1..]);
      Members := Members - {member};
      return true;
    }

    method Position(v: seq<Str>, member: Str) returns (r: Option<nat>)
      ensures r.None? <==> member !in v
      ensures r.Some? ==> r.value < |v| && v[r.value] == member
    {
      for i := 0 to |v|
        invariant member !in v[..i]
      {
        if v[i] == member {
          return Some(i);
        }
      }
      return None;
    }

    method Remove(member: Str) returns (removed: bool)
      requires Valid()
      modifies this
      ensures Valid() && Members == old(Members) - {member} && removed == (member in old(Members))
    {
      match form {
        case Integers(ns) => removed := RemoveInteger(ns, member);
        case Strings(v) =>
          var i := Position(v, member);
          if i.None? {
            assert Members - {member} == Members;
            return false;
          }
          SwapRemoved(v, i.value);
          form := Strings(SwapRemove(v, i.value));
          Members := Members - {member};
          return true;
        case Hashed(s) =>
          removed := member in s;
          form := Hashed(s - {member});
          Members := Members - {member};
          if |s - {member}| <= COMPACT_THRESHOLD / 2 {
            Demote();
          }
      }
    }
  }
}
