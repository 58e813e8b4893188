/** The sorted set: a vector ordered by (score, member) with a bloom filter that
    lets an insert skip the membership scan, against a map from members to
    scores. Scores are reals; a hash value is a parameter. */
module ZSet {
  import opened Bytes
  import opened Common

  type Member = seq<byte>

  datatype ZEntry = ZEntry(score: real, member: Member)

  /** f64::EPSILON, 2 to the power of -52. */
  const EPSILON: real := 1.0 / 4503599627370496.0

  // ----- the order -------------------------------------------------------------------

  /** Byte-wise lexicographic order of strings. */
  predicate Less(a: Member, b: Member) {
    b != [] && (a == [] || a[0] < b[0] || (a[0] == b[0] && Less(a[1..], b[1..])))
  }

  predicate Before(x: ZEntry, y: ZEntry) {
    x.score < y.score || (x.score == y.score && Less(x.member, y.member))
  }

  lemma {:induction false} LessIrreflexive(a: Member)
    ensures !Less(a, a)
  {
    if a != [] { LessIrreflexive(a[1..]); }
  }

  lemma {:induction false} LessTransitive(a: Member, b: Member, c: Member)
    requires Less(a, b) && Less(b, c)
    ensures Less(a, c)
  {
    if a != [] && a[0] == b[0] == c[0] { LessTransitive(a[1..], b[1..], c[1..]); }
  }

  lemma {:induction false} LessTotal(a: Member, b: Member)
    ensures a == b || Less(a, b) || Less(b, a)
  {
    if a != [] && b != [] && a[0] == b[0] {
      LessTotal(a[1..], b[1..]);
      if a[1..] == b[1..] { assert a == [a[0]] + a[1..] && b == [b[0]] + b[1..]; }
    }
  }

  /** a and b agree up to k, where a ends or has the smaller byte. */
  predicate SmallerAt(a: Member, b: Member, k: nat) {
    k <= |a| && k < |b| && a[..k] == b[..k] && (k == |a| || a[k] < b[k])
  }

  lemma SmallerFirst(a: Member, b: Member, k: nat)
    requires SmallerAt(a, b, k)
    ensures k > 0 ==> a[0] == b[0]
  {
    if k > 0 {
      assert a[..k][0] == b[..k][0];
    }
  }

  lemma {:induction false} LessMeans(a: Member, b: Member)
    ensures Less(a, b) <==> exists k: nat :: SmallerAt(a, b, k)
  {
    if b == [] || a == [] || a[0] != b[0] {
      if Less(a, b) {
        assert SmallerAt(a, b, 0);
      }
      forall k: nat | SmallerAt(a, b, k) ensures Less(a, b) {
        SmallerFirst(a, b, k);
      }
    } else {
      LessMeans(a[1..], b[1..]);
      forall k: nat | SmallerAt(a[1..], b[1..], k) ensures exists n: nat :: SmallerAt(a, b, n) {
        assert a[..k + 1] == [a[0]] + a[1..][..k] && b[..k + 1] == [b[0]] + b[1..][..k];
        assert SmallerAt(a, b, k + 1);
      }
      forall k: nat | SmallerAt(a, b, k) ensures exists n: nat :: SmallerAt(a[1..], b[1..], n) {
        assert a[1..][..k - 1] == a[..k][1..] && b[1..][..k - 1] == b[..k][1..];
        assert SmallerAt(a[1..], b[1..], k - 1);
      }
    }
  }

  lemma BeforeTransitive(x: ZEntry, y: ZEntry, z: ZEntry)
    requires Before(x, y) && Before(y, z)
    ensures Before(x, z)
  {
    if x.score == y.score == z.score { LessTransitive(x.member, y.member, z.member); }
  }

  lemma BeforeTotal(x: ZEntry, y: ZEntry)
    ensures x == y || Before(x, y) || Before(y, x)
    ensures !(Before(x, y) && Before(y, x)) && !Before(x, x)
  {
    LessTotal(x.member, y.member);
    LessIrreflexive(x.member);
    if Less(x.member, y.member) && Less(y.member, x.member) {
      LessTransitive(x.member, y.member, x.member);
    }
  }

  // ----- sorted vectors ------------------------------------------------------------------

  ghost predicate Sorted(es: seq<ZEntry>) {
    forall i, j :: 0 <= i < j < |es| ==> Before(es[i], es[j])
  }

  ghost predicate UniqueMembers(es: seq<ZEntry>) {
    forall i, j :: 0 <= i < j < |es| ==> es[i].member != es[j].member
  }

  /** m maps exactly the members of es to their scores. */
  ghost predicate Represents(es: seq<ZEntry>, m: map<Member, real>) {
    && (forall i :: 0 <= i < |es| ==> es[i].member in m && m[es[i].member] == es[i].score)
    && (forall k :: k in m ==> exists i :: MemberAt(es, i, k))
  }

  ghost predicate MemberAt(es: seq<ZEntry>, i: int, k: Member) {
    0 <= i < |es| && es[i].member == k
  }

  ghost predicate Ordered(es: seq<ZEntry>, m: map<Member, real>) {
    Sorted(es) && UniqueMembers(es) && Represents(es, m)
  }

  function InsertAt(es: seq<ZEntry>, k: nat, e: ZEntry): seq<ZEntry>
    requires k <= |es|
  {
    es[..k] + [e] + es[k..]
  }

  function RemoveAt(es: seq<ZEntry>, k: nat): seq<ZEntry>
    requires k < |es|
  {
    es[..k] + es[k + 1..]
  }

  /** The binary search of `slice::partition_point`. */
  function PartitionPoint(es: seq<ZEntry>, p: ZEntry -> bool, lo: nat, hi: nat): (k: nat)
    requires lo <= hi <= |es|
    ensures lo <= k <= hi
    decreases hi - lo
  {
    if lo == hi then lo
    else
      var mid := lo + (hi - lo) / 2;
      if p(es[mid]) then PartitionPoint(es, p, mid + 1, hi) else PartitionPoint(es, p, lo, mid)
  }

  /** Where a test holds on a prefix only, the search finds the end of that prefix. */
  lemma {:induction false} PartitionPointExact(es: seq<ZEntry>, p: ZEntry -> bool, lo: nat, hi: nat)
    requires lo <= hi <= |es|
    requires forall i, j :: 0 <= i < j < |es| && p(es[j]) ==> p(es[i])
    requires forall i :: 0 <= i < lo ==> p(es[i])
    requires forall i :: hi <= i < |es| ==> !p(es[i])
    ensures forall i :: 0 <= i < |es| ==> (i < PartitionPoint(es, p, lo, hi) <==> p(es[i]))
    decreases hi - lo
  {
    if lo < hi {
      var mid := lo + (hi - lo) / 2;
      if p(es[mid]) {
        PartitionPointExact(es, p, mid + 1, hi);
      } else {
        PartitionPointExact(es, p, lo, mid);
      }
    }
  }

  function FindInsertPos(es: seq<ZEntry>, e: ZEntry): (k: nat)
    ensures k <= |es|
  {
    PartitionPoint(es, x => Before(x, e), 0, |es|)
  }

  /** The insertion point of an absent member: what is before it comes first. */
  lemma InsertPosSplits(es: seq<ZEntry>, e: ZEntry)
    requires Sorted(es) && forall i :: 0 <= i < |es| ==> es[i].member != e.member
    ensures var k := FindInsertPos(es, e);
            && (forall i :: 0 <= i < k ==> Before(es[i], e))
            && (forall i :: k <= i < |es| ==> Before(e, es[i]))
  {
    var p := x => Before(x, e);
    forall i, j | 0 <= i < j < |es| && p(es[j]) ensures p(es[i]) {
      BeforeTransitive(es[i], es[j], e);
    }
    PartitionPointExact(es, p, 0, |es|);
    forall i | FindInsertPos(es, e) <= i < |es| ensures Before(e, es[i]) {
      BeforeTotal(es[i], e);
    }
  }

  lemma InsertAtSorted(es: seq<ZEntry>, k: nat, e: ZEntry)
    requires Sorted(es) && UniqueMembers(es) && k <= |es|
    requires forall i :: 0 <= i < |es| ==> es[i].member != e.member
    requires forall i :: 0 <= i < k ==> Before(es[i], e)
    requires forall i :: k <= i < |es| ==> Before(e, es[i])
    ensures Sorted(InsertAt(es, k, e)) && UniqueMembers(InsertAt(es, k, e))
  {
    var es' := InsertAt(es, k, e);
    forall i, j | 0 <= i < j < |es'| ensures Before(es'[i], es'[j]) && es'[i].member != es'[j].member {
      var x := if i < k then i else i - 1;
      var y := if j < k then j else j - 1;
      if i == k {
        assert es'[i] == e && es'[j] == es[y];
      } else if j == k {
        assert es'[j] == e && es'[i] == es[x];
      } else {
        assert es'[i] == es[x] && es'[j] == es[y];
      }
    }
  }

  lemma InsertAtRepresents(es: seq<ZEntry>, m: map<Member, real>, k: nat, e: ZEntry)
    requires Represents(es, m) && k <= |es| && e.member !in m
    ensures Represents(InsertAt(es, k, e), m[e.member := e.score])
  {
    var es', m' := InsertAt(es, k, e), m[e.member := e.score];
    forall i | 0 <= i < |es'| ensures es'[i].member in m' && m'[es'[i].member] == es'[i].score {
      if i != k {
        var x := if i < k then i else i - 1;
        assert es'[i] == es[x];
      }
    }
    forall q | q in m' ensures exists i :: MemberAt(es', i, q) {
      if q == e.member {
        assert MemberAt(es', k, q);
      } else {
        var i :| MemberAt(es, i, q);
        assert MemberAt(es', if i < k then i else i + 1, q);
      }
    }
  }

  lemma InsertAtOrdered(es: seq<ZEntry>, m: map<Member, real>, k: nat, e: ZEntry)
    requires Ordered(es, m) && k <= |es| && e.member !in m
    requires forall i :: 0 <= i < k ==> Before(es[i], e)
    requires forall i :: k <= i < |es| ==> Before(e, es[i])
    ensures Ordered(InsertAt(es, k, e), m[e.member := e.score])
  {
    InsertAtSorted(es, k, e);
    InsertAtRepresents(es, m, k, e);
  }

  lemma RemoveAtSorted(es: seq<ZEntry>, k: nat)
    requires Sorted(es) && UniqueMembers(es) && k < |es|
    ensures Sorted(RemoveAt(es, k)) && UniqueMembers(RemoveAt(es, k))
  {
    var es' := RemoveAt(es, k);
    forall i, j | 0 <= i < j < |es'| ensures Before(es'[i], es'[j]) && es'[i].member != es'[j].member {
      var x := if i < k then i else i + 1;
      var y := if j < k then j else j + 1;
      assert es'[i] == es[x] && es'[j] == es[y];
    }
  }

  lemma RemoveAtRepresents(es: seq<ZEntry>, m: map<Member, real>, k: nat)
    requires Represents(es, m) && UniqueMembers(es) && k < |es|
    ensures Represents(RemoveAt(es, k), m - {es[k].member})
  {
    var es', m' := RemoveAt(es, k), m - {es[k].member};
    forall i | 0 <= i < |es'| ensures es'[i].member in m' && m'[es'[i].member] == es'[i].score {
      var x := if i < k then i else i + 1;
      assert es'[i] == es[x] && es[x].member != es[k].member;
    }
    forall q | q in m' ensures exists i :: MemberAt(es', i, q) {
      var i :| MemberAt(es, i, q);
      assert MemberAt(es', if i < k then i else i - 1, q);
    }
  }

  lemma RemoveAtOrdered(es: seq<ZEntry>, m: map<Member, real>, k: nat)
    requires Ordered(es, m) && k < |es|
    ensures Ordered(RemoveAt(es, k), m - {es[k].member})
  {
    RemoveAtSorted(es, k);
    RemoveAtRepresents(es, m, k);
  }

  /** `drain(lo..hi)`. */
  function Drain(es: seq<ZEntry>, lo: nat, hi: nat): seq<ZEntry>
    requires lo <= hi <= |es|
  {
    es[..lo] + es[hi..]
  }

  ghost function Members(es: seq<ZEntry>): set<Member> {
    set e | e in es :: e.member
  }

  lemma DrainSorted(es: seq<ZEntry>, lo: nat, hi: nat)
    requires Sorted(es) && UniqueMembers(es) && lo <= hi <= |es|
    ensures Sorted(Drain(es, lo, hi)) && UniqueMembers(Drain(es, lo, hi))
  {
    var es' := Drain(es, lo, hi);
    forall i, j | 0 <= i < j < |es'| ensures Before(es'[i], es'[j]) && es'[i].member != es'[j].member {
      var x := if i < lo then i else i + (hi - lo);
      var y := if j < lo then j else j + (hi - lo);
      assert es'[i] == es[x] && es'[j] == es[y];
    }
  }

  lemma DrainRepresents(es: seq<ZEntry>, m: map<Member, real>, lo: nat, hi: nat)
    requires Represents(es, m) && UniqueMembers(es) && lo <= hi <= |es|
    ensures Represents(Drain(es, lo, hi), m - Members(es[lo..hi]))
  {
    var es', m' := Drain(es, lo, hi), m - Members(es[lo..hi]);
    forall i | 0 <= i < |es'| ensures es'[i].member in m' && m'[es'[i].member] == es'[i].score {
      var x := if i < lo then i else i + (hi - lo);
      assert es'[i] == es[x];
      OutsideDrained(es, lo, hi, x);
    }
    forall q | q in m' ensures exists i :: MemberAt(es', i, q) {
      var i :| MemberAt(es, i, q);
      DrainedMember(es, lo, hi, i);
      assert MemberAt(es', if i < lo then i else i - (hi - lo), q);
    }
  }

  lemma OutsideDrained(es: seq<ZEntry>, lo: nat, hi: nat, x: nat)
    requires UniqueMembers(es) && lo <= hi <= |es| && x < |es| && !(lo <= x < hi)
    ensures es[x].member !in Members(es[lo..hi])
  {
    forall e <- es[lo..hi] ensures e.member != es[x].member {
      var y :| 0 <= y < hi - lo && es[lo..hi][y] == e;
      assert e == es[lo + y];
    }
  }

  lemma DrainedMember(es: seq<ZEntry>, lo: nat, hi: nat, i: nat)
    requires lo <= hi <= |es| && i < |es|
    ensures lo <= i < hi ==> es[i].member in Members(es[lo..hi])
  {
    if lo <= i < hi {
      assert es[lo..hi][i - lo] == es[i];
    }
  }

  /** Removing [lo, hi) removes exactly those members. */
  lemma DrainOrdered(es: seq<ZEntry>, m: map<Member, real>, lo: nat, hi: nat)
    requires Ordered(es, m) && lo <= hi <= |es|
    ensures Ordered(Drain(es, lo, hi), m - Members(es[lo..hi]))
  {
    DrainSorted(es, lo, hi);
    DrainRepresents(es, m, lo, hi);
  }

  lemma EmptyOrdered(es: seq<ZEntry>, m: map<Member, real>)
    requires Represents(es, m)
    ensures es == [] <==> m == map[]
  {
    if es == [] {
      assert forall i, k :: !MemberAt(es, i, k);
    } else {
      assert es[0].member in m;
    }
  }

  /** Two sorted vectors of one map start with the same entry. */
  lemma SameFirst(es: seq<ZEntry>, fs: seq<ZEntry>, m: map<Member, real>)
    requires Ordered(es, m) && Ordered(fs, m) && es != [] && fs != []
    ensures es[0] == fs[0]
  {
    assert es[0].member in m && fs[0].member in m;
    var i :| MemberAt(fs, i, es[0].member);
    var j :| MemberAt(es, j, fs[0].member);
    assert fs[i] == es[0] && es[j] == fs[0];
    BeforeTotal(es[0], fs[0]);
  }

  lemma HeadAndRest(es: seq<ZEntry>)
    requires es != []
    ensures es == [es[0]] + RemoveAt(es, 0)
  {}

  /** The map fixes the vector: there is one sorted vector for it, so ranks and
      ranges are functions of the map. */
  lemma {:induction false} OrderedUnique(es: seq<ZEntry>, fs: seq<ZEntry>, m: map<Member, real>)
    requires Ordered(es, m) && Ordered(fs, m)
    ensures es == fs
    decreases |es|
  {
    EmptyOrdered(es, m);
    EmptyOrdered(fs, m);
    if es != [] {
      SameFirst(es, fs, m);
      RemoveAtOrdered(es, m, 0);
      RemoveAtOrdered(fs, m, 0);
      OrderedUnique(RemoveAt(es, 0), RemoveAt(fs, 0), m - {es[0].member});
      HeadAndRest(es);
      HeadAndRest(fs);
    }
  }

  // ----- the bloom filter --------------------------------------------------------------

  /** `u64::rotate_left(31)`. */
  function RotateLeft31(h: nat): nat {
    (h * 0x8000_0000) % 0x1_0000_0000_0000_0000 + h / 0x2_0000_0000
  }

  /** Both bits of a hash are set: `bloom_maybe_contains`. */
  predicate MaybeContains(bloom: seq<bool>, h: nat)
    requires |bloom| > 0
  {
    bloom[h % |bloom|] && bloom[RotateLeft31(h) % |bloom|]
  }

  function BloomSet(bloom: seq<bool>, h: nat): (b: seq<bool>)
    requires |bloom| > 0
    ensures |b| == |bloom| && MaybeContains(b, h)
    ensures forall g :: MaybeContains(bloom, g) ==> MaybeContains(b, g)
  {
    bloom[h % |bloom| := true][RotateLeft31(h) % |bloom| := true]
  }

  /** The number of bits a filter for n members gets: whole 64-bit words. */
  function BloomBits(n: nat): (bits: nat)
    ensures bits >= 64 && bits % 64 == 0
  {
    var wanted := NextPow2(n * 8);
    var words := (if wanted < 64 then 64 else wanted) / 64;
    64 * (if words < 1 then 1 else words)
  }

  /** Every member of the vector passes the filter. */
  ghost predicate NoFalseNegatives(es: seq<ZEntry>, bloom: seq<bool>, hash: Member -> nat) {
    |bloom| > 0 && forall e <- es :: MaybeContains(bloom, hash(e.member))
  }

  class ZSetData {
    const hash: Member -> nat
    var entries: seq<ZEntry>
    var bloom: seq<bool>
    ghost var Scores: map<Member, real>

    ghost predicate Valid()
      reads this
    {
      Ordered(entries, Scores) && NoFalseNegatives(entries, bloom, hash)
    }

    constructor (hash: Member -> nat)
      ensures Valid() && Scores == map[]
    {
      this.hash := hash;
      entries := [];
      bloom := seq(64, _ => false);
      Scores := map[];
    }

    /** The scan for a member. */
    method Position(member: Member) returns (r: Option<nat>)
      requires Valid()
      ensures r.None? <==> member !in Scores
      ensures r.Some? ==> r.value < |entries| && entries[r.value].member == member &&
                          entries[r.value].score == Scores[member]
    {
      var i := 0;
      while i < |entries|
        invariant 0 <= i <= |entries| && forall j :: 0 <= j < i ==> !MemberAt(entries, j, member)
      {
        if entries[i].member == member {
          return Some(i);
        }
        i := i + 1;
      }
      r := None;
    }

    /** `bloom_rebuild`: a fresh filter of the right size holding every member. */
    method BloomRebuild()
      modifies this`bloom
      ensures NoFalseNegatives(entries, bloom, hash) && |bloom| == BloomBits(|entries|)
    {
      bloom := seq(BloomBits(|entries|), _ => false);
      var i := 0;
      while i < |entries|
        invariant 0 <= i <= |entries| && |bloom| == BloomBits(|entries|)
        invariant forall j :: 0 <= j < i ==> MaybeContains(bloom, hash(entries[j].member))
      {
        bloom := BloomSet(bloom, hash(entries[i].member));
        i := i + 1;
      }
    }

    /** Put an absent member where the order wants it. */
    method Place(score: real, member: Member)
      requires Ordered(entries, Scores) && member !in Scores
      modifies this`entries, this`Scores
      ensures Ordered(entries, Scores) && Scores == old(Scores)[member := score]
      ensures forall e <- entries :: e.member == member || e in old(entries)
    {
      var e := ZEntry(score, member);
      InsertPosSplits(entries, e);
      var k := FindInsertPos(entries, e);
      InsertAtOrdered(entries, Scores, k, e);
      entries := InsertAt(entries, k, e);
      Scores := Scores[member := score];
    }

    /** Take out the entry at a position and put its member back with a new score. */
    method Move(pos: nat, score: real)
      requires Valid() && pos < |entries|
      modifies this`entries, this`Scores
      ensures Valid() && Scores == old(Scores)[old(entries)[pos].member := score]
    {
      ghost var was, m := entries, Scores;
      var member := entries[pos].member;
      Rebinding(m, member, score);
      RemoveAtOrdered(entries, Scores, pos);
      entries := RemoveAt(entries, pos);
      Scores := Scores - {member};
      Place(score, member);
      FilterKept(was, pos, entries, bloom, hash);
    }

    /** `insert`: a score change of at most EPSILON is ignored. */
    method Insert(score: real, member: Member) returns (isNew: bool)
      requires Valid()
      modifies this
      ensures Valid() && isNew == (member !in old(Scores))
      ensures Scores == if !isNew && -1.0 <= (old(Scores)[member] - score) * 4503599627370496.0 <= 1.0 then old(Scores)
                        else old(Scores)[member := score]
    {
      var h := hash(member);
      if MaybeContains(bloom, h) {
        if |entries| > 0 && entries[|entries| - 1].member == member {
          var last := entries[|entries| - 1];
          if Abs(last.score - score) > EPSILON {
            Move(|entries| - 1, score);
          }
          return false;
        }
        var pos := Position(member);
        if pos.Some? {
          if Abs(entries[pos.value].score - score) > EPSILON {
            Move(pos.value, score);
          }
          return false;
        }
      }
      MissMeansAbsent(entries, Scores, bloom, hash, member);
      Append(score, member);
      bloom := BloomSet(bloom, h);
      if |entries| * 8 > |bloom| {
        BloomRebuild();
      }
      isNew := true;
    }

    /** `remove`. */
    method Remove(member: Member) returns (r: Option<real>)
      requires Valid()
      modifies this
      ensures Valid() && Scores == old(Scores) - {member}
      ensures r == if member in old(Scores) then Some(old(Scores)[member]) else None
    {
      var pos := Position(member);
      if pos.None? {
        return None;
      }
      r := Some(entries[pos.value].score);
      RemoveAtOrdered(entries, Scores, pos.value);
      entries := RemoveAt(entries, pos.value);
      Scores := Scores - {member};
    }

    /** `remove_range_by_rank`: end is exclusive and clamped. */
    method RemoveRangeByRank(start: nat, end: nat) returns (count: nat)
      requires Valid()
      modifies this
      ensures Valid()
      ensures var hi := if end < |old(entries)| then end else |old(entries)|;
              var lo := if start < hi then start else hi;
              && count == hi - lo
              && entries == Drain(old(entries), lo, hi)
              && Scores == old(Scores) - Members(old(entries)[lo..hi])
    {
      var hi := if end < |entries| then end else |entries|;
      var lo := if start < hi then start else hi;
      DrainOrdered(entries, Scores, lo, hi);
      ghost var gone := Members(entries[lo..hi]);
      if start >= hi {
        assert entries == Drain(entries, lo, hi) && gone == {} && Scores == Scores - gone;
        return 0;
      }
      entries := Drain(entries, lo, hi);
      Scores := Scores - gone;
      count := hi - lo;
    }

    /** `remove_range_by_score`: exactly the members with a score in the range
        go, also when the range is empty or reversed. */
    method RemoveRangeByScore(min: real, max: real) returns (count: nat)
      requires Valid()
      modifies this
      ensures Valid()
      ensures Scores == map k | k in old(Scores) && !(min <= old(Scores)[k] <= max) :: old(Scores)[k]
      ensures count == |old(entries)| - |entries|
    {
      var lo, hi := RangeStart(entries, min), RangeEnd(entries, max);
      OutsideRange(entries, Scores, min, max);
      if lo >= hi {
        return 0;
      }
      DrainOrdered(entries, Scores, lo, hi);
      ghost var gone := Members(entries[lo..hi]);
      entries := Drain(entries, lo, hi);
      Scores := Scores - gone;
      count := hi - lo;
    }

    /** `pop_min` and `pop_max`: the first or last entry in order. */
    method PopMin() returns (r: Option<ZEntry>)
      requires Valid()
      modifies this
      ensures Valid()
      ensures if old(Scores) == map[] then r == None && Scores == old(Scores)
              else && r.Some? && r.value.member in old(Scores) && old(Scores)[r.value.member] == r.value.score
                   && Scores == old(Scores) - {r.value.member}
                   && forall k :: k in Scores ==>
                        Before(r.value, ZEntry(Scores[k], k)) && r.value.score <= Scores[k]
    {
      EmptyOrdered(entries, Scores);
      if entries == [] {
        return None;
      }
      r := Some(entries[0]);
      RemoveAtOrdered(entries, Scores, 0);
      EndsAreExtreme(entries, Scores);
      entries := RemoveAt(entries, 0);
      Scores := Scores - {r.value.member};
    }

    method PopMax() returns (r: Option<ZEntry>)
      requires Valid()
      modifies this
      ensures Valid()
      ensures if old(Scores) == map[] then r == None && Scores == old(Scores)
              else && r.Some? && r.value.member in old(Scores) && old(Scores)[r.value.member] == r.value.score
                   && Scores == old(Scores) - {r.value.member}
                   && forall k :: k in Scores ==>
                        Before(ZEntry(Scores[k], k), r.value) && Scores[k] <= r.value.score
    {
      EmptyOrdered(entries, Scores);
      if entries == [] {
        return None;
      }
      var n := |entries| - 1;
      r := Some(entries[n]);
      RemoveAtOrdered(entries, Scores, n);
      EndsAreExtreme(entries, Scores);
      assert RemoveAt(entries, n) == entries[..n];
      entries := entries[..n];
      Scores := Scores - {r.value.member};
    }

    /** `incr`: the score moves by exactly the increment. */
    method Incr(member: Member, increment: real) returns (score: real)
      requires Valid()
      modifies this
      ensures Valid()
      ensures score == (if member in old(Scores) then old(Scores)[member] else 0.0) + increment
      ensures Scores == old(Scores)[member := score]
    {
      var at := Position(member);
      if at.None? {
        var isNew := Insert(increment, member);
        return increment;
      }
      var pos := at.value;
      score := entries[pos].score + increment;
      var e := ZEntry(score, member);
      var stays :=
        && (pos == 0 || entries[pos - 1].score < score ||
            (entries[pos - 1].score == score && (entries[pos - 1].member == member || Less(entries[pos - 1].member, member))))
        && (pos >= |entries| - 1 || entries[pos + 1].score > score ||
            (entries[pos + 1].score == score && (entries[pos + 1].member == member || Less(member, entries[pos + 1].member))));
      if stays {
        StaysOrdered(entries, Scores, pos, e);
        FilterStays(entries, pos, e, bloom, hash);
        entries := entries[pos := e];
        Scores := Scores[member := score];
      } else {
        Move(pos, score);
      }
    }

    /** `shrink_to_fit`: the filter is rebuilt, the set is the same. */
    method ShrinkToFit()
      requires Valid()
      modifies this
      ensures Valid() && entries == old(entries) && Scores == old(Scores)
    {
      BloomRebuild();
    }

    /** `get_score`. */
    method GetScore(member: Member) returns (r: Option<real>)
      requires Valid()
      ensures r == if member in Scores then Some(Scores[member]) else None
    {
      var at := Position(member);
      r := if at.Some? then Some(entries[at.value].score) else None;
    }

    /** `rank`: how many members come before. */
    method Rank(member: Member) returns (r: Option<nat>)
      requires Valid()
      ensures r.None? <==> member !in Scores
      ensures r.Some? ==> r.value == |set k | k in Scores && Before(ZEntry(Scores[k], k), ZEntry(Scores[member], member))|
    {
      r := Position(member);
      if r.Some? {
        RankCounts(entries, Scores, r.value);
      }
    }

    /** The ascending fast path, or the binary search. */
    method Append(score: real, member: Member)
      requires Ordered(entries, Scores) && member !in Scores
      modifies this`entries, this`Scores
      ensures Ordered(entries, Scores) && Scores == old(Scores)[member := score]
      ensures forall e <- entries :: e.member == member || e in old(entries)
    {
      var n := |entries|;
      if n == 0 || entries[n - 1].score < score ||
         (entries[n - 1].score == score && (entries[n - 1].member == member || Less(entries[n - 1].member, member))) {
        var e := ZEntry(score, member);
        forall i | 0 <= i < n ensures Before(entries[i], e) {
          if i < n - 1 { BeforeTransitive(entries[i], entries[n - 1], e); }
        }
        InsertAtOrdered(entries, Scores, n, e);
        assert InsertAt(entries, n, e) == entries + [e];
        entries := entries + [e];
        Scores := Scores[member := score];
      } else {
        Place(score, member);
      }
    }
  }

  lemma Rebinding(m: map<Member, real>, a: Member, score: real)
    ensures (m - {a})[a := score] == m[a := score]
  {}

  lemma FilterKept(was: seq<ZEntry>, pos: nat, now: seq<ZEntry>, bloom: seq<bool>, hash: Member -> nat)
    requires NoFalseNegatives(was, bloom, hash) && pos < |was|
    requires forall e <- now :: e.member == was[pos].member || e in RemoveAt(was, pos)
    ensures NoFalseNegatives(now, bloom, hash)
  {
    assert was[pos] in was;
    assert forall e <- RemoveAt(was, pos) :: e in was;
  }

  /** Every other member lies after the first entry and before the last. */
  lemma EndsAreExtreme(es: seq<ZEntry>, m: map<Member, real>)
    requires Ordered(es, m) && es != []
    ensures forall k :: k in m && k != es[0].member ==> Before(es[0], ZEntry(m[k], k))
    ensures forall k :: k in m && k != es[|es| - 1].member ==> Before(ZEntry(m[k], k), es[|es| - 1])
  {
    forall k | k in m
      ensures k != es[0].member ==> Before(es[0], ZEntry(m[k], k))
      ensures k != es[|es| - 1].member ==> Before(ZEntry(m[k], k), es[|es| - 1])
    {
      var i :| MemberAt(es, i, k);
      assert es[i] == ZEntry(m[k], k);
    }
  }

  lemma StaysSorted(es: seq<ZEntry>, pos: nat, e: ZEntry)
    requires Sorted(es) && UniqueMembers(es) && pos < |es| && es[pos].member == e.member
    requires pos > 0 ==> Before(es[pos - 1], e)
    requires pos + 1 < |es| ==> Before(e, es[pos + 1])
    ensures Sorted(es[pos := e]) && UniqueMembers(es[pos := e])
  {
    forall i | 0 <= i < pos ensures Before(es[i], e) {
      if i < pos - 1 { BeforeTransitive(es[i], es[pos - 1], e); }
    }
    forall j | pos < j < |es| ensures Before(e, es[j]) {
      if pos + 1 < j { BeforeTransitive(e, es[pos + 1], es[j]); }
    }
  }

  lemma StaysRepresents(es: seq<ZEntry>, m: map<Member, real>, pos: nat, e: ZEntry)
    requires Represents(es, m) && UniqueMembers(es) && pos < |es| && es[pos].member == e.member
    ensures Represents(es[pos := e], m[e.member := e.score])
  {
    var es', m' := es[pos := e], m[e.member := e.score];
    forall k | k in m' ensures exists i :: MemberAt(es', i, k) {
      if k == e.member {
        assert MemberAt(es', pos, k);
      } else {
        var i :| MemberAt(es, i, k);
        assert MemberAt(es', i, k);
      }
    }
  }

  /** A score that still fits between its neighbours may be written in place. */
  lemma StaysOrdered(es: seq<ZEntry>, m: map<Member, real>, pos: nat, e: ZEntry)
    requires Ordered(es, m) && pos < |es| && es[pos].member == e.member
    requires pos > 0 ==> Before(es[pos - 1], e)
    requires pos + 1 < |es| ==> Before(e, es[pos + 1])
    ensures Ordered(es[pos := e], m[e.member := e.score])
  {
    StaysSorted(es, pos, e);
    StaysRepresents(es, m, pos, e);
  }

  lemma FilterStays(es: seq<ZEntry>, pos: nat, e: ZEntry, bloom: seq<bool>, hash: Member -> nat)
    requires NoFalseNegatives(es, bloom, hash) && pos < |es| && es[pos].member == e.member
    ensures NoFalseNegatives(es[pos := e], bloom, hash)
  {
    assert es[pos] in es;
    assert forall x <- es[pos := e] :: x == e || x in es;
  }

  /** The members before an entry are those of the prefix, as many as its index. */
  lemma RankCounts(es: seq<ZEntry>, m: map<Member, real>, r: nat)
    requires Ordered(es, m) && r < |es|
    ensures r == |set k | k in m && Before(ZEntry(m[k], k), es[r])|
  {
    var before := set k | k in m && Before(ZEntry(m[k], k), es[r]);
    forall k ensures k in before <==> k in Members(es[..r]) {
      if k in before {
        var i :| MemberAt(es, i, k);
        assert es[i] == ZEntry(m[k], k);
        BeforeTotal(es[i], es[r]);
        assert i < r;
        assert es[..r][i] == es[i];
      }
      if k in Members(es[..r]) {
        var e :| e in es[..r] && e.member == k;
        var i :| 0 <= i < r && es[..r][i] == e;
        assert es[i] == e == ZEntry(m[k], k);
      }
    }
    assert before == Members(es[..r]);
    MembersSize(es[..r]);
  }

  lemma MembersLast(init: seq<ZEntry>, last: ZEntry)
    requires forall e <- init :: e.member != last.member
    ensures Members(init + [last]) == Members(init) + {last.member}
    ensures |Members(init + [last])| == |Members(init)| + 1
  {
    var all := Members(init + [last]);
    assert all == Members(init) + {last.member};
  }

  lemma {:induction false} MembersSize(es: seq<ZEntry>)
    requires UniqueMembers(es)
    ensures |Members(es)| == |es|
  {
    if es == [] {
      assert Members(es) == {};
    } else {
      var n := |es| - 1;
      MembersSize(es[..n]);
      forall e <- es[..n] ensures e.member != es[n].member {
        var i :| 0 <= i < n && es[..n][i] == e;
        assert e == es[i];
      }
      MembersLast(es[..n], es[n]);
      assert es == es[..n] + [es[n]];
    }
  }

  // ----- score ranges -------------------------------------------------------------------

  /** The linear filter. */
  function InScores(es: seq<ZEntry>, min: real, max: real): seq<ZEntry> {
    if es == [] then []
    else if min <= es[0].score <= max then [es[0]] + InScores(es[1..], min, max)
    else InScores(es[1..], min, max)
  }

  function RangeStart(es: seq<ZEntry>, min: real): (k: nat)
    ensures k <= |es|
  {
    PartitionPoint(es, (e: ZEntry) => e.score < min, 0, |es|)
  }

  function RangeEnd(es: seq<ZEntry>, max: real): (k: nat)
    ensures k <= |es|
  {
    PartitionPoint(es, (e: ZEntry) => e.score <= max, 0, |es|)
  }

  lemma RangeBounds(es: seq<ZEntry>, min: real, max: real)
    requires Sorted(es)
    ensures forall i :: 0 <= i < |es| ==> (i < RangeStart(es, min) <==> es[i].score < min)
    ensures forall i :: 0 <= i < |es| ==> (i < RangeEnd(es, max) <==> es[i].score <= max)
  {
    assert forall i, j :: 0 <= i < j < |es| ==> es[i].score <= es[j].score;
    PartitionPointExact(es, (e: ZEntry) => e.score < min, 0, |es|);
    PartitionPointExact(es, (e: ZEntry) => e.score <= max, 0, |es|);
  }

  /** What the searches leave out of the slice is what the range leaves out. */
  lemma OutsideRange(es: seq<ZEntry>, m: map<Member, real>, min: real, max: real)
    requires Ordered(es, m)
    ensures var lo, hi := RangeStart(es, min), RangeEnd(es, max);
            (if lo < hi then m - Members(es[lo..hi]) else m) ==
              map k | k in m && !(min <= m[k] <= max) :: m[k]
  {
    forall k | k in m
      ensures min <= m[k] <= max <==> RangeStart(es, min) < RangeEnd(es, max) &&
                                      k in Members(es[RangeStart(es, min)..RangeEnd(es, max)])
    {
      InRangeMember(es, m, min, max, k);
    }
  }

  lemma InRangeMember(es: seq<ZEntry>, m: map<Member, real>, min: real, max: real, k: Member)
    requires Ordered(es, m) && k in m
    ensures min <= m[k] <= max <==> RangeStart(es, min) < RangeEnd(es, max) &&
                                    k in Members(es[RangeStart(es, min)..RangeEnd(es, max)])
  {
    RangeBounds(es, min, max);
    var lo, hi := RangeStart(es, min), RangeEnd(es, max);
    var i :| MemberAt(es, i, k);
    if lo <= i < hi {
      assert es[lo..hi][i - lo] == es[i];
    }
    if lo < hi && k in Members(es[lo..hi]) {
      var j :| 0 <= j < hi - lo && es[lo..hi][j].member == k;
      assert es[lo + j].member == k;
    }
  }

  /** The slice between the two searches is out of order, and slicing panics,
      exactly when some score lies strictly between max and min. */
  lemma RangeInOrderIff(es: seq<ZEntry>, min: real, max: real)
    requires Sorted(es)
    ensures RangeStart(es, min) <= RangeEnd(es, max) <==>
              forall i :: 0 <= i < |es| ==> !(max < es[i].score < min)
  {
    RangeBounds(es, min, max);
    var k := RangeEnd(es, max);
    if k < RangeStart(es, min) {
      assert max < es[k].score < min;
    }
  }

  lemma {:induction false} InScoresAll(es: seq<ZEntry>, min: real, max: real)
    requires forall e <- es :: min <= e.score <= max
    ensures InScores(es, min, max) == es
  {
    if es != [] { InScoresAll(es[1..], min, max); }
  }

  lemma {:induction false} InScoresNone(es: seq<ZEntry>, min: real, max: real)
    requires forall e <- es :: !(min <= e.score <= max)
    ensures InScores(es, min, max) == []
  {
    if es != [] { InScoresNone(es[1..], min, max); }
  }

  lemma {:induction false} InScoresConcat(a: seq<ZEntry>, b: seq<ZEntry>, min: real, max: real)
    ensures InScores(a + b, min, max) == InScores(a, min, max) + InScores(b, min, max)
  {
    if a == [] {
      assert a + b == b;
    } else {
      assert (a + b)[1..] == a[1..] + b;
      InScoresConcat(a[1..], b, min, max);
    }
  }

  /** Where it is in order, the slice is the linear filter. */
  lemma RangeIsFilter(es: seq<ZEntry>, min: real, max: real)
    requires Sorted(es) && RangeStart(es, min) <= RangeEnd(es, max)
    ensures es[RangeStart(es, min)..RangeEnd(es, max)] == InScores(es, min, max)
  {
    RangeBounds(es, min, max);
    FilterOfParts(es, RangeStart(es, min), RangeEnd(es, max), min, max);
  }

  lemma FilterOfParts(es: seq<ZEntry>, lo: nat, hi: nat, min: real, max: real)
    requires lo <= hi <= |es|
    requires forall i :: 0 <= i < |es| ==> (min <= es[i].score <= max <==> lo <= i < hi)
    ensures es[lo..hi] == InScores(es, min, max)
  {
    var a, b, c := es[..lo], es[lo..hi], es[hi..];
    assert es == a + b + c;
    InScoresConcat(a + b, c, min, max);
    InScoresConcat(a, b, min, max);
    InScoresNone(a, min, max);
    InScoresAll(b, min, max);
    InScoresNone(c, min, max);
  }

  /** `range_by_score` and its reverse: none stands for the panic. */
  function RangeByScore(es: seq<ZEntry>, min: real, max: real): (r: Option<seq<ZEntry>>)
    requires Sorted(es)
    ensures min <= max ==> r == Some(InScores(es, min, max))
    ensures r.None? <==> exists i :: 0 <= i < |es| && max < es[i].score < min
  {
    RangeInOrderIff(es, min, max);
    if RangeStart(es, min) <= RangeEnd(es, max) then
      RangeIsFilter(es, min, max);
      Some(es[RangeStart(es, min)..RangeEnd(es, max)])
    else None
  }

  /** One score between the bounds, taken the wrong way round, is enough. */
  lemma ReversedBoundsPanic(member: Member)
    ensures RangeByScore([ZEntry(1.0, member)], 2.0, 0.0) == None
  {
    assert 0.0 < [ZEntry(1.0, member)][0].score < 2.0;
  }

  const USIZE: nat := 0x1_0000_0000_0000_0000

  /** `count_in_score_range`: the difference of the two positions, modulo 2 to the power of 64. */
  function CountInScoreRange(es: seq<ZEntry>, min: real, max: real): nat {
    (RangeEnd(es, max) - RangeStart(es, min)) % USIZE
  }

  /** The count is that of the linear filter exactly when no score lies strictly between max and min. */
  lemma CountRightIff(es: seq<ZEntry>, min: real, max: real)
    requires Sorted(es) && |es| < USIZE
    ensures CountInScoreRange(es, min, max) == |InScores(es, min, max)| <==>
              forall i :: 0 <= i < |es| ==> !(max < es[i].score < min)
  {
    RangeInOrderIff(es, min, max);
    var n := RangeEnd(es, max) - RangeStart(es, min);
    if n >= 0 {
      RangeIsFilter(es, min, max);
    } else {
      NoneInReversed(es, min, max);
      assert n % USIZE == n + USIZE;
    }
  }

  lemma NoneInReversed(es: seq<ZEntry>, min: real, max: real)
    requires Sorted(es) && RangeStart(es, min) > RangeEnd(es, max)
    ensures InScores(es, min, max) == []
  {
    RangeInOrderIff(es, min, max);
    InScoresNone(es, min, max);
  }

  /** Inserting entries one after the other, each at its place. */
  function Inserted(es: seq<ZEntry>): seq<ZEntry> {
    if es == [] then [] else
      var front := Inserted(es[..|es| - 1]);
      InsertAt(front, FindInsertPos(front, es[|es| - 1]), es[|es| - 1])
  }

  /** What comes after all others goes to the end. */
  lemma InsertedLast(es: seq<ZEntry>, e: ZEntry)
    requires Sorted(es) && forall i :: 0 <= i < |es| ==> Before(es[i], e) && es[i].member != e.member
    ensures FindInsertPos(es, e) == |es|
  {
    var k := FindInsertPos(es, e);
    InsertPosSplits(es, e);
    if k < |es| {
      BeforeTotal(es[k], e);
    }
  }

  lemma InitOrdered(es: seq<ZEntry>)
    requires Sorted(es) && UniqueMembers(es) && es != []
    ensures var front, last := es[..|es| - 1], es[|es| - 1];
            Sorted(front) && UniqueMembers(front) && InsertAt(front, |front|, last) == es &&
            forall i :: 0 <= i < |front| ==> Before(front[i], last) && front[i].member != last.member
  {
  }

  /** A sorted set inserted again in its own order comes back the same. */
  lemma {:induction false} ReinsertedInOrder(es: seq<ZEntry>)
    requires Sorted(es) && UniqueMembers(es)
    ensures Inserted(es) == es
  {
    if es != [] {
      InitOrdered(es);
      ReinsertedInOrder(es[..|es| - 1]);
      InsertedLast(es[..|es| - 1], es[|es| - 1]);
    }
  }

  function Abs(x: real): real { if x < 0.0 then -x else x }

  /** A miss in the filter, or an unsuccessful scan, means the member is absent. */
  lemma MissMeansAbsent(es: seq<ZEntry>, m: map<Member, real>, bloom: seq<bool>, hash: Member -> nat, member: Member)
    requires Represents(es, m) && NoFalseNegatives(es, bloom, hash)
    ensures !MaybeContains(bloom, hash(member)) ==> member !in m
  {
    if member in m {
      var i :| MemberAt(es, i, member);
      assert es[i] in es;
    }
  }
}
