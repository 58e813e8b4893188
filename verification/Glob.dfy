/** The glob matcher of KEYS, SCAN and PSUBSCRIBE: a greedy loop that remembers
    the last star and backtracks to it, against the recursive meaning of `*`
    and `?`. */
module Glob {
  import opened Bytes

  const STAR: byte := 42
  const QUESTION: byte := 63

  /** `*` stands for any bytes, `?` for one byte, any other byte for itself. */
  predicate Matches(p: seq<byte>, s: seq<byte>)
    decreases |p| + |s|
  {
    if p == [] then s == []
    else if p[0] == STAR then Matches(p[1..], s) || (s != [] && Matches(p, s[1..]))
    else s != [] && Fits(p[0], s[0]) && Matches(p[1..], s[1..])
  }

  predicate Fits(c: byte, x: byte) { c == QUESTION || c == x }

  /** Cuts of s into as many pieces as the pattern has bytes, each of which fits its byte. */
  ghost predicate Cuts(p: seq<byte>, s: seq<byte>, c: seq<nat>) {
    && |c| == |p| + 1 && c[0] == 0 && c[|p|] == |s|
    && forall i :: 0 <= i < |p| ==> PieceFits(p[i], s, c[i], c[i + 1])
  }

  /** A star takes any piece, a question mark one byte, any other byte itself. */
  predicate PieceFits(b: byte, s: seq<byte>, from: nat, to: nat) {
    from <= to <= |s| && (b == 42 || (to == from + 1 && (b == 63 || b == s[from])))
  }

  /** The pattern means a subject exactly when the subject can be cut to fit it. */
  lemma MatchesIff(p: seq<byte>, s: seq<byte>)
    ensures Matches(p, s) <==> exists c :: Cuts(p, s, c)
  {
    if Matches(p, s) {
      var c := CutsOf(p, s);
    }
    forall c | Cuts(p, s, c) ensures Matches(p, s) {
      assert s[0..] == s && p[0..] == p;
      CutsMatch(p, s, c, 0);
    }
  }

  lemma {:induction false} CutsOf(p: seq<byte>, s: seq<byte>) returns (c: seq<nat>)
    requires Matches(p, s)
    ensures Cuts(p, s, c)
    decreases |p| + |s|
  {
    if p == [] {
      c := [0];
    } else if p[0] == STAR && Matches(p[1..], s) {
      var c' := CutsOf(p[1..], s);
      c := [0] + c';
      CutsOn(p, s, c', c);
    } else if p[0] == STAR {
      var c' := CutsOf(p, s[1..]);
      c := [0] + Shifted(c'[1..]);
      forall i | 0 <= i < |p| ensures PieceFits(p[i], s, c[i], c[i + 1]) {
        assert PieceFits(p[i], s[1..], c'[i], c'[i + 1]);
      }
    } else {
      var c' := CutsOf(p[1..], s[1..]);
      c := [0] + Shifted(c');
      forall i | 0 <= i < |p| ensures PieceFits(p[i], s, c[i], c[i + 1]) {
        if i > 0 {
          assert PieceFits(p[1..][i - 1], s[1..], c'[i - 1], c'[i]);
        }
      }
    }
  }

  function Shifted(c: seq<nat>): (r: seq<nat>)
    ensures |r| == |c| && forall i :: 0 <= i < |c| ==> r[i] == c[i] + 1
  {
    seq(|c|, i requires 0 <= i < |c| => c[i] + 1)
  }

  lemma CutsOn(p: seq<byte>, s: seq<byte>, c': seq<nat>, c: seq<nat>)
    requires p != [] && p[0] == STAR && Cuts(p[1..], s, c') && c == [0] + c'
    ensures Cuts(p, s, c)
  {
    forall i | 0 <= i < |p| ensures PieceFits(p[i], s, c[i], c[i + 1]) {
      if i > 0 {
        assert PieceFits(p[1..][i - 1], s, c'[i - 1], c'[i]);
      }
    }
  }

  /** A star can take the bytes up to any later place from which the rest of the pattern fits. */
  lemma {:induction false} StarTakes(p: seq<byte>, s: seq<byte>, n: nat)
    requires p != [] && p[0] == STAR && n <= |s| && Matches(p[1..], s[n..])
    ensures Matches(p, s)
    decreases n
  {
    if n == 0 {
      assert s[0..] == s;
    } else {
      assert s[1..][n - 1..] == s[n..];
      StarTakes(p, s[1..], n - 1);
    }
  }

  lemma {:induction false} CutsMatch(p: seq<byte>, s: seq<byte>, c: seq<nat>, i: nat)
    requires Cuts(p, s, c) && i <= |p|
    ensures c[i] <= |s| && Matches(p[i..], s[c[i]..])
    decreases |p| - i
  {
    if i < |p| {
      assert PieceFits(p[i], s, c[i], c[i + 1]);
      CutsMatch(p, s, c, i + 1);
      assert p[i..][1..] == p[i + 1..];
      assert s[c[i]..][c[i + 1] - c[i]..] == s[c[i + 1]..];
      if p[i] == STAR {
        StarTakes(p[i..], s[c[i]..], c[i + 1] - c[i]);
      }
    }
  }

  predicate AllStars(p: seq<byte>) {
    p == [] || (p[0] == STAR && AllStars(p[1..]))
  }

  /** What the loop returns from a given position. `star` is the index of the
      last star taken, or -1; `retry` is where its match ends so far. */
  predicate Greedy(p: seq<byte>, s: seq<byte>, pi: nat, si: nat, star: int, retry: nat)
    requires -1 <= star < pi <= |p| && retry <= si <= |s|
    decreases |p| - star, |s| - retry, |s| - si
  {
    if si == |s| then AllStars(p[pi..])
    else if pi < |p| && (p[pi] == QUESTION || p[pi] == s[si]) then Greedy(p, s, pi + 1, si + 1, star, retry)
    else if pi < |p| && p[pi] == STAR then Greedy(p, s, pi + 1, si, pi, si)
    else if star >= 0 then Greedy(p, s, star + 1, retry + 1, star, retry + 1)
    else false
  }

  predicate GlobResult(p: seq<byte>, s: seq<byte>) { Greedy(p, s, 0, 0, -1, 0) }

  /** `glob_match_bytes`. For a subject without a star byte the answer is the
      meaning of the pattern. */
  method GlobMatch(p: seq<byte>, s: seq<byte>) returns (r: bool)
    ensures r == GlobResult(p, s)
    ensures STAR !in s ==> r == Matches(p, s)
  {
    var pi, si: nat := 0, 0;
    var star, retry: nat := -1, 0;
    if STAR !in s { GreedyIsMatches(p, s); }
    while si < |s|
      invariant -1 <= star < pi <= |p| && retry <= si <= |s|
      invariant GlobResult(p, s) == Greedy(p, s, pi, si, star, retry)
      decreases |p| - star, |s| - retry, |s| - si
    {
      if pi < |p| && (p[pi] == QUESTION || p[pi] == s[si]) {
        pi := pi + 1;
        si := si + 1;
      } else if pi < |p| && p[pi] == STAR {
        star := pi;
        pi := pi + 1;
        retry := si;
      } else if star >= 0 {
        retry := retry + 1;
        si := retry;
        pi := star + 1;
      } else {
        return false;
      }
    }
    while pi < |p| && p[pi] == STAR
      invariant pi <= |p| && GlobResult(p, s) == AllStars(p[pi..])
    {
      assert p[pi..][1..] == p[pi + 1..];
      pi := pi + 1;
    }
    r := pi == |p|;
  }

  // ----- the greedy loop decides the meaning ---------------------------------------

  /** p[a..b] fits s[x..y] byte by byte and has no star. */
  ghost predicate Segment(p: seq<byte>, a: nat, b: nat, s: seq<byte>, x: nat, y: nat) {
    && a <= b <= |p| && x <= y <= |s| && b - a == y - x
    && (forall i :: a <= i < b ==> p[i] != STAR)
    && (forall i :: a <= i < b ==> Fits(p[i], s[x + (i - a)]))
  }

  /** A star may give back what it took: it also matches more. */
  lemma {:induction false} StarTakesMore(p: seq<byte>, s: seq<byte>, k: nat)
    requires p != [] && p[0] == STAR && k <= |s| && Matches(p, s[k..])
    ensures Matches(p, s)
    decreases k
  {
    if k > 0 {
      assert s[k - 1..][1..] == s[k..];
      StarTakesMore(p, s, k - 1);
    } else {
      assert s[0..] == s;
    }
  }

  /** A segment without stars matches in one way only. */
  lemma {:induction false} SegmentMatches(p: seq<byte>, a: nat, b: nat, s: seq<byte>, x: nat)
    requires a <= b <= |p| && x <= |s|
    requires forall i :: a <= i < b ==> p[i] != STAR
    ensures Matches(p[a..], s[x..]) <==>
              Segment(p, a, b, s, x, x + (b - a)) && Matches(p[b..], s[x + (b - a)..])
    decreases b - a
  {
    if a < b {
      assert p[a..][1..] == p[a + 1..];
      if x < |s| {
        assert s[x..][1..] == s[x + 1..];
        SegmentMatches(p, a + 1, b, s, x + 1);
        if Segment(p, a + 1, b, s, x + 1, x + (b - a)) && Fits(p[a], s[x]) {
          assert Segment(p, a, b, s, x, x + (b - a));
        }
        if Segment(p, a, b, s, x, x + (b - a)) {
          assert Fits(p[a], s[x + (a - a)]);
          assert Segment(p, a + 1, b, s, x + 1, x + (b - a));
        }
      }
    }
  }

  /** Choosing how much a star takes. */
  lemma {:induction false} StarChoice(p: seq<byte>, a: nat, s: seq<byte>, x: nat) returns (y: nat)
    requires a < |p| && p[a] == STAR && x <= |s| && Matches(p[a..], s[x..])
    ensures x <= y <= |s| && Matches(p[a + 1..], s[y..])
    decreases |s| - x
  {
    assert p[a..][1..] == p[a + 1..];
    if Matches(p[a + 1..], s[x..]) {
      y := x;
    } else {
      assert s[x..][1..] == s[x + 1..];
      y := StarChoice(p, a, s, x + 1);
    }
  }

  lemma StarOpens(p: seq<byte>, a: nat, s: seq<byte>, x: nat, y: nat)
    requires a < |p| && p[a] == STAR && x <= y <= |s| && Matches(p[a + 1..], s[y..])
    ensures Matches(p[a..], s[x..])
  {
    assert p[a..][1..] == p[a + 1..];
    assert s[x..][y - x..] == s[y..];
    StarTakesMore(p[a..], s[x..], y - x);
  }

  /** When the next star is reached, the earlier one need not be revisited. */
  lemma LastStarSuffices(p: seq<byte>, sp: nat, pi: nat, s: seq<byte>, retry: nat, si: nat)
    requires sp < pi < |p| && p[sp] == STAR && p[pi] == STAR
    requires Segment(p, sp + 1, pi, s, retry, si)
    ensures Matches(p[sp..], s[retry..]) <==> Matches(p[pi..], s[si..])
  {
    if Matches(p[sp..], s[retry..]) {
      var y := StarChoice(p, sp, s, retry);
      SegmentMatches(p, sp + 1, pi, s, y);
      var z := y + (pi - sp - 1);
      assert s[si..][z - si..] == s[z..];
      StarTakesMore(p[pi..], s[si..], z - si);
    }
    if Matches(p[pi..], s[si..]) {
      SegmentMatches(p, sp + 1, pi, s, retry);
      StarOpens(p, sp, s, retry, retry);
    }
  }

  /** A mismatch after the segment rules out the present end of the star. */
  lemma StarMovesOn(p: seq<byte>, sp: nat, pi: nat, s: seq<byte>, retry: nat, si: nat)
    requires sp < pi <= |p| && p[sp] == STAR && si < |s|
    requires Segment(p, sp + 1, pi, s, retry, si)
    requires pi < |p| ==> p[pi] != STAR && !Fits(p[pi], s[si])
    ensures Matches(p[sp..], s[retry..]) <==> Matches(p[sp..], s[retry + 1..])
  {
    assert p[sp..][1..] == p[sp + 1..] && s[retry..][1..] == s[retry + 1..];
    SegmentMatches(p, sp + 1, pi, s, retry);
    assert !Matches(p[pi..], s[si..]);
  }

  lemma {:induction false} StarsMatchEmpty(p: seq<byte>)
    ensures Matches(p, []) <==> AllStars(p)
  {
    if p != [] { StarsMatchEmpty(p[1..]); }
  }

  /** At the end of the subject only trailing stars may be left. */
  lemma EndOfSubject(p: seq<byte>, sp: nat, pi: nat, s: seq<byte>, retry: nat)
    requires sp < pi <= |p| && p[sp] == STAR && retry <= |s|
    requires Segment(p, sp + 1, pi, s, retry, |s|)
    ensures Matches(p[sp..], s[retry..]) <==> AllStars(p[pi..])
  {
    StarsMatchEmpty(p[pi..]);
    assert s[|s|..] == [];
    SegmentMatches(p, sp + 1, pi, s, retry);
    if Matches(p[sp..], s[retry..]) {
      var y := StarChoice(p, sp, s, retry);
      SegmentMatches(p, sp + 1, pi, s, y);
    }
    if AllStars(p[pi..]) {
      StarOpens(p, sp, s, retry, retry);
    }
  }

  /** The invariant of the loop, as the meaning it still has to decide. */
  lemma {:induction false} GreedyDecides(p: seq<byte>, s: seq<byte>, pi: nat, si: nat, star: int, retry: nat)
    requires -1 <= star < pi <= |p| && retry <= si <= |s| && STAR !in s
    requires star >= 0 ==> p[star] == STAR && Segment(p, star + 1, pi, s, retry, si)
    ensures Greedy(p, s, pi, si, star, retry) ==
              if star >= 0 then Matches(p[star..], s[retry..]) else Matches(p[pi..], s[si..])
    decreases |p| - star, |s| - retry, |s| - si
  {
    if si == |s| {
      if star >= 0 {
        EndOfSubject(p, star, pi, s, retry);
      } else {
        StarsMatchEmpty(p[pi..]);
        assert s[si..] == [];
      }
    } else if pi < |p| && (p[pi] == QUESTION || p[pi] == s[si]) {
      assert p[pi..][1..] == p[pi + 1..] && s[si..][1..] == s[si + 1..];
      assert p[pi] != STAR;
      GreedyDecides(p, s, pi + 1, si + 1, star, retry);
    } else if pi < |p| && p[pi] == STAR {
      GreedyDecides(p, s, pi + 1, si, pi, si);
      if star >= 0 {
        LastStarSuffices(p, star, pi, s, retry, si);
      }
    } else if star >= 0 {
      StarMovesOn(p, star, pi, s, retry, si);
      GreedyDecides(p, s, star + 1, retry + 1, star, retry + 1);
    }
  }

  lemma GreedyIsMatches(p: seq<byte>, s: seq<byte>)
    requires STAR !in s
    ensures GlobResult(p, s) == Matches(p, s)
  {
    GreedyDecides(p, s, 0, 0, -1, 0);
    assert p[0..] == p && s[0..] == s;
  }

  // ----- star bytes in the subject -----------------------------------------------------

  /** While pattern and subject agree, the loop only moves on. */
  lemma {:induction false} GreedyPrefix(p: seq<byte>, s: seq<byte>, k: nat)
    requires k <= |p| && k <= |s| && p[..k] == s[..k]
    ensures GlobResult(p, s) == Greedy(p, s, k, k, -1, 0)
    decreases k
  {
    if k > 0 {
      assert p[..k - 1] == p[..k][..k - 1] && s[..k - 1] == s[..k][..k - 1];
      assert p[k - 1] == p[..k][k - 1] == s[..k][k - 1];
      GreedyPrefix(p, s, k - 1);
    }
  }

  lemma {:induction false} MatchesPrefix(t: seq<byte>, p: seq<byte>, s: seq<byte>)
    requires STAR !in t && Matches(p, s)
    ensures Matches(t + p, t + s)
  {
    if t == [] {
      assert t + p == p && t + s == s;
    } else {
      assert (t + p)[1..] == t[1..] + p && (t + s)[1..] == t[1..] + s;
      MatchesPrefix(t[1..], p, s);
    }
  }

  lemma {:induction false} StarMatchesAll(s: seq<byte>)
    ensures Matches([STAR], s)
  {
    assert [STAR][1..] == [];
    if s != [] { StarMatchesAll(s[1..]); }
  }

  /** For every subject with a star byte some pattern is answered wrongly: the
      star of the pattern is consumed as a literal. */
  lemma StarSubjectMisjudged(s: seq<byte>, k: nat) returns (p: seq<byte>)
    requires k < |s| && s[k] == STAR && STAR !in s[..k]
    ensures Matches(p, s) && !GlobResult(p, s)
  {
    var t := s[..k];
    if k + 1 < |s| {
      p := t + [STAR];
      assert s == t + s[k..];
      StarMatchesAll(s[k..]);
      MatchesPrefix(t, [STAR], s[k..]);
      GreedyPrefix(p, s, k + 1);
    } else {
      p := t + [STAR, QUESTION];
      assert s == t + [STAR];
      assert [STAR, QUESTION][1..] == [QUESTION] && [QUESTION][1..] == [] && [STAR][1..] == [];
      assert Matches([QUESTION], [STAR]);
      MatchesPrefix(t, [STAR, QUESTION], [STAR]);
      assert p[..k + 1] == s[..k + 1];
      GreedyPrefix(p, s, k + 1);
    }
  }

  lemma {:induction false} FirstStar(s: seq<byte>) returns (k: nat)
    requires STAR in s
    ensures k < |s| && s[k] == STAR && STAR !in s[..k]
  {
    if s[0] == STAR {
      k := 0;
    } else {
      k := FirstStar(s[1..]);
      assert s[..k + 1] == [s[0]] + s[1..][..k];
      k := k + 1;
    }
  }

  /** The matcher is right about a subject for every pattern exactly when the
      subject contains no star byte. */
  lemma RightForAllPatternsIff(s: seq<byte>)
    ensures (forall p: seq<byte> :: GlobResult(p, s) == Matches(p, s)) <==> STAR !in s
  {
    if STAR in s {
      var k := FirstStar(s);
      var p := StarSubjectMisjudged(s, k);
    } else {
      forall p: seq<byte> ensures GlobResult(p, s) == Matches(p, s) { GreedyIsMatches(p, s); }
    }
  }
}
