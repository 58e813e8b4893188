/** LCS: the rolling two-row length, the full table and the walk back through
    it, on 16-bit cells, against the longest common subsequence. */
module Lcs {
  import opened Bytes

  const CELL_MOD: nat := 0x1_0000

  function Max(x: nat, y: nat): nat { if x < y then y else x }

  /** s can be obtained from a by deleting bytes. */
  predicate Subsequence(s: seq<byte>, a: seq<byte>)
    decreases |a|
  {
    if s == [] then true
    else if a == [] then false
    else
      || (s[|s| - 1] == a[|a| - 1] && Subsequence(s[..|s| - 1], a[..|a| - 1]))
      || Subsequence(s, a[..|a| - 1])
  }

  /** The length recurrence over prefixes, on unbounded numbers. */
  function Length(a: seq<byte>, b: seq<byte>, i: nat, j: nat): nat
    requires i <= |a| && j <= |b|
  {
    if i == 0 || j == 0 then 0
    else if a[i - 1] == b[j - 1] then Length(a, b, i - 1, j - 1) + 1
    else Max(Length(a, b, i - 1, j), Length(a, b, i, j - 1))
  }

  /** The same recurrence on 16-bit cells. */
  function Cell(a: seq<byte>, b: seq<byte>, i: nat, j: nat): (c: nat)
    requires i <= |a| && j <= |b|
    ensures c < CELL_MOD
  {
    if i == 0 || j == 0 then 0
    else if a[i - 1] == b[j - 1] then (Cell(a, b, i - 1, j - 1) + 1) % CELL_MOD
    else Max(Cell(a, b, i - 1, j), Cell(a, b, i, j - 1))
  }

  /** The bytes the walk back from (i, j) collects, in order. */
  function Walk(a: seq<byte>, b: seq<byte>, i: nat, j: nat): seq<byte>
    requires i <= |a| && j <= |b|
  {
    if i == 0 || j == 0 then []
    else if a[i - 1] == b[j - 1] then Walk(a, b, i - 1, j - 1) + [a[i - 1]]
    else if Cell(a, b, i - 1, j) > Cell(a, b, i, j - 1) then Walk(a, b, i - 1, j)
    else Walk(a, b, i, j - 1)
  }

  /** What is returned: the bytes of the walk as a string, or an empty string if they are no UTF-8. */
  function Returned(a: seq<byte>, b: seq<byte>): seq<byte> {
    var w := Walk(a, b, |a|, |b|);
    if Utf8(w) then w else []
  }

  predicate Ascii(s: seq<byte>) { forall i :: 0 <= i < |s| ==> s[i] < 0x80 }

  function Reverse(s: seq<byte>): (r: seq<byte>)
    ensures |r| == |s|
  {
    if s == [] then [] else [s[|s| - 1]] + Reverse(s[..|s| - 1])
  }

  // ----- the code ------------------------------------------------------------------

  /** The inner loop of the two-row computation. */
  method FillRow(a: seq<byte>, b: seq<byte>, i: nat, prev: array<nat>, curr: array<nat>)
    requires 0 < i <= |a| && prev != curr && prev.Length == curr.Length == |b| + 1
    requires forall c :: 0 <= c <= |b| ==> prev[c] == Cell(a, b, i - 1, c)
    requires curr[0] == 0
    modifies curr
    ensures forall c :: 0 <= c <= |b| ==> curr[c] == Cell(a, b, i, c)
  {
    for j := 1 to |b| + 1
      invariant forall c :: 0 <= c < j ==> curr[c] == Cell(a, b, i, c)
    {
      if a[i - 1] == b[j - 1] {
        curr[j] := (prev[j - 1] + 1) % CELL_MOD;
      } else {
        curr[j] := Max(prev[j], curr[j - 1]);
      }
    }
  }

  /** The two-row loop: the last cell of the last row. */
  method RollingLength(a: seq<byte>, b: seq<byte>) returns (len: nat)
    ensures len == Cell(a, b, |a|, |b|)
  {
    var prev := new nat[|b| + 1](_ => 0);
    var curr := new nat[|b| + 1](_ => 0);
    for i := 1 to |a| + 1
      invariant prev != curr && prev.Length == curr.Length == |b| + 1 && fresh(prev) && fresh(curr)
      invariant forall c :: 0 <= c <= |b| ==> prev[c] == Cell(a, b, i - 1, c)
      invariant curr[0] == 0
    {
      FillRow(a, b, i, prev, curr);
      prev, curr := curr, prev;
      forall c | 0 <= c <= |b| {
        curr[c] := 0;
      }
    }
    len := prev[|b|];
  }

  ghost predicate RowFilled(a: seq<byte>, b: seq<byte>, row: seq<nat>, i: nat)
    requires i <= |a|
  {
    |row| == |b| + 1 && forall c :: 0 <= c <= |b| ==> row[c] == Cell(a, b, i, c)
  }

  /** One row of the full table, from the row above it. */
  method FillTableRow(a: seq<byte>, b: seq<byte>, i: nat, above: seq<nat>, blank: seq<nat>) returns (row: seq<nat>)
    requires 0 < i <= |a| && RowFilled(a, b, above, i - 1)
    requires |blank| == |b| + 1 && blank[0] == 0
    ensures RowFilled(a, b, row, i)
  {
    row := blank;
    for j := 1 to |b| + 1
      invariant |row| == |b| + 1
      invariant forall c :: 0 <= c < j ==> row[c] == Cell(a, b, i, c)
    {
      if a[i - 1] == b[j - 1] {
        row := row[j := (above[j - 1] + 1) % CELL_MOD];
      } else {
        row := row[j := Max(above[j], row[j - 1])];
      }
    }
  }

  /** The full table, a list of rows. */
  method FillTable(a: seq<byte>, b: seq<byte>) returns (dp: seq<seq<nat>>)
    ensures |dp| == |a| + 1 && forall r :: 0 <= r <= |a| ==> RowFilled(a, b, dp[r], r)
  {
    dp := seq(|a| + 1, _ => seq(|b| + 1, _ => 0));
    for i := 1 to |a| + 1
      invariant |dp| == |a| + 1
      invariant forall r :: 0 <= r < i ==> RowFilled(a, b, dp[r], r)
      invariant forall r :: i <= r <= |a| ==> dp[r] == seq(|b| + 1, _ => 0)
    {
      var row := FillTableRow(a, b, i, dp[i - 1], dp[i]);
      dp := dp[i := row];
    }
  }

  /** The walk back through the table, pushing matches and reversing at the end. */
  method WalkBack(a: seq<byte>, b: seq<byte>, dp: seq<seq<nat>>) returns (result: seq<byte>)
    requires |dp| == |a| + 1 && forall r :: 0 <= r <= |a| ==> RowFilled(a, b, dp[r], r)
    ensures result == Walk(a, b, |a|, |b|)
  {
    var i, j := |a|, |b|;
    result := [];
    while i > 0 && j > 0
      invariant 0 <= i <= |a| && 0 <= j <= |b|
      invariant Walk(a, b, |a|, |b|) == Walk(a, b, i, j) + Reverse(result)
    {
      assert RowFilled(a, b, dp[i - 1], i - 1) && RowFilled(a, b, dp[i], i);
      if a[i - 1] == b[j - 1] {
        ReverseAppend(result, a[i - 1]);
        result := result + [a[i - 1]];
        i := i - 1;
        j := j - 1;
      } else if dp[i - 1][j] > dp[i][j - 1] {
        i := i - 1;
      } else {
        j := j - 1;
      }
    }
    result := Reverse(result);
  }

  /** `lcs` on the bytes of the two values. Whatever the sizes, the text and the
      bytes it is made of are common subsequences; with one value of at most
      65535 bytes the bytes are a longest one, of the length that the two-row
      loop found; and with one value of ASCII they are the text. */
  method LongestCommon(a: seq<byte>, b: seq<byte>) returns (text: seq<byte>, bytes: seq<byte>, len: nat)
    ensures text == Returned(a, b) && (Ascii(a) || Ascii(b) ==> text == bytes)
    ensures Subsequence(text, a) && Subsequence(text, b) && Subsequence(bytes, a) && Subsequence(bytes, b)
    ensures |a| < CELL_MOD || |b| < CELL_MOD ==>
              && |bytes| == len == Length(a, b, |a|, |b|)
              && forall s :: Subsequence(s, a) && Subsequence(s, b) ==> |s| <= |bytes|
  {
    if |a| == 0 || |b| == 0 {
      bytes, len := [], 0;
    } else {
      len := RollingLength(a, b);
      var dp := FillTable(a, b);
      bytes := WalkBack(a, b, dp);
    }
    WalkProperties(a, b);
    if Ascii(a) || Ascii(b) {
      AsciiWalk(a, b);
    }
    text := if Utf8(bytes) then bytes else [];
  }

  lemma ReverseAppend(s: seq<byte>, x: byte)
    ensures Reverse(s + [x]) == [x] + Reverse(s)
  {
    assert (s + [x])[..|s|] == s;
  }

  // ----- why it is a longest common subsequence -----------------------------------------

  lemma {:induction false} WalkIsCommon(a: seq<byte>, b: seq<byte>, i: nat, j: nat)
    requires i <= |a| && j <= |b|
    ensures Subsequence(Walk(a, b, i, j), a[..i]) && Subsequence(Walk(a, b, i, j), b[..j])
  {
    if i > 0 && j > 0 {
      assert a[..i][..i - 1] == a[..i - 1] && b[..j][..j - 1] == b[..j - 1];
      if a[i - 1] == b[j - 1] {
        WalkIsCommon(a, b, i - 1, j - 1);
        var w := Walk(a, b, i - 1, j - 1);
        assert (w + [a[i - 1]])[..|w|] == w;
      } else if Cell(a, b, i - 1, j) > Cell(a, b, i, j - 1) {
        WalkIsCommon(a, b, i - 1, j);
      } else {
        WalkIsCommon(a, b, i, j - 1);
      }
    }
  }

  /** No cell exceeds either prefix, so 16 bits hold it while one prefix is short. */
  lemma {:induction false} CellIsLength(a: seq<byte>, b: seq<byte>, i: nat, j: nat)
    requires i <= |a| && j <= |b| && (i < CELL_MOD || j < CELL_MOD)
    ensures Cell(a, b, i, j) == Length(a, b, i, j) && Length(a, b, i, j) <= i && Length(a, b, i, j) <= j
  {
    if i > 0 && j > 0 {
      if a[i - 1] == b[j - 1] {
        CellIsLength(a, b, i - 1, j - 1);
      } else {
        CellIsLength(a, b, i - 1, j);
        CellIsLength(a, b, i, j - 1);
      }
    }
  }

  /** Where the bytes differ, the walk goes to the longer side. */
  lemma WalkTurns(a: seq<byte>, b: seq<byte>, i: nat, j: nat)
    requires 0 < i <= |a| && 0 < j <= |b| && (i < CELL_MOD || j < CELL_MOD) && a[i - 1] != b[j - 1]
    ensures Walk(a, b, i, j) == if Length(a, b, i - 1, j) > Length(a, b, i, j - 1) then Walk(a, b, i - 1, j)
                                else Walk(a, b, i, j - 1)
  {
    CellIsLength(a, b, i - 1, j);
    CellIsLength(a, b, i, j - 1);
  }

  lemma {:induction false} WalkIsLongest(a: seq<byte>, b: seq<byte>, i: nat, j: nat)
    requires i <= |a| && j <= |b| && (i < CELL_MOD || j < CELL_MOD)
    ensures |Walk(a, b, i, j)| == Length(a, b, i, j)
  {
    if i == 0 || j == 0 {
    } else if a[i - 1] == b[j - 1] {
      WalkIsLongest(a, b, i - 1, j - 1);
    } else {
      WalkTurns(a, b, i, j);
      if Length(a, b, i - 1, j) > Length(a, b, i, j - 1) {
        WalkIsLongest(a, b, i - 1, j);
      } else {
        WalkIsLongest(a, b, i, j - 1);
      }
    }
  }

  lemma {:induction false} SubsequenceInit(s: seq<byte>, a: seq<byte>)
    requires s != [] && Subsequence(s, a)
    ensures a != [] && Subsequence(s[..|s| - 1], a[..|a| - 1])
    decreases |a|
  {
    if !(s[|s| - 1] == a[|a| - 1] && Subsequence(s[..|s| - 1], a[..|a| - 1])) {
      var a' := a[..|a| - 1];
      SubsequenceInit(s, a');
      SubsequenceGrow(s[..|s| - 1], a');
    }
  }

  /** What fits the shorter sequence fits the longer one. */
  lemma SubsequenceGrow(s: seq<byte>, a: seq<byte>)
    requires a != [] && Subsequence(s, a[..|a| - 1])
    ensures Subsequence(s, a)
  {}

  lemma {:induction false} NoneLonger(a: seq<byte>, b: seq<byte>, i: nat, j: nat, s: seq<byte>)
    requires i <= |a| && j <= |b| && Subsequence(s, a[..i]) && Subsequence(s, b[..j])
    ensures |s| <= Length(a, b, i, j)
    decreases i + j
  {
    if s != [] {
      assert a[..i][..i - 1] == a[..i - 1] && b[..j][..j - 1] == b[..j - 1];
      if a[i - 1] == b[j - 1] {
        SubsequenceInit(s, a[..i]);
        SubsequenceInit(s, b[..j]);
        NoneLonger(a, b, i - 1, j - 1, s[..|s| - 1]);
      } else if s[|s| - 1] != a[i - 1] {
        NoneLonger(a, b, i - 1, j, s);
      } else {
        NoneLonger(a, b, i, j - 1, s);
      }
    }
  }

  lemma WalkProperties(a: seq<byte>, b: seq<byte>)
    ensures var w := Walk(a, b, |a|, |b|);
            && Subsequence(w, a) && Subsequence(w, b)
            && (|a| < CELL_MOD || |b| < CELL_MOD ==>
                  && |w| == Cell(a, b, |a|, |b|) == Length(a, b, |a|, |b|)
                  && forall s :: Subsequence(s, a) && Subsequence(s, b) ==> |s| <= |w|)
  {
    WalkIsCommon(a, b, |a|, |b|);
    assert a[..|a|] == a && b[..|b|] == b;
    if |a| < CELL_MOD || |b| < CELL_MOD {
      CellIsLength(a, b, |a|, |b|);
      WalkIsLongest(a, b, |a|, |b|);
      forall s | Subsequence(s, a) && Subsequence(s, b) ensures |s| <= Length(a, b, |a|, |b|) {
        NoneLonger(a, b, |a|, |b|, s);
      }
    }
  }

  // ----- the width of the cells -------------------------------------------------------------

  function Zeros(n: nat): (s: seq<byte>)
    ensures |s| == n && forall i :: 0 <= i < n ==> s[i] == 0
  {
    seq(n, _ => 0)
  }

  lemma {:induction false} EqualBytes(n: nat, i: nat)
    requires i <= n
    ensures Length(Zeros(n), Zeros(n), i, i) == i
    ensures Cell(Zeros(n), Zeros(n), i, i) == i % CELL_MOD
    decreases i
  {
    if i > 0 {
      EqualBytes(n, i - 1);
    }
  }

  /** The cells hold the true lengths for all values whose shorter one has at
      most k bytes exactly when k is at most 65535. */
  lemma CellsExactIff(k: nat)
    ensures (forall a: seq<byte>, b: seq<byte> | |a| <= k || |b| <= k ::
               Cell(a, b, |a|, |b|) == Length(a, b, |a|, |b|)) <==> k < CELL_MOD
  {
    if k < CELL_MOD {
      forall a: seq<byte>, b: seq<byte> | |a| <= k || |b| <= k
        ensures Cell(a, b, |a|, |b|) == Length(a, b, |a|, |b|)
      {
        CellIsLength(a, b, |a|, |b|);
      }
    } else {
      var z := Zeros(CELL_MOD);
      EqualBytes(CELL_MOD, CELL_MOD);
      assert |z| <= k && Cell(z, z, |z|, |z|) != Length(z, z, |z|, |z|);
    }
  }

  /** The same bytes with one more that is different. */
  function ZerosOne(n: nat): (s: seq<byte>)
    ensures |s| == n + 1 && s[n] == 1 && forall i :: 0 <= i < n ==> s[i] == 0
  {
    Zeros(n) + [1]
  }

  function Min(x: nat, y: nat): nat { if x < y then x else y }

  lemma {:induction false} ZeroCells(n: nat, i: nat, j: nat)
    requires i <= n && j <= n
    ensures Cell(Zeros(n), ZerosOne(n), i, j) == Min(i, j) % CELL_MOD
  {
    if i > 0 && j > 0 {
      ZeroCells(n, i - 1, j - 1);
      CountsOn(Min(i - 1, j - 1));
      ZeroStep(n, i, j);
    }
  }

  lemma ZeroStep(n: nat, i: nat, j: nat)
    requires 0 < i <= n && 0 < j <= n
    ensures Cell(Zeros(n), ZerosOne(n), i, j) == (Cell(Zeros(n), ZerosOne(n), i - 1, j - 1) + 1) % CELL_MOD
  {
  }

  lemma CountsOn(m: nat)
    ensures (m % CELL_MOD + 1) % CELL_MOD == (m + 1) % CELL_MOD
  {
  }

  lemma {:induction false} ZeroWalk(n: nat, i: nat, j: nat)
    requires i <= n && j <= n
    ensures |Walk(Zeros(n), ZerosOne(n), i, j)| == Min(i, j)
  {
    if i > 0 && j > 0 {
      ZeroWalk(n, i - 1, j - 1);
    }
  }

  lemma {:induction false} LastColumn(n: nat, i: nat)
    requires i <= n && i < CELL_MOD
    ensures Cell(Zeros(n), ZerosOne(n), i, n + 1) == i
  {
    if i > 0 {
      LastColumn(n, i - 1);
      ZeroCells(n, i, n);
    }
  }

  /** From the corner the wrapped cell looks smaller, and the walk gives up a byte. */
  lemma WalkLosesByte()
    ensures |Walk(Zeros(CELL_MOD), ZerosOne(CELL_MOD), CELL_MOD, CELL_MOD + 1)| == CELL_MOD - 1
  {
    var n := CELL_MOD;
    LastColumn(n, n - 1);
    LastColumn(n, n - 2);
    ZeroCells(n, n, n);
    ZeroWalk(n, n - 1, n);
  }

  lemma {:induction false} SubsequenceSelf(s: seq<byte>)
    ensures Subsequence(s, s)
  {
    if s != [] {
      SubsequenceSelf(s[..|s| - 1]);
    }
  }

  /** 65536 equal bytes are common to themselves and to themselves with one more, yet 65535 are returned. */
  lemma LongStringsFallShort()
    ensures var a, b := Zeros(CELL_MOD), ZerosOne(CELL_MOD);
            Ascii(a) && Ascii(b) && Subsequence(a, a) && Subsequence(a, b) && |Returned(a, b)| < |a|
  {
    var a, b := Zeros(CELL_MOD), ZerosOne(CELL_MOD);
    WalkLosesByte();
    SubsequenceSelf(a);
    assert b[..|b| - 1] == a;
  }

  ghost predicate IsLongest(w: seq<byte>, a: seq<byte>, b: seq<byte>) {
    forall s :: Subsequence(s, a) && Subsequence(s, b) ==> |s| <= |w|
  }

  /** For strings of which one is ASCII and one has at most k bytes, what is
      returned is a longest common subsequence exactly when k is at most 65535. */
  lemma LongestIff(k: nat)
    ensures (forall a: seq<byte>, b: seq<byte> | (Ascii(a) || Ascii(b)) && (|a| <= k || |b| <= k) ::
               IsLongest(Returned(a, b), a, b)) <==> k < 65536
  {
    if k < CELL_MOD {
      forall a: seq<byte>, b: seq<byte> | (Ascii(a) || Ascii(b)) && (|a| <= k || |b| <= k)
        ensures IsLongest(Returned(a, b), a, b)
      {
        WalkProperties(a, b);
        AsciiWalk(a, b);
      }
    } else {
      LongStringsFallShort();
      var a, b := Zeros(CELL_MOD), ZerosOne(CELL_MOD);
      assert |a| <= k && !IsLongest(Returned(a, b), a, b);
    }
  }

  // ----- the conversion to a string ------------------------------------------------------

  lemma {:induction false} AsciiIsUtf8(s: seq<byte>)
    requires Ascii(s)
    ensures Utf8(s)
  {
    if s != [] {
      AsciiIsUtf8(s[1..]);
    }
  }

  /** The bytes of a subsequence are bytes of the sequence. */
  lemma {:induction false} SubsequenceBytes(s: seq<byte>, a: seq<byte>)
    requires Subsequence(s, a)
    ensures forall x :: x in s ==> x in a
    decreases |a|
  {
    if s != [] {
      var a', s' := a[..|a| - 1], s[..|s| - 1];
      assert s == s' + [s[|s| - 1]] && a == a' + [a[|a| - 1]];
      if s[|s| - 1] == a[|a| - 1] && Subsequence(s', a') {
        SubsequenceBytes(s', a');
      } else {
        SubsequenceBytes(s, a');
      }
    }
  }

  lemma AsciiWalk(a: seq<byte>, b: seq<byte>)
    requires Ascii(a) || Ascii(b)
    ensures Utf8(Walk(a, b, |a|, |b|)) && Returned(a, b) == Walk(a, b, |a|, |b|)
  {
    var w := Walk(a, b, |a|, |b|);
    WalkProperties(a, b);
    SubsequenceBytes(w, a);
    SubsequenceBytes(w, b);
    assert forall i :: 0 <= i < |w| ==> w[i] in w;
    AsciiIsUtf8(w);
  }

  /** The strings aé and aè have the a in common, and nothing is returned. */
  lemma AccentsLoseAll()
    ensures var a, b := [0x61, 0xC3, 0xA9], [0x61, 0xC3, 0xA8];
            Utf8(a) && Utf8(b) && Subsequence([0x61], a) && Subsequence([0x61], b) && Returned(a, b) == []
  {
    var a: seq<byte>, b: seq<byte> := [0x61, 0xC3, 0xA9], [0x61, 0xC3, 0xA8];
    assert a[1..][2..] == [] && b[1..][2..] == [];
    assert a[..2][..1] == [0x61] && b[..2][..1] == [0x61] && a[..1][..0] == [];
    assert Walk(a, b, 1, 1) == [0x61];
    assert Walk(a, b, 2, 2) == [0x61, 0xC3];
    assert Cell(a, b, 3, 2) == Cell(a, b, 2, 3) == 2 by {
      assert Cell(a, b, 1, 1) == 1 && Cell(a, b, 2, 2) == 2;
    }
    assert Walk(a, b, 3, 3) == [0x61, 0xC3];
    assert [0x61, 0xC3][1..] == [0xC3];
  }

  // Beyond ASCII there is always a string that goes wrong. Let t be a
  // continuation byte of a. Of the lead bytes C2 and C3, the string b repeats
  // some, each followed by t. The longest common subsequence is then a without
  // its other bytes, and for one of the choices that is no UTF-8.

  /** The bytes of a that are in the set. */
  function Restricted(a: seq<byte>, keep: set<byte>): seq<byte> {
    if a == [] then []
    else Restricted(a[..|a| - 1], keep) + if a[|a| - 1] in keep then [a[|a| - 1]] else []
  }

  function Repeated(p: seq<byte>, n: nat): seq<byte> { if n == 0 then [] else Repeated(p, n - 1) + p }

  lemma {:induction false} RestrictedCount(a: seq<byte>, keep: set<byte>, x: byte)
    ensures multiset(Restricted(a, keep))[x] == if x in keep then multiset(a)[x] else 0
  {
    if a != [] {
      var front, last := a[..|a| - 1], a[|a| - 1];
      assert a == front + [last];
      RestrictedCount(front, keep, x);
    }
  }

  lemma SnocSubsequence(s: seq<byte>, a: seq<byte>, x: byte)
    requires Subsequence(s, a)
    ensures Subsequence(s + [x], a + [x]) && Subsequence(s, a + [x])
  {
    assert (s + [x])[..|s|] == s && (a + [x])[..|a|] == a;
  }

  lemma {:induction false} RestrictedIsSubsequence(a: seq<byte>, keep: set<byte>)
    ensures Subsequence(Restricted(a, keep), a)
  {
    if a != [] {
      var front, last := a[..|a| - 1], a[|a| - 1];
      RestrictedIsSubsequence(front, keep);
      SnocSubsequence(Restricted(front, keep), front, last);
      assert a == front + [last];
      if last !in keep {
        assert Restricted(a, keep) == Restricted(front, keep);
      }
    }
  }

  /** A subsequence of a whose bytes are in the set is one of what a keeps. */
  lemma {:induction false} SubsequenceOfRestricted(s: seq<byte>, a: seq<byte>, keep: set<byte>)
    requires Subsequence(s, a) && forall x :: x in s ==> x in keep
    ensures Subsequence(s, Restricted(a, keep))
    decreases |a|
  {
    if s != [] {
      var a', last := a[..|a| - 1], a[|a| - 1];
      var s' := s[..|s| - 1];
      assert s == s' + [s[|s| - 1]];
      var r := Restricted(a', keep);
      if s[|s| - 1] == last && Subsequence(s', a') {
        SubsequenceOfRestricted(s', a', keep);
        assert last in s;
        SnocSubsequence(s', r, last);
      } else {
        SubsequenceOfRestricted(s, a', keep);
        if last in keep {
          SnocSubsequence(s, r, last);
        } else {
          assert Restricted(a, keep) == r;
        }
      }
    }
  }

  lemma {:induction false} SubsequenceShorter(s: seq<byte>, a: seq<byte>)
    requires Subsequence(s, a)
    ensures |s| <= |a| && (|s| == |a| ==> s == a)
    decreases |a|
  {
    if s != [] {
      var a', s' := a[..|a| - 1], s[..|s| - 1];
      if s[|s| - 1] == a[|a| - 1] && Subsequence(s', a') {
        SubsequenceShorter(s', a');
        assert s == s' + [s[|s| - 1]] && a == a' + [a[|a| - 1]];
      } else {
        SubsequenceShorter(s, a');
      }
    }
  }

  lemma {:induction false} SubsequenceExtended(s: seq<byte>, a: seq<byte>, more: seq<byte>)
    requires Subsequence(s, a)
    ensures Subsequence(s, a + more)
    decreases |more|
  {
    if more == [] {
      assert a + more == a;
    } else {
      var front, last := more[..|more| - 1], more[|more| - 1];
      SubsequenceExtended(s, a, front);
      SnocSubsequence(s, a + front, last);
      assert a + more == a + front + [last];
    }
  }

  lemma OneMoreRepetition(s: seq<byte>, x: byte, r: seq<byte>, p: seq<byte>, k: nat)
    requires Subsequence(s, r) && k < |p| && p[k] == x
    ensures Subsequence(s + [x], r + p)
  {
    SubsequenceExtended(s, r, p[..k]);
    SnocSubsequence(s, r + p[..k], x);
    SubsequenceExtended(s + [x], r + p[..k] + [x], p[k + 1..]);
    assert r + p == r + p[..k] + [x] + p[k + 1..];
  }

  /** Anything spelled with the bytes of p fits into enough repetitions of p. */
  lemma {:induction false} SpelledByRepetition(s: seq<byte>, p: seq<byte>, n: nat)
    requires (forall i :: 0 <= i < |s| ==> s[i] in p) && |s| <= n
    ensures Subsequence(s, Repeated(p, n))
    decreases n
  {
    if s != [] {
      var s', x := s[..|s| - 1], s[|s| - 1];
      SpelledByRepetition(s', p, n - 1);
      var k: nat :| k < |p| && p[k] == x;
      OneMoreRepetition(s', x, Repeated(p, n - 1), p, k);
      assert s == s' + [x];
    }
  }

  lemma {:induction false} RepeatedBytes(p: seq<byte>, n: nat)
    ensures forall x :: x in Repeated(p, n) ==> x in p
  {
    if n > 0 {
      RepeatedBytes(p, n - 1);
    }
  }

  /** The walk against enough repetitions of p keeps exactly the bytes that p has. */
  lemma WalkRestricts(a: seq<byte>, p: seq<byte>)
    requires |a| < CELL_MOD
    ensures var b, r := Repeated(p, |a|), Restricted(a, set x | x in p);
            Walk(a, b, |a|, |b|) == r && Subsequence(r, a) && Subsequence(r, b)
  {
    var keep := set x | x in p;
    var b, r := Repeated(p, |a|), Restricted(a, keep);
    var w := Walk(a, b, |a|, |b|);
    RestrictedIsSubsequence(a, keep);
    SubsequenceShorter(r, a);
    forall i | 0 <= i < |r| ensures r[i] in p {
      RestrictedCount(a, keep, r[i]);
      assert multiset(r)[r[i]] > 0;
    }
    SpelledByRepetition(r, p, |a|);
    WalkProperties(a, b);
    SubsequenceBytes(w, b);
    RepeatedBytes(p, |a|);
    SubsequenceOfRestricted(w, a, keep);
    SubsequenceShorter(w, r);
  }

  /** How many bytes the first character takes. */
  function Width(s: seq<byte>): nat
    requires s != []
  {
    if s[0] < 0x80 then 1 else if s[0] <= 0xDF then 2 else if s[0] <= 0xEF then 3 else 4
  }

  /** One character of UTF-8 and whatever follows it. */
  lemma FirstCharacter(s: seq<byte>, u: seq<byte>)
    requires s != [] && Utf8(s) && Utf8(u)
    ensures Width(s) <= |s| && Utf8(s[Width(s)..]) && Utf8(s[..Width(s)] + u)
  {
    var k := Width(s);
    var c := s[..k] + u;
    assert c[k..] == u && forall i :: 0 <= i < k ==> c[i] == s[i];
  }

  lemma {:induction false} Utf8Concat(s: seq<byte>, t: seq<byte>)
    requires Utf8(s) && Utf8(t)
    ensures Utf8(s + t)
  {
    if s == [] {
      assert s + t == t;
    } else {
      FirstCharacter(s, []);
      var k := Width(s);
      Utf8Concat(s[k..], t);
      FirstCharacter(s, s[k..] + t);
      Rejoined(s, k, t);
    }
  }

  lemma Rejoined(s: seq<byte>, k: nat, t: seq<byte>)
    requires k <= |s|
    ensures s[..k] + (s[k..] + t) == s + t
  {
  }

  lemma {:induction false} RepeatedUtf8(p: seq<byte>, n: nat)
    requires Utf8(p)
    ensures Utf8(Repeated(p, n))
  {
    if n > 0 {
      RepeatedUtf8(p, n - 1);
      Utf8Concat(Repeated(p, n - 1), p);
    }
  }

  /** In UTF-8 made of the lead bytes C2 and C3 and one continuation byte, these are equally many. */
  lemma {:induction false} LeadsMatchTails(s: seq<byte>, t: byte)
    requires Utf8(s) && Tail(t) && forall x :: x in s ==> x == 0xC2 || x == 0xC3 || x == t
    ensures multiset(s)[0xC2] + multiset(s)[0xC3] == multiset(s)[t]
  {
    if s != [] {
      assert s[0] in s && s[1] in s;
      assert s == [s[0], s[1]] + s[2..];
      assert forall x :: x in s[2..] ==> x in s;
      LeadsMatchTails(s[2..], t);
    }
  }

  lemma {:induction false} HasTail(a: seq<byte>) returns (t: byte)
    requires Utf8(a) && !Ascii(a)
    ensures Tail(t) && t in a
  {
    if a[0] >= 0x80 {
      t := a[1];
    } else {
      var i :| 0 <= i < |a| && a[i] >= 0x80;
      assert a[1..][i - 1] == a[i];
      t := HasTail(a[1..]);
    }
  }

  /** Two or three bytes whose repetition leaves of a something that is no UTF-8. */
  lemma BadRepetition(a: seq<byte>) returns (p: seq<byte>)
    requires Utf8(a) && !Ascii(a)
    ensures Utf8(p) && Restricted(a, set x | x in p) != [] && !Utf8(Restricted(a, set x | x in p))
  {
    var t := HasTail(a);
    var m := multiset(a);
    assert m[t] > 0;
    p := if m[0xC2] != m[t] then [0xC2, t] else if m[0xC3] != m[t] then [0xC3, t] else [0xC2, t, 0xC3, t];
    LeadsDiffer(a, t, p);
    assert p[2..] == [] || (p[2..] == [0xC3, t] && p[2..][2..] == []);
  }

  lemma LeadsDiffer(a: seq<byte>, t: byte, p: seq<byte>)
    requires Tail(t) && t in a && t in p && forall x :: x in p ==> x == 0xC2 || x == 0xC3 || x == t
    requires var m := multiset(a);
             (if 0xC2 in p then m[0xC2] else 0) + (if 0xC3 in p then m[0xC3] else 0) != m[t]
    ensures var r := Restricted(a, set x | x in p);
            r != [] && !Utf8(r)
  {
    var keep := set x | x in p;
    var r := Restricted(a, keep);
    RestrictedCount(a, keep, t);
    RestrictedCount(a, keep, 0xC2);
    RestrictedCount(a, keep, 0xC3);
    assert multiset(a)[t] > 0;
    forall x | x in r ensures x == 0xC2 || x == 0xC3 || x == t {
      RestrictedCount(a, keep, x);
      assert multiset(r)[x] > 0;
    }
    if Utf8(r) {
      LeadsMatchTails(r, t);
    }
  }

  /** For a string of at most 65535 bytes, what is returned is longest against
      every other string exactly when it is ASCII. */
  lemma LongestForAllIff(a: seq<byte>)
    requires Utf8(a) && |a| < CELL_MOD
    ensures (forall b: seq<byte> | Utf8(b) :: IsLongest(Returned(a, b), a, b)) <==> Ascii(a)
  {
    if Ascii(a) {
      forall b: seq<byte> | Utf8(b) ensures IsLongest(Returned(a, b), a, b) {
        WalkProperties(a, b);
        AsciiWalk(a, b);
      }
    } else {
      var p := BadRepetition(a);
      var b := Repeated(p, |a|);
      RepeatedUtf8(p, |a|);
      WalkRestricts(a, p);
      assert !IsLongest(Returned(a, b), a, b);
    }
  }
}
