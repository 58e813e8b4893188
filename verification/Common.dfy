/** What several modules share: optional values, powers of two, and one fact about sequences. */
module Common {

  datatype Option<+T> = None | Some(value: T)

  ghost predicate IsPow2(n: nat) {
    n == 1 || (n > 1 && n % 2 == 0 && IsPow2(n / 2))
  }

  /** `usize::next_power_of_two`, searching upwards from a power of two. */
  function NextPow2From(n: nat, p: nat): (r: nat)
    requires IsPow2(p)
    ensures IsPow2(r) && n <= r && p <= r
    ensures p < n ==> r < 2 * n
    decreases n - p
  {
    if n <= p then p else NextPow2From(n, 2 * p)
  }

  function NextPow2(n: nat): (r: nat)
    ensures IsPow2(r) && n <= r && (n > 1 ==> r < 2 * n)
  {
    NextPow2From(n, 1)
  }

  lemma {:induction false} NextPow2Fixed(n: nat, p: nat)
    requires IsPow2(n) && IsPow2(p) && p <= n
    ensures NextPow2From(n, p) == n
    decreases n - p
  {
    if p < n {
      Pow2Step(n, p);
      NextPow2Fixed(n, 2 * p);
    }
  }

  /** No power of two lies strictly between p and 2p. */
  lemma {:induction false} Pow2Step(n: nat, p: nat)
    requires IsPow2(n) && IsPow2(p) && p < n
    ensures 2 * p <= n
    decreases p
  {
    if p > 1 {
      Pow2Step(n / 2, p / 2);
    }
  }

  lemma Assoc<T>(a: seq<T>, b: seq<T>, c: seq<T>)
    ensures a + b + c == a + (b + c)
  {
  }
}
