module Arithmetic {

  lemma OneMore(n: int, k: int)
    ensures (n + 1) * k == n * k + k
  {
  }
}
