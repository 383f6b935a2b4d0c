/** Small functions that several modules use. */
module Common {

  function Min(a: nat, b: nat): nat { if a < b then a else b }

  function Zeros(n: nat): (s: seq<nat>)
    ensures |s| == n
  {
    seq(n, _ => 0)
  }
}
