/** The lesser of two lengths, offsets or costs. */
module Naturals {

  function Min(a: nat, b: nat): nat {
    if a <= b then a else b
  }
}
