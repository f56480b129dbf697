/** The larger and the smaller of two real numbers. */
module Reals {

  function Max(a: real, b: real): real { if a < b then b else a }

  function Min(a: real, b: real): real { if b < a then b else a }
}
