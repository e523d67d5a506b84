// The sign of a number, as comparisons return it.
module Signs {

  function Sign(n: int): int {
    if n < 0 then -1 else if n == 0 then 0 else 1
  }
}
