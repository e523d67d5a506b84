// Chains of cells: each links to the next one, and the last to nilCell.
module Chains {

  type Addr = int

  const NIL: Addr := 1

  function At(addrs: seq<Addr>, i: nat): Addr {
    if i < |addrs| then addrs[i] else NIL
  }

  // The cells of a chain, in order.
  ghost predicate Chain(next: map<Addr, Addr>, head: Addr, addrs: seq<Addr>) {
    && head == At(addrs, 0)
    && (forall i :: 0 <= i < |addrs| ==> addrs[i] != NIL && addrs[i] in next)
    && (forall i {:trigger next[addrs[i]]} :: 0 <= i < |addrs| ==> next[addrs[i]] == At(addrs, i + 1))
  }

  // A chain that ends does not come back to a cell.
  lemma {:induction false} NotTwice(next: map<Addr, Addr>, head: Addr, addrs: seq<Addr>, i: nat, j: nat)
    requires Chain(next, head, addrs) && i < j < |addrs|
    ensures addrs[i] != addrs[j]
    decreases |addrs| - j
  {
    if j + 1 < |addrs| { NotTwice(next, head, addrs, i + 1, j + 1); }
  }
}
