/** Connection acquisition with bounded retry, as `Server#socket` does it.

    Opening a TCP connection is foreign I/O. The model replaces it by `connect`, the network's
    answer to each connection attempt of a run, numbered from 0 in the order the attempts are
    made: `connect(k)` is true when attempt `k` produced a socket and false when it raised
    (refused, unreachable, bad "host:port"), which `socket` rescues and retries. */
module Connector {
  import opened RubyText

  /** How many times Ruby's `n.times` runs its block: never for a negative `n`. */
  function Times(n: int): nat {
    if n < 0 then 0 else n
  }

  /** The first of the `n` attempts numbered `from`, `from + 1`, ... that succeeds, if any. */
  function FirstSuccess(connect: nat -> bool, from: nat, n: nat): (k: Option<nat>)
    ensures k.Some? ==> from <= k.value < from + n && connect(k.value)
    ensures k.Some? ==> forall j :: from <= j < k.value ==> !connect(j)
    ensures k.None? ==> forall j :: from <= j < from + n ==> !connect(j)
    decreases n
  {
    if n == 0 then None
    else if connect(from) then Some(from)
    else FirstSuccess(connect, from + 1, n - 1)
  }

  /** The number of the next attempt once `socket` has returned: one past the successful
      attempt, or past all `n` failed ones. */
  function AttemptsAfter(connect: nat -> bool, from: nat, n: nat): nat {
    match FirstSuccess(connect, from, n)
    case Some(k) => k + 1
    case None => from + n
  }
}
