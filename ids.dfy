/** Client ids: `connect_wss_client` gives each client that connects the
    current value of the `unsigned long` counter `unique_client_id` and then
    increments it, so ids wrap to 0 after 2^64 connections. */
module Ids {
  import opened Types

  /** `unique_client_id++` on a 64-bit `unsigned long`. */
  function NextId(id: nat): (n: nat)
    requires id < ULONG_MOD
    ensures n < ULONG_MOD
  {
    (id + 1) % ULONG_MOD
  }

  /** The ids handed to `n` successive successful connections when the
      counter starts at `start`. */
  function Issued(start: nat, n: nat): (ids: seq<nat>)
    requires start < ULONG_MOD
    ensures |ids| == n
    decreases n
  {
    if n == 0 then [] else [start] + Issued(NextId(start), n - 1)
  }

  /** Until the counter wraps, the ids are consecutive, hence strictly
      increasing and pairwise distinct. */
  lemma {:induction false} IssuedConsecutive(start: nat, n: nat)
    requires start + n <= ULONG_MOD
    ensures forall j :: 0 <= j < n ==> Issued(start, n)[j] == start + j
    decreases n
  {
    if n > 0 && start + 1 < ULONG_MOD {
      IssuedConsecutive(start + 1, n - 1);
    }
  }

  lemma IssuedDistinct(start: nat, n: nat)
    requires start + n <= ULONG_MOD
    ensures forall i, j :: 0 <= i < j < n ==> Issued(start, n)[i] < Issued(start, n)[j]
  {
    IssuedConsecutive(start, n);
  }

  /** After 2^64 connections the counter wraps and an id is handed out a
      second time. */
  lemma IssuedWraps()
    ensures Issued(ULONG_MOD - 1, 2) == [ULONG_MOD - 1, 0]
  {
  }
}
