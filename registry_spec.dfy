/** The registry as values: the sequence of registered clients and the
    parallel sequence of `struct pollfd` slots, and what `remove_client_arr`
    does to them. The class in module WebSockets keeps its arrays equal to
    these sequences. */
module RegistrySpec {
  import opened Types

  /** Position of the first client whose id is `id`, or `|s|` when there is
      none: the index at which the search loop of `remove_client_arr` stops. */
  function IndexOfId(s: seq<Client>, id: nat): (k: nat)
    ensures k <= |s|
    ensures k < |s| ==> s[k].id == id
    ensures forall j :: 0 <= j < k ==> s[j].id != id
  {
    if s == [] then 0
    else if s[0].id == id then 0
    else 1 + IndexOfId(s[1..], id)
  }

  /** `s` without its element at `k`, the others in their order. */
  function RemoveAt<T>(s: seq<T>, k: nat): (r: seq<T>)
    requires k < |s|
    ensures |r| == |s| - 1
    ensures forall j :: 0 <= j < k ==> r[j] == s[j]
    ensures forall j :: k <= j < |r| ==> r[j] == s[j + 1]
  {
    s[..k] + s[k + 1..]
  }

  /** The shift loop of `remove_client_arr` on the pollfd slots: from `k` on,
      each slot takes the descriptor of its successor, and keeps its own
      `events` and `revents`; the last slot drops out of the count. */
  function ShiftFdsDown(p: seq<PollFd>, k: nat): (r: seq<PollFd>)
    requires k < |p|
    ensures |r| == |p| - 1
    ensures forall j :: 0 <= j < k ==> r[j] == p[j]
    ensures forall j :: k <= j < |r| ==> r[j] == p[j].(fd := p[j + 1].fd)
  {
    p[..k] + seq(|p| - 1 - k, j requires 0 <= j < |p| - 1 - k => p[k + j].(fd := p[k + j + 1].fd))
  }

  /** The descriptor column of the slots. */
  function Fds(p: seq<PollFd>): (r: seq<int>)
    ensures |r| == |p|
    ensures forall j :: 0 <= j < |p| ==> r[j] == p[j].fd
  {
    seq(|p|, j requires 0 <= j < |p| => p[j].fd)
  }

  /** The `revents` column of the slots. */
  function Revents(p: seq<PollFd>): (r: seq<int>)
    ensures |r| == |p|
    ensures forall j :: 0 <= j < |p| ==> r[j] == p[j].revents
  {
    seq(|p|, j requires 0 <= j < |p| => p[j].revents)
  }

  /** A registry: client `clients[i]` is polled through slot `slots[i]`. */
  datatype Registry = Registry(clients: seq<Client>, slots: seq<PollFd>)
  {
    ghost predicate Paired() { |clients| == |slots| }

    /** The (client, descriptor) pairs, index by index. */
    function Entries(): (e: seq<(Client, int)>)
      requires Paired()
      ensures |e| == |clients|
    {
      seq(|clients|, j requires 0 <= j < |clients| => (clients[j], slots[j].fd))
    }
  }

  /** `remove_client_arr`: the first client with `id` is removed and every
      later client and descriptor moves down one place; with no match the
      registry is unchanged. */
  function RemoveById(r: Registry, id: nat): (r': Registry)
    requires r.Paired()
    ensures r'.Paired()
    ensures forall c :: c in r'.clients ==> c in r.clients
    ensures (exists q :: 0 <= q < |r.clients| && r.clients[q].id == id) ==> |r'.clients| + 1 == |r.clients|
    ensures (forall q :: 0 <= q < |r.clients| ==> r.clients[q].id != id) ==> r' == r
  {
    var k := IndexOfId(r.clients, id);
    if k < |r.clients| then Registry(RemoveAt(r.clients, k), ShiftFdsDown(r.slots, k)) else r
  }

  /** No two registered clients share an id. */
  ghost predicate UniqueIds(s: seq<Client>) {
    forall i, j :: 0 <= i < j < |s| ==> s[i].id != s[j].id
  }

  /** `a` is `b` with some elements left out, the rest in order. */
  ghost predicate IsSubsequence<T>(a: seq<T>, b: seq<T>)
    decreases |b|
  {
    a == [] ||
    (b != [] && ((a[0] == b[0] && IsSubsequence(a[1..], b[1..])) || IsSubsequence(a, b[1..])))
  }

  /** Shifting moves the descriptor column exactly as the client column moves:
      descriptor `k` disappears and the others keep their order. */
  lemma ShiftRemovesFd(p: seq<PollFd>, k: nat)
    requires k < |p|
    ensures Fds(ShiftFdsDown(p, k)) == RemoveAt(Fds(p), k)
  {
    var l := Fds(ShiftFdsDown(p, k));
    var r := RemoveAt(Fds(p), k);
    forall j | 0 <= j < |l| ensures l[j] == r[j] {
      if j >= k { assert ShiftFdsDown(p, k)[j] == p[j].(fd := p[j + 1].fd); }
    }
  }

  /** Shifting leaves the `revents` of every remaining position where it was,
      so after a removal slot `j >= k` pairs the descriptor of slot `j + 1`
      with the `revents` that `poll()` reported for slot `j`. */
  lemma ShiftKeepsRevents(p: seq<PollFd>, k: nat)
    requires k < |p|
    ensures Revents(ShiftFdsDown(p, k)) == Revents(p)[..|p| - 1]
  {
    var l := Revents(ShiftFdsDown(p, k));
    forall j | 0 <= j < |l| ensures l[j] == Revents(p)[j] {
      if j >= k { assert ShiftFdsDown(p, k)[j] == p[j].(fd := p[j + 1].fd); }
    }
  }

  /** Removal keeps every remaining client paired with its own descriptor:
      the entries after removing by id are the entries before, with the
      matching one taken out. */
  lemma RemoveKeepsPairs(r: Registry, id: nat)
    requires r.Paired()
    ensures var k := IndexOfId(r.clients, id);
      k < |r.clients| ==> RemoveById(r, id).Entries() == RemoveAt(r.Entries(), k)
  {
    var k := IndexOfId(r.clients, id);
    if k < |r.clients| {
      var l := RemoveById(r, id).Entries();
      var e := RemoveAt(r.Entries(), k);
      forall j | 0 <= j < |l| ensures l[j] == e[j] {
        if j >= k { assert ShiftFdsDown(r.slots, k)[j] == r.slots[j].(fd := r.slots[j + 1].fd); }
      }
    }
  }

  /** With no client of that id registered, removal changes nothing. */
  lemma RemoveAbsentId(r: Registry, id: nat)
    requires r.Paired() && forall j :: 0 <= j < |r.clients| ==> r.clients[j].id != id
    ensures RemoveById(r, id) == r
  {
  }

  /** With unique ids, removing the id of the client at `i` removes exactly
      that client and its descriptor. */
  lemma RemoveOwnId(r: Registry, i: nat)
    requires r.Paired() && UniqueIds(r.clients) && i < |r.clients|
    ensures IndexOfId(r.clients, r.clients[i].id) == i
    ensures RemoveById(r, r.clients[i].id).clients == RemoveAt(r.clients, i)
    ensures Fds(RemoveById(r, r.clients[i].id).slots) == RemoveAt(Fds(r.slots), i)
  {
    assert forall j :: 0 <= j < i ==> r.clients[j].id != r.clients[i].id;
    ShiftRemovesFd(r.slots, i);
  }

  /** Without unique ids the first match wins: when a client was registered
      twice, evicting the later copy removes the earlier one instead. */
  lemma DuplicateIdRemovesEarlierEntry(c: Client, fd0: int, fd1: int)
    ensures var r := Registry([c, c], [PollFd(fd0, POLLIN, 0), PollFd(fd1, POLLIN, 0)]);
      Fds(RemoveById(r, r.clients[1].id).slots) == [fd1]
  {
    var r := Registry([c, c], [PollFd(fd0, POLLIN, 0), PollFd(fd1, POLLIN, 0)]);
    assert IndexOfId(r.clients, c.id) == 0;
    ShiftRemovesFd(r.slots, 0);
  }

  /** A removal leaves a subsequence of what was there. */
  lemma {:induction false} RemoveAtIsSubsequence<T>(s: seq<T>, k: nat)
    requires k < |s|
    ensures IsSubsequence(RemoveAt(s, k), s)
  {
    if k == 0 {
      assert RemoveAt(s, 0) == s[1..];
      SubsequenceReflexive(s[1..]);
    } else {
      assert RemoveAt(s, k)[0] == s[0];
      assert RemoveAt(s, k)[1..] == RemoveAt(s[1..], k - 1);
      RemoveAtIsSubsequence(s[1..], k - 1);
    }
  }

  lemma {:induction false} SubsequenceReflexive<T>(s: seq<T>)
    ensures IsSubsequence(s, s)
  {
    if s != [] { SubsequenceReflexive(s[1..]); }
  }

  lemma {:induction false} SubsequenceTransitive<T>(a: seq<T>, b: seq<T>, c: seq<T>)
    requires IsSubsequence(a, b) && IsSubsequence(b, c)
    ensures IsSubsequence(a, c)
    decreases |c|
  {
    if a == [] {
    } else if IsSubsequence(b, c[1..]) {
      SubsequenceTransitive(a, b, c[1..]);
    } else if IsSubsequence(a, b[1..]) {
      SubsequenceTransitive(a, b[1..], c[1..]);
    } else {
      SubsequenceTransitive(a[1..], b[1..], c[1..]);
    }
  }
}
