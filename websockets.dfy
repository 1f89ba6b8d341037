/** The library's shared state and its public operations. The static
    variables of CWebSockets.c (`client_count`, `clients`, `fds`,
    `unique_client_id`, `thread`) become the fields of one `LibraryState`;
    `clients` and `fds` are nullable arrays that the operations replace on
    (re)allocation and set to null when the last client goes. Callback
    invocations and handle releases are appended to a ghost log. libcurl,
    `poll()`, the allocator and `pthread_create` are parameters. */
module WebSockets {
  import opened Types
  import opened RegistrySpec
  import opened Reassembly
  import opened PollerSpec
  import opened Ids

  /** What the environment reports to one `add_socket_arr` call: whether
      the `clients` and the `fds` (re)allocation succeed, and the result of
      `pthread_create` when a poller has to be started. */
  datatype AllocOracle = AllocOracle(clientsOk: bool, fdsOk: bool, threadRc: int)

  /** The code `add_socket_arr` returns: 0 when the client was added. With
      no arrays yet (`empty`) it allocates `clients`, then `fds`, then starts
      the poller; otherwise it grows `fds`, then `clients`. */
  function AddCode(empty: bool, alloc: AllocOracle): (rc: int)
    ensures rc == 0 <==> alloc.clientsOk && alloc.fdsOk && (empty ==> alloc.threadRc == 0)
    ensures !alloc.clientsOk || !alloc.fdsOk ==> rc == 1
    ensures empty && alloc.clientsOk && alloc.fdsOk ==> rc == alloc.threadRc
  {
    if empty then
      (if !alloc.clientsOk || !alloc.fdsOk then 1 else alloc.threadRc)
    else if !alloc.fdsOk || !alloc.clientsOk then 1
    else 0
  }

  /** The argument check of `connect_wss_client`: a client with an
      `on_message` callback and a URL. */
  predicate ConnectArgsOk(client: Option<Client>): (ok: bool)
    ensures ok ==> client.Some?
    ensures client.Some? && !client.value.onMessage ==> !ok
    ensures client.Some? && client.value.url.None? ==> !ok
    ensures client.Some? && client.value.onMessage && client.value.url.Some? ==> ok
  {
    client.Some? && client.value.onMessage && client.value.url.Some?
  }

  /** `realloc(a, (n + 1) * sizeof *a)`: a fresh block whose first `n`
      entries are those of `a`; the new last entry holds `filler`. */
  method Grow<T>(a: array<T>, n: nat, filler: T) returns (b: array<T>)
    requires n <= a.Length
    ensures fresh(b) && b[..] == a[..n] + [filler]
  {
    b := new T[n + 1](_ => filler);
    var j := 0;
    while j < n
      invariant j <= n
      invariant forall k :: 0 <= k < j ==> b[k] == a[k]
      invariant forall k :: j <= k <= n ==> b[k] == filler
    {
      b[j] := a[j];
      j := j + 1;
    }
  }

  /** The search loop of `remove_client_arr`: the index of the first of
      the `n` records with `id`, or `n` when there is none. */
  method FindById(cs: array<Client>, n: nat, id: nat) returns (i: nat)
    requires n <= cs.Length
    ensures i == IndexOfId(cs[..n], id)
  {
    i := 0;
    while i < n && cs[i].id != id
      invariant i <= n
      invariant forall j :: 0 <= j < i ==> cs[j].id != id
    {
      i := i + 1;
    }
  }

  /** The shift loop of `remove_client_arr`: from `k` on, each of the first
      `n` records takes its successor's place and each slot its successor's
      descriptor. */
  method ShiftDown(cs: array<Client>, ps: array<PollFd>, n: nat, k: nat)
    requires k < n <= cs.Length && n <= ps.Length
    modifies cs, ps
    ensures cs[..n - 1] == RemoveAt(old(cs[..n]), k)
    ensures ps[..n - 1] == ShiftFdsDown(old(ps[..n]), k)
  {
    ghost var oc, op := cs[..n], ps[..n];
    var i := k;
    while i < n - 1
      invariant k <= i <= n - 1
      invariant forall j :: 0 <= j < k ==> cs[j] == oc[j]
      invariant forall j :: k <= j < i ==> cs[j] == oc[j + 1]
      invariant forall j :: i <= j < n ==> cs[j] == oc[j]
      invariant forall j :: 0 <= j < k ==> ps[j] == op[j]
      invariant forall j :: k <= j < i ==> ps[j] == op[j].(fd := op[j + 1].fd)
      invariant forall j :: i <= j < n ==> ps[j] == op[j]
    {
      cs[i] := cs[i + 1];
      ps[i] := ps[i].(fd := ps[i + 1].fd);
      i := i + 1;
    }
    ShiftedClients(oc, cs[..n - 1], k);
    ShiftedSlots(op, ps[..n - 1], k);
  }

  lemma ShiftedClients(before: seq<Client>, after: seq<Client>, k: nat)
    requires k < |before| && |after| == |before| - 1
    requires forall j :: 0 <= j < k ==> after[j] == before[j]
    requires forall j :: k <= j < |after| ==> after[j] == before[j + 1]
    ensures after == RemoveAt(before, k)
  {
  }

  lemma ShiftedSlots(before: seq<PollFd>, after: seq<PollFd>, k: nat)
    requires k < |before| && |after| == |before| - 1
    requires forall j :: 0 <= j < k ==> after[j] == before[j]
    requires forall j :: k <= j < |after| ==> after[j] == before[j].(fd := before[j + 1].fd)
    ensures after == ShiftFdsDown(before, k)
  {
  }

  class LibraryState {
    /** `client_count`. */
    var count: nat
    /** `clients`: NULL, or a block of at least `count` client records. */
    var clients: array?<Client>
    /** `fds`: NULL, or a block of at least `count` pollfd slots. */
    var fds: array?<PollFd>
    /** `unique_client_id`. */
    var nextId: nat
    /** Whether `thread` is non-zero. */
    var threadSet: bool
    /** How many poller threads run `listen_sockets_arr`. */
    ghost var pollers: nat
    /** The callbacks and handle releases so far, in order. */
    ghost var log: seq<Event>

    /** Both arrays are NULL exactly when no client is registered; the
        counter is an `unsigned long`; a registered client is always
        watched by some poller. */
    ghost predicate Valid()
      reads this
    {
      (clients == null <==> count == 0) && (fds == null <==> count == 0) &&
      (clients != null ==> count <= clients.Length) &&
      (fds != null ==> count <= fds.Length) &&
      nextId < ULONG_MOD &&
      (count > 0 ==> pollers > 0)
    }

    /** The registered clients and their slots. */
    ghost function Reg(): (r: Registry)
      reads this, clients, fds
      requires Valid()
      ensures r.Paired() && |r.clients| == count
    {
      if count == 0 then Registry([], []) else Registry(clients[..count], fds[..count])
    }

    /** The state at program start: every static variable zero or NULL. */
    constructor ()
      ensures Valid() && Reg() == Registry([], [])
      ensures nextId == 0 && !threadSet && pollers == 0 && log == []
    {
      count := 0;
      clients := null;
      fds := null;
      nextId := 0;
      threadSet := false;
      pollers := 0;
      log := [];
    }

    /** `remove_client_arr`: the first registered client with `c`'s id is
        removed, later clients and descriptors move down one place, and the
        arrays are freed once no client is left. */
    method Remove(c: Client)
      requires Valid()
      modifies this, clients, fds
      ensures Valid()
      ensures Reg() == RemoveById(old(Reg()), c.id)
      ensures clients == null || clients == old(clients)
      ensures fds == null || fds == old(fds)
      ensures nextId == old(nextId) && threadSet == old(threadSet)
      ensures pollers == old(pollers) && log == old(log)
    {
      if count > 0 {
        ghost var r := RemoveById(Reg(), c.id);
        Unlink(c.id);
        if count == 0 {
          clients := null;
          fds := null;
          assert r.clients == [] && r.slots == [];
        }
      }
    }

    /** The search and shift loops of `remove_client_arr` on a non-empty
        registry: the arrays keep their identity and their first `count`
        entries become `RemoveById` of the old registry. */
    method Unlink(id: nat)
      requires Valid() && count > 0
      modifies this, clients, fds
      ensures clients == old(clients) && fds == old(fds)
      ensures count <= old(count) && (count == 0 ==> old(count) == 1)
      ensures clients[..count] == RemoveById(old(Reg()), id).clients
      ensures fds[..count] == RemoveById(old(Reg()), id).slots
      ensures nextId == old(nextId) && threadSet == old(threadSet)
      ensures pollers == old(pollers) && log == old(log)
    {
      var i := FindById(clients, count, id);
      if i < count {
        ghost var before, slots := clients[..count], fds[..count];
        ShiftDown(clients, fds, count, i);
        count := count - 1;
        assert clients[..count] == RemoveAt(before, i);
        assert fds[..count] == ShiftFdsDown(slots, i);
      }
    }

    /** `add_socket_arr`: `c` is appended with a slot watching `fd` for
        `POLLIN`. The first client also starts a poller thread. On any
        failure the registry is as before. */
    method Add(fd: int, c: Client, alloc: AllocOracle) returns (rc: int)
      requires Valid()
      modifies this
      ensures Valid()
      ensures rc == AddCode(old(count) == 0, alloc)
      ensures rc == 0 ==>
        Reg() == Registry(old(Reg()).clients + [c], old(Reg()).slots + [PollFd(fd, POLLIN, 0)])
      ensures rc != 0 ==> Reg() == old(Reg())
      ensures pollers == old(pollers) + (if old(count) == 0 && rc == 0 then 1 else 0)
      ensures threadSet == (old(threadSet) || (old(count) == 0 && rc == 0))
      ensures nextId == old(nextId) && log == old(log)
      ensures clients == null || clients == old(clients) || fresh(clients)
      ensures fds == null || fds == old(fds) || fresh(fds)
    {
      if clients == null {
        if !alloc.clientsOk {
          return 1;
        }
        if !alloc.fdsOk {
          return 1;
        }
        if alloc.threadRc != 0 {
          return alloc.threadRc;
        }
        threadSet := true;
        pollers := pollers + 1;
        clients := new Client[1](_ => c);
        fds := new PollFd[1](_ => PollFd(fd, POLLIN, 0));
        count := 1;
      } else {
        if !alloc.fdsOk {
          return 1;
        }
        var grownFds := Grow(fds, count, PollFd(0, 0, 0));
        fds := grownFds;
        if !alloc.clientsOk {
          return 1;
        }
        var grownClients := Grow(clients, count, c);
        clients := grownClients;
        fds[count] := fds[count].(fd := fd, events := POLLIN);
        assert fds[..count + 1] == old(Reg()).slots + [PollFd(fd, POLLIN, 0)];
        count := count + 1;
      }
      rc := 0;
    }

    /** `connect_wss_client`, given what `curl_easy_init` returns (`handle`)
        and what `curl_easy_perform` returns (`performRc`). The C code
        stores the handle and the id into the caller's record; here the
        updated record is returned. */
    method Connect(client: Option<Client>, handle: Option<Handle>, performRc: int)
      returns (rc: int, updated: Option<Client>)
      requires Valid()
      modifies this
      ensures Valid()
      ensures count == old(count) && clients == old(clients) && fds == old(fds)
      ensures threadSet == old(threadSet) && pollers == old(pollers)
      ensures !ConnectArgsOk(client) ==>
        rc == 1 && updated == client && nextId == old(nextId) && log == old(log)
      ensures ConnectArgsOk(client) && handle.None? ==>
        rc == CURLE_FAILED_INIT && updated == Some(client.value.(handle := None)) &&
        nextId == old(nextId) && log == old(log)
      ensures ConnectArgsOk(client) && handle.Some? && performRc != CURLE_OK ==>
        rc == performRc && updated == Some(client.value.(handle := handle)) &&
        nextId == old(nextId) && log == old(log) + [Cleanup(client.value.id, handle)]
      ensures ConnectArgsOk(client) && handle.Some? && performRc == CURLE_OK ==>
        rc == 0 && updated == Some(client.value.(handle := handle, id := old(nextId))) &&
        nextId == NextId(old(nextId)) &&
        log == old(log) + (if client.value.onOpen then [Opened(old(nextId))] else [])
    {
      if client.None? || !client.value.onMessage || client.value.url.None? {
        return 1, client;
      }
      var c := client.value.(handle := handle);
      if handle.Some? {
        if performRc != CURLE_OK {
          log := log + [Cleanup(c.id, handle)];
          return performRc, Some(c);
        }
        c := c.(id := nextId);
        nextId := NextId(nextId);
        if c.onOpen {
          log := log + [Opened(c.id)];
        }
        return 0, Some(c);
      } else {
        return CURLE_FAILED_INIT, Some(c);
      }
    }

    /** `listen_wss_client`, given what `curl_easy_getinfo` returns
        (`infoRc`) and the socket it reports (`sockfd`). A zero socket with
        a zero code returns 0 without registering anything. */
    method Listen(client: Option<Client>, infoRc: int, sockfd: int, alloc: AllocOracle) returns (rc: int)
      requires Valid()
      modifies this
      ensures Valid()
      ensures nextId == old(nextId) && log == old(log)
      ensures client.None? || client.value.handle.None? ==>
        rc == 1 && Reg() == old(Reg()) && pollers == old(pollers) && threadSet == old(threadSet)
      ensures client.Some? && client.value.handle.Some? && (sockfd == 0 || infoRc != CURLE_OK) ==>
        rc == infoRc && Reg() == old(Reg()) && pollers == old(pollers) && threadSet == old(threadSet)
      ensures client.Some? && client.value.handle.Some? && sockfd != 0 && infoRc == CURLE_OK ==>
        rc == AddCode(old(count) == 0, alloc) &&
        (rc == 0 ==> Reg() == Registry(old(Reg()).clients + [client.value], old(Reg()).slots + [PollFd(sockfd, POLLIN, 0)])) &&
        (rc != 0 ==> Reg() == old(Reg())) &&
        pollers == old(pollers) + (if old(count) == 0 && rc == 0 then 1 else 0) &&
        threadSet == (old(threadSet) || (old(count) == 0 && rc == 0))
      ensures clients == null || clients == old(clients) || fresh(clients)
      ensures fds == null || fds == old(fds) || fresh(fds)
    {
      if client.Some? && client.value.handle.Some? {
        if sockfd != 0 && infoRc == CURLE_OK {
          rc := Add(sockfd, client.value, alloc);
          return;
        }
        return infoRc;
      }
      return 1;
    }

    /** `close_wss_client`: the handle is released, `on_close` runs, and the
        first registered client with the same id is removed. Nothing marks
        the record as closed, so a second call releases the handle again. */
    method Close(client: Option<Client>)
      requires Valid()
      modifies this, clients, fds
      ensures Valid()
      ensures client.None? ==> Reg() == old(Reg()) && log == old(log)
      ensures client.Some? ==>
        Reg() == RemoveById(old(Reg()), client.value.id) &&
        log == old(log) + EvictionEvents(client.value)
      ensures clients == null || clients == old(clients)
      ensures fds == null || fds == old(fds)
      ensures nextId == old(nextId) && threadSet == old(threadSet) && pollers == old(pollers)
    {
      if client.Some? {
        log := log + EvictionEvents(client.value);
        Remove(client.value);
      }
    }

    /** `start_wss_client`: connect, then listen; when listening fails the
        freshly connected client is closed again. */
    method Start(client: Option<Client>, handle: Option<Handle>, performRc: int,
                 infoRc: int, sockfd: int, alloc: AllocOracle)
      returns (rc: int, updated: Option<Client>)
      requires Valid()
      modifies this, clients, fds
      ensures Valid()
      ensures !(ConnectArgsOk(client) && handle.Some? && performRc == CURLE_OK) ==>
        Reg() == old(Reg()) && nextId == old(nextId) &&
        pollers == old(pollers) && threadSet == old(threadSet)
      ensures !ConnectArgsOk(client) ==> rc == 1 && updated == client && log == old(log)
      ensures ConnectArgsOk(client) && handle.None? ==>
        rc == CURLE_FAILED_INIT && updated == Some(client.value.(handle := None)) && log == old(log)
      ensures ConnectArgsOk(client) && handle.Some? && performRc != CURLE_OK ==>
        rc == performRc && updated == Some(client.value.(handle := handle)) &&
        log == old(log) + [Cleanup(client.value.id, handle)]
      ensures ConnectArgsOk(client) && handle.Some? && performRc == CURLE_OK ==>
        var c := client.value.(handle := handle, id := old(nextId));
        var onOpen := if c.onOpen then [Opened(c.id)] else [];
        var added := sockfd != 0 && infoRc == CURLE_OK;
        var started := added && old(count) == 0 && AddCode(true, alloc) == 0;
        updated == Some(c) && nextId == NextId(old(nextId)) &&
        pollers == old(pollers) + (if started then 1 else 0) &&
        threadSet == (old(threadSet) || started) &&
        (added && AddCode(old(count) == 0, alloc) == 0 ==>
          rc == 0 && log == old(log) + onOpen &&
          Reg() == Registry(old(Reg()).clients + [c], old(Reg()).slots + [PollFd(sockfd, POLLIN, 0)])) &&
        (!added && infoRc == CURLE_OK ==>
          rc == 0 && log == old(log) + onOpen && Reg() == old(Reg())) &&
        (infoRc != CURLE_OK ==>
          rc == infoRc && log == old(log) + onOpen + EvictionEvents(c) &&
          Reg() == RemoveById(old(Reg()), c.id)) &&
        (added && AddCode(old(count) == 0, alloc) != 0 ==>
          rc == AddCode(old(count) == 0, alloc) && log == old(log) + onOpen + EvictionEvents(c) &&
          Reg() == RemoveById(old(Reg()), c.id))
    {
      rc, updated := Connect(client, handle, performRc);
      if rc != 0 {
        return;
      }
      ghost var mid := log;
      rc := Listen(updated, infoRc, sockfd, alloc);
      if rc != 0 {
        Close(updated);
        assert log == mid + EvictionEvents(updated.value);
      }
    }

    /** `poll()` wrote `revents[j]` into slot `j`. */
    method RecordRevents(revents: seq<int>)
      requires Valid() && |revents| == count
      modifies fds
      ensures Valid()
      ensures Reg() == WithRevents(old(Reg()), revents)
    {
      if count == 0 {
        return;
      }
      var j := 0;
      while j < count
        invariant j <= count
        invariant forall k :: 0 <= k < j ==> fds[k] == old(fds[k]).(revents := revents[k])
        invariant forall k :: j <= k < count ==> fds[k] == old(fds[k])
      {
        fds[j] := fds[j].(revents := revents[j]);
        j := j + 1;
      }
      assert fds[..count] == WithRevents(old(Reg()), revents).slots;
    }

    /** The eviction loop after a failed `poll()`: the `i--` keeps `i` at 0,
        so it evicts the client at index 0 until none is left. */
    method EvictAll()
      requires Valid()
      modifies this, clients, fds
      ensures Valid() && count == 0
      ensures log == old(log) + CloseAllEvents(old(Reg()).clients)
      ensures nextId == old(nextId) && threadSet == old(threadSet) && pollers == old(pollers)
    {
      ghost var all := Reg().clients;
      while count > 0
        invariant Valid()
        invariant old(log) + CloseAllEvents(all) == log + CloseAllEvents(Reg().clients)
        invariant clients == null || clients == old(clients)
        invariant fds == null || fds == old(fds)
        invariant nextId == old(nextId) && threadSet == old(threadSet) && pollers == old(pollers)
        decreases count
      {
        ghost var r, l := Reg(), log;
        EvictFirstSlot();
        EvictStep(r, l, Reg(), log);
      }
    }

    /** One pass of that loop: the client at index 0 is evicted. */
    method EvictFirstSlot()
      requires Valid() && count > 0
      modifies this, clients, fds
      ensures Valid() && count == old(count) - 1
      ensures Reg() == RemoveById(old(Reg()), old(Reg()).clients[0].id)
      ensures log == old(log) + EvictionEvents(old(Reg()).clients[0])
      ensures clients == null || clients == old(clients)
      ensures fds == null || fds == old(fds)
      ensures nextId == old(nextId) && threadSet == old(threadSet) && pollers == old(pollers)
    {
      ghost var before := Reg();
      var c := clients[0];
      assert c == before.clients[0];
      log := log + EvictionEvents(c);
      assert Reg() == before;
      Remove(c);
    }

    /** The scan over the slots `poll()` reported: each slot whose `revents`
        is exactly `POLLIN` is reassembled with the next of `scripts`; a
        message goes to `on_message`, a transport error evicts the client and
        the same index is scanned again. */
    method ScanReadable(scripts: seq<seq<Round>>)
      requires Valid() && ScriptsOk(scripts, LastCall) && 2 * count <= |scripts|
      modifies this, clients, fds
      ensures Valid()
      ensures Reg() == Scan(old(Reg()), 0, Outcomes(scripts, LastCall), 0, old(log)).reg
      ensures log == Scan(old(Reg()), 0, Outcomes(scripts, LastCall), 0, old(log)).events
      ensures nextId == old(nextId) && threadSet == old(threadSet) && pollers == old(pollers)
    {
      ghost var goal := Scan(Reg(), 0, Outcomes(scripts, LastCall), 0, log);
      var i: nat := 0;
      var used: nat := 0;
      while i < count
        invariant Valid() && i <= count && used + 2 * count - i <= |scripts|
        invariant Scan(Reg(), i, Outcomes(scripts, LastCall), used, log) == goal
        invariant clients == null || clients == old(clients)
        invariant fds == null || fds == old(fds)
        invariant nextId == old(nextId) && threadSet == old(threadSet) && pollers == old(pollers)
        decreases 2 * count - i
      {
        i, used := ReadSlot(i, used, scripts);
      }
    }

    /** One pass of the scan at index `i`: returns the next index to scan and
        the number of reassemblies started so far. */
    method ReadSlot(i: nat, used: nat, scripts: seq<seq<Round>>) returns (next: nat, used': nat)
      requires Valid() && i < count && ScriptsOk(scripts, LastCall) && used + 2 * count - i <= |scripts|
      modifies this, clients, fds
      ensures Valid() && next <= count && used' + 2 * count - next <= |scripts|
      ensures 2 * count - next < 2 * old(count) - i
      ensures Scan(Reg(), next, Outcomes(scripts, LastCall), used', log) == Scan(old(Reg()), i, Outcomes(scripts, LastCall), used, old(log))
      ensures clients == null || clients == old(clients)
      ensures fds == null || fds == old(fds)
      ensures nextId == old(nextId) && threadSet == old(threadSet) && pollers == old(pollers)
    {
      ScanStep(Reg(), i, Outcomes(scripts, LastCall), used, log);
      if fds[i].revents != POLLIN {
        return i + 1, used;
      }
      var out, _ := Receive(scripts[used], LastCall);
      match out
      case Dropped =>
        next, used' := i + 1, used + 1;
      case Delivered(d) =>
        log := log + [Message(clients[i].id, d)];
        next, used' := i + 1, used + 1;
      case Failed(_) =>
        var c := clients[i];
        log := log + EvictionEvents(c);
        Remove(c);
        next, used' := i, used + 1;
    }

    /** One pass of the `while (1)` loop of `listen_sockets_arr`, given what
        `poll()` returns and the `revents` it reports. Returns whether the
        poller thread exits. */
    method PollCycle(pollRc: int, revents: seq<int>, scripts: seq<seq<Round>>) returns (exits: bool)
      requires Valid() && pollers > 0 && pollRc >= -1
      requires count > 0 && pollRc != -1 ==> |revents| == count
      requires ScriptsOk(scripts, LastCall) && 2 * count <= |scripts|
      modifies this, clients, fds
      ensures Valid()
      ensures nextId == old(nextId)
      ensures old(count) == 0 ==>
        exits && !threadSet && pollers == old(pollers) - 1 &&
        Reg() == old(Reg()) && log == old(log)
      ensures old(count) > 0 && pollRc == -1 ==>
        exits && count == 0 && threadSet == old(threadSet) && pollers == old(pollers) - 1 &&
        log == old(log) + CloseAllEvents(old(Reg()).clients)
      ensures old(count) > 0 && pollRc == 0 ==>
        !exits && threadSet == old(threadSet) && pollers == old(pollers) &&
        Reg() == WithRevents(old(Reg()), revents) && log == old(log)
      ensures old(count) > 0 && pollRc > 0 ==>
        var s := Scan(WithRevents(old(Reg()), revents), 0, Outcomes(scripts, LastCall), 0, old(log));
        !exits && threadSet == old(threadSet) && pollers == old(pollers) &&
        Reg() == s.reg && log == s.events
    {
      if count == 0 {
        threadSet := false;
        pollers := pollers - 1;
        return true;
      }
      if pollRc == -1 {
        EvictAll();
        pollers := pollers - 1;
        return true;
      }
      RecordRevents(revents);
      if pollRc > 0 {
        ScanReadable(scripts);
      }
      return false;
    }
  }

  /** One pass of the eviction loop takes one client's events from what is
      left to evict into the log. */
  lemma EvictStep(r: Registry, l: seq<Event>, r': Registry, l': seq<Event>)
    requires r.Paired() && |r.clients| > 0
    requires r' == RemoveById(r, r.clients[0].id) && l' == l + EvictionEvents(r.clients[0])
    ensures l + CloseAllEvents(r.clients) == l' + CloseAllEvents(r'.clients)
  {
    EvictFirst(r);
  }

  /** Closing the last client leaves the old poller running until its next
      pass; a client added before that pass starts a second poller. */
  method SecondPollerStarts(a: Client, b: Client) returns (s: LibraryState)
    ensures s.Valid() && s.count == 1 && s.pollers == 2
  {
    var ok := AllocOracle(true, true, 0);
    s := new LibraryState();
    var rc := s.Add(3, a, ok);
    s.Close(Some(a));
    rc := s.Add(4, b, ok);
  }

  /** Closing the same client twice releases its handle twice and runs its
      `on_close` twice. */
  method CloseTwice(c: Client) returns (s: LibraryState)
    ensures s.Valid() && s.log == EvictionEvents(c) + EvictionEvents(c)
    ensures Released(s.log) == [c.handle, c.handle]
  {
    s := new LibraryState();
    s.Close(Some(c));
    s.Close(Some(c));
    ReleasedTwice(c);
  }

  lemma ReleasedTwice(c: Client)
    ensures Released(EvictionEvents(c) + EvictionEvents(c)) == [c.handle, c.handle]
  {
    ReleasedAppend(EvictionEvents(c), EvictionEvents(c));
    EvictionCounts(c);
  }
}
