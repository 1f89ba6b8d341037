# CWebSockets, modelled in Dafny

CWebSockets is a small C library that keeps many libcurl WebSocket
connections open and services all of them from one background poller
thread. An application connects a `WSS_Client` (`connect_wss_client`),
registers its socket with the poller (`listen_wss_client`, or both at once
with `start_wss_client`), sends with `send_wss_client` and closes with
`close_wss_client`. The poller (`listen_sockets_arr`) polls every registered
socket, reassembles incoming frames into one buffer and hands them to the
client's `on_message`; it evicts a client whose receive fails and evicts
everyone when `poll()` itself fails.

This project models the bookkeeping of `CWebSockets.c` with the locks
erased, so each operation is one sequential step:

- `types.dfy` (module `Types`): the constants the code tests
  (`CURLE_OK`, `CURLE_FAILED_INIT`, `CURLE_AGAIN`, `POLLIN`, the 4096-byte
  first buffer, 64-bit `unsigned long`), the `WSS_Client` record as a value
  (each callback is a presence flag), one `struct pollfd`, and the events
  the library causes: `on_open`, `on_close`, `on_message` and
  `curl_easy_cleanup`.
- `registry_spec.dfy` (module `RegistrySpec`): the registry as two paired
  sequences and what `remove_client_arr` does to them.
- `ids.dfy` (module `Ids`): the `unique_client_id++` counter.
- `transmit.dfy` (module `Transmit`): the `send_wss_client` loop.
- `reassembly.dfy` (module `Reassembly`): the `recieve:` retry loop that
  grows the receive buffer, as a method over arrays proved against a
  function.
- `poller_spec.dfy` (module `PollerSpec`): one pass of the poller's scan and
  of its eviction-after-`poll()`-failure loop, as functions. The scan is
  stated over the outcomes of the reassemblies it starts; the poller feeds
  it the outcomes of the code as written, where the length handed to
  `on_message` is the last receive's count.
- `websockets.dfy` (module `WebSockets`): class `LibraryState` holding the
  library's static variables (`client_count`, the `clients` and `fds`
  arrays, `unique_client_id`, `thread`), with one method per operation and
  a ghost log of the events, plus a ghost count of running poller threads.

libcurl, `poll()`, `malloc`/`realloc` and `pthread_create` are inputs:
each method receives what they return. The transport's answers to a
reassembly or a send are given as a script of rounds, with a precondition
that the script ends the loop and never reports more bytes than were
offered.

Where the code behaves differently from what a user of the library would
expect from its header and its names, the model follows the code:

- `send_wss_client` returns `CURLE_AGAIN` at once instead of retrying it
  (`Transmit.AgainIsReturned`).
- `close_wss_client` is not idempotent. A second call releases the handle
  again and runs `on_close` again (`WebSockets.CloseTwice`).
- A second poller thread can start. This happens when the last client is
  closed and another is registered before the old poller's next pass
  (`WebSockets.SecondPollerStarts`).
- After a `poll()` failure the poller exits without clearing `thread`.
- `listen_wss_client` returns 0 without registering anything when libcurl
  reports socket 0 with a zero code.
- The length handed to `on_message` is the last receive's count, not the
  total. The poller (`WebSockets.LibraryState.PollCycle`) runs this code as
  written; the corrected count is proved separately in `Reassembly`. See
  "Findings".
- Removal moves only the `fd` of each later slot, not its `revents`. So
  after an eviction the next client sits in a slot still marked `POLLIN`
  and is read in the same pass (`PollerSpec.EvictionReadsSuccessor`).

## Model

| member | source | states |
|---|---|---|
| Types.EvictionEvents | CWebSockets.c:65-72 | evicting a client releases its handle first, then runs `on_close` exactly when it has one |
| RegistrySpec.IndexOfId | CWebSockets.c:34-38 | the search stops at the first client with the id, or at the end when there is none |
| RegistrySpec.RemoveById | CWebSockets.c:29-50 | `remove_client_arr` only removes: it drops one client when some client has the id and leaves the registry unchanged when none has |
| RegistrySpec.RemoveAt | CWebSockets.c:40-44 | clients before the removed index keep their places; those after it move down one place |
| RegistrySpec.ShiftFdsDown | CWebSockets.c:40-44 | each slot from the removed index on takes its successor's descriptor and keeps its own `events` and `revents` |
| RegistrySpec.ShiftRemovesFd | CWebSockets.c:40-44 | the descriptor column loses exactly the removed descriptor, and the rest keep their order |
| RegistrySpec.ShiftKeepsRevents | CWebSockets.c:43 | the `revents` column is not shifted: it is the old column without its last entry |
| RegistrySpec.RemoveKeepsPairs | CWebSockets.c:29-50 | after removal by id, every remaining client is still paired with its own descriptor, in the old order |
| RegistrySpec.RemoveAbsentId | CWebSockets.c:34-50 | when no client has the id, removal changes nothing |
| RegistrySpec.RemoveOwnId | CWebSockets.c:34-47 | with unique ids, removing client `i`'s id removes exactly client `i` and its descriptor |
| RegistrySpec.DuplicateIdRemovesEarlierEntry | CWebSockets.c:37 | with two entries of one id, removal by id takes the first one |
| RegistrySpec.RemoveAtIsSubsequence | CWebSockets.c:40-44 | what removal leaves is a subsequence of what was there |
| Ids.NextId | CWebSockets.c:285 | the counter stays an `unsigned long` |
| Ids.Issued | CWebSockets.c:285 | `n` successful connections receive `n` ids |
| Ids.IssuedConsecutive | CWebSockets.c:285 | until the counter wraps, the ids handed out are consecutive from the starting value |
| Ids.IssuedDistinct | CWebSockets.c:285 | until the counter wraps, ids are strictly increasing and so unique |
| Ids.IssuedWraps | CWebSockets.c:24 | after 2^64 connections the counter wraps to 0 |
| Transmit.SendResult | CWebSockets.c:301-314 | the code is 0 exactly when every byte was accepted, and no more bytes are counted than were offered |
| Transmit.CallsMade | CWebSockets.c:301-314 | a send that ends makes at least one call and no more calls than the transport has replies |
| Transmit.FailureIsFirstErrorReply | CWebSockets.c:307-311 | a failed send returns the first non-zero code the transport reported, and every reply before it was OK |
| Transmit.Send | CWebSockets.c:296-315 | a missing client, buffer, size or handle gives 1 with no call; otherwise the result is `SendResult`, the bytes go out in order, each once, each call is offered the unsent rest, and the number of calls is the number of replies up to the first error or the one that finishes the buffer |
| Transmit.SendArgsOk | CWebSockets.c:298 | `send_wss_client` goes on exactly when there is a client with a handle and a non-empty buffer |
| Transmit.SendLoop | CWebSockets.c:301-314 | the loop's code, count and bytes on the wire equal `SendResult` and the prefix sent; calls chain from offset 0, one per reply used (`CallsMade`) |
| Transmit.SendOnce | CWebSockets.c:303-313 | one call of `curl_ws_send` either ends the loop with `SendResult`'s code and count and all the calls it needs, or advances the offset by the bytes accepted and keeps the loop invariant |
| Transmit.ChunkedSendSucceeds | CWebSockets.c:304-314 | a transport accepting the buffer in chunks with OK makes the send succeed with all bytes sent, in exactly one call per chunk |
| Transmit.AgainIsReturned | CWebSockets.c:310-311 | `CURLE_AGAIN` on the first call ends the send with that code and nothing sent |
| Reassembly.Reassemble | CWebSockets.c:125-182 | a client is evicted only for a code that is neither OK nor `CURLE_AGAIN` |
| Reassembly.Decisive | CWebSockets.c:128-176 | the deciding round of a reassembly is the first round that does not return to the `recieve:` label; every earlier one does |
| Reassembly.DecisiveAt | CWebSockets.c:128-176 | a round that does not return to the label, after rounds that all do, is the deciding round |
| Reassembly.OutcomeDecided | CWebSockets.c:128-176 | a reassembly always reaches a deciding round, and that round alone fixes the outcome: delivered exactly when its allocation succeeded and the receive returned OK with no bytes left, failed with its code exactly when the allocation succeeded and the code is neither OK nor `CURLE_AGAIN`, dropped exactly when the allocation failed or the code is `CURLE_AGAIN` |
| Reassembly.Realloc | CWebSockets.c:136-143 | the grown buffer keeps the old contents |
| Reassembly.WriteChunk | CWebSockets.c:147-152 | the received bytes land at offset `recieved`, the rest of the buffer unchanged |
| Reassembly.Allocate | CWebSockets.c:128-144 | the first pass allocates, later passes grow the buffer to the new capacity keeping its contents |
| Reassembly.Pass | CWebSockets.c:125-176 | one pass from the `recieve:` label either ends the loop with `Reassemble`'s outcome or returns to the label with the buffer grown by the last count and the written bytes kept |
| Reassembly.ReceiveInto | CWebSockets.c:146-176 | "try again" drops the message and an error fails it, both leaving the buffer alone; OK writes the chunk at `recieved` and, without `bytesleft`, delivers the buffer up to the new count |
| Reassembly.Receive | CWebSockets.c:118-185 | the goto loop's outcome is `Reassemble`; it makes one receive per round up to the deciding round, plus that round's own receive when its allocation succeeded; the `q`-th receive writes the `q`-th round's chunk; the first is offered a 4096-byte buffer from offset 0; each later one is offered exactly the tail from the previous call's `recieved` to a capacity grown by that much, writes inside it, and the capacity never shrinks |
| Reassembly.RunningDeliversPayload | CWebSockets.c:147-181 | with a running total, `on_message` gets the concatenation of all chunks of the message in arrival order |
| Reassembly.LastCallDeliversFinalCount | CWebSockets.c:147-181 | as written, the length handed to `on_message` is the final receive's count |
| Reassembly.SingleRoundDelivered | CWebSockets.c:128-181 | a message that fits in one receive is delivered whole |
| Reassembly.ThreeRoundMessage | CWebSockets.c:136-181 | receives of 10, 20 and 5 bytes: as written 5 bytes (the start of the first chunk) are delivered; with a running total all 35 bytes, in order |
| PollerSpec.WithRevents | CWebSockets.c:95 | `poll()` sets the `revents` column and leaves clients and descriptors alone |
| PollerSpec.Outcomes | CWebSockets.c:118-185 | the `k`-th reassembly the scan starts ends as `Reassemble` of the `k`-th script from an empty 4096-byte buffer |
| PollerSpec.Scan | CWebSockets.c:114-187 | given the outcomes of the reassemblies it starts, the scan only removes clients, keeps the pairing and keeps the events logged before it |
| PollerSpec.ScanKeepsOrder | CWebSockets.c:116-172 | what the scan leaves is a subsequence of the (client, descriptor) pairs: evictions keep the others' relative order and pairing |
| PollerSpec.ScanMessagesOncePerClient | CWebSockets.c:116-185 | with unique ids, the scan from `i` calls `on_message` at most once per client, and only for clients at `i` or later |
| PollerSpec.ScanEvictionCount | CWebSockets.c:116-185 | the scan removes exactly as many clients as it releases handles: the clients left plus the handles released equal the clients before |
| PollerSpec.ScanEvictedIds | CWebSockets.c:116-185 | with unique ids, the clients left are the old clients minus those whose handle the scan released, so only clients whose receive failed leave the registry |
| PollerSpec.IdSetAfterRemove | CWebSockets.c:40-44 | with unique ids, removing the client at `i` removes exactly its id from the set of ids |
| PollerSpec.EvictionShape | CWebSockets.c:162-172 | with unique ids, an eviction at `i` leaves exactly the other clients in their order (`RemoveAt` at `i`), the clients from `i` on are the old ones after `i`, and the ids stay unique |
| PollerSpec.EvictionCounts | CWebSockets.c:165-167 | one eviction releases one handle, runs `on_close` only if present, and delivers nothing |
| PollerSpec.CloseAllReleasesEach | CWebSockets.c:98-111 | after a `poll()` failure every handle is released once in registry order, and `on_close` runs once for each client that has one and for no other |
| PollerSpec.EvictFirst | CWebSockets.c:101-107 | each pass of the eviction loop removes exactly the client at index 0 |
| PollerSpec.CloseAllEvents | CWebSockets.c:101-108 | evicting everyone after a `poll()` failure logs between one and two events per client, and none of them is an `on_message` or `on_open` call (which handles and callbacks they are is `CloseAllReleasesEach`) |
| PollerSpec.EvictionReadsSuccessor | CWebSockets.c:43 | after evicting client 0, client 1 is read in the same pass although `poll()` did not report it readable |
| WebSockets.Grow | CWebSockets.c:237-246 | `realloc` to one more entry keeps the first `count` entries |
| WebSockets.FindById | CWebSockets.c:34-38 | the search loop stops at `IndexOfId` of the live prefix: the first client with the id, or `count` |
| WebSockets.ShiftDown | CWebSockets.c:40-44 | the shift loop turns both arrays into `RemoveAt` and `ShiftFdsDown` of their old contents |
| WebSockets.LibraryState.constructor | CWebSockets.c:15-27 | the library starts with no clients, NULL arrays, id 0 and no poller |
| WebSockets.LibraryState.Remove | CWebSockets.c:29-63 | the registry becomes `RemoveById` of the old one, and the arrays are NULL once it is empty |
| WebSockets.LibraryState.Unlink | CWebSockets.c:34-47 | the search and shift leave the live prefix of both arrays equal to `RemoveById` of the old registry, in the same arrays, removing at most one entry |
| WebSockets.LibraryState.Add | CWebSockets.c:196-258 | on success `(client, fd)` is appended watching `POLLIN` and the first client starts a poller; on any allocation or thread failure the code is non-zero and the registry is as before |
| WebSockets.AddCode | CWebSockets.c:205-245 | `add_socket_arr` returns 0 exactly when every allocation succeeded and, for the first client, the poller thread started; an allocation failure gives 1 and a thread failure `pthread_create`'s code |
| WebSockets.LibraryState.Connect | CWebSockets.c:260-294 | bad arguments give 1 and change nothing; a failed init gives `CURLE_FAILED_INIT`; a failed connect releases the handle and returns its code without using an id; success issues the next id and runs `on_open` if present |
| WebSockets.ConnectArgsOk | CWebSockets.c:262 | `connect_wss_client` goes on exactly when there is a client with an `on_message` callback and a URL |
| WebSockets.LibraryState.Listen | CWebSockets.c:339-363 | no client or handle gives 1; a getinfo error or socket 0 returns the getinfo code unregistered, with the poller state unchanged; otherwise the result and effect are those of `add_socket_arr`, and the first registered client starts a poller and sets `thread` |
| WebSockets.LibraryState.Close | CWebSockets.c:65-78 | the handle is released, `on_close` runs if present, and the client's id is removed from the registry |
| WebSockets.LibraryState.Start | CWebSockets.c:326-337 | bad arguments give 1, a failed init `CURLE_FAILED_INIT`, and a failed connect its own code with the handle released, all with the registry and poller state unchanged; after a successful connect a failed listen closes the fresh client again, a zero socket returns 0 unregistered, and a registration that starts the first poller sets `thread` |
| WebSockets.LibraryState.RecordRevents | CWebSockets.c:95 | the slots receive the `revents` that `poll()` reported |
| WebSockets.LibraryState.EvictAll | CWebSockets.c:98-108 | every client is evicted in order and the registry is left empty |
| WebSockets.EvictStep | CWebSockets.c:101-107 | evicting the first client and then the rest logs the same events as evicting all of them |
| WebSockets.LibraryState.EvictFirstSlot | CWebSockets.c:101-107 | one pass of that loop removes the client at index 0 by its id, releases its handle and runs its `on_close` if it has one |
| WebSockets.LibraryState.ScanReadable | CWebSockets.c:114-187 | the arrays and the log end as `Scan` predicts from the outcomes of the receive scripts under the code as written (last-call count) |
| WebSockets.LibraryState.ReadSlot | CWebSockets.c:118-185 | one pass at index `i` reassembles with the code as written and takes the scan one step, moving on or rescanning `i` after an eviction |
| WebSockets.LibraryState.PollCycle | CWebSockets.c:80-194 | an empty registry clears `thread` and ends the poller; a `poll()` failure evicts everyone and ends the poller without clearing `thread`; otherwise the readable slots are scanned as written (last-call count) and the poller goes on |
| WebSockets.SecondPollerStarts | CWebSockets.c:52-59 | closing the last client and registering another before the poller's next pass leaves two pollers running |
| WebSockets.ReleasedTwice | CWebSockets.c:65-78 | two evictions of one client release its handle twice |
| WebSockets.CloseTwice | CWebSockets.c:65-78 | closing one client twice releases its handle twice and runs `on_close` twice |

## Left out

- Mutexes and threads: `lock`, `important`, `pthread_exit` and
  `join_thread_wss_client` (CWebSockets.c:317-324) are not modelled; each
  operation is one atomic step, and the poller is a ghost count of running
  threads. The model therefore cannot show that the error returns of
  `add_socket_arr` (CWebSockets.c:206, 212, 223, 239, 245) leave `lock`
  held.
- libcurl, `poll()`, `malloc`/`realloc` and `pthread_create`: their
  results are inputs. The byte contents of newly allocated memory are
  modelled as zeros.
- The `WSS_Client` record is a value. The C code writes the handle and the
  id into the caller's record; `Connect` returns the updated value instead,
  and the registry holds copies. Aliasing between the caller's record and
  the registry is not modelled.
- Callback bodies: a callback is a presence flag, and its call is a log
  entry. `on_message` is called without a NULL check; the model logs the
  call whatever the flag says.
- The `flags` argument of `send_wss_client` is passed to libcurl unchanged
  and is not modelled.
- WebSockets.LibraryState.Add: the `revents` of a slot added by `realloc`
  is uninitialised memory in C; the model sets it to 0. `poll()` sets it
  before anyone reads it.
- WebSockets.LibraryState.Start: the model does not show the deadlock
  when `add_socket_arr` fails inside `start_wss_client`. Its error returns
  (CWebSockets.c:206, 212, 223, 239, 245) leave `lock` held, and the
  `close_wss_client` that follows calls `remove_client_arr`, which takes
  `lock` again (CWebSockets.c:32). The model erases locks and lets the
  close run to completion.
- Reassembly.Receive: buffer sizes are unbounded naturals; the model
  does not capture the 64-bit wrap of `temp_buffer_size`.
- PollerSpec.ScanMessagesOncePerClient: stated for registries with
  unique ids. The registry itself does not enforce uniqueness: registering
  one client twice is allowed, and `RegistrySpec.DuplicateIdRemovesEarlierEntry`
  shows what removal does then.
- WebSockets.LibraryState.PollCycle: requires `2 * client_count` receive
  scripts, which bounds how many receives one pass can start.
- example.c and the declarations in CWebSockets.h are not part of this
  model, apart from the `WSS_Client` record (CWebSockets.h:19-35).

## Findings

| source | as written | input that shows it | evidently intended | confidence | as-written member | corrected member |
|---|---|---|---|---|---|---|
| CWebSockets.c:147-152 | `&recieved` is passed to `curl_ws_recv`, which stores the current call's count there. The next receive writes at the previous call's count. `on_message` (line 181) gets the last call's count as the length. | three receives of 10, 20 and 5 bytes, the first two with bytes left: `on_message` gets 5 bytes, the first five of the first chunk | `recieved` accumulates, so `on_message` gets all 35 bytes in arrival order | not executed | Reassembly.LastCallDeliversFinalCount, Reassembly.ThreeRoundMessage | Reassembly.RunningDeliversPayload |
