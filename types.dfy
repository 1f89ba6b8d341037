/** Values shared by every part of the model of the CWebSockets library:
    the constants the C code relies on, the client record, one `struct pollfd`
    slot, and the events the library causes (callback invocations and libcurl
    handle releases), which the model records in a ghost log. */
module Types {

  /** One byte of a message buffer. */
  newtype byte = x: int | 0 <= x < 256

  /** libcurl result codes the library tests for. */
  const CURLE_OK: int := 0
  const CURLE_FAILED_INIT: int := 2
  const CURLE_AGAIN: int := 81

  /** `POLLIN` as defined by Linux `<poll.h>`. */
  const POLLIN: int := 1

  /** Capacity of the first receive buffer of a reassembly. */
  const INITIAL_BUFFER: nat := 4096

  /** `unsigned long` arithmetic on LP64 platforms wraps modulo 2^64. */
  const ULONG_MOD: nat := 0x1_0000_0000_0000_0000

  /** An opaque libcurl easy handle; the model only compares them. */
  type Handle = nat

  /** The `WSS_Client` record. A callback is modelled by whether it is
      present (non-NULL); what it does is the caller's business and appears
      only as an event in the log. `url` is NULL (`None`) or a string;
      `handle` is NULL (`None`) or a libcurl handle. */
  datatype Client = Client(
    onOpen: bool,
    onClose: bool,
    onMessage: bool,
    url: Option<string>,
    handle: Option<Handle>,
    id: nat)

  /** One `struct pollfd`: the descriptor, the requested events and the
      events `poll()` reported. */
  datatype PollFd = PollFd(fd: int, events: int, revents: int)

  /** What the library does that the outside world can observe. */
  datatype Event =
    | Opened(id: nat)                    // client->on_open(client)
    | Closed(id: nat)                    // client->on_close(client)
    | Message(id: nat, data: seq<byte>)  // client->on_message(client, buf, len)
    | Cleanup(id: nat, handle: Option<Handle>)  // curl_easy_cleanup(client->curl_handle)

  datatype Option<T> = None | Some(value: T)

  /** The events of evicting `c`: its handle is released, then its
      `on_close` runs if it has one. */
  function EvictionEvents(c: Client): (evs: seq<Event>)
    ensures |evs| == (if c.onClose then 2 else 1)
    ensures evs[0] == Cleanup(c.id, c.handle)
    ensures Closed(c.id) in evs <==> c.onClose
  {
    [Cleanup(c.id, c.handle)] + (if c.onClose then [Closed(c.id)] else [])
  }
}
