/** The reassembly of one readable descriptor in `listen_sockets_arr`: the
    block from the `recieve:` label to the end of the scan body. A buffer of
    4096 bytes is allocated, `curl_ws_recv` is asked to fill it from offset
    `recieved`, and while the transport says bytes of the frame are left the
    buffer grows by `recieved` bytes and the receive is retried.

    The C code passes `&recieved` to `curl_ws_recv`, which stores the count of
    the CURRENT call there. So `recieved` is not a running total: each retry
    writes at the previous call's count and `on_message` receives the last
    call's count as the length. `CountPolicy.LastCall` models that;
    `CountPolicy.Running` models the evidently intended running total. The
    poller in module WebSockets runs the code as written. */
module Reassembly {
  import opened Types

  /** How `recieved` changes after a successful receive of `n` bytes. */
  datatype CountPolicy =
    | LastCall  // as written: `recieved` becomes `n`
    | Running   // corrected: `recieved` becomes `recieved + n`

  /** One pass through the `recieve:` label as the environment answers it:
      whether `malloc`/`realloc` succeeded, and the result code, the bytes
      written and the `bytesleft` flag that `curl_ws_recv` reported. */
  datatype Round = Round(allocOk: bool, code: int, chunk: seq<byte>, bytesLeft: bool)

  /** What the scan does with the descriptor afterwards: nothing (allocation
      failure or `CURLE_AGAIN`), evict the client (any other error), or call
      `on_message` with these bytes. */
  datatype Outcome = Dropped | Failed(code: int) | Delivered(data: seq<byte>)

  /** One call of `curl_ws_recv`: the buffer's capacity, the offset it is
      asked to write at, the length it is offered, and how much it wrote. */
  datatype RecvCall = RecvCall(size: nat, offset: nat, length: nat, written: nat)

  function Zeros(n: nat): (z: seq<byte>)
    ensures |z| == n
    ensures forall q :: 0 <= q < n ==> z[q] == 0
  {
    seq(n, _ => 0)
  }

  /** `buf` after `chunk` was copied into it at offset `off`. */
  function Write(buf: seq<byte>, off: nat, chunk: seq<byte>): (r: seq<byte>)
    requires off + |chunk| <= |buf|
    ensures |r| == |buf|
    ensures forall q :: 0 <= q < |buf| ==>
      r[q] == if off <= q < off + |chunk| then chunk[q - off] else buf[q]
  {
    buf[..off] + chunk + buf[off + |chunk|..]
  }

  function NextCount(policy: CountPolicy, received: nat, n: nat): nat {
    match policy
    case LastCall => n
    case Running => received + n
  }

  /** What the transport guarantees about the rounds from here on, given the
      capacity `size` before this round's growth by `grow` and the current
      `recieved`: some round ends the retry loop, and no receive writes more
      than the length it was offered. */
  ghost predicate Admissible(script: seq<Round>, policy: CountPolicy, size: nat, received: nat, grow: nat)
    decreases |script|
  {
    |script| > 0 &&
    var r := script[0];
    (r.allocOk && r.code == CURLE_OK ==>
      received + |r.chunk| <= size + grow &&
      (r.bytesLeft ==>
        var got := NextCount(policy, received, |r.chunk|);
        Admissible(script[1..], policy, size + grow, got, got)))
  }

  /** The outcome of the retry loop, from a buffer holding `buf` that is about
      to grow by `grow` bytes, with `recieved == received`. A message is
      handed on only when a receive succeeded with nothing left, and a client
      is evicted only for a code that is neither `CURLE_OK` nor `CURLE_AGAIN`. */
  function Reassemble(script: seq<Round>, policy: CountPolicy, buf: seq<byte>, received: nat, grow: nat): (out: Outcome)
    requires Admissible(script, policy, |buf|, received, grow)
    ensures out.Failed? ==> out.code != CURLE_OK && out.code != CURLE_AGAIN
    decreases |script|
  {
    var r := script[0];
    if !r.allocOk then Dropped
    else
      var grown := buf + Zeros(grow);
      if r.code == CURLE_AGAIN then Dropped
      else if r.code != CURLE_OK then Failed(r.code)
      else
        var written := Write(grown, received, r.chunk);
        var got := NextCount(policy, received, |r.chunk|);
        if r.bytesLeft then Reassemble(script[1..], policy, written, got, got)
        else Delivered(written[..got])
  }

  /** A round after which the loop goes back to the `recieve:` label. */
  predicate Retries(r: Round) {
    r.allocOk && r.code == CURLE_OK && r.bytesLeft
  }

  /** The index of the first round that does not send the loop back. */
  function Decisive(script: seq<Round>): (k: nat)
    ensures k <= |script|
    ensures forall q :: 0 <= q < k ==> Retries(script[q])
    ensures k < |script| ==> !Retries(script[k])
    decreases |script|
  {
    if script == [] then 0
    else if Retries(script[0]) then 1 + Decisive(script[1..])
    else 0
  }

  /** A round that does not retry, after rounds that all do, is the deciding one. */
  lemma {:induction false} DecisiveAt(script: seq<Round>, j: nat)
    requires j < |script| && !Retries(script[j])
    requires forall q :: 0 <= q < j ==> Retries(script[q])
    ensures Decisive(script) == j
    decreases j
  {
    if j > 0 {
      assert Retries(script[0]);
      assert forall q :: 0 <= q < j - 1 ==> script[1..][q] == script[q + 1];
      DecisiveAt(script[1..], j - 1);
    }
  }

  /** The first round that does not retry decides the outcome: `on_message`
      runs exactly when that round was allocated and its receive returned
      `CURLE_OK` with nothing left; the client is evicted exactly when that
      round was allocated and its receive failed with a code other than
      `CURLE_AGAIN`, and with that code; otherwise the message is dropped. */
  lemma {:induction false} OutcomeDecided(script: seq<Round>, policy: CountPolicy, buf: seq<byte>, received: nat, grow: nat)
    requires Admissible(script, policy, |buf|, received, grow)
    ensures Decisive(script) < |script|
    ensures var r := script[Decisive(script)];
      var out := Reassemble(script, policy, buf, received, grow);
      (out.Delivered? <==> r.allocOk && r.code == CURLE_OK && !r.bytesLeft) &&
      (out.Failed? <==> r.allocOk && r.code != CURLE_OK && r.code != CURLE_AGAIN) &&
      (out.Failed? ==> out.code == r.code) &&
      (out.Dropped? <==> !r.allocOk || r.code == CURLE_AGAIN)
    decreases |script|
  {
    var r := script[0];
    if Retries(r) {
      var written := Write(buf + Zeros(grow), received, r.chunk);
      var got := NextCount(policy, received, |r.chunk|);
      OutcomeDecided(script[1..], policy, written, got, got);
      var k := Decisive(script[1..]);
      assert Decisive(script) == k + 1;
      assert script[k + 1] == script[1..][k];
    }
  }

  /** The bytes of the logical message: the chunks of the rounds up to and
      including the first one that reports nothing left. */
  function Payload(script: seq<Round>): seq<byte>
    decreases |script|
  {
    if script == [] then []
    else script[0].chunk + (if script[0].bytesLeft then Payload(script[1..]) else [])
  }

  /** The chunk of the round that reports nothing left. */
  function FinalChunk(script: seq<Round>): seq<byte>
    decreases |script|
  {
    if script == [] then []
    else if script[0].bytesLeft then FinalChunk(script[1..])
    else script[0].chunk
  }

  /** `realloc`: a buffer of `n` bytes that starts with the old contents.
      (The model fills the new tail with zeros.) */
  method Realloc(a: array<byte>, n: nat) returns (b: array<byte>)
    requires a.Length <= n
    ensures fresh(b)
    ensures b[..] == a[..] + Zeros(n - a.Length)
  {
    b := new byte[n](_ => 0);
    var i := 0;
    while i < a.Length
      invariant 0 <= i <= a.Length
      invariant forall q :: 0 <= q < n ==> b[q] == if q < i then a[q] else 0
    {
      b[i] := a[i];
      i := i + 1;
    }
    assert b[..] == a[..] + Zeros(n - a.Length);
  }

  /** Every call was given exactly the tail `[offset, size)` of a buffer of
      at least 4096 bytes and wrote inside it; the first buffer had 4096
      bytes and the capacity never shrank from one call to the next. */
  ghost predicate Confined(calls: seq<RecvCall>) {
    (|calls| > 0 ==> calls[0].size == INITIAL_BUFFER) &&
    (forall c :: c in calls ==>
      c.offset + c.length == c.size && c.written <= c.length && INITIAL_BUFFER <= c.size) &&
    (forall j :: 0 < j < |calls| ==> calls[j - 1].size <= calls[j].size)
  }

  /** The calls follow the rounds: the `q`-th call is the `q`-th round's
      receive and wrote that round's chunk; the first is at offset 0, and each
      later one is at the `recieved` the previous call left, in a buffer grown
      by exactly that much (CWebSockets.c:136, 149-151). */
  ghost predicate Follows(script: seq<Round>, policy: CountPolicy, calls: seq<RecvCall>) {
    |calls| <= |script| &&
    (forall q :: 0 <= q < |calls| ==>
      calls[q].written == (if script[q].code == CURLE_OK then |script[q].chunk| else 0)) &&
    (|calls| > 0 ==> calls[0].offset == 0) &&
    (forall q :: 0 < q < |calls| ==>
      calls[q].offset == NextCount(policy, calls[q - 1].offset, calls[q - 1].written) &&
      calls[q].size == calls[q - 1].size + calls[q].offset)
  }

  lemma FollowsExtend(script: seq<Round>, policy: CountPolicy, calls: seq<RecvCall>, c: RecvCall)
    requires Follows(script, policy, calls) && |calls| < |script|
    requires c.written == (if script[|calls|].code == CURLE_OK then |script[|calls|].chunk| else 0)
    requires |calls| == 0 ==> c.offset == 0
    requires |calls| > 0 ==>
      c.offset == NextCount(policy, calls[|calls| - 1].offset, calls[|calls| - 1].written) &&
      c.size == calls[|calls| - 1].size + c.offset
    ensures Follows(script, policy, calls + [c])
  {
    var ext := calls + [c];
    assert forall q :: 0 <= q < |calls| ==> ext[q] == calls[q];
    assert ext[|calls|] == c;
  }

  lemma ConfinedExtend(calls: seq<RecvCall>, c: RecvCall)
    requires Confined(calls)
    requires c.offset + c.length == c.size && c.written <= c.length && INITIAL_BUFFER <= c.size
    requires |calls| == 0 ==> c.size == INITIAL_BUFFER
    requires |calls| > 0 ==> calls[|calls| - 1].size <= c.size
    ensures Confined(calls + [c])
  {
  }

  /** `curl_ws_recv` copying `chunk` into `buf` at `off`. */
  method WriteChunk(buf: array<byte>, off: nat, chunk: seq<byte>)
    requires off + |chunk| <= buf.Length
    modifies buf
    ensures buf[..] == Write(old(buf[..]), off, chunk)
  {
    var t := 0;
    while t < |chunk|
      invariant 0 <= t <= |chunk|
      invariant forall q :: 0 <= q < buf.Length ==>
        buf[q] == if off <= q < off + t then chunk[q - off] else old(buf[q])
    {
      buf[off + t] := chunk[t];
      t := t + 1;
    }
  }

  /** The allocation at the `recieve:` label: `malloc` of `size` bytes on
      the first pass, `realloc` to `size` bytes on a retry. */
  method Allocate(buf: array<byte>, first: bool, size: nat) returns (b: array<byte>)
    requires first ==> buf.Length == 0
    requires buf.Length <= size
    ensures fresh(b)
    ensures b[..] == buf[..] + Zeros(size - buf.Length)
  {
    if first {
      b := new byte[size](_ => 0);
      assert b[..] == buf[..] + Zeros(size);
    } else {
      b := Realloc(buf, size);
    }
  }

  /** One unfolding of `Reassemble` at round `j`. */
  lemma RoundStep(script: seq<Round>, j: nat, policy: CountPolicy, before: seq<byte>, received: nat, grow: nat)
    requires j < |script| && Admissible(script[j..], policy, |before|, received, grow)
    ensures var r := script[j];
      var out := Reassemble(script[j..], policy, before, received, grow);
      (!r.allocOk || r.code == CURLE_AGAIN ==> out == Dropped) &&
      (r.allocOk && r.code != CURLE_AGAIN && r.code != CURLE_OK ==> out == Failed(r.code)) &&
      (r.allocOk && r.code == CURLE_OK ==>
        var after := Write(before + Zeros(grow), received, r.chunk);
        var got := NextCount(policy, received, |r.chunk|);
        got <= |after| &&
        (!r.bytesLeft ==> out == Delivered(after[..got])) &&
        (r.bytesLeft ==>
          j + 1 < |script| &&
          Admissible(script[j + 1..], policy, |after|, got, got) &&
          out == Reassemble(script[j + 1..], policy, after, got, got)))
  {
    assert script[j..][0] == script[j];
    assert script[j..][1..] == script[j + 1..];
  }

  /** What holds each time the loop reaches the `recieve:` label for the
      `j`-th time: the buffer holds `held` (empty before the first
      allocation), is about to grow by `grow`, and the remaining rounds lead
      to `goal`; the calls so far were confined to their buffers. */
  ghost predicate AtLabel(script: seq<Round>, policy: CountPolicy, j: nat, held: seq<byte>, size: nat,
                          received: nat, grow: nat, calls: seq<RecvCall>, goal: Outcome) {
    j < |script| && |calls| == j &&
    grow == (if j == 0 then INITIAL_BUFFER else received) &&
    (j == 0 ==> |held| == 0 && received == 0 && size == INITIAL_BUFFER) &&
    (j > 0 ==> |held| == size && calls[j - 1].size == size) &&
    Admissible(script[j..], policy, |held|, received, grow) &&
    Reassemble(script[j..], policy, held, received, grow) == goal &&
    (forall q :: 0 <= q < j ==> Retries(script[q])) &&
    (j > 0 ==> received == NextCount(policy, calls[j - 1].offset, calls[j - 1].written)) &&
    Confined(calls) && Follows(script, policy, calls)
  }

  /** The retry loop on one readable descriptor. Its outcome is `Reassemble`
      of the rounds the environment supplies, and every call of
      `curl_ws_recv` is given exactly the part `[recieved, temp_buffer_size)`
      of the current buffer and writes inside it; the capacity starts at 4096
      and never shrinks. */
  method Receive(script: seq<Round>, policy: CountPolicy) returns (out: Outcome, calls: seq<RecvCall>)
    requires Admissible(script, policy, 0, 0, INITIAL_BUFFER)
    ensures out == Reassemble(script, policy, [], 0, INITIAL_BUFFER)
    ensures Decisive(script) < |script|
    ensures |calls| == Decisive(script) + (if script[Decisive(script)].allocOk then 1 else 0)
    ensures Confined(calls) && Follows(script, policy, calls)
    ensures |calls| > 0 ==> calls[0].size == INITIAL_BUFFER
  {
    var size: nat := INITIAL_BUFFER;
    var received: nat := 0;
    var buf := new byte[0];
    var j := 0;
    ghost var grow := INITIAL_BUFFER;
    ghost var goal := Reassemble(script, policy, [], 0, INITIAL_BUFFER);
    calls := [];
    while true
      invariant AtLabel(script, policy, j, buf[..], size, received, grow, calls, goal)
      decreases |script| - j
    {
      var stop;
      stop, out, buf, size, received, calls := Pass(script, policy, j, buf, size, received, grow, calls, goal);
      if stop {
        DecisiveAt(script, j);
        return;
      }
      j := j + 1;
      grow := received;
    }
  }

  /** One pass from the `recieve:` label: allocate or grow the buffer by
      `recieved`, receive into `[recieved, temp_buffer_size)`, and either stop
      with the outcome or come back to the label. */
  method Pass(script: seq<Round>, policy: CountPolicy, j: nat, buf: array<byte>, size: nat, received: nat,
              ghost grow: nat, calls: seq<RecvCall>, ghost goal: Outcome)
    returns (stop: bool, out: Outcome, b: array<byte>, size': nat, received': nat, calls': seq<RecvCall>)
    requires AtLabel(script, policy, j, buf[..], size, received, grow, calls, goal)
    ensures stop ==> out == goal && !Retries(script[j]) && (forall q :: 0 <= q < j ==> Retries(script[q]))
    ensures stop ==> |calls'| == j + (if script[j].allocOk then 1 else 0)
    ensures stop ==> Confined(calls') && Follows(script, policy, calls')
    ensures !stop ==> AtLabel(script, policy, j + 1, b[..], size', received', received', calls', goal)
  {
    var r := script[j];
    ghost var held := buf[..];
    RoundStep(script, j, policy, held, received, grow);
    size' := if j > 0 then size + received else size;
    if !r.allocOk {
      return true, Dropped, buf, size', received, calls;
    }
    assert size' == |held| + grow;
    b := Allocate(buf, j == 0, size');
    assert b[..] == held + Zeros(grow);
    var call := RecvCall(size', received, size' - received, if r.code == CURLE_OK then |r.chunk| else 0);
    ConfinedExtend(calls, call);
    FollowsExtend(script, policy, calls, call);
    calls' := calls + [call];
    stop, out, received' := ReceiveInto(b, received, r, policy);
    if !stop {
      assert b[..] == Write(held + Zeros(grow), received, r.chunk);
      assert script[j + 1..] == script[j..][1..];
    }
  }

  /** From the `curl_ws_recv` call to the end of one pass, on a buffer that
      is already allocated: `CURLE_AGAIN` drops the message, another error
      evicts, and a successful receive writes its chunk at `recieved`, then
      either retries or hands the buffer on. */
  method ReceiveInto(buf: array<byte>, received: nat, r: Round, policy: CountPolicy)
    returns (stop: bool, out: Outcome, got: nat)
    requires r.code == CURLE_OK ==> received + |r.chunk| <= buf.Length
    modifies buf
    ensures r.code == CURLE_AGAIN ==> stop && out == Dropped && buf[..] == old(buf[..])
    ensures r.code != CURLE_OK && r.code != CURLE_AGAIN ==>
      stop && out == Failed(r.code) && buf[..] == old(buf[..])
    ensures r.code == CURLE_OK ==>
      buf[..] == Write(old(buf[..]), received, r.chunk) &&
      got == NextCount(policy, received, |r.chunk|) && got <= buf.Length &&
      stop == !r.bytesLeft && (stop ==> out == Delivered(buf[..got]))
  {
    if r.code != CURLE_OK {
      if r.code == CURLE_AGAIN {
        return true, Dropped, received;
      }
      return true, Failed(r.code), received;
    }
    WriteChunk(buf, received, r.chunk);
    got := NextCount(policy, received, |r.chunk|);
    stop := !r.bytesLeft;
    // when the loop goes on, `out` is not used
    out := if stop then Delivered(buf[..got]) else Dropped;
  }

  /** The corrected loop hands `on_message` exactly the concatenation of the
      chunks of the message, in arrival order, after what the buffer already
      held below `recieved`. */
  lemma {:induction false} RunningDeliversPayload(script: seq<Round>, buf: seq<byte>, received: nat, grow: nat)
    requires Admissible(script, Running, |buf|, received, grow)
    requires received <= |buf|
    ensures var out := Reassemble(script, Running, buf, received, grow);
      out.Delivered? ==> out.data == buf[..received] + Payload(script)
    decreases |script|
  {
    var r := script[0];
    if r.allocOk && r.code == CURLE_OK {
      var written := Write(buf + Zeros(grow), received, r.chunk);
      var got := received + |r.chunk|;
      assert written[..got] == buf[..received] + r.chunk;
      if r.bytesLeft {
        RunningDeliversPayload(script[1..], written, got, got);
      }
    }
  }

  /** As written, the length handed to `on_message` is the count of the
      final receive only, whatever the earlier receives returned. */
  lemma {:induction false} LastCallDeliversFinalCount(script: seq<Round>, buf: seq<byte>, received: nat, grow: nat)
    requires Admissible(script, LastCall, |buf|, received, grow)
    ensures var out := Reassemble(script, LastCall, buf, received, grow);
      out.Delivered? ==> |out.data| == |FinalChunk(script)|
    decreases |script|
  {
    var r := script[0];
    if r.allocOk && r.code == CURLE_OK && r.bytesLeft {
      LastCallDeliversFinalCount(script[1..], Write(buf + Zeros(grow), received, r.chunk), |r.chunk|, |r.chunk|);
    }
  }

  /** A message that arrives in one receive is delivered whole under either
      policy: the two only differ once a retry happens. */
  lemma SingleRoundDelivered(chunk: seq<byte>, policy: CountPolicy)
    requires |chunk| <= INITIAL_BUFFER
    ensures Admissible([Round(true, CURLE_OK, chunk, false)], policy, 0, 0, INITIAL_BUFFER)
    ensures Reassemble([Round(true, CURLE_OK, chunk, false)], policy, [], 0, INITIAL_BUFFER) == Delivered(chunk)
  {
    var written := Write([] + Zeros(INITIAL_BUFFER), 0, chunk);
    assert written[..|chunk|] == chunk;
  }

  /** Three receives of 10, 20 and 5 bytes, the first two reporting bytes
      left: as written `on_message` gets 5 bytes, the first five of the
      first chunk; with a running total it gets all 35 bytes in order. */
  lemma ThreeRoundMessage(c1: seq<byte>, c2: seq<byte>, c3: seq<byte>)
    requires |c1| == 10 && |c2| == 20 && |c3| == 5
    ensures var s := [Round(true, CURLE_OK, c1, true), Round(true, CURLE_OK, c2, true), Round(true, CURLE_OK, c3, false)];
      Admissible(s, LastCall, 0, 0, INITIAL_BUFFER) &&
      Admissible(s, Running, 0, 0, INITIAL_BUFFER) &&
      Reassemble(s, LastCall, [], 0, INITIAL_BUFFER) == Delivered(c1[..5]) &&
      Reassemble(s, Running, [], 0, INITIAL_BUFFER) == Delivered(c1 + c2 + c3)
  {
    var s := [Round(true, CURLE_OK, c1, true), Round(true, CURLE_OK, c2, true), Round(true, CURLE_OK, c3, false)];
    var s1, s2 := s[1..], s[2..];
    assert s1[1..] == s2 && s2[1..] == [];
    assert [] + Zeros(INITIAL_BUFFER) == Zeros(INITIAL_BUFFER);
    var b1 := Write(Zeros(INITIAL_BUFFER), 0, c1);
    // as written: chunk 2 lands at 10, chunk 3 at 20, and 5 bytes are handed on
    var b2 := Write(b1 + Zeros(10), 10, c2);
    var b3 := Write(b2 + Zeros(20), 20, c3);
    assert Admissible(s2, LastCall, |b2|, 20, 20);
    assert Admissible(s1, LastCall, |b1|, 10, 10);
    assert Reassemble(s2, LastCall, b2, 20, 20) == Delivered(b3[..5]);
    assert Reassemble(s1, LastCall, b1, 10, 10) == Delivered(b3[..5]);
    assert b3[..5] == c1[..5];
    // with a running total: chunk 2 lands at 10, chunk 3 at 30, and 35 bytes are handed on
    var w2 := Write(b1 + Zeros(10), 10, c2);
    assert Admissible(s2, Running, |w2|, 30, 30);
    assert Admissible(s1, Running, |b1|, 10, 10);
    assert Reassemble(s2, Running, w2, 30, 30).Delivered?;
    assert Reassemble(s1, Running, b1, 10, 10) == Reassemble(s2, Running, w2, 30, 30);
    assert Reassemble(s, Running, [], 0, INITIAL_BUFFER) == Reassemble(s1, Running, b1, 10, 10);
    RunningDeliversPayload(s, [], 0, INITIAL_BUFFER);
    assert [][..0] + Payload(s) == Payload(s);
    assert Payload(s2) == c3;
    assert Payload(s1) == c2 + c3;
    assert Payload(s) == c1 + c2 + c3;
  }
}
