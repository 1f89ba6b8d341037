/** `send_wss_client`: after checking its arguments it calls `curl_ws_send`
    on the unsent rest of the buffer until every byte was accepted, and
    returns the first non-zero libcurl code at once. `CURLE_AGAIN` is such a
    code: the loop does not retry it. */
module Transmit {
  import opened Types

  /** What one `curl_ws_send` call reported: its result code and the number
      of bytes it accepted (`new_sent`). */
  datatype SendReply = SendReply(code: int, accepted: nat)

  /** One `curl_ws_send` call: it was offered `length` bytes from `offset`. */
  datatype SendCall = SendCall(offset: nat, length: nat)

  /** The argument check: a client, a buffer, a non-zero size and a handle.
      Each missing one makes `send_wss_client` return 1 before any call. */
  predicate SendArgsOk(client: Option<Client>, data: Option<seq<byte>>): (ok: bool)
    ensures ok ==> client.Some? && data.Some?
    ensures data.Some? && |data.value| == 0 ==> !ok
    ensures client.Some? && client.value.handle.None? ==> !ok
    ensures client.Some? && data.Some? && |data.value| != 0 && client.value.handle.Some? ==> ok
  {
    client.Some? && data.Some? && |data.value| != 0 && client.value.handle.Some?
  }

  /** What the transport guarantees about the replies to a send of
      `remaining` more bytes: some reply ends the loop, and no reply accepts
      more than it was offered. */
  ghost predicate Completes(replies: seq<SendReply>, remaining: nat)
    decreases |replies|
  {
    |replies| > 0 &&
    (replies[0].code == CURLE_OK ==>
      replies[0].accepted <= remaining &&
      (replies[0].accepted < remaining ==> Completes(replies[1..], remaining - replies[0].accepted)))
  }

  /** The result code and the number of bytes accepted when `remaining`
      unsent bytes meet these replies. The code is 0 exactly when all of them
      went out; otherwise it is the code of the reply that stopped the loop. */
  function SendResult(replies: seq<SendReply>, remaining: nat): (r: (int, nat))
    requires remaining > 0 && Completes(replies, remaining)
    ensures r.1 <= remaining
    ensures r.0 == CURLE_OK <==> r.1 == remaining
    decreases |replies|
  {
    var rep := replies[0];
    if rep.code != CURLE_OK then (rep.code, 0)
    else if rep.accepted == remaining then (CURLE_OK, remaining)
    else
      var rest := SendResult(replies[1..], remaining - rep.accepted);
      (rest.0, rep.accepted + rest.1)
  }

  /** The number of `curl_ws_send` calls the loop makes before it stops: one
      per reply up to the first that fails or completes the buffer. */
  function CallsMade(replies: seq<SendReply>, remaining: nat): (n: nat)
    requires remaining > 0 && Completes(replies, remaining)
    ensures 1 <= n <= |replies|
    decreases |replies|
  {
    var rep := replies[0];
    if rep.code != CURLE_OK || rep.accepted == remaining then 1
    else 1 + CallsMade(replies[1..], remaining - rep.accepted)
  }

  /** A failed send returns the code of one of the transport's replies,
      the first that was not `CURLE_OK`, and every reply before it was
      `CURLE_OK`. */
  lemma {:induction false} FailureIsFirstErrorReply(replies: seq<SendReply>, remaining: nat)
    requires remaining > 0 && Completes(replies, remaining)
    ensures var r := SendResult(replies, remaining);
      r.0 != CURLE_OK ==>
        exists k :: 0 <= k < |replies| && replies[k].code == r.0 &&
          forall j :: 0 <= j < k ==> replies[j].code == CURLE_OK
    decreases |replies|
  {
    var rep := replies[0];
    if rep.code == CURLE_OK && rep.accepted < remaining {
      var rest := replies[1..];
      FailureIsFirstErrorReply(rest, remaining - rep.accepted);
      var r := SendResult(rest, remaining - rep.accepted);
      if r.0 != CURLE_OK {
        var k :| 0 <= k < |rest| && rest[k].code == r.0 &&
          forall j :: 0 <= j < k ==> rest[j].code == CURLE_OK;
        assert replies[k + 1].code == r.0;
        assert forall j :: 0 <= j < k + 1 ==> replies[j].code == CURLE_OK by {
          forall j | 0 <= j < k + 1 ensures replies[j].code == CURLE_OK {
            if j > 0 { assert replies[j] == rest[j - 1]; }
          }
        }
      }
    }
  }

  /** One unfolding of `SendResult` at reply `k`. */
  lemma SendStep(replies: seq<SendReply>, k: nat, remaining: nat)
    requires k < |replies| && remaining > 0 && Completes(replies[k..], remaining)
    ensures var rep := replies[k];
      var r := SendResult(replies[k..], remaining);
      (rep.code != CURLE_OK ==> r == (rep.code, 0)) &&
      (rep.code == CURLE_OK ==> rep.accepted <= remaining) &&
      (rep.code == CURLE_OK && rep.accepted == remaining ==> r == (CURLE_OK, remaining)) &&
      (rep.code != CURLE_OK || rep.accepted == remaining ==> CallsMade(replies[k..], remaining) == 1) &&
      (rep.code == CURLE_OK && rep.accepted < remaining ==>
        k + 1 < |replies| && Completes(replies[k + 1..], remaining - rep.accepted) &&
        CallsMade(replies[k..], remaining) == 1 + CallsMade(replies[k + 1..], remaining - rep.accepted) &&
        r == (SendResult(replies[k + 1..], remaining - rep.accepted).0,
              rep.accepted + SendResult(replies[k + 1..], remaining - rep.accepted).1))
  {
    assert replies[k..][0] == replies[k];
    assert replies[k..][1..] == replies[k + 1..];
  }

  /** The calls started at offset 0, each was offered the whole unsent
      rest of `size` bytes, and each began where the bytes accepted by the
      one before it ended. */
  ghost predicate Chained(calls: seq<SendCall>, replies: seq<SendReply>, size: nat) {
    |calls| <= |replies| &&
    (|calls| > 0 ==> calls[0] == SendCall(0, size)) &&
    (forall k :: 0 <= k < |calls| ==> calls[k].offset + calls[k].length == size) &&
    (forall k :: 0 < k < |calls| ==> calls[k].offset == calls[k - 1].offset + replies[k - 1].accepted)
  }

  lemma ChainedExtend(calls: seq<SendCall>, replies: seq<SendReply>, size: nat, sent: nat)
    requires Chained(calls, replies, size) && |calls| < |replies| && sent <= size
    requires |calls| == 0 ==> sent == 0
    requires |calls| > 0 ==> calls[|calls| - 1].offset + replies[|calls| - 1].accepted == sent
    ensures Chained(calls + [SendCall(sent, size - sent)], replies, size)
  {
  }

  /** `send_wss_client`. Returns the code, the number of bytes the transport
      accepted (`sent`), the bytes in the order they went out, and the calls
      made. Each call is offered the whole unsent rest, starting where the
      previous accepted bytes ended, so the bytes go out in order and each
      once; a failing call leaves the prefix already sent as sent. */
  method Send(client: Option<Client>, data: Option<seq<byte>>, replies: seq<SendReply>)
    returns (rc: int, sent: nat, wire: seq<byte>, calls: seq<SendCall>)
    requires SendArgsOk(client, data) ==> Completes(replies, |data.value|)
    ensures !SendArgsOk(client, data) ==> rc == 1 && sent == 0 && calls == []
    ensures SendArgsOk(client, data) ==>
      (rc, sent) == SendResult(replies, |data.value|) && wire == data.value[..sent] &&
      |calls| == CallsMade(replies, |data.value|) && Chained(calls, replies, |data.value|)
  {
    if client.None? || data.None? || |data.value| == 0 || client.value.handle.None? {
      return 1, 0, [], [];
    }
    rc, sent, wire, calls := SendLoop(data.value, replies);
  }

  /** What holds each time the loop tests `sent < size`: `k` calls were
      made, the first `sent` bytes went out, and the remaining replies lead
      to `goal` after `total` calls in all. */
  ghost predicate BeforeCall(bytes: seq<byte>, replies: seq<SendReply>, k: nat, sent: nat,
                             wire: seq<byte>, calls: seq<SendCall>, goal: (int, nat), total: nat) {
    var size := |bytes|;
    sent <= size && k == |calls| && wire == bytes[..sent] &&
    (sent < size ==>
      k < |replies| && Completes(replies[k..], size - sent) &&
      goal == (SendResult(replies[k..], size - sent).0, sent + SendResult(replies[k..], size - sent).1) &&
      total == k + CallsMade(replies[k..], size - sent)) &&
    (sent == size ==> goal == (CURLE_OK, size) && k > 0 && total == k) &&
    (k == 0 ==> sent == 0) &&
    (k > 0 && sent < size ==> calls[k - 1].offset + replies[k - 1].accepted == sent) &&
    Chained(calls, replies, size)
  }

  /** The `while (sent < size)` loop of `send_wss_client`. */
  method SendLoop(bytes: seq<byte>, replies: seq<SendReply>)
    returns (rc: int, sent: nat, wire: seq<byte>, calls: seq<SendCall>)
    requires |bytes| > 0 && Completes(replies, |bytes|)
    ensures (rc, sent) == SendResult(replies, |bytes|)
    ensures wire == bytes[..sent]
    ensures |calls| == CallsMade(replies, |bytes|) && Chained(calls, replies, |bytes|)
  {
    ghost var goal := SendResult(replies, |bytes|);
    ghost var total := CallsMade(replies, |bytes|);
    sent, wire, calls := 0, [], [];
    var k := 0;
    while sent < |bytes|
      invariant BeforeCall(bytes, replies, k, sent, wire, calls, goal, total)
      decreases |replies| - k
    {
      var stop;
      stop, rc, sent, wire, calls := SendOnce(bytes, replies, k, sent, wire, calls, goal, total);
      if stop {
        return;
      }
      k := k + 1;
    }
    rc := CURLE_OK;
  }

  /** One pass of that loop: a `curl_ws_send` of the unsent rest, then
      either a return with its non-zero code or `sent += new_sent`. */
  method SendOnce(bytes: seq<byte>, replies: seq<SendReply>, k: nat, sent: nat, wire: seq<byte>,
                  calls: seq<SendCall>, ghost goal: (int, nat), ghost total: nat)
    returns (stop: bool, rc: int, sent': nat, wire': seq<byte>, calls': seq<SendCall>)
    requires BeforeCall(bytes, replies, k, sent, wire, calls, goal, total) && sent < |bytes|
    ensures stop ==>
      (rc, sent') == goal && wire' == bytes[..sent'] && |calls'| == total && Chained(calls', replies, |bytes|)
    ensures !stop ==> BeforeCall(bytes, replies, k + 1, sent', wire', calls', goal, total)
  {
    var size := |bytes|;
    var rep := replies[k];
    SendStep(replies, k, size - sent);
    ChainedExtend(calls, replies, size, sent);
    calls' := calls + [SendCall(sent, size - sent)];
    if rep.code != CURLE_OK {
      return true, rep.code, sent, wire, calls';
    }
    wire' := wire + bytes[sent..sent + rep.accepted];
    sent' := sent + rep.accepted;
    assert wire' == bytes[..sent'];
    stop, rc := false, CURLE_OK;
  }

  /** A transport that accepts the buffer in chunks, all with `CURLE_OK`,
      gets one call per chunk, and the send succeeds. */
  lemma {:induction false} ChunkedSendSucceeds(chunks: seq<nat>, remaining: nat)
    requires remaining > 0 && |chunks| > 0
    requires forall j :: 0 <= j < |chunks| ==> chunks[j] > 0
    requires Sum(chunks) == remaining
    ensures Completes(Replies(chunks), remaining)
    ensures SendResult(Replies(chunks), remaining) == (CURLE_OK, remaining)
    ensures CallsMade(Replies(chunks), remaining) == |chunks|
    decreases |chunks|
  {
    var rs := Replies(chunks);
    assert rs[0] == SendReply(CURLE_OK, chunks[0]);
    if chunks[0] < remaining {
      assert rs[1..] == Replies(chunks[1..]);
      ChunkedSendSucceeds(chunks[1..], remaining - chunks[0]);
    }
  }

  function Sum(s: seq<nat>): nat {
    if s == [] then 0 else s[0] + Sum(s[1..])
  }

  /** The all-`CURLE_OK` replies accepting `chunks[k]` bytes each. */
  function Replies(chunks: seq<nat>): (rs: seq<SendReply>)
    ensures |rs| == |chunks|
    ensures forall k :: 0 <= k < |chunks| ==> rs[k] == SendReply(CURLE_OK, chunks[k])
  {
    if chunks == [] then [] else [SendReply(CURLE_OK, chunks[0])] + Replies(chunks[1..])
  }

  /** `CURLE_AGAIN` is not retried: a transport that is not ready for the
      first byte makes the send fail with that code and nothing sent. */
  lemma AgainIsReturned(size: nat, later: seq<SendReply>)
    requires size > 0
    ensures Completes([SendReply(CURLE_AGAIN, 0)] + later, size)
    ensures SendResult([SendReply(CURLE_AGAIN, 0)] + later, size) == (CURLE_AGAIN, 0)
  {
  }
}
