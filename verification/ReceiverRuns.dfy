/** How `receive_file` returns, what it writes and what it sends, over every history of its waits. */
module ReceiverRuns {
  import opened Common
  import opened Protocol
  import opened Receiver

  /** The packet of a datagram from the peer that parses. */
  function PeerPacket(cfg: Config, e: Event): Option<Control> {
    if e.Received? && e.from == cfg.peer then e.packet else None
  }

  /** A DONE of this transfer whose size is what was received. */
  predicate DoneFits(cfg: Config, s: State, e: Event) {
    var p := PeerPacket(cfg, e);
    p.Some? && p.value.Done? && p.value.transferId == cfg.id && p.value.finalSize == s.current
  }

  predicate ErrorFromPeer(cfg: Config, e: Event) {
    var p := PeerPacket(cfg, e);
    p.Some? && p.value.Error?
  }

  /** What makes the loop return with this status. */
  predicate Returns(cfg: Config, s: State, e: Event, status: Status) {
    match status
    case Success => DoneFits(cfg, s, e) && cfg.hash(s.out) == cfg.expectedHash
    case HashMismatch => DoneFits(cfg, s, e) && cfg.hash(s.out) != cfg.expectedHash
    case PeerError => ErrorFromPeer(cfg, e)
    case TimedOut => e.Timeout? && s.retries + 1 >= 20
    case Running => false
  }

  /** Event `i` came while the loop was waiting, and made it return with this status. */
  ghost predicate ReturnedAt(cfg: Config, events: seq<Event>, i: nat, status: Status) {
    && i < |events|
    && Run(cfg, events[..i]).status == Running
    && Returns(cfg, Run(cfg, events[..i]), events[i], status)
  }

  lemma OneEventReturns(cfg: Config, s: State, e: Event, status: Status)
    requires s.status == Running && status != Running
    ensures OnEvent(cfg, s, e).status == status <==> Returns(cfg, s, e, status)
  {
  }

  lemma ReturnedInFrontOrLast(cfg: Config, front: seq<Event>, e: Event, status: Status)
    ensures (exists i :: ReturnedAt(cfg, front + [e], i, status)) <==>
              || (exists i :: ReturnedAt(cfg, front, i, status))
              || (Run(cfg, front).status == Running && Returns(cfg, Run(cfg, front), e, status))
  {
    hide Run, Returns;
    var all := front + [e];
    forall i: nat | i < |front|
      ensures ReturnedAt(cfg, all, i, status) == ReturnedAt(cfg, front, i, status)
    {
      assert all[..i] == front[..i];
    }
    assert all[..|front|] == front;
    assert ReturnedAt(cfg, all, |front|, status) <==>
           Run(cfg, front).status == Running && Returns(cfg, Run(cfg, front), e, status);
  }

  /**
   Each way of returning, over every history: `receive_file` returns true exactly if, while it
   waited, a DONE of this transfer with the received size arrived and the hash of the output
   agreed; it reports a hash mismatch exactly if the hash did not agree; it gives up exactly
   if the peer sent an error, or with the twentieth time-out in a row.
   */
  lemma {:induction false} ReturnsExactly(cfg: Config, events: seq<Event>, status: Status)
    requires status != Running
    ensures Run(cfg, events).status == status <==> exists i :: ReturnedAt(cfg, events, i, status)
  {
    if events != [] {
      var front, e := events[..|events| - 1], events[|events| - 1];
      assert events == front + [e];
      ReturnsExactly(cfg, front, status);
      ReturnedInFrontOrLast(cfg, front, e, status);
      if Run(cfg, front).status == Running {
        OneEventReturns(cfg, Run(cfg, front), e, status);
      }
      hide Returns, ReturnedAt;
    }
  }

  /** The integrity check: true is never returned with an output whose hash does not agree. */
  lemma {:induction false} SuccessMeansTheHashAgrees(cfg: Config, events: seq<Event>)
    ensures Run(cfg, events).status == Success ==> cfg.hash(Run(cfg, events).out) == cfg.expectedHash
    ensures Run(cfg, events).status == HashMismatch ==> cfg.hash(Run(cfg, events).out) != cfg.expectedHash
  {
    if events != [] {
      SuccessMeansTheHashAgrees(cfg, events[..|events| - 1]);
    }
  }

  // --- what is written ---

  /** The payloads that arrived, while the loop waited, exactly where the ones before them end. */
  function Accepted(cfg: Config, events: seq<Event>): seq<Bytes> {
    if events == [] then []
    else
      var front, e := events[..|events| - 1], events[|events| - 1];
      var done, p := Accepted(cfg, front), PeerPacket(cfg, e);
      if Run(cfg, front).status == Running && p.Some? && p.value.Data? && p.value.transferId == cfg.id
         && p.value.offset == |Flatten(done)|
      then done + [p.value.payload]
      else done
  }

  /** The output is the concatenation of these payloads, and the write offset is its length. */
  lemma {:induction false} OutputIsWhatWasAccepted(cfg: Config, events: seq<Event>)
    ensures Run(cfg, events).out == Flatten(Accepted(cfg, events))
    ensures Run(cfg, events).current == |Run(cfg, events).out|
  {
    if events != [] {
      var front, e := events[..|events| - 1], events[|events| - 1];
      OutputIsWhatWasAccepted(cfg, front);
      var p := PeerPacket(cfg, e);
      if p.Some? && p.value.Data? {
        FlattenSnoc(Accepted(cfg, front), p.value.payload);
      }
      hide Flatten;
    }
  }

  /** Writing at an offset, octet by octet: the payload, then what was there, then zeros. */
  lemma WriteAtExactly(out: Bytes, off: nat, payload: Bytes)
    ensures var r := WriteAt(out, off, payload);
            && |r| == Max(Max(|out|, off), off + |payload|)
            && forall k :: 0 <= k < |r| ==>
                 r[k] == if off <= k < off + |payload| then payload[k - off] else if k < |out| then out[k] else 0
  {
  }

  // --- what is sent ---

  /** The only packets: a GET while nothing was written, otherwise ACKs of what was written. */
  predicate Speaks(cfg: Config, s: State, r: State, e: Event) {
    var p := PeerPacket(cfg, e);
    var answers := p.Some? && p.value.Data? && p.value.transferId == cfg.id && p.value.offset <= s.current;
    r.sent == s.sent + (if e.Timeout? && s.current == 0 then [Get(cfg.id)]
                        else if e.Timeout? || answers || Returns(cfg, s, e, Success) then [Ack(cfg.id, r.current)]
                        else [])
  }

  /**
   A waiting receiver sends exactly one packet for a time-out, for a DATA of this transfer at
   or before its offset, repeated ones included, and for the DONE it accepts; it is silent on
   strangers, on other transfers, on gaps and on everything else.  Any datagram of the peer,
   and nothing else, refills the budget.
   */
  lemma SpeaksExactly(cfg: Config, s: State, e: Event)
    requires s.status == Running
    ensures Speaks(cfg, s, OnEvent(cfg, s, e), e)
    ensures OnEvent(cfg, s, e).retries ==
            if FromPeer(cfg, e) then 0 else if e.Timeout? then s.retries + 1 else s.retries
  {
  }
}
