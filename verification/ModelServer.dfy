/** The resend and acknowledge protocol of ModelServer in
    script/self_driving/model_server.py. Everything written to the socket and every
    acknowledgment read from it goes to a log, and the promises are about that log.
    What a command answers, and which pending messages are due for another attempt,
    comes with each event.
 */
module ModelServer {
  import Framing

  const ACK: int := 2

  /** The part of a message that is kept for sending it again. */
  datatype Letter = Letter(sendId: int, recvId: int, data: string)

  datatype Entry = Sent(id: int, letter: Letter) | Acked(id: int)

  /** What Message.from_json and _execute_cmd make of a payload. */
  datatype Reaction = Undecodable | NoCommand | Fails | Quits | Answers(data: string)

  datatype Server = Server(next: nat, pending: map<int, Letter>, log: seq<Entry>, running: bool)

  /** What happens to the server: time to look at the pending messages, or a frame, with
      what its payload leads to at that moment. */
  datatype Event = Poll(due: set<int>) | Receive(frame: string, reaction: Reaction)

  // ---- The steps as functions ----

  function Send(s: Server, id: int, letter: Letter): (s': Server) {
    s.(pending := if id in s.pending then s.pending else s.pending[id := letter],
       log := s.log + [Sent(id, letter)])
  }

  function SendNew(s: Server, letter: Letter): (s': Server) {
    Send(s.(next := s.next + 1), s.next, letter)
  }

  /** The resend loop over the pending ids below `k`, oldest first. */
  function ResendBelow(s: Server, due: set<int>, k: nat): (s': Server)
    decreases k
  {
    if k == 0 then s
    else
      var r := ResendBelow(s, due, k - 1);
      if k - 1 in s.pending && k - 1 in due then Send(r, k - 1, s.pending[k - 1]) else r
  }

  function Acknowledge(s: Server, id: int): (s': Server) {
    s.(pending := map k | k in s.pending && k != id :: s.pending[k], log := s.log + [Acked(id)])
  }

  function Step(s: Server, e: Event): (s': Server) {
    if !s.running then s
    else
      match e
      case Poll(due) => ResendBelow(s, due, s.next)
      case Receive(frame, reaction) =>
        match Framing.Parse(frame)
        case Crash => s.(running := false)
        case BadIds => s
        case Message(msgId, sendId, recvId, payload) =>
          if reaction.Undecodable? then s.(running := false)
          else if recvId == ACK then Acknowledge(s, msgId)
          else
            match reaction
            case Answers(data) => SendNew(s, Letter(0, sendId, data))
            case NoCommand => s
            case _ => s.(running := false)
  }

  function Run(s: Server, events: seq<Event>): (s': Server)
    decreases |events|
  {
    if events == [] then s else Run(Step(s, events[0]), events[1..])
  }

  /** The server after its constructor has announced itself. */
  function Started(hello: string): (s: Server) {
    SendNew(Server(0, map[], [], true), Letter(0, 0, hello))
  }

  // ---- The class ----

  class ModelServer {
    var nextMsgId: nat
    var pendingMsgs: map<int, Letter>
    var log: seq<Entry>
    var running: bool

    function Now(): (s: Server)
      reads this
    {
      Server(nextMsgId, pendingMsgs, log, running)
    }

    constructor (hello: string)
      ensures Now() == Started(hello)
    {
      nextMsgId, pendingMsgs, log, running := 0, map[], [], true;
      new;
      var id := NextMsgId();
      SendMsg(id, Letter(0, 0, hello));
    }

    method NextMsgId() returns (id: nat)
      modifies this
      ensures id == old(nextMsgId) && Now() == old(Now()).(next := id + 1)
    {
      id := nextMsgId;
      nextMsgId := nextMsgId + 1;
    }

    method SendMsg(id: int, letter: Letter)
      modifies this
      ensures Now() == Send(old(Now()), id, letter)
    {
      if id !in pendingMsgs { pendingMsgs := pendingMsgs[id := letter]; }
      log := log + [Sent(id, letter)];
    }

    /** The pending messages in the order of their ids, which is the order in which the
        dictionary got them. */
    method ResendPending(due: set<int>)
      modifies this
      ensures Now() == ResendBelow(old(Now()), due, old(nextMsgId))
    {
      for id := 0 to nextMsgId
        invariant nextMsgId == old(nextMsgId) && pendingMsgs == old(pendingMsgs)
        invariant Now() == ResendBelow(old(Now()), due, id)
      {
        if id in pendingMsgs && id in due { SendMsg(id, pendingMsgs[id]); }
      }
    }

    method HandleFrame(frame: string, reaction: Reaction)
      modifies this
      ensures Now() == if old(running) then Step(old(Now()), Receive(frame, reaction)) else old(Now())
    {
      if !running { return; }
      match Framing.Parse(frame)
      case Crash => running := false;
      case BadIds =>
      case Message(msgId, sendId, recvId, payload) =>
        if reaction.Undecodable? {
          running := false;
        } else if recvId == ACK {
          pendingMsgs := map k | k in pendingMsgs && k != msgId :: pendingMsgs[k];
          log := log + [Acked(msgId)];
        } else if reaction.Answers? {
          var id := NextMsgId();
          SendMsg(id, Letter(0, sendId, reaction.data));
        } else if !reaction.NoCommand? {
          running := false;
        }
    }

    /** run_loop, driven by the events that happen to it. */
    method RunLoop(events: seq<Event>)
      modifies this
      ensures Now() == Run(old(Now()), events)
    {
      for i := 0 to |events|
        invariant Run(Now(), events[i..]) == Run(old(Now()), events)
      {
        assert events[i..][1..] == events[i + 1..];
        match events[i]
        case Poll(due) => if running { ResendPending(due); }
        case Receive(frame, reaction) => HandleFrame(frame, reaction);
      }
    }
  }

  // ---- The promises ----

  predicate SentAt(log: seq<Entry>, i: int, id: int) {
    0 <= i < |log| && log[i].Sent? && log[i].id == id
  }

  predicate AckedAt(log: seq<Entry>, j: int, id: int) {
    0 <= j < |log| && log[j] == Acked(id)
  }

  ghost predicate EverSent(log: seq<Entry>, id: int) {
    exists i :: SentAt(log, i, id)
  }

  /** `id` was sent, and not acknowledged since. */
  ghost predicate Outstanding(log: seq<Entry>, id: int) {
    exists i :: SentAt(log, i, id) && Acked(id) !in log[i..]
  }

  /** An id is sent, possibly again and again, always with the same letter, and never
      again after an acknowledgment that followed a sending of it. */
  ghost predicate Faithful(log: seq<Entry>) {
    && (forall i, j, id :: SentAt(log, i, id) && SentAt(log, j, id) ==> log[i] == log[j])
    && (forall j, id :: AckedAt(log, j, id) && EverSent(log[..j], id) ==> !EverSent(log[j..], id))
  }

  ghost predicate Good(s: Server) {
    && Faithful(s.log)
    && (forall id :: EverSent(s.log, id) <==> 0 <= id < s.next)
    && (forall id :: id in s.pending <==> Outstanding(s.log, id))
    && (forall i, id :: SentAt(s.log, i, id) && id in s.pending ==> s.pending[id] == s.log[i].letter)
  }

  lemma {:induction false} SentAppend(log: seq<Entry>, e: Entry, i: int, id: int)
    ensures SentAt(log + [e], i, id) <==> SentAt(log, i, id) || (i == |log| && e.Sent? && e.id == id)
  {
  }

  lemma {:induction false} OutstandingAppend(log: seq<Entry>, e: Entry, id: int)
    ensures Outstanding(log + [e], id) <==>
              (e.Sent? && e.id == id) || (Outstanding(log, id) && e != Acked(id))
  {
    var log' := log + [e];
    if Outstanding(log', id) {
      var i :| SentAt(log', i, id) && Acked(id) !in log'[i..];
      if i < |log| {
        assert log'[i..] == log[i..] + [e];
        assert SentAt(log, i, id);
      }
    }
    if e.Sent? && e.id == id {
      assert log'[|log|..] == [e];
      assert SentAt(log', |log|, id);
    } else if Outstanding(log, id) && e != Acked(id) {
      var i :| SentAt(log, i, id) && Acked(id) !in log[i..];
      assert log'[i..] == log[i..] + [e];
      assert SentAt(log', i, id);
    }
  }

  /** What may be sent next: a new id, or a pending one with the letter it had. */
  lemma {:induction false} SendGood(s: Server, next: nat, id: int, letter: Letter)
    requires Good(s)
    requires (id == s.next && next == s.next + 1) || (next == s.next && id in s.pending && letter == s.pending[id])
    ensures Good(Send(s.(next := next), id, letter))
  {
    var s' := Send(s.(next := next), id, letter);
    var e := Sent(id, letter);
    forall i, k ensures SentAt(s'.log, i, k) <==> SentAt(s.log, i, k) || (i == |s.log| && k == id) {
      SentAppend(s.log, e, i, k);
    }
    forall k ensures k in s'.pending <==> Outstanding(s'.log, k) {
      OutstandingAppend(s.log, e, k);
    }
    forall k ensures EverSent(s'.log, k) <==> 0 <= k < s'.next {
      EverSentAppend(s.log, e, k);
      if k in s.pending { PendingWasSent(s, k); }
    }
    assert s.next !in s.pending by {
      if s.next in s.pending { PendingWasSent(s, s.next); }
    }
    FaithfulSend(s, id, letter);
  }

  lemma {:induction false} EverSentAppend(log: seq<Entry>, e: Entry, id: int)
    ensures EverSent(log + [e], id) <==> EverSent(log, id) || (e.Sent? && e.id == id)
  {
    if EverSent(log + [e], id) {
      var i :| SentAt(log + [e], i, id);
      assert i < |log| ==> SentAt(log, i, id);
    }
    if EverSent(log, id) {
      var i :| SentAt(log, i, id);
      assert SentAt(log + [e], i, id);
    } else if e.Sent? && e.id == id {
      assert SentAt(log + [e], |log|, id);
    }
  }

  lemma {:induction false} PendingWasSent(s: Server, id: int)
    requires Good(s) && id in s.pending
    ensures EverSent(s.log, id) && 0 <= id < s.next
  {
    assert Outstanding(s.log, id);
    var i :| SentAt(s.log, i, id) && Acked(id) !in s.log[i..];
    SentIsBelow(s, i, id);
  }

  lemma {:induction false} SentIsBelow(s: Server, i: int, id: int)
    requires Good(s) && SentAt(s.log, i, id)
    ensures EverSent(s.log, id) && 0 <= id < s.next
  {
    assert EverSent(s.log, id);
  }

  lemma {:induction false} AckedIsNotSendable(s: Server, id: int, j: int)
    requires Good(s) && AckedAt(s.log, j, id) && EverSent(s.log[..j], id)
    ensures id != s.next && id !in s.pending
  {
    var i :| SentAt(s.log[..j], i, id);
    SentIsBelow(s, i, id);
    NotOutstanding(s.log, id, j);
  }

  lemma {:induction false} NotOutstanding(log: seq<Entry>, id: int, j: int)
    requires AckedAt(log, j, id) && !EverSent(log[j..], id)
    ensures !Outstanding(log, id)
  {
    forall n | SentAt(log, n, id) ensures Acked(id) in log[n..] {
      SentOrAcked(log, id, j, n);
    }
  }

  lemma {:induction false} SentOrAcked(log: seq<Entry>, id: int, j: int, n: int)
    requires AckedAt(log, j, id) && SentAt(log, n, id)
    ensures EverSent(log[j..], id) || Acked(id) in log[n..]
  {
    if n <= j {
      assert log[n..][j - n] == Acked(id);
    } else {
      assert SentAt(log[j..], n - j, id);
    }
  }

  lemma {:induction false} FaithfulSend(s: Server, id: int, letter: Letter)
    requires Good(s)
    requires id == s.next || (id in s.pending && letter == s.pending[id])
    ensures Faithful(s.log + [Sent(id, letter)])
  {
    var e := Sent(id, letter);
    var log := s.log + [e];
    forall i, k | SentAt(log, i, k) ensures if i < |s.log| then SentAt(s.log, i, k) else k == id {
      SentAppend(s.log, e, i, k);
    }
    forall i, j, k | SentAt(log, i, k) && SentAt(log, j, k) ensures log[i] == log[j] {
      if i < |s.log| { SentIsBelow(s, i, k); }
      if j < |s.log| { SentIsBelow(s, j, k); }
    }
    forall j, m | AckedAt(log, j, m) && EverSent(log[..j], m) ensures !EverSent(log[j..], m) {
      assert log[..j] == s.log[..j] && log[j..] == s.log[j..] + [e] && AckedAt(s.log, j, m);
      EverSentAppend(s.log[j..], e, m);
      if m == id { AckedIsNotSendable(s, id, j); }
    }
  }

  lemma {:induction false} AckGood(s: Server, id: int)
    requires Good(s)
    ensures Good(Acknowledge(s, id))
  {
    var s' := Acknowledge(s, id);
    forall i, k ensures SentAt(s'.log, i, k) <==> SentAt(s.log, i, k) {
      SentAppend(s.log, Acked(id), i, k);
    }
    forall k ensures k in s'.pending <==> Outstanding(s'.log, k) {
      OutstandingAppend(s.log, Acked(id), k);
    }
    forall k ensures EverSent(s'.log, k) <==> 0 <= k < s'.next {
      EverSentAppend(s.log, Acked(id), k);
    }
    forall j, m | AckedAt(s'.log, j, m) && EverSent(s'.log[..j], m) ensures !EverSent(s'.log[j..], m) {
      if j < |s.log| {
        assert s'.log[..j] == s.log[..j] && s'.log[j..] == s.log[j..] + [Acked(id)] && AckedAt(s.log, j, m);
        EverSentAppend(s.log[j..], Acked(id), m);
      }
    }
  }

  lemma {:induction false} AgainGood(s: Server, id: int)
    requires Good(s) && id in s.pending
    ensures Good(Send(s, id, s.pending[id]))
  {
    assert s.(next := s.next) == s;
    SendGood(s, s.next, id, s.pending[id]);
  }

  lemma {:induction false} ResendGood(s: Server, due: set<int>, k: nat)
    requires Good(s)
    ensures Good(ResendBelow(s, due, k))
  {
    var r := s;
    for id := 0 to k
      invariant Good(r) && r == ResendBelow(s, due, id) && r.pending == s.pending
    {
      if id in r.pending && id in due {
        AgainGood(r, id);
        r := Send(r, id, r.pending[id]);
      }
    }
  }

  lemma {:induction false} StepGood(s: Server, e: Event)
    requires Good(s)
    ensures Good(Step(s, e))
  {
    if s.running {
      match e
      case Poll(due) => ResendGood(s, due, s.next);
      case Receive(frame, reaction) =>
        match Framing.Parse(frame)
        case Crash =>
        case BadIds =>
        case Message(msgId, sendId, recvId, payload) =>
          if !reaction.Undecodable? && recvId == ACK {
            AckGood(s, msgId);
          } else if reaction.Answers? {
            SendGood(s, s.next + 1, s.next, Letter(0, sendId, reaction.data));
          }
    }
  }

  lemma {:induction false} RunGood(s: Server, events: seq<Event>)
    requires Good(s)
    ensures Good(Run(s, events))
    decreases |events|
  {
    if events != [] {
      StepGood(s, events[0]);
      RunGood(Step(s, events[0]), events[1..]);
    }
  }

  lemma {:induction false} StartedGood(hello: string)
    ensures Good(Started(hello))
  {
    var s := Server(0, map[], [], true);
    forall id ensures id in s.pending <==> Outstanding(s.log, id) {}
    SendGood(s, 1, 0, Letter(0, 0, hello));
  }

  /** In every run: the ids sent are 0, ..., next - 1; every sending of an id carries
      the same letter; the pending ids are those sent and not acknowledged since, with
      the letter they were sent with; no id is sent again after its acknowledgment. */
  lemma {:induction false} ProtocolPromises(hello: string, events: seq<Event>)
    ensures var s := Run(Started(hello), events);
            && (forall id :: EverSent(s.log, id) <==> 0 <= id < s.next)
            && (forall i, j, id :: SentAt(s.log, i, id) && SentAt(s.log, j, id) ==> s.log[i] == s.log[j])
            && (forall id :: id in s.pending <==> Outstanding(s.log, id))
            && (forall i, id :: SentAt(s.log, i, id) && id in s.pending ==> s.pending[id] == s.log[i].letter)
            && (forall j, id :: AckedAt(s.log, j, id) && EverSent(s.log[..j], id) ==> !EverSent(s.log[j..], id))
  {
    StartedGood(hello);
    RunGood(Started(hello), events);
  }

  // ---- What a frame does ----

  /** An acknowledgment takes its message id off the pending messages, nothing else, and
      sends nothing. */
  lemma {:induction false} AckFrame(s: Server, id: nat, sendId: nat, payload: string, reaction: Reaction)
    requires s.running && !reaction.Undecodable?
    ensures var s' := Step(s, Receive(Framing.Format(id, sendId, 2, payload), reaction));
            && s' == s.(pending := s.pending - {id}, log := s.log + [Acked(id)])
            && (forall i, k :: SentAt(s'.log, i, k) <==> SentAt(s.log, i, k))
  {
    Framing.FrameRoundTrip(id, sendId, 2, payload);
    var s' := Step(s, Receive(Framing.Format(id, sendId, 2, payload), reaction));
    assert s'.pending == s.pending - {id};
    forall i, k ensures SentAt(s'.log, i, k) <==> SentAt(s.log, i, k) {
      SentAppend(s.log, Acked(id), i, k);
    }
  }

  /** Any other frame with a command that answers is answered with the next id, to the
      callback that the frame names as its sender, and the answer is pending. */
  lemma {:induction false} AnswerFrame(
    s: Server, id: nat, sendId: nat, recvId: nat, payload: string, data: string)
    requires s.running && recvId != 2 && s.next !in s.pending
    ensures Step(s, Receive(Framing.Format(id, sendId, recvId, payload), Answers(data))) ==
            var answer := Letter(0, sendId, data);
            Server(s.next + 1, s.pending[s.next := answer], s.log + [Sent(s.next, answer)], true)
  {
    Framing.FrameRoundTrip(id, sendId, recvId, payload);
  }

  /** A frame with a negative id is skipped, and so is one without a command; a command
      that quits or fails, or a payload that cannot be decoded, ends the server. None of
      these sends anything or touches the pending messages. */
  lemma {:induction false} SilentFrame(
    s: Server, id: int, sendId: int, recvId: int, payload: string, reaction: Reaction)
    requires s.running && !reaction.Answers?
    requires recvId == 2 ==> reaction.Undecodable? || id < 0 || sendId < 0
    ensures Step(s, Receive(Framing.Format(id, sendId, recvId, payload), reaction)) ==
            s.(running := id < 0 || sendId < 0 || recvId < 0 || reaction.NoCommand?)
  {
    Framing.FrameRoundTrip(id, sendId, recvId, payload);
  }

  // ---- What a poll does ----

  /** The entries for the pending messages that are due, in the order of their ids. */
  ghost predicate Resends(s: Server, due: set<int>, k: int, sent: seq<Entry>) {
    && (forall i :: 0 <= i < |sent| ==>
          sent[i].Sent? && sent[i].id in s.pending && sent[i].id in due && sent[i].id < k &&
          sent[i].letter == s.pending[sent[i].id])
    && (forall i, j :: 0 <= i < j < |sent| ==> sent[i].id < sent[j].id)
    && (forall id :: 0 <= id < k && id in s.pending && id in due ==> Sent(id, s.pending[id]) in sent)
  }

  lemma {:induction false} ResendsBelow(s: Server, due: set<int>, k: nat) returns (sent: seq<Entry>)
    ensures Resends(s, due, k, sent) && ResendBelow(s, due, k) == s.(log := s.log + sent)
    decreases k
  {
    if k == 0 {
      sent := [];
      assert s.log + [] == s.log;
    } else {
      var before := ResendsBelow(s, due, k - 1);
      if k - 1 in s.pending && k - 1 in due {
        sent := before + [Sent(k - 1, s.pending[k - 1])];
        assert s.log + before + [Sent(k - 1, s.pending[k - 1])] == s.log + sent;
      } else {
        sent := before;
      }
    }
  }

  /** A poll sends every pending message that is due once more, unchanged, oldest first,
      and nothing else; all of them stay pending. */
  lemma {:induction false} PollResends(s: Server, due: set<int>) returns (sent: seq<Entry>)
    requires Good(s) && s.running
    ensures Step(s, Poll(due)) == s.(log := s.log + sent)
    ensures forall e :: e in sent <==>
              e.Sent? && e.id in s.pending && e.id in due && e.letter == s.pending[e.id]
    ensures forall i, j :: 0 <= i < j < |sent| ==> sent[i].id < sent[j].id
  {
    sent := ResendsBelow(s, due, s.next);
    forall e: Entry | e.Sent? && e.id in s.pending && e.id in due && e.letter == s.pending[e.id] ensures e in sent {
      PendingWasSent(s, e.id);
      assert e == Sent(e.id, s.pending[e.id]);
    }
  }

  // ---- What is pending, in terms of the events ----

  /** The event is the acknowledgment of `id`. */
  predicate Acknowledges(e: Event, id: int) {
    && e.Receive? && !e.reaction.Undecodable?
    && Framing.Parse(e.frame).Message?
    && Framing.Parse(e.frame).msgId == id && Framing.Parse(e.frame).recvId == 2
  }

  lemma {:induction false} AcknowledgesFrame(id: nat, sendId: nat, recvId: nat, payload: string, reaction: Reaction)
    ensures forall k :: Acknowledges(Receive(Framing.Format(id, sendId, recvId, payload), reaction), k) <==>
                          k == id && recvId == 2 && !reaction.Undecodable?
  {
    Framing.FrameRoundTrip(id, sendId, recvId, payload);
  }

  /** The event after the first `j` is the acknowledgment of an id already handed out,
      and the server reads it. */
  predicate AckRead(s: Server, events: seq<Event>, j: nat, id: int)
    requires j < |events|
  {
    var now := Run(s, events[..j]);
    now.running && id < now.next && Acknowledges(events[j], id)
  }

  /** A step lets go of a pending message exactly if it reads its acknowledgment, and
      takes on the ids that it hands out. */
  lemma {:induction false} StepPending(s: Server, e: Event, id: int)
    requires Good(s)
    ensures s.next <= Step(s, e).next
    ensures id in Step(s, e).pending <==>
              (id in s.pending && !(s.running && Acknowledges(e, id))) || s.next <= id < Step(s, e).next
  {
    if id in s.pending { PendingWasSent(s, id); }
    if s.running && e.Poll? { var sent := PollResends(s, e.due); }
  }

  lemma {:induction false} AckReadSplit(s: Server, events: seq<Event>, id: int)
    requires events != []
    ensures var t := Step(s, events[0]);
            (forall j :: 0 <= j < |events| ==> !AckRead(s, events, j, id)) <==>
              && !(s.running && id < s.next && Acknowledges(events[0], id))
              && (forall j :: 0 <= j < |events[1..]| ==> !AckRead(t, events[1..], j, id))
  {
    var t := Step(s, events[0]);
    assert events[..0] == [];
    assert AckRead(s, events, 0, id) <==> s.running && id < s.next && Acknowledges(events[0], id);
    forall j: nat | 0 < j < |events|
      ensures AckRead(s, events, j, id) <==> AckRead(t, events[1..], j - 1, id)
    {
      assert events[..j][0] == events[0] && events[..j][1..] == events[1..][..j - 1];
    }
    forall j: nat | j < |events[1..]| ensures AckRead(t, events[1..], j, id) <==> AckRead(s, events, j + 1, id) {}
  }

  lemma {:induction false} RunPending(s: Server, events: seq<Event>, id: int)
    requires Good(s)
    ensures s.next <= Run(s, events).next
    ensures id in Run(s, events).pending <==>
              && (id in s.pending || s.next <= id < Run(s, events).next)
              && (forall j :: 0 <= j < |events| ==> !AckRead(s, events, j, id))
    decreases |events|
  {
    if events != [] {
      var t := Step(s, events[0]);
      StepGood(s, events[0]);
      StepPending(s, events[0], id);
      RunPending(t, events[1..], id);
      if id in s.pending { PendingWasSent(s, id); }
      if id in t.pending { PendingWasSent(t, id); }
      AckReadSplit(s, events, id);
    }
  }

  /** In every run, an id is pending exactly if it was handed out and no acknowledgment
      of it was read since. */
  lemma {:induction false} PendingIff(hello: string, events: seq<Event>, id: int)
    ensures id in Run(Started(hello), events).pending <==>
              && 0 <= id < Run(Started(hello), events).next
              && (forall j :: 0 <= j < |events| ==> !AckRead(Started(hello), events, j, id))
  {
    StartedGood(hello);
    RunPending(Started(hello), events, id);
  }

  lemma {:induction false} RunConcat(s: Server, u: seq<Event>, v: seq<Event>)
    ensures Run(s, u + v) == Run(Run(s, u), v)
    decreases |u|
  {
    if u == [] {
      assert u + v == v;
    } else {
      assert (u + v)[1..] == u[1..] + v;
      RunConcat(Step(s, u[0]), u[1..], v);
    }
  }

  lemma {:induction false} StepLog(s: Server, e: Event)
    requires Good(s)
    ensures s.log <= Step(s, e).log
  {
    if s.running && e.Poll? { var sent := ResendsBelow(s, e.due, s.next); }
  }

  lemma {:induction false} LogGrows(s: Server, events: seq<Event>)
    requires Good(s)
    ensures s.log <= Run(s, events).log
    decreases |events|
  {
    if events != [] {
      StepGood(s, events[0]);
      StepLog(s, events[0]);
      LogGrows(Step(s, events[0]), events[1..]);
    }
  }

  /** In every run, the command that was read as event `j` is answered, whenever its
      answer is sent and however often, to the callback that asked and with the data that
      the command gave. */
  lemma {:induction false} AnswerIsSent(hello: string, events: seq<Event>, j: nat,
                                        id: nat, sendId: nat, recvId: nat, payload: string, data: string)
    requires j < |events| && Run(Started(hello), events[..j]).running && recvId != 2
    requires events[j] == Receive(Framing.Format(id, sendId, recvId, payload), Answers(data))
    ensures var log, k := Run(Started(hello), events).log, Run(Started(hello), events[..j]).next;
            && EverSent(log, k)
            && (forall i :: SentAt(log, i, k) ==> log[i] == Sent(k, Letter(0, sendId, data)))
  {
    var s := Run(Started(hello), events[..j]);
    StartedGood(hello);
    RunGood(Started(hello), events[..j]);
    if s.next in s.pending { PendingWasSent(s, s.next); }
    AnswerFrame(s, id, sendId, recvId, payload, data);
    var t := Step(s, events[j]);
    StepGood(s, events[j]);
    LogGrows(t, events[j + 1..]);
    assert events == events[..j] + events[j..] && events[j..][1..] == events[j + 1..];
    RunConcat(Started(hello), events[..j], events[j..]);
    RunGood(t, events[j + 1..]);
    assert SentAt(Run(t, events[j + 1..]).log, |s.log|, s.next);
  }
}
