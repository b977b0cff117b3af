/**
 * How a snapshot of messages answers an id: the `Output` matching shared by
 * the agent's skip test and the operator's look-ups.
 */
module Replies {
  import opened Wrappers
  import opened Shell

  /** `m` is the reply to the message with id `id`. */
  predicate IsResponseTo(m: Message, id: MessageId) {
    m.kind == Output && m.id == id
  }

  /** Some `Output` in the snapshot carries `id` (the agent's `iter().any(..)`). */
  predicate Answered(snapshot: seq<Message>, id: MessageId)
    ensures Answered(snapshot, id) <==> exists payload :: Message(Output, id, payload) in snapshot
  {
    exists k | 0 <= k < |snapshot| :: IsResponseTo(snapshot[k], id)
  }

  /** The position of the first `Output` carrying `id` (the operator's `filter(..).next()`). */
  function FirstResponse(snapshot: seq<Message>, id: MessageId): (r: Option<nat>)
    ensures r.Some? <==> Answered(snapshot, id)
    ensures r.Some? ==> r.value < |snapshot| && IsResponseTo(snapshot[r.value], id)
    ensures r.Some? ==> forall k | 0 <= k < r.value :: !IsResponseTo(snapshot[k], id)
    decreases |snapshot|
  {
    if snapshot == [] then None
    else if IsResponseTo(snapshot[0], id) then Some(0)
    else
      match FirstResponse(snapshot[1..], id)
      case None => None
      case Some(k) => Some(k + 1)
  }

  /** The payload of the first reply to `id`, if any. */
  function ResponsePayload(snapshot: seq<Message>, id: MessageId): (r: Option<Text.Utf8>)
    ensures r.Some? <==> Answered(snapshot, id)
    ensures r.Some? ==> Message(Output, id, r.value) in snapshot
  {
    match FirstResponse(snapshot, id)
    case None => None
    case Some(k) => Some(snapshot[k].payload)
  }

  /** Every `Output` answers its own id, so the agent always skips it. */
  lemma OutputAnswersItself(snapshot: seq<Message>, k: nat)
    requires k < |snapshot| && snapshot[k].kind == Output
    ensures Answered(snapshot, snapshot[k].id)
    ensures FirstResponse(snapshot, snapshot[k].id).value <= k
  {
    assert IsResponseTo(snapshot[k], snapshot[k].id);
  }

  /**
   * Comments appended after a snapshot do not change its first reply: a
   * later snapshot that extends it reports the same payload if there was one.
   */
  lemma {:induction false} FirstResponseStable(snapshot: seq<Message>, later: seq<Message>, id: MessageId)
    requires Answered(snapshot, id)
    ensures FirstResponse(snapshot + later, id) == FirstResponse(snapshot, id)
    decreases |snapshot|
  {
    if IsResponseTo(snapshot[0], id) {
    } else {
      assert (snapshot + later)[1..] == snapshot[1..] + later;
      var k :| 0 <= k < |snapshot| && IsResponseTo(snapshot[k], id);
      assert IsResponseTo(snapshot[1..][k - 1], id);
      FirstResponseStable(snapshot[1..], later, id);
    }
  }

  /** A reply appended to a snapshot that had none becomes the reply seen. */
  lemma {:induction false} AppendedResponse(snapshot: seq<Message>, reply: Message)
    requires reply.kind == Output && !Answered(snapshot, reply.id)
    ensures ResponsePayload(snapshot + [reply], reply.id) == Some(reply.payload)
    decreases |snapshot|
  {
    if snapshot == [] {
      assert [] + [reply] == [reply];
    } else {
      assert !IsResponseTo(snapshot[0], reply.id);
      assert (snapshot + [reply])[1..] == snapshot[1..] + [reply];
      assert !Answered(snapshot[1..], reply.id) by {
        forall k | 0 <= k < |snapshot[1..]|
          ensures !IsResponseTo(snapshot[1..][k], reply.id)
        {
          assert snapshot[1..][k] == snapshot[k + 1];
        }
      }
      AppendedResponse(snapshot[1..], reply);
    }
  }
}
