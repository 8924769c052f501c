/**
 * What the server does with one decoded message: the record the JSON decoder
 * produces, and the deferred actions enqueued for the main thread.
 */
module Dispatch {
  import opened Wrappers

  /** The grid as decoded from JSON, before it is rounded to whole codes. */
  type FloatMatrix = seq<seq<real>>

  /** The fields of a received message; a field missing from the JSON is `None` (C#'s null). */
  datatype ReceivedData = ReceivedData(
    step: int,
    message: Option<string>,
    matrix: Option<FloatMatrix>,
    agentPosition: Option<seq<int>>,
    agentPath: Option<seq<seq<int>>>)

  /**
   * The outcome of decoding one message: a record, or `Failure` when the
   * decoder throws or yields no object (both end in the catch block).
   */
  datatype Decoded = Decoded(data: ReceivedData) | Failure

  /** A deferred main-thread action: rebuild the city from a grid, or spawn or move the walker. */
  datatype Action = GridReplace(matrix: FloatMatrix) | AgentMove(x: int, y: int)

  /**
   * The actions enqueued for one decoded message: a grid action exactly when
   * the record has a matrix, then an agent action exactly when its position
   * has two entries; nothing after a failure.
   */
  function ActionsFor(d: Decoded): (acts: seq<Action>)
    ensures |acts| <= 2
  {
    if d.Failure? then []
    else
      var data := d.data;
      var pos := data.agentPosition;
      var agent := pos.Some? && |pos.value| == 2;
      if data.matrix.Some? then
        if agent then [GridReplace(data.matrix.value), AgentMove(pos.value[0], pos.value[1])]
        else [GridReplace(data.matrix.value)]
      else if agent then [AgentMove(pos.value[0], pos.value[1])]
      else []
  }

  /** ActionsFor's characterisation, one enqueue decision at a time. */
  lemma ActionsForSpec(d: Decoded)
    ensures d.Failure? ==> ActionsFor(d) == []
    ensures forall m :: GridReplace(m) in ActionsFor(d) <==> d.Decoded? && d.data.matrix == Some(m)
    ensures forall x, y :: AgentMove(x, y) in ActionsFor(d) <==> d.Decoded? && d.data.agentPosition == Some([x, y])
    ensures |ActionsFor(d)| == 2 ==> ActionsFor(d)[0].GridReplace? && ActionsFor(d)[1].AgentMove?
  {
    if d.Decoded? {
      var pos := d.data.agentPosition;
      assert pos.Some? && |pos.value| == 2 ==> pos.value == [pos.value[0], pos.value[1]];
    }
  }

  /** The actions enqueued for a sequence of messages, message by message. */
  function ActionsForAll(decode: string -> Decoded, messages: seq<string>): (acts: seq<Action>)
    ensures |acts| <= 2 * |messages|
  {
    if |messages| == 0 then []
    else ActionsForAll(decode, messages[..|messages| - 1]) + ActionsFor(decode(messages[|messages| - 1]))
  }

  lemma ActionsForAllSnoc(decode: string -> Decoded, messages: seq<string>, m: string)
    ensures ActionsForAll(decode, messages + [m]) == ActionsForAll(decode, messages) + ActionsFor(decode(m))
  {
    assert (messages + [m])[..|messages|] == messages;
  }

  /** Enqueueing one more message's actions behind a queue that already holds the earlier ones' actions. */
  lemma EnqueueMessage(decode: string -> Decoded, queue: seq<Action>, messages: seq<string>, m: string)
    ensures (queue + ActionsForAll(decode, messages)) + ActionsFor(decode(m)) == queue + ActionsForAll(decode, messages + [m])
  {
    ActionsForAllSnoc(decode, messages, m);
  }

  /** The actions for consecutive batches of messages are the batches' actions in order. */
  lemma {:induction false} ActionsForAllAppend(decode: string -> Decoded, m1: seq<string>, m2: seq<string>)
    ensures ActionsForAll(decode, m1 + m2) == ActionsForAll(decode, m1) + ActionsForAll(decode, m2)
    decreases |m2|
  {
    if |m2| == 0 {
      assert m1 + m2 == m1;
    } else {
      var init, last := m2[..|m2| - 1], m2[|m2| - 1];
      assert m2 == init + [last];
      assert m1 + m2 == (m1 + init) + [last];
      var a1, ai, al := ActionsForAll(decode, m1), ActionsForAll(decode, init), ActionsFor(decode(last));
      calc {
        ActionsForAll(decode, m1 + m2);
        { ActionsForAllSnoc(decode, m1 + init, last); }
        ActionsForAll(decode, m1 + init) + al;
        { ActionsForAllAppend(decode, m1, init); }
        (a1 + ai) + al;
        a1 + (ai + al);
        { ActionsForAllSnoc(decode, init, last); }
        a1 + ActionsForAll(decode, m2);
      }
    }
  }

  /** Enqueueing a batch of messages' actions behind a queue that already holds the earlier ones' actions. */
  lemma EnqueueBatch(decode: string -> Decoded, queue: seq<Action>, messages: seq<string>, batch: seq<string>)
    ensures (queue + ActionsForAll(decode, messages)) + ActionsForAll(decode, batch) == queue + ActionsForAll(decode, messages + batch)
  {
    ActionsForAllAppend(decode, messages, batch);
  }

  /** Messages that fail to decode contribute no action. */
  lemma {:induction false} FailuresEnqueueNothing(decode: string -> Decoded, messages: seq<string>)
    requires forall k :: 0 <= k < |messages| ==> decode(messages[k]).Failure?
    ensures ActionsForAll(decode, messages) == []
    decreases |messages|
  {
    if |messages| > 0 {
      var init := messages[..|messages| - 1];
      assert forall k :: 0 <= k < |init| ==> init[k] == messages[k];
      FailuresEnqueueNothing(decode, init);
    }
  }
}
