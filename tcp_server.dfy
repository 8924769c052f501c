/**
 * The TCP server's sequential core: the receive buffer that received text is
 * appended to and complete lines are cut from, the per-client read loop, and
 * the queue of deferred actions that the main thread drains every frame.
 * The socket, the background thread and the lock are not modelled: a read is
 * a parameter holding the received text, and the queue is used sequentially.
 */
module TcpServer {
  import opened Framing
  import opened Dispatch

  class Server {
    /** receivedDataBuffer: received text not yet terminated by '\n'. */
    var buffer: string
    /** mainThreadActions, front first. */
    var queue: seq<Action>
    var keepReading: bool
    /** JsonConvert.DeserializeObject, as an abstract decoder. */
    const decode: string -> Decoded

    /** Between reads the buffer holds only the unterminated tail of the stream. */
    ghost predicate Valid()
      reads this
    {
      '\n' !in buffer
    }

    constructor (decode: string -> Decoded)
      ensures Valid()
      ensures this.decode == decode
      ensures buffer == [] && queue == [] && !keepReading
    {
      this.decode := decode;
      buffer := [];
      queue := [];
      keepReading := false;
    }

    /** ProcessJSONMessage: enqueue the actions one message asks for. */
    method ProcessJSONMessage(jsonData: string)
      modifies this
      ensures queue == old(queue) + ActionsFor(decode(jsonData))
      ensures buffer == old(buffer) && keepReading == old(keepReading)
    {
      var received := decode(jsonData);
      if received.Decoded? {
        if received.data.matrix.Some? {
          queue := queue + [GridReplace(received.data.matrix.value)];
        }
        var pos := received.data.agentPosition;
        if pos.Some? && |pos.value| == 2 {
          queue := queue + [AgentMove(pos.value[0], pos.value[1])];
        }
      }
    }

    /**
     * One pass of the read loop with the text of one read. An empty read
     * (zero bytes) ends the client's loop and changes nothing else. Otherwise
     * the text is appended to the buffer and every complete line is cut off,
     * trimmed and processed; `messages` are the processed messages in order.
     */
    method ReceiveChunk(chunk: string) returns (messages: seq<string>)
      requires Valid()
      modifies this
      ensures Valid()
      ensures |chunk| == 0 ==>
        && messages == [] && !keepReading
        && buffer == old(buffer) && queue == old(queue)
      ensures |chunk| > 0 ==>
        && keepReading == old(keepReading)
        && buffer == Frame(old(buffer) + chunk).rest
        && messages == TrimAll(Frame(old(buffer) + chunk).lines)
        && queue == old(queue) + ActionsForAll(decode, messages)
      ensures |messages| == multiset(if |chunk| == 0 then [] else old(buffer) + chunk)['\n']
      ensures forall m :: m in messages ==> '\n' !in m
    {
      messages := [];
      if |chunk| > 0 {
        buffer := buffer + chunk;
        ghost var whole := buffer;
        ghost var lines: seq<string> := [];
        while '\n' in buffer
          invariant Frame(whole).lines == lines + Frame(buffer).lines
          invariant Frame(whole).rest == Frame(buffer).rest
          invariant messages == TrimAll(lines)
          invariant queue == old(queue) + ActionsForAll(decode, messages)
          invariant keepReading == old(keepReading)
          decreases |buffer|
        {
          var newLineIndex := IndexOfNewline(buffer);
          var completeMessage := Trim(buffer[..newLineIndex]);
          CutLine(whole, lines, buffer, newLineIndex);
          TrimAllSnoc(lines, buffer[..newLineIndex]);
          EnqueueMessage(decode, old(queue), messages, completeMessage);
          lines := lines + [buffer[..newLineIndex]];
          buffer := buffer[newLineIndex + 1..];
          ProcessJSONMessage(completeMessage);
          messages := messages + [completeMessage];
        }
        FrameNewlineFree(whole);
        FrameCount(whole);
        MessagesNewlineFree(whole);
      } else {
        keepReading := false;
        ghost var none: string := [];
        assert multiset(none)['\n'] == 0;
      }
    }

    /**
     * The read loop of one client: `keepReading` is set, then reads are
     * handled in order for as long as it stays set. `chunks` are the texts
     * the successive reads return; `consumed` is how many were handled: up
     * to and including the first empty one, or all of them. Buffer, messages
     * and queue depend only on the concatenation of the handled reads, not on
     * how it was split.
     */
    method ServeClient(chunks: seq<string>) returns (messages: seq<string>, consumed: nat)
      requires Valid()
      modifies this
      ensures Valid()
      ensures consumed == if FirstEmpty(chunks) < |chunks| then FirstEmpty(chunks) + 1 else |chunks|
      ensures keepReading <==> FirstEmpty(chunks) == |chunks|
      ensures buffer == Frame(old(buffer) + Concat(chunks[..consumed])).rest
      ensures messages == TrimAll(Frame(old(buffer) + Concat(chunks[..consumed])).lines)
      ensures queue == old(queue) + ActionsForAll(decode, messages)
    {
      keepReading := true;
      messages := [];
      consumed := 0;
      ghost var start := buffer;
      assert chunks[..0] == [];
      assert start + [] == start;
      FrameOfNewlineFree(start);
      while keepReading && consumed < |chunks|
        invariant Valid()
        invariant keepReading ==> consumed <= FirstEmpty(chunks)
        invariant !keepReading ==> consumed == FirstEmpty(chunks) + 1
        invariant consumed <= |chunks|
        invariant buffer == Frame(start + Concat(chunks[..consumed])).rest
        invariant messages == TrimAll(Frame(start + Concat(chunks[..consumed])).lines)
        invariant queue == old(queue) + ActionsForAll(decode, messages)
        decreases |chunks| - consumed
      {
        if |chunks[consumed]| == 0 {
          FirstEmptyAt(chunks, consumed);
        }
        var batch := ReadOne(chunks, consumed, start, messages);
        EnqueueBatch(decode, old(queue), messages, batch);
        consumed := consumed + 1;
        messages := messages + batch;
      }
    }

    /** One turn of ServeClient's loop: the read of chunk `i` of the client's stream. */
    method ReadOne(chunks: seq<string>, i: nat, ghost start: string, ghost done: seq<string>) returns (batch: seq<string>)
      requires Valid() && i < |chunks|
      requires buffer == Frame(start + Concat(chunks[..i])).rest
      requires done == TrimAll(Frame(start + Concat(chunks[..i])).lines)
      modifies this
      ensures Valid()
      ensures |chunks[i]| == 0 ==> !keepReading
      ensures |chunks[i]| > 0 ==> keepReading == old(keepReading)
      ensures buffer == Frame(start + Concat(chunks[..i + 1])).rest
      ensures done + batch == TrimAll(Frame(start + Concat(chunks[..i + 1])).lines)
      ensures queue == old(queue) + ActionsForAll(decode, batch)
    {
      FeedChunk(start, chunks, i);
      batch := ReceiveChunk(chunks[i]);
    }

    /** Update: invoke every queued action once, in the order enqueued, leaving the queue empty. */
    method Update() returns (invoked: seq<Action>)
      modifies this
      ensures invoked == old(queue)
      ensures queue == []
      ensures buffer == old(buffer) && keepReading == old(keepReading)
    {
      invoked := [];
      while |queue| > 0
        invariant invoked + queue == old(queue)
        invariant buffer == old(buffer) && keepReading == old(keepReading)
        decreases |queue|
      {
        var action := queue[0];
        queue := queue[1..];
        invoked := invoked + [action];
      }
    }
  }
}
