/** A listener thread's sections, and those the consumer runs on it. */
module SocketThreads {
  import opened Listeners

  /** The tokens of the list that owns the threads. */
  class Owner {
    var newData: nat
    var written: nat

    constructor ()
      ensures newData == 0 && written == 0
    {
      newData, written := 0, 0;
    }
  }

  class SocketThread {
    var place: Place
    var ack: bool
    var waiting: bool
    var hasBuffer: bool
    var needsReply: bool
    var readMore: bool
    var preamble: bool
    var rep: bool
    var wakeup: nat
    var replyMade: nat
    var replyBuffer: int
    var messages: nat
    var wire: seq<int>
    ghost var asked: seq<int>
    var input: nat
    var length: nat
    var moreLength: nat

    ghost function Value(): Listener
      reads this
    {
      Listener(place, ack, waiting, hasBuffer, needsReply, readMore, preamble, rep, wakeup, replyMade,
               replyBuffer, messages, wire, asked, input, length, moreLength)
    }

    constructor (requireAck: bool)
      ensures Value() == Started(requireAck)
    {
      place, ack, waiting, hasBuffer, needsReply := Header, requireAck, false, false, false;
      readMore, preamble, rep, wakeup, replyMade := false, false, false, 0, 0;
      replyBuffer, messages, wire, asked := 0, 0, [], [];
      input, length, moreLength := 0, 0, 0;
    }

    // ----- the listener's loop

    /** A header with length n has come; the buffer of the last message is forgotten. */
    method TakeHeader(n: nat)
      requires CanHead(Value())
      modifies this
      ensures Value() == Headed(old(Value()), n)
      ensures place == Announcing && input == old(input) - 8 && length == n && !hasBuffer && messages == old(messages) + 1
    {
      input, length := input - HEADER_BYTES, n;
      hasBuffer := false;
      messages := messages + 1;
      place := Announcing;
    }

    /** The first half of the section that announces a message. */
    method DeclareDataAvailable(n: nat, owner: Owner)
      requires CanHead(Value())
      modifies this, owner`newData
      ensures Value() == Headed(old(Value()), n) && owner.newData == old(owner.newData) + 1
    {
      TakeHeader(n);
      owner.newData := owner.newData + 1;
    }

    method SetWaiting()
      requires place.Announcing?
      modifies this
      ensures Value() == ListenerStep(old(Value()))
      ensures Value() == old(Value()).(place := Asleep, waiting := true)
    {
      waiting := true;
      place := Asleep;
    }

    /** Takes a wakeup token; what comes next depends on what the thread was waiting for. */
    method TakeWakeup()
      requires wakeup > 0 && (place.Asleep? || place.AwaitReply? || place.AwaitMore? || place.AwaitFinal?)
      modifies this
      ensures Value() == ListenerStep(old(Value()))
      ensures wakeup == old(wakeup) - 1
      ensures old(place).Asleep? ==> Value() == old(Value()).(wakeup := wakeup, place := if hasBuffer then Filling else Header)
      ensures old(place).AwaitFinal? ==> Value() == old(Value()).(wakeup := wakeup, place := Sending, rep := true)
      ensures old(place).AwaitReply? || old(place).AwaitMore? ==>
        Value() == old(Value()).(wakeup := wakeup, place := More, needsReply := false)
    {
      wakeup := wakeup - 1;
      if place.Asleep? {
        place := if hasBuffer then Filling else Header;
      } else if place.AwaitFinal? {
        rep := true;
        place := Sending;
      } else {
        needsReply := false;
        place := More;
      }
    }

    /** Once the bytes are there: the consumer's buffer has been written. */
    method DeclareDataWritten(owner: Owner)
      requires place.Filling? && CanStep(Value())
      modifies this, owner`written
      ensures Value() == ListenerStep(old(Value())) && owner.written == old(owner.written) + 1
      ensures Value() == old(Value()).(place := if rep then AwaitReply else More, rep := needsReply,
                                       input := old(input) - length)
    {
      input := input - length;
      rep := needsReply;
      owner.written := owner.written + 1;
      place := if rep then AwaitReply else More;
    }

    /** After a wakeup: receive more, reply, or go on to the next message. */
    method ChooseNext()
      requires place.More?
      modifies this
      ensures Value() == ListenerStep(old(Value()))
      ensures Value() == old(Value()).(place := if readMore then Receiving else if ack then Sending else Header,
                                       rep := rep) && rep == (old(rep) || (!readMore && ack && preamble))
    {
      if readMore {
        place := Receiving;
      } else if ack {
        if preamble { rep := true; }
        place := Sending;
      } else {
        place := Header;
      }
    }

    method PostReceived()
      requires place.Receiving? && CanStep(Value())
      modifies this
      ensures Value() == ListenerStep(old(Value()))
      ensures Value() == old(Value()).(place := AwaitMore, readMore := false, replyMade := old(replyMade) + 1,
                                       input := old(input) - moreLength)
    {
      input := input - moreLength;
      readMore := false;
      replyMade := replyMade + 1;
      place := AwaitMore;
    }

    method SendReply()
      requires place.Sending?
      modifies this
      ensures Value() == ListenerStep(old(Value()))
      ensures Value() == old(Value()).(place := Sent, wire := if rep then old(wire) + [replyBuffer] else old(wire))
    {
      if rep { wire := wire + [replyBuffer]; }
      place := Sent;
    }

    method PostReplyMade()
      requires place.Sent?
      modifies this
      ensures Value() == ListenerStep(old(Value()))
      ensures Value() == old(Value()).(place := if preamble then AwaitFinal else Header,
                                       replyMade := if rep then old(replyMade) + 1 else old(replyMade))
    {
      var more := preamble;
      if rep { replyMade := replyMade + 1; }
      place := if more then AwaitFinal else Header;
    }

    // ----- the consumer's sections

    /** Hands the consumer's buffer over, if this listener is waiting; the answer is the length in the header. */
    method Offer(room: nat) returns (work: bool, inLength: nat)
      modifies this
      ensures work == old(waiting) && inLength == if work then old(length) else 0
      ensures Value() == if work then Offered(old(Value()), room) else old(Value())
      ensures work ==> Value() == old(Value()).(waiting := false, hasBuffer := true, needsReply := true,
                                                wakeup := old(wakeup) + 1, length := length)
      ensures work ==> length <= room && length <= old(length) && (length == room || length == old(length))
    {
      work, inLength := waiting, 0;
      if work {
        inLength := length;
        waiting, hasBuffer, needsReply := false, true, true;
        if length > room { length := room; }
        wakeup := wakeup + 1;
      }
    }

    method AskForMore(n: nat)
      modifies this
      ensures Value() == AskedForMore(old(Value()), n)
      ensures Value() == old(Value()).(readMore := true, moreLength := n, wakeup := old(wakeup) + 1)
    {
      readMore, moreLength := true, n;
      wakeup := wakeup + 1;
    }

    /** The answer tells whether the consumer has to wait for the reply to be made. */
    method BeginReplying(v: int) returns (wait: bool)
      modifies this
      ensures Value() == BegunReply(old(Value()), v) && wait == ack
      ensures Value() == if !ack then old(Value())
        else old(Value()).(replyBuffer := v, readMore := false, needsReply := true, preamble := true,
                           wakeup := old(wakeup) + 1, asked := asked)
    {
      wait := ack;
      if ack {
        replyBuffer := v;
        readMore, needsReply, preamble := false, true, true;
        wakeup := wakeup + 1;
        asked := asked + [v];
      }
    }

    method Reply(v: int) returns (wait: bool)
      modifies this
      ensures Value() == Replied(old(Value()), v) && wait == ack
      ensures Value() == if !ack then old(Value()).(wakeup := old(wakeup) + 1)
        else old(Value()).(replyBuffer := v, readMore := false, needsReply := true, preamble := false,
                           wakeup := old(wakeup) + 1, asked := asked)
    {
      wait := ack;
      if ack {
        replyBuffer := v;
        readMore, needsReply, preamble := false, true, false;
        asked := asked + [v];
      }
      wakeup := wakeup + 1;
    }
  }
}
