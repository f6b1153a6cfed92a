/** The producer and the consumer of a server's queue as code over the ring buffer; each is one step of
    a run. The mutex makes every method atomic. */
module AliyunServer {
  import opened Bytes
  import opened Arithmetic
  import opened Messages
  import opened MessageBuffer
  import opened MessageConsumer

  class Server {
    const message: Queue
    /** Whether the queue has been set up. */
    var init: bool
    var msgLock: bool
    ghost var run: Run

    ghost predicate Valid()
      reads this, message, message.heap, message.slots
    {
      && message.Valid() && 1 <= message.size
      && Good(run, message.size - 1) && run.locked == msgLock
      && message.Contents() == LettersOf(run.queue)
      && message.sequence == |run.accepted| % SEQUENCE_LIMIT
    }

    constructor (message: Queue)
      requires message.Valid() && message.Contents() == [] && message.sequence == 0
      ensures Valid() && this.message == message && run == IDLE && !init && !msgLock
    {
      this.message := message;
      init, msgLock, run := false, false, IDLE;
    }

    /** The server thread's start: from here on the queue takes messages. */
    method SetUp()
      requires Valid()
      modifies this`init
      ensures Valid() && init
    {
      init := true;
    }

    /** server_aliyun_message. */
    method Post(msg: Message) returns (r: Option<PushResult>)
      requires Valid() && Foreign(message.slots[..], message.heap.memory, msg)
      modifies this`run, message.heap, message.slots, message`head, message`tail, message`sequence
      ensures Valid() && message.Others() == old(message.Others())
      ensures r == if !init then None else Some(Outcome(old(run.queue), message.size - 1, message.overflow))
      ensures run == if !init then old(run)
                     else Step(old(run), MessageConsumer.Post(old(Read(message.heap.memory, msg))),
                               message.size - 1, message.overflow)
      ensures init ==> (r == Some(Fail) <==> run == old(run))
      ensures init ==> (r == Some(SuccessWithOverflow) <==> run.dropped != old(run).dropped)
    {
      hide Queue.Valid, Queue.Contents, Queue.Others, Foreign, Read, Step, Good, Pushed;
      if !init { return None; }
      ForeignLegible(message.slots[..], message.heap.memory, msg);
      ghost var letter := Read(message.heap.memory, msg);
      var outcome := message.Push(Some(msg));
      PostLetters(run, letter, message.size - 1, message.overflow);
      StepKeeps(run, MessageConsumer.Post(letter), message.size - 1, message.overflow);
      run := Step(run, MessageConsumer.Post(letter), message.size - 1, message.overflow);
      r := Some(outcome);
    }

    /** aliyun_message_block: while locked, look past a leading ordinary message for the first urgent one
        and move it to the front; without one the consumer is blocked. */
    method MessageBlock() returns (blocked: bool)
      requires message.Valid()
      modifies message.heap, message.slots
      ensures message.Valid() && message.Others() == old(message.Others())
      ensures blocked <==> msgLock && old(message.Contents()) != [] && Choice(old(message.Contents()), msgLock).None?
      ensures message.Contents() == Arranged(old(message.Contents()), msgLock)
    {
      hide Queue.Valid, Queue.Contents, Queue.Others, And, IsSystem, IsResponse, FirstUrgent, Promoted;
      ghost var s := message.Contents();
      if |s| > 0 { PromotedDone(s, 0, 0); }
      if !msgLock { return false; }
      var found, msg := message.ProbeItem(0);
      QueueSize(message);
      SmallModulo(0, message.size);
      if !found { return false; }
      if IsSystem(msg.header.message) || IsResponse(msg.header.message) {
        FrontUrgent(s);
        return false;
      }
      var index := 0;
      while true
        invariant 0 <= index < |s| && message.Valid() && message.Contents() == s &&
                  message.Others() == old(message.Others())
        invariant forall j :: 0 <= j <= index ==> !Urgent(s[j])
        decreases |s| - index
      {
        index := index + 1;
        found, msg := message.ProbeItem(index);
        SmallModulo(index, message.size);
        if !found {
          FirstUrgentIs(s, index);
          return true;
        }
        if IsSystem(msg.header.message) || IsResponse(msg.header.message) {
          FirstUrgentIs(s, index);
          var _ := message.Swap(0, index);
          return false;
        }
      }
    }

    /** The part of server_message_proc under the mutex, after any waiting: block or arrange, then pop. */
    method Receive() returns (ok: bool, msg: Message)
      requires Valid()
      modifies this`run, message.heap, message.slots, message`tail
      ensures Valid() && run == Step(old(run), Take, message.size - 1, message.overflow)
      ensures ok <==> run.delivered != old(run.delivered)
      ensures ok ==> Legible(message.heap.memory, msg) && Last(run.delivered, Read(message.heap.memory, msg))
      ensures message.Apart(msg) && Rest(message.slots[..] + [msg], message.heap.memory) == old(message.Others())
    {
      hide Queue.Valid, Queue.Contents, Queue.Others, Read, Step, Good, Arranged, Choice, Rest, Tidy, Legible;
      ghost var before, size, overflow := run, message.size, message.overflow;
      ghost var s := message.Contents();
      TakeLetters(run, size - 1, overflow);
      StepKeeps(run, Take, size - 1, overflow);
      UnlockedChoice(s);
      msg := BLANK;
      var blocked := MessageBlock();
      BlankApart(message);
      if blocked { return false, msg; }
      ok, msg := message.Pop(msg);
      run := Step(run, Take, size - 1, overflow);
    }

    method SetLock(locked: bool)
      requires Valid()
      modifies this`run, this`msgLock
      ensures Valid() && msgLock == locked
      ensures run == Step(old(run), Lock(locked), message.size - 1, message.overflow)
    {
      hide Good, Queue.Valid, Queue.Contents, Urgent;
      StepKeeps(run, Lock(locked), message.size - 1, message.overflow);
      msgLock := locked;
      run := Step(run, Lock(locked), message.size - 1, message.overflow);
    }
  }

  lemma UnlockedChoice(s: seq<Letter>)
    ensures s != [] ==> Choice(s, false).Some?
  {
    hide FirstUrgent;
  }

  lemma BlankApart(q: Queue)
    requires q.Valid()
    ensures q.Apart(BLANK) && Rest(q.slots[..] + [BLANK], q.heap.memory) == q.Others()
  {
    NoBlocks(q.slots[..], q.heap.memory, BLANK);
  }

  predicate Last(s: seq<Arrival>, letter: Letter) { s != [] && s[|s| - 1].letter == letter }

  /** A take, seen without the arrival numbers: the arranged queue loses its first message. */
  lemma TakeLetters(r: Run, capacity: nat, overflow: bool)
    ensures var r' := Step(r, Take, capacity, overflow);
            var s := LettersOf(r.queue);
            && r'.locked == r.locked && r'.accepted == r.accepted
            && (Choice(s, r.locked).None? ==> r' == r && Arranged(s, r.locked) == s)
            && (Choice(s, r.locked).Some? ==>
                  && Arranged(s, r.locked) != [] && LettersOf(r'.queue) == Arranged(s, r.locked)[1..]
                  && r'.delivered != r.delivered && Last(r'.delivered, Arranged(s, r.locked)[0]))
  {
    hide FirstUrgent, Urgent, Choice;
    var s := LettersOf(r.queue);
    var c := Choice(s, r.locked);
    if c.Some? {
      TakenLetters(r.queue, c.value);
      assert |Step(r, Take, capacity, overflow).delivered| == |r.delivered| + 1;
    }
  }

  lemma TakenLetters(queue: seq<Arrival>, k: nat)
    requires k < |queue|
    ensures var p := Promoted(LettersOf(queue), 0, k);
            p != [] && LettersOf(Without(queue, k)) == p[1..] && queue[k].letter == p[0]
  {
    var s := LettersOf(queue);
    assert Promoted(s, 0, k)[1..] == Without(s, k);
    assert LettersOf(Without(queue, k)) == Without(s, k);
  }

  /** What aliyun_message_block leaves for the pop. */
  function Arranged(s: seq<Letter>, locked: bool): seq<Letter> {
    var k := Choice(s, locked);
    if k.Some? then Promoted(s, 0, k.value) else s
  }

  lemma QueueSize(q: Queue)
    requires q.Valid()
    ensures 1 <= q.size && |q.Contents()| < q.size
  {
  }

  lemma FrontUrgent(s: seq<Letter>)
    requires s != [] && Urgent(s[0])
    ensures FirstUrgent(s) == 0
  {
  }

  lemma SmallModulo(n: int, size: int)
    requires 0 <= n < size
    ensures n % size == n
  {
  }

  /** A push, seen without the arrival numbers. */
  lemma PostLetters(r: Run, letter: Letter, capacity: nat, overflow: bool)
    ensures var r' := Step(r, Post(letter), capacity, overflow);
            var s := LettersOf(r.queue);
            var n := (|r.accepted| + 1) % SEQUENCE_LIMIT;
            && r'.locked == r.locked
            && (Outcome(s, capacity, overflow).Fail? <==> r' == r)
            && (Outcome(s, capacity, overflow).SuccessWithOverflow? <==> r'.dropped != r.dropped)
            && (!Outcome(s, capacity, overflow).Fail? ==>
                  && LettersOf(r'.queue) == Pushed(s, letter.(sequence := n), capacity)
                  && |r'.accepted| == |r.accepted| + 1)
  {
    var r' := Step(r, Post(letter), capacity, overflow);
    assert r' != r ==> |r'.accepted| == |r.accepted| + 1;
    assert |r.queue| == capacity && overflow ==> |r'.dropped| == |r.dropped| + 1;
  }
}
