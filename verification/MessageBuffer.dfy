/** The allocator, the deep copy of a message, and the ring buffer of the inter-server queues. */
module MessageBuffer {
  import opened Bytes
  import opened Arithmetic
  import opened Messages

  /** The blocks calloc has handed out and free has not taken back; addresses are not used twice. */
  class Heap {
    var memory: Memory
    var next: Pointer

    ghost predicate Valid()
      reads this
    {
      next != NULL && forall p :: p in memory ==> p != NULL && p < next
    }

    constructor ()
      ensures Valid() && memory == map[]
    {
      memory, next := map[], 1;
    }

    /** calloc followed by memcpy, when the allocation succeeds. */
    method Clone(size: nat, source: Pointer) returns (p: Pointer)
      requires Valid() && source in memory && size <= |memory[source]|
      modifies this
      ensures Valid() && p != NULL && old(next) <= p < next
      ensures memory == old(memory)[p := old(memory)[source][..size]]
    {
      p := next;
      memory := memory[p := memory[source][..size]];
      next := next + 1;
    }

    /** free: the block must still be live. */
    method Free(p: Pointer)
      requires Valid() && p in memory
      modifies this
      ensures Valid() && memory == old(memory) - {p} && next == old(next)
    {
      memory := memory - {p};
    }

    /** Free one payload if the message owns it. */
    method Drop(size: int, p: Pointer)
      requires Valid() && Readable(memory, size, p)
      modifies this
      ensures Valid() && memory == old(memory) - Held(size, p) && next == old(next)
    {
      if size > 0 && p != NULL { Free(p); }
    }

    /** Copy one payload into a block of its own; a raw pointer is copied as it is. */
    method Duplicate(size: int, p: Pointer) returns (q: Pointer)
      requires Valid() && Readable(memory, size, p)
      modifies this
      ensures Valid() && Cloned(old(memory), memory, size, p, q) && next >= old(next)
      ensures forall b :: b in Held(size, q) ==> b >= old(next)
    {
      q := p;
      if size > 0 && p != NULL { q := Clone(size, p); }
    }

    /** msg_deep_copy, when both allocations succeed: what `dest` owned is freed, and the result says
        what `source` said with blocks of its own. */
    method DeepCopy(dest: Message, source: Message) returns (r: Message)
      requires Valid() && Sound(memory, dest) && Legible(memory, source) && Blocks(dest) !! Blocks(source)
      modifies this
      ensures Valid() && Replaced(old(memory), memory, dest, r)
      ensures Read(memory, r) == old(Read(memory, source))
    {
      hide Cloned, Read, Load, Replaced;
      Drop(dest.argSize, dest.arg);
      Drop(dest.extraSize, dest.extra);
      ghost var before := memory;
      DroppedTwice(old(memory), before, dest, source);
      r := source;
      var arg := Duplicate(source.argSize, source.arg);
      ghost var between := memory;
      var extra := Duplicate(source.extraSize, source.extra);
      r := r.(arg := arg, extra := extra);
      CopyDone(old(memory), before, between, memory, dest, source, r, old(next));
    }

    /** msg_free. */
    method MsgFree(data: Message) returns (r: Message)
      requires Valid() && Sound(memory, data)
      modifies this
      ensures Valid() && Replaced(old(memory), memory, data, r) && r == Emptied(data)
      ensures memory == old(memory) - Blocks(data)
      ensures r == data.(arg := r.arg, argSize := r.argSize, extra := r.extra, extraSize := r.extraSize)
      ensures (r.argSize, r.arg) == if data.argSize > 0 && data.arg != 0 then (0, 0) else (data.argSize, data.arg)
      ensures (r.extraSize, r.extra) ==
              if data.extraSize > 0 && data.extra != 0 then (0, 0) else (data.extraSize, data.extra)
    {
      r := data;
      if data.arg != NULL && data.argSize > 0 {
        Free(data.arg);
        r := r.(arg := NULL, argSize := 0);
      }
      if data.extra != NULL && data.extraSize > 0 {
        Free(data.extra);
        r := r.(extra := NULL, extraSize := 0);
      }
    }
  }

  /** A message after its payloads were freed. */
  function Emptied(m: Message): (r: Message)
    ensures Blocks(r) == {}
  {
    var r := if m.argSize > 0 && m.arg != NULL then m.(arg := NULL, argSize := 0) else m;
    if m.extraSize > 0 && m.extra != NULL then r.(extra := NULL, extraSize := 0) else r
  }

  /** `q` is a fresh copy of the payload at `p`. */
  ghost predicate Cloned(mem: Memory, mem': Memory, size: int, p: Pointer, q: Pointer) {
    if size > 0 && p != NULL then
      q !in mem && q != NULL && p in mem && size <= |mem[p]| && mem' == mem[q := mem[p][..size]]
    else q == p && mem' == mem
  }

  /** The stages of a deep copy put together; all blocks of the past are below `limit`. */
  lemma CopyDone(mem: Memory, before: Memory, between: Memory, mem': Memory, dest: Message, source: Message,
                 r: Message, limit: nat)
    requires Sound(mem, dest) && Legible(mem, source) && Blocks(dest) !! Blocks(source)
    requires before == mem - Held(dest.argSize, dest.arg) - Held(dest.extraSize, dest.extra)
    requires r == source.(arg := r.arg, extra := r.extra)
    requires Cloned(before, between, source.argSize, source.arg, r.arg)
    requires Cloned(between, mem', source.extraSize, source.extra, r.extra)
    requires forall p :: p in mem ==> p < limit
    requires forall p :: p in Held(source.argSize, r.arg) + Held(source.extraSize, r.extra) ==> p >= limit
    ensures Replaced(mem, mem', dest, r) && Read(mem', r) == Read(mem, source)
  {
    hide Cloned, Read, Load;
    DroppedTwice(mem, before, dest, source);
    CopiedTwice(before, between, mem', source, r);
  }

  lemma CopiedTwice(mem: Memory, between: Memory, mem': Memory, source: Message, r: Message)
    requires Legible(mem, source) && r == source.(arg := r.arg, extra := r.extra)
    requires Cloned(mem, between, source.argSize, source.arg, r.arg)
    requires Cloned(between, mem', source.extraSize, source.extra, r.extra)
    ensures Sound(mem', r) && Read(mem', r) == Read(mem, source)
    ensures mem'.Keys == mem.Keys + Blocks(r)
    ensures forall p :: p in mem ==> mem'[p] == mem[p]
  {
    ClonedLoad(mem, between, source.argSize, source.arg, r.arg);
    ClonedLoad(between, mem', source.extraSize, source.extra, r.extra);
  }

  lemma ClonedLoad(mem: Memory, mem': Memory, size: int, p: Pointer, q: Pointer)
    requires Readable(mem, size, p) && Cloned(mem, mem', size, p, q)
    ensures Readable(mem', size, q) && Load(mem', size, q) == Load(mem, size, p)
    ensures mem'.Keys == mem.Keys + Held(size, q) && Held(size, q) !! mem.Keys
    ensures forall b :: b in mem ==> mem'[b] == mem[b]
  {
    if size > 0 && p != NULL {
      var block := mem[p][..size];
      assert block[..size] == block;
    }
  }

  /** Dropping the payloads of `dest` leaves those of `source`. */
  lemma DroppedTwice(mem: Memory, mem': Memory, dest: Message, source: Message)
    requires Sound(mem, dest) && Legible(mem, source) && Blocks(dest) !! Blocks(source)
    requires mem' == mem - Held(dest.argSize, dest.arg) - Held(dest.extraSize, dest.extra)
    ensures Legible(mem', source) && Read(mem', source) == Read(mem, source)
    ensures mem'.Keys == mem.Keys - Blocks(dest) && forall b :: b in mem' ==> mem'[b] == mem[b]
  {
  }

  // ----- The ring

  /** Slots outside the live range own nothing, and the messages together are tidy. A single slot is never
      live, but after a push that overwrites it owns the message that was lost. */
  ghost predicate Ring(ms: seq<Message>, mem: Memory, tail: int, count: int) {
    && 0 <= tail < |ms| && 0 <= count < |ms| && Tidy(ms, mem)
    && (|ms| > 1 ==> forall k :: count <= k < |ms| ==> Blocks(ms[Slot(tail, k, |ms|)]) == {})
  }

  ghost function Letters(ms: seq<Message>, mem: Memory, tail: int, count: int): (ls: seq<Letter>)
    requires Ring(ms, mem, tail, count)
    ensures |ls| == count
  {
    Window(Said(ms, mem), tail, count)
  }

  /** A store behind the last item. */
  lemma RingGrows(ms: seq<Message>, mem: Memory, mem': Memory, tail: int, count: int, after: Message)
    requires Ring(ms, mem, tail, count) && count + 1 < |ms|
    requires Replaced(mem, mem', ms[Slot(tail, count, |ms|)], after)
    ensures var ms' := ms[Slot(tail, count, |ms|) := after];
            && Ring(ms', mem', tail, count + 1) && Rest(ms', mem') == Rest(ms, mem)
            && Letters(ms', mem', tail, count + 1) == Letters(ms, mem, tail, count) + [Read(mem', after)]
  {
    hide Slot, Blocks, Tidy, Rest, Read, Said, Window;
    var i := Slot(tail, count, |ms|);
    ReplaceAt(ms, mem, mem', i, after);
    WindowGrows(Said(ms, mem), tail, count, Read(mem', after));
    forall k | count + 1 <= k < |ms| ensures Slot(tail, k, |ms|) != i { SlotApart(tail, k, count, |ms|); }
  }

  /** The store of a push, and the head that moves on. */
  lemma Appended(ms: seq<Message>, mem: Memory, mem': Memory, tail: int, head: int, after: Message)
    requires 0 <= tail < |ms| && 0 <= head < |ms| && Slot(tail, Position(tail, head, |ms|), |ms|) == head
    requires Ring(ms, mem, tail, Position(tail, head, |ms|))
    requires |ms| == 1 || Position(tail, head, |ms|) + 1 < |ms|
    requires Replaced(mem, mem', ms[head], after)
    ensures var next, n := Slot(head, 1, |ms|), Position(tail, head, |ms|);
            && 0 <= next < |ms| && Rest(ms[head := after], mem') == Rest(ms, mem)
            && Ring(ms[head := after], mem', tail, Position(tail, next, |ms|))
            && Letters(ms[head := after], mem', tail, Position(tail, next, |ms|)) ==
               if |ms| == 1 then [] else Letters(ms, mem, tail, n) + [Read(mem', after)]
  {
    hide Ring, Letters, Rest, Read, Slot, Position, Replaced;
    if |ms| == 1 {
      OneSlot();
      RingOne(ms, mem, mem', after);
    } else {
      RingGrows(ms, mem, mem', tail, Position(tail, head, |ms|), after);
      HeadMoves(tail, head, |ms|);
    }
  }

  /** The oldest item gives up its slot. */
  lemma RingShrinks(ms: seq<Message>, mem: Memory, mem': Memory, tail: int, count: int, after: Message)
    requires Ring(ms, mem, tail, count) && count > 0
    requires Replaced(mem, mem', ms[tail], after) && Blocks(after) == {}
    ensures var ms' := ms[tail := after];
            && Ring(ms', mem', Slot(tail, 1, |ms|), count - 1) && Rest(ms', mem') == Rest(ms, mem)
            && Letters(ms', mem', Slot(tail, 1, |ms|), count - 1) == Letters(ms, mem, tail, count)[1..]
  {
    hide Slot, Blocks, Tidy, Rest, Read, Said, Window;
    ReplaceAt(ms, mem, mem', tail, after);
    WindowShrinks(Said(ms, mem), tail, count, Read(mem', after));
    ShrunkIdle(ms, tail, count, after);
  }

  lemma OneSlot()
    ensures Slot(0, 1, 1) == 0 && Position(0, 0, 1) == 0
  {
  }

  /** A ring of one slot has nothing in its live range, whatever the slot holds. */
  lemma RingOne(ms: seq<Message>, mem: Memory, mem': Memory, after: Message)
    requires |ms| == 1 && Ring(ms, mem, 0, 0) && Replaced(mem, mem', ms[0], after)
    ensures Ring(ms[0 := after], mem', 0, 0) && Rest(ms[0 := after], mem') == Rest(ms, mem)
    ensures Letters(ms[0 := after], mem', 0, 0) == []
  {
    hide Tidy, Rest;
    ReplaceAt(ms, mem, mem', 0, after);
  }

  lemma ShrunkIdle(ms: seq<Message>, tail: int, count: int, after: Message)
    requires 0 <= tail < |ms| && 0 < count < |ms| && Blocks(after) == {}
    requires forall k :: count <= k < |ms| ==> Blocks(ms[Slot(tail, k, |ms|)]) == {}
    ensures forall k :: count - 1 <= k < |ms| ==> Blocks(ms[tail := after][Slot(Slot(tail, 1, |ms|), k, |ms|)]) == {}
  {
    hide Blocks, Slot;
    SlotItself(tail, |ms|);
    forall k | count - 1 <= k < |ms| ensures Blocks(ms[tail := after][Slot(Slot(tail, 1, |ms|), k, |ms|)]) == {} {
      SlotShift(tail, 1, k, |ms|);
      if k == |ms| - 1 {
        SlotAround(tail, |ms|);
      } else {
        SlotApart(tail, 0, k + 1, |ms|);
      }
    }
  }

  lemma SlotAround(tail: int, size: int)
    requires 0 <= tail < size
    ensures Slot(tail, size, size) == tail
  {
    RemainderIs(tail + size, size, 1, tail);
  }

  datatype PushResult = Success | SuccessWithOverflow | Fail

  const SEQUENCE_LIMIT: nat := 0x1_0000_0000

  /** message_buffer_t. `size` slots, a power of two, of which one always stays free; with a single slot
      there is no room for any message. */
  class Queue {
    const heap: Heap
    const slots: array<Message>
    const size: int
    const overflow: bool
    ghost const bits: nat
    var head: int
    var tail: int
    var sequence: nat

    ghost predicate Valid()
      reads this, heap, slots
    {
      && heap.Valid() && 1 <= slots.Length == size == Pow2(bits)
      && 0 <= head < size && 0 <= tail < size && sequence < SEQUENCE_LIMIT
      && Ring(slots[..], heap.memory, tail, Count())
    }

    ghost function Count(): int
      reads this`head, this`tail
    {
      if size > 0 then Position(tail, head, size) else 0
    }

    /** The queued messages, oldest first. */
    ghost function Contents(): (ls: seq<Letter>)
      requires Valid()
      reads this, heap, slots
    {
      Letters(slots[..], heap.memory, tail, Count())
    }

    /** The memory no slot owns. */
    ghost function Others(): Memory
      reads heap, slots
    {
      Rest(slots[..], heap.memory)
    }

    /** msg_buffer_init. */
    constructor (heap: Heap, overflow: bool, size: int, ghost bits: nat)
      requires heap.Valid() && 1 <= size == Pow2(bits)
      ensures Valid() && fresh(slots) && this.heap == heap && this.overflow == overflow && this.size == size
      ensures Contents() == [] && Others() == heap.memory && sequence == 0
    {
      this.heap, this.overflow, this.size, this.bits := heap, overflow, size, bits;
      head, tail, sequence := 0, 0, 0;
      slots := new Message[size](_ => BLANK);
      new;
      assert forall i :: 0 <= i < size ==> slots[..][i] == BLANK;
    }

    /** msg_buffer_num_items. */
    method NumItems() returns (n: int)
      requires Valid()
      ensures n == |Contents()|
    {
      MaskIsModulo(head - tail, bits);
      n := And(head - tail, size - 1);
    }

    /** msg_buffer_is_empty. */
    method IsEmpty() returns (empty: bool)
      requires Valid()
      ensures empty <==> Contents() == []
    {
      empty := head == tail;
      HeadSlot();
    }

    /** msg_buffer_is_full: a ring of `size` slots holds one message less. */
    method IsFull() returns (full: bool)
      requires Valid()
      ensures full <==> |Contents()| == size - 1
    {
      MaskIsModulo(head - tail, bits);
      full := And(head - tail, size - 1) == size - 1;
    }

    lemma HeadSlot()
      requires Valid()
      ensures size > 0 && Slot(tail, Count(), size) == head
      ensures head == tail <==> Count() == 0
    {
      hide Ring, Slot, Position, Pow2;
      SlotPosition(tail, head, size);
      RingEmpty(tail, head, size);
    }

    /** The next slot, as the source computes it. */
    method Next(index: int, n: int) returns (r: int)
      requires size == Pow2(bits)
      ensures r == Slot(index, n, size)
    {
      MaskIsModulo(index + n, bits);
      r := And(index + n, size - 1);
    }

    /** msg_buffer_probe_item: a shallow copy of the `n`-th item. Positions count around the ring, and
        the free slot behind the last item reads as absent. */
    method ProbeItem(n: int) returns (found: bool, msg: Message)
      requires Valid()
      ensures found <==> Contents() != [] && n % size != |Contents()|
      ensures found && n % size < |Contents()| ==>
                Legible(heap.memory, msg) && Read(heap.memory, msg) == Contents()[n % size]
    {
      msg := BLANK;
      var empty := IsEmpty();
      if empty { return false, msg; }
      var index := Next(tail, n);
      HeadSlot();
      SlotWraps(tail, n, size);
      if n % size != Count() { SlotApart(tail, n % size, Count(), size); }
      if index == head { return false, msg; }
      return true, slots[index];
    }

    /** A message of the caller that shares no block with the queue. */
    ghost predicate Apart(data: Message)
      reads heap, slots
    {
      Tidy(slots[..] + [data], heap.memory)
    }

    /** The common steps of an overflowing push and of a pop: free the oldest message, move the tail. */
    method DropOldest()
      requires Valid() && (Count() > 0 || size == 1)
      modifies heap, slots, this`tail
      ensures Valid() && Others() == old(Others())
      ensures if size == 1 then Contents() == [] else Contents() == old(Contents()[1..]) && Count() == old(Count()) - 1
    {
      hide Ring, Letters, Rest, Replaced, Slot, Position, Pow2;
      ghost var ms, mem, count := slots[..], heap.memory, Count();
      HeadSlot();
      RingSound(ms, mem, tail, count, tail);
      slots[tail] := heap.MsgFree(slots[tail]);
      assert slots[..] == ms[tail := slots[tail]];
      if size == 1 {
        OneSlot();
        RingOne(ms, mem, heap.memory, slots[tail]);
      } else {
        RingShrinks(ms, mem, heap.memory, tail, count, slots[tail]);
        TailMoves(tail, head, size);
      }
      tail := Next(tail, 1);
    }

    /** msg_buffer_push. */
    method Push(data: Option<Message>) returns (r: PushResult)
      requires Valid() && (data.Some? ==> Foreign(slots[..], heap.memory, data.value))
      modifies heap, slots, this`head, this`tail, this`sequence
      ensures Valid() && Others() == old(Others())
      ensures r == if data.None? then Fail else Outcome(old(Contents()), size - 1, overflow)
      ensures sequence == if r.Fail? then old(sequence) else (old(sequence) + 1) % SEQUENCE_LIMIT
      ensures Contents() ==
              if r.Fail? then old(Contents())
              else Pushed(old(Contents()), old(Read(heap.memory, data.value)).(sequence := sequence), size - 1)
    {
      hide Ring, Letters, Rest, Read, Slot, Position, Pow2, Foreign;
      if data.None? { return Fail; }
      r := Success;
      var full := IsFull();
      if full {
        if !overflow { return Fail; }
        ghost var ms, mem := slots[..], heap.memory;
        DropOldest();
        ForeignKept(ms, mem, slots[..], heap.memory, data.value);
        r := SuccessWithOverflow;
      }
      Append(data.value);
    }

    /** The second half of a push: number the message and copy it behind the last one. */
    method Append(data: Message)
      requires Valid() && (|Contents()| < size - 1 || size == 1) && Foreign(slots[..], heap.memory, data)
      modifies heap, slots, this`head, this`sequence
      ensures Valid() && Others() == old(Others())
      ensures sequence == (old(sequence) + 1) % SEQUENCE_LIMIT
      ensures Contents() ==
              if size == 1 then [] else old(Contents()) + [old(Read(heap.memory, data)).(sequence := sequence)]
    {
      hide Ring, Letters, Rest, Read, Slot, Position, Pow2, Foreign, Blocks;
      ghost var ms, mem, count := slots[..], heap.memory, Count();
      HeadSlot();
      sequence := (sequence + 1) % SEQUENCE_LIMIT;
      RingSound(ms, mem, tail, count, head);
      ForeignApart(ms, mem, data, head);
      ForeignLegible(ms, mem, data);
      slots[head] := heap.DeepCopy(slots[head], data);
      SequenceStored(mem, heap.memory, ms[head], slots[head], sequence);
      slots[head] := slots[head].(sequence := sequence);
      assert slots[..] == ms[head := slots[head]];
      Appended(ms, mem, heap.memory, tail, head, slots[head]);
      head := Next(head, 1);
    }

    /** msg_buffer_pop: `data` gives up its payloads and takes over a copy of the oldest message. */
    method Pop(data: Message) returns (ok: bool, r: Message)
      requires Valid() && Apart(data)
      modifies heap, slots, this`tail
      ensures Valid() && Apart(r) && (ok <==> old(Contents()) != [])
      ensures Rest(slots[..] + [r], heap.memory) == old(Rest(slots[..] + [data], heap.memory))
      ensures ok ==> Contents() == old(Contents()[1..])
      ensures ok ==> Legible(heap.memory, r) && Read(heap.memory, r) == old(Contents()[0])
      ensures !ok ==> r == data && Contents() == old(Contents())
    {
      var empty := IsEmpty();
      if empty { return false, data; }
      hide Ring, Letters, Rest, Read, Slot, Position, Pow2, Tidy, Foreign, Replaced;
      r := CopyOldest(data);
      ghost var ms, mem := slots[..], heap.memory;
      OneMore(ms, mem, r);
      DropOldest();
      ForeignKept(ms, mem, slots[..], heap.memory, r);
      OneMore(slots[..], heap.memory, r);
      ok := true;
    }

    method CopyOldest(data: Message) returns (r: Message)
      requires Valid() && Apart(data) && Contents() != []
      modifies heap
      ensures Valid() && Apart(r) && Contents() == old(Contents())
      ensures Rest(slots[..] + [r], heap.memory) == old(Rest(slots[..] + [data], heap.memory))
      ensures Legible(heap.memory, r) && Read(heap.memory, r) == Contents()[0]
    {
      hide Rest, Read, Position, Pow2, Tidy, Foreign, Slot;
      ghost var ms, mem := slots[..], heap.memory;
      OneMore(ms, mem, data);
      Pick(ms + [data], mem, |ms|, tail);
      SlotItself(tail, size);
      r := heap.DeepCopy(data, slots[tail]);
      ReplaceAt(ms + [data], mem, heap.memory, |ms|, r);
      assert (ms + [data])[|ms| := r] == ms + [r];
      OneMore(ms, heap.memory, r);
      assert Said(ms, heap.memory) == (Said(ms, heap.memory) + [Read(heap.memory, r)])[..|ms|] == Said(ms, mem);
    }

    /** Slot `i` takes over a copy of message `j` of the slots and `temp`; what it owned is freed. */
    method CopySlot(i: int, j: int, temp: Message)
      requires heap.Valid() && Apart(temp) && 0 <= i < slots.Length && 0 <= j <= slots.Length && i != j
      modifies heap, slots
      ensures heap.Valid() && Apart(temp)
      ensures slots[..] == old(slots[..])[i := slots[i]]
      ensures Rest(slots[..] + [temp], heap.memory) == old(Rest(slots[..] + [temp], heap.memory))
      ensures var was := old(Said(slots[..] + [temp], heap.memory));
              Said(slots[..] + [temp], heap.memory) == was[i := was[j]]
    {
      hide Tidy, Rest, Said, Sound, Legible, Blocks, Replaced, Read;
      ghost var ms, mem := slots[..], heap.memory;
      Pick(ms + [temp], mem, i, j);
      slots[i] := heap.DeepCopy(slots[i], if j == slots.Length then temp else slots[j]);
      ReplaceAt(ms + [temp], mem, heap.memory, i, slots[i]);
      assert slots[..] == ms[i := slots[i]];
      assert (ms + [temp])[i := slots[i]] == slots[..] + [temp];
    }

    /** Slot `i` frees its payloads. */
    method FreeSlot(i: int, temp: Message)
      requires heap.Valid() && Apart(temp) && 0 <= i < slots.Length
      modifies heap, slots
      ensures heap.Valid() && Apart(temp) && Blocks(slots[i]) == {}
      ensures slots[..] == old(slots[..])[i := slots[i]]
      ensures Rest(slots[..] + [temp], heap.memory) == old(Rest(slots[..] + [temp], heap.memory))
      ensures SameBut(old(Said(slots[..] + [temp], heap.memory)), Said(slots[..] + [temp], heap.memory), i)
    {
      hide Tidy, Rest, Said, Sound, Legible, Blocks, Replaced, Read, Emptied;
      ghost var ms, mem := slots[..], heap.memory;
      Pick(ms + [temp], mem, i, |ms|);
      slots[i] := heap.MsgFree(slots[i]);
      ReplaceAt(ms + [temp], mem, heap.memory, i, slots[i]);
      assert slots[..] == ms[i := slots[i]];
      assert (ms + [temp])[i := slots[i]] == slots[..] + [temp];
    }

    /** The third message of a swap: a copy of slot `a`. */
    method CopyOut(a: int) returns (temp: Message)
      requires heap.Valid() && Tidy(slots[..], heap.memory) && 0 <= a < slots.Length
      modifies heap
      ensures heap.Valid() && Apart(temp) &&
              Said(slots[..] + [temp], heap.memory) == Twice(old(Said(slots[..], heap.memory)), a)
      ensures Rest(slots[..] + [temp], heap.memory) == old(Others())
    {
      hide Tidy, Rest, Said, Sound, Legible, Replaced, Read;
      ghost var ms, mem := slots[..], heap.memory;
      NoBlocks(ms, mem, BLANK);
      OneMore(ms, mem, BLANK);
      Pick(ms + [BLANK], mem, |ms|, a);
      temp := heap.DeepCopy(BLANK, slots[a]);
      ReplaceAt(ms + [BLANK], mem, heap.memory, |ms|, temp);
      assert (ms + [BLANK])[|ms| := temp] == ms + [temp];
    }

    /** The third message of a swap is freed again. */
    method CopyFreed(temp: Message)
      requires heap.Valid() && Apart(temp)
      modifies heap
      ensures heap.Valid() && Tidy(slots[..], heap.memory)
      ensures Others() == old(Rest(slots[..] + [temp], heap.memory))
      ensures Said(slots[..], heap.memory) == old(Said(slots[..] + [temp], heap.memory)[..slots.Length])
    {
      hide Tidy, Rest, Said, Sound, Legible, Replaced, Read, Emptied;
      ghost var ms, mem := slots[..], heap.memory;
      OneMore(ms, mem, temp);
      var freed := heap.MsgFree(temp);
      ReplaceAt(ms + [temp], mem, heap.memory, |ms|, freed);
      assert (ms + [temp])[|ms| := freed] == ms + [freed];
      NoBlocks(ms, heap.memory, freed);
      OneMore(ms, heap.memory, freed);
      assert slots[..] == ms;
      assert Said(ms + [freed], heap.memory)[..|ms|] == Said(ms + [temp], mem)[..|ms|];
      assert (Said(ms, heap.memory) + [Read(heap.memory, freed)])[..|ms|] == Said(ms, heap.memory);
    }

    /** msg_buffer_swap_item: two slots exchange what they say by way of a third message. */
    method SwapItem(a: int, b: int)
      requires heap.Valid() && Tidy(slots[..], heap.memory) && 0 <= a < slots.Length && 0 <= b < slots.Length && a != b
      modifies heap, slots
      ensures heap.Valid() && Tidy(slots[..], heap.memory) && Others() == old(Others())
      ensures Said(slots[..], heap.memory) == old(Exchanged(Said(slots[..], heap.memory), a, b))
      ensures forall k :: 0 <= k < slots.Length && k != a && k != b ==> slots[k] == old(slots[k])
    {
      hide Tidy, Rest, Said, Blocks, Replaced, Read;
      ghost var said, n := Said(slots[..], heap.memory), slots.Length;
      var temp := CopyOut(a);
      FreeSlot(a, temp);
      CopySlot(a, b, temp);
      FreeSlot(b, temp);
      CopySlot(b, slots.Length, temp);
      ghost var all := Said(slots[..] + [temp], heap.memory);
      assert all == (said + [said[a]])[a := said[b]][b := said[a]];
      assert all[..n] == Exchanged(said, a, b);
      CopyFreed(temp);
    }

    /** The slots of two items, in either order. */
    ghost predicate AreSlots(i: nat, j: nat, a: int, b: int)
      reads this`tail
    {
      size > 0 && ((a == Slot(tail, i, size) && b == Slot(tail, j, size)) ||
                   (b == Slot(tail, i, size) && a == Slot(tail, j, size)))
    }

    /** The same, for two items of the queue. */
    method SwapLive(ghost i: nat, ghost j: nat, a: int, b: int)
      requires Valid() && i < j < Count() && AreSlots(i, j, a, b)
      modifies heap, slots
      ensures Valid() && Others() == old(Others()) && Contents() == old(Exchanged(Contents(), i, j))
    {
      hide Slot, Position, Pow2, Tidy, Rest, Read, Said, Exchanged;
      ghost var ms, said := slots[..], Said(slots[..], heap.memory);
      SlotApart(tail, i, j, size);
      SwapItem(a, b);
      assert Exchanged(said, a, b) == Exchanged(said, Slot(tail, i, size), Slot(tail, j, size)) by {
        ExchangeBack(said, a, b);
      }
      WindowExchange(said, tail, Count(), i, j);
      forall k | Count() <= k < size ensures Blocks(slots[..][Slot(tail, k, size)]) == {} {
        SlotApart(tail, i, k, size);
        SlotApart(tail, j, k, size);
        assert slots[Slot(tail, k, size)] == ms[Slot(tail, k, size)];
      }
    }

    /** msg_buffer_swap: the item at `dest` moves to `org`, the items between move back by one. */
    method Swap(org: nat, dest: nat) returns (r: int)
      requires Valid() && org <= dest < |Contents()|
      modifies heap, slots
      ensures Valid() && Others() == old(Others()) && r == if org == dest then 1 else 0
      ensures Contents() == Promoted(old(Contents()), org, dest)
    {
      hide Ring, Letters, Rest, Slot, Position, Pow2, Bubbled, Exchanged, Promoted;
      ghost var s := Contents();
      PromotedDone(s, org, dest);
      if org == dest { return 1; }
      var orgIndex := Next(tail, org);
      var destIndex := Next(tail, dest);
      SwapLive(org, dest, orgIndex, destIndex);
      BubbleStart(s, org, dest);
      ghost var last: nat := dest;
      var lastIndex := destIndex;
      var rundownIndex := Next(lastIndex, -1);
      SlotShift(tail, last, -1, size);
      SlotOther(tail, last - 1, org, size);
      while rundownIndex != orgIndex
        invariant Valid() && Others() == old(Others()) && head == old(head) && tail == old(tail)
        invariant org < last <= dest < |s| && Contents() == Bubbled(s, org, dest, last)
        invariant lastIndex == Slot(tail, last, size) && rundownIndex == Slot(tail, last - 1, size)
        invariant rundownIndex == orgIndex <==> last == org + 1
        decreases last
      {
        SwapLive(last - 1, last, rundownIndex, lastIndex);
        BubbleStep(s, org, dest, last);
        last := last - 1;
        lastIndex := rundownIndex;
        rundownIndex := Next(lastIndex, -1);
        SlotShift(tail, last, -1, size);
        SlotOther(tail, last - 1, org, size);
      }
      r := 0;
    }

    /** msg_buffer_release: every block of the queue is freed, and no other. */
    method Release()
      requires Valid()
      modifies heap, slots, this`head, this`tail, this`sequence
      ensures heap.Valid() && heap.memory == old(Others()) && head == tail == 0 && sequence == 0
      ensures forall k :: 0 <= k < size ==> Blocks(slots[k]) == {}
    {
      hide Tidy, Rest, Said, Ring, Pow2, Position;
      RingTidy(slots[..], heap.memory, tail, Count());
      head, tail, sequence := 0, 0, 0;
      NoBlocks(slots[..], heap.memory, BLANK);
      var i := 0;
      while i < size
        invariant 0 <= i <= size && heap.Valid() && Apart(BLANK)
        invariant Rest(slots[..] + [BLANK], heap.memory) == old(Others())
        invariant forall k :: 0 <= k < i ==> Blocks(slots[k]) == {}
        invariant head == tail == 0 && sequence == 0
      {
        ghost var ms := slots[..];
        FreeSlot(i, BLANK);
        forall k | 0 <= k < i ensures Blocks(slots[k]) == {} { assert slots[k] == slots[..][k] == ms[k]; }
        i := i + 1;
      }
      NothingOwned(slots[..] + [BLANK], heap.memory);
    }
  }

  lemma RingTidy(ms: seq<Message>, mem: Memory, tail: int, count: int)
    requires Ring(ms, mem, tail, count)
    ensures Tidy(ms, mem)
  {
  }

  lemma NothingOwned(ms: seq<Message>, mem: Memory)
    requires forall i :: 0 <= i < |ms| ==> Blocks(ms[i]) == {}
    ensures Rest(ms, mem) == mem
  {
  }

  lemma ExchangeBack<T>(s: seq<T>, a: nat, b: nat)
    requires a < |s| && b < |s|
    ensures Exchanged(s, a, b) == Exchanged(s, b, a)
  {
  }

  /** The item at `dest` in front of the one at `org`. */
  function Promoted<T>(s: seq<T>, org: nat, dest: nat): seq<T>
    requires org <= dest < |s|
  {
    s[..org] + [s[dest]] + s[org..dest] + s[dest + 1..]
  }

  lemma PromotedAt<T>(s: seq<T>, org: nat, dest: nat)
    requires org <= dest < |s|
    ensures var p := Promoted(s, org, dest);
            && |p| == |s| && p[org] == s[dest]
            && (forall k :: 0 <= k < org || dest < k < |s| ==> p[k] == s[k])
            && forall k :: org <= k < dest ==> p[k + 1] == s[k]
  {
  }

  /** On the way there: the item of `org` has come down to `last`. */
  function Bubbled<T>(s: seq<T>, org: nat, dest: nat, last: nat): seq<T>
    requires org < last <= dest < |s|
  {
    s[..org] + [s[dest]] + s[org + 1..last] + [s[org]] + s[last..dest] + s[dest + 1..]
  }

  lemma BubbleStart<T>(s: seq<T>, org: nat, dest: nat)
    requires org < dest < |s|
    ensures Bubbled(s, org, dest, dest) == Exchanged(s, org, dest)
  {
  }

  lemma BubbleStep<T>(s: seq<T>, org: nat, dest: nat, last: nat)
    requires org + 1 < last <= dest < |s|
    ensures |Bubbled(s, org, dest, last)| == |s|
    ensures Exchanged(Bubbled(s, org, dest, last), last - 1, last) == Bubbled(s, org, dest, last - 1)
  {
  }

  lemma PromotedDone<T>(s: seq<T>, org: nat, dest: nat)
    requires org <= dest < |s|
    ensures org == dest ==> Promoted(s, org, dest) == s
    ensures org < dest ==> Bubbled(s, org, dest, org + 1) == Promoted(s, org, dest)
  {
  }

  lemma SlotOther(tail: int, j: int, k: int, size: int)
    requires size > 0 && 0 <= j < size && 0 <= k < size
    ensures Slot(tail, j, size) == Slot(tail, k, size) <==> j == k
  {
    if j != k { SlotApart(tail, j, k, size); }
  }

  function Twice<T>(s: seq<T>, a: int): seq<T>
    requires 0 <= a < |s|
  {
    s + [s[a]]
  }

  /** Two sequences that differ at `i` at most. */
  ghost predicate SameBut<T>(s: seq<T>, t: seq<T>, i: int) {
    0 <= i < |s| == |t| && t == s[i := t[i]]
  }

  /** The number of a message is no part of what it owns. */
  lemma SequenceStored(mem: Memory, mem': Memory, before: Message, after: Message, n: nat)
    requires Replaced(mem, mem', before, after)
    ensures Replaced(mem, mem', before, after.(sequence := n))
    ensures Read(mem', after.(sequence := n)) == Read(mem', after).(sequence := n)
  {
  }

  lemma ForeignLegible(ms: seq<Message>, mem: Memory, m: Message)
    requires Foreign(ms, mem, m)
    ensures Legible(mem, m)
  {
  }

  function Outcome<T>(queue: seq<T>, capacity: int, overflow: bool): PushResult {
    if |queue| != capacity then Success else if overflow then SuccessWithOverflow else Fail
  }

  /** The queue after a push that is accepted: one with more items than there is room for loses the oldest. */
  function Pushed<T>(queue: seq<T>, x: T, capacity: int): seq<T> {
    if |queue| == capacity then (queue + [x])[1..] else queue + [x]
  }

  /** With a single slot there is no room for any: a push that overwrites is accepted, and its message lost. */
  lemma OneSlotLoses<T>(x: T)
    ensures Outcome<T>([], 0, true) == SuccessWithOverflow && Pushed([], x, 0) == []
  {
  }

  lemma RingSound(ms: seq<Message>, mem: Memory, tail: int, count: int, i: int)
    requires Ring(ms, mem, tail, count) && 0 <= i < |ms|
    ensures Sound(mem, ms[i])
  {
  }
}
