/** Messages, the payload blocks they own, and what copying and freeing them does to the allocator. */
module Messages {
  import opened Bytes

  /** Addresses; 0 is the null pointer. */
  type Pointer = nat

  const NULL: Pointer := 0

  datatype Arguments = Arguments(dog: int, cat: int, duck: int, chick: int, tiger: int, wolf: int, handler: Pointer)

  datatype Header = Header(message: int, sender: int, receiver: int, result: int, argIn: Arguments, argPass: Arguments)

  /** message_t. */
  datatype Message = Message(header: Header, argSize: int, arg: Pointer, extraSize: int, extra: Pointer, sequence: nat)

  const BLANK := Message(Header(0, 0, 0, 0, NO_ARGUMENTS, NO_ARGUMENTS), 0, NULL, 0, NULL, 0)
  const NO_ARGUMENTS := Arguments(0, 0, 0, 0, 0, 0, NULL)

  type Memory = map<Pointer, bytes>

  /** The block a (size, pointer) pair of a message stands for: a raw pointer is not owned. */
  function Held(size: int, p: Pointer): set<Pointer> {
    if size > 0 && p != NULL then {p} else {}
  }

  function Blocks(m: Message): set<Pointer> {
    Held(m.argSize, m.arg) + Held(m.extraSize, m.extra)
  }

  predicate Readable(mem: Memory, size: int, p: Pointer) {
    size > 0 && p != NULL ==> p in mem && size <= |mem[p]|
  }

  /** Both payloads can be read. */
  predicate Legible(mem: Memory, m: Message) {
    Readable(mem, m.argSize, m.arg) && Readable(mem, m.extraSize, m.extra)
  }

  /** Both payloads can be freed. */
  predicate Sound(mem: Memory, m: Message) {
    Legible(mem, m) && Held(m.argSize, m.arg) !! Held(m.extraSize, m.extra)
  }

  datatype Payload = Copied(data: bytes) | Raw(size: int, pointer: Pointer)

  function Load(mem: Memory, size: int, p: Pointer): Payload
    requires Readable(mem, size, p)
  {
    if size > 0 && p != NULL then Copied(mem[p][..size]) else Raw(size, p)
  }

  /** What a message says, whatever blocks it says it with. */
  datatype Letter = Letter(header: Header, arg: Payload, extra: Payload, sequence: nat)

  function Read(mem: Memory, m: Message): Letter
    requires Legible(mem, m)
  {
    Letter(m.header, Load(mem, m.argSize, m.arg), Load(mem, m.extraSize, m.extra), m.sequence)
  }

  /** A message owns a block if one of its payloads has a size and a place. */
  lemma Owns(m: Message, p: Pointer)
    ensures p in Blocks(m) <==> p != 0 && ((m.argSize > 0 && m.arg == p) || (m.extraSize > 0 && m.extra == p))
  {
  }

  /** The payloads are the same bytes, each in a block of its own; or neither is a block, and the pairs are equal. */
  ghost predicate SamePayload(mem: Memory, size: int, p: Pointer, mem': Memory, size': int, p': Pointer)
    requires Readable(mem, size, p) && Readable(mem', size', p')
  {
    && size == size'
    && if size > 0 && p != 0 && p' != 0 then forall k :: 0 <= k < size ==> mem[p][k] == mem'[p'][k] else p == p'
  }

  lemma LoadIff(mem: Memory, size: int, p: Pointer, mem': Memory, size': int, p': Pointer)
    requires Readable(mem, size, p) && Readable(mem', size', p')
    ensures Load(mem, size, p) == Load(mem', size', p') <==> SamePayload(mem, size, p, mem', size', p')
  {
    var l, l' := Load(mem, size, p), Load(mem', size', p');
    if l == l' && l.Copied? {
      forall k | 0 <= k < size ensures mem[p][k] == mem'[p'][k] { assert l.data[k] == l'.data[k]; }
    }
  }

  /** Two messages, in whatever memories, say the same exactly if they agree in everything but where their
      payloads are. */
  lemma ReadIff(mem: Memory, m: Message, mem': Memory, m': Message)
    requires Legible(mem, m) && Legible(mem', m')
    ensures Read(mem, m) == Read(mem', m') <==>
            && m.header == m'.header && m.sequence == m'.sequence
            && SamePayload(mem, m.argSize, m.arg, mem', m'.argSize, m'.arg)
            && SamePayload(mem, m.extraSize, m.extra, mem', m'.extraSize, m'.extra)
  {
    hide Load, SamePayload;
    LoadIff(mem, m.argSize, m.arg, mem', m'.argSize, m'.arg);
    LoadIff(mem, m.extraSize, m.extra, mem', m'.extraSize, m'.extra);
  }

  /** Some message of `ms` owns block `p`. */
  ghost predicate Owned(ms: seq<Message>, p: Pointer) {
    exists i :: 0 <= i < |ms| && p in Blocks(ms[i])
  }

  /** Every message owns live blocks, and no two messages share one. */
  ghost predicate Tidy(ms: seq<Message>, mem: Memory) {
    && (forall i :: 0 <= i < |ms| ==> Sound(mem, ms[i]))
    && (forall i, j :: 0 <= i < j < |ms| ==> Blocks(ms[i]) !! Blocks(ms[j]))
  }

  /** The memory that none of the messages owns. */
  ghost function Rest(ms: seq<Message>, mem: Memory): Memory {
    map p | p in mem && !Owned(ms, p) :: mem[p]
  }

  /** Message `before` gave up its blocks and `after` took new ones; no other block changed. */
  ghost predicate Replaced(mem: Memory, mem': Memory, before: Message, after: Message) {
    && Blocks(before) <= mem.Keys && Sound(mem', after) && Blocks(after) !! mem.Keys
    && mem'.Keys == mem.Keys - Blocks(before) + Blocks(after)
    && (forall p :: p in mem && p !in Blocks(before) ==> mem'[p] == mem[p])
  }

  /** What a collection of messages says. */
  ghost function Said(ms: seq<Message>, mem: Memory): (ls: seq<Letter>)
    requires Tidy(ms, mem)
    ensures |ls| == |ms|
  {
    seq(|ms|, i requires 0 <= i < |ms| => Read(mem, ms[i]))
  }

  /** Such a step keeps any collection of messages tidy and all other memory as it was, and changes
      what that one message says. */
  lemma ReplaceAt(ms: seq<Message>, mem: Memory, mem': Memory, i: nat, after: Message)
    requires i < |ms| && Tidy(ms, mem) && Replaced(mem, mem', ms[i], after)
    ensures Tidy(ms[i := after], mem')
    ensures Rest(ms[i := after], mem') == Rest(ms, mem)
    ensures Said(ms[i := after], mem') == Said(ms, mem)[i := Read(mem', after)]
  {
    hide Read, Load, Rest, Owned, Tidy, Replaced, Sound, Blocks;
    ReplaceTidy(ms, mem, mem', i, after);
    ReplaceRest(ms, mem, mem', i, after);
    forall j | 0 <= j < |ms| && j != i ensures Said(ms[i := after], mem')[j] == Said(ms, mem)[j] {
      Untouched(ms, mem, mem', i, after, j);
    }
  }

  /** One more message without blocks changes nothing. */
  lemma NoBlocks(ms: seq<Message>, mem: Memory, m: Message)
    requires Blocks(m) == {}
    ensures Tidy(ms + [m], mem) <==> Tidy(ms, mem)
    ensures Rest(ms + [m], mem) == Rest(ms, mem)
  {
    assert forall i :: 0 <= i < |ms| ==> (ms + [m])[i] == ms[i];
    assert Sound(mem, m);
    forall p ensures Owned(ms + [m], p) <==> Owned(ms, p) {
      if Owned(ms, p) {
        var j :| 0 <= j < |ms| && p in Blocks(ms[j]);
        assert p in Blocks((ms + [m])[j]);
      }
    }
  }

  lemma ReplaceTidy(ms: seq<Message>, mem: Memory, mem': Memory, i: nat, after: Message)
    requires i < |ms| && Tidy(ms, mem) && Replaced(mem, mem', ms[i], after)
    ensures Tidy(ms[i := after], mem')
  {
    forall j | 0 <= j < |ms| && j != i ensures Sound(mem', ms[j]) && Blocks(ms[j]) !! Blocks(after) {
      Untouched(ms, mem, mem', i, after, j);
    }
  }

  /** The other messages still say what they said. */
  lemma Untouched(ms: seq<Message>, mem: Memory, mem': Memory, i: nat, after: Message, j: nat)
    requires i < |ms| && j < |ms| && j != i && Tidy(ms, mem) && Replaced(mem, mem', ms[i], after)
    ensures Sound(mem', ms[j]) && Read(mem', ms[j]) == Read(mem, ms[j]) && Blocks(ms[j]) !! Blocks(after)
  {
    assert Sound(mem, ms[j]);
    assert Blocks(ms[j]) !! Blocks(ms[i]);
    assert forall p :: p in Blocks(ms[j]) ==> p in mem && p in mem' && mem'[p] == mem[p];
  }

  lemma ReplaceRest(ms: seq<Message>, mem: Memory, mem': Memory, i: nat, after: Message)
    requires i < |ms| && Tidy(ms, mem) && Replaced(mem, mem', ms[i], after)
    ensures Rest(ms[i := after], mem') == Rest(ms, mem)
  {
    hide Sound, Blocks;
    var ms' := ms[i := after];
    forall p ensures p in mem' && !Owned(ms', p) <==> p in mem && !Owned(ms, p) {
      OwnedUpdate(ms, i, after, p);
      if p in Blocks(ms[i]) { assert Owned(ms, p); }
      if p in Blocks(after) { assert p in Blocks(ms'[i]); }
    }
  }

  lemma OwnedUpdate(ms: seq<Message>, i: nat, after: Message, p: Pointer)
    requires i < |ms|
    ensures p !in Blocks(ms[i]) && p !in Blocks(after) ==> (Owned(ms[i := after], p) <==> Owned(ms, p))
  {
    hide Blocks;
    var ms' := ms[i := after];
    if p !in Blocks(ms[i]) && p !in Blocks(after) {
      if Owned(ms, p) {
        var j :| 0 <= j < |ms| && p in Blocks(ms[j]);
        assert p in Blocks(ms'[j]);
      }
      if Owned(ms', p) {
        var j :| 0 <= j < |ms'| && p in Blocks(ms'[j]);
        assert p in Blocks(ms[j]);
      }
    }
  }

  /** A message of someone else: its payloads can be read, and none of `ms` owns them. */
  ghost predicate Foreign(ms: seq<Message>, mem: Memory, m: Message) {
    Legible(mem, m) && forall p :: p in Blocks(m) ==> !Owned(ms, p)
  }

  /** It is not affected by steps that leave the rest of the memory alone. */
  lemma ForeignKept(ms: seq<Message>, mem: Memory, ms': seq<Message>, mem': Memory, m: Message)
    requires Foreign(ms, mem, m) && Rest(ms', mem') == Rest(ms, mem)
    ensures Foreign(ms', mem', m) && Read(mem', m) == Read(mem, m)
  {
    hide Owned;
    forall p | p in Blocks(m) ensures p in mem' && mem'[p] == mem[p] && !Owned(ms', p) {
      assert p in Rest(ms, mem) && p in Rest(ms', mem');
      assert Rest(ms, mem)[p] == mem[p] && Rest(ms', mem')[p] == mem'[p];
    }
  }

  lemma ForeignApart(ms: seq<Message>, mem: Memory, m: Message, i: int)
    requires Foreign(ms, mem, m) && 0 <= i < |ms|
    ensures Blocks(ms[i]) !! Blocks(m)
  {
    hide Blocks;
    forall p | p in Blocks(m) ensures p !in Blocks(ms[i]) {
      assert p in Blocks(ms[i]) ==> Owned(ms, p);
    }
  }

  /** What one more message adds. */
  lemma OneMore(ms: seq<Message>, mem: Memory, m: Message)
    ensures Tidy(ms + [m], mem) <==> Tidy(ms, mem) && Sound(mem, m) && Foreign(ms, mem, m)
    ensures Rest(ms + [m], mem) == Rest(ms, mem) - Blocks(m)
    ensures Tidy(ms + [m], mem) ==> Said(ms + [m], mem) == Said(ms, mem) + [Read(mem, m)]
  {
    hide Blocks, Read, Legible, Readable;
    var all := ms + [m];
    assert all[|ms|] == m && forall i :: 0 <= i < |ms| ==> all[i] == ms[i];
    forall p ensures Owned(all, p) <==> Owned(ms, p) || p in Blocks(m) { OwnedMore(ms, m, p); }
    if Tidy(all, mem) {
      forall p | p in Blocks(m) ensures !Owned(ms, p) {
        assert forall i :: 0 <= i < |ms| ==> Blocks(all[i]) !! Blocks(all[|ms|]);
      }
    }
    if Foreign(ms, mem, m) {
      forall i | 0 <= i < |ms| ensures Blocks(ms[i]) !! Blocks(m) { ForeignApart(ms, mem, m, i); }
    }
  }

  lemma OwnedMore(ms: seq<Message>, m: Message, p: Pointer)
    ensures Owned(ms + [m], p) <==> Owned(ms, p) || p in Blocks(m)
  {
    hide Blocks;
    var all := ms + [m];
    if Owned(ms, p) {
      var j :| 0 <= j < |ms| && p in Blocks(ms[j]);
      assert p in Blocks(all[j]);
    }
    if p in Blocks(m) { assert p in Blocks(all[|ms|]); }
  }

  /** Two messages of a tidy collection can be copied one into the other. */
  lemma Pick(ms: seq<Message>, mem: Memory, i: int, j: int)
    requires Tidy(ms, mem) && 0 <= i < |ms| && 0 <= j < |ms| && i != j
    ensures Sound(mem, ms[i]) && Sound(mem, ms[j]) && Legible(mem, ms[j]) && Blocks(ms[i]) !! Blocks(ms[j])
    ensures Said(ms, mem)[j] == Read(mem, ms[j])
  {
    assert Blocks(ms[if i < j then i else j]) !! Blocks(ms[if i < j then j else i]);
  }
}
