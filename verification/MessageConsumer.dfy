/** A server's message queue at work: producers push, the consumer pops, and while it is locked system
    and response messages overtake the ordinary ones. */
module MessageConsumer {
  import opened Bytes
  import opened Arithmetic
  import opened Messages
  import opened MessageBuffer

  const SYSTEM_MASK: nat := 0xFFF0
  const RESPONSE_MASK: nat := 0xF000

  /** msg_is_system. */
  predicate IsSystem(id: int) { And(id, SYSTEM_MASK) == 0 }

  /** msg_is_response. */
  predicate IsResponse(id: int) { And(id, RESPONSE_MASK) != 0 }

  /** The messages a locked server still takes. */
  predicate Urgent(m: Letter) { IsSystem(m.header.message) || IsResponse(m.header.message) }

  /** A system message has a number below 16, a response a leading digit, in the low 16 bits of its id; either
      is urgent. */
  lemma UrgentIds(id: int)
    ensures IsSystem(id) <==> (id / 16) % 4096 == 0
    ensures IsResponse(id) <==> (id / 4096) % 16 != 0
    ensures forall m: Letter :: m.header.message == id ==>
              (Urgent(m) <==> (id / 16) % 4096 == 0 || (id / 4096) % 16 != 0)
  {
    hide And;
    AndDigit(id, 0xFFF);
    MaskIsModulo(id / 16, 12);
    AndDigit(id, 0xF00);
    AndDigit(id / 16, 0xF0);
    AndDigit(id / 256, 0xF);
    MaskIsModulo(id / 4096, 4);
    assert id / 16 / 16 == id / 256 && id / 256 / 16 == id / 4096;
  }

  /** The position of the first urgent message, or the number of messages if there is none. */
  function FirstUrgent(s: seq<Letter>): (k: nat)
    ensures k <= |s| && (k < |s| ==> Urgent(s[k])) && forall j :: 0 <= j < k ==> !Urgent(s[j])
  {
    if s == [] || Urgent(s[0]) then 0 else 1 + FirstUrgent(s[1..])
  }

  lemma FirstUrgentIs(s: seq<Letter>, k: nat)
    requires k <= |s| && (k < |s| ==> Urgent(s[k])) && forall j :: 0 <= j < k ==> !Urgent(s[j])
    ensures FirstUrgent(s) == k
  {
  }

  /** Which message the consumer takes next, if any. */
  function Choice(s: seq<Letter>, locked: bool): (k: Option<nat>)
    ensures k.Some? ==> k.value < |s|
  {
    if s == [] || (locked && FirstUrgent(s) == |s|) then None
    else Some(if locked then FirstUrgent(s) else 0)
  }

  // ----- Runs

  /** A message and the number of messages accepted before it. */
  datatype Arrival = Arrival(letter: Letter, number: nat)

  /** A run so far: what was accepted, what of it is queued, delivered, and dropped by overflow. */
  datatype Run = Run(accepted: seq<Arrival>, queue: seq<Arrival>, delivered: seq<Arrival>, dropped: seq<Arrival>,
    locked: bool)

  datatype Event = Post(letter: Letter) | Lock(locked: bool) | Take

  const IDLE := Run([], [], [], [], false)

  function LettersOf(s: seq<Arrival>): (ls: seq<Letter>)
    ensures |ls| == |s|
  {
    seq(|s|, i requires 0 <= i < |s| => s[i].letter)
  }

  /** One step under the mutex. */
  function Step(r: Run, e: Event, capacity: nat, overflow: bool): Run {
    match e
    case Lock(b) => r.(locked := b)
    case Post(letter) =>
      if |r.queue| == capacity && !overflow then r
      else
        var a := Arrival(letter.(sequence := (|r.accepted| + 1) % SEQUENCE_LIMIT), |r.accepted|);
        r.(accepted := r.accepted + [a], queue := Pushed(r.queue, a, capacity),
           dropped := if |r.queue| == capacity then r.dropped + [(r.queue + [a])[0]] else r.dropped)
    case Take =>
      var k := Choice(LettersOf(r.queue), r.locked);
      if k.None? then r
      else r.(queue := Without(r.queue, k.value), delivered := r.delivered + [r.queue[k.value]])
  }

  function RunOf(es: seq<Event>, capacity: nat, overflow: bool): Run {
    if es == [] then IDLE else Step(RunOf(es[..|es| - 1], capacity, overflow), es[|es| - 1], capacity, overflow)
  }

  ghost predicate Increasing(s: seq<Arrival>) {
    forall i, j :: 0 <= i < j < |s| ==> s[i].number < s[j].number
  }

  ghost predicate SameClass(a: Arrival, b: Arrival) { Urgent(a.letter) == Urgent(b.letter) }

  /** Messages of one class are in arrival order. */
  ghost predicate ClassOrder(s: seq<Arrival>) {
    forall i, j :: 0 <= i < j < |s| && SameClass(s[i], s[j]) ==> s[i].number < s[j].number
  }

  ghost predicate Numbered(accepted: seq<Arrival>) {
    forall i :: 0 <= i < |accepted| ==>
      accepted[i].number == i && accepted[i].letter.sequence == (i + 1) % 4294967296
  }

  /** Nothing is lost or made up. */
  ghost predicate Conserved(r: Run) {
    multiset(r.accepted) == multiset(r.delivered) + multiset(r.dropped) + multiset(r.queue)
  }

  /** At rest the queue is in arrival order, behind all that was dropped and behind all that was
      delivered of the same class; each class was delivered in arrival order. */
  ghost predicate Ordered(r: Run) {
    && Increasing(r.queue) && Increasing(r.dropped) && ClassOrder(r.delivered)
    && (forall i, j :: 0 <= i < |r.dropped| && 0 <= j < |r.queue| ==> r.dropped[i].number < r.queue[j].number)
    && (forall i, j :: 0 <= i < |r.delivered| && 0 <= j < |r.queue| && SameClass(r.delivered[i], r.queue[j]) ==>
          r.delivered[i].number < r.queue[j].number)
    && (forall j :: 0 <= j < |r.queue| ==> r.queue[j].number < |r.accepted|)
  }

  /** What was delivered or dropped arrived before now. */
  ghost predicate Past(r: Run) {
    && (forall i :: 0 <= i < |r.delivered| ==> r.delivered[i].number < |r.accepted|)
    && (forall i :: 0 <= i < |r.dropped| ==> r.dropped[i].number < |r.accepted|)
  }

  ghost predicate Good(r: Run, capacity: nat) {
    Numbered(r.accepted) && Conserved(r) && Ordered(r) && Past(r) && |r.queue| <= capacity
  }

  lemma OrderedQueue(r: Run)
    requires Ordered(r)
    ensures forall j :: 0 <= j < |r.queue| ==> r.queue[j].number < |r.accepted|
  {
  }

  /** Every step keeps all of that. */
  lemma StepKeeps(r: Run, e: Event, capacity: nat, overflow: bool)
    requires Good(r, capacity)
    ensures Good(Step(r, e, capacity, overflow), capacity)
  {
    hide Good, Step;
    match e {
      case Lock(locked) => LockKeeps(r, locked, capacity, overflow);
      case Post(letter) => PostKeeps(r, letter, capacity, overflow);
      case Take => TakeKeeps(r, capacity, overflow);
    }
  }

  lemma LockKeeps(r: Run, locked: bool, capacity: nat, overflow: bool)
    requires Good(r, capacity)
    ensures Good(Step(r, Lock(locked), capacity, overflow), capacity)
  {
    hide Urgent, FirstUrgent, Increasing, ClassOrder, SameClass;
  }

  lemma PostKeeps(r: Run, letter: Letter, capacity: nat, overflow: bool)
    requires Good(r, capacity)
    ensures Good(Step(r, Post(letter), capacity, overflow), capacity)
  {
    hide Urgent, FirstUrgent, Conserved, Ordered;
    OrderedQueue(r);
    if |r.queue| == capacity && overflow {
      AddKeeps(r, letter);
      OrderedQueue(Adding(r, letter));
      DropKeeps(Adding(r, letter));
    } else if |r.queue| != capacity {
      AddKeeps(r, letter);
    }
  }

  /** The oldest message is dropped. */
  function Dropping(r: Run): Run
    requires r.queue != []
  {
    r.(queue := r.queue[1..], dropped := r.dropped + [r.queue[0]])
  }

  lemma DropKeeps(r: Run)
    requires Conserved(r) && Ordered(r) && r.queue != []
    ensures Conserved(Dropping(r)) && Ordered(Dropping(r))
  {
    hide Ordered;
    assert r.queue == [r.queue[0]] + r.queue[1..];
    DropKeepsOrder(r);
  }

  lemma DropKeepsOrder(r: Run)
    requires Ordered(r) && r.queue != []
    ensures Ordered(Dropping(r))
  {
    hide SameClass;
    var rest := Dropping(r).queue;
    forall j | 0 <= j < |rest| ensures rest[j] == r.queue[j + 1] && r.queue[0].number < rest[j].number {}
  }

  /** A message arrives behind all others. */
  function Adding(r: Run, letter: Letter): Run {
    var a := Arrival(letter.(sequence := (|r.accepted| + 1) % SEQUENCE_LIMIT), |r.accepted|);
    r.(accepted := r.accepted + [a], queue := r.queue + [a])
  }

  lemma AddKeeps(r: Run, letter: Letter)
    requires Conserved(r) && Ordered(r) && Numbered(r.accepted) && Past(r)
    ensures Conserved(Adding(r, letter)) && Ordered(Adding(r, letter)) && Numbered(Adding(r, letter).accepted)
  {
    hide Urgent, SameClass;
  }

  lemma TakeKeeps(r: Run, capacity: nat, overflow: bool)
    requires Good(r, capacity)
    ensures Good(Step(r, Take, capacity, overflow), capacity)
  {
    hide Urgent, FirstUrgent, Conserved, Ordered, Choice, LettersOf;
    OrderedQueue(r);
    var c := Choice(LettersOf(r.queue), r.locked);
    if c.Some? {
      ChoiceIsFirst(r.queue, r.locked);
      DeliverConserves(r, c.value);
      DeliverKeepsOrder(r, c.value);
    }
  }

  /** The message taken is the first of its class. */
  lemma ChoiceIsFirst(queue: seq<Arrival>, locked: bool)
    requires Choice(LettersOf(queue), locked).Some?
    ensures var k := Choice(LettersOf(queue), locked).value;
            k < |queue| && forall j :: 0 <= j < k ==> !SameClass(queue[j], queue[k])
  {
    hide Urgent;
    var s := LettersOf(queue);
    assert forall j :: 0 <= j < |s| ==> s[j] == queue[j].letter;
  }

  function Delivering(r: Run, k: nat): Run
    requires k < |r.queue|
  {
    r.(queue := Without(r.queue, k), delivered := r.delivered + [r.queue[k]])
  }

  lemma DeliverConserves(r: Run, k: nat)
    requires Conserved(r) && k < |r.queue|
    ensures Conserved(Delivering(r, k))
  {
    assert r.queue == r.queue[..k] + [r.queue[k]] + r.queue[k + 1..];
  }

  lemma DeliverKeepsOrder(r: Run, k: nat)
    requires Ordered(r) && k < |r.queue| && forall j :: 0 <= j < k ==> !SameClass(r.queue[j], r.queue[k])
    ensures Ordered(Delivering(r, k))
  {
    hide Urgent, Increasing, ClassOrder;
    WithoutOne(r.queue, k);
    ClassOrderGrows(r.delivered, r.queue[k]);
  }

  lemma WithoutOne(s: seq<Arrival>, k: nat)
    requires Increasing(s) && k < |s|
    ensures var rest := Without(s, k);
            && Increasing(rest) && |rest| == |s| - 1 && (forall j :: 0 <= j < k ==> rest[j] == s[j])
            && forall j :: k <= j < |rest| ==> rest[j] == s[j + 1] && rest[j].number > s[k].number
  {
  }

  lemma ClassOrderGrows(s: seq<Arrival>, a: Arrival)
    requires ClassOrder(s) && forall i :: 0 <= i < |s| && SameClass(s[i], a) ==> s[i].number < a.number
    ensures ClassOrder(s + [a])
  {
    hide SameClass;
  }

  /** Whatever producers, consumer and lock do, in whatever order. */
  lemma {:induction false} RunKeeps(es: seq<Event>, capacity: nat, overflow: bool)
    ensures Good(RunOf(es, capacity, overflow), capacity)
  {
    hide Step, Urgent, FirstUrgent;
    if es != [] {
      RunKeeps(es[..|es| - 1], capacity, overflow);
      StepKeeps(RunOf(es[..|es| - 1], capacity, overflow), es[|es| - 1], capacity, overflow);
    } else {
      assert Good(IDLE, capacity);
    }
  }

  /** The last thing said about the lock is that it is on. */
  ghost predicate LockedAfter(es: seq<Event>) {
    exists i :: 0 <= i < |es| && es[i] == Lock(true) && forall j :: i < j < |es| ==> es[j] != Lock(false)
  }

  /** Only the last event can change it. */
  lemma LockedNext(es: seq<Event>, e: Event)
    ensures LockedAfter(es + [e]) <==> if e.Lock? then e.locked else LockedAfter(es)
  {
    var all := es + [e];
    if LockedAfter(es) && e != Lock(false) {
      var i :| 0 <= i < |es| && es[i] == Lock(true) && forall j :: i < j < |es| ==> es[j] != Lock(false);
      assert all[i] == Lock(true);
    }
    if e == Lock(true) { assert all[|es|] == Lock(true); }
    if LockedAfter(all) {
      var i :| 0 <= i < |all| && all[i] == Lock(true) && forall j :: i < j < |all| ==> all[j] != Lock(false);
      if i < |es| {
        assert es[i] == Lock(true);
        forall j | i < j < |es| ensures es[j] != Lock(false) { assert all[j] == es[j]; }
      }
      assert e == all[|es|];
    }
  }

  lemma {:induction false} LockIs(es: seq<Event>, capacity: nat, overflow: bool)
    ensures RunOf(es, capacity, overflow).locked <==> LockedAfter(es)
  {
    hide Pushed, Choice, LockedAfter;
    if es == [] {
      NeverLocked();
    } else {
      var before, last := es[..|es| - 1], es[|es| - 1];
      LockIs(before, capacity, overflow);
      LockedNext(before, last);
      assert before + [last] == es;
    }
  }

  lemma NeverLocked()
    ensures !LockedAfter([])
  {
  }

  /** Setting the lock does nothing else. */
  lemma LockOnly(es: seq<Event>, locked: bool, capacity: nat, overflow: bool)
    ensures var r, r' := RunOf(es, capacity, overflow), RunOf(es + [Lock(locked)], capacity, overflow);
            && r'.accepted == r.accepted && r'.queue == r.queue
            && r'.delivered == r.delivered && r'.dropped == r.dropped
  {
    hide RunOf;
    RunExtends(es, Lock(locked), capacity, overflow);
  }

  /** A message posted to a full queue is refused or, where overflow is allowed, pushes out the oldest; otherwise
      it is queued behind the others. Nothing else happens to it but that it is numbered. */
  lemma PostQueues(es: seq<Event>, letter: Letter, capacity: nat, overflow: bool)
    ensures var r, r' := RunOf(es, capacity, overflow), RunOf(es + [Post(letter)], capacity, overflow);
            if |r.queue| == capacity && !overflow then r' == r
            else
              && r'.delivered == r.delivered && |r'.accepted| == |r.accepted| + 1
              && var a := r'.accepted[|r.accepted|];
              && r'.accepted == r.accepted + [a] && a.letter.(sequence := letter.sequence) == letter
              && if |r.queue| < capacity then r'.queue == r.queue + [a] && r'.dropped == r.dropped
                 else exists b :: [b] + r'.queue == r.queue + [a] && r'.dropped == r.dropped + [b]
  {
    hide RunOf, Good;
    var r := RunOf(es, capacity, overflow);
    var r' := RunOf(es + [Post(letter)], capacity, overflow);
    RunExtends(es, Post(letter), capacity, overflow);
    RunKeeps(es, capacity, overflow);
    GoodCapacity(r, capacity);
    if |r.queue| == capacity && overflow {
      var a := r'.accepted[|r.accepted|];
      var b := (r.queue + [a])[0];
      assert [b] + r'.queue == r.queue + [a] && r'.dropped == r.dropped + [b];
    }
  }

  lemma GoodCapacity(r: Run, capacity: nat)
    requires Good(r, capacity)
    ensures |r.queue| <= capacity
  {
  }

  /** Reachable at rest: while the server is locked a Take delivers the earliest queued urgent message, or
      nothing when there is none; otherwise it delivers the earliest message of all. */
  lemma TakeDeliversEarliest(es: seq<Event>, capacity: nat, overflow: bool)
    ensures var r, r' := RunOf(es, capacity, overflow), RunOf(es + [Take], capacity, overflow);
            if forall a :: a in r.queue ==> LockedAfter(es) && !Urgent(a.letter) then r' == r
            else
              && r'.accepted == r.accepted && r'.dropped == r.dropped
              && |r'.delivered| == |r.delivered| + 1 && r'.delivered[..|r.delivered|] == r.delivered
              && var m := r'.delivered[|r.delivered|];
              && m in r.queue && (LockedAfter(es) ==> Urgent(m.letter))
              && forall a :: a in r.queue && a != m && (LockedAfter(es) ==> Urgent(a.letter)) ==> m.number < a.number
  {
    hide Urgent, FirstUrgent, RunOf, Conserved, SameClass, LockedAfter;
    var r := RunOf(es, capacity, overflow);
    LockIs(es, capacity, overflow);
    RunKeeps(es, capacity, overflow);
    RunExtends(es, Take, capacity, overflow);
    FirstUrgentMeans(r.queue);
  }

  lemma RunExtends(es: seq<Event>, e: Event, capacity: nat, overflow: bool)
    ensures RunOf(es + [e], capacity, overflow) == Step(RunOf(es, capacity, overflow), e, capacity, overflow)
  {
    hide Step;
    assert (es + [e])[..|es|] == es;
  }

  lemma FirstUrgentMeans(queue: seq<Arrival>)
    ensures var k := FirstUrgent(LettersOf(queue));
            && k <= |queue| && (k < |queue| ==> Urgent(queue[k].letter))
            && forall j :: 0 <= j < k ==> !Urgent(queue[j].letter)
  {
    hide Urgent;
    var s := LettersOf(queue);
    assert forall j :: 0 <= j < |s| ==> s[j] == queue[j].letter;
  }
}
