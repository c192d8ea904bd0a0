/**
 The key buffer of keyboard.c as a protocol between the interrupt handler and the reader. Each of
 enqueue_key and keyboard_get_char is cut at its accesses to the shared indices and slots, and any
 step of one side may fall between any two steps of the other.
 */
module KeyRing {
  const SIZE: nat := 256

  /** Where the producer stands: `next` is the head it computed when it checked for room. */
  datatype Producer = Resting | HasRoom(c: char, next: nat) | Stored(c: char, next: nat)

  /** Where the consumer stands. */
  datatype Consumer = Waiting | SawKey | Loaded(c: char)

  /** `accepted`, `delivered` and `dropped` record the history; the code has no such variables. */
  datatype State = State(slots: seq<char>, head: nat, tail: nat, producer: Producer, consumer: Consumer,
                         accepted: seq<char>, delivered: seq<char>, dropped: seq<char>)

  datatype Action =
    | Press(c: char)  // compute next_head and compare it with buf_tail
    | Store           // key_buffer[buf_head] = c
    | Publish         // buf_head = next_head
    | Look            // compare buf_head with buf_tail
    | Load            // c = key_buffer[buf_tail]
    | Advance         // buf_tail = (buf_tail + 1) % KEY_BUFFER_SIZE

  function Next(i: nat): nat { (i + 1) % SIZE }

  const EMPTY: State := State(seq(SIZE, _ => '\0'), 0, 0, Resting, Waiting, [], [], [])

  /** An action whose side is not at the matching point leaves the state as it is. */
  function Step(s: State, a: Action): (t: State)
    requires WellFormed(s)
    ensures WellFormed(t)
  {
    match a
    case Press(c) =>
      if !s.producer.Resting? then s
      else if Next(s.head) != s.tail then s.(producer := HasRoom(c, Next(s.head)))
      else s.(dropped := s.dropped + [c])
    case Store =>
      if !s.producer.HasRoom? then s
      else s.(slots := s.slots[s.head := s.producer.c], producer := Stored(s.producer.c, s.producer.next))
    case Publish =>
      if !s.producer.Stored? || s.producer.next >= SIZE then s
      else s.(head := s.producer.next, producer := Resting, accepted := s.accepted + [s.producer.c])
    case Look =>
      if !s.consumer.Waiting? || s.head == s.tail then s else s.(consumer := SawKey)
    case Load =>
      if !s.consumer.SawKey? then s else s.(consumer := Loaded(s.slots[s.tail]))
    case Advance =>
      if !s.consumer.Loaded? then s
      else s.(tail := Next(s.tail), consumer := Waiting, delivered := s.delivered + [s.consumer.c])
  }

  /** How many keys are published and not yet taken. */
  function Pending(s: State): (n: nat)
    requires s.head < SIZE && s.tail < SIZE
    ensures n < SIZE
  {
    if s.tail <= s.head then s.head - s.tail else s.head + SIZE - s.tail
  }

  /** The slot `i` places after the tail. */
  function SlotAt(tail: nat, i: nat): nat
    requires tail < SIZE && i < SIZE
  {
    if tail + i < SIZE then tail + i else tail + i - SIZE
  }

  ghost predicate WellFormed(s: State) { |s.slots| == SIZE && s.head < SIZE && s.tail < SIZE }

  /** The slot `i` places after the tail holds the `i`th accepted key that is not delivered yet. */
  ghost predicate Keeps(s: State, i: nat)
    requires WellFormed(s) && i < SIZE
  {
    |s.delivered| + i < |s.accepted| && s.slots[SlotAt(s.tail, i)] == s.accepted[|s.delivered| + i]
  }

  ghost predicate Inv(s: State) {
    && WellFormed(s)
    && |s.accepted| == |s.delivered| + Pending(s)
    && s.delivered <= s.accepted
    && (forall i | 0 <= i < Pending(s) :: Keeps(s, i))
    && (!s.producer.Resting? ==> s.producer.next == Next(s.head) && s.producer.next != s.tail)
    && (s.producer.Stored? ==> s.slots[s.head] == s.producer.c)
    && (!s.consumer.Waiting? ==> s.head != s.tail)
    && (s.consumer.Loaded? ==> s.consumer.c == s.slots[s.tail])
  }

  lemma EmptyHasInv()
    ensures Inv(EMPTY)
  {}

  lemma StoreKeepsInv(s: State)
    requires Inv(s) && s.producer.HasRoom?
    ensures Inv(Step(s, Store))
  {
    var t := Step(s, Store);
    forall i | 0 <= i < Pending(t) ensures Keeps(t, i) { assert Keeps(s, i) && SlotAt(s.tail, i) != s.head; }
  }

  lemma PublishKeepsInv(s: State)
    requires Inv(s) && s.producer.Stored?
    ensures Inv(Step(s, Publish))
  {
    var t := Step(s, Publish);
    assert Pending(t) == Pending(s) + 1 && SlotAt(s.tail, Pending(s)) == s.head;
    forall i | 0 <= i < Pending(t) ensures Keeps(t, i) { assert i == Pending(s) || Keeps(s, i); }
  }

  lemma AdvanceKeepsInv(s: State)
    requires Inv(s) && s.consumer.Loaded?
    ensures Inv(Step(s, Advance))
  {
    var t := Step(s, Advance);
    assert Pending(t) == Pending(s) - 1 && Keeps(s, 0);
    forall i | 0 <= i < Pending(t) ensures Keeps(t, i) {
      assert Keeps(s, i + 1) && SlotAt(t.tail, i) == SlotAt(s.tail, i + 1);
    }
  }

  /** Every step of either side keeps the invariant. */
  lemma StepKeepsInv(s: State, a: Action)
    requires Inv(s)
    ensures Inv(Step(s, a))
  {
    match a {
      case Store => if s.producer.HasRoom? { StoreKeepsInv(s); }
      case Publish => if s.producer.Stored? { PublishKeepsInv(s); }
      case Advance => if s.consumer.Loaded? { AdvanceKeepsInv(s); }
      case _ =>
        var t := Step(s, a);
        forall i | 0 <= i < Pending(t) ensures Keeps(t, i) { assert Keeps(s, i); }
    }
  }

  function Run(s: State, actions: seq<Action>): (t: State)
    requires WellFormed(s)
    ensures WellFormed(t)
    decreases |actions|
  {
    if actions == [] then s else Run(Step(s, actions[0]), actions[1..])
  }

  /** The keys waiting in the buffer, oldest first. */
  function Queue(s: State): seq<char>
    requires WellFormed(s)
  {
    seq(Pending(s), i requires 0 <= i < Pending(s) => s.slots[SlotAt(s.tail, i)])
  }

  lemma AcceptedSplits(s: State)
    requires Inv(s)
    ensures s.accepted == s.delivered + Queue(s)
  {
    forall i | 0 <= i < Pending(s) ensures Queue(s)[i] == s.accepted[|s.delivered| + i] { assert Keeps(s, i); }
  }

  lemma FrontOfQueue(s: State)
    requires Inv(s) && s.head != s.tail
    ensures Queue(s) != [] && |s.delivered| < |s.accepted| && Queue(s)[0] == s.slots[s.tail] == s.accepted[|s.delivered|]
  {
    assert Keeps(s, 0);
  }

  /** Any interleaving: every accepted key is delivered once, in order, or still waiting; at most 255 wait. */
  lemma {:induction false} NothingLostOrReordered(s: State, actions: seq<Action>)
    requires Inv(s)
    ensures var t := Run(s, actions);
            Inv(t) && t.accepted == t.delivered + Queue(t) && |Queue(t)| <= 255
    decreases |actions|
  {
    AcceptedSplits(s);
    if actions != [] {
      StepKeepsInv(s, actions[0]);
      NothingLostOrReordered(Step(s, actions[0]), actions[1..]);
    }
  }

  /** So from the empty ring on, every reachable state accounts for every key. */
  lemma RunsFromEmpty(actions: seq<Action>)
    ensures var t := Run(EMPTY, actions);
            Inv(t) && t.accepted == t.delivered + Queue(t) && |Queue(t)| <= 255
  {
    EmptyHasInv();
    NothingLostOrReordered(EMPTY, actions);
  }

  /** A key is dropped exactly when the handler finds 255 keys waiting. */
  lemma DroppedOnlyWhenFull(s: State, c: char)
    requires Inv(s) && s.producer.Resting?
    ensures Step(s, Press(c)).dropped == s.dropped + [c] <==> Pending(s) == 255
  {}

  /** While the consumer reads a slot, no step of the producer writes it. */
  lemma SlotBeingReadIsSafe(s: State, a: Action)
    requires Inv(s) && !s.consumer.Waiting? && (a.Press? || a.Store? || a.Publish?)
    ensures Step(s, a).slots[s.tail] == s.slots[s.tail] && Step(s, a).tail == s.tail
  {}

  /** The handler and the reader run without interruption. */
  function Enqueue(s: State, c: char): (t: State)
    requires WellFormed(s)
    ensures WellFormed(t)
  {
    Run(s, [Press(c), Store, Publish])
  }

  function Dequeue(s: State): (t: State)
    requires WellFormed(s)
    ensures WellFormed(t)
  {
    Run(s, [Look, Load, Advance])
  }

  lemma RunThree(s: State, a: Action, b: Action, c: Action)
    requires WellFormed(s)
    ensures Run(s, [a, b, c]) == Step(Step(Step(s, a), b), c)
  {
    hide Step;
    assert [a, b, c][1..] == [b, c] && [b, c][1..] == [c] && [c][1..] == [];
    assert Run(Step(Step(s, a), b), [c]) == Step(Step(Step(s, a), b), c);
  }

  lemma EnqueueResult(s: State, c: char)
    requires WellFormed(s) && s.producer.Resting?
    ensures Enqueue(s, c) ==
            if Next(s.head) == s.tail then s.(dropped := s.dropped + [c])
            else s.(slots := s.slots[s.head := c], head := Next(s.head), accepted := s.accepted + [c])
  {
    RunThree(s, Press(c), Store, Publish);
  }

  lemma DequeueResult(s: State)
    requires WellFormed(s) && s.consumer.Waiting?
    ensures Dequeue(s) ==
            if s.head == s.tail then s
            else s.(tail := Next(s.tail), delivered := s.delivered + [s.slots[s.tail]])
  {}

  /** Uninterrupted, the handler appends to a queue bounded by 255 keys. */
  lemma EnqueueAppends(s: State, c: char)
    requires Inv(s) && s.producer.Resting?
    ensures var e := Enqueue(s, c);
            Inv(e) && Queue(e) == if |Queue(s)| < 255 then Queue(s) + [c] else Queue(s)
  {
    var e := Enqueue(s, c);
    EnqueueResult(s, c);
    AcceptedSplits(s);
    NothingLostOrReordered(s, [Press(c), Store, Publish]);
    hide Inv, Run, Step;
    assert e.delivered == s.delivered;
    assert e.accepted == if |Queue(s)| < 255 then s.accepted + [c] else s.accepted;
  }

  /** Uninterrupted, the reader removes from the front. */
  lemma DequeueRemovesFirst(s: State)
    requires Inv(s) && s.consumer.Waiting?
    ensures var d := Dequeue(s);
            Inv(d) && if Queue(s) == [] then d == s
                      else d.delivered == s.delivered + [Queue(s)[0]] && Queue(d) == Queue(s)[1..]
  {
    var d := Dequeue(s);
    DequeueResult(s);
    AcceptedSplits(s);
    NothingLostOrReordered(s, [Look, Load, Advance]);
    hide Inv, Run, Step;
    assert d.accepted == s.accepted;
    if Queue(s) != [] {
      assert d.delivered == s.delivered + [Queue(s)[0]];
      assert d.delivered + Queue(d) == s.delivered + ([Queue(s)[0]] + Queue(d));
      assert d.accepted[|s.delivered|..] == Queue(s);
    }
  }
}
