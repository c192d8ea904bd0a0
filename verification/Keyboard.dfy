/** keyboard.c as it runs: the ring in place, the interrupt handler, and the line editor. */
module Keyboard {
  import opened Basics
  import opened KeyRing

  const BACKSPACE: char := '\U{0008}'
  const ESCAPE: char := '\U{001B}'

  /** Scan codes of key presses, US layout; '\0' where a key has no character. */
  const SCANCODE_TO_ASCII: seq<char> :=
    ['\0', ESCAPE] + "1234567890-=" + [BACKSPACE] +
    "\tqwertyuiop[]\n" +
    ['\0'] + "asdfghjkl;'`" + ['\0'] +
    "\\zxcvbnm,./" + ['\0', '*', '\0', ' ']

  /** The character of a scan code; '\0' for releases, unknown codes and keys without one. */
  function Character(scancode: byte): char {
    if scancode < 0x80 && scancode < |SCANCODE_TO_ASCII| then SCANCODE_TO_ASCII[scancode] else '\0'
  }

  /** The main block of the keyboard, row by row: the upper two rows, */
  lemma UpperScanCodes(code: byte)
    ensures code == 0x01 ==> Character(code) as int == 27
    ensures 0x02 <= code <= 0x0D ==> Character(code) == "1234567890-="[code - 0x02]
    ensures code == 0x0E ==> Character(code) as int == 8
    ensures code == 0x0F ==> Character(code) as int == 9
    ensures 0x10 <= code <= 0x1B ==> Character(code) == "qwertyuiop[]"[code - 0x10]
    ensures code == 0x1C ==> Character(code) as int == 10
  {}

  /** the lower two rows, */
  lemma LowerScanCodes(code: byte)
    ensures 0x1E <= code <= 0x29 ==> Character(code) == "asdfghjkl;'`"[code - 0x1E]
    ensures code == 0x2B ==> Character(code) as int == 92
    ensures 0x2C <= code <= 0x35 ==> Character(code) == "zxcvbnm,./"[code - 0x2C]
    ensures code == 0x37 ==> Character(code) == '*'
    ensures code == 0x39 ==> Character(code) == ' '
  {}

  /** and the codes without a character: shift, control and alt keys, and whatever is beyond. */
  lemma SilentScanCodes(code: byte)
    ensures code in {0x00, 0x1D, 0x2A, 0x36, 0x38} || code >= 0x3A <==> Character(code) == '\0'
  {}

  // ---------------------------------------------------------------- interrupts and reads taking turns

  function Handled(s: State, scancode: byte): (t: State)
    requires WellFormed(s)
    ensures WellFormed(t)
  {
    if Character(scancode) != '\0' then Enqueue(s, Character(scancode)) else s
  }

  /** The interrupts of a batch, one after the other. */
  function HandledAll(s: State, batch: seq<byte>): (t: State)
    requires WellFormed(s)
    ensures WellFormed(t)
    decreases |batch|
  {
    if batch == [] then s else HandledAll(Handled(s, batch[0]), batch[1..])
  }

  /** Interrupts, then a read, as often as there are batches. */
  function Polled(s: State, schedule: seq<seq<byte>>): (t: State)
    requires WellFormed(s)
    ensures WellFormed(t)
    decreases |schedule|
  {
    if schedule == [] then s else Polled(Dequeue(HandledAll(s, schedule[0])), schedule[1..])
  }

  /** The characters that a batch of scan codes stands for. */
  function Characters(batch: seq<byte>): seq<char> {
    if batch == [] then []
    else (if Character(batch[0]) != '\0' then [Character(batch[0])] else []) + Characters(batch[1..])
  }

  /** Neither side is in the middle of anything. */
  ghost predicate Idle(s: State) { Inv(s) && s.producer.Resting? && s.consumer.Waiting? }

  /** From `s` to `t` nothing is dropped, `taken` is delivered, and `added` is appended to what waits. */
  ghost predicate Moved(s: State, t: State, added: seq<char>, taken: seq<char>) {
    && Idle(s) && Idle(t) && t.dropped == s.dropped
    && t.delivered == s.delivered + taken && taken + Queue(t) == Queue(s) + added
  }

  lemma MovedBoth(s: State, o: State, t: State, a: seq<char>, k: seq<char>, b: seq<char>, l: seq<char>)
    requires Moved(s, o, a, k) && Moved(o, t, b, l)
    ensures Moved(s, t, a + b, k + l)
  {
    assert WellFormed(s) && WellFormed(o) && WellFormed(t);
    hide Idle, Queue;
    assert s.delivered + k + l == s.delivered + (k + l);
    calc {
      k + l + Queue(t);
      k + (l + Queue(t));
      k + (Queue(o) + b);
      (k + Queue(o)) + b;
      Queue(s) + (a + b);
    }
  }

  lemma MovedNot(s: State)
    requires Idle(s)
    ensures Moved(s, s, [], [])
  {}

  lemma MovedByHandler(s: State, code: byte)
    requires Idle(s) && |Queue(s)| + |Characters([code])| <= 255
    ensures Moved(s, Handled(s, code), Characters([code]), [])
  {
    var c := Character(code);
    assert [code][1..] == [] && Characters([code]) == if c != '\0' then [c] else [];
    if c != '\0' {
      EnqueueResult(s, c);
      EnqueueAppends(s, c);
      AcceptedSplits(s);
      hide Inv, Enqueue, Queue;
    }
  }

  lemma MovedByRead(s: State)
    requires Idle(s) && |Queue(s)| <= 1
    ensures Moved(s, Dequeue(s), [], Queue(s)) && Queue(Dequeue(s)) == []
  {
    DequeueResult(s);
    DequeueRemovesFirst(s);
    hide Inv, Dequeue, Queue;
    assert Queue(s) == [] || Queue(s) == [Queue(s)[0]];
  }

  /** While there is room for all of a batch nothing of it is dropped. */
  lemma {:induction false} RoomForAll(s: State, batch: seq<byte>)
    requires Idle(s) && |Queue(s)| + |Characters(batch)| <= 255
    ensures Moved(s, HandledAll(s, batch), Characters(batch), [])
    decreases |batch|
  {
    if batch == [] {
      MovedNot(s);
    } else {
      var h := Handled(s, batch[0]);
      assert [batch[0]][1..] == [] && Characters(batch) == Characters([batch[0]]) + Characters(batch[1..]);
      MovedByHandler(s, batch[0]);
      hide Idle, Handled, Queue, Characters;
      RoomForAll(h, batch[1..]);
      hide Moved;
      MovedBoth(s, h, HandledAll(h, batch[1..]), Characters([batch[0]]), [], Characters(batch[1..]), []);
      var none: seq<char> := [];
      assert none + none == none;
    }
  }

  /** All characters of a schedule in the order of its interrupts. */
  function AllCharacters(schedule: seq<seq<byte>>): seq<char> {
    if schedule == [] then [] else Characters(schedule[0]) + AllCharacters(schedule[1..])
  }

  lemma KeepsUpOnce(s: State, batch: seq<byte>)
    requires Idle(s) && Queue(s) == [] && |Characters(batch)| <= 1
    ensures var d := Dequeue(HandledAll(s, batch));
            Moved(s, d, Characters(batch), Characters(batch)) && Queue(d) == []
  {
    var h := HandledAll(s, batch);
    RoomForAll(s, batch);
    hide Idle, HandledAll, Dequeue, Queue, Characters;
    assert [] + Queue(h) == Queue(h) && [] + Characters(batch) == Characters(batch);
    MovedByRead(h);
    hide Moved;
    MovedBoth(s, h, Dequeue(h), Characters(batch), [], [], Characters(batch));
    assert Characters(batch) + [] == Characters(batch) == [] + Characters(batch);
  }

  /**
   A reader that keeps up: with at most one key before each read of an empty ring, exactly the typed
   characters are delivered, in order, and none is dropped.
   */
  lemma {:induction false} KeepingUp(s: State, schedule: seq<seq<byte>>)
    requires Idle(s) && Queue(s) == [] && forall b | b in schedule :: |Characters(b)| <= 1
    ensures Moved(s, Polled(s, schedule), AllCharacters(schedule), AllCharacters(schedule))
    ensures Queue(Polled(s, schedule)) == []
    decreases |schedule|
  {
    if schedule == [] {
      MovedNot(s);
    } else {
      assert schedule[0] in schedule;
      KeepsUpOnce(s, schedule[0]);
      var d := Dequeue(HandledAll(s, schedule[0]));
      assert Idle(d);
      hide Idle, Dequeue, HandledAll, Queue, Characters, Moved;
      KeepingUp(d, schedule[1..]);
      var c, r := Characters(schedule[0]), AllCharacters(schedule[1..]);
      MovedBoth(s, d, Polled(d, schedule[1..]), c, c, r, r);
    }
  }

  lemma {:induction false} HandledAllSnoc(s: State, batch: seq<byte>, code: byte)
    requires WellFormed(s)
    ensures HandledAll(s, batch + [code]) == Handled(HandledAll(s, batch), code)
    decreases |batch|
  {
    hide Handled;
    if batch == [] {
      assert [code][1..] == [] && batch + [code] == [code];
      assert HandledAll(Handled(s, code), []) == Handled(s, code);
    } else {
      assert (batch + [code])[1..] == batch[1..] + [code];
      HandledAllSnoc(Handled(s, batch[0]), batch[1..], code);
    }
  }

  // ---------------------------------------------------------------- interrupts in the middle of a read

  /** One poll of the reader with the interrupts that come before it and between its accesses to the ring. */
  datatype Cut = Cut(before: seq<byte>, afterLook: seq<byte>, afterLoad: seq<byte>)

  /** The reader's three steps with whole handler runs in between. Interrupts behind the last one precede the next poll. */
  function CutPoll(s: State, p: Cut): (t: State)
    requires WellFormed(s)
    ensures WellFormed(t)
  {
    var looked := Step(HandledAll(s, p.before), Look);
    var loaded := Step(HandledAll(looked, p.afterLook), Load);
    Step(HandledAll(loaded, p.afterLoad), Advance)
  }

  function CutPolled(s: State, cuts: seq<Cut>): (t: State)
    requires WellFormed(s)
    ensures WellFormed(t)
    decreases |cuts|
  {
    if cuts == [] then s else CutPolled(CutPoll(s, cuts[0]), cuts[1..])
  }

  lemma {:induction false} HandledAllJoins(s: State, a: seq<byte>, b: seq<byte>)
    requires WellFormed(s)
    ensures HandledAll(s, a + b) == HandledAll(HandledAll(s, a), b)
    decreases |a|
  {
    hide Handled;
    if a == [] {
      assert a + b == b;
    } else {
      assert (a + b)[1..] == a[1..] + b;
      HandledAllJoins(Handled(s, a[0]), a[1..], b);
    }
  }

  lemma HandledKeeps(s: State, code: byte)
    requires Idle(s)
    ensures var t := Handled(s, code);
            && Idle(t) && t.tail == s.tail
            && (s.head != s.tail ==> t.head != t.tail && t.slots[t.tail] == s.slots[s.tail])
  {
    var c := Character(code);
    if c != '\0' {
      EnqueueResult(s, c);
      EnqueueAppends(s, c);
      hide Inv, Enqueue, Queue;
    }
  }

  /** Handlers leave the tail alone, and while a key waits its slot as well. */
  lemma {:induction false} HandledAllKeeps(s: State, batch: seq<byte>)
    requires Idle(s)
    ensures var t := HandledAll(s, batch);
            && Idle(t) && t.tail == s.tail
            && (s.head != s.tail ==> t.head != t.tail && t.slots[t.tail] == s.slots[s.tail])
    decreases |batch|
  {
    if batch != [] {
      HandledKeeps(s, batch[0]);
      hide Idle, Handled;
      HandledAllKeeps(Handled(s, batch[0]), batch[1..]);
    }
  }

  /** Handlers do not look at where the reader stands. */
  lemma {:induction false} HandledIgnoresReader(s: State, x: Consumer, batch: seq<byte>)
    requires WellFormed(s) && s.producer.Resting?
    ensures HandledAll(s.(consumer := x), batch) == HandledAll(s, batch).(consumer := x)
    decreases |batch|
  {
    if batch != [] {
      var c := Character(batch[0]);
      if c != '\0' {
        EnqueueResult(s, c);
        EnqueueResult(s.(consumer := x), c);
      }
      hide Enqueue, Character;
      HandledIgnoresReader(Handled(s, batch[0]), x, batch[1..]);
    }
  }

  /** With a key waiting the interrupts of a poll are as good as before it; with none, the late ones come after it. */
  ghost function PollOutcome(s: State, p: Cut): State
    requires WellFormed(s)
  {
    var a := HandledAll(s, p.before);
    if a.head == a.tail then HandledAll(HandledAll(Dequeue(a), p.afterLook), p.afterLoad)
    else Dequeue(HandledAll(HandledAll(a, p.afterLook), p.afterLoad))
  }

  lemma CutEmptyPoll(a: State, p: seq<byte>, q: seq<byte>)
    requires Idle(a) && a.head == a.tail
    ensures Step(HandledAll(Step(HandledAll(Step(a, Look), p), Load), q), Advance) == HandledAll(HandledAll(Dequeue(a), p), q)
  {
    DequeueResult(a);
    HandledAllKeeps(a, p);
    HandledAllKeeps(HandledAll(a, p), q);
    hide HandledAll, Dequeue, Inv;
  }

  lemma CutFullPoll(a: State, p: seq<byte>, q: seq<byte>)
    requires Idle(a) && a.head != a.tail
    ensures Step(HandledAll(Step(HandledAll(Step(a, Look), p), Load), q), Advance) == Dequeue(HandledAll(HandledAll(a, p), q))
  {
    var b := HandledAll(a, p);
    var e := HandledAll(b, q);
    HandledAllKeeps(a, p);
    HandledAllKeeps(b, q);
    HandledIgnoresReader(a, SawKey, p);
    HandledIgnoresReader(b, Loaded(b.slots[b.tail]), q);
    DequeueResult(e);
    hide HandledAll, Dequeue, Inv;
  }

  /** A poll that interrupts cut into anywhere is one that they come before and after. */
  lemma InterruptedPollIsAtomic(s: State, p: Cut)
    requires Idle(s)
    ensures CutPoll(s, p) == PollOutcome(s, p) && Idle(CutPoll(s, p))
  {
    var a := HandledAll(s, p.before);
    HandledAllKeeps(s, p.before);
    hide HandledAll, Dequeue, Step, Idle;
    if a.head == a.tail {
      CutEmptyPoll(a, p.afterLook, p.afterLoad);
      DequeueIsIdle(a);
      HandledAllKeeps(Dequeue(a), p.afterLook);
      HandledAllKeeps(HandledAll(Dequeue(a), p.afterLook), p.afterLoad);
    } else {
      CutFullPoll(a, p.afterLook, p.afterLoad);
      HandledAllKeeps(a, p.afterLook);
      HandledAllKeeps(HandledAll(a, p.afterLook), p.afterLoad);
      DequeueIsIdle(HandledAll(HandledAll(a, p.afterLook), p.afterLoad));
    }
  }

  lemma QueueIsEmptyIff(s: State)
    requires WellFormed(s)
    ensures Queue(s) == [] <==> s.head == s.tail
  {}

  lemma DequeueEmpty(s: State)
    requires Idle(s) && s.head == s.tail
    ensures Dequeue(s) == s
  {
    DequeueResult(s);
  }

  lemma DequeueIsIdle(s: State)
    requires Idle(s)
    ensures Idle(Dequeue(s))
  {
    DequeueResult(s);
    DequeueRemovesFirst(s);
    hide Inv, Dequeue, Queue;
  }

  // ---------------------------------------------------------------- any interleaving is a schedule

  function Flat(schedule: seq<seq<byte>>): seq<byte> {
    if schedule == [] then [] else schedule[0] + Flat(schedule[1..])
  }

  function FlatCuts(cuts: seq<Cut>): seq<byte> {
    if cuts == [] then [] else cuts[0].before + cuts[0].afterLook + cuts[0].afterLoad + FlatCuts(cuts[1..])
  }

  lemma PolledFirst(s: State, batch: seq<byte>, schedule: seq<seq<byte>>)
    requires WellFormed(s)
    ensures Polled(s, [batch] + schedule) == Polled(Dequeue(HandledAll(s, batch)), schedule)
    ensures Flat([batch] + schedule) == batch + Flat(schedule)
  {
    assert ([batch] + schedule)[0] == batch && ([batch] + schedule)[1..] == schedule;
    hide HandledAll, Dequeue;
  }

  /** Interrupts before a schedule join its first batch. */
  lemma PolledPrepends(d: State, late: seq<byte>, batch: seq<byte>, schedule: seq<seq<byte>>)
    requires WellFormed(d)
    ensures Polled(HandledAll(d, late), [batch] + schedule) == Polled(d, [late + batch] + schedule)
    ensures Flat([late + batch] + schedule) == late + Flat([batch] + schedule)
  {
    hide HandledAll, Dequeue, Polled, Flat;
    PolledFirst(HandledAll(d, late), batch, schedule);
    PolledFirst(d, late + batch, schedule);
    HandledAllJoins(d, late, batch);
    assert late + batch + Flat(schedule) == late + (batch + Flat(schedule));
  }

  /** Late interrupts, and then polls: the same as polls whose batches take them in. */
  lemma LateJoins(d: State, late: seq<byte>, schedule: seq<seq<byte>>, rest: seq<byte>)
    returns (schedule': seq<seq<byte>>, rest': seq<byte>)
    requires WellFormed(d)
    ensures |schedule'| == |schedule| && Flat(schedule') + rest' == late + (Flat(schedule) + rest)
    ensures HandledAll(Polled(d, schedule'), rest') == HandledAll(Polled(HandledAll(d, late), schedule), rest)
  {
    hide HandledAll;
    if schedule == [] {
      schedule', rest' := [], late + rest;
      HandledAllJoins(d, late, rest);
      assert [] + rest' == rest' && [] + rest == rest;
    } else {
      hide Polled, Flat;
      schedule', rest' := [late + schedule[0]] + schedule[1..], rest;
      PolledPrepends(d, late, schedule[0], schedule[1..]);
      assert [schedule[0]] + schedule[1..] == schedule;
      assert late + Flat(schedule) + rest == late + (Flat(schedule) + rest);
    }
  }

  /**
   Any placement of interrupts, inside polls or between them, comes to the same as one between polls only:
   the same handlers in the same order, as many polls, and what arrived too late for the last poll.
   */
  lemma {:induction false} CutsAreSchedule(s: State, cuts: seq<Cut>) returns (schedule: seq<seq<byte>>, rest: seq<byte>)
    requires Idle(s)
    ensures |schedule| == |cuts| && Flat(schedule) + rest == FlatCuts(cuts)
    ensures CutPolled(s, cuts) == HandledAll(Polled(s, schedule), rest)
    decreases |cuts|
  {
    hide HandledAll, Polled, Dequeue, Flat, CutPoll, PollOutcome, Idle;
    if cuts == [] {
      schedule, rest := [], [];
      NothingScheduled(s);
    } else {
      var p := cuts[0];
      IdleIsWellFormed(s);
      InterruptedPollIsAtomic(s, p);
      schedule, rest := CutsAreSchedule(CutPoll(s, p), cuts[1..]);
      schedule, rest := CutJoins(s, p, FlatCuts(cuts[1..]), CutPolled(s, cuts), schedule, rest);
      assert p.before + (p.afterLook + p.afterLoad) + FlatCuts(cuts[1..]) == FlatCuts(cuts);
    }
  }

  lemma NothingScheduled(s: State)
    requires Idle(s)
    ensures HandledAll(Polled(s, []), []) == s && Flat([]) + [] == []
  {}

  lemma IdleIsWellFormed(s: State)
    requires Idle(s)
    ensures WellFormed(s)
  {}

  /** One more poll in front of a schedule. */
  lemma CutJoins(s: State, p: Cut, flat: seq<byte>, t: State, schedule: seq<seq<byte>>, rest: seq<byte>)
    returns (schedule': seq<seq<byte>>, rest': seq<byte>)
    requires WellFormed(s) && Flat(schedule) + rest == flat && t == HandledAll(Polled(PollOutcome(s, p), schedule), rest)
    ensures |schedule'| == |schedule| + 1 && Flat(schedule') + rest' == p.before + (p.afterLook + p.afterLoad) + flat
    ensures t == HandledAll(Polled(s, schedule'), rest')
  {
    hide HandledAll, Polled, Dequeue, Flat;
    var a := HandledAll(s, p.before);
    if a.head == a.tail {
      HandledAllJoins(Dequeue(a), p.afterLook, p.afterLoad);
      schedule', rest' := EmptyJoins(s, p.before, p.afterLook + p.afterLoad, schedule, rest);
    } else {
      HandledAllJoins(a, p.afterLook, p.afterLoad);
      schedule', rest' := FullJoins(s, p.before, p.afterLook + p.afterLoad, schedule, rest);
    }
  }

  lemma EmptyJoins(s: State, early: seq<byte>, late: seq<byte>, schedule: seq<seq<byte>>, rest: seq<byte>)
    returns (schedule': seq<seq<byte>>, rest': seq<byte>)
    requires WellFormed(s)
    ensures |schedule'| == |schedule| + 1 && Flat(schedule') + rest' == early + late + (Flat(schedule) + rest)
    ensures HandledAll(Polled(s, schedule'), rest') ==
            HandledAll(Polled(HandledAll(Dequeue(HandledAll(s, early)), late), schedule), rest)
  {
    hide HandledAll, Polled, Dequeue, Flat;
    var later, rest0 := LateJoins(Dequeue(HandledAll(s, early)), late, schedule, rest);
    PolledFirst(s, early, later);
    schedule', rest' := [early] + later, rest0;
    assert early + Flat(later) + rest' == early + (Flat(later) + rest');
    assert early + late + (Flat(schedule) + rest) == early + (late + (Flat(schedule) + rest));
  }

  lemma FullJoins(s: State, early: seq<byte>, late: seq<byte>, schedule: seq<seq<byte>>, rest: seq<byte>)
    returns (schedule': seq<seq<byte>>, rest': seq<byte>)
    requires WellFormed(s)
    ensures |schedule'| == |schedule| + 1 && Flat(schedule') + rest' == early + late + (Flat(schedule) + rest)
    ensures HandledAll(Polled(s, schedule'), rest') ==
            HandledAll(Polled(Dequeue(HandledAll(HandledAll(s, early), late)), schedule), rest)
  {
    hide HandledAll, Polled, Dequeue, Flat;
    HandledAllJoins(s, early, late);
    PolledFirst(s, early + late, schedule);
    schedule', rest' := [early + late] + schedule, rest;
    assert early + late + Flat(schedule) + rest == early + late + (Flat(schedule) + rest);
  }

  lemma {:induction false} CutPolledSnoc(s: State, cuts: seq<Cut>, p: Cut)
    requires WellFormed(s)
    ensures CutPolled(s, cuts + [p]) == CutPoll(CutPolled(s, cuts), p)
    decreases |cuts|
  {
    hide CutPoll;
    if cuts == [] {
      assert [p][1..] == [] && cuts + [p] == [p];
      assert CutPolled(CutPoll(s, p), []) == CutPoll(s, p);
    } else {
      assert (cuts + [p])[1..] == cuts[1..] + [p];
      CutPolledSnoc(CutPoll(s, cuts[0]), cuts[1..], p);
    }
  }

  ghost predicate NoNuls(s: seq<char>) { forall i | 0 <= i < |s| :: s[i] != '\0' }

  lemma NoNulsSnoc(s: seq<char>, c: char)
    requires NoNuls(s) && c != '\0'
    ensures NoNuls(s + [c])
  {}

  class Ring {
    const buffer: array<char>
    var head: nat
    var tail: nat
    ghost var accepted: seq<char>
    ghost var delivered: seq<char>
    ghost var dropped: seq<char>

    /** The protocol state between two calls. */
    ghost function View(): State
      reads this, buffer
    {
      State(buffer[..], head, tail, Resting, Waiting, accepted, delivered, dropped)
    }

    ghost predicate Valid()
      reads this, buffer
    {
      Inv(View()) && NoNuls(accepted)
    }

    constructor ()
      ensures Valid() && fresh(buffer) && Queue(View()) == []
    {
      buffer := new char[SIZE](_ => '\0');
      head, tail := 0, 0;
      accepted, delivered, dropped := [], [], [];
    }

    /** enqueue_key: the uninterrupted producer. */
    method EnqueueKey(c: char)
      requires Valid() && c != '\0'
      modifies this, buffer
      ensures Valid() && View() == Enqueue(old(View()), c) && delivered == old(delivered)
    {
      ghost var s := View();
      EnqueueResult(s, c);
      EnqueueAppends(s, c);
      NoNulsSnoc(accepted, c);
      hide Inv, Run, Step, Enqueue, Queue, NoNuls;
      var nextHead := (head + 1) % SIZE;
      if nextHead != tail {
        buffer[head] := c;
        assert buffer[..] == s.slots[s.head := c];
        head := nextHead;
        accepted := accepted + [c];
      } else {
        dropped := dropped + [c];
      }
    }

    /** keyboard_get_char: the uninterrupted reader; '\0' means that no key is waiting, and only that. */
    method GetChar() returns (c: char)
      requires Valid()
      modifies this
      ensures Valid() && View() == Dequeue(old(View()))
      ensures c == if Queue(old(View())) == [] then '\0' else Queue(old(View()))[0]
      ensures c == '\0' <==> Queue(old(View())) == []
      ensures delivered == if c == '\0' then old(delivered) else old(delivered) + [c]
    {
      ghost var s := View();
      DequeueResult(s);
      QueueIsEmptyIff(s);
      hide Inv, Run, Step, Dequeue, Queue;
      if head == tail { return '\0'; }
      c := buffer[tail];
      Advance(c);
    }

    /** The last of the reader's steps; the key that it has loaded is no NUL. */
    method Advance(c: char)
      requires Valid() && head != tail && c == buffer[tail]
      modifies this`tail, this`delivered
      ensures Valid() && View() == Dequeue(old(View())) && c != '\0'
      ensures Queue(old(View())) != [] && c == Queue(old(View()))[0] && delivered == old(delivered) + [c]
    {
      ghost var s := View();
      DequeueResult(s);
      DequeueRemovesFirst(s);
      FrontOfQueue(s);
      hide Inv, Run, Step, Dequeue, Queue;
      tail := (tail + 1) % SIZE;
      delivered := delivered + [c];
    }

    /** keyboard_get_char with interrupts before it and between its accesses to the ring. */
    method InterruptedGetChar(p: Cut) returns (c: char)
      requires Valid()
      modifies this, buffer
      ensures Valid() && View() == CutPoll(old(View()), p)
      ensures delivered == if c == '\0' then old(delivered) else old(delivered) + [c]
    {
      InterruptedPollIsAtomic(View(), p);
      hide Inv, HandledAll, Dequeue, CutPoll, Queue;
      Handlers(p.before);
      if head == tail {
        DequeueEmpty(View());
        Handlers(p.afterLook);
        Handlers(p.afterLoad);
        return '\0';
      }
      HandledAllKeeps(View(), p.afterLook);
      Handlers(p.afterLook);
      c := buffer[tail];
      HandledAllKeeps(View(), p.afterLoad);
      Handlers(p.afterLoad);
      Advance(c);
    }

    /** keyboard_handler: key releases, unknown codes and keys without a character are ignored. */
    method Handler(scancode: byte)
      requires Valid()
      modifies this, buffer
      ensures Valid()
      ensures View() == Handled(old(View()), scancode) && delivered == old(delivered)
    {
      if scancode < 0x80 {
        if scancode < |SCANCODE_TO_ASCII| {
          var ascii := SCANCODE_TO_ASCII[scancode];
          if ascii != '\0' { EnqueueKey(ascii); }
        }
      }
    }

    /** The interrupts that arrive before one read. */
    method Handlers(batch: seq<byte>)
      requires Valid()
      modifies this, buffer
      ensures Valid() && View() == HandledAll(old(View()), batch) && delivered == old(delivered)
    {
      ghost var s := View();
      assert WellFormed(s);
      hide Inv, Handled;
      for i := 0 to |batch|
        invariant Valid() && View() == HandledAll(s, batch[..i]) && delivered == old(delivered)
      {
        HandledAllSnoc(s, batch[..i], batch[i]);
        assert batch[..i + 1] == batch[..i] + [batch[i]];
        Handler(batch[i]);
      }
      assert batch[..|batch|] == batch;
    }

    /** The ring after `polls` polls from state `s`, with `keys` delivered since. */
    ghost predicate Reading(s: State, schedule: seq<Cut>, polls: nat, keys: seq<char>)
      reads this, buffer
    {
      && Valid() && WellFormed(s) && polls <= |schedule|
      && View() == CutPolled(s, schedule[..polls]) && delivered == s.delivered + keys
    }

    lemma ReadingStarts(schedule: seq<Cut>)
      requires Valid()
      ensures Reading(View(), schedule, 0, [])
    {
      assert delivered + [] == delivered;
    }

    /** One poll with its interrupts. */
    method Poll(ghost s: State, schedule: seq<Cut>, polls: nat, ghost keys: seq<char>) returns (c: char)
      requires Reading(s, schedule, polls, keys) && polls < |schedule|
      modifies this, buffer
      ensures Reading(s, schedule, polls + 1, if c == '\0' then keys else keys + [c])
    {
      hide Inv, CutPoll, CutPolled;
      c := InterruptedGetChar(schedule[polls]);
      CutPolledSnoc(s, schedule[..polls], schedule[polls]);
      assert schedule[..polls + 1] == schedule[..polls] + [schedule[polls]];
      assert s.delivered + keys + [c] == s.delivered + (keys + [c]);
    }

    /**
     keyboard_get_char_blocking: poll until there is a key. The interrupts number `i` of the schedule arrive
     around poll number `i`; where the schedule ends the reader is still waiting, and '\0' stands for that.
     */
    method GetCharBlocking(ghost s: State, schedule: seq<Cut>, from: nat, ghost keys: seq<char>)
      returns (c: char, polls: nat)
      requires Reading(s, schedule, from, keys)
      modifies this, buffer
      ensures from <= polls <= |schedule| && (c == '\0' ==> polls == |schedule|) && (c != '\0' ==> from < polls)
      ensures Reading(s, schedule, polls, if c == '\0' then keys else keys + [c])
    {
      assert from <= |schedule|;
      hide Reading;
      c, polls := '\0', from;
      while c == '\0' && polls < |schedule|
        invariant from <= polls <= |schedule| && (c != '\0' ==> from < polls)
        invariant Reading(s, schedule, polls, if c == '\0' then keys else keys + [c])
      {
        c := Poll(s, schedule, polls, keys);
        polls := polls + 1;
      }
    }
  }

  // ---------------------------------------------------------------- kernel_read_line

  /** The text after one key other than Enter: Backspace removes the last character, anything else is added. */
  function AfterKey(line: seq<char>, c: char): seq<char> {
    if c != BACKSPACE then line + [c] else if line == [] then [] else line[..|line| - 1]
  }

  /** The line that results from the delivered keys, and how many of them are taken from the ring. */
  function Typed(line: seq<char>, keys: seq<char>, cap: nat): (seq<char>, nat)
    decreases |keys|
  {
    if |line| >= cap || keys == [] then (line, 0)
    else if keys[0] == '\n' then (line, 1)
    else var (l, k) := Typed(AfterKey(line, keys[0]), keys[1..], cap); (l, k + 1)
  }

  /** The line is complete: Enter is pressed or the line fills up. */
  predicate Ends(line: seq<char>, keys: seq<char>, cap: nat)
    decreases |keys|
  {
    |line| >= cap || (keys != [] && (keys[0] == '\n' || Ends(AfterKey(line, keys[0]), keys[1..], cap)))
  }

  /** The next key that an incomplete line takes. */
  lemma {:induction false} TypedSnoc(line: seq<char>, keys: seq<char>, c: char, cap: nat)
    requires !Ends(line, keys, cap)
    ensures var (l, k) := Typed(line, keys, cap);
            && k == |keys| && |l| < cap
            && Typed(line, keys + [c], cap) == (if c == '\n' then l else AfterKey(l, c), |keys| + 1)
            && (Ends(line, keys + [c], cap) <==> c == '\n' || |AfterKey(l, c)| >= cap)
    decreases |keys|
  {
    if keys == [] {
      assert keys + [c] == [c] && [c][1..] == [];
    } else {
      assert (keys + [c])[1..] == keys[1..] + [c];
      TypedSnoc(AfterKey(line, keys[0]), keys[1..], c, cap);
    }
  }

  function Zeros(n: nat): seq<char> { seq(n, _ => '\0') }

  method Clear(buffer: array<char>, n: nat)
    requires n <= buffer.Length
    modifies buffer
    ensures forall k | 0 <= k < n :: buffer[k] == '\0'
    ensures forall k | n <= k < buffer.Length :: buffer[k] == old(buffer[k])
  {
    var i := 0;
    while i < n
      invariant i <= n && forall k | 0 <= k < i :: buffer[k] == '\0'
      invariant forall k | n <= k < buffer.Length :: buffer[k] == old(buffer[k])
    {
      buffer[i] := '\0';
      i := i + 1;
    }
  }

  /** The first `n` bytes of the buffer are the line and zeros behind it. */
  ghost predicate HoldsLine(b: seq<char>, line: seq<char>, n: nat) {
    && |line| < n <= |b|
    && (forall k | 0 <= k < |line| :: b[k] == line[k])
    && (forall k | |line| <= k < n :: b[k] == '\0')
  }

  /** What the line editor does with a key other than Enter. */
  method EditKey(buffer: array<char>, index: nat, maxLen: nat, c: char, ghost line: seq<char>) returns (next: nat)
    requires HoldsLine(buffer[..], line, maxLen) && index == |line| < maxLen - 1
    modifies buffer
    ensures HoldsLine(buffer[..], AfterKey(line, c), maxLen) && next == |AfterKey(line, c)|
    ensures buffer[maxLen..] == old(buffer[maxLen..])
  {
    next := index;
    if c == BACKSPACE {
      if index > 0 {
        next := index - 1;
        buffer[next] := '\0';
      }
    } else {
      buffer[index] := c;
      next := index + 1;
    }
  }

  /** Midway through a line: `keys` are all taken, and they have made `line`. */
  ghost predicate Typing(keys: seq<char>, line: seq<char>, cap: nat, done: bool) {
    && Typed([], keys, cap) == (line, |keys|)
    && (done <==> Ends([], keys, cap))
    && (!done ==> |line| < cap)
  }

  lemma TypingStarts(cap: nat)
    ensures Typing([], [], cap, cap == 0)
  {}

  lemma TypingGoesOn(keys: seq<char>, line: seq<char>, cap: nat, c: char)
    requires Typing(keys, line, cap, false)
    ensures if c == '\n' then Typing(keys + [c], line, cap, true)
            else Typing(keys + [c], AfterKey(line, c), cap, |AfterKey(line, c)| >= cap)
  {
    TypedSnoc([], keys, c, cap);
  }

  /**
   kernel_read_line, with the interrupts of the schedule arriving between and inside its polls of the ring. The buffer holds
   the fold of the keys that the ring delivered to this call, and zeros; every key taken from the ring is
   in it, and none is lost or reordered on the way. The call is `done` once these keys complete a line;
   where the schedule ends before that, the contract tells what it has done so far.
   */
  method ReadLine(buffer: array<char>, maxLen: nat, ring: Ring, schedule: seq<Cut>)
    returns (done: bool, polls: nat, ghost keys: seq<char>)
    requires 0 < maxLen <= buffer.Length && ring.Valid() && buffer != ring.buffer
    modifies buffer, ring, ring.buffer
    ensures ring.Valid() && ring.accepted == ring.delivered + Queue(ring.View())
    ensures polls <= |schedule| && ring.View() == CutPolled(old(ring.View()), schedule[..polls])
    ensures ring.delivered == old(ring.delivered) + keys
    ensures var (line, taken) := Typed([], keys, maxLen - 1);
            taken == |keys| && |line| < maxLen && buffer[..maxLen] == line + Zeros(maxLen - |line|)
    ensures (done <==> Ends([], keys, maxLen - 1)) && (!done ==> polls == |schedule|)
    ensures buffer[maxLen..] == old(buffer[maxLen..])
  {
    hide *;
    ghost var s := ring.View();
    ring.ReadingStarts(schedule);
    StartLine(buffer, maxLen);
    var index;
    ghost var line;
    index, done, polls, line, keys := EditLoop(buffer, maxLen, ring, schedule, s);
    FinishLine(buffer, index, maxLen, keys, line, done);
    ReadingEnds(ring, s, schedule, polls, keys, line, maxLen - 1, done);
  }

  /** The clearing loop leaves an empty line. */
  method StartLine(buffer: array<char>, maxLen: nat)
    requires 0 < maxLen <= buffer.Length
    modifies buffer
    ensures Editing(buffer[..], 0, maxLen, [], [], maxLen == 1)
    ensures buffer[maxLen..] == old(buffer[maxLen..])
  {
    Clear(buffer, maxLen);
    EditingStarts(buffer[..], maxLen);
  }

  /** The NUL behind the line. */
  method FinishLine(buffer: array<char>, index: nat, maxLen: nat, ghost keys: seq<char>, ghost line: seq<char>, ghost done: bool)
    requires Editing(buffer[..], index, maxLen, keys, line, done)
    modifies buffer
    ensures |line| < maxLen <= buffer.Length && buffer[..maxLen] == line + Zeros(maxLen - |line|)
    ensures buffer[maxLen..] == old(buffer[maxLen..]) && Typing(keys, line, maxLen - 1, done)
  {
    EditingEnds(buffer[..], index, maxLen, keys, line, done);
    hide Typing, Editing;
    Terminate(buffer, index, maxLen, line);
  }

  /** The editing loop. */
  method EditLoop(buffer: array<char>, maxLen: nat, ring: Ring, schedule: seq<Cut>, ghost s: State)
    returns (index: nat, done: bool, polls: nat, ghost line: seq<char>, ghost keys: seq<char>)
    requires Editing(buffer[..], 0, maxLen, [], [], maxLen == 1) && ring.Reading(s, schedule, 0, [])
    requires 0 < maxLen <= buffer.Length && buffer != ring.buffer
    modifies buffer, ring, ring.buffer
    ensures Editing(buffer[..], index, maxLen, keys, line, done) && buffer[maxLen..] == old(buffer[maxLen..])
    ensures polls <= |schedule| && ring.Reading(s, schedule, polls, keys) && (!done ==> polls == |schedule|)
  {
    hide Ring.Reading, Editing;
    index, done, polls := 0, maxLen == 1, 0;
    line, keys := [], [];
    while index < maxLen - 1
      invariant Editing(buffer[..], index, maxLen, keys, line, done) && buffer[maxLen..] == old(buffer[maxLen..])
      invariant index < maxLen && (done <==> index == maxLen - 1)
      invariant polls <= |schedule| && ring.Reading(s, schedule, polls, keys)
      decreases |schedule| - polls
    {
      var c;
      c, polls := ring.GetCharBlocking(s, schedule, polls, keys);
      if c == '\0' { return; }
      index, done := TakeKey(buffer, index, maxLen, c, keys, line);
      line := if c == '\n' then line else AfterKey(line, c);
      keys := keys + [c];
      if c == '\n' { return; }
    }
  }

  /** The body of the editing loop after the read: Enter completes the line, other keys edit it. */
  method TakeKey(buffer: array<char>, index: nat, maxLen: nat, c: char, ghost keys: seq<char>, ghost line: seq<char>)
    returns (next: nat, done: bool)
    requires Editing(buffer[..], index, maxLen, keys, line, false)
    modifies buffer
    ensures Editing(buffer[..], next, maxLen, keys + [c], if c == '\n' then line else AfterKey(line, c), done)
    ensures buffer[maxLen..] == old(buffer[maxLen..])
    ensures if c == '\n' then done else next < maxLen && (done <==> next == maxLen - 1)
  {
    hide HoldsLine, Typing;
    TypingGoesOn(keys, line, maxLen - 1, c);
    if c == '\n' { return index, true; }
    next := EditKey(buffer, index, maxLen, c, line);
    done := next >= maxLen - 1;
  }

  /** The buffer in the middle of a line: `keys` have made `line`, and a full line is done. */
  ghost predicate Editing(b: seq<char>, index: nat, maxLen: nat, keys: seq<char>, line: seq<char>, done: bool) {
    && 0 < maxLen <= |b| && HoldsLine(b, line, maxLen) && index == |line| <= maxLen - 1
    && Typing(keys, line, maxLen - 1, done) && (index == maxLen - 1 ==> done)
  }

  lemma EditingStarts(b: seq<char>, maxLen: nat)
    requires 0 < maxLen <= |b| && forall k | 0 <= k < maxLen :: b[k] == '\0'
    ensures Editing(b, 0, maxLen, [], [], maxLen == 1)
  {
    TypingStarts(maxLen - 1);
  }

  lemma EditingEnds(b: seq<char>, index: nat, maxLen: nat, keys: seq<char>, line: seq<char>, done: bool)
    requires Editing(b, index, maxLen, keys, line, done)
    ensures HoldsLine(b, line, maxLen) && index == |line| < maxLen && Typing(keys, line, maxLen - 1, done)
    ensures index == maxLen - 1 ==> done
  {}

  lemma ReadingEnds(ring: Ring, s: State, schedule: seq<Cut>, polls: nat, keys: seq<char>, line: seq<char>, cap: nat, done: bool)
    requires ring.Reading(s, schedule, polls, keys) && Typing(keys, line, cap, done)
    ensures ring.Valid() && ring.accepted == ring.delivered + Queue(ring.View())
    ensures ring.View() == CutPolled(s, schedule[..polls]) && ring.delivered == s.delivered + keys
    ensures Typed([], keys, cap) == (line, |keys|) && (done <==> Ends([], keys, cap))
  {
    AcceptedSplits(ring.View());
  }

  /** The terminating NUL that is written in any case. */
  method Terminate(buffer: array<char>, index: nat, maxLen: nat, ghost line: seq<char>)
    requires HoldsLine(buffer[..], line, maxLen) && index == |line|
    modifies buffer
    ensures buffer[..maxLen] == line + Zeros(maxLen - |line|)
    ensures buffer[maxLen..] == old(buffer[maxLen..])
  {
    buffer[index] := '\0';
    assert buffer[..maxLen] == line + Zeros(maxLen - |line|);
  }

  /** Enter and Backspace never end up in the line. */
  lemma {:induction false} LineIsPlain(line: seq<char>, keys: seq<char>, cap: nat)
    requires '\n' !in line && BACKSPACE !in line && |line| <= cap
    ensures var l := Typed(line, keys, cap).0; '\n' !in l && BACKSPACE !in l && |l| <= cap
    decreases |keys|
  {
    if |line| < cap && keys != [] && keys[0] != '\n' {
      LineIsPlain(AfterKey(line, keys[0]), keys[1..], cap);
    }
  }

  ghost predicate Plain(keys: seq<char>) { '\n' !in keys && BACKSPACE !in keys }

  /** Typing plain text and Enter yields that text, cut at the capacity; what follows stays in the ring. */
  lemma {:induction false} PlainTextIsKept(line: seq<char>, text: seq<char>, more: seq<char>, cap: nat)
    requires Plain(text) && |line| <= cap
    ensures Typed(line, text + ['\n'] + more, cap) ==
            if |line| + |text| < cap then (line + text, |text| + 1)
            else (line + text[..cap - |line|], cap - |line|)
    decreases |text|
  {
    var keys := text + ['\n'] + more;
    assert line + text[..0] == line && line + [] == line;
    if text == [] {
      assert keys[0] == '\n';
    } else if |line| < cap {
      assert keys[0] == text[0] && text[0] in text && AfterKey(line, text[0]) == line + [text[0]];
      assert keys[1..] == text[1..] + ['\n'] + more;
      PlainTextIsKept(line + [text[0]], text[1..], more, cap);
      assert line + [text[0]] + text[1..] == line + text;
      if |line| + |text| >= cap {
        assert line + [text[0]] + text[1..][..cap - |line| - 1] == line + text[..cap - |line|];
      }
    }
  }

  /** Backspace undoes the key before it, unless that key filled the line. */
  lemma BackspaceUndoes(line: seq<char>, c: char, keys: seq<char>, cap: nat)
    requires c != '\n' && c != BACKSPACE && |line| < cap
    ensures Typed(line, [c, BACKSPACE] + keys, cap) ==
            if |line| + 1 == cap then (line + [c], 1)
            else (Typed(line, keys, cap).0, Typed(line, keys, cap).1 + 2)
    ensures Typed(line, [c, BACKSPACE] + keys, cap) == (Typed(line, keys, cap).0, Typed(line, keys, cap).1 + 2)
            <==> |line| + 1 != cap
  {}

  /** A key that fills the line ends it, and the Backspace behind it stays in the ring. */
  lemma BackspaceComesTooLate()
    ensures Typed([], ['a', BACKSPACE, '\n'], 1) == (['a'], 1) && Typed([], ['\n'], 1) == ([], 1)
  {
    BackspaceUndoes([], 'a', ['\n'], 1);
    assert ['a', BACKSPACE] + ['\n'] == ['a', BACKSPACE, '\n'] && [] + ['a'] == ['a'];
  }
}
