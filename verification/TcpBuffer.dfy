/** tcp_server.c: the ring buffer between the socket thread and the simulation thread. */
module TcpBuffer {

  const SIZE: nat := 256

  type Index = i: nat | i < SIZE

  /** The number of bytes from index a up to index b. */
  function Count(a: Index, b: Index): (n: nat)
    ensures n < SIZE
  {
    if a <= b then b - a else b + SIZE - a
  }

  /** The i-th index from a. */
  function At(a: Index, i: nat): Index
    requires i < SIZE
  {
    if a + i < SIZE then a + i else a + i - SIZE
  }

  /** The bytes in the buffer, oldest first. */
  function Contents(buf: seq<char>, rptr: Index, wptr: Index): (r: seq<char>)
    requires |buf| == SIZE
    ensures |r| == Count(rptr, wptr)
  {
    seq(Count(rptr, wptr), i requires 0 <= i < Count(rptr, wptr) => buf[At(rptr, i)])
  }

  /** a - b as unsigned ints subtract. */
  function Sub32(a: nat, b: nat): nat
  {
    (a - b) % 0x1_0000_0000
  }

  /** The verdict of the full test. The read index is read twice and may move in between. */
  predicate FullTest(wptr: nat, r1: nat, r2: nat) {
    if wptr >= r1 then Sub32(wptr, r2) == SIZE - 1 else Sub32(r2, wptr) == 1
  }

  lemma AddLast(buf: seq<char>, r: Index, w: Index, c: char)
    requires |buf| == SIZE && Count(r, w) < SIZE - 1
    ensures Contents(buf[w := c], r, w) == Contents(buf, r, w)
    ensures Contents(buf[w := c], r, At(w, 1)) == Contents(buf, r, w) + [c]
  {
  }

  lemma DropFirst(buf: seq<char>, r: Index, w: Index)
    requires |buf| == SIZE && r != w
    ensures Contents(buf, r, w) == [buf[r]] + Contents(buf, At(r, 1), w)
  {
  }

  // ---------- One thread ----------

  class TcpBuf {
    var rptr: nat
    var wptr: nat
    const buf: array<char>
    /** How many more full tests go by before the reader on the other thread takes a byte. */
    var delay: nat

    ghost predicate Valid()
      reads this
    {
      rptr < SIZE && wptr < SIZE && buf.Length == SIZE
    }

    ghost function Queue(): seq<char>
      requires Valid()
      reads this, buf
    {
      Contents(buf[..], rptr, wptr)
    }

    constructor ()
      ensures Valid() && fresh(buf) && Queue() == []
    {
      rptr, wptr, delay := 0, 0, 0;
      buf := new char[SIZE];
    }

    method IsFull() returns (full: bool)
      requires Valid()
      ensures full <==> |Queue()| == 255
    {
      full := FullTest(wptr, rptr, rptr);
    }

    method IsEmpty() returns (empty: bool)
      requires Valid()
      ensures empty <==> Queue() == []
    {
      empty := wptr == rptr;
    }

    /** What the reader does in the meantime: nothing for a while, then it takes a byte. */
    method OtherThread() returns (ghost taken: seq<char>)
      requires Valid() && Queue() != []
      modifies this`rptr, this`delay
      ensures Valid() && old(Queue()) == taken + Queue()
      ensures (taken == [] && delay < old(delay)) || |taken| == 1
    {
      if delay > 0 {
        delay := delay - 1;
        taken := [];
      } else {
        delay := *;
        var ok, c := GetByte();
        taken := [c];
      }
    }

    /** The store and the index update. */
    method StoreByte(c: char)
      requires Valid() && |Queue()| < SIZE - 1
      modifies this`wptr, buf
      ensures Valid() && Queue() == old(Queue()) + [c]
    {
      AddLast(buf[..], rptr, wptr, c);
      buf[wptr] := c;
      wptr := wptr + 1;
      wptr := wptr % SIZE;
      assert buf[..] == old(buf[..])[old(wptr) := c];
      assert wptr == At(old(wptr), 1);
    }

    /** Appends a byte. A full buffer makes it wait until the reader has taken one, which it does sooner or later. */
    method PutByte(c: char) returns (ghost taken: seq<char>)
      requires Valid()
      modifies this, buf
      ensures Valid() && old(Queue()) + [c] == taken + Queue()
      ensures taken == [] <==> |old(Queue())| < 255
    {
      hide Contents;
      taken := [];
      ghost var queue := Queue();
      var done := false;
      while !done
        invariant Valid() && queue + (if done then [c] else []) == taken + Queue()
        invariant if |queue| < SIZE - 1 then taken == [] else done ==> taken != []
        decreases !done, SIZE - |taken|, delay
      {
        ghost var before := Queue();
        var full := IsFull();
        if !full {
          StoreByte(c);
          assert taken + (before + [c]) == (taken + before) + [c];
          done := true;
        } else {
          ghost var more := OtherThread();
          assert taken + (more + Queue()) == (taken + more) + Queue();
          taken := taken + more;
        }
      }
    }

    /** Takes the oldest byte, if there is one. */
    method GetByte() returns (ok: bool, c: char)
      requires Valid()
      modifies this`rptr
      ensures Valid() && ok == (old(Queue()) != [])
      ensures old(Queue()) == if ok then [c] + Queue() else Queue()
    {
      c := '\0';
      ok := wptr != rptr;
      if ok {
        DropFirst(buf[..], rptr, wptr);
        c := buf[rptr];
        rptr := rptr + 1;
        rptr := rptr % SIZE;
        assert rptr == At(old(rptr), 1);
      }
    }
  }

  // ---------- Two threads ----------

  // Between any two accesses to shared memory the other thread may run. The two threads see each other only through the
  // indices, so the theorem needs two assumptions: the byte is written before the new write index becomes visible, and
  // an index moves to its new value, wrapped, in one step.

  /** Where the producer is: in tcp_buffer_put_byte, or in the loop of the socket thread, which looks for room before it
      reads a byte from the socket. looked says that the byte came that way. */
  datatype Producer =
    | Resting
    | Looking | LookingAgain(r1: nat) | Receiving
    | Testing(c: char, looked: bool) | TestingAgain(c: char, looked: bool, r1: nat) | Storing(c: char) | Publishing(c: char)
    | Wrapping

  /** Where the consumer is in tcp_buffer_get_byte. */
  datatype Consumer = Asleep | Loading | Releasing(c: char) | Unwrapping

  datatype State = State(buf: seq<char>, rptr: nat, wptr: nat, p: Producer, c: Consumer,
                         sent: seq<char>, received: seq<char>)

  /** Put starts tcp_buffer_put_byte, Look a round of the socket loop; Deliver is what its read from the socket gives, and
      Produce at that point means that the socket has nothing. */
  datatype Action = Put(c: char) | Look | Deliver(c: char) | Produce | Consume

  /** Which index is wrapped by a second, separate store. */
  datatype Tear = Tear(write: bool, read: bool)

  const WHOLE: Tear := Tear(false, false)

  /** One shared access of the producer. */
  function ProducerStep(s: State, tear: Tear): State
    requires |s.buf| == SIZE
  {
    match s.p
    case Resting => s
    case Looking => s.(p := LookingAgain(s.rptr))
    case LookingAgain(r1) => s.(p := if FullTest(s.wptr, r1, s.rptr) then Resting else Receiving)
    case Receiving => s.(p := Resting)
    case Testing(c, looked) => s.(p := TestingAgain(c, looked, s.rptr))
    case TestingAgain(c, looked, r1) => s.(p := if FullTest(s.wptr, r1, s.rptr) then Testing(c, looked) else Storing(c))
    case Storing(c) => if s.wptr < SIZE then s.(buf := s.buf[s.wptr := c], p := Publishing(c)) else s
    case Publishing(c) =>
      if tear.write then s.(wptr := s.wptr + 1, p := Wrapping, sent := s.sent + [c])
      else s.(wptr := (s.wptr + 1) % SIZE, p := Resting, sent := s.sent + [c])
    case Wrapping => s.(wptr := s.wptr % SIZE, p := Resting)
  }

  function ConsumerStep(s: State, tear: Tear): State
    requires |s.buf| == SIZE
  {
    match s.c
    case Asleep => if s.wptr == s.rptr then s else s.(c := Loading)
    case Loading => if s.rptr < SIZE then s.(c := Releasing(s.buf[s.rptr])) else s
    case Releasing(c) =>
      if tear.read then s.(rptr := s.rptr + 1, c := Unwrapping, received := s.received + [c])
      else s.(rptr := (s.rptr + 1) % SIZE, c := Asleep, received := s.received + [c])
    case Unwrapping => s.(rptr := s.rptr % SIZE, c := Asleep)
  }

  function Step(s: State, a: Action, tear: Tear): (t: State)
    requires |s.buf| == SIZE
    ensures |t.buf| == SIZE
  {
    match a
    case Put(c) => if s.p == Resting then s.(p := Testing(c, false)) else s
    case Look => if s.p == Resting then s.(p := Looking) else s
    case Deliver(c) => if s.p == Receiving then s.(p := Testing(c, true)) else s
    case Produce => ProducerStep(s, tear)
    case Consume => ConsumerStep(s, tear)
  }

  function Run(s: State, actions: seq<Action>, tear: Tear): (t: State)
    requires |s.buf| == SIZE
    ensures |t.buf| == SIZE
    decreases |actions|
  {
    if actions == [] then s else Step(Run(s, actions[..|actions| - 1], tear), actions[|actions| - 1], tear)
  }

  /** r1 was read a while ago: since then the consumer has only moved towards the write index. */
  predicate Passed(r1: nat, r: nat, w: nat)
    requires r < SIZE && w < SIZE
  {
    r1 < SIZE && Count(r1, r) + Count(r, w) == Count(r1, w)
  }

  /** What holds at every moment. */
  ghost predicate Inv(s: State) {
    && |s.buf| == SIZE && s.rptr < SIZE && s.wptr < SIZE
    && s.sent == s.received + Contents(s.buf, s.rptr, s.wptr)
    && (s.p.LookingAgain? || s.p.TestingAgain? ==> Passed(s.p.r1, s.rptr, s.wptr))
    && (HasRoom(s.p) ==> Count(s.rptr, s.wptr) < SIZE - 1)
    && (s.p.Publishing? ==> s.buf[s.wptr] == s.p.c)
    && (s.c.Loading? || s.c.Releasing? ==> s.rptr != s.wptr)
    && (s.c.Releasing? ==> s.buf[s.rptr] == s.c.c)
  }

  /** The producer has made sure of room and not used it yet. */
  predicate HasRoom(p: Producer) {
    p.Receiving? || p.Storing? || p.Publishing? || ((p.Testing? || p.TestingAgain?) && p.looked)
  }

  /** A store that is followed by a separate wrap-around is harmless while the index stays below 256. */
  predicate NoTear(s: State, tear: Tear) {
    (tear.write && s.p.Publishing? ==> s.wptr + 1 < SIZE) && (tear.read && s.c.Releasing? ==> s.rptr + 1 < SIZE)
  }

  lemma InvProducer(s: State, tear: Tear)
    requires Inv(s) && NoTear(s, tear)
    ensures Inv(ProducerStep(s, tear))
  {
    hide FullTest, Contents;
    if s.p.Storing? || s.p.Publishing? {
      InvStores(s, tear);
    } else if s.p.LookingAgain? || s.p.TestingAgain? {
      Verdict(s.wptr, s.p.r1, s.rptr);
    }
  }

  lemma InvStores(s: State, tear: Tear)
    requires Inv(s) && NoTear(s, tear) && (s.p.Storing? || s.p.Publishing?)
    ensures Inv(ProducerStep(s, tear))
  {
    AddLast(s.buf, s.rptr, s.wptr, s.p.c);
    hide FullTest, Contents;
    assert s.p.Publishing? ==> s.buf[s.wptr := s.p.c] == s.buf;
    assert (s.wptr + 1) % SIZE == At(s.wptr, 1);
  }

  lemma Verdict(w: nat, r1: nat, r: nat)
    requires r < SIZE && w < SIZE && Passed(r1, r, w)
    ensures FullTest(w, r1, r) <==> Count(r, w) == SIZE - 1
  {
  }

  lemma InvConsumer(s: State, tear: Tear)
    requires Inv(s) && NoTear(s, tear)
    ensures Inv(ConsumerStep(s, tear))
  {
    hide FullTest, Contents;
    if s.c.Releasing? {
      DropFirst(s.buf, s.rptr, s.wptr);
      assert (s.rptr + 1) % SIZE == At(s.rptr, 1);
    }
  }

  lemma InvStart(s: State, a: Action, tear: Tear)
    requires Inv(s) && !a.Produce? && !a.Consume?
    ensures Inv(Step(s, a, tear))
  {
    hide FullTest, Contents;
  }

  lemma InvStep(s: State, a: Action, tear: Tear)
    requires Inv(s) && NoTear(s, tear)
    ensures Inv(Step(s, a, tear))
  {
    hide Inv;
    match a
    case Produce => InvProducer(s, tear);
    case Consume => InvConsumer(s, tear);
    case _ => InvStart(s, a, tear);
  }

  lemma {:induction false} InvRun(s: State, actions: seq<Action>)
    requires Inv(s)
    ensures Inv(Run(s, actions, WHOLE))
    decreases |actions|
  {
    if actions != [] {
      InvRun(s, actions[..|actions| - 1]);
      InvStep(Run(s, actions[..|actions| - 1], WHOLE), actions[|actions| - 1], WHOLE);
    }
  }

  /** An empty buffer whose indices are both i, with both threads at rest. */
  predicate EmptyAt(s: State, i: nat) {
    |s.buf| == SIZE && s.rptr == s.wptr == i && i < SIZE && s.p == Resting && s.c == Asleep && s.sent == s.received
  }

  /** Nothing is lost, duplicated, reordered or overwritten. */
  ghost predicate InOrder(s: State) {
    && |s.buf| == SIZE && s.rptr < SIZE && s.wptr < SIZE
    && s.sent == s.received + Contents(s.buf, s.rptr, s.wptr)
    && |Contents(s.buf, s.rptr, s.wptr)| <= 255
  }

  /** In every interleaving of the two threads the bytes put are the bytes got followed by what the buffer holds, which
      is at most 255 bytes. */
  lemma Fifo(s: State, i: nat, actions: seq<Action>)
    requires EmptyAt(s, i)
    ensures InOrder(Run(s, actions, WHOLE))
  {
    InvRun(s, actions);
  }

  /** Although the test reads the moving read index twice, its verdict is exact at the second read. */
  lemma FullVerdict(s: State)
    requires Inv(s) && (s.p.TestingAgain? || s.p.LookingAgain?)
    ensures FullTest(s.wptr, s.p.r1, s.rptr) <==> |Contents(s.buf, s.rptr, s.wptr)| == 255
  {
    Verdict(s.wptr, s.p.r1, s.rptr);
  }

  /** The consumer goes to sleep exactly when there is nothing to take, and what it takes is the oldest byte. */
  lemma EmptyVerdict(s: State)
    requires Inv(s)
    ensures s.c == Asleep ==> (ConsumerStep(s, WHOLE).c == Asleep <==> Contents(s.buf, s.rptr, s.wptr) == [])
    ensures s.c.Releasing? ==> ConsumerStep(s, WHOLE).received == s.received + [Contents(s.buf, s.rptr, s.wptr)[0]]
  {
  }

  // ---------- The loop of the socket thread ----------

  function Produces(actions: seq<Action>): nat
    decreases |actions|
  {
    if actions == [] then 0
    else Produces(actions[..|actions| - 1]) + if actions[|actions| - 1] == Produce then 1 else 0
  }

  /** A byte that was read from the socket after the outer test, after n more accesses of its thread. */
  predicate OnItsWay(s: State, c: char, n: nat, sent: seq<char>) {
    if n == 0 then s.p == Testing(c, true) && s.sent == sent
    else if n == 1 then s.p.TestingAgain? && s.p.c == c && s.p.looked && s.sent == sent
    else if n == 2 then s.p == Storing(c) && s.sent == sent
    else if n == 3 then s.p == Publishing(c) && s.sent == sent
    else sent + [c] <= s.sent
  }

  lemma OnItsWayStep(s: State, c: char, n: nat, sent: seq<char>, a: Action)
    requires Inv(s) && OnItsWay(s, c, n, sent)
    ensures OnItsWay(Step(s, a, WHOLE), c, if a == Produce then n + 1 else n, sent)
  {
    hide Contents;
    if n == 1 {
      Verdict(s.wptr, s.p.r1, s.rptr);
    }
    hide FullTest;
  }

  /** After the outer test has found room, the test inside tcp_buffer_put_byte never makes the thread wait: in every
      interleaving four accesses of the thread put a byte it has read from the socket into the buffer. */
  lemma {:induction false} SocketByteStored(s: State, c: char, actions: seq<Action>)
    requires Inv(s) && s.p == Testing(c, true)
    ensures OnItsWay(Run(s, actions, WHOLE), c, Produces(actions), s.sent)
    decreases |actions|
  {
    hide OnItsWay, Step;
    if actions == [] {
      ItStarts(s, c);
    } else {
      var before := actions[..|actions| - 1];
      SocketByteStored(s, c, before);
      InvRun(s, before);
      OnItsWayStep(Run(s, before, WHOLE), c, Produces(before), s.sent, actions[|actions| - 1]);
    }
  }

  lemma ItStarts(s: State, c: char)
    requires s.p == Testing(c, true)
    ensures OnItsWay(s, c, 0, s.sent)
  {
  }

  // ---------- Why the wrap-around has to be one step ----------

  /** The bytes that are taken up to be put. */
  function Puts(actions: seq<Action>): nat
    decreases |actions|
  {
    if actions == [] then 0
    else Puts(actions[..|actions| - 1]) + if actions[|actions| - 1].Put? || actions[|actions| - 1].Deliver? then 1 else 0
  }

  function InHand(p: Producer): nat {
    if p.Testing? || p.TestingAgain? || p.Storing? || p.Publishing? then 1 else 0
  }

  /** The indices have not come around since both were i, and n bytes have been taken up. */
  predicate NotAround(s: State, i: nat, n: nat) {
    i <= s.rptr <= s.wptr && s.wptr + InHand(s.p) <= i + n
  }

  lemma NotAroundStep(s: State, i: nat, n: nat, a: Action, tear: Tear)
    requires Inv(s) && NotAround(s, i, n) && i + n < SIZE
    requires a.Put? || a.Deliver? ==> i + n + 1 < SIZE
    ensures NoTear(s, tear)
    ensures NotAround(Step(s, a, tear), i, if a.Put? || a.Deliver? then n + 1 else n)
  {
    hide FullTest, Contents;
  }

  lemma {:induction false} TornRun(s: State, i: nat, actions: seq<Action>, tear: Tear)
    requires EmptyAt(s, i) && Puts(actions) < SIZE - i
    ensures Inv(Run(s, actions, tear)) && NotAround(Run(s, actions, tear), i, Puts(actions))
    decreases |actions|
  {
    hide Step, NotAround, NoTear;
    if actions == [] {
      NotAroundStart(s, i);
    } else {
      var before := actions[..|actions| - 1];
      TornRun(s, i, before, tear);
      NotAroundStep(Run(s, before, tear), i, Puts(before), actions[|actions| - 1], tear);
      InvStep(Run(s, before, tear), actions[|actions| - 1], tear);
    }
  }

  lemma NotAroundStart(s: State, i: nat)
    requires EmptyAt(s, i)
    ensures NotAround(s, i, 0)
  {
  }

  /** With either wrap-around, or both, as a store of its own the buffer is still a FIFO in every run with fewer than
      256 - i puts from an empty buffer at index i: no index wraps before that. */
  lemma TornFifo(s: State, i: nat, actions: seq<Action>, tear: Tear)
    requires EmptyAt(s, i) && Puts(actions) < SIZE - i
    ensures InOrder(Run(s, actions, tear))
  {
    TornRun(s, i, actions, tear);
  }

  lemma {:induction false} RunAppend(s: State, a: seq<Action>, b: seq<Action>, tear: Tear)
    requires |s.buf| == SIZE
    ensures Run(s, a + b, tear) == Run(Run(s, a, tear), b, tear)
    decreases |b|
  {
    if b == [] {
      assert a + b == a;
    } else {
      RunAppend(s, a, b[..|b| - 1], tear);
      assert (a + b)[..|a + b| - 1] == a + b[..|b| - 1];
    }
  }

  lemma {:induction false} PutsAppend(a: seq<Action>, b: seq<Action>)
    ensures Puts(a + b) == Puts(a) + Puts(b)
    decreases |b|
  {
    if b == [] {
      assert a + b == a;
    } else {
      PutsAppend(a, b[..|b| - 1]);
      assert (a + b)[..|a + b| - 1] == a + b[..|b| - 1];
    }
  }

  /** Four actions at a time. */
  lemma RunFour(s: State, a: Action, b: Action, c: Action, d: Action, tear: Tear)
    requires |s.buf| == SIZE
    ensures Run(s, [a, b, c, d], tear) == Step(Step(Step(Step(s, a, tear), b, tear), c, tear), d, tear)
  {
    hide Step;
    var four := [a, b, c, d];
    assert four[..3] == [a, b, c] && [a, b, c][..2] == [a, b] && [a, b][..1] == [a] && [a][..0] == [];
    assert Run(s, [], tear) == s;
    assert Run(s, [a], tear) == Step(s, a, tear);
    assert Run(s, [a, b], tear) == Step(Step(s, a, tear), b, tear);
    assert Run(s, [a, b, c], tear) == Step(Step(Step(s, a, tear), b, tear), c, tear);
  }

  lemma OnePut(a: Action)
    ensures Puts([a]) == if a.Put? || a.Deliver? then 1 else 0
  {
    assert [a][..0] == [];
  }

  lemma CountFour(a: Action, b: Action, c: Action, d: Action)
    ensures Puts([a, b, c, d]) == Puts([a]) + Puts([b]) + Puts([c]) + Puts([d])
  {
    PutsAppend([a], [b]);
    PutsAppend([a, b], [c]);
    PutsAppend([a, b, c], [d]);
    assert [a] + [b] == [a, b] && [a, b] + [c] == [a, b, c] && [a, b, c] + [d] == [a, b, c, d];
  }

  function StartPut(c: char): seq<Action> { [Put(c), Produce, Produce, Produce] }

  function EndPut(): seq<Action> { [Produce, Produce, Produce, Produce] }

  function Get(): seq<Action> { [Consume, Consume, Consume, Consume] }

  function Pass(c: char): seq<Action> { StartPut(c) + EndPut() + Get() }

  lemma PassPuts(c: char)
    ensures Puts(StartPut(c)) == 1 && Puts(EndPut()) == 0 && Puts(Get()) == 0 && Puts(Pass(c)) == 1
  {
    CountFour(Put(c), Produce, Produce, Produce);
    CountFour(Produce, Produce, Produce, Produce);
    CountFour(Consume, Consume, Consume, Consume);
    OnePut(Put(c));
    OnePut(Produce);
    OnePut(Consume);
    PutsAppend(StartPut(c), EndPut());
    PutsAppend(StartPut(c) + EndPut(), Get());
  }

  lemma RoomVerdict(r: nat, w: nat)
    requires r < SIZE && w < SIZE && Count(r, w) < SIZE - 1
    ensures !FullTest(w, r, r)
  {
  }

  /** The consumer is asleep: a byte is stored, up to the publishing store. */
  lemma StartPutRun(s: State, c: char, tear: Tear)
    requires |s.buf| == SIZE && s.rptr < SIZE && s.wptr < SIZE && s.p == Resting && Count(s.rptr, s.wptr) < SIZE - 1
    ensures Run(s, StartPut(c), tear) == s.(buf := s.buf[s.wptr := c], p := Publishing(c))
  {
    RoomVerdict(s.rptr, s.wptr);
    hide FullTest;
    RunFour(s, Put(c), Produce, Produce, Produce, tear);
  }

  lemma EndPutRun(s: State, tear: Tear)
    requires |s.buf| == SIZE && s.wptr < SIZE && s.p.Publishing? && (tear.write ==> s.wptr + 1 < SIZE)
    ensures Run(s, EndPut(), tear) == s.(wptr := (s.wptr + 1) % SIZE, p := Resting, sent := s.sent + [s.p.c])
  {
    hide FullTest;
    RunFour(s, Produce, Produce, Produce, Produce, tear);
  }

  lemma GetRun(s: State, tear: Tear)
    requires |s.buf| == SIZE && s.rptr + 1 < SIZE && s.wptr == s.rptr + 1 && s.c == Asleep
    ensures Run(s, Get(), tear) == s.(rptr := s.rptr + 1, received := s.received + [s.buf[s.rptr]])
  {
    hide FullTest, Run;
    var t := s.(c := Loading);
    assert Step(s, Consume, tear) == t;
    var u := s.(c := Releasing(s.buf[s.rptr]));
    assert Step(t, Consume, tear) == u;
    RunFour(s, Consume, Consume, Consume, Consume, tear);
  }

  /** One byte through an empty buffer moves both indices on by one. */
  lemma PassRun(s: State, i: nat, c: char, tear: Tear)
    requires EmptyAt(s, i) && i + 1 < SIZE
    ensures EmptyAt(Run(s, Pass(c), tear), i + 1)
  {
    StartPutRun(s, c, tear);
    var t := Run(s, StartPut(c), tear);
    EndPutRun(t, tear);
    RunAppend(s, StartPut(c), EndPut(), tear);
    GetRun(Run(t, EndPut(), tear), tear);
    RunAppend(s, StartPut(c) + EndPut(), Get(), tear);
    hide Run, StartPut, EndPut, Get;
  }

  /** Every later place of the empty buffer is reached, with one put for each step. */
  lemma {:induction false} EmptyReached(s: State, i: nat, n: nat, c: char, tear: Tear) returns (actions: seq<Action>)
    requires EmptyAt(s, i) && i + n < SIZE
    ensures EmptyAt(Run(s, actions, tear), i + n) && Puts(actions) == n
  {
    if n == 0 {
      actions := [];
    } else {
      hide Run, Pass, Puts, EmptyAt;
      var before := EmptyReached(s, i, n - 1, c, tear);
      EmptyBuffer(s, i);
      EmptyBuffer(Run(s, before, tear), i + n - 1);
      PassRun(Run(s, before, tear), i + n - 1, c, tear);
      RunAppend(s, before, Pass(c), tear);
      PassPuts(c);
      PutsAppend(before, Pass(c));
      actions := before + Pass(c);
    }
  }

  lemma EmptyBuffer(s: State, i: nat)
    requires EmptyAt(s, i)
    ensures |s.buf| == SIZE
  {
  }

  /** The bound of TornFifo is exact for the write index: from every place a run with 256 - i puts shows the index 256,
      and the consumer takes a byte that was never put. */
  lemma TornIndexLeaks(s: State, i: nat, c: char) returns (actions: seq<Action>)
    requires EmptyAt(s, i)
    ensures var t := Run(s, actions, Tear(true, false)); |t.received| > |t.sent| && Puts(actions) == SIZE - i
  {
    var tear := Tear(true, false);
    var before := EmptyReached(s, i, SIZE - 1 - i, c, tear);
    var t := Run(s, before, tear);
    var put, first := StartPut(c), [Produce, Consume, Consume, Consume];
    StartPutRun(t, c, tear);
    var u := Run(t, put, tear);
    RunFour(u, Produce, Consume, Consume, Consume, tear);
    LeakAtEnd(u, c);
    RunAppend(s, before, put, tear);
    RunAppend(s, before + put, first, tear);
    RunAppend(s, before + put + first, Get(), tear);
    actions := before + put + first + Get();
    PassPuts(c);
    CountFour(Produce, Consume, Consume, Consume);
    OnePut(Produce);
    OnePut(Consume);
    PutsAppend(before, put);
    PutsAppend(before + put, first);
    PutsAppend(before + put + first, Get());
  }

  lemma StepAwake(s: State, tear: Tear)
    requires |s.buf| == SIZE && s.c == Asleep && s.wptr != s.rptr
    ensures Step(s, Consume, tear) == s.(c := Loading)
  {
    hide FullTest;
  }

  lemma StepLoading(s: State, tear: Tear)
    requires |s.buf| == SIZE && s.c == Loading && s.rptr < SIZE
    ensures Step(s, Consume, tear) == s.(c := Releasing(s.buf[s.rptr]))
  {
    hide FullTest;
  }

  lemma StepReleasing(s: State, c: char, tear: Tear)
    requires |s.buf| == SIZE && s.c == Releasing(c) && !tear.read
    ensures Step(s, Consume, tear) == s.(rptr := (s.rptr + 1) % SIZE, c := Asleep, received := s.received + [c])
  {
    hide FullTest;
  }

  lemma StepTornPublishing(s: State, c: char, tear: Tear)
    requires |s.buf| == SIZE && s.p == Publishing(c) && tear.write
    ensures Step(s, Produce, tear) == s.(wptr := s.wptr + 1, p := Wrapping, sent := s.sent + [c])
  {
    hide FullTest;
  }

  lemma LeakAtEnd(s: State, c: char)
    requires |s.buf| == SIZE && s.rptr == s.wptr == SIZE - 1 && s.p == Publishing(c) && s.c == Asleep
    requires |s.sent| == |s.received|
    ensures var t := Run(Run(s, [Produce, Consume, Consume, Consume], Tear(true, false)), Get(), Tear(true, false));
            |t.received| == |t.sent| + 1
  {
    hide FullTest, Run, Step;
    var tear := Tear(true, false);
    var published := s.(wptr := SIZE, p := Wrapping, sent := s.sent + [c]);
    StepTornPublishing(s, c, tear);
    var taken := TakesOne(published, tear);
    RunFour(s, Produce, Consume, Consume, Consume, tear);
    var twice := TakesOne(taken, tear);
    StepAwake(twice, tear);
    RunFour(taken, Consume, Consume, Consume, Consume, tear);
  }

  lemma TakesOne(s: State, tear: Tear) returns (t: State)
    requires |s.buf| == SIZE && s.c == Asleep && s.wptr != s.rptr < SIZE && !tear.read
    ensures t == Step(Step(Step(s, Consume, tear), Consume, tear), Consume, tear)
    ensures t == s.(rptr := (s.rptr + 1) % SIZE, received := s.received + [s.buf[s.rptr]])
  {
    hide FullTest, Step;
    StepAwake(s, tear);
    StepLoading(s.(c := Loading), tear);
    var loaded := s.(c := Releasing(s.buf[s.rptr]));
    StepReleasing(loaded, s.buf[s.rptr], tear);
    t := Step(loaded, Consume, tear);
  }

  // A read index with a torn wrap-around misleads the producer instead.

  /** The buffer starts at index 255 and holds n bytes; both threads are at rest. */
  predicate FilledTo(s: State, n: nat) {
    && |s.buf| == SIZE && n < SIZE && s.rptr == SIZE - 1 && s.wptr == At(SIZE - 1, n)
    && s.p == Resting && s.c == Asleep && |s.sent| == |s.received| + n
  }

  lemma FillStep(s: State, n: nat, c: char, tear: Tear)
    requires FilledTo(s, n) && n + 1 < SIZE && !tear.write
    ensures FilledTo(Run(Run(s, StartPut(c), tear), EndPut(), tear), n + 1)
  {
    hide Run, StartPut, EndPut, FullTest;
    StartPutRun(s, c, tear);
    EndPutRun(Run(s, StartPut(c), tear), tear);
  }

  lemma {:induction false} Fill(s: State, n: nat, c: char) returns (actions: seq<Action>)
    requires FilledTo(s, 0) && n < SIZE
    ensures FilledTo(Run(s, actions, Tear(false, true)), n)
  {
    var tear := Tear(false, true);
    if n == 0 {
      actions := [];
    } else {
      hide Run, StartPut, EndPut, At;
      var before := Fill(s, n - 1, c);
      var t := Run(s, before, tear);
      FillStep(t, n - 1, c, tear);
      RunAppend(s, before, StartPut(c), tear);
      RunAppend(s, before + StartPut(c), EndPut(), tear);
      actions := before + StartPut(c) + EndPut();
    }
  }

  /** A torn read index breaks the FIFO as well: the producer reads 256 and then 0 in one test, takes the full buffer for
      one with room, and the buffer then looks empty although 256 bytes have been put and not been got. */
  lemma TornReadLoses(s: State, c: char) returns (actions: seq<Action>)
    requires EmptyAt(s, 0)
    ensures var t := Run(s, actions, Tear(false, true));
            t.rptr == t.wptr && t.p == Resting && t.c == Asleep && |t.sent| == |t.received| + SIZE
  {
    var tear := Tear(false, true);
    var before := EmptyReached(s, 0, SIZE - 1, c, tear);
    var t := Run(s, before, tear);
    var fill := Fill(t, SIZE - 1, c);
    RunAppend(s, before, fill, tear);
    var u := Run(t, fill, tear);
    var rest := LoseAtFull(u, c);
    RunAppend(s, before + fill, rest, tear);
    actions := before + fill + rest;
  }

  lemma LoseFirst(s: State, c: char)
    requires FilledTo(s, SIZE - 1)
    ensures var t := Run(s, [Consume, Consume, Consume, Put(c)], Tear(false, true));
            && t.rptr == SIZE && t.wptr == SIZE - 2 && t.p == Testing(c, false) && t.c == Unwrapping
            && |t.sent| == |t.received| + SIZE - 2
  {
    hide FullTest;
    RunFour(s, Consume, Consume, Consume, Put(c), Tear(false, true));
    hide Run;
  }

  // The steps of one put, each on its own.

  lemma StepTesting(s: State, c: char, tear: Tear)
    requires |s.buf| == SIZE && s.p == Testing(c, false)
    ensures Step(s, Produce, tear) == s.(p := TestingAgain(c, false, s.rptr))
  {
    hide FullTest;
  }

  lemma StepVerdict(s: State, c: char, tear: Tear)
    requires |s.buf| == SIZE && s.p.TestingAgain? && s.p.c == c && !FullTest(s.wptr, s.p.r1, s.rptr)
    ensures Step(s, Produce, tear) == s.(p := Storing(c))
  {
    hide FullTest;
  }

  lemma StepStoring(s: State, c: char, tear: Tear)
    requires |s.buf| == SIZE && s.p == Storing(c) && s.wptr < SIZE
    ensures Step(s, Produce, tear) == s.(buf := s.buf[s.wptr := c], p := Publishing(c))
  {
    hide FullTest;
  }

  lemma StepPublishing(s: State, c: char, tear: Tear)
    requires |s.buf| == SIZE && s.p == Publishing(c) && !tear.write
    ensures Step(s, Produce, tear) == s.(wptr := (s.wptr + 1) % SIZE, p := Resting, sent := s.sent + [c])
  {
    hide FullTest;
  }

  lemma RoomAtTorn()
    ensures !FullTest(SIZE - 2, SIZE, SIZE) && !FullTest(SIZE - 1, SIZE, 0)
  {
  }

  lemma LoseSecond(s: State, c: char)
    requires |s.buf| == SIZE && s.rptr == SIZE && s.wptr == SIZE - 2 && s.p == Testing(c, false) && s.c == Unwrapping
    ensures Run(s, EndPut(), Tear(false, true)) == s.(buf := s.buf[SIZE - 2 := c], wptr := SIZE - 1, p := Resting, sent := s.sent + [c])
  {
    hide FullTest, Run, Step;
    var tear := Tear(false, true);
    RoomAtTorn();
    var t := s.(p := TestingAgain(c, false, SIZE));
    StepTesting(s, c, tear);
    StepVerdict(t, c, tear);
    var u := s.(p := Storing(c));
    StepStoring(u, c, tear);
    var v := s.(buf := s.buf[SIZE - 2 := c], p := Publishing(c));
    StepPublishing(v, c, tear);
    RunFour(s, Produce, Produce, Produce, Produce, tear);
  }

  lemma LoseThird(s: State, c: char)
    requires |s.buf| == SIZE && s.rptr == SIZE && s.wptr == SIZE - 1 && s.p == Resting && s.c == Unwrapping
    ensures Run(s, [Put(c), Produce, Consume, Produce], Tear(false, true)) == s.(rptr := 0, p := Storing(c), c := Asleep)
  {
    assert !FullTest(SIZE - 1, SIZE, 0);
    hide FullTest;
    RunFour(s, Put(c), Produce, Consume, Produce, Tear(false, true));
    hide Run;
  }

  lemma LoseFourth(s: State, c: char)
    requires |s.buf| == SIZE && s.wptr == SIZE - 1 && s.p == Storing(c)
    ensures Run(s, EndPut(), Tear(false, true)) == s.(buf := s.buf[SIZE - 1 := c], wptr := 0, p := Resting, sent := s.sent + [c])
  {
    hide FullTest;
    RunFour(s, Produce, Produce, Produce, Produce, Tear(false, true));
    hide Run;
  }

  lemma LoseAtFull(s: State, c: char) returns (actions: seq<Action>)
    requires FilledTo(s, SIZE - 1)
    ensures var t := Run(s, actions, Tear(false, true));
            t.rptr == t.wptr && t.p == Resting && t.c == Asleep && |t.sent| == |t.received| + SIZE
  {
    hide Run, EndPut;
    var tear := Tear(false, true);
    var a, b := [Consume, Consume, Consume, Put(c)], [Put(c), Produce, Consume, Produce];
    LoseFirst(s, c);
    LoseSecond(Run(s, a, tear), c);
    RunAppend(s, a, EndPut(), tear);
    LoseThird(Run(s, a + EndPut(), tear), c);
    RunAppend(s, a + EndPut(), b, tear);
    LoseFourth(Run(s, a + EndPut() + b, tear), c);
    RunAppend(s, a + EndPut() + b, EndPut(), tear);
    actions := a + EndPut() + b + EndPut();
  }
}
