/** When dif_aes_process_data may be started: the condition under which its first result is the right one, and how long an
    idle AES unit may leave a block waiting. */
module AesStart {
  import opened Bytes
  import opened Wrappers
  import opened AesDriver

  // ---------- The condition suffices ----------

  lemma OutputsFirst<S>(c: Cipher<S>, s: S, p: seq<Block>)
    requires p != []
    ensures Outputs(c, s, p)[0] == c(s, p[0]).1
  {
    OutputsPrefix(c, s, p, 1);
    assert p[..1] == [p[0]] && [p[0]][..0] == [];
    assert Outputs(c, s, [p[0]]) == [c(s, p[0]).1];
  }

  /** From a ready unit the first block the driver returns is the result of the first block, under every timing. */
  lemma StartSufficient<S>(c: Cipher<S>, d: Device<S>, p: seq<Block>, t: Timing)
    requires d.Ready() && p != [] && t.Complete()
    ensures var r := FirstResult(c, d.Observed(), p, t); r == None || r == Some(c(d.state, p[0]).1)
  {
    hide Good, Run, WriteAll, Polled, Waited, Outputs, BlockOut;
    var s := d.state;
    QuietStart(c, d, p);
    AccessPrompt(t.start);
    var start := Run(c, d.Observed(), t.start);
    StageRun(c, s, p, Filling(0), d.Observed(), t.start);
    FillAll(c, s, p, start, 4, t.fill);
    OutputsFirst(c, s, p);
    var filled := WriteAll(c, start, p[0], 4, t.fill);
    if |p| == 1 {
      if |t.valid| == 1 && Waited(c, filled, t.valid, false) {
        OnlyPoll(c, filled, t.valid, false);
        SingleValid(c, s, p, filled, t.valid[0]);
        BlockRead(c, s, p, 0, Run(c, filled, t.valid[0]), t.read);
      }
    } else if Waited(c, filled, t.ready, true) {
      LoadingEnds(c, s, p, filled, t.ready);
      var loaded := Polled(c, filled, t.ready);
      WriteBlock(c, s, p, 0, loaded, 4, t.next);
      var written := WriteAll(c, loaded, p[1], 4, t.next);
      if Waited(c, written, t.valid, false) {
        WaitingEnds(c, s, p, 0, written, t.valid);
        BlockRead(c, s, p, 0, Polled(c, written, t.valid), t.read);
      }
    }
  }

  lemma OnlyPoll<S>(c: Cipher<S>, d: Device<S>, polls: seq<Access>, input: bool)
    requires |polls| == 1 && Waited(c, d, polls, input)
    ensures Flag(d, input) && Polled(c, d, polls) == Run(c, d, polls[0])
  {
    assert polls[..0] == [];
  }

  // ---------- What comes first otherwise ----------

  /** There is a result to read, or a block in the core. */
  predicate Pending<S>(d: Device<S>) { d.OutputValid() || d.core.Busy? }

  /** The result that will be seen first. */
  function Head<S>(c: Cipher<S>, d: Device<S>): Block
    requires Pending(d)
  {
    if d.OutputValid() then d.dataOut else c(d.state, d.core.block).1
  }

  /** If there is a result to read, its last register has not been read. */
  predicate Intact<S>(d: Device<S>) { d.OutputValid() ==> 3 in d.unread }

  /** What an old result or an old block decides: the next result to be seen. */
  ghost predicate Ahead<S>(c: Cipher<S>, d: Device<S>, e: Device<S>)
    requires Pending(d)
  {
    Pending(e) && Head(c, e) == Head(c, d) && (Intact(d) ==> Intact(e)) && (d.OutputValid() ==> e.OutputValid())
  }

  lemma AheadCycle<S>(c: Cipher<S>, d: Device<S>, choice: Choice)
    requires Pending(d)
    ensures Ahead(c, d, Cycle(c, d, choice))
  {
    assert 3 in Upto(4);
  }

  lemma {:induction false} AheadRun<S>(c: Cipher<S>, d: Device<S>, choices: seq<Choice>)
    requires Pending(d)
    ensures Ahead(c, d, Run(c, d, choices))
    decreases |choices|
  {
    hide Cycle;
    if choices != [] {
      AheadCycle(c, d, choices[0]);
      AheadRun(c, Cycle(c, d, choices[0]), choices[1..]);
    }
  }

  lemma {:induction false} AheadWrites<S>(c: Cipher<S>, d: Device<S>, b: Block, n: nat, accesses: seq<Access>)
    requires Pending(d) && n <= 4 && |accesses| == n
    ensures Ahead(c, d, WriteAll(c, d, b, n, accesses))
  {
    hide Run;
    if n > 0 {
      AheadWrites(c, d, b, n - 1, accesses[..n - 1]);
      var e := WriteAll(c, d, b, n - 1, accesses[..n - 1]);
      AheadRun(c, WriteIn(e, n - 1, b[n - 1]), accesses[n - 1]);
    }
  }

  lemma {:induction false} AheadPolls<S>(c: Cipher<S>, d: Device<S>, polls: seq<Access>)
    requires Pending(d)
    ensures Ahead(c, d, Polled(c, d, polls))
    decreases |polls|
  {
    hide Run;
    if polls != [] {
      AheadPolls(c, d, polls[..|polls| - 1]);
      AheadRun(c, Polled(c, d, polls[..|polls| - 1]), polls[|polls| - 1]);
    }
  }

  lemma {:induction false} ReadsKeep<S>(c: Cipher<S>, d: Device<S>, n: nat, accesses: seq<Access>, j: nat)
    requires n <= 4 && |accesses| == n && n <= j && j in d.unread
    ensures var e := ReadAll(c, d, n, accesses); e.dataOut == d.dataOut && j in e.unread
  {
    hide Run;
    if n > 0 {
      ReadsKeep(c, d, n - 1, accesses[..n - 1], j);
      var e := ReadOut(ReadAll(c, d, n - 1, accesses[..n - 1]), n - 1);
      assert j in e.unread;
      UnreadOutputStays(c, e, accesses[n - 1]);
    }
  }

  /** A result is read as it stands, as far as the registers not read yet reach. */
  lemma BlockKept<S>(c: Cipher<S>, d: Device<S>, accesses: seq<Access>)
    requires d.OutputValid() && |accesses| == 4
    ensures BlockOut(c, d, accesses)[0] == d.dataOut[0]
    ensures 3 in d.unread ==> BlockOut(c, d, accesses) == d.dataOut
  {
    hide ReadAll;
    var j :| j in d.unread;
    ReadsKeep(c, d, 0, accesses[..0], j);
    if 3 in d.unread {
      ReadsKeep(c, d, 1, accesses[..1], 3);
      ReadsKeep(c, d, 2, accesses[..2], 3);
      ReadsKeep(c, d, 3, accesses[..3], 3);
      ReadsKeep(c, d, 0, accesses[..0], 3);
      var b := d.dataOut;
      assert b == [b[0], b[1], b[2], b[3]];
    }
  }

  lemma ReadAhead<S>(c: Cipher<S>, d: Device<S>, t: Timing)
    requires Pending(d) && t.Complete()
    ensures var r := FirstRead(c, d, t); r.Some? ==> r.value[0] == Head(c, d)[0] && (Intact(d) ==> r.value == Head(c, d))
  {
    if Waited(c, d, t.valid, false) {
      hide Run, BlockOut;
      var before := t.valid[..|t.valid| - 1];
      AheadPolls(c, d, before);
      var e := Polled(c, d, before);
      AheadRun(c, e, t.valid[|t.valid| - 1]);
      BlockKept(c, Polled(c, d, t.valid), t.read);
    }
  }

  /** With a result left unread, or a block still in the core, the first block the driver returns is that one, under every
      timing; its first word is that result's even if some of the registers have been read before. */
  lemma OldResultComesFirst<S>(c: Cipher<S>, d: Device<S>, p: seq<Block>, t: Timing)
    requires Pending(d) && p != [] && t.Complete()
    ensures var r := FirstResult(c, d, p, t);
            r.Some? ==> r.value[0] == Head(c, d)[0] && (Intact(d) ==> r.value == Head(c, d))
  {
    hide Run, WriteAll, Polled, Waited, FirstRead, Head, Intact;
    AheadRun(c, d, t.start);
    var start := Run(c, d, t.start);
    AheadWrites(c, start, p[0], 4, t.fill);
    var filled := WriteAll(c, start, p[0], 4, t.fill);
    ReadAhead(c, filled, t);
    if |p| > 1 {
      AheadPolls(c, filled, t.ready);
      var loaded := Polled(c, filled, t.ready);
      AheadWrites(c, loaded, p[1], 4, t.next);
      ReadAhead(c, WriteAll(c, loaded, p[1], 4, t.next), t);
    }
  }

  /** An unread result and a block in the core. */
  predicate Stuck<S>(d: Device<S>) { d.OutputValid() && d.core.Busy? }

  lemma {:induction false} StuckRun<S>(c: Cipher<S>, d: Device<S>, choices: seq<Choice>)
    requires Stuck(d)
    ensures Stuck(Run(c, d, choices)) && Run(c, d, choices).written == d.written
    decreases |choices|
  {
    if choices != [] {
      StuckRun(c, Cycle(c, d, choices[0]), choices[1..]);
    }
  }

  lemma {:induction false} StuckWrites<S>(c: Cipher<S>, d: Device<S>, b: Block, n: nat, accesses: seq<Access>)
    requires Stuck(d) && n <= 4 && |accesses| == n
    ensures var e := WriteAll(c, d, b, n, accesses); Stuck(e) && Upto(n) <= e.written
  {
    hide Run;
    if n > 0 {
      StuckWrites(c, d, b, n - 1, accesses[..n - 1]);
      StuckRun(c, WriteIn(WriteAll(c, d, b, n - 1, accesses[..n - 1]), n - 1, b[n - 1]), accesses[n - 1]);
    }
  }

  lemma {:induction false} StuckPolls<S>(c: Cipher<S>, d: Device<S>, polls: seq<Access>)
    requires Stuck(d)
    ensures Stuck(Polled(c, d, polls)) && Polled(c, d, polls).written == d.written
    decreases |polls|
  {
    hide Run;
    if polls != [] {
      StuckPolls(c, d, polls[..|polls| - 1]);
      StuckRun(c, Polled(c, d, polls[..|polls| - 1]), polls[|polls| - 1]);
    }
  }

  /** With both, the driver polls INPUT_READY forever: it will not read, and the unit will not load. */
  lemma NeverReady<S>(c: Cipher<S>, d: Device<S>, p: seq<Block>, t: Timing)
    requires Stuck(d) && |p| > 1 && t.Complete()
    ensures FirstResult(c, d, p, t) == None
  {
    hide Run, WriteAll, Polled, Stuck;
    StuckRun(c, d, t.start);
    var start := Run(c, d, t.start);
    StuckWrites(c, start, p[0], 4, t.fill);
    var filled := WriteAll(c, start, p[0], 4, t.fill);
    if Waited(c, filled, t.ready, true) {
      StuckPolls(c, filled, t.ready[..|t.ready| - 1]);
      assert false;
    }
  }

  // ---------- A timing that shows it ----------

  /** n cycles in which the unit is as quick as it can be. */
  function Quick(n: nat): (access: Access)
    requires n > 0
    ensures |access| == n && forall k :: 0 <= k < n ==> access[k] == Choice(0, 0)
  {
    seq(n, _ => Choice(0, 0))
  }

  function Same(access: Access, n: nat): (accesses: seq<Access>)
    ensures |accesses| == n && forall k :: 0 <= k < n ==> accesses[k] == access
  {
    seq(n, _ => access)
  }

  /** The last register a new block has to fill before the unit takes the input for complete. */
  function LastMissing(written: set<nat>): (m: nat)
    requires !(Upto(4) <= written)
    ensures m < 4 && m !in written && forall k :: m < k < 4 ==> k in written
  {
    if 3 !in written then 3 else if 2 !in written then 2 else if 1 !in written then 1 else
      assert forall k :: k in Upto(4) ==> k == 0 || k == 1 || k == 2 || k == 3;
      0
  }

  /** What it then takes: new words up to that register, and leftovers behind it. */
  function Mixed<S>(d: Device<S>, b: Block): Block
    requires d.InputReady()
  {
    b[..LastMissing(d.written) + 1] + d.dataIn[LastMissing(d.written) + 1..]
  }

  lemma {:induction false} QuickIdle<S>(c: Cipher<S>, d: Device<S>, choices: seq<Choice>)
    requires d.core.Idle? && d.InputReady()
    ensures Run(c, d, choices) == d
    decreases |choices|
  {
    if choices != [] {
      QuickIdle(c, d, choices[1..]);
    }
  }

  /** A complete input, two cycles after the hold: loaded, and finished unless a result is unread. */
  ghost predicate Shows<S>(c: Cipher<S>, d: Device<S>, e: Device<S>) {
    && e.OutputValid() && e.written == {}
    && e.unread == (if d.OutputValid() then d.unread else Upto(4))
    && e.dataOut == (if d.OutputValid() then d.dataOut else c(d.state, d.dataIn).1)
  }

  lemma {:induction false} QuickLoad<S>(c: Cipher<S>, d: Device<S>)
    requires d.core.Idle? && !d.InputReady()
    ensures Shows(c, d, Run(c, d, Quick(d.hold + 2)))
    decreases d.hold
  {
    var quick := Quick(d.hold + 2);
    var e := Cycle(c, d, quick[0]);
    if d.hold > 0 {
      assert quick[1..] == Quick(d.hold + 1);
      QuickLoad(c, e);
    } else {
      var last := [Choice(0, 0)];
      assert quick[1..] == last && 0 in Upto(4);
      assert last[1..] == [];
      assert Run(c, e, last) == Cycle(c, e, Choice(0, 0));
    }
  }

  /** After n writes of block b, before the input is complete. */
  ghost predicate Partly<S>(d: Device<S>, e: Device<S>, b: Block, n: nat)
    requires n <= 4
  {
    && e.core.Idle? && e.hold == d.hold && e.state == d.state && e.unread == d.unread && e.dataOut == d.dataOut
    && e.written == d.written + Upto(n) && e.dataIn == b[..n] + d.dataIn[n..]
  }

  /** After it: the result to be seen is there, and DATA_IN is not complete again. */
  ghost predicate Fixed<S>(c: Cipher<S>, d: Device<S>, e: Device<S>, b: Block)
    requires d.InputReady()
  {
    && e.OutputValid() && 0 !in e.written
    && e.unread == (if d.OutputValid() then d.unread else Upto(4))
    && e.dataOut == (if d.OutputValid() then d.dataOut else c(d.state, Mixed(d, b)).1)
  }

  lemma PartlyStep<S>(c: Cipher<S>, d: Device<S>, e: Device<S>, b: Block, n: nat)
    requires d.core.Idle? && d.InputReady() && n <= LastMissing(d.written) && Partly(d, e, b, n)
    ensures var f := Run(c, WriteIn(e, n, b[n]), Quick(d.hold + 2));
            if n < LastMissing(d.written) then Partly(d, f, b, n + 1) else Fixed(c, d, f, b)
  {
    hide Run;
    var m, w := LastMissing(d.written), WriteIn(e, n, b[n]);
    assert b[..n + 1] == b[..n] + [b[n]];
    assert w.dataIn == b[..n + 1] + d.dataIn[n + 1..];
    assert w.written == d.written + Upto(n + 1) by {
      assert Upto(n) + {n} == Upto(n + 1);
    }
    if n < m {
      assert m in Upto(4) && m !in w.written;
      QuickIdle(c, w, Quick(d.hold + 2));
    } else {
      assert Upto(4) <= w.written;
      QuickLoad(c, w);
    }
  }

  lemma {:induction false} WrittenStays<S>(c: Cipher<S>, d: Device<S>, choices: seq<Choice>)
    requires 0 !in d.written
    ensures 0 !in Run(c, d, choices).written
    decreases |choices|
  {
    if choices != [] {
      WrittenStays(c, Cycle(c, d, choices[0]), choices[1..]);
    }
  }

  lemma {:induction false} QuickFill<S>(c: Cipher<S>, d: Device<S>, b: Block, n: nat)
    requires d.core.Idle? && d.InputReady() && n <= 4
    ensures var e := WriteAll(c, d, b, n, Same(Quick(d.hold + 2), n));
            if n <= LastMissing(d.written) then Partly(d, e, b, n) else Fixed(c, d, e, b)
  {
    hide Run;
    if n == 0 {
      assert d.written + Upto(0) == d.written;
    } else {
      var access := Quick(d.hold + 2);
      QuickFill(c, d, b, n - 1);
      assert Same(access, n)[..n - 1] == Same(access, n - 1);
      var e := WriteAll(c, d, b, n - 1, Same(access, n - 1));
      if n - 1 <= LastMissing(d.written) {
        PartlyStep(c, d, e, b, n - 1);
      } else {
        UnreadOutputStays(c, WriteIn(e, n - 1, b[n - 1]), access);
        WrittenStays(c, WriteIn(e, n - 1, b[n - 1]), access);
      }
    }
  }

  function QuickTiming(start: nat, hold: nat): (t: Timing)
    requires start > 0
    ensures t.Complete()
  {
    Timing(Quick(start), Same(Quick(hold + 2), 4), [Quick(1)], Same(Quick(1), 4), [Quick(1)], Same(Quick(1), 4))
  }

  lemma {:induction false} WritesKeep<S>(c: Cipher<S>, d: Device<S>, b: Block, n: nat, accesses: seq<Access>)
    requires d.OutputValid() && n <= 4 && |accesses| == n
    ensures var e := WriteAll(c, d, b, n, accesses); e.unread == d.unread && e.dataOut == d.dataOut
  {
    hide Run;
    if n > 0 {
      WritesKeep(c, d, b, n - 1, accesses[..n - 1]);
      UnreadOutputStays(c, WriteIn(WriteAll(c, d, b, n - 1, accesses[..n - 1]), n - 1, b[n - 1]), accesses[n - 1]);
    }
  }

  /** A result that is there is returned at once. */
  lemma ReadNow<S>(c: Cipher<S>, d: Device<S>, t: Timing)
    requires d.OutputValid() && t.Complete() && t.valid == [Quick(1)]
    ensures var r := FirstRead(c, d, t);
            r.Some? && r.value[0] == d.dataOut[0] && (3 in d.unread ==> r.value == d.dataOut)
  {
    hide Run, BlockOut;
    OnePoll(c, d, Quick(1), false);
    UnreadOutputStays(c, d, Quick(1));
    BlockKept(c, Polled(c, d, t.valid), t.read);
  }

  /** From an idle unit the first block returned in a quick run: an old result if there is one, otherwise the result of what
      the unit takes for the first complete input. */
  lemma QuickFirst<S>(c: Cipher<S>, d: Device<S>, p: seq<Block>, start: nat)
    requires d.core.Idle? && d.InputReady() && p != [] && start > 0
    ensures var r := FirstAfter(c, d, p, QuickTiming(start, d.hold));
            && r.Some?
            && (d.OutputValid() ==> r.value[0] == d.dataOut[0])
            && (!d.OutputValid() ==> r == Some(c(d.state, Mixed(d, p[0])).1))
  {
    hide Run, WriteAll, Mixed, FirstRead;
    var t := QuickTiming(start, d.hold);
    QuickFill(c, d, p[0], 4);
    var filled := WriteAll(c, d, p[0], 4, t.fill);
    assert 3 in Upto(4) && 0 in Upto(4);
    if |p| == 1 {
      ReadNow(c, filled, t);
    } else {
      OnePoll(c, filled, Quick(1), true);
      UnreadOutputStays(c, filled, Quick(1));
      var loaded := Polled(c, filled, t.ready);
      WritesKeep(c, loaded, p[1], 4, t.next);
      ReadNow(c, WriteAll(c, loaded, p[1], 4, t.next), t);
    }
  }

  // ---------- The condition is necessary ----------

  /** A cipher that shows which block it was given. */
  function Identity<S>(s: S, b: Block): (S, Block) { (s, b) }

  function Other(w: word): (v: word)
    ensures v != w
  {
    if w == 0 then 1 else 0
  }

  /** The core finishes, with nothing unread and nothing complete behind it. */
  lemma {:induction false} QuickFinish<S>(c: Cipher<S>, d: Device<S>)
    requires d.core.Busy? && !d.OutputValid() && d.InputReady()
    ensures var e := Run(c, d, Quick(d.core.remaining + 1));
            && e.core.Idle? && e.InputReady() && e.OutputValid() && e.hold == 0
            && e.dataOut == c(d.state, d.core.block).1
    decreases d.core.remaining
  {
    var quick := Quick(d.core.remaining + 1);
    if d.core.remaining > 0 {
      assert quick[1..] == Quick(d.core.remaining);
      QuickFinish(c, Cycle(c, d, quick[0]));
    } else {
      assert quick[1..] == [] && 0 in Upto(4);
    }
  }

  /** If INPUT_READY is set but the unit is not ready in the driver's sense, there are a cipher and a first block for which the
      driver either never gets past its first poll, or returns a first block that is not the result, in some timing: a result
      left unread, a block still in the core, and a leftover in register 3 each spoil it. */
  lemma StartNecessary<S>(d: Device<S>, rest: seq<Block>) returns (b: Block, t: Timing)
    requires d.InputReady() && !d.Ready()
    ensures t.Complete()
    ensures || (forall u: Timing :: u.Complete() ==> FirstResult(Identity<S>, d, [b] + rest, u) == None)
            || (var r := FirstResult(Identity<S>, d, [b] + rest, t); r.Some? && r.value != Identity(d.state, b).1)
  {
    hide Run, FirstAfter, FirstResult, Mixed;
    if d.core.Busy? {
      b := [Other(if d.OutputValid() then d.dataOut[0] else d.core.block[0]), 0, 0, 0];
      if d.OutputValid() {
        t := QuickTiming(1, 0);
        if rest != [] {
          forall u: Timing | u.Complete()
            ensures FirstResult(Identity<S>, d, [b] + rest, u) == None
          {
            NeverReady(Identity<S>, d, [b] + rest, u);
          }
        } else {
          StaleSingle(d, b);
          assert [b] + rest == [b];
        }
      } else {
        t := QuickTiming(d.core.remaining + 1, 0);
        QuickFinish(Identity<S>, d);
        QuickFirst(Identity<S>, Run(Identity<S>, d, t.start), [b] + rest, d.core.remaining + 1);
        ResultOf(d, [b] + rest, t);
      }
    } else {
      t := QuickTiming(1, d.hold);
      b := [Other(d.dataOut[0]), 0, 0, Other(d.dataIn[3])];
      QuickIdle(Identity<S>, d, t.start);
      QuickFirst(Identity<S>, d, [b] + rest, 1);
      ResultOf(d, [b] + rest, t);
      if !d.OutputValid() {
        MixedLast(d, b);
      }
    }
  }

  lemma ResultOf<S>(d: Device<S>, p: seq<Block>, t: Timing)
    requires p != [] && t.Complete()
    ensures FirstResult(Identity<S>, d, p, t) == FirstAfter(Identity<S>, Run(Identity<S>, d, t.start), p, t)
  {
  }

  lemma MixedLast<S>(d: Device<S>, b: Block)
    requires d.InputReady() && 3 in d.written
    ensures Mixed(d, b)[3] == d.dataIn[3]
  {
  }

  /** A single block is not waited for, so an old result is returned even while the core is blocked. */
  lemma StaleSingle<S>(d: Device<S>, b: Block)
    requires d.OutputValid()
    ensures var r := FirstResult(Identity<S>, d, [b], QuickTiming(1, 0)); r.Some? && r.value[0] == d.dataOut[0]
  {
    hide Run, WriteAll, FirstRead;
    var c, t := Identity<S>, QuickTiming(1, 0);
    UnreadOutputStays(c, d, t.start);
    WritesKeep(c, Run(c, d, t.start), b, 4, t.fill);
    ReadNow(c, WriteAll(c, Run(c, d, t.start), b, 4, t.fill), t);
  }

  /** A leftover in register 3 completes the input too early: in a quick run the first block returned is the result of a block
      whose last word is the leftover. */
  lemma LeftoverTaken<S>(c: Cipher<S>, d: Device<S>, p: seq<Block>)
    requires d.Drained() && d.InputReady() && 3 in d.written && p != []
    ensures FirstResult(c, d, p, QuickTiming(1, d.hold)) == Some(c(d.state, Mixed(d, p[0])).1)
    ensures Mixed(d, p[0])[3] == d.dataIn[3]
  {
    hide Run, FirstAfter;
    QuickIdle(c, d, QuickTiming(1, d.hold).start);
    QuickFirst(c, d, p, 1);
  }

  /** A run in which the driver returns a first block. */
  ghost predicate Returns<S>(d: Device<S>, p: seq<Block>, t: Timing) {
    p != [] && t.Complete() && FirstResult(Identity<S>, d.Observed(), p, t) != None
  }

  /** A run in which it does not return a wrong one. */
  ghost predicate NotWrong<S>(d: Device<S>, p: seq<Block>, t: Timing) {
    p != [] && t.Complete() && Returns(d, p, t)
    ==> FirstResult(Identity<S>, d.Observed(), p, t) == Some(Identity(d.state, p[0]).1)
  }

  /** The driver can get past its polls, and what it then returns first is right. */
  ghost predicate Right<S(!new)>(d: Device<S>, p: seq<Block>) {
    (exists t: Timing :: Returns(d, p, t)) && (forall t: Timing :: NotWrong(d, p, t))
  }

  /** Whatever the first block. */
  ghost predicate StartsRight<S(!new)>(d: Device<S>, rest: seq<Block>) {
    forall b: Block :: Right(d, [b] + rest)
  }

  /** The start condition is exact. */
  lemma StartExact<S(!new)>(d: Device<S>, rest: seq<Block>)
    requires d.InputReady()
    ensures StartsRight(d, rest) <==> d.Ready()
  {
    if d.Ready() {
      forall b: Block
        ensures Right(d, [b] + rest)
      {
        ReadyRight(d, [b] + rest);
      }
    } else {
      var b, t := StartNecessary(d.Observed(), rest);
      NotRight(d, rest, b, t);
    }
  }

  lemma ReadyRight<S(!new)>(d: Device<S>, p: seq<Block>)
    requires d.Ready() && d.InputReady() && p != []
    ensures Right(d, p)
  {
    hide FirstResult;
    SomeTiming(d.Observed(), p);
    assert Returns(d, p, QuickTiming(1, d.hold));
    forall t: Timing
      ensures NotWrong(d, p, t)
    {
      if t.Complete() {
        StartSufficient(Identity<S>, d, p, t);
      }
    }
  }

  lemma NotRight<S(!new)>(d: Device<S>, rest: seq<Block>, b: Block, t: Timing)
    requires t.Complete()
    requires || (forall u: Timing :: u.Complete() ==> FirstResult(Identity<S>, d.Observed(), [b] + rest, u) == None)
             || (var r := FirstResult(Identity<S>, d.Observed(), [b] + rest, t); r.Some? && r.value != Identity(d.state, b).1)
    ensures !StartsRight(d, rest)
  {
    hide FirstResult;
    var p := [b] + rest;
    if exists u: Timing :: Returns(d, p, u) {
      assert !NotWrong(d, p, t);
    }
    assert !Right(d, p);
  }

  lemma SomeTiming<S>(d: Device<S>, p: seq<Block>)
    requires d.core.Idle? && d.InputReady() && p != []
    ensures QuickTiming(1, d.hold).Complete() && FirstResult(Identity<S>, d, p, QuickTiming(1, d.hold)) != None
  {
    hide Run, FirstAfter;
    QuickIdle(Identity<S>, d, QuickTiming(1, d.hold).start);
    QuickFirst(Identity<S>, d, p, 1);
  }

  // ---------- How long a block may wait ----------

  lemma {:induction false} Holding<S>(c: Cipher<S>, d: Device<S>, choices: seq<Choice>)
    requires d.core.Idle? && !d.InputReady() && |choices| <= d.hold
    ensures Run(c, d, choices) == d.(hold := d.hold - |choices|)
    decreases |choices|
  {
    if choices != [] {
      Holding(c, Cycle(c, d, choices[0]), choices[1..]);
    }
  }

  lemma {:induction false} HoldingReads<S>(c: Cipher<S>, d: Device<S>, n: nat, accesses: seq<Access>)
    requires d.core.Idle? && !d.InputReady() && n <= 4 && |accesses| == n && n <= d.hold
    requires forall k :: 0 <= k < n ==> |accesses[k]| == 1
    ensures var e := ReadAll(c, d, n, accesses);
            e.core.Idle? && e.written == d.written && e.mine == d.mine && e.hold == d.hold - n
  {
    hide Run;
    if n > 0 {
      HoldingReads(c, d, n - 1, accesses[..n - 1]);
      Holding(c, ReadOut(ReadAll(c, d, n - 1, accesses[..n - 1]), n - 1), accesses[n - 1]);
    }
  }

  /** MAX_DELAY is the longest wait the driver can afford: if block i has finished before block i + 1 is complete and the unit
      would leave it waiting one cycle longer, accesses of one cycle each bring the driver to the first write of block i + 2 while
      block i + 1 is still in DATA_IN, and overwrite it. */
  lemma TooSlow<S>(c: Cipher<S>, d: Device<S>, b: Block, last: Access, status: Access, outs: seq<Access>, w: word)
    requires d.core.Idle? && d.OutputValid() && Holds(d, b, 3) && d.hold > MAX_DELAY
    requires |last| == |status| == 1 && |outs| == 4 && forall k :: 0 <= k < 4 ==> |outs[k]| == 1
    ensures var written := Run(c, WriteIn(d, 3, b[3]), last);
            && written.OutputValid()
            && var e := ReadAll(c, Run(c, written, status), 4, outs);
               !e.InputReady() && WriteIn(e, 0, w).clobbered
  {
    hide Run;
    var full := WriteIn(d, 3, b[3]);
    assert Upto(4) <= full.written && full.mine == Upto(4) by {
      assert Upto(3) + {3} == Upto(4);
    }
    Holding(c, full, last);
    Holding(c, Run(c, full, last), status);
    HoldingReads(c, Run(c, Run(c, full, last), status), 4, outs);
    assert 0 in Upto(4);
  }
}
