/** dif_aes.c against a model of the AES unit in automatic mode: a core of unknown latency between
    the DATA_IN and DATA_OUT registers, running at the same time as the driver. */
module AesDriver {
  import opened Bytes
  import opened Wrappers

  type Block = s: seq<word> | |s| == 4 witness [0, 0, 0, 0]

  /** The cipher, which may carry state from block to block (chaining modes). */
  type Cipher<!S> = (S, Block) -> (S, Block)

  datatype Core = Idle | Busy(block: Block, remaining: nat)

  /** What the unit is free to do in a cycle: how long it may later leave a complete input waiting for the idle core, and
      how many cycles the block it loads will take. */
  datatype Choice = Choice(delay: nat, latency: nat)

  /** The longest wait the driver can afford between two blocks, which AesStart.TooSlow shows to be exact. */
  const MAX_DELAY: nat := 5

  /** The cycles that pass from one bus access to the next: at least one. */
  type Access = s: seq<Choice> | s != [] && forall k :: 0 <= k < |s| ==> s[k].delay <= MAX_DELAY
    witness [Choice(0, 0)]

  /** The unit. written and unread are the registers written since the last load and not read since the last result; hold is
      how long the idle core will leave a complete input waiting. taken, made, mine and clobbered only observe: the blocks
      loaded and the results produced since the observation started, the registers written since then and not loaded, and
      whether one of those was overwritten. */
  datatype Device<S> = Device(dataIn: Block, written: set<nat>, dataOut: Block, unread: set<nat>, core: Core, hold: nat,
                              state: S, taken: seq<Block>, made: seq<Block>, mine: set<nat>, clobbered: bool)
  {
    predicate InputReady() { !(Upto(4) <= written) }

    predicate OutputValid() { unread != {} }

    /** Nothing in the core and nothing to read. */
    predicate Drained() { unread == {} && core == Idle }

    /** The condition under which the driver works. Registers 0 to 2 may hold leftovers, register 3 may not. */
    predicate Ready() { Drained() && 3 !in written }

    /** The same unit with a new observation. */
    function Observed(): Device<S> { this.(taken := [], made := [], mine := {}, clobbered := false) }
  }

  /** The registers below n. */
  function Upto(n: nat): (r: set<nat>)
    ensures forall k: nat :: k in r <==> k < n
  {
    if n == 0 then {} else Upto(n - 1) + {n - 1}
  }

  function WriteIn<S>(d: Device<S>, k: nat, w: word): Device<S>
    requires k < 4
  {
    d.(dataIn := d.dataIn[k := w], written := d.written + {k}, mine := d.mine + {k}, clobbered := d.clobbered || k in d.mine)
  }

  function ReadOut<S>(d: Device<S>, k: nat): Device<S> {
    d.(unread := d.unread - {k})
  }

  /** Loads a complete input. */
  function Load<S>(d: Device<S>, latency: nat): Device<S> {
    if d.InputReady() then d
    else d.(core := Busy(d.dataIn, latency), written := {}, mine := {}, taken := d.taken + [d.dataIn])
  }

  /** One clock cycle: an idle core waits out the hold and loads; a busy one counts down, then waits until the last result
      has been read, then publishes its own and loads in the same cycle. */
  function Cycle<S>(c: Cipher<S>, d: Device<S>, choice: Choice): Device<S> {
    match d.core
    case Idle =>
      if d.InputReady() then d else if d.hold > 0 then d.(hold := d.hold - 1) else Load(d, choice.latency)
    case Busy(b, n) =>
      if n > 0 then d.(core := Busy(b, n - 1))
      else if d.OutputValid() then d
      else Load(Finished(c, d, choice.delay), choice.latency)
  }

  function Finished<S>(c: Cipher<S>, d: Device<S>, delay: nat): Device<S>
    requires d.core.Busy?
  {
    var (s, out) := c(d.state, d.core.block);
    d.(core := Idle, hold := delay, state := s, dataOut := out, unread := Upto(4), made := d.made + [out])
  }

  function Run<S>(c: Cipher<S>, d: Device<S>, choices: seq<Choice>): Device<S>
    decreases |choices|
  {
    if choices == [] then d else Run(c, Cycle(c, d, choices[0]), choices[1..])
  }

  // ---------- What the unit should produce ----------

  function After<S>(c: Cipher<S>, s: S, blocks: seq<Block>): S
    decreases |blocks|
  {
    if blocks == [] then s else c(After(c, s, blocks[..|blocks| - 1]), blocks[|blocks| - 1]).0
  }

  function Outputs<S>(c: Cipher<S>, s: S, blocks: seq<Block>): (r: seq<Block>)
    ensures |r| == |blocks|
    decreases |blocks|
  {
    if blocks == [] then []
    else Outputs(c, s, blocks[..|blocks| - 1]) + [c(After(c, s, blocks[..|blocks| - 1]), blocks[|blocks| - 1]).1]
  }

  lemma Extend<S>(c: Cipher<S>, s: S, blocks: seq<Block>, b: Block)
    ensures After(c, s, blocks + [b]) == c(After(c, s, blocks), b).0
    ensures Outputs(c, s, blocks + [b]) == Outputs(c, s, blocks) + [c(After(c, s, blocks), b).1]
  {
    assert (blocks + [b])[..|blocks|] == blocks;
  }

  lemma {:induction false} OutputsPrefix<S>(c: Cipher<S>, s: S, blocks: seq<Block>, n: nat)
    requires n <= |blocks|
    ensures Outputs(c, s, blocks[..n]) == Outputs(c, s, blocks)[..n]
    decreases |blocks|
  {
    if n < |blocks| {
      var shorter := blocks[..|blocks| - 1];
      OutputsPrefix(c, s, shorter, n);
      assert shorter[..n] == blocks[..n];
      Extend(c, s, shorter, blocks[|blocks| - 1]);
      assert shorter + [blocks[|blocks| - 1]] == blocks;
    } else {
      assert blocks[..n] == blocks;
    }
  }

  /** Result i is the cipher's on block i, in the state all blocks before it have led to. */
  lemma OutputAt<S>(c: Cipher<S>, s: S, blocks: seq<Block>, i: nat)
    requires i < |blocks|
    ensures Outputs(c, s, blocks)[i] == c(After(c, s, blocks[..i]), blocks[i]).1
    ensures After(c, s, blocks[..i + 1]) == c(After(c, s, blocks[..i]), blocks[i]).0
  {
    hide After, Outputs;
    OutputsPrefix(c, s, blocks, i + 1);
    assert blocks[..i + 1] == blocks[..i] + [blocks[i]];
    Extend(c, s, blocks[..i], blocks[i]);
  }

  // ---------- An unread result stays until it is read ----------

  /** In automatic mode no timing replaces a result that has not been read completely. */
  lemma {:induction false} UnreadOutputStays<S>(c: Cipher<S>, d: Device<S>, choices: seq<Choice>)
    requires d.OutputValid()
    ensures var e := Run(c, d, choices); e.unread == d.unread && e.dataOut == d.dataOut && e.made == d.made
    decreases |choices|
  {
    if choices != [] {
      UnreadOutputStays(c, Cycle(c, d, choices[0]), choices[1..]);
    }
  }

  // ---------- The stages of the driver ----------

  /** Filling(w): w registers of block 0 are written. Loading: all are. Writing(i, w): block i is loaded and w
      registers of block i + 1 are written. Waiting(i, left): all are, and an idle core loads them after at most left
      more cycles of waiting. Reading(i, r): r registers of result i are read. */
  datatype Stage =
    Filling(w: nat) | Loading | Writing(i: nat, w: nat) | Waiting(i: nat, left: nat) | Reading(i: nat, r: nat) | Done

  /** The observations match the cipher: results are those of the loaded blocks, one of which may be in the core. */
  ghost predicate Consistent<S>(c: Cipher<S>, s: S, p: seq<Block>, d: Device<S>) {
    && !d.clobbered
    && d.taken <= p
    && |d.made| <= |d.taken|
    && d.made == Outputs(c, s, d.taken[..|d.made|])
    && d.state == After(c, s, d.taken[..|d.made|])
    && (d.core.Idle? ==> |d.taken| == |d.made|)
    && (d.core.Busy? ==> |d.taken| == |d.made| + 1 && d.core.block == d.taken[|d.made|])
    && (d.OutputValid() ==> |d.made| > 0 && d.dataOut == d.made[|d.made| - 1])
  }

  /** The first w registers of DATA_IN hold new words of block b; the last one is written last. */
  ghost predicate Holds<S>(d: Device<S>, b: Block, w: nat) {
    w <= 4 && Upto(w) <= d.written && d.mine == Upto(w) && (w < 4 ==> 3 !in d.written) && d.dataIn[..w] == b[..w]
  }

  predicate Empty<S>(d: Device<S>) { d.written == {} && d.mine == {} }

  /** The results not read yet: none while block i is in the core, all of result i after that. */
  predicate Shown<S>(d: Device<S>, i: nat) {
    (|d.made| == i || |d.made| == i + 1) && d.unread == (if |d.made| == i + 1 then Upto(4) else {})
  }

  ghost predicate Positioned<S>(p: seq<Block>, stage: Stage, d: Device<S>) {
    var taken, made := |d.taken|, |d.made|;
    match stage
    case Filling(w) => taken == 0 && d.Drained() && w < 4 && |p| > 0 && Holds(d, p[0], w)
    case Loading =>
      if taken == 0 then d.Drained() && |p| > 0 && Holds(d, p[0], 4)
      else taken == 1 && Empty(d) && Shown(d, 0) && (made == 1 ==> d.hold <= MAX_DELAY)
    case Writing(i, w) =>
      && taken == i + 1 && Shown(d, i) && (made == i + 1 ==> d.hold <= MAX_DELAY)
      && (if w == 0 then Empty(d) else w < 4 && i + 1 < |p| && Holds(d, p[i + 1], w))
    case Waiting(i, left) =>
      && i + 1 < |p|
      && (if taken == i + 1 then Shown(d, i) && Holds(d, p[i + 1], 4) && (made == i + 1 ==> d.hold <= left)
          else taken == i + 2 && made == i + 1 && d.unread == Upto(4) && Empty(d))
    case Reading(i, r) =>
      && i < |p| && r < 4 && made == i + 1 && d.unread == Upto(4) - Upto(r)
      && (if taken == i + 1 && i + 1 < |p| then Holds(d, p[i + 1], 4) && d.hold + r <= 3
          else taken == (if i + 1 < |p| then i + 2 else i + 1) && Empty(d))
    case Done => taken == |p| && d.Drained() && Empty(d)
  }

  ghost predicate Good<S>(c: Cipher<S>, s: S, p: seq<Block>, stage: Stage, d: Device<S>) {
    Consistent(c, s, p, d) && Positioned(p, stage, d)
  }

  lemma LoadConsistent<S>(c: Cipher<S>, s: S, p: seq<Block>, d: Device<S>, latency: nat)
    requires Consistent(c, s, p, d) && d.core.Idle?
    requires d.InputReady() || (|d.taken| < |p| && d.dataIn == p[|d.taken|])
    ensures Consistent(c, s, p, Load(d, latency))
  {
    var e := Load(d, latency);
    assert e.taken[..|d.made|] == d.taken[..|d.made|];
    assert e.taken <= p;
  }

  lemma FinishConsistent<S>(c: Cipher<S>, s: S, p: seq<Block>, d: Device<S>, delay: nat)
    requires Consistent(c, s, p, d) && d.core.Busy?
    ensures Consistent(c, s, p, Finished(c, d, delay))
  {
    Extend(c, s, d.taken[..|d.made|], d.core.block);
    assert d.taken[..|d.made|] + [d.core.block] == d.taken[..|d.made| + 1];
  }

  lemma CycleConsistent<S>(c: Cipher<S>, s: S, p: seq<Block>, d: Device<S>, choice: Choice)
    requires Consistent(c, s, p, d)
    requires d.InputReady() || (|d.taken| < |p| && d.dataIn == p[|d.taken|])
    ensures Consistent(c, s, p, Cycle(c, d, choice))
  {
    if d.core.Idle? {
      LoadConsistent(c, s, p, d, choice.latency);
    } else if d.core.remaining == 0 && !d.OutputValid() {
      FinishConsistent(c, s, p, d, choice.delay);
      LoadConsistent(c, s, p, Finished(c, d, choice.delay), choice.latency);
    }
  }

  /** Every stage is stable under the unit's own progress, whatever its timing. */
  lemma StageCycle<S>(c: Cipher<S>, s: S, p: seq<Block>, stage: Stage, d: Device<S>, choice: Choice)
    requires Good(c, s, p, stage, d) && choice.delay <= MAX_DELAY
    ensures Good(c, s, p, stage, Cycle(c, d, choice))
  {
    InputMatches(c, s, p, stage, d);
    CycleConsistent(c, s, p, d, choice);
    StagePositioned(c, s, p, stage, d, choice);
  }

  lemma InputMatches<S>(c: Cipher<S>, s: S, p: seq<Block>, stage: Stage, d: Device<S>)
    requires Good(c, s, p, stage, d)
    ensures d.InputReady() || (|d.taken| < |p| && d.dataIn == p[|d.taken|])
  {
    hide After, Outputs;
    assert 3 in Upto(4);
  }

  lemma StagePositioned<S>(c: Cipher<S>, s: S, p: seq<Block>, stage: Stage, d: Device<S>, choice: Choice)
    requires Good(c, s, p, stage, d) && choice.delay <= MAX_DELAY
    ensures Positioned(p, stage, Cycle(c, d, choice))
  {
    hide After, Outputs;
    assert 3 in Upto(4);
  }

  predicate Prompt(choices: seq<Choice>) {
    forall k :: 0 <= k < |choices| ==> choices[k].delay <= MAX_DELAY
  }

  lemma {:induction false} StageRun<S>(c: Cipher<S>, s: S, p: seq<Block>, stage: Stage, d: Device<S>, choices: seq<Choice>)
    requires Good(c, s, p, stage, d) && Prompt(choices)
    ensures Good(c, s, p, stage, Run(c, d, choices))
    decreases |choices|
  {
    hide Good, Cycle;
    if choices != [] {
      StageCycle(c, s, p, stage, d, choices[0]);
      StageRun(c, s, p, stage, Cycle(c, d, choices[0]), choices[1..]);
    }
  }

  // ---------- Bus accesses ----------

  /** The first n registers of DATA_IN written one after the other. */
  function WriteAll<S>(c: Cipher<S>, d: Device<S>, b: Block, n: nat, accesses: seq<Access>): Device<S>
    requires n <= 4 && |accesses| == n
  {
    if n == 0 then d
    else Run(c, WriteIn(WriteAll(c, d, b, n - 1, accesses[..n - 1]), n - 1, b[n - 1]), accesses[n - 1])
  }

  /** The first n registers of DATA_OUT read one after the other. */
  function ReadAll<S>(c: Cipher<S>, d: Device<S>, n: nat, accesses: seq<Access>): Device<S>
    requires n <= 4 && |accesses| == n
  {
    if n == 0 then d
    else Run(c, ReadOut(ReadAll(c, d, n - 1, accesses[..n - 1]), n - 1), accesses[n - 1])
  }

  /** The word the k-th of these reads gives. */
  function WordRead<S>(c: Cipher<S>, d: Device<S>, k: nat, accesses: seq<Access>): word
    requires k < 4 && |accesses| == 4
  {
    ReadAll(c, d, k, accesses[..k]).dataOut[k]
  }

  function BlockOut<S>(c: Cipher<S>, d: Device<S>, accesses: seq<Access>): Block
    requires |accesses| == 4
  {
    [WordRead(c, d, 0, accesses), WordRead(c, d, 1, accesses), WordRead(c, d, 2, accesses), WordRead(c, d, 3, accesses)]
  }

  /** Some status reads. */
  function Polled<S>(c: Cipher<S>, d: Device<S>, polls: seq<Access>): Device<S> {
    if polls == [] then d else Run(c, Polled(c, d, polls[..|polls| - 1]), polls[|polls| - 1])
  }

  /** The bit a poll looks at: INPUT_READY or OUTPUT_VALID. */
  predicate Flag<S>(d: Device<S>, input: bool) { if input then d.InputReady() else d.OutputValid() }

  /** The last of these status reads, and no other, has seen the bit set. */
  ghost predicate Waited<S>(c: Cipher<S>, d: Device<S>, polls: seq<Access>, input: bool) {
    && polls != []
    && (forall k :: 0 <= k < |polls| - 1 ==> !Flag(Polled(c, d, polls[..k]), input))
    && Flag(Polled(c, d, polls[..|polls| - 1]), input)
  }

  function FillStage(n: nat): Stage { if n < 4 then Filling(n) else Loading }

  function WriteStage(i: nat, n: nat): Stage { if n < 4 then Writing(i, n) else Waiting(i, MAX_DELAY) }

  function ReadStage(p: seq<Block>, i: nat, n: nat): Stage {
    if n < 4 then Reading(i, n) else if i + 1 < |p| then Writing(i + 1, 0) else Done
  }

  lemma WriteConsistent<S>(c: Cipher<S>, s: S, p: seq<Block>, d: Device<S>, k: nat, w: word)
    requires Consistent(c, s, p, d) && k < 4 && k !in d.mine
    ensures Consistent(c, s, p, WriteIn(d, k, w))
  {
  }

  lemma ReadConsistent<S>(c: Cipher<S>, s: S, p: seq<Block>, d: Device<S>, k: nat)
    requires Consistent(c, s, p, d)
    ensures Consistent(c, s, p, ReadOut(d, k))
    ensures d.OutputValid() ==> |d.made| <= |p| && d.dataOut == Outputs(c, s, p)[|d.made| - 1]
  {
    if d.OutputValid() {
      OutputsPrefix(c, s, p, |d.made|);
      assert p[..|d.made|] == d.taken[..|d.made|];
    }
  }

  lemma HoldsStep<S>(d: Device<S>, b: Block, w: nat)
    requires w < 4 && (Holds(d, b, w) || (w == 0 && Empty(d)))
    ensures Holds(WriteIn(d, w, b[w]), b, w + 1)
    ensures w !in d.mine
  {
    assert Upto(w) + {w} == Upto(w + 1);
    assert d.dataIn[w := b[w]][..w + 1] == d.dataIn[..w] + [b[w]];
    assert b[..w + 1] == b[..w] + [b[w]];
  }

  lemma FillStep<S>(c: Cipher<S>, s: S, p: seq<Block>, w: nat, d: Device<S>)
    requires Good(c, s, p, Filling(w), d)
    ensures Good(c, s, p, FillStage(w + 1), WriteIn(d, w, p[0][w]))
  {
    HoldsStep(d, p[0], w);
    WriteConsistent(c, s, p, d, w, p[0][w]);
    hide Consistent, Holds;
  }

  lemma WriteStep<S>(c: Cipher<S>, s: S, p: seq<Block>, i: nat, w: nat, d: Device<S>)
    requires Good(c, s, p, Writing(i, w), d) && i + 1 < |p| && w < 4
    ensures Good(c, s, p, WriteStage(i, w + 1), WriteIn(d, w, p[i + 1][w]))
  {
    HoldsStep(d, p[i + 1], w);
    WriteConsistent(c, s, p, d, w, p[i + 1][w]);
    hide Consistent, Holds;
  }

  lemma Remaining(r: nat)
    requires r < 4
    ensures Upto(4) - Upto(r) != {}
    ensures Upto(4) - Upto(r) - {r} == Upto(4) - Upto(r + 1)
    ensures r == 3 ==> Upto(4) - Upto(r + 1) == {}
  {
    assert r in Upto(4) - Upto(r);
  }

  lemma ReadWord<S>(c: Cipher<S>, s: S, p: seq<Block>, i: nat, r: nat, d: Device<S>)
    requires Good(c, s, p, Reading(i, r), d)
    ensures d.dataOut == Outputs(c, s, p)[i]
  {
    Remaining(r);
    ReadConsistent(c, s, p, d, r);
    hide Consistent, Outputs;
  }

  lemma ReadInput<S>(c: Cipher<S>, s: S, p: seq<Block>, i: nat, r: nat, d: Device<S>)
    requires Good(c, s, p, Reading(i, r), d)
    ensures d.InputReady() || (|d.taken| < |p| && d.dataIn == p[|d.taken|])
  {
    InputMatches(c, s, p, Reading(i, r), d);
  }

  /** A read and the cycle after it: by the last read a waiting block has been loaded. */
  lemma ReadStep<S>(c: Cipher<S>, s: S, p: seq<Block>, i: nat, r: nat, d: Device<S>, choice: Choice)
    requires Good(c, s, p, Reading(i, r), d) && choice.delay <= MAX_DELAY
    ensures Good(c, s, p, ReadStage(p, i, r + 1), Cycle(c, ReadOut(d, r), choice))
  {
    Remaining(r);
    ReadConsistent(c, s, p, d, r);
    ReadInput(c, s, p, i, r, d);
    CycleConsistent(c, s, p, ReadOut(d, r), choice);
    ReadPositioned(c, s, p, i, r, d, choice);
  }

  lemma ReadPositioned<S>(c: Cipher<S>, s: S, p: seq<Block>, i: nat, r: nat, d: Device<S>, choice: Choice)
    requires Good(c, s, p, Reading(i, r), d) && choice.delay <= MAX_DELAY
    ensures Positioned(p, ReadStage(p, i, r + 1), Cycle(c, ReadOut(d, r), choice))
  {
    Remaining(r);
    hide After, Outputs;
    assert 3 in Upto(4);
  }

  lemma AccessPrompt(access: Access)
    ensures Prompt(access) && Prompt(access[1..]) && access[0].delay <= MAX_DELAY
  {
  }

  lemma {:induction false} FillAll<S>(c: Cipher<S>, s: S, p: seq<Block>, d: Device<S>, n: nat, accesses: seq<Access>)
    requires Good(c, s, p, Filling(0), d) && |p| > 0 && n <= 4 && |accesses| == n
    ensures Good(c, s, p, FillStage(n), WriteAll(c, d, p[0], n, accesses))
  {
    hide Good, Run, Prompt;
    if n > 0 {
      FillAll(c, s, p, d, n - 1, accesses[..n - 1]);
      var e := WriteAll(c, d, p[0], n - 1, accesses[..n - 1]);
      FillStep(c, s, p, n - 1, e);
      AccessPrompt(accesses[n - 1]);
      StageRun(c, s, p, FillStage(n), WriteIn(e, n - 1, p[0][n - 1]), accesses[n - 1]);
    }
  }

  /** A cycle of waiting is one cycle less to wait, or the input is loaded. */
  lemma WaitingCycle<S>(c: Cipher<S>, s: S, p: seq<Block>, i: nat, left: nat, d: Device<S>, choice: Choice)
    requires Good(c, s, p, Waiting(i, left + 1), d) && choice.delay <= MAX_DELAY
    ensures Good(c, s, p, Waiting(i, left), Cycle(c, d, choice))
  {
    StageCycle(c, s, p, Waiting(i, left + 1), d, choice);
    hide After, Outputs;
  }

  lemma WaitingRun<S>(c: Cipher<S>, s: S, p: seq<Block>, i: nat, left: nat, d: Device<S>, access: Access)
    requires Good(c, s, p, Waiting(i, left + 1), d)
    ensures Good(c, s, p, Waiting(i, left), Run(c, d, access))
  {
    hide Good, Cycle, Prompt;
    AccessPrompt(access);
    WaitingCycle(c, s, p, i, left, d, access[0]);
    StageRun(c, s, p, Waiting(i, left), Cycle(c, d, access[0]), access[1..]);
  }

  /** Block i + 1 is written without overwriting anything, whenever block i finishes. */
  lemma {:induction false} WriteBlock<S>(c: Cipher<S>, s: S, p: seq<Block>, i: nat, d: Device<S>, n: nat, accesses: seq<Access>)
    requires Good(c, s, p, Writing(i, 0), d) && i + 1 < |p| && n <= 4 && |accesses| == n
    ensures Good(c, s, p, if n < 4 then Writing(i, n) else Waiting(i, MAX_DELAY - 1), WriteAll(c, d, p[i + 1], n, accesses))
  {
    hide Good, Run, Prompt;
    if n > 0 {
      WriteBlock(c, s, p, i, d, n - 1, accesses[..n - 1]);
      var e := WriteAll(c, d, p[i + 1], n - 1, accesses[..n - 1]);
      WriteStep(c, s, p, i, n - 1, e);
      AccessPrompt(accesses[n - 1]);
      if n < 4 {
        StageRun(c, s, p, Writing(i, n), WriteIn(e, n - 1, p[i + 1][n - 1]), accesses[n - 1]);
      } else {
        WaitingRun(c, s, p, i, MAX_DELAY - 1, WriteIn(e, n - 1, p[i + 1][n - 1]), accesses[n - 1]);
      }
    }
  }

  lemma {:induction false} ReadBlock<S>(c: Cipher<S>, s: S, p: seq<Block>, i: nat, d: Device<S>, n: nat, accesses: seq<Access>)
    requires Good(c, s, p, Reading(i, 0), d) && i < |p| && n <= 4 && |accesses| == n
    ensures var e := ReadAll(c, d, n, accesses);
            Good(c, s, p, ReadStage(p, i, n), e) && (n < 4 ==> e.dataOut == Outputs(c, s, p)[i])
  {
    hide Good, Cycle, Outputs, Prompt;
    if n > 0 {
      ReadBlock(c, s, p, i, d, n - 1, accesses[..n - 1]);
      var e := ReadAll(c, d, n - 1, accesses[..n - 1]);
      AccessPrompt(accesses[n - 1]);
      ReadStep(c, s, p, i, n - 1, e, accesses[n - 1][0]);
      StageRun(c, s, p, ReadStage(p, i, n), Cycle(c, ReadOut(e, n - 1), accesses[n - 1][0]), accesses[n - 1][1..]);
    }
    if n < 4 {
      ReadWord(c, s, p, i, n, ReadAll(c, d, n, accesses));
    }
  }

  /** A block read completely is the result the cipher should give. */
  lemma BlockRead<S>(c: Cipher<S>, s: S, p: seq<Block>, i: nat, d: Device<S>, accesses: seq<Access>)
    requires Good(c, s, p, Reading(i, 0), d) && i < |p| && |accesses| == 4
    ensures BlockOut(c, d, accesses) == Outputs(c, s, p)[i]
    ensures Good(c, s, p, ReadStage(p, i, 4), ReadAll(c, d, 4, accesses))
  {
    hide Good, ReadAll, Outputs;
    ReadBlock(c, s, p, i, d, 0, accesses[..0]);
    ReadBlock(c, s, p, i, d, 1, accesses[..1]);
    ReadBlock(c, s, p, i, d, 2, accesses[..2]);
    ReadBlock(c, s, p, i, d, 3, accesses[..3]);
    assert accesses[..4] == accesses;
    ReadBlock(c, s, p, i, d, 4, accesses);
    var b := Outputs(c, s, p)[i];
    assert b == [b[0], b[1], b[2], b[3]];
  }

  // ---------- Waiting ----------

  lemma {:induction false} StagePolled<S>(c: Cipher<S>, s: S, p: seq<Block>, stage: Stage, d: Device<S>, polls: seq<Access>)
    requires Good(c, s, p, stage, d)
    ensures Good(c, s, p, stage, Polled(c, d, polls))
    decreases |polls|
  {
    hide Good, Run, Prompt;
    if polls != [] {
      StagePolled(c, s, p, stage, d, polls[..|polls| - 1]);
      AccessPrompt(polls[|polls| - 1]);
      StageRun(c, s, p, stage, Polled(c, d, polls[..|polls| - 1]), polls[|polls| - 1]);
    }
  }

  lemma LoadingReady<S>(c: Cipher<S>, s: S, p: seq<Block>, d: Device<S>)
    requires Good(c, s, p, Loading, d) && d.InputReady()
    ensures Good(c, s, p, Writing(0, 0), d)
  {
  }

  /** INPUT_READY has been seen: the first block is loaded. */
  lemma LoadingEnds<S>(c: Cipher<S>, s: S, p: seq<Block>, d: Device<S>, polls: seq<Access>)
    requires Good(c, s, p, Loading, d) && Waited(c, d, polls, true)
    ensures Good(c, s, p, Writing(0, 0), Polled(c, d, polls))
  {
    hide Good, Run, Prompt;
    var before := polls[..|polls| - 1];
    StagePolled(c, s, p, Loading, d, before);
    LoadingReady(c, s, p, Polled(c, d, before));
    AccessPrompt(polls[|polls| - 1]);
    StageRun(c, s, p, Writing(0, 0), Polled(c, d, before), polls[|polls| - 1]);
  }

  lemma LoadedAfterWait<S>(c: Cipher<S>, s: S, p: seq<Block>, i: nat, d: Device<S>, choice: Choice)
    requires Good(c, s, p, Waiting(i, MAX_DELAY - 1), d) && d.OutputValid() && choice.delay <= MAX_DELAY
    ensures Good(c, s, p, Reading(i, 0), Cycle(c, d, choice))
  {
    StageCycle(c, s, p, Waiting(i, MAX_DELAY - 1), d, choice);
    hide After, Outputs;
    assert Upto(4) - Upto(0) == Upto(4);
  }

  lemma LastValid<S>(c: Cipher<S>, s: S, p: seq<Block>, i: nat, d: Device<S>)
    requires Good(c, s, p, Writing(i, 0), d) && d.OutputValid() && i + 1 == |p|
    ensures Good(c, s, p, Reading(i, 0), d)
  {
    hide Consistent;
    assert Upto(4) - Upto(0) == Upto(4);
  }

  function WaitStage(p: seq<Block>, i: nat): Stage {
    if i + 1 < |p| then Waiting(i, MAX_DELAY - 1) else Writing(i, 0)
  }

  lemma ValidSeen<S>(c: Cipher<S>, s: S, p: seq<Block>, i: nat, d: Device<S>, access: Access)
    requires Good(c, s, p, WaitStage(p, i), d) && i < |p| && d.OutputValid()
    ensures Good(c, s, p, Reading(i, 0), Run(c, d, access))
  {
    hide Good, Cycle, Prompt;
    AccessPrompt(access);
    if i + 1 < |p| {
      LoadedAfterWait(c, s, p, i, d, access[0]);
      StageRun(c, s, p, Reading(i, 0), Cycle(c, d, access[0]), access[1..]);
    } else {
      LastValid(c, s, p, i, d);
      StageRun(c, s, p, Reading(i, 0), d, access);
    }
  }

  /** OUTPUT_VALID has been seen: result i can be read, and a waiting block i + 1 will have been loaded by the last read. */
  lemma WaitingEnds<S>(c: Cipher<S>, s: S, p: seq<Block>, i: nat, d: Device<S>, polls: seq<Access>)
    requires Good(c, s, p, WaitStage(p, i), d) && i < |p| && Waited(c, d, polls, false)
    ensures Good(c, s, p, Reading(i, 0), Polled(c, d, polls))
  {
    hide Good, Run;
    StagePolled(c, s, p, WaitStage(p, i), d, polls[..|polls| - 1]);
    ValidSeen(c, s, p, i, Polled(c, d, polls[..|polls| - 1]), polls[|polls| - 1]);
  }

  /** How long INPUT_READY may still take while a complete input waits for the idle core. */
  function LoadPatience<S>(d: Device<S>): nat { if d.InputReady() then 0 else 1 + d.hold }

  lemma {:induction false} LoadPatienceFalls<S>(c: Cipher<S>, d: Device<S>, choices: seq<Choice>)
    requires d.core.Idle? && !d.InputReady() && choices != []
    ensures LoadPatience(Run(c, d, choices)) < LoadPatience(d)
    decreases |choices|
  {
    var e := Cycle(c, d, choices[0]);
    assert 3 in Upto(4);
    if e.InputReady() {
      ReadyStays(c, e, choices[1..]);
    } else if |choices| > 1 {
      LoadPatienceFalls(c, e, choices[1..]);
    }
  }

  lemma {:induction false} ReadyStays<S>(c: Cipher<S>, d: Device<S>, choices: seq<Choice>)
    requires d.InputReady()
    ensures Run(c, d, choices).InputReady()
    decreases |choices|
  {
    if choices != [] {
      ReadyStays(c, Cycle(c, d, choices[0]), choices[1..]);
    }
  }

  /** How long OUTPUT_VALID may still take. */
  function Patience<S>(d: Device<S>): nat {
    if d.OutputValid() || d.core.Idle? then 0 else 1 + d.core.remaining
  }

  lemma {:induction false} PatienceFalls<S>(c: Cipher<S>, d: Device<S>, choices: seq<Choice>)
    requires d.core.Busy? || d.OutputValid()
    ensures var e := Run(c, d, choices);
            && (e.core.Busy? || e.OutputValid())
            && (if Patience(d) > 0 && choices != [] then Patience(e) < Patience(d) else Patience(e) == Patience(d))
    decreases |choices|
  {
    hide Run, Load;
    if choices == [] {
      RunNone(c, d);
    } else {
      RunSome(c, d, choices);
      PatienceCycle(c, d, choices[0]);
      PatienceFalls(c, Cycle(c, d, choices[0]), choices[1..]);
    }
  }

  lemma RunNone<S>(c: Cipher<S>, d: Device<S>)
    ensures Run(c, d, []) == d
  {
  }

  lemma RunSome<S>(c: Cipher<S>, d: Device<S>, choices: seq<Choice>)
    requires choices != []
    ensures Run(c, d, choices) == Run(c, Cycle(c, d, choices[0]), choices[1..])
  {
  }

  lemma PatienceCycle<S>(c: Cipher<S>, d: Device<S>, choice: Choice)
    requires d.core.Busy? || d.OutputValid()
    ensures var e := Cycle(c, d, choice);
            (e.core.Busy? || e.OutputValid()) && (if Patience(d) > 0 then Patience(e) < Patience(d) else Patience(e) == 0)
  {
    assert 0 in Upto(4);
  }

  lemma StillLoading<S>(c: Cipher<S>, s: S, p: seq<Block>, d: Device<S>)
    requires Good(c, s, p, Loading, d) && !d.InputReady()
    ensures d.core.Idle?
  {
    assert 3 in Upto(4);
  }

  lemma StillBusy<S>(c: Cipher<S>, s: S, p: seq<Block>, i: nat, d: Device<S>)
    requires Good(c, s, p, WaitStage(p, i), d) && i < |p| && !d.OutputValid()
    ensures d.core.Busy? && Patience(d) > 0
  {
    assert 0 in Upto(4);
  }

  lemma QuietStart<S>(c: Cipher<S>, d: Device<S>, p: seq<Block>)
    requires d.Ready() && p != []
    ensures Good(c, d.state, p, Filling(0), d.Observed())
  {
  }

  lemma AllDone<S>(c: Cipher<S>, s: S, p: seq<Block>, d: Device<S>)
    requires Good(c, s, p, Done, d)
    ensures d.Ready() && d.written == {} && !d.clobbered
    ensures d.taken == p && d.made == Outputs(c, s, p) && d.state == After(c, s, p)
  {
    assert d.taken[..|d.made|] == p;
  }

  /** A result seen right after a single block was written is that block's. */
  lemma SingleValid<S>(c: Cipher<S>, s: S, p: seq<Block>, d: Device<S>, access: Access)
    requires Good(c, s, p, Loading, d) && |p| == 1 && d.OutputValid()
    ensures Good(c, s, p, Reading(0, 0), Run(c, d, access))
  {
    assert Good(c, s, p, Writing(0, 0), d);
    hide Good;
    ValidSeen(c, s, p, 0, d, access);
  }

  /** None of these status reads has seen the bit set. */
  ghost predicate Unseen<S>(c: Cipher<S>, d: Device<S>, polls: seq<Access>, input: bool) {
    forall k :: 0 <= k < |polls| ==> !Flag(Polled(c, d, polls[..k]), input)
  }

  lemma PollMore<S>(c: Cipher<S>, d: Device<S>, polls: seq<Access>, access: Access, input: bool)
    requires Unseen(c, d, polls, input)
    ensures Polled(c, d, polls + [access]) == Run(c, Polled(c, d, polls), access)
    ensures if Flag(Polled(c, d, polls), input) then Waited(c, d, polls + [access], input)
            else Unseen(c, d, polls + [access], input)
  {
    hide Run, Flag;
    var more := polls + [access];
    assert more[..|polls|] == polls;
    forall k | 0 <= k < |polls|
      ensures !Flag(Polled(c, d, more[..k]), input)
    {
      assert more[..k] == polls[..k];
    }
  }

  // ---------- The first result ----------

  /** The cycles the accesses of the driver take, up to the first result: the check of INPUT_READY, the writes of block 0, the
      polls for INPUT_READY, the writes of block 1, the polls for OUTPUT_VALID, and the reads. */
  datatype Timing = Timing(start: Access, fill: seq<Access>, ready: seq<Access>, next: seq<Access>, valid: seq<Access>,
                           read: seq<Access>)
  {
    predicate Complete() { |fill| == |next| == |read| == 4 }
  }

  /** The first block the driver returns, from any state of the unit; None while it is still polling, or if the single status
      read after a single block has not seen a result. */
  ghost function FirstResult<S>(c: Cipher<S>, d: Device<S>, p: seq<Block>, t: Timing): Option<Block>
    requires p != [] && t.Complete()
  {
    FirstAfter(c, Run(c, d, t.start), p, t)
  }

  ghost function FirstAfter<S>(c: Cipher<S>, d: Device<S>, p: seq<Block>, t: Timing): Option<Block>
    requires p != [] && t.Complete()
  {
    var filled := WriteAll(c, d, p[0], 4, t.fill);
    if |p| == 1 then
      if |t.valid| == 1 then FirstRead(c, filled, t) else None
    else if Waited(c, filled, t.ready, true) then
      FirstRead(c, WriteAll(c, Polled(c, filled, t.ready), p[1], 4, t.next), t)
    else None
  }

  ghost function FirstRead<S>(c: Cipher<S>, d: Device<S>, t: Timing): Option<Block>
    requires t.Complete()
  {
    if Waited(c, d, t.valid, false) then Some(BlockOut(c, Polled(c, d, t.valid), t.read)) else None
  }

  // ---------- The driver ----------

  datatype DifResult = Ok | Error | BadArg | Unavailable

  class Aes<S> {
    const cipher: Cipher<S>
    var dev: Device<S>

    constructor (cipher: Cipher<S>, dev: Device<S>)
      ensures this.cipher == cipher && this.dev == dev
    {
      this.cipher := cipher;
      this.dev := dev;
    }

    /** Starts a new observation; nothing the unit does depends on it. */
    method Observe()
      modifies this
      ensures dev == old(dev).Observed()
    {
      dev := dev.Observed();
    }

    /** At least one cycle passes; how many, and what the unit chooses in each, is open. */
    method Elapse() returns (ghost access: Access)
      modifies this
      ensures dev == Run(cipher, old(dev), access)
    {
      var choice := Choose();
      access := [choice];
      dev := Cycle(cipher, dev, choice);
      var more: int := *;
      while more > 0
        invariant dev == Run(cipher, old(dev), access)
      {
        choice := Choose();
        RunLast(cipher, old(dev), access, choice);
        access := access + [choice];
        dev := Cycle(cipher, dev, choice);
        more := more - 1;
      }
    }

    method Choose() returns (choice: Choice)
      ensures choice.delay <= MAX_DELAY
    {
      choice := *;
      choice := choice.(delay := choice.delay % (MAX_DELAY + 1));
    }

    method WriteDataIn(k: nat, w: word) returns (ghost access: Access)
      requires k < 4
      modifies this
      ensures dev == Run(cipher, WriteIn(old(dev), k, w), access)
    {
      dev := WriteIn(dev, k, w);
      access := Elapse();
    }

    method ReadDataOut(k: nat) returns (w: word, ghost access: Access)
      requires k < 4
      modifies this
      ensures w == old(dev).dataOut[k]
      ensures dev == Run(cipher, ReadOut(old(dev), k), access)
    {
      w := dev.dataOut[k];
      dev := ReadOut(dev, k);
      access := Elapse();
    }

    /** The two status bits the driver polls. */
    method ReadStatus() returns (ready: bool, valid: bool, ghost access: Access)
      modifies this
      ensures ready == old(dev).InputReady() && valid == old(dev).OutputValid()
      ensures dev == Run(cipher, old(dev), access)
    {
      ready, valid := dev.InputReady(), dev.OutputValid();
      access := Elapse();
    }

    method SetMultireg(data: Block) returns (ghost accesses: seq<Access>)
      modifies this
      ensures |accesses| == 4 && dev == WriteAll(cipher, old(dev), data, 4, accesses)
    {
      hide Run;
      accesses := [];
      var i := 0;
      while i < 4
        invariant i <= 4 && |accesses| == i && dev == WriteAll(cipher, old(dev), data, i, accesses)
      {
        ghost var access := WriteDataIn(i, data[i]);
        assert (accesses + [access])[..i] == accesses;
        accesses := accesses + [access];
        i := i + 1;
      }
    }

    method ReadMultireg() returns (data: Block, ghost accesses: seq<Access>)
      modifies this
      ensures |accesses| == 4 && dev == ReadAll(cipher, old(dev), 4, accesses)
      ensures data == BlockOut(cipher, old(dev), accesses)
    {
      hide Run, BlockOut;
      accesses := [];
      data := [0, 0, 0, 0];
      var i := 0;
      while i < 4
        invariant i <= 4 && |accesses| == i && dev == ReadAll(cipher, old(dev), i, accesses)
        invariant forall k :: 0 <= k < i ==> data[k] == ReadAll(cipher, old(dev), k, accesses[..k]).dataOut[k]
      {
        var w, access := ReadDataOut(i);
        data := data[i := w];
        assert (accesses + [access])[..i] == accesses;
        assert forall k :: 0 <= k < i ==> (accesses + [access])[..k] == accesses[..k];
        accesses := accesses + [access];
        i := i + 1;
      }
      BlockFromWords(cipher, old(dev), data, accesses);
    }

    /** Block 0 has been written: polls until it has been loaded. */
    method AwaitInputReady(ghost s: S, ghost p: seq<Block>) returns (ghost polls: seq<Access>)
      requires Good(cipher, s, p, Loading, dev)
      modifies this
      ensures Waited(cipher, old(dev), polls, true) && dev == Polled(cipher, old(dev), polls)
      ensures Good(cipher, s, p, Writing(0, 0), dev)
    {
      hide Good, Run, Polled, Waited, Unseen, LoadPatience, Device<S>.InputReady;
      var ready := false;
      polls := [];
      NoPolls(cipher, dev, true);
      while !ready
        invariant dev == Polled(cipher, old(dev), polls)
        invariant if ready then Waited(cipher, old(dev), polls, true) else Unseen(cipher, old(dev), polls, true)
        decreases !ready, LoadPatience(dev)
      {
        ghost var before := dev;
        ghost var valid, access;
        ready, valid, access := ReadStatus();
        PollMore(cipher, old(dev), polls, access, true);
        if !ready {
          StagePolled(cipher, s, p, Loading, old(dev), polls);
          StillLoading(cipher, s, p, before);
          LoadPatienceFalls(cipher, before, access);
        }
        polls := polls + [access];
      }
      LoadingEnds(cipher, s, p, old(dev), polls);
    }

    /** Polls until result i can be read. */
    method AwaitOutputValid(ghost s: S, ghost p: seq<Block>, ghost i: nat) returns (ghost polls: seq<Access>)
      requires Good(cipher, s, p, WaitStage(p, i), dev) && i < |p|
      modifies this
      ensures Waited(cipher, old(dev), polls, false) && dev == Polled(cipher, old(dev), polls)
      ensures Good(cipher, s, p, Reading(i, 0), dev)
    {
      hide Good, Run, Polled, Waited, Unseen, Patience, Device<S>.OutputValid;
      var valid := false;
      polls := [];
      NoPolls(cipher, dev, false);
      while !valid
        invariant dev == Polled(cipher, old(dev), polls)
        invariant if valid then Waited(cipher, old(dev), polls, false) else Unseen(cipher, old(dev), polls, false)
        decreases !valid, Patience(dev)
      {
        ghost var before := dev;
        ghost var ready, access;
        ready, valid, access := ReadStatus();
        PollMore(cipher, old(dev), polls, access, false);
        if !valid {
          StagePolled(cipher, s, p, WaitStage(p, i), old(dev), polls);
          StillBusy(cipher, s, p, i, before);
          PatienceFalls(cipher, before, access);
        }
        polls := polls + [access];
      }
      WaitingEnds(cipher, s, p, i, old(dev), polls);
    }

    /** Writes one block if the unit can take it. */
    method LoadData(data: Block) returns (r: DifResult, ghost status: Access, ghost accesses: seq<Access>)
      modifies this
      ensures !old(dev).InputReady() ==> r == Unavailable && dev == Run(cipher, old(dev), status)
      ensures old(dev).InputReady() ==>
                r == Ok && |accesses| == 4 && dev == WriteAll(cipher, Run(cipher, old(dev), status), data, 4, accesses)
    {
      var ready;
      ghost var valid;
      ready, valid, status := ReadStatus();
      accesses := [];
      if !ready {
        return Unavailable, status, accesses;
      }
      accesses := SetMultireg(data);
      return Ok, status, accesses;
    }

    /** Reads one result if there is one. */
    method ReadOutput() returns (r: DifResult, data: Block, ghost status: Access, ghost accesses: seq<Access>)
      modifies this
      ensures !old(dev).OutputValid() ==> r == Error && dev == Run(cipher, old(dev), status)
      ensures old(dev).OutputValid() ==>
                var d := Run(cipher, old(dev), status);
                && r == Ok && |accesses| == 4 && dev == ReadAll(cipher, d, 4, accesses) && data == BlockOut(cipher, d, accesses)
    {
      var valid;
      ghost var ready;
      ready, valid, status := ReadStatus();
      accesses := [];
      data := [0, 0, 0, 0];
      if !valid {
        return Error, data, status, accesses;
      }
      data, accesses := ReadMultireg();
      return Ok, data, status, accesses;
    }
  }

  lemma BlockFromWords<S>(c: Cipher<S>, d: Device<S>, data: Block, accesses: seq<Access>)
    requires |accesses| == 4
    requires forall k :: 0 <= k < 4 ==> data[k] == ReadAll(c, d, k, accesses[..k]).dataOut[k]
    ensures data == BlockOut(c, d, accesses)
  {
    hide ReadAll;
    assert data == [data[0], data[1], data[2], data[3]];
  }

  lemma {:induction false} RunLast<S>(c: Cipher<S>, d: Device<S>, choices: seq<Choice>, choice: Choice)
    ensures Run(c, d, choices + [choice]) == Cycle(c, Run(c, d, choices), choice)
    decreases |choices|
  {
    hide Cycle;
    if choices == [] {
      assert Run(c, Cycle(c, d, choice), [choice][1..]) == Cycle(c, d, choice);
    } else {
      RunLast(c, Cycle(c, d, choices[0]), choices[1..], choice);
      assert (choices + [choice])[1..] == choices[1..] + [choice];
    }
  }

  lemma NoPolls<S>(c: Cipher<S>, d: Device<S>, input: bool)
    ensures Polled(c, d, []) == d && Unseen(c, d, [], input)
  {
  }

  lemma OnePoll<S>(c: Cipher<S>, d: Device<S>, access: Access, input: bool)
    requires Flag(d, input)
    ensures Waited(c, d, [access], input) && Polled(c, d, [access]) == Run(c, d, access)
  {
    assert [access][..0] == [];
  }

  /** One block: there is a result to return only if the unit has finished by the time the status is read. */
  method ProcessSingle<S>(aes: Aes<S>, plain: array<Block>, result: array<Block>, ghost s: S)
      returns (r: DifResult, ghost t: Timing)
    requires plain.Length >= 1 && result.Length >= 1
    requires aes.dev.InputReady() ==> Good(aes.cipher, s, plain[..1], Filling(0), aes.dev)
    modifies aes, result
    ensures r == Unavailable <==> !old(aes.dev.InputReady())
    ensures r == Unavailable ==> aes.dev == Run(aes.cipher, old(aes.dev), t.start)
    ensures r == Ok ==> result[..] == Outputs(aes.cipher, s, old(plain[..1])) + old(result[1..])
    ensures r == Ok || ((r == Error || r == Unavailable) && result[..] == old(result[..]))
    ensures r == Ok ==> Good(aes.cipher, s, old(plain[..1]), Done, aes.dev)
    ensures old(aes.dev.InputReady()) ==>
              && t.Complete() && |t.valid| == 1
              && var filled := WriteAll(aes.cipher, Run(aes.cipher, old(aes.dev), t.start), old(plain[0]), 4, t.fill);
                 (r == Ok <==> filled.OutputValid()) && (r == Error ==> aes.dev == Run(aes.cipher, filled, t.valid[0]))
    ensures r == Ok ==> FirstResult(aes.cipher, old(aes.dev), old(plain[..1]), t) == Some(result[0])
  {
    hide Good, Run, Polled, Waited, WriteAll, ReadAll, BlockOut, Outputs, Device<S>.InputReady, Device<S>.OutputValid;
    ghost var c, p, start := aes.cipher, plain[..1], aes.dev;
    ghost var status, fill, poll, read;
    r, status, fill := aes.LoadData(plain[0]);
    t := Timing(status, fill, [], [], [], []);
    if r != Ok {
      return r, t;
    }
    AccessPrompt(status);
    StageRun(c, s, p, Filling(0), start, status);
    FillAll(c, s, p, Run(c, start, status), 4, fill);
    ghost var filled := aes.dev;
    var data;
    r, data, poll, read := aes.ReadOutput();
    t := Timing(status, fill, [], fill, [poll], if r == Ok then read else fill);
    if r != Ok {
      return r, t;
    }
    OnePoll(c, filled, poll, false);
    SingleValid(c, s, p, filled, poll);
    BlockRead(c, s, p, 0, Run(c, filled, poll), read);
    result[0] := data;
    assert result[..] == [data] + old(result[1..]);
    assert Outputs(c, s, p) == [data];
  }

  /** Two or more blocks, each written while the one before it is processed. INPUT_READY has been seen in state from. */
  method ProcessPipelined<S>(aes: Aes<S>, plain: array<Block>, result: array<Block>, count: nat, ghost s: S,
                             ghost from: Device<S>, ghost start: Access)
      returns (ghost t: Timing)
    requires 2 <= count <= plain.Length && count <= result.Length
    requires Good(aes.cipher, s, plain[..count], Filling(0), aes.dev) && aes.dev == Run(aes.cipher, from, start)
    modifies aes, result
    ensures result[..] == Outputs(aes.cipher, s, old(plain[..count])) + old(result[count..])
    ensures Good(aes.cipher, s, old(plain[..count]), Done, aes.dev)
    ensures t.Complete() && FirstResult(aes.cipher, from, old(plain[..count]), t) == Some(result[0])
  {
    hide Good, Run, Polled, Waited, WriteAll, ReadAll, BlockOut, Outputs;
    ghost var c, p, before, d := aes.cipher, plain[..count], result[..], aes.dev;
    ghost var fill := aes.SetMultireg(plain[0]);
    FillAll(c, s, p, d, 4, fill);
    ghost var ready := aes.AwaitInputReady(s, p);
    t := Timing(start, fill, ready, fill, [], fill);
    var i := 0;
    while i < count
      invariant i <= count
      invariant Good(c, s, p, if i < count then Writing(i, 0) else Done, aes.dev)
      invariant forall k :: i <= k < count ==> plain[k] == p[k]
      invariant forall k :: 0 <= k < i ==> result[k] == Outputs(c, s, p)[k]
      invariant forall k :: i <= k < result.Length ==> result[k] == before[k]
      invariant t.Complete()
      invariant if i == 0 then t == Timing(start, fill, ready, fill, [], fill) && aes.dev == Polled(c, WriteAll(c, d, p[0], 4, fill), ready)
                else FirstResult(c, from, p, t) == Some(result[0])
    {
      ghost var loaded := aes.dev;
      ghost var next := fill;
      if i + 1 < count {
        next := aes.SetMultireg(plain[i + 1]);
        WriteBlock(c, s, p, i, loaded, 4, next);
      }
      ghost var valid := aes.AwaitOutputValid(s, p, i);
      ghost var shown := aes.dev;
      var data, read := aes.ReadMultireg();
      BlockRead(c, s, p, i, shown, read);
      if i == 0 {
        t := Timing(start, fill, ready, next, valid, read);
      }
      result[i] := data;
      i := i + 1;
    }
    assert result[..] == Outputs(c, s, p) + before[count..];
  }

  /** Processes count blocks. plain and result may be the same array. */
  method ProcessData<S>(aes: Aes<S>, plain: array<Block>, result: array<Block>, count: nat)
      returns (r: DifResult, ghost t: Timing)
    requires count <= plain.Length && count <= result.Length
    requires aes.dev.InputReady() ==> aes.dev.Ready()
    modifies aes, result
    ensures r == BadArg <==> count == 0
    ensures count == 0 ==> aes.dev == old(aes.dev)
    ensures count > 0 ==> (r == Unavailable <==> !old(aes.dev.InputReady()))
    ensures r == Unavailable ==> aes.dev == Run(aes.cipher, old(aes.dev).Observed(), t.start)
    ensures r == Ok ==> result[..] == Outputs(aes.cipher, old(aes.dev.state), old(plain[..count])) + old(result[count..])
    ensures r == Ok ==> aes.dev.Ready() && aes.dev.state == After(aes.cipher, old(aes.dev.state), old(plain[..count]))
    ensures r == Ok ==>
              !aes.dev.clobbered && aes.dev.taken == old(plain[..count])
              && aes.dev.made == Outputs(aes.cipher, old(aes.dev.state), old(plain[..count]))
    ensures r != Ok ==> result[..] == old(result[..])
    ensures count >= 2 && old(aes.dev.InputReady()) ==> r == Ok
    ensures count == 1 && old(aes.dev.InputReady()) ==>
              && t.Complete() && |t.valid| == 1
              && var filled := WriteAll(aes.cipher, Run(aes.cipher, old(aes.dev).Observed(), t.start), old(plain[0]), 4, t.fill);
                 (r == Ok <==> filled.OutputValid()) && (r == Error ==> aes.dev == Run(aes.cipher, filled, t.valid[0]))
    ensures r == Ok ==>
              t.Complete() && FirstResult(aes.cipher, old(aes.dev).Observed(), old(plain[..count]), t) == Some(result[0])
  {
    hide Good, Run, Polled, Waited, WriteAll, Outputs, Device<S>.Ready, Device<S>.InputReady, Device<S>.OutputValid, FirstAfter;
    t := Timing([Choice(0, 0)], [], [], [], [], []);
    if count == 0 {
      return BadArg, t;
    }
    ghost var c, s, p, start := aes.cipher, aes.dev.state, plain[..count], aes.dev;
    aes.Observe();
    ObservationIndependent(start);
    if aes.dev.InputReady() {
      QuietStart(c, start, p);
    }
    if count < 2 {
      r, t := ProcessSingle(aes, plain, result, s);
      if r == Ok {
        AllDone(c, s, p, aes.dev);
      }
      return r, t;
    }
    start := aes.dev;
    var ready;
    ghost var valid, status;
    ready, valid, status := aes.ReadStatus();
    if !ready {
      t := t.(start := status);
      return Unavailable, t;
    }
    AccessPrompt(status);
    StageRun(c, s, p, Filling(0), start, status);
    t := ProcessPipelined(aes, plain, result, count, s, start, status);
    AllDone(c, s, p, aes.dev);
    return Ok, t;
  }

  lemma ObservationIndependent<S>(d: Device<S>)
    ensures d.Observed().InputReady() == d.InputReady()
  {
  }
}
