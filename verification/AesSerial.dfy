/** aes_serial.c: the command handlers that encrypt or write the key, and the block counter that is meant to keep the AES unit
    from reseeding its masking generator. */
module AesSerial {
  import opened Bytes

  const BLOCK_CTR_MAX: nat := 8191
  const BATCH_OPS_MAX: nat := 256

  type U32 = n: nat | n < TWO_32

  type Key = k: seq<byte> | |k| == 16 witness seq(16, _ => 0)

  /** 'k' sets and writes the key, 'p' encrypts one block, 'b' and 'a' encrypt a batch under the key, 'f' only sets the key
      variable, 'e' writes a key of its own before each block and 'h' the key variable. */
  datatype Command = SetKey(key: Key) | Single | Batch(n: U32) | Alternative(n: U32) | SetFixedKey(key: Key)
                   | KeyBatch(keys: seq<Key>) | DataBatch(n: U32)

  /** since is the number of blocks since the last key write and used the key of every block; both only observe. */
  datatype State = State(blockCtr: nat, keyFixed: Key, hwKey: Key, since: nat, used: seq<Key>, halted: bool)

  function Repeat(k: Key, n: nat): seq<Key> { seq(n, _ => k) }

  function WriteKey(s: State, k: Key): State { s.(hwKey := k, since := 0) }

  function Encrypt(s: State, n: nat): State {
    s.(since := s.since + n, used := s.used + Repeat(s.hwKey, n))
  }

  /** n blocks announced to the counter, in 32-bit arithmetic; the key is rewritten when the counter passes its bound. */
  function Announce(s: State, n: U32): State {
    var ctr := (s.blockCtr + n) % TWO_32;
    if ctr > BLOCK_CTR_MAX then WriteKey(s, s.keyFixed).(blockCtr := n) else s.(blockCtr := ctr)
  }

  /** A key written before every block. */
  function Rekeyed(s: State, keys: seq<Key>): State
    decreases |keys|
  {
    if keys == [] then s
    else Encrypt(WriteKey(Rekeyed(s, keys[..|keys| - 1]), keys[|keys| - 1]), 1)
  }

  function Step(s: State, c: Command): State {
    if s.halted then s
    else
      match c
      case SetKey(k) => WriteKey(s.(keyFixed := k), k).(blockCtr := 0)
      case Single => Encrypt(Announce(s, 1), 1)
      case Batch(n) => Encrypt(Announce(s, n), n)
      case Alternative(n) => Encrypt(Announce(s, n), n)
      case SetFixedKey(k) => s.(keyFixed := k)
      case KeyBatch(keys) => if |keys| <= BATCH_OPS_MAX then Rekeyed(s, keys) else s.(halted := true)
      case DataBatch(n) => if n <= BATCH_OPS_MAX then Rekeyed(s, Repeat(s.keyFixed, n)) else s.(halted := true)
  }

  function Run(s: State, cs: seq<Command>): State
    decreases |cs|
  {
    if cs == [] then s else Step(Run(s, cs[..|cs| - 1]), cs[|cs| - 1])
  }

  // ---------- The handlers ----------

  class Serial {
    var blockCtr: nat
    var keyFixed: Key
    var hwKey: Key
    var since: nat
    var used: seq<Key>
    var halted: bool

    function View(): State
      reads this
    {
      State(blockCtr, keyFixed, hwKey, since, used, halted)
    }

    constructor (keyFixed: Key, hwKey: Key)
      ensures View() == State(0, keyFixed, hwKey, 0, [], false)
    {
      this.blockCtr, this.keyFixed, this.hwKey, this.since, this.used, this.halted := 0, keyFixed, hwKey, 0, [], false;
    }

    method MaskAndConfig(k: Key)
      modifies this
      ensures View() == WriteKey(old(View()), k)
    {
      hwKey, since := k, 0;
    }

    method EncryptBlock()
      modifies this
      ensures View() == Encrypt(old(View()), 1)
    {
      since, used := since + 1, used + [hwKey];
      assert Repeat(hwKey, 1) == [hwKey];
    }

    method KeySet(k: Key)
      requires !halted
      modifies this
      ensures View() == Step(old(View()), SetKey(k))
    {
      keyFixed := k;
      MaskAndConfig(k);
      blockCtr := 0;
    }

    method SingleEncrypt()
      requires !halted && blockCtr < TWO_32
      modifies this
      ensures View() == Step(old(View()), Single)
    {
      blockCtr := (blockCtr + 1) % TWO_32;
      if blockCtr > BLOCK_CTR_MAX {
        MaskAndConfig(keyFixed);
        blockCtr := 1;
      }
      EncryptBlock();
    }

    /** Also the handler of 'a', whose counter logic is the same. */
    method BatchEncrypt(n: U32)
      requires !halted && blockCtr < TWO_32
      modifies this
      ensures View() == Step(old(View()), Batch(n)) == Step(old(View()), Alternative(n))
    {
      blockCtr := (blockCtr + n) % TWO_32;
      if blockCtr > BLOCK_CTR_MAX {
        MaskAndConfig(keyFixed);
        blockCtr := n;
      }
      ghost var announced := View();
      assert Encrypt(announced, 0) == announced;
      var i := 0;
      while i < n
        invariant i <= n && View() == Encrypt(announced, i)
      {
        EncryptMore(announced, i);
        EncryptBlock();
        i := i + 1;
      }
    }

    method FvsrKeySet(k: Key)
      requires !halted
      modifies this
      ensures View() == Step(old(View()), SetFixedKey(k))
    {
      keyFixed := k;
    }

    method FvsrKeyBatchEncrypt(keys: seq<Key>)
      requires !halted
      modifies this
      ensures View() == Step(old(View()), KeyBatch(keys))
    {
      if |keys| > BATCH_OPS_MAX {
        halted := true;
        return;
      }
      EncryptRekeyed(keys);
    }

    method FvsrDataBatchEncrypt(n: U32)
      requires !halted
      modifies this
      ensures View() == Step(old(View()), DataBatch(n))
    {
      if n > BATCH_OPS_MAX {
        halted := true;
        return;
      }
      var batchKeys := Repeat(keyFixed, n);
      EncryptRekeyed(batchKeys);
    }

    method EncryptRekeyed(keys: seq<Key>)
      modifies this
      ensures View() == Rekeyed(old(View()), keys)
    {
      ghost var before := View();
      var i := 0;
      while i < |keys|
        invariant i <= |keys| && View() == Rekeyed(before, keys[..i])
      {
        assert keys[..i + 1][..i] == keys[..i];
        MaskAndConfig(keys[i]);
        EncryptBlock();
        i := i + 1;
      }
      assert keys[..i] == keys;
    }
  }

  lemma EncryptMore(s: State, i: nat)
    ensures Encrypt(Encrypt(s, i), 1) == Encrypt(s, i + 1)
  {
    assert Repeat(s.hwKey, i) + Repeat(s.hwKey, 1) == Repeat(s.hwKey, i + 1);
  }

  // ---------- The bound ----------

  predicate Plain(c: Command) { c.SetKey? || c.Single? || c.Batch? || c.Alternative? }

  predicate SmallBatch(c: Command) {
    (c.Batch? ==> c.n <= 8191) && (c.Alternative? ==> c.n <= 8191)
  }

  /** What the counter guarantees: it is in range and counts all blocks since the last key write but slack of them. */
  predicate Counted(s: State, slack: nat) { s.since <= s.blockCtr + slack && s.blockCtr <= 8191 }

  lemma {:induction false} RekeyedSince(s: State, keys: seq<Key>)
    ensures var t := Rekeyed(s, keys); t.blockCtr == s.blockCtr && t.since == if keys == [] then s.since else 1
    decreases |keys|
  {
    if keys != [] {
      RekeyedSince(s, keys[..|keys| - 1]);
    }
  }

  lemma StepCounted(s: State, c: Command, slack: nat)
    requires Counted(s, slack) && SmallBatch(c) && (Plain(c) || slack >= 1)
    ensures Counted(Step(s, c), slack)
  {
    match c
    case KeyBatch(keys) => RekeyedSince(s, keys);
    case DataBatch(n) => RekeyedSince(s, Repeat(s.keyFixed, n));
    case _ =>
  }

  /** With batches of at most 8191 the blocks since the last key write never exceed the counter, hence never 8191, if only
      'k', 'p', 'b' and 'a' are used; mixing in 'e' and 'h', whose blocks are not counted, costs at most one block. */
  lemma {:induction false} BlocksBounded(s: State, cs: seq<Command>, slack: nat)
    requires Counted(s, slack) && forall c :: c in cs ==> SmallBatch(c) && (Plain(c) || slack >= 1)
    ensures Counted(Run(s, cs), slack)
    decreases |cs|
  {
    if cs != [] {
      BlocksBounded(s, cs[..|cs| - 1], slack);
      StepCounted(Run(s, cs[..|cs| - 1]), cs[|cs| - 1], slack);
    }
  }

  /** The limit on the batch size is exact: a larger batch always runs past 8191 blocks, whatever the counter says. */
  lemma LargeBatchExceeds(s: State, c: Command)
    requires (c.Batch? || c.Alternative?) && !s.halted
    ensures c.n > 8191 ==> Step(s, c).since > 8191
  {
  }

  /** So, for sequences of 'k', 'p', 'b' and 'a': at most 8191 blocks per key write at all times, exactly if every batch is
      small. */
  lemma {:induction false} SmallBatchesExactly(s: State, cs: seq<Command>)
    requires Counted(s, 0) && !s.halted && forall c :: c in cs ==> Plain(c)
    ensures (forall k :: 0 <= k <= |cs| ==> Run(s, cs[..k]).since <= 8191) <==> (forall c :: c in cs ==> SmallBatch(c))
  {
    if forall c :: c in cs ==> SmallBatch(c) {
      forall k | 0 <= k <= |cs|
        ensures Run(s, cs[..k]).since <= BLOCK_CTR_MAX
      {
        BlocksBounded(s, cs[..k], 0);
      }
    } else {
      var i :| 0 <= i < |cs| && !SmallBatch(cs[i]);
      assert cs[..i + 1][..i] == cs[..i];
      NeverHalts(s, cs[..i]);
      LargeBatchExceeds(Run(s, cs[..i]), cs[i]);
      assert Run(s, cs[..i + 1]).since > BLOCK_CTR_MAX;
    }
  }

  lemma {:induction false} NeverHalts(s: State, cs: seq<Command>)
    requires !s.halted && forall c :: c in cs ==> Plain(c)
    ensures !Run(s, cs).halted
    decreases |cs|
  {
    if cs != [] {
      NeverHalts(s, cs[..|cs| - 1]);
      assert Plain(cs[|cs| - 1]);
    }
  }

  /** The extra block is real: one block under 'e' followed by a full batch. */
  lemma ExtraBlock(s: State, k: Key)
    requires !s.halted && s.blockCtr == 0
    ensures var t := Run(s, [KeyBatch([k]), Batch(BLOCK_CTR_MAX)]); t.blockCtr == 8191 && t.since == 8192
  {
    var cs := [KeyBatch([k]), Batch(BLOCK_CTR_MAX)];
    assert cs[..1] == [KeyBatch([k])];
    assert cs[..1][..0] == [];
    RekeyedSince(s, [k]);
    assert Run(s, cs[..1]) == Rekeyed(s, [k]);
  }

  // ---------- The exact condition for all commands ----------

  // Computed from the commands and the counter alone, so a host can check it before it sends a command.

  /** The counter, whether it is one block behind, and whether a check has failed. It falls behind when 'e' or 'h' encrypts
      at counter zero, and catches up at the next key write that resets it. */
  datatype Monitor = Monitor(ctr: nat, behind: bool, halted: bool)

  function Counting(w: Monitor, n: U32): Monitor {
    var ctr := (w.ctr + n) % TWO_32;
    if ctr > 8191 then w.(ctr := n, behind := false) else w.(ctr := ctr)
  }

  function Rekeying(w: Monitor, n: nat): Monitor {
    if n > 256 then w.(halted := true) else if n > 0 then w.(behind := w.ctr == 0) else w
  }

  function Watch(w: Monitor, c: Command): Monitor {
    if w.halted then w
    else
      match c
      case SetKey(_) => w.(ctr := 0, behind := false)
      case Single => Counting(w, 1)
      case Batch(n) => Counting(w, n)
      case Alternative(n) => Counting(w, n)
      case SetFixedKey(_) => w
      case KeyBatch(keys) => Rekeying(w, |keys|)
      case DataBatch(n) => Rekeying(w, n)
  }

  function WatchAll(w: Monitor, cs: seq<Command>): Monitor
    decreases |cs|
  {
    if cs == [] then w else Watch(WatchAll(w, cs[..|cs| - 1]), cs[|cs| - 1])
  }

  /** The counter is full although it is behind. */
  predicate Overdrawn(w: Monitor) { w.behind && w.ctr == 8191 }

  /** No command is accepted that makes a batch too large, and the counter is never full while it is behind. */
  predicate Safe(w: Monitor, cs: seq<Command>) {
    forall k :: 0 <= k <= |cs| ==>
      !Overdrawn(WatchAll(w, cs[..k])) && (k < |cs| && !WatchAll(w, cs[..k]).halted ==> SmallBatch(cs[k]))
  }

  /** The monitor agrees with the state. */
  predicate Tracks(w: Monitor, s: State) {
    && w.ctr == s.blockCtr <= BLOCK_CTR_MAX && w.halted == s.halted
    && (if w.behind then s.since == s.blockCtr + 1 else s.since <= s.blockCtr)
  }

  lemma AnnounceTracks(w: Monitor, s: State, n: U32)
    requires Tracks(w, s) && n <= BLOCK_CTR_MAX
    ensures Tracks(Counting(w, n), Encrypt(Announce(s, n), n))
  {
  }

  lemma RekeyTracks(w: Monitor, s: State, keys: seq<Key>)
    requires Tracks(w, s) && |keys| <= BATCH_OPS_MAX
    ensures Tracks(Rekeying(w, |keys|), Rekeyed(s, keys))
  {
    RekeyedSince(s, keys);
    RekeyedRuns(s, keys);
  }

  lemma {:induction false} RekeyedRuns(s: State, keys: seq<Key>)
    ensures Rekeyed(s, keys).halted == s.halted
    decreases |keys|
  {
    if keys != [] {
      RekeyedRuns(s, keys[..|keys| - 1]);
    }
  }

  lemma StepTracks(w: Monitor, s: State, c: Command)
    requires Tracks(w, s) && (s.halted || SmallBatch(c))
    ensures Tracks(Watch(w, c), Step(s, c))
  {
    hide Encrypt, Announce, Counting, Rekeying, Rekeyed;
    if !s.halted {
      match c
      case SetKey(_) =>
      case Single => AnnounceTracks(w, s, 1);
      case Batch(n) => AnnounceTracks(w, s, n);
      case Alternative(n) => AnnounceTracks(w, s, n);
      case SetFixedKey(_) =>
      case KeyBatch(keys) =>
        if |keys| <= BATCH_OPS_MAX {
          RekeyTracks(w, s, keys);
        } else {
          TooManyHalts(w, |keys|);
        }
      case DataBatch(n) =>
        if n <= BATCH_OPS_MAX {
          RekeyTracks(w, s, Repeat(s.keyFixed, n));
        } else {
          TooManyHalts(w, n);
        }
    }
  }

  lemma TooManyHalts(w: Monitor, n: nat)
    requires n > BATCH_OPS_MAX
    ensures Rekeying(w, n) == w.(halted := true)
  {
  }

  lemma {:induction false} RunTracks(w: Monitor, s: State, cs: seq<Command>)
    requires Tracks(w, s) && Safe(w, cs)
    ensures Tracks(WatchAll(w, cs), Run(s, cs))
    decreases |cs|
  {
    hide Tracks, Watch, Step, Overdrawn, SmallBatch;
    if cs != [] {
      var n := |cs| - 1;
      SafePrefix(w, cs, n);
      RunTracks(w, s, cs[..n]);
      TracksHalted(WatchAll(w, cs[..n]), Run(s, cs[..n]));
      StepTracks(WatchAll(w, cs[..n]), Run(s, cs[..n]), cs[n]);
    }
  }

  lemma TracksHalted(w: Monitor, s: State)
    requires Tracks(w, s)
    ensures w.halted == s.halted
  {
  }

  lemma SafePrefix(w: Monitor, cs: seq<Command>, n: nat)
    requires n <= |cs|
    requires forall k :: 0 <= k <= n ==>
               !Overdrawn(WatchAll(w, cs[..k])) && (k < n && !WatchAll(w, cs[..k]).halted ==> SmallBatch(cs[k]))
    ensures Safe(w, cs[..n])
  {
    hide Overdrawn, SmallBatch, WatchAll;
    forall k | 0 <= k <= n
      ensures !Overdrawn(WatchAll(w, cs[..n][..k])) && (k < n && !WatchAll(w, cs[..n][..k]).halted ==> SmallBatch(cs[..n][k]))
    {
      assert cs[..n][..k] == cs[..k];
    }
  }

  /** Never more than 8191 blocks under one key write. */
  predicate Within(s: State, cs: seq<Command>) {
    forall k :: 0 <= k <= |cs| ==> Run(s, cs[..k]).since <= 8191
  }

  lemma TrackedBound(w: Monitor, s: State)
    requires Tracks(w, s)
    ensures s.since <= BLOCK_CTR_MAX <==> !Overdrawn(w)
  {
  }

  lemma SafeWithin(w: Monitor, s: State, cs: seq<Command>)
    requires Tracks(w, s) && Safe(w, cs)
    ensures Within(s, cs)
  {
    hide Tracks, Overdrawn, SmallBatch, WatchAll, Run;
    forall k | 0 <= k <= |cs|
      ensures Run(s, cs[..k]).since <= BLOCK_CTR_MAX
    {
      SafePrefix(w, cs, k);
      RunTracks(w, s, cs[..k]);
      TrackedBound(WatchAll(w, cs[..k]), Run(s, cs[..k]));
    }
  }

  /** The place where the condition first fails. */
  lemma {:induction false} FirstFailure(w: Monitor, cs: seq<Command>, m: nat) returns (k: nat)
    requires m <= |cs| && !Safe(w, cs[..m]) && Safe(w, cs[..0])
    ensures k < m && Safe(w, cs[..k])
    ensures Overdrawn(WatchAll(w, cs[..k + 1])) || (!WatchAll(w, cs[..k]).halted && !SmallBatch(cs[k]))
    decreases m
  {
    hide Safe, Overdrawn, SmallBatch, WatchAll;
    k := m - 1;
    if !Safe(w, cs[..k]) {
      k := FirstFailure(w, cs, k);
    } else if !Overdrawn(WatchAll(w, cs[..k + 1])) && (WatchAll(w, cs[..k]).halted || SmallBatch(cs[k])) {
      SafeLonger(w, cs, k);
    }
  }

  lemma SafeLonger(w: Monitor, cs: seq<Command>, n: nat)
    requires n < |cs| && Safe(w, cs[..n])
    requires !Overdrawn(WatchAll(w, cs[..n + 1])) && (WatchAll(w, cs[..n]).halted || SmallBatch(cs[n]))
    ensures Safe(w, cs[..n + 1])
  {
    hide Overdrawn, SmallBatch, WatchAll;
    forall k | 0 <= k <= n + 1
      ensures !Overdrawn(WatchAll(w, cs[..k])) && (k < n + 1 && !WatchAll(w, cs[..k]).halted ==> SmallBatch(cs[k]))
    {
      if k <= n {
        assert cs[..n][..k] == cs[..k];
        assert k < n ==> cs[..n][k] == cs[k];
      }
    }
    SafePrefix(w, cs, n + 1);
  }

  lemma UnsafeExceeds(w: Monitor, s: State, cs: seq<Command>)
    requires Tracks(w, s) && !Safe(w, cs)
    ensures !Within(s, cs)
  {
    hide Tracks, Overdrawn, SmallBatch, Step, Watch;
    if Overdrawn(w) {
      TrackedBound(w, s);
      assert cs[..0] == [] && Run(s, []) == s;
    } else {
      SafeStart(w, cs);
      assert cs[..|cs|] == cs;
      var k := FirstFailure(w, cs, |cs|);
      RunTracks(w, s, cs[..k]);
      var v, t := WatchAll(w, cs[..k]), Run(s, cs[..k]);
      TracksHalted(v, t);
      assert cs[..k + 1][..k] == cs[..k];
      if !v.halted && !SmallBatch(cs[k]) {
        LargeStep(t, cs[k]);
      } else {
        StepTracks(v, t, cs[k]);
        TrackedBound(Watch(v, cs[k]), Step(t, cs[k]));
      }
      assert Run(s, cs[..k + 1]).since > BLOCK_CTR_MAX;
    }
  }

  lemma SafeStart(w: Monitor, cs: seq<Command>)
    requires !Overdrawn(w)
    ensures Safe(w, cs[..0])
  {
    assert cs[..0] == [];
  }

  lemma LargeStep(s: State, c: Command)
    requires !s.halted && !SmallBatch(c)
    ensures Step(s, c).since > BLOCK_CTR_MAX
  {
    LargeBatchExceeds(s, c);
  }

  /** For every sequence of all the commands: never more than 8191 blocks under one key write if and only if no accepted
      batch is larger than 8191 and the counter is never full while it is behind. */
  lemma BlocksExactly(w: Monitor, s: State, cs: seq<Command>)
    requires Tracks(w, s)
    ensures Within(s, cs) <==> Safe(w, cs)
  {
    if Safe(w, cs) {
      SafeWithin(w, s, cs);
    } else {
      UnsafeExceeds(w, s, cs);
    }
  }

  // ---------- The keys ----------

  function KeyAfter(key: Key, c: Command): Key { if c.SetKey? then c.key else key }

  function Blocks(c: Command): nat {
    if c.Single? then 1 else if c.Batch? || c.Alternative? then c.n else 0
  }

  /** The key of every block, from the commands alone: the one set last. */
  function Intended(key: Key, cs: seq<Command>): seq<Key>
    decreases |cs|
  {
    if cs == [] then [] else Repeat(KeyAfter(key, cs[0]), Blocks(cs[0])) + Intended(KeyAfter(key, cs[0]), cs[1..])
  }

  lemma StepIntended(s: State, c: Command)
    requires !s.halted && s.hwKey == s.keyFixed && Plain(c)
    ensures var t := Step(s, c);
            && !t.halted && t.hwKey == t.keyFixed == KeyAfter(s.keyFixed, c)
            && t.used == s.used + Repeat(KeyAfter(s.keyFixed, c), Blocks(c))
  {
  }

  lemma {:induction false} RunFront(s: State, cs: seq<Command>)
    requires cs != []
    ensures Run(s, cs) == Run(Step(s, cs[0]), cs[1..])
    decreases |cs|
  {
    if |cs| > 1 {
      RunFront(s, cs[..|cs| - 1]);
      assert cs[..|cs| - 1][1..] == cs[1..][..|cs| - 2];
    } else {
      assert cs[..0] == [] && cs[1..] == [];
    }
  }

  /** The rewriting of the key never shows: under 'k', 'p', 'b' and 'a' every block is encrypted under the key set last. */
  lemma {:induction false} KeysIntended(s: State, cs: seq<Command>)
    requires !s.halted && s.hwKey == s.keyFixed && forall c :: c in cs ==> Plain(c)
    ensures Run(s, cs).used == s.used + Intended(s.keyFixed, cs)
    decreases |cs|
  {
    if cs != [] {
      RunFront(s, cs);
      assert Plain(cs[0]);
      StepIntended(s, cs[0]);
      KeysIntended(Step(s, cs[0]), cs[1..]);
      hide Step, KeyAfter, Blocks;
    }
  }

  /** A batch of 'e' or 'h' encrypts one block under each of its keys, in order, and leaves the last one in the unit. */
  lemma {:induction false} RekeyedUses(s: State, keys: seq<Key>)
    ensures var t := Rekeyed(s, keys);
            && t.used == s.used + keys && t.keyFixed == s.keyFixed
            && t.hwKey == if keys == [] then s.hwKey else keys[|keys| - 1]
    decreases |keys|
  {
    if keys != [] {
      var n := |keys| - 1;
      RekeyedUses(s, keys[..n]);
      assert Repeat(keys[n], 1) == [keys[n]];
      assert keys == keys[..n] + [keys[n]];
    }
  }

  // ---------- The keys under all commands ----------

  /** The key variable and the key in the unit. They differ after 'f' and 'e'. */
  datatype Keys = Keys(fixed: Key, loaded: Key)

  /** The keys after a command that the counter w has seen before it. */
  function KeysAfter(k: Keys, w: Monitor, c: Command): Keys {
    if w.halted then k
    else
      match c
      case SetKey(key) => Keys(key, key)
      case Single => if (w.ctr + 1) % TWO_32 > 8191 then Keys(k.fixed, k.fixed) else k
      case Batch(n) => if (w.ctr + n) % TWO_32 > 8191 then Keys(k.fixed, k.fixed) else k
      case Alternative(n) => if (w.ctr + n) % TWO_32 > 8191 then Keys(k.fixed, k.fixed) else k
      case SetFixedKey(key) => Keys(key, k.loaded)
      case KeyBatch(keys) => if keys == [] || |keys| > 256 then k else Keys(k.fixed, keys[|keys| - 1])
      case DataBatch(n) => if n == 0 || n > 256 then k else Keys(k.fixed, k.fixed)
  }

  /** The keys of the blocks of a command: the one in the unit for 'p', 'b' and 'a', after the counter may have replaced it,
      the batch's own for 'e', and the key variable for 'h'. */
  function KeysOf(k: Keys, w: Monitor, c: Command): seq<Key> {
    if w.halted then []
    else
      match c
      case SetKey(_) => []
      case Single => [KeysAfter(k, w, c).loaded]
      case Batch(n) => Repeat(KeysAfter(k, w, c).loaded, n)
      case Alternative(n) => Repeat(KeysAfter(k, w, c).loaded, n)
      case SetFixedKey(_) => []
      case KeyBatch(keys) => if |keys| <= 256 then keys else []
      case DataBatch(n) => if n <= 256 then Repeat(k.fixed, n) else []
  }

  /** The key of every block, from the commands, the two keys and the counter at the start. */
  function AllKeys(k: Keys, w: Monitor, cs: seq<Command>): seq<Key>
    decreases |cs|
  {
    if cs == [] then [] else KeysOf(k, w, cs[0]) + AllKeys(KeysAfter(k, w, cs[0]), Watch(w, cs[0]), cs[1..])
  }

  /** The monitor's counter and halt flag, without the bound on the blocks. */
  predicate Follows(w: Monitor, k: Keys, s: State) {
    w.ctr == s.blockCtr && w.halted == s.halted && k == Keys(s.keyFixed, s.hwKey)
  }

  lemma StepFollows(w: Monitor, k: Keys, s: State, c: Command)
    requires Follows(w, k, s)
    ensures Follows(Watch(w, c), KeysAfter(k, w, c), Step(s, c))
    ensures Step(s, c).used == s.used + KeysOf(k, w, c)
  {
    if !s.halted {
      match c
      case SetKey(_) =>
      case Single => assert Repeat(Announce(s, 1).hwKey, 1) == [Announce(s, 1).hwKey];
      case Batch(n) =>
      case Alternative(n) =>
      case SetFixedKey(_) =>
      case KeyBatch(keys) => BatchFollows(s, keys);
      case DataBatch(n) => BatchFollows(s, Repeat(s.keyFixed, n));
    }
  }

  lemma BatchFollows(s: State, keys: seq<Key>)
    ensures var t := Rekeyed(s, keys);
            && t.used == s.used + keys && t.keyFixed == s.keyFixed && t.blockCtr == s.blockCtr && t.halted == s.halted
            && t.hwKey == if keys == [] then s.hwKey else keys[|keys| - 1]
  {
    RekeyedUses(s, keys);
    RekeyedSince(s, keys);
    RekeyedRuns(s, keys);
  }

  /** For every sequence of all the commands: which key every block is encrypted under. */
  lemma {:induction false} KeysExactly(w: Monitor, k: Keys, s: State, cs: seq<Command>)
    requires Follows(w, k, s)
    ensures Run(s, cs).used == s.used + AllKeys(k, w, cs)
    decreases |cs|
  {
    hide Step, Watch, KeysAfter, KeysOf, Follows;
    if cs == [] {
      assert s.used + [] == s.used;
    } else {
      RunFront(s, cs);
      StepFollows(w, k, s, cs[0]);
      var t := Step(s, cs[0]);
      KeysExactly(Watch(w, cs[0]), KeysAfter(k, w, cs[0]), t, cs[1..]);
      hide Run, AllKeys;
      assert t.used + AllKeys(KeysAfter(k, w, cs[0]), Watch(w, cs[0]), cs[1..])
          == s.used + (KeysOf(k, w, cs[0]) + AllKeys(KeysAfter(k, w, cs[0]), Watch(w, cs[0]), cs[1..]));
    }
  }
}
