/** jtagdpi.c: the remote bit-bang server with its one-command look-ahead, against the machine that handles one
    command at a time. */
module JtagDpi {
  import opened Wrappers

  const NUL: char := '\0'

  datatype Pins = Pins(tck: bool, tms: bool, tdi: bool, trstN: bool, srstN: bool)

  datatype Out = Response(tdo: bool) | Close

  /** The server's context. slot is the look-ahead buffer, NUL when empty; input has arrived and is unread. */
  datatype Context = Context(pins: Pins, slot: char, input: seq<char>, sent: seq<Out>, exited: bool)

  /** Commands that have arrived and are not handled yet. */
  function Outstanding(x: Context): seq<char> {
    (if x.slot != NUL then [x.slot] else []) + x.input
  }

  function Bit(c: char, base: char, k: nat): bool
    requires base <= c && k < 3
  {
    var n := c as int - base as int;
    if k == 0 then n % 2 == 1 else if k == 1 then n / 2 % 2 == 1 else n / 4 % 2 == 1
  }

  predicate IsWrite(c: char) { '0' <= c <= '7' }

  predicate IsReset(c: char) { 'r' <= c <= 'u' }

  function WritePins(p: Pins, c: char): Pins
    requires IsWrite(c)
  {
    p.(tdi := Bit(c, '0', 0), tms := Bit(c, '0', 1), tck := Bit(c, '0', 2))
  }

  function ResetPins(p: Pins, c: char): Pins
    requires IsReset(c)
  {
    p.(srstN := !Bit(c, 'r', 0), trstN := !Bit(c, 'r', 1))
  }

  // ---------- The server, one callback at a time ----------

  function Read(x: Context): (Option<char>, Context) {
    if x.input == [] then (None, x) else (Some(x.input[0]), x.(input := x.input[1..]))
  }

  /** Whether the next command is a read; any other command is buffered. */
  function Lookahead(x: Context): (bool, Context) {
    match Read(x)
    case (None, y) => (false, y)
    case (Some(c), y) => if c == 'R' then (true, y) else (false, y.(slot := c))
  }

  function GetCmd(x: Context): (Option<char>, Context) {
    if x.slot != NUL then (Some(x.slot), x.(slot := NUL)) else Read(x)
  }

  function Handle(x: Context, c: char, tdo: bool): Context {
    if IsWrite(c) then
      var y := x.(pins := WritePins(x.pins, c));
      if !x.pins.tck && y.pins.tck then
        var (read, z) := Lookahead(y);
        if read then z.(sent := z.sent + [Response(tdo)]) else z
      else y
    else if IsReset(c) then x.(pins := ResetPins(x.pins, c))
    else if c == 'R' then x.(sent := x.sent + [Response(tdo)])
    else if c == 'B' || c == 'b' then x
    else if c == 'Q' then x.(sent := x.sent + [Close])
    else x.(exited := true)
  }

  function Tick(x: Context, tdo: bool): Context {
    match GetCmd(x)
    case (None, y) => y
    case (Some(c), y) => Handle(y, c, tdo)
  }

  // ---------- What the commands mean ----------

  function Level(high: bool): int { if high then 1 else 0 }

  /** The eight write commands: the character whose distance from '0' is 4 * tck + 2 * tms + tdi drives these three levels and
      leaves both resets. */
  lemma WriteCommandDrives(x: Context, tck: bool, tms: bool, tdi: bool, tdo: bool)
    requires !x.exited && Outstanding(x) != []
    requires Outstanding(x)[0] as int == '0' as int + 4 * Level(tck) + 2 * Level(tms) + Level(tdi)
    ensures var y := Tick(x, tdo); !y.exited && y.pins == Pins(tck, tms, tdi, x.pins.trstN, x.pins.srstN)
  {
    GetsFirst(x, Outstanding(x));
    var c := Outstanding(x)[0];
    WriteBits(c, tck, tms, tdi);
    assert IsWrite(c);
    hide Bit;
  }

  lemma WriteBits(c: char, tck: bool, tms: bool, tdi: bool)
    requires c as int == '0' as int + 4 * Level(tck) + 2 * Level(tms) + Level(tdi)
    ensures IsWrite(c) && Bit(c, '0', 0) == tdi && Bit(c, '0', 1) == tms && Bit(c, '0', 2) == tck
  {
  }

  /** The four reset commands: the character whose distance from 'r' is 2 * trst + srst drives both active-low reset pins and
      leaves the others. */
  lemma ResetCommandDrives(x: Context, trst: bool, srst: bool, tdo: bool)
    requires !x.exited && Outstanding(x) != []
    requires Outstanding(x)[0] as int == 'r' as int + 2 * Level(trst) + Level(srst)
    ensures var y := Tick(x, tdo); !y.exited && y.pins == Pins(x.pins.tck, x.pins.tms, x.pins.tdi, !trst, !srst)
    ensures Tick(x, tdo).sent == x.sent
  {
    GetsFirst(x, Outstanding(x));
    var c := Outstanding(x)[0];
    ResetBits(c, trst, srst);
    assert IsReset(c);
    hide Bit;
  }

  lemma ResetBits(c: char, trst: bool, srst: bool)
    requires c as int == 'r' as int + 2 * Level(trst) + Level(srst)
    ensures IsReset(c) && Bit(c, 'r', 0) == srst && Bit(c, 'r', 1) == trst
  {
  }

  /** The other commands leave the pins alone: 'R' answers with the sampled TDO, 'Q' closes the connection, 'B' and 'b' do
      nothing, and any character that is no command ends the server. */
  lemma OtherCommands(x: Context, tdo: bool)
    requires !x.exited && Outstanding(x) != []
    requires var c := Outstanding(x)[0]; !('0' <= c <= '7') && !('r' <= c <= 'u')
    ensures var c, y := Outstanding(x)[0], Tick(x, tdo);
            && y.pins == x.pins && Outstanding(y) == Outstanding(x)[1..]
            && y.sent == x.sent + (if c == 'R' then [Response(tdo)] else if c == 'Q' then [Close] else [])
            && (y.exited <==> c != 'R' && c != 'Q' && c != 'B' && c != 'b')
  {
    hide Bit;
    GetsFirst(x, Outstanding(x));
  }

  /** A write answers too if it raises TCK and the next command is a read; it sends nothing otherwise. */
  lemma WriteAnswers(x: Context, tdo: bool)
    requires !x.exited && Outstanding(x) != [] && '0' <= Outstanding(x)[0] <= '7'
    ensures var cs, y := Outstanding(x), Tick(x, tdo);
            y.sent == x.sent + if !x.pins.tck && '4' <= cs[0] && |cs| > 1 && cs[1] == 'R' then [Response(tdo)] else []
  {
    GetsFirst(x, Outstanding(x));
    RaisesTck(x.pins, Outstanding(x)[0]);
    hide Bit;
  }

  // ---------- The same, in place ----------

  class Server {
    var tck: bool
    var tms: bool
    var tdi: bool
    var tdo: bool
    var trstN: bool
    var srstN: bool
    var cmd: char
    var input: seq<char>
    var sent: seq<Out>
    var exited: bool

    function View(): Context
      reads this
    {
      Context(Pins(tck, tms, tdi, trstN, srstN), cmd, input, sent, exited)
    }

    /** The dongle-unplugged state. */
    constructor (assertSrst: bool)
      ensures View() == Context(Pins(false, false, false, false, !assertSrst), NUL, [], [], false)
    {
      tck, tms, tdi, tdo, trstN, srstN := false, false, false, false, false, !assertSrst;
      cmd, input, sent, exited := NUL, [], [], false;
    }

    method ServerRead() returns (ok: bool, c: char)
      modifies this`input
      ensures (if ok then Some(c) else None, View()) == Read(old(View()))
    {
      c := NUL;
      ok := input != [];
      if ok {
        c := input[0];
        input := input[1..];
      }
    }

    method LookaheadCmd() returns (read: bool)
      modifies this`input, this`cmd
      ensures (read, View()) == Lookahead(old(View()))
    {
      var ok, c := ServerRead();
      if !ok {
        return false;
      }
      if c == 'R' {
        return true;
      }
      cmd := c;
      return false;
    }

    method GetCommand() returns (ok: bool, c: char)
      modifies this`input, this`cmd
      ensures (if ok then Some(c) else None, View()) == GetCmd(old(View()))
    {
      if cmd != NUL {
        c := cmd;
        cmd := NUL;
        return true, c;
      }
      ok, c := ServerRead();
    }

    method UpdateJtagSignals()
      requires !exited
      modifies this
      ensures View() == Tick(old(View()), old(tdo)) && tdo == old(tdo)
    {
      hide Bit, Lookahead, Read, GetCmd;
      var ok, c := GetCommand();
      if !ok {
        return;
      }
      var sendResponse, quit := false, false;
      if IsWrite(c) {
        var before := tck;
        tdi := Bit(c, '0', 0);
        tms := Bit(c, '0', 1);
        tck := Bit(c, '0', 2);
        if !before && tck {
          sendResponse := LookaheadCmd();
        }
      } else if IsReset(c) {
        srstN := !Bit(c, 'r', 0);
        trstN := !Bit(c, 'r', 1);
      } else if c == 'R' {
        sendResponse := true;
      } else if c == 'B' || c == 'b' {
      } else if c == 'Q' {
        quit := true;
      } else {
        exited := true;
        return;
      }
      if sendResponse {
        sent := sent + [Response(tdo)];
      }
      if quit {
        sent := sent + [Close];
      }
    }

    /** One simulation callback: samples TDO, handles what there is to handle, drives the pins. */
    method TickServer(sampled: bool) returns (pins: Pins)
      requires !exited
      modifies this
      ensures View() == Tick(old(View()), sampled) && pins == View().pins
    {
      tdo := sampled;
      UpdateJtagSignals();
      return Pins(tck, tms, tdi, trstN, srstN);
    }
  }

  // ---------- The target ----------

  /** What hangs on the pins: how it moves on, its TDO, and the pins it saw last. */
  datatype Target<!T> = Target(next: (T, Pins) -> T, tdo: T -> bool, pins: T -> Pins)

  predicate MayMove(before: Pins, now: Pins) {
    (before.tck && !now.tck) || now.trstN != before.trstN || now.srstN != before.srstN
  }

  /** Section 4.5 of IEEE 1149.1: TDO changes only on a falling TCK (or when a reset line moves), and a target
      that sees the same pins again does nothing. */
  ghost predicate Jtag<T(!new)>(g: Target<T>) {
    && (forall t, p :: g.pins(g.next(t, p)) == p)
    && (forall t :: g.next(t, g.pins(t)) == t)
    && (forall t, p :: !MayMove(g.pins(t), p) ==> g.tdo(g.next(t, p)) == g.tdo(t))
  }

  /** There are such targets: this one flips TDO whenever it may. */
  lemma JtagExists()
    ensures Jtag(Target((t: (Pins, bool), p: Pins) => (p, if MayMove(t.0, p) then !t.1 else t.1),
                        (t: (Pins, bool)) => t.1, (t: (Pins, bool)) => t.0))
  {
  }

  // ---------- One command at a time ----------

  /** What can be observed: the pins and every change of them, the bytes sent, the target. */
  datatype Seen<T> = Seen(pins: Pins, edges: seq<Pins>, sent: seq<Out>, target: T, exited: bool)

  function Drive<T>(g: Target<T>, m: Seen<T>, p: Pins): Seen<T> {
    m.(pins := p, edges := if p != m.pins then m.edges + [p] else m.edges, target := g.next(m.target, p))
  }

  function Command<T>(g: Target<T>, m: Seen<T>, c: char): Seen<T> {
    if m.exited then m
    else if IsWrite(c) then Drive(g, m, WritePins(m.pins, c))
    else if IsReset(c) then Drive(g, m, ResetPins(m.pins, c))
    else if c == 'R' then Drive(g, m.(sent := m.sent + [Response(g.tdo(m.target))]), m.pins)
    else if c == 'B' || c == 'b' then Drive(g, m, m.pins)
    else if c == 'Q' then Drive(g, m.(sent := m.sent + [Close]), m.pins)
    else m.(exited := true)
  }

  function Commands<T>(g: Target<T>, m: Seen<T>, cs: seq<char>): Seen<T>
    decreases |cs|
  {
    if cs == [] then m else Command(g, Commands(g, m, cs[..|cs| - 1]), cs[|cs| - 1])
  }

  lemma CommandsStep<T>(g: Target<T>, m: Seen<T>, cs: seq<char>, k: nat)
    requires k < |cs|
    ensures Commands(g, m, cs[..k + 1]) == Command(g, Commands(g, m, cs[..k]), cs[k])
  {
    assert cs[..k + 1][..k] == cs[..k];
  }

  /** Command k is handled and raises TCK. */
  predicate Rises<T>(g: Target<T>, m: Seen<T>, cs: seq<char>, k: nat)
    requires k < |cs|
  {
    var n := Commands(g, m, cs[..k]);
    !n.exited && Raises(n.pins, cs[k])
  }

  /** No NUL comes right after a command that raises TCK. */
  ghost predicate NoNulAfterRise<T(!new)>(g: Target<T>, m: Seen<T>, cs: seq<char>) {
    forall k :: 0 <= k && k + 1 < |cs| && Rises(g, m, cs, k) ==> cs[k + 1] != NUL
  }

  // ---------- Server and target together ----------

  datatype System<T> = System(ctx: Context, edges: seq<Pins>, target: T)

  datatype Event = Arrive(c: char) | Callback

  function Step<T>(g: Target<T>, s: System<T>, e: Event): System<T> {
    match e
    case Arrive(c) => s.(ctx := s.ctx.(input := s.ctx.input + [c]))
    case Callback =>
      if s.ctx.exited then s
      else
        var x := Tick(s.ctx, g.tdo(s.target));
        if x.exited then s.(ctx := x)
        else System(x, if x.pins != s.ctx.pins then s.edges + [x.pins] else s.edges, g.next(s.target, x.pins))
  }

  function Run<T>(g: Target<T>, s: System<T>, es: seq<Event>): System<T>
    decreases |es|
  {
    if es == [] then s else Step(g, Run(g, s, es[..|es| - 1]), es[|es| - 1])
  }

  function Arrived(es: seq<Event>): seq<char>
    decreases |es|
  {
    if es == [] then []
    else
      var before := Arrived(es[..|es| - 1]);
      match es[|es| - 1]
      case Arrive(c) => before + [c]
      case Callback => before
  }

  function Observed<T>(s: System<T>): Seen<T> {
    Seen(s.ctx.pins, s.edges, s.ctx.sent, s.target, s.ctx.exited)
  }

  /** k of the commands have been handled, the others are outstanding, and the observations are those of the
      one-at-a-time machine. */
  ghost predicate Matches<T>(g: Target<T>, m: Seen<T>, cs: seq<char>, s: System<T>, k: nat) {
    && k <= |cs|
    && Outstanding(s.ctx) == cs[k..]
    && Observed(s) == Commands(g, m, cs[..k])
    && g.pins(s.target) == s.ctx.pins
  }

  lemma TckBit(c: char)
    ensures IsWrite(c) ==> (Bit(c, '0', 2) <==> '4' <= c)
  {
  }

  /** c raises TCK at these pins. */
  predicate Raises(p: Pins, c: char) { !p.tck && '4' <= c <= '7' }

  /** The pins after c, when c is a command that touches them. */
  function PinsAfter(p: Pins, c: char): Pins {
    if IsWrite(c) then WritePins(p, c) else if IsReset(c) then ResetPins(p, c) else p
  }

  function SentAfter(sent: seq<Out>, c: char, tdo: bool): seq<Out> {
    if c == 'R' then sent + [Response(tdo)] else if c == 'Q' then sent + [Close] else sent
  }

  predicate Known(c: char) { IsWrite(c) || IsReset(c) || c == 'R' || c == 'B' || c == 'b' || c == 'Q' }

  lemma GetsFirst(x: Context, cs: seq<char>)
    requires Outstanding(x) == cs && cs != []
    ensures GetCmd(x) == (Some(cs[0]), x.(slot := NUL, input := cs[1..]))
  {
    assert if x.slot != NUL then x.input == cs[1..] else x.input == cs;
  }

  lemma RaisesTck(p: Pins, c: char)
    ensures IsWrite(c) ==> (Raises(p, c) <==> !p.tck && WritePins(p, c).tck)
    ensures Raises(p, c) ==> IsWrite(c)
  {
    TckBit(c);
  }

  /** A callback that finds a read behind a rising edge handles both. */
  lemma TickTwo(x: Context, cs: seq<char>, tdo: bool)
    requires Outstanding(x) == cs && !x.exited && |cs| > 1 && Raises(x.pins, cs[0]) && cs[1] == 'R'
    ensures Tick(x, tdo) == Context(PinsAfter(x.pins, cs[0]), NUL, cs[2..], x.sent + [Response(tdo)], false)
  {
    hide WritePins, ResetPins, GetCmd;
    GetsFirst(x, cs);
    RaisesTck(x.pins, cs[0]);
  }

  lemma NoReadAhead(x: Context)
    requires x.slot == NUL && (x.input != [] ==> x.input[0] != 'R' && x.input[0] != NUL)
    ensures var (read, y) := Lookahead(x); !read && y == x.(slot := y.slot, input := y.input) && Outstanding(y) == x.input
  {
  }

  /** Any other callback handles one command; a command it looked at stays outstanding. */
  lemma TickOne(x: Context, cs: seq<char>, tdo: bool)
    requires Outstanding(x) == cs && !x.exited && cs != []
    requires Raises(x.pins, cs[0]) && |cs| > 1 ==> cs[1] != 'R' && cs[1] != NUL
    ensures var y := Tick(x, tdo);
            && Outstanding(y) == cs[1..] && y.pins == PinsAfter(x.pins, cs[0])
            && y.sent == SentAfter(x.sent, cs[0], tdo) && y.exited == !Known(cs[0])
  {
    hide WritePins, ResetPins, GetCmd, Lookahead;
    GetsFirst(x, cs);
    RaisesTck(x.pins, cs[0]);
    if Raises(x.pins, cs[0]) {
      NoReadAhead(x.(slot := NUL, input := cs[1..], pins := PinsAfter(x.pins, cs[0])));
    }
  }

  lemma CommandKnown<T>(g: Target<T>, m: Seen<T>, c: char)
    requires !m.exited
    ensures Command(g, m, c)
         == if Known(c) then Drive(g, m.(sent := SentAfter(m.sent, c, g.tdo(m.target))), PinsAfter(m.pins, c))
            else m.(exited := true)
  {
    hide WritePins, ResetPins, Drive;
  }

  /** A rising edge moves TDO neither then nor when the pins stay. */
  lemma TdoAfterRise<T(!new)>(g: Target<T>, t: T, c: char)
    requires Jtag(g) && Raises(g.pins(t), c)
    ensures var p := PinsAfter(g.pins(t), c); g.tdo(g.next(t, p)) == g.tdo(t) && g.next(g.next(t, p), p) == g.next(t, p)
  {
    hide Bit;
    var p := PinsAfter(g.pins(t), c);
    assert !MayMove(g.pins(t), p);
    assert g.pins(g.next(t, p)) == p;
  }

  /** One callback handles one command, or a rising edge of TCK together with the read after it. */
  lemma CallbackMatches<T(!new)>(g: Target<T>, m: Seen<T>, cs: seq<char>, s: System<T>, k: nat) returns (j: nat)
    requires Jtag(g) && Matches(g, m, cs, s, k)
    requires k + 1 < |cs| && Rises(g, m, cs, k) ==> cs[k + 1] != NUL
    ensures Matches(g, m, cs, Step(g, s, Callback), j)
    ensures if s.ctx.exited || k == |cs| then j == k else j == k + 1 || (j == k + 2 && cs[k + 1] == 'R')
  {
    hide Bit, Tick, WritePins, ResetPins, Command, Commands, Known, MayMove;
    j := k;
    if !s.ctx.exited {
      if k == |cs| {
        TickNone(s.ctx, g.tdo(s.target));
      } else {
        var n := Commands(g, m, cs[..k]);
        CommandsStep(g, m, cs, k);
        CommandKnown(g, n, cs[k]);
        KnownCommands(cs[k]);
        if !Known(cs[k]) {
          UnknownCommand(n.pins, n.sent, cs[k], g.tdo(s.target));
        }
        j := k + 1;
        if Raises(s.ctx.pins, cs[k]) && k + 1 < |cs| && cs[k + 1] == 'R' {
          TickTwo(s.ctx, cs[k..], g.tdo(s.target));
          TdoAfterRise(g, s.target, cs[k]);
          CommandsStep(g, m, cs, k + 1);
          CommandKnown(g, Commands(g, m, cs[..k + 1]), cs[k + 1]);
          j := k + 2;
        } else {
          TickOne(s.ctx, cs[k..], g.tdo(s.target));
        }
      }
    }
  }

  lemma TickNone(x: Context, tdo: bool)
    requires Outstanding(x) == []
    ensures Tick(x, tdo) == x
  {
  }

  lemma KnownCommands(c: char)
    ensures Known('R') && ('4' <= c <= '7' ==> Known(c))
  {
  }

  lemma UnknownCommand(p: Pins, sent: seq<Out>, c: char, tdo: bool)
    requires !Known(c)
    ensures PinsAfter(p, c) == p && SentAfter(sent, c, tdo) == sent
  {
  }

  lemma RisesPrefix<T>(g: Target<T>, m: Seen<T>, cs: seq<char>, n: nat, k: nat)
    requires k < n <= |cs|
    ensures Rises(g, m, cs[..n], k) == Rises(g, m, cs, k)
  {
    assert cs[..n][..k] == cs[..k];
  }

  lemma SafePrefix<T(!new)>(g: Target<T>, m: Seen<T>, cs: seq<char>, n: nat)
    requires NoNulAfterRise(g, m, cs) && n <= |cs|
    ensures NoNulAfterRise(g, m, cs[..n])
  {
    forall k | 0 <= k && k + 1 < n && Rises(g, m, cs[..n], k)
      ensures cs[..n][k + 1] != NUL
    {
      RisesPrefix(g, m, cs, n, k);
    }
  }

  lemma ArriveMatches<T>(g: Target<T>, m: Seen<T>, cs: seq<char>, s: System<T>, k: nat, c: char)
    requires Matches(g, m, cs, s, k)
    ensures Matches(g, m, cs + [c], Step(g, s, Arrive(c)), k)
  {
    hide Commands;
    assert (cs + [c])[..k] == cs[..k];
    assert (cs + [c])[k..] == cs[k..] + [c];
  }

  /** The server with the look-ahead refines the machine that handles one command at a time: at every moment of every
      run, whatever the arrival pattern, what it has sent, every change of the pins and the target's state are those
      of that machine after some number of the arrived commands, and the rest is outstanding, in order. */
  lemma {:induction false} Refines<T(!new)>(g: Target<T>, s: System<T>, es: seq<Event>) returns (k: nat)
    requires Jtag(g) && g.pins(s.target) == s.ctx.pins && Outstanding(s.ctx) == []
    requires NoNulAfterRise(g, Observed(s), Arrived(es))
    ensures Matches(g, Observed(s), Arrived(es), Run(g, s, es), k)
    decreases |es|
  {
    hide Step, Observed, NoNulAfterRise;
    if es == [] {
      k := 0;
      StartMatches(g, s);
    } else {
      var before, cs := es[..|es| - 1], Arrived(es[..|es| - 1]);
      assert Arrived(es)[..|cs|] == cs;
      SafePrefix(g, Observed(s), Arrived(es), |cs|);
      k := Refines(g, s, before);
      match es[|es| - 1]
      case Arrive(c) => ArriveMatches(g, Observed(s), cs, Run(g, s, before), k, c);
      case Callback =>
        SafeAt(g, Observed(s), cs, k);
        k := CallbackMatches(g, Observed(s), cs, Run(g, s, before), k);
    }
  }

  lemma StartMatches<T>(g: Target<T>, s: System<T>)
    requires g.pins(s.target) == s.ctx.pins && Outstanding(s.ctx) == []
    ensures Matches(g, Observed(s), [], s, 0)
  {
  }

  lemma SafeAt<T(!new)>(g: Target<T>, m: Seen<T>, cs: seq<char>, k: nat)
    requires NoNulAfterRise(g, m, cs)
    ensures k + 1 < |cs| && Rises(g, m, cs, k) ==> cs[k + 1] != NUL
  {
  }

  function Callbacks(n: nat): seq<Event> { seq(n, _ => Callback) }

  /** With enough callbacks everything that has arrived is handled, unless an unknown command ends the server. */
  lemma {:induction false} Drains<T(!new)>(g: Target<T>, m: Seen<T>, cs: seq<char>, s: System<T>, k: nat, n: nat)
      returns (j: nat)
    requires Jtag(g) && NoNulAfterRise(g, m, cs) && Matches(g, m, cs, s, k)
    ensures Matches(g, m, cs, Run(g, s, Callbacks(n)), j)
    ensures Run(g, s, Callbacks(n)).ctx.exited || j == |cs| || j >= k + n
    decreases n
  {
    hide Step, Matches, NoNulAfterRise;
    j := k;
    if n > 0 {
      j := Drains(g, m, cs, s, k, n - 1);
      assert Callbacks(n)[..n - 1] == Callbacks(n - 1);
      var t := Run(g, s, Callbacks(n - 1));
      SafeAt(g, m, cs, j);
      MatchesBound(g, m, cs, t, j);
      if t.ctx.exited {
        ExitStays(g, t);
      }
      j := CallbackMatches(g, m, cs, t, j);
    }
  }

  lemma MatchesBound<T>(g: Target<T>, m: Seen<T>, cs: seq<char>, s: System<T>, k: nat)
    requires Matches(g, m, cs, s, k)
    ensures k <= |cs|
  {
  }

  lemma ExitStays<T>(g: Target<T>, s: System<T>)
    requires s.ctx.exited
    ensures Step(g, s, Callback) == s
  {
  }

  // ---------- Why NUL is excluded there ----------

  lemma TickSwallows(x: Context, cs: seq<char>, tdo: bool)
    requires Outstanding(x) == cs && !x.exited && |cs| > 1 && Raises(x.pins, cs[0]) && cs[1] == NUL
    ensures Tick(x, tdo) == Context(PinsAfter(x.pins, cs[0]), NUL, cs[2..], x.sent, false)
  {
    hide WritePins, ResetPins, GetCmd;
    GetsFirst(x, cs);
    RaisesTck(x.pins, cs[0]);
  }

  lemma {:induction false} ExitIsFinal<T>(g: Target<T>, m: Seen<T>, cs: seq<char>, j: nat, r: nat)
    requires j <= r <= |cs| && !Commands(g, m, cs[..r]).exited
    ensures !Commands(g, m, cs[..j]).exited
    decreases r
  {
    if j < r {
      CommandsStep(g, m, cs, r - 1);
      ExitIsFinal(g, m, cs, j, r - 1);
    }
  }

  lemma {:induction false} ReachesRise<T(!new)>(g: Target<T>, m: Seen<T>, cs: seq<char>, s: System<T>, k: nat, r: nat, i: nat)
      returns (n: nat, j: nat)
    requires Jtag(g) && Matches(g, m, cs, s, k) && k <= r && r + 1 < |cs| && Rises(g, m, cs, r)
    requires NoNulAfterRise(g, m, cs[..r + 1])
    ensures Matches(g, m, cs, Run(g, s, Callbacks(n)), j)
    ensures j == r || k + i <= j < r
    decreases i
  {
    hide Step, Commands, NoNulAfterRise;
    if i == 0 {
      n, j := 0, k;
    } else {
      n, j := ReachesRise(g, m, cs, s, k, r, i - 1);
      if j < r {
        var t := Run(g, s, Callbacks(n));
        ExitIsFinal(g, m, cs, j, r);
        SafeAt(g, m, cs[..r + 1], j);
        RisesPrefix(g, m, cs, r + 1, j);
        assert Callbacks(n + 1)[..n] == Callbacks(n);
        j := CallbackMatches(g, m, cs, t, j);
        n := n + 1;
      }
    }
  }

  lemma NulUnknown()
    ensures !Known(NUL)
  {
  }

  lemma SwallowStep<T(!new)>(g: Target<T>, m: Seen<T>, cs: seq<char>, s: System<T>, r: nat)
    requires Jtag(g) && Matches(g, m, cs, s, r) && r + 1 < |cs| && Rises(g, m, cs, r) && cs[r + 1] == NUL
    ensures var t := Step(g, s, Callback);
            !t.ctx.exited && Outstanding(t.ctx) == cs[r + 2..] && Observed(t) == Commands(g, m, cs[..r + 1])
    ensures Commands(g, m, cs[..r + 2]).exited
  {
    hide Commands, Command, Tick, Known, PinsAfter;
    TickSwallows(s.ctx, cs[r..], g.tdo(s.target));
    CommandsStep(g, m, cs, r);
    CommandKnown(g, Commands(g, m, cs[..r]), cs[r]);
    KnownCommands(cs[r]);
    CommandsStep(g, m, cs, r + 1);
    CommandKnown(g, Commands(g, m, cs[..r + 1]), NUL);
    NulUnknown();
  }

  /** The condition is necessary: let any stream hold a NUL right after a command that raises TCK, and let it arrive
      before that command is handled. The look-ahead buffers the NUL, which is also the mark of an empty buffer, and so
      drops it; the machine that handles one command at a time ends there. */
  lemma NulSwallowed<T(!new)>(g: Target<T>, m: Seen<T>, cs: seq<char>, s: System<T>, k: nat, r: nat) returns (n: nat)
    requires Jtag(g) && Matches(g, m, cs, s, k) && k <= r && r + 1 < |cs|
    requires Rises(g, m, cs, r) && cs[r + 1] == NUL && NoNulAfterRise(g, m, cs[..r + 1])
    ensures var t := Run(g, s, Callbacks(n));
            && !t.ctx.exited && Outstanding(t.ctx) == cs[r + 2..] && Observed(t) == Commands(g, m, cs[..r + 1])
    ensures Commands(g, m, cs[..r + 2]).exited
  {
    hide Matches, Rises, Step, Commands, Observed, Outstanding;
    var j;
    n, j := ReachesRise(g, m, cs, s, k, r, r - k);
    assert Callbacks(n + 1)[..n] == Callbacks(n);
    SwallowStep(g, m, cs, Run(g, s, Callbacks(n)), r);
    n := n + 1;
  }
}
