/** dif_aon_timer.c: reading a running 64-bit counter through two 32-bit registers. */
module AonTimer {

  const TWO_32: nat := 0x1_0000_0000
  const TWO_64: nat := 0x1_0000_0000_0000_0000

  function Hi(c: nat): nat { c / TWO_32 }

  function Lo(c: nat): nat { c % TWO_32 }

  function Joined(hi: nat, lo: nat): nat { hi * TWO_32 + lo }

  lemma SplitJoined(c: nat)
    ensures Joined(Hi(c), Lo(c)) == c
  {
  }

  lemma JoinedInjective(hi: nat, lo: nat, c: nat)
    requires lo < TWO_32
    ensures Joined(hi, lo) == c <==> hi == Hi(c) && lo == Lo(c)
  {
  }

  lemma HiMonotone(a: nat, b: nat)
    requires a <= b
    ensures Hi(a) <= Hi(b) && (b - a < TWO_32 ==> Hi(b) <= Hi(a) + 1)
  {
  }

  /** The counter never decreases and does not reach 2^64. */
  class Timer {
    var now: nat

    ghost predicate Valid()
      reads this
    {
      now < TWO_64
    }

    constructor ()
      ensures Valid()
    {
      now := 0;
    }

    /** Any time may pass. */
    method Elapse()
      requires Valid()
      modifies this
      ensures Valid() && old(now) <= now
    {
      var ticks: int := *;
      if 0 <= ticks && now + ticks < TWO_64 {
        now := now + ticks;
      }
    }

    method ReadHi() returns (w: nat, ghost at: nat)
      requires Valid()
      modifies this
      ensures Valid() && old(now) <= at <= now && w == Hi(at)
    {
      Elapse();
      w, at := Hi(now), now;
      Elapse();
    }

    method ReadLo() returns (w: nat, ghost at: nat)
      requires Valid()
      modifies this
      ensures Valid() && old(now) <= at <= now && w == Lo(at)
    {
      Elapse();
      w, at := Lo(now), now;
      Elapse();
    }
  }

  /** lows are the values of the counter at the reads of its low word. If the counter advances by less than 2^32 during the
      call, the result is one of them. Without that bound a single low read still gives its value, and the re-read gives it
      exactly when the high word is the one read before. */
  method WakeupGetCount(timer: Timer) returns (count: nat, ghost lows: seq<nat>, ghost hi2: nat)
    requires timer.Valid()
    modifies timer
    ensures timer.Valid() && 1 <= |lows| <= 2
    ensures forall i :: 0 <= i < |lows| ==> old(timer.now) <= lows[i] <= timer.now
    ensures timer.now - old(timer.now) < TWO_32 ==> count == lows[|lows| - 1]
    ensures |lows| == 1 ==> count == lows[0]
    ensures |lows| == 2 ==> lows[0] <= hi2 <= lows[1] && (count == lows[1] <==> Hi(hi2) == Hi(lows[1]))
  {
    hide Hi, Lo, Joined;
    var countHi, at1 := timer.ReadHi();
    var countLo, at2 := timer.ReadLo();
    var countHi2, at3 := timer.ReadHi();
    lows, hi2 := [at2], at3;
    HiMonotone(at1, at2);
    HiMonotone(at2, at3);
    if countHi2 != countHi {
      ghost var at4;
      countLo, at4 := timer.ReadLo();
      countHi := countHi2;
      lows := [at2, at4];
      HiMonotone(at1, at4);
      HiMonotone(at3, at4);
      HiMonotone(at1, at3);
      LoBound(at4);
      JoinedInjective(countHi, countLo, at4);
    } else {
      SplitJoined(at2);
    }
    count := Joined(countHi, countLo);
  }

  lemma LoBound(c: nat)
    ensures Lo(c) < TWO_32
  {
  }
}
