/**
 The audio layer of zkt/drivers/audio.c: a writer and the sound card's interrupt share a ring of
 N fragments of B bytes through positions that are counted, not wrapped.

 The card's interrupt may come at any point where interrupts are on. How many come at each such
 point, and whether a wait for the card times out, are parameters (`irqs`, `hangs`), so what is
 proved holds for every interleaving.

 For the proofs the stream is laid out in one line: byte p of it belongs at ring position p mod N*B.
 */
module Audio {

  type Byte = n: int | 0 <= n < 256

  const B := 4096
  const N := 4
  const RING := 16384
  const EIO := 5

  /** Byte p of what the card should play: what was written, and then silence. */
  function Stream(written: seq<Byte>, p: nat): Byte
  {
    if p < |written| then written[p] else 0
  }

  /** The ring holds the N fragments of the stream from fragment `base` on. */
  ghost predicate Window(ring: seq<Byte>, base: nat, written: seq<Byte>)
    requires |ring| == RING
  {
    forall p :: base * B <= p < (base + N) * B ==> ring[p % RING] == Stream(written, p)
  }

  /** What has been played is the front of the stream. */
  ghost predicate PlayedOk(played: seq<Byte>, written: seq<Byte>)
  {
    forall p :: 0 <= p < |played| ==> played[p] == Stream(written, p)
  }

  lemma PlaceInRing(n: nat, x: nat)
    requires x < B
    ensures (n * B + x) % RING == (n % N) * B + x
  {
  }

  /** A place in the ring belongs to one byte of the window only. */
  lemma SamePlace(base: nat, p: nat, q: nat)
    requires base * B <= p < (base + N) * B && base * B <= q < (base + N) * B && p % RING == q % RING
    ensures p == q
  {
  }

  /** A time the card ran: what was written, what was played, whether the writer was ever too late. */
  datatype Session = Session(written: seq<Byte>, played: seq<Byte>, late: bool)

  /** Every session in which the writer kept ahead of the card played what was written, in order, and then silence. */
  ghost predicate PastOk(past: seq<Session>)
  {
    forall i :: 0 <= i < |past| && !past[i].late ==> PlayedOk(past[i].played, past[i].written)
  }

  class Device {
    const ring: array<Byte>
    var started: nat
    var filled: nat
    var offset: nat
    var running: bool
    var opens: int
    var underruns: nat
    const irqs: nat -> nat
    const hangs: nat -> bool
    var clock: nat

    ghost var written: seq<Byte>
    ghost var played: seq<Byte>
    ghost var late: bool
    ghost var past: seq<Session>

    constructor (ring: array<Byte>, irqs: nat -> nat, hangs: nat -> bool)
      requires ring.Length == RING && forall i :: 0 <= i < RING ==> ring[i] == 0
      ensures Valid() && !running && this.ring == ring && past == [] && opens == 0
    {
      this.ring, this.irqs, this.hangs := ring, irqs, hangs;
      started, filled, offset, running, opens, underruns, clock := 0, 0, 0, false, 0, 0, 0;
      written, played, late, past := [], [], false, [];
    }

    /** The fragment being played; the first to be, before the card starts. */
    function Base(): nat
      reads this
    {
      if running && started > 0 then started - 1 else 0
    }

    /** What holds wherever an interrupt can come. */
    ghost predicate RingOk()
      reads this, ring
    {
      && ring.Length == RING
      && (running ==> started > 0)
      && (!running ==> played == [])
      && filled <= Base() + N
      && |played| == Base() * B
      && (!late ==> |written| <= (Base() + N) * B && Window(ring[..], Base(), written) && PlayedOk(played, written))
      && PastOk(past)
    }

    ghost predicate Valid()
      reads this, ring
    {
      && RingOk()
      && offset < B && (filled == Base() + N ==> offset == 0)
      && (!running ==> filled == 0)
      && (!late ==> |written| == filled * B + offset)
    }

    // ----- the interrupt -----

    /** A fragment has played: it is silenced, and the card is on the next. */
    method FragmentDone()
      requires RingOk()
      modifies ring, this`started, this`underruns, this`played
      ensures RingOk()
      ensures started == if running then old(started) + 1 else old(started)
      ensures !running ==> ring[..] == old(ring[..]) && played == old(played)
      ensures running ==> played == old(played) + old(ring[..])[(Base() - 1) % N * B..((Base() - 1) % N) * B + B]
    {
      if !running {
        return;
      }
      ghost var was, base := ring[..], Base();
      var slot := (started - 1) % N;
      played := played + was[slot * B..slot * B + B];
      forall x | 0 <= x < B {
        ring[slot * B + x] := 0;
      }
      started := started + 1;
      if filled < started - 1 {
        underruns := underruns + 1;
      }
      if !late {
        WindowMoves(was, ring[..], base, written);
        PlayedGrows(was, base, written, old(played));
      }
    }

    /** A point where interrupts are on: as many come as come. */
    method Interrupts()
      requires RingOk()
      modifies ring, this`started, this`underruns, this`played, this`clock
      ensures RingOk()
      ensures started >= old(started)
              && (!running ==> started == old(started) && ring[..] == old(ring[..]) && played == old(played))
    {
      var n := irqs(clock);
      clock := clock + 1;
      for i := 0 to n
        invariant RingOk() && started >= old(started)
        invariant !running ==> started == old(started) && ring[..] == old(ring[..]) && played == old(played)
      {
        FragmentDone();
      }
    }

    /** Waits for the card to move on; false if it has stopped interrupting. */
    method WaitCard() returns (moved: bool)
      requires RingOk() && running
      modifies ring, this`started, this`underruns, this`played, this`clock
      ensures RingOk()
      ensures started >= old(started) && (moved ==> started > old(started))
    {
      if hangs(clock) {
        clock := clock + 1;
        return false;
      }
      FragmentDone();
      Interrupts();
      moved := true;
    }

    // ----- the writer -----

    /** Puts one byte at place x of the writer's fragment. If the card has caught the writer up, it is late. */
    method PutByte(v: Byte, x: nat)
      requires RingOk() && x < B && filled < Base() + N && (!running ==> filled == 0)
      requires !late ==> |written| == filled * B + x
      modifies ring, this`written, this`late
      ensures RingOk()
      ensures written == old(written) + [v] && late == (old(late) || (running && filled < started))
      ensures !late && running ==> started - 1 < filled && filled % N != (started - 1) % N
                                   && ring[(started - 1) % N * B..(started - 1) % N * B + B]
                                      == old(ring[(started - 1) % N * B..(started - 1) % N * B + B])
    {
      hide Window, PlayedOk, PastOk;
      ghost var was := ring[..];
      late := late || (running && filled < started);
      ring[filled % N * B + x] := v;
      written := written + [v];
      if !late {
        WindowPut(was, Base(), old(written), v, filled, x);
        PlayedStays(played, old(written), v);
        assert ring[..] == was[filled % N * B + x := v];
      }
    }

    /** The card has caught up: what there is of the writer's fragment moves to the next one it will play. */
    method Carry()
      requires Valid() && running && filled < started
      modifies ring, this`filled, this`late
      ensures Valid() && late && filled == started
      ensures offset > 0 ==>
                ring[started % N * B..started % N * B + offset] == old(ring[filled % N * B..filled % N * B + offset])
    {
      late := true;
      if offset > 0 && filled % N != started % N {
        var from, to := filled % N, started % N;
        forall x | 0 <= x < offset {
          ring[to * B + x] := ring[from * B + x];
        }
      }
      filled := started;
    }

    /** The writer's fragment is full: it is the card's, which starts with the first. */
    method FinishFragment()
      requires RingOk() && filled < Base() + N && (!running ==> filled == 0)
      requires !late ==> |written| == (filled + 1) * B
      modifies this`filled, this`offset, this`running, this`started
      ensures Valid() && running && filled == old(filled) + 1 && offset == 0
      ensures started == if old(running) then old(started) else 1
    {
      filled := filled + 1;
      offset := 0;
      if !running {
        running := true;
        started := 1;
      }
    }

    /** Stops the card and forgets everything. */
    method Stop()
      requires RingOk()
      modifies ring, this`started, this`underruns, this`played, this`clock, this`running, this`filled, this`offset,
               this`written, this`late, this`past
      ensures Valid() && !running && written == [] && offset == 0
      ensures |past| == |old(past)| + 1 && past[..|old(past)|] == old(past)
      ensures past[|old(past)|].written == old(written) && past[|old(past)|].late == old(late)
      ensures |past[|old(past)|].played| >= |old(played)|
    {
      hide Window, PlayedOk;
      Interrupts();
      running := false;
      started, filled, offset := 0, 0, 0;
      forall i | 0 <= i < RING {
        ring[i] := 0;
      }
      past := past + [Session(written, played, late)];
      written, played, late := [], [], false;
      SilentStart(ring[..]);
    }

    /** Copies bytes into the writer's fragment, interrupts coming as they may. */
    method CopyIn(data: seq<Byte>)
      requires Valid() && offset + |data| <= B && filled < Base() + N
      modifies ring, this`started, this`underruns, this`played, this`clock, this`written, this`late
      ensures RingOk() && filled < Base() + N
      ensures written == old(written) + data
      ensures !late ==> |written| == filled * B + offset + |data|
    {
      hide Window, PlayedOk, PastOk;
      var i := 0;
      while i < |data|
        invariant 0 <= i <= |data| && RingOk() && filled < Base() + N
        invariant written == old(written) + data[..i]
        invariant !late ==> |written| == filled * B + offset + i
      {
        Interrupts();
        PutByte(data[i], offset + i);
        i := i + 1;
        assert data[..i] == data[..i - 1] + [data[i - 1]];
      }
      assert data[..i] == data;
      Interrupts();
    }

    /** Room to write in: waits until the writer is less than a ring ahead. False if the card hangs. */
    method Room() returns (ok: bool)
      requires Valid()
      modifies ring, this`started, this`underruns, this`played, this`clock, this`filled, this`late
      ensures ok ==> Valid() && filled < Base() + N
      ensures RingOk()
    {
      hide Window, PlayedOk, PastOk;
      while running && filled >= started - 1 + N
        invariant Valid() && filled == old(filled)
        decreases filled + 1 - started
      {
        var moved := WaitCard();
        if !moved {
          return false;
        }
      }
      if running && filled < started {
        Carry();
      }
      ok := true;
      Interrupts();
    }

    /** Writes bytes to the device: all of them, or if the card hangs those before it did (-EIO if none). */
    method Write(buf: seq<Byte>) returns (r: int)
      requires Valid()
      modifies ring, this`started, this`underruns, this`played, this`clock, this`filled, this`offset, this`running,
               this`written, this`late, this`past
      ensures Valid()
      ensures past == old(past) ==> r == |buf| && written == old(written) + buf
      ensures past != old(past) ==> && |past| == |old(past)| + 1 && past[..|old(past)|] == old(past)
                                    && 0 <= (if r == -EIO then 0 else r) < |buf|
                                    && past[|old(past)|].written == old(written) + buf[..if r == -EIO then 0 else r]
    {
      hide Window, PlayedOk, PastOk;
      var done := 0;
      while done < |buf|
        invariant 0 <= done <= |buf| && Valid() && past == old(past)
        invariant written == old(written) + buf[..done]
      {
        var ok := Room();
        if !ok {
          Stop();
          r := if done > 0 then done else -EIO;
          return;
        }
        var chunk := if B - offset < |buf| - done then B - offset else |buf| - done;
        CopyIn(buf[done..done + chunk]);
        done := done + chunk;
        assert buf[..done] == buf[..done - chunk] + buf[done - chunk..done];
        if offset + chunk == B {
          FinishFragment();
          Interrupts();
        } else {
          offset := offset + chunk;
        }
      }
      assert buf[..done] == buf;
      r := |buf|;
    }

    method Open()
      modifies this`opens
      ensures opens == old(opens) + 1
    {
      opens := opens + 1;
    }

    /** Fills the writer's fragment up with silence. */
    method Pad()
      requires Valid() && offset > 0
      modifies ring, this`started, this`underruns, this`played, this`clock, this`written
      ensures RingOk() && filled < Base() + N
      ensures written == old(written) + Silence(B - offset)
      ensures !late ==> |written| == (filled + 1) * B
    {
      hide Window, PlayedOk, PastOk;
      var x := offset;
      while x < B
        invariant offset <= x <= B && RingOk() && filled < Base() + N
        invariant !late ==> |written| <= filled * B + x
        invariant written == old(written)
      {
        Interrupts();
        PutSilence(x);
        x := x + 1;
      }
      Interrupts();
      written := written + Silence(B - offset);
      SilenceAdds(ring[..], Base(), old(written), B - offset, played);
    }

    /** Silence past the end of what was written, wherever the card is. */
    method PutSilence(x: nat)
      requires RingOk() && x < B && filled < Base() + N && (!late ==> |written| <= filled * B + x)
      modifies ring
      ensures RingOk()
    {
      hide Window, PlayedOk, PastOk;
      ghost var was := ring[..];
      ring[filled % N * B + x] := 0;
      if !late {
        WindowSilence(was, Base(), written, filled, x);
        assert ring[..] == was[filled % N * B + x := 0];
      }
    }

    /** The last close: what is left plays out, unless the card hangs, and then the card stops. */
    method Close() returns (ghost hung: bool)
      requires Valid()
      modifies ring, this`started, this`underruns, this`played, this`clock, this`filled, this`offset, this`running,
               this`written, this`late, this`past, this`opens
      ensures Valid() && opens == old(opens) - 1
      ensures opens != 0 || (!old(running) && old(offset) == 0) ==>
                past == old(past) && written == old(written) && !hung
      ensures opens == 0 && (old(running) || old(offset) > 0) ==>
                && !running && |past| == |old(past)| + 1 && past[..|old(past)|] == old(past)
                && var s := past[|old(past)|];
                && s.late == old(late)
                && s.written == old(written) + (if old(offset) > 0 then Silence(B - old(offset)) else [])
                && (!hung && !s.late ==> |s.played| >= |s.written|)
    {
      hide Window, PlayedOk, PastOk;
      opens := opens - 1;
      var last := opens == 0;
      hung := false;
      Interrupts();
      if last && (running || offset > 0) {
        if offset > 0 {
          Pad();
          FinishFragment();
          Interrupts();
        }
        hung := PlayOut();
        Stop();
      }
    }

    /** Waits until the card has begun the fragment after the last. */
    method PlayOut() returns (ghost hung: bool)
      requires Valid() && offset == 0
      modifies ring, this`started, this`underruns, this`played, this`clock
      ensures RingOk()
      ensures !hung && running && !late ==> |played| >= |written|
    {
      hide Window, PlayedOk, PastOk;
      while running && started <= filled
        invariant Valid()
        decreases filled + 1 - started
      {
        var moved := WaitCard();
        if !moved {
          return true;
        }
      }
      Interrupts();
      hung := false;
    }
  }

  datatype Event = OpenIt | WriteIt(data: seq<Byte>) | CloseIt | Idle

  /** Any run of opens, writes and closes, under any interleaving of the card's interrupts: in every session, past
      or not yet over, in which the writer was never late, the bytes played are the bytes written, in order, and
      then silence. */
  method Run(irqs: nat -> nat, hangs: nat -> bool, events: seq<Event>)
    returns (ghost past: seq<Session>, ghost now: Session)
    ensures PastOk(past) && (!now.late ==> PlayedOk(now.played, now.written))
  {
    var ring := new Byte[RING](_ => 0);
    var d := new Device(ring, irqs, hangs);
    for i := 0 to |events|
      invariant d.Valid() && fresh(d) && fresh(d.ring)
    {
      match events[i]
      case OpenIt => d.Open();
      case WriteIt(data) => var _ := d.Write(data);
      case CloseIt => var _ := d.Close();
      case Idle => d.Interrupts();
    }
    past, now := d.past, Session(d.written, d.played, d.late);
  }

  function Silence(n: nat): seq<Byte>
  {
    seq(n, _ => 0)
  }

  /** Where the later fragments of the window are, the slot of the first is not. */
  lemma OtherSlots(base: nat, p: nat)
    requires (base + 1) * B <= p < (base + N) * B
    ensures p % RING < base % N * B || p % RING >= base % N * B + B
  {
    var n, x := p / B, p % B;
    PlaceInRing(n, x);
    assert p == n * B + x && base < n < base + N;
    assert n % N != base % N;
  }

  /** The next byte of the stream, at its place in fragment n. */
  lemma WindowPut(ring: seq<Byte>, base: nat, written: seq<Byte>, v: Byte, n: nat, x: nat)
    requires |ring| == RING && Window(ring, base, written) && x < B
    requires base <= n < base + N && |written| == n * B + x
    ensures Window(ring[n % N * B + x := v], base, written + [v])
  {
    PlaceInRing(n, x);
    var now := ring[n % N * B + x := v];
    forall p | base * B <= p < (base + N) * B ensures now[p % RING] == Stream(written + [v], p) {
      if p % RING == |written| % RING {
        SamePlace(base, p, |written|);
      }
    }
  }

  lemma SilentStart(ring: seq<Byte>)
    requires |ring| == RING && forall i :: 0 <= i < RING ==> ring[i] == 0
    ensures Window(ring, 0, []) && PlayedOk([], [])
  {
  }

  lemma PlayedStays(played: seq<Byte>, written: seq<Byte>, v: Byte)
    requires PlayedOk(played, written) && |played| <= |written|
    ensures PlayedOk(played, written + [v])
  {
  }

  lemma WindowSilence(ring: seq<Byte>, base: nat, written: seq<Byte>, n: nat, x: nat)
    requires |ring| == RING && Window(ring, base, written) && x < B
    requires |written| <= n * B + x && n < base + N
    ensures Window(ring[n % N * B + x := 0], base, written)
  {
    PlaceInRing(n, x);
    var now := ring[n % N * B + x := 0];
    forall p | base * B <= p < (base + N) * B ensures now[p % RING] == Stream(written, p) {
      if p % RING == (n * B + x) % RING && p < n * B + x {
        SamePlace(p / B, p, n * B + x);
      }
    }
  }

  /** Silence at the end of what was written changes nothing that is to be played. */
  lemma SilenceAdds(ring: seq<Byte>, base: nat, written: seq<Byte>, n: nat, played: seq<Byte>)
    requires |ring| == RING
    ensures Window(ring, base, written) ==> Window(ring, base, written + Silence(n))
    ensures PlayedOk(played, written) ==> PlayedOk(played, written + Silence(n))
  {
    forall p: nat ensures Stream(written + Silence(n), p) == Stream(written, p) {
    }
  }

  /** The ring one fragment on. */
  lemma WindowMoves(was: seq<Byte>, now: seq<Byte>, base: nat, written: seq<Byte>)
    requires |was| == |now| == RING && Window(was, base, written) && |written| <= (base + N) * B
    requires forall i :: 0 <= i < RING ==> now[i] == if base % N * B <= i < base % N * B + B then 0 else was[i]
    ensures Window(now, base + 1, written)
  {
    forall p | (base + 1) * B <= p < (base + 1 + N) * B ensures now[p % RING] == Stream(written, p) {
      if p < (base + N) * B {
        OtherSlots(base, p);
      } else {
        PlaceInRing(base + N, p - (base + N) * B);
      }
    }
  }

  lemma PlayedGrows(was: seq<Byte>, base: nat, written: seq<Byte>, played: seq<Byte>)
    requires |was| == RING && Window(was, base, written) && |played| == base * B && PlayedOk(played, written)
    ensures PlayedOk(played + was[base % N * B..base % N * B + B], written)
  {
    var more := played + was[base % N * B..base % N * B + B];
    forall p | 0 <= p < |more| ensures more[p] == Stream(written, p) {
      if p >= base * B {
        PlaceInRing(base, p - base * B);
        assert more[p] == was[p % RING];
      }
    }
  }
}
