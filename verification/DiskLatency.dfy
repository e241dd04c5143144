/** code/machine/disk.cc: how long the simulated disk takes. */
module DiskLatency {
  import opened SynchDisks

  const SECTORS_PER_TRACK := 32
  const ROTATION_TIME := 500
  const SEEK_TIME := 500

  /** Integer division of C: towards zero. */
  function Quotient(a: int, b: int): int
    requires b > 0
  {
    if a < 0 then -((-a) / b) else a / b
  }

  function Abs(x: int): nat {
    if x < 0 then -x else x
  }

  /** From sector position `from` to sector `to`, in sectors of rotation. */
  function ModuloDiff(to: nat, from: nat): nat {
    (to % SECTORS_PER_TRACK - from % SECTORS_PER_TRACK + SECTORS_PER_TRACK) % SECTORS_PER_TRACK
  }

  /** The time to reach the track, and the wait for the next sector boundary after that. */
  function TimeToSeek(now: nat, lastSector: nat, newSector: nat): (r: (nat, nat))
    ensures r.1 < ROTATION_TIME && (now + r.0 + r.1) % ROTATION_TIME == 0
  {
    var seek := Abs(newSector / SECTORS_PER_TRACK - lastSector / SECTORS_PER_TRACK) * SEEK_TIME;
    var over := (now + seek) % ROTATION_TIME;
    (seek, if over > 0 then ROTATION_TIME - over else 0)
  }

  predicate InTrackBuffer(now: nat, lastSector: nat, bufferInit: nat, newSector: nat, writing: bool) {
    var (seek, rotation) := TimeToSeek(now, lastSector, newSector);
    !writing && seek == 0 && Quotient(now + seek + rotation - bufferInit, ROTATION_TIME) > ModuloDiff(newSector, bufferInit / ROTATION_TIME)
  }

  function Latency(now: nat, lastSector: nat, bufferInit: nat, newSector: nat, writing: bool): nat {
    var (seek, rotation) := TimeToSeek(now, lastSector, newSector);
    if InTrackBuffer(now, lastSector, bufferInit, newSector, writing) then ROTATION_TIME
    else seek + rotation + ModuloDiff(newSector, (now + seek + rotation) / ROTATION_TIME) * ROTATION_TIME + ROTATION_TIME
  }

  /** Every latency is positive, as `Schedule` asserts, and bounded by a full seek and a full turn. */
  lemma LatencyBounds(now: nat, lastSector: nat, bufferInit: nat, newSector: nat, writing: bool)
    requires lastSector < NUM_SECTORS && newSector < NUM_SECTORS
    ensures 500 <= Latency(now, lastSector, bufferInit, newSector, writing) < 32000
  {
    var (seek, rotation) := TimeToSeek(now, lastSector, newSector);
    assert Abs(newSector / SECTORS_PER_TRACK - lastSector / SECTORS_PER_TRACK) <= 31;
    assert seek <= 31 * SEEK_TIME;
  }

  lemma ModuloDiffIs(to: nat, from: nat)
    ensures (from + ModuloDiff(to, from)) % SECTORS_PER_TRACK == to % SECTORS_PER_TRACK
    ensures ModuloDiff(to, from) < SECTORS_PER_TRACK
  {
  }

  /** The first turn position at or after `from` at which sector `to` comes under the head. */
  lemma ModuloDiffIsLeast(to: nat, from: nat, p: nat)
    requires p >= from && p % SECTORS_PER_TRACK == to % SECTORS_PER_TRACK
    ensures p >= from + ModuloDiff(to, from)
  {
    assert (p - from) % SECTORS_PER_TRACK == ModuloDiff(to, from);
  }

  /** The turn position at which the head arrives on the track. */
  function Arrival(now: nat, lastSector: nat, newSector: nat): nat {
    var (seek, rotation) := TimeToSeek(now, lastSector, newSector);
    (now + seek + rotation) / ROTATION_TIME
  }

  lemma LatencyInTurns(now: nat, lastSector: nat, bufferInit: nat, newSector: nat, writing: bool)
    requires !InTrackBuffer(now, lastSector, bufferInit, newSector, writing)
    ensures var t := Arrival(now, lastSector, newSector);
            && now + Latency(now, lastSector, bufferInit, newSector, writing) == (t + ModuloDiff(newSector, t) + 1) * ROTATION_TIME
            && (t - 1) * ROTATION_TIME < now + TimeToSeek(now, lastSector, newSector).0 <= t * ROTATION_TIME
  {
    hide ModuloDiff;
    var (seek, rotation) := TimeToSeek(now, lastSector, newSector);
    assert now + seek + rotation == Arrival(now, lastSector, newSector) * ROTATION_TIME;
  }

  /** From turn `turn` to the next, the sector passes under the head. */
  predicate Passes(turn: nat, sector: nat) {
    turn % SECTORS_PER_TRACK == sector % SECTORS_PER_TRACK
  }

  /** How long it takes to get from the track of one sector to that of another. */
  ghost predicate IsSeekTime(ticks: int, a: nat, b: nat) {
    exists tracks: nat ::
      && (a / SECTORS_PER_TRACK + tracks == b / SECTORS_PER_TRACK || b / SECTORS_PER_TRACK + tracks == a / SECTORS_PER_TRACK)
      && ticks == tracks * SEEK_TIME
  }

  lemma SeekTimeIs(now: nat, a: nat, b: nat, ticks: int)
    ensures IsSeekTime(ticks, a, b) <==> ticks == TimeToSeek(now, a, b).0
  {
    var tracks := Abs(b / SECTORS_PER_TRACK - a / SECTORS_PER_TRACK);
    assert tracks * SEEK_TIME == TimeToSeek(now, a, b).0;
  }

  /**
   * A request that the track buffer does not serve, and so every write, ends when the sector has passed under the head
   * for the first time after the seek.
   */
  lemma EndsBehindSector(now: nat, lastSector: nat, bufferInit: nat, newSector: nat, writing: bool, seek: nat)
    requires writing || !InTrackBuffer(now, lastSector, bufferInit, newSector, writing)
    requires IsSeekTime(seek, lastSector, newSector)
    ensures var done := now + Latency(now, lastSector, bufferInit, newSector, writing);
            && done % ROTATION_TIME == 0 && Passes(done / ROTATION_TIME - 1, newSector)
            && done - ROTATION_TIME >= now + seek
            && forall turn: nat | Passes(turn, newSector) && turn * ROTATION_TIME >= now + seek :: done <= (turn + 1) * ROTATION_TIME
  {
    assert !InTrackBuffer(now, lastSector, bufferInit, newSector, writing);
    hide Latency, ModuloDiff, Arrival, InTrackBuffer, TimeToSeek, IsSeekTime;
    SeekTimeIs(now, lastSector, newSector, seek);
    LatencyInTurns(now, lastSector, bufferInit, newSector, writing);
    var t := Arrival(now, lastSector, newSector);
    ModuloDiffIs(newSector, t);
    forall turn: nat | Passes(turn, newSector) && turn * ROTATION_TIME >= now + seek
      ensures t + ModuloDiff(newSector, t) <= turn
    {
      ModuloDiffIsLeast(newSector, t, turn);
    }
  }

  /** When the track buffer has the sector: this pass of it began after the buffer was begun, and before now. */
  predicate PassedSince(turn: nat, bufferInit: nat, now: nat, sector: nat) {
    Passes(turn, sector) && bufferInit <= turn * ROTATION_TIME < now
  }

  /**
   * The track buffer serves exactly the reads on the current track whose sector has passed under the head since the
   * buffer was begun; the pass is over by the next sector boundary. They take the time of one sector.
   */
  lemma BufferHitIff(now: nat, lastSector: nat, bufferInit: nat, newSector: nat, writing: bool)
    requires bufferInit % ROTATION_TIME == 0
    ensures InTrackBuffer(now, lastSector, bufferInit, newSector, writing) <==>
              && !writing && lastSector / SECTORS_PER_TRACK == newSector / SECTORS_PER_TRACK
              && exists turn: nat :: PassedSince(turn, bufferInit, now, newSector)
    ensures InTrackBuffer(now, lastSector, bufferInit, newSector, writing) ==>
              Latency(now, lastSector, bufferInit, newSector, writing) == ROTATION_TIME
  {
    var b := bufferInit / ROTATION_TIME;
    var first := b + ModuloDiff(newSector, b);
    ModuloDiffIs(newSector, b);
    if lastSector / SECTORS_PER_TRACK == newSector / SECTORS_PER_TRACK {
      FirstPassIff(now, lastSector, bufferInit, newSector);
      if first * ROTATION_TIME < now {
        assert PassedSince(first, bufferInit, now, newSector);
      }
      if turn: nat :| PassedSince(turn, bufferInit, now, newSector) {
        ModuloDiffIsLeast(newSector, b, turn);
      }
    }
  }

  lemma FirstPassIff(now: nat, lastSector: nat, bufferInit: nat, newSector: nat)
    requires bufferInit % ROTATION_TIME == 0 && lastSector / SECTORS_PER_TRACK == newSector / SECTORS_PER_TRACK
    ensures var b := bufferInit / ROTATION_TIME;
            InTrackBuffer(now, lastSector, bufferInit, newSector, false) <==> (b + ModuloDiff(newSector, b)) * ROTATION_TIME < now
  {
    hide ModuloDiff;
    var (seek, rotation) := TimeToSeek(now, lastSector, newSector);
    var b, n := bufferInit / ROTATION_TIME, (now + rotation) / ROTATION_TIME;
    assert now + rotation == n * ROTATION_TIME;
    assert now + rotation - bufferInit == (n - b) * ROTATION_TIME;
  }

  /** The state of the drive between requests. */
  class Drive {
    var lastSector: nat
    var bufferInit: nat

    ghost predicate Valid()
      reads this
    {
      lastSector < NUM_SECTORS && bufferInit % ROTATION_TIME == 0
    }

    constructor ()
      ensures Valid() && lastSector == 0 && bufferInit == 0
    {
      lastSector, bufferInit := 0, 0;
    }

    method ComputeLatency(now: nat, newSector: nat, writing: bool) returns (ticks: nat)
      requires Valid() && newSector < NUM_SECTORS
      ensures ticks == Latency(now, lastSector, bufferInit, newSector, writing) && 500 <= ticks < 32000
    {
      LatencyBounds(now, lastSector, bufferInit, newSector, writing);
      var (seek, rotation) := TimeToSeek(now, lastSector, newSector);
      var timeAfter := now + seek + rotation;
      if !writing && seek == 0 && Quotient(timeAfter - bufferInit, ROTATION_TIME) > ModuloDiff(newSector, bufferInit / ROTATION_TIME) {
        return ROTATION_TIME;
      }
      rotation := rotation + ModuloDiff(newSector, timeAfter / ROTATION_TIME) * ROTATION_TIME;
      return seek + rotation + ROTATION_TIME;
    }

    /** After a change of track the buffer begins at the first sector boundary behind the seek. */
    method UpdateLast(now: nat, newSector: nat)
      requires Valid() && newSector < NUM_SECTORS
      modifies this
      ensures Valid() && lastSector == newSector
      ensures old(lastSector) / SECTORS_PER_TRACK == newSector / SECTORS_PER_TRACK ==> bufferInit == old(bufferInit)
      ensures old(lastSector) / SECTORS_PER_TRACK != newSector / SECTORS_PER_TRACK ==>
                forall seek | IsSeekTime(seek, old(lastSector), newSector) :: now + seek <= bufferInit < now + seek + ROTATION_TIME
    {
      forall seek | IsSeekTime(seek, lastSector, newSector)
        ensures seek == TimeToSeek(now, lastSector, newSector).0
      {
        SeekTimeIs(now, lastSector, newSector, seek);
      }
      var (seek, rotate) := TimeToSeek(now, lastSector, newSector);
      if seek != 0 {
        bufferInit := now + seek + rotate;
      }
      lastSector := newSector;
    }
  }
}
