/** Seek, rotation and track-buffer timing of the simulated disk: machine/disk.cc:115-271. */
module DiskTiming {

  const SECTORS_PER_TRACK: int := 32
  const DISK_SECTORS: int := 1024
  const ROTATION_TIME: int := 500
  const SEEK_TIME: int := 500

  function Abs(x: int): nat {
    if x < 0 then -x else x
  }

  function SeekTicks(lastSector: nat, newSector: nat): nat {
    Abs(newSector / SECTORS_PER_TRACK - lastSector / SECTORS_PER_TRACK) * SEEK_TIME
  }

  /** Ticks from the end of the seek to the next sector boundary. */
  function RoundUpTicks(now: nat, seek: nat): nat {
    var over := (now + seek) % ROTATION_TIME;
    if over > 0 then ROTATION_TIME - over else 0
  }

  function ModuloDiff(to: nat, from: nat): nat {
    (to % SECTORS_PER_TRACK - from % SECTORS_PER_TRACK + SECTORS_PER_TRACK) % SECTORS_PER_TRACK
  }

  /** lastSector is the last one requested, bufferInit the time from which the track buffer
      has been filling; doneAt records when the outstanding request completes. */
  datatype Disk = Disk(active: bool, lastSector: nat, bufferInit: nat, doneAt: nat) {

    /** The track-buffer test of ComputeLatency. */
    predicate FastPath(now: nat, newSector: nat, writing: bool)
      requires bufferInit <= now
    {
      var seek := SeekTicks(lastSector, newSector);
      var timeAfter := now + seek + RoundUpTicks(now, seek);
      && !writing && seek == 0
      && (timeAfter - bufferInit) / ROTATION_TIME > ModuloDiff(newSector, bufferInit / ROTATION_TIME)
    }

    function ComputeLatency(now: nat, newSector: nat, writing: bool): int
      requires bufferInit <= now
    {
      if FastPath(now, newSector, writing) then ROTATION_TIME
      else
        var seek := SeekTicks(lastSector, newSector);
        var rotation := RoundUpTicks(now, seek);
        var timeAfter := now + seek + rotation;
        seek + rotation + ModuloDiff(newSector, timeAfter / ROTATION_TIME) * ROTATION_TIME + ROTATION_TIME
    }

    /** ReadRequest and WriteRequest, with UpdateLast. */
    function Request(now: nat, newSector: nat, writing: bool): Disk
      requires bufferInit <= now
    {
      var seek := SeekTicks(lastSector, newSector);
      Disk(true, newSector,
           if seek != 0 then now + seek + RoundUpTicks(now, seek) else bufferInit,
           now + Abs(ComputeLatency(now, newSector, writing)))
    }

    /** HandleInterrupt */
    function Complete(): Disk {
      this.(active := false)
    }

    /** The buffer start is a sector boundary; it is past once no request is outstanding. */
    predicate Inv(now: nat) {
      && lastSector < DISK_SECTORS
      && bufferInit % ROTATION_TIME == 0
      && bufferInit <= if active then doneAt else now
    }
  }

  // ---- where the head is ------------------------------------------------------------

  /** At time t a sector starts passing under the head, and it is this one. */
  predicate StartsAt(t: int, sector: nat) {
    t >= 0 && t % ROTATION_TIME == 0 && t / ROTATION_TIME % SECTORS_PER_TRACK == sector % SECTORS_PER_TRACK
  }

  lemma ModuloDiffIsDistance(to: nat, from: nat, k: nat)
    ensures 0 <= ModuloDiff(to, from) < SECTORS_PER_TRACK
    ensures (from + ModuloDiff(to, from)) % SECTORS_PER_TRACK == to % SECTORS_PER_TRACK
    ensures k < ModuloDiff(to, from) ==> (from + k) % SECTORS_PER_TRACK != to % SECTORS_PER_TRACK
  {
  }

  function Track(sector: nat): nat {
    sector / SECTORS_PER_TRACK
  }

  /** The seek takes no time on one track, SEEK_TIME to a neighbouring one, the same both ways,
      and over tracks in order the times add up: SEEK_TIME for each track crossed. */
  lemma SeekPerTrack(a: nat, b: nat, c: nat)
    ensures SeekTicks(a, b) == 0 <==> Track(a) == Track(b)
    ensures Track(b) == Track(a) + 1 ==> SeekTicks(a, b) == SEEK_TIME
    ensures SeekTicks(a, b) == SeekTicks(b, a)
    ensures Track(a) <= Track(b) <= Track(c) ==> SeekTicks(a, c) == SeekTicks(a, b) + SeekTicks(b, c)
  {
  }

  /** Off the fast path, the transfer starts at the first moment at or after the end of the
      seek when the sector comes under the head. */
  lemma SlowPathIsEarliest(d: Disk, now: nat, newSector: nat, writing: bool)
    requires d.Inv(now) && !d.active && newSector < DISK_SECTORS
    requires !d.FastPath(now, newSector, writing)
    ensures var start := now + d.ComputeLatency(now, newSector, writing) - ROTATION_TIME;
            && now + SeekTicks(d.lastSector, newSector) <= start
            && StartsAt(start, newSector)
            && forall t :: now + SeekTicks(d.lastSector, newSector) <= t < start ==> !StartsAt(t, newSector)
  {
    var seek := SeekTicks(d.lastSector, newSector);
    var timeAfter := now + seek + RoundUpTicks(now, seek);
    var from := timeAfter / ROTATION_TIME;
    assert timeAfter == from * ROTATION_TIME;
    var diff := ModuloDiff(newSector, from);
    var start := (from + diff) * ROTATION_TIME;
    ModuloDiffIsDistance(newSector, from, 0);
    assert start / ROTATION_TIME == from + diff;
    forall t | now + seek <= t < start ensures !StartsAt(t, newSector) {
      if t % ROTATION_TIME == 0 {
        var k := t / ROTATION_TIME;
        assert from <= k < from + diff;
        ModuloDiffIsDistance(newSector, from, k - from);
      }
    }
  }

  /** On either path the latency is positive, as Schedule asserts, and bounded. */
  lemma LatencyBounds(d: Disk, now: nat, newSector: nat, writing: bool)
    requires d.Inv(now) && !d.active && newSector < DISK_SECTORS
    ensures ROTATION_TIME <= d.ComputeLatency(now, newSector, writing)
                          <= 31 * SEEK_TIME + (ROTATION_TIME - 1) + 32 * ROTATION_TIME
  {
    var seek := SeekTicks(d.lastSector, newSector);
    ModuloDiffIsDistance(newSector, (now + seek + RoundUpTicks(now, seek)) / ROTATION_TIME, 0);
    assert seek <= 31 * SEEK_TIME;
  }

  /** A whole pass of the sector under the head, from rotation slot k to k + 1, since the
      buffer started filling and before the next sector boundary. */
  predicate BufferedPass(d: Disk, now: nat, newSector: nat, k: nat) {
    && StartsAt(k * ROTATION_TIME, newSector)
    && d.bufferInit <= k * ROTATION_TIME
    && (k + 1) * ROTATION_TIME <= now + RoundUpTicks(now, 0)
  }

  /** Track-buffer exactness: a request is served from the buffer exactly when it is a read
      on the current track and the sector has passed under the head in whole since the
      buffer started filling. */
  lemma FastPathIsExact(d: Disk, now: nat, newSector: nat, writing: bool)
    requires d.Inv(now) && !d.active && newSector < DISK_SECTORS
    ensures d.FastPath(now, newSector, writing) <==>
              && !writing
              && newSector / SECTORS_PER_TRACK == d.lastSector / SECTORS_PER_TRACK
              && exists k: nat :: BufferedPass(d, now, newSector, k)
  {
    var first := d.bufferInit / ROTATION_TIME;
    var boundary := now + RoundUpTicks(now, 0);
    var diff := ModuloDiff(newSector, first);
    ModuloDiffIsDistance(newSector, first, 0);
    assert d.bufferInit == first * ROTATION_TIME;
    assert (boundary - d.bufferInit) / ROTATION_TIME > diff <==>
           (first + diff + 1) * ROTATION_TIME <= boundary;
    if (first + diff + 1) * ROTATION_TIME <= boundary {
      assert (first + diff) * ROTATION_TIME / ROTATION_TIME == first + diff;
      assert BufferedPass(d, now, newSector, first + diff);
    }
    forall k: nat | BufferedPass(d, now, newSector, k) ensures first + diff <= k {
      assert k * ROTATION_TIME / ROTATION_TIME == k;
      assert first <= k;
      ModuloDiffIsDistance(newSector, first, k - first);
    }
  }

  /** A buffered read takes one sector's time and no more. */
  lemma FastLatency(d: Disk, now: nat, newSector: nat, k: nat)
    requires d.Inv(now) && !d.active && newSector < DISK_SECTORS
    requires Track(newSector) == Track(d.lastSector) && BufferedPass(d, now, newSector, k)
    ensures d.ComputeLatency(now, newSector, false) == ROTATION_TIME
  {
    FastPathIsExact(d, now, newSector, false);
  }

  /** After a request the disk is busy until the latency is over and stands at the requested
      sector; the buffer goes on filling on the same track, and on another one starts at the
      first sector boundary at or after the end of the seek. */
  lemma RequestLeaves(d: Disk, now: nat, sector: nat, writing: bool)
    requires d.Inv(now) && !d.active && sector < DISK_SECTORS
    ensures var d', arrives := d.Request(now, sector, writing), now + SeekTicks(d.lastSector, sector);
            && d'.active && d'.lastSector == sector
            && d'.doneAt == now + d.ComputeLatency(now, sector, writing)
            && (Track(sector) == Track(d.lastSector) ==> d'.bufferInit == d.bufferInit)
            && (Track(sector) != Track(d.lastSector) ==>
                  && arrives <= d'.bufferInit && d'.bufferInit % ROTATION_TIME == 0
                  && forall t :: arrives <= t < d'.bufferInit ==> t % ROTATION_TIME != 0)
  {
    LatencyBounds(d, now, sector, writing);
    SeekPerTrack(d.lastSector, sector, sector);
    RoundsUp(now, SeekTicks(d.lastSector, sector));
  }

  // ---- runs ---------------------------------------------------------------------------

  /** Time passes, an idle disk takes a request, or the outstanding request completes no
      earlier than scheduled. */
  datatype Event = Pass(ticks: nat) | Issue(sector: nat, writing: bool) | Interrupt

  predicate CanHappen(d: Disk, now: nat, e: Event) {
    match e
    case Pass(_) => true
    case Issue(sector, _) => !d.active && sector < DISK_SECTORS && d.bufferInit <= now
    case Interrupt => d.active && d.doneAt <= now
  }

  function Happen(d: Disk, now: nat, e: Event): (Disk, nat)
    requires CanHappen(d, now, e)
  {
    match e
    case Pass(ticks) => (d, now + ticks)
    case Issue(sector, writing) => (d.Request(now, sector, writing), now)
    case Interrupt => (d.Complete(), now)
  }

  lemma EventKeepsInv(d: Disk, now: nat, e: Event)
    requires d.Inv(now) && CanHappen(d, now, e)
    ensures var (d', now') := Happen(d, now, e); d'.Inv(now')
  {
    match e
    case Pass(_) =>
    case Issue(sector, writing) =>
      RequestKeepsInv(d, now, sector, writing);
    case Interrupt =>
  }

  lemma RequestKeepsInv(d: Disk, now: nat, sector: nat, writing: bool)
    requires d.Inv(now) && !d.active && sector < DISK_SECTORS
    ensures d.Request(now, sector, writing).Inv(now)
  {
    LatencyBounds(d, now, sector, writing);
    var seek := SeekTicks(d.lastSector, sector);
    RoundsUp(now, seek);
    if seek != 0 {
      assert seek + RoundUpTicks(now, seek) <= d.ComputeLatency(now, sector, writing);
    }
  }

  lemma RoundsUp(now: nat, seek: nat)
    ensures (now + seek + RoundUpTicks(now, seek)) % ROTATION_TIME == 0
  {
  }

  /** The state after a sequence of events, or where the first impossible one stops it. */
  function After(d: Disk, now: nat, es: seq<Event>): (Disk, nat)
    decreases |es|
  {
    if es == [] || !CanHappen(d, now, es[0]) then (d, now)
    else
      var (d', now') := Happen(d, now, es[0]);
      After(d', now', es[1..])
  }

  /** Whenever the disk is idle, the track buffer started at a sector boundary that is not
      in the future; so what SlowPathIsEarliest and FastPathIsExact need always holds. */
  lemma {:induction false} IdleBufferIsPast(now: nat, es: seq<Event>)
    ensures var (d, later) := After(Disk(false, 0, 0, 0), now, es);
            && d.Inv(later)
            && (!d.active ==> d.bufferInit <= later && d.bufferInit % ROTATION_TIME == 0)
  {
    RunKeepsInv(Disk(false, 0, 0, 0), now, es);
  }

  lemma {:induction false} RunKeepsInv(d: Disk, now: nat, es: seq<Event>)
    requires d.Inv(now)
    ensures var (d', now') := After(d, now, es); d'.Inv(now')
    decreases |es|
  {
    if es != [] && CanHappen(d, now, es[0]) {
      EventKeepsInv(d, now, es[0]);
      var (d', now') := Happen(d, now, es[0]);
      RunKeepsInv(d', now', es[1..]);
    }
  }

  // ---- the device object ----------------------------------------------------------------

  class DiskDevice {
    var active: bool
    var lastSector: nat
    var bufferInit: nat
    ghost var doneAt: nat

    ghost function View(): Disk
      reads this
    {
      Disk(active, lastSector, bufferInit, doneAt)
    }

    constructor ()
      ensures View() == Disk(false, 0, 0, 0)
    {
      active, lastSector, bufferInit, doneAt := false, 0, 0, 0;
    }

    method TimeToSeek(now: nat, newSector: nat) returns (seek: nat, rotation: nat)
      ensures seek == SeekTicks(lastSector, newSector) && rotation == RoundUpTicks(now, seek)
    {
      var newTrack := newSector / SECTORS_PER_TRACK;
      var oldTrack := lastSector / SECTORS_PER_TRACK;
      seek := Abs(newTrack - oldTrack) * SEEK_TIME;
      var over := (now + seek) % ROTATION_TIME;
      rotation := 0;
      if over > 0 {
        rotation := ROTATION_TIME - over;
      }
    }

    method ComputeLatency(now: nat, newSector: nat, writing: bool) returns (ticks: int)
      requires bufferInit <= now
      ensures ticks == View().ComputeLatency(now, newSector, writing)
    {
      var seek, rotation := TimeToSeek(now, newSector);
      var timeAfter := now + seek + rotation;
      if !writing && seek == 0
         && (timeAfter - bufferInit) / ROTATION_TIME > ModuloDiff(newSector, bufferInit / ROTATION_TIME) {
        return ROTATION_TIME;
      }
      rotation := rotation + ModuloDiff(newSector, timeAfter / ROTATION_TIME) * ROTATION_TIME;
      return seek + rotation + ROTATION_TIME;
    }

    method UpdateLast(now: nat, newSector: nat)
      modifies this`lastSector, this`bufferInit
      ensures lastSector == newSector
      ensures bufferInit == var seek := SeekTicks(old(lastSector), newSector);
                            if seek != 0 then now + seek + RoundUpTicks(now, seek) else old(bufferInit)
    {
      var seek, rotate := TimeToSeek(now, newSector);
      if seek != 0 {
        bufferInit := now + seek + rotate;
      }
      lastSector := newSector;
    }

    /** ReadRequest (writing false) and WriteRequest; ticks is what is passed to Schedule. */
    method Request(now: nat, newSector: nat, writing: bool) returns (ticks: int)
      requires View().Inv(now) && !active && newSector < DISK_SECTORS
      modifies this
      ensures View() == old(View()).Request(now, newSector, writing)
      ensures ticks == old(View()).ComputeLatency(now, newSector, writing) && ticks > 0
      ensures View().Inv(now)
    {
      LatencyBounds(View(), now, newSector, writing);
      EventKeepsInv(View(), now, Issue(newSector, writing));
      ticks := ComputeLatency(now, newSector, writing);
      active := true;
      doneAt := now + Abs(ticks);
      UpdateLast(now, newSector);
    }

    method HandleInterrupt(now: nat)
      requires View().Inv(now) && active && doneAt <= now
      modifies this
      ensures View() == old(View()).Complete() && View().Inv(now)
    {
      active := false;
    }
  }
}
