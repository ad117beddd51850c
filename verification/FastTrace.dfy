/** What a block of the fast compressor owes to its search.

    A trace lists the positions that were entered in the hash table, in order, and tells of
    each whether the entry of its bucket was tested before, and with what result.  The table
    is a function of the trace.  `Thorough` ties a block to a trace: of the literals in front
    of each match, the first one and those that the skipping scan comes to have missed.
 */
module FastTrace {
  import opened BlockFormat
  import opened SourceParse
  import opened MatchCount
  import opened Emitter
  import opened BlockWriter
  import opened FastTable

  const SKIP_TRIGGER: nat := 64

  datatype Move = Entered(p: nat) | Missed(p: nat) | Hit(p: nat)

  // ----- The table after a trace -----

  /** The latest position entered in bucket `h`, or what the bucket held before. */
  function Entry(su: Setup, before: seq<nat>, trace: seq<Move>, h: nat): nat
    requires h < |before|
  {
    if trace == [] then before[h]
    else
      var p := trace[|trace| - 1].p;
      if su.hash(p) == h then Stored(su, p) else Entry(su, before, trace[..|trace| - 1], h)
  }

  ghost predicate Follows(su: Setup, before: seq<nat>, trace: seq<Move>, table: seq<nat>) {
    |table| == |before| && forall h :: 0 <= h < |table| ==> table[h] == Entry(su, before, trace, h)
  }

  predicate Below(trace: seq<Move>, p: nat) {
    trace == [] || trace[|trace| - 1].p < p
  }

  /** The positions ascend, and the tests went as the trace tells. */
  ghost predicate Recorded(su: Setup, before: seq<nat>, trace: seq<Move>) {
    trace == [] ||
    (var front, t := trace[..|trace| - 1], trace[|trace| - 1];
     && Recorded(su, before, front) && Below(front, t.p)
     && su.start <= t.p && t.p + MFLIMIT <= |su.buf| && su.hash(t.p) < |before|
     && (t.Missed? ==> !Taken(su, Entry(su, before, front, su.hash(t.p)), t.p))
     && (t.Hit? ==> Taken(su, Entry(su, before, front, su.hash(t.p)), t.p)))
  }

  /** The table is what the trace makes of it, and position `p` is still to come. */
  ghost predicate Tracked(su: Setup, before: seq<nat>, trace: seq<Move>, table: seq<nat>, p: nat) {
    Follows(su, before, trace, table) && Recorded(su, before, trace) && Below(trace, p)
  }

  /** A position is entered after its bucket was read. */
  lemma Moves(su: Setup, before: seq<nat>, trace: seq<Move>, table: seq<nat>, t: Move, table': seq<nat>)
    requires Tracked(su, before, trace, table, t.p)
    requires su.start <= t.p && t.p + MFLIMIT <= |su.buf| && su.hash(t.p) < |table|
    requires t.Missed? ==> !Taken(su, table[su.hash(t.p)], t.p)
    requires t.Hit? ==> Taken(su, table[su.hash(t.p)], t.p)
    requires table' == table[su.hash(t.p) := Stored(su, t.p)]
    ensures Tracked(su, before, trace + [t], table', t.p + 1)
  {
    hide Taken, Stored;
    assert (trace + [t])[..|trace|] == trace;
  }

  lemma StillTracked(su: Setup, before: seq<nat>, trace: seq<Move>, table: seq<nat>, p: nat, p': nat)
    requires Tracked(su, before, trace, table, p) && p <= p'
    ensures Tracked(su, before, trace, table, p')
  {
    hide Follows, Recorded;
  }

  lemma NoMoves(su: Setup, table: seq<nat>, p: nat)
    ensures Tracked(su, table, [], table, p)
  {
  }

  // ----- The scan -----

  /** Values of the parameter outside its range are replaced. */
  function AccelerationOf(acceleration: int): (r: nat)
    ensures 1 <= r <= 65537 && (1 <= acceleration <= 65537 ==> r == acceleration)
  {
    if acceleration < 1 then 1 else if acceleration > 65537 then 65537 else acceleration
  }

  /** The step after the `k`-th probe: one byte at first, and one more after every 64 probes
      without a match, sooner with a higher acceleration. */
  function Step(acceleration: nat, k: nat): (r: nat)
    requires 1 <= acceleration
    ensures 1 <= r
  {
    if k == 0 then 1 else (acceleration * SKIP_TRIGGER + k - 1) / SKIP_TRIGGER
  }

  /** How far from the start of a scan its `k`-th probe is. */
  function Probe(acceleration: nat, k: nat): nat
    requires 1 <= acceleration
  {
    if k == 0 then 0 else Probe(acceleration, k - 1) + Step(acceleration, k - 1)
  }

  lemma {:induction false} ProbesAscend(acceleration: nat, i: nat, j: nat)
    requires 1 <= acceleration && i < j
    ensures Probe(acceleration, i) < Probe(acceleration, j)
    decreases j
  {
    hide Step;
    if i < j - 1 {
      ProbesAscend(acceleration, i, j - 1);
    }
  }

  lemma StepsGrow(acceleration: nat, i: nat, j: nat)
    requires 1 <= acceleration && i < j
    ensures Step(acceleration, i) <= Step(acceleration, j)
  {
  }

  /** The first 64 probes behind the first one are `acceleration` bytes apart, and the next
      64 one byte more. */
  lemma {:induction false} FirstProbes(acceleration: nat, k: nat)
    requires 1 <= acceleration && 1 <= k <= 129
    ensures Probe(acceleration, k) ==
      if k <= 65 then 1 + (k - 1) * acceleration else 1 + 64 * acceleration + (k - 65) * (acceleration + 1)
  {
    hide Step;
    if k == 1 {
      FirstStep(acceleration);
    } else {
      FirstProbes(acceleration, k - 1);
      FirstSteps(acceleration, k - 1);
    }
  }

  lemma FirstStep(acceleration: nat)
    requires 1 <= acceleration
    ensures Step(acceleration, 0) == 1
  {
  }

  lemma FirstSteps(acceleration: nat, k: nat)
    requires 1 <= acceleration && 1 <= k <= 128
    ensures Step(acceleration, k) == if k <= 64 then acceleration else acceleration + 1
  {
  }

  /** The scan from `lo` on has missed at every probe before `hi`.  A probe is made only if
      the next one still leaves room for a last match. */
  ghost predicate Scanned(su: Setup, acceleration: nat, trace: seq<Move>, lo: nat, hi: int)
    requires 1 <= acceleration
  {
    forall k: nat :: lo + Probe(acceleration, k) < hi && lo + Probe(acceleration, k) + Step(acceleration, k) + MFLIMIT <= |su.buf| + 1 ==>
      Missed(lo + Probe(acceleration, k)) in trace
  }

  /** The literals from `a` to `e`: the position behind a match is tested first. */
  ghost predicate RunScanned(su: Setup, acceleration: nat, trace: seq<Move>, a: nat, e: int)
    requires 1 <= acceleration
  {
    a < e ==> (a == su.start || a + MFLIMIT > |su.buf| || Missed(a) in trace) && Scanned(su, acceleration, trace, a + 1, e)
  }

  /** A match of that offset at `ip`, behind `run` literals, starts as early as it may: not
      before the memory it refers to begins. */
  predicate StartsEarly(su: Setup, ip: int, offset: nat, run: nat) {
    var m := ip - offset;
    run == 0 || m <= 0 || (su.directive == ExtDict && m == su.start) || (ip <= |su.buf| && su.buf[ip - 1] != su.buf[m - 1])
  }

  lemma AtOnce(su: Setup, ip: int, offset: nat)
    ensures StartsEarly(su, ip, offset, 0)
  {
  }

  /** All runs in front of a match, for a parse that ends at `anchor`, and all matches as long
      as they may be, but for the end of the last one unless it is `whole`. */
  ghost predicate RunsScanned(su: Setup, acceleration: nat, trace: seq<Move>, anchor: int, ss: seq<Sequence>, whole: bool)
    requires 1 <= acceleration
    decreases |ss|
  {
    if ss == [] then anchor == su.start
    else
      var s := ss[|ss| - 1];
      var a := anchor - s.matchLength - |s.literals|;
      && 0 <= a && RunsScanned(su, acceleration, trace, a, ss[..|ss| - 1], true)
      && RunScanned(su, acceleration, trace, a, a + |s.literals|) && StartsEarly(su, a + |s.literals|, s.offset, |s.literals|)
      && (whole ==> 0 <= anchor && CannotGrow(su.buf, s.offset, anchor))
  }

  /** The block `b` of the source up to `end`: its last run but for its last `lag` bytes, and
      its last match if there is no such rest.  A source of 12 bytes or less is not scanned. */
  ghost predicate Thorough(su: Setup, acceleration: nat, before: seq<nat>, end: nat, b: Block, lag: nat)
    requires 1 <= acceleration
  {
    su.start + MFLIMIT < |su.buf| && |b.last| <= end ==>
      exists trace :: Recorded(su, before, trace)
        && RunsScanned(su, acceleration, trace, end - |b.last|, b.sequences, lag == 0)
        && RunScanned(su, acceleration, trace, end - |b.last|, end - lag)
  }

  /** Why the compressor may fail: a block that was scanned for as owed does not fit.  If it
      gave up at its last match, the rest was not scanned. */
  ghost predicate DoesNotFit(su: Setup, acceleration: nat, before: seq<nat>, b: Block, room: nat)
    requires 1 <= acceleration
  {
    || (TooBig(su.buf, su.start, b, room, true) && Thorough(su, acceleration, before, |su.buf|, b, 0))
    || (TooBig(su.buf, su.start, b, room, false) && Thorough(su, acceleration, before, |su.buf|, b, |b.last|))
  }

  // ----- How it is kept -----

  lemma {:induction false} RunsLater(su: Setup, acceleration: nat, trace: seq<Move>, trace': seq<Move>, anchor: int, ss: seq<Sequence>, whole: bool)
    requires 1 <= acceleration && RunsScanned(su, acceleration, trace, anchor, ss, whole) && trace <= trace'
    ensures RunsScanned(su, acceleration, trace', anchor, ss, whole)
    decreases |ss|
  {
    hide CannotGrow, RunScanned, StartsEarly;
    if ss != [] {
      var s := ss[|ss| - 1];
      var a := anchor - s.matchLength - |s.literals|;
      RunsLater(su, acceleration, trace, trace', a, ss[..|ss| - 1], true);
      RunLater(su, acceleration, trace, trace', a, a + |s.literals|);
    }
  }

  lemma RunLater(su: Setup, acceleration: nat, trace: seq<Move>, trace': seq<Move>, a: nat, e: int)
    requires 1 <= acceleration && RunScanned(su, acceleration, trace, a, e) && trace <= trace'
    ensures RunScanned(su, acceleration, trace', a, e)
  {
    hide Probe;
    forall i | 0 <= i < |trace| ensures trace[i] in trace' {
      assert trace'[i] == trace[i];
    }
  }

  lemma RunShorter(su: Setup, acceleration: nat, trace: seq<Move>, a: nat, e: int, e': int)
    requires 1 <= acceleration && RunScanned(su, acceleration, trace, a, e) && e' <= e
    ensures RunScanned(su, acceleration, trace, a, e')
  {
    hide Probe;
  }

  /** One more sequence, from `anchor` over the literals up to `ip`. */
  lemma RunsExtend(su: Setup, acceleration: nat, trace: seq<Move>, anchor: nat, ss: seq<Sequence>, m: Match, whole: bool)
    requires 1 <= acceleration && RunsScanned(su, acceleration, trace, anchor, ss, true)
    requires anchor <= m.start <= |su.buf| && m.ref <= m.start && RunScanned(su, acceleration, trace, anchor, m.start)
    requires StartsEarly(su, m.start, m.start - m.ref, m.start - anchor)
    requires whole ==> CannotGrow(su.buf, m.start - m.ref, m.End())
    ensures RunsScanned(su, acceleration, trace, m.End(), ss + [SequenceOf(su.buf, anchor, m)], whole)
  {
    hide CannotGrow, RunScanned, StartsEarly;
    assert (ss + [SequenceOf(su.buf, anchor, m)])[..|ss|] == ss;
  }

  /** The first `k` probes have missed, and the next one is at `hi` or too near the end. */
  lemma AllScanned(su: Setup, acceleration: nat, trace: seq<Move>, lo: nat, k: nat, hi: int)
    requires 1 <= acceleration && forall j: nat :: j < k ==> Missed(lo + Probe(acceleration, j)) in trace
    requires hi <= lo + Probe(acceleration, k) || lo + Probe(acceleration, k) + Step(acceleration, k) + MFLIMIT > |su.buf| + 1
    ensures Scanned(su, acceleration, trace, lo, hi)
  {
    hide Probe, Step;
    forall j: nat | k <= j
      ensures Probe(acceleration, k) <= Probe(acceleration, j)
      ensures Probe(acceleration, k) + Step(acceleration, k) <= Probe(acceleration, j) + Step(acceleration, j)
    {
      if k < j {
        ProbesAscend(acceleration, k, j);
        StepsGrow(acceleration, k, j);
      }
    }
  }

  /** A scan from `start` on, on top of `trace0`, comes to its `k`-th probe at `ip`. */
  ghost predicate Probing(acceleration: nat, trace0: seq<Move>, trace: seq<Move>, start: nat, k: nat, ip: nat)
    requires 1 <= acceleration
  {
    && trace0 <= trace && ip == start + Probe(acceleration, k)
    && forall j: nat :: j < k ==> Missed(start + Probe(acceleration, j)) in trace
  }

  lemma FirstProbe(acceleration: nat, trace: seq<Move>, start: nat)
    requires 1 <= acceleration
    ensures Probing(acceleration, trace, trace, start, 0, start)
  {
  }

  lemma ProbeMissed(acceleration: nat, trace0: seq<Move>, trace: seq<Move>, start: nat, k: nat, ip: nat)
    requires 1 <= acceleration && Probing(acceleration, trace0, trace, start, k, ip)
    ensures Probing(acceleration, trace0, trace + [Missed(ip)], start, k + 1, ip + Step(acceleration, k))
  {
    hide Step;
  }

  lemma ProbeHit(su: Setup, acceleration: nat, trace0: seq<Move>, trace: seq<Move>, start: nat, k: nat, ip: nat)
    requires 1 <= acceleration && Probing(acceleration, trace0, trace, start, k, ip)
    ensures trace0 <= trace + [Hit(ip)] && Scanned(su, acceleration, trace + [Hit(ip)], start, ip)
  {
    AllScanned(su, acceleration, trace + [Hit(ip)], start, k, ip);
  }

  lemma ProbesEnd(su: Setup, acceleration: nat, trace0: seq<Move>, trace: seq<Move>, start: nat, k: nat, ip: nat)
    requires 1 <= acceleration && Probing(acceleration, trace0, trace, start, k, ip)
    requires ip + Step(acceleration, k) + MFLIMIT > |su.buf| + 1
    ensures trace0 <= trace && Scanned(su, acceleration, trace, start, |su.buf|)
  {
    AllScanned(su, acceleration, trace, start, k, |su.buf|);
  }

  lemma RunFound(su: Setup, acceleration: nat, trace: seq<Move>, trace': seq<Move>, anchor: nat, ip: nat, filledIp: nat)
    requires 1 <= acceleration && (anchor == su.start || Missed(anchor) in trace) && trace <= trace'
    requires Scanned(su, acceleration, trace', anchor + 1, filledIp) && ip <= filledIp
    ensures RunScanned(su, acceleration, trace', anchor, ip)
  {
    hide Probe, Step;
  }

  lemma NothingToScan(su: Setup, acceleration: nat, trace: seq<Move>, anchor: nat)
    requires 1 <= acceleration && anchor + MFLIMIT > |su.buf|
    ensures RunScanned(su, acceleration, trace, anchor, |su.buf|)
  {
    hide Probe;
  }

  lemma NoRun(su: Setup, acceleration: nat, trace: seq<Move>, anchor: nat)
    requires 1 <= acceleration
    ensures RunScanned(su, acceleration, trace, anchor, anchor)
  {
  }

  lemma IsThorough(su: Setup, acceleration: nat, before: seq<nat>, trace: seq<Move>, end: nat, b: Block, lag: nat)
    requires 1 <= acceleration && Recorded(su, before, trace) && |b.last| <= end
    requires RunsScanned(su, acceleration, trace, end - |b.last|, b.sequences, lag == 0)
    requires RunScanned(su, acceleration, trace, end - |b.last|, end - lag)
    ensures Thorough(su, acceleration, before, end, b, lag)
  {
    hide RunsScanned, RunScanned, Recorded;
  }

  // ----- What it means -----

  /** A miss: the latest position entered before it with the same hash is no match. */
  lemma {:induction false} MissedMeans(su: Setup, before: seq<nat>, trace: seq<Move>, p: nat) returns (front: seq<Move>)
    requires Recorded(su, before, trace) && Missed(p) in trace
    ensures Recorded(su, before, front) && Below(front, p) && su.hash(p) < |before|
    ensures !Taken(su, Entry(su, before, front, su.hash(p)), p)
    decreases |trace|
  {
    hide Taken, Entry;
    front := trace[..|trace| - 1];
    if trace[|trace| - 1] != Missed(p) {
      assert trace == front + [trace[|trace| - 1]];
      front := MissedMeans(su, before, front, p);
    }
  }

  /** Without any match, the second position has missed whatever stood in its bucket, or the
      first one if it has the same hash. */
  lemma SecondMissed(su: Setup, acceleration: nat, before: seq<nat>, end: nat, b: Block)
    requires 1 <= acceleration && Thorough(su, acceleration, before, end, b, 0)
    requires su.start + MFLIMIT < |su.buf| == end && |b.last| <= end && b.sequences == []
    ensures var p := su.start + 1; var h := su.hash(p);
            h < |before| && !(Taken(su, before[h], p) && (su.hash(su.start) == h ==> Taken(su, Stored(su, su.start), p)))
  {
    hide Taken, Stored;
    var trace :| Recorded(su, before, trace) && RunsScanned(su, acceleration, trace, end - |b.last|, b.sequences, true)
                 && RunScanned(su, acceleration, trace, end - |b.last|, end);
    assert Probe(acceleration, 0) == 0;
    var p := su.start + 1;
    var front := MissedMeans(su, before, trace, p);
    if front != [] {
      assert front[|front| - 1].p == su.start;
      assert front[..|front| - 1] == [];
    }
  }
}
