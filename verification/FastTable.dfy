/** The hash table of the fast compressor: what its entries may be, and which of them are
    taken for the place of a match.

    `buf` is the history followed by the block, which starts at `start`; position `p`
    has index `p + shift`.  The table may hold anything that `Indexed` allows: whatever the
    hash function, only real repetitions are taken.
 */
module FastTable {
  import opened BlockFormat
  import opened SourceParse

  const LZ4_64KLIMIT: nat := 0x1_0000 + (MFLIMIT - 1)

  datatype TableType = ByU32 | ByU16

  /** dictSmall: entries before the history must be skipped explicitly. */
  datatype DictIssue = NoDictIssue | DictSmall

  /** Where the history lies: in front of the block, or elsewhere in memory. */
  datatype DictDirective = WithPrefix | ExtDict

  /** The fixed circumstances of a call. */
  datatype Setup = Setup(buf: seq<byte>, start: nat, shift: nat, tableType: TableType,
                         directive: DictDirective, issue: DictIssue, hash: nat -> nat)

  /** A table entry that the tests of the search do not discard is a position of
      `buf`, not among the last three bytes of an external history. */
  predicate EntryOk(su: Setup, e: nat) {
    && (su.tableType == ByU16 ==> e < 0x1_0000)
    && if su.shift <= e
    then su.directive == ExtDict && e < su.start + su.shift ==> e + MINMATCH <= su.start + su.shift
    else (su.issue == DictSmall || (su.tableType == ByU32 && e + DISTANCE_MAX < su.start + su.shift))
  }

  /** All entries are acceptable and before position `next`. */
  ghost predicate Indexed(su: Setup, table: array<nat>, next: nat)
    reads table
  {
    && (forall p :: su.hash(p) < table.Length)
    && forall h :: 0 <= h < table.Length ==> EntryOk(su, table[h]) && table[h] < next + su.shift
  }

  /** Every other entry is in the bucket of its position. */
  ghost predicate Bucketed(su: Setup, table: array<nat>)
    reads table
  {
    forall h :: 0 <= h < table.Length && su.shift < table[h] ==> su.hash(table[h] - su.shift) == h
  }

  /** No position of the block that may be entered has bucket `h`. */
  ghost predicate Unhit(su: Setup, h: nat) {
    forall p :: su.start <= p && p + MFLIMIT <= |su.buf| ==> su.hash(p) != h
  }

  /** Other buckets keep their entries. */
  ghost predicate UnhitKept(su: Setup, before: seq<nat>, after: seq<nat>) {
    |before| == |after| && forall h :: 0 <= h < |before| && Unhit(su, h) ==> after[h] == before[h]
  }

  lemma AllKept(su: Setup, table: seq<nat>)
    ensures UnhitKept(su, table, table)
  {
  }

  lemma StillKept(su: Setup, a: seq<nat>, b: seq<nat>, c: seq<nat>)
    requires UnhitKept(su, a, b) && UnhitKept(su, b, c)
    ensures UnhitKept(su, a, c)
  {
    hide Unhit;
  }

  /** The index of position `p` as the table stores it. */
  function Stored(su: Setup, p: nat): nat {
    match su.tableType
    case ByU32 => (p + su.shift) % 0x1_0000_0000
    case ByU16 => (p + su.shift) % 0x1_0000
  }

  /** Indexes fit in the table.  With 16 bits either no index is truncated, and no
      distance test is needed, or every truncated index is skipped. */
  predicate SetupOk(su: Setup) {
    && su.start <= |su.buf|
    && match su.tableType
       case ByU32 => |su.buf| + su.shift <= 0x1_0000_0000
       case ByU16 => |su.buf| + su.shift < LZ4_64KLIMIT || (su.issue == DictSmall && 0x1_0000 <= su.shift)
  }

  lemma StoredOk(su: Setup, p: nat)
    requires SetupOk(su) && su.start <= p && p + MFLIMIT <= |su.buf|
    ensures EntryOk(su, Stored(su, p)) && Stored(su, p) <= p + su.shift
    ensures su.shift <= Stored(su, p) ==> Stored(su, p) == p + su.shift
  {
  }

  /** The tests a candidate has to pass. */
  predicate Acceptable(su: Setup, e: nat, ip: nat) {
    && !(su.issue == DictSmall && e < su.shift)
    && (su.tableType == ByU16 || e + DISTANCE_MAX >= ip + su.shift)
  }

  lemma AcceptableInWindow(su: Setup, e: nat, ip: nat)
    requires SetupOk(su) && EntryOk(su, e) && Acceptable(su, e, ip) && e < ip + su.shift
    requires su.start <= ip && ip + MFLIMIT <= |su.buf|
    ensures su.shift <= e && ip - (e - su.shift) <= DISTANCE_MAX
  {
  }

  /** The candidate `e` is the place of a match for `ip`: it passes the tests, and its four
      bytes are those at `ip`. */
  predicate Taken(su: Setup, e: nat, ip: nat) {
    && Acceptable(su, e, ip) && su.shift <= e && e - su.shift + MINMATCH <= |su.buf| && ip + MINMATCH <= |su.buf|
    && su.buf[e - su.shift..e - su.shift + MINMATCH] == su.buf[ip..ip + MINMATCH]
  }

  /** Four bytes at `m` lie on one side of the border between history and block. */
  predicate OneSegment(su: Setup, m: nat) {
    su.directive == ExtDict && m < su.start ==> m + MINMATCH <= su.start
  }

  /** Enters position `p` in its bucket. */
  method Put(su: Setup, table: array<nat>, p: nat, ghost next: nat)
    requires SetupOk(su) && Indexed(su, table, next) && su.start <= p && p + MFLIMIT <= |su.buf|
    modifies table
    ensures Indexed(su, table, if next <= p then p + 1 else next) && (old(Bucketed(su, table)) ==> Bucketed(su, table))
    ensures table[..] == old(table[..])[su.hash(p) := Stored(su, p)] && UnhitKept(su, old(table[..]), table[..])
  {
    hide EntryOk, SetupOk, Stored;
    StoredOk(su, p);
    table[su.hash(p)] := Stored(su, p);
  }

  /** Is the table entry `e` the place of a match for `ip`? */
  method TestCandidate(su: Setup, e: nat, ip: nat) returns (found: bool, m: nat)
    requires SetupOk(su) && EntryOk(su, e) && e < ip + su.shift && su.start <= ip && ip + MFLIMIT <= |su.buf|
    ensures found ==> IsMatch(su.buf, ip, m, MINMATCH, |su.buf|) && OneSegment(su, m)
    ensures found <==> Taken(su, e, ip)
    ensures found ==> m + su.shift == e
  {
    found, m := false, 0;
    if Acceptable(su, e, ip) {
      AcceptableInWindow(su, e, ip);
      m := e - su.shift;
      RepeatsIsEquality(su.buf, ip, m, MINMATCH);
      found := su.buf[m..m + MINMATCH] == su.buf[ip..ip + MINMATCH];
    }
  }
}
