/**
 * FindSector (actors/builtin/miner/deadlines.go): locate the deadline and
 * partition that hold a sector number.
 *
 * The miner's deadlines are modelled in memory: one stored deadline per index,
 * each either readable or not (a failed LoadDeadline or partition-array load),
 * and each readable deadline holding its partitions in the order the partition
 * array yields them: increasing partition index, gaps allowed. A partition's
 * sector bitfield is a set of sector numbers, or unreadable (a failed decode of
 * the partition or of its bitfield). Every store failure is one error value.
 */
module SectorLocator {

  type SectorNumber = nat

  datatype Option<T> = None | Some(value: T)

  /** A node read from the store: its decoded value, or a failure to load it. */
  datatype Stored<T> = Loaded(value: T) | Unreadable

  datatype Partition = Partition(index: nat, sectors: Stored<set<SectorNumber>>)

  /** Partitions in array order: indices strictly increase. */
  predicate IndexOrdered(partitions: seq<Partition>) {
    forall i, j :: 0 <= i < j < |partitions| ==> partitions[i].index < partitions[j].index
  }

  type PartitionArray = partitions: seq<Partition> | IndexOrdered(partitions) witness []

  datatype Deadline = Deadline(partitions: PartitionArray)

  /** The errors FindSector returns. */
  datatype Error =
    | NotDue(sector: SectorNumber)  // "sector %d not due at any deadline"
    | StoreError                    // any failure to load or decode a deadline or partition

  // ---------------------------------------------------------------------------
  // What the search looks at
  // ---------------------------------------------------------------------------

  /** The partition was read and holds sector s. */
  predicate Holds(p: Partition, s: SectorNumber) {
    p.sectors.Loaded? && s in p.sectors.value
  }

  /** The partition was read and does not hold sector s. */
  predicate Clean(p: Partition, s: SectorNumber) {
    p.sectors.Loaded? && s !in p.sectors.value
  }

  /** The deadline and all its partitions were read, and none holds sector s. */
  predicate DeadlineClean(dl: Stored<Deadline>, s: SectorNumber) {
    dl.Loaded? &&
    forall k :: 0 <= k < |dl.value.partitions| ==> Clean(dl.value.partitions[k], s)
  }

  /** Every deadline before d, and every partition of d before position k, is clean. */
  predicate CleanBefore(due: seq<Stored<Deadline>>, s: SectorNumber, d: nat, k: nat)
    requires d < |due| && due[d].Loaded? && k <= |due[d].value.partitions|
  {
    (forall d' :: 0 <= d' < d ==> DeadlineClean(due[d'], s)) &&
    (forall k' :: 0 <= k' < k ==> Clean(due[d].value.partitions[k'], s))
  }

  /** Partition position k of deadline d holds s and is the first thing the search meets that does. */
  predicate FirstHitAt(due: seq<Stored<Deadline>>, s: SectorNumber, d: nat, k: nat) {
    d < |due| && due[d].Loaded? && k < |due[d].value.partitions| &&
    Holds(due[d].value.partitions[k], s) && CleanBefore(due, s, d, k)
  }

  /** The search meets sector s in deadline d, partition index p, before any failure. */
  predicate FoundAt(due: seq<Stored<Deadline>>, s: SectorNumber, d: nat, p: nat) {
    d < |due| && due[d].Loaded? &&
    exists k :: 0 <= k < |due[d].value.partitions| && due[d].value.partitions[k].index == p &&
      FirstHitAt(due, s, d, k)
  }

  /** Every deadline and every partition was read, and none holds s. */
  predicate AllClean(due: seq<Stored<Deadline>>, s: SectorNumber) {
    forall d :: 0 <= d < |due| ==> DeadlineClean(due[d], s)
  }

  /** The first thing the search meets that it cannot read is deadline d itself. */
  predicate DeadlineBrokenFirst(due: seq<Stored<Deadline>>, s: SectorNumber, d: nat) {
    d < |due| && due[d].Unreadable? && forall d' :: 0 <= d' < d ==> DeadlineClean(due[d'], s)
  }

  /** The first thing the search meets that it cannot read is partition position k of deadline d. */
  predicate PartitionBrokenFirst(due: seq<Stored<Deadline>>, s: SectorNumber, d: nat, k: nat) {
    d < |due| && due[d].Loaded? && k < |due[d].value.partitions| &&
    due[d].value.partitions[k].sectors.Unreadable? && CleanBefore(due, s, d, k)
  }

  /** The search meets an unreadable deadline or partition before it meets sector s. */
  ghost predicate BrokenFirst(due: seq<Stored<Deadline>>, s: SectorNumber) {
    (exists d :: DeadlineBrokenFirst(due, s, d)) ||
    (exists d, k :: PartitionBrokenFirst(due, s, d, k))
  }

  // ---------------------------------------------------------------------------
  // The search
  // ---------------------------------------------------------------------------

  /**
   * Scans deadlines in index order and, in each, partitions in index order;
   * stops at the first partition that holds the sector, and aborts with
   * (0, 0, error) at the first deadline or partition that cannot be read.
   */
  method FindSector(due: seq<Stored<Deadline>>, sectorNum: SectorNumber)
    returns (dlIdx: nat, partIdx: nat, err: Option<Error>)
    ensures err.None? <==> FoundAt(due, sectorNum, dlIdx, partIdx)
    ensures err == Some(NotDue(sectorNum)) <==> AllClean(due, sectorNum)
    ensures err == Some(StoreError) <==> BrokenFirst(due, sectorNum)
    ensures err.Some? ==> dlIdx == 0 && partIdx == 0 && err.value in {NotDue(sectorNum), StoreError}
  {
    var d := 0;
    while d < |due|
      invariant 0 <= d <= |due|
      invariant forall d' :: 0 <= d' < d ==> DeadlineClean(due[d'], sectorNum)
    {
      if due[d].Unreadable? {
        assert DeadlineBrokenFirst(due, sectorNum, d);
        BrokenExcludesOthers(due, sectorNum, d, 0);
        return 0, 0, Some(StoreError);
      }
      var partitions := due[d].value.partitions;
      var k := 0;
      while k < |partitions|
        invariant 0 <= k <= |partitions|
        invariant CleanBefore(due, sectorNum, d, k)
      {
        var partition := partitions[k];
        if partition.sectors.Unreadable? {
          assert PartitionBrokenFirst(due, sectorNum, d, k);
          BrokenExcludesOthers(due, sectorNum, d, k);
          return 0, 0, Some(StoreError);
        }
        if sectorNum in partition.sectors.value {
          FirstHitExcludesOthers(due, sectorNum, d, k);
          return d, partition.index, None;
        }
        k := k + 1;
      }
      d := d + 1;
    }
    NoHitInCleanStore(due, sectorNum);
    return 0, 0, Some(NotDue(sectorNum));
  }

  // ---------------------------------------------------------------------------
  // The outcomes exclude each other
  // ---------------------------------------------------------------------------

  /** A first hit rules out a first failure, a clean store, and any other first hit. */
  lemma FirstHitExcludesOthers(due: seq<Stored<Deadline>>, s: SectorNumber, d: nat, k: nat)
    requires FirstHitAt(due, s, d, k)
    ensures !BrokenFirst(due, s) && !AllClean(due, s)
    ensures FoundAt(due, s, d, due[d].value.partitions[k].index)
    ensures forall d2: nat, k2: nat :: FirstHitAt(due, s, d2, k2) ==> d2 == d && k2 == k
  {
  }

  /** A first failure rules out any hit and a clean store. */
  lemma BrokenExcludesOthers(due: seq<Stored<Deadline>>, s: SectorNumber, d: nat, k: nat)
    requires DeadlineBrokenFirst(due, s, d) || PartitionBrokenFirst(due, s, d, k)
    ensures BrokenFirst(due, s) && !AllClean(due, s)
    ensures forall d2: nat, k2: nat :: !FirstHitAt(due, s, d2, k2)
    ensures forall d2: nat, p2: nat :: !FoundAt(due, s, d2, p2)
  {
    assert !DeadlineClean(due[d], s);
    forall d2: nat, k2: nat ensures !FirstHitAt(due, s, d2, k2) {
      if d2 < d {
        assert DeadlineClean(due[d2], s);
        if k2 < |due[d2].value.partitions| {
          assert Clean(due[d2].value.partitions[k2], s);
        }
      } else if d2 == d && due[d].Loaded? && k2 <= k {
        if k2 < k {
          assert Clean(due[d].value.partitions[k2], s);
        }
      }
    }
  }

  /** In a clean store nothing is hit and nothing fails. */
  lemma NoHitInCleanStore(due: seq<Stored<Deadline>>, s: SectorNumber)
    requires AllClean(due, s)
    ensures !BrokenFirst(due, s)
    ensures forall d2: nat, p2: nat :: !FoundAt(due, s, d2, p2)
  {
    forall d2: nat, k2: nat ensures !FirstHitAt(due, s, d2, k2) && !PartitionBrokenFirst(due, s, d2, k2) {
      if d2 < |due| && k2 < |due[d2].value.partitions| {
        assert Clean(due[d2].value.partitions[k2], s);
      }
    }
  }

  // ---------------------------------------------------------------------------
  // Consequences
  // ---------------------------------------------------------------------------

  /** A found partition is the lowest-indexed one of its deadline that holds s, in the lowest-indexed deadline that does. */
  lemma FoundIsFirst(due: seq<Stored<Deadline>>, s: SectorNumber, d: nat, p: nat)
    requires FoundAt(due, s, d, p)
    ensures exists k ::
      0 <= k < |due[d].value.partitions| && due[d].value.partitions[k].index == p &&
      Holds(due[d].value.partitions[k], s)
    ensures forall d' :: 0 <= d' < d ==>
      due[d'].Loaded? &&
      forall k :: 0 <= k < |due[d'].value.partitions| ==> !Holds(due[d'].value.partitions[k], s)
    ensures forall k :: 0 <= k < |due[d].value.partitions| && due[d].value.partitions[k].index < p ==>
      !Holds(due[d].value.partitions[k], s)
  {
  }

  /** Every deadline and every partition can be read. */
  predicate Readable(due: seq<Stored<Deadline>>) {
    forall d :: 0 <= d < |due| ==>
      due[d].Loaded? &&
      forall k :: 0 <= k < |due[d].value.partitions| ==> due[d].value.partitions[k].sectors.Loaded?
  }

  /** Sector s is in partition position k of deadline d. */
  predicate InPartition(due: seq<Stored<Deadline>>, s: SectorNumber, d: nat, k: nat) {
    d < |due| && due[d].Loaded? && k < |due[d].value.partitions| && Holds(due[d].value.partitions[k], s)
  }

  /** No sector is in two partitions, of the same deadline or of different ones. */
  ghost predicate SectorsDisjoint(due: seq<Stored<Deadline>>) {
    forall s: SectorNumber, d1: nat, k1: nat, d2: nat, k2: nat ::
      InPartition(due, s, d1, k1) && InPartition(due, s, d2, k2) ==> d1 == d2 && k1 == k2
  }

  /** On a readable store the search fails only with NotDue, and exactly when no partition holds the sector. */
  lemma NotDueIffAbsent(due: seq<Stored<Deadline>>, s: SectorNumber)
    requires Readable(due)
    ensures !BrokenFirst(due, s)
    ensures AllClean(due, s) <==> forall d: nat, k: nat :: !InPartition(due, s, d, k)
  {
    forall d: nat, k: nat ensures !PartitionBrokenFirst(due, s, d, k) && !DeadlineBrokenFirst(due, s, d) {
    }
    if forall d: nat, k: nat :: !InPartition(due, s, d, k) {
      forall d | 0 <= d < |due| ensures DeadlineClean(due[d], s) {
        forall k | 0 <= k < |due[d].value.partitions| ensures Clean(due[d].value.partitions[k], s) {
          assert !InPartition(due, s, d, k);
        }
      }
    }
  }

  /**
   * On a readable store in which no sector is in two partitions, the search
   * finds a sector exactly where it is.
   */
  lemma FoundWhereAssigned(due: seq<Stored<Deadline>>, s: SectorNumber, d: nat, k: nat)
    requires Readable(due) && SectorsDisjoint(due) && InPartition(due, s, d, k)
    ensures FoundAt(due, s, d, due[d].value.partitions[k].index)
  {
    forall d' | 0 <= d' < d ensures DeadlineClean(due[d'], s) {
      forall k' | 0 <= k' < |due[d'].value.partitions| ensures Clean(due[d'].value.partitions[k'], s) {
        assert InPartition(due, s, d', k') ==> d' == d;
      }
    }
    forall k' | 0 <= k' < k ensures Clean(due[d].value.partitions[k'], s) {
      assert InPartition(due, s, d, k') ==> k' == k;
    }
    assert FirstHitAt(due, s, d, k);
  }
}
