/**
 * The leaderboard store (PersistenceVault.swift): per-mode lists of records
 * kept in the user-defaults dictionary, each the ten best by level.
 */
module Persistence {
  import opened Vestige

  const NoviceRecordsKey: string := "com.tilemosaic.novice.chronicles"
  const VirtuosoRecordsKey: string := "com.tilemosaic.virtuoso.chronicles"

  /** How many records a mode keeps. */
  const Capacity: nat := 10

  function RecordsKey(mode: Difficulty): string
  {
    if mode == Novice then NoviceRecordsKey else VirtuosoRecordsKey
  }

  lemma RecordsKeysDiffer()
    ensures RecordsKey(Novice) != RecordsKey(Virtuoso)
  {
    assert RecordsKey(Novice)[15] != RecordsKey(Virtuoso)[15];
  }

  /** What the defaults dictionary holds under a key: encoded records, or data that does not decode. */
  datatype Blob = Encoded(records: seq<Record>) | Undecodable

  /** The records a stored value decodes to; nothing stored or undecodable data reads as no records. */
  function Decoded(defaults: map<string, Blob>, key: string): (records: seq<Record>)
  {
    if key in defaults && defaults[key].Encoded? then defaults[key].records else []
  }

  /** Ordered by level, highest first. */
  predicate RankedDescending(rs: seq<Record>)
  {
    forall i, j :: 0 <= i < j < |rs| ==> rs[i].accomplishedStrata >= rs[j].accomplishedStrata
  }

  /**
   * top is what "sort by level descending, keep the first cap" can leave of
   * pool, whatever order the sort gives records of equal level: ranked, drawn
   * from pool, of length min(cap, |pool|), and no dropped record outranks a
   * kept one.
   */
  ghost predicate KeepsBest(top: seq<Record>, pool: seq<Record>, cap: nat)
  {
    RankedDescending(top)
    && multiset(top) <= multiset(pool)
    && |top| == (if |pool| <= cap then |pool| else cap)
    && forall x, y :: x in multiset(pool) - multiset(top) && y in top ==> y.accomplishedStrata >= x.accomplishedStrata
  }

  /** Inserts r into a ranked list behind every record of at least its level. */
  method InsertRanked(sorted: seq<Record>, r: Record) returns (result: seq<Record>)
    requires RankedDescending(sorted)
    ensures RankedDescending(result)
    ensures multiset(result) == multiset(sorted) + multiset{r}
  {
    var i := 0;
    while i < |sorted| && sorted[i].accomplishedStrata >= r.accomplishedStrata
      invariant 0 <= i <= |sorted|
      invariant forall k :: 0 <= k < i ==> sorted[k].accomplishedStrata >= r.accomplishedStrata
    {
      i := i + 1;
    }
    result := sorted[..i] + [r] + sorted[i..];
    assert sorted == sorted[..i] + sorted[i..];
  }

  /** `sort { $0.accomplishedStrata > $1.accomplishedStrata }`: a permutation ordered by level, highest first. */
  method SortByStrataDescending(rs: seq<Record>) returns (sorted: seq<Record>)
    ensures RankedDescending(sorted)
    ensures multiset(sorted) == multiset(rs)
  {
    sorted := [];
    for k := 0 to |rs|
      invariant RankedDescending(sorted)
      invariant multiset(sorted) == multiset(rs[..k])
    {
      sorted := InsertRanked(sorted, rs[k]);
      assert rs[..k + 1] == rs[..k] + [rs[k]];
    }
    assert rs[..|rs|] == rs;
  }

  /** Cutting a ranked list leaves no dropped record above a kept one. */
  lemma RankedCut(sorted: seq<Record>, n: nat)
    requires RankedDescending(sorted) && n <= |sorted|
    ensures forall x, y :: x in sorted[n..] && y in sorted[..n] ==> y.accomplishedStrata >= x.accomplishedStrata
  {
    forall x, y | x in sorted[n..] && y in sorted[..n]
      ensures y.accomplishedStrata >= x.accomplishedStrata
    {
      var j :| n <= j < |sorted| && sorted[j] == x;
      var i :| 0 <= i < n && sorted[i] == y;
    }
  }

  /** The sort and the `prefix(10)` truncation of `archiveAccomplishment`. */
  method RankRecords(pool: seq<Record>) returns (top: seq<Record>)
    ensures KeepsBest(top, pool, Capacity)
  {
    var sorted := SortByStrataDescending(pool);
    top := sorted;
    if |top| > Capacity {
      top := top[..Capacity];
    }
    var n := |top|;
    assert top == sorted[..n];
    assert sorted == sorted[..n] + sorted[n..];
    assert multiset(pool) - multiset(top) == multiset(sorted[n..]);
    RankedCut(sorted, n);
  }

  /**
   * A kept list never exceeds the capacity; while the pool fits, nothing is
   * dropped, so the kept list is the pool reordered.
   */
  lemma KeepsBestFacts(top: seq<Record>, pool: seq<Record>, cap: nat)
    requires KeepsBest(top, pool, cap)
    ensures |top| <= cap
    ensures |pool| <= cap ==> multiset(top) == multiset(pool)
    ensures |pool| <= cap ==> forall r :: r in pool ==> r in top
  {
    if |pool| <= cap {
      var extra := multiset(pool) - multiset(top);
      assert multiset(pool) == multiset(top) + extra;
      assert |multiset(pool)| == |multiset(top)| + |extra|;
      assert |extra| == 0;
      assert multiset(pool) == multiset(top);
      forall r | r in pool
        ensures r in top
      {
        assert r in multiset(pool);
      }
    }
  }

  /**
   * Writing a mode's list under its key is read back as that list, and leaves
   * every other key and the other mode's list as they were.
   */
  lemma StoredUnderKey(before: map<string, Blob>, mode: Difficulty, kept: seq<Record>)
    ensures var after := before[RecordsKey(mode) := Encoded(kept)];
            && Decoded(after, RecordsKey(mode)) == kept
            && (forall other :: other != mode ==> Decoded(after, RecordsKey(other)) == Decoded(before, RecordsKey(other)))
            && after.Keys == before.Keys + {RecordsKey(mode)}
            && (forall k :: k in before && k != RecordsKey(mode) ==> after[k] == before[k])
  {
    RecordsKeysDiffer();
  }

  /** `PersistenceVault`: its state is the defaults dictionary it reads and writes. */
  class PersistenceVault {
    var defaults: map<string, Blob>

    constructor (stored: map<string, Blob>)
      ensures defaults == stored
    {
      defaults := stored;
    }

    /** `retrieveChronicles(for:)`. */
    function RetrieveChronicles(mode: Difficulty): (records: seq<Record>)
      reads this
      ensures RecordsKey(mode) !in defaults ==> records == []
      ensures RecordsKey(mode) in defaults && defaults[RecordsKey(mode)].Undecodable? ==> records == []
    {
      Decoded(defaults, RecordsKey(mode))
    }

    /**
     * `archiveAccomplishment(mode:strata:)` at time `now`: the mode's list
     * gains the new record, is re-ranked and cut to ten, and is written back
     * under the mode's key; no other key changes.
     */
    method ArchiveAccomplishment(mode: Difficulty, strata: int, now: Timestamp)
      modifies this
      ensures RecordsKey(mode) in defaults && defaults[RecordsKey(mode)].Encoded?
      ensures KeepsBest(RetrieveChronicles(mode),
                        old(RetrieveChronicles(mode)) + [Record(DifficultyRawValue(mode), strata, now)], Capacity)
      ensures defaults.Keys == old(defaults).Keys + {RecordsKey(mode)}
      ensures forall k :: k in old(defaults) && k != RecordsKey(mode) ==> defaults[k] == old(defaults)[k]
      ensures forall other :: other != mode ==> RetrieveChronicles(other) == old(RetrieveChronicles(other))
    {
      var record := Record(DifficultyRawValue(mode), strata, now);
      var existingRecords := RetrieveChronicles(mode);
      existingRecords := existingRecords + [record];
      var kept := RankRecords(existingRecords);
      var key := if mode == Novice then NoviceRecordsKey else VirtuosoRecordsKey;
      StoredUnderKey(defaults, mode, kept);
      defaults := defaults[key := Encoded(kept)];
    }

    /** `obliterateAllChronicles()`: both modes' keys are removed, nothing else. */
    method ObliterateAllChronicles()
      modifies this
      ensures defaults == old(defaults) - {NoviceRecordsKey, VirtuosoRecordsKey}
      ensures RetrieveChronicles(Novice) == [] && RetrieveChronicles(Virtuoso) == []
    {
      defaults := defaults - {NoviceRecordsKey, VirtuosoRecordsKey};
    }
  }

  /**
   * One archive call: the list never exceeds ten records, it is ordered by
   * level, and when fewer than ten were stored it grows by exactly the new
   * record.
   */
  lemma ArchiveOutcome(before: seq<Record>, after: seq<Record>, record: Record)
    requires KeepsBest(after, before + [record], Capacity)
    ensures |after| <= Capacity && RankedDescending(after)
    ensures |before| < Capacity ==> |after| == |before| + 1 && record in after
    ensures |before| < Capacity ==> multiset(after) == multiset(before) + multiset{record}
    ensures |before| >= Capacity ==> |after| == Capacity
  {
    KeepsBestFacts(after, before + [record], Capacity);
    assert record in before + [record];
  }
}
