/** The end-of-run report: fold the summary entries into a status -> count
    dictionary and read the three counts from it, an absent status as 0. */
module Report {
  import opened Orchestrate

  /** How many entries carry status `s`. */
  function Occurrences(results: seq<Entry>, s: Status): (n: nat)
    ensures n <= |results|
  {
    if results == [] then 0
    else Occurrences(results[..|results| - 1], s) + (if results[|results| - 1].status == s then 1 else 0)
  }

  /** The statuses of the entries, in order. */
  function Statuses(results: seq<Entry>): seq<Status> {
    seq(|results|, k requires 0 <= k < |results| => results[k].status)
  }

  /** `counts.get(s, 0)`. */
  function Get(counts: map<Status, nat>, s: Status): nat {
    if s in counts then counts[s] else 0
  }

  /** The `for artist, idx, status in results` loop: `setdefault(status, 0)`,
      then add one. Every status's count is its number of entries, and a
      status is a key exactly when it has a positive count. */
  method CountStatuses(results: seq<Entry>) returns (counts: map<Status, nat>)
    ensures forall s :: Get(counts, s) == Occurrences(results, s)
    ensures forall s :: s in counts <==> Occurrences(results, s) > 0
  {
    counts := map[];
    for k := 0 to |results|
      invariant forall s :: Get(counts, s) == Occurrences(results[..k], s)
      invariant forall s :: s in counts <==> Occurrences(results[..k], s) > 0
    {
      var status := results[k].status;
      if status !in counts {
        counts := counts[status := 0];
      }
      counts := counts[status := counts[status] + 1];
      assert results[..k + 1][..k] == results[..k];
    }
    assert results[..|results|] == results;
  }

  /** The count of a status is its multiplicity among the entries' statuses. */
  lemma {:induction false} OccurrencesIsMultiplicity(results: seq<Entry>, s: Status)
    ensures Occurrences(results, s) == multiset(Statuses(results))[s]
  {
    if results != [] {
      var n := |results| - 1;
      OccurrencesIsMultiplicity(results[..n], s);
      assert Statuses(results) == Statuses(results[..n]) + [results[n].status];
    }
  }

  /** Every entry is in exactly one of the three buckets: the three printed
      counts add up to the number of entries. */
  lemma {:induction false} CountsPartition(results: seq<Entry>)
    ensures Occurrences(results, Ok) + Occurrences(results, Placeholder) + Occurrences(results, Missing) == |results|
  {
    if results != [] {
      CountsPartition(results[..|results| - 1]);
    }
  }

  /** A status has a positive count exactly when some entry carries it. */
  lemma {:induction false} OccurrencesPositive(results: seq<Entry>, s: Status)
    ensures Occurrences(results, s) > 0 <==> exists k :: 0 <= k < |results| && results[k].status == s
  {
    if results != [] {
      var n := |results| - 1;
      OccurrencesPositive(results[..n], s);
      if Occurrences(results[..n], s) > 0 {
        var k :| 0 <= k < n && results[..n][k].status == s;
        assert results[k].status == s;
      }
      if results[n].status != s && exists k :: 0 <= k < |results| && results[k].status == s {
        var k :| 0 <= k < |results| && results[k].status == s;
        assert results[..n][k].status == s;
      }
    }
  }

  /** A status no entry carries counts 0. */
  lemma {:induction false} AbsentStatusCountsZero(results: seq<Entry>, s: Status)
    requires forall k :: 0 <= k < |results| ==> results[k].status != s
    ensures Occurrences(results, s) == 0
  {
    if results != [] {
      AbsentStatusCountsZero(results[..|results| - 1], s);
    }
  }
}
