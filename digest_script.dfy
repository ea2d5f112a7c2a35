/**
 * The tally of the digest script: for every sequence record, the lengths of
 * the fragments a single enzyme's digest produces, the number of RAD-seq tags
 * they count for, and the running total over all records.
 *
 * The digest of each record (Biopython's `catalyse`) is an input: a record is
 * given as the sequence of its fragments. Reading the FASTA file, looking the
 * enzymes up by name and printing are not modelled; the per-record counts the
 * script prints are returned instead.
 */
module DigestScript {
  import opened Prelude

  /** The command-line options the tally reads. */
  datatype Options = Options(count: bool, minlen: int, maxlen: int)

  /** How many of `lengths` lie strictly between `minlen` and `maxlen`. */
  function CountInRange(lengths: seq<nat>, minlen: int, maxlen: int): (n: nat)
    ensures n <= |lengths|
  {
    if lengths == [] then 0
    else
      var last := lengths[|lengths| - 1];
      CountInRange(lengths[..|lengths| - 1], minlen, maxlen) + if minlen < last < maxlen then 1 else 0
  }

  /** The positions counted, as a set: both bounds are exclusive. */
  ghost function InRangeIndices(lengths: seq<nat>, minlen: int, maxlen: int): set<int> {
    set i | 0 <= i < |lengths| && minlen < lengths[i] < maxlen
  }

  lemma {:induction false} CountInRangeIndices(lengths: seq<nat>, minlen: int, maxlen: int)
    ensures CountInRange(lengths, minlen, maxlen) == |InRangeIndices(lengths, minlen, maxlen)|
  {
    if lengths != [] {
      var n := |lengths| - 1;
      var before := lengths[..n];
      CountInRangeIndices(before, minlen, maxlen);
      var prior := InRangeIndices(before, minlen, maxlen);
      var all := InRangeIndices(lengths, minlen, maxlen);
      if minlen < lengths[n] < maxlen {
        assert forall i :: i in all <==> i in prior || i == n;
        assert all == prior + {n};
        assert n !in prior;
      } else {
        assert forall i :: i in all <==> i in prior;
        assert all == prior;
      }
    }
  }

  /** The count one record contributes, given its fragments. In count mode
      each of the n fragments adds max(0, n - 1). */
  function RecordTally(fragments: seq<seq<char>>, opts: Options): (tally: nat)
    ensures !opts.count ==> tally <= |fragments|
    ensures opts.count ==> (tally == 0 <==> |fragments| <= 1)
  {
    var n := |fragments|;
    if opts.count then n * MaxZero(n - 1)
    else CountInRange(seq(n, i requires 0 <= i < n => |fragments[i]|), opts.minlen, opts.maxlen)
  }

  /** In count mode a record with three fragments, that is two cut sites,
      counts for 6 and not for its 2 cut sites. */
  lemma CountModeTally()
    ensures RecordTally(["a", "b", "c"], Options(true, 0, 0)) == 6
  {
  }

  /** The sum of `counts`. */
  function Sum(counts: seq<nat>): (total: nat)
    ensures forall i :: 0 <= i < |counts| ==> counts[i] <= total
  {
    if counts == [] then 0 else Sum(counts[..|counts| - 1]) + counts[|counts| - 1]
  }

  /** The running total never decreases. */
  lemma {:induction false} SumMonotone(counts: seq<nat>, i: int, j: int)
    requires 0 <= i <= j <= |counts|
    ensures Sum(counts[..i]) <= Sum(counts[..j])
    decreases j
  {
    if i < j {
      SumMonotone(counts, i, j - 1);
      assert counts[..j][..j - 1] == counts[..j - 1];
    }
  }

  /** The length of each fragment, in order. */
  method FragmentLengths(fragments: seq<seq<char>>) returns (lengths: seq<nat>)
    ensures |lengths| == |fragments|
    ensures forall i :: 0 <= i < |fragments| ==> lengths[i] == |fragments[i]|
  {
    lengths := [];
    for f := 0 to |fragments|
      invariant |lengths| == f
      invariant forall i :: 0 <= i < f ==> lengths[i] == |fragments[i]|
    {
      lengths := lengths + [|fragments[f]|];
    }
  }

  /** The count of one record, starting from 0. */
  method RecordCount(lengths: seq<nat>, opts: Options) returns (recordCount: nat)
    ensures opts.count ==> recordCount == |lengths| * MaxZero(|lengths| - 1)
    ensures !opts.count ==> recordCount == CountInRange(lengths, opts.minlen, opts.maxlen)
  {
    recordCount := 0;
    for i := 0 to |lengths|
      invariant opts.count ==> recordCount == i * MaxZero(|lengths| - 1)
      invariant !opts.count ==> recordCount == CountInRange(lengths[..i], opts.minlen, opts.maxlen)
    {
      var length := lengths[i];
      assert lengths[..i + 1][..i] == lengths[..i];
      if opts.count {
        recordCount := recordCount + MaxZero(|lengths| - 1);
      } else if length > opts.minlen && length < opts.maxlen {
        recordCount := recordCount + 1;
      }
    }
    assert lengths[..|lengths|] == lengths;
  }

  /** The tally over all records: what each record counts for, and the total. */
  method TallyRecords(records: seq<seq<seq<char>>>, opts: Options) returns (count: nat, recordCounts: seq<nat>)
    ensures |recordCounts| == |records|
    ensures forall r :: 0 <= r < |records| ==> recordCounts[r] == RecordTally(records[r], opts)
    ensures count == Sum(recordCounts)
  {
    count := 0;
    recordCounts := [];
    for r := 0 to |records|
      invariant |recordCounts| == r
      invariant forall q :: 0 <= q < r ==> recordCounts[q] == RecordTally(records[q], opts)
      invariant count == Sum(recordCounts)
    {
      var fragments := records[r];
      var fragmentLengths := FragmentLengths(fragments);
      assert fragmentLengths == seq(|fragments|, i requires 0 <= i < |fragments| => |fragments[i]|);
      var recordCount := RecordCount(fragmentLengths, opts);
      count := count + recordCount;
      assert (recordCounts + [recordCount])[..r] == recordCounts;
      recordCounts := recordCounts + [recordCount];
    }
  }
}
