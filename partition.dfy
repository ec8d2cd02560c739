/**
 * Splitting the outcomes for display: `results.filter(r => r.valid)` and
 * `results.filter(r => !r.valid)`.
 */
module Partition {
  import opened CepTypes

  /** The outcomes whose code was found, in their original order. */
  function ValidCeps(results: seq<CepResult>): (valid: seq<CepResult>)
    ensures |valid| <= |results|
    ensures forall k :: 0 <= k < |valid| ==> valid[k].valid
    ensures forall r :: r in valid <==> r in results && r.valid
  {
    if results == [] then []
    else if results[0].valid then [results[0]] + ValidCeps(results[1..])
    else ValidCeps(results[1..])
  }

  /** The outcomes that are malformed or were not found, in their original order. */
  function InvalidCeps(results: seq<CepResult>): (invalid: seq<CepResult>)
    ensures |invalid| <= |results|
    ensures forall k :: 0 <= k < |invalid| ==> !invalid[k].valid
    ensures forall r :: r in invalid <==> r in results && !r.valid
  {
    if results == [] then []
    else if !results[0].valid then [results[0]] + InvalidCeps(results[1..])
    else InvalidCeps(results[1..])
  }

  /** The `valid` flags of the outcomes, position by position. */
  function Flags(results: seq<CepResult>): (flags: seq<bool>)
    ensures |flags| == |results|
    ensures forall i :: 0 <= i < |results| ==> flags[i] == results[i].valid
  {
    seq(|results|, i requires 0 <= i < |results| => results[i].valid)
  }

  /** Interleaves two lists back into one, taking the next element of
      `valid` where the flag is set and of `invalid` where it is not (and
      stopping early if the list it needs has run out). */
  function Merge(flags: seq<bool>, valid: seq<CepResult>, invalid: seq<CepResult>): seq<CepResult>
    decreases |flags|
  {
    if flags == [] then []
    else if flags[0] then
      if valid == [] then [] else [valid[0]] + Merge(flags[1..], valid[1..], invalid)
    else
      if invalid == [] then [] else [invalid[0]] + Merge(flags[1..], valid, invalid[1..])
  }

  /** Nothing is lost, duplicated or moved between the two lists: their
      sizes and contents add up to the outcomes. */
  lemma {:induction false} PartitionCounts(results: seq<CepResult>)
    ensures |ValidCeps(results)| + |InvalidCeps(results)| == |results|
    ensures multiset(ValidCeps(results)) + multiset(InvalidCeps(results)) == multiset(results)
  {
    if results != [] {
      PartitionCounts(results[1..]);
      assert results == [results[0]] + results[1..];
    }
  }

  /** Each list keeps the outcomes' relative order: merging them back by the
      flags gives the outcomes exactly. */
  lemma {:induction false} PartitionRestores(results: seq<CepResult>)
    ensures Merge(Flags(results), ValidCeps(results), InvalidCeps(results)) == results
  {
    if results != [] {
      PartitionRestores(results[1..]);
      assert Flags(results)[1..] == Flags(results[1..]);
      assert results == [results[0]] + results[1..];
    }
  }
}
