/** The cluster's view of its metadata servers: their number and the set of
    their ranks, built the first time it is asked for. The rest of the
    cluster map (object storage placement, hashing of dentries) is not part
    of this model. */
module Cluster {
  import opened Wire

  /** The ranks 0 .. n-1 (none when n is not positive). */
  function Ranks(n: int): (r: set<int>)
    ensures forall i :: i in r <==> 0 <= i < n
    decreases if n > 0 then n else 0
  {
    if n <= 0 then {} else Ranks(n - 1) + {n - 1}
  }

  lemma {:induction false} RanksSize(n: int)
    ensures |Ranks(n)| == if n > 0 then n else 0
    decreases if n > 0 then n else 0
  {
    if n > 0 {
      RanksSize(n - 1);
    }
  }

  /** What get_mds_set leaves in the set: an empty set is filled with the
      ranks, any other set is kept as it is. */
  function FilledSet(s: set<int>, numMds: int): set<int>
  {
    if s == {} then Ranks(numMds) else s
  }

  /** Filling from empty gives exactly num_mds ranks, each in range; a set
      that was not empty is kept even when it disagrees with num_mds; and
      asking again changes nothing. */
  lemma FilledSetSpec(s: set<int>, numMds: int)
    ensures s == {} ==> |FilledSet(s, numMds)| == (if numMds > 0 then numMds else 0)
    ensures s == {} ==> forall i :: i in FilledSet(s, numMds) ==> 0 <= i < numMds
    ensures s != {} ==> FilledSet(s, numMds) == s
    ensures FilledSet(FilledSet(s, numMds), numMds) == FilledSet(s, numMds)
  {
    RanksSize(numMds);
  }

  class MDCluster {
    var numMds: int32
    var numOsd: int32
    var mdsSet: set<int>

    /** The constructor's body is not part of this model; it is taken to
        store the counts and to start with no ranks. */
    constructor (numMds: int32, numOsd: int32)
      ensures this.numMds == numMds && this.numOsd == numOsd && mdsSet == {}
    {
      this.numMds, this.numOsd, mdsSet := numMds, numOsd, {};
    }

    function GetNumMds(): int32
      reads this
    {
      numMds
    }

    /** get_mds_set: inserts 0 .. num_mds-1 one at a time when the set is
        empty, and hands the set back. */
    method GetMdsSet() returns (r: set<int>)
      modifies this`mdsSet
      ensures mdsSet == FilledSet(old(mdsSet), numMds)
      ensures r == mdsSet
    {
      if mdsSet == {} {
        var i := 0;
        while i < numMds
          invariant 0 <= i <= if numMds > 0 then numMds else 0
          invariant mdsSet == Ranks(i)
        {
          mdsSet := mdsSet + {i};
          i := i + 1;
        }
      }
      r := mdsSet;
    }
  }

  /** Two calls in a row return the same set. */
  method AskTwice(c: MDCluster) returns (r1: set<int>, r2: set<int>)
    modifies c
    ensures r1 == r2
  {
    r1 := c.GetMdsSet();
    r2 := c.GetMdsSet();
    FilledSetSpec(old(c.mdsSet), c.numMds);
  }
}
