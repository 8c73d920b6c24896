/** The distribution of the runnable tests over shards, as `FilterTests` makes it. */
module Shardings {
  import opened Residues

  /** The protocol in force: none, or the shards of the environment variables. */
  datatype Sharding = Ignore | Honor(totalShards: nat, shardIndex: nat) {
    predicate Valid() {
      Honor? ==> shardIndex < totalShards
    }

    /** Whether this process runs the runnable test of that number. */
    predicate Takes(testId: nat)
      requires Valid()
    {
      Ignore? || ShouldRunTestOnShard(totalShards, shardIndex, testId)
    }
  }

  predicate ShouldRunTestOnShard(totalShards: nat, shardIndex: nat, testId: nat)
    requires totalShards > 0
  {
    testId % totalShards == shardIndex
  }

  /** How many of the first `k` flags are set. */
  function Rank(flags: seq<bool>, k: nat): nat
    requires k <= |flags|
  {
    if k == 0 then 0 else Rank(flags, k - 1) + if flags[k - 1] then 1 else 0
  }

  function Count(flags: seq<bool>): nat {
    Rank(flags, |flags|)
  }

  /** Test number `k` is selected: it is runnable, and its number among the runnable tests
      falls to this shard. */
  predicate Selected(runnable: seq<bool>, sharding: Sharding, k: nat)
    requires sharding.Valid() && k < |runnable|
  {
    runnable[k] && sharding.Takes(Rank(runnable, k))
  }

  function Selection(runnable: seq<bool>, sharding: Sharding): (selection: seq<bool>)
    requires sharding.Valid()
    ensures |selection| == |runnable|
  {
    seq(|runnable|, k requires 0 <= k < |runnable| => Selected(runnable, sharding, k))
  }

  /** `id` is the number of the shard, or one of every n-th number after it. */
  ghost predicate IsTurnOf(id: nat, n: nat, shard: nat) {
    exists round: nat :: id == round * n + shard
  }

  lemma IsTurnIff(id: nat, n: nat, shard: nat)
    requires shard < n
    ensures id % n == shard <==> IsTurnOf(id, n, shard)
  {
    DivModParts(id, n);
    if id % n == shard {
      var round: nat := id / n;
      assert id == round * n + shard;
    }
    if round: nat :| id == round * n + shard {
      DivModUnique(id, n, round, shard);
    }
  }

  /** A shard takes every n-th runnable test, from the number of the shard on; without
      sharding every runnable test is taken. */
  lemma SelectedIff(runnable: seq<bool>, n: nat, shard: nat, k: nat)
    requires shard < n && k < |runnable|
    ensures Selected(runnable, Honor(n, shard), k) <==> runnable[k] && IsTurnOf(Rank(runnable, k), n, shard)
    ensures Selected(runnable, Ignore, k) <==> runnable[k]
  {
    hide IsTurnOf, Rank;
    IsTurnIff(Rank(runnable, k), n, shard);
  }

  /** Every runnable test is selected on exactly one shard; no other test is, on any. */
  lemma ShardsPartitionTheRunnableTests(runnable: seq<bool>, totalShards: nat, k: nat)
    requires totalShards > 0 && k < |runnable|
    ensures Selected(runnable, Ignore, k) <==>
            exists shard: nat :: shard < totalShards && Selected(runnable, Honor(totalShards, shard), k)
    ensures forall s1: nat, s2: nat ::
              s1 < totalShards && s2 < totalShards
              && Selected(runnable, Honor(totalShards, s1), k) && Selected(runnable, Honor(totalShards, s2), k)
              ==> s1 == s2
  {
    if Selected(runnable, Ignore, k) {
      var shard: nat := Rank(runnable, k) % totalShards;
      assert Selected(runnable, Honor(totalShards, shard), k);
    }
  }

  /** Of the first `k` tests, a shard selects as many as there are numbers of runnable tests
      that fall to it. */
  lemma {:induction false} SelectedOnAShard(runnable: seq<bool>, totalShards: nat, shard: nat, k: nat)
    requires shard < totalShards && k <= |runnable|
    ensures Rank(Selection(runnable, Honor(totalShards, shard)), k)
            == CountResidue(Rank(runnable, k), totalShards, shard)
    decreases k
  {
    if k > 0 {
      var sharding := Honor(totalShards, shard);
      SelectedOnAShard(runnable, totalShards, shard, k - 1);
      assert Selection(runnable, sharding)[k - 1] == Selected(runnable, sharding, k - 1);
    }
  }

  /** Each shard selects its share of the runnable tests, rounded down or up, so that the
      sizes of two shards differ by at most one. */
  lemma ShardsAreBalanced(runnable: seq<bool>, totalShards: nat, s1: nat, s2: nat)
    requires s1 < totalShards && s2 < totalShards
    ensures var share := Count(runnable) / totalShards;
            share <= Count(Selection(runnable, Honor(totalShards, s1))) <= share + 1
    ensures -1 <= Count(Selection(runnable, Honor(totalShards, s1)))
                  - Count(Selection(runnable, Honor(totalShards, s2))) <= 1
  {
    SelectedOnAShard(runnable, totalShards, s1, |runnable|);
    SelectedOnAShard(runnable, totalShards, s2, |runnable|);
    CountResidueFormula(Count(runnable), totalShards, s1);
    CountResidueFormula(Count(runnable), totalShards, s2);
  }
}
