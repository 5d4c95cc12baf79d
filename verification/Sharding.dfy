// Chunk counting and the balance test of shardingtest.js.
module Sharding {
  import opened Arithmetic

  // A document of config.chunks.
  datatype Chunk = Chunk(ns: string, shard: string)

  // The chunks of ns on a shard.
  function On(chunks: seq<Chunk>, ns: string, shard: string): nat {
    if chunks == [] then 0
    else
      var last := chunks[|chunks| - 1];
      On(chunks[..|chunks| - 1], ns, shard) + if last.ns == ns && last.shard == shard then 1 else 0
  }

  // The chunks of ns.
  function Of(chunks: seq<Chunk>, ns: string): nat {
    if chunks == [] then 0
    else Of(chunks[..|chunks| - 1], ns) + if chunks[|chunks| - 1].ns == ns then 1 else 0
  }

  // One count for each listed shard and for each shard that has a chunk, and each count right.
  ghost predicate Counts(shards: seq<string>, chunks: seq<Chunk>, ns: string, c: map<string, nat>) {
    && (forall s :: s in c <==> s in shards || On(chunks, ns, s) > 0)
    && (forall s :: s in c ==> c[s] == On(chunks, ns, s))
  }

  ghost function Sum(c: map<string, nat>): nat
    decreases |c|
  {
    if c.Keys == {} then 0
    else
      var k :| k in c.Keys;
      c[k] + Sum(c - {k})
  }

  // The key taken first does not matter.
  lemma {:induction false} SumAt(c: map<string, nat>, k: string)
    requires k in c
    ensures Sum(c) == c[k] + Sum(c - {k})
    decreases |c|
  {
    var j :| j in c.Keys && Sum(c) == c[j] + Sum(c - {j});
    if j != k {
      SumAt(c - {j}, k);
      SumAt(c - {k}, j);
      assert c - {j} - {k} == c - {k} - {j};
    }
  }

  lemma SumPut(c: map<string, nat>, k: string, n: nat)
    ensures Sum(c[k := n]) == n + Sum(c - {k})
    ensures k in c ==> Sum(c[k := n]) == Sum(c) - c[k] + n
  {
    SumAt(c[k := n], k);
    assert c[k := n] - {k} == c - {k};
    if k in c {
      SumAt(c, k);
    } else {
      assert c - {k} == c;
    }
  }

  lemma {:induction false} SumBounds(c: map<string, nat>, lo: nat, hi: nat)
    ensures (forall k :: k in c ==> lo <= c[k]) ==> |c| * lo <= Sum(c)
    ensures (forall k :: k in c ==> c[k] <= hi) ==> Sum(c) <= |c| * hi
    decreases |c|
  {
    if c.Keys != {} {
      var k :| k in c.Keys;
      SumAt(c, k);
      var rest := c - {k};
      assert rest.Keys == c.Keys - {k};
      SumBounds(rest, lo, hi);
      OneMoreTime(|rest|, lo);
      OneMoreTime(|rest|, hi);
    }
  }

  // No chunk is lost or counted twice.
  lemma {:induction false} Conserved(shards: seq<string>, chunks: seq<Chunk>, ns: string, c: map<string, nat>)
    requires Counts(shards, chunks, ns, c)
    ensures Sum(c) == Of(chunks, ns)
  {
    if chunks == [] {
      SumBounds(c, 0, 0);
    } else {
      var front, z := chunks[..|chunks| - 1], chunks[|chunks| - 1];
      if z.ns != ns {
        Conserved(shards, front, ns, c);
      } else if On(front, ns, z.shard) > 0 || z.shard in shards {
        SumPut(c, z.shard, c[z.shard] - 1);
        Conserved(shards, front, ns, c[z.shard := c[z.shard] - 1]);
      } else {
        SumAt(c, z.shard);
        Conserved(shards, front, ns, c - {z.shard});
      }
    }
  }

  lemma OnSnoc(chunks: seq<Chunk>, i: nat, ns: string)
    requires i < |chunks|
    ensures forall s ::
      On(chunks[..i + 1], ns, s) == On(chunks[..i], ns, s) + (if chunks[i] == Chunk(ns, s) then 1 else 0)
  {
    assert chunks[..i + 1][..i] == chunks[..i];
  }

  method ChunkCounts(shards: seq<string>, chunks: seq<Chunk>, ns: string) returns (x: map<string, nat>)
    ensures Counts(shards, chunks, ns, x)
  {
    x := map[];
    assert forall s :: On([], ns, s) == 0;
    hide On;
    for i := 0 to |shards|
      invariant forall s :: s in x <==> s in shards[..i]
      invariant forall s :: s in x ==> x[s] == 0
    {
      x := x[shards[i] := 0];
    }
    assert shards[..|shards|] == shards && chunks[..0] == [];
    for i := 0 to |chunks|
      invariant Counts(shards, chunks[..i], ns, x)
    {
      var z := chunks[i];
      OnSnoc(chunks, i, ns);
      if z.ns == ns {
        if z.shard in x && x[z.shard] != 0 {
          x := x[z.shard := x[z.shard] + 1];
        } else {
          x := x[z.shard := 1];
        }
      }
    }
    assert chunks[..|chunks|] == chunks;
  }

  // ---- The balance test ----

  // What chunkDiff finds: its minimum starts at 100000000, its maximum at 0.
  ghost predicate Extremes(c: map<string, nat>, min: nat, max: nat) {
    && min <= 100000000
    && (forall k :: k in c ==> min <= c[k] <= max)
    && (min == 100000000 || exists k :: k in c && c[k] == min)
    && (max == 0 || exists k :: k in c && c[k] == max)
  }

  method ChunkDiff(shards: seq<string>, chunks: seq<Chunk>, ns: string)
    returns (diff: int, ghost c: map<string, nat>, ghost min: nat, ghost max: nat)
    ensures Counts(shards, chunks, ns, c) && Extremes(c, min, max) && diff == max - min
  {
    var x := ChunkCounts(shards, chunks, ns);
    var lo: nat, hi: nat := 100000000, 0;
    var left := x.Keys;
    while left != {}
      invariant left <= x.Keys
      invariant lo <= 100000000 && forall k :: k in x && k !in left ==> lo <= x[k] <= hi
      invariant lo == 100000000 || exists k :: k in x && x[k] == lo
      invariant hi == 0 || exists k :: k in x && x[k] == hi
      decreases left
    {
      var s :| s in left;
      left := left - {s};
      if x[s] < lo {
        lo := x[s];
      }
      if x[s] > hi {
        hi := x[s];
      }
    }
    c, min, max := x, lo, hi;
    diff := hi - lo;
  }

  // The difference is that of the largest and the smallest count, if and only if some count is at most
  // 100000000.
  lemma SpreadIff(c: map<string, nat>, min: nat, max: nat)
    requires |c| > 0 && Extremes(c, min, max)
    ensures (exists j :: j in c && c[j] == min) && (exists k :: k in c && c[k] == max)
      <==> exists j :: j in c && c[j] <= 100000000
  {
    var k :| k in c.Keys;
    assert min <= c[k] <= max;
  }

  // Each shard has the N chunks shared out evenly, rounded down or up.
  ghost predicate Balanced(c: map<string, nat>)
    requires |c| > 0
  {
    forall k :: k in c ==> c[k] == Sum(c) / |c| || c[k] == (Sum(c) + |c| - 1) / |c|
  }

  // The test passes if and only if the chunks are shared out evenly and no shard has more than
  // 100000001 of them.
  lemma BalanceIff(c: map<string, nat>, min: nat, max: nat)
    requires |c| > 0 && Extremes(c, min, max)
    ensures max - min < 2 <==> Balanced(c) && forall k :: k in c ==> c[k] <= 100000001
  {
    hide Sum;
    var k :| k in c.Keys;
    if max - min < 2 {
      if j :| j in c && c[j] == min {
        EvenShares(c, min, j);
      } else {
        EvenShares(c, max, k);
      }
    } else if Balanced(c) {
      Rounding(|c|, Sum(c));
    }
  }

  lemma EvenShares(c: map<string, nat>, m: nat, j: string)
    requires j in c && c[j] == m && forall k :: k in c ==> m <= c[k] <= m + 1
    ensures |c| > 0 && Balanced(c)
  {
    hide Sum;
    assert |c| > 0;
    SumBounds(c, m, 0);
    SumBelow(c, m + 1, j);
    Commute(|c|, m + 1);
    OneMoreTime(m, |c|);
    Commute(|c|, m);
    Shares(|c|, Sum(c), m);
    forall k | k in c
      ensures c[k] == Sum(c) / |c| || c[k] == (Sum(c) + |c| - 1) / |c|
    {
      if c[k] > m {
        SumAbove(c, m, k);
      }
    }
  }

  // A sum from n * m up to below n * m + n has m, and m or m + 1, as its shares.
  lemma Shares(n: nat, sum: nat, m: nat)
    requires n > 0 && n * m <= sum < n * m + n
    ensures sum / n == m
    ensures (sum + n - 1) / n == if sum == n * m then m else m + 1
  {
    Quotient(n, sum, m);
    if sum == n * m {
      Quotient(n, sum + n - 1, m);
    } else {
      OneMoreTime(m, n);
      Commute(n, m);
      Commute(n, m + 1);
      Quotient(n, sum + n - 1, m + 1);
    }
  }

  lemma Rounding(n: nat, sum: nat)
    requires n > 0
    ensures sum / n <= (sum + n - 1) / n <= sum / n + 1
  {
    var q := sum / n;
    assert sum == n * q + sum % n;
    Shares(n, sum, q);
  }

  lemma SumAbove(c: map<string, nat>, lo: nat, k: string)
    requires k in c && c[k] > lo && forall j :: j in c ==> lo <= c[j]
    ensures Sum(c) > |c| * lo
  {
    var rest := c - {k};
    SumAt(c, k);
    assert rest.Keys == c.Keys - {k};
    SumBounds(rest, lo, 0);
    OneMoreTime(|rest|, lo);
  }

  lemma SumBelow(c: map<string, nat>, hi: nat, k: string)
    requires k in c && c[k] < hi && forall j :: j in c ==> c[j] <= hi
    ensures Sum(c) < |c| * hi
  {
    var rest := c - {k};
    SumAt(c, k);
    assert rest.Keys == c.Keys - {k};
    SumBounds(rest, 0, hi);
    OneMoreTime(|rest|, hi);
  }

  // The test that awaitBalance repeats.
  method IsBalanced(shards: seq<string>, chunks: seq<Chunk>, ns: string) returns (ok: bool, ghost c: map<string, nat>)
    ensures Counts(shards, chunks, ns, c)
    ensures |c| > 0 ==> (ok <==> Balanced(c) && forall k :: k in c ==> c[k] <= 100000001)
    ensures |c| == 0 ==> ok
  {
    var x, counts, min, max := ChunkDiff(shards, chunks, ns);
    c := counts;
    if |c| > 0 {
      BalanceIff(c, min, max);
    } else {
      assert forall k :: k !in c;
    }
    ok := x < 2;
  }
}
