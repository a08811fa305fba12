/** Round-robin distribution of the shuffled players: `teamCount` empty
    teams are created, then the player at shuffled index `i` is pushed onto
    team `i % teamCount`. */
module RoundRobin {
  import opened Arith

  /** Number of indices below `n` congruent to `j` modulo `k`: the first
      `n % k` teams get one player more than the rest. */
  function TeamSize(n: nat, k: nat, j: nat): nat
    requires k > 0
  {
    n / k + (if j < n % k then 1 else 0)
  }

  /** Round-robin teams of a shuffled list: `k` teams, team `j` as large as
      the number of indices congruent to `j`, and index `i` at position
      `i / k` of team `i % k`. */
  ghost predicate IsRoundRobin<T>(shuffled: seq<T>, k: nat, teams: seq<seq<T>>)
    requires k > 0
  {
    HasRoundRobinSizes(|shuffled|, k, teams) && HasRoundRobinPlacement(shuffled, k, teams)
  }

  ghost predicate HasRoundRobinSizes<T>(n: nat, k: nat, teams: seq<seq<T>>)
    requires k > 0
  {
    |teams| == k && forall j :: 0 <= j < k ==> |teams[j]| == TeamSize(n, k, j)
  }

  ghost predicate HasRoundRobinPlacement<T>(shuffled: seq<T>, k: nat, teams: seq<seq<T>>)
    requires k > 0
  {
    |teams| == k && forall i :: 0 <= i < |shuffled| ==> i / k < |teams[i % k]| && teams[i % k][i / k] == shuffled[i]
  }

  /** `shuffled.forEach((p, i) => teams[i % k].push(p))` starting from `k`
      empty teams, as a left fold over the shuffled list. */
  function Distribute<T>(shuffled: seq<T>, k: nat): (teams: seq<seq<T>>)
    requires k > 0
    ensures |teams| == k
    decreases |shuffled|
  {
    if |shuffled| == 0 then seq(k, _ => [])
    else
      var last := |shuffled| - 1;
      var before := Distribute(shuffled[..last], k);
      var j := last % k;
      before[j := before[j] + [shuffled[last]]]
  }

  /** One more index adds one member to the team it falls into and
      leaves the other teams' sizes alone. */
  lemma TeamSizeStep(n: nat, k: nat, j: nat)
    requires k > 0 && j < k
    ensures TeamSize(n + 1, k, j) == TeamSize(n, k, j) + (if j == n % k then 1 else 0)
    ensures j == n % k ==> TeamSize(n, k, j) == n / k
  {
    DivModSucc(n, k);
  }

  /** Team `j` holds exactly as many players as there are indices
      congruent to `j`. */
  lemma {:induction false} DistributeSize<T>(shuffled: seq<T>, k: nat, j: nat)
    requires k > 0 && j < k
    ensures |Distribute(shuffled, k)[j]| == TeamSize(|shuffled|, k, j)
    decreases |shuffled|
  {
    if |shuffled| > 0 {
      var last := |shuffled| - 1;
      var before := Distribute(shuffled[..last], k);
      assert Distribute(shuffled, k) == before[last % k := before[last % k] + [shuffled[last]]];
      DistributeSize(shuffled[..last], k, j);
      TeamSizeStep(last, k, j);
    }
  }

  /** Index `i` ends up at position `i / k` of team `i % k`. */
  lemma {:induction false} DistributeAt<T>(shuffled: seq<T>, k: nat, i: nat)
    requires k > 0 && i < |shuffled|
    ensures i / k < |Distribute(shuffled, k)[i % k]| && Distribute(shuffled, k)[i % k][i / k] == shuffled[i]
    decreases |shuffled|
  {
    var last := |shuffled| - 1;
    var init := shuffled[..last];
    var before := Distribute(init, k);
    var j := last % k;
    assert Distribute(shuffled, k) == before[j := before[j] + [shuffled[last]]];
    DistributeSize(init, k, j);
    TeamSizeStep(last, k, j);
    if i < last {
      DistributeAt(init, k, i);
      assert init[i] == shuffled[i];
    }
    PushKeepsPlacement(before, Distribute(shuffled, k), shuffled, k, i);
  }

  /** Pushing the last player onto team `last % k` keeps every earlier
      player's place and puts the new one right after the team's end. */
  lemma PushKeepsPlacement<T>(before: seq<seq<T>>, teams: seq<seq<T>>, shuffled: seq<T>, k: nat, i: nat)
    requires k > 0 && |before| == k && |shuffled| > 0
    requires teams == before[(|shuffled| - 1) % k := before[(|shuffled| - 1) % k] + [shuffled[|shuffled| - 1]]]
    requires |before[(|shuffled| - 1) % k]| == (|shuffled| - 1) / k
    requires i < |shuffled|
    requires i < |shuffled| - 1 ==> i / k < |before[i % k]| && before[i % k][i / k] == shuffled[i]
    ensures i / k < |teams[i % k]| && teams[i % k][i / k] == shuffled[i]
  {
  }

  /** Every team of `Distribute` has its round-robin size. */
  lemma DistributeSizes<T>(shuffled: seq<T>, k: nat)
    requires k > 0
    ensures HasRoundRobinSizes(|shuffled|, k, Distribute(shuffled, k))
  {
    var teams := Distribute(shuffled, k);
    forall j | 0 <= j < k
      ensures |teams[j]| == TeamSize(|shuffled|, k, j)
    {
      DistributeSize(shuffled, k, j);
    }
  }

  /** Every player of `Distribute` sits at its round-robin position. */
  lemma DistributePlacement<T>(shuffled: seq<T>, k: nat)
    requires k > 0
    ensures HasRoundRobinPlacement(shuffled, k, Distribute(shuffled, k))
  {
    var teams := Distribute(shuffled, k);
    forall i | 0 <= i < |shuffled|
      ensures i / k < |teams[i % k]| && teams[i % k][i / k] == shuffled[i]
    {
      DistributeAt(shuffled, k, i);
    }
  }

  /** `Distribute` deals round-robin. */
  lemma DistributeShape<T>(shuffled: seq<T>, k: nat)
    requires k > 0
    ensures IsRoundRobin(shuffled, k, Distribute(shuffled, k))
  {
    DistributeSizes(shuffled, k);
    DistributePlacement(shuffled, k);
  }

  /** In round-robin teams, position `m` of team `j` holds shuffled index
      `j + m * k`. */
  lemma TeamSlot<T>(shuffled: seq<T>, k: nat, teams: seq<seq<T>>, j: nat, m: nat)
    requires k > 0
    requires IsRoundRobin(shuffled, k, teams)
    requires j < k && m < |teams[j]|
    ensures j + m * k < |shuffled| && teams[j][m] == shuffled[j + m * k]
  {
    BucketIndexBound(|shuffled|, k, j, m);
    BucketIndex(j, m, k);
    var i := j + m * k;
    assert teams[i % k][i / k] == shuffled[i];
  }

  /** These sizes and placements determine the teams completely. */
  lemma RoundRobinUnique<T>(shuffled: seq<T>, k: nat, teams: seq<seq<T>>)
    requires k > 0
    requires IsRoundRobin(shuffled, k, teams)
    ensures teams == Distribute(shuffled, k)
  {
    var other := Distribute(shuffled, k);
    DistributeShape(shuffled, k);
    forall j | 0 <= j < k
      ensures teams[j] == other[j]
    {
      forall m | 0 <= m < |teams[j]|
        ensures teams[j][m] == other[j][m]
      {
        TeamSlot(shuffled, k, teams, j, m);
        TeamSlot(shuffled, k, other, j, m);
      }
    }
  }

  /** All teams, one after the other. */
  function Flatten<T>(teams: seq<seq<T>>): seq<T> {
    if |teams| == 0 then [] else teams[0] + Flatten(teams[1..])
  }

  lemma {:induction false} FlattenAllEmpty<T>(teams: seq<seq<T>>)
    requires forall j :: 0 <= j < |teams| ==> teams[j] == []
    ensures Flatten(teams) == []
    decreases |teams|
  {
    if |teams| > 0 {
      FlattenAllEmpty(teams[1..]);
    }
  }

  /** Pushing one player onto one team adds exactly that player. */
  lemma {:induction false} FlattenPush<T>(teams: seq<seq<T>>, j: nat, x: T)
    requires j < |teams|
    ensures multiset(Flatten(teams[j := teams[j] + [x]])) == multiset(Flatten(teams)) + multiset{x}
    decreases |teams|
  {
    var pushed := teams[j := teams[j] + [x]];
    if j == 0 {
      assert pushed[1..] == teams[1..];
    } else {
      FlattenPush(teams[1..], j - 1, x);
      assert pushed[1..] == teams[1..][j - 1 := teams[j] + [x]];
    }
  }

  /** No player is lost or duplicated: the teams together hold the same
      multiset of names as the shuffled list. */
  lemma {:induction false} DistributeKeepsEveryPlayer<T>(shuffled: seq<T>, k: nat)
    requires k > 0
    ensures multiset(Flatten(Distribute(shuffled, k))) == multiset(shuffled)
    decreases |shuffled|
  {
    if |shuffled| == 0 {
      FlattenAllEmpty(Distribute(shuffled, k));
    } else {
      var last := |shuffled| - 1;
      var init := shuffled[..last];
      var before := Distribute(init, k);
      DistributeKeepsEveryPlayer(init, k);
      FlattenPush(before, last % k, shuffled[last]);
      assert shuffled == init + [shuffled[last]];
    }
  }

  /** Position `m` of team `j` holds shuffled index `j + m * k`: within a
      team the players keep their shuffled order. */
  lemma DistributeTeamContents<T>(shuffled: seq<T>, k: nat, j: nat, m: nat)
    requires k > 0
    requires j < k && m < |Distribute(shuffled, k)[j]|
    ensures j + m * k < |shuffled| && Distribute(shuffled, k)[j][m] == shuffled[j + m * k]
  {
    DistributeShape(shuffled, k);
    TeamSlot(shuffled, k, Distribute(shuffled, k), j, m);
  }

  /** Team sizes differ by at most one, earlier teams are never smaller,
      and when there are at least as many players as teams none is empty. */
  lemma DistributeBalanced<T>(shuffled: seq<T>, k: nat)
    requires k > 0
    ensures forall a, b :: 0 <= a < b < k ==>
              |Distribute(shuffled, k)[b]| <= |Distribute(shuffled, k)[a]| <= |Distribute(shuffled, k)[b]| + 1
    ensures |shuffled| >= k ==> forall j :: 0 <= j < k ==> |Distribute(shuffled, k)[j]| >= 1
  {
    DistributeShape(shuffled, k);
    if |shuffled| >= k {
      QuotientAtLeastOne(|shuffled|, k);
    }
  }
}
