/** `generate_branches` of netlab/topology.py, and the trees its results induce. */
module Layouts {
  import opened Arithmetic
  import opened Branches

  datatype Mode = Chain | Parallel | Forest | Manual

  // ---------------------------------------------------------------- dealing relays out in turn

  /** The bucket a relay goes to. */
  function Turn(v: nat, first: nat, b: nat): nat
    requires b > 0 && v >= first
  {
    (v - first) % b
  }

  ghost predicate Increasing(bucket: seq<nat>) {
    forall i, j :: 0 <= i < j < |bucket| ==> bucket[i] < bucket[j]
  }

  /** The bucket holds relays dealt so far whose turn it was, in order. */
  ghost predicate Bucket(bucket: seq<nat>, first: nat, count: nat, b: nat, j: nat)
    requires b > 0
  {
    && Increasing(bucket)
    && forall k :: 0 <= k < |bucket| ==> first <= bucket[k] < first + count && Turn(bucket[k], first, b) == j
  }

  /** A dealt relay is in the bucket whose turn it was. */
  ghost predicate Found(buckets: seq<seq<nat>>, first: nat, b: nat, v: nat)
    requires |buckets| == b > 0 && v >= first
  {
    Turn(v, first, b) < b && v in buckets[Turn(v, first, b)]
  }

  ghost predicate Rounds(count: nat, b: nat, q: nat, r: nat) {
    r < b && count == q * b + r
  }

  /** The k-th relay of the j-th bucket was dealt in the k-th round. */
  ghost predicate InTurn(buckets: seq<seq<nat>>, first: nat, b: nat) {
    forall j, k :: 0 <= j < |buckets| && 0 <= k < |buckets[j]| ==> buckets[j][k] == first + j + k * b
  }

  /** The relays first, first + 1, ... have been dealt to b buckets in turn; q rounds are complete and r buckets have
      one more. */
  ghost predicate Dealt(buckets: seq<seq<nat>>, first: nat, count: nat, b: nat, q: nat, r: nat) {
    && |buckets| == b > 0 && Rounds(count, b, q, r) && InTurn(buckets, first, b)
    && (forall j :: 0 <= j < b ==> Bucket(buckets[j], first, count, b, j))
    && (forall v {:trigger Found(buckets, first, b, v)} :: first <= v < first + count ==> Found(buckets, first, b, v))
    && (forall j :: 0 <= j < b ==> |buckets[j]| == if j < r then q + 1 else q)
  }

  lemma TurnIs(first: nat, count: nat, b: nat, q: nat, r: nat)
    requires b > 0 && r < b && count == q * b + r
    ensures Turn(first + count, first, b) == r
  {
    DivisionUnique(count, q, r, b);
  }

  lemma RoundsMore(count: nat, b: nat, q: nat, r: nat)
    requires Rounds(count, b, q, r)
    ensures if r + 1 == b then Rounds(count + 1, b, q + 1, 0) else Rounds(count + 1, b, q, r + 1)
  {
    assert (q + 1) * b == q * b + b;
  }

  lemma BucketMore(bucket: seq<nat>, first: nat, count: nat, b: nat, j: nat)
    requires b > 0 && Bucket(bucket, first, count, b, j)
    ensures Bucket(bucket, first, count + 1, b, j)
    ensures Turn(first + count, first, b) == j ==> Bucket(bucket + [first + count], first, count + 1, b, j)
  {
  }

  lemma FoundMore(buckets: seq<seq<nat>>, first: nat, count: nat, b: nat, r: nat, v: nat)
    requires |buckets| == b > 0 && r < b && first <= v && Turn(first + count, first, b) == r
    requires v == first + count || Found(buckets, first, b, v)
    ensures Found(buckets[r := buckets[r] + [first + count]], first, b, v)
  {
    var more := buckets[r := buckets[r] + [first + count]];
    if v == first + count {
      assert more[r][|buckets[r]|] == v;
    } else {
      var j := Turn(v, first, b);
      var k :| 0 <= k < |buckets[j]| && buckets[j][k] == v;
      assert more[j][k] == v;
    }
  }

  lemma DealOne(buckets: seq<seq<nat>>, first: nat, count: nat, b: nat, q: nat, r: nat)
    requires Dealt(buckets, first, count, b, q, r)
    ensures Turn(first + count, first, b) == r
    ensures var more := buckets[r := buckets[r] + [first + count]];
            if r + 1 == b then Dealt(more, first, count + 1, b, q + 1, 0) else Dealt(more, first, count + 1, b, q, r + 1)
  {
    TurnIs(first, count, b, q, r);
    RoundsMore(count, b, q, r);
    var more := buckets[r := buckets[r] + [first + count]];
    forall j | 0 <= j < b ensures Bucket(more[j], first, count + 1, b, j) {
      BucketMore(buckets[j], first, count, b, j);
    }
    forall v | first <= v < first + count + 1 ensures Found(more, first, b, v) {
      FoundMore(buckets, first, count, b, r, v);
    }
  }

  /** `for offset, idx in enumerate(...): buckets[offset % b].append(idx)` */
  method Deal(first: nat, count: nat, b: nat) returns (buckets: seq<seq<nat>>, ghost q: nat, ghost r: nat)
    requires b > 0
    ensures Dealt(buckets, first, count, b, q, r)
  {
    buckets := seq(b, _ => []);
    q, r := 0, 0;
    for offset := 0 to count
      invariant Dealt(buckets, first, offset, b, q, r)
    {
      DealOne(buckets, first, offset, b, q, r);
      var turn := offset % b;
      buckets := buckets[turn := buckets[turn] + [first + offset]];
      if r + 1 == b {
        q, r := q + 1, 0;
      } else {
        r := r + 1;
      }
    }
  }

  // ---------------------------------------------------------------- layouts

  ghost predicate OccursAt(branches: seq<seq<nat>>, v: nat, i: int, k: int) {
    0 <= i < |branches| && 0 <= k < |branches[i]| && branches[i][k] == v
  }

  ghost predicate Occurs(branches: seq<seq<nat>>, v: nat) {
    exists i, k :: OccursAt(branches, v, i, k)
  }

  /** Two places hold the same relay only when both are the first of their branch, or the same place. */
  ghost predicate SamePlace(branches: seq<seq<nat>>, i: int, k: int, j: int, l: int)
    requires 0 <= i < |branches| && 0 <= k < |branches[i]| && 0 <= j < |branches| && 0 <= l < |branches[j]|
  {
    branches[i][k] == branches[j][l] ==> (k == 0 && l == 0) || (i == j && k == l)
  }

  /** Every relay 1 to n is laid out, nothing else is, and only first relays are shared. */
  ghost predicate Layout(branches: seq<seq<nat>>, n: nat) {
    && (forall b :: b in branches ==> CleanBranch(b, n))
    && (forall v :: 1 <= v <= n ==> Occurs(branches, v))
    && (forall i, k, j, l {:trigger SamePlace(branches, i, k, j, l)} ::
          0 <= i < |branches| && 0 <= k < |branches[i]| && 0 <= j < |branches| && 0 <= l < |branches[j]| ==>
            SamePlace(branches, i, k, j, l))
  }

  /** No two branches begin with the same relay. */
  ghost predicate OwnHeads(branches: seq<seq<nat>>) {
    forall i, j :: 0 <= i < j < |branches| && branches[i] != [] && branches[j] != [] ==> branches[i][0] != branches[j][0]
  }

  lemma OneBranchLayout(branch: seq<nat>, n: nat)
    requires n >= 1 && |branch| == n && forall k :: 0 <= k < n ==> branch[k] == k + 1
    ensures Layout([branch], n) && OwnHeads([branch])
  {
    forall v | 1 <= v <= n ensures Occurs([branch], v) {
      assert OccursAt([branch], v, 0, v - 1);
    }
    assert branch != [];
    forall b | b in [branch] ensures CleanBranch(b, n) { }
  }

  /** A relay in two buckets of a deal is at one place. */
  lemma DealtPlaces(buckets: seq<seq<nat>>, first: nat, count: nat, b: nat, q: nat, r: nat, i: nat, k: nat, j: nat, l: nat)
    requires Dealt(buckets, first, count, b, q, r)
    requires i < b && j < b && k < |buckets[i]| && l < |buckets[j]| && buckets[i][k] == buckets[j][l]
    ensures i == j && k == l
  {
    assert Bucket(buckets[i], first, count, b, i) && Bucket(buckets[j], first, count, b, j);
    assert Turn(buckets[i][k], first, b) == i && Turn(buckets[j][l], first, b) == j;
  }

  lemma HeadsApart(x: seq<nat>, y: seq<nat>, n: nat, b: nat, i: nat, j: nat)
    requires b > 0 && i != j && x != [] && y != [] && Bucket(x, 1, n, b, i) && Bucket(y, 1, n, b, j)
    ensures x[0] != y[0]
  {
    assert Turn(x[0], 1, b) == i && Turn(y[0], 1, b) == j;
  }

  lemma DealtOccurs(buckets: seq<seq<nat>>, first: nat, count: nat, b: nat, q: nat, r: nat, v: nat) returns (j: nat, k: nat)
    requires Dealt(buckets, first, count, b, q, r) && first <= v < first + count
    ensures OccursAt(buckets, v, j, k)
  {
    assert Found(buckets, first, b, v);
    j := Turn(v, first, b);
    k :| 0 <= k < |buckets[j]| && buckets[j][k] == v;
  }

  lemma EnoughForAll(n: nat, b: nat, q: nat, r: nat)
    requires Rounds(n, b, q, r) && b <= n
    ensures q >= 1
  {
    assert 0 * b == 0;
  }

  lemma DealtClean(bucket: seq<nat>, n: nat, b: nat, j: nat)
    requires b > 0 && Bucket(bucket, 1, n, b, j) && bucket != []
    ensures CleanBranch(bucket, n)
  {
  }

  /** Relays dealt to b <= n buckets in turn. */
  lemma DealtLayout(buckets: seq<seq<nat>>, n: nat, b: nat, q: nat, r: nat)
    requires Dealt(buckets, 1, n, b, q, r) && b <= n
    ensures Layout(buckets, n) && OwnHeads(buckets)
    ensures InTurn(buckets, 1, b) && forall x :: x in buckets ==> x != []
    ensures forall i, j :: 0 <= i < b && 0 <= j < b ==> |buckets[i]| <= |buckets[j]| + 1
  {
    EnoughForAll(n, b, q, r);
    forall x | x in buckets ensures CleanBranch(x, n) {
      var j :| 0 <= j < b && buckets[j] == x;
      DealtClean(x, n, b, j);
    }
    forall v | 1 <= v <= n ensures Occurs(buckets, v) {
      var j, k := DealtOccurs(buckets, 1, n, b, q, r, v);
    }
    forall i, k, j, l | 0 <= i < b && 0 <= k < |buckets[i]| && 0 <= j < b && 0 <= l < |buckets[j]|
      ensures SamePlace(buckets, i, k, j, l)
    {
      if buckets[i][k] == buckets[j][l] {
        DealtPlaces(buckets, 1, n, b, q, r, i, k, j, l);
      }
    }
    forall i, j | 0 <= i < j < b && buckets[i] != [] && buckets[j] != [] ensures buckets[i][0] != buckets[j][0] {
      HeadsApart(buckets[i], buckets[j], n, b, i, j);
    }
  }

  /** [1 + (i % roots)] + buckets[i] */
  function Rooted(buckets: seq<seq<nat>>, roots: nat): seq<seq<nat>>
    requires roots > 0
  {
    seq(|buckets|, i requires 0 <= i < |buckets| => [1 + i % roots] + buckets[i])
  }

  lemma RootRange(i: nat, roots: nat)
    requires roots > 0
    ensures 0 <= i % roots < roots && (i < roots ==> i % roots == i)
  {
  }

  lemma RootedClean(bucket: seq<nat>, n: nat, b: nat, i: nat, roots: nat)
    requires b > 0 && 1 <= roots <= n && Bucket(bucket, roots + 1, n - roots, b, i)
    ensures CleanBranch([1 + i % roots] + bucket, n) && 1 <= 1 + i % roots <= roots
  {
    RootRange(i, roots);
    var branch := [1 + i % roots] + bucket;
    assert forall k :: 1 <= k < |branch| ==> branch[k] == bucket[k-1];
  }

  /** Every root heads the branches that take their turn at it, the other relays follow. */
  lemma RootedLayout(buckets: seq<seq<nat>>, n: nat, b: nat, roots: nat, q: nat, r: nat)
    requires 1 <= roots <= b && roots <= n && Dealt(buckets, roots + 1, n - roots, b, q, r)
    ensures Layout(Rooted(buckets, roots), n) && |Rooted(buckets, roots)| == b
    ensures forall x :: x in Rooted(buckets, roots) ==> x != []
    ensures OwnHeads(Rooted(buckets, roots)) <==> roots == b
  {
    var branches := Rooted(buckets, roots);
    forall i | 0 <= i < b ensures CleanBranch(branches[i], n) && 1 <= branches[i][0] <= roots {
      RootedClean(buckets[i], n, b, i, roots);
    }
    forall x | x in branches ensures CleanBranch(x, n) { }
    forall v | 1 <= v <= n ensures Occurs(branches, v) {
      if v <= roots {
        RootRange(v - 1, roots);
        assert OccursAt(branches, v, v - 1, 0);
      } else {
        var j, k := DealtOccurs(buckets, roots + 1, n - roots, b, q, r, v);
        assert OccursAt(branches, v, j, k + 1);
      }
    }
    forall i, k, j, l | 0 <= i < b && 0 <= k < |branches[i]| && 0 <= j < b && 0 <= l < |branches[j]|
      ensures SamePlace(branches, i, k, j, l)
    {
      RootedPlaces(buckets, n, b, roots, q, r, i, k, j, l);
    }
    RootedHeads(buckets, b, roots);
  }

  lemma RootedPlaces(buckets: seq<seq<nat>>, n: nat, b: nat, roots: nat, q: nat, r: nat, i: nat, k: nat, j: nat, l: nat)
    requires 1 <= roots <= b && roots <= n && Dealt(buckets, roots + 1, n - roots, b, q, r)
    requires i < b && j < b && k < |Rooted(buckets, roots)[i]| && l < |Rooted(buckets, roots)[j]|
    ensures SamePlace(Rooted(buckets, roots), i, k, j, l)
  {
    var branches := Rooted(buckets, roots);
    RootRange(i, roots);
    RootRange(j, roots);
    if k > 0 { assert branches[i][k] == buckets[i][k-1]; }
    if l > 0 { assert branches[j][l] == buckets[j][l-1]; }
    assert Bucket(buckets[i], roots + 1, n - roots, b, i) && Bucket(buckets[j], roots + 1, n - roots, b, j);
    if k > 0 && l > 0 && branches[i][k] == branches[j][l] {
      DealtPlaces(buckets, roots + 1, n - roots, b, q, r, i, k - 1, j, l - 1);
    }
  }

  lemma RootedHeads(buckets: seq<seq<nat>>, b: nat, roots: nat)
    requires |buckets| == b && 1 <= roots <= b
    ensures OwnHeads(Rooted(buckets, roots)) <==> roots == b
  {
    var branches := Rooted(buckets, roots);
    if roots == b {
      forall i, j | 0 <= i < j < b ensures branches[i][0] != branches[j][0] {
        RootRange(i, roots);
        RootRange(j, roots);
      }
    } else {
      RootRange(0, roots);
      assert roots % roots == 0;
      assert branches[0][0] == branches[roots][0];
    }
  }

  // ---------------------------------------------------------------- generate_branches

  function Clamped(value: int, low: int, high: int): int {
    if value < low then low else if value > high then high else value
  }

  function Relays(relayCount: int): nat {
    if relayCount < 1 then 1 else relayCount
  }

  /** max(1, min(branch_count, relay_count)) */
  function BranchCount(relayCount: int, branchCount: int): nat {
    Clamped(branchCount, 1, Relays(relayCount))
  }

  /** min(branch_count, max(1, relay_count // 3)) */
  function Roots(relayCount: int, branchCount: int): nat {
    var third := Relays(relayCount) / 3;
    var most := if third < 1 then 1 else third;
    if BranchCount(relayCount, branchCount) < most then BranchCount(relayCount, branchCount) else most
  }

  function CountUp(n: nat): seq<nat> {
    seq(n, i => i + 1)
  }

  /** How many branches there are, in numbers: as many as wished, but at least one and at most one for each relay. */
  lemma BranchCountIs(relayCount: int, branchCount: int)
    ensures Relays(relayCount) == if relayCount < 1 then 1 else relayCount
    ensures branchCount < 1 || relayCount < 1 ==> BranchCount(relayCount, branchCount) == 1
    ensures 1 <= branchCount <= relayCount ==> BranchCount(relayCount, branchCount) == branchCount
    ensures 1 <= relayCount < branchCount ==> BranchCount(relayCount, branchCount) == relayCount
    ensures relayCount > 1 ==> Roots(relayCount, branchCount) == Thirds(relayCount, BranchCount(relayCount, branchCount))
    ensures Roots(relayCount, branchCount) == BranchCount(relayCount, branchCount) || Relays(relayCount) == 1
       <==> branchCount <= 1 || relayCount <= 1 || 3 * branchCount <= relayCount
  {
  }

  /** One root for three relays, but no more than one for each branch, and at least one. */
  ghost function Thirds(relayCount: int, branches: nat): nat
    requires relayCount > 1
  {
    if 3 * branches <= relayCount then branches else if relayCount < 3 then 1 else relayCount / 3
  }

  /** The branches take turns at the roots, and the other relays are dealt to them in turn. */
  ghost predicate ForestInTurn(branches: seq<seq<nat>>, roots: nat)
    requires roots > 0
  {
    forall i :: 0 <= i < |branches| ==>
      && branches[i] != [] && branches[i][0] == 1 + i % roots
      && forall k :: 1 <= k < |branches[i]| ==> branches[i][k] == roots + 1 + i + (k - 1) * |branches|
  }

  lemma RootedInTurn(buckets: seq<seq<nat>>, n: nat, b: nat, roots: nat, q: nat, r: nat)
    requires 1 <= roots <= b && roots <= n && Dealt(buckets, roots + 1, n - roots, b, q, r)
    ensures ForestInTurn(Rooted(buckets, roots), roots)
  {
    var branches := Rooted(buckets, roots);
    forall i | 0 <= i < b
      ensures branches[i] != [] && branches[i][0] == 1 + i % roots
      ensures forall k :: 1 <= k < |branches[i]| ==> branches[i][k] == roots + 1 + i + (k - 1) * b
    {
      forall k | 1 <= k < |branches[i]| ensures branches[i][k] == roots + 1 + i + (k - 1) * b {
        assert branches[i][k] == buckets[i][k-1];
      }
    }
  }

  /** `generate_branches`: every relay is covered in every mode, by as many branches as the arguments say; in parallel
      branches the relays are dealt in turn, and only the roots of a forest can be shared, which happens exactly when there
      is more than one branch and fewer than three relays for each. */
  method GenerateBranches(relayCount: int, branchCount: int, mode: Mode) returns (branches: seq<seq<nat>>)
    ensures Layout(branches, Relays(relayCount)) && branches != []
    ensures Layout(branches, if relayCount < 1 then 1 else relayCount)
    ensures mode == Chain || mode == Manual ==> branches == [CountUp(Relays(relayCount))]
    ensures mode == Chain || mode == Manual ==>
              && |branches| == 1 && |branches[0]| == (if relayCount < 1 then 1 else relayCount)
              && forall k :: 0 <= k < |branches[0]| ==> branches[0][k] == k + 1
    ensures mode == Parallel || (mode == Forest && relayCount > 1) ==>
              |branches| == if branchCount < 1 || relayCount < 1 then 1
                            else if branchCount <= relayCount then branchCount else relayCount
    ensures mode == Forest && relayCount <= 1 ==> branches == [[1]]
    ensures mode == Parallel ==>
              && |branches| == BranchCount(relayCount, branchCount)
              && forall i, j :: 0 <= i < |branches| && 0 <= j < |branches| ==> |branches[i]| <= |branches[j]| + 1
    ensures mode == Parallel ==>
              forall j, k :: 0 <= j < |branches| && 0 <= k < |branches[j]| ==> branches[j][k] == 1 + j + k * |branches|
    ensures mode == Forest && relayCount > 1 ==>
              ForestInTurn(branches, if 3 * |branches| <= relayCount then |branches| else if relayCount < 3 then 1 else relayCount / 3)
    ensures mode != Forest ==> OwnHeads(branches)
    ensures mode == Forest ==>
              (OwnHeads(branches) <==> Roots(relayCount, branchCount) == BranchCount(relayCount, branchCount) || Relays(relayCount) == 1)
    ensures mode == Forest ==> (OwnHeads(branches) <==> branchCount <= 1 || relayCount <= 1 || 3 * branchCount <= relayCount)
  {
    hide Layout, OwnHeads, ForestInTurn, Rooted, Bucket, Found, Rounds;
    var n := Relays(relayCount);
    var b := BranchCount(relayCount, branchCount);
    BranchCountIs(relayCount, branchCount);
    OneBranchLayout(CountUp(n), n);
    if mode == Chain {
      return [CountUp(n)];
    }
    if mode == Parallel {
      var buckets;
      ghost var q, r;
      buckets, q, r := Deal(1, n, b);
      DealtLayout(buckets, n, b, q, r);
      branches := NonEmpty(buckets);
      return;
    }
    if mode == Forest {
      if n == 1 {
        assert CountUp(1) == [1];
        return [[1]];
      }
      var roots := Roots(relayCount, branchCount);
      var buckets;
      ghost var q, r;
      buckets, q, r := Deal(roots + 1, n - roots, b);
      RootedLayout(buckets, n, b, roots, q, r);
      RootedInTurn(buckets, n, b, roots, q, r);
      branches := NonEmpty(Rooted(buckets, roots));
      return;
    }
    branches := [CountUp(n)];
  }

  /** `[b for b in branches if b]`, where no branch is empty. */
  method NonEmpty(branches: seq<seq<nat>>) returns (kept: seq<seq<nat>>)
    requires forall b :: b in branches ==> b != []
    ensures kept == branches
  {
    kept := [];
    for i := 0 to |branches|
      invariant kept == branches[..i]
    {
      assert branches[i] in branches;
      if branches[i] != [] {
        kept := kept + [branches[i]];
      }
    }
    assert branches[..|branches|] == branches;
  }
}
