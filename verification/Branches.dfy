/** `sanitize_branches`, `generate_branches` and `branches_to_edges` of netlab/topology.py. */
module Branches {
  import opened Options
  import opened Walks

  // ---------------------------------------------------------------- sanitize_branches

  /** An entry of a branch: a number, or None when int(raw) fails. */
  type Raw = Option<int>

  /** A branch as it arrives; None when it is no list. */
  type RawBranch = Option<seq<Raw>>

  /** The entries that are kept: in range, and not seen before. */
  function Kept(items: seq<Raw>, n: int, blocked: set<int>): seq<nat> {
    if items == [] then []
    else if items[0].None? || items[0].value < 1 || items[0].value > n || items[0].value in blocked then
      Kept(items[1..], n, blocked)
    else [items[0].value] + Kept(items[1..], n, blocked + {items[0].value})
  }

  function Numbers(branch: seq<nat>): set<int> {
    set i | i in branch :: i as int
  }

  /** What is kept of a list of branches, with the relays of earlier ones in used. */
  function Sanitized(raws: seq<RawBranch>, n: int, allowShared: bool, used: set<int>): seq<seq<nat>> {
    if raws == [] then []
    else if raws[0].None? then Sanitized(raws[1..], n, allowShared, used)
    else
      var branch := Kept(raws[0].value, n, if allowShared then {} else used);
      var rest := Sanitized(raws[1..], n, allowShared, used + Numbers(branch));
      if branch == [] then rest else [branch] + rest
  }

  predicate Skipped(raw: Raw, n: int, blocked: set<int>) {
    raw.None? || raw.value < 1 || raw.value > n || raw.value in blocked
  }

  lemma KeptStep(items: seq<Raw>, i: nat, n: int, blocked: set<int>)
    requires i < |items|
    ensures Kept(items[i..], n, blocked) ==
              if Skipped(items[i], n, blocked) then Kept(items[i+1..], n, blocked)
              else [items[i].value] + Kept(items[i+1..], n, blocked + {items[i].value})
  {
    assert items[i..][1..] == items[i+1..];
  }

  /** One branch: the loop over its entries. */
  method SanitizeBranch(items: seq<Raw>, n: int, allowShared: bool, used0: set<int>) returns (branch: seq<nat>, used: set<int>)
    ensures branch == Kept(items, n, if allowShared then {} else used0)
    ensures used == used0 + Numbers(branch)
  {
    branch, used := [], used0;
    var local: set<int> := {};
    ghost var blocked := if allowShared then {} else used0;
    assert items[0..] == items && blocked + {} == blocked;
    for i := 0 to |items|
      invariant branch + Kept(items[i..], n, blocked + local) == Kept(items, n, blocked)
      invariant local == Numbers(branch) && used == used0 + local
    {
      var raw := items[i];
      KeptStep(items, i, n, blocked + local);
      if raw.None? { continue; }
      var idx := raw.value;
      if idx < 1 || idx > n || idx in local { continue; }
      if !allowShared && idx in used { continue; }
      NumbersMore(branch, idx);
      assert blocked + local + {idx} == blocked + (local + {idx});
      branch := branch + [idx];
      local := local + {idx};
      used := used + {idx};
    }
  }

  lemma NumbersMore(branch: seq<nat>, idx: nat)
    ensures Numbers(branch + [idx]) == Numbers(branch) + {idx}
  {
    assert idx in branch + [idx];
    forall i | i in branch ensures i in branch + [idx] { }
  }

  /** `sanitize_branches`; None when the argument is no list. */
  method SanitizeBranches(branches: Option<seq<RawBranch>>, relayCount: int, allowShared: bool) returns (result: seq<seq<nat>>)
    ensures result == if branches.None? then [] else Sanitized(branches.value, relayCount, allowShared, {})
  {
    if branches.None? {
      return [];
    }
    result := [];
    var raws := branches.value;
    var used: set<int> := {};
    var i := 0;
    while i < |raws|
      invariant 0 <= i <= |raws|
      invariant result + Sanitized(raws[i..], relayCount, allowShared, used) == Sanitized(raws, relayCount, allowShared, {})
    {
      var raw := raws[i];
      assert raws[i..][1..] == raws[i+1..];
      i := i + 1;
      if raw.None? { continue; }
      var branch;
      ghost var used0 := used;
      branch, used := SanitizeBranch(raw.value, relayCount, allowShared, used);
      if branch != [] {
        assert result + ([branch] + Sanitized(raws[i..], relayCount, allowShared, used))
            == result + [branch] + Sanitized(raws[i..], relayCount, allowShared, used);
        result := result + [branch];
      }
    }
  }

  ghost predicate DistinctRelays(branch: seq<nat>) {
    forall i, j :: 0 <= i < j < |branch| ==> branch[i] != branch[j]
  }

  /** A branch of relays 1 to n without repetition. */
  ghost predicate CleanBranch(branch: seq<nat>, n: int) {
    branch != [] && DistinctRelays(branch) && forall i :: i in branch ==> 1 <= i <= n
  }

  lemma {:induction false} KeptIsClean(items: seq<Raw>, n: int, blocked: set<int>)
    ensures var kept := Kept(items, n, blocked);
            && DistinctRelays(kept)
            && forall i :: i in kept ==> 1 <= i <= n && i !in blocked && Some(i as int) in items
    decreases |items|
  {
    if items != [] {
      if items[0].None? || items[0].value < 1 || items[0].value > n || items[0].value in blocked {
        KeptIsClean(items[1..], n, blocked);
      } else {
        KeptIsClean(items[1..], n, blocked + {items[0].value});
      }
    }
  }

  /** The place where a relay is first listed, or the length of the list. */
  function FirstAt(items: seq<Raw>, v: int): nat {
    if items == [] || items[0] == Some(v) then 0 else 1 + FirstAt(items[1..], v)
  }

  /** A relay is kept exactly when it is listed, in range and not blocked. */
  lemma {:induction false} KeptMember(items: seq<Raw>, n: int, blocked: set<int>, v: nat)
    ensures v in Kept(items, n, blocked) <==> Some(v as int) in items && 1 <= v <= n && v !in blocked
    decreases |items|
  {
    if items != [] {
      var more := if Skipped(items[0], n, blocked) then blocked else blocked + {items[0].value};
      KeptMember(items[1..], n, more, v);
      assert Some(v as int) in items <==> items[0] == Some(v as int) || Some(v as int) in items[1..] by {
        assert items == [items[0]] + items[1..];
      }
    }
  }

  /** What is kept stands in the order of its first listing, so each relay only once. */
  lemma {:induction false} KeptInOrder(items: seq<Raw>, n: int, blocked: set<int>, a: nat, b: nat)
    requires a < b < |Kept(items, n, blocked)|
    ensures var kept := Kept(items, n, blocked); FirstAt(items, kept[a]) < FirstAt(items, kept[b])
    decreases |items|
  {
    var kept := Kept(items, n, blocked);
    if Skipped(items[0], n, blocked) {
      KeptMember(items[1..], n, blocked, kept[a]);
      KeptMember(items[1..], n, blocked, kept[b]);
      KeptInOrder(items[1..], n, blocked, a, b);
    } else {
      var more := blocked + {items[0].value};
      var rest := Kept(items[1..], n, more);
      assert kept[b] == rest[b-1];
      KeptMember(items[1..], n, more, rest[b-1]);
      if a > 0 {
        assert kept[a] == rest[a-1];
        KeptMember(items[1..], n, more, rest[a-1]);
        KeptInOrder(items[1..], n, more, a - 1, b - 1);
      }
    }
  }

  /** The branches share no relay. */
  ghost predicate Disjoint(branches: seq<seq<nat>>) {
    forall i, j :: 0 <= i < j < |branches| ==> Numbers(branches[i]) !! Numbers(branches[j])
  }

  /** Sanitized branches are not empty, repeat no relay and stay in range; without sharing they are disjoint. */
  lemma {:induction false} SanitizedIsClean(raws: seq<RawBranch>, n: int, allowShared: bool, used: set<int>)
    ensures var clean := Sanitized(raws, n, allowShared, used);
            && (forall b :: b in clean ==> CleanBranch(b, n))
            && (!allowShared ==> forall b :: b in clean ==> Numbers(b) !! used)
            && (!allowShared ==> Disjoint(clean))
    decreases |raws|
  {
    if raws != [] {
      if raws[0].None? {
        SanitizedIsClean(raws[1..], n, allowShared, used);
      } else {
        var branch := Kept(raws[0].value, n, if allowShared then {} else used);
        KeptIsClean(raws[0].value, n, if allowShared then {} else used);
        SanitizedIsClean(raws[1..], n, allowShared, used + Numbers(branch));
        var rest := Sanitized(raws[1..], n, allowShared, used + Numbers(branch));
        forall j | 0 <= j < |rest| && !allowShared ensures Numbers(branch) !! Numbers(rest[j]) {
          assert rest[j] in rest;
        }
      }
    }
  }

  function AsRaw(branch: seq<nat>): seq<Raw> {
    seq(|branch|, i requires 0 <= i < |branch| => Some(branch[i] as int))
  }

  lemma {:induction false} KeptAll(branch: seq<nat>, n: int, blocked: set<int>)
    requires DistinctRelays(branch) && (forall i :: i in branch ==> 1 <= i <= n && i !in blocked)
    ensures Kept(AsRaw(branch), n, blocked) == branch
    decreases |branch|
  {
    if branch != [] {
      assert AsRaw(branch)[1..] == AsRaw(branch[1..]);
      forall i | i in branch[1..] ensures i != branch[0] {
        var k :| 0 <= k < |branch[1..]| && branch[1..][k] == i;
        assert branch[k+1] == i;
      }
      forall i | i in branch[1..] ensures 1 <= i <= n && i !in blocked + {branch[0]} {
        assert i in branch;
      }
      assert branch[0] in branch;
      KeptAll(branch[1..], n, blocked + {branch[0]});
    }
  }

  function AllRaw(branches: seq<seq<nat>>): seq<RawBranch> {
    seq(|branches|, i requires 0 <= i < |branches| => Some(AsRaw(branches[i])))
  }

  /** Clean branches pass through unchanged, so sanitizing twice is sanitizing once. */
  lemma {:induction false} SanitizedAll(branches: seq<seq<nat>>, n: int, used: set<int>)
    requires forall b :: b in branches ==> CleanBranch(b, n)
    ensures Sanitized(AllRaw(branches), n, true, used) == branches
    decreases |branches|
  {
    if branches != [] {
      assert AllRaw(branches)[1..] == AllRaw(branches[1..]);
      assert branches[0] in branches && CleanBranch(branches[0], n);
      forall i | i in branches[0] ensures 1 <= i <= n && i !in {} { }
      KeptAll(branches[0], n, {});
      SanitizedAll(branches[1..], n, used + Numbers(branches[0]));
    }
  }

  // ---------------------------------------------------------------- branches_to_edges

  function Drone(i: nat): Node {
    Name(i)
  }

  /** The edges of one branch, from source on. */
  function EdgesOf(branch: seq<nat>, source: Node): seq<Arc> {
    seq(|branch|, k requires 0 <= k < |branch| => (if k == 0 then source else Drone(branch[k-1]), Drone(branch[k])))
  }

  function AllEdges(branches: seq<seq<nat>>, source: Node): seq<Arc> {
    if branches == [] then [] else AllEdges(branches[..|branches|-1], source) + EdgesOf(branches[|branches|-1], source)
  }

  /** `branches_to_edges` */
  method BranchesToEdges(branches: seq<seq<nat>>, source: Node) returns (edges: seq<Arc>)
    ensures edges == AllEdges(branches, source)
  {
    edges := [];
    for i := 0 to |branches|
      invariant edges == AllEdges(branches[..i], source)
    {
      var branch := branches[i];
      assert branches[..i+1][..i] == branches[..i];
      var prev := source;
      ghost var before := edges;
      for k := 0 to |branch|
        invariant prev == if k == 0 then source else Drone(branch[k-1])
        invariant edges == before + EdgesOf(branch, source)[..k]
      {
        var node := Drone(branch[k]);
        edges := edges + [(prev, node)];
        prev := node;
      }
      assert EdgesOf(branch, source)[..|branch|] == EdgesOf(branch, source);
    }
    assert branches[..|branches|] == branches;
  }

  /** An edge of the list comes from a place in a branch, and the other way round. */
  ghost predicate EdgeAt(branches: seq<seq<nat>>, source: Node, e: Arc, i: int, k: int) {
    && 0 <= i < |branches| && 0 <= k < |branches[i]|
    && e == (if k == 0 then source else Drone(branches[i][k-1]), Drone(branches[i][k]))
  }

  lemma {:induction false} EdgeHasPlace(branches: seq<seq<nat>>, source: Node, e: Arc)
    requires e in AllEdges(branches, source)
    ensures exists i, k :: EdgeAt(branches, source, e, i, k)
    decreases |branches|
  {
    var n := |branches| - 1;
    if e in AllEdges(branches[..n], source) {
      EdgeHasPlace(branches[..n], source, e);
      var i, k :| EdgeAt(branches[..n], source, e, i, k);
      assert EdgeAt(branches, source, e, i, k);
    } else {
      var k :| 0 <= k < |branches[n]| && EdgesOf(branches[n], source)[k] == e;
      assert EdgeAt(branches, source, e, n, k);
    }
  }

  lemma {:induction false} PlaceHasEdge(branches: seq<seq<nat>>, source: Node, e: Arc, i: int, k: int)
    requires EdgeAt(branches, source, e, i, k)
    ensures e in AllEdges(branches, source)
    decreases |branches|
  {
    var n := |branches| - 1;
    if i < n {
      PlaceHasEdge(branches[..n], source, e, i, k);
    } else {
      assert EdgesOf(branches[n], source)[k] == e;
    }
  }
}
