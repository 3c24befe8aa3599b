/** Inclusion proofs of the transparency log (infra/transparency/rekor_api.py). */
module Merkle {
  import opened Wrappers
  import opened Powers

  // The source folds an audit path by the parity of the index alone and never reads the tree
  // size; `InclusionExact` says for which (index, size) pairs that gives the root of RFC 6962.

  /** SHA-256 is a free constructor; the 0x00 and 0x01 prefixes of section 2.1 of RFC 6962 are two of them. */
  datatype Digest =
    | LeafHash(body: Bytes)
    | NodeHash(left: Digest, right: Digest)
    | Other(bits: nat)

  const EMPTY_ROOT := Other(0)

  // ---- The code: the fold of `_verify_inclusion`.

  function Join(rightChild: bool, node: Digest, sibling: Digest): Digest {
    if rightChild then NodeHash(sibling, node) else NodeHash(node, sibling)
  }

  function Fold(node: Digest, idx: int, siblings: seq<Digest>): Digest
    decreases |siblings|
  {
    if siblings == [] then node
    else Fold(Join(idx % 2 == 1, node, siblings[0]), idx / 2, siblings[1..])
  }

  method VerifyInclusion(body: Bytes, logIndex: int, hashes: seq<Digest>) returns (node: Digest)
    ensures node == Fold(LeafHash(body), logIndex, hashes)
  {
    node := LeafHash(body);
    var idx := logIndex;
    for i := 0 to |hashes|
      invariant Fold(node, idx, hashes[i..]) == Fold(LeafHash(body), logIndex, hashes)
    {
      var sib := hashes[i];
      assert hashes[i..][1..] == hashes[i + 1..];
      if idx % 2 == 1 {
        node := NodeHash(sib, node);
      } else {
        node := NodeHash(node, sib);
      }
      idx := idx / 2;
    }
  }

  // ---- The reference: sections 2.1 and 2.1.1 of RFC 6962, over a sequence of node hashes.

  /** The largest power of two smaller than n. */
  function SplitPoint(n: nat): (k: nat)
    requires n > 1
    ensures 0 < k < n <= 2 * k && IsPow2(k)
  {
    if n == 2 then 1 else 2 * SplitPoint((n + 1) / 2)
  }

  function Mth(nodes: seq<Digest>): Digest
    requires |nodes| > 0
    decreases |nodes|
  {
    if |nodes| == 1 then nodes[0]
    else
      var k := SplitPoint(|nodes|);
      NodeHash(Mth(nodes[..k]), Mth(nodes[k..]))
  }

  function AuditPath(m: nat, nodes: seq<Digest>): seq<Digest>
    requires m < |nodes|
    decreases |nodes|
  {
    if |nodes| == 1 then []
    else
      var k := SplitPoint(|nodes|);
      if m < k then AuditPath(m, nodes[..k]) + [Mth(nodes[k..])]
      else AuditPath(m - k, nodes[k..]) + [Mth(nodes[..k])]
  }

  function Leaves(log: seq<Bytes>): seq<Digest> {
    seq(|log|, i requires 0 <= i < |log| => LeafHash(log[i]))
  }

  function TreeRoot(log: seq<Bytes>): Digest {
    if log == [] then EMPTY_ROOT else Mth(Leaves(log))
  }

  // ---- When the fold agrees with the reference.

  /** The least s with m >> s == l >> s. */
  function MeetLevel(m: nat, l: nat): (s: nat)
    requires m <= l
    ensures Shift(m, s) == Shift(l, s)
    ensures forall t: nat | t < s :: Shift(m, t) != Shift(l, t)
    decreases l
  {
    if m == l then 0 else
      var s := MeetLevel(m / 2, l / 2) + 1;
      assert forall t: nat | 0 < t < s :: Shift(m, t) == Shift(m / 2, t - 1) && Shift(l, t) == Shift(l / 2, t - 1);
      s
  }

  /** Where the paths of entry m and of the last entry meet, the common index is 0 or 2^j - 1. */
  predicate ParityWalks(m: nat, n: nat)
    requires m < n
  {
    IsPow2(Shift(m, MeetLevel(m, n - 1)) + 1)
  }

  // ---- Levels: pairing neighbours, an odd last node moving up unchanged.

  function Pair(nodes: seq<Digest>): (up: seq<Digest>)
    ensures |up| == (|nodes| + 1) / 2
  {
    seq((|nodes| + 1) / 2, i requires 0 <= i < (|nodes| + 1) / 2 =>
      if 2 * i + 1 < |nodes| then NodeHash(nodes[2 * i], nodes[2 * i + 1]) else nodes[2 * i])
  }

  function Sibling(m: nat, nodes: seq<Digest>): seq<Digest>
    requires m < |nodes|
  {
    if m % 2 == 1 then [nodes[m - 1]] else if m + 1 < |nodes| then [nodes[m + 1]] else []
  }

  function LevelRoot(nodes: seq<Digest>): Digest
    requires |nodes| > 0
    decreases |nodes|
  {
    if |nodes| == 1 then nodes[0] else LevelRoot(Pair(nodes))
  }

  function LevelPath(m: nat, nodes: seq<Digest>): seq<Digest>
    requires m < |nodes|
    decreases |nodes|
  {
    if |nodes| == 1 then [] else Sibling(m, nodes) + LevelPath(m / 2, Pair(nodes))
  }

  /** The two halves of a longer level split again at half of the split point. */
  lemma SplitPair(nodes: seq<Digest>, k: nat)
    requires |nodes| > 2 && k == SplitPoint(|nodes|)
    ensures k % 2 == 0 && |Pair(nodes)| > 1 && k / 2 == SplitPoint(|Pair(nodes)|)
    ensures Pair(nodes)[..k / 2] == Pair(nodes[..k]) && Pair(nodes)[k / 2..] == Pair(nodes[k..])
  {
  }

  lemma {:induction false} LevelRootIsMth(nodes: seq<Digest>)
    requires |nodes| > 0
    ensures LevelRoot(nodes) == Mth(nodes)
    decreases |nodes|
  {
    if |nodes| == 2 {
      assert nodes[..1] == [nodes[0]] && nodes[1..] == [nodes[1]];
    } else if |nodes| > 2 {
      var k := SplitPoint(|nodes|);
      SplitPair(nodes, k);
      var up, left, right := Pair(nodes), nodes[..k], nodes[k..];
      LevelRootIsMth(up);
      LevelRootIsMth(up[..k / 2]);
      LevelRootIsMth(up[k / 2..]);
      LevelRootIsMth(left);
      LevelRootIsMth(right);
      assert |right| == 1 ==> Pair(right) == right;
      assert Mth(up) == NodeHash(Mth(up[..k / 2]), Mth(up[k / 2..]));
    }
  }

  lemma PairedRoot(nodes: seq<Digest>)
    requires |nodes| > 0
    ensures Mth(nodes) == Mth(Pair(nodes))
  {
    LevelRootIsMth(nodes);
    LevelRootIsMth(Pair(nodes));
    assert |nodes| == 1 ==> Pair(nodes) == nodes;
  }

  lemma LevelStep(m: nat, nodes: seq<Digest>)
    requires m < |nodes|
    ensures LevelPath(m, nodes) == Sibling(m, nodes) + LevelPath(m / 2, Pair(nodes))
  {
    if |nodes| == 1 {
      assert Pair(nodes) == nodes;
    }
  }

  lemma AuditPathSplit(m: nat, nodes: seq<Digest>, k: nat)
    requires m < |nodes| && |nodes| > 1 && k == SplitPoint(|nodes|)
    ensures m < k ==> AuditPath(m, nodes) == AuditPath(m, nodes[..k]) + [Mth(nodes[k..])]
    ensures k <= m ==> AuditPath(m, nodes) == AuditPath(m - k, nodes[k..]) + [Mth(nodes[..k])]
  {
  }

  lemma {:induction false} LevelPathIsAuditPath(m: nat, nodes: seq<Digest>)
    requires m < |nodes|
    ensures LevelPath(m, nodes) == AuditPath(m, nodes)
    decreases |nodes|, 2
  {
    if |nodes| == 2 {
      assert nodes[..1] == [nodes[0]] && nodes[1..] == [nodes[1]];
    } else if |nodes| > 2 {
      LevelPathIsAuditPath(m / 2, Pair(nodes));
      if m < SplitPoint(|nodes|) {
        PathUpLeft(m, nodes, SplitPoint(|nodes|));
      } else {
        PathUpRight(m, nodes, SplitPoint(|nodes|));
      }
    }
  }

  lemma {:induction false} PathUpLeft(m: nat, nodes: seq<Digest>, k: nat)
    requires |nodes| > 2 && m < k == SplitPoint(|nodes|)
    requires LevelPath(m / 2, Pair(nodes)) == AuditPath(m / 2, Pair(nodes))
    ensures LevelPath(m, nodes) == AuditPath(m, nodes)
    decreases |nodes|, 1
  {
    hide AuditPath, LevelPath, Mth, Pair, SplitPoint;
    var up := Pair(nodes);
    SplitPair(nodes, k);
    HalfPath(m, m, nodes, nodes[..k]);
    LevelStep(m, nodes);
    AuditPathSplit(m / 2, up, k / 2);
    AuditPathSplit(m, nodes, k);
    PairedRoot(nodes[k..]);
    Regroup(Sibling(m, nodes), AuditPath(m / 2, up[..k / 2]), [Mth(nodes[k..])]);
  }

  lemma {:induction false} PathUpRight(m: nat, nodes: seq<Digest>, k: nat)
    requires |nodes| > 2 && SplitPoint(|nodes|) == k <= m < |nodes|
    requires LevelPath(m / 2, Pair(nodes)) == AuditPath(m / 2, Pair(nodes))
    ensures LevelPath(m, nodes) == AuditPath(m, nodes)
    decreases |nodes|, 1
  {
    hide AuditPath, LevelPath, Mth, Pair, SplitPoint;
    var up := Pair(nodes);
    SplitPair(nodes, k);
    assert Sibling(m - k, nodes[k..]) == Sibling(m, nodes);
    assert (m - k) / 2 == m / 2 - k / 2;
    HalfPath(m, m - k, nodes, nodes[k..]);
    LevelStep(m, nodes);
    AuditPathSplit(m / 2, up, k / 2);
    AuditPathSplit(m, nodes, k);
    PairedRoot(nodes[..k]);
    Regroup(Sibling(m, nodes), AuditPath(m / 2 - k / 2, up[k / 2..]), [Mth(nodes[..k])]);
  }

  lemma {:induction false} HalfPath(m: nat, j: nat, nodes: seq<Digest>, half: seq<Digest>)
    requires m < |nodes| && j < |half| < |nodes| && Sibling(j, half) == Sibling(m, nodes)
    ensures AuditPath(j, half) == Sibling(m, nodes) + AuditPath(j / 2, Pair(half))
    decreases |nodes|, 0
  {
    LevelPathIsAuditPath(j, half);
    LevelPathIsAuditPath(j / 2, Pair(half));
    LevelStep(j, half);
  }

  // ---- Node sizes tell a full left sibling from a partial last node.

  function Size(d: Digest): nat
    ensures Size(d) > 0
  {
    match d
    case NodeHash(l, r) => Size(l) + Size(r)
    case _ => 1
  }

  ghost predicate IsLevel(nodes: seq<Digest>, width: nat) {
    && |nodes| > 0
    && (forall i | 0 <= i < |nodes| - 1 :: Size(nodes[i]) == width)
    && Size(nodes[|nodes| - 1]) <= width
  }

  lemma PairIsLevel(nodes: seq<Digest>, width: nat)
    requires IsLevel(nodes, width)
    ensures IsLevel(Pair(nodes), 2 * width)
  {
    var up := Pair(nodes);
    forall i | 0 <= i < |up| - 1 ensures Size(up[i]) == 2 * width {
      assert up[i] == NodeHash(nodes[2 * i], nodes[2 * i + 1]);
    }
  }

  /** One level of folding along an audit path. */
  lemma FoldUp(node: Digest, idx: int, m: nat, nodes: seq<Digest>)
    requires m < |nodes| && |nodes| > 1
    ensures Fold(node, idx, LevelPath(m, nodes)) ==
            if m % 2 == 0 && m + 1 == |nodes| then Fold(node, idx, LevelPath(m / 2, Pair(nodes)))
            else Fold(Join(idx % 2 == 1, node, nodes[if m % 2 == 1 then m - 1 else m + 1]), idx / 2,
                      LevelPath(m / 2, Pair(nodes)))
  {
    var sib := Sibling(m, nodes);
    var rest := LevelPath(m / 2, Pair(nodes));
    assert if sib == [] then sib + rest == rest else (sib + rest)[1..] == rest;
  }

  lemma JoinIsPaired(m: nat, nodes: seq<Digest>)
    requires m < |nodes| && (m % 2 == 1 || m + 1 < |nodes|)
    ensures Pair(nodes)[m / 2] == Join(m % 2 == 1, nodes[m], nodes[if m % 2 == 1 then m - 1 else m + 1])
    ensures |Pair(nodes)| - 1 == (|nodes| - 1) / 2
  {
  }

  lemma OddLastStays(m: nat, nodes: seq<Digest>)
    requires 1 < m + 1 == |nodes| && m % 2 == 0
    ensures var up := Pair(nodes);
            1 < m / 2 + 1 == |up| && up[m / 2] == nodes[m] && LevelRoot(nodes) == LevelRoot(up)
  {
  }

  /** Starting from any other node than the one the path was made for never gives the root. */
  lemma {:induction false} WrongNodeNeverRecovers(node: Digest, idx: int, m: nat, nodes: seq<Digest>)
    requires m < |nodes| && node != nodes[m]
    ensures Fold(node, idx, LevelPath(m, nodes)) != LevelRoot(nodes)
    decreases |nodes|
  {
    if |nodes| > 1 {
      FoldUp(node, idx, m, nodes);
      if m % 2 == 0 && m + 1 == |nodes| {
        WrongNodeNeverRecovers(node, idx, m / 2, Pair(nodes));
      } else {
        var sib := nodes[if m % 2 == 1 then m - 1 else m + 1];
        JoinIsPaired(m, nodes);
        WrongNodeNeverRecovers(Join(idx % 2 == 1, node, sib), idx / 2, m / 2, Pair(nodes));
      }
    }
  }

  /** A partial last node met with an even index goes to the wrong side of its next sibling. */
  lemma {:induction false} EvenLastNodeFails(idx: int, m: nat, nodes: seq<Digest>, width: nat)
    requires IsLevel(nodes, width) && 1 < m + 1 == |nodes|
    requires Size(nodes[m]) < width && idx % 2 == 0
    ensures Fold(nodes[m], idx, LevelPath(m, nodes)) != LevelRoot(nodes)
    decreases |nodes|
  {
    FoldUp(nodes[m], idx, m, nodes);
    if m % 2 == 1 {
      JoinIsPaired(m, nodes);
      WrongNodeNeverRecovers(NodeHash(nodes[m], nodes[m - 1]), idx / 2, m / 2, Pair(nodes));
    } else {
      PairIsLevel(nodes, width);
      OddLastStays(m, nodes);
      EvenLastNodeFails(idx, m / 2, Pair(nodes), 2 * width);
    }
  }

  /** ParityWalks, level by level: the walk never meets an even last node above index 0. */
  predicate NeverSkips(m: nat, l: nat)
    requires m <= l
    decreases l
  {
    l == 0 || (!(m == l && m % 2 == 0) && NeverSkips(m / 2, l / 2))
  }

  lemma {:induction false} NeverSkipsMeets(m: nat, l: nat)
    requires m <= l
    ensures NeverSkips(m, l) <==> IsPow2(Shift(m, MeetLevel(m, l)) + 1)
    decreases l
  {
    if m == l {
      NeverSkipsDiagonal(m);
    } else {
      NeverSkipsMeets(m / 2, l / 2);
    }
  }

  lemma {:induction false} NeverSkipsDiagonal(m: nat)
    ensures NeverSkips(m, m) <==> IsPow2(m + 1)
  {
    if m % 2 == 1 {
      NeverSkipsDiagonal(m / 2);
      assert (m + 1) / 2 == m / 2 + 1;
    }
  }

  lemma FoldFollows(m: nat, nodes: seq<Digest>)
    requires m < |nodes| && (m % 2 == 1 || m + 1 < |nodes|)
    ensures var up := Pair(nodes);
            && |up| - 1 == (|nodes| - 1) / 2
            && Fold(nodes[m], m, LevelPath(m, nodes)) == Fold(up[m / 2], m / 2, LevelPath(m / 2, up))
  {
    FoldUp(nodes[m], m, m, nodes);
    JoinIsPaired(m, nodes);
  }

  lemma SkipFails(m: nat, nodes: seq<Digest>, width: nat)
    requires IsLevel(nodes, width) && 1 < m + 1 == |nodes| && m % 2 == 0
    ensures Fold(nodes[m], m, LevelPath(m, nodes)) != LevelRoot(nodes)
  {
    var up := Pair(nodes);
    FoldUp(nodes[m], m, m, nodes);
    PairIsLevel(nodes, width);
    OddLastStays(m, nodes);
    EvenLastNodeFails(m, m / 2, up, 2 * width);
  }

  lemma {:induction false} FoldDecides(m: nat, nodes: seq<Digest>, width: nat)
    requires IsLevel(nodes, width) && m < |nodes|
    ensures Fold(nodes[m], m, LevelPath(m, nodes)) == LevelRoot(nodes) <==> NeverSkips(m, |nodes| - 1)
    decreases |nodes|
  {
    if |nodes| > 1 {
      if m % 2 == 0 && m + 1 == |nodes| {
        SkipFails(m, nodes, width);
      } else {
        FoldFollows(m, nodes);
        PairIsLevel(nodes, width);
        FoldDecides(m / 2, Pair(nodes), 2 * width);
      }
    }
  }

  // ---- Main results.

  /** The fold of the RFC 6962 audit path of entry m is the tree root exactly when ParityWalks(m, n). */
  lemma InclusionExact(log: seq<Bytes>, m: nat)
    requires m < |log|
    ensures Fold(LeafHash(log[m]), m, AuditPath(m, Leaves(log))) == TreeRoot(log) <==> ParityWalks(m, |log|)
  {
    hide Fold, AuditPath, LevelPath, Mth, LevelRoot, NeverSkips, IsPow2;
    var leaves := Leaves(log);
    LevelRootIsMth(leaves);
    LevelPathIsAuditPath(m, leaves);
    FoldDecides(m, leaves, 1);
    NeverSkipsMeets(m, |leaves| - 1);
  }

  /** Every index of a full tree, and every index left of the top split, is handled. */
  lemma {:induction false} ParityWalksFamilies(m: nat, n: nat)
    requires m < n
    requires IsPow2(n) || m < SplitPoint(n)
    ensures ParityWalks(m, n)
  {
    hide SplitPoint, IsPow2, NeverSkips;
    NeverSkipsMeets(m, n - 1);
    FamiliesNeverSkip(m, n - 1);
  }

  lemma {:induction false} FamiliesNeverSkip(m: nat, l: nat)
    requires m <= l
    requires IsPow2(l + 1) || m < SplitPoint(l + 1)
    ensures NeverSkips(m, l)
    decreases l
  {
    if l > 1 {
      assert IsPow2(l + 1) ==> (l + 1) / 2 == l / 2 + 1;
      assert (l + 2) / 2 == l / 2 + 1;
      FamiliesNeverSkip(m / 2, l / 2);
    }
  }

  /** The smallest genuine proof the fold gets wrong: the last of three entries. */
  lemma LastOfThreeRejected(log: seq<Bytes>)
    requires |log| == 3
    ensures Fold(LeafHash(log[2]), 2, AuditPath(2, Leaves(log))) != TreeRoot(log)
  {
    InclusionExact(log, 2);
    assert MeetLevel(2, 2) == 0 && !IsPow2(3);
  }

  // ---- Soundness: whatever index and siblings are supplied, only logged bodies reach the root.

  ghost predicate Occurs(x: Digest, d: Digest) {
    x == d || (d.NodeHash? && (Occurs(x, d.left) || Occurs(x, d.right)))
  }

  lemma {:induction false} FoldKeeps(x: Digest, node: Digest, idx: int, siblings: seq<Digest>)
    requires Occurs(x, node)
    ensures Occurs(x, Fold(node, idx, siblings))
    decreases |siblings|
  {
    if siblings != [] {
      FoldKeeps(x, Join(idx % 2 == 1, node, siblings[0]), idx / 2, siblings[1..]);
    }
  }

  lemma {:induction false} LeafOfRoot(x: Digest, leaves: seq<Digest>) returns (i: nat)
    requires |leaves| > 0 && x.LeafHash? && Occurs(x, Mth(leaves))
    requires forall j | 0 <= j < |leaves| :: leaves[j].LeafHash?
    ensures i < |leaves| && leaves[i] == x
    decreases |leaves|
  {
    if |leaves| == 1 {
      i := 0;
    } else {
      var k := SplitPoint(|leaves|);
      if Occurs(x, Mth(leaves[..k])) {
        i := LeafOfRoot(x, leaves[..k]);
      } else {
        i := LeafOfRoot(x, leaves[k..]);
        i := i + k;
      }
    }
  }

  lemma OnlyLoggedBodies(body: Bytes, idx: int, siblings: seq<Digest>, log: seq<Bytes>)
    requires Fold(LeafHash(body), idx, siblings) == TreeRoot(log)
    ensures body in log
  {
    FoldKeeps(LeafHash(body), LeafHash(body), idx, siblings);
    if log != [] {
      var i := LeafOfRoot(LeafHash(body), Leaves(log));
      assert log[i] == body;
    }
  }

  /** The last sibling sits beside everything folded before it. */
  lemma {:induction false} FoldLast(node: Digest, idx: int, siblings: seq<Digest>, top: Digest)
    ensures Fold(node, idx, siblings + [top]) ==
            Join(Shift(idx, |siblings|) % 2 == 1, Fold(node, idx, siblings), top)
    decreases |siblings|
  {
    if siblings == [] {
      assert ([top])[1..] == [];
    } else {
      FoldLast(Join(idx % 2 == 1, node, siblings[0]), idx / 2, siblings[1..], top);
      assert (siblings + [top])[1..] == siblings[1..] + [top];
    }
  }

  lemma {:induction false} FullLevelPosition(x: Digest, idx: int, siblings: seq<Digest>, leaves: seq<Digest>, h: nat)
    requires |leaves| == Pow2(h) && x.LeafHash?
    requires forall i | 0 <= i < |leaves| :: leaves[i].LeafHash?
    requires Fold(x, idx, siblings) == Mth(leaves)
    ensures |siblings| == h && x == leaves[idx % |leaves|]
    decreases h
  {
    if h == 0 {
      if siblings != [] {
        FoldIsNode(x, idx, siblings);
      }
    } else {
      var k := Pow2(h - 1);
      SplitPointOfPow2(h);
      if siblings != [] {
        var n := |siblings| - 1;
        var top, bit := siblings[n], Shift(idx, n) % 2 == 1;
        assert siblings == siblings[..n] + [top];
        FoldLast(x, idx, siblings[..n], top);
        FullLevelPosition(x, idx, siblings[..n], if bit then leaves[k..] else leaves[..k], h - 1);
        ModPow2(idx, h - 1);
      }
    }
  }

  lemma {:induction false} FoldIsNode(x: Digest, idx: int, siblings: seq<Digest>)
    requires siblings != []
    ensures Fold(x, idx, siblings).NodeHash?
    decreases |siblings|
  {
    if |siblings| > 1 {
      FoldIsNode(Join(idx % 2 == 1, x, siblings[0]), idx / 2, siblings[1..]);
    }
  }

  lemma {:induction false} SplitPointOfPow2(h: nat)
    requires h > 0
    ensures SplitPoint(Pow2(h)) == Pow2(h - 1)
  {
    if h > 1 {
      SplitPointOfPow2(h - 1);
      assert (Pow2(h) + 1) / 2 == Pow2(h - 1);
    }
  }

  /** In a full tree the index, taken modulo the size, names the body. */
  lemma FullTreePosition(body: Bytes, idx: int, siblings: seq<Digest>, log: seq<Bytes>, h: nat)
    requires |log| == Pow2(h)
    requires Fold(LeafHash(body), idx, siblings) == TreeRoot(log)
    ensures |siblings| == h && body == log[idx % |log|]
  {
    FullLevelPosition(LeafHash(body), idx, siblings, Leaves(log), h);
  }

  /** For one index and path length, the root determines the folded node and every sibling. */
  lemma {:induction false} RootDeterminesProof(x: Digest, y: Digest, idx: int, p: seq<Digest>, q: seq<Digest>)
    requires |p| == |q|
    requires Fold(x, idx, p) == Fold(y, idx, q)
    ensures x == y && p == q
    decreases |p|
  {
    if p != [] {
      var r := idx % 2 == 1;
      RootDeterminesProof(Join(r, x, p[0]), Join(r, y, q[0]), idx / 2, p[1..], q[1..]);
      assert p == [p[0]] + p[1..] && q == [q[0]] + q[1..];
    }
  }

  // ---- The command: `cmd_verify` after the entry and the tree head were fetched.

  datatype InclusionProof = InclusionProof(logIndex: int, hashes: seq<Digest>, rootHash: Option<Digest>, treeSize: nat)

  datatype TreeHead = TreeHead(rootHash: Digest, treeSize: nat)

  datatype Exit = Accepted | RootMismatch | NoProof | HeadMismatch | RecordMismatch

  method CmdVerify(recSha: Bytes, body: Bytes, proof: InclusionProof, sth: TreeHead, loggedSha: Bytes -> Bytes)
    returns (exit: Exit)
    ensures exit == Verdict(recSha, body, proof, sth, loggedSha)
    ensures exit == NoProof <==> proof.rootHash.None?
    ensures var root := Fold(LeafHash(body), proof.logIndex, proof.hashes);
            var otherHead := sth.treeSize == proof.treeSize && sth.rootHash != root;
            && (exit == RootMismatch <==> proof.rootHash.Some? && proof.rootHash != Some(root))
            && (exit == HeadMismatch <==> proof.rootHash == Some(root) && otherHead)
            && (exit == RecordMismatch <==> proof.rootHash == Some(root) && !otherHead && loggedSha(body) != recSha)
            && (exit == Accepted <==> proof.rootHash == Some(root) && !otherHead && loggedSha(body) == recSha)
  {
    if proof.rootHash.None? {
      return NoProof;
    }
    var computed := VerifyInclusion(body, proof.logIndex, proof.hashes);
    if computed != proof.rootHash.value {
      return RootMismatch;
    }
    if sth.rootHash != proof.rootHash.value && sth.treeSize == proof.treeSize {
      return HeadMismatch;
    }
    if loggedSha(body) != recSha {
      return RecordMismatch;
    }
    return Accepted;
  }

  function Verdict(recSha: Bytes, body: Bytes, proof: InclusionProof, sth: TreeHead, loggedSha: Bytes -> Bytes): Exit {
    if proof.rootHash.None? then NoProof
    else if Fold(LeafHash(body), proof.logIndex, proof.hashes) != proof.rootHash.value then RootMismatch
    else if sth.rootHash != proof.rootHash.value && sth.treeSize == proof.treeSize then HeadMismatch
    else if loggedSha(body) != recSha then RecordMismatch
    else Accepted
  }

  /** Accepting under the root of a log means that the log holds an entry for the local record. */
  lemma AcceptedIsLogged(recSha: Bytes, body: Bytes, proof: InclusionProof, sth: TreeHead,
                         loggedSha: Bytes -> Bytes, log: seq<Bytes>)
    requires Verdict(recSha, body, proof, sth, loggedSha) == Accepted
    requires proof.rootHash == Some(TreeRoot(log))
    ensures exists i :: 0 <= i < |log| && loggedSha(log[i]) == recSha
  {
    OnlyLoggedBodies(body, proof.logIndex, proof.hashes, log);
    var i :| 0 <= i < |log| && log[i] == body;
  }

  /**
   Whatever the proof says, accepting it for the size of a log whose tree head was fetched means
   that the body itself is an entry of that log, and is the local record's.
   */
  lemma AcceptedUnderHead(recSha: Bytes, body: Bytes, proof: InclusionProof, loggedSha: Bytes -> Bytes,
                          log: seq<Bytes>)
    requires Verdict(recSha, body, proof, TreeHead(TreeRoot(log), |log|), loggedSha) == Accepted
    requires proof.treeSize == |log|
    ensures body in log && loggedSha(body) == recSha
  {
    OnlyLoggedBodies(body, proof.logIndex, proof.hashes, log);
  }

  /** An honest log's answer for its entry m is accepted exactly when the parity walk handles (m, n). */
  lemma HonestAnswer(recSha: Bytes, log: seq<Bytes>, m: nat, sth: TreeHead, loggedSha: Bytes -> Bytes)
    requires m < |log| && loggedSha(log[m]) == recSha
    requires sth.treeSize == |log| ==> sth.rootHash == TreeRoot(log)
    ensures var proof := InclusionProof(m, AuditPath(m, Leaves(log)), Some(TreeRoot(log)), |log|);
            Verdict(recSha, log[m], proof, sth, loggedSha) == if ParityWalks(m, |log|) then Accepted else RootMismatch
  {
    InclusionExact(log, m);
  }
}
