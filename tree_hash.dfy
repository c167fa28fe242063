/** The SHA-256 tree hash of a multipart archive (multipart_upload.rs,
    `tree_hash`): the per-part digests are reduced level by level, pairing
    neighbours left to right and carrying an odd last digest up unchanged,
    until one digest remains.

    SHA-256 itself is the parameter `h`; nothing is assumed about it. The
    source keeps digests as lower-case hex text and hex-decodes the
    concatenation of two of them before hashing; decoding the concatenated hex
    gives the concatenated bytes, so a digest is modelled by its bytes and a
    parent is `h(left + right)`. */
module TreeHash {
  import opened Common

  type Digest = Bytes

  /** One level of the reduction: each adjacent pair becomes the hash of its
      concatenation, and an odd trailing digest is carried unchanged after the
      parents. */
  function Level(ds: seq<Digest>, h: Bytes -> Digest): (r: seq<Digest>)
    ensures |ds| <= 2 * |r| <= |ds| + 1
  {
    if |ds| < 2 then ds else [h(ds[0] + ds[1])] + Level(ds[2..], h)
  }

  /** The position-wise meaning of a level: parent i hashes digests 2i and
      2i+1, and when the count is odd the last parent is the last digest. */
  lemma {:induction false} LevelAt(ds: seq<Digest>, h: Bytes -> Digest, i: nat)
    requires i < |Level(ds, h)|
    ensures 2 * i + 1 < |ds| ==> Level(ds, h)[i] == h(ds[2 * i] + ds[2 * i + 1])
    ensures 2 * i + 1 == |ds| ==> Level(ds, h)[i] == ds[2 * i]
  {
    if i > 0 {
      LevelAt(ds[2..], h, i - 1);
      assert ds[2..][2 * (i - 1)] == ds[2 * i];
    }
  }

  /** The reference definition: reduce level by level until one digest is
      left. */
  function TreeHashSpec(ds: seq<Digest>, h: Bytes -> Digest): Digest
    requires |ds| > 0
    decreases |ds|
  {
    if |ds| == 1 then ds[0] else TreeHashSpec(Level(ds, h), h)
  }

  /** Appending a pair to an even-length prefix appends one parent. */
  lemma {:induction false} LevelAppendPair(c: seq<Digest>, n: nat, x: Digest, y: Digest, h: Bytes -> Digest)
    requires |c| == 2 * n
    ensures Level(c + [x, y], h) == Level(c, h) + [h(x + y)]
  {
    if c == [] {
      assert c + [x, y] == [x, y];
    } else {
      assert (c + [x, y])[2..] == c[2..] + [x, y];
      LevelAppendPair(c[2..], n - 1, x, y, h);
    }
  }

  /** Appending one digest to an even-length prefix carries it up unchanged. */
  lemma {:induction false} LevelAppendOne(c: seq<Digest>, n: nat, x: Digest, h: Bytes -> Digest)
    requires |c| == 2 * n
    ensures Level(c + [x], h) == Level(c, h) + [x]
  {
    if c == [] {
      assert c + [x] == [x];
    } else {
      assert (c + [x])[2..] == c[2..] + [x];
      LevelAppendOne(c[2..], n - 1, x, h);
    }
  }

  /** The worked example of three digests: [a, b, c] reduces to
      [h(a ++ b), c] and then to h(h(a ++ b) ++ c). */
  lemma ThreeDigests(a: Digest, b: Digest, c: Digest, h: Bytes -> Digest)
    ensures Level([a, b, c], h) == [h(a + b), c]
    ensures TreeHashSpec([a, b, c], h) == h(h(a + b) + c)
  {
    assert [a, b, c][2..] == [c];
    assert Level([h(a + b), c], h) == [h(h(a + b) + c)];
    calc {
      TreeHashSpec([a, b, c], h);
      TreeHashSpec(Level([a, b, c], h), h);
      TreeHashSpec([h(a + b), c], h);
      TreeHashSpec(Level([h(a + b), c], h), h);
      TreeHashSpec([h(h(a + b) + c)], h);
    }
  }

  /** The number of levels the reduction goes through for n digests. */
  function Rounds(n: nat): nat
    decreases n
  {
    if n <= 1 then 0 else 1 + Rounds((n + 1) / 2)
  }

  function Pow2(k: nat): nat
  {
    if k == 0 then 1 else 2 * Pow2(k - 1)
  }

  /** The digests left after k levels of the reduction. */
  function Levels(ds: seq<Digest>, h: Bytes -> Digest, k: nat): seq<Digest>
    decreases k
  {
    if k == 0 then ds else Levels(Level(ds, h), h, k - 1)
  }

  /** The reduction of n digests is down to one digest after exactly
      Rounds(n) levels (every earlier level still holds more than one), and
      that digest is the tree hash. */
  lemma {:induction false} LevelsReachOne(ds: seq<Digest>, h: Bytes -> Digest)
    requires |ds| > 0
    ensures |Levels(ds, h, Rounds(|ds|))| == 1
    ensures TreeHashSpec(ds, h) == Levels(ds, h, Rounds(|ds|))[0]
    ensures forall k :: 0 <= k < Rounds(|ds|) ==> |Levels(ds, h, k)| > 1
    decreases |ds|
  {
    if |ds| > 1 {
      assert |Level(ds, h)| == (|ds| + 1) / 2;
      LevelsReachOne(Level(ds, h), h);
      forall k | 0 < k < Rounds(|ds|)
        ensures |Levels(ds, h, k)| > 1
      {
        assert Levels(ds, h, k) == Levels(Level(ds, h), h, k - 1);
      }
    }
  }

  /** The reduction of n digests takes the least number of levels k with
      n <= 2^k (so 10 digests take 4: 10, 5, 3, 2, 1). */
  lemma {:induction false} RoundsIsCeilLog2(n: nat)
    requires n >= 1
    ensures n <= Pow2(Rounds(n))
    ensures Rounds(n) > 0 ==> Pow2(Rounds(n) - 1) < n
  {
    if n > 1 {
      RoundsIsCeilLog2((n + 1) / 2);
    }
  }

  /** The loop state of tree_hash in the middle of a level: `consumed` (the
      first 2n digests of the level, already hashed pairwise onto `inter`),
      then `pairs`, then `queue`; reducing the whole level gives the tree hash
      of the input. */
  ghost predicate Reducing(vecSha: seq<Digest>, h: Bytes -> Digest, consumed: seq<Digest>, n: nat,
                           pairs: seq<Digest>, queue: seq<Digest>, inter: seq<Digest>)
  {
    && |vecSha| > 0
    && |consumed| == 2 * n
    && inter == Level(consumed, h)
    && |pairs| <= 2
    && |consumed + pairs + queue| > 0
    && TreeHashSpec(consumed + pairs + queue, h) == TreeHashSpec(vecSha, h)
  }

  /** Moving the front of `queue` onto `pairs` keeps the level as it is. */
  lemma StepTake(vecSha: seq<Digest>, h: Bytes -> Digest, consumed: seq<Digest>, n: nat,
                 pairs: seq<Digest>, queue: seq<Digest>, inter: seq<Digest>)
    requires Reducing(vecSha, h, consumed, n, pairs, queue, inter)
    requires |pairs| < 2 && |queue| > 0
    ensures Reducing(vecSha, h, consumed, n, pairs + [queue[0]], queue[1..], inter)
  {
    assert consumed + pairs + queue == consumed + (pairs + [queue[0]]) + queue[1..];
  }

  /** Hashing a full pair appends one parent to `inter`. */
  lemma StepPair(vecSha: seq<Digest>, h: Bytes -> Digest, consumed: seq<Digest>, n: nat,
                 pairs: seq<Digest>, queue: seq<Digest>, inter: seq<Digest>)
    requires Reducing(vecSha, h, consumed, n, pairs, queue, inter)
    requires |pairs| == 2
    ensures Reducing(vecSha, h, consumed + pairs, n + 1, [], queue, inter + [h(pairs[0] + pairs[1])])
  {
    assert pairs == [pairs[0], pairs[1]];
    LevelAppendPair(consumed, n, pairs[0], pairs[1], h);
    assert consumed + pairs + queue == (consumed + pairs) + [] + queue;
  }

  /** An even level whose parents are more than one digest: the next level
      starts from the parents. */
  lemma StepNextLevel(vecSha: seq<Digest>, h: Bytes -> Digest, consumed: seq<Digest>, n: nat,
                      inter: seq<Digest>)
    requires Reducing(vecSha, h, consumed, n, [], [], inter)
    requires |inter| != 1
    ensures |inter| >= 2
    ensures Reducing(vecSha, h, [], 0, [], inter, [])
  {
    assert consumed + [] + [] == consumed;
    assert [] + [] + inter == inter;
  }

  /** An odd level with more than one parent: the leftover digest is carried
      after the parents and the next level starts from there. */
  lemma StepCarry(vecSha: seq<Digest>, h: Bytes -> Digest, consumed: seq<Digest>, n: nat,
                  pairs: seq<Digest>, inter: seq<Digest>)
    requires Reducing(vecSha, h, consumed, n, pairs, [], inter)
    requires |pairs| == 1 && |inter| >= 2
    ensures Reducing(vecSha, h, [], 0, [], inter + pairs, [])
  {
    assert pairs == [pairs[0]];
    assert consumed + pairs + [] == consumed + [pairs[0]];
    LevelAppendOne(consumed, n, pairs[0], h);
    assert [] + [] + (inter + pairs) == Level(consumed + [pairs[0]], h);
  }

  /** An even level with a single parent: that parent is the tree hash. */
  lemma EndSingleParent(vecSha: seq<Digest>, h: Bytes -> Digest, consumed: seq<Digest>, n: nat,
                        inter: seq<Digest>)
    requires Reducing(vecSha, h, consumed, n, [], [], inter)
    requires |inter| == 1
    ensures inter[0] == TreeHashSpec(vecSha, h)
  {
    assert consumed + [] + [] == consumed;
    assert |consumed| == 2;
    assert TreeHashSpec(consumed, h) == TreeHashSpec(inter, h);
  }

  /** The shortcut of tree_hash: one parent and one leftover digest at the end
      of a level are hashed together at once, which is what one more level
      would compute. */
  lemma EndShortcut(vecSha: seq<Digest>, h: Bytes -> Digest, consumed: seq<Digest>, n: nat,
                    pairs: seq<Digest>, inter: seq<Digest>)
    requires Reducing(vecSha, h, consumed, n, pairs, [], inter)
    requires |pairs| == 1 && |inter| == 1
    ensures h(inter[0] + pairs[0]) == TreeHashSpec(vecSha, h)
  {
    var x, p := pairs[0], inter[0];
    assert consumed + pairs + [] == consumed + [x];
    LevelAppendOne(consumed, n, x, h);
    assert Level(consumed + [x], h) == [p, x];
    assert Level([p, x], h) == [h(p + x)];
    calc {
      TreeHashSpec(consumed + [x], h);
      TreeHashSpec(Level(consumed + [x], h), h);
      TreeHashSpec([p, x], h);
      TreeHashSpec(Level([p, x], h), h);
      TreeHashSpec([h(p + x)], h);
    }
  }

  /** A single input digest, with nothing hashed: it is its own tree hash. */
  lemma EndLone(vecSha: seq<Digest>, h: Bytes -> Digest, consumed: seq<Digest>, n: nat,
                pairs: seq<Digest>, inter: seq<Digest>)
    requires Reducing(vecSha, h, consumed, n, pairs, [], inter)
    requires |pairs| == 1 && |inter| == 0
    ensures pairs[0] == TreeHashSpec(vecSha, h)
  {
    assert consumed == [];
    assert consumed + pairs + [] == [pairs[0]];
  }

  /** tree_hash, as the source runs it: digests move one at a time from
      `queue` to `pairs`; a full pair is hashed onto `inter`; when `queue` is
      exhausted the level ends, either returning the single digest left,
      hashing the last parent with a leftover digest directly, or starting
      the next level from `inter` followed by any leftover. On an empty input
      the source loops forever, so the input must be non-empty. */
  method TreeHash(vecSha: seq<Digest>, h: Bytes -> Digest) returns (r: Digest)
    requires |vecSha| > 0
    ensures r == TreeHashSpec(vecSha, h)
    ensures |vecSha| == 1 ==> r == vecSha[0]
  {
    var queue := vecSha;
    var pairs: seq<Digest> := [];
    var inter: seq<Digest> := [];
    // The digests of the current level already hashed onto inter, and their
    // number of pairs.
    ghost var consumed: seq<Digest> := [];
    ghost var n: nat := 0;
    assert consumed + pairs + queue == vecSha;
    while true
      invariant Reducing(vecSha, h, consumed, n, pairs, queue, inter)
      decreases 4 * |queue| + 3 * |pairs| + 5 * |inter|
    {
      if |pairs| == 2 {
        StepPair(vecSha, h, consumed, n, pairs, queue, inter);
        inter := inter + [h(pairs[0] + pairs[1])];
        consumed, n := consumed + pairs, n + 1;
        pairs := [];
        continue;
      }
      if |queue| == 0 {
        if |pairs| == 0 {
          if |inter| == 1 {
            EndSingleParent(vecSha, h, consumed, n, inter);
            return inter[0];
          }
          StepNextLevel(vecSha, h, consumed, n, inter);
          queue := inter;
          inter := [];
          consumed, n := [], 0;
          continue;
        } else {
          // here |pairs| == 1
          if |inter| == 1 {
            EndShortcut(vecSha, h, consumed, n, pairs, inter);
            return h(inter[0] + pairs[0]);
          } else if |inter| == 0 {
            EndLone(vecSha, h, consumed, n, pairs, inter);
            return pairs[0];
          }
          StepCarry(vecSha, h, consumed, n, pairs, inter);
          inter := inter + pairs;
          queue := inter;
          inter := [];
          pairs := [];
          consumed, n := [], 0;
          continue;
        }
      } else {
        StepTake(vecSha, h, consumed, n, pairs, queue, inter);
        var next := queue[0];
        queue := queue[1..];
        pairs := pairs + [next];
        continue;
      }
    }
  }
}
