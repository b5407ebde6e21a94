/**
 * The shape of a skip list whose nodes live in an arena, stated on values so that each operation's effect on
 * it can be proved one step at a time.
 *
 * `nodes` is the arena and a link is an index into it (`Null`, -1, is the C# null). `levels[L]` lists, left
 * to right, the arena indices of the nodes of level `L` (level 0 at the bottom), `keys[L]` their keys, and
 * `levelOf[i]` is the level arena node `i` is on (-1 once it has been unlinked).
 */
module SkipListShape {
  import opened Outcomes
  import opened StringOrder
  import opened SeqSpec

  const Null := -1

  /** A node: its key (a sentinel or a user key), its value (`None` for sentinels) and its four links. */
  datatype Node<V> = Node(key: Bound, value: Option<V>, next: int, prev: int, above: int, below: int)

  /** Strictly increasing keys. */
  ghost predicate Increasing(ks: seq<Bound>)
  {
    forall p, q {:trigger BoundLess(ks[p], ks[q])} :: 0 <= p < q < |ks| ==> BoundLess(ks[p], ks[q])
  }

  /** Increasing keys are pairwise different. */
  lemma IncreasingUnique(ks: seq<Bound>)
    requires Increasing(ks)
    ensures forall s, t :: 0 <= s < |ks| && 0 <= t < |ks| && ks[s] == ks[t] ==> s == t
  {
    forall s, t | 0 <= s < |ks| && 0 <= t < |ks| && ks[s] == ks[t]
      ensures s == t
    {
      BoundLessIrreflexive(ks[s]);
    }
  }

  /** In increasing keys, the floor found by a search holds `b` exactly when `b` occurs at all. */
  lemma FloorHit(ks: seq<Bound>, p: int, b: Bound)
    requires Increasing(ks) && 0 <= p < |ks| - 1
    requires BoundLe(ks[p], b) && BoundLess(b, ks[p + 1])
    ensures b in ks <==> ks[p] == b
  {
    if b in ks && ks[p] != b {
      var t :| 0 <= t < |ks| && ks[t] == b;
      if t < p {
        BoundLessTransitive(ks[t], ks[p], b);
        BoundLessIrreflexive(b);
      } else if t == p + 1 {
        BoundLessIrreflexive(b);
      } else if t > p + 1 {
        BoundLessTransitive(b, ks[p + 1], ks[t]);
        BoundLessIrreflexive(b);
      }
    }
  }

  /** Inserting a key between its two neighbours keeps the keys increasing. */
  lemma InsertIncreasing(ks: seq<Bound>, i: int, b: Bound, ks': seq<Bound>)
    requires Increasing(ks) && 0 < i < |ks| && IsInserted(ks, i, b, ks')
    requires BoundLess(ks[i - 1], b) && BoundLess(b, ks[i])
    ensures Increasing(ks')
  {
    forall s, t | 0 <= s < t < |ks'|
      ensures BoundLess(ks'[s], ks'[t])
    {
      if s == i && t > i + 1 {
        BoundLessTransitive(b, ks[i], ks[t - 1]);
      } else if t == i && s < i - 1 {
        BoundLessTransitive(ks[s], ks[i - 1], b);
      }
    }
  }

  /** Removing a key keeps the keys increasing. */
  lemma RemoveIncreasing(ks: seq<Bound>, i: int, ks': seq<Bound>)
    requires Increasing(ks) && IsRemoved(ks, i, ks')
    ensures Increasing(ks')
  {
    forall s, t | 0 <= s < t < |ks'|
      ensures BoundLess(ks'[s], ks'[t])
    {
      if s < i && t >= i {
        assert BoundLess(ks[s], ks[t + 1]);
      } else if s >= i {
        assert BoundLess(ks[s + 1], ks[t + 1]);
      }
    }
  }

  /**
   * Level `L`: `lv` holds arena indices and `ks` their keys, bracketed by the sentinels, strictly increasing,
   * and linked by `next` and `prev` in both directions, with null links at the two ends.
   */
  /** Positions `p` and `p + 1` of level `lv` link to each other by `next` and `prev`. */
  ghost predicate Linked<V>(nodes: seq<Node<V>>, lv: seq<int>, p: int)
  {
    && 0 <= p < |lv| - 1 && 0 <= lv[p] < |nodes| && 0 <= lv[p + 1] < |nodes|
    && nodes[lv[p]].next == lv[p + 1] && nodes[lv[p + 1]].prev == lv[p]
  }

  ghost predicate Row<V>(nodes: seq<Node<V>>, levelOf: seq<int>, L: int, lv: seq<int>, ks: seq<Bound>)
  {
    && |levelOf| == |nodes|
    && |lv| == |ks| >= 2
    && ks[0] == NegInf && ks[|ks| - 1] == PosInf
    && Increasing(ks)
    && (forall p :: 0 <= p < |lv| ==> 0 <= lv[p] < |nodes| && nodes[lv[p]].key == ks[p] && levelOf[lv[p]] == L)
    && (forall p :: 0 <= p < |lv| - 1 ==> Linked(nodes, lv, p))
    && nodes[lv[0]].prev == Null && nodes[lv[|lv| - 1]].next == Null
  }

  /** A level visits each of its nodes once. */
  lemma RowDistinct<V>(nodes: seq<Node<V>>, levelOf: seq<int>, L: int, lv: seq<int>, ks: seq<Bound>)
    requires Row(nodes, levelOf, L, lv, ks)
    ensures forall s, t :: 0 <= s < |lv| && 0 <= t < |lv| && lv[s] == lv[t] ==> s == t
  {
    IncreasingUnique(ks);
    forall s, t | 0 <= s < |lv| && 0 <= t < |lv| && lv[s] == lv[t]
      ensures s == t
    {
      assert ks[s] == nodes[lv[s]].key == ks[t];
    }
  }

  /** Every index of `lv` names a node of the arena. */
  ghost predicate InArena<V>(nodes: seq<Node<V>>, lv: seq<int>)
  {
    forall p :: 0 <= p < |lv| ==> 0 <= lv[p] < |nodes|
  }

  /** No node of `lv` has a `below` link. */
  ghost predicate NoneBelow<V>(nodes: seq<Node<V>>, lv: seq<int>)
  {
    forall p :: 0 <= p < |lv| && 0 <= lv[p] < |nodes| ==> nodes[lv[p]].below == Null
  }

  /** No node of `lv` has an `above` link. */
  ghost predicate NoneAbove<V>(nodes: seq<Node<V>>, lv: seq<int>)
  {
    forall p :: 0 <= p < |lv| && 0 <= lv[p] < |nodes| ==> nodes[lv[p]].above == Null
  }

  /**
   * The vertical links between a level (`lower`) and the one above it (`upper`): two nodes with the same key
   * point at each other, and a lower node whose key is not on the upper level has no `above` link.
   */
  ghost predicate Joined<V>(nodes: seq<Node<V>>, lower: seq<int>, lowerKeys: seq<Bound>, upper: seq<int>, upperKeys: seq<Bound>)
    requires InArena(nodes, lower) && InArena(nodes, upper)
    requires |lower| == |lowerKeys| && |upper| == |upperKeys|
  {
    && (forall p, q :: 0 <= p < |upper| && 0 <= q < |lower| && upperKeys[p] == lowerKeys[q] ==>
          nodes[upper[p]].below == lower[q] && nodes[lower[q]].above == upper[p])
    && (forall q :: 0 <= q < |lower| && lowerKeys[q] !in upperKeys ==> nodes[lower[q]].above == Null)
  }

  /** Every key of the upper level is also on the lower one. */
  ghost predicate Contained(upperKeys: seq<Bound>, lowerKeys: seq<Bound>)
  {
    forall p :: 0 <= p < |upperKeys| ==> upperKeys[p] in lowerKeys
  }

  /** Every key of the upper level except `missing` is also on the lower one. */
  ghost predicate ContainedExcept(upperKeys: seq<Bound>, lowerKeys: seq<Bound>, missing: Bound)
  {
    forall p :: 0 <= p < |upperKeys| && upperKeys[p] != missing ==> upperKeys[p] in lowerKeys
  }

  /** Level `L` of the stack is a `Row`. */
  ghost predicate RowAt<V>(nodes: seq<Node<V>>, levelOf: seq<int>, levels: seq<seq<int>>, keys: seq<seq<Bound>>, L: int)
  {
    0 <= L < |levels| && L < |keys| && Row(nodes, levelOf, L, levels[L], keys[L])
  }

  /** Level `L` of the stack is `Joined` to the level below it. */
  ghost predicate JoinedAt<V>(nodes: seq<Node<V>>, levels: seq<seq<int>>, keys: seq<seq<Bound>>, L: int)
  {
    && 0 < L < |levels| && L < |keys| && |levels[L - 1]| == |keys[L - 1]| && |levels[L]| == |keys[L]|
    && InArena(nodes, levels[L - 1]) && InArena(nodes, levels[L])
    && Joined(nodes, levels[L - 1], keys[L - 1], levels[L], keys[L])
  }

  /** The keys of level `L` are on the level below it. */
  ghost predicate NestedAt(keys: seq<seq<Bound>>, L: int)
  {
    0 < L < |keys| && Contained(keys[L], keys[L - 1])
  }

  /**
   * The whole stack of levels: every level is a `Row`, level 0 has no `below` links, the top level has no
   * `above` links, consecutive levels are `Joined`, and each level's keys are on the level below. While
   * `Remove` unlinks a tower the last condition is relaxed on level `gap` for the key `missing`;
   * `gap == 0` relaxes nothing.
   */
  ghost predicate Layered<V>(nodes: seq<Node<V>>, levelOf: seq<int>, levels: seq<seq<int>>, keys: seq<seq<Bound>>, gap: int, missing: Bound)
  {
    && |levels| == |keys| > 0
    && (forall L :: 0 <= L < |levels| ==> RowAt(nodes, levelOf, levels, keys, L))
    && NoneBelow(nodes, levels[0])
    && NoneAbove(nodes, levels[|levels| - 1])
    && (forall L :: 0 < L < |levels| ==> JoinedAt(nodes, levels, keys, L))
    && (forall L :: 0 < L < |levels| && L != gap ==> NestedAt(keys, L))
    && (0 < gap < |levels| ==> ContainedExcept(keys[gap], keys[gap - 1], missing))
  }

  /**
   * The map a skip list represents: its keys are the user keys of level 0 (`base`, with keys `baseKeys`),
   * and each is stored with its value in its level-0 node.
   */
  ghost predicate Maps<V>(nodes: seq<Node<V>>, base: seq<int>, baseKeys: seq<Bound>, contents: map<string, V>)
  {
    && (forall k :: k in contents <==> Key(k) in baseKeys)
    && (forall p :: 0 < p < |base| - 1 && p < |baseKeys| && 0 <= base[p] < |nodes| ==>
          baseKeys[p].Key? && baseKeys[p].k in contents && nodes[base[p]].value == Some(contents[baseKeys[p].k]))
  }

  /** A level stays a `Row` when its nodes keep their keys, horizontal links and level. */
  lemma RowFrame<V>(nodes: seq<Node<V>>, levelOf: seq<int>, nodes': seq<Node<V>>, levelOf': seq<int>, L: int, lv: seq<int>, ks: seq<Bound>)
    requires Row(nodes, levelOf, L, lv, ks) && |levelOf'| == |nodes'|
    requires forall p :: 0 <= p < |lv| ==>
      && lv[p] < |nodes'| && levelOf'[lv[p]] == levelOf[lv[p]] && nodes'[lv[p]].key == nodes[lv[p]].key
      && nodes'[lv[p]].next == nodes[lv[p]].next && nodes'[lv[p]].prev == nodes[lv[p]].prev
    ensures Row(nodes', levelOf', L, lv, ks)
  {
    forall p | 0 <= p < |lv| - 1
      ensures Linked(nodes', lv, p)
    {
      assert Linked(nodes, lv, p);
    }
  }

  /** Two levels stay `Joined` when the upper nodes keep their `below` links and the lower ones their `above`. */
  lemma JoinedFrame<V>(nodes: seq<Node<V>>, nodes': seq<Node<V>>, lower: seq<int>, lowerKeys: seq<Bound>, upper: seq<int>, upperKeys: seq<Bound>)
    requires InArena(nodes, lower) && InArena(nodes, upper) && |lower| == |lowerKeys| && |upper| == |upperKeys|
    requires Joined(nodes, lower, lowerKeys, upper, upperKeys)
    requires InArena(nodes', lower) && InArena(nodes', upper)
    requires forall p :: 0 <= p < |upper| ==> nodes'[upper[p]].below == nodes[upper[p]].below
    requires forall q :: 0 <= q < |lower| ==> nodes'[lower[q]].above == nodes[lower[q]].above
    ensures Joined(nodes', lower, lowerKeys, upper, upperKeys)
  {
  }

  /** The map stays represented when the level-0 nodes keep their values. */
  lemma MapsFrame<V>(nodes: seq<Node<V>>, nodes': seq<Node<V>>, base: seq<int>, baseKeys: seq<Bound>, contents: map<string, V>)
    requires Maps(nodes, base, baseKeys, contents) && InArena(nodes, base) && InArena(nodes', base)
    requires forall p :: 0 <= p < |base| ==> nodes'[base[p]].value == nodes[base[p]].value
    ensures Maps(nodes', base, baseKeys, contents)
  {
  }

  /**
   * The arena after `AddLayer`: two new sentinels at the end, `-oo` above the old top's `-oo` node `h` and
   * `+oo` above its `+oo` node `t`, which now point up at them.
   */
  ghost predicate AddedLayer<V>(nodes: seq<Node<V>>, h: int, t: int, nodes': seq<Node<V>>)
  {
    var n := |nodes|;
    && |nodes'| == n + 2
    && nodes'[n] == Node(NegInf, None, n + 1, Null, Null, h)
    && nodes'[n + 1] == Node(PosInf, None, Null, n, Null, t)
    && forall i :: 0 <= i < n ==>
         nodes'[i] == if i == h then nodes[i].(above := n) else if i == t then nodes[i].(above := n + 1) else nodes[i]
  }

  /** The node writes of `AddLayer`, on the arena. */
  function AddLayerArena<V>(nodes: seq<Node<V>>, h: int, t: int): (r: seq<Node<V>>)
    requires 0 <= h < |nodes| && 0 <= t < |nodes| && h != t
    ensures AddedLayer(nodes, h, t, r)
  {
    var n := |nodes|;
    var a0 := nodes + [Node(NegInf, None, n + 1, Null, Null, h), Node(PosInf, None, Null, n, Null, t)];
    var a1 := a0[h := a0[h].(above := n)];
    a1[t := a1[t].(above := n + 1)]
  }

  /** After `AddLayer` every level, old and new, is a `Row`. */
  lemma AddLayerRows<V>(nodes: seq<Node<V>>, levelOf: seq<int>, levels: seq<seq<int>>, keys: seq<seq<Bound>>, nodes': seq<Node<V>>,
                        levelOf': seq<int>, levels': seq<seq<int>>, keys': seq<seq<Bound>>)
    requires Layered(nodes, levelOf, levels, keys, 0, NegInf) && RowAt(nodes, levelOf, levels, keys, |levels| - 1)
    requires AddedLayer(nodes, levels[|levels| - 1][0], levels[|levels| - 1][|levels[|levels| - 1]| - 1], nodes')
    requires levelOf' == levelOf + [|levels|, |levels|] && levels' == levels + [[|nodes|, |nodes| + 1]]
    requires keys' == keys + [[NegInf, PosInf]]
    ensures forall L :: 0 <= L < |levels'| ==> RowAt(nodes', levelOf', levels', keys', L)
  {
    forall L | 0 <= L < |levels'|
      ensures RowAt(nodes', levelOf', levels', keys', L)
    {
      if L < |levels| {
        assert RowAt(nodes, levelOf, levels, keys, L);
        RowFrame(nodes, levelOf, nodes', levelOf', L, levels[L], keys[L]);
      } else {
        assert Linked(nodes', levels'[L], 0);
      }
    }
  }

  /** After `AddLayer` consecutive levels are `Joined`, the new top level with the old one too. */
  lemma AddLayerJoined<V>(nodes: seq<Node<V>>, levelOf: seq<int>, levels: seq<seq<int>>, keys: seq<seq<Bound>>, nodes': seq<Node<V>>,
                          levelOf': seq<int>, levels': seq<seq<int>>, keys': seq<seq<Bound>>)
    requires Layered(nodes, levelOf, levels, keys, 0, NegInf) && RowAt(nodes, levelOf, levels, keys, |levels| - 1)
    requires AddedLayer(nodes, levels[|levels| - 1][0], levels[|levels| - 1][|levels[|levels| - 1]| - 1], nodes')
    requires levelOf' == levelOf + [|levels|, |levels|] && levels' == levels + [[|nodes|, |nodes| + 1]]
    requires keys' == keys + [[NegInf, PosInf]]
    requires forall L :: 0 <= L < |levels'| ==> RowAt(nodes', levelOf', levels', keys', L)
    ensures forall L :: 0 < L < |levels'| ==> JoinedAt(nodes', levels', keys', L)
  {
    var top := |levels| - 1;
    var lv, ks := levels[top], keys[top];
    var h, t := lv[0], lv[|lv| - 1];
    forall L | 0 < L < |levels'|
      ensures JoinedAt(nodes', levels', keys', L)
    {
      assert RowAt(nodes', levelOf', levels', keys', L - 1) && RowAt(nodes', levelOf', levels', keys', L);
      if L < |levels| {
        assert RowAt(nodes, levelOf, levels, keys, L - 1) && RowAt(nodes, levelOf, levels, keys, L);
        assert JoinedAt(nodes, levels, keys, L);
        AddLayerJoinedBelow(nodes, levelOf, L - 1, levels[L - 1], keys[L - 1], levels[L], keys[L], h, t, nodes');
      } else {
        AddLayerJoinedTop(nodes, levelOf, top, lv, ks, nodes');
      }
    }
  }

  /** Two levels below the old top stay `Joined` after `AddLayer`, which changes only the old top's nodes. */
  lemma AddLayerJoinedBelow<V>(nodes: seq<Node<V>>, levelOf: seq<int>, L: int, lower: seq<int>, lowerKeys: seq<Bound>,
                               upper: seq<int>, upperKeys: seq<Bound>, h: int, t: int, nodes': seq<Node<V>>)
    requires Row(nodes, levelOf, L, lower, lowerKeys) && Row(nodes, levelOf, L + 1, upper, upperKeys)
    requires 0 <= h < |nodes| && 0 <= t < |nodes| && levelOf[h] != L && levelOf[t] != L
    requires Joined(nodes, lower, lowerKeys, upper, upperKeys)
    requires AddedLayer(nodes, h, t, nodes')
    ensures InArena(nodes', lower) && InArena(nodes', upper)
    ensures Joined(nodes', lower, lowerKeys, upper, upperKeys)
  {
    JoinedFrame(nodes, nodes', lower, lowerKeys, upper, upperKeys);
  }

  /** The old top level `lv` and the two new sentinels above it are `Joined`. */
  lemma AddLayerJoinedTop<V>(nodes: seq<Node<V>>, levelOf: seq<int>, top: int, lv: seq<int>, ks: seq<Bound>, nodes': seq<Node<V>>)
    requires Row(nodes, levelOf, top, lv, ks) && NoneAbove(nodes, lv)
    requires AddedLayer(nodes, lv[0], lv[|lv| - 1], nodes')
    ensures InArena(nodes', lv) && InArena(nodes', [|nodes|, |nodes| + 1])
    ensures Joined(nodes', lv, ks, [|nodes|, |nodes| + 1], [NegInf, PosInf])
  {
    var h, t := lv[0], lv[|lv| - 1];
    RowDistinct(nodes, levelOf, top, lv, ks);
    IncreasingUnique(ks);
    forall q | 0 <= q < |lv| && ks[q] !in [NegInf, PosInf]
      ensures nodes'[lv[q]].above == Null
    {
      assert lv[q] != h && lv[q] != t;
    }
  }

  /** `AddLayer` keeps the stack of levels well formed, with a new empty top level. */
  lemma AddLayerKeepsLayered<V>(nodes: seq<Node<V>>, levelOf: seq<int>, levels: seq<seq<int>>, keys: seq<seq<Bound>>, nodes': seq<Node<V>>)
    requires Layered(nodes, levelOf, levels, keys, 0, NegInf) && RowAt(nodes, levelOf, levels, keys, |levels| - 1)
    requires AddedLayer(nodes, levels[|levels| - 1][0], levels[|levels| - 1][|levels[|levels| - 1]| - 1], nodes')
    ensures Layered(nodes', levelOf + [|levels|, |levels|], levels + [[|nodes|, |nodes| + 1]], keys + [[NegInf, PosInf]], 0, NegInf)
  {
    var n, top := |nodes|, |levels| - 1;
    var levelOf', levels', keys' := levelOf + [|levels|, |levels|], levels + [[n, n + 1]], keys + [[NegInf, PosInf]];
    AddLayerRows(nodes, levelOf, levels, keys, nodes', levelOf', levels', keys');
    AddLayerJoined(nodes, levelOf, levels, keys, nodes', levelOf', levels', keys');
    assert RowAt(nodes, levelOf, levels, keys, 0);
    forall L | 0 < L < |levels'|
      ensures NestedAt(keys', L)
    {
      if L < |levels| {
        assert NestedAt(keys, L);
      } else {
        assert keys[top][0] == NegInf && keys[top][|keys[top]| - 1] == PosInf;
      }
    }
    assert levels'[0] == levels[0] && keys'[top + 1] == [NegInf, PosInf];
  }

  /**
   * The arena after a node with key `b` and value `v` is spliced in between `entry` and `nxt` on one level,
   * above the node `below` (or `Null`): the new node is at the end, and its neighbours, and the node below,
   * point at it.
   */
  ghost predicate Spliced<V>(nodes: seq<Node<V>>, entry: int, nxt: int, below: int, b: Bound, v: V, nodes': seq<Node<V>>)
  {
    var n := |nodes|;
    && 0 <= entry < n && 0 <= nxt < n && entry != nxt && (below == Null || 0 <= below < n) && below != entry && below != nxt
    && |nodes'| == n + 1
    && nodes'[n] == Node(b, Some(v), nxt, entry, Null, below)
    && nodes'[entry] == nodes[entry].(next := n)
    && nodes'[nxt] == nodes[nxt].(prev := n)
    && (below != Null ==> nodes'[below] == nodes[below].(above := n))
    && forall i :: 0 <= i < n && i != entry && i != nxt && i != below ==> nodes'[i] == nodes[i]
  }

  /** The node writes of a splice, on the arena: a new node holding `b` and `v` between `entry` and `nxt`, above `below`. */
  function SpliceArena<V>(nodes: seq<Node<V>>, entry: int, nxt: int, below: int, b: Bound, v: V): (r: seq<Node<V>>)
    requires 0 <= entry < |nodes| && 0 <= nxt < |nodes| && entry != nxt
    requires below == Null || (0 <= below < |nodes| && below != entry && below != nxt)
    ensures Spliced(nodes, entry, nxt, below, b, v, r)
  {
    var n := |nodes|;
    var a0 := nodes + [Node(b, Some(v), nxt, entry, Null, below)];
    var a1 := a0[nxt := a0[nxt].(prev := n)];
    var a2 := a1[entry := a1[entry].(next := n)];
    if below != Null then a2[below := a2[below].(above := n)] else a2
  }

  /** What a splice leaves alone in the old nodes: keys, values and `below` links everywhere, the rest away from the three it touches. */
  lemma SplicedFields<V>(nodes: seq<Node<V>>, entry: int, nxt: int, below: int, b: Bound, v: V, nodes': seq<Node<V>>)
    requires Spliced(nodes, entry, nxt, below, b, v, nodes')
    ensures forall i :: 0 <= i < |nodes| ==>
      nodes'[i].key == nodes[i].key && nodes'[i].value == nodes[i].value && nodes'[i].below == nodes[i].below
    ensures forall i :: 0 <= i < |nodes| && i != below ==> nodes'[i].above == nodes[i].above
    ensures forall i :: 0 <= i < |nodes| && i != entry && i != nxt ==> nodes'[i].next == nodes[i].next && nodes'[i].prev == nodes[i].prev
  {
  }

  /** The nodes of the level that receives the new node carry their keys and level, the new node among them. */
  lemma SpliceRowAtNodes<V>(nodes: seq<Node<V>>, levelOf: seq<int>, L: int, lv: seq<int>, ks: seq<Bound>, p: int, b: Bound, v: V,
                            below: int, nodes': seq<Node<V>>, lv': seq<int>, ks': seq<Bound>)
    requires Row(nodes, levelOf, L, lv, ks) && 0 <= p < |lv| - 1
    requires Spliced(nodes, lv[p], lv[p + 1], below, b, v, nodes')
    requires IsInserted(lv, p + 1, |nodes|, lv') && IsInserted(ks, p + 1, b, ks')
    ensures forall s :: 0 <= s < |lv'| ==> 0 <= lv'[s] < |nodes'| && nodes'[lv'[s]].key == ks'[s] && (levelOf + [L])[lv'[s]] == L
  {
    SplicedFields(nodes, lv[p], lv[p + 1], below, b, v, nodes');
  }

  /** The horizontal links of the level that receives the new node run through it. */
  lemma SpliceRowAtLinks<V>(nodes: seq<Node<V>>, levelOf: seq<int>, L: int, lv: seq<int>, ks: seq<Bound>, p: int, b: Bound, v: V,
                            below: int, nodes': seq<Node<V>>, lv': seq<int>)
    requires Row(nodes, levelOf, L, lv, ks) && 0 <= p < |lv| - 1
    requires Spliced(nodes, lv[p], lv[p + 1], below, b, v, nodes')
    requires IsInserted(lv, p + 1, |nodes|, lv')
    ensures forall s :: 0 <= s < |lv'| - 1 ==> Linked(nodes', lv', s)
    ensures nodes'[lv'[0]].prev == Null && nodes'[lv'[|lv'| - 1]].next == Null
  {
    RowDistinct(nodes, levelOf, L, lv, ks);
    SplicedFields(nodes, lv[p], lv[p + 1], below, b, v, nodes');
    forall s | 0 <= s < |lv'| - 1
      ensures Linked(nodes', lv', s)
    {
      if s < p {
        assert Linked(nodes, lv, s);
        assert lv[s] != lv[p] && lv[s] != lv[p + 1] && lv[s + 1] != lv[p + 1];
      } else if s > p + 1 {
        assert Linked(nodes, lv, s - 1);
        assert lv[s - 1] != lv[p] && lv[s] != lv[p] && lv[s] != lv[p + 1];
      }
    }
  }

  /** The level that receives the new node is a `Row` with the node in its place. */
  lemma SpliceRowAt<V>(nodes: seq<Node<V>>, levelOf: seq<int>, L: int, lv: seq<int>, ks: seq<Bound>, p: int, b: Bound, v: V,
                       below: int, nodes': seq<Node<V>>, lv': seq<int>, ks': seq<Bound>)
    requires Row(nodes, levelOf, L, lv, ks) && 0 <= p < |lv| - 1
    requires BoundLess(ks[p], b) && BoundLess(b, ks[p + 1])
    requires Spliced(nodes, lv[p], lv[p + 1], below, b, v, nodes')
    requires IsInserted(lv, p + 1, |nodes|, lv') && IsInserted(ks, p + 1, b, ks')
    ensures Row(nodes', levelOf + [L], L, lv', ks')
  {
    InsertIncreasing(ks, p + 1, b, ks');
    SpliceRowAtNodes(nodes, levelOf, L, lv, ks, p, b, v, below, nodes', lv', ks');
    SpliceRowAtLinks(nodes, levelOf, L, lv, ks, p, b, v, below, nodes', lv');
  }

  /** A level that does not receive the new node stays a `Row`. */
  lemma SpliceRowOther<V>(nodes: seq<Node<V>>, levelOf: seq<int>, L: int, lv: seq<int>, ks: seq<Bound>, entry: int, nxt: int,
                          below: int, b: Bound, v: V, nodes': seq<Node<V>>, at: int)
    requires Row(nodes, levelOf, L, lv, ks) && 0 <= entry < |nodes| && 0 <= nxt < |nodes|
    requires levelOf[entry] == at && levelOf[nxt] == at && L != at
    requires Spliced(nodes, entry, nxt, below, b, v, nodes')
    ensures Row(nodes', levelOf + [at], L, lv, ks)
  {
    SplicedFields(nodes, entry, nxt, below, b, v, nodes');
    RowFrame(nodes, levelOf, nodes', levelOf + [at], L, lv, ks);
  }

  /** After a splice on level `L` every level is a `Row`. */
  lemma SpliceRows<V>(nodes: seq<Node<V>>, levelOf: seq<int>, levels: seq<seq<int>>, keys: seq<seq<Bound>>, L: int, p: int,
                      b: Bound, v: V, below: int, nodes': seq<Node<V>>, lv': seq<int>, ks': seq<Bound>,
                      levels': seq<seq<int>>, keys': seq<seq<Bound>>)
    requires |levels| == |keys| && (forall M :: 0 <= M < |levels| ==> RowAt(nodes, levelOf, levels, keys, M))
    requires RowAt(nodes, levelOf, levels, keys, L) && 0 <= p < |levels[L]| - 1
    requires BoundLess(keys[L][p], b) && BoundLess(b, keys[L][p + 1])
    requires Spliced(nodes, levels[L][p], levels[L][p + 1], below, b, v, nodes')
    requires IsInserted(levels[L], p + 1, |nodes|, lv') && IsInserted(keys[L], p + 1, b, ks')
    requires levels' == levels[L := lv'] && keys' == keys[L := ks']
    ensures forall M :: 0 <= M < |levels'| ==> RowAt(nodes', levelOf + [L], levels', keys', M)
  {
    forall M | 0 <= M < |levels'|
      ensures RowAt(nodes', levelOf + [L], levels', keys', M)
    {
      assert RowAt(nodes, levelOf, levels, keys, M);
      if M == L {
        SpliceRowAt(nodes, levelOf, L, levels[L], keys[L], p, b, v, below, nodes', lv', ks');
      } else {
        SpliceRowOther(nodes, levelOf, M, levels[M], keys[M], levels[L][p], levels[L][p + 1], below, b, v, nodes', L);
      }
    }
  }

  /** Two levels whose `below` and `above` links the splice leaves alone stay `Joined`. */
  lemma SpliceJoinedOther<V>(nodes: seq<Node<V>>, nodes': seq<Node<V>>, lower: seq<int>, lowerKeys: seq<Bound>,
                             upper: seq<int>, upperKeys: seq<Bound>, below: int)
    requires InArena(nodes, lower) && InArena(nodes, upper) && |lower| == |lowerKeys| && |upper| == |upperKeys|
    requires Joined(nodes, lower, lowerKeys, upper, upperKeys) && |nodes'| == |nodes| + 1
    requires forall i :: 0 <= i < |nodes| ==> nodes'[i].below == nodes[i].below
    requires forall i :: 0 <= i < |nodes| && i != below ==> nodes'[i].above == nodes[i].above
    requires forall r :: 0 <= r < |lower| ==> lower[r] != below
    ensures InArena(nodes', lower) && InArena(nodes', upper)
    ensures Joined(nodes', lower, lowerKeys, upper, upperKeys)
  {
    JoinedFrame(nodes, nodes', lower, lowerKeys, upper, upperKeys);
  }

  /**
   * The level that receives the new node (`lv`, becoming `lv'`) and the level above it stay `Joined`: the
   * new key is not on the upper level, and the new node has no `above` link.
   */
  lemma SpliceJoinedAbove<V>(nodes: seq<Node<V>>, nodes': seq<Node<V>>, lv: seq<int>, ks: seq<Bound>, lv': seq<int>, ks': seq<Bound>,
                             upper: seq<int>, upperKeys: seq<Bound>, p: int, b: Bound)
    requires InArena(nodes, lv) && InArena(nodes, upper) && |lv| == |ks| && |upper| == |upperKeys|
    requires Joined(nodes, lv, ks, upper, upperKeys) && b !in upperKeys
    requires IsInserted(lv, p + 1, |nodes|, lv') && IsInserted(ks, p + 1, b, ks')
    requires |nodes'| == |nodes| + 1 && nodes'[|nodes|].above == Null
    requires forall i :: 0 <= i < |nodes| ==> nodes'[i].below == nodes[i].below
    requires forall r :: 0 <= r < |lv| ==> nodes'[lv[r]].above == nodes[lv[r]].above
    ensures InArena(nodes', lv') && InArena(nodes', upper)
    ensures Joined(nodes', lv', ks', upper, upperKeys)
  {
    forall u, r | 0 <= u < |upper| && 0 <= r < |lv'| && upperKeys[u] == ks'[r]
      ensures nodes'[upper[u]].below == lv'[r] && nodes'[lv'[r]].above == upper[u]
    {
      if r != p + 1 {
        var r0 := if r <= p then r else r - 1;
        assert lv'[r] == lv[r0] && ks'[r] == ks[r0];
      }
    }
    forall r | 0 <= r < |lv'| && ks'[r] !in upperKeys
      ensures nodes'[lv'[r]].above == Null
    {
      if r != p + 1 {
        var r0 := if r <= p then r else r - 1;
        assert lv'[r] == lv[r0] && ks'[r] == ks[r0];
      }
    }
  }

  /**
   * The level below the one that receives the new node, and that level, stay `Joined`: the new node and the
   * node `lower[q]` holding the same key point at each other.
   */
  lemma SpliceJoinedBelow<V>(nodes: seq<Node<V>>, nodes': seq<Node<V>>, lower: seq<int>, lowerKeys: seq<Bound>,
                             lv: seq<int>, ks: seq<Bound>, lv': seq<int>, ks': seq<Bound>, p: int, b: Bound, q: int)
    requires InArena(nodes, lower) && InArena(nodes, lv) && |lower| == |lowerKeys| && |lv| == |ks|
    requires Joined(nodes, lower, lowerKeys, lv, ks) && b !in ks
    requires 0 <= q < |lower| && lowerKeys[q] == b
    requires forall r :: 0 <= r < |lower| && lowerKeys[r] == b ==> r == q
    requires IsInserted(lv, p + 1, |nodes|, lv') && IsInserted(ks, p + 1, b, ks')
    requires |nodes'| == |nodes| + 1 && nodes'[|nodes|].below == lower[q] && nodes'[lower[q]].above == |nodes|
    requires forall i :: 0 <= i < |nodes| ==> nodes'[i].below == nodes[i].below
    requires forall r :: 0 <= r < |lower| && r != q ==> nodes'[lower[r]].above == nodes[lower[r]].above
    ensures InArena(nodes', lower) && InArena(nodes', lv')
    ensures Joined(nodes', lower, lowerKeys, lv', ks')
  {
    InsertedMembers(ks, p + 1, b, ks');
    forall u, r | 0 <= u < |lv'| && 0 <= r < |lower| && ks'[u] == lowerKeys[r]
      ensures nodes'[lv'[u]].below == lower[r] && nodes'[lower[r]].above == lv'[u]
    {
      if u != p + 1 {
        var u0 := if u <= p then u else u - 1;
        assert lv'[u] == lv[u0] && ks'[u] == ks[u0];
      }
    }
  }
  /** A key strictly between two neighbours of an increasing level is not on that level. */
  lemma BetweenAbsent(ks: seq<Bound>, p: int, b: Bound)
    requires Increasing(ks) && 0 <= p < |ks| - 1
    requires BoundLess(ks[p], b) && BoundLess(b, ks[p + 1])
    ensures b !in ks
  {
    FloorHit(ks, p, b);
    BoundLessIrreflexive(b);
  }

  /**
   * The conditions under which `Splice` inserts a node with key `b` on level `L` after position `p`: the
   * stack is well formed, `b` falls strictly between the keys at `p` and `p + 1`, and `below` is null on
   * level 0 and otherwise the node at position `q` of level `L - 1`, which holds `b`.
   */
  ghost predicate SplicePlace<V>(nodes: seq<Node<V>>, levelOf: seq<int>, levels: seq<seq<int>>, keys: seq<seq<Bound>>,
                                 L: int, p: int, q: int, b: Bound, below: int)
  {
    && Layered(nodes, levelOf, levels, keys, 0, NegInf)
    && RowAt(nodes, levelOf, levels, keys, L) && 0 <= p < |levels[L]| - 1
    && BoundLess(keys[L][p], b) && BoundLess(b, keys[L][p + 1])
    && (L == 0 ==> below == Null)
    && (L > 0 ==> RowAt(nodes, levelOf, levels, keys, L - 1) && 0 <= q < |levels[L - 1]|
                  && keys[L - 1][q] == b && below == levels[L - 1][q])
  }

  /** The level receiving the node and the one above it after a splice. */
  lemma SpliceJoinedUp<V>(nodes: seq<Node<V>>, levelOf: seq<int>, levels: seq<seq<int>>, keys: seq<seq<Bound>>,
                          L: int, p: int, q: int, b: Bound, v: V, below: int, nodes': seq<Node<V>>, lv': seq<int>, ks': seq<Bound>,
                          levels': seq<seq<int>>, keys': seq<seq<Bound>>)
    requires SplicePlace(nodes, levelOf, levels, keys, L, p, q, b, below) && L + 1 < |levels|
    requires Spliced(nodes, levels[L][p], levels[L][p + 1], below, b, v, nodes')
    requires IsInserted(levels[L], p + 1, |nodes|, lv') && IsInserted(keys[L], p + 1, b, ks')
    requires levels' == levels[L := lv'] && keys' == keys[L := ks']
    ensures JoinedAt(nodes', levels', keys', L + 1)
  {
    assert RowAt(nodes, levelOf, levels, keys, L + 1);
    var lv, ks, upperKeys := levels[L], keys[L], keys[L + 1];
    assert JoinedAt(nodes, levels, keys, L + 1) && NestedAt(keys, L + 1);
    BetweenAbsent(ks, p, b);
    forall u | 0 <= u < |upperKeys|
      ensures upperKeys[u] != b
    {
      assert upperKeys[u] in ks;
    }
    SplicedFields(nodes, lv[p], lv[p + 1], below, b, v, nodes');
    forall r | 0 <= r < |lv|
      ensures nodes'[lv[r]].above == nodes[lv[r]].above
    {
      assert levelOf[lv[r]] == L;
    }
    SpliceJoinedAbove(nodes, nodes', lv, ks, lv', ks', levels[L + 1], keys[L + 1], p, b);
  }

  /** The level below the one receiving the node, and that level, after a splice. */
  lemma SpliceJoinedDown<V>(nodes: seq<Node<V>>, levelOf: seq<int>, levels: seq<seq<int>>, keys: seq<seq<Bound>>,
                            L: int, p: int, q: int, b: Bound, v: V, below: int, nodes': seq<Node<V>>, lv': seq<int>, ks': seq<Bound>,
                            levels': seq<seq<int>>, keys': seq<seq<Bound>>)
    requires SplicePlace(nodes, levelOf, levels, keys, L, p, q, b, below) && L > 0
    requires Spliced(nodes, levels[L][p], levels[L][p + 1], below, b, v, nodes')
    requires IsInserted(levels[L], p + 1, |nodes|, lv') && IsInserted(keys[L], p + 1, b, ks')
    requires levels' == levels[L := lv'] && keys' == keys[L := ks']
    ensures JoinedAt(nodes', levels', keys', L)
  {
    var lower, lowerKeys := levels[L - 1], keys[L - 1];
    assert JoinedAt(nodes, levels, keys, L);
    BetweenAbsent(keys[L], p, b);
    RowDistinct(nodes, levelOf, L - 1, lower, lowerKeys);
    IncreasingUnique(lowerKeys);
    SplicedFields(nodes, levels[L][p], levels[L][p + 1], below, b, v, nodes');
    SpliceJoinedBelow(nodes, nodes', lower, lowerKeys, levels[L], keys[L], lv', ks', p, b, q);
  }

  /** Two levels away from the splice, after it. */
  lemma SpliceJoinedAway<V>(nodes: seq<Node<V>>, levelOf: seq<int>, levels: seq<seq<int>>, keys: seq<seq<Bound>>,
                            L: int, p: int, q: int, b: Bound, v: V, below: int, nodes': seq<Node<V>>, lv': seq<int>, ks': seq<Bound>,
                            levels': seq<seq<int>>, keys': seq<seq<Bound>>, M: int)
    requires SplicePlace(nodes, levelOf, levels, keys, L, p, q, b, below) && 0 < M < |levels| && M != L && M != L + 1
    requires Spliced(nodes, levels[L][p], levels[L][p + 1], below, b, v, nodes')
    requires levels' == levels[L := lv'] && keys' == keys[L := ks']
    ensures JoinedAt(nodes', levels', keys', M)
  {
    assert RowAt(nodes, levelOf, levels, keys, M - 1) && RowAt(nodes, levelOf, levels, keys, M);
    var lower := levels[M - 1];
    assert JoinedAt(nodes, levels, keys, M);
    SplicedFields(nodes, levels[L][p], levels[L][p + 1], below, b, v, nodes');
    forall r | 0 <= r < |lower|
      ensures lower[r] != below
    {
      assert levelOf[lower[r]] == M - 1;
    }
    SpliceJoinedOther(nodes, nodes', levels[M - 1], keys[M - 1], levels[M], keys[M], below);
  }

  /** After a splice consecutive levels are still `Joined`. */
  lemma SpliceJoined<V>(nodes: seq<Node<V>>, levelOf: seq<int>, levels: seq<seq<int>>, keys: seq<seq<Bound>>,
                        L: int, p: int, q: int, b: Bound, v: V, below: int, nodes': seq<Node<V>>, lv': seq<int>, ks': seq<Bound>,
                        levels': seq<seq<int>>, keys': seq<seq<Bound>>)
    requires SplicePlace(nodes, levelOf, levels, keys, L, p, q, b, below)
    requires Spliced(nodes, levels[L][p], levels[L][p + 1], below, b, v, nodes')
    requires IsInserted(levels[L], p + 1, |nodes|, lv') && IsInserted(keys[L], p + 1, b, ks')
    requires levels' == levels[L := lv'] && keys' == keys[L := ks']
    ensures forall M :: 0 < M < |levels'| ==> JoinedAt(nodes', levels', keys', M)
  {
    forall M | 0 < M < |levels'|
      ensures JoinedAt(nodes', levels', keys', M)
    {
      if M == L + 1 {
        SpliceJoinedUp(nodes, levelOf, levels, keys, L, p, q, b, v, below, nodes', lv', ks', levels', keys');
      } else if M == L {
        SpliceJoinedDown(nodes, levelOf, levels, keys, L, p, q, b, v, below, nodes', lv', ks', levels', keys');
      } else {
        SpliceJoinedAway(nodes, levelOf, levels, keys, L, p, q, b, v, below, nodes', lv', ks', levels', keys', M);
      }
    }
  }

  /** After a splice each level's keys are still on the level below. */
  lemma SpliceNested(keys: seq<seq<Bound>>, L: int, p: int, q: int, b: Bound, ks': seq<Bound>, keys': seq<seq<Bound>>)
    requires forall M :: 0 < M < |keys| ==> NestedAt(keys, M)
    requires 0 <= L < |keys| && (L > 0 ==> 0 <= q < |keys[L - 1]| && keys[L - 1][q] == b)
    requires IsInserted(keys[L], p + 1, b, ks') && keys' == keys[L := ks']
    ensures forall M :: 0 < M < |keys'| ==> NestedAt(keys', M)
  {
    InsertedMembers(keys[L], p + 1, b, ks');
    forall M | 0 < M < |keys'|
      ensures NestedAt(keys', M)
    {
      assert NestedAt(keys, M);
      if M == L {
        assert keys[L - 1][q] == b;
      }
    }
  }

  /** After a splice level 0 still has no `below` links and the top level no `above` links. */
  lemma SpliceEnds<V>(nodes: seq<Node<V>>, levelOf: seq<int>, levels: seq<seq<int>>, keys: seq<seq<Bound>>,
                      L: int, p: int, q: int, b: Bound, v: V, below: int, nodes': seq<Node<V>>, lv': seq<int>, levels': seq<seq<int>>)
    requires SplicePlace(nodes, levelOf, levels, keys, L, p, q, b, below)
    requires Spliced(nodes, levels[L][p], levels[L][p + 1], below, b, v, nodes')
    requires IsInserted(levels[L], p + 1, |nodes|, lv') && levels' == levels[L := lv']
    ensures NoneBelow(nodes', levels'[0]) && NoneAbove(nodes', levels'[|levels'| - 1])
  {
    var top := |levels| - 1;
    SplicedFields(nodes, levels[L][p], levels[L][p + 1], below, b, v, nodes');
    assert RowAt(nodes, levelOf, levels, keys, 0) && RowAt(nodes, levelOf, levels, keys, top);
    assert L > 0 ==> levelOf[below] == L - 1;
    forall r | 0 <= r < |levels'[top]| && 0 <= levels'[top][r] < |nodes'|
      ensures nodes'[levels'[top][r]].above == Null
    {
      if L != top || r != p + 1 {
        var r0 := if L != top || r <= p then r else r - 1;
        assert levels'[top][r] == levels[top][r0];
        assert levelOf[levels[top][r0]] == top;
      }
    }
    forall r | 0 <= r < |levels'[0]| && 0 <= levels'[0][r] < |nodes'|
      ensures nodes'[levels'[0][r]].below == Null
    {
      if L != 0 || r != p + 1 {
        var r0 := if L != 0 || r <= p then r else r - 1;
        assert levels'[0][r] == levels[0][r0];
      }
    }
  }

  /** A splice keeps the stack of levels well formed, with the new node in place on level `L`. */
  lemma SpliceKeepsLayered<V>(nodes: seq<Node<V>>, levelOf: seq<int>, levels: seq<seq<int>>, keys: seq<seq<Bound>>,
                              L: int, p: int, q: int, b: Bound, v: V, below: int, nodes': seq<Node<V>>, lv': seq<int>, ks': seq<Bound>)
    requires SplicePlace(nodes, levelOf, levels, keys, L, p, q, b, below)
    requires Spliced(nodes, levels[L][p], levels[L][p + 1], below, b, v, nodes')
    requires IsInserted(levels[L], p + 1, |nodes|, lv') && IsInserted(keys[L], p + 1, b, ks')
    ensures Layered(nodes', levelOf + [L], levels[L := lv'], keys[L := ks'], 0, NegInf)
  {
    var levels', keys' := levels[L := lv'], keys[L := ks'];
    SpliceRows(nodes, levelOf, levels, keys, L, p, b, v, below, nodes', lv', ks', levels', keys');
    SpliceJoined(nodes, levelOf, levels, keys, L, p, q, b, v, below, nodes', lv', ks', levels', keys');
    SpliceNested(keys, L, p, q, b, ks', keys');
    SpliceEnds(nodes, levelOf, levels, keys, L, p, q, b, v, below, nodes', lv', levels');
  }

  /** A splice on level 0 adds the key `k` with value `v` to the map. */
  lemma SpliceBaseMaps<V>(nodes: seq<Node<V>>, base: seq<int>, baseKeys: seq<Bound>, contents: map<string, V>,
                          p: int, k: string, v: V, nodes': seq<Node<V>>, lv': seq<int>, ks': seq<Bound>)
    requires Maps(nodes, base, baseKeys, contents) && InArena(nodes, base) && |base| == |baseKeys| && 0 <= p < |base| - 1
    requires Key(k) !in baseKeys
    requires IsInserted(base, p + 1, |nodes|, lv') && IsInserted(baseKeys, p + 1, Key(k), ks')
    requires |nodes'| == |nodes| + 1 && nodes'[|nodes|].value == Some(v)
    requires forall i :: 0 <= i < |nodes| ==> nodes'[i].value == nodes[i].value
    ensures Maps(nodes', lv', ks', contents[k := v])
  {
    InsertedMembers(baseKeys, p + 1, Key(k), ks');
    forall r | 0 < r < |lv'| - 1 && r < |ks'| && 0 <= lv'[r] < |nodes'|
      ensures ks'[r].Key? && ks'[r].k in contents[k := v] && nodes'[lv'[r]].value == Some(contents[k := v][ks'[r].k])
    {
      if r != p + 1 {
        var r0 := if r <= p then r else r - 1;
        assert lv'[r] == base[r0] && ks'[r] == baseKeys[r0] && 0 < r0 < |base| - 1;
      }
    }
  }

  /** A splice on level 0 adds the key `k` with value `v` to the map; a splice higher up leaves it alone. */
  lemma SpliceKeepsMaps<V>(nodes: seq<Node<V>>, levelOf: seq<int>, levels: seq<seq<int>>, keys: seq<seq<Bound>>, contents: map<string, V>,
                           L: int, p: int, q: int, k: string, v: V, below: int, nodes': seq<Node<V>>, lv': seq<int>, ks': seq<Bound>)
    requires SplicePlace(nodes, levelOf, levels, keys, L, p, q, Key(k), below) && Maps(nodes, levels[0], keys[0], contents)
    requires Spliced(nodes, levels[L][p], levels[L][p + 1], below, Key(k), v, nodes')
    requires IsInserted(levels[L], p + 1, |nodes|, lv') && IsInserted(keys[L], p + 1, Key(k), ks')
    ensures L == 0 ==> Maps(nodes', lv', ks', contents[k := v])
    ensures L > 0 ==> Maps(nodes', levels[0], keys[0], contents)
  {
    SplicedFields(nodes, levels[L][p], levels[L][p + 1], below, Key(k), v, nodes');
    assert RowAt(nodes, levelOf, levels, keys, 0);
    if L == 0 {
      BetweenAbsent(keys[0], p, Key(k));
      SpliceBaseMaps(nodes, levels[0], keys[0], contents, p, k, v, nodes', lv', ks');
    } else {
      MapsFrame(nodes, nodes', levels[0], keys[0], contents);
    }
  }

  /**
   * The arena after `Remove` unlinks node `t` from its level: its neighbours point past it, and the node
   * above it, if any, loses its `below` link. `t` itself keeps its links.
   */
  ghost predicate Unlinked<V>(nodes: seq<Node<V>>, t: int, nodes': seq<Node<V>>)
  {
    0 <= t < |nodes| &&
    var prv, nxt, up := nodes[t].prev, nodes[t].next, nodes[t].above;
    && 0 <= prv < |nodes| && 0 <= nxt < |nodes| && prv != nxt && prv != t && nxt != t
    && (up == Null || (0 <= up < |nodes| && up != t && up != prv && up != nxt))
    && |nodes'| == |nodes|
    && nodes'[prv] == nodes[prv].(next := nxt)
    && nodes'[nxt] == nodes[nxt].(prev := prv)
    && (up != Null ==> nodes'[up] == nodes[up].(below := Null))
    && forall i :: 0 <= i < |nodes| && i != prv && i != nxt && i != up ==> nodes'[i] == nodes[i]
  }

  /** The node writes of one step of `Remove`, on the arena: node `t`'s neighbours skip it and the node above it loses its `below`. */
  function UnlinkArena<V>(nodes: seq<Node<V>>, t: int): (r: seq<Node<V>>)
    requires 0 <= t < |nodes|
    requires var n := nodes[t];
      && 0 <= n.prev < |nodes| && 0 <= n.next < |nodes| && n.prev != n.next && n.prev != t && n.next != t
      && (n.above == Null || (0 <= n.above < |nodes| && n.above != t && n.above != n.prev && n.above != n.next))
    ensures Unlinked(nodes, t, r)
  {
    var prv, nxt, up := nodes[t].prev, nodes[t].next, nodes[t].above;
    var a0 := nodes[prv := nodes[prv].(next := nxt)];
    var a1 := a0[nxt := a0[nxt].(prev := prv)];
    if up != Null then a1[up := a1[up].(below := Null)] else a1
  }

  /** What unlinking leaves alone: keys, values and `above` links everywhere, the rest away from the nodes it touches. */
  lemma UnlinkedFields<V>(nodes: seq<Node<V>>, t: int, nodes': seq<Node<V>>)
    requires Unlinked(nodes, t, nodes')
    ensures forall i :: 0 <= i < |nodes| ==>
      nodes'[i].key == nodes[i].key && nodes'[i].value == nodes[i].value && nodes'[i].above == nodes[i].above
    ensures forall i :: 0 <= i < |nodes| ==> nodes'[i].below == Null || nodes'[i].below == nodes[i].below
    ensures forall i :: 0 <= i < |nodes| && i != nodes[t].above ==> nodes'[i].below == nodes[i].below
    ensures forall i :: 0 <= i < |nodes| && i != nodes[t].prev && i != nodes[t].next ==>
      nodes'[i].next == nodes[i].next && nodes'[i].prev == nodes[i].prev
  {
  }

  /** The level a node is unlinked from is a `Row` without it. */
  lemma UnlinkRowAt<V>(nodes: seq<Node<V>>, levelOf: seq<int>, L: int, lv: seq<int>, ks: seq<Bound>, p: int,
                       nodes': seq<Node<V>>, levelOf': seq<int>, lv': seq<int>, ks': seq<Bound>)
    requires Row(nodes, levelOf, L, lv, ks) && 0 < p < |lv| - 1
    requires Unlinked(nodes, lv[p], nodes') && levelOf' == levelOf[lv[p] := Null]
    requires IsRemoved(lv, p, lv') && IsRemoved(ks, p, ks')
    ensures Row(nodes', levelOf', L, lv', ks')
  {
    RemoveIncreasing(ks, p, ks');
    RowDistinct(nodes, levelOf, L, lv, ks);
    UnlinkedFields(nodes, lv[p], nodes');
    forall s | 0 <= s < |lv'|
      ensures 0 <= lv'[s] < |nodes'| && nodes'[lv'[s]].key == ks'[s] && levelOf'[lv'[s]] == L
    {
      var s0 := if s < p then s else s + 1;
      assert lv'[s] == lv[s0] && ks'[s] == ks[s0] && lv[s0] != lv[p];
    }
    assert Linked(nodes, lv, p - 1) && Linked(nodes, lv, p);
    forall s | 0 <= s < |lv'| - 1
      ensures Linked(nodes', lv', s)
    {
      if s < p - 1 {
        assert Linked(nodes, lv, s);
        assert lv[s] != lv[p - 1] && lv[s] != lv[p + 1] && lv[s + 1] != lv[p + 1];
      } else if s >= p {
        assert Linked(nodes, lv, s + 1);
        assert lv[s + 1] != lv[p - 1] && lv[s + 2] != lv[p - 1] && lv[s + 2] != lv[p + 1];
      }
    }
  }

  /** A level a node is not unlinked from stays a `Row`. */
  lemma UnlinkRowOther<V>(nodes: seq<Node<V>>, levelOf: seq<int>, M: int, lv: seq<int>, ks: seq<Bound>, t: int, at: int,
                          nodes': seq<Node<V>>)
    requires Row(nodes, levelOf, M, lv, ks) && Unlinked(nodes, t, nodes') && at != M
    requires levelOf[t] == at && levelOf[nodes[t].prev] == at && levelOf[nodes[t].next] == at
    ensures Row(nodes', levelOf[t := Null], M, lv, ks)
  {
    UnlinkedFields(nodes, t, nodes');
    RowFrame(nodes, levelOf, nodes', levelOf[t := Null], M, lv, ks);
  }

  /** The level a node is unlinked from, with the level below it, where the key is already gone. */
  lemma UnlinkJoinedUpper<V>(nodes: seq<Node<V>>, nodes': seq<Node<V>>, lower: seq<int>, lowerKeys: seq<Bound>,
                             lv: seq<int>, ks: seq<Bound>, lv': seq<int>, ks': seq<Bound>, p: int)
    requires InArena(nodes, lower) && InArena(nodes, lv) && |lower| == |lowerKeys| && |lv| == |ks|
    requires IsRemoved(lv, p, lv') && IsRemoved(ks, p, ks') && |nodes'| == |nodes|
    requires Joined(nodes, lower, lowerKeys, lv, ks) && ks[p] !in lowerKeys
    requires forall i :: 0 <= i < |nodes| ==> nodes'[i].above == nodes[i].above
    requires forall s :: 0 <= s < |lv| ==> nodes'[lv[s]].below == nodes[lv[s]].below
    ensures InArena(nodes', lower) && InArena(nodes', lv')
    ensures Joined(nodes', lower, lowerKeys, lv', ks')
  {
    RemovedMembers(ks, p, ks');
    forall u, r | 0 <= u < |lv'| && 0 <= r < |lower| && ks'[u] == lowerKeys[r]
      ensures nodes'[lv'[u]].below == lower[r] && nodes'[lower[r]].above == lv'[u]
    {
      var u0 := if u < p then u else u + 1;
      assert lv'[u] == lv[u0] && ks'[u] == ks[u0];
    }
  }

  /** The level a node is unlinked from, with the level above it, whose node of that key loses its `below` link. */
  lemma UnlinkJoinedLower<V>(nodes: seq<Node<V>>, nodes': seq<Node<V>>, lv: seq<int>, ks: seq<Bound>, lv': seq<int>, ks': seq<Bound>,
                             upper: seq<int>, upperKeys: seq<Bound>, p: int)
    requires InArena(nodes, lv) && InArena(nodes, upper) && |lv| == |ks| && |upper| == |upperKeys|
    requires Joined(nodes, lv, ks, upper, upperKeys)
    requires IsRemoved(lv, p, lv') && IsRemoved(ks, p, ks') && |nodes'| == |nodes|
    requires forall s :: 0 <= s < |ks| && s != p ==> ks[s] != ks[p]
    requires forall i :: 0 <= i < |nodes| ==> nodes'[i].above == nodes[i].above
    requires forall u :: 0 <= u < |upper| && upperKeys[u] != ks[p] ==> nodes'[upper[u]].below == nodes[upper[u]].below
    ensures InArena(nodes', lv') && InArena(nodes', upper)
    ensures Joined(nodes', lv', ks', upper, upperKeys)
  {
    forall u, r | 0 <= u < |upper| && 0 <= r < |lv'| && upperKeys[u] == ks'[r]
      ensures nodes'[upper[u]].below == lv'[r] && nodes'[lv'[r]].above == upper[u]
    {
      var r0 := if r < p then r else r + 1;
      assert lv'[r] == lv[r0] && ks'[r] == ks[r0];
    }
    forall r | 0 <= r < |lv'| && ks'[r] !in upperKeys
      ensures nodes'[lv'[r]].above == Null
    {
      var r0 := if r < p then r else r + 1;
      assert lv'[r] == lv[r0] && ks'[r] == ks[r0];
    }
  }

  /**
   * The conditions under which `Remove` unlinks the node at position `p` of level `L`, holding the user key
   * `b`: the stack is well formed except that `b` may be missing below level `L`, where it is gone already.
   */
  ghost predicate UnlinkPlace<V>(nodes: seq<Node<V>>, levelOf: seq<int>, levels: seq<seq<int>>, keys: seq<seq<Bound>>,
                                 L: int, p: int, b: Bound)
  {
    && Layered(nodes, levelOf, levels, keys, L, b)
    && RowAt(nodes, levelOf, levels, keys, L) && 0 < p < |levels[L]| - 1 && keys[L][p] == b
    && (L > 0 ==> RowAt(nodes, levelOf, levels, keys, L - 1) && b !in keys[L - 1])
  }

  /** Which node, if any, is above the node at position `p` of level `L`: the one holding the same key. */
  lemma TowerUp<V>(nodes: seq<Node<V>>, levelOf: seq<int>, levels: seq<seq<int>>, keys: seq<seq<Bound>>, gap: int, missing: Bound,
                   L: int, p: int) returns (u: int)
    requires Layered(nodes, levelOf, levels, keys, gap, missing) && RowAt(nodes, levelOf, levels, keys, L) && 0 <= p < |levels[L]|
    ensures nodes[levels[L][p]].above == Null ==> L + 1 == |levels| || keys[L][p] !in keys[L + 1]
    ensures nodes[levels[L][p]].above != Null ==>
      && RowAt(nodes, levelOf, levels, keys, L + 1) && 0 <= u < |levels[L + 1]|
      && levels[L + 1][u] == nodes[levels[L][p]].above && keys[L + 1][u] == keys[L][p]
  {
    u := 0;
    if L + 1 < |levels| {
      assert RowAt(nodes, levelOf, levels, keys, L + 1) && JoinedAt(nodes, levels, keys, L + 1);
      if keys[L][p] in keys[L + 1] {
        u :| 0 <= u < |keys[L + 1]| && keys[L + 1][u] == keys[L][p];
      }
    } else {
      assert L == |levels| - 1;
    }
  }

  /** Unlinking keeps every level a `Row`. */
  lemma UnlinkRows<V>(nodes: seq<Node<V>>, levelOf: seq<int>, levels: seq<seq<int>>, keys: seq<seq<Bound>>, L: int, p: int, b: Bound,
                      nodes': seq<Node<V>>, levelOf': seq<int>, lv': seq<int>, ks': seq<Bound>, levels': seq<seq<int>>,
                      keys': seq<seq<Bound>>)
    requires UnlinkPlace(nodes, levelOf, levels, keys, L, p, b)
    requires Unlinked(nodes, levels[L][p], nodes') && levelOf' == levelOf[levels[L][p] := Null]
    requires IsRemoved(levels[L], p, lv') && IsRemoved(keys[L], p, ks')
    requires levels' == levels[L := lv'] && keys' == keys[L := ks']
    ensures forall M :: 0 <= M < |levels'| ==> RowAt(nodes', levelOf', levels', keys', M)
  {
    var lv := levels[L];
    assert levelOf[lv[p - 1]] == L && levelOf[lv[p]] == L && levelOf[lv[p + 1]] == L;
    assert Linked(nodes, lv, p - 1) && Linked(nodes, lv, p);
    forall M | 0 <= M < |levels'|
      ensures RowAt(nodes', levelOf', levels', keys', M)
    {
      assert RowAt(nodes, levelOf, levels, keys, M);
      if M == L {
        UnlinkRowAt(nodes, levelOf, L, lv, keys[L], p, nodes', levelOf[lv[p] := Null], lv', ks');
      } else {
        UnlinkRowOther(nodes, levelOf, M, levels[M], keys[M], lv[p], L, nodes');
      }
    }
  }

  /** Unlinking keeps consecutive levels `Joined`. */
  lemma UnlinkJoined<V>(nodes: seq<Node<V>>, levelOf: seq<int>, levels: seq<seq<int>>, keys: seq<seq<Bound>>, L: int, p: int, b: Bound,
                        nodes': seq<Node<V>>, lv': seq<int>, ks': seq<Bound>, levels': seq<seq<int>>, keys': seq<seq<Bound>>)
    requires UnlinkPlace(nodes, levelOf, levels, keys, L, p, b)
    requires Unlinked(nodes, levels[L][p], nodes')
    requires IsRemoved(levels[L], p, lv') && IsRemoved(keys[L], p, ks')
    requires levels' == levels[L := lv'] && keys' == keys[L := ks']
    ensures forall M :: 0 < M < |levels'| ==> JoinedAt(nodes', levels', keys', M)
  {
    forall M | 0 < M < |levels'|
      ensures JoinedAt(nodes', levels', keys', M)
    {
      if M == L {
        UnlinkJoinedAt(nodes, levelOf, levels, keys, L, p, b, nodes', lv', ks', levels', keys');
      } else if M == L + 1 {
        UnlinkJoinedAbove(nodes, levelOf, levels, keys, L, p, b, nodes', lv', ks', levels', keys');
      } else {
        UnlinkJoinedAway(nodes, levelOf, levels, keys, L, p, b, nodes', lv', ks', levels', keys', M);
      }
    }
  }

  /** After unlinking, the level it happened on and the level below it. */
  lemma UnlinkJoinedAt<V>(nodes: seq<Node<V>>, levelOf: seq<int>, levels: seq<seq<int>>, keys: seq<seq<Bound>>, L: int, p: int, b: Bound,
                          nodes': seq<Node<V>>, lv': seq<int>, ks': seq<Bound>, levels': seq<seq<int>>, keys': seq<seq<Bound>>)
    requires UnlinkPlace(nodes, levelOf, levels, keys, L, p, b) && L > 0
    requires Unlinked(nodes, levels[L][p], nodes')
    requires IsRemoved(levels[L], p, lv') && IsRemoved(keys[L], p, ks')
    requires levels' == levels[L := lv'] && keys' == keys[L := ks']
    ensures JoinedAt(nodes', levels', keys', L)
  {
    var lv := levels[L];
    assert JoinedAt(nodes, levels, keys, L);
    UnlinkedFields(nodes, lv[p], nodes');
    assert nodes[lv[p]].above == Null || levelOf[nodes[lv[p]].above] == L + 1 by {
      var u := TowerUp(nodes, levelOf, levels, keys, L, b, L, p);
    }
    forall s | 0 <= s < |lv|
      ensures nodes'[lv[s]].below == nodes[lv[s]].below
    {
      assert levelOf[lv[s]] == L;
    }
    UnlinkJoinedUpper(nodes, nodes', levels[L - 1], keys[L - 1], lv, keys[L], lv', ks', p);
  }

  /** After unlinking, the level it happened on and the level above it. */
  lemma UnlinkJoinedAbove<V>(nodes: seq<Node<V>>, levelOf: seq<int>, levels: seq<seq<int>>, keys: seq<seq<Bound>>, L: int, p: int, b: Bound,
                             nodes': seq<Node<V>>, lv': seq<int>, ks': seq<Bound>, levels': seq<seq<int>>, keys': seq<seq<Bound>>)
    requires UnlinkPlace(nodes, levelOf, levels, keys, L, p, b) && L + 1 < |levels|
    requires Unlinked(nodes, levels[L][p], nodes')
    requires IsRemoved(levels[L], p, lv') && IsRemoved(keys[L], p, ks')
    requires levels' == levels[L := lv'] && keys' == keys[L := ks']
    ensures JoinedAt(nodes', levels', keys', L + 1)
  {
    var lv, upper, upperKeys := levels[L], levels[L + 1], keys[L + 1];
    assert RowAt(nodes, levelOf, levels, keys, L + 1) && JoinedAt(nodes, levels, keys, L + 1);
    UnlinkedFields(nodes, lv[p], nodes');
    IncreasingUnique(keys[L]);
    var w := TowerUp(nodes, levelOf, levels, keys, L, b, L, p);
    forall u | 0 <= u < |upper| && upperKeys[u] != b
      ensures nodes'[upper[u]].below == nodes[upper[u]].below
    {
      assert nodes[upper[u]].key == upperKeys[u];
    }
    UnlinkJoinedLower(nodes, nodes', lv, keys[L], lv', ks', upper, upperKeys, p);
  }

  /** After unlinking, two levels away from it. */
  lemma UnlinkJoinedAway<V>(nodes: seq<Node<V>>, levelOf: seq<int>, levels: seq<seq<int>>, keys: seq<seq<Bound>>, L: int, p: int, b: Bound,
                            nodes': seq<Node<V>>, lv': seq<int>, ks': seq<Bound>, levels': seq<seq<int>>, keys': seq<seq<Bound>>, M: int)
    requires UnlinkPlace(nodes, levelOf, levels, keys, L, p, b) && 0 < M < |levels| && M != L && M != L + 1
    requires Unlinked(nodes, levels[L][p], nodes')
    requires levels' == levels[L := lv'] && keys' == keys[L := ks']
    ensures JoinedAt(nodes', levels', keys', M)
  {
    var upper := levels[M];
    assert RowAt(nodes, levelOf, levels, keys, M - 1) && RowAt(nodes, levelOf, levels, keys, M);
    assert JoinedAt(nodes, levels, keys, M);
    UnlinkedFields(nodes, levels[L][p], nodes');
    assert nodes[levels[L][p]].above == Null || levelOf[nodes[levels[L][p]].above] == L + 1 by {
      var u := TowerUp(nodes, levelOf, levels, keys, L, b, L, p);
    }
    forall u | 0 <= u < |upper|
      ensures nodes'[upper[u]].below == nodes[upper[u]].below
    {
      assert levelOf[upper[u]] == M;
    }
    JoinedFrame(nodes, nodes', levels[M - 1], keys[M - 1], upper, keys[M]);
  }

  /** Unlinking moves the gap in the nesting of keys up by one level. */
  lemma UnlinkNested(keys: seq<seq<Bound>>, L: int, p: int, b: Bound, ks': seq<Bound>, keys': seq<seq<Bound>>)
    requires forall M :: 0 < M < |keys| && M != L ==> NestedAt(keys, M)
    requires 0 < L < |keys| ==> ContainedExcept(keys[L], keys[L - 1], b)
    requires 0 <= L < |keys| && IsRemoved(keys[L], p, ks') && keys[L][p] == b && keys' == keys[L := ks']
    requires forall s :: 0 <= s < |keys[L]| && s != p ==> keys[L][s] != b
    ensures forall M :: 0 < M < |keys'| && M != L + 1 ==> NestedAt(keys', M)
    ensures L + 1 < |keys'| ==> ContainedExcept(keys'[L + 1], keys'[L], b)
  {
    RemovedMembers(keys[L], p, ks');
    forall M | 0 < M < |keys'| && M != L + 1
      ensures NestedAt(keys', M)
    {
      if M != L {
        assert NestedAt(keys, M);
      } else {
        forall r | 0 <= r < |ks'|
          ensures ks'[r] in keys[L - 1]
        {
          var r0 := if r < p then r else r + 1;
          assert ks'[r] == keys[L][r0];
        }
      }
    }
    if L + 1 < |keys'| {
      assert NestedAt(keys, L + 1);
    }
  }

  /** Unlinking keeps level 0 without `below` links and the top level without `above` links. */
  lemma UnlinkEnds<V>(nodes: seq<Node<V>>, levelOf: seq<int>, levels: seq<seq<int>>, keys: seq<seq<Bound>>, L: int, p: int, b: Bound,
                      nodes': seq<Node<V>>, lv': seq<int>, levels': seq<seq<int>>)
    requires UnlinkPlace(nodes, levelOf, levels, keys, L, p, b)
    requires Unlinked(nodes, levels[L][p], nodes')
    requires IsRemoved(levels[L], p, lv') && levels' == levels[L := lv']
    ensures NoneBelow(nodes', levels'[0]) && NoneAbove(nodes', levels'[|levels'| - 1])
  {
    var top := |levels| - 1;
    UnlinkedFields(nodes, levels[L][p], nodes');
    assert RowAt(nodes, levelOf, levels, keys, 0) && RowAt(nodes, levelOf, levels, keys, top);
    forall r | 0 <= r < |levels'[top]| && 0 <= levels'[top][r] < |nodes'|
      ensures nodes'[levels'[top][r]].above == Null
    {
      var r0 := if L != top || r < p then r else r + 1;
      assert levels'[top][r] == levels[top][r0];
    }
    forall r | 0 <= r < |levels'[0]| && 0 <= levels'[0][r] < |nodes'|
      ensures nodes'[levels'[0][r]].below == Null
    {
      var r0 := if L != 0 || r < p then r else r + 1;
      assert levels'[0][r] == levels[0][r0];
    }
  }

  /** Unlinking the node of `b` on level `L` keeps the stack well formed, with `b` now missing up to level `L + 1`. */
  lemma UnlinkKeepsLayered<V>(nodes: seq<Node<V>>, levelOf: seq<int>, levels: seq<seq<int>>, keys: seq<seq<Bound>>, L: int, p: int, b: Bound,
                              nodes': seq<Node<V>>, lv': seq<int>, ks': seq<Bound>)
    requires UnlinkPlace(nodes, levelOf, levels, keys, L, p, b)
    requires Unlinked(nodes, levels[L][p], nodes')
    requires IsRemoved(levels[L], p, lv') && IsRemoved(keys[L], p, ks')
    ensures Layered(nodes', levelOf[levels[L][p] := Null], levels[L := lv'], keys[L := ks'], L + 1, b)
  {
    var levels', keys' := levels[L := lv'], keys[L := ks'];
    UnlinkRows(nodes, levelOf, levels, keys, L, p, b, nodes', levelOf[levels[L][p] := Null], lv', ks', levels', keys');
    UnlinkJoined(nodes, levelOf, levels, keys, L, p, b, nodes', lv', ks', levels', keys');
    assert RowAt(nodes, levelOf, levels, keys, L);
    IncreasingUnique(keys[L]);
    UnlinkNested(keys, L, p, b, ks', keys');
    UnlinkEnds(nodes, levelOf, levels, keys, L, p, b, nodes', lv', levels');
  }

  /** Unlinking on level 0 drops the key `k` from the map; unlinking higher up leaves it alone. */
  lemma UnlinkKeepsMaps<V>(nodes: seq<Node<V>>, levelOf: seq<int>, levels: seq<seq<int>>, keys: seq<seq<Bound>>, contents: map<string, V>,
                           L: int, p: int, k: string, nodes': seq<Node<V>>, lv': seq<int>, ks': seq<Bound>)
    requires UnlinkPlace(nodes, levelOf, levels, keys, L, p, Key(k)) && Maps(nodes, levels[0], keys[0], contents)
    requires Unlinked(nodes, levels[L][p], nodes')
    requires IsRemoved(levels[L], p, lv') && IsRemoved(keys[L], p, ks')
    ensures L == 0 ==> Maps(nodes', lv', ks', contents - {k})
    ensures L > 0 ==> Maps(nodes', levels[0], keys[0], contents)
  {
    UnlinkedFields(nodes, levels[L][p], nodes');
    assert RowAt(nodes, levelOf, levels, keys, 0);
    if L == 0 {
      IncreasingUnique(keys[0]);
      UnlinkBaseMaps(nodes, levels[0], keys[0], contents, p, k, nodes', lv', ks');
    } else {
      MapsFrame(nodes, nodes', levels[0], keys[0], contents);
    }
  }

  /** Unlinking the level-0 node of `k` drops `k` from the map. */
  lemma UnlinkBaseMaps<V>(nodes: seq<Node<V>>, base: seq<int>, baseKeys: seq<Bound>, contents: map<string, V>,
                          p: int, k: string, nodes': seq<Node<V>>, lv': seq<int>, ks': seq<Bound>)
    requires Maps(nodes, base, baseKeys, contents) && InArena(nodes, base) && |base| == |baseKeys| && 0 < p < |base| - 1
    requires baseKeys[p] == Key(k) && forall s :: 0 <= s < |baseKeys| && s != p ==> baseKeys[s] != Key(k)
    requires IsRemoved(base, p, lv') && IsRemoved(baseKeys, p, ks') && |nodes'| == |nodes|
    requires forall i :: 0 <= i < |nodes| ==> nodes'[i].value == nodes[i].value
    ensures Maps(nodes', lv', ks', contents - {k})
  {
    RemovedMembers(baseKeys, p, ks');
    forall j | j in contents - {k}
      ensures Key(j) in ks'
    {
    }
    forall r | 0 < r < |lv'| - 1 && r < |ks'| && 0 <= lv'[r] < |nodes'|
      ensures ks'[r].Key? && ks'[r].k in contents - {k} && nodes'[lv'[r]].value == Some((contents - {k})[ks'[r].k])
    {
      var r0 := if r < p then r else r + 1;
      assert lv'[r] == base[r0] && ks'[r] == baseKeys[r0] && 0 < r0 < |base| - 1;
    }
  }

  /** Once `b` is absent from the level of the gap, or the gap is above the top, the stack is whole again. */
  lemma CloseGap<V>(nodes: seq<Node<V>>, levelOf: seq<int>, levels: seq<seq<int>>, keys: seq<seq<Bound>>, gap: int, b: Bound)
    requires Layered(nodes, levelOf, levels, keys, gap, b) && gap > 0
    requires gap < |levels| ==> b !in keys[gap]
    ensures Layered(nodes, levelOf, levels, keys, 0, NegInf)
  {
    forall M | 0 < M < |levels|
      ensures NestedAt(keys, M)
    {
    }
  }

  /** A key absent from one level is absent from every level above it. */
  lemma {:induction false} AbsentAbove(keys: seq<seq<Bound>>, L: int, b: Bound)
    requires forall M :: 0 < M < |keys| ==> NestedAt(keys, M)
    requires 0 <= L < |keys| && b !in keys[L]
    ensures forall M :: L <= M < |keys| ==> b !in keys[M]
    decreases |keys| - L
  {
    if L + 1 < |keys| {
      assert NestedAt(keys, L + 1);
      AbsentAbove(keys, L + 1, b);
    }
  }

  /**
   * The walk of `Insert` from its entry at position `p` of `lower` to the left, up to the first node `j` with
   * an `above` link, and then up: it lands on the node of the upper level after which the key `b`
   * (at position `p + 1` of `lower`, and not yet on the upper level) belongs.
   */
  lemma ClimbFloor<V>(nodes: seq<Node<V>>, lower: seq<int>, lowerKeys: seq<Bound>, upper: seq<int>, upperKeys: seq<Bound>,
                      j: int, p: int, b: Bound) returns (u: int)
    requires InArena(nodes, lower) && InArena(nodes, upper) && |lower| == |lowerKeys| && |upper| == |upperKeys|
    requires Joined(nodes, lower, lowerKeys, upper, upperKeys) && Contained(upperKeys, lowerKeys)
    requires Increasing(lowerKeys) && Increasing(upperKeys) && upperKeys != [] && upperKeys[|upperKeys| - 1] == PosInf
    requires 0 <= j <= p < |lower| - 1 && lowerKeys[p + 1] == b && b !in upperKeys
    requires nodes[lower[j]].above != Null
    requires forall m :: j < m <= p ==> nodes[lower[m]].above == Null
    ensures 0 <= u < |upper| - 1 && upper[u] == nodes[lower[j]].above
    ensures BoundLess(upperKeys[u], b) && BoundLess(b, upperKeys[u + 1])
  {
    assert lowerKeys[j] in upperKeys;
    u :| 0 <= u < |upperKeys| && upperKeys[u] == lowerKeys[j];
    assert BoundLess(lowerKeys[j], b);
    assert u != |upperKeys| - 1;
    var next := upperKeys[u + 1];
    assert BoundLess(upperKeys[u], next);
    var t :| 0 <= t < |lowerKeys| && lowerKeys[t] == next;
    assert t > j by {
      if t <= j {
        if t < j {
          BoundLessAsymmetric(lowerKeys[t], lowerKeys[j]);
        } else {
          BoundLessIrreflexive(next);
        }
      }
    }
    assert t > p + 1;
  }

  /**
   * The whole state of a skip list: the `Layered` levels, of which `top` is the last and `head` and `tail` are
   * its sentinels, and level 0 representing `contents`.
   */
  ghost predicate Stack<V>(nodes: seq<Node<V>>, levelOf: seq<int>, levels: seq<seq<int>>, keys: seq<seq<Bound>>,
                           contents: map<string, V>, top: int, head: int, tail: int, gap: int, missing: Bound)
  {
    && top >= 0 && |levels| == top + 1
    && Layered(nodes, levelOf, levels, keys, gap, missing)
    && RowAt(nodes, levelOf, levels, keys, top)
    && head == levels[top][0] && tail == levels[top][|levels[top]| - 1]
    && Maps(nodes, levels[0], keys[0], contents)
  }

  /** `AddLayer` keeps the state whole, with a new empty top level whose sentinels are the new `head` and `tail`. */
  lemma AddLayerKeepsStack<V>(nodes: seq<Node<V>>, levelOf: seq<int>, levels: seq<seq<int>>, keys: seq<seq<Bound>>,
                              contents: map<string, V>, top: int, head: int, tail: int, nodes': seq<Node<V>>)
    requires Stack(nodes, levelOf, levels, keys, contents, top, head, tail, 0, NegInf)
    requires AddedLayer(nodes, head, tail, nodes')
    ensures Stack(nodes', levelOf + [top + 1, top + 1], levels + [[|nodes|, |nodes| + 1]], keys + [[NegInf, PosInf]], contents,
                  top + 1, |nodes|, |nodes| + 1, 0, NegInf)
  {
    assert RowAt(nodes, levelOf, levels, keys, 0);
    AddLayerKeepsLayered(nodes, levelOf, levels, keys, nodes');
    MapsFrame(nodes, nodes', levels[0], keys[0], contents);
    assert RowAt(nodes', levelOf + [top + 1, top + 1], levels + [[|nodes|, |nodes| + 1]], keys + [[NegInf, PosInf]], top + 1);
  }

  /** A splice keeps the state whole; on level 0 it adds `k` with value `v` to the map. */
  lemma SpliceKeepsStack<V>(nodes: seq<Node<V>>, levelOf: seq<int>, levels: seq<seq<int>>, keys: seq<seq<Bound>>,
                            contents: map<string, V>, top: int, head: int, tail: int,
                            L: int, p: int, q: int, k: string, v: V, below: int, nodes': seq<Node<V>>)
    requires Stack(nodes, levelOf, levels, keys, contents, top, head, tail, 0, NegInf)
    requires SplicePlace(nodes, levelOf, levels, keys, L, p, q, Key(k), below)
    requires Spliced(nodes, levels[L][p], levels[L][p + 1], below, Key(k), v, nodes')
    ensures Stack(nodes', levelOf + [L], levels[L := Inserted(levels[L], p + 1, |nodes|)], keys[L := Inserted(keys[L], p + 1, Key(k))],
                  if L == 0 then contents[k := v] else contents, top, head, tail, 0, NegInf)
  {
    var lv', ks' := Inserted(levels[L], p + 1, |nodes|), Inserted(keys[L], p + 1, Key(k));
    var levels', keys', contents' := levels[L := lv'], keys[L := ks'], if L == 0 then contents[k := v] else contents;
    assert IsInserted(levels[L], p + 1, |nodes|, lv') && IsInserted(keys[L], p + 1, Key(k), ks') by {
      InsertedIs(levels[L], p + 1, |nodes|);
      InsertedIs(keys[L], p + 1, Key(k));
    }
    assert Layered(nodes', levelOf + [L], levels', keys', 0, NegInf) by {
      SpliceKeepsLayered(nodes, levelOf, levels, keys, L, p, q, Key(k), v, below, nodes', lv', ks');
    }
    assert Maps(nodes', levels'[0], keys'[0], contents') by {
      SpliceKeepsMaps(nodes, levelOf, levels, keys, contents, L, p, q, k, v, below, nodes', lv', ks');
    }
    assert RowAt(nodes', levelOf + [L], levels', keys', top);
    assert RowAt(nodes, levelOf, levels, keys, top);
    assert levels'[top][0] == head && levels'[top][|levels'[top]| - 1] == tail;
  }

  /** Unlinking keeps the state whole but for the gap moving up to `L + 1`; on level 0 it drops `k` from the map. */
  lemma UnlinkKeepsStack<V>(nodes: seq<Node<V>>, levelOf: seq<int>, levels: seq<seq<int>>, keys: seq<seq<Bound>>,
                            contents: map<string, V>, top: int, head: int, tail: int, L: int, p: int, k: string, nodes': seq<Node<V>>)
    requires Stack(nodes, levelOf, levels, keys, contents, top, head, tail, L, Key(k))
    requires UnlinkPlace(nodes, levelOf, levels, keys, L, p, Key(k))
    requires Unlinked(nodes, levels[L][p], nodes')
    ensures Stack(nodes', levelOf[levels[L][p] := Null], levels[L := RemoveAt(levels[L], p)], keys[L := RemoveAt(keys[L], p)],
                  if L == 0 then contents - {k} else contents, top, head, tail, L + 1, Key(k))
  {
    var lv', ks' := RemoveAt(levels[L], p), RemoveAt(keys[L], p);
    var levelOf', levels', keys', contents' := levelOf[levels[L][p] := Null], levels[L := lv'], keys[L := ks'],
                                              if L == 0 then contents - {k} else contents;
    assert IsRemoved(levels[L], p, lv') && IsRemoved(keys[L], p, ks') by {
      RemoveAtIs(levels[L], p);
      RemoveAtIs(keys[L], p);
    }
    assert Layered(nodes', levelOf', levels', keys', L + 1, Key(k)) by {
      UnlinkKeepsLayered(nodes, levelOf, levels, keys, L, p, Key(k), nodes', lv', ks');
    }
    assert Maps(nodes', levels'[0], keys'[0], contents') by {
      UnlinkKeepsMaps(nodes, levelOf, levels, keys, contents, L, p, k, nodes', lv', ks');
    }
    assert RowAt(nodes', levelOf', levels', keys', top);
    assert RowAt(nodes, levelOf, levels, keys, top);
    assert levels'[top][0] == head && levels'[top][|levels'[top]| - 1] == tail;
  }

  /**
   * After the node at position `p` of level `L` is unlinked, the node above it, if any, is at a position `u`
   * of level `L + 1` where it can be unlinked next; with none above, the key is on no level above `L`.
   */
  lemma UnlinkNext<V>(nodes: seq<Node<V>>, levelOf: seq<int>, levels: seq<seq<int>>, keys: seq<seq<Bound>>,
                      contents: map<string, V>, top: int, head: int, tail: int, L: int, p: int, k: string, nodes': seq<Node<V>>)
      returns (u: int)
    requires Stack(nodes, levelOf, levels, keys, contents, top, head, tail, L, Key(k))
    requires UnlinkPlace(nodes, levelOf, levels, keys, L, p, Key(k))
    requires Unlinked(nodes, levels[L][p], nodes')
    ensures nodes[levels[L][p]].above == Null ==> L == top || Key(k) !in keys[L + 1]
    ensures nodes[levels[L][p]].above != Null ==>
      var levelOf', levels', keys' := levelOf[levels[L][p] := Null], levels[L := RemoveAt(levels[L], p)], keys[L := RemoveAt(keys[L], p)];
      UnlinkPlace(nodes', levelOf', levels', keys', L + 1, u, Key(k)) && nodes[levels[L][p]].above == levels'[L + 1][u]
  {
    var levelOf', levels', keys' := levelOf[levels[L][p] := Null], levels[L := RemoveAt(levels[L], p)], keys[L := RemoveAt(keys[L], p)];
    UnlinkKeepsStack(nodes, levelOf, levels, keys, contents, top, head, tail, L, p, k, nodes');
    u := TowerUp(nodes, levelOf, levels, keys, L, Key(k), L, p);
    GoneFromLevel(keys[L], p);
    if nodes[levels[L][p]].above != Null {
      assert RowAt(nodes', levelOf', levels', keys', L) && RowAt(nodes', levelOf', levels', keys', L + 1);
    }
  }

  /** Once the key of the gap is gone from the level of the gap, or the gap is above the top, the state is whole. */
  lemma CloseStackGap<V>(nodes: seq<Node<V>>, levelOf: seq<int>, levels: seq<seq<int>>, keys: seq<seq<Bound>>,
                         contents: map<string, V>, top: int, head: int, tail: int, gap: int, b: Bound)
    requires Stack(nodes, levelOf, levels, keys, contents, top, head, tail, gap, b) && gap > 0
    requires gap < |levels| ==> b !in keys[gap]
    ensures Stack(nodes, levelOf, levels, keys, contents, top, head, tail, 0, NegInf)
  {
    CloseGap(nodes, levelOf, levels, keys, gap, b);
  }

  /** The sentinels of the top level are two different nodes of the arena. */
  lemma TopEnds<V>(nodes: seq<Node<V>>, levelOf: seq<int>, levels: seq<seq<int>>, keys: seq<seq<Bound>>,
                   contents: map<string, V>, top: int, head: int, tail: int, gap: int, missing: Bound)
    requires Stack(nodes, levelOf, levels, keys, contents, top, head, tail, gap, missing)
    ensures 0 <= head < |nodes| && 0 <= tail < |nodes| && head != tail
  {
  }

  /** Where `Splice` links its node: `entry` and its successor are two nodes of level `L`, and `below` neither. */
  lemma SpliceSites<V>(nodes: seq<Node<V>>, levelOf: seq<int>, levels: seq<seq<int>>, keys: seq<seq<Bound>>,
                       L: int, p: int, q: int, b: Bound, below: int)
    requires SplicePlace(nodes, levelOf, levels, keys, L, p, q, b, below)
    ensures 0 <= levels[L][p] < |nodes| && nodes[levels[L][p]].next == levels[L][p + 1] && 0 <= levels[L][p + 1] < |nodes|
    ensures levels[L][p] != levels[L][p + 1] && (below == Null || 0 <= below < |nodes|)
    ensures below != levels[L][p] && below != levels[L][p + 1]
  {
    RowDistinct(nodes, levelOf, L, levels[L], keys[L]);
    assert Linked(nodes, levels[L], p);
  }

  /** Where `Remove` unlinks the node at position `p` of level `L`: its neighbours and the node above it are distinct nodes. */
  lemma UnlinkSites<V>(nodes: seq<Node<V>>, levelOf: seq<int>, levels: seq<seq<int>>, keys: seq<seq<Bound>>, L: int, p: int, b: Bound)
    requires UnlinkPlace(nodes, levelOf, levels, keys, L, p, b)
    ensures 0 <= levels[L][p] < |nodes|
    ensures var n := nodes[levels[L][p]];
      && 0 <= n.prev < |nodes| && 0 <= n.next < |nodes| && n.prev != n.next && n.prev != levels[L][p] && n.next != levels[L][p]
      && (n.above == Null || (0 <= n.above < |nodes| && n.above != levels[L][p] && n.above != n.prev && n.above != n.next))
  {
    RowDistinct(nodes, levelOf, L, levels[L], keys[L]);
    var u := TowerUp(nodes, levelOf, levels, keys, L, b, L, p);
    assert Linked(nodes, levels[L], p - 1) && Linked(nodes, levels[L], p);
  }

  /** The `-oo` node of every level but the top has a node above it. */
  lemma HeadAbove<V>(nodes: seq<Node<V>>, levelOf: seq<int>, levels: seq<seq<int>>, keys: seq<seq<Bound>>, L: int)
    requires Layered(nodes, levelOf, levels, keys, 0, NegInf) && 0 <= L < |levels| - 1
    ensures RowAt(nodes, levelOf, levels, keys, L) && nodes[levels[L][0]].above != Null
  {
    assert RowAt(nodes, levelOf, levels, keys, L) && RowAt(nodes, levelOf, levels, keys, L + 1);
    assert JoinedAt(nodes, levels, keys, L + 1) && keys[L + 1][0] == keys[L][0];
  }

  /** `ClimbFloor` on two levels of a well-formed stack. */
  lemma ClimbStack<V>(nodes: seq<Node<V>>, levelOf: seq<int>, levels: seq<seq<int>>, keys: seq<seq<Bound>>,
                      L: int, j: int, p: int, b: Bound) returns (u: int)
    requires Layered(nodes, levelOf, levels, keys, 0, NegInf) && 0 <= L < |levels| - 1
    requires RowAt(nodes, levelOf, levels, keys, L) && 0 <= j <= p < |levels[L]| - 1 && keys[L][p + 1] == b
    requires b !in keys[L + 1] && nodes[levels[L][j]].above != Null
    requires forall m :: j < m <= p ==> nodes[levels[L][m]].above == Null
    ensures RowAt(nodes, levelOf, levels, keys, L + 1) && 0 <= u < |levels[L + 1]| - 1
    ensures levels[L + 1][u] == nodes[levels[L][j]].above
    ensures BoundLess(keys[L + 1][u], b) && BoundLess(b, keys[L + 1][u + 1])
  {
    assert RowAt(nodes, levelOf, levels, keys, L + 1) && JoinedAt(nodes, levels, keys, L + 1) && NestedAt(keys, L + 1);
    u := ClimbFloor(nodes, levels[L], keys[L], levels[L + 1], keys[L + 1], j, p, b);
  }

  /** The floor of `k` on level 0 holds `k` exactly when `k` is in the map, and then holds its value. */
  lemma FloorInMap<V>(nodes: seq<Node<V>>, levelOf: seq<int>, levels: seq<seq<int>>, keys: seq<seq<Bound>>,
                      contents: map<string, V>, top: int, head: int, tail: int, p: int, k: string)
    requires Stack(nodes, levelOf, levels, keys, contents, top, head, tail, 0, NegInf)
    requires RowAt(nodes, levelOf, levels, keys, 0) && 0 <= p < |levels[0]| - 1
    requires BoundLe(keys[0][p], Key(k)) && BoundLess(Key(k), keys[0][p + 1])
    ensures nodes[levels[0][p]].key == Key(k) <==> k in contents
    ensures k in contents ==> nodes[levels[0][p]].value == Some(contents[k])
  {
    FloorHit(keys[0], p, Key(k));
  }

  /** Unlinking position `p` of increasing keys removes the only copy of its key. */
  lemma GoneFromLevel(ks: seq<Bound>, p: int)
    requires Increasing(ks) && 0 <= p < |ks|
    ensures ks[p] !in RemoveAt(ks, p) && Without(ks, ks[p]) == RemoveAt(ks, p)
  {
    IncreasingUnique(ks);
    RemoveAtIs(ks, p);
    RemoveAtWithout(ks, p);
  }
}
