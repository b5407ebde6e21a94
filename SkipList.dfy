/**
 * The skip list: string keys mapped to values through a stack of sorted, doubly linked levels. Every level
 * starts with a `-oo` sentinel and ends with a `+oo` sentinel; level 0 holds every key, and each level above
 * holds a subset of the one below. The copies of one key on consecutive levels are joined by
 * `above`/`below` links.
 *
 * The nodes live in an arena, `nodes`; a link is an index into it, and `Null` (-1) is the C# null. A node
 * unlinked by `Remove` stays in the arena, unreachable. The shape of the levels and the lemmas about it are
 * in `SkipListShape`.
 */
module SkipLists {
  import opened Outcomes
  import opened StringOrder
  import opened SeqSpec
  import opened SkipListShape

  /** The string the C# code stores as the key of every `+oo` sentinel. */
  const PosInfName := "+oo"

  /** An empty level: just the two sentinels. */
  const EmptyLevel: seq<Bound> := [NegInf, PosInf]

  /** The keys of a stack with a level `c + 1` to promote into: an empty level is put on top when `c` is the top. */
  ghost function Topped(keys: seq<seq<Bound>>, c: int): (r: seq<seq<Bound>>)
    ensures |r| == if c + 1 < |keys| then |keys| else |keys| + 1
  {
    if c + 1 < |keys| then keys else keys + [EmptyLevel]
  }

  /** Level `L` of `keys0`, or an empty level above its top. */
  ghost function LevelOr(keys0: seq<seq<Bound>>, L: int): seq<Bound>
  {
    if 0 <= L < |keys0| then keys0[L] else EmptyLevel
  }

  /**
   * `keys` is `keys0`, possibly with empty levels on top, into which a tower of key `b` has been put on levels
   * `0` to `c`: `b` is on exactly those levels, and removing it gives back the levels of `keys0`.
   */
  ghost predicate TowerTo(keys: seq<seq<Bound>>, keys0: seq<seq<Bound>>, b: Bound, c: int)
  {
    && |keys| >= |keys0| && 0 <= c < |keys|
    && forall L :: 0 <= L < |keys| ==> (b in keys[L] <==> L <= c) && Without(keys[L], b) == LevelOr(keys0, L)
  }

  /** Splicing a key absent from a nested stack into its level 0 starts a tower of height one. */
  lemma TowerStart(keys0: seq<seq<Bound>>, b: Bound, i: int, keys: seq<seq<Bound>>)
    requires |keys0| > 0 && (forall M :: 0 < M < |keys0| ==> NestedAt(keys0, M))
    requires b.Key? && b !in keys0[0] && 0 <= i <= |keys0[0]|
    requires keys == keys0[0 := Inserted(keys0[0], i, b)]
    ensures TowerTo(keys, keys0, b, 0)
  {
    AbsentAbove(keys0, 0, b);
    InsertedIs(keys0[0], i, b);
    InsertedMembers(keys0[0], i, b, keys[0]);
    InsertedWithout(keys0[0], i, b);
    forall M | 0 < M < |keys0|
      ensures Without(keys[M], b) == keys0[M]
    {
      WithoutAbsent(keys0[M], b);
    }
  }

  /** Promoting the key of a tower of height `c + 1` one level up gives a tower of height `c + 2`. */
  lemma TowerGrow(keys: seq<seq<Bound>>, keys0: seq<seq<Bound>>, b: Bound, c: int, e: int, keys': seq<seq<Bound>>)
    requires TowerTo(keys, keys0, b, c) && b.Key?
    requires 0 <= e <= |Topped(keys, c)[c + 1]|
    requires keys' == Topped(keys, c)[c + 1 := Inserted(Topped(keys, c)[c + 1], e, b)]
    ensures TowerTo(keys', keys0, b, c + 1)
  {
    var up := Topped(keys, c)[c + 1];
    assert b !in up && Without(up, b) == LevelOr(keys0, c + 1) by {
      if c + 1 == |keys| {
        assert up == EmptyLevel;
      } else {
        assert up == keys[c + 1];
      }
    }
    assert b in keys'[c + 1] && Without(keys'[c + 1], b) == LevelOr(keys0, c + 1) by {
      assert keys'[c + 1] == Inserted(up, e, b);
      WithoutAbsent(up, b);
      InsertedIs(up, e, b);
      InsertedMembers(up, e, b, keys'[c + 1]);
      InsertedWithout(up, e, b);
    }
    forall L | 0 <= L < |keys'| && L != c + 1
      ensures (b in keys'[L] <==> L <= c + 1) && Without(keys'[L], b) == LevelOr(keys0, L)
    {
      assert keys'[L] == keys[L];
    }
  }

  /**
   * `keys` is `keys0` with the key `b` removed from levels `0` to `L - 1` and the levels from `L` up left as
   * they were: the state of `Remove` after it has unlinked `L` nodes of the tower of `b`.
   */
  ghost predicate StrippedTo(keys: seq<seq<Bound>>, keys0: seq<seq<Bound>>, b: Bound, L: int)
  {
    && |keys| == |keys0| && 0 <= L <= |keys|
    && (forall M :: 0 <= M < L ==> keys[M] == Without(keys0[M], b))
    && (forall M :: L <= M < |keys| ==> keys[M] == keys0[M])
  }

  /** Unlinking the node of `b` on level `L` strips one more level. */
  lemma StripGrow(keys: seq<seq<Bound>>, keys0: seq<seq<Bound>>, b: Bound, L: int, p: int, keys': seq<seq<Bound>>)
    requires StrippedTo(keys, keys0, b, L) && L < |keys| && Increasing(keys[L]) && 0 <= p < |keys[L]| && keys[L][p] == b
    requires keys' == keys[L := RemoveAt(keys[L], p)]
    ensures StrippedTo(keys', keys0, b, L + 1)
  {
    GoneFromLevel(keys[L], p);
    assert keys'[L] == Without(keys0[L], b);
    forall M | 0 <= M < |keys'| && M != L
      ensures keys'[M] == keys[M]
    {
    }
  }

  /** Once `b` is gone from level `L` (or `L` is above the top) of a nested stack, `b` is gone from every level. */
  lemma StripDone(keys: seq<seq<Bound>>, keys0: seq<seq<Bound>>, b: Bound, L: int)
    requires StrippedTo(keys, keys0, b, L) && (forall M :: 0 < M < |keys| ==> NestedAt(keys, M))
    requires L < |keys| ==> b !in keys[L]
    ensures forall M :: 0 <= M < |keys| ==> keys[M] == Without(keys0[M], b)
  {
    if L < |keys| {
      AbsentAbove(keys, L, b);
      forall M | L <= M < |keys|
        ensures keys[M] == Without(keys0[M], b)
      {
        WithoutAbsent(keys0[M], b);
      }
    }
  }

  class SkipList<V> {
    // The fields of the C# class; the random number generator is replaced by a parameter of `Insert`.
    var nodes: seq<Node<V>>
    var head: int
    var tail: int
    var lvl: int
    var counter: int

    // The levels from the bottom (0) to the top (`lvl`), as arena indices and as keys; the level each arena
    // node is on (-1 once unlinked); and the map the skip list represents.
    ghost var levels: seq<seq<int>>
    ghost var keys: seq<seq<Bound>>
    ghost var levelOf: seq<int>
    ghost var Contents: map<string, V>

    /**
     * The levels are `Layered`, `lvl` is the top one, `head` and `tail` are its sentinels, and level 0
     * represents `Contents`. While `Remove` unlinks a tower, level `gap` may still hold the key `missing`
     * that is gone below it; `Layers(0, NegInf)` is the full shape.
     */
    ghost predicate Layers(gap: int, missing: Bound)
      reads this
    {
      Stack(nodes, levelOf, levels, keys, Contents, lvl, head, tail, gap, missing)
    }

    /** The object invariant: the full shape, and `counter` the number of keys. */
    ghost predicate Valid()
      reads this
    {
      Layers(0, NegInf) && counter == |Contents|
    }

    /** A new skip list: one level whose `-oo` sentinel links directly to its `+oo` sentinel. */
    constructor ()
      ensures Valid() && Contents == map[]
      ensures lvl == 0 && keys == [EmptyLevel]
      ensures nodes[head].next == tail && nodes[tail].prev == head
    {
      nodes := [Node(NegInf, None, 1, Null, Null, Null), Node(PosInf, None, Null, 0, Null, Null)];
      head, tail := 0, 1;
      lvl, counter := 0, 0;
      levels, keys, levelOf := [[0, 1]], [EmptyLevel], [0, 0];
      Contents := map[];
      new;
      assert RowAt(nodes, levelOf, levels, keys, 0);
    }

    /** The `Length` getter: the number of keys. */
    function Length(): (r: int)
      reads this
      requires Valid()
      ensures r == |Contents|
    {
      counter
    }

    /** The `Height` getter: the number of levels above level 0. */
    function Height(): (r: int)
      reads this
      requires Valid()
      ensures r == |keys| - 1 && r >= 0
    {
      lvl
    }

    /** The node below a non-`+oo` node of level `L > 0` is the node with the same key on level `L - 1`. */
    lemma Below(L: int, p: int) returns (q: int)
      requires Layers(0, NegInf) && 0 < L <= lvl && RowAt(nodes, levelOf, levels, keys, L) && 0 <= p < |levels[L]| - 1
      ensures RowAt(nodes, levelOf, levels, keys, L - 1) && 0 <= q < |levels[L - 1]| - 1 && keys[L - 1][q] == keys[L][p]
      ensures nodes[levels[L][p]].below == levels[L - 1][q] && levels[L - 1][q] != Null
    {
      assert RowAt(nodes, levelOf, levels, keys, L - 1);
      assert BoundLess(keys[L][p], keys[L][|keys[L]| - 1]);
      assert NestedAt(keys, L) && keys[L][p] in keys[L - 1];
      q :| 0 <= q < |keys[L - 1]| && keys[L - 1][q] == keys[L][p];
      assert JoinedAt(nodes, levels, keys, L);
    }

    /**
     * One level of the search: from the node at position `p0` of level `L`, move right while the next key is
     * not `+oo` and is at most `key`. It stops at the last node of the level whose key is at most `key`.
     */
    method ScanLevel(key: string, start: int, ghost L: int, ghost p0: int) returns (current: int, ghost p: int)
      requires Layers(0, NegInf) && 0 <= L <= lvl && RowAt(nodes, levelOf, levels, keys, L)
      requires 0 <= p0 < |levels[L]| - 1 && start == levels[L][p0] && BoundLe(keys[L][p0], Key(key))
      ensures p0 <= p < |levels[L]| - 1 && current == levels[L][p]
      ensures BoundLe(keys[L][p], Key(key)) && BoundLess(Key(key), keys[L][p + 1])
    {
      current, p := start, p0;
      while nodes[nodes[current].next].key != PosInf && BoundLe(nodes[nodes[current].next].key, Key(key))
        invariant p0 <= p < |levels[L]| - 1 && current == levels[L][p] && Linked(nodes, levels[L], p)
        invariant BoundLe(keys[L][p], Key(key))
        decreases |levels[L]| - p
      {
        current := nodes[current].next;
        p := p + 1;
      }
      if keys[L][p + 1] != PosInf {
        BoundLessTotal(Key(key), keys[L][p + 1]);
      }
    }

    /**
     * `Get` as its documentation and comments describe it: on each level, move right while the next key is
     * not `+oo` and is at most `key`, then drop one level. It ends on level 0 at the node holding `key`, or
     * else at the nearest smaller one (possibly `-oo`). The C# loop condition tests the opposite of
     * "is not `+oo`"; `GetAsWritten` models that.
     */
    method Get(key: string) returns (r: int, ghost p: int)
      requires Layers(0, NegInf)
      ensures RowAt(nodes, levelOf, levels, keys, 0) && 0 <= p < |levels[0]| - 1 && r == levels[0][p]
      ensures BoundLe(keys[0][p], Key(key)) && BoundLess(Key(key), keys[0][p + 1])
    {
      var current := head;
      ghost var L := lvl;
      ghost var i := 0;
      while true
        invariant 0 <= L <= lvl && RowAt(nodes, levelOf, levels, keys, L) && 0 <= i < |levels[L]| - 1 && current == levels[L][i]
        invariant BoundLe(keys[L][i], Key(key))
        decreases L
      {
        current, i := ScanLevel(key, current, L, i);
        ghost var q := 0;
        if L > 0 {
          q := Below(L, i);
        } else {
          assert NoneBelow(nodes, levels[0]);
        }
        if nodes[current].below != Null {
          current := nodes[current].below;
          L, i := L - 1, q;
        } else {
          break;
        }
      }
      return current, i;
    }

    /**
     * One level of `GetAsWritten`, from the `-oo` node of level `L`: the C# inner loop moves right while the
     * next key IS the `+oo` sentinel and the string `"+oo"` compares at most `key`. That holds only on a level
     * without user keys; the walk then stands on the `+oo` node and the next test dereferences its null `next`.
     */
    method ScanLevelAsWritten(key: string, start: int, ghost L: int) returns (r: Result<int>)
      requires Layers(0, NegInf) && 0 <= L <= lvl && RowAt(nodes, levelOf, levels, keys, L) && start == levels[L][0]
      ensures r == if |keys[L]| == 2 && BoundLe(Key(PosInfName), Key(key)) then Err(NullReference) else Ok(start)
    {
      assert |keys[L]| > 2 ==> BoundLess(keys[L][1], keys[L][|keys[L]| - 1]);
      assert Linked(nodes, levels[L], 0) && nodes[levels[L][1]].key == keys[L][1];
      assert |levels[L]| == 2 ==> nodes[levels[L][1]].next == Null;
      var current := start;
      ghost var onEnd := false;
      while true
        invariant !onEnd ==> current == start
        invariant onEnd ==> |levels[L]| == 2 && current == levels[L][1] && BoundLe(Key(PosInfName), Key(key))
        decreases if onEnd then 0 else 1
      {
        var next := nodes[current].next;
        if next == Null {
          return Err(NullReference);
        }
        if nodes[next].key == PosInf && BoundLe(Key(PosInfName), Key(key)) {
          current, onEnd := next, true;
        } else {
          return Ok(current);
        }
      }
    }

    /**
     * The `-oo` node of level `L > 0` sits above the `-oo` node of level `L - 1`, and level `L` holds a user
     * key only if level `L - 1` does.
     */
    lemma HeadBelow(L: int)
      requires Layers(0, NegInf) && 0 < L <= lvl
      ensures RowAt(nodes, levelOf, levels, keys, L) && RowAt(nodes, levelOf, levels, keys, L - 1)
      ensures nodes[levels[L][0]].below == levels[L - 1][0]
      ensures |keys[L]| > 2 ==> |keys[L - 1]| > 2
    {
      assert RowAt(nodes, levelOf, levels, keys, L);
      var q := Below(L, 0);
      assert q > 0 ==> BoundLess(keys[L - 1][0], keys[L - 1][q]);
      if |keys[L]| > 2 {
        var q1 := Below(L, 1);
        assert BoundLess(keys[L][0], keys[L][1]) && BoundLess(keys[L][1], keys[L][|keys[L]| - 1]);
      }
    }

    /**
     * `Get` with the inner loop condition the C# code has (see `ScanLevelAsWritten`): it fails when the top
     * level holds no user key and `"+oo"` compares at most `key`, and otherwise ends at the `-oo` node of
     * level 0, whatever the key.
     */
    method GetAsWritten(key: string) returns (r: Result<int>)
      requires Layers(0, NegInf)
      ensures RowAt(nodes, levelOf, levels, keys, 0)
      ensures r == if |keys[lvl]| == 2 && BoundLe(Key(PosInfName), Key(key)) then Err(NullReference) else Ok(levels[0][0])
    {
      var current := head;
      ghost var L := lvl;
      assert RowAt(nodes, levelOf, levels, keys, 0);
      while true
        invariant 0 <= L <= lvl && RowAt(nodes, levelOf, levels, keys, L) && current == levels[L][0]
        invariant L < lvl ==> !(|keys[lvl]| == 2 && BoundLe(Key(PosInfName), Key(key)))
        invariant BoundLe(Key(PosInfName), Key(key)) ==> |keys[L]| > 2 || L == lvl
        decreases L
      {
        var scanned := ScanLevelAsWritten(key, current, L);
        if scanned.Err? {
          return scanned;
        }
        if L > 0 {
          HeadBelow(L);
        } else {
          assert NoneBelow(nodes, levels[0]);
        }
        if nodes[current].below != Null {
          current := nodes[current].below;
          L := L - 1;
        } else {
          break;
        }
      }
      return Ok(current);
    }

    /** `Search` over `GetAsWritten`: it never finds a key, and fails where `GetAsWritten` does. */
    method SearchAsWritten(key: string) returns (r: Result<Option<V>>)
      requires Layers(0, NegInf)
      ensures r == if |keys[lvl]| == 2 && BoundLe(Key(PosInfName), Key(key)) then Err(NullReference) else Ok(None)
    {
      var found := GetAsWritten(key);
      if found.Err? {
        return Err(found.error);
      }
      var n := nodes[found.value];
      return Ok(if n.key == Key(key) then n.value else None);
    }

    /** The value stored under `key`, or `None` (the C# null) when there is none. */
    method Search(key: string) returns (r: Option<V>)
      requires Valid()
      ensures r == if key in Contents then Some(Contents[key]) else None
    {
      var found, p := Get(key);
      FloorInMap(nodes, levelOf, levels, keys, Contents, lvl, head, tail, p, key);
      return if nodes[found].key == Key(key) then nodes[found].value else None;
    }

    /**
     * Stores a new state: the arena, the top level's sentinels and its number, and the ghost description of
     * the levels, which must form a `Stack` (with the gap `gap` for the key `missing`).
     */
    method Commit(nodes': seq<Node<V>>, head': int, tail': int, lvl': int, ghost levelOf': seq<int>, ghost levels': seq<seq<int>>,
                  ghost keys': seq<seq<Bound>>, ghost contents': map<string, V>, ghost gap: int, ghost missing: Bound)
      requires Stack(nodes', levelOf', levels', keys', contents', lvl', head', tail', gap, missing)
      modifies this
      ensures Layers(gap, missing) && counter == old(counter)
      ensures nodes == nodes' && head == head' && tail == tail' && lvl == lvl'
      ensures levelOf == levelOf' && levels == levels' && keys == keys' && Contents == contents'
    {
      nodes, head, tail, lvl := nodes', head', tail', lvl';
      levelOf, levels, keys, Contents := levelOf', levels', keys', contents';
    }

    /**
     * Puts a new empty level on top: a `-oo` and a `+oo` sentinel linked to each other and to the sentinels
     * of the old top level, which become the new `head` and `tail`.
     */
    method AddLayer()
      requires Layers(0, NegInf)
      modifies this
      ensures Layers(0, NegInf) && AddedLayer(old(nodes), old(head), old(tail), nodes)
      ensures head == |old(nodes)| && tail == head + 1 && lvl == old(lvl) + 1
      ensures counter == old(counter) && Contents == old(Contents)
      ensures levels == old(levels) + [[head, tail]] && keys == old(keys) + [EmptyLevel] && levelOf == old(levelOf) + [lvl, lvl]
    {
      TopEnds(nodes, levelOf, levels, keys, Contents, lvl, head, tail, 0, NegInf);
      var n := |nodes|;
      var arena := AddLayerArena(nodes, head, tail);
      AddLayerKeepsStack(nodes, levelOf, levels, keys, Contents, lvl, head, tail, arena);
      Commit(arena, n, n + 1, lvl + 1, levelOf + [lvl + 1, lvl + 1], levels + [[n, n + 1]], keys + [EmptyLevel], Contents, 0, NegInf);
    }

    /**
     * Links a new node holding `key` and `value` into level `L` right after `entry` (the node at position
     * `p`), above the node `below` of level `L - 1` (position `q` there), or with no node below on level 0.
     */
    method Splice(entry: int, key: string, value: V, below: int, ghost L: int, ghost p: int, ghost q: int) returns (n: int)
      requires Layers(0, NegInf)
      requires SplicePlace(nodes, levelOf, levels, keys, L, p, q, Key(key), below) && entry == levels[L][p]
      modifies this
      ensures Layers(0, NegInf)
      ensures n == |old(nodes)| && Spliced(old(nodes), entry, old(levels)[L][p + 1], below, Key(key), value, nodes)
      ensures head == old(head) && tail == old(tail) && lvl == old(lvl) && counter == old(counter)
      ensures levels == old(levels)[L := Inserted(old(levels)[L], p + 1, n)] && levelOf == old(levelOf) + [L]
      ensures keys == old(keys)[L := Inserted(old(keys)[L], p + 1, Key(key))]
      ensures Contents == if L == 0 then old(Contents)[key := value] else old(Contents)
      ensures RowAt(nodes, levelOf, levels, keys, L) && 0 < p + 1 < |levels[L]| - 1
      ensures keys[L][p + 1] == Key(key) && levels[L][p + 1] == n && levels[L][p] == entry
    {
      SpliceSites(nodes, levelOf, levels, keys, L, p, q, Key(key), below);
      var nxt := nodes[entry].next;
      n := |nodes|;
      var arena := SpliceArena(nodes, entry, nxt, below, Key(key), value);
      SpliceKeepsStack(nodes, levelOf, levels, keys, Contents, lvl, head, tail, L, p, q, key, value, below, arena);
      Commit(arena, head, tail, lvl, levelOf + [L], levels[L := Inserted(levels[L], p + 1, n)],
             keys[L := Inserted(keys[L], p + 1, Key(key))], if L == 0 then Contents[key := value] else Contents, 0, NegInf);
      assert RowAt(nodes, levelOf, levels, keys, L);
      InsertedIs(old(levels)[L], p + 1, n);
      InsertedIs(old(keys)[L], p + 1, Key(key));
    }

    /**
     * The walk of the promotion loop of `Insert` from `entry`, the node at position `t - 1` of level `L` before
     * the key's node: left to the nearest node with an `above` link, then up it. It reaches the node of level
     * `L + 1` after which the key belongs.
     */
    method Climb(key: string, entry: int, L: int, ghost t: int) returns (entry': int, ghost u: int)
      requires Layers(0, NegInf) && 0 <= L < lvl && RowAt(nodes, levelOf, levels, keys, L)
      requires 0 < t < |levels[L]| - 1 && keys[L][t] == Key(key) && entry == levels[L][t - 1] && Key(key) !in keys[L + 1]
      ensures RowAt(nodes, levelOf, levels, keys, L + 1) && 0 <= u < |levels[L + 1]| - 1 && entry' == levels[L + 1][u]
      ensures BoundLess(keys[L + 1][u], Key(key)) && BoundLess(Key(key), keys[L + 1][u + 1])
    {
      HeadAbove(nodes, levelOf, levels, keys, L);
      var e := entry;
      ghost var j := t - 1;
      while nodes[e].above == Null
        invariant 0 <= j < t && e == levels[L][j]
        invariant forall m :: j < m < t ==> nodes[levels[L][m]].above == Null
        decreases j
      {
        assert Linked(nodes, levels[L], j - 1);
        e := nodes[e].prev;
        j := j - 1;
      }
      u := ClimbStack(nodes, levelOf, levels, keys, L, j, t - 1, Key(key));
      entry' := nodes[e].above;
    }

    /**
     * One round of the promotion loop of `Insert`: the key's node `top`, at position `t` of level `L`, gets a
     * copy on level `L + 1`, with a new empty level added first when `L` is the top. The copy is spliced after
     * the node `Climb` reaches from `entry`, the node before `top`.
     */
    method Promote(key: string, value: V, entry: int, top: int, L: int, ghost t: int) returns (entry': int, top': int, ghost t': int)
      requires Layers(0, NegInf) && 0 <= L <= lvl && RowAt(nodes, levelOf, levels, keys, L)
      requires 0 < t < |levels[L]| - 1 && keys[L][t] == Key(key) && top == levels[L][t] && entry == levels[L][t - 1]
      requires L < lvl ==> Key(key) !in keys[L + 1]
      modifies this
      ensures Layers(0, NegInf) && counter == old(counter) && Contents == old(Contents)
      ensures lvl == if L == old(lvl) then L + 1 else old(lvl)
      ensures RowAt(nodes, levelOf, levels, keys, L + 1) && 0 < t' < |levels[L + 1]| - 1
      ensures keys[L + 1][t'] == Key(key) && top' == levels[L + 1][t'] && entry' == levels[L + 1][t' - 1]
      ensures t' <= |Topped(old(keys), L)[L + 1]|
      ensures keys == Topped(old(keys), L)[L + 1 := Inserted(Topped(old(keys), L)[L + 1], t', Key(key))]
    {
      if L >= lvl {
        AddLayer();
        assert RowAt(nodes, levelOf, levels, keys, L);
      }
      ghost var topped := keys;
      assert topped == Topped(old(keys), L);
      var e, u := Climb(key, entry, L, t);
      top' := Splice(e, key, value, top, L + 1, u, t);
      assert keys == topped[L + 1 := Inserted(topped[L + 1], u + 1, Key(key))];
      entry', t' := e, u + 1;
    }

    /**
     * The promotion loop of `Insert`, from the key's level-0 node `top` (position `t`) and the node `entry`
     * before it: `promotions` rounds of `Promote`. `promotions` stands for the number of even numbers the C#
     * random number generator yields in a row.
     */
    method RaiseTower(key: string, value: V, entry: int, top: int, promotions: nat, ghost t: int, ghost keys0: seq<seq<Bound>>)
      requires Layers(0, NegInf) && RowAt(nodes, levelOf, levels, keys, 0)
      requires 0 < t < |levels[0]| - 1 && keys[0][t] == Key(key) && top == levels[0][t] && entry == levels[0][t - 1]
      requires TowerTo(keys, keys0, Key(key), 0) && |keys| == |keys0|
      modifies this
      ensures Layers(0, NegInf) && counter == old(counter) && Contents == old(Contents)
      ensures lvl == if old(lvl) < promotions then promotions else old(lvl)
      ensures TowerTo(keys, keys0, Key(key), promotions)
    {
      var currentLvl := 0;
      var e, n := entry, top;
      ghost var i := t;
      while currentLvl < promotions
        invariant Layers(0, NegInf) && counter == old(counter) && Contents == old(Contents)
        invariant 0 <= currentLvl <= promotions && currentLvl <= lvl
        invariant lvl == if old(lvl) < currentLvl then currentLvl else old(lvl)
        invariant RowAt(nodes, levelOf, levels, keys, currentLvl) && 0 < i < |levels[currentLvl]| - 1
        invariant keys[currentLvl][i] == Key(key) && n == levels[currentLvl][i] && e == levels[currentLvl][i - 1]
        invariant TowerTo(keys, keys0, Key(key), currentLvl)
        decreases promotions - currentLvl
      {
        ghost var keys1 := keys;
        assert currentLvl < lvl ==> Key(key) !in keys[currentLvl + 1];
        e, n, i := Promote(key, value, e, n, currentLvl, i);
        TowerGrow(keys1, keys0, Key(key), currentLvl, i, keys);
        currentLvl := currentLvl + 1;
      }
    }

    /**
     * The work of `Insert` once the key is known to be new: links a node holding `key` and `value` after
     * `entry`, the node at position `p` of level 0 where the key falls between `entry` and its successor, and
     * raises its tower `promotions` levels (see `RaiseTower`).
     */
    method AddTower(key: string, value: V, entry: int, promotions: nat, ghost p: int)
      requires Layers(0, NegInf) && RowAt(nodes, levelOf, levels, keys, 0) && 0 <= p < |levels[0]| - 1 && entry == levels[0][p]
      requires BoundLess(keys[0][p], Key(key)) && BoundLess(Key(key), keys[0][p + 1]) && key !in Contents
      modifies this
      ensures Layers(0, NegInf) && counter == old(counter) && Contents == old(Contents)[key := value]
      ensures lvl == if old(lvl) < promotions then promotions else old(lvl)
      ensures TowerTo(keys, old(keys), Key(key), promotions)
    {
      assert Key(key) !in keys[0] by {
        assert RowAt(nodes, levelOf, levels, keys, 0);
      }
      var top := Splice(entry, key, value, Null, 0, p, 0);
      TowerStart(old(keys), Key(key), p + 1, keys);
      RaiseTower(key, value, entry, top, promotions, p + 1, old(keys));
    }

    /**
     * Adds `key` with `value`; a key already present is an `ArgumentException`. The key's tower rises
     * `promotions` levels above level 0 (see `RaiseTower`), and empty levels are added on top as it needs them.
     */
    method Insert(key: string, value: V, promotions: nat) returns (r: Result<()>)
      requires Valid()
      modifies this
      ensures Valid()
      ensures key in old(Contents) ==> r == Err(Argument) && unchanged(this)
      ensures key !in old(Contents) ==> r == Ok(()) && Contents == old(Contents)[key := value]
      ensures key !in old(Contents) ==> lvl == (if old(lvl) < promotions then promotions else old(lvl))
      ensures key !in old(Contents) ==> TowerTo(keys, old(keys), Key(key), promotions)
    {
      var entry, p := Get(key);
      FloorInMap(nodes, levelOf, levels, keys, Contents, lvl, head, tail, p, key);
      if nodes[entry].key == Key(key) {
        return Err(Argument);
      }
      AddTower(key, value, entry, promotions, p);
      counter := counter + 1;
      return Ok(());
    }

    /**
     * One round of the loop of `Remove`: unlinks node `t`, at position `p` of level `L` and holding `k`, from its
     * level (its neighbours point past it) and cuts the `below` link of the node above it, which it returns.
     */
    method Unlink(t: int, ghost k: string, ghost L: int, ghost p: int) returns (up: int, ghost u: int)
      requires Layers(L, Key(k)) && UnlinkPlace(nodes, levelOf, levels, keys, L, p, Key(k)) && t == levels[L][p]
      modifies this
      ensures Layers(L + 1, Key(k)) && Unlinked(old(nodes), t, nodes) && up == old(nodes)[t].above
      ensures head == old(head) && tail == old(tail) && lvl == old(lvl) && counter == old(counter)
      ensures levels == old(levels)[L := RemoveAt(old(levels)[L], p)] && levelOf == old(levelOf)[t := Null]
      ensures keys == old(keys)[L := RemoveAt(old(keys)[L], p)]
      ensures Contents == if L == 0 then old(Contents) - {k} else old(Contents)
      ensures up == Null ==> L == lvl || Key(k) !in keys[L + 1]
      ensures up != Null ==> UnlinkPlace(nodes, levelOf, levels, keys, L + 1, u, Key(k)) && up == levels[L + 1][u]
    {
      UnlinkSites(nodes, levelOf, levels, keys, L, p, Key(k));
      up := nodes[t].above;
      var arena := UnlinkArena(nodes, t);
      UnlinkKeepsStack(nodes, levelOf, levels, keys, Contents, lvl, head, tail, L, p, k, arena);
      u := UnlinkNext(nodes, levelOf, levels, keys, Contents, lvl, head, tail, L, p, k, arena);
      Commit(arena, head, tail, lvl, levelOf[t := Null], levels[L := RemoveAt(levels[L], p)], keys[L := RemoveAt(keys[L], p)],
             if L == 0 then Contents - {k} else Contents, L + 1, Key(k));
    }

    /**
     * `Remove` as the C# code has it, over the corrected `Get`: it unlinks the key's tower level by level and
     * returns the value, but never decrements `counter`, so `counter` drifts one further above the number of keys
     * with every removal. A missing key is an `InvalidOperationException`.
     */
    method RemoveAsWritten(key: string) returns (r: Result<V>)
      requires Layers(0, NegInf)
      modifies this
      ensures Layers(0, NegInf) && counter == old(counter) && lvl == old(lvl)
      ensures key !in old(Contents) ==> r == Err(InvalidOperation) && unchanged(this)
      ensures key in old(Contents) ==> r == Ok(old(Contents)[key]) && Contents == old(Contents) - {key}
      ensures key in old(Contents) ==> counter - |Contents| == old(counter - |Contents|) + 1
      ensures key in old(Contents) ==> |keys| == |old(keys)| && forall L :: 0 <= L < |keys| ==> keys[L] == Without(old(keys)[L], Key(key))
    {
      var t, p := Get(key);
      FloorInMap(nodes, levelOf, levels, keys, Contents, lvl, head, tail, p, key);
      if nodes[t].key != Key(key) {
        return Err(InvalidOperation);
      }
      var valueOfTheDeleted := nodes[t].value.value;
      UnlinkTower(t, key, p);
      return Ok(valueOfTheDeleted);
    }

    /**
     * `Remove` over `GetAsWritten`, as the C# code runs: the descent fails, or it ends at the `-oo` node of
     * level 0, whose key is never the user key, so the check that the key was found always throws.
     */
    method RemoveOverGetAsWritten(key: string) returns (r: Result<V>)
      requires Layers(0, NegInf)
      ensures r == if |keys[lvl]| == 2 && BoundLe(Key(PosInfName), Key(key)) then Err(NullReference) else Err(InvalidOperation)
    {
      var found := GetAsWritten(key);
      if found.Err? {
        return Err(found.error);
      }
      var toBeRemoved := nodes[found.value];
      assert toBeRemoved.key != Key(key);
      return Err(InvalidOperation);
    }

    /**
     * The loop of `Remove`: from the level-0 node `t` of `key` (position `p`), unlinks the key's node on each
     * level in turn, climbing by the `above` links, until a node has none above it.
     */
    method UnlinkTower(t: int, key: string, ghost p: int)
      requires Layers(0, NegInf) && RowAt(nodes, levelOf, levels, keys, 0) && 0 <= p < |levels[0]| && t == levels[0][p]
      requires keys[0][p] == Key(key)
      modifies this
      ensures Layers(0, NegInf) && counter == old(counter) && lvl == old(lvl) && Contents == old(Contents) - {key}
      ensures |keys| == |old(keys)| && forall L :: 0 <= L < |keys| ==> keys[L] == Without(old(keys)[L], Key(key))
    {
      // The first round of the C# loop, whose node is never null.
      assert Layers(0, Key(key));
      var toBeRemoved, i := Unlink(t, key, 0, p);
      StripGrow(old(keys), old(keys), Key(key), 0, p, keys);
      ghost var L := 1;
      while toBeRemoved != Null
        invariant Layers(L, Key(key)) && counter == old(counter) && lvl == old(lvl) && 0 < L <= lvl + 1
        invariant StrippedTo(keys, old(keys), Key(key), L) && Contents == old(Contents) - {key}
        invariant toBeRemoved != Null ==> L <= lvl && UnlinkPlace(nodes, levelOf, levels, keys, L, i, Key(key)) && toBeRemoved == levels[L][i]
        invariant toBeRemoved == Null ==> L <= lvl ==> Key(key) !in keys[L]
        decreases lvl + 1 - L
      {
        ghost var keys1 := keys;
        ghost var i1 := i;
        toBeRemoved, i := Unlink(toBeRemoved, key, L, i);
        StripGrow(keys1, old(keys), Key(key), L, i1, keys);
        L := L + 1;
      }
      CloseStackGap(nodes, levelOf, levels, keys, Contents, lvl, head, tail, L, Key(key));
      StripDone(keys, old(keys), Key(key), L);
    }

    /** Removes `key` and returns its value, keeping `counter` the number of keys; a missing key is an `InvalidOperationException`. */
    method Remove(key: string) returns (r: Result<V>)
      requires Valid()
      modifies this
      ensures Valid() && lvl == old(lvl)
      ensures key !in old(Contents) ==> r == Err(InvalidOperation) && unchanged(this)
      ensures key in old(Contents) ==> r == Ok(old(Contents)[key]) && Contents == old(Contents) - {key}
      ensures key in old(Contents) ==> |keys| == |old(keys)| && forall L :: 0 <= L < |keys| ==> keys[L] == Without(old(keys)[L], Key(key))
    {
      r := RemoveAsWritten(key);
      if r.Ok? {
        counter := counter - 1;
      }
    }
  }
}
