/**
 * The self-expiring, fixed-capacity cache of cache/map-cache.js: entries live
 * on a circular doubly-linked ring, `insertion` is the cursor at which the
 * next entry is inserted, and a periodic sweep ages out stale entries.
 *
 * The clock (`Date.now`) is the parameter `now` of the operations that read
 * it; the interval timer is the pair of flags `validationPoll` (a handle is
 * stored) and `polling` (the interval behind it is still live). The logger
 * is disabled by the constructor and has no effect on the cache's state, so
 * every logging call is left out.
 */
module Cache {
  import opened Wrappers
  import opened Ring

  /** Default capacity and lifetime (cache/map-cache.js:7-9). */
  const CacheSize: int := 10
  const CacheLifetime: int := 10000

  /** The `dir` argument `get` hands to `traverse`: the array
      `['left', 'right']`. It is truthy, so `traverse` uses it as a single
      property name ("left,right"), which no node has (cache/map-cache.js:96,
      105, 210). */
  const GetDirection: Option<Field> := Some(Absent)

  /** An entry whose last access lies more than `lifetime` before `now`. */
  predicate IsStale<K, D>(node: Node<K, D>, now: int, lifetime: int)
  {
    now - node.lastAccessed > lifetime
  }

  /** Staleness is a threshold on the stamp: a stale entry was accessed
      strictly before any fresh one, and stays stale as time goes on. */
  lemma StalenessIsThreshold<K, D>(a: Node<K, D>, b: Node<K, D>, now: int, later: int, lifetime: int)
    ensures IsStale(a, now, lifetime) && !IsStale(b, now, lifetime) ==> a.lastAccessed < b.lastAccessed
    ensures IsStale(a, now, lifetime) && now <= later ==> IsStale(a, later, lifetime)
  {
  }

  /** The first position of `x` in `s`. */
  ghost function IndexOf(s: seq<nat>, x: nat): (k: nat)
    requires x in s
    ensures k < |s| && s[k] == x && x !in s[..k]
  {
    if s[0] == x then 0 else 1 + IndexOf(s[1..], x)
  }

  /** The node the pointer of the current direction holds when `traverse`
      has visited `c` nodes of `r` (not used for `Absent`, whose pointer is
      `undefined`). */
  ghost function Candidate(dir: Option<Field>, r: seq<nat>, c: nat): nat
    requires r != [] && 1 <= c <= |r|
  {
    match dir
    case Some(Left) => r[Succ(c - 1, |r|)]
    case Some(Right) => r[|r| - c]
    case Some(Absent) => r[0]
    case None => if c % 2 == 1 then r[|r| - 1 - c / 2] else r[Succ((c - 1) / 2, |r|)]
  }

  /** One step of `traverse` on a ring: before every member has been visited
      the candidate is the next node of the traversal order and neither the
      start nor the node just visited; once all have been visited it is one
      of those two, so the generator stops. */
  lemma TraversalStep(dir: Option<Field>, r: seq<nat>, c: nat)
    requires Distinct(r) && r != [] && dir != Some(Absent) && 1 <= c <= |r|
    ensures c < |r| ==>
      && Candidate(dir, r, c) == r[Source(dir, c, |r|)]
      && Candidate(dir, r, c) != r[0]
      && (c > 1 ==> Candidate(dir, r, c) != r[Source(dir, c - 1, |r|)])
    ensures c == |r| ==>
      Candidate(dir, r, c) == r[0] || (c > 1 && Candidate(dir, r, c) == r[Source(dir, c - 1, |r|)])
  {
    DistinctPairs(r);
  }

  /** The direction `traverse` follows at step `c`: the only one given, or
      right and left alternately (`dirs[count % dirs.length]`). */
  function Direction(dir: Option<Field>, c: nat): Field
  {
    if dir.Some? then dir.value else if c % 2 == 1 then Right else Left
  }

  lemma PickDirection(dirs: seq<Field>, dir: Option<Field>, c: nat)
    requires dirs == if dir.Some? then [dir.value] else [Left, Right]
    ensures dirs[c % |dirs|] == Direction(dir, c)
  {
  }

  /** The `pointers` of `traverse(dir, r[0])` once `c` nodes have been
      visited: each direction's pointer is the next node that way. */
  ghost predicate PointersAt(pointers: map<Field, Slot>, dir: Option<Field>, r: seq<nat>, c: nat)
    requires 1 <= c <= |r|
  {
    match dir
    case Some(Left) => Left in pointers && pointers[Left] == Val(Ref(r[Succ(c - 1, |r|)]))
    case Some(Right) => Right in pointers && pointers[Right] == Val(Ref(r[|r| - c]))
    case Some(Absent) => c == 1 && Absent in pointers && pointers[Absent] == Undefined
    case None =>
      && Left in pointers && pointers[Left] == Val(Ref(r[Succ((c - 1) / 2, |r|)]))
      && Right in pointers && pointers[Right] == Val(Ref(r[|r| - 1 - c / 2]))
  }

  /** Following the pointer of step `c` reads the candidate, and moving that
      pointer one node further gives the pointers of step `c + 1`. */
  lemma PointerStep<K, D>(nodes: seq<Node<K, D>>, r: seq<nat>, dir: Option<Field>, pointers: map<Field, Slot>, c: nat)
    requires IsRing(nodes, r) && dir != Some(Absent) && 1 <= c <= |r|
    requires PointersAt(pointers, dir, r, c)
    ensures Direction(dir, c) in pointers && pointers[Direction(dir, c)] == Val(Ref(Candidate(dir, r, c)))
    ensures c < |r| ==>
      var cur := Direction(dir, c);
      PointersAt(pointers[cur := Lookup(nodes[Candidate(dir, r, c)], cur)], dir, r, c + 1)
  {
    var n := |r|;
    if c < n {
      match dir
      case Some(Left) =>
        assert nodes[r[c]].left == Ref(r[Succ(c, n)]);
      case Some(Right) =>
        assert nodes[r[n - c]].right == Ref(r[Pred(n - c, n)]);
      case None =>
        if c % 2 == 1 {
          var k := n - 1 - c / 2;
          assert nodes[r[k]].right == Ref(r[Pred(k, n)]);
        } else {
          var k := Succ((c - 1) / 2, n);
          assert nodes[r[k]].left == Ref(r[Succ(k, n)]);
        }
    }
  }

  /** The slot `previous` holds once `c` nodes have been visited. */
  ghost function Previous(dir: Option<Field>, r: seq<nat>, c: nat): Slot
    requires 1 <= c <= |r|
  {
    if c == 1 then Undefined else Val(Ref(r[Source(dir, c - 1, |r|)]))
  }

  /** How many nodes `traverse(dir, r[0])` visits. */
  function Total(dir: Option<Field>, n: nat): nat
  {
    if dir == Some(Absent) then 1 else n
  }

  /** The state of `traverse(dir, r[0])` after `c` nodes have been visited. */
  ghost predicate GeneratorState<K, D>(nodes: seq<Node<K, D>>, r: seq<nat>, dir: Option<Field>,
                                       visited: seq<nat>, previous: Slot, pointers: map<Field, Slot>, c: int)
  {
    && IsRing(nodes, r) && 1 <= c <= Total(dir, |r|)
    && visited == Visits(dir, r, c)
    && previous == Previous(dir, r, c)
    && PointersAt(pointers, dir, r, c)
  }

  /** The pointers `traverse` starts with: each direction's pointer is the
      start's neighbour that way. */
  function StartPointers<K, D>(node: Node<K, D>, dir: Option<Field>): map<Field, Slot>
  {
    if dir.Some? then map[dir.value := Lookup(node, dir.value)]
    else map[Left := Lookup(node, Left), Right := Lookup(node, Right)]
  }

  /** `traverse(dir, r[0])` once it has yielded the start. */
  lemma GeneratorStart<K, D>(nodes: seq<Node<K, D>>, r: seq<nat>, dir: Option<Field>)
    requires IsRing(nodes, r)
    ensures GeneratorState(nodes, r, dir, [r[0]], Undefined, StartPointers(nodes[r[0]], dir), 1)
  {
    var n := |r|;
    assert nodes[r[0]].left == Ref(r[Succ(0, n)]) && nodes[r[0]].right == Ref(r[Pred(0, n)]);
  }

  /** One iteration of `traverse`: the generator stops exactly when every
      node of the order has been visited; otherwise it visits the next node
      of the order and moves on to the state of the following step. */
  lemma GeneratorStep<K, D>(nodes: seq<Node<K, D>>, r: seq<nat>, dir: Option<Field>,
                            visited: seq<nat>, previous: Slot, pointers: map<Field, Slot>, c: int)
    requires GeneratorState(nodes, r, dir, visited, previous, pointers, c)
    ensures Direction(dir, c) in pointers
    ensures
      var slot := pointers[Direction(dir, c)];
      (slot == previous || slot == Val(Ref(r[0]))) <==> c == Total(dir, |r|)
    ensures c == Total(dir, |r|) ==> visited == Order(dir, r)
    ensures c < Total(dir, |r|) ==>
      var cur := Direction(dir, c);
      var slot := pointers[cur];
      && slot.Val? && slot.ptr.Ref? && slot.ptr.index < |nodes|
      && GeneratorState(nodes, r, dir, visited + [slot.ptr.index], slot,
                        pointers[cur := Lookup(nodes[slot.ptr.index], cur)], c + 1)
  {
    if dir != Some(Absent) {
      TraversalStep(dir, r, c);
      PointerStep(nodes, r, dir, pointers, c);
    }
  }

  // ---------------------------------------------------------------------
  // Looking a key up along a traversal

  /** The first node of `order` whose key `cmp` accepts (`cmp` is
      `compareFunc`, called as `compareFunc(key, pointer.key)`). */
  function FirstMatch<K, D>(cmp: (K, K) -> bool, key: K, nodes: seq<Node<K, D>>, order: seq<nat>): (res: Option<nat>)
    requires forall i | 0 <= i < |order| :: order[i] < |nodes|
    ensures res.Some? ==> res.value in order && res.value < |nodes| && cmp(key, nodes[res.value].key)
    ensures res.None? <==> forall x | x in order :: !cmp(key, nodes[x].key)
  {
    if order == [] then None
    else if cmp(key, nodes[order[0]].key) then Some(order[0])
    else FirstMatch(cmp, key, nodes, order[1..])
  }

  /** The node found is the first accepted one: every node visited before
      it is rejected. */
  lemma {:induction false} FirstMatchIsFirst<K, D>(cmp: (K, K) -> bool, key: K, nodes: seq<Node<K, D>>, order: seq<nat>, i: nat)
    requires forall k | 0 <= k < |order| :: order[k] < |nodes|
    requires i < |order| && FirstMatch(cmp, key, nodes, order) == Some(order[i]) && Distinct(order)
    ensures forall j | 0 <= j < i :: !cmp(key, nodes[order[j]].key)
  {
    if i > 0 {
      assert Apart(order, 0, i);
      assert !cmp(key, nodes[order[0]].key);
      DropHead(order);
      var rest := order[1..];
      assert rest[i - 1] == order[i];
      FirstMatchIsFirst(cmp, key, nodes, rest, i - 1);
      forall j | 0 <= j < i ensures !cmp(key, nodes[order[j]].key) {
        if j > 0 { assert order[j] == rest[j - 1]; }
      }
    }
  }

  /** What `get` finds: the traversal it asks for visits only the cursor,
      so a key is found exactly when it is the cursor's key, whatever the
      other entries hold. */
  lemma GetLooksOnlyAtCursor<K, D>(cmp: (K, K) -> bool, key: K, nodes: seq<Node<K, D>>, r: seq<nat>)
    requires IsRing(nodes, r)
    ensures forall i | 0 <= i < |Order(GetDirection, r)| :: Order(GetDirection, r)[i] < |nodes|
    ensures FirstMatch(cmp, key, nodes, Order(GetDirection, r))
         == if cmp(key, nodes[r[0]].key) then Some(r[0]) else None
  {
    TraversalVisitsAll(GetDirection, r);
  }

  /** The two-way traversal (`traverse()` with no direction) reaches every
      entry, so a search along it finds a key exactly when some entry on the
      ring holds it. */
  lemma TwoWaySearchFindsAnyEntry<K, D>(cmp: (K, K) -> bool, key: K, nodes: seq<Node<K, D>>, r: seq<nat>)
    requires IsRing(nodes, r)
    ensures forall i | 0 <= i < |Order(None, r)| :: Order(None, r)[i] < |nodes|
    ensures FirstMatch(cmp, key, nodes, Order(None, r)).Some? <==> exists x | x in r :: cmp(key, nodes[x].key)
  {
    TraversalVisitsAll(None, r);
    var o := Order(None, r);
    forall i | 0 <= i < |o| ensures o[i] < |nodes| {
      assert o[i] in o;
      var k :| 0 <= k < |r| && r[k] == o[i];
    }
  }

  // ---------------------------------------------------------------------
  // The sweep of `validate`

  /** The order `validate` sweeps in, `traverse('left', cursor.left)`: the
      ring read leftward from the cursor's left neighbour round to the
      cursor, which comes last. */
  function Walk(r: seq<nat>): (w: seq<nat>)
    requires r != []
    ensures |w| == |r| && w[|w| - 1] == r[0]
  {
    r[1..] + [r[0]]
  }

  /** The walk is the same ring read from the cursor's left neighbour. */
  lemma {:induction false} WalkIsRing<K, D>(nodes: seq<Node<K, D>>, r: seq<nat>)
    requires IsRing(nodes, r)
    ensures IsRing(nodes, Walk(r)) && nodes[r[0]].left == Ref(Walk(r)[0])
  {
    var n := |r|;
    assert nodes[r[0]].left == Ref(r[Succ(0, n)]);
    if n >= 2 {
      assert Walk(r) == Rotate(r, 1);
      RotateKeepsRing(nodes, r, 1);
    } else {
      assert Walk(r) == r;
    }
  }

  /** The walk visits exactly the members of the ring. */
  lemma WalkMember(r: seq<nat>, x: nat)
    requires r != []
    ensures x in Walk(r) <==> x in r
  {
    assert r == [r[0]] + r[1..];
  }

  /** `after` is `before` with every stale node of `seen` marked dirty. */
  ghost predicate MarkedStale<K, D>(before: seq<Node<K, D>>, after: seq<Node<K, D>>, seen: seq<nat>, now: int, lifetime: int)
  {
    && |after| == |before|
    && forall k | 0 <= k < |before| ::
         after[k] == before[k].(dirty := before[k].dirty || (k in seen && IsStale(before[k], now, lifetime)))
  }

  /** Nothing swept, nothing marked. */
  lemma MarkedNothing<K, D>(nodes: seq<Node<K, D>>, now: int, lifetime: int)
    ensures MarkedStale(nodes, nodes, [], now, lifetime)
  {
    forall k | 0 <= k < |nodes| ensures nodes[k].(dirty := nodes[k].dirty) == nodes[k] {
      var n := nodes[k];
      assert n.(dirty := n.dirty) == n;
    }
  }

  /** Marking nodes dirty leaves every link where it was. */
  lemma MarkedKeepsLinks<K, D>(before: seq<Node<K, D>>, after: seq<Node<K, D>>, seen: seq<nat>, now: int, lifetime: int)
    requires MarkedStale(before, after, seen, now, lifetime)
    ensures SameLinks(before, after)
  {
    forall k | 0 <= k < |before| ensures before[k].left == after[k].left && before[k].right == after[k].right {
    }
  }

  /** If the cursor `c` is the node at position `b` of the walk, swept
      before the original cursor (the walk's last node), then the node
      swept at `a < b` is strictly older than it. Stated pair by pair, so
      that a proof instantiates it only for the pairs it names. */
  ghost predicate SweptBefore<K, D>(before: seq<Node<K, D>>, w: seq<nat>, i: int, c: nat, a: int, b: int)
  {
    0 <= a < b < i && b < |w| - 1 && w[b] == c && w[a] < |before| && c < |before| ==>
      before[w[a]].lastAccessed < before[c].lastAccessed
  }

  /** The state of the sweep over the walk `w` after its first `i` nodes
      (`before` is the arena when the sweep began, `w`'s last node the
      cursor it began with):
      - the stale nodes among them, and no others, have been marked dirty;
      - the cursor is the original one or a node already swept, and any
        cursor but the original one is fresh;
      - once a fresh node has been swept, the cursor is fresh and at least
        as recently accessed as it;
      - the latest accessed node, if already swept, was fresh;
      - the cursor is never null;
      - a cursor that has moved off the original one is strictly newer
        than the original and than every node swept before it, since only
        a strictly newer stamp moves the cursor. */
  ghost predicate SweepState<K, D>(before: seq<Node<K, D>>, after: seq<Node<K, D>>, w: seq<nat>, i: int,
                                   cursor: Ptr, latest: nat, now: int, lifetime: int)
  {
    && 1 <= |w| && Distinct(w) && (forall k | 0 <= k < |w| :: w[k] < |before|) && 0 <= i <= |w|
    && MarkedStale(before, after, w[..i], now, lifetime)
    && (cursor.Ref? ==> cursor.index == w[|w| - 1] || cursor.index in w[..i])
    && (cursor.Ref? && cursor.index != w[|w| - 1] ==> !IsStale(before[cursor.index], now, lifetime))
    && (forall x | x in w[..i] && x < |before| && !IsStale(before[x], now, lifetime) ::
          && cursor.Ref? && !IsStale(before[cursor.index], now, lifetime)
          && before[x].lastAccessed <= before[cursor.index].lastAccessed)
    && (latest in w[..i] ==> !IsStale(before[latest], now, lifetime))
    && cursor.Ref?
    && (cursor.index != w[|w| - 1] ==> before[w[|w| - 1]].lastAccessed < before[cursor.index].lastAccessed)
    && (forall a, b :: SweptBefore(before, w, i, cursor.index, a, b))
  }

  /** A stale node met by the sweep is the original cursor only when it is
      the latest access: the walk ends at the original cursor, and the
      latest access, swept earlier, would have been fresh and so would have
      replaced it. */
  lemma {:induction false} StaleCursorIsLatest<K, D>(before: seq<Node<K, D>>, after: seq<Node<K, D>>, w: seq<nat>, i: nat,
                                                    cursor: Ptr, latest: nat, now: int, lifetime: int)
    requires SweepState(before, after, w, i, cursor, latest, now, lifetime) && i < |w| && latest in w
    requires IsStale(after[w[i]], now, lifetime) && cursor == Ref(w[i])
    ensures w[i] == latest
  {
    var p := w[i];
    DistinctPairs(w);
    assert p !in w[..i];
    assert IsStale(before[p], now, lifetime);
    assert i == |w| - 1;
    assert latest !in w[..i];
    assert w == w[..i] + [p];
  }

  /** A stale node that is not the latest access is marked dirty. */
  lemma SweepStale<K, D>(before: seq<Node<K, D>>, after: seq<Node<K, D>>, w: seq<nat>, i: nat,
                         cursor: Ptr, latest: nat, now: int, lifetime: int)
    requires SweepState(before, after, w, i, cursor, latest, now, lifetime) && i < |w|
    requires IsStale(after[w[i]], now, lifetime) && w[i] != latest && cursor != Ref(w[i])
    ensures SweepState(before, after[w[i] := after[w[i]].(dirty := true)], w, i + 1, cursor, latest, now, lifetime)
  {
    var p := w[i];
    assert w[..i + 1] == w[..i] + [p];
    assert IsStale(before[p], now, lifetime);
    var next := i + 1;
    forall a, b ensures SweptBefore(before, w, next, cursor.index, a, b) {
      if b < i {
        assert SweptBefore(before, w, i, cursor.index, a, b);
      }
    }
  }

  /** A fresh node becomes the cursor when there is none or it is more
      recently accessed than the cursor. */
  lemma SweepFresh<K, D>(before: seq<Node<K, D>>, after: seq<Node<K, D>>, w: seq<nat>, i: nat,
                         cursor: Ptr, latest: nat, now: int, lifetime: int)
    requires SweepState(before, after, w, i, cursor, latest, now, lifetime) && i < |w|
    requires !IsStale(after[w[i]], now, lifetime)
    requires cursor.Ref? ==> cursor.index < |after|
    ensures SweepState(before, after, w, i + 1,
                       if cursor.Nil? || after[w[i]].lastAccessed > after[cursor.index].lastAccessed then Ref(w[i]) else cursor,
                       latest, now, lifetime)
  {
    var p := w[i];
    assert w[..i + 1] == w[..i] + [p];
    assert !IsStale(before[p], now, lifetime);
    DistinctPairs(w);
    if !(after[p].lastAccessed > after[cursor.index].lastAccessed) {
      assert before[p].lastAccessed <= before[cursor.index].lastAccessed;
      var next := i + 1;
    forall a, b ensures SweptBefore(before, w, next, cursor.index, a, b) {
        if b < i {
          assert SweptBefore(before, w, i, cursor.index, a, b);
        }
      }
    } else {
      var next := i + 1;
      forall a, b ensures SweptBefore(before, w, next, p, a, b) {
        if 0 <= a < b < i + 1 && w[b] == p {
          assert w[a] in w[..i];
        }
      }
    }
  }

  /** A sweep that reached the end without meeting a stale latest access
      leaves a fresh cursor on the walk, accessed no less recently than any
      node of the walk. */
  lemma SweepDone<K, D>(before: seq<Node<K, D>>, after: seq<Node<K, D>>, w: seq<nat>,
                        cursor: Ptr, latest: nat, now: int, lifetime: int)
    requires SweepState(before, after, w, |w|, cursor, latest, now, lifetime) && latest in w
    ensures !IsStale(before[latest], now, lifetime)
    ensures cursor.index in w && !IsStale(before[cursor.index], now, lifetime)
    ensures forall x | x in w :: before[x].lastAccessed <= before[cursor.index].lastAccessed
  {
    var l :| 0 <= l < |w| && w[l] == latest;
    assert w[..|w|] == w;
    forall x | x in w ensures before[x].lastAccessed <= before[cursor.index].lastAccessed {
      var k :| 0 <= k < |w| && w[k] == x;
      if IsStale(before[x], now, lifetime) {
        assert before[latest].lastAccessed <= before[cursor.index].lastAccessed;
      }
    }
  }

  /** Read from the original cursor, the ring has no node before the new
      cursor that is as recently accessed as it: of the nodes with the
      newest stamp, the sweep settles on the first. */
  lemma {:induction false} SweepPicksFirstNewest<K, D>(before: seq<Node<K, D>>, after: seq<Node<K, D>>, R: seq<nat>,
                                                       cursor: Ptr, latest: nat, now: int, lifetime: int)
    requires R != [] && (forall k | 0 <= k < |R| :: R[k] < |before|)
    requires SweepState(before, after, Walk(R), |R|, cursor, latest, now, lifetime) && cursor.index in R
    ensures forall k | 0 <= k < IndexOf(R, cursor.index) :: before[R[k]].lastAccessed < before[cursor.index].lastAccessed
  {
    var w, n, c := Walk(R), |R|, cursor.index;
    var j := IndexOf(R, c);
    forall k | 0 <= k < j ensures before[R[k]].lastAccessed < before[c].lastAccessed {
      assert w[n - 1] == R[0];
      if k > 0 {
        assert w[k - 1] == R[k] && w[j - 1] == R[j];
        assert SweptBefore(before, w, n, c, k - 1, j - 1);
      }
    }
  }

  /** At the end of a sweep that met no stale latest access, the latest
      access and the new cursor are fresh nodes of the ring, and the cursor
      is the first node, read from the original cursor, with the newest
      stamp. */
  lemma SweepNewest<K, D>(before: seq<Node<K, D>>, after: seq<Node<K, D>>, R: seq<nat>,
                          cursor: Ptr, latest: nat, now: int, lifetime: int)
    requires R != [] && (forall k | 0 <= k < |R| :: R[k] < |before|) && latest in R
    requires SweepState(before, after, Walk(R), |R|, cursor, latest, now, lifetime)
    ensures !IsStale(before[latest], now, lifetime)
    ensures cursor.index in R && !IsStale(before[cursor.index], now, lifetime)
    ensures forall x | x in R :: before[x].lastAccessed <= before[cursor.index].lastAccessed
    ensures forall k | 0 <= k < IndexOf(R, cursor.index) :: before[R[k]].lastAccessed < before[cursor.index].lastAccessed
  {
    var w := Walk(R);
    WalkMember(R, latest);
    SweepDone(before, after, w, cursor, latest, now, lifetime);
    var c := cursor.index;
    WalkMember(R, c);
    forall x | x in R ensures before[x].lastAccessed <= before[c].lastAccessed {
      WalkMember(R, x);
    }
    SweepPicksFirstNewest(before, after, R, cursor, latest, now, lifetime);
  }

  /** Marking stale nodes keeps the ring, and the ring read from any of its
      nodes `c` is a ring of the marked arena that still holds `latest`. */
  lemma MarkedRotatedRing<K, D>(before: seq<Node<K, D>>, after: seq<Node<K, D>>, R: seq<nat>,
                                c: nat, latest: nat, now: int, lifetime: int)
    requires IsRing(before, R) && LinksInArena(before) && latest in R && c in R
    requires MarkedStale(before, after, Walk(R), now, lifetime)
    ensures LinksInArena(after)
    ensures var s := Rotate(R, IndexOf(R, c)); IsRing(after, s) && s[0] == c && latest in s
  {
    MarkedKeepsLinks(before, after, Walk(R), now, lifetime);
    SameLinksKeepRing(before, after, R);
    var j := IndexOf(R, c);
    RotateKeepsRing(after, R, j);
    assert latest in multiset(Rotate(R, j));
  }

  /** The end of a sweep that met no stale latest access: the stale nodes
      of the whole ring are marked dirty, the new cursor is the first fresh
      node with the newest stamp, and the ring read from it is a ring of
      the marked arena that still holds the latest access. */
  lemma SweepFinish<K, D>(before: seq<Node<K, D>>, after: seq<Node<K, D>>, R: seq<nat>,
                          cursor: Ptr, latest: nat, now: int, lifetime: int)
    requires IsRing(before, R) && LinksInArena(before) && latest in R
    requires SweepState(before, after, Walk(R), |R|, cursor, latest, now, lifetime)
    ensures !IsStale(before[latest], now, lifetime)
    ensures cursor.index in R && !IsStale(before[cursor.index], now, lifetime)
    ensures forall x | x in R :: before[x].lastAccessed <= before[cursor.index].lastAccessed
    ensures forall k | 0 <= k < IndexOf(R, cursor.index) :: before[R[k]].lastAccessed < before[cursor.index].lastAccessed
    ensures MarkedStale(before, after, Walk(R), now, lifetime) && LinksInArena(after)
    ensures var s := Rotate(R, IndexOf(R, cursor.index));
      IsRing(after, s) && s[0] == cursor.index && latest in s
  {
    SweepNewest(before, after, R, cursor, latest, now, lifetime);
    var w := Walk(R);
    assert w[..|w|] == w;
    MarkedRotatedRing(before, after, R, cursor.index, latest, now, lifetime);
  }

  /** A sweep stopped by a stale latest access at step `i` has marked the
      stale nodes of the walk before the latest access. */
  lemma SweepStopped<K, D>(before: seq<Node<K, D>>, after: seq<Node<K, D>>, w: seq<nat>, i: nat,
                           cursor: Ptr, latest: nat, now: int, lifetime: int)
    requires SweepState(before, after, w, i, cursor, latest, now, lifetime)
    requires i < |w| && w[i] == latest && IsStale(before[latest], now, lifetime)
    ensures IndexOf(w, latest) == i
    ensures MarkedStale(before, after, w[..IndexOf(w, latest)], now, lifetime)
  {
    assert w[IndexOf(w, latest)] == w[i];
  }

  class MapCache<K, D> {
    const maxSize: int
    const lifetime: int
    const compareFunc: (K, K) -> bool

    /** The node arena: every node ever created, linked or not. */
    var nodes: seq<Node<K, D>>
    /** The cursor. */
    var insertion: Ptr
    var size: int
    var latestAccessed: Ptr
    /** A polling handle has been stored in `validationPoll`. */
    var validationPoll: bool
    /** The interval behind that handle has not been cleared. */
    var polling: bool

    /** The ring reachable from the cursor, read leftward from it. */
    ghost var ring: seq<nat>

    /** The ring is well formed and anchored at the cursor, the latest
        accessed entry is on it, and polling runs only under a handle. */
    ghost predicate RingValid()
      reads this
    {
      && LinksInArena(nodes)
      && (insertion == Nil <==> ring == [])
      && (insertion != Nil ==> IsRing(nodes, ring) && insertion == Ref(ring[0]))
      && (insertion != Nil ==> latestAccessed.Ref? && latestAccessed.index in ring)
      && (polling ==> validationPoll)
    }

    /** `size` counts the ring and respects the capacity whenever the
        capacity is at least one; a smaller capacity leaves a ring of at
        most one entry. */
    ghost predicate Valid()
      reads this
    {
      && RingValid()
      && 0 <= size
      && (maxSize >= 1 ==> size == |ring| <= maxSize)
      && |ring| <= (if maxSize >= 1 then maxSize else 1)
      && (polling ==> insertion != Nil)
    }

    /** cache/map-cache.js:63-86; the name and the logger are left out. */
    constructor (maxSize: int, lifetime: int, compareFunc: (K, K) -> bool)
      ensures Valid()
      ensures this.maxSize == maxSize && this.lifetime == lifetime && this.compareFunc == compareFunc
      ensures nodes == [] && insertion == Nil && size == 0 && latestAccessed == Nil
      ensures !validationPoll && !polling
    {
      this.maxSize := maxSize;
      this.lifetime := lifetime;
      this.compareFunc := compareFunc;
      nodes := [];
      size := 0;
      latestAccessed := Nil;
      validationPoll := false;
      polling := false;
      insertion := Nil;
      ring := [];
    }

    /** Drops the cursor, and with it the whole ring; `size` is untouched. */
    method Init()
      modifies this`insertion, this`ring
      ensures insertion == Nil && ring == []
    {
      insertion := Nil;
      ring := [];
    }

    // -------------------------------------------------------------------
    // Node primitives (module-level functions of cache/map-cache.js that
    // rewrite node fields; here the nodes live in the arena)

    /** `insertLeft(ptr, key, data)`: a new node spliced between `ptr.left`
        and `ptr`, or a self-looped singleton when `ptr` is null. */
    method InsertLeft(ptr: Ptr, key: K, data: D, ghost r: seq<nat>) returns (m: nat)
      requires LinksInArena(nodes)
      requires ptr.Ref? ==> ptr.index < |nodes| && nodes[ptr.index].left.Ref?
      modifies this`nodes
      ensures m == old(|nodes|) && |nodes| == m + 1 && LinksInArena(nodes)
      ensures SameEntries(old(nodes), nodes[..m])
      ensures nodes[m].key == key && nodes[m].data == data
      ensures nodes[m].lastAccessed == 0 && !nodes[m].dirty
      ensures ptr == Nil ==> nodes[..m] == old(nodes) && IsRing(nodes, [m])
      ensures ptr.Ref? ==>
        var p, l := ptr.index, old(nodes[ptr.index].left.index);
        && nodes[m].right == ptr && nodes[m].left == Ref(l)
        && nodes[p] == (if p == l then old(nodes[p]).(left := Ref(m), right := Ref(m)) else old(nodes[p]).(left := Ref(m)))
        && (l != p ==> nodes[l] == old(nodes[l]).(right := Ref(m)))
        && (forall i | 0 <= i < m && i != p && i != l :: nodes[i] == old(nodes[i]))
      ensures ptr.Ref? && IsRing(old(nodes), r) && ptr == Ref(r[0]) ==> IsRing(nodes, Spliced(r, m))
    {
      m := |nodes|;
      var newNode := CreateNode(key, data);
      if ptr.Ref? {
        var p := ptr.index;
        var l := nodes[p].left.index;
        newNode := newNode.(right := ptr, left := nodes[p].left);
        nodes := nodes + [newNode];
        nodes := nodes[l := nodes[l].(right := Ref(m))];
        nodes := nodes[p := nodes[p].(left := Ref(m))];
        if IsRing(old(nodes), r) && ptr == Ref(r[0]) {
          SpliceKeepsRing(old(nodes), nodes, r, m);
        }
      } else {
        newNode := newNode.(left := Ref(m), right := Ref(m));
        nodes := nodes + [newNode];
      }
    }

    /** `remove(p)`: joins the neighbours of `p` (a no-op on a singleton);
        a node missing a neighbour gets both links cleared. */
    method Remove(p: nat, ghost r: seq<nat>)
      requires p < |nodes| && LinksInArena(nodes)
      modifies this`nodes
      ensures LinksInArena(nodes) && SameEntries(old(nodes), nodes)
      ensures old(nodes[p].left.Ref? && nodes[p].right.Ref?) ==> nodes == Unlinked(old(nodes), p)
      ensures old(nodes[p].left.Nil? || nodes[p].right.Nil?) ==>
        nodes == old(nodes)[p := old(nodes[p]).(left := Nil, right := Nil)]
      ensures IsRing(old(nodes), r) && r[0] == p && |r| == 1 ==> nodes == old(nodes)
      ensures IsRing(old(nodes), r) && r[0] == p && |r| >= 2 ==> IsRing(nodes, r[1..]) && p !in r[1..]
    {
      if nodes[p].right.Ref? && nodes[p].left.Ref? {
        var rt := nodes[p].right.index;
        nodes := nodes[rt := nodes[rt].(left := nodes[p].left)];
        var lt := nodes[p].left.index;
        nodes := nodes[lt := nodes[lt].(right := nodes[p].right)];
        assert nodes == Unlinked(old(nodes), p);
        if IsRing(old(nodes), r) && r[0] == p {
          if |r| >= 2 {
            UnlinkKeepsRing(old(nodes), r);
          } else {
            assert old(nodes[p]).left == Ref(p) && old(nodes[p]).right == Ref(p);
          }
        }
      } else {
        nodes := nodes[p := nodes[p].(right := Nil, left := Nil)];
      }
    }

    /** `setInvalid(ptr)`: marks a non-null node dirty. */
    method SetInvalid(ptr: Ptr)
      requires ptr.Ref? ==> ptr.index < |nodes|
      modifies this`nodes
      ensures nodes == if ptr.Ref? then old(nodes)[ptr.index := old(nodes[ptr.index]).(dirty := true)] else old(nodes)
    {
      if ptr.Ref? {
        nodes := nodes[ptr.index := nodes[ptr.index].(dirty := true)];
      }
    }

    /** `setValid(ptr)`: clears the dirty mark of a non-null node. */
    method SetValid(ptr: Ptr)
      requires ptr.Ref? ==> ptr.index < |nodes|
      modifies this`nodes
      ensures nodes == if ptr.Ref? then old(nodes)[ptr.index := old(nodes[ptr.index]).(dirty := false)] else old(nodes)
    {
      if ptr.Ref? {
        nodes := nodes[ptr.index := nodes[ptr.index].(dirty := false)];
      }
    }

    /** `setLatestAccess(pointer)`: records the pointer and stamps it with the clock. */
    method SetLatestAccess(p: nat, now: int)
      requires p < |nodes|
      modifies this`latestAccessed, this`nodes
      ensures latestAccessed == Ref(p)
      ensures nodes == old(nodes)[p := old(nodes[p]).(lastAccessed := now)]
    {
      latestAccessed := Ref(p);
      nodes := nodes[p := nodes[p].(lastAccessed := now)];
    }

    /** `getLatestAccess()`: on a cache whose cursor is set, the latest
        access is a node of the ring. */
    function GetLatestAccess(): (p: Ptr)
      reads this
      ensures RingValid() && insertion != Nil ==> p.Ref? && p.index in ring
    {
      latestAccessed
    }

    // -------------------------------------------------------------------
    // Traversal

    /** The generator `traverse(dir, start)`, collected: `start` first, then
        one step at a time along each direction of `dirs` in turn, stopping
        when the next pointer is the node just visited or `start`. The ghost
        `r` is the ring read leftward from `start`. */
    method Traverse(dir: Option<Field>, start: Ptr, ghost r: seq<nat>) returns (visited: seq<nat>)
      requires start.Ref? ==> IsRing(nodes, r) && start == Ref(r[0])
      ensures start == Nil ==> visited == []
      ensures start.Ref? ==> visited == Order(dir, r)
    {
      if start == Nil {
        return [];
      }
      var s := start.index;
      var dirs: seq<Field> := if dir.Some? then [dir.value] else [Left, Right];
      var pointers := StartPointers(nodes[s], dir);
      var count := 1;
      var previous := Undefined;
      visited := [s];
      GeneratorStart(nodes, r, dir);
      while true
        invariant GeneratorState(nodes, r, dir, visited, previous, pointers, count)
        decreases Total(dir, |r|) - count
      {
        PickDirection(dirs, dir, count);
        var current := dirs[count % |dirs|];
        GeneratorStep(nodes, r, dir, visited, previous, pointers, count);
        var slot := pointers[current];
        if slot == previous || slot == Val(start) {
          break;
        }
        var p := slot.ptr.index;
        visited := visited + [p];
        previous := slot;
        pointers := pointers[current := Lookup(nodes[p], current)];
        count := count + 1;
      }
    }

    /** `getSize()`: the number of nodes `traverse('left')` visits from the cursor. */
    method GetSize() returns (n: nat)
      requires RingValid()
      ensures n == |ring|
    {
      var all := Traverse(Some(Left), insertion, ring);
      n := |all|;
      if insertion.Ref? {
        LeftwardOrder(ring);
      }
    }

    // -------------------------------------------------------------------
    // The cache operations

    /** `get(key)`: searches the nodes `traverse(['left', 'right'], cursor)`
        yields; on a hit it clears the node's dirty mark, moves the cursor
        onto it, stamps it and returns its data, on a miss it returns null. */
    method Get(key: K, now: int) returns (res: Option<D>)
      requires Valid()
      modifies this`nodes, this`insertion, this`latestAccessed
      ensures Valid() && ring == old(ring) && insertion == old(insertion)
      ensures old(insertion) == Nil ==> res == None && unchanged(this)
      ensures old(insertion).Ref? ==>
        var c := old(insertion).index;
        if compareFunc(key, old(nodes[c]).key) then
          && res == Some(old(nodes[c]).data)
          && latestAccessed == Ref(c)
          && nodes == old(nodes)[c := old(nodes[c]).(dirty := false, lastAccessed := now)]
        else
          res == None && unchanged(this)
    {
      var visitedNodes := Traverse(GetDirection, insertion, ring);
      if insertion.Ref? {
        GetLooksOnlyAtCursor(compareFunc, key, nodes, ring);
      }
      var found := Search(key, visitedNodes);
      match found
      case None =>
        return None;
      case Some(p) =>
        ghost var before := nodes;
        SetValid(Ref(p));
        insertion := Ref(p);
        SetLatestAccess(p, now);
        TouchKeepsRing(before, ring, p, now);
        return Some(nodes[p].data);
    }

    /** The loop of `get` over the nodes a traversal yielded: the first of
        them whose key `compareFunc` accepts, if any. */
    method Search(key: K, visited: seq<nat>) returns (found: Option<nat>)
      requires forall k | 0 <= k < |visited| :: visited[k] < |nodes|
      ensures found == FirstMatch(compareFunc, key, nodes, visited)
    {
      var i := 0;
      while i < |visited|
        invariant 0 <= i <= |visited|
        invariant FirstMatch(compareFunc, key, nodes, visited) == FirstMatch(compareFunc, key, nodes, visited[i..])
      {
        var p := visited[i];
        if compareFunc(key, nodes[p].key) {
          return Some(p);
        }
        assert visited[i..][1..] == visited[i + 1..];
        i := i + 1;
      }
      return None;
    }

    /** `setValidating(bool)`: starting stores a new polling handle unless one
        is stored already; stopping clears the interval behind a stored
        handle but leaves the handle in place. */
    method SetValidating(start: bool)
      modifies this`validationPoll, this`polling
      ensures start && !old(validationPoll) ==> validationPoll && polling
      ensures start && old(validationPoll) ==> validationPoll && polling == old(polling)
      ensures !start ==> validationPoll == old(validationPoll) && polling == (old(polling) && !old(validationPoll))
    {
      if start {
        if !validationPoll {
          validationPoll := true;
          polling := true;
        }
      } else {
        if validationPoll {
          polling := false;
        }
      }
    }

    /** The first half of `set`: the new node, spliced in left of the
        cursor, becomes the cursor and the latest access. */
    method InsertAtCursor(key: K, data: D, now: int) returns (m: nat)
      requires Valid()
      modifies this`nodes, this`insertion, this`latestAccessed, this`ring
      ensures m == old(|nodes|) && |nodes| == m + 1
      ensures LinksInArena(nodes) && IsRing(nodes, ring)
      ensures ring == Spliced(old(ring), m) && insertion == Ref(m) && latestAccessed == Ref(m)
      ensures nodes[m].key == key && nodes[m].data == data && nodes[m].lastAccessed == now && !nodes[m].dirty
      ensures SameEntries(old(nodes), nodes[..m])
    {
      ghost var r := ring;
      m := InsertLeft(insertion, key, data, ring);
      insertion := Ref(m);
      ring := Spliced(r, m);
      ghost var spliced := nodes;
      SetLatestAccess(m, now);
      StampKeepsRing(spliced, ring, m, now);
    }

    /** The second half of `set`: past the capacity the node left of the
        cursor is unlinked (nothing changes on a singleton), otherwise
        `size` counts the new node. */
    method EvictOrCount()
      requires LinksInArena(nodes) && IsRing(nodes, ring) && insertion == Ref(ring[0])
      modifies this`nodes, this`ring, this`size
      ensures LinksInArena(nodes) && IsRing(nodes, ring) && SameEntries(old(nodes), nodes)
      ensures old(size) + 1 > maxSize ==>
        && size == old(size)
        && ring == if |old(ring)| >= 2 then [old(ring)[0]] + old(ring)[2..] else old(ring)
      ensures old(size) + 1 <= maxSize ==> size == old(size) + 1 && ring == old(ring) && nodes == old(nodes)
    {
      if size + 1 > maxSize {
        ghost var s := ring;
        var p := nodes[insertion.index].left.index;
        if |s| >= 2 {
          UnlinkLeftNeighbour(nodes, s);
        }
        Remove(p, s);
        if |s| >= 2 {
          ring := [s[0]] + s[2..];
        }
      } else {
        size := size + 1;
      }
    }

    /** `set(key, data)`: a new node left of the cursor becomes the cursor
        and the latest access; past the capacity the node left of it is
        unlinked, otherwise `size` grows; then polling is started. */
    method Set(key: K, data: D, now: int) returns (ok: bool)
      requires Valid()
      modifies this`nodes, this`insertion, this`latestAccessed, this`size, this`ring, this`validationPoll, this`polling
      ensures Valid() && ok
      ensures var m := old(|nodes|);
        && |nodes| == m + 1 && insertion == Ref(m) && latestAccessed == Ref(m)
        && nodes[m].key == key && nodes[m].data == data && nodes[m].lastAccessed == now && !nodes[m].dirty
        && ring == AfterSet(old(ring), m, old(size) + 1 > maxSize)
      ensures SameEntries(old(nodes), nodes[..old(|nodes|)])
      ensures size == if old(size) + 1 > maxSize then old(size) else old(size) + 1
      ensures validationPoll && polling == (old(polling) || !old(validationPoll))
    {
      ghost var r := ring;
      var m := InsertAtCursor(key, data, now);
      ghost var inserted := nodes;
      EvictOrCount();
      SameEntriesPrefix(old(nodes), inserted, nodes, m);
      SetValidating(true);
      return true;
    }

    /** `traverse('left', this.insertion.left)`, the walk `validate` sweeps. */
    method WalkFromCursor() returns (walk: seq<nat>)
      requires RingValid() && insertion != Nil
      ensures walk == Walk(ring) && Distinct(walk)
      ensures forall k | 0 <= k < |walk| :: walk[k] < |nodes|
    {
      WalkIsRing(nodes, ring);
      walk := Traverse(Some(Left), nodes[insertion.index].left, Walk(ring));
      LeftwardOrder(Walk(ring));
    }

    /** The loop of `validate` over `walk`, the ring read leftward from the
        cursor's left neighbour round to the cursor, one `SweepStep` per
        node; a step that resets the cache ends the loop. Returns whether
        the cache was reset. */
    method SweepLoop(walk: seq<nat>, now: int) returns (ghost reset: bool)
      requires 1 <= |walk| && Distinct(walk) && forall k | 0 <= k < |walk| :: walk[k] < |nodes|
      requires insertion == Ref(walk[|walk| - 1]) && latestAccessed.Ref? && latestAccessed.index in walk
      modifies this`nodes, this`insertion, this`ring
      ensures var latest := latestAccessed.index;
        && (reset ==>
              && insertion == Nil && ring == []
              && IsStale(old(nodes)[latest], now, lifetime)
              && MarkedStale(old(nodes), nodes, walk[..IndexOf(walk, latest)], now, lifetime))
        && (!reset ==>
              && ring == old(ring)
              && SweepState(old(nodes), nodes, walk, |walk|, insertion, latest, now, lifetime))
    {
      ghost var before, latest := nodes, latestAccessed.index;
      var i := 0;
      reset := false;
      assert walk[..0] == [];
      MarkedNothing(nodes, now, lifetime);
      while i < |walk|
        invariant ring == old(ring) && latestAccessed == Ref(latest)
        invariant SweepState(before, nodes, walk, i, insertion, latest, now, lifetime)
        decreases |walk| - i
      {
        var stop := SweepStep(walk, i, now, before, latest);
        if stop {
          reset := true;
          return;
        }
        i := i + 1;
      }
    }

    /** The body of the loop of `validate` at `walk[i]`. A stale node (one
        accessed more than `lifetime` before `now`) that is the latest
        access resets the cache, and the loop stops; any other stale node is
        marked dirty. The branch that would drop a stale cursor is never
        taken, since a stale cursor is the latest access
        (StaleCursorIsLatest), and so the cursor is never null: a fresh node
        becomes the cursor when it was accessed after the cursor. */
    method SweepStep(walk: seq<nat>, i: nat, now: int, ghost before: seq<Node<K, D>>, ghost latest: nat)
      returns (stop: bool)
      requires i < |walk| && latestAccessed == Ref(latest) && latest in walk
      requires SweepState(before, nodes, walk, i, insertion, latest, now, lifetime)
      modifies this`nodes, this`insertion, this`ring
      ensures latestAccessed == Ref(latest)
      ensures stop ==>
        && insertion == Nil && ring == []
        && IsStale(before[latest], now, lifetime)
        && MarkedStale(before, nodes, walk[..IndexOf(walk, latest)], now, lifetime)
      ensures !stop ==> ring == old(ring) && SweepState(before, nodes, walk, i + 1, insertion, latest, now, lifetime)
    {
      var p := walk[i];
      stop := false;
      if now - nodes[p].lastAccessed > lifetime {
        if Ref(p) == GetLatestAccess() {
          SweepStopped(before, nodes, walk, i, insertion, latest, now, lifetime);
          Init();
          return true;
        } else if Ref(p) == insertion {
          StaleCursorIsLatest(before, nodes, walk, i, insertion, latest, now, lifetime);
          assert false;
        } else {
          SweepStale(before, nodes, walk, i, insertion, latest, now, lifetime);
        }
        SetInvalid(Ref(p));
      } else {
        SweepFresh(before, nodes, walk, i, insertion, latest, now, lifetime);
        if insertion == Nil || nodes[p].lastAccessed > nodes[insertion.index].lastAccessed {
          insertion := Ref(p);
        }
      }
    }

    /** The sweep of `validate()` over `traverse('left', this.insertion.left)`.
        It resets the cache exactly when the latest access is stale, having
        marked dirty the stale nodes met before it. Otherwise it marks every
        stale node dirty and leaves as cursor a fresh node of the ring
        accessed no less recently than any other, and the first such node
        in the ring read from the old cursor; the ring is now read from
        it. */
    method SweepWalk(now: int) returns (ghost reset: bool)
      requires Valid() && insertion != Nil
      modifies this`nodes, this`insertion, this`ring
      ensures var R, latest := old(ring), latestAccessed.index;
        var w := Walk(R);
        && latest in w
        && reset == IsStale(old(nodes)[latest], now, lifetime)
        && MarkedStale(old(nodes), nodes, if reset then w[..IndexOf(w, latest)] else w, now, lifetime)
        && (reset ==> insertion == Nil && ring == [])
        && (!reset ==>
              && insertion.Ref? && insertion.index in R
              && !IsStale(old(nodes)[insertion.index], now, lifetime)
              && (forall x | x in R :: old(nodes)[x].lastAccessed <= old(nodes)[insertion.index].lastAccessed)
              && (forall k | 0 <= k < IndexOf(R, insertion.index) ::
                    old(nodes)[R[k]].lastAccessed < old(nodes)[insertion.index].lastAccessed)
              && ring == Rotate(R, IndexOf(R, insertion.index)))
      ensures RingValid()
    {
      ghost var R, before, latest := ring, nodes, latestAccessed.index;
      WalkMember(R, latest);
      var walk := WalkFromCursor();
      reset := SweepLoop(walk, now);
      if !reset {
        SweepFinish(before, nodes, R, insertion, latest, now, lifetime);
        ring := Rotate(R, IndexOf(R, insertion.index));
      } else {
        MarkedKeepsLinks(before, nodes, walk[..IndexOf(walk, latest)], now, lifetime);
        SameLinksKeepRing(before, nodes, R);
      }
    }

    /** `validate()`: the sweep, then `size` recounted by `getSize()`; an
        empty cache stops polling. */
    method Validate(now: int)
      requires Valid() && insertion != Nil
      modifies this`nodes, this`insertion, this`ring, this`size, this`validationPoll, this`polling
      ensures Valid()
      ensures var R, latest := old(ring), latestAccessed.index;
        var w := Walk(R);
        var reset := IsStale(old(nodes)[latest], now, lifetime);
        && latest in w
        && MarkedStale(old(nodes), nodes, if reset then w[..IndexOf(w, latest)] else w, now, lifetime)
        && (reset ==> insertion == Nil && ring == [] && size == 0 && !polling)
        && (!reset ==>
              && insertion.Ref? && insertion.index in R
              && !IsStale(old(nodes)[insertion.index], now, lifetime)
              && (forall x | x in R :: old(nodes)[x].lastAccessed <= old(nodes)[insertion.index].lastAccessed)
              && (forall k | 0 <= k < IndexOf(R, insertion.index) ::
                    old(nodes)[R[k]].lastAccessed < old(nodes)[insertion.index].lastAccessed)
              && ring == Rotate(R, IndexOf(R, insertion.index))
              && size == |R| && polling == old(polling))
      ensures validationPoll == old(validationPoll)
    {
      ghost var reset := SweepWalk(now);
      size := GetSize();
      if size == 0 {
        SetValidating(false);
      }
    }
  }
}
