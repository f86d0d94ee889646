/**
 * The node arena of the cache and the shape of a well-formed ring inside it.
 *
 * A node is addressed by its index in the arena. Indices are handed out in
 * allocation order and never reused, so a smaller index is an older node and
 * an unlinked node stays in the arena (as an unreachable JavaScript object
 * would stay alive while something still refers to it).
 */
module Ring {

  import opened Wrappers

  /** A node reference; `Nil` is JavaScript's `null`. */
  datatype Ptr = Nil | Ref(index: nat)

  /** One cache entry (cache/map-cache.js:11-22). */
  datatype Node<K, D> = Node(key: K, data: D, left: Ptr, right: Ptr, lastAccessed: int, dirty: bool)

  /** The three property names a traversal can follow: `left`, `right`, or a
      name that nodes do not have (such as the array `['left', 'right']`,
      which JavaScript turns into the property name "left,right"). */
  datatype Field = Left | Right | Absent

  /** The value of a traversal pointer: `undefined` or a node reference. */
  datatype Slot = Undefined | Val(ptr: Ptr)

  /** `createNode(key, data)`: a node holding the key and the datum, with
      no neighbours, never accessed and not dirty. */
  function CreateNode<K, D>(key: K, data: D): (n: Node<K, D>)
    ensures n.key == key && n.data == data
    ensures n.left == Nil && n.right == Nil && n.lastAccessed == 0 && !n.dirty
  {
    Node(key, data, Nil, Nil, 0, false)
  }

  /** `node[f]` in JavaScript. */
  function Lookup<K, D>(node: Node<K, D>, f: Field): Slot
  {
    match f
    case Left => Val(node.left)
    case Right => Val(node.right)
    case Absent => Undefined
  }

  function Succ(i: nat, n: nat): (j: nat)
    requires i < n
    ensures j < n
  {
    if i + 1 == n then 0 else i + 1
  }

  function Pred(i: nat, n: nat): (j: nat)
    requires i < n
    ensures j < n
  {
    if i == 0 then n - 1 else i - 1
  }

  /** The members at positions `i < j` of `r` differ. */
  ghost predicate Apart(r: seq<nat>, i: int, j: int)
  {
    0 <= i < j < |r| ==> r[i] != r[j]
  }

  /** No member occurs twice in `r`. Stated through `Apart`, so that a
      proof instantiates it only for the pairs it names; `DistinctPairs`
      gives the plain pairwise statement where a proof needs all pairs. */
  ghost predicate Distinct(r: seq<nat>)
  {
    forall i, j :: Apart(r, i, j)
  }

  lemma DistinctPairs(r: seq<nat>)
    ensures Distinct(r) <==> forall i, j | 0 <= i < j < |r| :: r[i] != r[j]
  {
    if Distinct(r) {
      forall i, j | 0 <= i < j < |r| ensures r[i] != r[j] {
        assert Apart(r, i, j);
      }
    }
  }

  /** `r` lists a circular doubly-linked ring of `nodes`, read leftward from
      `r[0]`: every member's `left` is the next one in `r` and its `right`
      the previous one, cyclically. */
  ghost predicate IsRing<K, D>(nodes: seq<Node<K, D>>, r: seq<nat>)
  {
    && |r| > 0
    && Distinct(r)
    && (forall i | 0 <= i < |r| :: r[i] < |nodes|)
    && (forall i {:trigger nodes[r[i]]} | 0 <= i < |r| :: nodes[r[i]].left == Ref(r[Succ(i, |r|)]))
    && (forall i {:trigger nodes[r[i]]} | 0 <= i < |r| :: nodes[r[i]].right == Ref(r[Pred(i, |r|)]))
  }

  /** The two arenas agree on everything but the links of each node. */
  ghost predicate SameEntries<K, D>(a: seq<Node<K, D>>, b: seq<Node<K, D>>)
  {
    && |a| == |b|
    && forall i | 0 <= i < |a| ::
         a[i].key == b[i].key && a[i].data == b[i].data
         && a[i].lastAccessed == b[i].lastAccessed && a[i].dirty == b[i].dirty
  }

  /** Entries kept by a prefix of `b` and then by all of `c` are kept by
      the same prefix of `c`. */
  lemma SameEntriesPrefix<K, D>(a: seq<Node<K, D>>, b: seq<Node<K, D>>, c: seq<Node<K, D>>, m: nat)
    requires m <= |b| && SameEntries(a, b[..m]) && SameEntries(b, c)
    ensures m <= |c| && SameEntries(a, c[..m])
  {
    assert forall i | 0 <= i < m :: b[..m][i] == b[i] && c[..m][i] == c[i];
  }

  /** The circular-list invariant as usually stated: every member is the right
      neighbour of its left neighbour and the left neighbour of its right one. */
  lemma {:induction false} RingLinksAgree<K, D>(nodes: seq<Node<K, D>>, r: seq<nat>, x: nat)
    requires IsRing(nodes, r) && x in r
    ensures nodes[x].left.Ref? && nodes[x].left.index in r && nodes[nodes[x].left.index].right == Ref(x)
    ensures nodes[x].right.Ref? && nodes[x].right.index in r && nodes[nodes[x].right.index].left == Ref(x)
  {
    var n := |r|;
    var i :| 0 <= i < n && r[i] == x;
    assert Pred(Succ(i, n), n) == i && Succ(Pred(i, n), n) == i;
    assert nodes[r[Succ(i, n)]].right == Ref(r[i]);
    assert nodes[r[Pred(i, n)]].left == Ref(r[i]);
  }

  /** Every link in the arena is `null` or names a node of the arena. */
  ghost predicate LinksInArena<K, D>(nodes: seq<Node<K, D>>)
  {
    forall i | 0 <= i < |nodes| ::
      && (nodes[i].left.Ref? ==> nodes[i].left.index < |nodes|)
      && (nodes[i].right.Ref? ==> nodes[i].right.index < |nodes|)
  }

  /** The two arenas have the same nodes with the same links; keys, data,
      stamps and dirty marks may differ. */
  ghost predicate SameLinks<K, D>(a: seq<Node<K, D>>, b: seq<Node<K, D>>)
  {
    && |a| == |b|
    && forall i | 0 <= i < |a| :: a[i].left == b[i].left && a[i].right == b[i].right
  }

  /** Rewriting the fields of nodes other than their links keeps every ring. */
  lemma SameLinksKeepRing<K, D>(a: seq<Node<K, D>>, b: seq<Node<K, D>>, r: seq<nat>)
    requires SameLinks(a, b)
    ensures LinksInArena(a) ==> LinksInArena(b)
    ensures IsRing(a, r) ==> IsRing(b, r)
  {
    if IsRing(a, r) {
      forall i | 0 <= i < |r|
        ensures b[r[i]].left == Ref(r[Succ(i, |r|)]) && b[r[i]].right == Ref(r[Pred(i, |r|)])
      {
        assert a[r[i]].left == Ref(r[Succ(i, |r|)]);
      }
    }
  }

  /** Stamping node `p` with a new access time keeps every ring and every
      other entry. */
  lemma StampKeepsRing<K, D>(nodes: seq<Node<K, D>>, r: seq<nat>, p: nat, now: int)
    requires LinksInArena(nodes) && IsRing(nodes, r) && p < |nodes|
    ensures var after := nodes[p := nodes[p].(lastAccessed := now)];
      LinksInArena(after) && IsRing(after, r) && after[..p] == nodes[..p]
  {
    SameLinksKeepRing(nodes, nodes[p := nodes[p].(lastAccessed := now)], r);
  }

  /** Marking node `p` valid and then stamping it, as `get` does on a hit,
      rewrites that node alone and keeps every ring. */
  lemma TouchKeepsRing<K, D>(nodes: seq<Node<K, D>>, r: seq<nat>, p: nat, now: int)
    requires LinksInArena(nodes) && IsRing(nodes, r) && p < |nodes|
    ensures var valid := nodes[p := nodes[p].(dirty := false)];
      var after := valid[p := valid[p].(lastAccessed := now)];
      && after == nodes[p := nodes[p].(dirty := false, lastAccessed := now)]
      && LinksInArena(after) && IsRing(after, r)
  {
    var after := nodes[p := nodes[p].(dirty := false, lastAccessed := now)];
    SameLinksKeepRing(nodes, after, r);
  }

  // ---------------------------------------------------------------------
  // Splicing a node in and unlinking a node

  /** `after` is `before` with node `m` appended and spliced between the ring
      head `r[0]` and its left neighbour `r[1]` (cache/map-cache.js:27-31):
      the ring read from `m` is `m`, `r[1]`, ..., `r[|r|-1]`, `r[0]`. */
  lemma {:induction false} SpliceKeepsRing<K, D>(before: seq<Node<K, D>>, after: seq<Node<K, D>>, r: seq<nat>, m: nat)
    requires IsRing(before, r) && m == |before| && |after| == m + 1
    requires after[m].left == Ref(r[Succ(0, |r|)]) && after[m].right == Ref(r[0])
    requires forall i | 0 <= i < m ::
      after[i] == before[i].(left := if i == r[0] then Ref(m) else before[i].left,
                             right := if i == r[Succ(0, |r|)] then Ref(m) else before[i].right)
    ensures IsRing(after, Spliced(r, m))
  {
    var n, t := |r|, Spliced(r, m);
    forall i | 0 <= i <= n
      ensures t[i] < |after|
      ensures after[t[i]].left == Ref(t[Succ(i, n + 1)])
      ensures after[t[i]].right == Ref(t[Pred(i, n + 1)])
    {
      SpliceLinksAt(before, after, r, m, i);
    }
    SplicedDistinct(before, r, m);
  }

  /** The links of the member at position `i` of the spliced ring. */
  lemma SpliceLinksAt<K, D>(before: seq<Node<K, D>>, after: seq<Node<K, D>>, r: seq<nat>, m: nat, i: nat)
    requires IsRing(before, r) && m == |before| && |after| == m + 1 && i <= |r|
    requires after[m].left == Ref(r[Succ(0, |r|)]) && after[m].right == Ref(r[0])
    requires forall i | 0 <= i < m ::
      after[i] == before[i].(left := if i == r[0] then Ref(m) else before[i].left,
                             right := if i == r[Succ(0, |r|)] then Ref(m) else before[i].right)
    ensures var n, t := |r|, Spliced(r, m);
      && t[i] < |after|
      && after[t[i]].left == Ref(t[Succ(i, n + 1)])
      && after[t[i]].right == Ref(t[Pred(i, n + 1)])
  {
    var n, t := |r|, Spliced(r, m);
    assert t == [m] + r[1..] + [r[0]];
    if i == 0 {
    } else if i < n {
      assert t[i] == r[i];
      assert Apart(r, 0, i);
      assert i > 1 ==> Apart(r, 1, i);
      assert Succ(i, n + 1) == i + 1;
      assert i + 1 < n ==> t[i + 1] == r[i + 1] && Succ(i, n) == i + 1;
      assert i + 1 == n ==> t[i + 1] == r[0] && Succ(i, n) == 0;
      assert i > 1 ==> t[i - 1] == r[i - 1];
    } else {
      assert t[n] == r[0];
      assert n > 1 ==> Apart(r, 0, 1) && t[n - 1] == r[n - 1];
    }
  }

  /** The spliced ring repeats no member: `m` is new to the arena. */
  lemma SplicedDistinct<K, D>(before: seq<Node<K, D>>, r: seq<nat>, m: nat)
    requires IsRing(before, r) && m == |before|
    ensures Distinct(Spliced(r, m))
  {
    var n, t := |r|, Spliced(r, m);
    DistinctPairs(r);
    assert t == [m] + r[1..] + [r[0]];
    assert forall i | 1 <= i < n :: t[i] == r[i];
    assert t[n] == r[0];
    forall a, b | 0 <= a < b <= n
      ensures t[a] != t[b]
    {
      if a == 0 {
        assert t[b] in r;
      }
    }
    DistinctPairs(t);
  }

  /** The arena after `remove(p)` on a node with both links set: first the
      right neighbour of `p` is pointed left to `p`'s left neighbour, then
      that left neighbour is pointed right to `p`'s right neighbour
      (cache/map-cache.js:41-43). `p` keeps its own links. */
  ghost function Unlinked<K, D>(nodes: seq<Node<K, D>>, p: nat): (res: seq<Node<K, D>>)
    requires p < |nodes| && nodes[p].left.Ref? && nodes[p].right.Ref?
    requires nodes[p].left.index < |nodes| && nodes[p].right.index < |nodes|
    ensures |res| == |nodes|
  {
    var rt, lt := nodes[p].right.index, nodes[p].left.index;
    var joined := nodes[rt := nodes[rt].(left := nodes[p].left)];
    joined[lt := joined[lt].(right := joined[p].right)]
  }

  /** Unlinking the head of a ring of two or more leaves the rest a ring,
      without the head. */
  lemma {:induction false} UnlinkKeepsRing<K, D>(nodes: seq<Node<K, D>>, r: seq<nat>)
    requires IsRing(nodes, r) && |r| >= 2
    ensures IsRing(Unlinked(nodes, r[0]), r[1..])
    ensures r[0] !in r[1..]
  {
    UnlinkLinks(nodes, r);
    DropHead(r);
  }

  /** After the head is unlinked, every remaining member's links are those
      of the ring read from the head's left neighbour. */
  lemma UnlinkLinks<K, D>(nodes: seq<Node<K, D>>, r: seq<nat>)
    requires IsRing(nodes, r) && |r| >= 2
    ensures var t, after := r[1..], Unlinked(nodes, r[0]);
      forall i {:trigger after[t[i]]} | 0 <= i < |t| ::
        && t[i] < |after|
        && after[t[i]].left == Ref(t[Succ(i, |t|)])
        && after[t[i]].right == Ref(t[Pred(i, |t|)])
  {
    var t, after := r[1..], Unlinked(nodes, r[0]);
    forall i | 0 <= i < |t|
      ensures t[i] < |after|
      ensures after[t[i]].left == Ref(t[Succ(i, |t|)])
      ensures after[t[i]].right == Ref(t[Pred(i, |t|)])
    {
      UnlinkLinksAt(nodes, r, i);
    }
  }

  /** The tail of a list without repeats has none, and lacks the head. */
  lemma DropHead(r: seq<nat>)
    requires Distinct(r) && r != []
    ensures Distinct(r[1..]) && r[0] !in r[1..]
  {
    DistinctPairs(r);
    forall a, b | 0 <= a < b < |r| - 1 ensures r[1..][a] != r[1..][b] {
      assert r[1..][a] == r[a + 1] && r[1..][b] == r[b + 1];
    }
    forall i | 0 <= i < |r| - 1 ensures r[1..][i] != r[0] {
      assert r[1..][i] == r[i + 1];
    }
    DistinctPairs(r[1..]);
  }

  /** The links of the member at position `i + 1` once the head is unlinked. */
  lemma UnlinkLinksAt<K, D>(nodes: seq<Node<K, D>>, r: seq<nat>, i: nat)
    requires IsRing(nodes, r) && |r| >= 2 && i < |r| - 1
    ensures r[i + 1] < |nodes|
    ensures Unlinked(nodes, r[0])[r[i + 1]].left == Ref(r[1..][Succ(i, |r| - 1)])
    ensures Unlinked(nodes, r[0])[r[i + 1]].right == Ref(r[1..][Pred(i, |r| - 1)])
  {
    var n, x := |r|, r[i + 1];
    DistinctPairs(r);
    assert nodes[r[0]].left == Ref(r[1]) && nodes[r[0]].right == Ref(r[n - 1]);
    assert nodes[x].right == Ref(r[Pred(i + 1, n)]);
    assert nodes[x].left == Ref(r[Succ(i + 1, n)]);
    assert i > 0 ==> x != r[1];
    assert i + 1 < n - 1 ==> x != r[n - 1];
  }

  /** Unlinking the left neighbour `r[1]` of `r[0]` leaves the ring `r`
      without it, still read from `r[0]`. */
  lemma {:induction false} UnlinkLeftNeighbour<K, D>(nodes: seq<Node<K, D>>, r: seq<nat>)
    requires IsRing(nodes, r) && |r| >= 2
    ensures r[1] < |nodes| && nodes[r[0]].left == Ref(r[1])
    ensures nodes[r[1]].left.Ref? && nodes[r[1]].right.Ref?
    ensures nodes[r[1]].left.index < |nodes| && nodes[r[1]].right.index < |nodes|
    ensures IsRing(Unlinked(nodes, r[1]), [r[0]] + r[2..])
    ensures r[1] !in [r[0]] + r[2..]
  {
    var n := |r|;
    assert nodes[r[0]].left == Ref(r[Succ(0, n)]);
    assert nodes[r[1]].left == Ref(r[Succ(1, n)]) && nodes[r[1]].right == Ref(r[Pred(1, n)]);
    RotateKeepsRing(nodes, r, 1);
    var s := Rotate(r, 1);
    assert s[0] == r[1];
    UnlinkKeepsRing(nodes, s);
    var t := s[1..];
    assert t == r[2..] + [r[0]];
    RotateKeepsRing(Unlinked(nodes, r[1]), t, |t| - 1);
    assert Rotate(t, |t| - 1) == [r[0]] + r[2..];
    assert multiset(Rotate(t, |t| - 1)) == multiset(t);
    assert r[1] !in t;
  }

  // ---------------------------------------------------------------------
  // Reading a ring from another member

  /** The same ring read leftward from `r[j]` instead of `r[0]`. */
  function Rotate(r: seq<nat>, j: nat): seq<nat>
    requires j <= |r|
  {
    r[j..] + r[..j]
  }

  function Shift(i: nat, j: nat, n: nat): (k: nat)
    requires i < n && j < n
    ensures k < n
  {
    if i + j < n then i + j else i + j - n
  }

  lemma RotateAt(r: seq<nat>, j: nat, i: nat)
    requires j < |r| && i < |r|
    ensures |Rotate(r, j)| == |r| && Rotate(r, j)[i] == r[Shift(i, j, |r|)]
  {
  }

  lemma RotateLinksAt<K, D>(nodes: seq<Node<K, D>>, r: seq<nat>, j: nat, i: nat)
    requires IsRing(nodes, r) && j < |r| && i < |r|
    ensures Rotate(r, j)[i] == r[Shift(i, j, |r|)] && Rotate(r, j)[i] < |nodes|
    ensures nodes[Rotate(r, j)[i]].left == Ref(Rotate(r, j)[Succ(i, |r|)])
    ensures nodes[Rotate(r, j)[i]].right == Ref(Rotate(r, j)[Pred(i, |r|)])
  {
    var n := |r|;
    RotateAt(r, j, i);
    RotateAt(r, j, Succ(i, n));
    RotateAt(r, j, Pred(i, n));
    assert Shift(Succ(i, n), j, n) == Succ(Shift(i, j, n), n);
    assert Shift(Pred(i, n), j, n) == Pred(Shift(i, j, n), n);
  }

  /** Reading a ring from any of its members gives a ring again. */
  lemma {:induction false} RotateKeepsRing<K, D>(nodes: seq<Node<K, D>>, r: seq<nat>, j: nat)
    requires IsRing(nodes, r) && j < |r|
    ensures IsRing(nodes, Rotate(r, j))
    ensures multiset(Rotate(r, j)) == multiset(r)
  {
    var s, n := Rotate(r, j), |r|;
    DistinctPairs(r);
    assert r == r[..j] + r[j..];
    forall i | 0 <= i < n
      ensures s[i] < |nodes|
      ensures nodes[s[i]].left == Ref(s[Succ(i, n)])
      ensures nodes[s[i]].right == Ref(s[Pred(i, n)])
    {
      RotateLinksAt(nodes, r, j, i);
    }
    forall a, b | 0 <= a < b < n
      ensures s[a] != s[b]
    {
      RotateAt(r, j, a);
      RotateAt(r, j, b);
      assert Shift(a, j, n) != Shift(b, j, n);
    }
    DistinctPairs(s);
  }

  // ---------------------------------------------------------------------
  // The orders in which `traverse` visits a ring

  /** The position on a ring of `n` members, read leftward from the start, of
      the `i`-th node `traverse(dir, start)` visits:
      - `'left'`: leftward;
      - `'right'`: the start, then rightward;
      - no direction: the start, then one step right, one step left, one
        step right, and so on (`count` starts at 1, so the first direction
        taken is `dirs[1]`, which is `'right'`);
      - a name nodes lack: only the start. */
  function Source(dir: Option<Field>, i: nat, n: nat): (k: nat)
    requires i < n
    ensures k < n
  {
    match dir
    case Some(Left) => i
    case Some(Right) => if i == 0 then 0 else n - i
    case Some(Absent) => 0
    case None => if i % 2 == 1 then n - (i + 1) / 2 else i / 2
  }

  /** The first `k` nodes `traverse(dir, r[0])` visits. */
  function Visits(dir: Option<Field>, r: seq<nat>, k: nat): (v: seq<nat>)
    requires k <= |r|
    ensures |v| == k
  {
    if k == 0 then [] else Visits(dir, r, k - 1) + [r[Source(dir, k - 1, |r|)]]
  }

  /** Everything `traverse(dir, r[0])` visits on the ring `r`. */
  function Order(dir: Option<Field>, r: seq<nat>): seq<nat>
    requires r != []
  {
    Visits(dir, r, if dir == Some(Absent) then 1 else |r|)
  }

  lemma {:induction false} VisitsAt(dir: Option<Field>, r: seq<nat>, k: nat, i: nat)
    requires i < k <= |r|
    ensures Visits(dir, r, k)[i] == r[Source(dir, i, |r|)]
  {
    if i < k - 1 {
      VisitsAt(dir, r, k - 1, i);
    }
  }

  /** `traverse('left', r[0])` visits the ring in its own order. */
  lemma {:induction false} LeftwardOrder(r: seq<nat>)
    requires r != []
    ensures Order(Some(Left), r) == r
  {
    forall i | 0 <= i < |r| ensures Order(Some(Left), r)[i] == r[i] {
      VisitsAt(Some(Left), r, |r|, i);
    }
  }

  lemma SourceInjective(dir: Option<Field>, a: nat, b: nat, n: nat)
    requires dir != Some(Absent) && a < b < n
    ensures Source(dir, a, n) != Source(dir, b, n)
  {
  }

  /** Where the member at position `k` appears in the traversal order. */
  function Target(dir: Option<Field>, k: nat, n: nat): (i: nat)
    requires k < n
    ensures i < n
  {
    match dir
    case Some(Left) => k
    case Some(Right) => if k == 0 then 0 else n - k
    case Some(Absent) => 0
    case None => if k <= (n - 1) / 2 then 2 * k else 2 * (n - k) - 1
  }

  lemma SourceOnto(dir: Option<Field>, k: nat, n: nat)
    requires dir != Some(Absent) && k < n
    ensures Source(dir, Target(dir, k, n), n) == k
  {
  }

  /** Every traversal that follows real links visits each member of the ring
      exactly once; the one that follows a name nodes lack visits only the
      start. */
  lemma {:induction false} TraversalVisitsAll(dir: Option<Field>, r: seq<nat>)
    requires Distinct(r) && r != []
    ensures dir == Some(Absent) ==> Order(dir, r) == [r[0]]
    ensures dir != Some(Absent) ==>
      && |Order(dir, r)| == |r|
      && Distinct(Order(dir, r))
      && (forall x :: x in Order(dir, r) <==> x in r)
  {
    var n, o := |r|, Order(dir, r);
    DistinctPairs(r);
    if dir == Some(Absent) {
      VisitsAt(dir, r, 1, 0);
    } else {
      forall i | 0 <= i < n ensures o[i] == r[Source(dir, i, n)] {
        VisitsAt(dir, r, n, i);
      }
      forall k | 0 <= k < n ensures r[k] in o {
        SourceOnto(dir, k, n);
        assert o[Target(dir, k, n)] == r[k];
      }
      forall a, b | 0 <= a < b < n ensures o[a] != o[b] {
        SourceInjective(dir, a, b, n);
      }
      DistinctPairs(o);
    }
  }

  // ---------------------------------------------------------------------
  // The ring after `set`

  /** The ring read leftward from node `m` after `insertLeft(cursor, ...)`
      created `m`, where `r` is the ring read leftward from the cursor. */
  function Spliced(r: seq<nat>, m: nat): (s: seq<nat>)
    ensures |s| == |r| + 1 && s[0] == m
  {
    if r == [] then [m] else [m] + r[1..] + [r[0]]
  }

  /** The ring read from the new cursor after a whole `set`: when `evict`,
      the node left of the new cursor has been unlinked (on a singleton that
      unlink changes nothing). */
  function AfterSet(r: seq<nat>, m: nat, evict: bool): seq<nat>
  {
    var s := Spliced(r, m);
    if evict && |s| >= 2 then [s[0]] + s[2..] else s
  }

  /** The node `set` unlinks when it evicts from the non-empty ring `r`. */
  function Evicted(r: seq<nat>): nat
    requires r != []
  {
    if |r| >= 2 then r[1] else r[0]
  }

  /** Reading leftward from the cursor's left neighbour round to the cursor,
      the nodes appear oldest first. */
  ghost predicate AgeOrdered(r: seq<nat>)
  {
    r != [] ==>
      && (forall i, j | 1 <= i < j < |r| :: r[i] < r[j])
      && (forall i | 1 <= i < |r| :: r[i] < r[0])
  }

  /** Splicing in a node newer than all keeps the ring age ordered, and the
      node then left of it is the one an eviction takes. */
  lemma SplicedAgeOrdered(r: seq<nat>, m: nat)
    requires AgeOrdered(r)
    requires forall x | x in r :: x < m
    ensures AgeOrdered(Spliced(r, m))
    ensures forall x | x in r :: x in Spliced(r, m)
    ensures r != [] ==> Spliced(r, m)[1] == Evicted(r)
  {
    var s := Spliced(r, m);
    if r != [] {
      assert s == [m] + r[1..] + [r[0]];
      assert forall i | 1 <= i < |s| - 1 :: s[i] == r[i];
      assert s[|s| - 1] == r[0];
      forall x | x in r ensures x in s {
        var k :| 0 <= k < |r| && r[k] == x;
        if k == 0 { assert s[|s| - 1] == x; } else { assert s[k] == x; }
      }
      forall i | 1 <= i < |s| ensures s[i] < m {
        if i == |s| - 1 { assert r[0] in r; } else { assert r[i] in r; }
      }
    }
  }

  /** Dropping the node left of the cursor keeps the ring age ordered and
      drops its oldest node. */
  lemma UnlinkSecondAgeOrdered(s: seq<nat>)
    requires AgeOrdered(s) && |s| >= 2
    ensures AgeOrdered([s[0]] + s[2..])
    ensures s[1] !in [s[0]] + s[2..]
    ensures forall x | x in s && x != s[1] :: x in [s[0]] + s[2..]
    ensures forall x | x in s :: s[1] <= x
  {
    var t := [s[0]] + s[2..];
    assert forall i | 1 <= i < |t| :: t[i] == s[i + 1];
    forall x | x in s && x != s[1] ensures x in t {
      var k :| 0 <= k < |s| && s[k] == x;
      if k == 0 { assert t[0] == x; } else { assert t[k - 1] == x; }
    }
    forall x | x in s ensures s[1] <= x {
      var k :| 0 <= k < |s| && s[k] == x;
    }
  }

  /** With only `set`s, the cache is first-in first-out: the ring stays age
      ordered, the node unlinked by an eviction is the oldest one, and
      `set` never looks for an equal key, so it always adds a node. */
  lemma {:induction false} SetEvictsOldest(r: seq<nat>, m: nat, evict: bool)
    requires AgeOrdered(r)
    requires forall x | x in r :: x < m
    ensures AgeOrdered(AfterSet(r, m, evict))
    ensures AfterSet(r, m, evict)[0] == m
    ensures evict && r != [] ==>
      && (forall x | x in r :: Evicted(r) <= x)
      && Evicted(r) !in AfterSet(r, m, evict)
      && (forall x | x in r && x != Evicted(r) :: x in AfterSet(r, m, evict))
      && |AfterSet(r, m, evict)| == |r|
    ensures !(evict && r != []) ==>
      |AfterSet(r, m, evict)| == |r| + 1 && (forall x | x in r :: x in AfterSet(r, m, evict))
  {
    var s := Spliced(r, m);
    SplicedAgeOrdered(r, m);
    if evict && r != [] {
      UnlinkSecondAgeOrdered(s);
    }
  }
}
