/**
 * One level of the skip list: the nodes after the level's sentinel head, in `next`
 * order. A position `p` names a node; position -1 names the sentinel, whose empty
 * key compares below every key.
 */
module Level {

  datatype Node<V> = Node(key: int, val: V)

  type Level<V> = seq<Node<V>>

  /** Keys strictly increase along the level. */
  ghost predicate Sorted<V>(l: Level<V>) {
    forall a, b :: 0 <= a < b < |l| ==> l[a].key < l[b].key
  }

  function Keys<V>(l: Level<V>): set<int> {
    set j | 0 <= j < |l| :: l[j].key
  }

  lemma KeysSingleton<V>(n: Node<V>)
    ensures Keys([n]) == {n.key}
  {
    assert [n][0].key == n.key;
  }

  /** The keys of a concatenation are the keys of its parts. */
  lemma KeysAppend<V>(a: Level<V>, b: Level<V>)
    ensures Keys(a + b) == Keys(a) + Keys(b)
  {
    var c := a + b;
    forall kk | kk in Keys(c)
      ensures kk in Keys(a) + Keys(b)
    {
      var j :| 0 <= j < |c| && c[j].key == kk;
      if j >= |a| {
        assert b[j - |a|].key == kk;
      } else {
        assert a[j].key == kk;
      }
    }
    forall kk | kk in Keys(a) + Keys(b)
      ensures kk in Keys(c)
    {
      if kk in Keys(a) {
        var j :| 0 <= j < |a| && a[j].key == kk;
        assert c[j].key == kk;
      } else {
        var j :| 0 <= j < |b| && b[j].key == kk;
        assert c[|a| + j].key == kk;
      }
    }
  }

  /** `p` is the last position whose key is at most `k` (-1, the sentinel, when none is). */
  ghost predicate LastAtMost<V>(l: Level<V>, k: int, p: int) {
    -1 <= p < |l| &&
    (p == -1 || l[p].key <= k) &&
    forall j :: p < j < |l| ==> l[j].key > k
  }

  /** `findInLevel`: from position `cur`, follow `next` while the next node's key is at
      most `k`, and return the last node reached. */
  function FindInLevel<V>(l: Level<V>, cur: int, k: int): (p: int)
    requires -1 <= cur < |l|
    ensures cur <= p < |l|
    ensures forall j :: cur < j <= p ==> l[j].key <= k
    ensures p + 1 == |l| || l[p + 1].key > k
    decreases |l| - cur
  {
    if cur + 1 < |l| && l[cur + 1].key <= k then FindInLevel(l, cur + 1, k) else cur
  }

  /** On a sorted level, starting from the sentinel or from a node whose key is at most
      `k`, the walk stops at the last node whose key is at most `k`. */
  lemma FindInLevelIsLastAtMost<V>(l: Level<V>, cur: int, k: int)
    requires Sorted(l)
    requires -1 <= cur < |l| && (cur == -1 || l[cur].key <= k)
    ensures LastAtMost(l, k, FindInLevel(l, cur, k))
  {
    var p := FindInLevel(l, cur, k);
    forall j | p < j < |l|
      ensures l[j].key > k
    {
      assert l[p + 1].key <= l[j].key;
    }
  }

  /** The last position whose key is at most `k` is unique. */
  lemma LastAtMostUnique<V>(l: Level<V>, k: int, p: int, q: int)
    requires LastAtMost(l, k, p) && LastAtMost(l, k, q)
    ensures p == q
  {
  }

  /** On a sorted level, `k` is present exactly when the last node at most `k` holds it. */
  lemma LastAtMostFinds<V>(l: Level<V>, k: int, p: int)
    requires Sorted(l) && LastAtMost(l, k, p)
    ensures k in Keys(l) <==> p >= 0 && l[p].key == k
  {
    if k in Keys(l) {
      var j :| 0 <= j < |l| && l[j].key == k;
      assert j <= p;
    }
  }

  /** `chainNode`: `node` takes over the `next` of position `p`, and `p` then points to
      `node`; the rest of the level is untouched. */
  function ChainNode<V>(l: Level<V>, p: int, node: Node<V>): (r: Level<V>)
    requires -1 <= p < |l|
    ensures |r| == |l| + 1
    ensures r[..p + 1] == l[..p + 1] && r[p + 1] == node && r[p + 2..] == l[p + 1..]
  {
    l[..p + 1] + [node] + l[p + 1..]
  }

  /** Insertion into a sorted level, by comparison from the front: the reference the
      splice is measured against. */
  function InsertSorted<V>(l: Level<V>, node: Node<V>): (r: Level<V>)
    ensures |r| == |l| + 1
    ensures Keys(r) == Keys(l) + {node.key}
    ensures Sorted(l) && node.key !in Keys(l) ==> Sorted(r)
  {
    if l == [] then
      KeysSingleton(node);
      [node]
    else if node.key < l[0].key then
      var r := [node] + l;
      KeysAppend([node], l);
      KeysSingleton(node);
      r
    else
      var rest := InsertSorted(l[1..], node);
      var r := [l[0]] + rest;
      KeysAppend([l[0]], l[1..]);
      KeysAppend([l[0]], rest);
      KeysSingleton(l[0]);
      assert [l[0]] + l[1..] == l;
      assert Sorted(l) && node.key !in Keys(l) ==> Sorted(r) by {
        if Sorted(l) && node.key !in Keys(l) {
          SortedTail(l);
          ConsSorted(l[0], rest);
        }
      }
      r
  }

  /** The tail of a sorted level is sorted and lies above its head. */
  lemma SortedTail<V>(l: Level<V>)
    requires Sorted(l) && |l| > 0
    ensures Sorted(l[1..])
    ensures forall kk :: kk in Keys(l[1..]) ==> l[0].key < kk
  {
    forall kk | kk in Keys(l[1..])
      ensures l[0].key < kk
    {
      var j :| 0 <= j < |l[1..]| && l[1..][j].key == kk;
      assert l[j + 1].key == kk;
    }
  }

  /** A node below every key of a sorted level may head it. */
  lemma ConsSorted<V>(x: Node<V>, rest: Level<V>)
    requires Sorted(rest)
    requires forall kk :: kk in Keys(rest) ==> x.key < kk
    ensures Sorted([x] + rest)
  {
    var r := [x] + rest;
    forall a, b | 0 <= a < b < |r|
      ensures r[a].key < r[b].key
    {
      assert r[b] == rest[b - 1];
      if a == 0 {
        assert rest[b - 1].key in Keys(rest);
      } else {
        assert r[a] == rest[a - 1];
      }
    }
  }

  /** Splicing a new key after the last node at most that key is sorted insertion: the
      level stays strictly increasing after `chainNode`. */
  lemma {:induction false} ChainNodeIsInsertSorted<V>(l: Level<V>, p: int, node: Node<V>)
    requires Sorted(l) && node.key !in Keys(l)
    requires LastAtMost(l, node.key, p)
    ensures ChainNode(l, p, node) == InsertSorted(l, node)
    decreases |l|
  {
    if p == -1 {
      ChainAtHead(l, node);
    } else {
      ChainStep(l, p, node);
      ChainNodeIsInsertSorted(l[1..], p - 1, node);
    }
  }

  /** Splicing after the sentinel puts the node first, where sorted insertion puts it. */
  lemma ChainAtHead<V>(l: Level<V>, node: Node<V>)
    requires LastAtMost(l, node.key, -1)
    ensures ChainNode(l, -1, node) == InsertSorted(l, node)
  {
    if l != [] {
      assert node.key < l[0].key;
      assert ChainNode(l, -1, node) == [node] + l;
    }
  }

  /** Splicing after a node passes over the head, as sorted insertion does. */
  lemma ChainStep<V>(l: Level<V>, p: int, node: Node<V>)
    requires Sorted(l) && node.key !in Keys(l)
    requires 0 <= p && LastAtMost(l, node.key, p)
    ensures Sorted(l[1..]) && node.key !in Keys(l[1..])
    ensures LastAtMost(l[1..], node.key, p - 1)
    ensures ChainNode(l, p, node) == [l[0]] + ChainNode(l[1..], p - 1, node)
    ensures InsertSorted(l, node) == [l[0]] + InsertSorted(l[1..], node)
  {
    assert l[0].key <= l[p].key;
    assert l[0].key != node.key by {
      assert l[0].key in Keys(l);
    }
    TailFacts(l, node);
    ChainPastHead(l, p, node);
  }

  /** The tail of a sorted level without `node`'s key is one too. */
  lemma TailFacts<V>(l: Level<V>, node: Node<V>)
    requires Sorted(l) && node.key !in Keys(l) && |l| > 0
    ensures Sorted(l[1..]) && node.key !in Keys(l[1..])
  {
    KeysAppend([l[0]], l[1..]);
    assert [l[0]] + l[1..] == l;
    SortedTail(l);
  }

  lemma ChainPastHead<V>(l: Level<V>, p: int, node: Node<V>)
    requires 0 <= p < |l|
    ensures ChainNode(l, p, node) == [l[0]] + ChainNode(l[1..], p - 1, node)
  {
    var r := ChainNode(l, p, node);
    var r' := [l[0]] + ChainNode(l[1..], p - 1, node);
    assert |r| == |r'|;
    forall j | 0 <= j < |r|
      ensures r[j] == r'[j]
    {
      if j > 0 {
        assert r'[j] == ChainNode(l[1..], p - 1, node)[j - 1];
      }
    }
  }

  /** Every node with key `k` takes the value `v`. */
  function UpdateVal<V>(l: Level<V>, k: int, v: V): (r: Level<V>)
    ensures |r| == |l|
    ensures forall j :: 0 <= j < |l| ==> r[j].key == l[j].key
    ensures forall j :: 0 <= j < |l| && l[j].key != k ==> r[j] == l[j]
    ensures forall j :: 0 <= j < |l| && l[j].key == k ==> r[j].val == v
  {
    seq(|l|, j requires 0 <= j < |l| => if l[j].key == k then l[j].(val := v) else l[j])
  }

  lemma UpdateValKeys<V>(l: Level<V>, k: int, v: V)
    ensures Keys(UpdateVal(l, k, v)) == Keys(l)
    ensures Sorted(l) ==> Sorted(UpdateVal(l, k, v))
  {
    var r := UpdateVal(l, k, v);
    assert forall j :: 0 <= j < |l| ==> r[j].key == l[j].key;
  }

  /** On a sorted level, storing into the node holding `k` updates every node with key `k`. */
  lemma UpdateAtIsUpdateVal<V>(l: Level<V>, p: int, v: V)
    requires Sorted(l) && 0 <= p < |l|
    ensures l[p := l[p].(val := v)] == UpdateVal(l, l[p].key, v)
  {
    var r := UpdateVal(l, l[p].key, v);
    forall j | 0 <= j < |l| && j != p
      ensures l[j].key != l[p].key
    {
      if j < p {
        assert l[j].key < l[p].key;
      } else {
        assert l[p].key < l[j].key;
      }
    }
  }

  // ---------------------------------------------------------------------------
  // The map a level denotes

  /** The key-value map a level denotes (for a sorted level every key occurs once). */
  function ToMap<V>(l: Level<V>): (m: map<int, V>)
    ensures m.Keys == Keys(l)
  {
    if l == [] then map[]
    else
      assert Keys(l) == {l[0].key} + Keys(l[1..]) by {
        assert forall j :: 1 <= j < |l| ==> l[1..][j - 1] == l[j];
      }
      ToMap(l[1..])[l[0].key := l[0].val]
  }

  /** On a sorted level the map holds each node's value under its key. */
  lemma {:induction false} ToMapAt<V>(l: Level<V>, j: int)
    requires Sorted(l) && 0 <= j < |l|
    ensures l[j].key in ToMap(l) && ToMap(l)[l[j].key] == l[j].val
    decreases |l|
  {
    if j > 0 {
      assert l[0].key < l[j].key;
      assert l[1..][j - 1] == l[j];
      ToMapAt(l[1..], j - 1);
    }
  }

  /** A sorted level's map is determined by its keys and the value at each node. */
  lemma ToMapEquals<V>(l: Level<V>, m: map<int, V>)
    requires Sorted(l)
    requires m.Keys == Keys(l)
    requires forall j :: 0 <= j < |l| ==> m[l[j].key] == l[j].val
    ensures ToMap(l) == m
  {
    forall kk | kk in m
      ensures ToMap(l)[kk] == m[kk]
    {
      var j :| 0 <= j < |l| && l[j].key == kk;
      ToMapAt(l, j);
    }
  }

  /** Sorted insertion of a new key adds exactly that key and its value to the map. */
  lemma ToMapInsert<V>(l: Level<V>, node: Node<V>)
    requires Sorted(l) && node.key !in Keys(l)
    ensures ToMap(InsertSorted(l, node)) == ToMap(l)[node.key := node.val]
  {
    var r := InsertSorted(l, node);
    var m := ToMap(l)[node.key := node.val];
    forall j | 0 <= j < |r|
      ensures m[r[j].key] == r[j].val
    {
      if r[j].key != node.key {
        assert r[j].key in Keys(l);
        var i :| 0 <= i < |l| && l[i].key == r[j].key;
        ToMapAt(l, i);
        InsertSortedKeepsNodes(l, node, i);
        var i' :| 0 <= i' < |r| && r[i'] == l[i];
        assert i' == j;
      } else {
        InsertSortedPlacesNode(l, node);
        var i :| 0 <= i < |r| && r[i] == node;
        assert i == j;
      }
    }
    ToMapEquals(r, m);
  }

  lemma {:induction false} InsertSortedKeepsNodes<V>(l: Level<V>, node: Node<V>, i: int)
    requires 0 <= i < |l|
    ensures exists i' :: 0 <= i' < |InsertSorted(l, node)| && InsertSorted(l, node)[i'] == l[i]
    decreases |l|
  {
    var r := InsertSorted(l, node);
    if node.key < l[0].key {
      assert r[i + 1] == l[i];
    } else if i == 0 {
      assert r[0] == l[0];
    } else {
      InsertSortedKeepsNodes(l[1..], node, i - 1);
      var i' :| 0 <= i' < |InsertSorted(l[1..], node)| && InsertSorted(l[1..], node)[i'] == l[1..][i - 1];
      assert r[i' + 1] == l[i];
    }
  }

  lemma {:induction false} InsertSortedPlacesNode<V>(l: Level<V>, node: Node<V>)
    ensures exists i :: 0 <= i < |InsertSorted(l, node)| && InsertSorted(l, node)[i] == node
    decreases |l|
  {
    var r := InsertSorted(l, node);
    if l == [] || node.key < l[0].key {
      assert r[0] == node;
    } else {
      InsertSortedPlacesNode(l[1..], node);
      var i :| 0 <= i < |InsertSorted(l[1..], node)| && InsertSorted(l[1..], node)[i] == node;
      assert r[i + 1] == node;
    }
  }

  /** Updating a key of a sorted level changes its value in the map and nothing else;
      updating an absent key changes nothing. */
  lemma ToMapUpdate<V>(l: Level<V>, k: int, v: V)
    requires Sorted(l)
    ensures ToMap(UpdateVal(l, k, v)) == if k in Keys(l) then ToMap(l)[k := v] else ToMap(l)
  {
    var r := UpdateVal(l, k, v);
    UpdateValKeys(l, k, v);
    var m := if k in Keys(l) then ToMap(l)[k := v] else ToMap(l);
    forall j | 0 <= j < |r|
      ensures m[r[j].key] == r[j].val
    {
      ToMapAt(l, j);
    }
    ToMapEquals(r, m);
  }
}
