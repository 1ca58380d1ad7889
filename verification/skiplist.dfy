/**
 * The skip list: a fixed number of sorted levels, `levels[0]` the level of `heads[0]`
 * (the top) and the last one the bottom. Pointers are not stored: the `down` pointer of
 * a level's sentinel is the sentinel of the next level, the `down` pointer of a node is
 * the node with the same key on the next level (the only node `upsertRec` ever links it
 * to), and on the bottom level both are null. The `rand() & 1` coin of each promotion is
 * read from an oracle sequence: the j-th call made during one upsert is `coins[j]`, and
 * a call beyond the end of the oracle reads as tails.
 */
module SkipList {
  import opened Wrappers
  import opened Level

  datatype SkipList<V> = SkipList(levels: seq<Level<V>>)

  // ---------------------------------------------------------------------------
  // Invariants and the map a list denotes

  /** Every key of `a` is in `b` with the same value. */
  ghost predicate SubMap<V>(a: map<int, V>, b: map<int, V>) {
    forall kk :: kk in a ==> kk in b && a[kk] == b[kk]
  }

  /** The shape the constructor and `upsert` maintain: every level strictly increasing,
      every key of a level also on the level below (towers are contiguous down to the
      bottom), and every node holding the value its key has on the bottom level. */
  ghost predicate Valid<V>(levels: seq<Level<V>>) {
    Shaped(levels) && Agrees(levels)
  }

  /** Every level's map is part of the bottom level's. */
  ghost predicate Agrees<V>(levels: seq<Level<V>>) {
    forall i :: 0 <= i < |levels| ==> SubMap(ToMap(levels[i]), ToMap(levels[|levels| - 1]))
  }

  /** The key structure alone: sorted levels and contiguous towers. */
  ghost predicate Shaped<V>(levels: seq<Level<V>>) {
    (forall i :: 0 <= i < |levels| ==> Sorted(levels[i])) &&
    (forall i :: 0 <= i < |levels| - 1 ==> Keys(levels[i]) <= Keys(levels[i + 1]))
  }

  /** The map a list stands for: the bottom level, which holds every key. */
  function Contents<V>(sl: SkipList<V>): map<int, V> {
    if |sl.levels| == 0 then map[] else ToMap(sl.levels[|sl.levels| - 1])
  }

  /** What a lookup of `k` in `m` answers. */
  function Get<V>(m: map<int, V>, k: int): Option<V> {
    if k in m then Some(m[k]) else None
  }

  /** A key of some level is on every level below it. */
  lemma {:induction false} KeyReachesDown<V>(levels: seq<Level<V>>, i: nat, j: nat, k: int)
    requires Shaped(levels)
    requires i <= j < |levels| && k in Keys(levels[i])
    ensures k in Keys(levels[j])
    decreases j - i
  {
    if i < j {
      assert k in Keys(levels[i + 1]);
      KeyReachesDown(levels, i + 1, j, k);
    }
  }

  // ---------------------------------------------------------------------------
  // Construction

  /** The constructor: `height` sentinel heads and no nodes. */
  function Create<V>(height: nat): (sl: SkipList<V>)
    ensures |sl.levels| == height
    ensures Valid(sl.levels)
    ensures Contents(sl) == map[]
  {
    var sl := SkipList(seq(height, _ => []));
    assert forall i :: 0 <= i < height ==> Keys(sl.levels[i]) == {};
    sl
  }

  // ---------------------------------------------------------------------------
  // upsertRec

  /** The result of `rand() & 1` at the j-th call: heads when non-zero. */
  function Coin(coins: seq<bool>, j: nat): bool {
    j < |coins| && coins[j]
  }

  /** The first `m` coins all come up heads. */
  predicate Promoted(coins: seq<bool>, m: nat) {
    forall j :: 0 <= j < m ==> Coin(coins, j)
  }

  /** The position the `down` pointer of position `p` on level `i` designates. */
  function Below<V>(levels: seq<Level<V>>, i: nat, p: int): (q: int)
    requires i + 1 < |levels| && -1 <= p < |levels[i]|
    ensures -1 <= q < |levels[i + 1]|
    ensures Shaped(levels) && p >= 0 ==> q >= 0 && levels[i + 1][q].key == levels[i][p].key
  {
    if p == -1 then -1
    else
      var q := Position(levels[i + 1], levels[i][p].key);
      assert Shaped(levels) ==> levels[i][p].key in Keys(levels[i + 1]) by {
        assert levels[i][p].key in Keys(levels[i]);
      }
      q
  }

  /** Where key `k` sits on a level, or -1 when it is absent. */
  function Position<V>(l: Level<V>, k: int): (q: int)
    ensures -1 <= q < |l|
    ensures q >= 0 ==> l[q].key == k
    ensures q == -1 ==> k !in Keys(l)
  {
    if l == [] then -1
    else if l[|l| - 1].key == k then |l| - 1
    else
      var q := Position(l[..|l| - 1], k);
      assert q == -1 ==> k !in Keys(l) by {
        if q == -1 {
          assert forall j :: 0 <= j < |l| - 1 ==> l[..|l| - 1][j] == l[j];
        }
      }
      q
  }

  /** `upsertRec(current, k, v)` with `current` the node at position `cur` of level `i`
      (`i == |levels|` is the null pointer). Returns the new levels and whether a node
      for `k` was inserted on level `i` (the non-null pointer the C++ returns). */
  function UpsertRec<V>(levels: seq<Level<V>>, i: nat, cur: int, k: int, v: V, coins: seq<bool>): (r: (seq<Level<V>>, bool))
    requires i <= |levels|
    requires i < |levels| ==> -1 <= cur < |levels[i]|
    ensures |r.0| == |levels|
    ensures forall j :: 0 <= j < i ==> r.0[j] == levels[j]
    decreases |levels| - i
  {
    if i == |levels| then (levels, false)
    else
      var p := FindInLevel(levels[i], cur, k);
      if p >= 0 && levels[i][p].key == k then
        // update case: store the value and descend through the down pointer
        var updated := levels[i := levels[i][p := levels[i][p].(val := v)]];
        var below := if i + 1 < |levels| then Below(updated, i, p) else -1;
        var r := UpsertRec(updated, i + 1, below, k, v, coins);
        (r.0, false)
      else if i + 1 == |levels| then
        // insert at the leaf level
        (levels[i := ChainNode(levels[i], p, Node(k, v))], true)
      else
        var r := UpsertRec(levels, i + 1, Below(levels, i, p), k, v, coins);
        if !r.1 then (r.0, false)
        else if Coin(coins, |levels| - 2 - i) then
          // promote with probability 1/2
          (r.0[i := ChainNode(r.0[i], p, Node(k, v))], true)
        else (r.0, false)
  }

  // ---------------------------------------------------------------------------
  // The declarative upsert

  /** What an upsert does to a level `m` levels above the bottom: an existing key takes
      the new value, and a new key is inserted when the promotion coins of the levels from
      the bottom up to this one all came up heads (the bottom level needs none). */
  function Change<V>(row: Level<V>, bottom: Level<V>, m: nat, k: int, v: V, coins: seq<bool>): Level<V> {
    if k in Keys(bottom) then UpdateVal(row, k, v)
    else if Promoted(coins, m) then InsertSorted(row, Node(k, v))
    else row
  }

  /** The change an upsert makes to level `j`. */
  function RowSpec<V>(levels: seq<Level<V>>, j: nat, k: int, v: V, coins: seq<bool>): Level<V>
    requires j < |levels|
  {
    Change(levels[j], levels[|levels| - 1], |levels| - 1 - j, k, v, coins)
  }

  /** The levels after an upsert, as far as the levels from `i` down are concerned. */
  function SpecFrom<V>(levels: seq<Level<V>>, i: nat, k: int, v: V, coins: seq<bool>): (r: seq<Level<V>>)
    ensures |r| == |levels|
  {
    seq(|levels|, j requires 0 <= j < |levels| => if j < i then levels[j] else RowSpec(levels, j, k, v, coins))
  }

  /** Whether `upsertRec` on level `i` reports an inserted node. */
  predicate InsertedAt<V>(levels: seq<Level<V>>, i: nat, k: int, coins: seq<bool>) {
    i < |levels| && k !in Keys(levels[|levels| - 1]) && Promoted(coins, |levels| - 1 - i)
  }

  lemma SpecFromEnd<V>(levels: seq<Level<V>>, k: int, v: V, coins: seq<bool>)
    ensures SpecFrom(levels, |levels|, k, v, coins) == levels
  {
    var r := SpecFrom(levels, |levels|, k, v, coins);
    assert forall j :: 0 <= j < |levels| ==> r[j] == levels[j];
  }

  /** Moving one level up adds that level's change. */
  lemma SpecFromStep<V>(levels: seq<Level<V>>, i: nat, k: int, v: V, coins: seq<bool>)
    requires i < |levels|
    ensures SpecFrom(levels, i, k, v, coins) ==
      SpecFrom(levels, i + 1, k, v, coins)[i := RowSpec(levels, i, k, v, coins)]
  {
    var a := SpecFrom(levels, i, k, v, coins);
    var b := SpecFrom(levels, i + 1, k, v, coins)[i := RowSpec(levels, i, k, v, coins)];
    forall j | 0 <= j < |levels|
      ensures a[j] == b[j]
    {
    }
    assert a == b;
  }

  /** The change below level `i` does not depend on level `i` itself. */
  lemma SpecFromReplace<V>(levels: seq<Level<V>>, i: nat, row: Level<V>, k: int, v: V, coins: seq<bool>)
    requires i < |levels|
    ensures SpecFrom(levels[i := row], i + 1, k, v, coins) == SpecFrom(levels, i + 1, k, v, coins)[i := row]
  {
    var a := SpecFrom(levels[i := row], i + 1, k, v, coins);
    var b := SpecFrom(levels, i + 1, k, v, coins)[i := row];
    forall j | 0 <= j < |levels|
      ensures a[j] == b[j]
    {
      if j > i {
        RowSpecReplace(levels, i, row, j, k, v, coins);
      }
    }
    assert a == b;
  }

  lemma RowSpecReplace<V>(levels: seq<Level<V>>, i: nat, row: Level<V>, j: nat, k: int, v: V, coins: seq<bool>)
    requires i < j < |levels|
    ensures RowSpec(levels[i := row], j, k, v, coins) == RowSpec(levels, j, k, v, coins)
  {
    assert levels[i := row][j] == levels[j];
    assert levels[i := row][|levels| - 1] == levels[|levels| - 1];
  }

  lemma PromotedStep(coins: seq<bool>, m: nat)
    ensures Promoted(coins, m + 1) <==> Promoted(coins, m) && Coin(coins, m)
  {
  }

  /** Updating an absent key changes nothing. */
  lemma UpdateValAbsent<V>(l: Level<V>, k: int, v: V)
    requires k !in Keys(l)
    ensures UpdateVal(l, k, v) == l
  {
    forall j | 0 <= j < |l|
      ensures l[j].key != k
    {
      assert l[j].key in Keys(l);
    }
  }

  /** Storing `v` into the nodes with key `k` on one level keeps the key structure. */
  lemma UpdateShaped<V>(levels: seq<Level<V>>, i: nat, k: int, v: V)
    requires Shaped(levels) && i < |levels|
    ensures Shaped(levels[i := UpdateVal(levels[i], k, v)])
  {
    UpdateValKeys(levels[i], k, v);
  }

  /** `upsertRec` follows the declarative upsert from any level `i`, entered at the
      sentinel or at a node whose key is at most `k`. */
  lemma {:induction false} UpsertRecIsSpec<V>(levels: seq<Level<V>>, i: nat, cur: int, k: int, v: V, coins: seq<bool>)
    requires Shaped(levels)
    requires i <= |levels|
    requires i < |levels| ==> -1 <= cur < |levels[i]| && (cur == -1 || levels[i][cur].key <= k)
    ensures UpsertRec(levels, i, cur, k, v, coins) == (SpecFrom(levels, i, k, v, coins), InsertedAt(levels, i, k, coins))
    decreases |levels| - i, 1
  {
    if i == |levels| {
      SpecFromEnd(levels, k, v, coins);
    } else {
      var p := FindInLevel(levels[i], cur, k);
      if p >= 0 && levels[i][p].key == k {
        UpsertRecUpdateStep(levels, i, cur, k, v, coins);
      } else if i + 1 == |levels| {
        UpsertRecLeafStep(levels, i, cur, k, v, coins);
      } else {
        UpsertRecDescendStep(levels, i, cur, k, v, coins);
      }
    }
  }

  /** The update case: `k` is on level `i`; its value is stored there and on every level
      below. */
  lemma {:induction false} UpsertRecUpdateStep<V>(levels: seq<Level<V>>, i: nat, cur: int, k: int, v: V, coins: seq<bool>)
    requires Shaped(levels)
    requires i < |levels| && -1 <= cur < |levels[i]|
    requires var p := FindInLevel(levels[i], cur, k); p >= 0 && levels[i][p].key == k
    ensures UpsertRec(levels, i, cur, k, v, coins) == (SpecFrom(levels, i, k, v, coins), InsertedAt(levels, i, k, coins))
    decreases |levels| - i, 0
  {
    var p := FindInLevel(levels[i], cur, k);
    var row := levels[i][p := levels[i][p].(val := v)];
    var updated := levels[i := row];
    UpdatedLevels(levels, i, p, k, v);
    var below := if i + 1 < |levels| then Below(updated, i, p) else -1;
    UpsertRecIsSpec(updated, i + 1, below, k, v, coins);
    UpdatedSpec(levels, i, row, k, v, coins);
  }

  /** Storing `v` at the node of `k` on level `i` keeps the shape, and the key is on the
      bottom level. */
  lemma UpdatedLevels<V>(levels: seq<Level<V>>, i: nat, p: int, k: int, v: V)
    requires Shaped(levels)
    requires i < |levels| && 0 <= p < |levels[i]| && levels[i][p].key == k
    ensures levels[i][p := levels[i][p].(val := v)] == UpdateVal(levels[i], k, v)
    ensures Shaped(levels[i := levels[i][p := levels[i][p].(val := v)]])
    ensures k in Keys(levels[|levels| - 1])
  {
    UpdateAtIsUpdateVal(levels[i], p, v);
    UpdateShaped(levels, i, k, v);
    assert k in Keys(levels[i]);
    KeyReachesDown(levels, i, |levels| - 1, k);
  }

  /** Once level `i` holds its updated row, the upsert below it completes the upsert from
      level `i`, and no insertion is reported. */
  lemma UpdatedSpec<V>(levels: seq<Level<V>>, i: nat, row: Level<V>, k: int, v: V, coins: seq<bool>)
    requires i < |levels| && row == UpdateVal(levels[i], k, v)
    requires k in Keys(levels[|levels| - 1])
    ensures SpecFrom(levels[i := row], i + 1, k, v, coins) == SpecFrom(levels, i, k, v, coins)
    ensures !InsertedAt(levels[i := row], i + 1, k, coins) && !InsertedAt(levels, i, k, coins)
  {
    SpecFromReplace(levels, i, row, k, v, coins);
    SpecFromStep(levels, i, k, v, coins);
    if i + 1 < |levels| {
      assert levels[i := row][|levels| - 1] == levels[|levels| - 1];
    }
  }

  /** The leaf case: `k` is absent and level `i` is the bottom; the new node is spliced in
      after the last node below it. */
  lemma UpsertRecLeafStep<V>(levels: seq<Level<V>>, i: nat, cur: int, k: int, v: V, coins: seq<bool>)
    requires Shaped(levels)
    requires i + 1 == |levels| && -1 <= cur < |levels[i]| && (cur == -1 || levels[i][cur].key <= k)
    requires var p := FindInLevel(levels[i], cur, k); !(p >= 0 && levels[i][p].key == k)
    ensures UpsertRec(levels, i, cur, k, v, coins) == (SpecFrom(levels, i, k, v, coins), InsertedAt(levels, i, k, coins))
  {
    var p := FindInLevel(levels[i], cur, k);
    FindInLevelIsLastAtMost(levels[i], cur, k);
    LastAtMostFinds(levels[i], k, p);
    ChainNodeIsInsertSorted(levels[i], p, Node(k, v));
    SpecFromStep(levels, i, k, v, coins);
    SpecFromEnd(levels, k, v, coins);
    assert Promoted(coins, 0);
  }

  /** The descending case: `k` is not on level `i`, which is not the bottom. */
  lemma {:induction false} UpsertRecDescendStep<V>(levels: seq<Level<V>>, i: nat, cur: int, k: int, v: V, coins: seq<bool>)
    requires Shaped(levels)
    requires i + 1 < |levels| && -1 <= cur < |levels[i]| && (cur == -1 || levels[i][cur].key <= k)
    requires var p := FindInLevel(levels[i], cur, k); !(p >= 0 && levels[i][p].key == k)
    ensures UpsertRec(levels, i, cur, k, v, coins) == (SpecFrom(levels, i, k, v, coins), InsertedAt(levels, i, k, coins))
    decreases |levels| - i, 0
  {
    var p := FindInLevel(levels[i], cur, k);
    FindInLevelIsLastAtMost(levels[i], cur, k);
    var below := Below(levels, i, p);
    UpsertRecIsSpec(levels, i + 1, below, k, v, coins);
    if k in Keys(levels[|levels| - 1]) {
      DescendToUpdate(levels, i, cur, k, v, coins);
    } else {
      DescendToInsert(levels, i, cur, k, v, coins);
    }
  }

  /** Descending towards a key present further down: nothing changes on level `i`. */
  lemma DescendToUpdate<V>(levels: seq<Level<V>>, i: nat, cur: int, k: int, v: V, coins: seq<bool>)
    requires i + 1 < |levels| && -1 <= cur < |levels[i]| && (cur == -1 || levels[i][cur].key <= k)
    requires Shaped(levels) && k in Keys(levels[|levels| - 1])
    requires var p := FindInLevel(levels[i], cur, k); !(p >= 0 && levels[i][p].key == k)
    requires var p := FindInLevel(levels[i], cur, k);
      UpsertRec(levels, i + 1, Below(levels, i, p), k, v, coins) ==
        (SpecFrom(levels, i + 1, k, v, coins), InsertedAt(levels, i + 1, k, coins))
    ensures UpsertRec(levels, i, cur, k, v, coins) == (SpecFrom(levels, i, k, v, coins), InsertedAt(levels, i, k, coins))
  {
    var p := FindInLevel(levels[i], cur, k);
    FindInLevelIsLastAtMost(levels[i], cur, k);
    LastAtMostFinds(levels[i], k, p);
    UpdateValAbsent(levels[i], k, v);
    SpecFromStep(levels, i, k, v, coins);
    var next := SpecFrom(levels, i + 1, k, v, coins);
    assert next[i := levels[i]] == next;
  }

  /** Descending to insert an absent key: a node inserted one level down is promoted to
      level `i` when the next coin comes up heads. */
  lemma DescendToInsert<V>(levels: seq<Level<V>>, i: nat, cur: int, k: int, v: V, coins: seq<bool>)
    requires i + 1 < |levels| && -1 <= cur < |levels[i]| && (cur == -1 || levels[i][cur].key <= k)
    requires Shaped(levels) && k !in Keys(levels[|levels| - 1])
    requires var p := FindInLevel(levels[i], cur, k); !(p >= 0 && levels[i][p].key == k)
    requires var p := FindInLevel(levels[i], cur, k);
      UpsertRec(levels, i + 1, Below(levels, i, p), k, v, coins) ==
        (SpecFrom(levels, i + 1, k, v, coins), InsertedAt(levels, i + 1, k, coins))
    ensures UpsertRec(levels, i, cur, k, v, coins) == (SpecFrom(levels, i, k, v, coins), InsertedAt(levels, i, k, coins))
  {
    var n := |levels|;
    var p := FindInLevel(levels[i], cur, k);
    FindInLevelIsLastAtMost(levels[i], cur, k);
    LastAtMostFinds(levels[i], k, p);
    SpecFromStep(levels, i, k, v, coins);
    PromotedStep(coins, n - 2 - i);
    var next := SpecFrom(levels, i + 1, k, v, coins);
    if InsertedAt(levels, i, k, coins) {
      ChainNodeIsInsertSorted(levels[i], p, Node(k, v));
    } else {
      assert next[i := levels[i]] == next;
    }
  }

  // ---------------------------------------------------------------------------
  // The declarative upsert keeps the invariants and updates the map

  /** An upsert keeps the list valid and maps `k` to `v`, leaving every other key alone. */
  lemma UpsertSpecValid<V>(levels: seq<Level<V>>, k: int, v: V, coins: seq<bool>)
    requires |levels| >= 1 && Valid(levels)
    ensures Valid(SpecFrom(levels, 0, k, v, coins))
    ensures ToMap(SpecFrom(levels, 0, k, v, coins)[|levels| - 1]) == ToMap(levels[|levels| - 1])[k := v]
  {
    if k in Keys(levels[|levels| - 1]) {
      UpdateSpecValid(levels, k, v, coins);
    } else {
      InsertSpecValid(levels, k, v, coins);
    }
  }

  /** One level of an update of a present key: same keys, still sorted, and `k` mapped to
      `v` when the level holds it. */
  lemma UpdateRow<V>(levels: seq<Level<V>>, j: nat, k: int, v: V, coins: seq<bool>)
    requires j < |levels| && Sorted(levels[j]) && k in Keys(levels[|levels| - 1])
    ensures Sorted(SpecFrom(levels, 0, k, v, coins)[j])
    ensures Keys(SpecFrom(levels, 0, k, v, coins)[j]) == Keys(levels[j])
    ensures k in Keys(levels[j]) ==> ToMap(SpecFrom(levels, 0, k, v, coins)[j]) == ToMap(levels[j])[k := v]
    ensures k !in Keys(levels[j]) ==> ToMap(SpecFrom(levels, 0, k, v, coins)[j]) == ToMap(levels[j])
  {
    SpecRow(levels, j, k, v, coins);
    UpdateValKeys(levels[j], k, v);
    ToMapUpdate(levels[j], k, v);
  }

  /** Row `j` of the declarative upsert from the top. */
  lemma SpecRow<V>(levels: seq<Level<V>>, j: nat, k: int, v: V, coins: seq<bool>)
    requires j < |levels|
    ensures SpecFrom(levels, 0, k, v, coins)[j] == RowSpec(levels, j, k, v, coins)
  {
  }

  lemma UpdateSpecValid<V>(levels: seq<Level<V>>, k: int, v: V, coins: seq<bool>)
    requires |levels| >= 1 && Valid(levels)
    requires k in Keys(levels[|levels| - 1])
    ensures Valid(SpecFrom(levels, 0, k, v, coins))
    ensures ToMap(SpecFrom(levels, 0, k, v, coins)[|levels| - 1]) == ToMap(levels[|levels| - 1])[k := v]
  {
    UpdateSpecShaped(levels, k, v, coins);
    UpdateSpecAgrees(levels, k, v, coins);
  }

  lemma UpdateSpecShaped<V>(levels: seq<Level<V>>, k: int, v: V, coins: seq<bool>)
    requires |levels| >= 1 && Shaped(levels)
    requires k in Keys(levels[|levels| - 1])
    ensures Shaped(SpecFrom(levels, 0, k, v, coins))
  {
    var r := SpecFrom(levels, 0, k, v, coins);
    forall j | 0 <= j < |levels|
      ensures Sorted(r[j]) && Keys(r[j]) == Keys(levels[j])
    {
      UpdateRow(levels, j, k, v, coins);
    }
  }

  lemma UpdateSpecAgrees<V>(levels: seq<Level<V>>, k: int, v: V, coins: seq<bool>)
    requires |levels| >= 1 && Valid(levels)
    requires k in Keys(levels[|levels| - 1])
    ensures Agrees(SpecFrom(levels, 0, k, v, coins))
    ensures ToMap(SpecFrom(levels, 0, k, v, coins)[|levels| - 1]) == ToMap(levels[|levels| - 1])[k := v]
  {
    forall j | 0 <= j < |levels|
      ensures SubMap(ToMap(SpecFrom(levels, 0, k, v, coins)[j]), ToMap(SpecFrom(levels, 0, k, v, coins)[|levels| - 1]))
    {
      UpdateRowAgrees(levels, j, k, v, coins);
    }
    AgreesOf(levels, SpecFrom(levels, 0, k, v, coins));
    UpdateBottom(levels, k, v, coins);
  }

  lemma UpdateBottom<V>(levels: seq<Level<V>>, k: int, v: V, coins: seq<bool>)
    requires |levels| >= 1 && Sorted(levels[|levels| - 1]) && k in Keys(levels[|levels| - 1])
    ensures ToMap(SpecFrom(levels, 0, k, v, coins)[|levels| - 1]) == ToMap(levels[|levels| - 1])[k := v]
  {
    SpecRow(levels, |levels| - 1, k, v, coins);
    assert ToMap(SpecFrom(levels, 0, k, v, coins)[|levels| - 1]) == ToMap(UpdateVal(levels[|levels| - 1], k, v));
    ToMapUpdate(levels[|levels| - 1], k, v);
  }

  lemma UpdateRowAgrees<V>(levels: seq<Level<V>>, j: nat, k: int, v: V, coins: seq<bool>)
    requires j < |levels| && Valid(levels)
    requires k in Keys(levels[|levels| - 1])
    ensures SubMap(ToMap(SpecFrom(levels, 0, k, v, coins)[j]), ToMap(SpecFrom(levels, 0, k, v, coins)[|levels| - 1]))
  {
    UpdateRowSubMap(levels, j, k, v, coins);
  }

  lemma UpdateRowSubMap<V>(levels: seq<Level<V>>, j: nat, k: int, v: V, coins: seq<bool>)
    requires j < |levels| && Sorted(levels[j]) && Sorted(levels[|levels| - 1])
    requires SubMap(ToMap(levels[j]), ToMap(levels[|levels| - 1]))
    requires k in Keys(levels[|levels| - 1])
    ensures SubMap(ToMap(SpecFrom(levels, 0, k, v, coins)[j]), ToMap(SpecFrom(levels, 0, k, v, coins)[|levels| - 1]))
  {
    UpdateRow(levels, j, k, v, coins);
    UpdateRow(levels, |levels| - 1, k, v, coins);
    SubMapUpdate(ToMap(levels[j]), ToMap(levels[|levels| - 1]), k, v);
  }

  /** Setting a key in both maps, or in the larger one only when the smaller lacks it,
      keeps one part of the other. */
  lemma SubMapUpdate<V>(a: map<int, V>, b: map<int, V>, k: int, v: V)
    requires SubMap(a, b)
    ensures SubMap(a[k := v], b[k := v])
    ensures k !in a ==> SubMap(a, b[k := v])
  {
  }

  /** One level of an insertion of an absent key: still sorted, and `k` added with `v`
      exactly when the level is promoted. */
  lemma InsertRow<V>(levels: seq<Level<V>>, j: nat, k: int, v: V, coins: seq<bool>)
    requires j < |levels| && Sorted(levels[j]) && k !in Keys(levels[j]) && k !in Keys(levels[|levels| - 1])
    ensures var r := SpecFrom(levels, 0, k, v, coins)[j];
      var up := Promoted(coins, |levels| - 1 - j);
      Sorted(r) &&
      Keys(r) == (if up then Keys(levels[j]) + {k} else Keys(levels[j])) &&
      ToMap(r) == if up then ToMap(levels[j])[k := v] else ToMap(levels[j])
  {
    if Promoted(coins, |levels| - 1 - j) {
      ToMapInsert(levels[j], Node(k, v));
    }
  }

  lemma InsertSpecValid<V>(levels: seq<Level<V>>, k: int, v: V, coins: seq<bool>)
    requires |levels| >= 1 && Valid(levels)
    requires k !in Keys(levels[|levels| - 1])
    ensures Valid(SpecFrom(levels, 0, k, v, coins))
    ensures ToMap(SpecFrom(levels, 0, k, v, coins)[|levels| - 1]) == ToMap(levels[|levels| - 1])[k := v]
  {
    InsertSpecShaped(levels, k, v, coins);
    InsertSpecAgrees(levels, k, v, coins);
  }

  /** An absent key is on no level. */
  lemma AbsentEverywhere<V>(levels: seq<Level<V>>, k: int)
    requires |levels| >= 1 && Shaped(levels) && k !in Keys(levels[|levels| - 1])
    ensures forall j :: 0 <= j < |levels| ==> k !in Keys(levels[j])
  {
    forall j | 0 <= j < |levels|
      ensures k !in Keys(levels[j])
    {
      if k in Keys(levels[j]) {
        KeyReachesDown(levels, j, |levels| - 1, k);
      }
    }
  }

  lemma InsertSpecShaped<V>(levels: seq<Level<V>>, k: int, v: V, coins: seq<bool>)
    requires |levels| >= 1 && Shaped(levels)
    requires k !in Keys(levels[|levels| - 1])
    ensures Shaped(SpecFrom(levels, 0, k, v, coins))
  {
    var n := |levels|;
    var r := SpecFrom(levels, 0, k, v, coins);
    AbsentEverywhere(levels, k);
    forall j | 0 <= j < n
      ensures Sorted(r[j])
      ensures Keys(r[j]) == if Promoted(coins, n - 1 - j) then Keys(levels[j]) + {k} else Keys(levels[j])
    {
      InsertRow(levels, j, k, v, coins);
    }
    forall j | 0 <= j < n - 1
      ensures Keys(r[j]) <= Keys(r[j + 1])
    {
      assert Keys(levels[j]) <= Keys(levels[j + 1]);
      PromotedStep(coins, n - 2 - j);
    }
  }

  lemma InsertSpecAgrees<V>(levels: seq<Level<V>>, k: int, v: V, coins: seq<bool>)
    requires |levels| >= 1 && Valid(levels)
    requires k !in Keys(levels[|levels| - 1])
    ensures Agrees(SpecFrom(levels, 0, k, v, coins))
    ensures ToMap(SpecFrom(levels, 0, k, v, coins)[|levels| - 1]) == ToMap(levels[|levels| - 1])[k := v]
  {
    forall j | 0 <= j < |levels|
      ensures SubMap(ToMap(SpecFrom(levels, 0, k, v, coins)[j]), ToMap(SpecFrom(levels, 0, k, v, coins)[|levels| - 1]))
    {
      InsertRowAgrees(levels, j, k, v, coins);
    }
    AgreesOf(levels, SpecFrom(levels, 0, k, v, coins));
    InsertBottom(levels, k, v, coins);
  }

  lemma InsertBottom<V>(levels: seq<Level<V>>, k: int, v: V, coins: seq<bool>)
    requires |levels| >= 1 && Sorted(levels[|levels| - 1]) && k !in Keys(levels[|levels| - 1])
    ensures ToMap(SpecFrom(levels, 0, k, v, coins)[|levels| - 1]) == ToMap(levels[|levels| - 1])[k := v]
  {
    InsertRow(levels, |levels| - 1, k, v, coins);
    assert Promoted(coins, 0);
  }

  /** Levels each part of the bottom one agree. */
  lemma AgreesOf<V>(levels: seq<Level<V>>, r: seq<Level<V>>)
    requires |r| == |levels|
    requires forall j :: 0 <= j < |levels| ==> SubMap(ToMap(r[j]), ToMap(r[|levels| - 1]))
    ensures Agrees(r)
  {
  }

  lemma InsertRowAgrees<V>(levels: seq<Level<V>>, j: nat, k: int, v: V, coins: seq<bool>)
    requires j < |levels| && Valid(levels)
    requires k !in Keys(levels[|levels| - 1])
    ensures SubMap(ToMap(SpecFrom(levels, 0, k, v, coins)[j]), ToMap(SpecFrom(levels, 0, k, v, coins)[|levels| - 1]))
  {
    AbsentEverywhere(levels, k);
    InsertRowSubMap(levels, j, k, v, coins);
  }

  lemma InsertRowSubMap<V>(levels: seq<Level<V>>, j: nat, k: int, v: V, coins: seq<bool>)
    requires j < |levels| && Sorted(levels[j]) && Sorted(levels[|levels| - 1])
    requires SubMap(ToMap(levels[j]), ToMap(levels[|levels| - 1]))
    requires k !in Keys(levels[j]) && k !in Keys(levels[|levels| - 1])
    ensures SubMap(ToMap(SpecFrom(levels, 0, k, v, coins)[j]), ToMap(SpecFrom(levels, 0, k, v, coins)[|levels| - 1]))
  {
    InsertRow(levels, j, k, v, coins);
    InsertRow(levels, |levels| - 1, k, v, coins);
    assert Promoted(coins, 0);
    SubMapUpdate(ToMap(levels[j]), ToMap(levels[|levels| - 1]), k, v);
  }

  // ---------------------------------------------------------------------------
  // upsert and find

  /** `upsert(k, v)`: `upsertRec` from the top sentinel. */
  function Upsert<V>(sl: SkipList<V>, k: int, v: V, coins: seq<bool>): (r: SkipList<V>)
    requires |sl.levels| >= 1
    ensures |r.levels| == |sl.levels|
  {
    SkipList(UpsertRec(sl.levels, 0, -1, k, v, coins).0)
  }

  /** On a valid list an upsert keeps the list valid and maps `k` to `v`, every other key
      keeping its value. */
  lemma UpsertValid<V>(sl: SkipList<V>, k: int, v: V, coins: seq<bool>)
    requires |sl.levels| >= 1 && Valid(sl.levels)
    ensures Valid(Upsert(sl, k, v, coins).levels)
    ensures Contents(Upsert(sl, k, v, coins)) == Contents(sl)[k := v]
  {
    UpsertRecIsSpec(sl.levels, 0, -1, k, v, coins);
    UpsertSpecValid(sl.levels, k, v, coins);
  }

  /** Upserting a key already present adds no node: every level keeps its keys and every
      node of the key's tower takes the new value. */
  lemma UpsertExisting<V>(sl: SkipList<V>, k: int, v: V, coins: seq<bool>)
    requires |sl.levels| >= 1 && Valid(sl.levels)
    requires k in Contents(sl)
    ensures forall j :: 0 <= j < |sl.levels| ==> Upsert(sl, k, v, coins).levels[j] == UpdateVal(sl.levels[j], k, v)
  {
    UpsertRecIsSpec(sl.levels, 0, -1, k, v, coins);
  }

  /** Number of heads before the first tails (or the end of the oracle). */
  function LeadingHeads(coins: seq<bool>): (h: nat)
    ensures h <= |coins|
  {
    if |coins| > 0 && coins[0] then 1 + LeadingHeads(coins[1..]) else 0
  }

  /** The first `m` promotions succeed exactly when at least `m` heads lead the oracle. */
  lemma {:induction false} PromotedLeading(coins: seq<bool>, m: nat)
    ensures Promoted(coins, m) <==> m <= LeadingHeads(coins)
    decreases m
  {
    if m > 0 && |coins| > 0 && coins[0] {
      var tail := coins[1..];
      PromotedLeading(tail, m - 1);
      if Promoted(tail, m - 1) {
        forall j | 0 <= j < m
          ensures Coin(coins, j)
        {
          if j > 0 {
            assert Coin(tail, j - 1);
          }
        }
      }
      if Promoted(coins, m) {
        forall j | 0 <= j < m - 1
          ensures Coin(tail, j)
        {
          assert Coin(coins, j + 1);
        }
      }
    } else if m > 0 {
      assert !Coin(coins, 0);
    }
  }

  /** The height of the tower a new key gets in a list of `n` levels: one level plus one
      per leading head, capped at `n`. */
  function TowerHeight(coins: seq<bool>, n: nat): nat {
    if 1 + LeadingHeads(coins) < n then 1 + LeadingHeads(coins) else n
  }

  /** Upserting a new key builds its tower from the bottom up: the key lands on the bottom
      `TowerHeight(coins, height)` levels and on no level above them, and no other node is
      added. */
  lemma UpsertNew<V>(sl: SkipList<V>, k: int, v: V, coins: seq<bool>)
    requires |sl.levels| >= 1 && Valid(sl.levels)
    requires k !in Contents(sl)
    ensures forall j :: 0 <= j < |sl.levels| ==>
      Upsert(sl, k, v, coins).levels[j] ==
        if j >= |sl.levels| - TowerHeight(coins, |sl.levels|) then InsertSorted(sl.levels[j], Node(k, v))
        else sl.levels[j]
  {
    UpsertRecIsSpec(sl.levels, 0, -1, k, v, coins);
    forall j | 0 <= j < |sl.levels|
      ensures Upsert(sl, k, v, coins).levels[j] ==
        if j >= |sl.levels| - TowerHeight(coins, |sl.levels|) then InsertSorted(sl.levels[j], Node(k, v))
        else sl.levels[j]
    {
      NewRow(sl.levels, j, k, v, coins);
      PromotedLeading(coins, |sl.levels| - 1 - j);
    }
  }

  /** Inserting an absent key changes exactly the promoted levels. */
  lemma NewRow<V>(levels: seq<Level<V>>, j: nat, k: int, v: V, coins: seq<bool>)
    requires j < |levels| && k !in ToMap(levels[|levels| - 1])
    ensures SpecFrom(levels, 0, k, v, coins)[j] ==
      if Promoted(coins, |levels| - 1 - j) then InsertSorted(levels[j], Node(k, v)) else levels[j]
  {
    SpecRow(levels, j, k, v, coins);
  }

  /** `find(k)`: descend from the top, returning the value of the first node with key `k`
      met on the way down, or nothing when the bottom level lacks it. On a valid list
      this is the lookup of `k` in the list's map. */
  method Find<V>(sl: SkipList<V>, k: int) returns (r: Option<V>)
    requires |sl.levels| >= 1
    ensures Valid(sl.levels) ==> r == Get(Contents(sl), k)
  {
    var levels := sl.levels;
    var n := |levels|;
    var i := 0;
    var p := FindInLevel(levels[0], -1, k);
    if Valid(levels) {
      FindAtTop(levels, k);
    }
    while i + 1 < n
      invariant 0 <= i < n && -1 <= p < |levels[i]|
      invariant Valid(levels) ==> LastAtMost(levels[i], k, p)
    {
      if p >= 0 && levels[i][p].key == k {
        if Valid(levels) {
          FoundAbove(levels, i, p);
        }
        return Some(levels[i][p].val);
      }
      var below := Below(levels, i, p);
      if Valid(levels) {
        FindBelow(levels, i, p, k);
      }
      p := FindInLevel(levels[i + 1], below, k);
      i := i + 1;
    }
    if Valid(levels) {
      FindAtBottom(levels, p, k);
    }
    if p < 0 || levels[i][p].key != k {
      return None;
    }
    return Some(levels[i][p].val);
  }

  /** The walk on the top level starts at the sentinel. */
  lemma FindAtTop<V>(levels: seq<Level<V>>, k: int)
    requires Valid(levels) && |levels| >= 1
    ensures LastAtMost(levels[0], k, FindInLevel(levels[0], -1, k))
  {
    FindInLevelIsLastAtMost(levels[0], -1, k);
  }

  /** Going down from the last node at most `k` and walking on finds the last node at
      most `k` one level down. */
  lemma FindBelow<V>(levels: seq<Level<V>>, i: nat, p: int, k: int)
    requires Valid(levels) && i + 1 < |levels| && LastAtMost(levels[i], k, p)
    ensures LastAtMost(levels[i + 1], k, FindInLevel(levels[i + 1], Below(levels, i, p), k))
  {
    FindInLevelIsLastAtMost(levels[i + 1], Below(levels, i, p), k);
  }

  /** On the bottom level, the last node at most `k` holds `k` exactly when the list maps
      it, and then holds its value. */
  lemma FindAtBottom<V>(levels: seq<Level<V>>, p: int, k: int)
    requires Valid(levels) && |levels| >= 1 && LastAtMost(levels[|levels| - 1], k, p)
    ensures p >= 0 && levels[|levels| - 1][p].key == k ==>
      k in ToMap(levels[|levels| - 1]) && ToMap(levels[|levels| - 1])[k] == levels[|levels| - 1][p].val
    ensures !(p >= 0 && levels[|levels| - 1][p].key == k) ==> k !in ToMap(levels[|levels| - 1])
  {
    var bottom := levels[|levels| - 1];
    LastAtMostFinds(bottom, k, p);
    if p >= 0 && bottom[p].key == k {
      ToMapAt(bottom, p);
    }
  }

  /** A node met on the way down holds the value its key has in the list's map. */
  lemma FoundAbove<V>(levels: seq<Level<V>>, i: nat, p: int)
    requires Valid(levels) && i < |levels| && 0 <= p < |levels[i]|
    ensures levels[i][p].key in ToMap(levels[|levels| - 1])
    ensures ToMap(levels[|levels| - 1])[levels[i][p].key] == levels[i][p].val
  {
    ToMapAt(levels[i], p);
    assert SubMap(ToMap(levels[i]), ToMap(levels[|levels| - 1]));
  }

  // ---------------------------------------------------------------------------
  // Sequences of upserts

  /** One `upsert(key, val)` call with the coins it draws. */
  datatype Upserted<V> = Upserted(key: int, val: V, coins: seq<bool>)

  function UpsertAll<V>(sl: SkipList<V>, ops: seq<Upserted<V>>): (r: SkipList<V>)
    requires |sl.levels| >= 1
    ensures |r.levels| == |sl.levels|
    decreases |ops|
  {
    if ops == [] then sl
    else UpsertAll(Upsert(sl, ops[0].key, ops[0].val, ops[0].coins), ops[1..])
  }

  /** The value of the last upsert of `k`, if any. */
  function Latest<V>(ops: seq<Upserted<V>>, k: int): Option<V>
    decreases |ops|
  {
    if ops == [] then None
    else if ops[|ops| - 1].key == k then Some(ops[|ops| - 1].val)
    else Latest(ops[..|ops| - 1], k)
  }

  /** After a run of upserts on a valid list, the list is valid and a lookup of any key
      answers the value of its last upsert, or the earlier answer when there was none,
      whatever the coins and the order of the keys. */
  lemma {:induction false} UpsertAllContents<V>(sl: SkipList<V>, ops: seq<Upserted<V>>, k: int)
    requires |sl.levels| >= 1 && Valid(sl.levels)
    ensures Valid(UpsertAll(sl, ops).levels)
    ensures Get(Contents(UpsertAll(sl, ops)), k) ==
      if Latest(ops, k).Some? then Latest(ops, k) else Get(Contents(sl), k)
    decreases |ops|
  {
    if ops != [] {
      var last := ops[|ops| - 1];
      var init := ops[..|ops| - 1];
      assert ops == init + [last];
      UpsertAllSnoc(sl, init, last);
      UpsertAllContents(sl, init, k);
      var mid := UpsertAll(sl, init);
      UpsertValid(mid, last.key, last.val, last.coins);
      GetUpdate(Contents(mid), last.key, last.val, k);
    }
  }

  lemma GetUpdate<V>(m: map<int, V>, k: int, v: V, k': int)
    ensures Get(m[k := v], k') == if k == k' then Some(v) else Get(m, k')
  {
  }

  lemma {:induction false} UpsertAllSnoc<V>(sl: SkipList<V>, ops: seq<Upserted<V>>, op: Upserted<V>)
    requires |sl.levels| >= 1
    ensures UpsertAll(sl, ops + [op]) == Upsert(UpsertAll(sl, ops), op.key, op.val, op.coins)
    decreases |ops|
  {
    if ops != [] {
      assert (ops + [op])[1..] == ops[1..] + [op];
      UpsertAllSnoc(Upsert(sl, ops[0].key, ops[0].val, ops[0].coins), ops[1..], op);
    }
  }

  /** Build a list of height `height`, run the upserts, then look `k` up: the answer is
      the value of the last upsert of `k`, and nothing when `k` was never upserted. */
  method FindAfterUpserts<V>(height: nat, ops: seq<Upserted<V>>, k: int) returns (r: Option<V>)
    requires height >= 1
    ensures r == Latest(ops, k)
  {
    var sl := UpsertAll(Create(height), ops);
    UpsertAllContents(Create(height), ops, k);
    r := Find(sl, k);
  }
}
