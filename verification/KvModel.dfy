/** What the key/value store means: its entries in slot order, the map they stand for, and what put and get do. */
module KvModel {
  const ITEMS := 256
  const DATAS := 12288
  const MAX_VALUE := 33550336

  datatype Pair = Pair(key: string, value: string)

  /** Logged operations. */
  datatype Op = Put(key: string, value: string) | Get(key: string)

  /** Blocks of 4096 characters needed for n characters. */
  function Blocks(n: nat): (b: nat)
    ensures 4096 * (b - 1) < n <= 4096 * b
  {
    (n + 4095) / 4096
  }

  function Total(es: seq<Pair>): nat {
    if es == [] then 0 else Total(es[..|es| - 1]) + Blocks(|es[|es| - 1].value|)
  }

  /** Element i is overwritten by the last one, and the sequence is one shorter. */
  function Dropped<T>(s: seq<T>, i: int): (r: seq<T>)
    requires 0 <= i < |s|
    ensures |r| == |s| - 1
  {
    if i == |s| - 1 then s[..i] else s[..|s| - 1][i := s[|s| - 1]]
  }

  /** The first entry with the key, or -1. */
  function Find(es: seq<Pair>, key: string): (i: int)
    ensures -1 <= i < |es|
    ensures i >= 0 ==> es[i].key == key
    ensures i < 0 ==> forall j :: 0 <= j < |es| ==> es[j].key != key
    ensures forall j :: 0 <= j < i ==> es[j].key != key
  {
    if es == [] then -1
    else if es[0].key == key then 0
    else
      var r := Find(es[1..], key);
      if r < 0 then -1
      else r + 1
  }

  lemma FindIs(es: seq<Pair>, key: string, i: int)
    requires 0 <= i < |es| && es[i].key == key && forall j :: 0 <= j < i ==> es[j].key != key
    ensures Find(es, key) == i
  {
  }

  function Without(es: seq<Pair>, key: string): seq<Pair> {
    var i := Find(es, key);
    if i < 0 then es else Dropped(es, i)
  }

  /** put replaces the entry of its key, appending it last; get takes the entry out. */
  function Step(es: seq<Pair>, op: Op): seq<Pair> {
    match op
    case Put(k, v) => Without(es, k) + [Pair(k, v)]
    case Get(k) => Without(es, k)
  }

  function Run(es: seq<Pair>, ops: seq<Op>): seq<Pair>
    decreases |ops|
  {
    if ops == [] then es else Run(Step(es, ops[0]), ops[1..])
  }

  /** There is a slot and there are blocks for the operation. */
  predicate HasSlot(es: seq<Pair>, op: Op) {
    op.Put? ==> |Without(es, op.key)| < ITEMS
  }

  predicate HasBlocks(es: seq<Pair>, op: Op) {
    op.Put? ==> Total(Without(es, op.key)) + Blocks(|op.value|) <= DATAS
  }

  ghost predicate RunFits(es: seq<Pair>, ops: seq<Op>)
    decreases |ops|
  {
    ops == [] || (HasSlot(es, ops[0]) && HasBlocks(es, ops[0]) && RunFits(Step(es, ops[0]), ops[1..]))
  }

  // --------------------------------------------------------------------------
  // The map
  // --------------------------------------------------------------------------

  ghost predicate Unique(es: seq<Pair>) {
    forall i, j :: 0 <= i < j < |es| ==> es[i].key != es[j].key
  }

  ghost function Map(es: seq<Pair>): map<string, string> {
    if es == [] then map[]
    else Map(es[..|es| - 1])[es[|es| - 1].key := es[|es| - 1].value]
  }

  ghost predicate HasKey(es: seq<Pair>, k: string) {
    exists i :: 0 <= i < |es| && es[i].key == k
  }

  ghost predicate Represents(m: map<string, string>, es: seq<Pair>) {
    && (forall i :: 0 <= i < |es| ==> es[i].key in m && m[es[i].key] == es[i].value)
    && (forall k :: k in m ==> HasKey(es, k))
  }

  lemma {:induction false} MapHolds(es: seq<Pair>)
    requires Unique(es)
    ensures Represents(Map(es), es)
  {
    if es != [] {
      var init, last := es[..|es| - 1], es[|es| - 1];
      MapHolds(init);
      forall k | k in Map(es)
        ensures HasKey(es, k)
      {
        if k != last.key {
          var i :| 0 <= i < |init| && init[i].key == k;
          assert es[i].key == k;
        }
      }
    }
  }

  lemma MapIs(es: seq<Pair>, m: map<string, string>)
    requires Unique(es) && Represents(m, es)
    ensures Map(es) == m
  {
    MapHolds(es);
    var n := Map(es);
    forall k
      ensures k in m <==> k in n
      ensures k in m ==> m[k] == n[k]
    {
    }
  }

  /** Looking a key up finds its value in the map. */
  lemma FindMeaning(es: seq<Pair>, k: string)
    requires Unique(es)
    ensures Find(es, k) >= 0 <==> k in Map(es)
    ensures Find(es, k) >= 0 ==> es[Find(es, k)].value == Map(es)[k]
  {
    MapHolds(es);
  }

  /** Where the elements of Dropped(s, i) come from. */
  function Origin(n: int, i: int, j: int): int {
    if j == i then n - 1 else j
  }

  lemma DroppedAt<T>(s: seq<T>, i: int)
    requires 0 <= i < |s|
    ensures forall j :: 0 <= j < |s| - 1 ==> Dropped(s, i)[j] == s[Origin(|s|, i, j)]
    ensures forall j :: 0 <= j < |s| - 1 ==> Origin(|s|, i, j) != i && 0 <= Origin(|s|, i, j) < |s|
  {
  }

  lemma DroppedRepresents(es: seq<Pair>, i: int, m: map<string, string>)
    requires 0 <= i < |es| && Unique(es) && Represents(m, es)
    ensures Unique(Dropped(es, i)) && Represents(m - {es[i].key}, Dropped(es, i))
  {
    hide Dropped;
    var r, n, m' := Dropped(es, i), |es|, m - {es[i].key};
    DroppedAt(es, i);
    forall a, b | 0 <= a < b < |r|
      ensures r[a].key != r[b].key
    {
      assert r[a] == es[Origin(n, i, a)] && r[b] == es[Origin(n, i, b)];
    }
    forall a | 0 <= a < |r|
      ensures r[a].key in m' && m'[r[a].key] == r[a].value
    {
      assert r[a] == es[Origin(n, i, a)];
    }
    forall k | k in m'
      ensures HasKey(r, k)
    {
      assert HasKey(es, k);
      var j :| 0 <= j < n && es[j].key == k;
      var a := if j == n - 1 then i else j;
      assert r[a] == es[Origin(n, i, a)];
    }
  }

  /** Moving the last entry into the gap removes exactly one key. */
  lemma WithoutMeaning(es: seq<Pair>, k: string)
    requires Unique(es)
    ensures Unique(Without(es, k)) && Map(Without(es, k)) == Map(es) - {k}
    ensures k !in Map(Without(es, k))
  {
    hide Dropped, Map, Unique, Represents;
    FindMeaning(es, k);
    if Find(es, k) >= 0 {
      MapHolds(es);
      DroppedRepresents(es, Find(es, k), Map(es));
      MapIs(Without(es, k), Map(es) - {k});
    } else {
      assert Map(es) - {k} == Map(es);
    }
  }

  /** put sets exactly one key, get removes exactly one, and keys stay unique. */
  lemma StepMeaning(es: seq<Pair>, op: Op)
    requires Unique(es)
    ensures Unique(Step(es, op))
    ensures op.Put? ==> Map(Step(es, op)) == Map(es)[op.key := op.value]
    ensures op.Get? ==> Map(Step(es, op)) == Map(es) - {op.key}
  {
    hide Dropped, Without, Represents;
    WithoutMeaning(es, op.key);
    if op.Put? {
      var w, m := Without(es, op.key), Map(es);
      AppendMeaning(w, op.key, op.value);
      assert (m - {op.key})[op.key := op.value] == m[op.key := op.value];
    }
  }

  lemma AppendMeaning(es: seq<Pair>, k: string, v: string)
    requires Unique(es) && k !in Map(es)
    ensures Unique(es + [Pair(k, v)]) && Map(es + [Pair(k, v)]) == Map(es)[k := v]
  {
    MapHolds(es);
    assert (es + [Pair(k, v)])[..|es|] == es;
  }

  lemma {:induction false} TotalSplit(a: seq<Pair>, b: seq<Pair>)
    ensures Total(a + b) == Total(a) + Total(b)
  {
    if b == [] {
      assert a + b == a;
    } else {
      assert (a + b)[..|a + b| - 1] == a + b[..|b| - 1];
      TotalSplit(a, b[..|b| - 1]);
    }
  }

  lemma TotalOne(p: Pair)
    ensures Total([p]) == Blocks(|p.value|)
  {
    assert [p][..0] == [];
  }

  lemma TotalDropped(es: seq<Pair>, i: int)
    requires 0 <= i < |es|
    ensures Total(Dropped(es, i)) == Total(es) - Blocks(|es[i].value|)
  {
    hide Total, Blocks;
    var n := |es| - 1;
    var a, m := es[..i], es[i + 1..];
    TotalOne(es[i]);
    TotalSplit(a + [es[i]], m);
    TotalSplit(a, [es[i]]);
    assert es == a + [es[i]] + m;
    if i < n {
      var mid := m[..|m| - 1];
      TotalOne(es[n]);
      TotalSplit(mid, [es[n]]);
      assert m == mid + [es[n]];
      TotalSplit(a + [es[n]], mid);
      TotalSplit(a, [es[n]]);
      assert Dropped(es, i) == a + [es[n]] + mid;
    } else {
      assert m == [];
      assert a + [] == a;
      TotalSplit(a, []);
    }
  }

  lemma {:induction false} RunAppend(es: seq<Pair>, ops: seq<Op>, op: Op)
    requires RunFits(es, ops) && HasSlot(Run(es, ops), op) && HasBlocks(Run(es, ops), op)
    ensures RunFits(es, ops + [op]) && Run(es, ops + [op]) == Step(Run(es, ops), op)
    decreases |ops|
  {
    if ops == [] {
      assert ops + [op] == [op] && [op][1..] == [];
    } else {
      assert (ops + [op])[1..] == ops[1..] + [op];
      RunAppend(Step(es, ops[0]), ops[1..], op);
    }
  }
}
