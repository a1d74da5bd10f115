/** The key/value store: arrays of items and blocks in memory, and the database file, its copy and the redo log
    on disk. File locks, mutexes and failing file operations are not part of this model. */
module KvStore {
  import opened Ctype
  import opened Sequences
  import opened KvModel
  import opened KvLog
  import opened KvBlocks

  datatype Option<T> = None | Some(value: T)

  /** The structure as it is written to a file. */
  datatype Image = Image(size: int, items: seq<Item>, datas: seq<Node>)

  ghost predicate ImageRepr(m: Image, chains: seq<seq<int>>, es: seq<Pair>) {
    Repr(m.items, m.datas, m.size, chains, es)
  }

  class Store {
    var size: int
    const items: array<Item>
    const datas: array<Node>
    const vec: array<int>
    const readbuf: array<char>
    const writebuf: array<char>

    var file: Option<Image>
    var copy: Option<Image>
    var log: Option<string>

    ghost var es: seq<Pair>
    ghost var chains: seq<seq<int>>
    /** What the copy on disk stores, and the operations logged since the log was last emptied. */
    ghost var start: seq<Pair>
    ghost var startChains: seq<seq<int>>
    ghost var ops: seq<Op>

    ghost predicate Arrays()
      reads this
    {
      && items.Length == ITEMS && datas.Length == DATAS && vec.Length == 8192
      && readbuf.Length == writebuf.Length == 33554432
      && readbuf != writebuf
    }

    ghost predicate Valid()
      reads this, items, datas
    {
      Arrays() && Repr(items[..], datas[..], size, chains, es)
    }

    /** The copy and the log on disk can be replayed, to the entries Run(start, ops). */
    ghost predicate OnDisk()
      reads this
    {
      && copy.Some? && ImageRepr(copy.value, startChains, start)
      && log == Some(Print(ops)) && RunFits(start, ops) && (forall i :: 0 <= i < |ops| ==> Loggable(ops[i]))
    }

    /** The copy and the log on disk are enough to rebuild the store. */
    ghost predicate Tracked()
      reads this
    {
      OnDisk() && es == Run(start, ops)
    }

    /** They rebuild the same map, in whatever order of slots. */
    ghost predicate Recoverable()
      reads this
    {
      OnDisk() && Map(es) == Map(Run(start, ops))
    }

    /** The caller's zeroed structure, and nothing on disk. */
    constructor ()
      ensures Valid() && es == [] && file == None && copy == None && log == None
      ensures forall x :: 0 <= x < DATAS ==> datas[x] == Node(Zeros(4096), false, 0)
      ensures fresh(items) && fresh(datas) && fresh(vec) && fresh(readbuf) && fresh(writebuf)
    {
      size := 0;
      items := new Item[ITEMS](_ => Item(0, 0, ""));
      datas := new Node[DATAS](_ => Node(Zeros(4096), false, 0));
      vec := new int[8192];
      readbuf := new char[33554432];
      writebuf := new char[33554432];
      file, copy, log := None, None, None;
      es, chains, start, startChains, ops := [], [], [], [], [];
      new;
      NoneUsed(datas[..]);
    }

    /** The first free block from k on, or -1 (lines 66-72). */
    method GetUnusedIdx(k: int) returns (r: int)
      requires 0 <= k <= DATAS && datas.Length == DATAS
      ensures r == -1 || k <= r < DATAS
      ensures r >= 0 ==> !datas[r].used && forall x :: k <= x < r ==> datas[x].used
      ensures r == -1 ==> forall x :: k <= x < DATAS ==> datas[x].used
    {
      var i := k;
      while i < DATAS
        invariant k <= i <= DATAS && forall x :: k <= x < i ==> datas[x].used
      {
        if !datas[i].used {
          return i;
        }
        i := i + 1;
      }
      return -1;
    }

    /** Collects the lowest `need` free blocks in vec (lines 76-89). */
    method Collect(need: int) returns (ok: bool)
      requires datas.Length == DATAS && vec.Length == 8192 && 0 <= need < 8192
      modifies vec
      ensures ok <==> UsedCount(datas[..]) + need <= DATAS
      ensures ok ==> vec[need] == -1
      ensures ok ==> forall a :: 0 <= a < need ==> 0 <= vec[a] < DATAS && !datas[vec[a]].used
      ensures ok ==> forall a, b :: 0 <= a < b < need ==> vec[a] != vec[b]
    {
      hide UsedCount;
      var cnt, k := 0, -1;
      ghost var d := datas[..];
      while cnt < need
        invariant 0 <= cnt <= need && -1 <= k < DATAS
        invariant UsedCount(d[..k + 1]) == k + 1 - cnt
        invariant forall a :: 0 <= a < cnt ==> 0 <= vec[a] <= k && !datas[vec[a]].used
        invariant forall a, b :: 0 <= a < b < cnt ==> vec[a] < vec[b]
      {
        ghost var k0 := k + 1;
        k := GetUnusedIdx(k + 1);
        if k == -1 {
          CountUsed(d, k0, DATAS);
          assert d[..DATAS] == d;
          return false;
        }
        CountUsed(d, k0, k);
        CountUnused(d, k);
        vec[cnt] := k;
        cnt := cnt + 1;
      }
      CountSplit(d, k + 1);
      vec[cnt] := -1;
      ok := true;
    }

    /** Links the collected blocks into a chain (lines 90-93). */
    method LinkChain(need: int, ghost c: seq<int>)
      requires datas.Length == DATAS && vec.Length == 8192 && 0 <= need < 8192 && vec[need] == -1
      requires c == vec[..need] && Distinct(c)
      requires forall a :: 0 <= a < need ==> 0 <= c[a] < DATAS && !datas[c[a]].used
      modifies datas
      ensures Claimed(old(datas[..]), datas[..], c)
    {
      hide UsedCount;
      ghost var d := datas[..];
      var i := 0;
      while i < need
        invariant 0 <= i <= need
        invariant forall a :: 0 <= a < i ==> datas[c[a]] == d[c[a]].(used := true, next := vec[a + 1])
        invariant forall x :: 0 <= x < DATAS && x !in c[..i] ==> datas[x] == d[x]
        invariant UsedCount(datas[..]) == UsedCount(d) + i
      {
        assert c[i] !in c[..i];
        CountSet(datas[..], vec[i], datas[vec[i]].(used := true, next := vec[i + 1]));
        ghost var before := datas[..];
        datas[vec[i]] := datas[vec[i]].(used := true, next := vec[i + 1]);
        assert datas[..] == before[c[i] := datas[c[i]]];
        assert c[..i + 1] == c[..i] + [c[i]];
        i := i + 1;
      }
      forall j | 0 <= j < need
        ensures Joined(datas[..], c, j)
      {
        assert vec[j + 1] == if j + 1 < need then c[j + 1] else -1;
      }
      assert c[..need] == c;
    }

    /** Takes blocks for a value of sz characters and makes the next item for it (lines 75-99). Nothing changes
        when there are too few. */
    method Alloc(sz: int, key: string) returns (ok: bool, ghost c: seq<int>)
      requires Arrays() && 0 <= size < ITEMS && 0 <= sz <= MAX_VALUE
      modifies this`size, items, datas, vec
      ensures ok <==> UsedCount(old(datas[..])) + Blocks(sz) <= DATAS
      ensures !ok ==> size == old(size) && items[..] == old(items[..]) && datas[..] == old(datas[..])
      ensures ok ==> size == old(size) + 1 && items[..] == old(items[..])[old(size) := Item(HeadOf(c), sz, key)]
      ensures ok ==> Claimed(old(datas[..]), datas[..], c) && |c| == Blocks(sz)
    {
      hide Claimed, UsedCount;
      var need := Blocks(sz);
      c := [];
      ok := Collect(need);
      if !ok {
        return;
      }
      c := vec[..need];
      LinkChain(need, c);
      items[size] := Item(vec[0], sz, key);
      size := size + 1;
    }

    /** Takes item idx out: frees its chain and moves the last item into its place (lines 101-118). */
    method Free(idx: int)
      requires Valid() && 0 <= idx < size
      modifies this`size, this`es, this`chains, items, datas
      ensures Valid() && es == Dropped(old(es), idx)
    {
      hide Dropped, Laid, Unique, UsedCount, Total, Proper, Filled;
      ghost var c, d := chains[idx], datas[..];
      assert Slot(d, items[idx], c, es[idx]);
      var need := Blocks(items[idx].size);
      var x := items[idx].head;
      var i := 0;
      while i < need
        invariant 0 <= i <= need && need == |c|
        invariant x == if i < |c| then c[i] else -1
        invariant forall y :: 0 <= y < DATAS ==> datas[y] == if y in c[..i] then d[y].(used := false) else d[y]
        invariant UsedCount(datas[..]) == UsedCount(d) - i
        modifies datas
      {
        assert Joined(d, c, i) && c[i] !in c[..i];
        ghost var before := datas[..];
        CountSet(before, x, before[x].(used := false));
        datas[x] := datas[x].(used := false);
        assert datas[..] == before[x := datas[x]];
        assert c[..i + 1] == c[..i] + [c[i]];
        x := datas[x].next;
        i := i + 1;
      }
      if x != -1 {
        assert false;
      }
      assert c[..need] == c;
      ReleasedRepr(items[..], d, size, chains, es, idx, datas[..]);
      ghost var was := items[..];
      items[idx] := items[size - 1];
      assert items[..] == was[idx := was[size - 1]];
      size := size - 1;
      es, chains := Dropped(es, idx), Dropped(chains, idx);
    }

    /** strcpy into the write buffer. */
    method Stage(value: string)
      requires writebuf.Length == 33554432 && |value| <= MAX_VALUE
      modifies writebuf
      ensures writebuf[..|value|] == value && writebuf[|value|] == '\0'
    {
      forall i | 0 <= i < |value| {
        writebuf[i] := value[i];
      }
      writebuf[|value|] := '\0';
    }

    /** Writes the staged value into the chain of item idx, block by block (lines 137-151). */
    method Write(idx: int, ghost c: seq<int>, ghost v: string)
      requires Arrays() && 0 <= idx < ITEMS && items[idx].head == HeadOf(c) && items[idx].size == |v| && |c| == Blocks(|v|)
      requires Distinct(c) && forall j :: 0 <= j < |c| ==> Joined(datas[..], c, j)
      requires NulFree(v) && |v| <= MAX_VALUE && writebuf[..|v|] == v && writebuf[|v|] == '\0'
      modifies datas
      ensures Written(old(datas[..]), datas[..], c, v)
    {
      hide Blocks, StrNCpy, Pad, Chunk;
      ghost var d := datas[..];
      var cnt, need, x := 0, Blocks(items[idx].size), items[idx].head;
      while cnt < need
        invariant 0 <= cnt <= need && need == |c|
        invariant x == if cnt < |c| then c[cnt] else -1
        invariant forall j :: 0 <= j < cnt ==> 0 <= c[j] < DATAS && datas[c[j]] == d[c[j]].(data := Pad(Chunk(v, j)))
        invariant forall y :: 0 <= y < DATAS && y !in c[..cnt] ==> datas[y] == d[y]
      {
        assert Joined(d, c, cnt) && c[cnt] !in c[..cnt];
        WriteBlock(v, writebuf[..], cnt);
        assert writebuf[4096 * cnt..4096 * (cnt + 1)] == writebuf[..][4096 * cnt..4096 * (cnt + 1)];
        datas[x] := datas[x].(data := StrNCpy(writebuf[4096 * cnt..4096 * (cnt + 1)]));
        x := datas[x].next;
        assert c[..cnt + 1] == c[..cnt] + [c[cnt]];
        cnt := cnt + 1;
      }
      if x != -1 {
        assert false;
      }
      assert c[..need] == c;
    }

    method FillRow(cnt: int, row: string)
      requires 0 <= cnt < 8192 && |row| == 4096 && readbuf.Length == 33554432
      modifies readbuf
      ensures readbuf[4096 * cnt..4096 * (cnt + 1)] == row
      ensures readbuf[..4096 * cnt] == old(readbuf[..4096 * cnt])
    {
      forall t | 4096 * cnt <= t < 4096 * (cnt + 1) {
        readbuf[t] := row[t - 4096 * cnt];
      }
    }

    /** Reads the chain of item idx into the read buffer (lines 121-134). */
    method Read(idx: int)
      requires Valid() && 0 <= idx < size
      modifies readbuf
      ensures |es[idx].value| <= readbuf.Length && readbuf[..|es[idx].value|] == es[idx].value
    {
      hide StrNCpy, Laid, Unique, UsedCount, Total;
      ghost var c, d, v := chains[idx], datas[..], es[idx].value;
      assert Slot(d, items[idx], c, es[idx]);
      var cnt, need, x := 0, Blocks(items[idx].size), items[idx].head;
      while cnt < need
        invariant 0 <= cnt <= need && need == |c|
        invariant x == if cnt < |c| then c[cnt] else -1
        invariant readbuf[..Upto(|v|, cnt)] == v[..Upto(|v|, cnt)]
      {
        assert Joined(d, c, cnt) && Filled(d, c, v, cnt);
        ReadBlock(Chunk(v, cnt));
        FillRow(cnt, StrNCpy(datas[x].data));
        OneMore(v, readbuf[..], cnt);
        x := datas[x].next;
        cnt := cnt + 1;
      }
      if x != -1 {
        assert false;
      }
    }

    /** The item with the key, or -1 (lines 153-158). */
    method SearchKey(key: string) returns (i: int)
      requires Valid()
      ensures i == Find(es, key)
    {
      hide Laid, Unique, UsedCount, Total, Slot, Map;
      i := 0;
      while i < size
        invariant 0 <= i <= size
        invariant forall j :: 0 <= j < i ==> es[j].key != key
      {
        SlotLength(datas[..], items[i], chains[i], es[i]);
        if items[i].key == key {
          FindIs(es, key, i);
          return;
        }
        i := i + 1;
      }
      i := -1;
    }

    /** Replaces or adds an entry (lines 295-308; 161-172 the same when replaying). When the blocks run out, the
        old value of the key is already gone. */
    method Replace(key: string, value: string) returns (ok: bool)
      requires Valid() && Proper(Pair(key, value)) && HasSlot(es, Put(key, value))
      modifies this`size, this`es, this`chains, items, datas, vec, writebuf
      ensures Valid()
      ensures ok <==> HasBlocks(old(es), Put(key, value))
      ensures es == if ok then Step(old(es), Put(key, value)) else Without(old(es), key)
    {
      hide Slots, Laid, Unique, UsedCount, Total, Claimed, Written, Dropped, Map, Represents;
      var idx := SearchKey(key);
      ghost var es0 := es;
      UniqueEntries(items[..], datas[..], size, chains, es);
      WithoutMeaning(es, key);
      if idx >= 0 {
        Free(idx);
      }
      ghost var items1, datas1 := items[..], datas[..];
      FindMeaning(es, key);
      ghost var c;
      ok, c := Alloc(|value|, key);
      if !ok {
        return;
      }
      ghost var mid := datas[..];
      Stage(value);
      NewChain(datas1, mid, c);
      Write(size - 1, c, value);
      AddedRepr(items1, datas1, size - 1, chains, es, mid, datas[..], c, Pair(key, value));
      es, chains := es + [Pair(key, value)], chains + [c];
    }

    /** kvdb_put. */
    method KvdbPut(key: string, value: string) returns (ok: bool)
      requires Valid() && Proper(Pair(key, value)) && HasSlot(es, Put(key, value)) && log.Some?
      modifies this`size, this`es, this`chains, this`log, this`ops, items, datas, vec, writebuf
      ensures Valid() && log.Some?
      ensures ok <==> HasBlocks(old(es), Put(key, value))
      ensures ok <==> Total(Without(old(es), key)) + Blocks(|value|) <= DATAS
      ensures ok ==> log == Some(old(log.value) + "put " + key + " " + value + "\n")
      ensures ok ==> es == Step(old(es), Put(key, value)) && ops == old(ops) + [Put(key, value)]
      ensures !ok ==> es == Without(old(es), key) && log == old(log) && ops == old(ops)
      ensures old(Tracked()) && ok && Loggable(Put(key, value)) ==> Tracked()
      ensures old(OnDisk()) && !ok ==> OnDisk()
      ensures old(Tracked()) && !ok ==> (Recoverable() <==> key !in Map(old(es)))
    {
      hide Repr, Map, Represents, Print, PrintOp, Loggable, Total, Dropped, Unique, UsedCount, Slots, Laid;
      ghost var op := Put(key, value);
      UniqueEntries(items[..], datas[..], size, chains, es);
      FindMeaning(es, key);
      WithoutMeaning(es, key);
      ok := Replace(key, value);
      if !ok {
        return;
      }
      log := Some(log.value + "put " + key + " " + value + "\n");
      ghost var ops0 := ops;
      ops := ops + [op];
      PrintLast(old(log.value), ops0, op);
      if old(Tracked()) && Loggable(op) {
        RunAppend(start, ops0, op);
      }
    }

    /** Takes the entry of a key out (lines 335-346; 176-182 the same when replaying, without reading). */
    method Take(key: string, read: bool) returns (found: bool)
      requires Valid()
      modifies this`size, this`es, this`chains, items, datas, readbuf
      ensures Valid() && es == Without(old(es), key)
      ensures found <==> key in Map(old(es))
      ensures found && read ==>
        var v := Map(old(es))[key];
        |v| <= readbuf.Length && readbuf[..|v|] == v
    {
      hide Slots, Laid, Unique, UsedCount, Total, Dropped, Map, Represents;
      var idx := SearchKey(key);
      UniqueEntries(items[..], datas[..], size, chains, es);
      FindMeaning(es, key);
      if idx == -1 {
        return false;
      }
      if read {
        Read(idx);
      }
      Free(idx);
      found := true;
    }

    /** kvdb_get: hands out the value and deletes the key. */
    method KvdbGet(key: string) returns (found: bool)
      requires Valid() && log.Some?
      modifies this`size, this`es, this`chains, this`log, this`ops, items, datas, readbuf
      ensures Valid() && es == Step(old(es), Get(key)) && log.Some?
      ensures found <==> key in Map(old(es))
      ensures found ==>
        var v := Map(old(es))[key];
        |v| <= readbuf.Length && readbuf[..|v|] == v
      ensures found ==> log == Some(old(log.value) + "get " + key + " \n")
      ensures ops == if found then old(ops) + [Get(key)] else old(ops)
      ensures !found ==> es == old(es) && log == old(log) && (old(OnDisk()) ==> OnDisk())
      ensures old(Tracked()) && Loggable(Get(key)) ==> Tracked()
    {
      hide Repr, Map, Represents, Print, PrintOp, Total, Dropped, Unique;
      ghost var op := Get(key);
      UniqueEntries(items[..], datas[..], size, chains, es);
      FindMeaning(es, key);
      found := Take(key, true);
      if !found {
        return;
      }
      log := Some(log.value + "get " + key + " \n");
      ghost var ops0 := ops;
      ops := ops + [op];
      PrintLast(old(log.value), ops0, op);
      if old(Tracked()) && Loggable(op) {
        RunAppend(start, ops0, op);
      }
    }

    /** Replays the operations of a log (lines 185-201); false when the program exits. */
    method RedoOperations(lp: string) returns (ok: bool)
      requires Valid() && Replay(es, lp) != Unclear && NulFree(lp)
      modifies this`size, this`es, this`chains, items, datas, vec, readbuf, writebuf
      ensures Valid()
      ensures Replay(old(es), lp) == if ok then Rebuilt(es) else Stopped(es)
    {
      hide Repr, Parse, Map, HasSlot, Without, Total, Print;
      var rest := lp;
      while true
        invariant Valid() && Replay(es, rest) == Replay(old(es), lp) && NulFree(rest)
        decreases |rest|
      {
        match Parse(rest)
        case Finished =>
          return true;
        case Invalid =>
          return false;
        case Next(op, more) =>
          ParsedProper(rest, op, more);
          if op.Put? {
            var done := Replace(op.key, op.value);
            if !done {
              return false;
            }
          } else {
            var found := Take(op.key, false);
          }
          rest := more;
      }
    }

    /** fread of the whole structure. */
    method Load(m: Image)
      requires Arrays() && |m.items| == ITEMS && |m.datas| == DATAS
      modifies this`size, items, datas
      ensures size == m.size && items[..] == m.items && datas[..] == m.datas
    {
      size := m.size;
      forall i | 0 <= i < ITEMS {
        items[i] := m.items[i];
      }
      forall i | 0 <= i < DATAS {
        datas[i] := m.datas[i];
      }
    }

    /** kvdb_open with a copy and a log left behind (lines 212-232): loads the copy, replays the log, saves the
        result and empties the log. What was in memory does not matter. The copy stays as it was, so that another
        recovery would find the same map only if the operations have left it as it was at the start. */
    method Recover() returns (ok: bool)
      requires Arrays() && OnDisk()
      modifies this, items, datas, vec, readbuf, writebuf
      ensures ok && Valid() && es == Run(old(start), old(ops))
      ensures file == Some(Image(size, items[..], datas[..]))
      ensures copy == old(copy) && start == old(start) && startChains == old(startChains)
      ensures log == Some("") && ops == [] && OnDisk()
      ensures Recoverable() <==> Map(es) == Map(start)
    {
      hide Repr, Print, Replay, Parse, Map, HasSlot, HasBlocks, Step, Loggable;
      var lp := log.value;
      ReplayPrinted(start, ops);
      PrintedNulFree(ops);
      ImageSizes(copy.value, startChains, start);
      Load(copy.value);
      es, chains := start, startChains;
      ok := RedoOperations(lp);
      if !ok {
        return;
      }
      file := Some(Image(size, items[..], datas[..]));
      log := Some("");
      ops := [];
      EmptyRun(start);
    }

    /** kvdb_open without a log: loads the file and makes a fresh copy of it (lines 233-245), or writes both from
        the caller's structure (lines 246-259). */
    method OpenClean(ghost fileEs: seq<Pair>, ghost fileChains: seq<seq<int>>)
      requires Arrays() && (copy == None || log == None)
      requires file.Some? ==> ImageRepr(file.value, fileChains, fileEs)
      requires file.None? ==> Valid()
      modifies this, items, datas
      ensures Valid() && Tracked() && ops == [] && start == es
      ensures es == if old(file).Some? then fileEs else old(es)
      ensures file == copy == Some(Image(size, items[..], datas[..]))
    {
      hide Repr, Print, RunFits, Run;
      if file.Some? {
        ImageSizes(file.value, fileChains, fileEs);
        Load(file.value);
        es, chains := fileEs, fileChains;
      } else {
        file := Some(Image(size, items[..], datas[..]));
      }
      copy := file;
      log := Some("");
      start, startChains, ops := es, chains, [];
      EmptyRun(start);
    }

    /** kvdb_close: saves the structure and removes the copy and the log (lines 271-288). */
    method Close()
      requires Valid()
      modifies this`file, this`copy, this`log
      ensures Valid() && es == old(es) && file.Some? && ImageRepr(file.value, chains, es)
      ensures copy == None && log == None
    {
      hide Repr;
      file := Some(Image(size, items[..], datas[..]));
      copy, log := None, None;
    }
  }

  /** Entries of two keys, the second of which is put anew. */
  lemma TwoKeys(j: string, a: string, k: string, b: string)
    requires j != k
    ensures var es1 := [Pair(j, a)];
      && Step([], Put(j, a)) == es1 && Step(es1, Put(k, b)) == es1 + [Pair(k, b)]
      && Without([], j) == [] && Without(es1, k) == es1 && Without(es1 + [Pair(k, b)], k) == es1
      && Total([]) == 0 && Total(es1) == Blocks(|a|)
      && Find(es1, k) < 0 && Find(es1 + [Pair(k, b)], k) == 1
  {
    var es2 := [Pair(j, a), Pair(k, b)];
    TotalOne(Pair(j, a));
    assert [Pair(j, a)][1..] == [];
    FindIs([Pair(j, a)] + [Pair(k, b)], k, 1);
    assert es2[..1] == [Pair(j, a)];
  }

  /** A new store with two keys. */
  method TwoPuts(j: string, k: string, large: string, small: string) returns (s: Store)
    requires j != k && Loggable(Put(j, large)) && Loggable(Put(k, small))
    requires Blocks(|large|) + Blocks(|small|) <= DATAS
    ensures fresh(s) && fresh(s.items) && fresh(s.datas) && fresh(s.vec) && fresh(s.readbuf) && fresh(s.writebuf)
    ensures s.Valid() && s.Tracked() && s.es == [Pair(j, large)] + [Pair(k, small)]
  {
    hide Repr, Map, Represents, Print, PrintOp, Loggable, Unique, Run, RunFits, ImageRepr, Without, Find, Blocks, Step, Total;
    s := new Store();
    s.OpenClean([], []);
    TwoKeys(j, large, k, small);
    LoggableProper(Put(j, large));
    LoggableProper(Put(k, small));
    var first := s.KvdbPut(j, large);
    var second := s.KvdbPut(k, small);
  }

  /** A put for which the blocks do not suffice returns an error and loses the old value: a get no longer finds the
      key. As nothing is logged the key is back, with its old value, when the program has to recover. */
  method FailedPut(j: string, k: string, large: string, small: string, larger: string)
    returns (ok: bool, found: bool, again: bool)
    requires j != k && Loggable(Put(j, large)) && Loggable(Put(k, small)) && Proper(Pair(k, larger))
    requires Blocks(|large|) + Blocks(|small|) <= DATAS < Blocks(|large|) + Blocks(|larger|)
    ensures !ok && !found && again
  {
    hide Repr, Map, Represents, Print, PrintOp, Loggable, Unique, Run, RunFits, ImageRepr, Without, Find, Blocks, Step, Total;
    var s := TwoPuts(j, k, large, small);
    TwoKeys(j, large, k, small);
    UniqueEntries(s.items[..], s.datas[..], s.size, s.chains, s.es);
    FindMeaning(s.es, k);
    ok := s.KvdbPut(k, larger);
    UniqueEntries(s.items[..], s.datas[..], s.size, s.chains, s.es);
    FindMeaning(s.es, k);
    found := s.KvdbGet(k);
    var recovered := s.Recover();
    again := s.KvdbGet(k);
  }

  /** After a clean open and a put, a first recovery has the key and a second one has lost it. */
  method RecoverTwice(k: string, v: string) returns (size1: int, size2: int, found: bool)
    requires Loggable(Put(k, v))
    ensures size1 == 1 && size2 == 0 && !found
  {
    hide Repr, Map, Represents, Print, PrintOp, Loggable, Unique, RunFits, ImageRepr, Without, Find, Blocks, Total;
    var s := new Store();
    s.OpenClean([], []);
    LoggableProper(Put(k, v));
    TwoKeys(k, v, k + "'", "");
    var ok := s.KvdbPut(k, v);
    var first := s.Recover();
    UniqueEntries(s.items[..], s.datas[..], s.size, s.chains, s.es);
    size1 := s.size;
    var second := s.Recover();
    UniqueEntries(s.items[..], s.datas[..], s.size, s.chains, s.es);
    size2 := s.size;
    FindMeaning(s.es, k);
    found := s.KvdbGet(k);
  }

  lemma LoggableProper(op: Op)
    requires Loggable(op) && op.Put?
    ensures Proper(Pair(op.key, op.value)) && Blocks(|op.value|) <= DATAS
  {
  }

  lemma NoneUsed(datas: seq<Node>)
    requires forall x :: 0 <= x < |datas| ==> !datas[x].used
    ensures UsedCount(datas) == 0
  {
  }

  /** One more block read extends what has been read of the value. */
  lemma OneMore(v: string, buf: string, j: nat)
    requires j < Blocks(|v|) && 4096 * (j + 1) <= |buf|
    requires buf[..4096 * j] == v[..4096 * j] && buf[4096 * j..4096 * (j + 1)] == Pad(Chunk(v, j))
    ensures buf[..Upto(|v|, j + 1)] == v[..Upto(|v|, j + 1)]
  {
    var a, b := 4096 * j, Upto(|v|, j + 1);
    assert buf[a..b] == buf[a..4096 * (j + 1)][..b - a] == Chunk(v, j);
    assert buf[..b] == buf[..a] + buf[a..b];
    assert v[..b] == v[..a] + v[a..b];
  }

  lemma EmptyRun(es: seq<Pair>)
    ensures Print([]) == "" && RunFits(es, []) && Run(es, []) == es
  {
  }

  lemma ImageSizes(m: Image, chains: seq<seq<int>>, es: seq<Pair>)
    requires ImageRepr(m, chains, es)
    ensures |m.items| == ITEMS && |m.datas| == DATAS && m.size == |es|
  {
  }

  lemma UniqueEntries(items: seq<Item>, datas: seq<Node>, size: int, chains: seq<seq<int>>, es: seq<Pair>)
    requires Repr(items, datas, size, chains, es)
    ensures Unique(es) && size == |es| && UsedCount(datas) == Total(es)
  {
  }

  lemma NewChain(datas: seq<Node>, datas': seq<Node>, c: seq<int>)
    requires Claimed(datas, datas', c)
    ensures Distinct(c) && |datas'| == |datas| && forall j :: 0 <= j < |c| ==> Joined(datas', c, j)
  {
  }

  lemma PrintLast(text: string, ops: seq<Op>, op: Op)
    ensures Print(ops + [op]) == Print(ops) + PrintOp(op)
    ensures op.Put? ==> text + "put " + op.key + " " + op.value + "\n" == text + PrintOp(op)
    ensures op.Get? ==> text + "get " + op.key + " \n" == text + PrintOp(op)
  {
    assert (ops + [op])[..|ops|] == ops;
    match op
    case Put(k, v) =>
      Regroup(text, "put ", k, " " , v + "\n");
      Regroup(text, "put ", k, " " , v);
      Regroup("put ", k, " " , v, "\n");
      assert text + "put " + k + " " + v + "\n" == text + "put " + k + " " + (v + "\n");
      assert ("put " + k + " " + v) + "\n" == "put " + (k + (" " + (v + "\n")));
    case Get(k) =>
  }

  lemma {:induction false} PrintedNulFree(ops: seq<Op>)
    requires forall i :: 0 <= i < |ops| ==> Loggable(ops[i])
    ensures NulFree(Print(ops))
  {
    if ops != [] {
      var last := ops[|ops| - 1];
      PrintedNulFree(ops[..|ops| - 1]);
      assert NulFree("put ") && NulFree("get ") && NulFree(" ") && NulFree("\n") && NulFree(" \n");
      assert NulFree(PrintOp(last));
    }
  }

  /** What replaying passes on is a key and a value the store takes. */
  lemma ParsedProper(s: string, op: Op, rest: string)
    requires Parse(s) == Next(op, rest) && NulFree(s)
    ensures NulFree(op.key) && |op.key| < KEY_LENGTH && NulFree(rest) && (op.Put? ==> NulFree(op.value))
  {
    SkipSuffix(s);
    var s1 := SkipSpace(s);
    var s2 := s1[|Word(s1, 3)|..];
    SkipSuffix(s2);
    var s3 := SkipSpace(s2);
    SkipSuffix(s3[|Word(s3, |s3|)|..]);
  }

  lemma {:induction false} SkipSuffix(s: string)
    requires NulFree(s)
    ensures NulFree(SkipSpace(s))
  {
    if s != [] && IsSpace(s[0]) {
      SkipSuffix(s[1..]);
    }
  }
}
