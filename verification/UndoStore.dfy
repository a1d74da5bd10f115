/** The two-ended undo store of the text editor: one record array and one character array, each shared by the
    undo stack growing up and the redo stack growing down. It is proved against the documents of EditHistory. */
module UndoStore {
  import opened EditHistory

  const STATES := 99
  const CHARS := 999

  /** Nothing to undo or redo; one entry undone or redone; given up when making room took the last redo entry
      (line 1194); or undefined, because the entry to redo lies outside the text. */
  datatype Outcome = Nothing | Done | Stuck | Outside

  /** `charStorage` is -1 when the record stores no characters. */
  datatype Record = Record(where: int, insertLength: int, deleteLength: int, charStorage: int)

  // --------------------------------------------------------------------------
  // How records and characters represent entries
  // --------------------------------------------------------------------------

  /** All stored characters, in record order. */
  ghost function Flat(es: seq<Entry>): Text {
    if es == [] then [] else es[0].ins + Flat(es[1..])
  }

  ghost predicate Shows(r: Record, e: Entry, at: int) {
    && r.where == e.where && r.insertLength == |e.ins| && r.deleteLength == e.del
    && r.charStorage == if e.ins == [] then -1 else at
  }

  /** Records show the entries, their characters lying end to end from `base` on. */
  ghost predicate Stored(rec: seq<Record>, base: int, es: seq<Entry>) {
    && |rec| == |es|
    && forall i :: 0 <= i < |es| ==> Shows(rec[i], es[i], base + |Flat(es[..i])|)
  }

  /** The lower ends of both arrays hold the undo stack. */
  ghost predicate UndoSide(rec: seq<Record>, chars: Text, n: int, cp: int, es: seq<Entry>) {
    && 0 <= n <= |rec| && 0 <= cp <= |chars|
    && Stored(rec[..n], 0, es) && chars[..cp] == Flat(es)
  }

  /** The upper ends hold the redo stack. */
  ghost predicate RedoSide(rec: seq<Record>, chars: Text, rp: int, rcp: int, es: seq<Entry>) {
    && 0 <= rp <= |rec| && 0 <= rcp <= |chars|
    && Stored(rec[rp..], rcp, es) && chars[rcp..] == Flat(es)
  }

  /** Room to redo everything: redoing hands the characters back to the undo side step by step. */
  ghost predicate Room(redo: seq<Entry>, ucp: int, rcp: int)
    decreases |redo|
  {
    && ucp <= rcp
    && (redo != [] ==>
          ucp + redo[0].del <= rcp && Room(redo[1..], ucp + redo[0].del, rcp + |redo[0].ins|))
  }

  lemma {:induction false} FlatConcat(a: seq<Entry>, b: seq<Entry>)
    ensures Flat(a + b) == Flat(a) + Flat(b)
  {
    if a == [] {
      assert a + b == b;
    } else {
      assert (a + b)[1..] == a[1..] + b;
      FlatConcat(a[1..], b);
    }
  }

  lemma FlatSingle(e: Entry)
    ensures Flat([e]) == e.ins
  {
    assert [e][1..] == [];
  }

  lemma StoredAppend(rec: seq<Record>, base: int, es: seq<Entry>, r: Record, e: Entry)
    requires Stored(rec, base, es) && Shows(r, e, base + |Flat(es)|)
    ensures Stored(rec + [r], base, es + [e])
  {
    var es' := es + [e];
    assert es'[..|es|] == es;
    forall i | 0 <= i < |es'|
      ensures Shows((rec + [r])[i], es'[i], base + |Flat(es'[..i])|)
    {
      if i < |es| {
        assert es'[..i] == es[..i];
      }
    }
  }

  lemma StoredPrefix(rec: seq<Record>, base: int, es: seq<Entry>, n: nat)
    requires Stored(rec, base, es) && n <= |es|
    ensures Stored(rec[..n], base, es[..n])
  {
    forall i | 0 <= i < n
      ensures Shows(rec[..n][i], es[..n][i], base + |Flat(es[..n][..i])|)
    {
      assert es[..n][..i] == es[..i];
    }
  }

  lemma StoredPrepend(rec: seq<Record>, base: int, es: seq<Entry>, r: Record, e: Entry)
    requires Stored(rec, base + |e.ins|, es) && Shows(r, e, base)
    ensures Stored([r] + rec, base, [e] + es)
  {
    var es' := [e] + es;
    forall i | 0 <= i < |es'|
      ensures Shows(([r] + rec)[i], es'[i], base + |Flat(es'[..i])|)
    {
      if i > 0 {
        assert es'[..i] == [e] + es[..i - 1];
        FlatConcat([e], es[..i - 1]);
        FlatSingle(e);
      }
    }
  }

  function Shifted(r: Record, n: int): Record {
    if r.charStorage >= 0 then r.(charStorage := r.charStorage + n) else r
  }

  /** Without its first entry the list starts that many characters further on. */
  lemma StoredTail(rec: seq<Record>, base: int, es: seq<Entry>)
    requires Stored(rec, base, es) && es != [] && base >= 0
    ensures Stored(rec[1..], base + |es[0].ins|, es[1..])
    ensures Flat(es) == es[0].ins + Flat(es[1..])
  {
    forall i | 0 <= i < |es| - 1
      ensures Shows(rec[1..][i], es[1..][i], base + |es[0].ins| + |Flat(es[1..][..i])|)
    {
      assert Shows(rec[i + 1], es[i + 1], base + |Flat(es[..i + 1])|);
      assert es[..i + 1] == [es[0]] + es[1..][..i];
      FlatConcat([es[0]], es[1..][..i]);
      FlatSingle(es[0]);
    }
  }

  /** Moving all characters by n moves every storage index by n. */
  lemma StoredShift(rec: seq<Record>, rec': seq<Record>, base: int, es: seq<Entry>, n: int)
    requires Stored(rec, base, es) && base >= 0 && base + n >= 0 && |rec'| == |rec|
    requires forall i :: 0 <= i < |rec| ==> rec'[i] == Shifted(rec[i], n)
    ensures Stored(rec', base + n, es)
  {
    forall i | 0 <= i < |es|
      ensures Shows(rec'[i], es[i], base + n + |Flat(es[..i])|)
    {
      assert Shows(rec[i], es[i], base + |Flat(es[..i])|);
    }
  }

  lemma FlatLast(es: seq<Entry>)
    requires es != []
    ensures Flat(es) == Flat(es[..|es| - 1]) + es[|es| - 1].ins
  {
    var n := |es| - 1;
    assert es == es[..n] + [es[n]];
    FlatConcat(es[..n], [es[n]]);
    FlatSingle(es[n]);
  }

  /** Dropping the deepest redo entry, or moving the redo characters up, leaves room. */
  lemma {:induction false} RoomKept(redo: seq<Entry>, ucp: int, rcp: int, k: nat, ucp': int, rcp': int)
    requires Room(redo, ucp, rcp) && k <= |redo| && ucp' <= ucp && rcp <= rcp'
    ensures Room(redo[..k], ucp', rcp')
    decreases |redo|
  {
    if k > 0 {
      assert redo[..k][1..] == redo[1..][..k - 1];
      RoomKept(redo[1..], ucp + redo[0].del, rcp + |redo[0].ins|, k - 1, ucp' + redo[0].del, rcp' + |redo[0].ins|);
    }
  }

  // --------------------------------------------------------------------------
  // How much is forgotten
  // --------------------------------------------------------------------------

  /** The undo entries that survive making room for `num` more characters. */
  ghost function Shrink(es: seq<Entry>, num: int): seq<Entry>
    requires 0 <= num <= CHARS
    decreases |es|
  {
    if |Flat(es)| + num > CHARS then Shrink(es[1..], num) else es
  }

  ghost function Trim(es: seq<Entry>, num: int): seq<Entry>
    requires 0 <= num
  {
    if num > CHARS then [] else Shrink(if |es| == STATES then es[1..] else es, num)
  }

  /** One discard on the way, and there is something to discard. */
  lemma ShrinkOnce(es: seq<Entry>, num: int)
    requires 0 <= num <= CHARS && |Flat(es)| + num > CHARS
    ensures es != [] && Shrink(es, num) == Shrink(es[1..], num)
  {
  }

  /** Only the oldest entries go, none without need, and what is left fits. */
  lemma {:induction false} ShrinkIsSuffix(es: seq<Entry>, num: int) returns (k: nat)
    requires 0 <= num <= CHARS
    ensures k <= |es| && Shrink(es, num) == es[k..]
    ensures |Flat(es[k..])| + num <= CHARS
    ensures forall j :: 0 <= j < k ==> |Flat(es[j..])| + num > CHARS
    decreases |es|
  {
    if |Flat(es)| + num > CHARS {
      var m := ShrinkIsSuffix(es[1..], num);
      k := m + 1;
      assert es[1..][m..] == es[k..];
      forall j | 0 <= j < k
        ensures |Flat(es[j..])| + num > CHARS
      {
        if j == 0 {
          assert es[0..] == es;
        } else {
          assert es[1..][j - 1..] == es[j..];
        }
      }
    } else {
      k := 0;
      assert es[0..] == es;
    }
  }

  /** What making room keeps: the longest suffix beside which there is room, or nothing when there never is. */
  lemma TrimIsSuffix(es: seq<Entry>, num: int) returns (k: nat)
    requires 0 <= num && |es| <= STATES
    ensures k <= |es| && Trim(es, num) == es[k..]
    ensures |Trim(es, num)| < STATES && (num > CHARS ==> Trim(es, num) == [])
    ensures num <= CHARS ==> |Flat(Trim(es, num))| + num <= CHARS
    ensures num <= CHARS ==> forall j :: 0 <= j < k ==> |es[j..]| >= STATES || |Flat(es[j..])| + num > CHARS
    ensures |es| < STATES && |Flat(es)| + num <= CHARS ==> k == 0
  {
    if num > CHARS {
      k := |es|;
    } else {
      var base := if |es| == STATES then es[1..] else es;
      var m := ShrinkIsSuffix(base, num);
      k := if |es| == STATES then m + 1 else m;
      assert base[m..] == es[k..];
      assert es[0..] == es;
      forall j | 0 <= j < k
        ensures |es[j..]| >= STATES || |Flat(es[j..])| + num > CHARS
      {
        if |es| < STATES {
          assert base[j..] == es[j..];
        } else if j > 0 {
          assert base[j - 1..] == es[j..];
        }
      }
    }
  }

  /** The newest entries of es. */
  ghost predicate Suffix(a: seq<Entry>, es: seq<Entry>) {
    |a| <= |es| && a == es[|es| - |a|..]
  }

  lemma NothingLeft(es: seq<Entry>)
    ensures Suffix([], es)
  {
  }

  /** No longer suffix leaves a record and the characters free. */
  lemma TrimIsLongest(es: seq<Entry>, num: int)
    requires 0 <= num <= CHARS && |es| <= STATES
    ensures Suffix(Trim(es, num), es) && |Trim(es, num)| < STATES && |Flat(Trim(es, num))| + num <= CHARS
    ensures forall a :: Suffix(a, es) && |a| > |Trim(es, num)| ==> |a| >= STATES || |Flat(a)| + num > CHARS
  {
    hide Trim, Flat;
    var k := TrimIsSuffix(es, num);
    forall a | Suffix(a, es) && |a| > |Trim(es, num)|
      ensures |a| >= STATES || |Flat(a)| + num > CHARS
    {
      assert a == es[|es| - |a|..];
    }
  }

  /** The document after a recorded edit: room is made at the old end of the undo list, and an edit whose
      removed characters cannot be stored at all takes the whole list with it. */
  ghost function Recorded(d: Doc, e: Entry): Doc
    requires Applicable(d.text, e)
  {
    if e.del > CHARS then Doc(Apply(d.text, e), [], [])
    else Edit(Doc(d.text, Trim(d.undo, e.del), []), e)
  }

  /** The newest entry removes characters that cannot be kept for redo beside the undo characters (line 1182). */
  ghost predicate DropsChars(d: Doc) {
    d.undo != [] &&
    var e := d.undo[|d.undo| - 1];
    e.del != 0 && |Flat(d.undo)| + e.del >= CHARS
  }

  /** The redo entries kept when `need` characters are to be saved beside ucp undo characters. */
  ghost function KeptBeside(redo: seq<Entry>, ucp: int, need: int): seq<Entry> {
    if need == 0 || ucp + need >= CHARS then redo else ShrinkRedo(redo, ucp, need)
  }

  ghost function KeptRedo(d: Doc): seq<Entry>
    requires d.undo != []
  {
    KeptBeside(d.redo, |Flat(d.undo)|, d.undo[|d.undo| - 1].del)
  }

  /** The newest entry removes characters to be kept for redo, but they do not fit between the undo characters and
      those of the next redo entry alone. */
  ghost predicate Squeezed(d: Doc) {
    d.undo != [] && d.redo != [] &&
    var (del, used) := (d.undo[|d.undo| - 1].del, |Flat(d.undo)|);
    del != 0 && used + del < CHARS && used + del + |d.redo[0].ins| > CHARS
  }

  ghost function UndoOutcome(d: Doc): Outcome {
    if d.undo == [] then Nothing else if Squeezed(d) then Stuck else Done
  }

  ghost function RedoOutcome(d: Doc): Outcome {
    if d.redo == [] then Nothing else if Applicable(d.text, d.redo[0]) then Done else Outside
  }

  lemma OutsideIsLost(t: Text, redo: seq<Entry>)
    requires redo != [] && !Applicable(t, redo[0])
    ensures !Redoable(t, redo)
  {
  }

  /** The discard loop takes the last redo entry exactly when the document is squeezed. */
  lemma StuckExactly(d: Doc)
    requires d.undo != []
    ensures KeptRedo(d) == [] && d.redo != [] <==> UndoOutcome(d) == Stuck
    ensures UndoOutcome(d) == Stuck <==>
      var (del, used) := (d.undo[|d.undo| - 1].del, |Flat(d.undo)|);
      d.redo != [] && del != 0 && used + del < CHARS && used + del + |d.redo[0].ins| > CHARS
  {
    hide Flat, KeptRedo;
    KeptNothing(d);
  }

  lemma KeptNothing(d: Doc)
    requires d.undo != []
    ensures KeptRedo(d) == [] && d.redo != [] <==> Squeezed(d)
  {
    hide ShrinkRedo;
    var del, used := d.undo[|d.undo| - 1].del, |Flat(d.undo)|;
    if d.redo == [] {
      return;
    }
    FirstFlat(d.redo, 1);
    if del != 0 && used + del < CHARS {
      var k := KeptIsPrefix(d.redo, used, del);
      if k > 0 {
        FirstFlat(d.redo, k);
      }
    }
  }

  lemma FirstFlat(es: seq<Entry>, k: nat)
    requires 0 < k <= |es|
    ensures |es[0].ins| <= |Flat(es[..k])|
    ensures k == 1 ==> Flat(es[..k]) == es[0].ins
  {
    if k == 1 {
      FlatSingle(es[0]);
      assert es[..1] == [es[0]];
    }
  }

  /** The document after an undo. Unless characters are dropped, it is the plain undo, at most with the oldest
      redo entries forgotten. */
  ghost function Undone(d: Doc): Doc
    requires Undoable(d.text, d.undo)
  {
    if d.undo == [] then d
    else
      var e := d.undo[|d.undo| - 1];
      if DropsChars(d) then
        Doc(Apply(d.text, e), d.undo[..|d.undo| - 1], [Entry(e.where, |e.ins|, [])] + d.redo)
      else Undo(Doc(d.text, d.undo, KeptRedo(d)))
  }

  lemma RecordedSound(d: Doc, e: Entry)
    requires Undoable(d.text, d.undo) && |d.undo| <= STATES && Applicable(d.text, e)
    ensures Sound(Recorded(d, e))
  {
    if e.del <= CHARS {
      var k := TrimIsSuffix(d.undo, e.del);
      ForgetOldest(d.text, d.undo, k);
      EditSound(Doc(d.text, Trim(d.undo, e.del), []), e);
    }
  }

  /** While everything fits, recording an edit is a plain history step. */
  lemma RecordedIsEdit(d: Doc, e: Entry)
    requires Applicable(d.text, e) && |d.undo| < STATES && |Flat(d.undo)| + e.del <= CHARS
    ensures Recorded(d, e) == Edit(d, e)
  {
    var k := TrimIsSuffix(d.undo, e.del);
    assert d.undo[0..] == d.undo;
  }

  /** The redo entries that survive making room for `need` characters beside `ucp` undo characters. */
  ghost function ShrinkRedo(redo: seq<Entry>, ucp: int, need: int): seq<Entry>
    decreases |redo|
  {
    if redo != [] && ucp + need + |Flat(redo)| > CHARS then ShrinkRedo(redo[..|redo| - 1], ucp, need) else redo
  }

  /** Storing into a 16-bit length field. */
  function Short(x: int): int {
    (x + 0x8000) % 0x10000 - 0x8000
  }

  lemma ShortIs(x: int)
    ensures -0x8000 <= Short(x) < 0x8000 && (Short(x) == x <==> -0x8000 <= x < 0x8000)
    ensures (x - Short(x)) % 0x10000 == 0
  {
  }

  /** The document after a recorded edit whose record keeps the low 16 bits of the new length only. */
  ghost function RecordedShort(d: Doc, e: Entry): Doc
    requires Applicable(d.text, e)
  {
    Doc(Apply(d.text, e), if e.del > CHARS then [] else Trim(d.undo, e.del) + [ShortInverse(d.text, e)], [])
  }

  function ShortInverse(t: Text, e: Entry): Entry
    requires Applicable(t, e)
  {
    Inverse(t, e).(del := Short(|e.ins|))
  }

  /** The record takes the edit back exactly when the new length fits 16 bits. */
  lemma ShortInverseUndoes(t: Text, e: Entry)
    requires Applicable(t, e)
    ensures |e.ins| <= 0x7fff <==>
      Applicable(Apply(t, e), ShortInverse(t, e)) && Apply(Apply(t, e), ShortInverse(t, e)) == t
    ensures |e.ins| <= 0x7fff ==> ShortInverse(t, e) == Inverse(t, e)
  {
    hide Short;
    ShortIs(|e.ins|);
    InverseUndoes(t, e);
  }

  lemma AppendedUndo(rec0: seq<Record>, chars0: Text, es: seq<Entry>, rec: seq<Record>, chars: Text, n: int, cp: int, e: Entry)
    requires UndoSide(rec0, chars0, n, cp, es) && |rec| == |rec0| && |chars| == |chars0|
    requires n < |rec| && cp + |e.ins| <= |chars|
    requires rec[..n] == rec0[..n] && chars[..cp] == chars0[..cp]
    requires Shows(rec[n], e, cp) && chars[cp..cp + |e.ins|] == e.ins
    ensures UndoSide(rec, chars, n + 1, cp + |e.ins|, es + [e])
  {
    StoredAppend(rec[..n], 0, es, rec[n], e);
    assert rec[..n + 1] == rec[..n] + [rec[n]];
    FlatConcat(es, [e]);
    FlatSingle(e);
    assert chars[..cp + |e.ins|] == chars[..cp] + chars[cp..cp + |e.ins|];
  }

  // --------------------------------------------------------------------------
  // The store
  // --------------------------------------------------------------------------

  class Editor {
    const rec: array<Record>
    const chars: array<int>
    var undoPoint: int
    var redoPoint: int
    var undoCharPoint: int
    var redoCharPoint: int
    var text: Text
    var cursor: int

    ghost var undo: seq<Entry>
    ghost var redo: seq<Entry>
    /** The characters of an undone entry were dropped (line 1184), so the redo list no longer fits the text. */
    ghost var lost: bool

    ghost predicate Sizes()
      reads this
    {
      && rec.Length == STATES && chars.Length == CHARS
      && 0 <= undoPoint <= redoPoint <= STATES
      && 0 <= undoCharPoint <= redoCharPoint <= CHARS
    }

    /** Both stacks are well-formed: contiguous, in order, and apart. */
    ghost predicate Core()
      reads this, rec, chars
    {
      && Sizes()
      && UndoSide(rec[..], chars[..], undoPoint, undoCharPoint, undo)
      && RedoSide(rec[..], chars[..], redoPoint, redoCharPoint, redo)
    }

    ghost predicate Valid()
      reads this, rec, chars
    {
      && Core()
      && Undoable(text, undo)
      && Room(redo, undoCharPoint, redoCharPoint)
      && (!lost ==> Redoable(text, redo))
    }

    ghost function Content(): Doc
      reads this
    {
      Doc(text, undo, redo)
    }

    constructor (t: Text)
      ensures Valid() && !lost && Content() == Doc(t, [], []) && fresh(rec) && fresh(chars)
    {
      rec := new Record[STATES];
      chars := new int[CHARS];
      undoPoint, undoCharPoint, redoPoint, redoCharPoint := 0, 0, STATES, CHARS;
      text, cursor := t, 0;
      undo, redo, lost := [], [], false;
    }

    method FlushRedo()
      requires Sizes() && UndoSide(rec[..], chars[..], undoPoint, undoCharPoint, undo)
      modifies this`redoPoint, this`redoCharPoint, this`redo, this`lost
      ensures Core() && redo == [] && !lost && redoPoint == STATES && redoCharPoint == CHARS
    {
      redoPoint, redoCharPoint := STATES, CHARS;
      redo, lost := [], false;
    }

    /** Adds n to the storage index of the records lo <= i < hi that store characters. */
    method ShiftStorage(lo: int, hi: int, n: int)
      requires 0 <= lo <= hi <= rec.Length
      modifies rec
      ensures forall i :: 0 <= i < rec.Length ==>
        rec[i] == if lo <= i < hi then Shifted(old(rec[i]), n) else old(rec[i])
    {
      var i := lo;
      while i < hi
        invariant lo <= i <= hi
        invariant forall j :: 0 <= j < rec.Length ==>
          rec[j] == if lo <= j < i then Shifted(old(rec[j]), n) else old(rec[j])
      {
        if rec[i].charStorage >= 0 {
          rec[i] := rec[i].(charStorage := rec[i].charStorage + n);
        }
        i := i + 1;
      }
    }

    /** memmove of `count` records. */
    method MoveRecords(to: int, from: int, count: int)
      requires 0 <= to && 0 <= from && 0 <= count && to + count <= rec.Length && from + count <= rec.Length
      modifies rec
      ensures forall i :: to <= i < to + count ==> rec[i] == old(rec[i - to + from])
      ensures forall i :: 0 <= i < rec.Length && !(to <= i < to + count) ==> rec[i] == old(rec[i])
    {
      forall i | to <= i < to + count {
        rec[i] := rec[i - to + from];
      }
    }

    /** memmove of `count` characters. */
    method MoveChars(to: int, from: int, count: int)
      requires 0 <= to && 0 <= from && 0 <= count && to + count <= chars.Length && from + count <= chars.Length
      modifies chars
      ensures forall i :: to <= i < to + count ==> chars[i] == old(chars[i - to + from])
      ensures forall i :: 0 <= i < chars.Length && !(to <= i < to + count) ==> chars[i] == old(chars[i])
    {
      forall i | to <= i < to + count {
        chars[i] := chars[i - to + from];
      }
    }

    /** Deletes the first n stored characters (lines 1073-1081). */
    method CloseGap(n: int)
      requires Sizes() && 0 <= n <= undoCharPoint
      modifies this`undoCharPoint, rec, chars
      ensures undoCharPoint == old(undoCharPoint) - n
      ensures chars[..undoCharPoint] == old(chars[n..undoCharPoint]) && chars[undoCharPoint..] == old(chars[..])[undoCharPoint..]
      ensures forall i :: 0 <= i < rec.Length ==> rec[i] == if i < undoPoint then Shifted(old(rec[i]), -n) else old(rec[i])
    {
      undoCharPoint := undoCharPoint - n;
      MoveChars(0, n, undoCharPoint);
      ShiftStorage(0, undoPoint, -n);
    }

    /** Discards the oldest undo entry (lines 1069-1085). */
    method DiscardUndo()
      requires Sizes() && UndoSide(rec[..], chars[..], undoPoint, undoCharPoint, undo)
      modifies this`undoPoint, this`undoCharPoint, this`undo, rec, chars
      ensures Sizes() && UndoSide(rec[..], chars[..], undoPoint, undoCharPoint, undo)
      ensures undo == if old(undo) == [] then [] else old(undo)[1..]
      ensures undoPoint <= old(undoPoint) && undoCharPoint <= old(undoCharPoint)
    {
      hide Stored, Flat, UndoSide;
      UndoSizes(rec[..], chars[..], undoPoint, undoCharPoint, undo);
      if undoPoint > 0 {
        ghost var rec0, chars0 := rec[..], chars[..];
        FirstUndo(rec0, chars0, undoPoint, undoCharPoint, undo);
        if rec[0].charStorage >= 0 {
          CloseGap(rec[0].insertLength);
        }
        ghost var rec1 := rec[..];
        undoPoint := undoPoint - 1;
        DropFirst(undoPoint);
        DiscardedUndo(rec0, chars0, undo, rec1, rec[..], chars[..], undoPoint + 1, old(undoCharPoint), undoPoint, undoCharPoint);
        undo := undo[1..];
      }
    }

    /** Slides the first records down over record 0. */
    method DropFirst(n: int)
      requires 0 <= n < rec.Length
      modifies rec
      ensures rec[..n] == old(rec[1..n + 1]) && rec[n + 1..] == old(rec[n + 1..])
    {
      MoveRecords(0, 1, n);
    }

    /** Deletes the last n stored characters (lines 1096-1104). */
    method CloseTop(n: int)
      requires rec.Length == STATES && chars.Length == CHARS && 1 <= redoPoint < STATES && 0 <= redoCharPoint
      requires 0 <= n && redoCharPoint + n <= CHARS
      modifies this`redoCharPoint, rec, chars
      ensures redoCharPoint == old(redoCharPoint) + n
      ensures chars[redoCharPoint..] == old(chars[redoCharPoint..CHARS - n])
      ensures forall i :: 0 <= i < redoCharPoint ==> chars[i] == old(chars[i])
      ensures forall i :: 0 <= i < STATES ==>
        rec[i] == if redoPoint <= i < STATES - 1 then Shifted(old(rec[i]), n) else old(rec[i])
    {
      redoCharPoint := redoCharPoint + n;
      MoveChars(redoCharPoint, redoCharPoint - n, CHARS - redoCharPoint);
      ShiftStorage(redoPoint, STATES - 1, n);
    }

    /** Discards the oldest redo entry (lines 1091-1109). The record below the redo stack, which undo has just
        filled in, moves along with it. */
    method DiscardRedo()
      requires rec.Length == STATES && chars.Length == CHARS && 1 <= redoPoint <= STATES && 0 <= redoCharPoint <= CHARS
      requires RedoSide(rec[..], chars[..], redoPoint, redoCharPoint, redo)
      modifies this`redoPoint, this`redoCharPoint, this`redo, rec, chars
      ensures redoPoint <= STATES && old(redoCharPoint) <= redoCharPoint <= CHARS
      ensures RedoSide(rec[..], chars[..], redoPoint, redoCharPoint, redo)
      ensures redo == if old(redo) == [] then [] else old(redo)[..|old(redo)| - 1]
      ensures redoPoint == if old(redo) == [] then old(redoPoint) else old(redoPoint) + 1
      ensures rec[redoPoint - 1] == old(rec[redoPoint - 1])
      ensures forall i :: 0 <= i < old(redoPoint) ==> rec[i] == old(rec[i])
      ensures forall i :: 0 <= i < old(redoCharPoint) ==> chars[i] == old(chars[i])
    {
      hide Stored, Flat, RedoSide;
      var k := STATES - 1;
      if redoPoint <= k {
        ghost var rec0, chars0, last := rec[..], chars[..], |redo| - 1;
        LastRedo(rec0, chars0, redoPoint, redoCharPoint, redo);
        if rec[k].charStorage >= 0 {
          CloseTop(rec[k].insertLength);
        }
        MoveRecords(redoPoint, redoPoint - 1, STATES - redoPoint);
        redoPoint := redoPoint + 1;
        DiscardedRedo(rec0, chars0, redo, rec[..], chars[..], redoPoint - 1, old(redoCharPoint), redoPoint, redoCharPoint);
        redo := redo[..last];
      } else {
        LastRedo(rec[..], chars[..], redoPoint, redoCharPoint, redo);
      }
    }

    /** Makes room for a new undo record that stores `num` characters (lines 1111-1133) and returns its index,
        or -1 when they cannot fit at all; then the whole undo list is gone. */
    method CreateUndoRecord(num: int) returns (idx: int)
      requires Core() && 0 <= num
      modifies this`undoPoint, this`redoPoint, this`undoCharPoint, this`redoCharPoint,
               this`undo, this`redo, this`lost, rec, chars
      ensures undo == Trim(old(undo), num) && redo == [] && !lost
      ensures Suffix(undo, old(undo)) && (num > CHARS ==> undo == [])
      ensures num <= CHARS ==> |undo| < STATES && |Flat(undo)| + num <= CHARS
      ensures num <= CHARS ==>
        forall es :: Suffix(es, old(undo)) && |es| > |undo| ==> |es| >= STATES || |Flat(es)| + num > CHARS
      ensures redoPoint == STATES && redoCharPoint == CHARS
      ensures idx < 0 <==> num > CHARS
      ensures num > CHARS ==> Core()
      ensures num <= CHARS ==> 0 <= idx < STATES && undoPoint == idx + 1 && 0 <= undoCharPoint <= CHARS - num
      ensures num <= CHARS ==> UndoSide(rec[..], chars[..], idx, undoCharPoint, undo)
    {
      hide Stored, Flat, UndoSide, RedoSide, Suffix;
      UndoSizes(rec[..], chars[..], undoPoint, undoCharPoint, undo);
      NothingLeft(undo);
      if num <= CHARS {
        TrimIsLongest(undo, num);
      }
      FlushRedo();
      if undoPoint == STATES {
        DiscardUndo();
        UndoSizes(rec[..], chars[..], undoPoint, undoCharPoint, undo);
      }
      if num > CHARS {
        undoPoint, undoCharPoint, undo := 0, 0, [];
        EmptyUndoSide(rec[..], chars[..]);
        EmptyRedoSide(rec[..], chars[..]);
        return -1;
      }
      while undoCharPoint + num > CHARS
        invariant Sizes() && UndoSide(rec[..], chars[..], undoPoint, undoCharPoint, undo) && undoPoint < STATES
        invariant Shrink(undo, num) == Trim(old(undo), num)
        invariant redo == [] && !lost && redoPoint == STATES && redoCharPoint == CHARS
        decreases |undo|
      {
        UndoSizes(rec[..], chars[..], undoPoint, undoCharPoint, undo);
        ShrinkOnce(undo, num);
        DiscardUndo();
      }
      UndoSizes(rec[..], chars[..], undoPoint, undoCharPoint, undo);
      idx := undoPoint;
      undoPoint := undoPoint + 1;
    }

    /** Creates an undo record (lines 1135-1153) and returns where its characters go, or -1 when there is
        nothing to store. The record's lengths are 16-bit. */
    method CreateUndo(pos: int, insertLen: int, deleteLen: int) returns (at: int)
      requires Core() && 0 <= insertLen
      modifies this`undoPoint, this`redoPoint, this`undoCharPoint, this`redoCharPoint,
               this`undo, this`redo, this`lost, rec, chars
      ensures redo == [] && !lost && redoPoint == STATES && redoCharPoint == CHARS
      ensures insertLen > CHARS ==> Core() && undo == [] && at == -1
      ensures insertLen <= CHARS ==>
        && undo == Trim(old(undo), insertLen)
        && 1 <= undoPoint <= STATES && insertLen <= undoCharPoint <= CHARS
        && at == (if insertLen == 0 then -1 else undoCharPoint - insertLen)
        && UndoSide(rec[..], chars[..], undoPoint - 1, undoCharPoint - insertLen, undo)
        && rec[undoPoint - 1] == Record(pos, insertLen, Short(deleteLen), at)
    {
      hide Stored, Flat, UndoSide, RedoSide, Trim, Suffix;
      var r := CreateUndoRecord(insertLen);
      if r < 0 {
        return -1;
      }
      ghost var rec0 := rec[..];
      rec[r] := rec[r].(where := pos, insertLength := Short(insertLen), deleteLength := Short(deleteLen));
      if insertLen == 0 {
        rec[r] := rec[r].(charStorage := -1);
        at := -1;
      } else {
        rec[r] := rec[r].(charStorage := undoCharPoint);
        undoCharPoint := undoCharPoint + Short(insertLen);
        at := rec[r].charStorage;
      }
      UndoFrame(rec0, chars[..], rec[..], chars[..], r, undoCharPoint - insertLen, undo);
    }

    /** Copies the characters text[from..from + len] to the storage from `at` on. */
    method SaveChars(at: int, from: int, len: int)
      requires 0 <= at && 0 <= len && at + len <= chars.Length && 0 <= from && from + len <= |text|
      modifies chars
      ensures chars[at..at + len] == text[from..from + len]
      ensures forall i :: 0 <= i < chars.Length && !(at <= i < at + len) ==> chars[i] == old(chars[i])
    {
      var i := 0;
      while i < len
        invariant 0 <= i <= len
        invariant forall j :: at <= j < at + i ==> chars[j] == text[from + (j - at)]
        invariant forall j :: 0 <= j < chars.Length && !(at <= j < at + i) ==> chars[j] == old(chars[j])
      {
        chars[at + i] := text[from + i];
        i := i + 1;
      }
    }

    /** Records that `oldLen` characters at `where` are about to be, or have just been, replaced by `newLen`
        (lines 1279-1297; with oldLen == 0 lines 1274-1277). */
    method MakeUndo(where: int, oldLen: int, newLen: int)
      requires Core() && 0 <= where && 0 <= oldLen && where + oldLen <= |text|
      modifies this`undoPoint, this`redoPoint, this`undoCharPoint, this`redoCharPoint,
               this`undo, this`redo, this`lost, rec, chars
      ensures Core() && redo == [] && !lost && redoCharPoint == CHARS
      ensures undo == if oldLen > CHARS then []
                      else Trim(old(undo), oldLen) + [Entry(where, Short(newLen), text[where..where + oldLen])]
    {
      hide Stored, Flat, Trim, UndoSide, RedoSide;
      var at := CreateUndo(where, oldLen, newLen);
      if oldLen <= CHARS {
        ghost var rec0, chars0, cp := rec[..], chars[..], undoCharPoint - oldLen;
        if at >= 0 {
          SaveChars(at, where, oldLen);
        }
        ghost var e := Entry(where, Short(newLen), text[where..where + oldLen]);
        AppendedUndo(rec0, chars0, undo, rec[..], chars[..], undoPoint - 1, cp, e);
        undo := undo + [e];
        EmptyRedoSide(rec[..], chars[..]);
      }
    }

    /** Typing or pasting: the characters go in, then the undo record is made. */
    method InsertText(where: int, s: Text)
      requires Valid() && 0 <= where <= |text|
      modifies this, rec, chars
      ensures Core() && !lost && Content() == RecordedShort(old(Content()), Entry(where, 0, s))
      ensures text == old(text)[..where] + s + old(text)[where..]
      ensures |s| <= 0x7fff ==> Valid() && Content() == Recorded(old(Content()), Entry(where, 0, s))
    {
      hide Undoable, Redoable, Room, Trim, UndoSide, RedoSide;
      ghost var e, d := Entry(where, 0, s), Content();
      CoreSizes();
      RecordedSound(d, e);
      text := text[..where] + s + text[where..];
      assert text[where..where + 0] == [];
      MakeUndo(where, 0, |s|);
      assert text == Apply(d.text, e) && d.text[where..where + 0] == [];
      ShortInverseUndoes(d.text, e);
      EmptyRedo(text, undoCharPoint, redoCharPoint);
    }

    /** Overwriting `len` characters: the undo record is made first, while they are still there. */
    method ReplaceText(where: int, len: int, s: Text)
      requires Valid() && 0 <= where && 0 <= len && where + len <= |text|
      modifies this, rec, chars
      ensures Core() && !lost && Content() == RecordedShort(old(Content()), Entry(where, len, s))
      ensures text == old(text)[..where] + s + old(text)[where + len..]
      ensures |s| <= 0x7fff ==> Valid() && Content() == Recorded(old(Content()), Entry(where, len, s))
    {
      hide Undoable, Redoable, Room, Trim, UndoSide, RedoSide;
      ghost var e, d := Entry(where, len, s), Content();
      CoreSizes();
      RecordedSound(d, e);
      MakeUndo(where, len, |s|);
      text := text[..where] + text[where + len..];
      text := text[..where] + s + text[where..];
      assert text == Apply(d.text, e);
      ShortInverseUndoes(d.text, e);
      EmptyRedo(text, undoCharPoint, redoCharPoint);
    }

    /** Deleting a selection (lines 563-568). */
    method DeleteText(where: int, len: int)
      requires Valid() && 0 <= where && 0 <= len && where + len <= |text|
      modifies this, rec, chars
      ensures Valid() && !lost
      ensures Content() == Recorded(old(Content()), Entry(where, len, []))
      ensures text == old(text)[..where] + old(text)[where + len..]
    {
      hide Undoable, Redoable, Room, Trim, UndoSide, RedoSide;
      ghost var e, d := Entry(where, len, []), Content();
      CoreSizes();
      RecordedSound(d, e);
      MakeUndo(where, len, 0);
      text := text[..where] + text[where + len..];
      assert text == Apply(d.text, e);
      ShortInverseUndoes(d.text, e);
      EmptyRedo(text, undoCharPoint, redoCharPoint);
    }

    lemma CoreSizes()
      requires Core()
      ensures |undo| == undoPoint && |redo| == STATES - redoPoint
      ensures |Flat(undo)| == undoCharPoint && |Flat(redo)| == CHARS - redoCharPoint
    {
    }

    /** Discards redo entries until `need` characters fit between the two stacks (lines 1189-1195), giving up
        when that takes the last one. */
    method MakeRedoRoom(need: int) returns (stuck: bool)
      requires rec.Length == STATES && chars.Length == CHARS && 1 <= redoPoint <= STATES && 0 <= redoCharPoint <= CHARS
      requires RedoSide(rec[..], chars[..], redoPoint, redoCharPoint, redo)
      requires 0 <= undoCharPoint && 0 < need && undoCharPoint + need < CHARS
      modifies this`redoPoint, this`redoCharPoint, this`redo, rec, chars
      ensures old(redoPoint) <= redoPoint <= STATES && old(redoCharPoint) <= redoCharPoint <= CHARS
      ensures RedoSide(rec[..], chars[..], redoPoint, redoCharPoint, redo)
      ensures redo == ShrinkRedo(old(redo), undoCharPoint, need) && |redo| <= |old(redo)| && redo == old(redo)[..|redo|]
      ensures stuck <==> redo == [] && old(redo) != []
      ensures !stuck ==> undoCharPoint + need <= redoCharPoint
      ensures redoPoint >= 1 && rec[redoPoint - 1] == old(rec[redoPoint - 1])
      ensures forall i :: 0 <= i < old(redoPoint) ==> rec[i] == old(rec[i])
      ensures forall i :: 0 <= i < old(redoCharPoint) ==> chars[i] == old(chars[i])
    {
      hide Stored, Flat;
      stuck := false;
      RedoSizes(rec[..], chars[..], redoPoint, redoCharPoint, redo);
      assert redo == redo[..|redo|];
      while undoCharPoint + need > redoCharPoint
        invariant old(redoPoint) <= redoPoint <= STATES && old(redoCharPoint) <= redoCharPoint <= CHARS
        invariant RedoSide(rec[..], chars[..], redoPoint, redoCharPoint, redo)
        invariant |redo| == STATES - redoPoint && |Flat(redo)| == CHARS - redoCharPoint
        invariant ShrinkRedo(redo, undoCharPoint, need) == ShrinkRedo(old(redo), undoCharPoint, need)
        invariant |redo| <= |old(redo)| && redo == old(redo)[..|redo|] && (redo == [] ==> old(redo) == [])
        invariant rec[redoPoint - 1] == old(rec[redoPoint - 1])
        invariant forall i :: 0 <= i < old(redoPoint) ==> rec[i] == old(rec[i])
        invariant forall i :: 0 <= i < old(redoCharPoint) ==> chars[i] == old(chars[i])
        decreases |redo|
      {
        DiscardRedo();
        RedoSizes(rec[..], chars[..], redoPoint, redoCharPoint, redo);
        if redoPoint == STATES {
          return true;
        }
      }
    }

    /** Makes room for the characters the pending redo record has to insert again, and saves them
        (lines 1188-1204). */
    method StoreForRedo(u: Record, ghost e: Entry) returns (stuck: bool)
      requires Sizes() && undoPoint >= 1 && RedoSide(rec[..], chars[..], redoPoint, redoCharPoint, redo)
      requires Applicable(text, e) && u.where == e.where && u.deleteLength == e.del
      requires 0 < e.del && undoCharPoint + e.del < CHARS
      requires rec[redoPoint - 1] == Record(e.where, e.del, |e.ins|, -1)
      modifies this`redoPoint, this`redoCharPoint, this`redo, rec, chars
      ensures Sizes() && old(redoPoint) <= redoPoint
      ensures stuck <==> ShrinkRedo(old(redo), undoCharPoint, e.del) == [] && old(redo) != []
      ensures stuck ==> redo == [] && RedoSide(rec[..], chars[..], redoPoint, redoCharPoint, redo)
      ensures !stuck ==>
        && redo == [Inverse(text, e)] + ShrinkRedo(old(redo), undoCharPoint, e.del)
        && RedoSide(rec[..], chars[..], redoPoint - 1, redoCharPoint, redo)
      ensures stuck ==> rec[old(redoPoint) - 1] == old(rec[redoPoint - 1])
      ensures forall i :: 0 <= i < old(redoPoint) - 1 ==> rec[i] == old(rec[i])
      ensures forall i :: 0 <= i < undoCharPoint ==> chars[i] == old(chars[i])
    {
      hide Stored, Flat, ShrinkRedo, RedoSide;
      stuck := MakeRedoRoom(u.deleteLength);
      if stuck {
        return;
      }
      ghost var rec1, chars1, r := rec[..], chars[..], Inverse(text, e);
      rec[redoPoint - 1] := rec[redoPoint - 1].(charStorage := redoCharPoint - u.deleteLength);
      redoCharPoint := redoCharPoint - u.deleteLength;
      SaveChars(rec[redoPoint - 1].charStorage, u.where, u.deleteLength);
      PrependedRedo(rec1, chars1, redo, rec[..], chars[..], redoPoint, redoCharPoint + u.deleteLength, r);
      redo := [r] + redo;
    }

    /** Makes the redo record of the entry about to be undone (lines 1163-1204). The record is written below
        the redo stack before room is made for its characters. */
    method SaveForRedo(u: Record, ghost e: Entry) returns (stuck: bool)
      requires Sizes() && undoPoint >= 1 && RedoSide(rec[..], chars[..], redoPoint, redoCharPoint, redo)
      requires Applicable(text, e) && u.where == e.where && u.deleteLength == e.del && u.insertLength == |e.ins|
      modifies this`redoPoint, this`redoCharPoint, this`redo, this`lost, rec, chars
      ensures Sizes() && old(redoPoint) <= redoPoint
      ensures stuck <==> KeptBeside(old(redo), undoCharPoint, e.del) == [] && old(redo) != []
      ensures stuck ==> redo == [] && RedoSide(rec[..], chars[..], redoPoint, redoCharPoint, redo) && lost == old(lost)
      ensures stuck ==> e.del > 0 && rec[old(redoPoint) - 1] == Record(e.where, e.del, |e.ins|, -1)
      ensures !stuck ==>
        var drops := e.del != 0 && undoCharPoint + e.del >= CHARS;
        && lost == (old(lost) || drops)
        && redo == [if drops then Entry(e.where, |e.ins|, []) else Inverse(text, e)] + KeptBeside(old(redo), undoCharPoint, e.del)
        && RedoSide(rec[..], chars[..], redoPoint - 1, redoCharPoint, redo)
      ensures forall i :: 0 <= i < old(redoPoint) - 1 ==> rec[i] == old(rec[i])
      ensures forall i :: 0 <= i < undoCharPoint ==> chars[i] == old(chars[i])
    {
      hide Stored, Flat, ShrinkRedo, RedoSide;
      stuck := false;
      ghost var rec0, chars0 := rec[..], chars[..];
      rec[redoPoint - 1] := Record(u.where, u.deleteLength, u.insertLength, -1);
      RedoFrame(rec0, chars0, rec[..], chars[..], redoPoint, redoCharPoint, redo);
      if u.deleteLength != 0 && undoCharPoint + u.deleteLength < CHARS {
        stuck := StoreForRedo(u, e);
      } else {
        ghost var r := Inverse(text, e);
        if u.deleteLength != 0 {
          rec[redoPoint - 1] := rec[redoPoint - 1].(insertLength := 0);
          lost, r := true, Entry(e.where, |e.ins|, []);
        }
        PrependedRedo(rec0, chars0, redo, rec[..], chars[..], redoPoint, redoCharPoint, r);
        redo := [r] + redo;
      }
    }

    /** Carries a record out on the text: deletes, then inserts stored characters. */
    method Carry(u: Record, ghost e: Entry)
      requires Applicable(text, e) && u.where == e.where && u.deleteLength == e.del && u.insertLength == |e.ins|
      requires u.insertLength > 0 ==>
        0 <= u.charStorage && u.charStorage + u.insertLength <= chars.Length
        && chars[u.charStorage..u.charStorage + u.insertLength] == e.ins
      modifies this`text
      ensures text == Apply(old(text), e)
    {
      if u.deleteLength != 0 {
        text := text[..u.where] + text[u.where + u.deleteLength..];
      }
      if u.insertLength != 0 {
        text := text[..u.where] + chars[u.charStorage..u.charStorage + u.insertLength] + text[u.where..];
      }
    }

    /** Undoes the newest entry and turns it into a redo entry (lines 1155-1221). */
    method UndoEdit() returns (outcome: Outcome)
      requires Valid()
      modifies this, rec, chars
      ensures outcome == UndoOutcome(old(Content()))
      ensures outcome != Stuck ==> Valid() && Content() == Undone(old(Content()))
      ensures outcome == Done ==> lost == (old(lost) || DropsChars(old(Content())))
      ensures outcome == Nothing ==> lost == old(lost)
      ensures outcome == Done ==> cursor == old(undo[|undo| - 1].where + |undo[|undo| - 1].ins|)
      ensures outcome != Done ==> cursor == old(cursor)
      ensures outcome == Stuck ==> Content() == Doc(old(text), old(undo), [])
      ensures outcome == Stuck && |old(undo)| + |old(redo)| < STATES ==> Valid()
      ensures outcome == Stuck && |old(undo)| + |old(redo)| == STATES ==>
        forall es :: !UndoSide(rec[..], chars[..], undoPoint, undoCharPoint, es)
    {
      hide Stored, Flat, Undoable, Redoable, Room, ShrinkRedo, UndoSide, RedoSide, KeptBeside, Apply, Inverse, Undone, Applicable,
        Squeezed, DropsChars, KeptRedo, Shows;
      CoreSizes();
      NothingUndone(Content());
      if undoPoint == 0 {
        return Nothing;
      }
      KeptNothing(Content());
      RedoIs(Content(), undoCharPoint);
      ghost var n, rec0, chars0 := undoPoint - 1, rec[..], chars[..];
      LastUndo(rec0, chars0, undoPoint, undoCharPoint, undo);
      LastApplies(text, undo);
      ghost var e := undo[n];
      var u := rec[undoPoint - 1];
      ShownFields(u, e, undoCharPoint - |e.ins|);
      var stuck := SaveForRedo(u, e);
      if stuck {
        GivenUp(rec0, chars0, old(redoPoint));
        return Stuck;
      }
      RedoSizes(rec[..], chars[..], redoPoint - 1, redoCharPoint, redo);
      UndoneIsValid(old(Content()), redo[0], redo, undoCharPoint, old(redoCharPoint), redoCharPoint, old(lost));
      UndoFrame(rec0, chars0, rec[..], chars[..], n, undoCharPoint - |e.ins|, undo[..n]);
      StillBelow(chars0, chars[..], undoCharPoint, u, e);
      FinishUndo(u, e);
      outcome := Done;
    }

    /** After undo has given up: the record it wrote last is below the redo stack, or on top of the undo stack. */
    lemma GivenUp(rec0: seq<Record>, chars0: Text, rp: int)
      requires Sizes() && UndoSide(rec0, chars0, undoPoint, undoCharPoint, undo) && Undoable(text, undo) && |rec0| == STATES
      requires redo == [] && RedoSide(rec[..], chars[..], redoPoint, redoCharPoint, redo) && 1 <= undoPoint <= rp <= STATES
      requires |chars0| == CHARS && forall i :: 0 <= i < undoCharPoint ==> chars[i] == chars0[i]
      requires forall i :: 0 <= i < rp - 1 ==> rec[i] == rec0[i]
      requires rec[rp - 1].insertLength > 0 && rec[rp - 1].charStorage == -1
      ensures undoPoint < rp ==> Valid()
      ensures undoPoint == rp ==> forall es :: !UndoSide(rec[..], chars[..], undoPoint, undoCharPoint, es)
    {
      hide UndoSide, RedoSide, Undoable, Redoable, Room;
      if undoPoint < rp {
        UndoFrame(rec0, chars0, rec[..], chars[..], undoPoint, undoCharPoint, undo);
        EmptyRedo(text, undoCharPoint, redoCharPoint);
      } else {
        Corrupt(rec[..], chars[..], undoPoint, undoCharPoint);
      }
    }

    /** The second half of undo: carries the record out and moves both stack tops (lines 1206-1220). */
    method FinishUndo(u: Record, ghost e: Entry)
      requires Sizes() && undoPoint >= 1 && undo != [] && e == undo[|undo| - 1] && Applicable(text, e)
      requires u.where == e.where && u.deleteLength == e.del && u.insertLength == |e.ins|
      requires u.insertLength > 0 ==>
        0 <= u.charStorage && u.charStorage + u.insertLength <= chars.Length
        && chars[u.charStorage..u.charStorage + u.insertLength] == e.ins
      requires UndoSide(rec[..], chars[..], undoPoint - 1, undoCharPoint - |e.ins|, undo[..|undo| - 1])
      requires RedoSide(rec[..], chars[..], redoPoint - 1, redoCharPoint, redo)
      requires Room(redo, undoCharPoint - |e.ins|, redoCharPoint)
      requires Undoable(Apply(text, e), undo[..|undo| - 1]) && (!lost ==> Redoable(Apply(text, e), redo))
      modifies this`text, this`cursor, this`undoPoint, this`redoPoint, this`undoCharPoint, this`undo
      ensures Valid() && text == Apply(old(text), e) && undo == old(undo)[..|old(undo)| - 1]
      ensures cursor == e.where + |e.ins|
    {
      hide Stored, Flat, Undoable, Redoable, Room, Apply, Applicable;
      Carry(u, e);
      if u.insertLength != 0 {
        undoCharPoint := undoCharPoint - u.insertLength;
      }
      cursor := u.where + u.insertLength;
      undoPoint := undoPoint - 1;
      redoPoint := redoPoint - 1;
      undo := undo[..|undo| - 1];
    }

    /** Makes the undo record of the entry about to be redone (lines 1231-1257). There is room for its characters,
        so the bail-out at line 1246 is never taken. */
    method SaveForUndo(r: Record, ghost e: Entry)
      requires Sizes() && UndoSide(rec[..], chars[..], undoPoint, undoCharPoint, undo) && undoPoint < STATES
      requires Applicable(text, e) && r.where == e.where && r.deleteLength == e.del && r.insertLength == |e.ins|
      requires undoCharPoint + e.del <= redoCharPoint
      modifies this`undoCharPoint, this`undo, rec, chars
      ensures undoCharPoint == old(undoCharPoint) + e.del && undo == old(undo) + [Inverse(text, e)]
      ensures UndoSide(rec[..], chars[..], undoPoint + 1, undoCharPoint, undo)
      ensures forall i :: undoPoint < i < STATES ==> rec[i] == old(rec[i])
      ensures forall i :: redoCharPoint <= i < CHARS ==> chars[i] == old(chars[i])
    {
      hide Stored, Flat, UndoSide;
      ghost var rec0, chars0, cp := rec[..], chars[..], undoCharPoint;
      rec[undoPoint] := Record(r.where, r.deleteLength, r.insertLength, -1);
      if r.deleteLength != 0 {
        if undoCharPoint + rec[undoPoint].insertLength > redoCharPoint {
          assert false;
        } else {
          rec[undoPoint] := rec[undoPoint].(charStorage := undoCharPoint);
          undoCharPoint := undoCharPoint + rec[undoPoint].insertLength;
          SaveChars(rec[undoPoint].charStorage, rec[undoPoint].where, rec[undoPoint].insertLength);
        }
      }
      AppendedUndo(rec0, chars0, undo, rec[..], chars[..], undoPoint, cp, Inverse(text, e));
      undo := undo + [Inverse(text, e)];
    }

    /** The second half of redo: carries the record out and moves both stack tops (lines 1259-1271). */
    method FinishRedo(r: Record, ghost e: Entry)
      requires Sizes() && redo != [] && undoPoint < STATES && redoPoint < STATES && Applicable(text, e)
      requires r.where == e.where && r.deleteLength == e.del && r.insertLength == |e.ins|
      requires r.insertLength > 0 ==>
        0 <= r.charStorage && r.charStorage + r.insertLength <= chars.Length
        && chars[r.charStorage..r.charStorage + r.insertLength] == e.ins
      requires UndoSide(rec[..], chars[..], undoPoint + 1, undoCharPoint, undo)
      requires RedoSide(rec[..], chars[..], redoPoint + 1, redoCharPoint + |e.ins|, redo[1..])
      requires Room(redo[1..], undoCharPoint, redoCharPoint + |e.ins|) && redoCharPoint + |e.ins| <= CHARS
      requires Undoable(Apply(text, e), undo) && (!lost ==> Redoable(Apply(text, e), redo[1..]))
      modifies this`text, this`cursor, this`undoPoint, this`redoPoint, this`redoCharPoint, this`redo
      ensures Valid() && text == Apply(old(text), e) && redo == old(redo)[1..]
      ensures cursor == e.where + |e.ins|
    {
      hide Stored, Flat, Undoable, Redoable, Room, Apply, Applicable;
      Carry(r, e);
      if r.insertLength != 0 {
        redoCharPoint := redoCharPoint + r.insertLength;
      }
      cursor := r.where + r.insertLength;
      undoPoint := undoPoint + 1;
      redoPoint := redoPoint + 1;
      redo := redo[1..];
    }

    /** The record lies inside the text. */
    predicate Fits(r: Record)
      reads this
    {
      0 <= r.where && 0 <= r.deleteLength && r.where + r.deleteLength <= |text|
    }

    /** Redoes the entry undone last and turns it back into an undo entry (lines 1223-1272). */
    method RedoEdit() returns (outcome: Outcome)
      requires Valid()
      modifies this, rec, chars
      ensures Valid() && lost == old(lost) && outcome == RedoOutcome(old(Content()))
      ensures !lost ==> outcome != Outside
      ensures outcome != Outside ==> Content() == Redo(old(Content()))
      ensures outcome == Done ==> cursor == old(redo[0].where + |redo[0].ins|)
      ensures outcome == Nothing ==> cursor == old(cursor)
    {
      hide Stored, Flat, Undoable, Redoable, Room, UndoSide, RedoSide, Apply, Inverse;
      CoreSizes();
      if redoPoint == STATES {
        return Nothing;
      }
      ghost var rec0, chars0, e := rec[..], chars[..], redo[0];
      FirstRedo(rec0, chars0, redoPoint, redoCharPoint, redo);
      if !Fits(rec[redoPoint]) {
        OutsideIsLost(text, redo);
        return Outside;
      }
      FirstApplies(text, redo, undoCharPoint, redoCharPoint, lost);
      InverseUndoes(text, e);
      UndoableAppend(Apply(text, e), undo, Inverse(text, e));
      var r := rec[redoPoint];
      SaveForUndo(r, e);
      RedoFrame(rec0, chars0, rec[..], chars[..], redoPoint + 1, redoCharPoint + |e.ins|, redo[1..]);
      StillThere(chars0, chars[..], redoCharPoint, |e.ins|);
      FinishRedo(r, e);
      outcome := Done;
    }
  }

  /** Only the oldest redo entries go, none without need, and what is left fits. */
  lemma {:induction false} KeptIsPrefix(redo: seq<Entry>, ucp: int, need: int) returns (k: nat)
    ensures k <= |redo| && ShrinkRedo(redo, ucp, need) == redo[..k]
    ensures k > 0 ==> ucp + need + |Flat(redo[..k])| <= CHARS
    ensures forall j :: k < j <= |redo| ==> ucp + need + |Flat(redo[..j])| > CHARS
    decreases |redo|
  {
    var n := |redo|;
    assert redo[..n] == redo;
    if redo != [] && ucp + need + |Flat(redo)| > CHARS {
      k := KeptIsPrefix(redo[..n - 1], ucp, need);
      assert redo[..n - 1][..k] == redo[..k];
      forall j | k < j <= n
        ensures ucp + need + |Flat(redo[..j])| > CHARS
      {
        if j < n {
          assert redo[..n - 1][..j] == redo[..j];
        }
      }
    } else {
      k := n;
    }
  }

  /** After an undo the redo list is still in step with the text, and there is room to redo it all. */
  lemma UndoneIsValid(d: Doc, r: Entry, redo: seq<Entry>, ucp: int, rcp0: int, rcp: int, lost: bool)
    requires d.undo != [] && Undoable(d.text, d.undo) && (!lost ==> Redoable(d.text, d.redo))
    requires Room(d.redo, ucp, rcp0) && ucp == |Flat(d.undo)| && ucp <= rcp
    requires rcp0 == CHARS - |Flat(d.redo)|
    requires var e := d.undo[|d.undo| - 1];
      && r == (if DropsChars(d) then Entry(e.where, |e.ins|, []) else Inverse(d.text, e))
      && redo == [r] + KeptRedo(d)
      && rcp == CHARS - |Flat(redo)|
    ensures var e := d.undo[|d.undo| - 1];
      && Room(redo, ucp - |e.ins|, rcp)
      && (!lost && !DropsChars(d) ==> Redoable(Apply(d.text, e), redo))
      && Undone(d) == Doc(Apply(d.text, e), d.undo[..|d.undo| - 1], redo)
  {
    hide ShrinkRedo, Flat, Undoable, Redoable, Room, Apply;
    LastApplies(d.text, d.undo);
    var e, kept := d.undo[|d.undo| - 1], KeptRedo(d);
    var k := |d.redo|;
    assert d.redo[..k] == d.redo;
    if !(e.del == 0 || DropsChars(d)) {
      k := KeptIsPrefix(d.redo, ucp, e.del);
    }
    assert kept == d.redo[..k] && d.redo == d.redo[..k] + d.redo[k..];
    FlatConcat(d.redo[..k], d.redo[k..]);
    FlatConcat([r], kept);
    FlatSingle(r);
    RoomKept(d.redo, ucp, rcp0, k, ucp, rcp + |r.ins|);
    RoomForUndone(kept, ucp, rcp + |r.ins|, |e.ins|, |r.ins|, r);
    if !lost && !DropsChars(d) {
      InverseUndoes(d.text, e);
      ForgetFuture(d.text, d.redo, k);
      RedoablePrepend(Apply(d.text, e), kept, r);
    }
  }

  lemma RedoIs(d: Doc, ucp: int)
    requires d.undo != [] && ucp == |Flat(d.undo)|
    ensures var e := d.undo[|d.undo| - 1];
      && (DropsChars(d) <==> e.del != 0 && ucp + e.del >= CHARS)
      && KeptRedo(d) == KeptBeside(d.redo, ucp, e.del)
  {
  }

  lemma NothingUndone(d: Doc)
    requires Undoable(d.text, d.undo)
    ensures d.undo == [] ==> Undone(d) == d
  {
  }

  lemma RedoSizes(rec: seq<Record>, chars: Text, rp: int, rcp: int, es: seq<Entry>)
    requires RedoSide(rec, chars, rp, rcp, es)
    ensures |es| == |rec| - rp && |Flat(es)| == |chars| - rcp && (es == [] ==> Flat(es) == [])
  {
  }

  lemma LastApplies(t: Text, undo: seq<Entry>)
    requires Undoable(t, undo) && undo != []
    ensures Applicable(t, undo[|undo| - 1]) && Undoable(Apply(t, undo[|undo| - 1]), undo[..|undo| - 1])
  {
  }

  /** Changes above both ends leave the undo stack alone. */
  lemma UndoFrame(rec: seq<Record>, chars: Text, rec': seq<Record>, chars': Text, n: int, cp: int, es: seq<Entry>)
    requires UndoSide(rec, chars, n, cp, es) && |rec'| == |rec| && |chars'| == |chars|
    requires forall i :: 0 <= i < n ==> rec'[i] == rec[i]
    requires forall i :: 0 <= i < cp ==> chars'[i] == chars[i]
    ensures UndoSide(rec', chars', n, cp, es)
  {
    assert rec'[..n] == rec[..n] && chars'[..cp] == chars[..cp];
  }

  /** Changes below both ends leave the redo stack alone. */
  lemma RedoFrame(rec: seq<Record>, chars: Text, rec': seq<Record>, chars': Text, rp: int, rcp: int, es: seq<Entry>)
    requires RedoSide(rec, chars, rp, rcp, es) && |rec'| == |rec| && |chars'| == |chars|
    requires forall i :: rp <= i < |rec| ==> rec'[i] == rec[i]
    requires forall i :: rcp <= i < |chars| ==> chars'[i] == chars[i]
    ensures RedoSide(rec', chars', rp, rcp, es)
  {
    assert rec'[rp..] == rec[rp..] && chars'[rcp..] == chars[rcp..];
  }

  /** A record that claims characters but stores none belongs to no well-formed undo stack. */
  lemma Corrupt(rec: seq<Record>, chars: Text, n: int, cp: int)
    requires 1 <= n <= |rec| && rec[n - 1].insertLength > 0 && rec[n - 1].charStorage == -1
    ensures forall es :: !UndoSide(rec, chars, n, cp, es)
  {
    forall es
      ensures !UndoSide(rec, chars, n, cp, es)
    {
      if UndoSide(rec, chars, n, cp, es) {
        LastUndo(rec, chars, n, cp, es);
      }
    }
  }

  lemma PrependedRedo(rec0: seq<Record>, chars0: Text, es: seq<Entry>, rec: seq<Record>, chars: Text, rp: int, rcp: int, e: Entry)
    requires RedoSide(rec0, chars0, rp, rcp, es) && |rec| == |rec0| && |chars| == |chars0|
    requires rp >= 1 && rcp >= |e.ins|
    requires rec[rp..] == rec0[rp..] && chars[rcp..] == chars0[rcp..]
    requires Shows(rec[rp - 1], e, rcp - |e.ins|) && chars[rcp - |e.ins|..rcp] == e.ins
    ensures RedoSide(rec, chars, rp - 1, rcp - |e.ins|, [e] + es)
  {
    StoredPrepend(rec[rp..], rcp - |e.ins|, es, rec[rp - 1], e);
    assert rec[rp - 1..] == [rec[rp - 1]] + rec[rp..];
    assert ([e] + es)[1..] == es;
    assert chars[rcp - |e.ins|..] == chars[rcp - |e.ins|..rcp] + chars[rcp..];
  }

  lemma RoomForUndone(redo: seq<Entry>, ucp: int, rcp: int, del: nat, ins: nat, r: Entry)
    requires Room(redo, ucp, rcp) && ucp + ins <= rcp && del == r.del && ins == |r.ins|
    ensures Room([r] + redo, ucp - del, rcp - ins)
  {
    assert ([r] + redo)[1..] == redo;
  }

  /** The newest undo record. */
  lemma LastUndo(rec: seq<Record>, chars: Text, n: int, cp: int, es: seq<Entry>)
    requires UndoSide(rec, chars, n, cp, es) && n > 0
    ensures |es| == n
    ensures var r, e := rec[n - 1], es[n - 1];
      && Shows(r, e, cp - |e.ins|) && |e.ins| <= cp
      && chars[cp - |e.ins|..cp] == e.ins
      && UndoSide(rec, chars, n - 1, cp - |e.ins|, es[..n - 1])
  {
    FlatLast(es);
    assert Shows(rec[..n][n - 1], es[n - 1], |Flat(es[..n - 1])|);
    StoredPrefix(rec[..n], 0, es, n - 1);
    assert rec[..n][..n - 1] == rec[..n - 1];
    var k := cp - |es[n - 1].ins|;
    assert chars[..k] == chars[..cp][..k] == Flat(es[..n - 1]);
    assert chars[k..cp] == chars[..cp][k..] == es[n - 1].ins;
  }

  /** The redo entry that comes next. */
  lemma FirstRedo(rec: seq<Record>, chars: Text, rp: int, rcp: int, es: seq<Entry>)
    requires RedoSide(rec, chars, rp, rcp, es) && es != []
    ensures |es| == |rec| - rp
    ensures var r, e := rec[rp], es[0];
      && Shows(r, e, rcp) && rcp + |e.ins| <= |chars|
      && chars[rcp..rcp + |e.ins|] == e.ins
      && RedoSide(rec, chars, rp + 1, rcp + |e.ins|, es[1..])
  {
    assert Shows(rec[rp..][0], es[0], rcp + |Flat(es[..0])|);
    assert es[..0] == [];
    StoredTail(rec[rp..], rcp, es);
    assert rec[rp..][1..] == rec[rp + 1..];
    var n := |es[0].ins|;
    assert chars[rcp..rcp + n] == chars[rcp..][..n];
    assert chars[rcp + n..] == chars[rcp..][n..];
  }

  lemma FirstApplies(t: Text, redo: seq<Entry>, ucp: int, rcp: int, lost: bool)
    requires redo != [] && (!lost ==> Redoable(t, redo)) && (lost ==> Applicable(t, redo[0])) && Room(redo, ucp, rcp)
    ensures Applicable(t, redo[0]) && (!lost ==> Redoable(Apply(t, redo[0]), redo[1..]))
    ensures ucp + redo[0].del <= rcp && Room(redo[1..], ucp + redo[0].del, rcp + |redo[0].ins|)
  {
  }

  lemma StillThere(chars: Text, chars': Text, at: int, n: int)
    requires 0 <= at && 0 <= n && at + n <= |chars| == |chars'|
    requires forall i :: at <= i < |chars| ==> chars'[i] == chars[i]
    ensures chars'[at..at + n] == chars[at..at + n]
  {
  }

  lemma StillBelow(chars: Text, chars': Text, cp: int, u: Record, e: Entry)
    requires |e.ins| <= cp <= |chars| == |chars'| && Shows(u, e, cp - |e.ins|) && chars[cp - |e.ins|..cp] == e.ins
    requires forall i :: 0 <= i < cp ==> chars'[i] == chars[i]
    ensures u.insertLength > 0 ==>
      && 0 <= u.charStorage && u.charStorage + u.insertLength <= |chars'|
      && chars'[u.charStorage..u.charStorage + u.insertLength] == e.ins
  {
    assert chars'[cp - |e.ins|..cp] == e.ins;
  }

  lemma ShownFields(r: Record, e: Entry, at: int)
    requires Shows(r, e, at)
    ensures r.where == e.where && r.insertLength == |e.ins| && r.deleteLength == e.del
  {
  }

  lemma EmptyRedo(t: Text, ucp: int, rcp: int)
    ensures Redoable(t, []) && (ucp <= rcp ==> Room([], ucp, rcp))
  {
  }

  lemma EmptyRedoSide(rec: seq<Record>, chars: Text)
    ensures RedoSide(rec, chars, |rec|, |chars|, [])
  {
  }

  lemma EmptyUndoSide(rec: seq<Record>, chars: Text)
    ensures UndoSide(rec, chars, 0, 0, [])
  {
  }

  lemma UndoSizes(rec: seq<Record>, chars: Text, n: int, cp: int, es: seq<Entry>)
    requires UndoSide(rec, chars, n, cp, es)
    ensures |es| == n && |Flat(es)| == cp
  {
  }

  /** The oldest undo record. */
  lemma FirstUndo(rec: seq<Record>, chars: Text, n: int, cp: int, es: seq<Entry>)
    requires UndoSide(rec, chars, n, cp, es) && n > 0
    ensures |es| == n && Shows(rec[0], es[0], 0) && |es[0].ins| <= cp
  {
    assert Shows(rec[..n][0], es[0], |Flat(es[..0])|);
    assert es[..0] == [];
  }

  /** The oldest redo record. */
  lemma LastRedo(rec: seq<Record>, chars: Text, rp: int, rcp: int, es: seq<Entry>)
    requires RedoSide(rec, chars, rp, rcp, es)
    ensures |es| == |rec| - rp
    ensures es != [] ==>
      var r, e := rec[|rec| - 1], es[|es| - 1];
      r.insertLength == |e.ins| && (r.charStorage < 0 <==> e.ins == []) && rcp + |e.ins| <= |chars|
  {
    if es != [] {
      var last := |es| - 1;
      FlatLast(es);
      assert Shows(rec[rp..][last], es[last], rcp + |Flat(es[..last])|);
    }
  }

  lemma DiscardedRedo(rec0: seq<Record>, chars0: Text, es: seq<Entry>, rec: seq<Record>, chars: Text,
                      rp0: int, rcp0: int, rp: int, rcp: int)
    requires RedoSide(rec0, chars0, rp0, rcp0, es) && es != [] && |rec| == |rec0| && |chars| == |chars0|
    requires rp == rp0 + 1 && rcp == rcp0 + |es[|es| - 1].ins|
    requires forall i :: rp <= i < |rec| ==> rec[i] == Shifted(rec0[i - 1], rcp - rcp0)
    requires rcp <= |chars| && chars[rcp..] == chars0[rcp0..|chars| - (rcp - rcp0)]
    ensures RedoSide(rec, chars, rp, rcp, es[..|es| - 1])
  {
    var n := |es| - 1;
    FlatLast(es);
    StoredPrefix(rec0[rp0..], rcp0, es, n);
    StoredShift(rec0[rp0..][..n], rec[rp..], rcp0, es[..n], rcp - rcp0);
    assert chars[rcp..] == chars0[rcp0..][..|chars| - rcp];
    assert Flat(es[..n]) == Flat(es)[..|chars| - rcp];
  }

  lemma DiscardedUndo(rec0: seq<Record>, chars0: Text, es: seq<Entry>, rec1: seq<Record>, rec: seq<Record>, chars: Text,
                      n0: int, cp0: int, n: int, cp: int)
    requires UndoSide(rec0, chars0, n0, cp0, es) && es != [] && |rec| == |rec1| == |rec0| && |chars| == |chars0|
    requires n == n0 - 1 && cp == cp0 - |es[0].ins|
    requires forall i :: 0 <= i < n0 ==> rec1[i] == Shifted(rec0[i], cp - cp0)
    requires rec[..n] == rec1[1..n0]
    requires 0 <= cp && chars[..cp] == chars0[cp0 - cp..cp0]
    ensures UndoSide(rec, chars, n, cp, es[1..])
  {
    StoredTail(rec0[..n0], 0, es);
    StoredShift(rec0[..n0][1..], rec[..n], |es[0].ins|, es[1..], cp - cp0);
    assert chars0[..cp0] == es[0].ins + Flat(es[1..]);
    assert chars[..cp] == chars0[..cp0][|es[0].ins|..];
  }

  // --------------------------------------------------------------------------
  // Runs of the store against the full history
  // --------------------------------------------------------------------------

  /** What the store does on an operation it serves; Perform is proved to do this. */
  ghost function StoreStep(d: Doc, op: Op): Doc
    requires Sound(d) && Enabled(d, op)
  {
    match op
    case DoEdit(e) => Recorded(d, e)
    case DoUndo => Undone(d)
    case DoRedo => Redo(d)
  }

  /** The store can serve the operation: its 16-bit lengths hold what is put in, it still has something to undo or
      redo, and it gives up no characters. */
  ghost predicate Served(d: Doc, op: Op) {
    match op
    case DoEdit(e) => Applicable(d.text, e) && |e.ins| <= 0x7fff
    case DoUndo => UndoOutcome(d) == Done && !DropsChars(d)
    case DoRedo => d.redo != []
  }

  /** The store remembers the newest part of the past and the nearest part of the future. */
  ghost predicate Window(full: History, kept: History) {
    && full.present == kept.present
    && |kept.past| <= |full.past| && kept.past == full.past[|full.past| - |kept.past|..]
    && |kept.future| <= |full.future| && kept.future == full.future[..|kept.future|]
  }

  lemma UndoKeepsWindow(full: History, kept: History)
    requires Window(full, kept) && kept.past != []
    ensures Window(HUndo(full), HUndo(kept))
  {
    assert kept.past[|kept.past| - 1] == full.past[|full.past| - 1];
    assert kept.past[..|kept.past| - 1] == full.past[..|full.past| - 1][|full.past| - |kept.past|..];
  }

  lemma RedoKeepsWindow(full: History, kept: History)
    requires Window(full, kept) && kept.future != []
    ensures Window(HRedo(full), HRedo(kept))
  {
    assert (full.past + [full.present])[|full.past| - |kept.past|..] == kept.past + [kept.present];
  }

  lemma NarrowerWindow(full: History, kept: History, k: nat, n: nat)
    requires Window(full, kept) && k <= |kept.past| && n <= |kept.future|
    ensures Window(full, History(kept.past[k..], kept.present, kept.future[..n]))
  {
    assert kept.past[k..] == full.past[|full.past| - (|kept.past| - k)..];
  }

  lemma WindowTransitive(full: History, mid: History, kept: History)
    requires Window(full, mid) && Window(mid, kept)
    ensures Window(full, kept)
  {
    assert kept.past == full.past[|full.past| - |kept.past|..];
  }

  lemma EditOfWindow(full: History, kept: History, t: Text)
    requires Window(full, kept)
    ensures Window(HEdit(full, t), HEdit(kept, t))
  {
    EditKeepsWindow(full, kept.past, |full.past| - |kept.past|, t);
  }

  /** However much the store has discarded, each operation it serves is a step of the full history. */
  lemma StepKeepsWindow(h: History, d: Doc, op: Op)
    requires Sound(d) && |d.undo| <= STATES && Served(d, op) && Window(h, Meaning(d))
    ensures Sound(StoreStep(d, op)) && Window(HStep(h, op), Meaning(StoreStep(d, op)))
  {
    hide Undoable, Redoable, Past, Future, ShrinkRedo, Trim, Applicable, Apply, Window;
    PastLength(d.text, d.undo);
    FutureLength(d.text, d.redo);
    SamePresent(h, Meaning(d));
    match op
    case DoEdit(e) =>
      RecordedSound(d, e);
      RecordedWindow(d, e);
      EditOfWindow(h, Meaning(d), Apply(d.text, e));
      WindowTransitive(HStep(h, op), HEdit(Meaning(d), Apply(d.text, e)), Meaning(StoreStep(d, op)));
    case DoUndo =>
      KeptRedoWindow(d);
      var d' := Doc(d.text, d.undo, KeptRedo(d));
      StepRefines(d', DoUndo);
      NarrowerWindow(h, Meaning(d), 0, |KeptRedo(d)|);
      assert Past(d.text, d.undo)[0..] == Past(d.text, d.undo);
      UndoKeepsWindow(h, Meaning(d'));
    case DoRedo =>
      StepRefines(d, DoRedo);
      RedoKeepsWindow(h, Meaning(d));
  }

  lemma SamePresent(full: History, kept: History)
    requires Window(full, kept)
    ensures full.present == kept.present
  {
  }

  lemma PastLength(t: Text, undo: seq<Entry>)
    requires Undoable(t, undo)
    ensures |Past(t, undo)| == |undo|
  {
    ForgetOldest(t, undo, 0);
  }

  lemma FutureLength(t: Text, redo: seq<Entry>)
    requires Redoable(t, redo)
    ensures |Future(t, redo)| == |redo|
  {
    ForgetFuture(t, redo, 0);
  }

  lemma EditKeepsWindow(full: History, past: seq<Text>, k: nat, t: Text)
    requires k <= |full.past| && past == full.past[k..]
    ensures Window(HEdit(full, t), HEdit(History(past, full.present, []), t))
  {
    assert (full.past + [full.present])[k..] == past + [full.present];
  }

  /** Recording forgets the oldest texts and adds the present one. */
  lemma RecordedWindow(d: Doc, e: Entry)
    requires Sound(d) && |d.undo| <= STATES && Applicable(d.text, e) && Sound(Recorded(d, e))
    ensures Window(HEdit(Meaning(d), Apply(d.text, e)), Meaning(Recorded(d, e)))
  {
    hide Undoable, Redoable, Trim, Shrink, Apply, Past, Future;
    PastLength(d.text, d.undo);
    EmptyRedo(d.text, 0, 0);
    FutureLength(d.text, []);
    if e.del <= CHARS {
      var k := TrimIsSuffix(d.undo, e.del);
      ForgetOldest(d.text, d.undo, k);
      StepRefines(Doc(d.text, Trim(d.undo, e.del), []), DoEdit(e));
      EditKeepsWindow(Meaning(d), Past(d.text, d.undo[k..]), k, Apply(d.text, e));
    } else {
      PastLength(Apply(d.text, e), []);
      FutureLength(Apply(d.text, e), []);
    }
  }

  /** An edit forgets the fewest of the oldest texts that leave room to record it, and the whole future. */
  lemma RecordedForgets(d: Doc, e: Entry) returns (k: nat)
    requires Sound(d) && |d.undo| <= STATES && Applicable(d.text, e)
    ensures Sound(Recorded(d, e)) && k <= |d.undo| && |Meaning(d).past| == |d.undo|
    ensures Meaning(Recorded(d, e)) ==
      History(if e.del > CHARS then [] else Meaning(d).past[k..] + [d.text], Apply(d.text, e), [])
    ensures e.del <= CHARS ==> |d.undo[k..]| < STATES && |Flat(d.undo[k..])| + e.del <= CHARS
    ensures e.del <= CHARS ==> forall j :: 0 <= j < k ==> |d.undo[j..]| >= STATES || |Flat(d.undo[j..])| + e.del > CHARS
    ensures |d.undo| == STATES && |Flat(d.undo[1..])| + e.del <= CHARS ==> k == 1
  {
    hide Undoable, Redoable, Trim, Shrink, Apply, Past, Future, Flat;
    RecordedSound(d, e);
    PastLength(d.text, d.undo);
    EmptyRedo(d.text, 0, 0);
    FutureLength(d.text, []);
    k := TrimIsSuffix(d.undo, e.del);
    if e.del <= CHARS {
      ForgetOldest(d.text, d.undo, k);
      StepRefines(Doc(d.text, Trim(d.undo, e.del), []), DoEdit(e));
    } else {
      PastLength(Apply(d.text, e), []);
      FutureLength(Apply(d.text, e), []);
    }
  }

  lemma KeptRedoWindow(d: Doc)
    requires Sound(d) && d.undo != []
    ensures |KeptRedo(d)| <= |d.redo| && Redoable(d.text, KeptRedo(d))
    ensures |Future(d.text, d.redo)| == |d.redo|
    ensures Future(d.text, KeptRedo(d)) == Future(d.text, d.redo)[..|KeptRedo(d)|]
  {
    var k := KeptIsPrefix(d.redo, |Flat(d.undo)|, d.undo[|d.undo| - 1].del);
    ForgetFuture(d.text, d.redo, k);
    ForgetFuture(d.text, d.redo, |d.redo|);
    assert d.redo[..|d.redo|] == d.redo;
  }

  /** While all characters fit, nothing is dropped or discarded: undo in the store is the plain undo. */
  lemma UndoneIsUndo(d: Doc)
    requires Undoable(d.text, d.undo)
    requires d.undo != [] ==>
      var del := d.undo[|d.undo| - 1].del;
      |Flat(d.undo)| + del + |Flat(d.redo)| <= CHARS && (del != 0 ==> |Flat(d.undo)| + del < CHARS)
    ensures Undone(d) == Undo(d) && UndoOutcome(d) != Stuck && !DropsChars(d)
  {
  }

  /** Documents the store can hold. */
  ghost predicate Held(d: Doc) {
    Sound(d) && |d.undo| + |d.redo| <= STATES
  }

  lemma StepHeld(d: Doc, op: Op)
    requires Held(d) && Served(d, op)
    ensures Held(StoreStep(d, op))
  {
    hide Undoable, Redoable, ShrinkRedo, Trim, Apply;
    match op
    case DoEdit(e) =>
      RecordedSound(d, e);
      if e.del <= CHARS {
        var k := TrimIsSuffix(d.undo, e.del);
      }
    case DoUndo =>
      KeptRedoWindow(d);
      UndoSound(Doc(d.text, d.undo, KeptRedo(d)));
    case DoRedo =>
      RedoSound(d);
  }

  ghost predicate RunServed(d: Doc, ops: seq<Op>)
    requires Held(d)
    decreases |ops|
  {
    ops == [] ||
    (Served(d, ops[0]) &&
     (StepHeld(d, ops[0]);
      RunServed(StoreStep(d, ops[0]), ops[1..])))
  }

  ghost function StoreRun(d: Doc, ops: seq<Op>): Doc
    requires Held(d) && RunServed(d, ops)
    decreases |ops|
  {
    if ops == [] then d
    else
      StepHeld(d, ops[0]);
      StoreRun(StoreStep(d, ops[0]), ops[1..])
  }

  /** Over any run it serves, with however much discarding, the store shows the text at the history's position. */
  lemma {:induction false} RunKeepsWindow(h: History, d: Doc, ops: seq<Op>)
    requires Held(d) && RunServed(d, ops) && Window(h, Meaning(d))
    ensures Held(StoreRun(d, ops)) && Runs(h, ops) && Window(HRun(h, ops), Meaning(StoreRun(d, ops)))
    ensures StoreRun(d, ops).text == HRun(h, ops).present
    decreases |ops|
  {
    if ops != [] {
      StepHeld(d, ops[0]);
      StepKeepsWindow(h, d, ops[0]);
      RunKeepsWindow(HStep(h, ops[0]), StoreStep(d, ops[0]), ops[1..]);
    }
  }

  /** One operation on the store itself. */
  method Perform(ed: Editor, op: Op)
    requires ed.Valid() && !ed.lost && Served(ed.Content(), op)
    modifies ed, ed.rec, ed.chars
    ensures ed.Valid() && !ed.lost && Held(old(ed.Content())) && ed.Content() == StoreStep(old(ed.Content()), op)
  {
    hide Undoable, Redoable, Room, Recorded, Undone, UndoOutcome, DropsChars, UndoSide, RedoSide, Flat;
    ed.CoreSizes();
    match op {
      case DoEdit(e) =>
        if e.ins == [] {
          ed.DeleteText(e.where, e.del);
        } else if e.del == 0 {
          ed.InsertText(e.where, e.ins);
        } else {
          ed.ReplaceText(e.where, e.del, e.ins);
        }
      case DoUndo =>
        var outcome := ed.UndoEdit();
      case DoRedo =>
        var outcome := ed.RedoEdit();
    }
  }

  /** A run on the store itself shows the text at the full history's position. */
  method PerformAll(ed: Editor, ops: seq<Op>, ghost h: History)
    requires ed.Valid() && !ed.lost && Held(ed.Content()) && RunServed(ed.Content(), ops) && Window(h, Meaning(ed.Content()))
    modifies ed, ed.rec, ed.chars
    ensures ed.Valid() && !ed.lost && ed.Content() == StoreRun(old(ed.Content()), ops)
    ensures Runs(h, ops) && ed.text == HRun(h, ops).present
  {
    hide Undoable, Redoable, Room, Recorded, Undone, UndoOutcome, UndoSide, RedoSide, Flat, Meaning, Window, Served, StoreStep;
    ghost var d := ed.Content();
    RunKeepsWindow(h, d, ops);
    var i := 0;
    assert ops[0..] == ops;
    while i < |ops|
      invariant 0 <= i <= |ops| && ed.Valid() && !ed.lost
      invariant Held(ed.Content()) && RunServed(ed.Content(), ops[i..])
      invariant StoreRun(ed.Content(), ops[i..]) == StoreRun(d, ops)
      modifies ed, ed.rec, ed.chars
    {
      assert ops[i..][0] == ops[i] && ops[i..][1..] == ops[i + 1..];
      StepHeld(ed.Content(), ops[i]);
      Perform(ed, ops[i]);
      i := i + 1;
    }
  }

  // --------------------------------------------------------------------------
  // Where the store loses characters
  // --------------------------------------------------------------------------

  /** Undo and redo bring the text back exactly when the undo drops no characters (line 1182); when it does, the
      characters it took out stay out. */
  lemma RedoneAfterUndo(d: Doc)
    requires Undoable(d.text, d.undo) && UndoOutcome(d) == Done
    ensures Undone(d).redo != [] && Applicable(Undone(d).text, Undone(d).redo[0])
    ensures var e := d.undo[|d.undo| - 1];
      if e.del == 0 || |Flat(d.undo)| + e.del < CHARS then Redo(Undone(d)).text == d.text
      else Redo(Undone(d)).text == Apply(d.text, Entry(e.where, e.del, [])) != d.text
  {
    hide Flat, ShrinkRedo;
    var e := d.undo[|d.undo| - 1];
    var t := Apply(d.text, e);
    InverseUndoes(d.text, e);
    if DropsChars(d) {
      assert t[..e.where] == d.text[..e.where] && t[e.where + |e.ins|..] == d.text[e.where + e.del..];
    }
  }

  /** After characters have been dropped a later redo can lie outside the text: an insertion at the end of a long one
      is undone, the long one is undone and redone, and the next redo starts behind the end of the text. */
  method RedoOutside(a: Text, b: Text) returns (outcome: Outcome)
    requires CHARS <= |a| <= 0x7fff && 0 < |b| < CHARS
    ensures outcome == Outside
  {
    hide UndoSide, RedoSide, Undoable, Redoable, Room, Flat, Recorded, Undone, UndoOutcome, DropsChars;
    var ed := new Editor([]);
    TwoInserts(a, b);
    ed.InsertText(0, a);
    ed.InsertText(|a|, b);
    TailUndone(a, b);
    var first := ed.UndoEdit();
    AllDropped(a, b);
    var second := ed.UndoEdit();
    var third := ed.RedoEdit();
    outcome := ed.RedoEdit();
  }

  lemma TwoInserts(a: Text, b: Text)
    ensures var d1 := Doc(a, [Entry(0, |a|, [])], []);
      && Recorded(Doc([], [], []), Entry(0, 0, a)) == d1
      && Recorded(d1, Entry(|a|, 0, b)) == Doc(a + b, [Entry(0, |a|, []), Entry(|a|, |b|, [])], [])
  {
    FlatSingle(Entry(0, |a|, []));
    RecordedIsEdit(Doc([], [], []), Entry(0, 0, a));
    RecordedIsEdit(Doc(a, [Entry(0, |a|, [])], []), Entry(|a|, 0, b));
    assert [][..0] + a + [][0..] == a && a[..|a|] + b + a[|a| + 0..] == a + b;
    assert a[|a|..|a| + 0] == [];
  }

  lemma TailUndone(a: Text, b: Text)
    requires 0 < |b| < CHARS
    ensures var d := Doc(a + b, [Entry(0, |a|, []), Entry(|a|, |b|, [])], []);
      && Undoable(d.text, d.undo) && UndoOutcome(d) == Done && !DropsChars(d)
      && Undone(d) == Doc(a, [Entry(0, |a|, [])], [Entry(|a|, 0, b)])
  {
    var d := Doc(a + b, [Entry(0, |a|, []), Entry(|a|, |b|, [])], []);
    assert d.undo[..1] == [Entry(0, |a|, [])] && d.undo[..1][..0] == [];
    assert (a + b)[..|a|] + [] + (a + b)[|a| + |b|..] == a && (a + b)[|a|..|a| + |b|] == b;
    FlatConcat([Entry(0, |a|, [])], [Entry(|a|, |b|, [])]);
    FlatSingle(Entry(0, |a|, []));
    FlatSingle(Entry(|a|, |b|, []));
    assert d.undo == [Entry(0, |a|, [])] + [Entry(|a|, |b|, [])];
  }

  lemma AllDropped(a: Text, b: Text)
    requires CHARS <= |a|
    ensures var d := Doc(a, [Entry(0, |a|, [])], [Entry(|a|, 0, b)]);
      && Undoable(d.text, d.undo) && UndoOutcome(d) == Done && DropsChars(d)
      && Undone(d) == Doc([], [], [Entry(0, 0, []), Entry(|a|, 0, b)])
  {
    assert [Entry(0, |a|, [])][..0] == [];
  }

  // --------------------------------------------------------------------------
  // Where the store gives up
  // --------------------------------------------------------------------------

  /** The case the comment at line 1192 calls impossible: two insertions that do not fit beside each other. */
  lemma SecondUndoStuck(d0: Doc, a: Text, b: Text)
    requires Undoable(d0.text, d0.undo) && |d0.undo| + 2 <= STATES && Flat(d0.undo) == []
    requires 0 < |a| < CHARS && |b| < CHARS && |a| + |b| > CHARS
    ensures var d := Recorded(Recorded(d0, Entry(0, 0, a)), Entry(0, 0, b));
      && Undoable(d.text, d.undo) && |d.undo| == |d0.undo| + 2 && UndoOutcome(d) == Done
      && Undoable(Undone(d).text, Undone(d).undo) && UndoOutcome(Undone(d)) == Stuck
      && |Undone(d).undo| + |Undone(d).redo| == |d0.undo| + 2
  {
    hide Undoable, Shrink, Trim, Recorded;
    var e, f := Entry(0, 0, a), Entry(0, 0, b);
    var d1 := Recorded(d0, e);
    RecordedInsert(d0, a);
    var d2 := Recorded(d1, f);
    RecordedInsert(d1, b);
    assert d2.undo[..|d1.undo|] == d1.undo;
    var d3 := Undone(d2);
    UndoneIsUndo(d2);
    LastApplies(d2.text, d2.undo);
    assert d2.text[..|b|] == b;
    assert d3.redo == [Entry(0, 0, b)];
    FlatSingle(d3.redo[0]);
    assert d3.redo[..0] == [];
    assert ShrinkRedo(d3.redo, 0, |a|) == ShrinkRedo(d3.redo[..0], 0, |a|);
  }

  /** Recording an insertion stores no characters. */
  lemma RecordedInsert(d: Doc, s: Text)
    requires Undoable(d.text, d.undo) && |d.undo| < STATES && |Flat(d.undo)| <= CHARS
    ensures var d' := Recorded(d, Entry(0, 0, s));
      && d'.undo == d.undo + [Entry(0, |s|, [])] && d'.redo == [] && d'.text == s + d.text
      && Flat(d'.undo) == Flat(d.undo) && Undoable(d'.text, d'.undo)
  {
    RecordedIsEdit(d, Entry(0, 0, s));
    RecordedSound(d, Entry(0, 0, s));
    assert d.text[0..0] == [];
    FlatConcat(d.undo, [Entry(0, |s|, [])]);
    FlatSingle(Entry(0, |s|, []));
  }

  /** The same on the store itself: two long insertions, and the second undo gives up although there is
      something to undo. */
  method GivesUp(a: Text, b: Text) returns (first: Outcome, second: Outcome)
    requires 0 < |a| < CHARS && |b| < CHARS && |a| + |b| > CHARS
    ensures first == Done && second == Stuck
  {
    var ed := new Editor([]);
    SecondUndoStuck(ed.Content(), a, b);
    ed.InsertText(0, a);
    ed.InsertText(0, b);
    first := ed.UndoEdit();
    second := ed.UndoEdit();
  }

  /** With all 99 records in use, giving up leaves the half-written redo record on top of the undo stack: no undo
      list matches the arrays any more. */
  method Breaks(a: Text, b: Text) returns (ed: Editor)
    requires 0 < |a| < CHARS && |b| < CHARS && |a| + |b| > CHARS
    ensures forall es :: !UndoSide(ed.rec[..], ed.chars[..], ed.undoPoint, ed.undoCharPoint, es)
  {
    hide Recorded, Undone, Flat, UndoSide, RedoSide, Undoable, Redoable, Room;
    ed := new Editor([]);
    var i := 0;
    FlatNone();
    while i < STATES - 2
      invariant fresh(ed) && fresh(ed.rec) && fresh(ed.chars)
      invariant ed.Valid() && 0 <= i <= STATES - 2 && |ed.undo| == i && Flat(ed.undo) == []
      modifies ed, ed.rec, ed.chars
    {
      RecordedInsert(ed.Content(), [i]);
      ed.InsertText(0, [i]);
      i := i + 1;
    }
    SecondUndoStuck(ed.Content(), a, b);
    ed.InsertText(0, a);
    ed.InsertText(0, b);
    var first := ed.UndoEdit();
    var second := ed.UndoEdit();
  }

  lemma FlatNone()
    ensures Flat([]) == []
  {
  }
}
