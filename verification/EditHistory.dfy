/** Edits, their inverses, and a document with an undo and a redo list refining a history of texts with a cursor. */
module EditHistory {
  type Text = seq<int>

  /** Replace `del` characters at `where` by `ins`. */
  datatype Entry = Entry(where: int, del: int, ins: Text)

  predicate Applicable(t: Text, e: Entry) {
    0 <= e.where && 0 <= e.del && e.where + e.del <= |t|
  }

  function Apply(t: Text, e: Entry): Text
    requires Applicable(t, e)
  {
    t[..e.where] + e.ins + t[e.where + e.del..]
  }

  /** The entry that takes Apply(t, e) back to t. */
  function Inverse(t: Text, e: Entry): Entry
    requires Applicable(t, e)
  {
    Entry(e.where, |e.ins|, t[e.where..e.where + e.del])
  }

  lemma InverseUndoes(t: Text, e: Entry)
    requires Applicable(t, e)
    ensures Applicable(Apply(t, e), Inverse(t, e))
    ensures Apply(Apply(t, e), Inverse(t, e)) == t
    ensures Inverse(Apply(t, e), Inverse(t, e)) == e
  {
    var u := Apply(t, e);
    assert u[..e.where] == t[..e.where];
    assert u[e.where + |e.ins|..] == t[e.where + e.del..];
    assert u[e.where..e.where + |e.ins|] == e.ins;
  }

  // --------------------------------------------------------------------------
  // Documents
  // --------------------------------------------------------------------------

  /** The undo list has its newest entry last, the redo list its next entry first. */
  datatype Doc = Doc(text: Text, undo: seq<Entry>, redo: seq<Entry>)

  /** Each undo entry applies to the text the later ones lead back to. */
  ghost predicate Undoable(t: Text, undo: seq<Entry>)
    decreases |undo|
  {
    undo == [] ||
    (var n := |undo| - 1;
     Applicable(t, undo[n]) && Undoable(Apply(t, undo[n]), undo[..n]))
  }

  ghost predicate Redoable(t: Text, redo: seq<Entry>)
    decreases |redo|
  {
    redo == [] || (Applicable(t, redo[0]) && Redoable(Apply(t, redo[0]), redo[1..]))
  }

  ghost predicate Sound(d: Doc) {
    Undoable(d.text, d.undo) && Redoable(d.text, d.redo)
  }

  function Edit(d: Doc, e: Entry): Doc
    requires Applicable(d.text, e)
  {
    Doc(Apply(d.text, e), d.undo + [Inverse(d.text, e)], [])
  }

  function Undo(d: Doc): Doc
    requires d.undo != [] ==> Applicable(d.text, d.undo[|d.undo| - 1])
  {
    if d.undo == [] then d
    else
      var u := d.undo[|d.undo| - 1];
      Doc(Apply(d.text, u), d.undo[..|d.undo| - 1], [Inverse(d.text, u)] + d.redo)
  }

  function Redo(d: Doc): Doc
    requires d.redo != [] ==> Applicable(d.text, d.redo[0])
  {
    if d.redo == [] then d
    else Doc(Apply(d.text, d.redo[0]), d.undo + [Inverse(d.text, d.redo[0])], d.redo[1..])
  }

  lemma UndoableAppend(t: Text, undo: seq<Entry>, u: Entry)
    requires Applicable(t, u) && Undoable(Apply(t, u), undo)
    ensures Undoable(t, undo + [u])
  {
    assert (undo + [u])[..|undo|] == undo;
  }

  lemma RedoablePrepend(t: Text, redo: seq<Entry>, r: Entry)
    requires Applicable(t, r) && Redoable(Apply(t, r), redo)
    ensures Redoable(t, [r] + redo)
  {
    assert ([r] + redo)[1..] == redo;
  }

  lemma EditSound(d: Doc, e: Entry)
    requires Undoable(d.text, d.undo) && Applicable(d.text, e)
    ensures Sound(Edit(d, e))
  {
    InverseUndoes(d.text, e);
    UndoableAppend(Apply(d.text, e), d.undo, Inverse(d.text, e));
  }

  lemma UndoSound(d: Doc)
    requires Sound(d)
    ensures Sound(Undo(d)) && (d.undo != [] ==> Redo(Undo(d)) == d)
  {
    if d.undo != [] {
      var n := |d.undo| - 1;
      InverseUndoes(d.text, d.undo[n]);
      RedoablePrepend(Apply(d.text, d.undo[n]), d.redo, Inverse(d.text, d.undo[n]));
      assert d.undo == d.undo[..n] + [d.undo[n]];
      assert ([Inverse(d.text, d.undo[n])] + d.redo)[1..] == d.redo;
    }
  }

  lemma RedoSound(d: Doc)
    requires Sound(d)
    ensures Sound(Redo(d)) && (d.redo != [] ==> Undo(Redo(d)) == d)
  {
    if d.redo != [] {
      var r := d.redo[0];
      InverseUndoes(d.text, r);
      UndoableAppend(Apply(d.text, r), d.undo, Inverse(d.text, r));
      assert (d.undo + [Inverse(d.text, r)])[..|d.undo|] == d.undo;
      assert d.redo == [d.redo[0]] + d.redo[1..];
    }
  }

  // --------------------------------------------------------------------------
  // The history it stands for
  // --------------------------------------------------------------------------

  /** Texts before and after the present one. */
  datatype History = History(past: seq<Text>, present: Text, future: seq<Text>)

  function HEdit(h: History, t: Text): History {
    History(h.past + [h.present], t, [])
  }

  function HUndo(h: History): History {
    if h.past == [] then h
    else History(h.past[..|h.past| - 1], h.past[|h.past| - 1], [h.present] + h.future)
  }

  function HRedo(h: History): History {
    if h.future == [] then h
    else History(h.past + [h.present], h.future[0], h.future[1..])
  }

  ghost function Past(t: Text, undo: seq<Entry>): seq<Text>
    requires Undoable(t, undo)
    decreases |undo|
  {
    if undo == [] then []
    else
      var n := |undo| - 1;
      Past(Apply(t, undo[n]), undo[..n]) + [Apply(t, undo[n])]
  }

  ghost function Future(t: Text, redo: seq<Entry>): seq<Text>
    requires Redoable(t, redo)
    decreases |redo|
  {
    if redo == [] then []
    else [Apply(t, redo[0])] + Future(Apply(t, redo[0]), redo[1..])
  }

  ghost function Meaning(d: Doc): History
    requires Sound(d)
  {
    History(Past(d.text, d.undo), d.text, Future(d.text, d.redo))
  }

  datatype Op = DoEdit(e: Entry) | DoUndo | DoRedo

  ghost predicate Enabled(d: Doc, op: Op) {
    op.DoEdit? ==> Applicable(d.text, op.e)
  }

  function Step(d: Doc, op: Op): Doc
    requires op.DoEdit? ==> Applicable(d.text, op.e)
    requires op.DoUndo? && d.undo != [] ==> Applicable(d.text, d.undo[|d.undo| - 1])
    requires op.DoRedo? && d.redo != [] ==> Applicable(d.text, d.redo[0])
  {
    match op
    case DoEdit(e) => Edit(d, e)
    case DoUndo => Undo(d)
    case DoRedo => Redo(d)
  }

  function HStep(h: History, op: Op): History
    requires op.DoEdit? ==> Applicable(h.present, op.e)
  {
    match op
    case DoEdit(e) => HEdit(h, Apply(h.present, e))
    case DoUndo => HUndo(h)
    case DoRedo => HRedo(h)
  }

  /** One step of the document is one step of the history. */
  lemma StepRefines(d: Doc, op: Op)
    requires Sound(d) && Enabled(d, op)
    ensures Sound(Step(d, op)) && Meaning(Step(d, op)) == HStep(Meaning(d), op)
  {
    match op
    case DoEdit(e) =>
      EditSound(d, e);
      InverseUndoes(d.text, e);
      assert (d.undo + [Inverse(d.text, e)])[..|d.undo|] == d.undo;
    case DoUndo =>
      UndoSound(d);
      if d.undo != [] {
        var u := d.undo[|d.undo| - 1];
        InverseUndoes(d.text, u);
        assert ([Inverse(d.text, u)] + d.redo)[1..] == d.redo;
        var p := Past(Apply(d.text, u), d.undo[..|d.undo| - 1]);
        assert (p + [Apply(d.text, u)])[..|p|] == p;
      }
    case DoRedo =>
      RedoSound(d);
      if d.redo != [] {
        var r := d.redo[0];
        InverseUndoes(d.text, r);
        assert (d.undo + [Inverse(d.text, r)])[..|d.undo|] == d.undo;
      }
  }

  /** A run whose edits all apply where they happen. */
  ghost predicate Runs(h: History, ops: seq<Op>)
    decreases |ops|
  {
    ops == [] || ((ops[0].DoEdit? ==> Applicable(h.present, ops[0].e)) && Runs(HStep(h, ops[0]), ops[1..]))
  }

  ghost function Run(d: Doc, ops: seq<Op>): Doc
    requires Sound(d) && Runs(Meaning(d), ops)
    decreases |ops|
  {
    if ops == [] then d
    else
      StepRefines(d, ops[0]);
      Run(Step(d, ops[0]), ops[1..])
  }

  ghost function HRun(h: History, ops: seq<Op>): History
    requires Runs(h, ops)
    decreases |ops|
  {
    if ops == [] then h else HRun(HStep(h, ops[0]), ops[1..])
  }

  /** Any interleaving of edits, undos and redos leads to the text at the history's current position. */
  lemma {:induction false} RunRefines(d: Doc, ops: seq<Op>)
    requires Sound(d) && Runs(Meaning(d), ops)
    ensures Sound(Run(d, ops)) && Meaning(Run(d, ops)) == HRun(Meaning(d), ops)
    ensures Run(d, ops).text == HRun(Meaning(d), ops).present
    decreases |ops|
  {
    if ops != [] {
      StepRefines(d, ops[0]);
      RunRefines(Step(d, ops[0]), ops[1..]);
    }
  }

  // --------------------------------------------------------------------------
  // n steps back and n steps forward
  // --------------------------------------------------------------------------

  function Repeat(op: Op, n: nat): seq<Op> {
    if n == 0 then [] else [op] + Repeat(op, n - 1)
  }

  /** n undos reach the text n positions back, and n redos from there return to the start. */
  lemma {:induction false} UndosThenRedos(h: History, n: nat)
    requires n <= |h.past|
    ensures Runs(h, Repeat(DoUndo, n)) && Runs(HRun(h, Repeat(DoUndo, n)), Repeat(DoRedo, n))
    ensures var back := HRun(h, Repeat(DoUndo, n));
      && back.present == (h.past + [h.present])[|h.past| - n]
      && HRun(back, Repeat(DoRedo, n)) == h
    decreases n
  {
    if n > 0 {
      var h1 := HUndo(h);
      UndosThenRedos(h1, n - 1);
      assert Repeat(DoUndo, n)[1..] == Repeat(DoUndo, n - 1);
      var back := HRun(h1, Repeat(DoUndo, n - 1));
      assert HRun(h, Repeat(DoUndo, n)) == back;
      RedoLast(back, n - 1, h1);
      assert HRedo(h1) == h;
    }
  }

  /** n redos leading to h1 and one more are n + 1 redos. */
  lemma {:induction false} RedoLast(h: History, n: nat, h1: History)
    requires Runs(h, Repeat(DoRedo, n)) && HRun(h, Repeat(DoRedo, n)) == h1
    ensures Runs(h, Repeat(DoRedo, n + 1)) && HRun(h, Repeat(DoRedo, n + 1)) == HRedo(h1)
    decreases n
  {
    assert Repeat(DoRedo, n + 1)[1..] == Repeat(DoRedo, n);
    if n > 0 {
      assert Repeat(DoRedo, n)[1..] == Repeat(DoRedo, n - 1);
      RedoLast(HRedo(h), n - 1, h1);
    } else {
      assert Repeat(DoRedo, 1) == [DoRedo];
    }
  }

  // --------------------------------------------------------------------------
  // Forgetting
  // --------------------------------------------------------------------------

  /** Dropping the k oldest undo entries forgets the k oldest texts and nothing else. */
  lemma {:induction false} ForgetOldest(t: Text, undo: seq<Entry>, k: nat)
    requires Undoable(t, undo) && k <= |undo|
    ensures Undoable(t, undo[k..]) && |Past(t, undo)| == |undo|
    ensures Past(t, undo[k..]) == Past(t, undo)[k..]
    decreases |undo|
  {
    if undo != [] {
      var n := |undo| - 1;
      ForgetOldest(Apply(t, undo[n]), undo[..n], if k <= n then k else n);
      if k <= n {
        assert undo[k..][..n - k] == undo[..n][k..];
      }
    }
  }

  /** Dropping the oldest redo entries shortens the future. */
  lemma {:induction false} ForgetFuture(t: Text, redo: seq<Entry>, k: nat)
    requires Redoable(t, redo) && k <= |redo|
    ensures Redoable(t, redo[..k]) && |Future(t, redo)| == |redo|
    ensures Future(t, redo[..k]) == Future(t, redo)[..k]
    decreases |redo|
  {
    if redo != [] {
      ForgetFuture(Apply(t, redo[0]), redo[1..], if k > 0 then k - 1 else 0);
      if k > 0 {
        assert redo[..k][1..] == redo[1..][..k - 1];
      }
    }
  }
}
