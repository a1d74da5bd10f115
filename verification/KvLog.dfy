/** The textual redo log: how operations are printed, how fscanf and fgets read them back, and what replaying does. */
module KvLog {
  import opened Ctype
  import opened KvModel

  const KEY_LENGTH := 256
  /** fgets reads at most this many characters. */
  const LINE := 33554431

  // --------------------------------------------------------------------------
  // Reading
  // --------------------------------------------------------------------------

  /** The characters %s takes, at most `max` of them. */
  function Word(s: string, max: nat): (w: string)
    ensures |w| <= max && w <= s
  {
    if s == [] || max == 0 || IsSpace(s[0]) then [] else [s[0]] + Word(s[1..], max - 1)
  }

  /** The characters fgets takes: through the first newline, at most `max` of them. */
  function Line(s: string, max: nat): (l: string)
    ensures l <= s && (s != [] && max > 0 ==> l != [])
  {
    if s == [] || max == 0 then []
    else if s[0] == '\n' then [s[0]]
    else [s[0]] + Line(s[1..], max - 1)
  }

  /** One turn of the loop at line 187. Undefined: a key longer than its buffer, or a put at the end of the file,
      where fgets leaves its buffer alone. */
  datatype Parsed = Next(op: Op, rest: string) | Finished | Invalid | Undefined

  function Parse(s: string): (p: Parsed)
    ensures p.Next? ==> |p.rest| < |s|
    ensures p.Next? && p.op.Put? ==> |p.op.value| <= LINE
  {
    var s1 := SkipSpace(s);
    var operation := Word(s1, 3);
    var s2 := SkipSpace(s1[|operation|..]);
    var key := Word(s2, |s2|);
    var rest := SkipSpace(s2[|key|..]);
    if operation == [] || key == [] then Finished
    else if |key| >= KEY_LENGTH then Undefined
    else if operation == "put" then
      if rest == [] then Undefined
      else
        var line := Line(rest, LINE);
        LineLength(rest, LINE);
        Next(Put(key, line[..|line| - 1]), rest[|line|..])
    else if operation == "get" then Next(Get(key), rest)
    else Invalid
  }

  lemma {:induction false} LineLength(s: string, max: nat)
    ensures |Line(s, max)| <= max
  {
    if s != [] && max > 0 && s[0] != '\n' {
      LineLength(s[1..], max - 1);
    }
  }

  // --------------------------------------------------------------------------
  // Printing
  // --------------------------------------------------------------------------

  function PrintOp(op: Op): string {
    match op
    case Put(k, v) => "put " + k + " " + v + "\n"
    case Get(k) => "get " + k + " \n"
  }

  function Print(ops: seq<Op>): string {
    if ops == [] then [] else Print(ops[..|ops| - 1]) + PrintOp(ops[|ops| - 1])
  }

  lemma {:induction false} PrintSplit(op: Op, ops: seq<Op>)
    ensures Print([op] + ops) == PrintOp(op) + Print(ops)
  {
    hide PrintOp;
    if ops == [] {
      assert [op] + ops == [op] && [op][..0] == [];
    } else {
      var init, last := ops[..|ops| - 1], PrintOp(ops[|ops| - 1]);
      assert ([op] + ops)[..|ops|] == [op] + init;
      PrintSplit(op, init);
      assert (PrintOp(op) + Print(init)) + last == PrintOp(op) + (Print(init) + last);
    }
  }

  predicate Key(k: string) {
    0 < |k| < KEY_LENGTH && forall i :: 0 <= i < |k| ==> !IsSpace(k[i])
  }

  /** Values that survive the log: not empty, no newline, no white space in front. */
  predicate Plain(v: string) {
    v != [] && !IsSpace(v[0]) && '\n' !in v
  }

  /** As every C string is. */
  predicate NulFree(s: string) {
    '\0' !in s
  }

  predicate Loggable(op: Op) {
    Key(op.key) && NulFree(op.key) && (op.Put? ==> Plain(op.value) && NulFree(op.value) && |op.value| <= MAX_VALUE)
  }

  // --------------------------------------------------------------------------
  // The round trip
  // --------------------------------------------------------------------------

  /** w is read back as a word when it is at its bound or what follows is white space. */
  lemma {:induction false} WordOf(w: string, t: string, max: nat)
    requires forall i :: 0 <= i < |w| ==> !IsSpace(w[i])
    requires |w| <= max && (|w| == max || t == [] || IsSpace(t[0]))
    ensures Word(w + t, max) == w
  {
    if w == [] {
      assert w + t == t;
    } else {
      assert (w + t)[1..] == w[1..] + t;
      WordOf(w[1..], t, max - 1);
    }
  }

  lemma {:induction false} LineOf(v: string, t: string, max: nat)
    requires '\n' !in v && |v| < max
    ensures Line(v + "\n" + t, max) == v + "\n"
  {
    var s := v + "\n" + t;
    if v == [] {
      assert s[0] == '\n';
    } else {
      assert s[1..] == v[1..] + "\n" + t;
      assert s[0] == v[0];
      LineOf(v[1..], t, max - 1);
    }
  }

  /** Reading stops at the first newline. */
  lemma {:induction false} LineStops(s: string, max: nat)
    ensures forall i :: 0 <= i < |Line(s, max)| - 1 ==> Line(s, max)[i] != '\n'
  {
    if s != [] && max > 0 && s[0] != '\n' {
      LineStops(s[1..], max - 1);
    }
  }

  /** The text after the key of a printed operation. */
  function Tail(op: Op): string {
    match op
    case Put(_, v) => " " + v + "\n"
    case Get(_) => " \n"
  }

  /** The key is read back; what is left is the tail. */
  lemma KeyRead(op: Op, t: string)
    requires Key(op.key)
    ensures var s := PrintOp(op) + t;
      && SkipSpace(s) == s && Word(s, 3) == s[..3] && s[..3] == Name(op)
      && SkipSpace(s[3..]) == op.key + (Tail(op) + t)
      && Word(op.key + (Tail(op) + t), |op.key + (Tail(op) + t)|) == op.key
  {
    hide SkipSpace, Word, Key;
    PrintShape(op);
    var after := op.key + (Tail(op) + t);
    Regroup(Name(op), " ", op.key, Tail(op), t);
    NameRead(Name(op), op.key, Tail(op) + t);
  }

  function Name(op: Op): string {
    if op.Put? then "put" else "get"
  }

  lemma PrintShape(op: Op)
    ensures PrintOp(op) == Name(op) + " " + op.key + Tail(op)
  {
    assert "put " == "put" + " " && "get " == "get" + " ";
    match op
    case Put(k, v) =>
      Regroup("put", " ", k, " " + v, "\n");
      Regroup("put", " ", k, " ", v);
    case Get(k) =>
  }

  lemma Regroup(a: string, b: string, c: string, d: string, e: string)
    ensures a + b + c + d + e == a + (b + (c + (d + e))) == a + b + c + (d + e)
  {
  }

  lemma NameRead(name: string, k: string, t: string)
    requires |name| == 3 && forall i :: 0 <= i < 3 ==> !IsSpace(name[i])
    requires Key(k) && t != [] && IsSpace(t[0])
    ensures var s := name + (" " + (k + t));
      && SkipSpace(s) == s && Word(s, 3) == s[..3] == name
      && SkipSpace(s[3..]) == k + t
      && Word(k + t, |k + t|) == k
  {
    hide Word, SkipSpace;
    var after := k + t;
    var s := name + (" " + after);
    WordOf(name, " " + after, 3);
    assert s[0] == name[0];
    NoSkip(s);
    assert s[3..] == " " + after;
    SkipOne(' ', after);
    assert after[0] == k[0];
    NoSkip(after);
    WordOf(k, t, |after|);
  }

  lemma ParseOf(op: Op, t: string)
    requires Key(op.key)
    ensures var rest := SkipSpace(Tail(op) + t);
      Parse(PrintOp(op) + t) ==
      if op.Get? then Next(op, rest)
      else if rest == [] then Undefined
      else Next(Put(op.key, Line(rest, LINE)[..|Line(rest, LINE)| - 1]), rest[|Line(rest, LINE)|..])
  {
    hide SkipSpace, Word, Line, PrintOp, Tail;
    KeyRead(op, t);
    var s, after := PrintOp(op) + t, op.key + (Tail(op) + t);
    assert after[|op.key|..] == Tail(op) + t;
  }

  lemma SkipOne(c: char, s: string)
    requires IsSpace(c)
    ensures SkipSpace([c] + s) == SkipSpace(s)
  {
    assert ([c] + s)[1..] == s;
  }

  /** What is read back as a key is one: not empty, short enough, no white space. */
  lemma ReadsKeys(s: string)
    ensures Parse(s).Next? ==> Key(Parse(s).op.key)
  {
    hide SkipSpace, Line;
    var s1 := SkipSpace(s);
    var s2 := SkipSpace(s1[|Word(s1, 3)|..]);
    WordPlain(s2, |s2|);
  }

  lemma {:induction false} WordPlain(s: string, max: nat)
    ensures forall i :: 0 <= i < |Word(s, max)| ==> !IsSpace(Word(s, max)[i])
  {
    if s != [] && max > 0 && !IsSpace(s[0]) {
      WordPlain(s[1..], max - 1);
    }
  }

  /** A printed put is read back exactly when its key is one word and its value is plain. */
  lemma PutRoundTrip(k: string, v: string, t: string)
    requires |v| <= MAX_VALUE
    ensures Parse(PrintOp(Put(k, v)) + t) == Next(Put(k, v), t) <==> Key(k) && Plain(v)
  {
    hide Parse, PrintOp, Key, Plain;
    ReadsKeys(PrintOp(Put(k, v)) + t);
    if Key(k) {
      ValueRoundTrip(k, v, t);
    }
  }

  lemma ValueRoundTrip(k: string, v: string, t: string)
    requires Key(k) && |v| <= MAX_VALUE
    ensures Parse(PrintOp(Put(k, v)) + t) == Next(Put(k, v), t) <==> Plain(v)
  {
    hide SkipSpace, Word, Line, PrintOp, Parse;
    ParseOf(Put(k, v), t);
    var after := v + "\n" + t;
    assert Tail(Put(k, v)) + t == " " + after;
    SkipOne(' ', after);
    var rest := SkipSpace(after);
    if v != [] && !IsSpace(v[0]) {
      assert after[0] == v[0];
      NoSkip(after);
      if '\n' !in v {
        LineOf(v, t, LINE);
        assert (v + "\n")[..|v|] == v;
        assert after[|v| + 1..] == t;
      } else {
        LineStops(rest, LINE);
        assert '\n' !in Line(rest, LINE)[..|Line(rest, LINE)| - 1];
      }
    } else if v == [] {
      assert after == "\n" + t;
      SkipOne('\n', t);
    }
  }

  lemma NoSkip(s: string)
    requires s != [] && !IsSpace(s[0])
    ensures SkipSpace(s) == s
  {
  }

  /** A printed get is read back exactly when its key is one word; white space behind it is skipped. */
  lemma GetRoundTrip(k: string, t: string)
    ensures Parse(PrintOp(Get(k)) + t) == Next(Get(k), SkipSpace(t)) <==> Key(k)
  {
    hide Parse, PrintOp, Key;
    ReadsKeys(PrintOp(Get(k)) + t);
    if Key(k) {
      KeyRoundTrip(k, t);
    }
  }

  lemma KeyRoundTrip(k: string, t: string)
    requires Key(k)
    ensures Parse(PrintOp(Get(k)) + t) == Next(Get(k), SkipSpace(t))
  {
    hide SkipSpace, Word, Line, PrintOp, Parse;
    ParseOf(Get(k), t);
    assert Tail(Get(k)) + t == " " + ("\n" + t);
    SkipOne(' ', "\n" + t);
    SkipOne('\n', t);
  }

  // --------------------------------------------------------------------------
  // Replaying
  // --------------------------------------------------------------------------

  /** Stopped: the program exits, on an unreadable operation or a full store. */
  datatype Replayed = Rebuilt(es: seq<Pair>) | Stopped(es: seq<Pair>) | Unclear

  ghost function Replay(es: seq<Pair>, s: string): Replayed
    decreases |s|
  {
    match Parse(s)
    case Finished => Rebuilt(es)
    case Invalid => Stopped(es)
    case Undefined => Unclear
    case Next(op, rest) =>
      if !HasSlot(es, op) || (op.Put? && |op.value| > MAX_VALUE) then Unclear
      else if !HasBlocks(es, op) then Stopped(Without(es, op.key))
      else Replay(Step(es, op), rest)
  }

  lemma PrintStart(ops: seq<Op>)
    ensures SkipSpace(Print(ops)) == Print(ops)
  {
    if ops != [] {
      assert ops == [ops[0]] + ops[1..];
      PrintSplit(ops[0], ops[1..]);
    }
  }

  lemma NothingToParse()
    ensures Parse([]) == Finished
  {
  }

  /** Replaying the printed log of a run over the entries it started from gives the entries it ended with. */
  lemma {:induction false} ReplayPrinted(es: seq<Pair>, ops: seq<Op>)
    requires RunFits(es, ops) && forall i :: 0 <= i < |ops| ==> Loggable(ops[i])
    ensures Replay(es, Print(ops)) == Rebuilt(Run(es, ops))
    decreases |ops|
  {
    hide Parse, PrintOp, Plain, HasSlot, HasBlocks, Step, SkipSpace;
    if ops == [] {
      NothingToParse();
    } else {
      var op, more := ops[0], ops[1..];
      assert ops == [op] + more;
      PrintSplit(op, more);
      PrintStart(more);
      if op.Put? {
        PutRoundTrip(op.key, op.value, Print(more));
      } else {
        GetRoundTrip(op.key, Print(more));
      }
      ReplayPrinted(Step(es, op), more);
    }
  }

  ghost predicate OneWord(s: string) {
    forall i :: 0 <= i < |s| ==> !IsSpace(s[i])
  }

  /** Two words at the start of a text, the first of at most three characters. */
  lemma TwoWords(b1: string, name: string, b2: string, key: string, t: string)
    requires Blank(b1) && Blank(b2) && OneWord(name) && OneWord(key) && 1 <= |name| <= 3 && (|name| < 3 ==> b2 != "")
    requires key != "" && (t == "" || IsSpace(t[0]))
    ensures var s1 := SkipSpace(b1 + (name + (b2 + (key + t))));
      && Word(s1, 3) == name
      && var s2 := SkipSpace(s1[|name|..]);
         Word(s2, |s2|) == key && s2[|key|..] == t
  {
    hide SkipSpace, Word, IsSpace;
    var after := key + t;
    var s1 := name + (b2 + after);
    assert after[0] == key[0] && s1[0] == name[0];
    BlankSkipped(b1, s1);
    assert b2 != "" ==> (b2 + after)[0] == b2[0];
    WordOf(name, b2 + after, 3);
    assert s1[|name|..] == b2 + after;
    BlankSkipped(b2, after);
    WordOf(key, t, |after|);
    assert after[|key|..] == t;
  }

  /** Any line of a log, taken apart: white space, operation, key and the text behind them. Unknown operations stop the
      replay, a key that overflows its buffer and a put at the end of the text leave it undefined, and the value of a
      put is the rest of its line, or of the text, without the last character. */
  lemma AnyLine(b1: string, name: string, b2: string, key: string, b3: string, rest: string)
    requires Blank(b1) && Blank(b2) && OneWord(name) && OneWord(key) && 1 <= |name| <= 3 && (|name| < 3 ==> b2 != "")
    requires key != "" && Blank(b3) && (b3 == "" ==> rest == "") && (rest == "" || !IsSpace(rest[0]))
    ensures var p := Parse(b1 + (name + (b2 + (key + (b3 + rest)))));
      if |key| >= 256 || (name == "put" && rest == "") then p == Undefined
      else if name == "get" then p == Next(Get(key), rest)
      else if name != "put" then p == Invalid
      else
        && p.Next? && p.op.Put? && p.op.key == key
        && var (v, n) := (p.op.value, |p.op.value| + 1);
           && n <= |rest| && n <= 33554431 && v == rest[..n - 1] && p.rest == rest[n..] && '\n' !in v
           && (rest[n - 1] == '\n' || n == |rest| || n == 33554431)
  {
    hide SkipSpace, Word, Line, IsSpace;
    assert b3 != "" ==> (b3 + rest)[0] == b3[0];
    TwoWords(b1, name, b2, key, b3 + rest);
    BlankSkipped(b3, rest);
    if rest != "" {
      LineIs(rest, LINE);
      LineStops(rest, LINE);
    }
  }

  lemma {:induction false} LineIs(s: string, max: nat)
    requires s != "" && max > 0
    ensures var n := |Line(s, max)|;
      1 <= n <= max && n <= |s| && Line(s, max) == s[..n] && (s[n - 1] == '\n' || n == |s| || n == max)
  {
    if max > 1 && |s| > 1 && s[0] != '\n' {
      LineIs(s[1..], max - 1);
    }
  }

  /** Fewer than two words end the replay. */
  lemma NoLine(b1: string, name: string, b2: string)
    requires Blank(b1) && Blank(b2) && OneWord(name) && |name| <= 3 && (name == "" ==> b2 == "")
    ensures Parse(b1 + (name + b2)) == Finished
  {
    hide SkipSpace, Word, IsSpace;
    assert name + b2 != "" ==> name != "" && (name + b2)[0] == name[0];
    BlankSkipped(b1, name + b2);
    WordOf(name, b2, 3);
    assert (name + b2)[|name|..] == b2;
    assert b2 + "" == b2;
    BlankSkipped(b2, "");
    WordOf("", "", 0);
  }

  /** Why keys must be single words: a put of a key with a blank comes back as a put of its first word. */
  lemma BlankSplitsKey(k: string, rest: string, v: string, t: string)
    requires Key(k) && Plain(rest) && '\n' !in v && |rest| + |v| < MAX_VALUE
    ensures Parse(PrintOp(Put(k + " " + rest, v)) + t) == Next(Put(k, rest + " " + v), t)
  {
    hide Parse, Key;
    var w := rest + " " + v;
    assert PrintOp(Put(k + " " + rest, v)) == PrintOp(Put(k, w));
    assert w[0] == rest[0];
    PutRoundTrip(k, w, t);
  }

  /** Why values must be plain: the empty value of one put swallows the operation logged after it. */
  lemma EmptyValueSwallows(k: string, j: string)
    requires Key(k) && Key(j)
    ensures Parse(PrintOp(Put(k, "")) + PrintOp(Get(j))) == Next(Put(k, "get " + j + " "), "")
  {
    hide Word, Parse, SkipSpace;
    var t := PrintOp(Get(j));
    ParseOf(Put(k, ""), t);
    assert Tail(Put(k, "")) + t == " " + ("\n" + t);
    SkipOne(' ', "\n" + t);
    SkipOne('\n', t);
    NoSkip(t);
    assert t == ("get " + j + " ") + "\n" + "";
    assert '\n' !in "get " + j + " ";
    LineOf("get " + j + " ", "", LINE);
  }
}
