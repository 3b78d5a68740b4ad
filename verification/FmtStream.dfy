/** The argp formatted stream, for lines that fit its right margin: a growing buffer in front of a
    `FILE`, with blanks put in at the start of each line. */
module FmtStream {
  import opened CText

  // ----- What indenting means -------------------------------------------

  function Blanks(n: nat): (s: string)
    ensures |s| == n && forall i :: 0 <= i < n ==> s[i] == ' '
  {
    seq(n, _ => ' ')
  }

  /** The left margin is due at the start of a line. */
  predicate Due(lm: nat, col: nat) {
    col == 0 && lm != 0
  }

  /** The column where the next character goes. */
  function Start(lm: nat, col: nat): nat {
    if Due(lm, col) then lm else col
  }

  function Step(lm: nat, col: nat, c: char): nat {
    if c == '\n' then 0 else Start(lm, col) + 1
  }

  /** The text with `lm` blanks in front of each line, the first one starting at column `col`. */
  function Indent(lm: nat, col: nat, text: string): string
    decreases |text|
  {
    if text == [] then []
    else (if Due(lm, col) then Blanks(lm) else []) + [text[0]] + Indent(lm, Step(lm, col, text[0]), text[1..])
  }

  function Column(lm: nat, col: nat, text: string): nat
    decreases |text|
  {
    if text == [] then col else Column(lm, Step(lm, col, text[0]), text[1..])
  }

  /** Every line stays left of the right margin. */
  predicate Fits(lm: nat, rm: nat, col: nat, text: string)
    decreases |text|
  {
    text != [] ==>
      && (if text[0] == '\n' then Start(lm, col) < rm else Start(lm, col) + 1 < rm)
      && Fits(lm, rm, Step(lm, col, text[0]), text[1..])
  }

  lemma NoText(lm: nat, col: nat)
    ensures Indent(lm, col, []) == [] && Column(lm, col, []) == col
  {
  }

  /** Indenting text in two pieces is indenting it in one. */
  lemma {:induction false} IndentConcat(lm: nat, col: nat, a: string, b: string)
    ensures Indent(lm, col, a + b) == Indent(lm, col, a) + Indent(lm, Column(lm, col, a), b)
    ensures Column(lm, col, a + b) == Column(lm, Column(lm, col, a), b)
    decreases |a|
  {
    if a == [] {
      assert a + b == b;
    } else {
      assert (a + b)[1..] == a[1..] + b;
      IndentConcat(lm, Step(lm, col, a[0]), a[1..], b);
    }
  }

  lemma {:induction false} FitsConcat(lm: nat, rm: nat, col: nat, a: string, b: string)
    ensures Fits(lm, rm, col, a + b) <==> Fits(lm, rm, col, a) && Fits(lm, rm, Column(lm, col, a), b)
    decreases |a|
  {
    if a == [] {
      assert a + b == b;
    } else {
      assert (a + b)[1..] == a[1..] + b;
      FitsConcat(lm, rm, Step(lm, col, a[0]), a[1..], b);
    }
  }

  /** With no left margin nothing is put in. */
  lemma {:induction false} NoMargin(col: nat, text: string)
    ensures Indent(0, col, text) == text
    decreases |text|
  {
    if text != [] {
      NoMargin(Step(0, col, text[0]), text[1..]);
    }
  }

  /** A stretch without newline: the margin if due, and then the text as it is. */
  lemma {:induction false} IndentLine(lm: nat, rm: nat, col: nat, line: string)
    requires line != [] && '\n' !in line
    ensures Indent(lm, col, line) == (if Due(lm, col) then Blanks(lm) else []) + line
    ensures Column(lm, col, line) == Start(lm, col) + |line|
    ensures Fits(lm, rm, col, line) ==> Start(lm, col) + |line| < rm
    decreases |line|
  {
    var c := Start(lm, col) + 1;
    assert line[0] in line;
    if |line| > 1 {
      assert forall x :: x in line[1..] ==> x in line;
      IndentLine(lm, rm, c, line[1..]);
    } else {
      assert line[1..] == [];
    }
    assert line == [line[0]] + line[1..];
  }

  // ----- What updating does ---------------------------------------------

  /** Text the file has, text in the buffer that is done, and the column after it. */
  datatype Shown = Shown(file: string, done: string, col: nat)

  /** The start of a line, with `left` characters still to do. */
  function Margin(lm: nat, end: nat, s: Shown, left: nat): Shown {
    if !Due(lm, s.col) then s
    else if |s.done| + left + lm < end then Shown(s.file, s.done + Blanks(lm), lm)
    else Shown(s.file + Blanks(lm), s.done, lm)
  }

  /** The update over the text still to do, line by line. Where the margin does not fit in front of
      the end of the buffer, its blanks go straight to the file. */
  function Scan(lm: nat, end: nat, s: Shown, todo: string): Shown
    decreases |todo|
  {
    if todo == [] then s
    else
      var t := Margin(lm, end, s, |todo|);
      var nl := IndexOf(todo, '\n');
      if nl == |todo| then Shown(t.file, t.done + todo, t.col + |todo|)
      else Scan(lm, end, Shown(t.file, t.done + todo[..nl + 1], 0), todo[nl + 1..])
  }

  lemma ScanLine(lm: nat, end: nat, s: Shown, todo: string)
    requires todo != []
    ensures var t := Margin(lm, end, s, |todo|);
            var nl := IndexOf(todo, '\n');
            Scan(lm, end, s, todo)
            == if nl == |todo| then Shown(t.file, t.done + todo, t.col + |todo|)
               else Scan(lm, end, Shown(t.file, t.done + todo[..nl + 1], 0), todo[nl + 1..])
  {
  }

  lemma ScanNothing(lm: nat, end: nat, s: Shown)
    ensures Scan(lm, end, s, []) == s
  {
  }

  /** No margin is due in a text, or all that are fit into the buffer. */
  predicate Room(lm: nat, end: nat, done: nat, col: nat, todo: string) {
    |Indent(lm, col, todo)| == |todo| || done + |Indent(lm, col, todo)| < end
  }

  lemma {:induction false} IndentLength(lm: nat, col: nat, text: string)
    ensures |Indent(lm, col, text)| >= |text|
    ensures text != [] && Due(lm, col) ==> |Indent(lm, col, text)| >= |text| + lm
    decreases |text|
  {
    if text != [] {
      IndentLength(lm, Step(lm, col, text[0]), text[1..]);
    }
  }

  lemma NewlineStep(lm: nat, rm: nat, col: nat, rest: string)
    ensures Indent(lm, col, ['\n'] + rest) == (if Due(lm, col) then Blanks(lm) else []) + ['\n'] + Indent(lm, 0, rest)
    ensures Column(lm, col, ['\n'] + rest) == Column(lm, 0, rest)
    ensures Fits(lm, rm, col, ['\n'] + rest) ==> Start(lm, col) < rm && Fits(lm, rm, 0, rest)
  {
    assert (['\n'] + rest)[1..] == rest;
  }

  lemma LineJoined(pad: string, line: string, rest: string)
    ensures pad + line + ([] + ['\n'] + rest) == pad + (line + ['\n']) + rest
  {
  }

  /** One line of the update, seen from the indented text. */
  lemma SplitLine(lm: nat, rm: nat, col: nat, todo: string)
    requires todo != []
    ensures var nl := IndexOf(todo, '\n');
            var pad := if Due(lm, col) then Blanks(lm) else [];
            if nl == |todo| then
              && Indent(lm, col, todo) == pad + todo && Column(lm, col, todo) == Start(lm, col) + |todo|
              && (Fits(lm, rm, col, todo) ==> Start(lm, col) + |todo| < rm)
            else
              && Indent(lm, col, todo) == pad + todo[..nl + 1] + Indent(lm, 0, todo[nl + 1..])
              && Column(lm, col, todo) == Column(lm, 0, todo[nl + 1..])
              && (Fits(lm, rm, col, todo) ==> Start(lm, col) + nl < rm && Fits(lm, rm, 0, todo[nl + 1..]))
  {
    hide Indent, Column, Fits;
    var nl := IndexOf(todo, '\n');
    if nl == |todo| {
      assert todo[..nl] == todo;
      IndentLine(lm, rm, col, todo);
    } else {
      var line := todo[..nl];
      var rest := todo[nl + 1..];
      if line == [] {
        assert todo == ['\n'] + rest && todo[..nl + 1] == ['\n'];
        NewlineStep(lm, rm, col, rest);
      } else {
        assert todo == line + (['\n'] + rest);
        IndentConcat(lm, col, line, ['\n'] + rest);
        FitsConcat(lm, rm, col, line, ['\n'] + rest);
        IndentLine(lm, rm, col, line);
        NewlineStep(lm, rm, Column(lm, col, line), rest);
        LineJoined(if Due(lm, col) then Blanks(lm) else [], line, Indent(lm, 0, rest));
        assert todo[..nl + 1] == line + ['\n'];
      }
    }
  }

  /** The length of the margin due in front of a text. */
  function Pad(lm: nat, col: nat): nat {
    if Due(lm, col) then lm else 0
  }

  /** The length of an indented text, line by line. */
  lemma SplitLength(lm: nat, col: nat, todo: string)
    requires todo != []
    ensures var nl := IndexOf(todo, '\n');
            |Indent(lm, col, todo)|
            == Pad(lm, col) + if nl == |todo| then |todo| else nl + 1 + |Indent(lm, 0, todo[nl + 1..])|
  {
    hide Indent, Column, IndexOf, Fits;
    SplitLine(lm, 0, col, todo);
  }

  lemma NoTextRoom(lm: nat, end: nat, done: nat, col: nat)
    ensures Room(lm, end, done, col, [])
  {
  }

  /** Room for a text of which the first `n` characters are its first line. */
  lemma RoomRest(lm: nat, end: nat, done: nat, col: nat, todo: string, n: nat, rest: string)
    requires |todo| == n + |rest| && |rest| <= |Indent(lm, 0, rest)|
    requires |Indent(lm, col, todo)| == Pad(lm, col) + n + |Indent(lm, 0, rest)|
    ensures Room(lm, end, done, col, todo)
       <==> (Due(lm, col) ==> done + |todo| + lm < end) && Room(lm, end, done + Pad(lm, col) + n, 0, rest)
  {
    hide Indent;
    if Due(lm, col) {
      assert Pad(lm, col) == lm > 0;
      if done + |todo| + lm < end {
      }
    } else {
      assert Pad(lm, col) == 0;
    }
  }

  /** Room for a text is room for its first margin, and then for the lines behind the first. */
  lemma RoomStep(lm: nat, end: nat, done: nat, col: nat, todo: string)
    requires todo != []
    ensures var nl := IndexOf(todo, '\n');
            Room(lm, end, done, col, todo)
            <==> && (Due(lm, col) ==> done + |todo| + lm < end)
                 && (nl < |todo| ==> Room(lm, end, done + Pad(lm, col) + (nl + 1), 0, todo[nl + 1..]))
  {
    hide Indent, IndexOf, Room, Pad, Due;
    SplitLength(lm, col, todo);
    var nl := IndexOf(todo, '\n');
    if nl < |todo| {
      var rest := todo[nl + 1..];
      IndentLength(lm, 0, rest);
      RoomRest(lm, end, done, col, todo, nl + 1, rest);
    } else {
      NoText(lm, 0);
      RoomRest(lm, end, done, col, todo, |todo|, []);
      NoTextRoom(lm, end, done + Pad(lm, col) + |todo|, 0);
    }
  }

  /** With room for its margins an update shows exactly the indented text and bypasses nothing. */
  lemma {:induction false} ScanIndents(lm: nat, end: nat, s: Shown, todo: string)
    requires Room(lm, end, |s.done|, s.col, todo)
    ensures Scan(lm, end, s, todo)
         == Shown(s.file, s.done + Indent(lm, s.col, todo), Column(lm, s.col, todo))
    decreases |todo|
  {
    hide Indent, Column, IndexOf, Fits, Room, Scan;
    if todo == [] {
      NoText(lm, s.col);
      ScanNothing(lm, end, s);
      assert s.done + [] == s.done;
    } else {
      SplitLine(lm, 0, s.col, todo);
      RoomStep(lm, end, |s.done|, s.col, todo);
      ScanLine(lm, end, s, todo);
      var pad := if Due(lm, s.col) then Blanks(lm) else [];
      assert Margin(lm, end, s, |todo|) == Shown(s.file, s.done + pad, Start(lm, s.col)) by {
        assert s.done + [] == s.done;
      }
      var nl := IndexOf(todo, '\n');
      if nl == |todo| {
        Assoc(s.done, pad, todo);
      } else {
        var line := todo[..nl + 1];
        var rest := todo[nl + 1..];
        ScanIndents(lm, end, Shown(s.file, s.done + pad + line, 0), rest);
        Assoc(s.done, pad, line);
        Assoc(s.done, pad + line, Indent(lm, 0, rest));
      }
    }
  }

  /** Without a left margin there is always room. */
  lemma NoMarginRoom(end: nat, done: nat, col: nat, todo: string)
    ensures Room(0, end, done, col, todo)
  {
    NoMargin(col, todo);
  }

  // ----- What every update keeps ----------------------------------------

  /** A text without its blanks. */
  function Ink(s: string): string {
    if s == [] then [] else (if s[0] == ' ' then [] else [s[0]]) + Ink(s[1..])
  }

  lemma {:induction false} InkConcat(a: string, b: string)
    ensures Ink(a + b) == Ink(a) + Ink(b)
  {
    if a == [] {
      assert a + b == b;
    } else {
      assert (a + b)[1..] == a[1..] + b;
      InkConcat(a[1..], b);
    }
  }

  lemma {:induction false} InkBlanks(n: nat)
    ensures Ink(Blanks(n)) == []
  {
    if n > 0 {
      InkBlanks(n - 1);
      assert Blanks(n)[1..] == Blanks(n - 1);
    }
  }

  /** File and buffer of one state show `length` characters more than those of another and, apart from
      blanks, the same ones and `ink` behind them. */
  predicate Keeps(r: Shown, s: Shown, length: nat, ink: string) {
    |r.file| + |r.done| == |s.file| + |s.done| + length && Ink(r.file + r.done) == Ink(s.file + s.done) + ink
  }

  lemma InkMore(file: string, done: string, more: string)
    ensures Ink(file + (done + more)) == Ink(file + done) + Ink(more)
  {
    Assoc(file, done, more);
    InkConcat(file + done, more);
  }

  lemma MarginKeeps(lm: nat, end: nat, s: Shown, left: nat)
    ensures var t := Margin(lm, end, s, left);
            t.col == Start(lm, s.col) && Keeps(t, s, if Due(lm, s.col) then lm else 0, [])
  {
    hide Ink;
    InkBlanks(lm);
    InkMore(s.file, s.done, Blanks(lm));
    InkConcat(s.file, Blanks(lm));
    InkConcat(s.file + Blanks(lm), s.done);
    InkConcat(s.file, s.done);
    assert Ink(s.file) + [] == Ink(s.file) && Ink(s.file + s.done) + [] == Ink(s.file + s.done);
  }

  /** Whether or not there is room, an update ends in the right column, has put in as many blanks as
      there should be, and keeps all other characters in order. */
  lemma {:induction false} ScanKeeps(lm: nat, end: nat, s: Shown, todo: string)
    ensures var r := Scan(lm, end, s, todo);
            r.col == Column(lm, s.col, todo) && Keeps(r, s, |Indent(lm, s.col, todo)|, Ink(todo))
    decreases |todo|
  {
    hide Indent, Column, IndexOf, Fits, Scan, Margin, Ink;
    if todo == [] {
      NoText(lm, s.col);
      ScanNothing(lm, end, s);
      InkBlanks(0);
      assert Blanks(0) == [];
    } else {
      SplitLine(lm, 0, s.col, todo);
      ScanLine(lm, end, s, todo);
      var t := Margin(lm, end, s, |todo|);
      MarginKeeps(lm, end, s, |todo|);
      var nl := IndexOf(todo, '\n');
      if nl == |todo| {
        InkMore(t.file, t.done, todo);
      } else {
        var line, rest := todo[..nl + 1], todo[nl + 1..];
        ScanKeeps(lm, end, Shown(t.file, t.done + line, 0), rest);
        InkMore(t.file, t.done, line);
        assert todo == line + rest;
        InkConcat(line, rest);
        Assoc(Ink(t.file + t.done), Ink(line), Ink(rest));
      }
    }
  }

  // ----- Exactly when an update is right --------------------------------

  predicate AllBlank(s: string) {
    forall i :: 0 <= i < |s| ==> s[i] == ' '
  }

  /** What a reader of the file sees once the buffer has been written, too. */
  predicate Shows(r: Shown, text: string) {
    r.file + r.done == text
  }

  /** One margin is due, for the first line, and nothing but blanks is waiting in front of it. */
  predicate OnlyFirst(lm: nat, s: Shown, todo: string) {
    Due(lm, s.col) && AllBlank(s.done) && |Indent(lm, s.col, todo)| == |todo| + lm
  }

  lemma MarginShape(lm: nat, end: nat, s: Shown, left: nat) returns (k: nat)
    ensures var t := Margin(lm, end, s, left);
            && t.file == s.file + Blanks(k) && s.done <= t.done
            && (k == 0 ==> |t.done| == |s.done| + (if Due(lm, s.col) then lm else 0))
            && (k == 0 <==> (Due(lm, s.col) ==> |s.done| + left + lm < end))
  {
    k := |Margin(lm, end, s, left).file| - |s.file|;
    assert s.file + Blanks(0) == s.file;
  }

  /** An update only adds blanks to the file, only adds to the buffer, and adds no blanks to the
      file exactly when it has room. */
  lemma {:induction false} ScanShape(lm: nat, end: nat, s: Shown, todo: string) returns (m: nat)
    ensures Scan(lm, end, s, todo).file == s.file + Blanks(m)
    ensures s.done <= Scan(lm, end, s, todo).done
    ensures m == 0 <==> Room(lm, end, |s.done|, s.col, todo)
    decreases |todo|
  {
    hide Indent, Column, IndexOf, Fits, Room, Scan, Margin;
    if Room(lm, end, |s.done|, s.col, todo) {
      ScanIndents(lm, end, s, todo);
      m := 0;
      assert s.file + Blanks(0) == s.file;
    } else {
      NoTextRoom(lm, end, |s.done|, s.col);
      ScanLine(lm, end, s, todo);
      var t := Margin(lm, end, s, |todo|);
      var nl := IndexOf(todo, '\n');
      var k := MarginShape(lm, end, s, |todo|);
      if k == 0 {
        RoomStep(lm, end, |s.done|, s.col, todo);
      }
      if nl == |todo| {
        m := k;
      } else {
        var n := ScanShape(lm, end, Shown(t.file, t.done + todo[..nl + 1], 0), todo[nl + 1..]);
        m := k + n;
        assert Blanks(k) + Blanks(n) == Blanks(k + n);
        assert s.file + Blanks(k) + Blanks(n) == s.file + Blanks(k + n);
      }
    }
  }

  lemma {:induction false} FirstOther(x: string) returns (j: nat)
    requires !AllBlank(x)
    ensures j < |x| && x[j] != ' ' && forall i :: 0 <= i < j ==> x[i] == ' '
  {
    if x[0] != ' ' {
      j := 0;
    } else {
      assert !AllBlank(x[1..]) by {
        var i :| 0 <= i < |x| && x[i] != ' ';
        assert x[1..][i - 1] != ' ';
      }
      var k := FirstOther(x[1..]);
      j := k + 1;
      assert forall i :: 1 <= i < j ==> x[i] == x[1..][i - 1];
    }
  }

  /** Blanks put in front of text that has something else in it are seen. */
  lemma Differ(f: string, x: string, m: nat, d: string, w: string)
    requires m > 0 && !AllBlank(x) && x <= d && f + x <= w
    ensures f + Blanks(m) + d != w
  {
    var j := FirstOther(x);
    var a := f + Blanks(m) + d;
    assert w[|f| + j] == (f + x)[|f| + j] == x[j];
    if j < m {
      assert a[|f| + j] == ' ';
    } else {
      assert a[|f| + j] == d[j - m] == x[j - m];
    }
  }

  /** With something other than blanks waiting in the buffer, no room means a wrong text. */
  lemma WrongBehindText(lm: nat, end: nat, s: Shown, todo: string)
    requires !AllBlank(s.done) && !Room(lm, end, |s.done|, s.col, todo)
    ensures !Shows(Scan(lm, end, s, todo), s.file + s.done + Indent(lm, s.col, todo))
  {
    hide Indent, Scan, Room;
    var m := ScanShape(lm, end, s, todo);
    var r := Scan(lm, end, s, todo);
    Differ(s.file, s.done, m, r.done, s.file + s.done + Indent(lm, s.col, todo));
  }

  lemma BlanksCommute(f: string, done: string, pad: string)
    requires AllBlank(done) && AllBlank(pad)
    ensures f + pad + done == f + done + pad
  {
  }

  /** The last line: a margin that bypasses blanks is not seen to. */
  lemma OneBlankLine(lm: nat, end: nat, s: Shown, todo: string)
    requires todo != [] && AllBlank(s.done) && !Room(lm, end, |s.done|, s.col, todo)
    requires IndexOf(todo, '\n') >= |todo| - 1
    ensures Shows(Scan(lm, end, s, todo), s.file + s.done + Indent(lm, s.col, todo)) && OnlyFirst(lm, s, todo)
  {
    hide Indent, Column, Fits, Room, IndexOf;
    var nl := IndexOf(todo, '\n');
    SplitLine(lm, 0, s.col, todo);
    NoText(lm, 0);
    assert todo[..|todo|] == todo;
    if nl < |todo| {
      assert todo[nl + 1..] == [];
      NoTextRoom(lm, end, |s.done| + (if Due(lm, s.col) then lm else 0) + nl + 1, 0);
    }
    if !Due(lm, s.col) || |s.done| + |todo| + lm < end {
      RoomStep(lm, end, |s.done|, s.col, todo);
    }
    BlanksCommute(s.file, s.done, Blanks(lm));
    assert Blanks(lm) + todo + [] == Blanks(lm) + todo;
    assert Scan(lm, end, s, todo).file + Scan(lm, end, s, todo).done == s.file + Blanks(lm) + (s.done + todo);
    assert s.file + Blanks(lm) + (s.done + todo) == s.file + Blanks(lm) + s.done + todo;
    assert s.file + s.done + Blanks(lm) + todo == s.file + s.done + (Blanks(lm) + todo);
  }

  lemma FirstLineShown(s: Shown, t: Shown, pad: string, line: string)
    requires AllBlank(s.done) && AllBlank(pad)
    requires (t.file == s.file && t.done == s.done + pad) || (t.file == s.file + pad && t.done == s.done)
    ensures t.file + (t.done + line) == s.file + s.done + pad + line
  {
    BlanksCommute(s.file, s.done, pad);
    assert t.file + (t.done + line) == t.file + t.done + line;
    assert s.file + (s.done + pad) == s.file + s.done + pad;
  }

  lemma NoRoomLater(lm: nat, end: nat, done: nat, rest: string)
    requires rest != [] && lm != 0 && done + |rest| + lm >= end
    ensures !Room(lm, end, done, 0, rest)
  {
    hide Indent;
    IndentLength(lm, 0, rest);
  }

  /** With lines to come, one of their margins goes in front of a newline that is still waiting. */
  lemma MoreBlankLines(lm: nat, end: nat, s: Shown, todo: string)
    requires AllBlank(s.done) && !Room(lm, end, |s.done|, s.col, todo)
    requires IndexOf(todo, '\n') < |todo| - 1
    ensures !Shows(Scan(lm, end, s, todo), s.file + s.done + Indent(lm, s.col, todo)) && !OnlyFirst(lm, s, todo)
  {
    hide Indent, Column, Fits, Room, IndexOf;
    var nl := IndexOf(todo, '\n');
    var line := todo[..nl + 1];
    var rest := todo[nl + 1..];
    var pad := if Due(lm, s.col) then Blanks(lm) else [];
    SplitLine(lm, 0, s.col, todo);
    IndentLength(lm, 0, rest);
    var t := Margin(lm, end, s, |todo|);
    var u := Shown(t.file, t.done + line, 0);
    assert !AllBlank(u.done) by { assert u.done[|u.done| - 1] == '\n'; }
    if t.file != s.file {
      NoRoomLater(lm, end, |u.done|, rest);
    } else {
      assert Due(lm, s.col) ==> |s.done| + |todo| + lm < end;
      RoomStep(lm, end, |s.done|, s.col, todo);
    }
    FirstLineShown(s, t, pad, line);
    WrongBehindText(lm, end, u, rest);
    Assoc(s.file + s.done, pad, line);
    Assoc(s.file + s.done, pad + line, Indent(lm, 0, rest));
  }

  lemma BlankInFront(lm: nat, end: nat, s: Shown, todo: string)
    requires todo != [] && AllBlank(s.done) && !Room(lm, end, |s.done|, s.col, todo)
    ensures Shows(Scan(lm, end, s, todo), s.file + s.done + Indent(lm, s.col, todo)) <==> OnlyFirst(lm, s, todo)
  {
    hide Indent, Column, Fits, Room, AllBlank, IndexOf;
    var nl := IndexOf(todo, '\n');
    if nl >= |todo| - 1 {
      OneBlankLine(lm, end, s, todo);
    } else {
      MoreBlankLines(lm, end, s, todo);
    }
  }

  /** The update shows the indented text iff there is room for every margin, or the only margin due
      is that of the first line and nothing but blanks is waiting in front of it. */
  lemma ScanExactIff(lm: nat, end: nat, s: Shown, todo: string)
    ensures Shows(Scan(lm, end, s, todo), s.file + s.done + Indent(lm, s.col, todo))
       <==> Room(lm, end, |s.done|, s.col, todo) || OnlyFirst(lm, s, todo)
  {
    hide Indent, Column, IndexOf, Fits, Room, AllBlank;
    if Room(lm, end, |s.done|, s.col, todo) {
      ScanIndents(lm, end, s, todo);
      assert s.file + (s.done + Indent(lm, s.col, todo)) == s.file + s.done + Indent(lm, s.col, todo);
    } else if !AllBlank(s.done) {
      WrongBehindText(lm, end, s, todo);
    } else {
      NoTextRoom(lm, end, |s.done|, s.col);
      BlankInFront(lm, end, s, todo);
    }
  }

  // ----- What a stream holds --------------------------------------------

  const INIT_BUF_SIZE := 200
  const PRINTF_SIZE_GUESS := 150

  /** The space behind the buffered text that printing `s` makes sure of. */
  function Need(s: string): nat {
    if |s| < PRINTF_SIZE_GUESS then PRINTF_SIZE_GUESS else |s| + 1
  }

  /** What comes from outside: how many characters the file takes of the next write, at most, and
      whether memory for a larger buffer is granted. */
  datatype Answer = Answer(take: nat, memory: bool)

  /** Printing `s` fails, with `waiting` characters to write if it comes to a flush: a write is short,
      or the text does not fit into the buffer and no memory is granted. */
  predicate Fails(size: nat, p: nat, waiting: nat, s: string, first: Answer, second: Answer) {
    if size - p < PRINTF_SIZE_GUESS then first.take < waiting || (|s| >= size && !second.memory)
    else size - p <= |s| && (second.take < waiting || (|s| >= size && !second.memory))
  }

  /** Laying out the text behind `offs`. */
  function OutOf(lm: nat, end: nat, file: string, text: string, offs: nat, col: nat): Shown
    requires offs <= |text|
  {
    Scan(lm, end, Shown(file, text[..offs], col), text[offs..])
  }

  /** The file takes up to `take` characters of what is laid out. */
  function Taken(s: Shown, take: nat): Shown {
    if take < |s.done| then Shown(s.file + s.done[..take], s.done[take..], s.col)
    else Shown(s.file + s.done, [], s.col)
  }

  lemma TakenIs(s: Shown, take: nat, wrote: nat)
    requires wrote == if take < |s.done| then take else |s.done|
    ensures Taken(s, take) == Shown(s.file + s.done[..wrote], s.done[wrote..], s.col)
  {
    assert s.done[..|s.done|] == s.done;
  }

  /** The part of `printed` that is laid out when `left` characters are not. */
  ghost function LaidPart(printed: string, left: int): string {
    if 0 <= left <= |printed| then printed[..|printed| - left] else printed
  }

  /** A stream to which `printed` was given: the buffered text up to `offs` is laid out, the text
      behind it is still as it was given. The laid out text has its full length and, apart from
      blanks, its characters in order. */
  ghost predicate Laid(lm: nat, rm: nat, printed: string, file: string, text: string, offs: nat, col: nat) {
    && offs <= |text| && |text| - offs <= |printed|
    && Fits(lm, rm, 0, printed)
    && var laid := LaidPart(printed, |text| - offs);
       && text[offs..] == printed[|laid|..]
       && |file| + offs == |Indent(lm, 0, laid)|
       && Ink(file + text[..offs]) == Ink(laid)
       && col == Column(lm, 0, laid)
  }

  /** File and laid out text together are the indented text. */
  ghost predicate Exactly(lm: nat, printed: string, file: string, text: string, offs: nat) {
    offs <= |text| && file + text[..offs] == Indent(lm, 0, LaidPart(printed, |text| - offs))
  }

  lemma NothingYet(lm: nat, rm: nat)
    ensures Laid(lm, rm, "", "", "", 0, 0) && Exactly(lm, "", "", "", 0)
  {
    NoText(lm, 0);
  }

  /** With everything laid out, any split between file and buffer is as good as any other. */
  lemma LaidWhole(lm: nat, rm: nat, printed: string, file: string, text: string, col: nat)
    ensures Laid(lm, rm, printed, file, text, |text|, col)
       <==> && Fits(lm, rm, 0, printed) && |file + text| == |Indent(lm, 0, printed)|
            && Ink(file + text) == Ink(printed) && col == Column(lm, 0, printed)
    ensures Exactly(lm, printed, file, text, |text|) <==> file + text == Indent(lm, 0, printed)
  {
    hide Fits, Indent, Column, Ink;
    assert printed[..|printed|] == printed && text[..|text|] == text;
  }

  /** Part of the buffered text goes to the file. */
  lemma LaidCut(lm: nat, rm: nat, printed: string, file: string, text: string, col: nat, wrote: nat)
    requires wrote <= |text| && Laid(lm, rm, printed, file, text, |text|, col)
    ensures Laid(lm, rm, printed, file + text[..wrote], text[wrote..], |text| - wrote, col)
    ensures Exactly(lm, printed, file + text[..wrote], text[wrote..], |text| - wrote)
       <==> Exactly(lm, printed, file, text, |text|)
  {
    hide Laid, Exactly, Fits, Indent, Column, Ink;
    LaidWhole(lm, rm, printed, file, text, col);
    LaidWhole(lm, rm, printed, file + text[..wrote], text[wrote..], col);
    assert text == text[..wrote] + text[wrote..];
    Assoc(file, text[..wrote], text[wrote..]);
  }

  /** More text behind what is buffered. */
  lemma LaidMore(lm: nat, rm: nat, printed: string, file: string, text: string, offs: nat, col: nat, s: string)
    requires Laid(lm, rm, printed, file, text, offs, col) && Fits(lm, rm, 0, printed + s)
    ensures Laid(lm, rm, printed + s, file, text + s, offs, col)
    ensures Exactly(lm, printed + s, file, text + s, offs) <==> Exactly(lm, printed, file, text, offs)
  {
    hide Fits, Indent, Column, Ink;
    var laid := LaidPart(printed, |text| - offs);
    assert (printed + s)[..|laid|] == laid;
    assert (text + s)[offs..] == text[offs..] + s;
    assert (printed + s)[|laid|..] == printed[|laid|..] + s;
    assert (text + s)[..offs] == text[..offs];
  }

  /** All margins due in the text behind `offs` can be put where they belong: they fit, or only the
      first line's is due and nothing but blanks waits in front of it. */
  ghost predicate Roomy(lm: nat, end: nat, file: string, text: string, offs: nat, col: nat)
    requires offs <= |text|
  {
    Room(lm, end, offs, col, text[offs..]) || OnlyFirst(lm, Shown(file, text[..offs], col), text[offs..])
  }

  lemma NothingLeft(lm: nat, end: nat, file: string, text: string, col: nat)
    ensures Roomy(lm, end, file, text, |text|, col)
  {
    assert text[|text|..] == [];
    NoTextRoom(lm, end, |text|, col);
  }

  lemma NothingWaits(lm: nat, end: nat, file: string, text: string, col: nat)
    ensures OutOf(lm, end, file, text, |text|, col) == Shown(file, text, col)
  {
    assert text[|text|..] == [] && text[..|text|] == text;
    ScanNothing(lm, end, Shown(file, text, col));
  }

  lemma NoMarginRoomy(end: nat, file: string, text: string, offs: nat, col: nat)
    requires offs <= |text|
    ensures Roomy(0, end, file, text, offs, col)
  {
    NoMarginRoom(end, offs, col, text[offs..]);
  }

  /** Laying out the text behind `offs`. */
  lemma LaidOut(lm: nat, rm: nat, printed: string, file: string, text: string, offs: nat, col: nat, end: nat)
    requires Laid(lm, rm, printed, file, text, offs, col)
    ensures Fits(lm, rm, col, text[offs..])
    ensures var r := OutOf(lm, end, file, text, offs, col);
            && |r.file| + |r.done| == |Indent(lm, 0, printed)|
            && file <= r.file && Laid(lm, rm, printed, r.file, r.done, |r.done|, r.col)
            && (Exactly(lm, printed, file, text, offs) ==>
                  (Exactly(lm, printed, r.file, r.done, |r.done|) <==> Roomy(lm, end, file, text, offs, col)))
            && (offs == |text| && Exactly(lm, printed, r.file, r.done, |r.done|) ==>
                  Exactly(lm, printed, file, text, offs))
  {
    hide Scan, Fits, Indent, Column, Room, Ink, OnlyFirst;
    var laid := LaidPart(printed, |text| - offs);
    var todo := text[offs..];
    var s := Shown(file, text[..offs], col);
    var r := Scan(lm, end, s, todo);
    assert printed == laid + todo;
    FitsConcat(lm, rm, 0, laid, todo);
    IndentConcat(lm, 0, laid, todo);
    InkConcat(laid, todo);
    ScanKeeps(lm, end, s, todo);
    var m := ScanShape(lm, end, s, todo);
    ScanExactIff(lm, end, s, todo);
    LaidWhole(lm, rm, printed, r.file, r.done, r.col);
    if offs == |text| {
      ScanNothing(lm, end, s);
      assert text[..offs] == text;
    }
  }

  // ----- Text in an array -----------------------------------------------

  /** Text of an array cut in two. */
  lemma SliceCut(buf: array<char>, at: nat, p: nat, k: nat)
    requires at + k <= p <= buf.Length
    ensures buf[..at + k] == buf[..at] + buf[at..p][..k]
    ensures buf[at + k..p] == buf[at..p][k..]
    ensures k == p - at ==> buf[at..p][..k] == buf[at..p] && buf[at + k..p] == []
  {
  }

  lemma CutWrite(file: string, buf: array<char>, wrote: nat, p: nat)
    requires wrote <= p <= buf.Length
    ensures file + buf[..wrote] + buf[wrote..p] == file + buf[..p]
  {
    assert buf[..p] == buf[..wrote] + buf[wrote..p];
  }

  /** `memmove` of `n` characters to the front. */
  method MoveDown(buf: array<char>, from: nat, n: nat)
    requires from + n <= buf.Length
    modifies buf
    ensures buf[..n] == old(buf[from..from + n])
  {
    forall i | 0 <= i < n {
      buf[i] := buf[i + from];
    }
  }

  /** `memmove` of the text between `at` and `p` up by `pad`. */
  method MoveUp(buf: array<char>, at: nat, p: nat, pad: nat)
    requires at <= p && p + pad <= buf.Length
    modifies buf
    ensures buf[..at] == old(buf[..at])
    ensures buf[at + pad..p + pad] == old(buf[at..p])
  {
    forall i | at <= i < p {
      buf[i + pad] := buf[i];
    }
  }

  /** Move the text between `at` and `p` up by `pad` and fill the gap with blanks. */
  method Shift(buf: array<char>, at: nat, p: nat, pad: nat)
    requires at <= p && p + pad <= buf.Length
    modifies buf
    ensures buf[..at + pad] == old(buf[..at]) + Blanks(pad)
    ensures buf[at + pad..p + pad] == old(buf[at..p])
  {
    MoveUp(buf, at, p, pad);
    label Moved:
    forall i | at <= i < at + pad {
      buf[i] := ' ';
    }
    assert buf[at + pad..p + pad] == old@Moved(buf[at + pad..p + pad]);
    assert buf[..at] == old@Moved(buf[..at]) && buf[at..at + pad] == Blanks(pad);
  }

  method Copy(buf: array<char>, p: nat, s: string)
    requires p + |s| <= buf.Length
    modifies buf
    ensures buf[..p] == old(buf[..p]) && buf[p..p + |s|] == s
  {
    forall i | 0 <= i < |s| {
      buf[p + i] := s[i];
    }
  }

  /** What `vsnprintf` leaves at `p`: the text cut to the space given, and a NUL. */
  method Snprintf(buf: array<char>, p: nat, avail: nat, s: string)
    requires 0 < avail && p + avail == buf.Length
    modifies buf
    ensures buf[..p] == old(buf[..p])
    ensures |s| < avail ==> buf[p..p + |s|] == s
  {
    var k := if |s| < avail then |s| else avail - 1;
    forall i | 0 <= i < k {
      buf[p + i] := s[i];
    }
    buf[p + k] := '\0';
  }

  // ----- The stream -----------------------------------------------------

  /** Characters of the first line of a text, its newline counted. */
  function LineLength(text: string): (k: nat)
    requires text != []
    ensures 0 < k <= |text|
  {
    var nl := IndexOf(text, '\n');
    if nl == |text| then nl else nl + 1
  }

  /** The column behind the first line of a text that starts at `col`. */
  function ColumnBehind(col: nat, text: string): nat
    requires text != []
  {
    if IndexOf(text, '\n') == |text| then col + |text| else 0
  }

  /** Taking the first line off a text leaves the update where it was, */
  lemma LineTaken(lm: nat, end: nat, s: Shown, todo: string)
    requires todo != []
    ensures var t := Margin(lm, end, s, |todo|);
            var k := LineLength(todo);
            Scan(lm, end, Shown(t.file, t.done + todo[..k], ColumnBehind(t.col, todo)), todo[k..])
            == Scan(lm, end, s, todo)
  {
    hide Scan, Margin, IndexOf;
    ScanLine(lm, end, s, todo);
    var t := Margin(lm, end, s, |todo|);
    if IndexOf(todo, '\n') == |todo| {
      assert todo[..|todo|] == todo && todo[|todo|..] == [];
      ScanNothing(lm, end, Shown(t.file, t.done + todo, t.col + |todo|));
    }
  }

  /** and lines that fit behind it. */
  lemma RestFits(lm: nat, rm: nat, col: nat, todo: string)
    requires todo != [] && Fits(lm, rm, col, todo)
    ensures Fits(lm, rm, ColumnBehind(Start(lm, col), todo), todo[LineLength(todo)..])
  {
    assert Fits(lm, rm, Start(lm, col) + |todo|, []);
    hide Fits, Indent, Column, IndexOf;
    SplitLine(lm, rm, col, todo);
    if IndexOf(todo, '\n') == |todo| {
      assert todo[|todo|..] == [];
    }
  }

  /** `struct argp_fmtstream`. Offsets stand for its pointers into `buf`; `file` is the text its
      `FILE` has taken, and `printed` all text given to the stream with success. */
  class Stream {
    var file: string
    var lmargin: nat
    var rmargin: nat
    var pointOffs: nat
    var pointCol: nat
    var buf: array<char>
    var p: nat
    ghost var printed: string

    ghost predicate Valid()
      reads this, buf
    {
      && pointOffs <= p <= buf.Length && INIT_BUF_SIZE <= buf.Length
      && Laid(lmargin, rmargin, printed, file, buf[..p], pointOffs, pointCol)
      && (lmargin == 0 ==> Exact())
    }

    /** All text laid out so far stands exactly as it should. */
    ghost predicate Exact()
      requires p <= buf.Length
      reads this, buf
    {
      Exactly(lmargin, printed, file, buf[..p], pointOffs)
    }

    /** All margins due in the text still to be laid out can be put where they belong. */
    ghost predicate HasRoom()
      requires pointOffs <= p <= buf.Length
      reads this, buf
    {
      Roomy(lmargin, buf.Length, file, buf[..p], pointOffs, pointCol)
    }

    /** File and buffer once everything is laid out. */
    ghost function Next(): Shown
      requires pointOffs <= p <= buf.Length
      reads this, buf
    {
      OutOf(lmargin, buf.Length, file, buf[..p], pointOffs, pointCol)
    }

    /** The text behind `pointOffs`, not yet laid out. */
    ghost function Pending(): string
      requires pointOffs <= p <= buf.Length
      reads this, buf
    {
      buf[..p][pointOffs..]
    }

    constructor (lmargin: nat, rmargin: nat)
      ensures Valid() && Exact() && HasRoom() && fresh(buf) && buf.Length == INIT_BUF_SIZE && p == 0
      ensures this.lmargin == lmargin && this.rmargin == rmargin && printed == "" && file == ""
    {
      this.lmargin, this.rmargin := lmargin, rmargin;
      file, printed := "", "";
      pointOffs, pointCol, p := 0, 0, 0;
      buf := new char[INIT_BUF_SIZE](_ => ' ');
      new;
      hide Laid, Exactly, Roomy;
      NothingYet(lmargin, rmargin);
      NothingLeft(lmargin, buf.Length, "", "", 0);
      assert buf[..p] == "";
    }

    /** The start of a line at `at`, with text behind it. */
    method PutMargin(at: nat) returns (next: nat)
      requires at <= p <= buf.Length
      modifies this`file, this`pointCol, this`p, buf
      ensures next <= p <= buf.Length
      ensures buf[next..p] == old(buf[at..p])
      ensures Shown(file, buf[..next], pointCol)
           == old(Margin(lmargin, buf.Length, Shown(file, buf[..at], pointCol), p - at))
    {
      next := at;
      if pointCol == 0 && lmargin != 0 {
        var pad := lmargin;
        if p + pad < buf.Length {
          Shift(buf, at, p, pad);
          p := p + pad;
          next := at + pad;
        } else {
          file := file + Blanks(pad);
        }
        pointCol := pad;
      }
    }

    /** What an update from `at` on will come to. */
    ghost function From(at: nat): Shown
      requires at <= p <= buf.Length
      reads this, buf
    {
      Scan(lmargin, buf.Length, Shown(file, buf[..at], pointCol), buf[at..p])
    }

    /** The line at `at`, its margin done: on to the next one. */
    method TakeLine(at: nat) returns (next: nat)
      requires at < p <= buf.Length
      modifies this`pointCol
      ensures next == at + LineLength(buf[at..p]) <= p
      ensures pointCol == ColumnBehind(old(pointCol), buf[at..p])
      ensures buf[..next] == buf[..at] + buf[at..p][..next - at] && buf[next..p] == buf[at..p][next - at..]
    {
      var nl := IndexOf(buf[at..p], '\n');
      if nl == p - at {
        pointCol := pointCol + nl;
        next := p;
      } else {
        pointCol := 0;
        next := at + nl + 1;
      }
      SliceCut(buf, at, p, next - at);
    }

    /** One turn of the update: the line at `at`. */
    method LayLine(at: nat) returns (next: nat)
      requires at < p <= buf.Length && Fits(lmargin, rmargin, pointCol, buf[at..p])
      modifies this`file, this`pointCol, this`p, buf
      ensures next <= p <= buf.Length && p - next < old(p - at)
      ensures Fits(lmargin, rmargin, pointCol, buf[next..p])
      ensures From(next) == old(From(at))
    {
      hide Scan, Margin, Fits, IndexOf, LineLength, ColumnBehind, Start, Keeps, Ink;
      LineTaken(lmargin, buf.Length, Shown(file, buf[..at], pointCol), buf[at..p]);
      RestFits(lmargin, rmargin, pointCol, buf[at..p]);
      MarginKeeps(lmargin, buf.Length, Shown(file, buf[..at], pointCol), p - at);
      next := PutMargin(at);
      next := TakeLine(next);
    }

    /** `__argp_fmtstream_update` on lines that fit. */
    method Update()
      requires pointOffs <= p <= buf.Length
      requires Fits(lmargin, rmargin, pointCol, buf[pointOffs..p])
      modifies this`file, this`pointOffs, this`pointCol, this`p, buf
      ensures pointOffs == p <= buf.Length
      ensures Shown(file, buf[..p], pointCol)
           == old(Scan(lmargin, buf.Length, Shown(file, buf[..pointOffs], pointCol), buf[pointOffs..p]))
    {
      hide Scan, Fits;
      ghost var goal := From(pointOffs);
      var at: nat := pointOffs;
      while at < p
        invariant at <= p <= buf.Length
        invariant Fits(lmargin, rmargin, pointCol, buf[at..p])
        invariant goal == From(at)
        decreases p - at
      {
        at := LayLine(at);
      }
      SliceCut(buf, p, p, 0);
      ScanNothing(lmargin, buf.Length, Shown(file, buf[..p], pointCol));
      pointOffs := p;
    }

    /** An update of a valid stream lays out exactly the indented text iff it has room. */
    method LayOut()
      requires Valid()
      modifies this`file, this`pointOffs, this`pointCol, this`p, buf
      ensures Valid() && pointOffs == p && old(file) <= file
      ensures old(Exact()) ==> (Exact() <==> old(HasRoom()))
      ensures old(pointOffs == p && !Exact()) ==> !Exact()
      ensures Shown(file, buf[..p], pointCol) == old(Next())
    {
      hide Scan, Laid, Exactly, Fits, Roomy, Indent;
      LaidOut(lmargin, rmargin, printed, file, buf[..p], pointOffs, pointCol, buf.Length);
      NoMarginRoomy(buf.Length, file, buf[..p], pointOffs, pointCol);
      assert buf[..p][..pointOffs] == buf[..pointOffs] && buf[..p][pointOffs..] == buf[pointOffs..p];
      Update();
    }

    /** Lay out and write what is in the buffer. The file may take less than it is given; the rest
        is then moved to the front. */
    method Flush(take: nat) returns (all: bool)
      requires Valid()
      modifies this`file, this`pointOffs, this`pointCol, this`p, buf
      ensures Valid() && pointOffs == p && HasRoom() && old(file) <= file
      ensures old(Exact()) ==> (Exact() <==> old(HasRoom()))
      ensures old(pointOffs == p && !Exact()) ==> !Exact()
      ensures all <==> p == 0
      ensures Shown(file, buf[..p], pointCol) == Taken(old(Next()), take)
    {
      hide Laid, Exactly, Roomy, OutOf, Taken;
      LayOut();
      ghost var text := buf[..p];
      var wrote := if take < p then take else p;
      TakenIs(Shown(file, text, pointCol), take, wrote);
      LaidCut(lmargin, rmargin, printed, file, text, pointCol, wrote);
      assert text[..wrote] == buf[..wrote];
      file := file + buf[..wrote];
      all := wrote == p;
      p, pointOffs := p - wrote, pointOffs - wrote;
      if !all {
        MoveDown(buf, wrote, p);
      }
      assert buf[..p] == text[wrote..];
      NothingLeft(lmargin, buf.Length, file, buf[..p], pointCol);
    }

    /** `__argp_fmtstream_ensure`: flush, growing the buffer if need be. It succeeds iff there was
        space, or the flush was complete and, where the buffer is too small, memory is granted. */
    method Ensure(amount: nat, answer: Answer) returns (ok: bool)
      requires Valid()
      modifies this`file, this`pointOffs, this`pointCol, this`p, this`buf, buf
      ensures Valid() && (buf == old(buf) || fresh(buf)) && old(file) <= file
      ensures ok <==> old(buf.Length - p >= amount
                          || (|Next().done| <= answer.take && (amount <= buf.Length || answer.memory)))
      ensures ok ==> buf.Length - p >= amount
      ensures old(buf.Length - p) >= amount ==>
                && p == old(p) && pointOffs == old(pointOffs) && file == old(file)
                && buf == old(buf) && HasRoom() == old(HasRoom()) && Next() == old(Next())
      ensures old(buf.Length - p) < amount ==>
                HasRoom() && pointOffs == p && Shown(file, buf[..p], pointCol) == Taken(old(Next()), answer.take)
      ensures old(Exact()) ==> (Exact() <==> old(HasRoom() || buf.Length - p >= amount))
      ensures old(pointOffs == p && !Exact()) ==> !Exact()
      ensures buf.Length == old(buf.Length) + if ok && amount > old(buf.Length) then amount else 0
    {
      hide Laid, Exactly, Roomy, OutOf;
      if buf.Length - p < amount {
        ghost var waiting := |Next().done|;
        var all := Flush(answer.take);
        assert all <==> waiting <= answer.take;
        if !all {
          return false;
        }
        if buf.Length < amount {
          if !answer.memory {
            return false;
          }
          assert buf[..0] == [];
          buf := new char[buf.Length + amount](_ => ' ');
          assert buf[..0] == [];
          NothingLeft(lmargin, buf.Length, file, buf[..0], pointCol);
        }
      }
      ok := true;
    }

    /** Text that stands at the end of the buffer becomes part of what is printed. */
    method Advance(s: string)
      requires Valid() && Fits(lmargin, rmargin, 0, printed + s)
      requires p + |s| <= buf.Length && buf[p..p + |s|] == s
      modifies this`p, this`printed
      ensures Valid() && printed == old(printed) + s && p == old(p) + |s|
      ensures Exact() <==> old(Exact())
    {
      hide Laid, Fits, Exactly;
      LaidMore(lmargin, rmargin, printed, file, buf[..p], pointOffs, pointCol, s);
      assert buf[..p + |s|] == buf[..p] + s;
      printed := printed + s;
      p := p + |s|;
    }

    /** The loop of `__argp_fmtstream_printf`: the text is put behind what is buffered, after at most
        two tries. */
    method Format(s: string, first: Answer, second: Answer) returns (ok: bool, tries: nat)
      requires Valid()
      modifies this`file, this`pointOffs, this`pointCol, this`p, this`buf, buf
      ensures Valid() && (buf == old(buf) || fresh(buf)) && old(file) <= file
      ensures ok <==> !old(Fails(buf.Length, p, |Next().done|, s, first, second))
      ensures ok ==> p <= buf.Length - Need(s) && buf[p..p + |s|] == s
      ensures old(buf.Length - p) >= Need(s) ==> p == old(p) && pointOffs == old(pointOffs) && file == old(file)
      ensures old(buf.Length - p) < Need(s) ==> HasRoom() && pointOffs == p
      ensures old(Exact()) ==> (Exact() <==> old(HasRoom() || buf.Length - p >= Need(s)))
      ensures buf.Length == old(buf.Length) + if ok && Need(s) > old(buf.Length) then Need(s) else 0
      ensures 1 <= tries <= 2
    {
      hide Laid, Exactly, Roomy, OutOf;
      var guess := PRINTF_SIZE_GUESS;
      tries := 0;
      ghost var flushed := false;
      while true
        invariant Valid() && old(file) <= file
        invariant buf == old(buf) || fresh(buf)
        invariant guess >= 1 && tries <= 1 && guess == if tries == 0 then PRINTF_SIZE_GUESS else |s| + 1
        invariant buf.Length == old(buf.Length)
        invariant flushed <==> tries == 1 && old(buf.Length - p) < PRINTF_SIZE_GUESS
        invariant tries == 1 ==> PRINTF_SIZE_GUESS <= buf.Length - p <= |s|
        invariant old(Exact()) ==> (Exact() <==> old(HasRoom()) || !flushed)
        invariant if flushed then HasRoom() && pointOffs == p else p == old(p) && HasRoom() == old(HasRoom())
        invariant !flushed ==> pointOffs == old(pointOffs) && file == old(file) && Next() == old(Next())
        invariant flushed ==> p == 0 && old(|Next().done|) <= first.take
        decreases 2 - tries
      {
        tries := tries + 1;
        if flushed && tries == 2 {
          NothingWaits(lmargin, buf.Length, file, buf[..p], pointCol);
        }
        flushed := flushed || buf.Length - p < guess;
        var ok := Ensure(guess, if tries == 1 then first else second);
        if !ok {
          return false, tries;
        }
        var avail := buf.Length - p;
        Snprintf(buf, p, avail, s);
        if |s| < avail {
          break;
        }
        guess := |s| + 1;
      }
      ok := true;
    }

    /** `__argp_fmtstream_printf` of a format that gives `s`. The text laid out stays exact iff there was
        room for what was waiting, or no need to flush it. */
    method Printf(s: string, first: Answer, second: Answer) returns (n: int, tries: nat)
      requires Valid() && Fits(lmargin, rmargin, 0, printed + s)
      modifies this, buf
      ensures Valid() && lmargin == old(lmargin) && rmargin == old(rmargin) && (buf == old(buf) || fresh(buf))
      ensures n == if old(Fails(buf.Length, p, |Next().done|, s, first, second)) then -1 else |s|
      ensures printed == (if n == -1 then old(printed) else old(printed) + s) && old(file) <= file
      ensures old(Exact()) ==> (Exact() <==> old(HasRoom() || buf.Length - p >= Need(s)))
      ensures old(buf.Length - p) >= Need(s) ==>
                p == old(p) + |s| && pointOffs == old(pointOffs) && file == old(file)
      ensures n == -1 ==> HasRoom() && pointOffs == p
      ensures n != -1 && old(buf.Length - p) < Need(s) ==> p == pointOffs + |s|
      ensures n != -1 ==> pointOffs + |s| <= p <= buf.Length - Need(s) + |s|
      ensures buf.Length == old(buf.Length) + if n != -1 && Need(s) > old(buf.Length) then Need(s) else 0
      ensures 1 <= tries <= 2
    {
      hide Laid, Exactly, Fits, Roomy, OutOf;
      var ok;
      ok, tries := Format(s, first, second);
      if !ok {
        return -1, tries;
      }
      Advance(s);
      n := |s|;
    }

    /** `__argp_fmtstream_write` */
    method Write(s: string, answer: Answer) returns (n: nat)
      requires Valid() && Fits(lmargin, rmargin, 0, printed + s)
      modifies this, buf
      ensures Valid() && lmargin == old(lmargin) && rmargin == old(rmargin) && (buf == old(buf) || fresh(buf))
      ensures n == if old(buf.Length - p >= |s|
                          || (|Next().done| <= answer.take && (|s| <= buf.Length || answer.memory)))
                   then |s| else 0
      ensures printed == old(printed) + s[..n] && old(file) <= file
      ensures old(Exact()) ==> (Exact() <==> old(HasRoom() || buf.Length - p >= |s|))
    {
      hide Laid, Exactly, Fits, Roomy, OutOf;
      if p + |s| > buf.Length {
        var ok := Ensure(|s|, answer);
        if !ok {
          assert printed + s[..0] == printed;
          return 0;
        }
      }
      Copy(buf, p, s);
      assert s[..|s|] == s;
      Advance(s);
      n := |s|;
    }

    /** `__argp_fmtstream_free`: what is left is laid out and written. Always, the file holds the
        characters printed in order, apart from blanks, and all of them and all blanks if the write was
        complete; with room for what was left, it holds exactly the indented text, as far as it was
        written. */
    method Free(take: nat) returns (complete: bool)
      requires Valid()
      modifies this, buf
      ensures printed == old(printed) && old(file) <= file
      ensures Ink(file) <= Ink(printed)
      ensures complete ==> Ink(file) == Ink(printed)
      ensures complete <==> old(|Next().done|) <= take
      ensures file == Taken(old(Next()), take).file
      ensures complete <==> |file| == |Indent(old(lmargin), 0, printed)|
      ensures old(Exact() && HasRoom()) ==> file <= Indent(old(lmargin), 0, printed)
      ensures old(Exact()) && complete ==> (file == Indent(old(lmargin), 0, printed) <==> old(HasRoom()))
    {
      hide Laid, Exactly, Fits, Indent, Column, Roomy, Ink, OutOf;
      LayOut();
      LaidWhole(lmargin, rmargin, printed, file, buf[..p], pointCol);
      var wrote := if take < p then take else p;
      assert buf[..p][..wrote] == buf[..wrote];
      CutWrite(file, buf, wrote, p);
      InkConcat(file + buf[..wrote], buf[wrote..p]);
      complete := wrote == p;
      file := file + buf[..wrote];
      if complete {
        assert buf[wrote..p] == [] && file + [] == file;
      }
    }
  }

  // ----- Streams with room ----------------------------------------------

  /** Without a left margin room is never short, and file and buffer together are always the text
      printed. */
  lemma NothingLost(st: Stream)
    requires st.Valid() && st.lmargin == 0
    ensures st.HasRoom() && st.Exact()
    ensures st.file + st.buf[..st.p] == st.printed
  {
    hide Fits, Indent, Column, Ink, OnlyFirst;
    var laid := LaidPart(st.printed, st.p - st.pointOffs);
    NoMargin(0, laid);
    var text := st.buf[..st.p];
    NoMarginRoomy(st.buf.Length, st.file, text, st.pointOffs, st.pointCol);
    assert text == text[..st.pointOffs] + text[st.pointOffs..];
    assert st.printed == laid + st.printed[|laid|..];
    Assoc(st.file, text[..st.pointOffs], text[st.pointOffs..]);
  }

  /** As long as all that was printed, indented, is shorter than the buffer, there is room. */
  lemma RoomFor(st: Stream)
    requires st.Valid()
    ensures |Indent(st.lmargin, 0, st.printed)| < st.buf.Length ==> st.HasRoom()
  {
    hide Fits, Indent, Column, Ink, OnlyFirst;
    var laid := LaidPart(st.printed, st.p - st.pointOffs);
    var todo := st.buf[..st.p][st.pointOffs..];
    assert st.printed == laid + todo;
    IndentConcat(st.lmargin, 0, laid, todo);
  }

  // ----- A whole run ----------------------------------------------------

  predicate WholeLines(s: string) {
    s != [] ==> s[|s| - 1] == '\n'
  }

  lemma {:induction false} ColumnOfLines(lm: nat, s: string, col: nat)
    requires WholeLines(s)
    ensures Column(lm, col, s) == if s == [] then col else 0
    decreases |s|
  {
    if s != [] {
      ColumnOfLines(lm, s[1..], Step(lm, col, s[0]));
    }
  }

  function Newlines(s: string): nat {
    if s == [] then 0 else (if s[0] == '\n' then 1 else 0) + Newlines(s[1..])
  }

  lemma IndentFirst(lm: nat, col: nat, text: string)
    requires text != []
    ensures |Indent(lm, col, text)|
         == (if Due(lm, col) then lm else 0) + 1 + |Indent(lm, Step(lm, col, text[0]), text[1..])|
    ensures Newlines(text) == (if text[0] == '\n' then 1 else 0) + Newlines(text[1..])
    ensures text[1..] == [] ==> Newlines(text[1..]) == 0
  {
  }

  lemma OneMore(k: nat, n: int)
    ensures k * (n + 1) == k * n + k
  {
  }

  /** Whole lines take one margin each, but for a first one that goes on from another column. */
  lemma {:induction false} IndentOfLines(lm: nat, col: nat, text: string)
    requires WholeLines(text) && text != []
    ensures |Indent(lm, col, text)| == |text| + lm * (if Due(lm, col) then Newlines(text) else Newlines(text) - 1)
    decreases |text|
  {
    hide Indent, Newlines;
    var rest := text[1..];
    IndentFirst(lm, col, text);
    if rest == [] {
      NoText(lm, 0);
    } else {
      IndentOfLines(lm, Step(lm, col, text[0]), rest);
      OneMore(lm, Newlines(rest) - 1);
      OneMore(lm, Newlines(rest));
    }
  }

  /** All texts, one after the other. */
  function Concat(texts: seq<string>): string {
    if texts == [] then "" else Concat(texts[..|texts| - 1]) + texts[|texts| - 1]
  }

  lemma ConcatMore(texts: seq<string>, i: nat, j: nat)
    requires i <= j < |texts|
    ensures Concat(texts[i..j + 1]) == Concat(texts[i..j]) + texts[j]
  {
    assert texts[i..j + 1][..j - i] == texts[i..j];
  }

  predicate AllWholeLines(texts: seq<string>) {
    forall i :: 0 <= i < |texts| ==> WholeLines(texts[i])
  }

  lemma {:induction false} ConcatLines(texts: seq<string>)
    requires AllWholeLines(texts)
    ensures WholeLines(Concat(texts))
  {
    if texts != [] {
      ConcatLines(texts[..|texts| - 1]);
    }
  }

  /** The texts that went through, one after the other. */
  function Passed(texts: seq<string>, went: seq<bool>): string
    requires |texts| == |went|
  {
    if texts == [] then ""
    else
      var n := |texts| - 1;
      Passed(texts[..n], went[..n]) + if went[n] then texts[n] else ""
  }

  /** Length of all texts, each indented. */
  function Total(lm: nat, texts: seq<string>): nat {
    if texts == [] then 0 else Total(lm, texts[..|texts| - 1]) + |Indent(lm, 0, texts[|texts| - 1])|
  }

  /** The most that can be in the buffer when a text is printed without a flush. */
  const WAITING := INIT_BUF_SIZE - PRINTF_SIZE_GUESS

  /** If the texts from i on can be waiting when text j is printed, then that text and the margins of
      all of them fit into the rest of the buffer. */
  predicate Window(lm: nat, texts: seq<string>, i: nat, j: nat)
    requires i <= j < |texts|
  {
    |Concat(texts[i..j])| <= WAITING ==> |texts[j]| + lm * Newlines(Concat(texts[i..j + 1])) < INIT_BUF_SIZE - WAITING
  }

  predicate AllWindows(lm: nat, texts: seq<string>) {
    forall i: nat, j: nat | i <= j < |texts| :: Window(lm, texts, i, j)
  }

  /** Texts for which the stream never runs short of room. */
  predicate Safe(lm: nat, texts: seq<string>) {
    lm == 0 || AllWindows(lm, texts) || Total(lm, texts) < INIT_BUF_SIZE
  }

  lemma {:induction false} NewlinesConcat(a: string, b: string)
    ensures Newlines(a + b) == Newlines(a) + Newlines(b)
  {
    if a == [] {
      assert a + b == b;
    } else {
      assert (a + b)[1..] == a[1..] + b;
      NewlinesConcat(a[1..], b);
    }
  }

  /** Each text is one line of at least `shortest` characters, its newline counted. */
  predicate Lines(texts: seq<string>, shortest: nat) {
    forall i :: 0 <= i < |texts| ==> Newlines(texts[i]) == 1 && |texts[i]| >= shortest
  }

  lemma {:induction false} ConcatOfLines(texts: seq<string>, shortest: nat)
    requires Lines(texts, shortest)
    ensures Newlines(Concat(texts)) == |texts| && |Concat(texts)| >= shortest * |texts|
  {
    assert Newlines("") == 0;
    hide Newlines;
    if texts == [] {
    } else {
      var n := |texts| - 1;
      ConcatOfLines(texts[..n], shortest);
      NewlinesConcat(Concat(texts[..n]), texts[n]);
      OneMore(shortest, n);
    }
  }

  lemma Scaled(k: nat, a: int, b: int)
    requires a <= b
    ensures k * a <= k * b
  {
  }

  lemma AtMost(k: nat, a: nat, n: nat)
    requires a >= 1 && a * k <= n
    ensures k <= n / a
  {
    var q := n / a;
    OneMore(a, q);
    if k > q {
      Scaled(a, q + 1, k);
    }
  }

  /** Any number of single lines is safe, with any margin, if a line and the margins of as many lines as
      can be waiting with it fit: for lines of 31 characters, margins up to 59. */
  lemma LinesAreSafe(lm: nat, texts: seq<string>, shortest: nat)
    requires shortest >= 1 && Lines(texts, shortest)
    requires forall i :: 0 <= i < |texts| ==> |texts[i]| + lm * (WAITING / shortest + 1) < INIT_BUF_SIZE - WAITING
    ensures AllWindows(lm, texts)
  {
    hide Newlines, Concat;
    forall i: nat, j: nat | i <= j < |texts|
      ensures Window(lm, texts, i, j)
    {
      ConcatOfLines(texts[i..j], shortest);
      ConcatOfLines(texts[i..j + 1], shortest);
      if |Concat(texts[i..j])| <= WAITING {
        AtMost(j - i, shortest, WAITING);
        Scaled(lm, j - i + 1, WAITING / shortest + 1);
      }
    }
  }

  lemma NewlinesAtMost(s: string)
    ensures Newlines(s) <= |s|
  {
  }

  /** Texts of any shape are safe if each fits with the most margins that can be waiting, one for every
      character; that leaves margins of one and two columns. */
  lemma ShortAreSafe(lm: nat, texts: seq<string>)
    requires forall i :: 0 <= i < |texts| ==>
               |texts[i]| + lm * (WAITING + Newlines(texts[i])) < INIT_BUF_SIZE - WAITING
    ensures AllWindows(lm, texts)
  {
    hide Newlines, Concat;
    forall i: nat, j: nat | i <= j < |texts|
      ensures Window(lm, texts, i, j)
    {
      var waiting := Concat(texts[i..j]);
      ConcatMore(texts, i, j);
      NewlinesConcat(waiting, texts[j]);
      NewlinesAtMost(waiting);
      if |waiting| <= WAITING {
        Scaled(lm, Newlines(waiting) + Newlines(texts[j]), WAITING + Newlines(texts[j]));
      }
    }
  }

  /** After printing a text behind others that fit their window there is room. */
  lemma RoomAfterWindow(st: Stream, texts: seq<string>, i: nat, j: nat)
    requires st.Valid() && st.buf.Length == INIT_BUF_SIZE && i <= j < |texts| && AllWholeLines(texts)
    requires st.Pending() == Concat(texts[i..j + 1]) && st.p - |texts[j]| <= WAITING
    ensures Window(st.lmargin, texts, i, j) ==> st.HasRoom()
  {
    hide Fits, Indent, Column, Ink, OnlyFirst, WholeLines, Laid, Newlines;
    var lm, todo := st.lmargin, st.Pending();
    ConcatMore(texts, i, j);
    assert WholeLines(todo) by { ConcatLines(texts[i..j + 1]); }
    if todo == [] {
      NoTextRoom(lm, INIT_BUF_SIZE, st.pointOffs, st.pointCol);
    } else {
      IndentOfLines(lm, st.pointCol, todo);
      OneMore(lm, Newlines(todo) - 1);
    }
  }

  /** What is pending is the end of what was printed. */
  lemma PendingIs(st: Stream)
    requires st.Valid()
    ensures |st.Pending()| == st.p - st.pointOffs <= |st.printed|
    ensures st.Pending() == st.printed[|st.printed| - (st.p - st.pointOffs)..]
  {
    hide Fits, Indent, Column, Ink;
  }

  /** With text j behind the last `k` characters printed before, the texts up to j are pending. */
  lemma NextPending(st: Stream, texts: seq<string>, i: nat, j: nat, printed: string, k: nat)
    requires st.Valid() && i <= j < |texts| && k <= |printed|
    requires st.printed == printed + texts[j] && st.p - st.pointOffs == k + |texts[j]|
    requires printed[|printed| - k..] == Concat(texts[i..j])
    ensures st.Pending() == Concat(texts[i..j + 1])
  {
    hide Laid, Exactly, Concat;
    PendingIs(st);
    ConcatMore(texts, i, j);
    assert (printed + texts[j])[|printed| - k..] == printed[|printed| - k..] + texts[j];
  }

  lemma ConcatNothing()
    ensures Concat([]) == ""
  {
  }

  lemma OneWindow(lm: nat, texts: seq<string>, i: nat, j: nat)
    requires i <= j < |texts|
    ensures AllWindows(lm, texts) ==> Window(lm, texts, i, j)
  {
  }

  lemma OneTextWindow(lm: nat, texts: seq<string>, j: nat)
    requires j < |texts|
    ensures AllWindows(lm, texts) ==> |texts[j]| < PRINTF_SIZE_GUESS
  {
    ConcatNothing();
    assert texts[j..j] == [];
    OneWindow(lm, texts, j, j);
  }

  /** One more text is printed; `from` is the first of those that wait behind `pointOffs`. */
  method PrintNext(st: Stream, texts: seq<string>, j: nat, first: Answer, second: Answer, ghost from: nat)
    returns (ok: bool, ghost next: nat)
    requires st.Valid() && from <= j < |texts| && AllWholeLines(texts)
    requires st.Pending() == Concat(texts[from..j]) && Fits(st.lmargin, st.rmargin, 0, st.printed + texts[j])
    modifies st, st.buf
    ensures st.Valid() && st.lmargin == old(st.lmargin) && st.rmargin == old(st.rmargin)
    ensures st.buf == old(st.buf) || fresh(st.buf)
    ensures st.printed == if ok then old(st.printed) + texts[j] else old(st.printed)
    ensures ok <==> !old(Fails(st.buf.Length, st.p, |st.Next().done|, texts[j], first, second))
    ensures next <= j + 1 && st.Pending() == Concat(texts[next..j + 1])
    ensures old(st.Exact() && st.HasRoom()) ==> st.Exact()
    ensures AllWindows(st.lmargin, texts) && old(st.buf.Length) == INIT_BUF_SIZE ==>
              st.buf.Length == INIT_BUF_SIZE && st.HasRoom()
  {
    hide Laid, Exactly, Fits, Roomy, AllWindows, WholeLines, Concat;
    var s := texts[j];
    ghost var behind := st.buf.Length - st.p;
    ghost var printed, pending := st.printed, st.Pending();
    PendingIs(st);
    assert AllWindows(st.lmargin, texts) ==> |s| < PRINTF_SIZE_GUESS by { OneTextWindow(st.lmargin, texts, j); }
    var n, tries := st.Printf(s, first, second);
    ok := n != -1;
    ConcatNothing();
    assert texts[j..j] == [] && texts[j + 1..j + 1] == [];
    if !ok {
      next := j + 1;
    } else {
      next := if behind < Need(s) then j else from;
      NextPending(st, texts, next, j, printed, if behind < Need(s) then 0 else |pending|);
      if AllWindows(st.lmargin, texts) && st.buf.Length == INIT_BUF_SIZE {
        assert Window(st.lmargin, texts, next, j) by { OneWindow(st.lmargin, texts, next, j); }
        RoomAfterWindow(st, texts, next, j);
      }
    }
  }

  /** What was printed is the texts up to i that went through, which are whole lines. */
  ghost predicate Tally(lm: nat, texts: seq<string>, i: nat, went: seq<bool>, printed: string) {
    && |went| == i <= |texts| && printed == Passed(texts[..i], went)
    && Column(lm, 0, printed) == 0 && |Indent(lm, 0, printed)| <= Total(lm, texts[..i])
  }

  /** Text i fits behind what was printed, and is counted whether it goes through or not. */
  lemma TallyMore(lm: nat, rm: nat, texts: seq<string>, i: nat, went: seq<bool>, printed: string)
    requires i < |texts| && Tally(lm, texts, i, went, printed) && WholeLines(texts[i])
    requires Fits(lm, rm, 0, printed) && Fits(lm, rm, 0, texts[i])
    ensures Fits(lm, rm, 0, printed + texts[i])
    ensures Tally(lm, texts, i + 1, went + [true], printed + texts[i])
    ensures Tally(lm, texts, i + 1, went + [false], printed)
  {
    hide Fits, Indent, Column, WholeLines;
    var s := texts[i];
    FitsConcat(lm, rm, 0, printed, s);
    IndentConcat(lm, 0, printed, s);
    ColumnOfLines(lm, s, 0);
    assert texts[..i + 1][..i] == texts[..i];
    assert (went + [true])[..i] == went && (went + [false])[..i] == went;
    assert printed + "" == printed;
  }

  lemma {:induction false} TotalGrows(lm: nat, texts: seq<string>, n: nat)
    requires n <= |texts|
    ensures Total(lm, texts[..n]) <= Total(lm, texts)
    decreases |texts|
  {
    hide Indent;
    if n == |texts| {
      assert texts[..n] == texts;
    } else {
      TotalGrows(lm, texts[..|texts| - 1], n);
      assert texts[..|texts| - 1][..n] == texts[..n];
    }
  }

  /** Without a left margin, or with few texts in all, there is always room. */
  lemma RoomIfFew(st: Stream, texts: seq<string>, i: nat, went: seq<bool>)
    requires st.Valid() && Tally(st.lmargin, texts, i, went, st.printed)
    ensures st.lmargin == 0 || Total(st.lmargin, texts) < INIT_BUF_SIZE ==> st.HasRoom()
  {
    hide Laid, Exactly, Roomy, Indent, Column;
    TotalGrows(st.lmargin, texts, i);
    RoomFor(st);
    if st.lmargin == 0 {
      NothingLost(st);
    }
  }

  lemma TallyNothing(lm: nat, texts: seq<string>)
    ensures Tally(lm, texts, 0, [], "")
  {
    NoText(lm, 0);
  }

  lemma TallyIs(lm: nat, texts: seq<string>, went: seq<bool>, printed: string)
    requires Tally(lm, texts, |texts|, went, printed)
    ensures |went| == |texts| && printed == Passed(texts, went)
  {
    assert texts[..|texts|] == texts;
  }

  lemma TextsFit(st: Stream)
    requires st.Valid()
    ensures Fits(st.lmargin, st.rmargin, 0, st.printed)
  {
  }

  lemma {:induction false} IndentInk(lm: nat, col: nat, text: string)
    ensures Ink(Indent(lm, col, text)) == Ink(text)
    decreases |text|
  {
    if text != [] {
      var pad, rest := if Due(lm, col) then Blanks(lm) else [], Indent(lm, Step(lm, col, text[0]), text[1..]);
      IndentInk(lm, Step(lm, col, text[0]), text[1..]);
      InkBlanks(lm);
      InkConcat(pad + [text[0]], rest);
      InkConcat(pad, [text[0]]);
      InkConcat([text[0]], text[1..]);
      assert [text[0]] + text[1..] == text;
    }
  }

  /** No write is short of `most` characters and no memory is refused. */
  predicate Willing(most: nat, answers: seq<(Answer, Answer)>, last: nat) {
    && (forall i :: 0 <= i < |answers| ==>
          answers[i].0.take >= most && answers[i].1.take >= most && answers[i].1.memory)
    && last >= most
  }

  lemma WillingNeverFails(most: nat, answers: seq<(Answer, Answer)>, last: nat, i: nat,
                          size: nat, p: nat, waiting: nat, s: string)
    requires waiting <= most
    ensures Willing(most, answers, last) ==>
              last >= most && (i < |answers| ==> !Fails(size, p, waiting, s, answers[i].0, answers[i].1))
  {
  }

  /** There is never more to write than the indented texts. */
  lemma WaitingBound(st: Stream, texts: seq<string>, i: nat, went: seq<bool>)
    requires st.Valid() && Tally(st.lmargin, texts, i, went, st.printed)
    ensures |st.Next().done| <= Total(st.lmargin, texts)
  {
    hide Laid, Exactly, Roomy, Indent, Column, OutOf, Fits;
    TotalGrows(st.lmargin, texts, i);
    LaidOut(st.lmargin, st.rmargin, st.printed, st.file, st.buf[..st.p], st.pointOffs, st.pointCol, st.buf.Length);
  }

  lemma {:induction false} AllPassed(texts: seq<string>, went: seq<bool>)
    requires |texts| == |went| && forall k :: 0 <= k < |went| ==> went[k]
    ensures Passed(texts, went) == Concat(texts)
  {
    if texts != [] {
      AllPassed(texts[..|texts| - 1], went[..|texts| - 1]);
    }
  }

  /** A stream from its start to its end. Whatever the margins, the file ends up with the texts that
      went through, less blanks at most, in order and without loss but for an incomplete last write.
      If there is no left margin, or the texts fit their windows, however many they are, or all
      together are few, it holds exactly the indented text, as far as it was written. If no write is
      short and no memory is refused, all texts go through and are written. */
  method Output(lm: nat, rm: nat, texts: seq<string>, answers: seq<(Answer, Answer)>, last: nat)
    returns (file: string, went: seq<bool>, complete: bool)
    requires |answers| == |texts|
    requires AllWholeLines(texts) && forall i :: 0 <= i < |texts| ==> Fits(lm, rm, 0, texts[i])
    ensures |went| == |texts|
    ensures var whole := Indent(lm, 0, Passed(texts, went));
            && Ink(file) <= Ink(whole) && (complete <==> |file| == |whole|)
            && (complete ==> Ink(file) == Ink(whole))
            && (Safe(lm, texts) ==> file <= whole)
    ensures Willing(Total(lm, texts), answers, last) ==>
              complete && (forall i :: 0 <= i < |went| ==> went[i]) && Passed(texts, went) == Concat(texts)
  {
    hide Laid, Exactly, Fits, Roomy, Indent, Ink, WholeLines, AllWindows, Concat, Tally, Total, Passed, OutOf, Fails,
         Willing;
    var st := new Stream(lm, rm);
    went := [];
    ghost var from: nat := 0;
    ConcatNothing();
    TallyNothing(lm, texts);
    for i := 0 to |texts|
      invariant fresh(st) && fresh(st.buf) && st.Valid() && st.lmargin == lm && st.rmargin == rm
      invariant Tally(lm, texts, i, went, st.printed)
      invariant from <= i && st.Pending() == Concat(texts[from..i])
      invariant Safe(lm, texts) ==> st.Exact() && st.HasRoom()
      invariant AllWindows(lm, texts) ==> st.buf.Length == INIT_BUF_SIZE
      invariant Willing(Total(lm, texts), answers, last) ==> forall k :: 0 <= k < |went| ==> went[k]
    {
      TextsFit(st);
      TallyMore(lm, rm, texts, i, went, st.printed);
      var ok;
      WaitingBound(st, texts, i, went);
      WillingNeverFails(Total(lm, texts), answers, last, i, st.buf.Length, st.p, |st.Next().done|, texts[i]);
      ok, from := PrintNext(st, texts, i, answers[i].0, answers[i].1, from);
      went := went + [ok];
      RoomIfFew(st, texts, i + 1, went);
    }
    TallyIs(lm, texts, went, st.printed);
    IndentInk(lm, 0, st.printed);
    WaitingBound(st, texts, |texts|, went);
    WillingNeverFails(Total(lm, texts), answers, last, |answers|, 0, 0, 0, "");
    if forall k :: 0 <= k < |went| ==> went[k] {
      AllPassed(texts, went);
    }
    complete := st.Free(last);
    file := st.file;
  }

  lemma TwoLettersFit()
    ensures Fits(100, 120, 0, "a\nb") && Ink("a\nb") == "a\nb"
  {
    assert "a\nb"[1..] == "\nb" && "\nb"[1..] == "b" && "b"[1..] == "";
    assert Fits(100, 120, 0, "b") && Fits(100, 120, 101, "\nb");
    assert Ink("b") == "b" && Ink("\nb") == "\nb";
  }

  /** With a margin of 100 columns two lines of one letter are enough: when a new stream lays them out,
      the second margin does not fit and overtakes the first line. */
  lemma MarginOvertakes()
    ensures Scan(100, INIT_BUF_SIZE, Shown("", "", 0), "a\nb") == Shown(Blanks(100), Blanks(100) + "a\nb", 101)
    ensures Indent(100, 0, "a\nb") == Blanks(100) + "a\n" + (Blanks(100) + "b")
    ensures Fits(100, 120, 0, "a\nb")
  {
    hide Scan, Indent, Fits;
    var text := "a\nb";
    assert IndexOf(text, '\n') == 1 && text[..2] == "a\n" && text[2..] == "b" && IndexOf("b", '\n') == 1;
    SplitLine(100, 120, 0, text);
    SplitLine(100, 120, 0, "b");
    ScanLine(100, INIT_BUF_SIZE, Shown("", "", 0), text);
    var done := Blanks(100) + "a\n";
    assert "" + Blanks(100) + text[..2] == done;
    ScanLine(100, INIT_BUF_SIZE, Shown("", done, 0), "b");
    assert "" + Blanks(100) == Blanks(100) && done + "b" == Blanks(100) + text;
    TwoLettersFit();
  }

  lemma NoRoomForTwo(st: Stream)
    requires st.Valid() && st.lmargin == 100 && st.printed == "a\nb" && st.p == 3 && st.pointOffs == 0
    ensures st.buf.Length == INIT_BUF_SIZE ==> !st.HasRoom()
  {
    hide Fits, Indent, Column, Ink;
    MarginOvertakes();
    NoText(100, 0);
    assert st.printed[..0] == [];
    assert st.buf[..3][0..] == st.printed[0..] == st.printed;
  }

  /** The same on the stream: one print after its constructor, and never what was asked for. */
  method PrintTwoLines(first: Answer, second: Answer, last: nat) returns (file: string, complete: bool)
    ensures last >= 203 ==> complete
    ensures complete ==> file != Indent(100, 0, "a\nb") && Ink(file) == "a\nb"
  {
    hide Laid, Exactly, Fits, Indent, Column, Roomy, Ink;
    var st := new Stream(100, 120);
    var text := "a\nb";
    MarginOvertakes();
    TwoLettersFit();
    assert "" + text == text;
    var n, tries := st.Printf(text, first, second);
    NoRoomForTwo(st);
    LaidOut(100, 120, text, st.file, st.buf[..st.p], st.pointOffs, st.pointCol, st.buf.Length);
    complete := st.Free(last);
    file := st.file;
  }
}
