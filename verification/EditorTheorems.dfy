/** The line-array editor is a text with one cursor offset, for every key and every run of keys. */
module EditorTheorems {
  import opened FlatText
  import opened TextEditor

  // ---- Where a row sits in the text ----

  lemma {:induction false} StartIsBefore(ls: seq<string>, row: nat)
    requires row <= |ls|
    ensures |Before(ls[..row])| == Start(ls, row)
  {
    if row > 0 {
      StartIsBefore(ls, row - 1);
      BeforeNext(ls, row - 1);
    }
  }

  lemma {:induction false} SameStart(ls: seq<string>, ms: seq<string>, row: nat)
    requires row <= |ls| && row <= |ms| && forall i :: 0 <= i < row ==> ls[i] == ms[i]
    ensures Start(ls, row) == Start(ms, row)
  {
    if row > 0 {
      SameStart(ls, ms, row - 1);
    }
  }

  /** The text around one row, and around whatever may replace that row. */
  lemma Pieces(ls: seq<string>, row: nat, line: string) returns (a: string, d: string)
    requires row < |ls|
    ensures |a| == Start(ls, row) && |a| + |ls[row]| <= |Join(ls)|
    ensures Join(ls) == a + ls[row] + d
    ensures Join(ls[row := line]) == a + line + d && Start(ls[row := line], row) == |a|
  {
    var ms := ls[row := line];
    a, d := Before(ls[..row]), Following(ls[row + 1..]);
    StartIsBefore(ls, row);
    SameStart(ls, ms, row);
    JoinAt(ls, row);
    JoinAt(ms, row);
    assert ms[..row] == ls[..row] && ms[row + 1..] == ls[row + 1..];
  }

  /** One row becoming two puts a newline between them. */
  lemma RowSplit(ls: seq<string>, row: nat, x: string, y: string, ms: seq<string>) returns (a: string, d: string)
    requires row < |ls| && ms == ls[..row] + [x, y] + ls[row + 1..]
    ensures |a| == Start(ls, row) == Start(ms, row)
    ensures Join(ls) == a + ls[row] + d
    ensures Join(ms) == a + x + [NL] + y + d
  {
    a, d := Before(ls[..row]), Following(ls[row + 1..]);
    StartIsBefore(ls, row);
    SameStart(ls, ms, row);
    JoinAt(ls, row);
    JoinAt(ms, row);
    FollowingHead(ms, row + 1);
    assert ms[..row] == ls[..row] && ms[row + 2..] == ls[row + 1..];
  }

  /** Only the last row ends where the text ends; every other row ends at a newline. */
  lemma RowFits(ls: seq<string>, row: nat)
    requires row < |ls|
    ensures Start(ls, row) + |ls[row]| <= |Join(ls)|
    ensures Start(ls, row) + |ls[row]| == |Join(ls)| <==> row == |ls| - 1
    ensures row < |ls| - 1 ==> Join(ls)[Start(ls, row) + |ls[row]|] == NL
  {
    StartIsBefore(ls, row);
    JoinAt(ls, row);
    if row + 1 < |ls| {
      FollowingHead(ls, row + 1);
    }
  }

  lemma {:induction false} LineStartIs(text: string, start: nat, at: nat)
    requires start <= at <= |text| && (start > 0 ==> text[start - 1] == NL)
    requires forall i :: start <= i < at ==> text[i] != NL
    ensures LineStart(text, at) == start
    decreases at
  {
    if start < at {
      LineStartIs(text, start, at - 1);
    }
  }

  lemma {:induction false} LineEndIs(text: string, at: nat, end: nat)
    requires at <= end <= |text| && (end < |text| ==> text[end] == NL)
    requires forall i :: at <= i < end ==> text[i] != NL
    ensures LineEnd(text, at) == end
    decreases end - at
  {
    if at < end {
      LineEndIs(text, at + 1, end);
    }
  }

  /** A line free of newlines is what the text's own line search finds around any of its columns. */
  lemma LineBounds(ls: seq<string>, row: nat, col: nat, text: string, b: nat)
    requires row < |ls| && col <= |ls[row]| && Clean(ls[row]) && text == Join(ls) && b == Start(ls, row)
    ensures b + |ls[row]| <= |text|
    ensures LineStart(text, b + col) == b && LineEnd(text, b + col) == b + |ls[row]|
  {
    var line := ls[row];
    var a, d := Pieces(ls, row, line);
    RowFits(ls, row);
    if row > 0 {
      RowFits(ls, row - 1);
    }
    assert forall i :: b <= i < b + |line| ==> text[i] == line[i - b] && text[i] in line;
    LineStartIs(text, b, b + col);
    LineEndIs(text, b + col, b + |line|);
  }

  // ---- Each key ----

  /** Inserting into the middle piece. */
  lemma InsertBetween(a: string, line: string, i: nat, t: string, d: string)
    requires i <= |line|
    ensures var text := a + line + d;
      text[..|a| + i] + t + text[|a| + i..] == a + (line[..i] + t + line[i..]) + d
      && a + (line[..i] + t + line[i..]) + d == a + line[..i] + t + line[i..] + d
  {
  }

  lemma TypedIsInsert(s: State, t: string)
    requires Valid(s)
    ensures FlatOf(s).at <= |FlatOf(s).text|
    ensures FlatOf(Typed(s, t)) == InsertAt(FlatOf(s), t)
  {
    var line := s.lines[s.row];
    var a, d := Pieces(s.lines, s.row, line[..s.col] + t + line[s.col..]);
    InsertBetween(a, line, s.col, t, d);
  }

  lemma BrokenIsInsert(s: State)
    requires Valid(s)
    ensures FlatOf(s).at <= |FlatOf(s).text|
    ensures FlatOf(Broken(s)) == InsertAt(FlatOf(s), [NL])
  {
    var line := s.lines[s.row];
    var a, d := RowSplit(s.lines, s.row, line[..s.col], line[s.col..], Broken(s).lines);
    InsertBetween(a, line, s.col, [NL], d);
  }

  /** Removing a character of the middle piece. */
  lemma RemoveWithin(a: string, line: string, i: nat, d: string)
    requires i < |line|
    ensures var text := a + line + d;
      text[..|a| + i] + text[|a| + i + 1..] == a + (line[..i] + line[i + 1..]) + d
  {
  }

  lemma ShortenedLine(ls: seq<string>, row: nat, i: nat, line: string)
    requires row < |ls| && i < |ls[row]| && line == ls[row][..i] + ls[row][i + 1..]
    ensures Start(ls, row) + i < |Join(ls)| && Start(ls[row := line], row) == Start(ls, row)
    ensures Join(ls[row := line]) == Without(Join(ls), Start(ls, row) + i)
  {
    var a, d := Pieces(ls, row, line);
    RemoveWithin(a, ls[row], i, d);
  }

  lemma RemoveBetween(a: string, x: string, y: string, d: string)
    ensures var text := a + x + [NL] + y + d;
      text[..|a| + |x|] + text[|a| + |x| + 1..] == a + (x + y) + d
  {
  }

  /** Two rows are what splitting their merger at the first one's end gives. */
  lemma MergedSplits(ls: seq<string>, row: nat)
    requires row + 1 < |ls|
    ensures var ms := Merged(ls, row);
      row < |ms| && ms[row] == ls[row] + ls[row + 1] && ls == ms[..row] + [ls[row], ls[row + 1]] + ms[row + 1..]
  {
  }

  /** Merging two rows removes the newline between them. */
  lemma MergedLines(ls: seq<string>, row: nat, ms: seq<string>)
    requires row + 1 < |ls| && ms == Merged(ls, row)
    ensures Start(ls, row) + |ls[row]| < |Join(ls)| && Start(ms, row) == Start(ls, row)
    ensures Join(ms) == Without(Join(ls), Start(ls, row) + |ls[row]|)
  {
    MergedSplits(ls, row);
    MergedText(ls, row, ms);
  }

  lemma MergedText(ls: seq<string>, row: nat, ms: seq<string>)
    requires row < |ms| && row + 1 < |ls| && ms[row] == ls[row] + ls[row + 1]
    requires ls == ms[..row] + [ls[row], ls[row + 1]] + ms[row + 1..]
    ensures Start(ls, row) + |ls[row]| < |Join(ls)| && Start(ms, row) == Start(ls, row)
    ensures Join(ms) == Without(Join(ls), Start(ls, row) + |ls[row]|)
  {
    var a, d := RowSplit(ms, row, ls[row], ls[row + 1], ls);
    RemoveBetween(a, ls[row], ls[row + 1], d);
  }

  lemma BackspacedWithin(s: State)
    requires Valid(s) && s.col > 0
    ensures 0 < FlatOf(s).at <= |FlatOf(s).text|
    ensures FlatOf(Backspaced(s)) == RemoveAt(FlatOf(s), FlatOf(s).at - 1)
  {
    var line := s.lines[s.row];
    RowFits(s.lines, s.row);
    ShortenedLine(s.lines, s.row, s.col - 1, line[..s.col - 1] + line[s.col..]);
  }

  lemma BackspacedAcross(s: State)
    requires Valid(s) && s.col == 0 && s.row > 0
    ensures 0 < FlatOf(s).at <= |FlatOf(s).text|
    ensures FlatOf(Backspaced(s)) == RemoveAt(FlatOf(s), FlatOf(s).at - 1)
  {
    MergedLines(s.lines, s.row - 1, Merged(s.lines, s.row - 1));
  }

  lemma BackspacedIsRemove(s: State, f: Flat)
    requires Valid(s) && f == FlatOf(s)
    ensures f.at <= |f.text|
    ensures FlatOf(Backspaced(s)) == if f.at > 0 then RemoveAt(f, f.at - 1) else f
  {
    if s.col > 0 {
      BackspacedWithin(s);
    } else if s.row > 0 {
      BackspacedAcross(s);
    }
  }

  lemma DeletedIsRemove(s: State, f: Flat)
    requires Valid(s) && f == FlatOf(s)
    ensures f.at <= |f.text|
    ensures FlatOf(Deleted(s)) == if f.at < |f.text| then RemoveAt(f, f.at) else f
  {
    RowFits(s.lines, s.row);
    if s.col < |s.lines[s.row]| {
      var line := s.lines[s.row];
      ShortenedLine(s.lines, s.row, s.col, line[..s.col] + line[s.col + 1..]);
    } else if s.row < |s.lines| - 1 {
      MergedLines(s.lines, s.row, Merged(s.lines, s.row));
    }
  }

  /** Left and Right cross a line end as one step of the offset. */
  lemma SidewaysIsOffset(s: State, k: Key, stored: bool)
    requires Valid(s) && !IsSave(k) && (k.name == "ArrowLeft" || k.name == "ArrowRight")
    ensures FlatOf(s).at <= |FlatOf(s).text|
    ensures FlatOf(Pressed(s, k, stored)) == FlatPress(FlatOf(s), k)
  {
    RowFits(s.lines, s.row);
  }

  lemma LineUpOffset(ls: seq<string>, row: nat, col: nat, text: string, b: nat)
    requires row < |ls| && col <= |ls[row]| && AllClean(ls) && text == Join(ls) && b == Start(ls, row)
    ensures b + col <= |text|
    ensures LineUp(text, b + col) == if row == 0 then col else Start(ls, row - 1) + Min(col, |ls[row - 1]|)
  {
    LineBounds(ls, row, col, text, b);
    if row > 0 {
      LineBounds(ls, row - 1, |ls[row - 1]|, text, Start(ls, row - 1));
    }
  }

  lemma LineDownOffset(ls: seq<string>, row: nat, col: nat, text: string, b: nat)
    requires row < |ls| && col <= |ls[row]| && AllClean(ls) && text == Join(ls) && b == Start(ls, row)
    ensures b + col <= |text|
    ensures LineDown(text, b + col)
         == if row + 1 == |ls| then b + col else Start(ls, row + 1) + Min(col, |ls[row + 1]|)
  {
    LineBounds(ls, row, col, text, b);
    RowFits(ls, row);
    if row + 1 < |ls| {
      LineBounds(ls, row + 1, 0, text, Start(ls, row + 1));
    }
  }

  /** Keys that look for the ends of a line. */
  predicate SeeksLine(k: Key) {
    !IsSave(k) && (k.name == "ArrowUp" || k.name == "ArrowDown" || k.name == "Home" || k.name == "End")
  }

  lemma UpIsLineUp(s: State, f: Flat)
    requires Valid(s) && AllClean(s.lines) && f == FlatOf(s)
    ensures f.at <= |f.text| && FlatOf(AtRow(s, Max(0, s.row - 1))) == f.(at := LineUp(f.text, f.at))
  {
    LineUpOffset(s.lines, s.row, s.col, f.text, Start(s.lines, s.row));
  }

  lemma DownIsLineDown(s: State, f: Flat)
    requires Valid(s) && AllClean(s.lines) && f == FlatOf(s)
    ensures f.at <= |f.text|
    ensures FlatOf(AtRow(s, Min(|s.lines| - 1, s.row + 1))) == f.(at := LineDown(f.text, f.at))
  {
    LineDownOffset(s.lines, s.row, s.col, f.text, Start(s.lines, s.row));
  }

  lemma HomeAndEnd(s: State, f: Flat)
    requires Valid(s) && AllClean(s.lines) && f == FlatOf(s)
    ensures f.at <= |f.text| && FlatOf(s.(col := 0)) == f.(at := LineStart(f.text, f.at))
    ensures FlatOf(s.(col := |s.lines[s.row]|)) == f.(at := LineEnd(f.text, f.at))
  {
    LineBounds(s.lines, s.row, s.col, f.text, Start(s.lines, s.row));
  }

  lemma SeekIsFlat(s: State, k: Key, stored: bool, f: Flat)
    requires Valid(s) && SeeksLine(k) && AllClean(s.lines) && f == FlatOf(s)
    ensures f.at <= |f.text| && FlatOf(Pressed(s, k, stored)) == FlatPress(f, k)
  {
    if k.name == "ArrowUp" {
      UpIsLineUp(s, f);
    } else if k.name == "ArrowDown" {
      DownIsLineDown(s, f);
    } else {
      HomeAndEnd(s, f);
    }
  }

  /** A "printable" key that is itself a line break. */
  predicate TypesNewline(k: Key) { IsPrintable(k) && k.name == [NL] }

  /**
   One key on the lines is one key on the flat text.  Keys that look for the ends of a line
   need the lines to be newline-free; the others do not.
   */
  lemma PressIsFlatPress(s: State, k: Key, stored: bool)
    requires Valid(s) && (SeeksLine(k) ==> AllClean(s.lines))
    ensures FlatOf(s).at <= |FlatOf(s).text|
    ensures FlatOf(Pressed(s, k, stored)) == FlatPress(FlatOf(s), k)
  {
    RowFits(s.lines, s.row);
    if IsSave(k) {
    } else if SeeksLine(k) {
      SeekIsFlat(s, k, stored, FlatOf(s));
    } else if k.name == "ArrowLeft" || k.name == "ArrowRight" {
      SidewaysIsOffset(s, k, stored);
    } else if k.name == "Backspace" {
      BackspacedIsRemove(s, FlatOf(s));
    } else if k.name == "Delete" {
      DeletedIsRemove(s, FlatOf(s));
    } else if k.name == "Enter" {
      BrokenIsInsert(s);
    } else {
      TypedIsInsert(s, if k.name == "Tab" then "  " else k.name);
    }
  }

  /**
   Which keys write themselves: those of one character with no modifier held.  Control-s only saves,
   and any other key that is not one of the named ones does nothing.
   */
  lemma TypedOrIgnored(s: State, k: Key, stored: bool)
    requires Valid(s)
    ensures k.ctrl && k.name == "s" ==> Pressed(s, k, stored) == s.(modified := s.modified && !stored)
    ensures |k.name| == 1 && !(k.ctrl && k.name == "s") ==>
              Pressed(s, k, stored) == if k.ctrl || k.alt || k.meta then s else Typed(s, k.name)
    ensures |k.name| != 1
            && k.name !in {"ArrowUp", "ArrowDown", "ArrowLeft", "ArrowRight", "Home", "End", "Backspace", "Delete",
                           "Enter", "Tab"} ==>
              Pressed(s, k, stored) == s
  {
  }

  // ---- Newlines ----

  lemma CleanParts(a: string, b: string)
    ensures Clean(a + b) <==> Clean(a) && Clean(b)
  {
  }

  lemma CleanCut(line: string, i: nat, j: nat)
    requires Clean(line) && i <= j <= |line|
    ensures Clean(line[..i]) && Clean(line[j..]) && Clean(line[..i] + line[j..])
  {
  }

  /** Lines stay newline-free under every key except a printable newline, which always breaks this. */
  lemma CleanUnlessNewlineTyped(s: State, k: Key, stored: bool)
    requires Valid(s) && AllClean(s.lines)
    ensures AllClean(Pressed(s, k, stored).lines) <==> !TypesNewline(k)
  {
    var line, t := s.lines[s.row], Pressed(s, k, stored);
    assert Clean(line);
    if TypesNewline(k) {
      assert t == Typed(s, k.name);
      assert t.lines[s.row][s.col] == NL;
      assert !Clean(t.lines[s.row]);
    } else if !IsSave(k) && k.name == "Backspace" {
      BackspacedClean(s);
    } else if !IsSave(k) && k.name == "Delete" {
      DeletedClean(s);
    } else if !IsSave(k) && k.name == "Enter" {
      CleanCut(line, s.col, s.col);
    } else if !IsSave(k) && (k.name == "Tab" || IsPrintable(k)) {
      TypedClean(s, if k.name == "Tab" then "  " else k.name);
    }
  }

  /**
   A real key press never names its key "\n"; an event made by a script may.  The line it leaves holds
   the newline, and saving and opening makes two lines of it.
   */
  lemma ScriptedNewlineBreaksLine()
    ensures var s, k := State([""], 0, 0, false), Key([NL], false, false, false);
      && TypesNewline(k) && AllClean(s.lines)
      && Pressed(s, k, true).lines == [[NL]] && !AllClean([[NL]]) && Split(Join([[NL]])) == ["", ""]
  {
    var s, k := State([""], 0, 0, false), Key([NL], false, false, false);
    assert Pressed(s, k, true).lines[0] == [NL];
    assert !Clean([[NL]][0]);
    assert Join([[NL]]) == [NL];
    assert Split([NL]) == [""] + Split("");
  }

  lemma TypedClean(s: State, t: string)
    requires Valid(s) && AllClean(s.lines) && Clean(t)
    ensures AllClean(Typed(s, t).lines)
  {
    var line := s.lines[s.row];
    CleanCut(line, s.col, s.col);
    CleanParts(line[..s.col], t);
    CleanParts(line[..s.col] + t, line[s.col..]);
  }

  lemma BackspacedClean(s: State)
    requires Valid(s) && AllClean(s.lines)
    ensures AllClean(Backspaced(s).lines)
  {
    if s.col > 0 {
      CleanCut(s.lines[s.row], s.col - 1, s.col);
    } else if s.row > 0 {
      CleanParts(s.lines[s.row - 1], s.lines[s.row]);
    }
  }

  lemma DeletedClean(s: State)
    requires Valid(s) && AllClean(s.lines)
    ensures AllClean(Deleted(s).lines)
  {
    if s.col < |s.lines[s.row]| {
      CleanCut(s.lines[s.row], s.col, s.col + 1);
    } else if s.row < |s.lines| - 1 {
      CleanParts(s.lines[s.row], s.lines[s.row + 1]);
    }
  }

  // ---- Whole sessions ----

  datatype Event = Event(key: Key, stored: bool)

  function Session(s: State, es: seq<Event>): (t: State)
    requires Valid(s)
    ensures Valid(t)
    decreases es
  {
    if es == [] then s
    else Session(Pressed(s, es[0].key, es[0].stored), es[1..])
  }

  function FlatSession(f: Flat, es: seq<Event>): (g: Flat)
    requires f.at <= |f.text|
    ensures g.at <= |g.text|
    decreases es
  {
    if es == [] then f else FlatSession(FlatPress(f, es[0].key), es[1..])
  }

  /** A whole session is the same session on the flat text, and the lines stay newline-free. */
  lemma {:induction false} SessionIsFlat(s: State, es: seq<Event>)
    requires Valid(s) && AllClean(s.lines) && forall e <- es :: !TypesNewline(e.key)
    ensures AllClean(Session(s, es).lines) && FlatOf(s).at <= |FlatOf(s).text|
    ensures FlatOf(Session(s, es)) == FlatSession(FlatOf(s), es)
    decreases es
  {
    RowFits(s.lines, s.row);
    if es != [] {
      PressIsFlatPress(s, es[0].key, es[0].stored);
      CleanUnlessNewlineTyped(s, es[0].key, es[0].stored);
      SessionIsFlat(Pressed(s, es[0].key, es[0].stored), es[1..]);
    }
  }

  /** The text and the offset leave nothing out: they fix the lines, the row and the column. */
  lemma FlatDetermines(s: State, t: State)
    requires Valid(s) && Valid(t) && AllClean(s.lines) && AllClean(t.lines) && FlatOf(s) == FlatOf(t)
    ensures s.lines == t.lines && s.row == t.row && s.col == t.col
  {
    SplitJoin(s.lines);
    SplitJoin(t.lines);
    if s.row < t.row {
      RowsApart(s.lines, s.row, t.row);
    } else if t.row < s.row {
      RowsApart(s.lines, t.row, s.row);
    }
  }

  lemma {:induction false} RowsApart(ls: seq<string>, i: nat, j: nat)
    requires i < j < |ls|
    ensures Start(ls, i) + |ls[i]| < Start(ls, j)
    decreases j
  {
    if i < j - 1 {
      RowsApart(ls, i, j - 1);
    }
  }

  /**
   What a session saves and a later open reads back: the same lines, whatever was opened
   first and whatever keys were pressed.
   */
  lemma SaveThenOpen(content: string, es: seq<Event>)
    requires forall e <- es :: !TypesNewline(e.key)
    ensures var s := Session(State(Split(content), 0, 0, false), es);
      Split(Join(s.lines)) == s.lines && (es == [] ==> Join(s.lines) == content)
  {
    JoinSplit(content);
    var opened0 := State(Split(content), 0, 0, false);
    SessionIsFlat(opened0, es);
    SplitJoin(Session(opened0, es).lines);
  }

  /** The content last opened or saved, through a session. */
  function LastKept(s: State, kept: string, es: seq<Event>): string
    requires Valid(s)
    decreases es
  {
    if es == [] then kept
    else
      var saves := IsSave(es[0].key) && es[0].stored;
      LastKept(Pressed(s, es[0].key, es[0].stored), if saves then Join(s.lines) else kept, es[1..])
  }

  /** A status line without the modified mark is truthful: nothing would be lost by closing. */
  lemma {:induction false} UnmodifiedIsKept(s: State, kept: string, es: seq<Event>)
    requires Valid(s) && (!s.modified ==> Join(s.lines) == kept)
    ensures !Session(s, es).modified ==> Join(Session(s, es).lines) == LastKept(s, kept, es)
    decreases es
  {
    if es != [] {
      var k, stored := es[0].key, es[0].stored;
      var t := Pressed(s, k, stored);
      assert t.modified || t.lines == s.lines;
      UnmodifiedIsKept(t, if IsSave(k) && stored then Join(s.lines) else kept, es[1..]);
    }
  }
}
