/**
 The text editor's state and key handler.  The editor works on an array of lines with a
 row and column; `FlatPress` is the reference, a plain text with one offset.
 */
module TextEditor {
  import opened FlatText

  /** A keyboard event: the key's name and the modifiers held. */
  datatype Key = Key(name: string, ctrl: bool, alt: bool, meta: bool)

  datatype State = State(lines: seq<string>, row: nat, col: nat, modified: bool)

  predicate Valid(s: State) { s.row < |s.lines| && s.col <= |s.lines[s.row]| }

  predicate IsSave(k: Key) { k.ctrl && k.name == "s" }

  predicate IsPrintable(k: Key) { |k.name| == 1 && !k.ctrl && !k.alt && !k.meta }

  function Min(a: int, b: int): int { if a < b then a else b }

  function Max(a: int, b: int): int { if a > b then a else b }

  // ---- What one key does to the lines ----

  /** Put `text` at the cursor, within the line. */
  function Typed(s: State, text: string): (t: State)
    requires Valid(s)
    ensures Valid(t)
  {
    var line := s.lines[s.row];
    State(s.lines[s.row := line[..s.col] + text + line[s.col..]], s.row, s.col + |text|, true)
  }

  function Broken(s: State): (t: State)
    requires Valid(s)
    ensures Valid(t)
  {
    var line := s.lines[s.row];
    State(s.lines[..s.row] + [line[..s.col], line[s.col..]] + s.lines[s.row + 1..], s.row + 1, 0, true)
  }

  /** Rows `row` and `row + 1` joined. */
  function Merged(lines: seq<string>, row: nat): seq<string>
    requires row + 1 < |lines|
  {
    lines[..row] + [lines[row] + lines[row + 1]] + lines[row + 2..]
  }

  function Backspaced(s: State): (t: State)
    requires Valid(s)
    ensures Valid(t)
  {
    var line := s.lines[s.row];
    if s.col > 0 then
      State(s.lines[s.row := line[..s.col - 1] + line[s.col..]], s.row, s.col - 1, true)
    else if s.row > 0 then
      State(Merged(s.lines, s.row - 1), s.row - 1, |s.lines[s.row - 1]|, true)
    else s.(modified := true)
  }

  function Deleted(s: State): (t: State)
    requires Valid(s)
    ensures Valid(t)
  {
    var line := s.lines[s.row];
    if s.col < |line| then
      s.(lines := s.lines[s.row := line[..s.col] + line[s.col + 1..]], modified := true)
    else if s.row < |s.lines| - 1 then
      s.(lines := Merged(s.lines, s.row), modified := true)
    else s.(modified := true)
  }

  function AtRow(s: State, row: nat): (t: State)
    requires row < |s.lines|
    ensures Valid(t)
  {
    s.(row := row, col := Min(s.col, |s.lines[row]|))
  }

  function Pressed(s: State, k: Key, stored: bool): (t: State)
    requires Valid(s)
    ensures Valid(t)
  {
    if IsSave(k) then s.(modified := s.modified && !stored)
    else if k.name == "ArrowUp" then AtRow(s, Max(0, s.row - 1))
    else if k.name == "ArrowDown" then AtRow(s, Min(|s.lines| - 1, s.row + 1))
    else if k.name == "ArrowLeft" then
      if s.col > 0 then s.(col := s.col - 1)
      else if s.row > 0 then s.(row := s.row - 1, col := |s.lines[s.row - 1]|)
      else s
    else if k.name == "ArrowRight" then
      if s.col < |s.lines[s.row]| then s.(col := s.col + 1)
      else if s.row < |s.lines| - 1 then s.(row := s.row + 1, col := 0)
      else s
    else if k.name == "Home" then s.(col := 0)
    else if k.name == "End" then s.(col := |s.lines[s.row]|)
    else if k.name == "Backspace" then Backspaced(s)
    else if k.name == "Delete" then Deleted(s)
    else if k.name == "Enter" then Broken(s)
    else if k.name == "Tab" then Typed(s, "  ")
    else if IsPrintable(k) then Typed(s, k.name)
    else s
  }

  // ---- The code ----

  class Editor {
    var lines: seq<string>
    var row: nat
    var col: nat
    var modified: bool
    var file: string          // what the browser's storage holds under the file's name

    function Current(): State
      reads this
    {
      State(lines, row, col, modified)
    }

    /** Open: an empty initial content gives one empty line. */
    constructor (content: string, stored: string)
      ensures Current() == State(Split(content), 0, 0, false) && Valid(Current()) && file == stored
    {
      lines := if content != "" then Split(content) else [""];
      row, col, modified, file := 0, 0, false, stored;
    }

    /** `lines.splice(at, count, ...items)` */
    method Splice(at: nat, count: nat, items: seq<string>)
      requires at + count <= |lines|
      modifies this`lines
      ensures lines == old(lines[..at]) + items + old(lines[at + count..])
    {
      lines := lines[..at] + items + lines[at + count..];
    }

    method BackspaceKey()
      requires Valid(Current())
      modifies this`lines, this`row, this`col, this`modified
      ensures Current() == Backspaced(old(Current()))
    {
      if col > 0 {
        lines := lines[row := lines[row][..col - 1] + lines[row][col..]];
        col := col - 1;
      } else if row > 0 {
        col := |lines[row - 1]|;
        lines := lines[row - 1 := lines[row - 1] + lines[row]];
        Splice(row, 1, []);
        assert lines == Merged(old(lines), row - 1);
        row := row - 1;
      }
      modified := true;
    }

    method DeleteKey()
      requires Valid(Current())
      modifies this`lines, this`modified
      ensures Current() == Deleted(old(Current()))
    {
      if col < |lines[row]| {
        lines := lines[row := lines[row][..col] + lines[row][col + 1..]];
      } else if row < |lines| - 1 {
        lines := lines[row := lines[row] + lines[row + 1]];
        Splice(row + 1, 1, []);
        assert lines == Merged(old(lines), row);
      }
      modified := true;
    }

    method EnterKey()
      requires Valid(Current())
      modifies this`lines, this`row, this`col, this`modified
      ensures Current() == Broken(old(Current()))
    {
      var before, after := lines[row][..col], lines[row][col..];
      lines := lines[row := before];
      Splice(row + 1, 0, [after]);
      assert lines == Broken(old(Current())).lines;
      row := row + 1;
      col := 0;
      modified := true;
    }

    method Insert(text: string)
      requires Valid(Current())
      modifies this`lines, this`col, this`modified
      ensures Current() == Typed(old(Current()), text)
    {
      lines := lines[row := lines[row][..col] + text + lines[row][col..]];
      col := col + |text|;
      modified := true;
    }

    /** The key handler.  `storageAccepts` is false when the browser's storage is full. */
    method KeyDown(k: Key, storageAccepts: bool)
      requires Valid(Current())
      modifies this
      ensures Current() == Pressed(old(Current()), k, storageAccepts)
      ensures file == if k.ctrl && k.name == "s" && storageAccepts then Join(old(lines)) else old(file)
    {
      if IsSave(k) {
        if storageAccepts {
          file := Join(lines);
          modified := false;
        }
        return;
      }
      if k.name == "ArrowUp" {
        row := Max(0, row - 1);
        col := Min(col, |lines[row]|);
      } else if k.name == "ArrowDown" {
        row := Min(|lines| - 1, row + 1);
        col := Min(col, |lines[row]|);
      } else if k.name == "ArrowLeft" {
        if col > 0 {
          col := col - 1;
        } else if row > 0 {
          row := row - 1;
          col := |lines[row]|;
        }
      } else if k.name == "ArrowRight" {
        if col < |lines[row]| {
          col := col + 1;
        } else if row < |lines| - 1 {
          row := row + 1;
          col := 0;
        }
      } else if k.name == "Home" {
        col := 0;
      } else if k.name == "End" {
        col := |lines[row]|;
      } else if k.name == "Backspace" {
        BackspaceKey();
      } else if k.name == "Delete" {
        DeleteKey();
      } else if k.name == "Enter" {
        EnterKey();
      } else if k.name == "Tab" {
        Insert("  ");
      } else if IsPrintable(k) {
        Insert(k.name);
      }
    }
  }

  // ---- The flat reference ----

  datatype Flat = Flat(text: string, at: nat)

  /** The offset of a row's first character: each earlier row counts with its newline. */
  function Start(ls: seq<string>, row: nat): nat
    requires row <= |ls|
  {
    if row == 0 then 0 else Start(ls, row - 1) + |ls[row - 1]| + 1
  }

  /** The newline-joined text, and the cursor as an offset into it. */
  function FlatOf(s: State): Flat
    requires Valid(s)
  {
    Flat(Join(s.lines), Start(s.lines, s.row) + s.col)
  }

  function LineStart(text: string, at: nat): (start: nat)
    requires at <= |text|
    ensures start <= at && (start > 0 ==> text[start - 1] == NL)
  {
    if at == 0 || text[at - 1] == NL then at else LineStart(text, at - 1)
  }

  function LineEnd(text: string, at: nat): (end: nat)
    requires at <= |text|
    ensures at <= end <= |text| && (end < |text| ==> text[end] == NL)
    decreases |text| - at
  {
    if at == |text| || text[at] == NL then at else LineEnd(text, at + 1)
  }

  function InsertAt(f: Flat, s: string): Flat
    requires f.at <= |f.text|
  {
    Flat(f.text[..f.at] + s + f.text[f.at..], f.at + |s|)
  }

  function Without(text: string, i: nat): string
    requires i < |text|
  {
    text[..i] + text[i + 1..]
  }

  /** Delete the character at `i` and leave the cursor there. */
  function RemoveAt(f: Flat, i: nat): Flat
    requires i < |f.text|
  {
    Flat(Without(f.text, i), i)
  }

  /** One line up, at the same column or at that line's end; stays on the first line. */
  function LineUp(text: string, at: nat): nat
    requires at <= |text|
  {
    var start := LineStart(text, at);
    if start == 0 then at else Min(LineStart(text, start - 1) + (at - start), start - 1)
  }

  /** One line down, at the same column or at that line's end; stays on the last line. */
  function LineDown(text: string, at: nat): nat
    requires at <= |text|
  {
    var end := LineEnd(text, at);
    if end == |text| then at
    else Min(end + 1 + (at - LineStart(text, at)), LineEnd(text, end + 1))
  }

  /** Every key, on a text with one offset. */
  function FlatPress(f: Flat, k: Key): (g: Flat)
    requires f.at <= |f.text|
    ensures g.at <= |g.text|
  {
    if IsSave(k) then f
    else if k.name == "ArrowUp" then f.(at := LineUp(f.text, f.at))
    else if k.name == "ArrowDown" then f.(at := LineDown(f.text, f.at))
    else if k.name == "ArrowLeft" then f.(at := Max(0, f.at - 1))
    else if k.name == "ArrowRight" then f.(at := Min(|f.text|, f.at + 1))
    else if k.name == "Home" then f.(at := LineStart(f.text, f.at))
    else if k.name == "End" then f.(at := LineEnd(f.text, f.at))
    else if k.name == "Backspace" then if f.at > 0 then RemoveAt(f, f.at - 1) else f
    else if k.name == "Delete" then if f.at < |f.text| then RemoveAt(f, f.at) else f
    else if k.name == "Enter" then InsertAt(f, [NL])
    else if k.name == "Tab" then InsertAt(f, "  ")
    else if IsPrintable(k) then InsertAt(f, k.name)
    else f
  }
}
