/**
 Concrete runs of the model: a draw followed by a reset, a two-line upload,
 a CRLF row, and two inputs that show the edges of the parser and of the
 spin state.

 The lemmas about literal strings take them as parameters fixed by a
 `requires` (`requires x == "X,foo"`) rather than writing the literal in the
 `ensures`: a literal in the goal makes the verifier unfold the string
 functions character by character, which is far more costly than the
 generic lemmas they rest on. `PairDisplay` and `JoinPair` exist for the same
 reason: they state small sequence facts the verifier does not find alone.
 */
module Scenarios {
  import opened Text
  import opened Items
  import opened Parse
  import opened Pool
  import opened Spin

  /** Loading A, B, C, drawing position 1 and resetting: the pool becomes
      A, C with B drawn, and the reset puts B after them. */
  lemma DrawAndReset()
    ensures var p := Pool([Item(1, "A"), Item(2, "B"), Item(3, "C")], []);
      && Commit(p, 1) == Pool([Item(1, "A"), Item(3, "C")], [Item(2, "B")])
      && Reset(Commit(p, 1)) == Pool([Item(1, "A"), Item(3, "C"), Item(2, "B")], [])
  {
    var p := Pool([Item(1, "A"), Item(2, "B"), Item(3, "C")], []);
    CommitMovesOne(p, 1);
    assert p.items[..1] + p.items[2..] == [Item(1, "A"), Item(3, "C")];
  }

  /** A row that neither starts nor ends with a trimmable character is its
      own trim. */
  lemma TrimNoop(row: string)
    requires |row| > 0 && !IsTrimmable(row[0]) && !IsTrimmable(row[|row| - 1])
    ensures Trim(row) == row
  {
    assert TrimStart(row) == row;
    assert TrimEnd(row) == row;
  }

  /** A short row that is already trimmed and quote-free is cut at its
      comma. */
  lemma CleanSimpleRow(row: string, head: string)
    requires |row| > 0 && !IsTrimmable(row[0]) && !IsTrimmable(row[|row| - 1])
    requires forall c :: c in row ==> !IsLineTerminator(c) && c != '"'
    requires |head| < |row| && row[..|head|] == head && row[|head|] == ','
    requires ',' !in head
    ensures CleanValue(row) == head
  {
    TrimNoop(row);
    assert '"' !in row;
    StripQuotesNoQuotes(row);
    assert StripQuotes(Trim(row)) == row;
    CleanValueSingleLine(row);
    var v := CleanValue(row);
    assert v == row[..|v|];
    assert ',' in row by { assert row[|head|] == ','; }
    assert row[|v|] == ',';
    assert forall j :: 0 <= j < |head| ==> row[j] != ',';
    assert forall j :: 0 <= j < |v| ==> row[j] != ',';
  }

  /** A two-element sequence is the display of its elements. */
  lemma PairDisplay(r: seq<Item>, a: Item, b: Item)
    requires |r| == 2 && r[0] == a && r[1] == b
    ensures r == [a, b]
  {
  }

  /** Two newline-free lines joined by a newline are the join of the pair. */
  lemma JoinPair(x: string, y: string)
    ensures Join([x, y]) == x + "\n" + y
  {
    assert [x, y][1..] == [y];
  }

  /** A file of two non-blank, newline-free lines parses to items 1 and 2
      carrying their cleaned text. */
  lemma ParseTwoRows(x: string, y: string)
    requires '\n' !in x && '\n' !in y
    requires !IsBlank(x) && !IsBlank(y)
    ensures ParseItems(x + "\n" + y) == [Item(1, CleanValue(x)), Item(2, CleanValue(y))]
  {
    var lines := [x, y];
    JoinPair(x, y);
    OneItemPerLine(lines);
    var items := ParseItems(Join(lines));
    assert items[0] == Item(1, CleanValue(x)) by { assert lines[0] == x; }
    assert items[1] == Item(2, CleanValue(y)) by { assert lines[1] == y; }
    PairDisplay(items, Item(1, CleanValue(x)), Item(2, CleanValue(y)));
  }

  /** Uploading a file of two non-blank, newline-free lines gives items 1
      and 2 carrying their cleaned text, with nothing drawn. */
  lemma UploadTwoRows(before: Pool, x: string, y: string)
    requires '\n' !in x && '\n' !in y
    requires !IsBlank(x) && !IsBlank(y)
    ensures HandleUpload(before, Contents(x + "\n" + y)) ==
              Pool([Item(1, CleanValue(x)), Item(2, CleanValue(y))], [])
  {
    ParseTwoRows(x, y);
  }

  /** Each of the rows "X,foo" and "Y,bar" is kept by the filter and
      cleans to its text before the comma, "X" or "Y". */
  lemma CleanSampleRow(row: string, head: string)
    requires (row == "X,foo" && head == "X") || (row == "Y,bar" && head == "Y")
    ensures '\n' !in row && !IsBlank(row) && CleanValue(row) == head
  {
    TrimNoop(row);
    CleanSimpleRow(row, head);
  }

  /** Uploading the two-line file "X,foo\nY,bar" gives items 1 "X" and 2 "Y"
      with nothing drawn, whatever the pool held before. */
  lemma UploadTwoLines(before: Pool, x: string, y: string)
    requires x == "X,foo" && y == "Y,bar"
    ensures HandleUpload(before, Contents(x + "\n" + y)) == Pool([Item(1, "X"), Item(2, "Y")], [])
  {
    CleanSampleRow(x, "X");
    CleanSampleRow(y, "Y");
    UploadTwoRows(before, x, y);
  }

  /** A CRLF row: trim removes the carriage return before the comma is
      looked for, so "X,foo\r" cleans to "X". */
  lemma CrlfRowCleans(x: string)
    requires x == "X,foo"
    ensures CleanValue(x + "\r") == "X"
  {
    CrlfRowSameLabel(x);
    CleanSampleRow(x, "X");
  }

  /** Because `.` does not match a carriage return, a row with a carriage
      return after its comma keeps the comma: "a,b\rc" cleans to itself. */
  lemma CarriageReturnKeepsComma(row: string)
    requires row == "a,b\rc"
    ensures CleanValue(row) == row
    ensures ',' in CleanValue(row)
  {
    TrimNoop(row);
    StripQuotesNoQuotes(row);
    assert StripQuotes(Trim(row)) == row;
    var v := CleanValue(row);
    assert !CommaMatchAt(row, 1) by { assert IsLineTerminator(row[3]); }
    assert forall j :: 0 <= j < |row| && j != 1 ==> row[j] != ',';
    assert |v| == |row|;
  }

  /** A file chosen while a spin is in progress replaces the pool under the
      pending draw: here the pending index 1 no longer points into the
      one-item pool of the uploaded text, so the picker invariant is lost. */
  lemma UploadMidSpinLeavesStaleIndex(p: Picker, text: string)
    requires p == Picker(Pool([Item(1, "A"), Item(2, "B")], []), true, 1)
    requires text == "X"
    ensures PickerValid(p)
    ensures !PickerValid(UploadPicker(p, Contents(text)))
  {
    assert p.pool.items + p.pool.removed == p.pool.items;
    assert DistinctIds(p.pool.items);
    TrimNoop(text);
    ParseOneRow(text);
  }

  /** A single non-blank, newline-free row parses to one item. */
  lemma ParseOneRow(row: string)
    requires '\n' !in row && !IsBlank(row)
    ensures |ParseItems(row)| == 1
  {
    assert Join([row]) == row;
    SplitJoin([row]);
    AllKept([row]);
  }
}
