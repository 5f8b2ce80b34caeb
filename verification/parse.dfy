/**
 The row parser shared by the initial load and the file upload
 (script.js:52-58 and script.js:99-105): split on newlines, keep the rows
 that do not trim to nothing, clean each row to a label, number the
 survivors 1..N.
 */
module Parse {
  import opened Text
  import opened Items

  /** A row the parser drops: `row.trim() === ''`. */
  predicate IsBlank(row: string) {
    Trim(row) == ""
  }

  /** The label of a row: trimmed, every `"` removed, then cut at the first
      comma that has no line terminator after it. The label is the prefix of
      the trimmed, quote-free row that ends just before that comma, or the
      whole of it when there is no such comma, and never holds a quote. */
  function CleanValue(row: string): (v: string)
    ensures '"' !in v
    ensures var q := StripQuotes(Trim(row));
      && |v| <= |q| && v == q[..|v|]
      && (forall j :: 0 <= j < |v| ==> !CommaMatchAt(q, j))
      && (|v| < |q| ==> CommaMatchAt(q, |v|))
  {
    var q := StripQuotes(Trim(row));
    var v := CutAtComma(q);
    assert forall c :: c in v ==> c in q by {
      forall c | c in v ensures c in q {
        var j :| 0 <= j < |v| && v[j] == c;
        assert q[j] == c;
      }
    }
    v
  }

  /** `rows.filter(row => row.trim() !== '')`. */
  function KeepNonBlank(rows: seq<string>): (kept: seq<string>)
    ensures |kept| <= |rows|
    ensures forall k :: 0 <= k < |kept| ==> !IsBlank(kept[k])
    ensures forall k :: 0 <= k < |kept| ==> kept[k] in rows
  {
    if |rows| == 0 then []
    else if IsBlank(rows[0]) then KeepNonBlank(rows[1..])
    else [rows[0]] + KeepNonBlank(rows[1..])
  }

  /** The filter keeps exactly the non-blank rows. */
  lemma {:induction false} KeepNonBlankMembers(rows: seq<string>)
    ensures forall row :: row in KeepNonBlank(rows) <==> row in rows && !IsBlank(row)
  {
    if |rows| > 0 {
      KeepNonBlankMembers(rows[1..]);
      assert forall row :: row in rows <==> row == rows[0] || row in rows[1..];
    }
  }

  /** The filter works row by row, so it keeps the surviving rows in their
      original order. */
  lemma {:induction false} KeepNonBlankConcat(a: seq<string>, b: seq<string>)
    ensures KeepNonBlank(a + b) == KeepNonBlank(a) + KeepNonBlank(b)
  {
    if |a| == 0 {
      assert a + b == b;
    } else {
      assert (a + b)[0] == a[0];
      assert (a + b)[1..] == a[1..] + b;
      KeepNonBlankConcat(a[1..], b);
    }
  }

  /** `.map((row, index) => ({ id: index + 1, value: ... }))`. */
  function NumberRows(kept: seq<string>): (items: seq<Item>)
    ensures |items| == |kept|
    ensures NumberedFromOne(items)
    ensures forall k :: 0 <= k < |items| ==> items[k].value == CleanValue(kept[k])
  {
    seq(|kept|, k requires 0 <= k < |kept| => Item(k + 1, CleanValue(kept[k])))
  }

  /** The parser: one item per non-blank line, in line order, with ids
      1..N assigned after the blank lines are gone, so they are contiguous. */
  function ParseItems(text: string): (items: seq<Item>)
    ensures var kept := KeepNonBlank(Split(text));
      && |items| == |kept|
      && forall k :: 0 <= k < |items| ==> items[k].value == CleanValue(kept[k])
    ensures NumberedFromOne(items)
    ensures DistinctIds(items)
    ensures forall k :: 0 <= k < |items| ==> '"' !in items[k].value
  {
    NumberRows(KeepNonBlank(Split(text)))
  }

  /** In text with `\n` or `\r\n` line endings no parsed label holds a
      comma or a quote: each row's only other line terminator is the `\r`
      at its end, which the trim removes before the comma is looked for. */
  lemma ParsedValuesClean(text: string)
    requires TerminatorsBeforeNewline(text)
    ensures forall k :: 0 <= k < |ParseItems(text)| ==>
              ',' !in ParseItems(text)[k].value && '"' !in ParseItems(text)[k].value
  {
    var rows := Split(text);
    var kept := KeepNonBlank(rows);
    var items := ParseItems(text);
    forall k | 0 <= k < |items|
      ensures ',' !in items[k].value
    {
      var row := kept[k];
      var j :| 0 <= j < |rows| && rows[j] == row;
      SplitTerminatorsAtEnd(text, j);
      TrimDropsFinalTerminator(row);
      CleanValueSingleLine(row);
    }
  }

  /** A row with a CRLF ending keeps the label of the same row with a plain
      LF ending: trim removes the carriage return first. */
  lemma CrlfRowSameLabel(row: string)
    ensures Trim(row + "\r") == Trim(row)
    ensures CleanValue(row + "\r") == CleanValue(row)
  {
    TrimAppendTrimmable(row, '\r');
  }

  /** Text made of non-blank, newline-free lines parses to exactly one item
      per line: item k carries id k + 1 and the cleaned text of line k. */
  lemma OneItemPerLine(lines: seq<string>)
    requires |lines| >= 1
    requires forall k :: 0 <= k < |lines| ==> '\n' !in lines[k] && !IsBlank(lines[k])
    ensures |ParseItems(Join(lines))| == |lines|
    ensures forall k :: 0 <= k < |lines| ==>
              ParseItems(Join(lines))[k] == Item(k + 1, CleanValue(lines[k]))
  {
    SplitJoin(lines);
    AllKept(lines);
  }

  /** Rows that are all non-blank survive the filter unchanged. */
  lemma {:induction false} AllKept(rows: seq<string>)
    requires forall k :: 0 <= k < |rows| ==> !IsBlank(rows[k])
    ensures KeepNonBlank(rows) == rows
  {
    if |rows| > 0 {
      AllKept(rows[1..]);
      KeepNonBlankCons(rows[0], rows[1..]);
      assert [rows[0]] + rows[1..] == rows;
    }
  }

  /** A non-blank row in front is kept in front. */
  lemma KeepNonBlankCons(row: string, rest: seq<string>)
    requires !IsBlank(row)
    ensures KeepNonBlank([row] + rest) == [row] + KeepNonBlank(rest)
  {
    assert ([row] + rest)[1..] == rest;
  }

  /** Blank rows vanish from the output whatever surrounds them: inserting
      one anywhere leaves the parse as it was. */
  lemma BlankRowIgnored(before: seq<string>, row: string, after: seq<string>)
    requires IsBlank(row)
    ensures KeepNonBlank(before + [row] + after) == KeepNonBlank(before + after)
  {
    assert [row][1..] == [];
    assert KeepNonBlank([row]) == KeepNonBlank([]);
    KeepNonBlankConcat(before, [row]);
    assert KeepNonBlank(before + [row]) == KeepNonBlank(before) + [];
    KeepNonBlankConcat(before + [row], after);
    KeepNonBlankConcat(before, after);
    assert KeepNonBlank(before) + [] == KeepNonBlank(before);
  }

  /** When the trimmed row has no line terminators left, the label holds no
      comma: it is the quote-free text before the first comma, or all of it
      when there is none. This covers a CRLF row such as `X,foo\r`, whose
      `\r` the trim removes. */
  lemma CleanValueSingleLine(row: string)
    requires forall c :: c in Trim(row) ==> !IsLineTerminator(c)
    ensures ',' !in CleanValue(row)
    ensures var q := StripQuotes(Trim(row));
      (',' !in q ==> CleanValue(row) == q)
      && (',' in q ==> q[|CleanValue(row)|] == ',')
  {
    var q := StripQuotes(Trim(row));
    CutAtCommaSingleLine(q);
    if ',' in q {
      assert CutAtComma(q) != q;
    }
  }
}
