/**
 The string built-ins the picker applies to the text of an item list:
 `split('\n')`, `trim()`, `replace(/"/g, '')` and `replace(/,.*$/, '')`,
 each with a contract that characterises its result independently of how
 it is computed.
 */
module Text {

  /** ECMAScript LineTerminator code points. A regular-expression `.` matches
      every character except these four. */
  predicate IsLineTerminator(c: char) {
    c == '\n' || c == '\r' || c == '\U{2028}' || c == '\U{2029}'
  }

  /** Code points that String.prototype.trim removes: the ECMAScript
      WhiteSpace set (TAB, VT, FF, SPACE, NBSP, ZWNBSP and the rest of the
      Space_Separator category) together with the line terminators. */
  predicate IsTrimmable(c: char) {
    || IsLineTerminator(c)
    || c == '\t' || c == '\U{B}' || c == '\U{C}' || c == ' '
    || c == '\U{A0}' || c == '\U{FEFF}' || c == '\U{1680}'
    || ('\U{2000}' <= c <= '\U{200A}')
    || c == '\U{202F}' || c == '\U{205F}' || c == '\U{3000}'
  }

  predicate AllTrimmable(s: string) {
    forall i :: 0 <= i < |s| ==> IsTrimmable(s[i])
  }

  /** Drops leading trimmable characters: the result is the suffix of `s`
      that starts at the first character trim keeps. */
  function TrimStart(s: string): (r: string)
    ensures |r| <= |s| && r == s[|s| - |r|..]
    ensures AllTrimmable(s[..|s| - |r|])
    ensures |r| > 0 ==> !IsTrimmable(r[0])
  {
    if |s| > 0 && IsTrimmable(s[0]) then TrimStart(s[1..]) else s
  }

  /** Drops trailing trimmable characters: the result is the prefix of `s`
      that ends at the last character trim keeps. */
  function TrimEnd(s: string): (r: string)
    ensures |r| <= |s| && r == s[..|r|]
    ensures AllTrimmable(s[|r|..])
    ensures |r| > 0 ==> !IsTrimmable(r[|r| - 1])
  {
    if |s| > 0 && IsTrimmable(s[|s| - 1]) then TrimEnd(s[..|s| - 1]) else s
  }

  /** String.prototype.trim: drops the leading and then the trailing
      trimmable characters. */
  function Trim(s: string): (r: string)
    ensures |r| <= |s|
    ensures |r| > 0 ==> !IsTrimmable(r[0]) && !IsTrimmable(r[|r| - 1])
  {
    TrimEnd(TrimStart(s))
  }

  /** `Trim(s)` is the infix of `s` left once trimmable characters, and only
      those, are cut from both ends. Kept apart from the contract of `Trim`
      so that every use of `Trim` does not carry the existential. */
  lemma TrimIsInfix(s: string)
    ensures exists a :: 0 <= a <= |s| - |Trim(s)| && Trim(s) == s[a..a + |Trim(s)|]
              && AllTrimmable(s[..a]) && AllTrimmable(s[a + |Trim(s)|..])
  {
    var t := TrimStart(s);
    var r := TrimEnd(t);
    InfixOfCuts(s, t, r);
    assert Trim(s) == r;
    var a := |s| - |t|;
    assert 0 <= a <= |s| - |r| && r == s[a..a + |r|]
      && AllTrimmable(s[..a]) && AllTrimmable(s[a + |r|..]);
  }

  /** A prefix `r` of a suffix `t` of `s`, where only trimmable characters
      were cut at either step, is the infix of `s` that starts where `t`
      does, with only trimmable characters around it. */
  lemma InfixOfCuts(s: string, t: string, r: string)
    requires |t| <= |s| && t == s[|s| - |t|..] && AllTrimmable(s[..|s| - |t|])
    requires |r| <= |t| && r == t[..|r|] && AllTrimmable(t[|r|..])
    ensures var a := |s| - |t|;
      && a <= |s| - |r| && r == s[a..a + |r|]
      && AllTrimmable(s[..a]) && AllTrimmable(s[a + |r|..])
  {
    SuffixSlices(s, |s| - |t|, |r|);
  }

  /** Cutting the suffix of `s` that starts at `a` is cutting `s` at `a`
      plus the same offset. */
  lemma SuffixSlices<T>(s: seq<T>, a: nat, m: nat)
    requires a + m <= |s|
    ensures s[a..][..m] == s[a..a + m]
    ensures s[a..][m..] == s[a + m..]
  {
  }

  /** A string trims to the empty string exactly when every character of it
      is trimmable. */
  lemma TrimEmptyIff(s: string)
    ensures Trim(s) == "" <==> AllTrimmable(s)
  {
    var t := TrimStart(s);
    var k := |s| - |t|;
    if |t| > 0 {
      assert t[0] == s[k];
      assert !AllTrimmable(s);
      assert !IsTrimmable(t[0]);
    } else {
      assert s == s[..k];
    }
  }

  /** Every character of `Trim(s)` occurs in `s`. */
  lemma TrimChars(s: string, c: char)
    requires c in Trim(s)
    ensures c in s
  {
    var t := TrimStart(s);
    var r := TrimEnd(t);
    assert c in t[..|r|];
    assert c in t;
    assert c in s[|s| - |t|..];
  }

  /** Once a string holds a character trim keeps, text appended after it
      does not move the leading cut of trim. */
  lemma {:induction false} TrimStartAppend(s: string, u: string)
    requires |TrimStart(s)| > 0
    ensures TrimStart(s + u) == TrimStart(s) + u
  {
    assert (s + u)[0] == s[0];
    if IsTrimmable(s[0]) {
      assert (s + u)[1..] == s[1..] + u;
      TrimStartAppend(s[1..], u);
    }
  }

  /** A trimmable character appended at the end is dropped again by the
      trailing cut of trim. */
  lemma TrimEndDropsTrimmable(t: string, c: char)
    requires IsTrimmable(c)
    ensures TrimEnd(t + [c]) == TrimEnd(t)
  {
    assert (t + [c])[..|t|] == t;
  }

  /** Appending a trimmable character never changes what trim returns. */
  lemma TrimAppendTrimmable(s: string, c: char)
    requires IsTrimmable(c)
    ensures Trim(s + [c]) == Trim(s)
  {
    if |TrimStart(s)| > 0 {
      TrimStartAppend(s, [c]);
      TrimEndDropsTrimmable(TrimStart(s), c);
    } else {
      TrimEmptyIff(s);
      assert AllTrimmable(s + [c]) by {
        forall i | 0 <= i < |s + [c]|
          ensures IsTrimmable((s + [c])[i])
        {
          if i < |s| { assert (s + [c])[i] == s[i]; }
        }
      }
      TrimEmptyIff(s + [c]);
    }
  }

  /** A row whose only line terminator is its last character trims to a
      string without line terminators: trim removes that final one. */
  lemma TrimDropsFinalTerminator(s: string)
    requires TerminatorsOnlyAtEnd(s)
    ensures forall c :: c in Trim(s) ==> !IsLineTerminator(c)
  {
    var t := TrimStart(s);
    var r := TrimEnd(t);
    var a := |s| - |t|;
    assert Trim(s) == r;
    forall j | 0 <= j < |r| ensures !IsLineTerminator(r[j]) {
      assert r[j] == t[j] == s[a + j];
      if j < |r| - 1 {
        assert a + j < |s| - 1;
      }
    }
  }

  /** `replace(/"/g, '')`: the characters of `s` other than `"`, in order. */
  function StripQuotes(s: string): (r: string)
    ensures '"' !in r
    ensures forall c :: c in r <==> c in s && c != '"'
    ensures |r| <= |s|
  {
    if |s| == 0 then ""
    else if s[0] == '"' then StripQuotes(s[1..])
    else [s[0]] + StripQuotes(s[1..])
  }

  /** Stripping quotes works piecewise, so it keeps every other character in
      its original order. */
  lemma {:induction false} StripQuotesConcat(a: string, b: string)
    ensures StripQuotes(a + b) == StripQuotes(a) + StripQuotes(b)
  {
    if |a| == 0 {
      assert a + b == b;
    } else {
      assert (a + b)[1..] == a[1..] + b;
      StripQuotesConcat(a[1..], b);
    }
  }

  /** Text without quotes is left alone. */
  lemma {:induction false} StripQuotesNoQuotes(s: string)
    requires '"' !in s
    ensures StripQuotes(s) == s
  {
    if |s| > 0 {
      assert s == [s[0]] + s[1..];
      StripQuotesNoQuotes(s[1..]);
    }
  }

  /** Position `j` of `s` starts a match of the pattern `,.*$` (no multiline
      flag): a comma after which no line terminator occurs up to the end. */
  predicate CommaMatchAt(s: string, j: int)
    requires 0 <= j < |s|
  {
    s[j] == ',' && forall k :: j < k < |s| ==> !IsLineTerminator(s[k])
  }

  /** `replace(/,.*$/, '')`: cuts `s` at the leftmost match of `,.*$`, or
      leaves it whole when there is none. */
  function CutAtComma(s: string): (r: string)
    ensures |r| <= |s| && r == s[..|r|]
    ensures forall j :: 0 <= j < |r| ==> !CommaMatchAt(s, j)
    ensures |r| < |s| ==> CommaMatchAt(s, |r|)
  {
    if |s| == 0 then ""
    else if s[0] == ',' && (forall k :: 0 <= k < |s| - 1 ==> !IsLineTerminator(s[1..][k])) then ""
    else
      var rest := CutAtComma(s[1..]);
      assert forall j :: 1 <= j < |s| ==> (CommaMatchAt(s, j) <==> CommaMatchAt(s[1..], j - 1));
      [s[0]] + rest
  }

  /** On a single-line string every comma starts a match, so the cut keeps
      exactly the text before the first comma. */
  lemma CutAtCommaSingleLine(s: string)
    requires forall c :: c in s ==> !IsLineTerminator(c)
    ensures ',' !in CutAtComma(s)
    ensures |CutAtComma(s)| < |s| ==> s[|CutAtComma(s)|] == ','
  {
    var r := CutAtComma(s);
    forall j | 0 <= j < |r|
      ensures r[j] != ','
    {
      assert forall k :: j < k < |s| ==> s[k] in s;
      assert !CommaMatchAt(s, j);
    }
    if |r| < |s| {
      assert CommaMatchAt(s, |r|);
    }
  }

  /** `split('\n')`: the pieces of `s` between its newlines; there is always
      at least one piece. */
  function Split(s: string): (r: seq<string>)
    ensures |r| >= 1
  {
    if |s| == 0 then [""]
    else
      var rest := Split(s[1..]);
      if s[0] == '\n' then [""] + rest
      else [[s[0]] + rest[0]] + rest[1..]
  }

  /** No piece holds a newline. */
  lemma {:induction false} SplitNewlineFree(s: string)
    ensures forall k :: 0 <= k < |Split(s)| ==> '\n' !in Split(s)[k]
  {
    if |s| > 0 {
      SplitNewlineFree(s[1..]);
      var rest := Split(s[1..]);
      if s[0] != '\n' {
        assert '\n' !in [s[0]] + rest[0];
      }
    }
  }

  /** Every character of a piece comes from the text that was split. */
  lemma {:induction false} SplitChars(s: string, k: nat, c: char)
    requires k < |Split(s)| && c in Split(s)[k]
    ensures c in s
  {
    if |s| > 0 {
      var rest := Split(s[1..]);
      if s[0] == '\n' {
        assert Split(s)[k] == rest[k - 1];
        SplitChars(s[1..], k - 1, c);
      } else if k > 0 {
        assert Split(s)[k] == rest[k];
        SplitChars(s[1..], k, c);
      } else if c != s[0] {
        assert c in rest[0];
        SplitChars(s[1..], 0, c);
      }
    }
  }

  /** The first piece is the text up to the first newline. */
  lemma {:induction false} SplitFirstPrefix(s: string)
    ensures |Split(s)[0]| <= |s| && Split(s)[0] == s[..|Split(s)[0]|]
  {
    if |s| > 0 {
      SplitFirstPrefix(s[1..]);
      var rest := Split(s[1..]);
      if s[0] != '\n' {
        assert s[1..][..|rest[0]|] == s[1..1 + |rest[0]|];
        assert [s[0]] + s[1..1 + |rest[0]|] == s[..1 + |rest[0]|];
      }
    }
  }

  /** Every line terminator of `s` other than a newline is followed by a
      newline or ends `s`: text with `\n` or `\r\n` line endings. */
  predicate TerminatorsBeforeNewline(s: string) {
    forall i :: 0 <= i < |s| - 1 && IsLineTerminator(s[i]) && s[i] != '\n' ==> s[i + 1] == '\n'
  }

  /** No line terminator occurs in `s` except, possibly, as its last
      character. */
  predicate TerminatorsOnlyAtEnd(s: string) {
    forall i :: 0 <= i < |s| - 1 ==> !IsLineTerminator(s[i])
  }

  /** Splitting text with `\n` or `\r\n` line endings gives pieces whose
      only line terminator, if any, is their last character (the `\r` of a
      CRLF ending). */
  lemma {:induction false} SplitTerminatorsAtEnd(s: string, k: nat)
    requires TerminatorsBeforeNewline(s)
    requires k < |Split(s)|
    ensures TerminatorsOnlyAtEnd(Split(s)[k])
  {
    if |s| > 0 {
      var tail := s[1..];
      var rest := Split(tail);
      assert TerminatorsBeforeNewline(tail) by {
        forall i | 0 <= i < |tail| - 1 && IsLineTerminator(tail[i]) && tail[i] != '\n'
          ensures tail[i + 1] == '\n'
        {
          assert tail[i] == s[i + 1] && tail[i + 1] == s[i + 2];
        }
      }
      if s[0] == '\n' {
        if k > 0 {
          assert Split(s)[k] == rest[k - 1];
          SplitTerminatorsAtEnd(tail, k - 1);
        }
      } else if k > 0 {
        assert Split(s)[k] == rest[k];
        SplitTerminatorsAtEnd(tail, k);
      } else {
        var piece := [s[0]] + rest[0];
        assert Split(s)[0] == piece;
        SplitTerminatorsAtEnd(tail, 0);
        SplitFirstPrefix(tail);
        SplitNewlineFree(tail);
        forall i | 0 <= i < |piece| - 1 ensures !IsLineTerminator(piece[i]) {
          if i == 0 {
            assert rest[0][0] == s[1];
            assert '\n' !in rest[0];
            assert s[1] != '\n';
          } else {
            assert piece[i] == rest[0][i - 1];
          }
        }
      }
    }
  }

  /** The pieces glued back together with newlines, `parts.join('\n')`. */
  function Join(parts: seq<string>): string
    requires |parts| >= 1
  {
    if |parts| == 1 then parts[0] else parts[0] + "\n" + Join(parts[1..])
  }

  /** Splitting loses nothing: joining the pieces gives the text back. */
  lemma {:induction false} JoinSplit(s: string)
    ensures Join(Split(s)) == s
  {
    if |s| > 0 {
      var rest := Split(s[1..]);
      JoinSplit(s[1..]);
      if s[0] == '\n' {
        assert Split(s)[1..] == rest;
      } else if |rest| == 1 {
        assert Join(Split(s)) == [s[0]] + rest[0];
      } else {
        var r := Split(s);
        assert r[1..] == rest[1..];
        assert Join(rest) == rest[0] + "\n" + Join(rest[1..]);
        assert Join(r) == ([s[0]] + rest[0]) + "\n" + Join(rest[1..]);
      }
    }
  }

  /** A newline-free prefix merges into the first piece of what follows. */
  lemma {:induction false} SplitPrefix(a: string, u: string)
    requires '\n' !in a
    ensures Split(a + u) == [a + Split(u)[0]] + Split(u)[1..]
  {
    if |a| == 0 {
      assert a + u == u;
      assert a + Split(u)[0] == Split(u)[0];
    } else {
      assert (a + u)[0] == a[0];
      assert (a + u)[1..] == a[1..] + u;
      SplitPrefix(a[1..], u);
      assert [a[0]] + (a[1..] + Split(u)[0]) == a + Split(u)[0];
    }
  }

  /** Splitting inverts joining for newline-free pieces. */
  lemma {:induction false} SplitJoin(parts: seq<string>)
    requires |parts| >= 1
    requires forall k :: 0 <= k < |parts| ==> '\n' !in parts[k]
    ensures Split(Join(parts)) == parts
  {
    if |parts| == 1 {
      SplitPrefix(parts[0], "");
      assert parts[0] + "" == parts[0];
    } else {
      var tail := Join(parts[1..]);
      SplitJoin(parts[1..]);
      assert parts[0] + "\n" + tail == parts[0] + ("\n" + tail);
      SplitPrefix(parts[0], "\n" + tail);
      assert ("\n" + tail)[1..] == tail;
      assert parts[0] + "" == parts[0];
      assert parts == [parts[0]] + parts[1..];
    }
  }
}
