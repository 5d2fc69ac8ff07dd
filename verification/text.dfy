/**
 * The string operations the program relies on: Python's `str.split` with a
 * one-character separator, `str.rstrip('\n')`, and the way iterating over a
 * text file cuts it into lines that keep their '\n'.
 */
module Text {
  import opened Seqs

  /** `sep.join(fields)`; the inverse of `Split`. */
  function Join(fields: seq<string>, sep: char): string
    decreases |fields|
  {
    if |fields| == 0 then ""
    else if |fields| == 1 then fields[0]
    else fields[0] + [sep] + Join(fields[1..], sep)
  }

  /** `s.split(sep)`: one field more than there are separators, empty fields kept. */
  function Split(s: string, sep: char): (fields: seq<string>)
    ensures |fields| >= 1
    ensures Join(fields, sep) == s
    ensures |fields| >= 2 <==> sep in s
    decreases |s|
  {
    if sep !in s then [s]
    else
      var i := IndexOf(s, sep);
      assert s == s[..i] + [sep] + s[i + 1..];
      [s[..i]] + Split(s[i + 1..], sep)
  }

  /** No field of a split holds the separator. */
  lemma {:induction false} SplitFieldsHaveNoSeparator(s: string, sep: char)
    ensures forall i :: 0 <= i < |Split(s, sep)| ==> sep !in Split(s, sep)[i]
    decreases |s|
  {
    if sep in s {
      var i := IndexOf(s, sep);
      SplitFieldsHaveNoSeparator(s[i + 1..], sep);
    }
  }

  /** Splitting undoes joining whenever no field holds the separator. */
  lemma {:induction false} SplitOfJoin(fields: seq<string>, sep: char)
    requires |fields| >= 1
    requires forall i :: 0 <= i < |fields| ==> sep !in fields[i]
    ensures Split(Join(fields, sep), sep) == fields
    decreases |fields|
  {
    if |fields| > 1 {
      var f, rest := fields[0], Join(fields[1..], sep);
      var s := Join(fields, sep);
      assert s == f + [sep] + rest;
      assert s[|f|] == sep;
      assert forall j :: 0 <= j < |f| ==> s[j] == f[j];
      IndexOfUnique(s, sep, |f|);
      assert s[..|f|] == f;
      assert s[|f| + 1..] == rest;
      SplitOfJoin(fields[1..], sep);
    }
  }

  /** Two fields without the separator split back apart. */
  lemma SplitPair(a: string, b: string, sep: char)
    requires sep !in a && sep !in b
    ensures Split(a + [sep] + b, sep) == [a, b]
  {
    assert a + [sep] + b == Join([a, b], sep);
    SplitOfJoin([a, b], sep);
  }

  /** `s.rstrip('\n')`: the longest prefix that does not end in '\n', with only
      newlines cut away. */
  function RStripNewlines(s: string): (r: string)
    ensures r <= s
    ensures |r| == 0 || r[|r| - 1] != '\n'
    ensures forall i :: |r| <= i < |s| ==> s[i] == '\n'
  {
    if |s| > 0 && s[|s| - 1] == '\n' then RStripNewlines(s[..|s| - 1]) else s
  }

  function Concat(lines: seq<string>): string
  {
    if |lines| == 0 then "" else lines[0] + Concat(lines[1..])
  }

  /** A line as a file iteration yields it: non-empty, '\n' at most at its end. */
  predicate IsLine(line: string) {
    |line| > 0 && '\n' !in line[..|line| - 1]
  }

  predicate EndsInNewline(line: string) {
    |line| > 0 && line[|line| - 1] == '\n'
  }

  /** The lines of a text, as `readline` and `for row in file` produce them:
      every line but possibly the last ends in '\n', and together they are the text. */
  function Lines(text: string): (lines: seq<string>)
    ensures Concat(lines) == text
    ensures forall i :: 0 <= i < |lines| ==> IsLine(lines[i])
    ensures forall i :: 0 <= i < |lines| - 1 ==> EndsInNewline(lines[i])
    decreases |text|
  {
    if |text| == 0 then []
    else if '\n' !in text then [text]
    else
      var i := IndexOf(text, '\n');
      assert text == text[..i + 1] + text[i + 1..];
      [text[..i + 1]] + Lines(text[i + 1..])
  }

  /** Cutting the concatenation of well-formed lines gives those lines back. */
  lemma {:induction false} LinesOfConcat(lines: seq<string>)
    requires forall i :: 0 <= i < |lines| ==> IsLine(lines[i])
    requires forall i :: 0 <= i < |lines| - 1 ==> EndsInNewline(lines[i])
    ensures Lines(Concat(lines)) == lines
    decreases |lines|
  {
    if |lines| > 0 {
      var l := lines[0];
      var text := Concat(lines);
      assert text == l + Concat(lines[1..]);
      assert forall j :: 0 <= j < |l| ==> text[j] == l[j];
      assert forall j :: 0 <= j < |l| - 1 ==> text[j] != '\n' by {
        forall j | 0 <= j < |l| - 1 ensures text[j] != '\n' {
          assert l[..|l| - 1][j] == l[j];
        }
      }
      if |lines| == 1 {
        assert Concat(lines[1..]) == "";
        if '\n' in text {
          var k := IndexOf(text, '\n');
          assert k == |l| - 1;
          IndexOfUnique(text, '\n', |l| - 1);
          assert text[..|l|] == l;
          assert text[|l|..] == "";
        }
      } else {
        IndexOfUnique(text, '\n', |l| - 1);
        assert text[..|l|] == l;
        assert text[|l|..] == Concat(lines[1..]);
        LinesOfConcat(lines[1..]);
      }
    }
  }

  /** A text that is one line is read as that one line. */
  lemma LinesOfOneLine(line: string)
    requires IsLine(line)
    ensures Lines(line) == [line]
  {
    assert [line][1..] == [];
    assert Concat([line]) == line + "";
    assert line + "" == line;
    LinesOfConcat([line]);
  }
}
