/**
 * The text-cleaning routines the analysis agents call on document text:
 * the PDF reader's per-page loop that collapses blank lines, the
 * investment tool's double-space remover and the identity risk tool.
 * Both loops are proved against one reference definition, Squeeze.
 */
module Tools {

  /** The newline the reader collapses and the space the investment tool collapses. */
  const NEWLINE: char := '\n'
  const SPACE: char := ' '

  /** s with every maximal run of c replaced by a single c. */
  function Squeeze(s: string, c: char): (r: string)
    ensures |r| <= |s|
    ensures |s| > 0 ==> |r| > 0 && r[0] == s[0]
    decreases |s|
  {
    if |s| < 2 then s
    else if s[0] == c && s[1] == c then Squeeze(s[1..], c)
    else [s[0]] + Squeeze(s[1..], c)
  }

  /** No two adjacent c in s: for c = '\n' this is Python's `"\n\n" not in s`. */
  predicate NoPair(s: string, c: char)
  {
    forall i :: 0 <= i < |s| - 1 ==> !(s[i] == c && s[i + 1] == c)
  }

  /** s with every c deleted: the characters a collapse must keep, in order. */
  function Without(s: string, c: char): string
  {
    if s == [] then [] else (if s[0] == c then [] else [s[0]]) + Without(s[1..], c)
  }

  /**
   * Python's `s.replace(cc, c)` for the two-character string cc: pairs are
   * found left to right without overlap and each is replaced by one c.
   */
  function ReplacePairs(s: string, c: char): (r: string)
    ensures |r| <= |s|
    ensures |s| > 0 ==> |r| > 0 && r[0] == s[0]
    ensures !NoPair(s, c) ==> |r| < |s|
    decreases |s|
  {
    if |s| < 2 then s
    else if s[0] == c && s[1] == c then [c] + ReplacePairs(s[2..], c)
    else [s[0]] + ReplacePairs(s[1..], c)
  }

  /** Unfolds Squeeze one step for a string given as head and tail. */
  lemma SqueezeCons(x: char, t: string, c: char)
    ensures Squeeze([x] + t, c)
         == if x == c && |t| > 0 && t[0] == c then Squeeze(t, c) else [x] + Squeeze(t, c)
  {
    var s := [x] + t;
    assert s[1..] == t;
  }

  /** The result of Squeeze holds no two adjacent c. */
  lemma {:induction false} SqueezeNoPair(s: string, c: char)
    ensures NoPair(Squeeze(s, c), c)
    decreases |s|
  {
    if |s| >= 2 {
      SqueezeNoPair(s[1..], c);
      if !(s[0] == c && s[1] == c) {
        var t := Squeeze(s[1..], c);
        var r := [s[0]] + t;
        forall i | 0 <= i < |r| - 1 ensures !(r[i] == c && r[i + 1] == c) {
          if i > 0 {
            assert r[i] == t[i - 1] && r[i + 1] == t[i];
          }
        }
      }
    }
  }

  /** Squeeze deletes only c: every other character survives, in order. */
  lemma {:induction false} SqueezeKeepsOthers(s: string, c: char)
    ensures Without(Squeeze(s, c), c) == Without(s, c)
    decreases |s|
  {
    if |s| >= 2 {
      SqueezeKeepsOthers(s[1..], c);
      if !(s[0] == c && s[1] == c) {
        var r := [s[0]] + Squeeze(s[1..], c);
        assert r[1..] == Squeeze(s[1..], c);
      }
    }
  }

  /** A string without pairs is left as it is. */
  lemma {:induction false} SqueezeFixed(s: string, c: char)
    requires NoPair(s, c)
    ensures Squeeze(s, c) == s
    decreases |s|
  {
    if |s| >= 2 {
      assert NoPair(s[1..], c) by {
        forall i | 0 <= i < |s[1..]| - 1 ensures !(s[1..][i] == c && s[1..][i + 1] == c) {
          assert s[1..][i] == s[i + 1] && s[1..][i + 1] == s[i + 2];
        }
      }
      SqueezeFixed(s[1..], c);
      assert !(s[0] == c && s[1] == c);
      assert s == [s[0]] + s[1..];
    }
  }

  /** Collapsing twice is collapsing once. */
  lemma SqueezeIdempotent(s: string, c: char)
    ensures Squeeze(Squeeze(s, c), c) == Squeeze(s, c)
  {
    SqueezeNoPair(s, c);
    SqueezeFixed(Squeeze(s, c), c);
  }

  /** Deleting one c of an adjacent pair does not change the collapsed form. */
  lemma {:induction false} SqueezeDropOne(a: string, b: string, c: char)
    ensures Squeeze(a + [c, c] + b, c) == Squeeze(a + [c] + b, c)
    decreases |a|
  {
    if a == [] {
      assert a + [c, c] + b == [c] + ([c] + b);
      assert a + [c] + b == [c] + b;
      SqueezeCons(c, [c] + b, c);
    } else {
      var t1 := a[1..] + [c, c] + b;
      var t2 := a[1..] + [c] + b;
      assert a + [c, c] + b == [a[0]] + t1;
      assert a + [c] + b == [a[0]] + t2;
      assert t1[0] == t2[0];
      SqueezeDropOne(a[1..], b, c);
      SqueezeCons(a[0], t1, c);
      SqueezeCons(a[0], t2, c);
    }
  }

  /** One `replace` pass leaves the collapsed form unchanged. */
  lemma {:induction false} SqueezeReplacePairs(s: string, c: char)
    ensures Squeeze(ReplacePairs(s, c), c) == Squeeze(s, c)
    decreases |s|
  {
    if |s| >= 2 {
      if s[0] == c && s[1] == c {
        var t := s[2..];
        SqueezeReplacePairs(t, c);
        SqueezeCons(c, ReplacePairs(t, c), c);
        SqueezeCons(c, t, c);
        assert s[1..] == [c] + t;
      } else {
        SqueezeReplacePairs(s[1..], c);
        SqueezeCons(s[0], ReplacePairs(s[1..], c), c);
        SqueezeCons(s[0], s[1..], c);
        assert s == [s[0]] + s[1..];
      }
    }
  }

  /**
   * The inner loop of the PDF reader: `while "\n\n" in content:
   * content = content.replace("\n\n", "\n")`.
   */
  method CollapseBlankLines(page: string) returns (content: string)
    ensures content == Squeeze(page, NEWLINE)
    ensures NoPair(content, NEWLINE)
  {
    content := page;
    while !NoPair(content, NEWLINE)
      invariant Squeeze(content, NEWLINE) == Squeeze(page, NEWLINE)
      decreases |content|
    {
      SqueezeReplacePairs(content, NEWLINE);
      content := ReplacePairs(content, NEWLINE);
    }
    SqueezeFixed(content, NEWLINE);
  }

  /** The text the reader returns for the given pages: each cleaned page followed by a newline. */
  function Report(pages: seq<string>): string
  {
    if pages == [] then ""
    else Report(pages[..|pages| - 1]) + Squeeze(pages[|pages| - 1], NEWLINE) + [NEWLINE]
  }

  /** The document reader's loop over the pages the PDF loader returned. */
  method ReadData(pages: seq<string>) returns (fullReport: string)
    ensures fullReport == Report(pages)
  {
    fullReport := "";
    for k := 0 to |pages|
      invariant fullReport == Report(pages[..k])
    {
      var content := CollapseBlankLines(pages[k]);
      assert pages[..k + 1][..k] == pages[..k];
      fullReport := fullReport + content + [NEWLINE];
    }
    assert pages[..|pages|] == pages;
  }

  /** The concatenation of the pages with every newline deleted. */
  function TextOf(pages: seq<string>): string
  {
    if pages == [] then "" else TextOf(pages[..|pages| - 1]) + Without(pages[|pages| - 1], NEWLINE)
  }

  lemma {:induction false} WithoutAppend(a: string, b: string, c: char)
    ensures Without(a + b, c) == Without(a, c) + Without(b, c)
    decreases |a|
  {
    if a != [] {
      WithoutAppend(a[1..], b, c);
      assert (a + b)[1..] == a[1..] + b;
    } else {
      assert a + b == b;
    }
  }

  /** The report keeps every non-newline character of every page, in page order. */
  lemma {:induction false} ReportKeepsText(pages: seq<string>)
    ensures Without(Report(pages), NEWLINE) == TextOf(pages)
    decreases |pages|
  {
    if pages != [] {
      var last := pages[|pages| - 1];
      ReportKeepsText(pages[..|pages| - 1]);
      SqueezeKeepsOthers(last, NEWLINE);
      WithoutAppend(Report(pages[..|pages| - 1]) + Squeeze(last, NEWLINE), [NEWLINE], NEWLINE);
      WithoutAppend(Report(pages[..|pages| - 1]), Squeeze(last, NEWLINE), NEWLINE);
      assert Without([NEWLINE], NEWLINE) == [];
    }
  }

  /**
   * The investment tool: walk an index and, wherever a double space starts,
   * delete one space without advancing.
   */
  method RemoveDoubleSpaces(data: string) returns (processed: string)
    ensures processed == Squeeze(data, SPACE)
    ensures NoPair(processed, SPACE)
  {
    processed := data;
    var i := 0;
    while i < |processed|
      invariant 0 <= i <= |processed|
      invariant Squeeze(processed, SPACE) == Squeeze(data, SPACE)
      invariant forall j :: 0 <= j < i && j + 1 < |processed| ==> !(processed[j] == SPACE && processed[j + 1] == SPACE)
      decreases |processed| - i
    {
      // `processed[i:i+2] == "  "` is false when fewer than two characters remain
      if i + 1 < |processed| && processed[i] == SPACE && processed[i + 1] == SPACE {
        assert processed == processed[..i] + [SPACE, SPACE] + processed[i + 2..];
        assert processed[..i] + processed[i + 1..] == processed[..i] + [SPACE] + processed[i + 2..];
        SqueezeDropOne(processed[..i], processed[i + 2..], SPACE);
        processed := processed[..i] + processed[i + 1..];
      } else {
        i := i + 1;
      }
    }
    SqueezeFixed(processed, SPACE);
  }

  /** The risk tool hands the document text back unchanged. */
  function RiskAssessment(data: string): (r: string)
    ensures r == data
  {
    data
  }
}
