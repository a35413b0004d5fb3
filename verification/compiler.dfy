/** The two pure pieces of the LaTeX compiler wrapper
    (service/LatexCompilerService.java): picking the lines worth reporting out
    of pdflatex's log, and naming the PDF after the `.tex` file. Running the
    process and touching files are not modelled. */
module LatexCompiler {

  import opened JavaString

  /** A log line that reports an error: it starts with `!` or mentions
      `Error` or `error`. */
  predicate IsErrorLine(line: string) {
    StartsWith(line, "!") || Contains(line, "Error") || Contains(line, "error")
  }

  /** The error lines, in log order. */
  function ErrorLines(lines: seq<string>): (r: seq<string>)
    ensures |r| <= |lines|
    ensures forall k :: 0 <= k < |r| ==> IsErrorLine(r[k]) && r[k] in lines
    ensures forall i :: 0 <= i < |lines| && IsErrorLine(lines[i]) ==> lines[i] in r
    ensures |r| == 0 <==> forall i :: 0 <= i < |lines| ==> !IsErrorLine(lines[i])
    decreases |lines|
  {
    if |lines| == 0 then []
    else
      var rest := ErrorLines(lines[1..]);
      assert forall i :: 1 <= i < |lines| ==> lines[i] == lines[1..][i - 1];
      if IsErrorLine(lines[0]) then [lines[0]] + rest else rest
  }

  /** Picking error lines works line by line, so it distributes over concatenation. */
  lemma {:induction false} ErrorLinesAppend(a: seq<string>, b: seq<string>)
    ensures ErrorLines(a + b) == ErrorLines(a) + ErrorLines(b)
    decreases |a|
  {
    if |a| == 0 {
      assert a + b == b;
    } else {
      assert (a + b)[0] == a[0];
      assert (a + b)[1..] == a[1..] + b;
      ErrorLinesAppend(a[1..], b);
    }
  }

  /** Each line stays in its place, once, exactly when it is an error line: log order and repeats are kept. */
  lemma ErrorLinesKeeps(a: seq<string>, line: string, b: seq<string>)
    ensures ErrorLines(a + [line] + b) == ErrorLines(a) + (if IsErrorLine(line) then [line] else []) + ErrorLines(b)
  {
    assert ErrorLines([line]) == (if IsErrorLine(line) then [line] else []) by {
      assert [line][1..] == [];
    }
    assert ErrorLines(a + [line] + b) == ErrorLines(a + [line]) + ErrorLines(b) by {
      ErrorLinesAppend(a + [line], b);
    }
    assert ErrorLines(a + [line]) == ErrorLines(a) + ErrorLines([line]) by {
      ErrorLinesAppend(a, [line]);
    }
  }

  /** Each line trimmed. */
  function TrimAll(lines: seq<string>): (r: seq<string>)
    ensures |r| == |lines|
    ensures forall k :: 0 <= k < |lines| ==> r[k] == Trim(lines[k])
    decreases |lines|
  {
    if |lines| == 0 then [] else [Trim(lines[0])] + TrimAll(lines[1..])
  }

  /** What the `StringBuilder` holds after appending each part followed by
      `sep`. */
  function Terminated(parts: seq<string>, sep: string): string
    decreases |parts|
  {
    if |parts| == 0 then "" else parts[0] + sep + Terminated(parts[1..], sep)
  }

  /** Terminating each part is joining them and terminating the last. */
  lemma {:induction false} TerminatedIsJoin(parts: seq<string>, sep: string)
    requires |parts| > 0
    ensures Terminated(parts, sep) == Join(parts, sep) + sep
    decreases |parts|
  {
    if |parts| > 1 {
      TerminatedIsJoin(parts[1..], sep);
    } else {
      assert parts[1..] == [];
    }
  }

  /** An error line keeps a visible character after trimming: its `!` or the
      `E`/`e` of `Error`/`error`. */
  lemma ErrorLineTrimmedStartsVisible(line: string)
    requires IsErrorLine(line)
    ensures |Trim(line)| > 0 && !IsTrimmable(Trim(line)[0])
  {
    if StartsWith(line, "!") {
      assert !IsTrimmable(line[0]);
    } else if Contains(line, "Error") {
      var i :| 0 <= i <= |line| - 5 && OccursAt(line, "Error", i);
      assert line[i..i + 5][0] == 'E';
      assert !IsTrimmable(line[i]);
    } else {
      var i :| 0 <= i <= |line| - 5 && OccursAt(line, "error", i);
      assert line[i..i + 5][0] == 'e';
      assert !IsTrimmable(line[i]);
    }
    TrimEmpty(line);
  }

  /** Text with a visible first character, followed by `"; "`, trims to the
      text followed by `";"`. */
  lemma TrimSemicolonTail(x: string)
    requires |x| > 0 && !IsTrimmable(x[0])
    ensures Trim(x + "; ") == x + ";"
  {
    assert x + "; " == (x + ";") + " ";
    TrimAppendTrimmable(x + ";", " ");
    TrimTrimmed(x + ";");
  }

  /** Where the fallback's last ten lines begin. */
  function TailStart(n: nat): (start: nat)
    ensures start <= n
    ensures n - start == if n < 10 then n else 10
  {
    if n >= 10 then n - 10 else 0
  }

  /** `extractLatexError` (service/LatexCompilerService.java:124-140). When
      some line reports an error the result is exactly those lines, trimmed,
      in order, each followed by `"; "`, and the whole trimmed, which leaves a
      final `;`. Otherwise it is the last ten lines (or all, if fewer),
      trimmed and joined by newlines. */
  function ExtractLatexError(output: string): (r: string)
    ensures var lines := SplitOn(output, '\n');
            var errs := ErrorLines(lines);
            && (|errs| > 0 ==> r == Join(TrimAll(errs), "; ") + ";")
            && (|errs| == 0 ==> r == Trim(Join(TrimAll(lines[TailStart(|lines|)..]), "\n")))
  {
    var lines := SplitOn(output, '\n');
    var errs := ErrorLines(lines);
    if |errs| > 0 then
      var parts := TrimAll(errs);
      TerminatedIsJoin(parts, "; ");
      ErrorLineTrimmedStartsVisible(errs[0]);
      JoinStartsWithFirst(parts, "; ");
      TrimSemicolonTail(Join(parts, "; "));
      Trim(Terminated(parts, "; "))
    else
      var parts := TrimAll(lines[TailStart(|lines|)..]);
      if |parts| == 0 then Trim(Terminated(parts, "\n"))
      else
        TerminatedIsJoin(parts, "\n");
        TrimAppendTrimmable(Join(parts, "\n"), "\n");
        Trim(Terminated(parts, "\n"))
  }

  lemma JoinStartsWithFirst(parts: seq<string>, sep: string)
    requires |parts| > 0 && |parts[0]| > 0
    ensures |Join(parts, sep)| > 0 && Join(parts, sep)[0] == parts[0][0]
  {
  }

  /** A log with an error line never reports any other line: every piece of
      the result, split at `"; "`, is a trimmed error line. */
  lemma ExtractLatexErrorOnlyErrors(output: string)
    requires |ErrorLines(SplitOn(output, '\n'))| > 0
    ensures var errs := ErrorLines(SplitOn(output, '\n'));
            forall k :: 0 <= k < |TrimAll(errs)| ==>
              exists i :: 0 <= i < |SplitOn(output, '\n')| && IsErrorLine(SplitOn(output, '\n')[i])
                          && TrimAll(errs)[k] == Trim(SplitOn(output, '\n')[i])
  {
    TrimmedErrorsFromLines(SplitOn(output, '\n'));
  }

  lemma TrimmedErrorsFromLines(lines: seq<string>)
    ensures forall k :: 0 <= k < |TrimAll(ErrorLines(lines))| ==>
              exists i :: 0 <= i < |lines| && IsErrorLine(lines[i]) && TrimAll(ErrorLines(lines))[k] == Trim(lines[i])
  {
    var errs := ErrorLines(lines);
    var trimmed := TrimAll(errs);
    forall k | 0 <= k < |trimmed|
      ensures exists i :: 0 <= i < |lines| && IsErrorLine(lines[i]) && trimmed[k] == Trim(lines[i])
    {
      assert errs[k] in lines && IsErrorLine(errs[k]);
      var i :| 0 <= i < |lines| && lines[i] == errs[k];
      assert trimmed[k] == Trim(lines[i]);
    }
  }

  /** The PDF's file name: every `.tex` becomes `.pdf`
      (service/LatexCompilerService.java:81). */
  function PdfName(texName: string): (r: string)
    ensures |r| == |texName|
  {
    ReplaceLiteralLength(texName, ".tex", ".pdf");
    ReplaceLiteral(texName, ".tex", ".pdf")
  }

  /** A name whose only `.tex` is its extension gets the `.pdf` extension in
      its place and is otherwise unchanged. */
  lemma {:induction false} PdfNameOfTexFile(base: string)
    requires !Contains(base, ".tex")
    ensures PdfName(base + ".tex") == base + ".pdf"
    decreases |base|
  {
    var s := base + ".tex";
    if |base| == 0 {
      assert s == ".tex";
      assert s[4..] == "";
    } else {
      if |base| >= 4 {
        assert s[..4] == base[..4];
        assert !OccursAt(base, ".tex", 0);
      } else {
        assert s[|base|] == '.';
        assert ".tex"[|base|] != '.';
      }
      assert s[..4] != ".tex";
      assert s[1..] == base[1..] + ".tex";
      forall i | 0 <= i <= |base[1..]| - 4
        ensures !OccursAt(base[1..], ".tex", i)
      {
        assert !OccursAt(base, ".tex", i + 1);
        assert base[1..][i..i + 4] == base[i + 1..i + 5];
      }
      PdfNameOfTexFile(base[1..]);
      assert base == [base[0]] + base[1..];
    }
  }
}
