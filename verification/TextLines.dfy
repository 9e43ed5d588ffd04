/** The lines of a text as `str::lines` gives them, and texts put together from lines. */
module TextLines {
  import opened Sequences
  import opened Text
  import opened Wrappers

  predicate EndsWithCr(line: string) {
    line != "" && line[|line| - 1] == '\r'
  }

  function StripCr(line: string): string {
    if EndsWithCr(line) then line[..|line| - 1] else line
  }

  /** `str::lines`: a line ends at a newline, and one carriage return before that newline goes with it. */
  function Lines(text: string): (r: seq<string>)
    ensures forall line :: line in r ==> '\n' !in line
    decreases |text|
  {
    if text == "" then []
    else
      match SplitOnce(text, '\n')
      case None => [text]
      case Some((line, rest)) => [StripCr(line)] + Lines(rest)
  }

  function Unlines(lines: seq<string>): string {
    if lines == [] then "" else lines[0] + "\n" + Unlines(lines[1..])
  }

  /** `join` with a newline. */
  function Join(lines: seq<string>): string {
    if lines == [] then "" else if |lines| == 1 then lines[0] else lines[0] + "\n" + Join(lines[1..])
  }

  /** Joined lines with a newline at the end are the lines, each with a newline; without lines it is one newline. */
  lemma {:induction false} JoinThenNewline(lines: seq<string>)
    ensures Join(lines) + "\n" == if lines == [] then "\n" else Unlines(lines)
  {
    if |lines| == 1 {
      assert Unlines(lines[1..]) == "";
    } else if |lines| > 1 {
      JoinThenNewline(lines[1..]);
      assert Join(lines) + "\n" == lines[0] + "\n" + (Join(lines[1..]) + "\n");
    }
  }

  function StripAll(lines: seq<string>): (r: seq<string>)
    ensures |r| == |lines|
  {
    if lines == [] then [] else [StripCr(lines[0])] + StripAll(lines[1..])
  }

  predicate NoneEndsWithCr(lines: seq<string>) {
    forall line :: line in lines ==> !EndsWithCr(line)
  }

  predicate AreLines(lines: seq<string>) {
    forall line :: line in lines ==> '\n' !in line
  }

  /** Lines that are written and read again lose one carriage return each. */
  lemma {:induction false} LinesOfUnlines(lines: seq<string>)
    requires AreLines(lines)
    ensures Lines(Unlines(lines)) == StripAll(lines)
  {
    if lines != [] {
      var rest := Unlines(lines[1..]);
      assert Unlines(lines) == lines[0] + ['\n'] + rest;
      SplitOnceAt(lines[0], '\n', rest);
      LinesOfUnlines(lines[1..]);
    }
  }

  lemma {:induction false} StripAllIff(lines: seq<string>)
    ensures StripAll(lines) == lines <==> NoneEndsWithCr(lines)
  {
    if lines != [] {
      StripAllIff(lines[1..]);
      assert lines == [lines[0]] + lines[1..];
    }
  }

  lemma {:induction false} StripAllConcat(a: seq<string>, b: seq<string>)
    ensures StripAll(a + b) == StripAll(a) + StripAll(b)
  {
    if a == [] {
      assert a + b == b;
    } else {
      assert (a + b)[1..] == a[1..] + b;
      StripAllConcat(a[1..], b);
    }
  }

  lemma {:induction false} UnlinesConcat(a: seq<string>, b: seq<string>)
    ensures Unlines(a + b) == Unlines(a) + Unlines(b)
  {
    if a == [] {
      assert a + b == b;
    } else {
      assert (a + b)[1..] == a[1..] + b;
      UnlinesConcat(a[1..], b);
    }
  }

  /** Different lines make different texts. */
  lemma {:induction false} UnlinesInjective(a: seq<string>, b: seq<string>)
    requires AreLines(a) && AreLines(b)
    ensures Unlines(a) == Unlines(b) <==> a == b
  {
    hide SplitOnce;
    if a != [] && b != [] {
      SplitOnceAt(a[0], '\n', Unlines(a[1..]));
      SplitOnceAt(b[0], '\n', Unlines(b[1..]));
      assert Unlines(a) == a[0] + ['\n'] + Unlines(a[1..]);
      assert Unlines(b) == b[0] + ['\n'] + Unlines(b[1..]);
      UnlinesInjective(a[1..], b[1..]);
      assert a == [a[0]] + a[1..] && b == [b[0]] + b[1..];
    }
  }

  // ---- The last line that says something ----

  /** The last value that `f` reads from a line; what a loop that overwrites its result ends with. */
  function LastSome<T>(lines: seq<string>, f: string -> Option<T>): Option<T> {
    if lines == [] then None
    else
      var last := f(lines[|lines| - 1]);
      if last.Some? then last else LastSome(lines[..|lines| - 1], f)
  }

  lemma {:induction false} LastSomeSnoc<T>(lines: seq<string>, line: string, f: string -> Option<T>)
    ensures LastSome(lines + [line], f) == if f(line).Some? then f(line) else LastSome(lines, f)
  {
    var all := lines + [line];
    assert all[|all| - 1] == line && all[..|all| - 1] == lines;
  }

  /** Dropping lines that say nothing changes nothing. */
  lemma {:induction false} LastSomeFiltered<T>(lines: seq<string>, keep: string -> bool, f: string -> Option<T>)
    requires forall line :: line in lines && !keep(line) ==> f(line).None?
    ensures LastSome(Filter(lines, keep), f) == LastSome(lines, f)
  {
    if lines == [] {
      assert Filter(lines, keep) == [];
    } else {
      hide Filter, LastSome;
      var front, last := lines[..|lines| - 1], lines[|lines| - 1];
      assert lines == front + [last];
      FilterSnoc(lines, |front|, keep);
      assert lines[..|front| + 1] == lines;
      LastSomeFiltered(front, keep, f);
      LastSomeSnoc(front, last, f);
      if keep(last) {
        LastSomeSnoc(Filter(front, keep), last, f);
      } else {
        assert Filter(front, keep) + [] == Filter(front, keep);
      }
    }
  }

  lemma {:induction false} LastSomeStripped<T>(lines: seq<string>, f: string -> Option<T>)
    requires forall line :: line in lines ==> f(StripCr(line)) == f(line)
    ensures LastSome(StripAll(lines), f) == LastSome(lines, f)
  {
    if lines != [] {
      var front, last := lines[..|lines| - 1], lines[|lines| - 1];
      assert lines == front + [last];
      StripAllConcat(front, [last]);
      assert StripAll([last]) == [StripCr(last)];
      LastSomeStripped(front, f);
      LastSomeSnoc(StripAll(front), StripCr(last), f);
    }
  }

  /** A filter that does not look at a final carriage return commutes with dropping it. */
  lemma {:induction false} FilterStripped(lines: seq<string>, keep: string -> bool)
    requires forall line :: line in lines ==> (keep(StripCr(line)) <==> keep(line))
    ensures Filter(StripAll(lines), keep) == StripAll(Filter(lines, keep))
  {
    if lines != [] {
      FilterStripped(lines[1..], keep);
      var first := if keep(lines[0]) then [lines[0]] else [];
      StripAllConcat(first, Filter(lines[1..], keep));
      assert StripAll(lines)[1..] == StripAll(lines[1..]);
    }
  }
}
