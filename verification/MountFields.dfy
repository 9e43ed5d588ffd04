/**
 Reading the mount table: the fields of a line are separated by whitespace, and blanks, tabs, newlines
 and backslashes inside a field are written as octal escapes.
 */
module MountFields {
  import opened Wrappers
  import opened Text

  // ---- The program: four replacements, one after the other ----

  /** `str::replace`: left to right, without looking at what was put in. */
  function Replace(s: string, pattern: string, with: string): string
    requires pattern != ""
    decreases |s|
  {
    if |s| < |pattern| then s
    else if pattern <= s then with + Replace(s[|pattern|..], pattern, with)
    else [s[0]] + Replace(s[1..], pattern, with)
  }

  /** The k-th escape, in the order in which the program replaces them. */
  function Code(k: nat): (code: string)
    requires k < 4
    ensures |code| == 4 && code[0] == '\\' && IsDigit(code[1]) && IsDigit(code[2]) && IsDigit(code[3])
  {
    if k == 0 then "\\040" else if k == 1 then "\\011" else if k == 2 then "\\012" else "\\134"
  }

  function Char(k: nat): (c: char)
    requires k < 4
    ensures k < 3 ==> c != '\\' && !IsDigit(c)
  {
    if k == 0 then ' ' else if k == 1 then '\t' else if k == 2 then '\n' else '\\'
  }

  function Octal(c: char): nat
    requires IsDigit(c)
  {
    c as int - '0' as int
  }

  /** The digits of an escape are the octal value of its character; these are the four that the kernel escapes. */
  lemma CodesAreOctal(k: nat)
    requires k < 4
    ensures var code := Code(k);
            64 * Octal(code[1]) + 8 * Octal(code[2]) + Octal(code[3]) == Char(k) as int
    ensures {Char(0), Char(1), Char(2), Char(3)} == {' ', '\t', '\n', '\\'}
    ensures forall j :: 0 <= j < 4 && Octal(Code(j)[1]) + Octal(Code(j)[2]) + Octal(Code(j)[3]) > 7 ==> j == 3
  {
  }

  /** `decode_mount_field` */
  function DecodeMountField(s: string): string {
    var blanks := Replace(s, Code(0), [Char(0)]);
    var tabs := Replace(blanks, Code(1), [Char(1)]);
    var newlines := Replace(tabs, Code(2), [Char(2)]);
    Replace(newlines, Code(3), [Char(3)])
  }

  // ---- A single left-to-right decoder ----

  /** The escape at the head of `s`, among the first `n`. */
  function EscapeAt(s: string, n: nat): (r: Option<nat>)
    requires n <= 4
    ensures r.Some? ==> r.value < n && Code(r.value) <= s
    ensures r.None? ==> forall k :: 0 <= k < n ==> !(Code(k) <= s)
  {
    if n == 0 then None
    else if Code(n - 1) <= s then Some(n - 1)
    else EscapeAt(s, n - 1)
  }

  /** Decodes the first `n` escapes in one pass. */
  function Decode(s: string, n: nat): string
    requires n <= 4
    decreases |s|
  {
    if s == "" then ""
    else
      match EscapeAt(s, n)
      case Some(k) => [Char(k)] + Decode(s[4..], n)
      case None => [s[0]] + Decode(s[1..], n)
  }

  lemma CodeHead(s: string, k: nat)
    requires k < 4
    ensures Code(k) <= s <==> |s| >= 4 && s[0] == '\\' && s[1] == Code(k)[1] && s[2] == Code(k)[2] && s[3] == Code(k)[3]
  {
    if |s| >= 4 && s[0] == '\\' && s[1] == Code(k)[1] && s[2] == Code(k)[2] && s[3] == Code(k)[3] {
      assert s[..4] == Code(k);
    }
  }

  /** At most one escape stands at the head of a text. */
  lemma OneCode(s: string, j: nat, k: nat)
    requires j < 4 && k < 4 && j != k && Code(j) <= s
    ensures !(Code(k) <= s)
  {
    CodeHead(s, j);
    CodeHead(s, k);
  }

  lemma NoEscapeHead(s: string, n: nat)
    requires n <= 4 && s != "" && s[0] != '\\'
    ensures EscapeAt(s, n).None? && Decode(s, n) == [s[0]] + Decode(s[1..], n)
  {
  }

  lemma EscapedHead(s: string, n: nat)
    requires n <= 3 && s != "" && EscapeAt(s, n).Some?
    ensures Decode(s, n) != "" && !IsDigit(Decode(s, n)[0])
  {
  }

  /** The digits a decoded text starts with were there before: the first three escapes decode to no digit. */
  lemma {:induction false} DigitsWereThere(s: string, n: nat, m: nat)
    requires n <= 3 && m <= |Decode(s, n)|
    requires forall i :: 0 <= i < m ==> IsDigit(Decode(s, n)[i])
    ensures m <= |s| && forall i :: 0 <= i < m ==> s[i] == Decode(s, n)[i]
    decreases |s|
  {
    if m > 0 {
      if EscapeAt(s, n).Some? {
        EscapedHead(s, n);
      }
      var rest := Decode(s[1..], n);
      assert forall i :: 0 <= i < m - 1 ==> rest[i] == Decode(s, n)[i + 1];
      DigitsWereThere(s[1..], n, m - 1);
      forall i | 0 <= i < m ensures s[i] == Decode(s, n)[i] {
        if i > 0 {
          assert s[i] == s[1..][i - 1];
        }
      }
    }
  }

  /** Decoding escapes never creates the head of another one. */
  lemma NoNewEscape(s: string, n: nat)
    requires n <= 3 && s != "" && EscapeAt(s, n).None?
    ensures Code(n) <= Decode(s, n) <==> Code(n) <= s
  {
    var out, rest := Decode(s, n), Decode(s[1..], n);
    assert out == [s[0]] + rest;
    CodeHead(s, n);
    CodeHead(out, n);
    if Code(n) <= out {
      assert forall i :: 0 <= i < 3 ==> rest[i] == out[i + 1] && IsDigit(rest[i]);
      DigitsWereThere(s[1..], n, 3);
    }
    if Code(n) <= s {
      RawHead(s, n);
    }
  }

  /** An escape the decoder does not know is copied character by character. */
  lemma RawHead(s: string, n: nat)
    requires n <= 3 && Code(n) <= s && EscapeAt(s, n).None?
    ensures Decode(s, n) == Code(n) + Decode(s[4..], n)
  {
    hide EscapeAt;
    CodeHead(s, n);
    CopyDigits(s[1..], n);
    assert s[1..][..3] == Code(n)[1..] && s[1..][3..] == s[4..];
    assert [s[0]] + (Code(n)[1..] + Decode(s[4..], n)) == Code(n) + Decode(s[4..], n);
  }

  lemma CopyDigits(s: string, n: nat)
    requires n <= 3 && |s| >= 3 && IsDigit(s[0]) && IsDigit(s[1]) && IsDigit(s[2])
    ensures Decode(s, n) == s[..3] + Decode(s[3..], n)
  {
    hide EscapeAt, Decode;
    NoEscapeHead(s, n);
    NoEscapeHead(s[1..], n);
    NoEscapeHead(s[2..], n);
    assert s[1..][1..] == s[2..] && s[2..][1..] == s[3..];
    assert s[..3] == [s[0]] + ([s[1]] + [s[2]]);
  }

  /** One more replacement over a decoded text decodes one more escape, for every text. */
  lemma {:induction false} ReplaceDecoded(s: string, n: nat)
    requires n <= 3
    ensures Replace(Decode(s, n), Code(n), [Char(n)]) == Decode(s, n + 1)
    decreases |s|
  {
    var out := Decode(s, n);
    if s != "" {
      match EscapeAt(s, n)
      case Some(k) =>
        KnownEscape(s, n);
        CodeHead(out, n);
        ReplaceDecoded(s[4..], n);
        ReplaceStep(Char(k), Decode(s[4..], n), Code(n), [Char(n)]);
      case None =>
        if Code(n) <= s {
          RawHead(s, n);
          ReplaceDecoded(s[4..], n);
          assert (Code(n) + Decode(s[4..], n))[4..] == Decode(s[4..], n);
          assert EscapeAt(s, n + 1) == Some(n);
        } else {
          NoNewEscape(s, n);
          ReplaceDecoded(s[1..], n);
          ReplaceStep(s[0], Decode(s[1..], n), Code(n), [Char(n)]);
          assert EscapeAt(s, n + 1) == None;
        }
    }
  }

  /** An escape known to the smaller decoder is the same for the larger one. */
  lemma KnownEscape(s: string, n: nat)
    requires n <= 3 && EscapeAt(s, n).Some?
    ensures EscapeAt(s, n + 1) == EscapeAt(s, n)
    ensures Char(EscapeAt(s, n).value) != '\\'
  {
    var k := EscapeAt(s, n).value;
    OneCode(s, k, n);
  }

  lemma ReplaceStep(c: char, s: string, pattern: string, with: string)
    requires pattern != "" && !(pattern <= [c] + s)
    ensures Replace([c] + s, pattern, with) == [c] + Replace(s, pattern, with)
  {
    assert ([c] + s)[1..] == s;
  }

  /** The four passes are one left-to-right pass, on every text. */
  lemma FourPassesAreOne(s: string)
    ensures DecodeMountField(s) == Decode(s, 4)
  {
    DecodeNothing(s);
    ReplaceDecoded(s, 0);
    ReplaceDecoded(s, 1);
    ReplaceDecoded(s, 2);
    ReplaceDecoded(s, 3);
  }

  lemma {:induction false} DecodeNothing(s: string)
    ensures Decode(s, 0) == s
    decreases |s|
  {
    if s != "" {
      DecodeNothing(s[1..]);
      assert [s[0]] + s[1..] == s;
    }
  }

  // ---- Undoing the kernel's escaping ----

  function EscapeChar(c: char): string {
    if c == ' ' then Code(0) else if c == '\t' then Code(1) else if c == '\n' then Code(2)
    else if c == '\\' then Code(3) else [c]
  }

  function Escape(path: string): string {
    if path == "" then "" else EscapeChar(path[0]) + Escape(path[1..])
  }

  /** Decoding undoes the escaping of every path, also of one that contains the text of an escape. */
  lemma {:induction false} DecodeEscaped(path: string)
    ensures DecodeMountField(Escape(path)) == path
  {
    FourPassesAreOne(Escape(path));
    OnePassUndoes(path);
  }

  lemma {:induction false} OnePassUndoes(path: string)
    ensures Decode(Escape(path), 4) == path
  {
    hide EscapeChar, EscapeAt;
    if path != "" {
      OnePassUndoes(path[1..]);
      DecodeEscapedChar(path[0], Escape(path[1..]));
      assert [path[0]] + path[1..] == path;
    }
  }

  lemma DecodeEscapedChar(c: char, rest: string)
    ensures Decode(EscapeChar(c) + rest, 4) == [c] + Decode(rest, 4)
  {
    var s := EscapeChar(c) + rest;
    if c == ' ' {
      EscapeFound(s, 0);
    } else if c == '\t' {
      EscapeFound(s, 1);
    } else if c == '\n' {
      EscapeFound(s, 2);
    } else if c == '\\' {
      EscapeFound(s, 3);
    } else {
      NoEscapeHead(s, 4);
      assert s[1..] == rest;
    }
  }

  lemma EscapeFound(s: string, k: nat)
    requires k < 4 && |s| >= 4 && s[..4] == Code(k)
    ensures Decode(s, 4) == [Char(k)] + Decode(s[4..], 4)
  {
    assert Code(k) <= s;
    var j := EscapeAt(s, 4);
    if j.Some? && j.value != k {
      OneCode(s, k, j.value);
    }
  }

  // ---- A line of the table ----

  datatype Record = Record(destination: string, fsType: Token, options: Token)

  /** A line as the kernel prints it; `source` and `tail` are of no interest to the reader. */
  function PrintRecord(source: Token, r: Record, tail: seq<Token>): string {
    source + (" " + (Escape(r.destination) + Spaced([r.fsType, r.options] + tail)))
  }

  /** The reader of one line: four fields or nothing, the second one decoded. */
  function ReadRecord(line: string): Option<Record> {
    var parts := SplitWhitespace(line);
    if |parts| < 4 then None else Some(Record(DecodeMountField(parts[1]), parts[2], parts[3]))
  }

  /** Whitespace that the kernel does not escape. */
  predicate OtherSpace(c: char) {
    IsSpace(c) && c != ' ' && c != '\t' && c != '\n'
  }

  lemma {:induction false} EscapedChars(path: string)
    ensures forall c :: c in Escape(path) && IsSpace(c) ==> c in path && OtherSpace(c)
    ensures forall c :: c in path && OtherSpace(c) ==> c in Escape(path)
    ensures path != "" ==> Escape(path) != ""
  {
    if path != "" {
      EscapedChars(path[1..]);
      var head := EscapeChar(path[0]);
      assert forall c :: c in Escape(path) <==> c in head || c in Escape(path[1..]);
      assert forall c :: c in path <==> c == path[0] || c in path[1..];
      forall k | 0 <= k < 4 ensures forall c :: c in Code(k) ==> !IsSpace(c) {
        CodeNoSpace(k);
      }
    }
  }

  lemma CodeNoSpace(k: nat)
    requires k < 4
    ensures forall c :: c in Code(k) ==> !IsSpace(c)
  {
    forall c | c in Code(k) ensures !IsSpace(c) {
      assert c == '\\' || IsDigit(c);
    }
  }

  /** Decoding a token brings back blanks, tabs and newlines, but no other whitespace. */
  lemma {:induction false} DecodedChars(s: string)
    requires forall c :: c in s ==> !OtherSpace(c)
    ensures forall c :: c in Decode(s, 4) ==> !OtherSpace(c)
    decreases |s|
  {
    if s != "" {
      match EscapeAt(s, 4)
      case Some(k) => DecodedChars(s[4..]);
      case None => DecodedChars(s[1..]);
    }
  }

  /** A printed record is read back exactly when its path has no whitespace but blanks, tabs and newlines. */
  lemma RecordReadBackIff(source: Token, r: Record, tail: seq<Token>)
    requires r.destination != ""
    ensures ReadRecord(PrintRecord(source, r, tail)) == Some(r) <==> forall c :: c in r.destination ==> !OtherSpace(c)
  {
    var line := PrintRecord(source, r, tail);
    var fields := Spaced([r.fsType, r.options] + tail);
    var rest := Escape(r.destination) + fields;
    EscapedChars(r.destination);
    SplitTokenThen(source, " " + rest);
    assert " " + rest == [' '] + rest;
    SplitSkipsSpace(' ', rest);
    if forall c :: c in r.destination ==> !OtherSpace(c) {
      var field: Token := Escape(r.destination);
      SplitTokenThen(field, fields);
      SplitSpaced([r.fsType, r.options] + tail);
      DecodeEscaped(r.destination);
      assert SplitWhitespace(line) == [source] + ([field] + ([r.fsType, r.options] + tail));
    } else if ReadRecord(line).Some? {
      var field := SplitWhitespace(line)[1];
      assert forall c :: c in field ==> !IsSpace(c) by {
        assert !HasSpace(field);
      }
      FourPassesAreOne(field);
      DecodedChars(field);
    }
  }
}
