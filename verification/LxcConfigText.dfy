/**
 Rewriting a container's configuration text: the autostart switch and the two network values. Readers
 take the last line that sets a key; writers drop the old lines and append a new one.
 */
module LxcConfigText {
  import opened Addresses
  import opened Sequences
  import opened Text
  import opened TextLines
  import opened Wrappers

  const AUTO_KEY := "lxc.start.auto"
  const ADDRESS_KEY := "lxc.net.0.ipv4.address"
  const GATEWAY_KEY := "lxc.net.0.ipv4.gateway"

  // ---- One line ----

  function UpTo(line: string, c: char): (r: string)
    ensures r <= line && c !in r
  {
    match SplitOnce(line, c)
    case None => line
    case Some((before, _)) => before
  }

  /** The part of a line before a comment, trimmed. */
  function Body(line: string): string {
    Trim(UpTo(line, '#'))
  }

  /** The key and the value that a line sets. */
  function Setting(line: string): Option<(string, string)> {
    match SplitOnce(Body(line), '=')
    case None => None
    case Some((key, value)) => Some((Trim(key), Trim(value)))
  }

  function ParseToggle(value: string): Option<bool> {
    if value in ["on", "1", "true"] then Some(true)
    else if value in ["off", "0", "false"] then Some(false)
    else None
  }

  function ValueOf(key: string, line: string): Option<string> {
    match Setting(line)
    case None => None
    case Some((k, value)) => if k == key then Some(value) else None
  }

  /** `lxc_start_auto_line` */
  function StartAutoLine(line: string): Option<bool> {
    match ValueOf(AUTO_KEY, line)
    case None => None
    case Some(value) => ParseToggle(value)
  }

  predicate NotAuto(line: string) {
    ValueOf(AUTO_KEY, line).None?
  }

  predicate NotWritten(key: string, line: string) {
    !StartsWith(TrimStart(line), key + " ")
  }

  function Written(key: string, value: string): string {
    key + " = " + value
  }

  // ---- The operations ----

  function Autostart(text: string): bool {
    LastSome(Lines(text), StartAutoLine) == Some(true)
  }

  /** `lxc_start_auto_value` */
  method LxcStartAutoValue(text: string) returns (value: bool)
    ensures value == Autostart(text)
  {
    hide StartAutoLine, Lines;
    value := false;
    var lines := Lines(text);
    for i := 0 to |lines|
      invariant value == (LastSome(lines[..i], StartAutoLine) == Some(true))
    {
      assert lines[..i + 1] == lines[..i] + [lines[i]];
      LastSomeSnoc(lines[..i], lines[i], StartAutoLine);
      var enabled := StartAutoLine(lines[i]);
      if enabled.Some? {
        value := enabled.value;
      }
    }
    assert lines[..|lines|] == lines;
  }

  function Bit(enabled: bool): string {
    if enabled then "1" else "0"
  }

  /** The lines that a change of the autostart switch keeps. */
  function OtherThanAuto(text: string): seq<string> {
    Filter(Lines(text), NotAuto)
  }

  function SetAutostart(text: string, enabled: bool): string {
    Unlines(OtherThanAuto(text) + [Written(AUTO_KEY, Bit(enabled))])
  }

  /** `rewrite_lxc_start_auto`: filter, push, join. */
  method RewriteLxcStartAuto(text: string, enabled: bool) returns (updated: string)
    ensures updated == SetAutostart(text, enabled)
  {
    hide Lines, NotAuto;
    var lines := Filter(Lines(text), NotAuto);
    lines := lines + [AUTO_KEY + " = " + Bit(enabled)];
    updated := Join(lines);
    updated := updated + "\n";
    JoinThenNewline(lines);
  }

  function Unwritten(key: string): string -> bool {
    line => NotWritten(key, line)
  }

  /** The lines that an upsert keeps. */
  function OtherThan(text: string, key: string): seq<string> {
    Filter(Lines(text), Unwritten(key))
  }

  function Upsert(text: string, key: string, value: string): string {
    Unlines(OtherThan(text, key) + [Written(key, value)])
  }

  /** `upsert_lxc_config_value` */
  method UpsertLxcConfigValue(text: string, key: string, value: string) returns (output: string)
    ensures output == Upsert(text, key, value)
  {
    hide Lines;
    var lines := OtherThan(text, key);
    output := "";
    for i := 0 to |lines|
      invariant output == Unlines(lines[..i])
    {
      assert lines[..i + 1] == lines[..i] + [lines[i]];
      UnlinesConcat(lines[..i], [lines[i]]);
      assert Unlines([lines[i]]) == lines[i] + "\n";
      output := output + lines[i] + "\n";
    }
    assert lines[..|lines|] == lines;
    UnlinesConcat(lines, [Written(key, value)]);
    assert Unlines([Written(key, value)]) == Written(key, value) + "\n";
    output := output + key + " = " + value + "\n";
  }

  function AddressValue(s: Settings): string {
    ShowOctets(s.address) + "/" + Decimal(s.prefix)
  }

  function SetNetwork(text: string, s: Settings): string {
    Upsert(Upsert(text, ADDRESS_KEY, AddressValue(s)), GATEWAY_KEY, ShowOctets(s.gateway))
  }

  // ---- Trimming ----

  lemma {:induction false} TrimStartSnoc(s: string, c: char)
    ensures TrimStart(s + [c]) == if TrimStart(s) == "" then TrimStart([c]) else TrimStart(s) + [c]
  {
    if s == "" {
      assert s + [c] == [c];
    } else {
      assert (s + [c])[1..] == s[1..] + [c];
      if IsSpace(s[0]) {
        TrimStartSnoc(s[1..], c);
      }
    }
  }

  /** Trimming does not see a final carriage return. */
  lemma TrimStripped(s: string)
    ensures Trim(StripCr(s)) == Trim(s)
    ensures TrimStart(StripCr(s)) == TrimStart(s) || TrimStart(StripCr(s)) + "\r" == TrimStart(s)
  {
    if EndsWithCr(s) {
      var front := s[..|s| - 1];
      assert s == front + ['\r'];
      TrimStartSnoc(front, '\r');
      assert TrimStart(['\r']) == TrimStart("") by {
        assert ['\r'][1..] == "";
      }
      var t := TrimStart(front);
      if t != "" {
        assert (t + ['\r'])[..|t|] == t;
      }
    }
  }

  lemma {:induction false} UpToStripped(line: string, c: char)
    requires c != '\r'
    ensures UpTo(StripCr(line), c) == if c in line then UpTo(line, c) else StripCr(line)
  {
    match SplitOnce(line, c)
    case None =>
    case Some((before, after)) =>
      assert line == before + [c] + after;
      if EndsWithCr(line) {
        assert after != "" by {
          assert line[|before|] == c;
        }
        assert StripCr(line) == before + [c] + after[..|after| - 1];
        SplitOnceAt(before, c, after[..|after| - 1]);
      }
  }

  lemma BodyStripped(line: string)
    ensures Body(StripCr(line)) == Body(line)
  {
    hide SplitOnce, Trim, StripCr;
    UpToStripped(line, '#');
    TrimStripped(line);
    NoSplit(line, '#');
  }

  lemma NoSplit(line: string, c: char)
    ensures c !in line ==> UpTo(line, c) == line
  {
  }

  lemma NotWrittenStripped(key: string, line: string)
    ensures NotWritten(key, StripCr(line)) == NotWritten(key, line)
  {
    hide TrimStart, StripCr;
    var t, u, prefix := TrimStart(line), TrimStart(StripCr(line)), key + " ";
    TrimStripped(line);
    if u + "\r" == t && prefix <= t {
      assert prefix[|prefix| - 1] == ' ' && t[|t| - 1] == '\r';
      assert prefix <= u;
    }
  }

  lemma {:induction false} TrimStartKeepsStart(s: string)
    requires s == "" || !IsSpace(s[0])
    ensures TrimStart(s) == s
  {
  }

  lemma {:induction false} TrimEndKeepsPrefix(s: string, prefix: string)
    requires prefix <= s && (prefix == "" || !IsSpace(prefix[|prefix| - 1]))
    ensures prefix <= TrimEnd(s)
  {
    if |prefix| == |s| {
      assert prefix == s;
    } else if IsSpace(s[|s| - 1]) {
      TrimEndKeepsPrefix(s[..|s| - 1], prefix);
    }
  }

  lemma TrimKeepsPrefix(s: string, prefix: Token)
    requires prefix <= s
    ensures prefix <= Trim(s)
  {
    hide TrimEnd;
    assert prefix[0] in prefix && prefix[|prefix| - 1] in prefix;
    TrimStartKeepsStart(s);
    TrimEndKeepsPrefix(s, prefix);
  }

  /** A cut at a character keeps a prefix that does not hold the character. */
  lemma UpToKeepsPrefix(s: string, prefix: string, c: char)
    requires prefix <= s && c !in prefix
    ensures prefix <= UpTo(s, c)
  {
    assert forall i :: 0 <= i < |prefix| ==> s[i] == prefix[i] && prefix[i] in prefix;
    match SplitOnce(s, c)
    case None =>
    case Some((before, after)) =>
      assert s[|before|] == c;
  }

  lemma {:induction false} SpaceThenTrimmed(line: string, n: nat)
    requires n <= |line| && forall i :: 0 <= i < n ==> IsSpace(line[i])
    ensures TrimStart(line) == TrimStart(line[n..])
  {
    if n > 0 {
      SpaceThenTrimmed(line[1..], n - 1);
      assert line[1..][n - 1..] == line[n..];
    } else {
      assert line[0..] == line;
    }
  }

  lemma {:induction false} TrimStartIsSuffix(line: string) returns (n: nat)
    ensures n <= |line| && TrimStart(line) == line[n..]
    ensures forall i :: 0 <= i < n ==> IsSpace(line[i])
  {
    if line != "" && IsSpace(line[0]) {
      n := TrimStartIsSuffix(line[1..]);
      assert line[1..][n..] == line[n + 1..];
      assert forall i :: 0 < i < n + 1 ==> line[i] == line[1..][i - 1];
      n := n + 1;
    } else {
      n := 0;
    }
  }

  /** A key name: a token in which no comment and no value starts. */
  predicate IsKey(key: string) {
    key != "" && !HasSpace(key) && '#' !in key && '=' !in key
  }

  /** The body of a line that starts with the key starts with the key. */
  lemma BodyKeepsKey(line: string, key: Token)
    requires IsKey(key) && key <= TrimStart(line)
    ensures key <= Body(line)
  {
    hide SplitOnce, UpTo, TrimStart, TrimEnd;
    var n := TrimStartIsSuffix(line);
    var spaced := line[..n] + key;
    assert spaced <= line by {
      assert line == line[..n] + line[n..];
    }
    assert '#' !in spaced;
    UpToKeepsPrefix(line, spaced, '#');
    var cut := UpTo(line, '#');
    assert key <= cut[n..];
    SpaceThenTrimmed(cut, n);
    TrimKeepsPrefix(cut[n..], key);
  }

  /** So it sets that key or a longer one, or nothing. */
  lemma SettingKeepsKey(line: string, key: Token)
    requires IsKey(key) && key <= TrimStart(line)
    ensures var s := Setting(line); s.Some? ==> key <= s.value.0
  {
    hide Trim, Body, TrimStart;
    BodyKeepsKey(line, key);
    UpToKeepsPrefix(Body(line), key, '=');
    var split := SplitOnce(Body(line), '=');
    if split.Some? {
      TrimKeepsPrefix(split.value.0, key);
    }
  }

  // ---- What a written line sets ----

  /** A value that a line can carry unchanged. */
  predicate IsPlainValue(value: string) {
    value != "" && !HasSpace(value) && '#' !in value
  }

  lemma TrimToken(t: string)
    requires t != "" && !HasSpace(t)
    ensures Trim(t) == t && Trim(t + " ") == t && Trim(" " + t) == t
  {
    assert t[0] in t && t[|t| - 1] in t;
    assert (t + " ")[..|t|] == t && (" " + t)[1..] == t;
    TrimStartKeepsStart(t);
    TrimStartKeepsStart(t + " ");
    assert TrimStart(" " + t) == TrimStart(t);
  }

  /** A written line is read back. */
  lemma WrittenReadsBack(key: string, value: string)
    requires IsKey(key) && IsPlainValue(value)
    ensures Setting(Written(key, value)) == Some((key, value))
  {
    hide SplitOnce, TrimStart, TrimEnd;
    var line := Written(key, value);
    assert '#' !in line;
    NoSplit(line, '#');
    assert Trim(line) == line by {
      assert line[0] == key[0] && key[0] in key;
      assert line[|line| - 1] == value[|value| - 1] && value[|value| - 1] in value;
      TrimUntouched(line);
    }
    assert line == (key + " ") + ['='] + (" " + value);
    SplitOnceAt(key + " ", '=', " " + value);
    TrimToken(key);
    TrimToken(value);
  }

  lemma TrimUntouched(s: string)
    requires s != "" && !IsSpace(s[0]) && !IsSpace(s[|s| - 1])
    ensures Trim(s) == s
  {
  }

  lemma WrittenIsWritten(key: string, value: string)
    requires IsKey(key)
    ensures !NotWritten(key, Written(key, value))
  {
    assert key[0] in key;
    TrimStartKeepsStart(Written(key, value));
    assert Written(key, value)[..|key| + 1] == key + " ";
  }

  /** Two keys of which neither starts with the other. */
  predicate Apart(key: string, other: string) {
    !(key <= other) && !(other <= key)
  }

  lemma OtherIsNotWritten(key: string, other: string, value: string)
    requires IsKey(key) && IsKey(other) && Apart(key, other)
    ensures NotWritten(key, Written(other, value))
  {
    assert other[0] in other;
    var line := Written(other, value);
    TrimStartKeepsStart(line);
    NotAPrefix(key, other, line);
  }

  lemma NotAPrefix(key: string, other: string, line: string)
    requires Apart(key, other) && other <= line
    ensures !(key <= line)
  {
    if |key| <= |other| {
      assert line[..|key|] == other[..|key|];
    }
  }

  // ---- The laws of the autostart switch ----

  lemma WrittenAuto(enabled: bool)
    ensures StartAutoLine(Written(AUTO_KEY, Bit(enabled))) == Some(enabled)
    ensures !NotAuto(Written(AUTO_KEY, Bit(enabled)))
  {
    hide Setting, Written;
    WrittenReadsBack(AUTO_KEY, Bit(enabled));
  }

  lemma AutoStripped(line: string)
    ensures StartAutoLine(StripCr(line)) == StartAutoLine(line)
    ensures NotAuto(StripCr(line)) == NotAuto(line)
  {
    hide Body, StripCr;
    BodyStripped(line);
  }

  /** The lines of a rewritten text: the kept ones, without a carriage return that is now at their end. */
  lemma LinesAfterSet(text: string, enabled: bool)
    ensures Lines(SetAutostart(text, enabled))
         == StripAll(OtherThanAuto(text)) + [Written(AUTO_KEY, Bit(enabled))]
  {
    hide Lines, Filter, NotAuto;
    var kept, line := OtherThanAuto(text), Written(AUTO_KEY, Bit(enabled));
    LinesOfUnlines(kept + [line]);
    StripAllConcat(kept, [line]);
    assert StripAll([line]) == [line];
  }

  /** Reading after setting gives the set value, for every text. */
  lemma GetAfterSet(text: string, enabled: bool)
    ensures Autostart(SetAutostart(text, enabled)) == enabled
  {
    hide Lines, Filter, StartAutoLine, SetAutostart, Written;
    LinesAfterSet(text, enabled);
    WrittenAuto(enabled);
    LastSomeSnoc(StripAll(OtherThanAuto(text)), Written(AUTO_KEY, Bit(enabled)), StartAutoLine);
  }

  /** The other lines after setting are the old ones, in order, each without its final carriage return. */
  lemma OthersAfterSet(text: string, enabled: bool)
    ensures OtherThanAuto(SetAutostart(text, enabled)) == StripAll(OtherThanAuto(text))
  {
    hide Lines, Filter, NotAuto, SetAutostart, Written, StripCr;
    var kept, line := OtherThanAuto(text), Written(AUTO_KEY, Bit(enabled));
    LinesAfterSet(text, enabled);
    WrittenAuto(enabled);
    FilterConcat(StripAll(kept), [line], NotAuto);
    FilterNone([line], NotAuto);
    forall l | l in kept ensures NotAuto(StripCr(l)) == NotAuto(l) {
      AutoStripped(l);
    }
    FilterStripped(kept, NotAuto);
    KeptIsKept(Lines(text), NotAuto);
  }

  lemma KeptIsKept(lines: seq<string>, keep: string -> bool)
    ensures Filter(Filter(lines, keep), keep) == Filter(lines, keep)
  {
    FilterAll(Filter(lines, keep), keep);
  }

  /** A second change overwrites the first exactly if no kept line ends in a carriage return. */
  lemma SecondSetOverwritesIff(text: string, first: bool, second: bool)
    ensures SetAutostart(SetAutostart(text, first), second) == SetAutostart(text, second)
       <==> NoneEndsWithCr(OtherThanAuto(text))
  {
    hide Lines, Filter, NotAuto, Written, StripCr, EndsWithCr;
    var kept, line := OtherThanAuto(text), Written(AUTO_KEY, Bit(second));
    OthersAfterSet(text, first);
    var again := OtherThanAuto(SetAutostart(text, first));
    WrittenIsALine(AUTO_KEY, Bit(second));
    UnlinesInjective(again + [line], kept + [line]);
    SameFront(again, kept, line);
    StripAllIff(kept);
  }

  lemma SameFront(a: seq<string>, b: seq<string>, last: string)
    ensures a + [last] == b + [last] <==> a == b
  {
    if a + [last] == b + [last] {
      assert a == (a + [last])[..|a|];
      assert b == (b + [last])[..|b|];
    }
  }

  lemma WrittenIsALine(key: string, value: string)
    requires '\n' !in key && '\n' !in value
    ensures '\n' !in Written(key, value)
  {
  }

  /** A text with a doubled carriage return: two changes differ from one. */
  lemma DoubledCarriageReturn(first: bool, second: bool)
    ensures SetAutostart(SetAutostart("a\r\r\n", first), second) != SetAutostart("a\r\r\n", second)
  {
    hide Lines, NotAuto, SetAutostart;
    OneKeptLine();
    assert OtherThanAuto("a\r\r\n") == ["a\r"] by {
      FilterAll(Lines("a\r\r\n"), NotAuto);
    }
    assert EndsWithCr("a\r");
    SecondSetOverwritesIff("a\r\r\n", first, second);
  }

  lemma OneKeptLine()
    ensures Lines("a\r\r\n") == ["a\r"] && NotAuto("a\r")
  {
    hide NotAuto;
    assert "a\r\r\n" == "a\r\r" + ['\n'] + "";
    SplitOnceAt("a\r\r", '\n', "");
    assert "a\r\r"[..2] == "a\r";
    assert Lines("") == [];
    NoEqualsSign("a\r");
  }

  lemma NoEqualsSign(line: string)
    requires '=' !in line
    ensures NotAuto(line)
  {
    hide Trim;
    var n := TrimStartIsSuffix(UpTo(line, '#'));
    assert Body(line) <= UpTo(line, '#')[n..] by {
      TrimIsInfix(UpTo(line, '#'), n);
    }
  }

  lemma TrimIsInfix(s: string, n: nat)
    requires n <= |s| && TrimStart(s) == s[n..]
    ensures Trim(s) <= s[n..]
  {
  }

  /** A written word switches on or off, or says nothing, and then an earlier line still counts. */
  lemma ToggleWords(word: string)
    requires IsPlainValue(word)
    ensures var text := Unlines([Written(AUTO_KEY, "on"), Written(AUTO_KEY, word)]);
            Autostart(text) <==> word !in ["off", "0", "false"]
    ensures Autostart(Unlines([Written(AUTO_KEY, word)])) <==> word in ["on", "1", "true"]
  {
    hide Lines, Unlines, Written, Setting, ParseToggle;
    AutoKeyIsKey();
    OnIsPlain();
    WrittenReadsBack(AUTO_KEY, word);
    WrittenReadsBack(AUTO_KEY, "on");
    var on, line := Written(AUTO_KEY, "on"), Written(AUTO_KEY, word);
    PlainLines([on, line]);
    PlainLines([line]);
    WordsOfToggle(word);
    WordsOfToggle("on");
    LastSomeSnoc([on], line, StartAutoLine);
    LastSomeSnoc([], on, StartAutoLine);
    LastSomeSnoc([], line, StartAutoLine);
    assert StartAutoLine(on) == Some(true) && StartAutoLine(line) == ParseToggle(word);
    assert [on] + [line] == [on, line] && [] + [on] == [on] && [] + [line] == [line];
  }

  lemma WordsOfToggle(word: string)
    ensures ParseToggle(word) == Some(true) <==> word in ["on", "1", "true"]
    ensures ParseToggle(word) == Some(false) <==> word in ["off", "0", "false"]
    ensures ParseToggle(word) in {None, Some(true), Some(false)}
  {
    assert "on"[1] == 'n' && "off"[1] == 'f' && "true"[0] == 't' && "false"[0] == 'f' && "1"[0] == '1' && "0"[0] == '0';
  }

  lemma AutoKeyIsKey()
    ensures IsKey(AUTO_KEY)
  {
  }

  lemma OnIsPlain()
    ensures IsPlainValue("on")
  {
  }

  /** Such lines are read as they are written. */
  lemma PlainLines(lines: seq<string>)
    requires forall line :: line in lines ==> exists word :: IsPlainValue(word) && line == Written(AUTO_KEY, word)
    ensures Lines(Unlines(lines)) == lines
  {
    hide Lines, Unlines, IsPlainValue, Written, IsKey;
    AutoKeyIsKey();
    forall line | line in lines ensures '\n' !in line && !EndsWithCr(line) {
      var word :| IsPlainValue(word) && line == Written(AUTO_KEY, word);
      PlainLine(AUTO_KEY, word);
    }
    LinesOfUnlines(lines);
    StripAllIff(lines);
  }

  // ---- The laws of the network values ----

  function Reads(key: string): string -> Option<string> {
    line => ValueOf(key, line)
  }

  /** The value of a key in a text: the last line that sets it counts. */
  function ConfigValue(text: string, key: string): Option<string> {
    LastSome(Lines(text), Reads(key))
  }

  lemma LinesAfterUpsert(text: string, key: string, value: string)
    requires IsKey(key) && IsPlainValue(value)
    ensures Lines(Upsert(text, key, value)) == StripAll(OtherThan(text, key)) + [Written(key, value)]
  {
    hide Lines, Filter, NotWritten;
    var kept, line := OtherThan(text, key), Written(key, value);
    assert IsSpace('\n') && IsSpace('\r');
    WrittenIsALine(key, value);
    LinesOfUnlines(kept + [line]);
    StripAllConcat(kept, [line]);
    assert line[|line| - 1] == value[|value| - 1] && value[|value| - 1] in value;
    assert StripAll([line]) == [line];
  }

  lemma ValueStripped(key: string, line: string)
    ensures ValueOf(key, StripCr(line)) == ValueOf(key, line)
  {
    hide Body, StripCr;
    BodyStripped(line);
  }

  /** An upserted value is the one that is read. */
  lemma ValueAfterUpsert(text: string, key: string, value: string)
    requires IsKey(key) && IsPlainValue(value)
    ensures ConfigValue(Upsert(text, key, value), key) == Some(value)
  {
    hide Lines, Upsert, Setting, Written;
    LinesAfterUpsert(text, key, value);
    WrittenReadsBack(key, value);
    LastSomeSnoc(StripAll(OtherThan(text, key)), Written(key, value), Reads(key));
  }

  /** What a reader of other keys sees is what it saw before: dropped lines set no such key. */
  lemma LastSomeAfterUpsert<T>(text: string, key: string, value: string, other: string, f: string -> Option<T>)
    requires IsKey(key) && IsPlainValue(value) && !(key <= other)
    requires forall line :: ValueOf(other, line).None? ==> f(line).None?
    requires forall line :: f(StripCr(line)) == f(line)
    ensures LastSome(Lines(Upsert(text, key, value)), f) == LastSome(Lines(text), f)
  {
    hide Lines, Upsert, Setting, Written, TrimStart, StripCr;
    var kept := OtherThan(text, key);
    LinesAfterUpsert(text, key, value);
    WrittenReadsBack(key, value);
    LastSomeSnoc(StripAll(kept), Written(key, value), f);
    LastSomeStripped(kept, f);
    forall line | line in Lines(text) && !Unwritten(key)(line) ensures f(line).None? {
      assert (key + " ")[..|key|] == key;
      SettingKeepsKey(line, key);
    }
    LastSomeFiltered(Lines(text), Unwritten(key), f);
  }

  lemma OtherValueAfterUpsert(text: string, key: string, value: string, other: string)
    requires IsKey(key) && IsPlainValue(value) && !(key <= other)
    ensures ConfigValue(Upsert(text, key, value), other) == ConfigValue(text, other)
  {
    hide ValueOf, Lines, Upsert, StripCr;
    forall line ensures Reads(other)(StripCr(line)) == Reads(other)(line) {
      ValueStripped(other, line);
    }
    LastSomeAfterUpsert(text, key, value, other, Reads(other));
  }

  lemma AutostartAfterUpsert(text: string, key: string, value: string)
    requires IsKey(key) && IsPlainValue(value) && !(key <= AUTO_KEY)
    ensures Autostart(Upsert(text, key, value)) == Autostart(text)
  {
    hide ValueOf, Lines, Upsert, StripCr;
    forall line ensures StartAutoLine(StripCr(line)) == StartAutoLine(line) {
      AutoStripped(line);
    }
    LastSomeAfterUpsert(text, key, value, AUTO_KEY, StartAutoLine);
  }

  lemma DecimalIsPlain(n: nat)
    ensures IsPlainValue(Decimal(n)) && '.' !in Decimal(n) && '/' !in Decimal(n)
  {
  }

  lemma PlainConcat(a: string, c: char, b: string)
    requires IsPlainValue(a) && IsPlainValue(b) && !IsSpace(c) && c != '#'
    ensures IsPlainValue(a + [c] + b)
  {
  }

  lemma ShownIsPlain(a: Ipv4)
    ensures IsPlainValue(ShowOctets(a))
  {
    hide Decimal, IsPlainValue;
    DecimalIsPlain(a[0]);
    DecimalIsPlain(a[1]);
    DecimalIsPlain(a[2]);
    DecimalIsPlain(a[3]);
    var two := Decimal(a[0]) + ['.'] + Decimal(a[1]);
    PlainConcat(Decimal(a[0]), '.', Decimal(a[1]));
    PlainConcat(two, '.', Decimal(a[2]));
    PlainConcat(two + ['.'] + Decimal(a[2]), '.', Decimal(a[3]));
    assert ShowOctets(a) == two + ['.'] + Decimal(a[2]) + ['.'] + Decimal(a[3]);
  }

  lemma ValuesArePlain(s: Settings)
    ensures IsPlainValue(AddressValue(s)) && IsPlainValue(ShowOctets(s.gateway))
    ensures IsKey(ADDRESS_KEY) && IsKey(GATEWAY_KEY) && Apart(ADDRESS_KEY, GATEWAY_KEY)
    ensures !(ADDRESS_KEY <= AUTO_KEY) && !(GATEWAY_KEY <= AUTO_KEY)
  {
    hide Decimal, IsPlainValue, IsKey, ShowOctets;
    ShownIsPlain(s.address);
    ShownIsPlain(s.gateway);
    DecimalIsPlain(s.prefix);
    PlainConcat(ShowOctets(s.address), '/', Decimal(s.prefix));
    NetworkKeys();
  }

  lemma NetworkKeys()
    ensures IsKey(ADDRESS_KEY) && IsKey(GATEWAY_KEY) && Apart(ADDRESS_KEY, GATEWAY_KEY)
    ensures !(ADDRESS_KEY <= AUTO_KEY) && !(GATEWAY_KEY <= AUTO_KEY)
  {
    hide IsKey;
    AddressKey();
    GatewayKey();
    assert ADDRESS_KEY[15] == 'a' && GATEWAY_KEY[15] == 'g';
    assert ADDRESS_KEY[4] == GATEWAY_KEY[4] == 'n' && AUTO_KEY[4] == 's';
  }

  lemma AddressKey()
    ensures IsKey(ADDRESS_KEY)
  {
    hide IsKey;
    NetKey();
    assert IsKey("ipv4.") && IsKey("address") by {
      KeyPieces();
    }
    KeyConcat("lxc.net.0.", "ipv4.");
    KeyConcat("lxc.net.0." + "ipv4.", "address");
    assert ADDRESS_KEY == "lxc.net.0." + "ipv4." + "address";
  }

  lemma GatewayKey()
    ensures IsKey(GATEWAY_KEY)
  {
    hide IsKey;
    NetKey();
    assert IsKey("ipv4.") && IsKey("gateway") by {
      KeyPieces();
    }
    KeyConcat("lxc.net.0.", "ipv4.");
    KeyConcat("lxc.net.0." + "ipv4.", "gateway");
    assert GATEWAY_KEY == "lxc.net.0." + "ipv4." + "gateway";
  }

  lemma NetKey()
    ensures IsKey("lxc.net.0.")
  {
  }

  lemma KeyPieces()
    ensures IsKey("ipv4.") && IsKey("address") && IsKey("gateway")
  {
  }

  lemma KeyConcat(a: string, b: string)
    requires IsKey(a) && IsKey(b)
    ensures IsKey(a + b)
  {
  }

  /** After a network repair both values are read back and every other setting is as before. */
  lemma NetworkReadsBack(text: string, s: Settings, other: string)
    requires Apart(ADDRESS_KEY, other) && Apart(GATEWAY_KEY, other)
    ensures var updated := SetNetwork(text, s);
            && ConfigValue(updated, ADDRESS_KEY) == Some(AddressValue(s))
            && ConfigValue(updated, GATEWAY_KEY) == Some(ShowOctets(s.gateway))
            && ConfigValue(updated, other) == ConfigValue(text, other)
            && Autostart(updated) == Autostart(text)
  {
    hide ConfigValue, Autostart, Upsert, IsPlainValue, IsKey, AddressValue, ShowOctets;
    ValuesArePlain(s);
    var v, w := AddressValue(s), ShowOctets(s.gateway);
    var half := Upsert(text, ADDRESS_KEY, v);
    ValueAfterUpsert(text, ADDRESS_KEY, v);
    ValueAfterUpsert(half, GATEWAY_KEY, w);
    OtherValueAfterUpsert(half, GATEWAY_KEY, w, ADDRESS_KEY);
    OtherValueAfterUpsert(text, ADDRESS_KEY, v, other);
    OtherValueAfterUpsert(half, GATEWAY_KEY, w, other);
    AutostartAfterUpsert(text, ADDRESS_KEY, v);
    AutostartAfterUpsert(half, GATEWAY_KEY, w);
  }

  /** The lines that a network repair keeps. */
  function OtherThanNetwork(text: string): seq<string> {
    Filter(OtherThan(text, ADDRESS_KEY), Unwritten(GATEWAY_KEY))
  }

  lemma FilterOfStripped(lines: seq<string>, key: string)
    ensures Filter(StripAll(lines), Unwritten(key)) == StripAll(Filter(lines, Unwritten(key)))
  {
    hide NotWritten, StripCr;
    forall line ensures NotWritten(key, StripCr(line)) == NotWritten(key, line) {
      NotWrittenStripped(key, line);
    }
    FilterStripped(lines, Unwritten(key));
  }

  function NetworkLines(s: Settings): seq<string> {
    [Written(ADDRESS_KEY, AddressValue(s)), Written(GATEWAY_KEY, ShowOctets(s.gateway))]
  }

  /** A repaired text, as lines: each kept line was read and written once in between. */
  lemma NetworkShape(text: string, s: Settings)
    ensures SetNetwork(text, s) == Unlines(StripAll(OtherThanNetwork(text)) + NetworkLines(s))
  {
    hide Lines, Filter, Unlines, Written, NotWritten, IsPlainValue, IsKey, AddressValue, ShowOctets, StripAll;
    ValuesArePlain(s);
    var v, w := AddressValue(s), ShowOctets(s.gateway);
    var address := Written(ADDRESS_KEY, v);
    var half := Upsert(text, ADDRESS_KEY, v);
    var kept := OtherThan(text, ADDRESS_KEY);
    LinesAfterUpsert(text, ADDRESS_KEY, v);
    FilterConcat(StripAll(kept), [address], Unwritten(GATEWAY_KEY));
    OtherIsNotWritten(GATEWAY_KEY, ADDRESS_KEY, v);
    FilterAll([address], Unwritten(GATEWAY_KEY));
    FilterOfStripped(kept, GATEWAY_KEY);
    assert OtherThan(half, GATEWAY_KEY) == StripAll(OtherThanNetwork(text)) + [address];
    assert StripAll(OtherThanNetwork(text)) + [address] + [Written(GATEWAY_KEY, w)]
        == StripAll(OtherThanNetwork(text)) + NetworkLines(s);
  }

  lemma {:induction false} StripTwiceIff(lines: seq<string>)
    ensures StripAll(StripAll(lines)) == lines <==> NoneEndsWithCr(lines)
  {
    if lines != [] {
      StripTwiceIff(lines[1..]);
      var twice := StripAll(StripAll(lines));
      assert twice == [StripCr(StripCr(lines[0]))] + StripAll(StripAll(lines[1..]));
      assert twice == lines <==> twice[0] == lines[0] && twice[1..] == lines[1..];
    } else {
      assert StripAll(lines) == [];
    }
  }

  lemma KeptAfterNetwork(text: string, s: Settings)
    ensures OtherThanNetwork(SetNetwork(text, s)) == StripAll(StripAll(OtherThanNetwork(text)))
  {
    hide Lines, Filter, Unlines, Written, NotWritten, IsPlainValue, IsKey;
    hide AddressValue, ShowOctets, StripAll, SetNetwork;
    ValuesArePlain(s);
    NetworkShape(text, s);
    var kept := OtherThanNetwork(text);
    var once, twice := StripAll(kept), StripAll(StripAll(kept));
    NetworkLinesKept(s);
    KeptAreLines(text);
    StrippedAreLines(kept);
    LinesOfUnlines(once + NetworkLines(s));
    StripAllConcat(once, NetworkLines(s));
    var a, g := Unwritten(ADDRESS_KEY), Unwritten(GATEWAY_KEY);
    FilterConcat(twice, NetworkLines(s), a);
    FilterOfStripped(once, ADDRESS_KEY);
    FilterOfStripped(kept, ADDRESS_KEY);
    FilterAll(kept, a);
    FilterConcat(twice, [NetworkLines(s)[1]], g);
    FilterOfStripped(once, GATEWAY_KEY);
    FilterOfStripped(kept, GATEWAY_KEY);
    FilterAll(kept, g);
    assert twice + [] == twice;
  }

  lemma KeptAreLines(text: string)
    ensures AreLines(OtherThanNetwork(text))
    ensures forall line :: line in OtherThanNetwork(text) ==>
              NotWritten(ADDRESS_KEY, line) && NotWritten(GATEWAY_KEY, line)
  {
    hide Lines, NotWritten;
  }

  lemma {:induction false} StrippedAreLines(lines: seq<string>)
    requires AreLines(lines)
    ensures AreLines(StripAll(lines))
  {
    if lines != [] {
      assert lines[0] in lines;
      StrippedAreLines(lines[1..]);
    }
  }

  lemma NetworkLinesKept(s: Settings)
    ensures var l := NetworkLines(s);
            && AreLines(l) && StripAll(l) == l
            && Filter(l, Unwritten(ADDRESS_KEY)) == [l[1]]
            && Filter([l[1]], Unwritten(GATEWAY_KEY)) == []
  {
    hide NotWritten, AddressValue, ShowOctets;
    ValuesArePlain(s);
    var v, w := AddressValue(s), ShowOctets(s.gateway);
    var a, g := NetworkLines(s)[0], NetworkLines(s)[1];
    PlainLine(ADDRESS_KEY, v);
    PlainLine(GATEWAY_KEY, w);
    StripAllIff([a, g]);
    OtherIsNotWritten(ADDRESS_KEY, GATEWAY_KEY, w);
    WrittenIsWritten(ADDRESS_KEY, v);
    WrittenIsWritten(GATEWAY_KEY, w);
    FilterConcat([a], [g], Unwritten(ADDRESS_KEY));
    FilterNone([a], Unwritten(ADDRESS_KEY));
    FilterAll([g], Unwritten(ADDRESS_KEY));
    assert [a] + [g] == NetworkLines(s);
  }

  lemma PlainLine(key: string, value: string)
    requires IsKey(key) && IsPlainValue(value)
    ensures '\n' !in Written(key, value) && !EndsWithCr(Written(key, value))
  {
    assert IsSpace('\n') && IsSpace('\r');
    assert value[|value| - 1] in value;
  }

  /** Repairing twice is repairing once, exactly if no kept line ends in two carriage returns. */
  lemma NetworkRepairTwiceIff(text: string, s: Settings)
    ensures SetNetwork(SetNetwork(text, s), s) == SetNetwork(text, s)
       <==> NoneEndsWithCr(StripAll(OtherThanNetwork(text)))
  {
    hide Lines, Filter, Unlines, SetNetwork, OtherThanNetwork, NetworkLines, StripAll, EndsWithCr;
    var once := StripAll(OtherThanNetwork(text));
    var thrice := StripAll(StripAll(once));
    KeptAfterNetwork(text, s);
    NetworkShape(text, s);
    NetworkShape(SetNetwork(text, s), s);
    KeptAreLines(text);
    StrippedAreLines(OtherThanNetwork(text));
    StrippedAreLines(once);
    StrippedAreLines(StripAll(once));
    NetworkLinesKept(s);
    UnlinesInjective(thrice + NetworkLines(s), once + NetworkLines(s));
    SameFronts(thrice, once, NetworkLines(s));
    StripTwiceIff(once);
  }

  lemma SameFronts(a: seq<string>, b: seq<string>, last: seq<string>)
    ensures a + last == b + last <==> a == b
  {
    if a + last == b + last {
      assert a == (a + last)[..|a|];
      assert b == (b + last)[..|b|];
    }
  }

  function SetsKey(key: string): string -> bool {
    line => ValueOf(key, line).Some?
  }

  /**
   The writer recognises only a key with a space behind it and leaves `key=value` in place, so the new
   text sets the key exactly once if and only if every line that sets it in the old text has that space.
   */
  lemma OneSettingIff(text: string, key: string, value: string)
    requires IsKey(key) && IsPlainValue(value)
    ensures |Filter(Lines(Upsert(text, key, value)), SetsKey(key))| == 1
       <==> forall line :: line in Lines(text) && SetsKey(key)(line) ==> StartsWith(TrimStart(line), key + " ")
  {
    hide Lines, Upsert, ValueOf, Written, TrimStart, StripCr;
    var kept, line := OtherThan(text, key), Written(key, value);
    var sets := SetsKey(key);
    LinesAfterUpsert(text, key, value);
    WrittenSets(key, value);
    FilterConcat(StripAll(kept), [line], sets);
    FilterAll([line], sets);
    forall l ensures sets(StripCr(l)) == sets(l) {
      ValueStripped(key, l);
    }
    FilterStripped(kept, sets);
    EmptyIff(kept, sets);
    assert forall l :: l in kept <==> l in Lines(text) && NotWritten(key, l);
  }

  lemma WrittenSets(key: string, value: string)
    requires IsKey(key) && IsPlainValue(value)
    ensures SetsKey(key)(Written(key, value))
  {
    hide Setting, Written;
    WrittenReadsBack(key, value);
  }

  lemma EmptyIff(lines: seq<string>, p: string -> bool)
    ensures |Filter(lines, p)| == 0 <==> forall line :: line in lines ==> !p(line)
  {
    if |Filter(lines, p)| > 0 {
      assert Filter(lines, p)[0] in Filter(lines, p);
    } else {
      assert forall line :: line in lines && p(line) ==> line in Filter(lines, p);
    }
  }
}
