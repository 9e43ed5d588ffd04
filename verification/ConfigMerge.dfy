/** Merging kernel configuration fragments: a printer and a parser of settings, and a last-wins merge. */
module ConfigMerge {
  import opened Text
  import opened TextLines
  import opened Wrappers

  const NOT_SET := "not set"
  const IS_NOT_SET := " is not set"
  const SYMBOL_START := "CONFIG_"
  const MISSING := "missing"

  // ---- Lines, as Python sees them ----

  /** What `str.isspace` accepts: the file separators count too. */
  predicate IsPySpace(c: char) {
    IsSpace(c) || 0x1C <= c as int <= 0x1F
  }

  /** Where `str.splitlines` ends a line. */
  predicate IsBreak(c: char) {
    '\n' <= c <= '\r' || 0x1C <= c as int <= 0x1E || c as int in {0x85, 0x2028, 0x2029}
  }

  /** Which characters these are: every break is a space, and Python has four spaces more than Rust. */
  lemma PythonCodes(c: char)
    ensures IsPySpace(c) <==> IsSpace(c) || c as int in {0x1C, 0x1D, 0x1E, 0x1F}
    ensures IsBreak(c) <==> c as int in {10, 11, 12, 13, 0x1C, 0x1D, 0x1E, 0x85, 0x2028, 0x2029}
    ensures IsBreak(c) ==> IsPySpace(c)
  {
  }

  function StripLeft(s: string): (r: string)
    ensures |r| <= |s| && (r == "" || !IsPySpace(r[0]))
    ensures forall c :: c in r ==> c in s
  {
    if s != "" && IsPySpace(s[0]) then StripLeft(s[1..]) else s
  }

  function StripRight(s: string): (r: string)
    ensures r <= s && (r == "" || !IsPySpace(r[|r| - 1]))
  {
    if s != "" && IsPySpace(s[|s| - 1]) then StripRight(s[..|s| - 1]) else s
  }

  /** `str.strip` */
  function Strip(s: string): (r: string)
    ensures r == "" || (!IsPySpace(r[0]) && !IsPySpace(r[|r| - 1]))
    ensures forall c :: c in r ==> c in s
  {
    StripRight(StripLeft(s))
  }

  function LineHead(text: string): (r: string)
    ensures r <= text && forall c :: c in r ==> !IsBreak(c)
    ensures |r| < |text| ==> IsBreak(text[|r|])
  {
    if text == "" || IsBreak(text[0]) then "" else [text[0]] + LineHead(text[1..])
  }

  /** `str.splitlines`: a carriage return and the newline after it end one line. */
  function SplitLines(text: string): (r: seq<string>)
    ensures forall line, c :: line in r && c in line ==> !IsBreak(c)
    decreases |text|
  {
    if text == "" then []
    else
      var head := LineHead(text);
      var n := |head|;
      if n == |text| then [head]
      else
        var next := if text[n] == '\r' && n + 1 < |text| && text[n + 1] == '\n' then n + 2 else n + 1;
        [head] + SplitLines(text[next..])
  }

  /** The part of `s` before the first `needle`, or all of it. */
  function Before(s: string, needle: string): (r: string)
    ensures r <= s
  {
    if s == "" || needle <= s then "" else [s[0]] + Before(s[1..], needle)
  }

  // ---- Settings ----

  /** `parse_config_line` */
  function ParseConfigLine(line: string): Option<(string, string)> {
    var stripped := Strip(line);
    if SYMBOL_START <= stripped && '=' in stripped then SplitOnce(stripped, '=')
    else if "# " + SYMBOL_START <= stripped && EndsWith(stripped, IS_NOT_SET)
      then Some((Before(stripped[2..], IS_NOT_SET), NOT_SET))
    else None
  }

  predicate EndsWith(s: string, suffix: string) {
    |suffix| <= |s| && s[|s| - |suffix|..] == suffix
  }

  function ShowSetting(symbol: string, value: string): string {
    if value == NOT_SET then "# " + symbol + IS_NOT_SET else symbol + "=" + value
  }

  /** The settings of a file: the values, and the symbols in the order of their first mention. */
  datatype Settings = Settings(values: map<string, string>, order: seq<string>) {
    ghost predicate Valid() {
      && (forall s :: s in order <==> s in values)
      && (forall i, j :: 0 <= i < j < |order| ==> order[i] != order[j])
    }
  }

  type Put = (string, string)

  function Set(t: Settings, put: Put): Settings {
    Settings(t.values[put.0 := put.1], if put.0 in t.values then t.order else t.order + [put.0])
  }

  function Apply(t: Settings, puts: seq<Put>): Settings {
    if puts == [] then t else Set(Apply(t, puts[..|puts| - 1]), puts[|puts| - 1])
  }

  const EMPTY := Settings(map[], [])

  function Parsed(lines: seq<string>): seq<Put> {
    if lines == [] then []
    else
      var n := |lines| - 1;
      match ParseConfigLine(lines[n])
      case None => Parsed(lines[..n])
      case Some(put) => Parsed(lines[..n]) + [put]
  }

  function Read(text: string): Settings {
    Apply(EMPTY, Parsed(SplitLines(text)))
  }

  /** `read_config_values` */
  method ReadConfigValues(text: string) returns (t: Settings)
    ensures t == Read(text)
  {
    hide ParseConfigLine, SplitLines, Apply, Parsed;
    NothingParsed();
    var values: map<string, string>, order: seq<string> := map[], [];
    var lines := SplitLines(text);
    for i := 0 to |lines|
      invariant Settings(values, order) == Apply(EMPTY, Parsed(lines[..i]))
    {
      ParsedSnoc(lines, i);
      assert Parsed(lines[..i]) + [] == Parsed(lines[..i]);
      var parsed := ParseConfigLine(lines[i]);
      if parsed.Some? {
        var (symbol, value) := parsed.value;
        ApplySnoc(EMPTY, Parsed(lines[..i]), (symbol, value));
        if symbol !in values {
          order := order + [symbol];
        }
        values := values[symbol := value];
      }
    }
    assert lines[..|lines|] == lines;
    t := Settings(values, order);
  }

  lemma NothingParsed()
    ensures Apply(EMPTY, Parsed([])) == EMPTY
  {
  }

  lemma ParsedSnoc(lines: seq<string>, i: nat)
    requires i < |lines|
    ensures var put := ParseConfigLine(lines[i]);
            Parsed(lines[..i + 1]) == Parsed(lines[..i]) + if put.Some? then [put.value] else []
  {
    hide ParseConfigLine;
    assert lines[..i + 1][..i] == lines[..i];
  }

  lemma ApplySnoc(t: Settings, puts: seq<Put>, put: Put)
    ensures Apply(t, puts + [put]) == Set(Apply(t, puts), put)
  {
    assert (puts + [put])[..|puts|] == puts;
  }

  function ShownLines(t: Settings): (r: seq<string>)
    requires forall s :: s in t.order ==> s in t.values
    ensures |r| == |t.order|
  {
    seq(|t.order|, i requires 0 <= i < |t.order| =>
      assert t.order[i] in t.order;
      ShowSetting(t.order[i], t.values[t.order[i]]))
  }

  function Render(t: Settings): string
    requires forall s :: s in t.order ==> s in t.values
  {
    if t.order == [] then "\n" else Unlines(ShownLines(t))
  }

  /** `render_config`, which joins its lines with newlines and ends with one. */
  method RenderConfig(t: Settings) returns (text: string)
    requires forall s :: s in t.order ==> s in t.values
    ensures text == Render(t)
  {
    hide ShowSetting;
    var lines := [];
    for i := 0 to |t.order|
      invariant lines == ShownLines(t)[..i]
    {
      assert t.order[i] in t.order;
      lines := lines + [ShowSetting(t.order[i], t.values[t.order[i]])];
    }
    assert lines == ShownLines(t);
    text := Join(lines) + "\n";
    JoinThenNewline(lines);
  }

  // ---- The merge ----

  function Entries(t: Settings): (r: seq<Put>)
    requires forall s :: s in t.order ==> s in t.values
    ensures |r| == |t.order|
  {
    seq(|t.order|, i requires 0 <= i < |t.order| =>
      assert t.order[i] in t.order;
      (t.order[i], t.values[t.order[i]]))
  }

  function FragmentPuts(fragments: seq<string>): seq<Put> {
    if fragments == [] then []
    else
      ReadIsValid(fragments[|fragments| - 1]);
      FragmentPuts(fragments[..|fragments| - 1]) + Entries(Read(fragments[|fragments| - 1]))
  }

  function Merged(base: string, fragments: seq<string>): Settings {
    Apply(Read(base), FragmentPuts(fragments))
  }

  /** The label of the fragment for each of its settings. */
  function FragmentLabels(labels: seq<string>, fragments: seq<string>): (r: seq<string>)
    requires |labels| == |fragments|
    ensures |r| == |FragmentPuts(fragments)|
  {
    if fragments == [] then []
    else
      var n := |fragments| - 1;
      ReadIsValid(fragments[n]);
      FragmentLabels(labels[..n], fragments[..n]) + Labelled(labels[n], |Read(fragments[n]).order|)
  }

  function Labelled(origin: string, n: nat): (r: seq<string>)
    ensures |r| == n
  {
    seq(n, _ => origin)
  }

  datatype Change = Change(symbol: string, before: string, after: string, fragment: string)

  function Lookup(values: map<string, string>, symbol: string): string {
    if symbol in values then values[symbol] else MISSING
  }

  /** The change log of a list of settings, each from a fragment: those that differ from what was there. */
  function Log(t: Settings, puts: seq<Put>, from: seq<string>): seq<Change>
    requires |from| == |puts|
  {
    if puts == [] then []
    else
      var n := |puts| - 1;
      var before := Lookup(Apply(t, puts[..n]).values, puts[n].0);
      Log(t, puts[..n], from[..n]) + Changes(puts[n], before, from[n])
  }

  function Changes(put: Put, before: string, origin: string): seq<Change> {
    if before != put.1 then [Change(put.0, before, put.1, origin)] else []
  }

  function CountAdded(changes: seq<Change>): nat {
    if changes == [] then 0
    else CountAdded(changes[..|changes| - 1]) + if changes[|changes| - 1].before == MISSING then 1 else 0
  }

  /** A fragment as it is found: what a report calls it, and its text, if the file exists. */
  datatype Fragment = Fragment(origin: string, text: Option<string>)

  /** The text written, and the report. */
  datatype Merge = Merge(text: string, labels: seq<string>, summary: Summary, changes: seq<Change>)

  datatype Summary = Summary(symbols: nat, fragments: nat, changes: nat, added: nat)

  function Contents(files: seq<Fragment>): (r: seq<string>)
    requires forall f :: f in files ==> f.text.Some?
    ensures |r| == |files|
  {
    seq(|files|, i requires 0 <= i < |files| => assert files[i] in files; files[i].text.value)
  }

  function LabelsOf(files: seq<Fragment>): (r: seq<string>)
    ensures |r| == |files|
  {
    seq(|files|, i requires 0 <= i < |files| => files[i].origin)
  }

  /** `merge_config_files`, over the texts of the files that exist. A missing file stops it before it writes. */
  method MergeConfigFiles(base: Option<string>, fragments: seq<Fragment>) returns (r: Option<Merge>)
    ensures r.None? <==> base.None? || exists f :: f in fragments && f.text.None?
    ensures r.Some? ==>
      var texts, labels := Contents(fragments), LabelsOf(fragments);
      && Merged(base.value, texts).Valid()
      && r.value.text == Render(Merged(base.value, texts))
      && r.value.changes == Log(Read(base.value), FragmentPuts(texts), FragmentLabels(labels, texts))
      && r.value.labels == labels
      && r.value.summary == Summary(
           |Merged(base.value, texts).order|, |fragments|, |r.value.changes|, CountAdded(r.value.changes))
  {
    hide Read, Render, Log, Apply, FragmentPuts, FragmentLabels;
    if base.None? {
      return None;
    }
    for i := 0 to |fragments|
      invariant forall f :: f in fragments[..i] ==> f.text.Some?
    {
      assert fragments[..i + 1] == fragments[..i] + [fragments[i]];
      if fragments[i].text.None? {
        return None;
      }
    }
    assert fragments[..|fragments|] == fragments;
    var texts, labels := Contents(fragments), LabelsOf(fragments);
    var t := ReadConfigValues(base.value);
    var changes := [];
    ghost var t0 := t;
    NoPuts(t0);
    for i := 0 to |texts|
      invariant t == Apply(t0, FragmentPuts(texts[..i]))
      invariant changes == Log(t0, FragmentPuts(texts[..i]), FragmentLabels(labels[..i], texts[..i]))
    {
      var fragment := ReadConfigValues(texts[i]);
      ReadIsValid(texts[i]);
      FragmentsSnoc(labels, texts, i);
      t, changes := MergeFragment(
        t, fragment, labels[i], changes, t0, FragmentPuts(texts[..i]), FragmentLabels(labels[..i], texts[..i]));
    }
    assert texts[..|texts|] == texts && labels[..|labels|] == labels;
    ReadIsValid(base.value);
    ApplyIsValid(t0, FragmentPuts(texts));
    var text := RenderConfig(t);
    var added := SumAdded(changes);
    r := Some(Merge(text, labels, Summary(|t.order|, |fragments|, |changes|, added), changes));
  }

  /** The report's count of added symbols. */
  method SumAdded(changes: seq<Change>) returns (added: nat)
    ensures added == CountAdded(changes)
  {
    added := 0;
    for i := 0 to |changes|
      invariant added == CountAdded(changes[..i])
    {
      assert changes[..i + 1][..i] == changes[..i];
      if changes[i].before == MISSING {
        added := added + 1;
      }
    }
    assert changes[..|changes|] == changes;
  }

  lemma FragmentsSnoc(labels: seq<string>, texts: seq<string>, i: nat)
    requires |labels| == |texts| && i < |texts|
    ensures Read(texts[i]).Valid()
    ensures FragmentPuts(texts[..i + 1]) == FragmentPuts(texts[..i]) + Entries(Read(texts[i]))
    ensures FragmentLabels(labels[..i + 1], texts[..i + 1]) ==
            FragmentLabels(labels[..i], texts[..i]) + Labelled(labels[i], |Read(texts[i]).order|)
  {
    hide Read;
    ReadIsValid(texts[i]);
    assert texts[..i + 1][..i] == texts[..i] && labels[..i + 1][..i] == labels[..i];
  }

  lemma NoPuts(t: Settings)
    ensures Apply(t, []) == t && Log(t, [], []) == [] && FragmentPuts([]) == [] && FragmentLabels([], []) == []
  {
  }

  /** Its inner loop, over one fragment. */
  method MergeFragment(
      t: Settings, fragment: Settings, origin: string, changes: seq<Change>,
      ghost t0: Settings, ghost puts: seq<Put>, ghost from: seq<string>)
    returns (merged: Settings, log: seq<Change>)
    requires fragment.Valid() && t == Apply(t0, puts) && |from| == |puts| && changes == Log(t0, puts, from)
    ensures merged == Apply(t0, puts + Entries(fragment))
    ensures log == Log(t0, puts + Entries(fragment), from + Labelled(origin, |fragment.order|))
  {
    hide Apply, Log, Entries;
    var values, order := t.values, t.order;
    log := changes;
    ghost var entries := Entries(fragment);
    assert puts + entries[..0] == puts && from + Labelled(origin, 0) == from;
    for i := 0 to |fragment.order|
      invariant Settings(values, order) == Apply(t0, puts + entries[..i])
      invariant log == Log(t0, puts + entries[..i], from + Labelled(origin, i))
    {
      var symbol := fragment.order[i];
      assert symbol in fragment.order;
      var before, after := Lookup(values, symbol), fragment.values[symbol];
      EntryAt(fragment, i);
      assert puts + entries[..i + 1] == (puts + entries[..i]) + [entries[i]];
      assert from + Labelled(origin, i + 1) == (from + Labelled(origin, i)) + [origin];
      ApplySnoc(t0, puts + entries[..i], entries[i]);
      LogSnoc(t0, puts + entries[..i], from + Labelled(origin, i), entries[i], origin);
      if symbol !in values {
        order := order + [symbol];
      }
      values := values[symbol := after];
      if before != after {
        log := log + [Change(symbol, before, after, origin)];
      }
    }
    assert entries[..|entries|] == entries;
    merged := Settings(values, order);
  }

  lemma EntryAt(t: Settings, i: nat)
    requires t.Valid() && i < |t.order|
    ensures t.order[i] in t.values && Entries(t)[i] == (t.order[i], t.values[t.order[i]])
  {
    assert t.order[i] in t.order;
  }

  lemma LogSnoc(t: Settings, puts: seq<Put>, from: seq<string>, put: Put, origin: string)
    requires |from| == |puts|
    ensures Log(t, puts + [put], from + [origin]) ==
            Log(t, puts, from) + Changes(put, Lookup(Apply(t, puts).values, put.0), origin)
  {
    assert (puts + [put])[..|puts|] == puts && (from + [origin])[..|puts|] == from;
  }

  // ---- Last wins ----

  lemma {:induction false} ApplyIsValid(t: Settings, puts: seq<Put>)
    requires t.Valid()
    ensures Apply(t, puts).Valid()
  {
    if puts != [] {
      ApplyIsValid(t, puts[..|puts| - 1]);
    }
  }

  lemma ReadIsValid(text: string)
    ensures Read(text).Valid()
  {
    ApplyIsValid(EMPTY, Parsed(SplitLines(text)));
  }

  /** The last value that a list of settings gives to a symbol. */
  function LastValue(puts: seq<Put>, symbol: string): Option<string> {
    if puts == [] then None
    else if puts[|puts| - 1].0 == symbol then Some(puts[|puts| - 1].1)
    else LastValue(puts[..|puts| - 1], symbol)
  }

  /** After a merge each symbol has the last value mentioned, or its old one; old symbols keep their places. */
  lemma {:induction false} LastWins(t: Settings, puts: seq<Put>, symbol: string)
    ensures var r, last := Apply(t, puts), LastValue(puts, symbol);
            && (symbol in r.values <==> symbol in t.values || last.Some?)
            && (last.Some? ==> r.values[symbol] == last.value)
            && (last.None? && symbol in t.values ==> r.values[symbol] == t.values[symbol])
            && t.order <= r.order
  {
    if puts != [] {
      LastWins(t, puts[..|puts| - 1], symbol);
    }
  }

  /** Settings whose symbols are all there change values only. */
  lemma {:induction false} OrderKept(t: Settings, puts: seq<Put>)
    requires forall put :: put in puts ==> put.0 in t.values
    ensures Apply(t, puts).order == t.order
  {
    if puts != [] {
      OrderKept(t, puts[..|puts| - 1]);
      LastWins(t, puts[..|puts| - 1], puts[|puts| - 1].0);
    }
  }

  lemma {:induction false} MentionedHasLast(puts: seq<Put>, put: Put)
    requires put in puts
    ensures LastValue(puts, put.0).Some?
  {
    var n := |puts| - 1;
    if puts[n].0 != put.0 {
      assert put in puts[..n];
      MentionedHasLast(puts[..n], put);
    }
  }

  /** Merging the same fragments into the result changes nothing, conflicts between them included. */
  lemma ApplyTwice(t: Settings, puts: seq<Put>)
    ensures Apply(Apply(t, puts), puts) == Apply(t, puts)
  {
    var once := Apply(t, puts);
    var twice := Apply(once, puts);
    forall put | put in puts ensures put.0 in once.values {
      MentionedHasLast(puts, put);
      LastWins(t, puts, put.0);
    }
    OrderKept(once, puts);
    forall symbol ensures symbol in twice.values <==> symbol in once.values {
      LastWins(t, puts, symbol);
      LastWins(once, puts, symbol);
    }
    forall symbol | symbol in once.values ensures twice.values[symbol] == once.values[symbol] {
      LastWins(t, puts, symbol);
      LastWins(once, puts, symbol);
    }
    assert twice.values == once.values;
  }

  function Replay(values: map<string, string>, changes: seq<Change>): map<string, string> {
    if changes == [] then values
    else
      var last := changes[|changes| - 1];
      Replay(values, changes[..|changes| - 1])[last.symbol := last.after]
  }

  lemma ReplaySnoc(values: map<string, string>, changes: seq<Change>, change: Change)
    ensures Replay(values, changes + [change]) == Replay(values, changes)[change.symbol := change.after]
  {
    assert (changes + [change])[..|changes|] == changes;
  }

  /** One logged setting: logged or not, the replay follows the table. */
  lemma ReplayOne(
      values: map<string, string>, log: seq<Change>, table: map<string, string>, put: Put, origin: string,
      symbol: string)
    requires Lookup(Replay(values, log), symbol) == Lookup(table, symbol)
    requires Lookup(Replay(values, log), put.0) == Lookup(table, put.0)
    ensures Lookup(Replay(values, log + Changes(put, Lookup(table, put.0), origin)), symbol) ==
            Lookup(table[put.0 := put.1], symbol)
  {
    hide Replay;
    var before := Lookup(table, put.0);
    if before != put.1 {
      ReplaySnoc(values, log, Change(put.0, before, put.1, origin));
    } else {
      assert log + [] == log;
    }
  }

  /** The log replays to the merged values, where a symbol that is not there reads as "missing". */
  lemma {:induction false} LogReplays(t: Settings, puts: seq<Put>, from: seq<string>, symbol: string)
    requires |from| == |puts|
    ensures Lookup(Replay(t.values, Log(t, puts, from)), symbol) == Lookup(Apply(t, puts).values, symbol)
  {
    hide Log, Apply, Replay, Lookup, Changes;
    if puts == [] {
      NothingReplayed(t);
    } else {
      var n := |puts| - 1;
      var init, last, origin := puts[..n], puts[n], from[n];
      assert puts == init + [last] && from == from[..n] + [origin];
      LogReplays(t, init, from[..n], symbol);
      LogReplays(t, init, from[..n], last.0);
      ApplySnoc(t, init, last);
      LogSnoc(t, init, from[..n], last, origin);
      ReplayOne(t.values, Log(t, init, from[..n]), Apply(t, init).values, last, origin, symbol);
    }
  }

  lemma NothingReplayed(t: Settings)
    ensures Replay(t.values, Log(t, [], [])) == t.values && Apply(t, []) == t
  {
  }

  /** Nothing is logged that changes nothing. */
  lemma {:induction false} LogHasChanges(t: Settings, puts: seq<Put>, from: seq<string>)
    requires |from| == |puts|
    ensures forall c :: c in Log(t, puts, from) ==> c.before != c.after
  {
    hide Apply, Lookup;
    if puts != [] {
      LogHasChanges(t, puts[..|puts| - 1], from[..|puts| - 1]);
    }
  }

  /** Every logged change is that of a setting of the fragment that it names. */
  lemma {:induction false} ChangesComeFromPuts(t: Settings, puts: seq<Put>, from: seq<string>, c: Change)
    requires |from| == |puts| && c in Log(t, puts, from)
    ensures exists i :: 0 <= i < |puts| && puts[i] == (c.symbol, c.after) && from[i] == c.fragment
  {
    hide Apply, Lookup;
    var n := |puts| - 1;
    if c in Log(t, puts[..n], from[..n]) {
      ChangesComeFromPuts(t, puts[..n], from[..n], c);
      var i :| 0 <= i < n && puts[..n][i] == (c.symbol, c.after) && from[..n][i] == c.fragment;
      assert puts[i] == (c.symbol, c.after) && from[i] == c.fragment;
    } else {
      assert puts[n] == (c.symbol, c.after) && from[n] == c.fragment;
    }
  }

  lemma {:induction false} PutsComeFromFragments(labels: seq<string>, texts: seq<string>, i: nat)
    requires |labels| == |texts| && i < |FragmentPuts(texts)|
    ensures exists k :: 0 <= k < |texts| && labels[k] == FragmentLabels(labels, texts)[i]
                        && FragmentPuts(texts)[i] in Entries(FragmentAt(texts, k))
  {
    hide Read, Entries;
    var n := |texts| - 1;
    ReadIsValid(texts[n]);
    var before := |FragmentPuts(texts[..n])|;
    if i < before {
      PutsComeFromFragments(labels[..n], texts[..n], i);
      var k :| 0 <= k < n && labels[..n][k] == FragmentLabels(labels[..n], texts[..n])[i]
               && FragmentPuts(texts[..n])[i] in Entries(FragmentAt(texts[..n], k));
      assert FragmentAt(texts[..n], k) == FragmentAt(texts, k);
    } else {
      assert FragmentPuts(texts)[i] == Entries(Read(texts[n]))[i - before];
      assert FragmentAt(texts, n) == Read(texts[n]);
    }
  }

  /** The settings of fragment `k`. */
  function FragmentAt(texts: seq<string>, k: nat): (r: Settings)
    requires k < |texts|
    ensures r.Valid()
  {
    ReadIsValid(texts[k]);
    Read(texts[k])
  }

  /** So the report names, for each change, a fragment that gives the symbol this value. */
  lemma ChangesNameTheirFragment(t: Settings, labels: seq<string>, texts: seq<string>, c: Change)
    requires |labels| == |texts| && c in Log(t, FragmentPuts(texts), FragmentLabels(labels, texts))
    ensures exists k :: 0 <= k < |texts| && labels[k] == c.fragment
                        && c.symbol in Read(texts[k]).values && Read(texts[k]).values[c.symbol] == c.after
    ensures c.before != c.after
  {
    hide Read, Entries, Log, FragmentPuts, FragmentLabels;
    var puts, from := FragmentPuts(texts), FragmentLabels(labels, texts);
    LogHasChanges(t, puts, from);
    ChangesComeFromPuts(t, puts, from, c);
    var i :| 0 <= i < |puts| && puts[i] == (c.symbol, c.after) && from[i] == c.fragment;
    PutsComeFromFragments(labels, texts, i);
    var k :| 0 <= k < |texts| && labels[k] == from[i] && puts[i] in Entries(FragmentAt(texts, k));
    var j :| 0 <= j < |FragmentAt(texts, k).order| && Entries(FragmentAt(texts, k))[j] == puts[i];
    EntryAt(FragmentAt(texts, k), j);
  }

  // ---- The report's count of added symbols ----

  /** The symbols whose value is not the word for a missing one. */
  function Known(t: Settings): set<string> {
    set s | s in t.values && t.values[s] != MISSING
  }

  /** The changes that give a symbol that word as its value. */
  function CountHidden(changes: seq<Change>): nat {
    if changes == [] then 0
    else CountHidden(changes[..|changes| - 1]) + if changes[|changes| - 1].after == MISSING then 1 else 0
  }

  lemma CountsSnoc(changes: seq<Change>, put: Put, before: string, origin: string)
    ensures var all := changes + Changes(put, before, origin);
            CountAdded(all) - CountHidden(all) ==
            CountAdded(changes) - CountHidden(changes)
            + (if before == MISSING then 1 else 0) - (if put.1 == MISSING then 1 else 0)
  {
    if before != put.1 {
      var change := Change(put.0, before, put.1, origin);
      assert (changes + [change])[..|changes|] == changes;
    } else {
      assert changes + [] == changes;
    }
  }

  lemma KnownAfter(t: Settings, put: Put)
    ensures |Known(Set(t, put))| ==
            |Known(t)| + (if Lookup(t.values, put.0) == MISSING then 1 else 0) - (if put.1 == MISSING then 1 else 0)
  {
    var rest := Known(t) - {put.0};
    assert Known(t) == if Lookup(t.values, put.0) == MISSING then rest else rest + {put.0};
    assert Known(Set(t, put)) == if put.1 == MISSING then rest else rest + {put.0};
  }

  /**
   What the report counts as added, less the changes to the value "missing", is by how many the symbols
   with another value have grown.
   */
  lemma {:induction false} AddedBalance(t: Settings, puts: seq<Put>, from: seq<string>)
    requires |from| == |puts|
    ensures var log := Log(t, puts, from);
            CountAdded(log) - CountHidden(log) == |Known(Apply(t, puts))| - |Known(t)|
  {
    hide Log, Apply, Lookup, Changes, Known, CountAdded, CountHidden, Set;
    if puts == [] {
      NothingReplayed(t);
      NothingCounted(t);
    } else {
      var n := |puts| - 1;
      var init, last, origin := puts[..n], puts[n], from[n];
      assert puts == init + [last] && from == from[..n] + [origin];
      AddedBalance(t, init, from[..n]);
      ApplySnoc(t, init, last);
      LogSnoc(t, init, from[..n], last, origin);
      CountsSnoc(Log(t, init, from[..n]), last, Lookup(Apply(t, init).values, last.0), origin);
      KnownAfter(Apply(t, init), last);
    }
  }

  lemma NothingCounted(t: Settings)
    ensures CountAdded(Log(t, [], [])) == 0 && CountHidden(Log(t, [], [])) == 0
  {
  }

  lemma {:induction false} DistinctSize(order: seq<string>, symbols: set<string>)
    requires forall s :: s in order <==> s in symbols
    requires forall i, j :: 0 <= i < j < |order| ==> order[i] != order[j]
    ensures |order| == |symbols|
  {
    if order != [] {
      var n := |order| - 1;
      assert order[n] in order;
      forall s ensures s in order[..n] <==> s in symbols - {order[n]} {
        assert s in order <==> s in order[..n] || s == order[n];
      }
      DistinctSize(order[..n], symbols - {order[n]});
    } else {
      assert symbols == {};
    }
  }

  /** A new symbol with that value is neither logged nor counted. */
  lemma MissingIsNotLogged(t: Settings, symbol: string, origin: string)
    requires t.Valid() && symbol !in t.values
    ensures var puts := [(symbol, MISSING)];
            && Log(t, puts, [origin]) == [] && CountAdded(Log(t, puts, [origin])) == 0
            && Apply(t, puts).order == t.order + [symbol]
  {
    var put := (symbol, MISSING);
    assert [put][..0] == [] && [origin][..0] == [];
    assert Apply(t, [put]) == Set(t, put);
    assert Log(t, [put], [origin]) == Log(t, [], []) + Changes(put, MISSING, origin);
  }

  /** The count is that of the symbols that the merge adds, if nothing has the value "missing" before or after. */
  lemma AddedIsAdded(t: Settings, puts: seq<Put>, from: seq<string>)
    requires t.Valid() && |from| == |puts|
    requires MISSING !in t.values.Values && forall put :: put in puts ==> put.1 != MISSING
    ensures CountAdded(Log(t, puts, from)) == |Apply(t, puts).order| - |t.order|
  {
    hide Log, Apply, CountAdded, CountHidden;
    ApplyIsValid(t, puts);
    AddedBalance(t, puts, from);
    NoneHidden(t, puts, from);
    forall s | s in Apply(t, puts).values ensures Apply(t, puts).values[s] != MISSING {
      LastWins(t, puts, s);
      LastIsPut(puts, s);
    }
    DistinctSize(t.order, Known(t));
    DistinctSize(Apply(t, puts).order, Known(Apply(t, puts)));
  }

  lemma {:induction false} LastIsPut(puts: seq<Put>, symbol: string)
    ensures LastValue(puts, symbol).Some? ==> (symbol, LastValue(puts, symbol).value) in puts
  {
    if puts != [] {
      LastIsPut(puts[..|puts| - 1], symbol);
      assert puts[|puts| - 1] in puts;
    }
  }

  lemma {:induction false} NoneHidden(t: Settings, puts: seq<Put>, from: seq<string>)
    requires |from| == |puts| && forall put :: put in puts ==> put.1 != MISSING
    ensures CountHidden(Log(t, puts, from)) == 0
  {
    hide Apply, Lookup;
    if puts != [] {
      var n := |puts| - 1;
      NoneHidden(t, puts[..n], from[..n]);
      var before := Lookup(Apply(t, puts[..n]).values, puts[n].0);
      var log := Log(t, puts[..n], from[..n]);
      assert puts[n] in puts;
      if before != puts[n].1 {
        var change := Change(puts[n].0, before, puts[n].1, from[n]);
        assert (log + [change])[..|log|] == log;
      } else {
        assert log + [] == log;
      }
    }
  }

  // ---- Reading back what was rendered ----

  predicate NoBreaks(s: string) {
    forall c :: c in s ==> !IsBreak(c)
  }

  /** What a parsed line can give: a symbol and a value that a line can carry. */
  predicate IsReadable(put: Put) {
    && SYMBOL_START <= put.0 && NoBreaks(put.0) && NoBreaks(put.1)
    && (put.1 != NOT_SET ==> '=' !in put.0 && (put.1 == "" || !IsPySpace(put.1[|put.1| - 1])))
  }

  predicate AllReadable(puts: seq<Put>) {
    forall put :: put in puts ==> IsReadable(put)
  }

  lemma {:induction false} BeforeKeeps(s: string, prefix: string, needle: string)
    requires prefix <= s && needle != "" && needle[0] !in prefix
    ensures prefix <= Before(s, needle)
  {
    if prefix != "" {
      assert prefix[0] in prefix;
      assert s[0] == prefix[0];
      assert prefix[1..] <= s[1..];
      BeforeKeeps(s[1..], prefix[1..], needle);
    }
  }

  lemma NoBreaksInPart(part: string, s: string)
    requires NoBreaks(s) && forall c :: c in part ==> c in s
    ensures NoBreaks(part)
  {
  }

  lemma ParsedIsReadable(line: string)
    requires NoBreaks(line) && ParseConfigLine(line).Some?
    ensures IsReadable(ParseConfigLine(line).value)
  {
    hide Strip, SplitOnce, Before, IsPySpace, IsBreak;
    var stripped := Strip(line);
    NoBreaksInPart(stripped, line);
    if SYMBOL_START <= stripped && '=' in stripped {
      var (symbol, value) := SplitOnce(stripped, '=').value;
      ValueIsReadable(stripped, symbol, value);
    } else {
      var rest := stripped[2..];
      var symbol := Before(rest, IS_NOT_SET);
      assert SYMBOL_START <= rest;
      BeforeKeeps(rest, SYMBOL_START, IS_NOT_SET);
      NoBreaksInPart(rest, stripped);
      NoBreaksInPart(symbol, rest);
      NotSetHasNoBreaks();
    }
  }

  lemma NotSetHasNoBreaks()
    ensures NoBreaks(NOT_SET) && NoBreaks(IS_NOT_SET) && NoBreaks("# ") && NoBreaks("=")
  {
  }

  lemma ValueIsReadable(stripped: string, symbol: string, value: string)
    requires NoBreaks(stripped) && SYMBOL_START <= stripped && !IsPySpace(stripped[|stripped| - 1])
    requires stripped == symbol + ['='] + value && '=' !in symbol
    ensures IsReadable((symbol, value))
  {
    hide IsPySpace, IsBreak;
    NoBreaksInPart(symbol, stripped);
    NoBreaksInPart(value, stripped);
    assert value != "" ==> value[|value| - 1] == stripped[|stripped| - 1];
    assert stripped[|symbol|] == '=';
    assert SYMBOL_START == stripped[..7];
    assert stripped[0] == 'C' && stripped[1] == 'O' && stripped[2] == 'N' && stripped[3] == 'F';
    assert stripped[4] == 'I' && stripped[5] == 'G' && stripped[6] == '_';
    assert |symbol| >= 7;
    assert symbol[..7] == stripped[..7];
  }

  lemma {:induction false} ParsedAreReadable(lines: seq<string>)
    requires forall line :: line in lines ==> NoBreaks(line)
    ensures AllReadable(Parsed(lines))
  {
    hide ParseConfigLine, IsReadable, NoBreaks;
    if lines != [] {
      var n := |lines| - 1;
      ParsedAreReadable(lines[..n]);
      if ParseConfigLine(lines[n]).Some? {
        ParsedIsReadable(lines[n]);
      }
    }
  }

  ghost predicate ReadableSettings(t: Settings) {
    t.Valid() && forall s :: s in t.values ==> IsReadable((s, t.values[s]))
  }

  lemma {:induction false} ApplyIsReadable(t: Settings, puts: seq<Put>)
    requires ReadableSettings(t) && AllReadable(puts)
    ensures ReadableSettings(Apply(t, puts))
  {
    hide IsReadable;
    if puts != [] {
      ApplyIsReadable(t, puts[..|puts| - 1]);
      assert puts[|puts| - 1] in puts;
    }
  }

  lemma ReadIsReadable(text: string)
    ensures ReadableSettings(Read(text))
  {
    hide IsReadable, IsBreak;
    ParsedAreReadable(SplitLines(text));
    ApplyIsReadable(EMPTY, Parsed(SplitLines(text)));
  }

  lemma {:induction false} MergedIsReadable(base: string, fragments: seq<string>)
    ensures ReadableSettings(Merged(base, fragments))
  {
    hide IsReadable, Read;
    ReadIsReadable(base);
    FragmentsAreReadable(fragments);
    ApplyIsReadable(Read(base), FragmentPuts(fragments));
  }

  lemma {:induction false} FragmentsAreReadable(fragments: seq<string>)
    ensures AllReadable(FragmentPuts(fragments))
  {
    hide IsReadable, Read;
    if fragments != [] {
      var n := |fragments| - 1;
      FragmentsAreReadable(fragments[..n]);
      ReadIsReadable(fragments[n]);
      EntriesAreReadable(Read(fragments[n]));
    }
  }

  lemma EntriesAreReadable(t: Settings)
    requires ReadableSettings(t)
    ensures AllReadable(Entries(t))
  {
    hide IsReadable;
    forall put | put in Entries(t) ensures IsReadable(put) {
      var i :| 0 <= i < |t.order| && Entries(t)[i] == put;
      EntryAt(t, i);
    }
  }

  /** The words behind an unset symbol do not overlap themselves. */
  lemma WordsDoNotOverlap(s: string, i: nat)
    requires i < |s| && OccursAt(s + IS_NOT_SET, IS_NOT_SET, i)
    ensures OccursAt(s, IS_NOT_SET, i)
  {
    var text, m := s + IS_NOT_SET, |s| - i;
    assert |IS_NOT_SET| == 11;
    ghost var found := text[i..i + 11];
    assert forall q :: 0 <= q < 11 ==> found[q] == text[i + q];
    assert forall q :: 0 <= q < 11 ==> text[i + q] == IS_NOT_SET[q];
    assert forall q :: 0 <= q < 11 ==> text[|s| + q] == IS_NOT_SET[q];
    if m < 11 {
      Borderless(m);
      assert false;
    }
    assert s[i..i + 11] == text[i..i + 11];
  }

  lemma Borderless(m: nat)
    requires 0 < m < 11
    ensures IS_NOT_SET[m] != IS_NOT_SET[0] || (m < 10 && IS_NOT_SET[m + 1] != IS_NOT_SET[1])
  {
  }

  lemma OccursShift(s: string, needle: string, i: int)
    requires s != "" && i > 0
    ensures OccursAt(s, needle, i) <==> OccursAt(s[1..], needle, i - 1)
  {
    if i <= |s| - |needle| {
      var a, b := s[i..i + |needle|], s[1..][i - 1..i - 1 + |needle|];
      assert forall k :: 0 <= k < |needle| ==> a[k] == b[k];
      assert a == b;
    }
  }

  lemma {:induction false} BeforeIsFirst(s: string, needle: string)
    requires needle != ""
    ensures var r := Before(s, needle);
            && (|r| < |s| ==> OccursAt(s, needle, |r|))
            && (forall i :: 0 <= i < |r| ==> !OccursAt(s, needle, i))
  {
    if s != "" && !(needle <= s) {
      BeforeIsFirst(s[1..], needle);
      var r := Before(s, needle);
      forall i | 0 <= i < |r| ensures !OccursAt(s, needle, i) {
        if i > 0 {
          OccursShift(s, needle, i);
        }
      }
      OccursShift(s, needle, |r|);
    }
  }

  /** Cutting the words off again gives the symbol, unless it holds them itself. */
  lemma BeforeShownIff(symbol: string)
    ensures Before(symbol + IS_NOT_SET, IS_NOT_SET) == symbol <==> !Contains(symbol, IS_NOT_SET)
    ensures !Contains(Before(symbol + IS_NOT_SET, IS_NOT_SET), IS_NOT_SET)
  {
    hide Before;
    var text := symbol + IS_NOT_SET;
    var r := Before(text, IS_NOT_SET);
    BeforeIsFirst(text, IS_NOT_SET);
    assert OccursAt(text, IS_NOT_SET, |symbol|);
    assert |r| <= |symbol|;
    forall i | 0 <= i <= |symbol| && OccursAt(symbol, IS_NOT_SET, i) ensures OccursAt(text, IS_NOT_SET, i) {
      assert text[i..i + 11] == symbol[i..i + 11];
    }
    if |r| < |symbol| {
      WordsDoNotOverlap(symbol, |r|);
    } else {
      assert r == symbol;
    }
    forall i | 0 <= i <= |r| ensures !OccursAt(r, IS_NOT_SET, i) {
      if i < |r| && i + 11 <= |r| {
        assert r[i..i + 11] == text[i..i + 11];
        assert !OccursAt(text, IS_NOT_SET, i);
      }
    }
  }

  /** A setting that is printed and parsed comes back, unless it is unset and its name holds the words. */
  predicate ReadsBack(put: Put) {
    put.1 != NOT_SET || !Contains(put.0, IS_NOT_SET)
  }

  lemma StripNothing(s: string)
    requires s == "" || (!IsPySpace(s[0]) && !IsPySpace(s[|s| - 1]))
    ensures Strip(s) == s
  {
  }

  lemma UnsetLine(symbol: string)
    requires SYMBOL_START <= symbol
    ensures var line := "# " + symbol + IS_NOT_SET;
            && line[2..] == symbol + IS_NOT_SET && "# " + SYMBOL_START <= line && !(SYMBOL_START <= line)
            && EndsWith(line, IS_NOT_SET) && Strip(line) == line
  {
    hide Strip;
    var line, rest := "# " + symbol + IS_NOT_SET, symbol[7..] + IS_NOT_SET;
    assert symbol == SYMBOL_START + symbol[7..];
    assert line == "# " + SYMBOL_START + rest;
    assert line[0] == '#' && line[|line| - 1] == 't';
    StripNothing(line);
    assert line[|line| - 11..] == IS_NOT_SET;
  }

  lemma ShownParses(put: Put)
    requires IsReadable(put)
    ensures ParseConfigLine(ShowSetting(put.0, put.1))
         == Some(if put.1 == NOT_SET then (Before(put.0 + IS_NOT_SET, IS_NOT_SET), NOT_SET) else put)
  {
    hide Strip, SplitOnce, Before, EndsWith;
    var (symbol, value) := put;
    if value == NOT_SET {
      UnsetLine(symbol);
    } else {
      ValueLineParses(symbol, value);
    }
  }

  /** A line in the form of a value is parsed as one, even if the value is the words for none. */
  lemma ValueLineParses(symbol: string, value: string)
    requires SYMBOL_START <= symbol && '=' !in symbol && (value == "" || !IsPySpace(value[|value| - 1]))
    ensures ParseConfigLine(symbol + "=" + value) == Some((symbol, value))
  {
    hide Strip, SplitOnce;
    var line := symbol + "=" + value;
    assert symbol == SYMBOL_START + symbol[7..];
    assert line == SYMBOL_START + (symbol[7..] + "=" + value);
    assert line[0] == 'C' && line[|line| - 1] == if value == "" then '=' else value[|value| - 1];
    StripNothing(line);
    assert line == symbol + ['='] + value && line[|symbol|] == '=';
    SplitOnceAt(symbol, '=', value);
  }

  predicate IsPyBlank(s: string) {
    forall c :: c in s ==> IsPySpace(c)
  }

  lemma {:induction false} StripLeftBlank(blank: string, s: string)
    requires IsPyBlank(blank) && s != "" && !IsPySpace(s[0])
    ensures StripLeft(blank + s) == s
  {
    if blank == "" {
      assert blank + s == s;
    } else {
      assert blank[0] in blank && (blank + s)[1..] == blank[1..] + s;
      StripLeftBlank(blank[1..], s);
    }
  }

  lemma {:induction false} StripRightBlank(s: string, blank: string)
    requires IsPyBlank(blank) && s != "" && !IsPySpace(s[|s| - 1])
    ensures StripRight(s + blank) == s
  {
    if blank == "" {
      assert s + blank == s;
    } else {
      var n := |blank| - 1;
      assert blank[n] in blank && (s + blank)[..|s| + n] == s + blank[..n];
      StripRightBlank(s, blank[..n]);
    }
  }

  lemma StripBlanks(before: string, s: string, behind: string)
    requires IsPyBlank(before) && IsPyBlank(behind) && s != "" && !IsPySpace(s[0]) && !IsPySpace(s[|s| - 1])
    ensures Strip(before + s + behind) == s
  {
    hide IsPySpace;
    assert before + s + behind == before + (s + behind) && (s + behind)[0] == s[0];
    StripLeftBlank(before, s + behind);
    StripRightBlank(s, behind);
  }

  /** The two forms of a line, with blanks around; the value may hold further equals signs. */
  lemma SettingLineRead(before: string, name: string, value: string, behind: string)
    requires IsPyBlank(before) && IsPyBlank(behind) && '=' !in name
    requires value == "" || !IsPySpace(value[|value| - 1])
    ensures ParseConfigLine(before + ("CONFIG_" + name + "=" + value) + behind) == Some(("CONFIG_" + name, value))
  {
    hide Strip, SplitOnce, IsPyBlank;
    var line := "CONFIG_" + name + "=" + value;
    ValueLineParses("CONFIG_" + name, value);
    assert line[0] == 'C' && line[|line| - 1] == if value == "" then '=' else value[|value| - 1];
    StripNothing(line);
    StripBlanks(before, line, behind);
  }

  lemma UnsetLineRead(before: string, name: string, behind: string)
    requires IsPyBlank(before) && IsPyBlank(behind) && !Contains("CONFIG_" + name, " is not set")
    ensures ParseConfigLine(before + ("# " + ("CONFIG_" + name) + " is not set") + behind) ==
            Some(("CONFIG_" + name, "not set"))
  {
    hide Strip, SplitOnce, IsPyBlank, Before, EndsWith, Contains;
    var symbol := "CONFIG_" + name;
    var line := "# " + symbol + " is not set";
    UnsetLine(symbol);
    BeforeShownIff(symbol);
    assert line[0] == '#' && line[|line| - 1] == 't';
    StripBlanks(before, line, behind);
  }

  /** Anything else is no setting. */
  lemma OtherLineRead(line: string)
    ensures ParseConfigLine(line).None? <==>
            var s := Strip(line);
            && !("CONFIG_" <= s && '=' in s)
            && !("# CONFIG_" <= s && exists name :: s == "# " + name + " is not set")
  {
    hide Strip, SplitOnce, Before;
    var s := Strip(line);
    assert "# " + SYMBOL_START == "# CONFIG_";
    if "# CONFIG_" <= s && EndsWith(s, IS_NOT_SET) {
      assert |s| >= 13 by {
        assert s[8] == '_' && s[|s| - 11] == ' ' && s[2] == 'C';
        Overlap(s);
      }
      assert s == "# " + s[2..|s| - 11] + " is not set";
    }
    if exists name :: s == "# " + name + " is not set" {
      var name :| s == "# " + name + " is not set";
      assert s[|s| - 11..] == IS_NOT_SET;
    }
  }

  /** The two ends of such a line do not overlap. */
  lemma Overlap(s: string)
    requires "# CONFIG_" <= s && EndsWith(s, IS_NOT_SET)
    ensures |s| >= 20
  {
    var n := |s| - 11;
    assert s[n] == s[n..][0] == ' ' && s[n + 1] == s[n..][1] == 'i';
    assert s[..9] == "# CONFIG_";
    assert s[0] == s[..9][0] == '#' && s[2] == s[..9][2] == 'C' && s[3] == s[..9][3] == 'O' && s[4] == s[..9][4] == 'N';
    assert s[5] == s[..9][5] == 'F' && s[6] == s[..9][6] == 'I' && s[7] == s[..9][7] == 'G' && s[8] == s[..9][8] == '_';
  }

  lemma ShownParsesIff(put: Put)
    requires IsReadable(put)
    ensures ParseConfigLine(ShowSetting(put.0, put.1)) == Some(put) <==> ReadsBack(put)
  {
    hide ParseConfigLine, ShowSetting, Before, IsReadable, Contains;
    ShownParses(put);
    BeforeShownIff(put.0);
  }

  lemma ShownHasNoBreaks(put: Put)
    requires IsReadable(put)
    ensures NoBreaks(ShowSetting(put.0, put.1))
  {
    hide IsBreak;
    NotSetHasNoBreaks();
  }

  lemma {:induction false} HeadOfLine(line: string, rest: string)
    requires NoBreaks(line)
    ensures LineHead(line + "\n" + rest) == line
  {
    if line == "" {
      assert line + "\n" + rest == "\n" + rest;
    } else {
      assert line[0] in line;
      assert (line + "\n" + rest)[1..] == line[1..] + "\n" + rest;
      HeadOfLine(line[1..], rest);
      assert line == [line[0]] + line[1..];
    }
  }

  lemma {:induction false} SplitOfUnlines(lines: seq<string>)
    requires forall line :: line in lines ==> NoBreaks(line)
    ensures SplitLines(Unlines(lines)) == lines
  {
    hide LineHead, NoBreaks, IsBreak;
    if lines != [] {
      var rest := Unlines(lines[1..]);
      var text := lines[0] + "\n" + rest;
      assert lines[0] in lines;
      HeadOfLine(lines[0], rest);
      assert text[|lines[0]|] == '\n' && text[|lines[0]| + 1..] == rest;
      SplitOfUnlines(lines[1..]);
    }
  }

  lemma ShownLinesBreak(t: Settings)
    requires ReadableSettings(t)
    ensures forall line :: line in ShownLines(t) ==> NoBreaks(line)
  {
    hide IsReadable, ShowSetting, NoBreaks;
    forall line | line in ShownLines(t) ensures NoBreaks(line) {
      var i :| 0 <= i < |t.order| && ShownLines(t)[i] == line;
      assert t.order[i] in t.order;
      ShownHasNoBreaks((t.order[i], t.values[t.order[i]]));
    }
  }

  lemma ParsedOfRender(t: Settings)
    requires ReadableSettings(t)
    ensures Read(Render(t)) == Apply(EMPTY, Parsed(ShownLines(t)))
  {
    hide IsReadable, NoBreaks, ParseConfigLine, Apply, ShownLines;
    if t.order == [] {
      assert Parsed(ShownLines(t)) == [];
      NewlineIsEmpty();
    } else {
      ShownLinesBreak(t);
      SplitOfUnlines(ShownLines(t));
    }
  }

  lemma NewlineIsEmpty()
    ensures Parsed(SplitLines("\n")) == []
  {
    assert LineHead("\n") == "";
    assert SplitLines("\n") == [""] + SplitLines("");
    assert ParseConfigLine("").None?;
    assert Parsed([""]) == Parsed([""][..0]) == [];
  }

  /** Printed settings of which each reads back are parsed into the same list. */
  lemma {:induction false} ParsedOfShown(t: Settings, n: nat)
    requires ReadableSettings(t) && n <= |t.order|
    requires forall i :: 0 <= i < n ==> ReadsBack(Entries(t)[i])
    ensures Parsed(ShownLines(t)[..n]) == Entries(t)[..n]
  {
    hide IsReadable, ParseConfigLine, ReadsBack, ShowSetting;
    if n > 0 {
      ParsedOfShown(t, n - 1);
      EntryAt(t, n - 1);
      ShownParsesIff(Entries(t)[n - 1]);
      assert ShownLines(t)[..n][..n - 1] == ShownLines(t)[..n - 1];
      assert Entries(t)[..n] == Entries(t)[..n - 1] + [Entries(t)[n - 1]];
    }
  }

  /** A table is what its own entries make. */
  lemma {:induction false} ApplyEntries(t: Settings, n: nat)
    requires t.Valid() && n <= |t.order|
    ensures IsPart(Apply(EMPTY, Entries(t)[..n]), t, n)
  {
    hide Apply, Entries, IsPart;
    if n > 0 {
      ApplyEntries(t, n - 1);
      EntryAt(t, n - 1);
      ApplySnoc(EMPTY, Entries(t)[..n - 1], Entries(t)[n - 1]);
      assert Entries(t)[..n] == Entries(t)[..n - 1] + [Entries(t)[n - 1]];
      PartGrows(Apply(EMPTY, Entries(t)[..n - 1]), t, n - 1);
    } else {
      NoEntries(t);
    }
  }

  /** The table of the first `n` settings of `t`. */
  ghost predicate IsPart(r: Settings, t: Settings, n: nat)
    requires n <= |t.order|
  {
    && r.order == t.order[..n]
    && (forall s :: s in r.values <==> s in t.order[..n])
    && (forall s :: s in r.values ==> s in t.values && r.values[s] == t.values[s])
  }

  lemma NoEntries(t: Settings)
    requires t.Valid()
    ensures IsPart(Apply(EMPTY, Entries(t)[..0]), t, 0)
  {
  }

  lemma PartGrows(r: Settings, t: Settings, n: nat)
    requires t.Valid() && n < |t.order| && t.order[n] in t.values && IsPart(r, t, n)
    ensures IsPart(Set(r, (t.order[n], t.values[t.order[n]])), t, n + 1)
  {
    assert t.order[..n + 1] == t.order[..n] + [t.order[n]];
    assert t.order[n] !in t.order[..n];
  }

  lemma EntriesMakeTable(t: Settings)
    requires t.Valid()
    ensures Apply(EMPTY, Entries(t)) == t
  {
    hide Apply, Entries, IsPart;
    ApplyEntries(t, |t.order|);
    assert Entries(t)[..|t.order|] == Entries(t);
    WholePart(Apply(EMPTY, Entries(t)), t);
  }

  lemma WholePart(r: Settings, t: Settings)
    requires t.Valid() && IsPart(r, t, |t.order|)
    ensures r == t
  {
    assert t.order[..|t.order|] == t.order;
    assert r.values == t.values;
  }

  lemma {:induction false} SymbolsComeFromPuts(puts: seq<Put>, symbol: string)
    ensures symbol in Apply(EMPTY, puts).values <==> exists put :: put in puts && put.0 == symbol
  {
    if puts != [] {
      var n := |puts| - 1;
      SymbolsComeFromPuts(puts[..n], symbol);
      assert forall put :: put in puts <==> put in puts[..n] || put == puts[n];
    }
  }

  lemma {:induction false} PutsComeFromLines(lines: seq<string>, put: Put)
    requires put in Parsed(lines)
    ensures exists line :: line in lines && ParseConfigLine(line) == Some(put)
  {
    hide ParseConfigLine;
    var n := |lines| - 1;
    if ParseConfigLine(lines[n]) != Some(put) {
      PutsComeFromLines(lines[..n], put);
    }
  }

  /** An unset symbol that holds the words is in no text that the printer makes of this table. */
  lemma BadSymbolIsLost(t: Settings, symbol: string)
    requires ReadableSettings(t) && symbol in t.values && !ReadsBack((symbol, t.values[symbol]))
    ensures symbol !in Read(Render(t)).values
  {
    hide IsReadable, ParseConfigLine, ShowSetting, Before, Contains, Apply, Read, Render;
    ParsedOfRender(t);
    SymbolsComeFromPuts(Parsed(ShownLines(t)), symbol);
    forall put | put in Parsed(ShownLines(t)) ensures put.0 != symbol {
      PutsComeFromLines(ShownLines(t), put);
      var line :| line in ShownLines(t) && ParseConfigLine(line) == Some(put);
      var i :| 0 <= i < |t.order| && ShownLines(t)[i] == line;
      EntryAt(t, i);
      ShownParses(Entries(t)[i]);
      BeforeShownIff(t.order[i]);
    }
  }

  /** Reading what was rendered gives the values and their order back, exactly if each setting reads back. */
  lemma ReadAfterRenderIff(t: Settings)
    requires ReadableSettings(t)
    ensures Read(Render(t)) == t <==> forall s :: s in t.values ==> ReadsBack((s, t.values[s]))
  {
    hide IsReadable, ReadsBack, Read, Render;
    if forall s :: s in t.values ==> ReadsBack((s, t.values[s])) {
      forall i | 0 <= i < |t.order| ensures ReadsBack(Entries(t)[i]) {
        EntryAt(t, i);
      }
      ParsedOfRender(t);
      ParsedOfShown(t, |t.order|);
      assert ShownLines(t)[..|t.order|] == ShownLines(t) && Entries(t)[..|t.order|] == Entries(t);
      EntriesMakeTable(t);
    } else {
      var s :| s in t.values && !ReadsBack((s, t.values[s]));
      BadSymbolIsLost(t, s);
    }
  }

  /** A symbol of letters, digits and underscores reads back whatever its value. */
  lemma IdentifiersReadBack(put: Put)
    requires ' ' !in put.0
    ensures ReadsBack(put)
  {
    hide IsReadable;
    assert IS_NOT_SET[0] == ' ';
    forall i | 0 <= i <= |put.0| ensures !OccursAt(put.0, IS_NOT_SET, i) {
      assert 0 <= i <= |put.0| - 11 ==> put.0[i..i + 11][0] == put.0[i] && put.0[i] in put.0;
    }
  }
}
