/**
 Merging the same fragments into the output of a merge: whether the text stays as it is. The output is
 read in between, which loses the settings that do not read back.
 */
module ConfigRemerge {
  import opened ConfigMerge
  import opened Sequences
  import opened Text
  import opened TextLines
  import opened Wrappers

  // ---- Different tables are printed differently ----

  lemma ShowSettingInjective(p: Put, q: Put)
    requires IsReadable(p) && IsReadable(q)
    ensures ShowSetting(p.0, p.1) == ShowSetting(q.0, q.1) <==> p == q
  {
    hide IsBreak;
    var a, b := ShowSetting(p.0, p.1), ShowSetting(q.0, q.1);
    assert p.0[0] == 'C' && q.0[0] == 'C';
    if p.1 == NOT_SET && q.1 == NOT_SET {
      assert a[2..|a| - 11] == p.0 && b[2..|b| - 11] == q.0;
    } else if p.1 != NOT_SET && q.1 != NOT_SET {
      SplitOnceAt(p.0, '=', p.1);
      SplitOnceAt(q.0, '=', q.1);
      assert a == p.0 + ['='] + p.1 && b == q.0 + ['='] + q.1;
    } else {
      assert a[0] != b[0];
    }
  }

  lemma ShownIsLine(put: Put)
    requires IsReadable(put)
    ensures '\n' !in ShowSetting(put.0, put.1) && ShowSetting(put.0, put.1) != ""
  {
    ShownHasNoBreaks(put);
  }

  lemma ShownAt(t: Settings, i: nat)
    requires ReadableSettings(t) && i < |t.order|
    ensures t.order[i] in t.values && IsReadable((t.order[i], t.values[t.order[i]]))
    ensures ShownLines(t)[i] == ShowSetting(t.order[i], t.values[t.order[i]])
    ensures '\n' !in ShownLines(t)[i] && ShownLines(t)[i] != ""
  {
    hide IsReadable, ShowSetting;
    assert t.order[i] in t.order;
    ShownIsLine((t.order[i], t.values[t.order[i]]));
  }

  lemma ShownLinesInjective(t: Settings, u: Settings)
    requires ReadableSettings(t) && ReadableSettings(u) && ShownLines(t) == ShownLines(u)
    ensures t == u
  {
    hide IsReadable, ShowSetting, ShownLines;
    forall i | 0 <= i < |t.order|
      ensures t.order[i] == u.order[i] && t.order[i] in t.values && u.order[i] in u.values
      ensures t.values[t.order[i]] == u.values[u.order[i]]
    {
      ShownAt(t, i);
      ShownAt(u, i);
      ShowSettingInjective((t.order[i], t.values[t.order[i]]), (u.order[i], u.values[u.order[i]]));
    }
    assert |ShownLines(t)| == |t.order| && |ShownLines(u)| == |u.order|;
    assert t.order == u.order;
    assert t.values == u.values;
  }

  lemma RenderInjective(t: Settings, u: Settings)
    requires ReadableSettings(t) && ReadableSettings(u)
    ensures Render(t) == Render(u) <==> t == u
  {
    hide IsReadable, ShowSetting, ShownLines;
    if Render(t) == Render(u) {
      forall i | 0 <= i < |t.order| ensures '\n' !in ShownLines(t)[i] && ShownLines(t)[i] != "" {
        ShownAt(t, i);
      }
      forall i | 0 <= i < |u.order| ensures '\n' !in ShownLines(u)[i] && ShownLines(u)[i] != "" {
        ShownAt(u, i);
      }
      assert Unlines([""]) == "\n" by {
        assert [""][1..] == [];
      }
      UnlinesInjective(if t.order == [] then [""] else ShownLines(t), if u.order == [] then [""] else ShownLines(u));
      if t.order != [] && u.order != [] {
        ShownLinesInjective(t, u);
      } else {
        BothEmpty(t, u);
      }
    }
  }

  lemma BothEmpty(t: Settings, u: Settings)
    requires t.Valid() && u.Valid() && t.order == [] && u.order == []
    ensures t == u
  {
    assert t.values == u.values;
  }

  // ---- Applying settings in two parts ----

  lemma {:induction false} ApplyConcat(t: Settings, a: seq<Put>, b: seq<Put>)
    ensures Apply(t, a + b) == Apply(Apply(t, a), b)
  {
    if b == [] {
      assert a + b == a;
    } else {
      var n := |b| - 1;
      assert (a + b)[..|a + b| - 1] == a + b[..n];
      ApplyConcat(t, a, b[..n]);
    }
  }

  /** New symbols come behind the old ones, in the order in which the settings mention them. */
  lemma {:induction false} ApplyOrder(t: Settings, puts: seq<Put>)
    requires t.Valid()
    ensures Apply(t, puts).order == t.order + Filter(Apply(EMPTY, puts).order, s => s !in t.values)
  {
    if puts != [] {
      hide Apply, Filter, Set, LastValue;
      var init, last := puts[..|puts| - 1], puts[|puts| - 1];
      assert puts == init + [last];
      ApplyOrder(t, init);
      ApplySnoc(t, init, last);
      ApplySnoc(EMPTY, init, last);
      LastWins(t, init, last.0);
      LastWins(EMPTY, init, last.0);
      SetOrder(t, Apply(t, init), Apply(EMPTY, init), last);
    } else {
      assert Apply(EMPTY, []).order == [];
    }
  }

  lemma SetOrder(t: Settings, now: Settings, mentioned: Settings, put: Put)
    requires now.order == t.order + Filter(mentioned.order, s => s !in t.values)
    requires put.0 in now.values <==> put.0 in t.values || put.0 in mentioned.values
    ensures Set(now, put).order == t.order + Filter(Set(mentioned, put).order, s => s !in t.values)
  {
    hide Filter;
    FilterConcat(mentioned.order, [put.0], s => s !in t.values);
    FilterOne(put.0, s => s !in t.values);
  }

  lemma FilterOne(x: string, p: string -> bool)
    ensures Filter([x], p) == if p(x) then [x] else []
  {
  }

  // ---- What reading the printed table loses ----

  /** A setting that does not read back. */
  predicate Lost(t: Settings, symbol: string) {
    symbol in t.values && !ReadsBack((symbol, t.values[symbol]))
  }

  /** The symbol that is read instead: the name up to the words. */
  function Cut(symbol: string): string {
    Before(symbol + IS_NOT_SET, IS_NOT_SET)
  }

  /** The first `n` settings read back, and the others do not. */
  ghost predicate LostAreLast(t: Settings, n: nat) {
    && n <= |t.order|
    && (forall i :: 0 <= i < n ==> !Lost(t, t.order[i]))
    && (forall i :: n <= i < |t.order| ==> Lost(t, t.order[i]))
  }

  /** Some lost symbol is read as this one. */
  ghost predicate IsCut(t: Settings, symbol: string) {
    exists s :: s in t.values && Lost(t, s) && Cut(s) == symbol
  }

  lemma LostIsUnset(t: Settings, symbol: string)
    requires Lost(t, symbol)
    ensures t.values[symbol] == NOT_SET && !Lost(t, Cut(symbol)) && IsCut(t, Cut(symbol))
  {
    hide Contains, Before;
    BeforeShownIff(symbol);
  }

  /** The settings that the lost ones are read as. */
  function Cuts(t: Settings, n: nat): seq<Put>
    requires n <= |t.order|
  {
    seq(|t.order| - n, j requires 0 <= j < |t.order| - n => (Cut(t.order[n + j]), NOT_SET))
  }

  lemma {:induction false} ParsedWithCuts(t: Settings, n: nat, m: nat)
    requires ReadableSettings(t) && LostAreLast(t, n) && n <= m <= |t.order|
    ensures Parsed(ShownLines(t)[..m]) == Entries(t)[..n] + Cuts(t, n)[..m - n]
  {
    hide IsReadable, ParseConfigLine, ShowSetting, ReadsBack, Cut, ShownLines, Entries;
    if m > n {
      ParsedWithCuts(t, n, m - 1);
      ParsedSnoc(ShownLines(t), m - 1);
      ShownAt(t, m - 1);
      LostParses(t, t.order[m - 1]);
      assert Cuts(t, n)[..m - n] == Cuts(t, n)[..m - 1 - n] + [(Cut(t.order[m - 1]), NOT_SET)];
    } else {
      forall i | 0 <= i < n ensures ReadsBack(Entries(t)[i]) {
        EntryAt(t, i);
      }
      ParsedOfShown(t, n);
      assert Cuts(t, n)[..0] == [];
    }
  }

  lemma LostParses(t: Settings, symbol: string)
    requires ReadableSettings(t) && Lost(t, symbol)
    ensures ParseConfigLine(ShowSetting(symbol, t.values[symbol])) == Some((Cut(symbol), NOT_SET))
  {
    hide IsReadable, ParseConfigLine, ShowSetting, Before, Contains;
    ShownParses((symbol, t.values[symbol]));
  }

  lemma AllCuts(t: Settings, n: nat)
    requires n <= |t.order|
    ensures Cuts(t, n)[..|t.order| - n] == Cuts(t, n)
  {
  }

  /** What is read: the settings before the lost ones, and then what these are cut to. */
  lemma ReadInParts(t: Settings, n: nat)
    requires ReadableSettings(t) && LostAreLast(t, n)
    ensures IsPart(Apply(EMPTY, Entries(t)[..n]), t, n)
    ensures Read(Render(t)) == Apply(Apply(EMPTY, Entries(t)[..n]), Cuts(t, n))
  {
    hide IsReadable, Read, Render, Parsed, Apply, Cuts, Entries, IsPart, Lost;
    ParsedOfRender(t);
    ParsedWithCuts(t, n, |t.order|);
    assert ShownLines(t)[..|t.order|] == ShownLines(t);
    AllCuts(t, n);
    ApplyEntries(t, n);
    ApplyConcat(EMPTY, Entries(t)[..n], Cuts(t, n));
  }

  lemma CutIsLast(t: Settings, n: nat, symbol: string)
    requires t.Valid() && LostAreLast(t, n) && IsCut(t, symbol)
    ensures LastValue(Cuts(t, n), symbol).Some?
  {
    hide Cut, Lost, LastValue;
    var s :| s in t.values && Lost(t, s) && Cut(s) == symbol;
    assert s in t.order;
    var i :| 0 <= i < |t.order| && t.order[i] == s;
    assert Cuts(t, n)[i - n] == (symbol, NOT_SET);
    MentionedHasLast(Cuts(t, n), (symbol, NOT_SET));
  }

  lemma CutsAreUnset(t: Settings, n: nat, symbol: string)
    requires t.Valid() && LostAreLast(t, n)
    ensures LastValue(Cuts(t, n), symbol) == if IsCut(t, symbol) then Some(NOT_SET) else None
  {
    hide Cut, LastValue, ReadsBack;
    var cuts := Cuts(t, n);
    if LastValue(cuts, symbol).Some? {
      LastIsPut(cuts, symbol);
      var j :| 0 <= j < |cuts| && cuts[j] == (symbol, LastValue(cuts, symbol).value);
      assert Lost(t, t.order[n + j]);
    } else if IsCut(t, symbol) {
      CutIsLast(t, n, symbol);
    }
  }

  /** The value of every symbol of the table that is read. */
  lemma ReadValue(t: Settings, n: nat, symbol: string)
    requires ReadableSettings(t) && LostAreLast(t, n)
    ensures var r := Read(Render(t));
            && (symbol in r.values <==> symbol in t.order[..n] || IsCut(t, symbol))
            && (symbol in r.values ==>
                  if IsCut(t, symbol) then r.values[symbol] == NOT_SET
                  else symbol in t.values && r.values[symbol] == t.values[symbol])
  {
    hide IsReadable, Read, Render, Apply, Cuts, Entries, LastValue, IsCut, Lost;
    var part := Apply(EMPTY, Entries(t)[..n]);
    ReadInParts(t, n);
    LastWins(part, Cuts(t, n), symbol);
    CutsAreUnset(t, n, symbol);
  }

  /** If every cut is a symbol that is read anyway, the order is that of the settings before the lost ones. */
  lemma ReadOrder(t: Settings, n: nat)
    requires ReadableSettings(t) && LostAreLast(t, n)
    requires forall s :: s in t.values && Lost(t, s) ==> Cut(s) in t.order[..n]
    ensures Read(Render(t)).order == t.order[..n]
  {
    hide IsReadable, Read, Render, Apply, Entries, Cut, ReadsBack;
    var part := Apply(EMPTY, Entries(t)[..n]);
    ReadInParts(t, n);
    forall put | put in Cuts(t, n) ensures put.0 in part.values {
      var j :| 0 <= j < |Cuts(t, n)| && Cuts(t, n)[j] == put;
      assert Lost(t, t.order[n + j]);
    }
    OrderKept(part, Cuts(t, n));
  }

  lemma {:induction false} LineGivesPut(lines: seq<string>, i: nat)
    requires i < |lines| && ParseConfigLine(lines[i]).Some?
    ensures ParseConfigLine(lines[i]).value in Parsed(lines)
  {
    hide ParseConfigLine;
    var n := |lines| - 1;
    if i < n {
      LineGivesPut(lines[..n], i);
    }
  }

  /** A symbol of the table is read exactly if its setting reads back. */
  lemma ReadIffNotLost(t: Settings, symbol: string)
    requires ReadableSettings(t) && symbol in t.values
    ensures symbol in Read(Render(t)).values <==> !Lost(t, symbol)
  {
    hide IsReadable, Read, Render, Parsed, Apply, ReadsBack, ParseConfigLine, ShowSetting;
    if Lost(t, symbol) {
      BadSymbolIsLost(t, symbol);
    } else {
      var i :| 0 <= i < |t.order| && t.order[i] == symbol;
      ShownAt(t, i);
      ShownParsesIff((symbol, t.values[symbol]));
      LineGivesPut(ShownLines(t), i);
      ParsedOfRender(t);
      SymbolsComeFromPuts(Parsed(ShownLines(t)), symbol);
    }
  }

  // ---- The text after a second merge ----

  /**
   The settings that do not read back come last, as the fragments mention them; what is read in their
   place is a symbol that is unset anyway or that the fragments set.
   */
  ghost predicate SurvivesReading(t: Settings, fragments: Settings) {
    && t.order == Filter(t.order, s => !Lost(t, s)) + Filter(fragments.order, s => Lost(t, s))
    && forall s :: s in t.values && Lost(t, s) ==>
         Cut(s) in t.values && (t.values[Cut(s)] == NOT_SET || Cut(s) in fragments.values)
  }

  lemma SurvivorsComeFirst(t: Settings, fragments: Settings)
    requires t.Valid() && SurvivesReading(t, fragments)
    ensures LostAreLast(t, |Filter(t.order, s => !Lost(t, s))|)
    ensures t.order[..|Filter(t.order, s => !Lost(t, s))|] == Filter(t.order, s => !Lost(t, s))
  {
    hide Filter, Lost;
    var kept, lost := Filter(t.order, s => !Lost(t, s)), Filter(fragments.order, s => Lost(t, s));
    var n := |kept|;
    forall i | 0 <= i < n ensures !Lost(t, t.order[i]) {
      assert t.order[i] == kept[i] && kept[i] in kept;
    }
    forall i | n <= i < |t.order| ensures Lost(t, t.order[i]) {
      assert t.order[i] == lost[i - n] && lost[i - n] in lost;
    }
  }

  lemma KeptAreFirst(t: Settings, n: nat)
    requires t.Valid() && LostAreLast(t, n)
    ensures Filter(t.order, s => !Lost(t, s)) == t.order[..n]
    ensures forall s :: s in t.values ==> (s in t.order[..n] <==> !Lost(t, s))
  {
    hide Filter, Lost;
    var kept := s => !Lost(t, s);
    FilterConcat(t.order[..n], t.order[n..], kept);
    FilterAll(t.order[..n], kept);
    FilterNone(t.order[n..], kept);
    assert t.order == t.order[..n] + t.order[n..];
  }

  lemma MentionedIsThere(t: Settings, puts: seq<Put>, symbol: string)
    requires Apply(t, puts) == t
    ensures symbol in Apply(EMPTY, puts).values <==> LastValue(puts, symbol).Some?
    ensures symbol in Apply(EMPTY, puts).values ==>
              symbol in t.values && t.values[symbol] == LastValue(puts, symbol).value
  {
    hide Apply, LastValue;
    LastWins(EMPTY, puts, symbol);
    LastWins(t, puts, symbol);
  }

  /** The symbols that the second merge adds are the lost ones. */
  lemma AddedAreLost(t: Settings, puts: seq<Put>)
    requires ReadableSettings(t) && Apply(t, puts) == t
    ensures Apply(Read(Render(t)), puts).order ==
            Read(Render(t)).order + Filter(Apply(EMPTY, puts).order, s => Lost(t, s))
  {
    hide IsReadable, Read, Render, Apply, Filter, Lost;
    var r, mentioned := Read(Render(t)), Apply(EMPTY, puts).order;
    ReadIsValid(Render(t));
    ApplyOrder(r, puts);
    EmptyIsValid();
    ApplyIsValid(EMPTY, puts);
    forall s | s in mentioned ensures s !in r.values <==> Lost(t, s) {
      MentionedIsThere(t, puts, s);
      ReadIffNotLost(t, s);
    }
    FilterSame(mentioned, s => s !in r.values, s => Lost(t, s));
  }

  lemma EmptyIsValid()
    ensures EMPTY.Valid()
  {
  }

  lemma SurvivesIsEnough(t: Settings, puts: seq<Put>)
    requires ReadableSettings(t) && Apply(t, puts) == t && SurvivesReading(t, Apply(EMPTY, puts))
    ensures Apply(Read(Render(t)), puts) == t
  {
    hide IsReadable, Read, Render, Apply, Filter, Lost, LostAreLast, SurvivesReading;
    var again := Apply(Read(Render(t)), puts);
    var n := |Filter(t.order, s => !Lost(t, s))|;
    SurvivorsComeFirst(t, Apply(EMPTY, puts));
    SameOrder(t, puts, n);
    forall s ensures (s in again.values <==> s in t.values) && (s in t.values ==> again.values[s] == t.values[s]) {
      SameValue(t, puts, n, s);
    }
    assert again.values == t.values;
  }

  lemma SameOrder(t: Settings, puts: seq<Put>, n: nat)
    requires ReadableSettings(t) && Apply(t, puts) == t && SurvivesReading(t, Apply(EMPTY, puts)) && LostAreLast(t, n)
    ensures Apply(Read(Render(t)), puts).order == t.order
  {
    hide IsReadable, Read, Render, Apply, Filter, Lost, Cut, LostAreLast;
    LostBound(t, n);
    KeptAreFirst(t, n);
    forall s | s in t.values && Lost(t, s) ensures Cut(s) in t.order[..n] {
      LostIsUnset(t, s);
    }
    ReadOrder(t, n);
    AddedAreLost(t, puts);
  }

  lemma SameValue(t: Settings, puts: seq<Put>, n: nat, symbol: string)
    requires ReadableSettings(t) && Apply(t, puts) == t && SurvivesReading(t, Apply(EMPTY, puts)) && LostAreLast(t, n)
    ensures var again := Apply(Read(Render(t)), puts);
            (symbol in again.values <==> symbol in t.values) &&
            (symbol in t.values ==> again.values[symbol] == t.values[symbol])
  {
    hide IsReadable, Read, Render, Apply, Filter, Lost, Cut;
    LastWins(Read(Render(t)), puts, symbol);
    MentionedIsThere(t, puts, symbol);
    ReadValue(t, n, symbol);
    if symbol in t.values {
      ReadIffNotLost(t, symbol);
      LostIsMentioned(t, puts, symbol);
    }
  }

  lemma LostIsMentioned(t: Settings, puts: seq<Put>, symbol: string)
    requires t.Valid() && SurvivesReading(t, Apply(EMPTY, puts)) && symbol in t.values
    ensures Lost(t, symbol) ==> symbol in Apply(EMPTY, puts).values
  {
    hide Apply, Filter, Lost;
    EmptyIsValid();
    ApplyIsValid(EMPTY, puts);
    assert symbol in t.order;
  }

  lemma ReadIsFirst(t: Settings, puts: seq<Put>)
    requires ReadableSettings(t) && Apply(Read(Render(t)), puts) == t
    ensures LostAreLast(t, |Read(Render(t)).order|) && Read(Render(t)).order <= t.order
  {
    hide IsReadable, Read, Render, Apply, Lost;
    var r := Read(Render(t));
    var n := |r.order|;
    ReadIsValid(Render(t));
    LastWins(r, puts, "");
    forall i | 0 <= i < |t.order| ensures i < n <==> !Lost(t, t.order[i]) {
      assert t.order[i] in t.order;
      ReadIffNotLost(t, t.order[i]);
      if i < n {
        assert t.order[i] == r.order[i];
      } else {
        forall j | 0 <= j < n ensures r.order[j] != t.order[i] {
          assert t.order[j] == r.order[j];
        }
      }
    }
  }

  lemma CutIsUnset(t: Settings, puts: seq<Put>, n: nat, symbol: string)
    requires ReadableSettings(t) && Apply(t, puts) == t && Apply(Read(Render(t)), puts) == t
    requires LostAreLast(t, n) && Lost(t, symbol)
    ensures Cut(symbol) in t.values
    ensures t.values[Cut(symbol)] == NOT_SET || Cut(symbol) in Apply(EMPTY, puts).values
  {
    hide IsReadable, Read, Render, Apply, Lost, Cut, IsCut, LostAreLast;
    LostIsUnset(t, symbol);
    ReadValue(t, n, Cut(symbol));
    LastWins(Read(Render(t)), puts, Cut(symbol));
    MentionedIsThere(t, puts, Cut(symbol));
  }

  lemma SurvivesIsNeeded(t: Settings, puts: seq<Put>)
    requires ReadableSettings(t) && Apply(t, puts) == t && Apply(Read(Render(t)), puts) == t
    ensures SurvivesReading(t, Apply(EMPTY, puts))
  {
    hide IsReadable, Read, Render, Apply, Filter, Lost, Cut, LostAreLast;
    var n := |Read(Render(t)).order|;
    ReadIsFirst(t, puts);
    LostBound(t, n);
    KeptAreFirst(t, n);
    AddedAreLost(t, puts);
    forall s | s in t.values && Lost(t, s)
      ensures Cut(s) in t.values && (t.values[Cut(s)] == NOT_SET || Cut(s) in Apply(EMPTY, puts).values)
    {
      CutIsUnset(t, puts, n, s);
    }
  }

  lemma LostBound(t: Settings, n: nat)
    requires LostAreLast(t, n)
    ensures n <= |t.order|
  {
  }

  /** Merging the same fragments into the output leaves its text as it is, exactly if the table survives the reading. */
  lemma RemergeLeavesText(base: string, fragments: seq<string>)
    ensures var t := Merged(base, fragments);
            && t.Valid() && Merged(Render(t), fragments).Valid()
            && (Render(Merged(Render(t), fragments)) == Render(t) <==> SurvivesReading(t, Merged("", fragments)))
  {
    hide IsReadable, Read, Render, Apply, SurvivesReading;
    var t, puts := Merged(base, fragments), FragmentPuts(fragments);
    MergedIsReadable(base, fragments);
    MergedIsReadable(Render(t), fragments);
    RenderInjective(Merged(Render(t), fragments), t);
    ApplyTwice(Read(base), puts);
    NothingRead();
    if SurvivesReading(t, Apply(EMPTY, puts)) {
      SurvivesIsEnough(t, puts);
    } else if Merged(Render(t), fragments) == t {
      SurvivesIsNeeded(t, puts);
    }
  }

  /** In particular if every setting reads back. */
  lemma ReadableRemerge(base: string, fragments: seq<string>)
    requires var t := Merged(base, fragments); forall s :: s in t.values ==> ReadsBack((s, t.values[s]))
    ensures Merged(base, fragments).Valid() && Merged(Render(Merged(base, fragments)), fragments).Valid()
    ensures var text := Render(Merged(base, fragments)); Render(Merged(text, fragments)) == text
  {
    hide ReadsBack, Read, Render, Apply, Merged;
    var t := Merged(base, fragments);
    RemergeLeavesText(base, fragments);
    FilterAll(t.order, s => !Lost(t, s));
    FilterNone(Merged("", fragments).order, s => Lost(t, s));
  }

  // ---- Texts that stay although a setting is lost in between ----

  /** A symbol as the kernel has them. */
  predicate IsSymbol(a: string) {
    SYMBOL_START <= a && ' ' !in a && '=' !in a && NoBreaks(a)
  }

  /** Another one, whose name holds the words. */
  function Longer(a: string): string {
    a + IS_NOT_SET
  }

  /** A fragment that sets both; its second line gives the unset value in so many words. */
  function Restoring(a: string): string {
    Unlines([a + "=" + "1", Longer(a) + "=" + NOT_SET])
  }

  function Both(a: string): Settings {
    Settings(map[a := "1", Longer(a) := NOT_SET], [a, Longer(a)])
  }

  lemma CutAtFirstWords(a: string)
    requires IsSymbol(a)
    ensures Before(Longer(a) + IS_NOT_SET, IS_NOT_SET) == a && Contains(Longer(a), IS_NOT_SET)
  {
    hide Before;
    var text, n := Longer(a) + IS_NOT_SET, |a|;
    assert text[n..n + 11] == IS_NOT_SET && Longer(a)[n..n + 11] == IS_NOT_SET;
    assert OccursAt(text, IS_NOT_SET, n) && OccursAt(Longer(a), IS_NOT_SET, n);
    assert IS_NOT_SET[0] == ' ';
    BeforeKeeps(text, a, IS_NOT_SET);
    BeforeIsFirst(text, IS_NOT_SET);
  }

  lemma BothReadable(a: string)
    requires IsSymbol(a)
    ensures IsReadable((a, "1")) && IsReadable((Longer(a), NOT_SET)) && IsReadable((a, NOT_SET))
  {
    hide IsBreak;
    NotSetHasNoBreaks();
    assert NoBreaks("1") by {
      OneHasNoBreaks();
    }
  }

  lemma OneHasNoBreaks()
    ensures NoBreaks("1")
  {
  }

  lemma ValueLineHasNoBreaks(symbol: string, value: string)
    requires NoBreaks(symbol) && NoBreaks(value)
    ensures NoBreaks(symbol + "=" + value)
  {
    hide IsBreak;
    NotSetHasNoBreaks();
  }

  lemma LongerIsSymbol(a: string)
    requires IsSymbol(a)
    ensures SYMBOL_START <= Longer(a) && '=' !in Longer(a) && NoBreaks(Longer(a)) && Longer(a) != a
  {
    hide IsBreak;
    NotSetHasNoBreaks();
  }

  lemma RestoringReads(a: string)
    requires IsSymbol(a)
    ensures Read(Restoring(a)) == Both(a)
  {
    hide ParseConfigLine, SplitLines, Unlines, NoBreaks, Apply;
    var first, second := a + "=" + "1", Longer(a) + "=" + NOT_SET;
    NotSetHasNoBreaks();
    OneHasNoBreaks();
    LongerIsSymbol(a);
    ValueLineParses(a, "1");
    ValueLineHasNoBreaks(a, "1");
    ValueLineParses(Longer(a), NOT_SET);
    ValueLineHasNoBreaks(Longer(a), NOT_SET);
    SplitOfUnlines([first, second]);
    TwoParsed(first, second, (a, "1"), (Longer(a), NOT_SET));
    TwoApplied(EMPTY, (a, "1"), (Longer(a), NOT_SET));
  }

  lemma OneParsed(line: string, put: Put)
    requires ParseConfigLine(line) == Some(put)
    ensures Apply(EMPTY, Parsed([line])) == Settings(map[put.0 := put.1], [put.0])
  {
    hide ParseConfigLine;
    assert [line][..0] == [] && [put][..0] == [];
    assert Parsed([line]) == [] + [put];
    assert Apply(EMPTY, [put]) == Set(EMPTY, put);
  }

  lemma TwoParsed(first: string, second: string, p: Put, q: Put)
    requires ParseConfigLine(first) == Some(p) && ParseConfigLine(second) == Some(q)
    ensures Parsed([first, second]) == [p, q]
  {
    hide ParseConfigLine;
    assert [first, second][..1] == [first] && [first][..0] == [];
    assert Parsed([first]) == [] + [p];
  }

  lemma TwoApplied(t: Settings, p: Put, q: Put)
    ensures Apply(t, [p, q]) == Set(Set(t, p), q)
  {
    assert [p, q][..1] == [p] && [p][..0] == [];
    assert Apply(t, [p]) == Set(t, p);
  }

  /** Printed and read, the second symbol is lost and the first is unset. */
  lemma BothReadBack(a: string)
    requires IsSymbol(a)
    ensures ReadableSettings(Both(a)) && Read(Render(Both(a))) == Settings(map[a := NOT_SET], [a])
  {
    hide Before, Contains, IsReadable, Read, Render, ParseConfigLine, ShowSetting, Apply, IsSymbol;
    var b, t := Longer(a), Both(a);
    CutAtFirstWords(a);
    BothReadable(a);
    LongerIsSymbol(a);
    assert ReadableSettings(t);
    ParsedOfRender(t);
    ShownParses((a, "1"));
    ShownParses((b, NOT_SET));
    assert ShownLines(t) == [ShowSetting(a, "1"), ShowSetting(b, NOT_SET)];
    TwoParsed(ShowSetting(a, "1"), ShowSetting(b, NOT_SET), (a, "1"), (a, NOT_SET));
    TwoApplied(EMPTY, (a, "1"), (a, NOT_SET));
  }

  /** Merging that fragment into nothing and again into the result gives one text, though a setting is lost between. */
  lemma RestoredWithoutReadingBack(a: string)
    requires IsSymbol(a)
    ensures Merged("", [Restoring(a)]) == Both(a) && !ReadsBack((Longer(a), NOT_SET))
    ensures Both(a).Valid() && Merged(Render(Both(a)), [Restoring(a)]) == Both(a)
  {
    hide Before, Contains, IsReadable, Read, Render, Apply, Restoring, IsSymbol;
    var b := Longer(a);
    CutAtFirstWords(a);
    LongerIsSymbol(a);
    RestoringReads(a);
    BothReadBack(a);
    assert Entries(Both(a)) == [(a, "1"), (b, NOT_SET)];
    OneFragment(Restoring(a));
    NothingRead();
    TwoApplied(EMPTY, (a, "1"), (b, NOT_SET));
    TwoApplied(Settings(map[a := NOT_SET], [a]), (a, "1"), (b, NOT_SET));
  }

  /** Without a fragment the symbol is lost for good, and another one is written in its place. */
  lemma RemergeChangesText(a: string)
    requires IsSymbol(a)
    ensures var base := Unlines([Longer(a) + "=" + NOT_SET]);
            var t := Merged(base, []);
            && t.Valid() && Merged(Render(t), []).Valid() && Longer(a) in t.values && a !in t.values
            && Render(Merged(Render(t), [])) != Render(t)
  {
    hide Read, Render, Contains, Before, Filter, IsSymbol;
    var base, b := Unlines([Longer(a) + "=" + NOT_SET]), Longer(a);
    LongerReads(a);
    CutAtFirstWords(a);
    assert b != a;
    RemergeLeavesText(base, []);
    assert Merged(base, []) == Read(base) && Lost(Read(base), b) && Cut(b) == a;
  }

  lemma LongerReads(a: string)
    requires IsSymbol(a)
    ensures Read(Unlines([Longer(a) + "=" + NOT_SET])) == Settings(map[Longer(a) := NOT_SET], [Longer(a)])
  {
    hide ParseConfigLine, SplitLines, Unlines, NoBreaks, IsSymbol;
    var line := Longer(a) + "=" + NOT_SET;
    NotSetHasNoBreaks();
    LongerIsSymbol(a);
    ValueLineParses(Longer(a), NOT_SET);
    ValueLineHasNoBreaks(Longer(a), NOT_SET);
    SplitOfUnlines([line]);
    OneParsed(line, (Longer(a), NOT_SET));
  }

  lemma OneFragment(text: string)
    ensures Read(text).Valid() && FragmentPuts([text]) == Entries(Read(text))
  {
    hide Read;
    ReadIsValid(text);
    assert [text][..0] == [];
    assert FragmentPuts([]) == [];
  }

  lemma NothingRead()
    ensures Read("") == EMPTY
  {
  }
}
