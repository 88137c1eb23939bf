/** When what is dumped can be loaded back (framework/unix_config.cpp). */
module ConfigRoundTrips {

  import opened ConfigText

  // ------------------------------------------------------------ round trips

  ghost predicate Clean(m: Bindings) {
    forall k :: k in m ==> Word(k) && Word(m[k])
  }

  ghost predicate Fitting(m: Bindings) {
    forall k :: k in m ==> Fits(Entry(k, m[k]))
  }

  /** Loading gives words only, and keeps what fits a line fitting. */
  lemma {:induction false} LoadKeepsClean(m: Bindings, text: string)
    requires Clean(m)
    ensures Clean(LoadText(m, text))
    decreases |text|
  {
    if text != "" {
      var n := LineEnd(text);
      LoadLineKeepsClean(m, text[..n]);
      LoadKeepsClean(LoadLine(m, text[..n]), text[n..]);
    }
  }

  lemma LoadLineKeepsClean(m: Bindings, line: string)
    requires Clean(m)
    ensures Clean(LoadLine(m, line))
  {
    hide Word;
    var parsed := ParseLine(line);
    if parsed.Some? {
      var _, _, _, _ := ParsedForm(line, parsed.value);
    }
  }

  lemma {:induction false} LoadKeepsFitting(m: Bindings, text: string)
    requires Fitting(m) && LinesUpTo(text, MAX_LINE_SIZE - 2)
    ensures Fitting(LoadText(m, text))
    decreases |text|
  {
    if text != "" {
      var n := LineEnd(text);
      LoadLineKeepsFitting(m, text[..n]);
      LoadKeepsFitting(LoadLine(m, text[..n]), text[n..]);
    }
  }

  lemma LoadLineKeepsFitting(m: Bindings, line: string)
    requires Fitting(m) && line != ""
    requires (if line[|line| - 1] == '\n' then |line| - 1 else |line|) <= MAX_LINE_SIZE - 2
    ensures Fitting(LoadLine(m, line))
  {
    var parsed := ParseLine(line);
    if parsed.Some? {
      EntryFits(line, parsed.value);
    }
  }

  lemma EntryFits(line: string, e: Entry)
    requires ParseLine(line) == Some(e) && line != ""
    requires (if line[|line| - 1] == '\n' then |line| - 1 else |line|) <= MAX_LINE_SIZE - 2
    ensures Fits(e)
  {
    hide ParseLine, CString;
    var key, keyEnd, value, valueEnd := ParsedForm(line, e);
    var s := CString(line);
    LastOfWord(s, value, valueEnd);
  }

  lemma LastOfWord(s: string, i: nat, j: nat)
    requires i <= j <= |s| && Word(s[i..j])
    ensures i < j && s[j - 1] != '\n'
  {
    var w := s[i..j];
    assert w[|w| - 1] == s[j - 1];
    assert !Delimiter(w[|w| - 1]);
  }

  /** A dumped entry, loaded back in front of more text, is set again. */
  lemma LoadDumpedLine(m: Bindings, e: Entry, rest: string)
    requires Word(e.key) && Word(e.value) && Fits(e)
    ensures LoadText(m, DumpLine(e) + rest) == LoadText(m[e.key := e.value], rest)
  {
    hide DumpLine, ParseLine, Word, LineEnd;
    var line, text := DumpLine(e), DumpLine(e) + rest;
    DumpLineEnd(e, rest);
    DumpLineParses(e);
    assert text[..|line|] == line && text[|line|..] == rest;
  }

  /** The newline of a dumped entry of words is its only one. */
  lemma DumpLineEnd(e: Entry, rest: string)
    requires Word(e.key) && Word(e.value) && Fits(e)
    ensures DumpLine(e) != "" && LineEnd(DumpLine(e) + rest) == |DumpLine(e)|
  {
    var line := DumpLine(e);
    assert line == e.key + "=" + e.value + "\n";
    assert forall x :: 0 <= x < |line| - 1 ==> !(line[x] == '\n');
    LineEndIs(line + rest, |line|);
  }

  lemma {:induction false} LoadDumped(m: Bindings, entries: seq<Entry>)
    requires forall e :: e in entries ==> Word(e.key) && Word(e.value) && Fits(e)
    ensures LoadText(m, DumpText(entries)) == Bind(m, entries)
    decreases |entries|
  {
    if entries != [] {
      var e := entries[0];
      LoadDumpedLine(m, e, DumpText(entries[1..]));
      LoadDumped(m[e.key := e.value], entries[1..]);
    }
  }

  /** Each listed entry is a binding. */
  lemma EntriesBound(entries: seq<Entry>, m: Bindings, e: Entry)
    requires Enumerates(entries, m) && e in entries
    ensures e.key in m && m[e.key] == e.value
  {
    var i :| 0 <= i < |entries| && entries[i] == e;
    LookupAt(entries, e.key, i);
    BindLooksUp(map[], entries, e.key);
  }

  // ------------------------------------------------------------ what the cut costs

  /** How many lines a text has. */
  function LineCount(text: string): nat
    decreases |text|
  {
    if text == "" then 0 else 1 + LineCount(text[LineEnd(text)..])
  }

  /** Every line adds one binding at most. */
  lemma {:induction false} LoadIsBounded(m: Bindings, text: string)
    ensures |LoadText(m, text)| <= |m| + LineCount(text)
    decreases |text|
  {
    if text != "" {
      var n := LineEnd(text);
      hide ParseLine;
      assert |LoadLine(m, text[..n])| <= |m| + 1;
      LoadIsBounded(LoadLine(m, text[..n]), text[n..]);
    }
  }

  /** Entries with distinct keys make as many bindings. */
  lemma {:induction false} BindCounts(m: Bindings, entries: seq<Entry>)
    requires DistinctKeys(entries) && forall e :: e in entries ==> e.key !in m
    ensures |Bind(m, entries)| == |m| + |entries|
    decreases |entries|
  {
    if entries != [] {
      var e := entries[0];
      assert e in entries;
      forall e' | e' in entries[1..]
        ensures e'.key !in m[e.key := e.value]
      {
        var i :| 0 <= i < |entries[1..]| && entries[1..][i] == e';
        assert entries[0].key != entries[i + 1].key;
      }
      assert forall i :: 0 <= i < |entries[1..]| ==> entries[1..][i] == entries[i + 1];
      BindCounts(m[e.key := e.value], entries[1..]);
    }
  }

  /** A dumped entry that is cut has lost its newline: it runs into the next line. */
  lemma CutLineJoins(e: Entry, rest: string)
    requires Word(e.key) && Word(e.value) && !Fits(e) && rest != ""
    ensures LineEnd(DumpLine(e) + rest) == |DumpLine(e)| + LineEnd(rest)
    ensures LineCount(DumpLine(e) + rest) == LineCount(rest)
  {
    var line, n := DumpLine(e), LineEnd(rest);
    var text := line + rest;
    CutLineIsOpen(e);
    hide DumpLine, Word, LineEnd;
    forall x | 0 <= x < |line| + n - 1
      ensures text[x] != '\n'
    {
      if x < |line| {
        assert text[x] == line[x];
      } else {
        assert text[x] == rest[x - |line|];
      }
    }
    LineEndIs(text, |line| + n);
    assert text[|line| + n..] == rest[n..];
  }

  /** No newline is left in a cut line. */
  lemma CutLineIsOpen(e: Entry)
    requires Word(e.key) && Word(e.value) && !Fits(e)
    ensures |DumpLine(e)| == MAX_LINE_SIZE - 1 && forall x :: 0 <= x < |DumpLine(e)| ==> DumpLine(e)[x] != '\n'
  {
    var body := e.key + "=" + e.value;
    assert DumpLine(e) == body[..MAX_LINE_SIZE - 1];
    forall x | 0 <= x < MAX_LINE_SIZE - 1
      ensures body[x] != '\n'
    {
      if x < |e.key| {
        assert !Delimiter(e.key[x]);
      } else if x > |e.key| {
        assert body[x] == e.value[x - |e.key| - 1];
        assert !Delimiter(e.value[x - |e.key| - 1]);
      }
    }
  }

  lemma OpenLineCount(line: string)
    requires line != "" && forall x :: 0 <= x < |line| ==> line[x] != '\n'
    ensures LineEnd(line) == |line| && LineCount(line) == 1
  {
    LineEndIs(line, |line|);
    assert line[|line|..] == "";
  }

  /** There are no more lines than entries, and fewer when a line is cut that is not the last. */
  lemma {:induction false} DumpedLines(entries: seq<Entry>)
    requires forall e :: e in entries ==> Word(e.key) && Word(e.value)
    ensures LineCount(DumpText(entries)) <= |entries|
    ensures (exists i :: 0 <= i < |entries| - 1 && !Fits(entries[i])) ==> LineCount(DumpText(entries)) < |entries|
  {
    if entries != [] {
      var e, rest := entries[0], DumpText(entries[1..]);
      assert e in entries;
      DumpedLines(entries[1..]);
      hide Word, DumpLine, LineEnd, LineCount;
      if Fits(e) {
        FittingLineCounts(e, rest);
        assert forall i :: 0 < i < |entries| ==> entries[1..][i - 1] == entries[i];
      } else if |entries| == 1 {
        CutLineIsOpen(e);
        OpenLineCount(DumpLine(e));
        assert DumpLine(e) + rest == DumpLine(e);
      } else {
        assert entries[1] in entries;
        DumpNotEmpty(entries[1..]);
        CutLineJoins(e, rest);
      }
    }
  }

  lemma FittingLineCounts(e: Entry, rest: string)
    requires Word(e.key) && Word(e.value) && Fits(e)
    ensures LineCount(DumpLine(e) + rest) == 1 + LineCount(rest)
  {
    hide DumpLine, Word, LineEnd;
    DumpLineEnd(e, rest);
    assert (DumpLine(e) + rest)[|DumpLine(e)|..] == rest;
  }

  lemma DumpNotEmpty(entries: seq<Entry>)
    requires entries != []
    ensures DumpText(entries) != ""
  {
    assert |DumpLine(entries[0])| > 0;
  }

  // ------------------------------------------------------------ the exact condition

  /** The line of the entry is cut by its newline at most. */
  predicate FitsLast(e: Entry) {
    |e.key| + |e.value| + 1 < MAX_LINE_SIZE
  }

  /** Nothing but the newline of the last line is cut. */
  ghost predicate CutsNothing(entries: seq<Entry>) {
    && (forall i :: 0 <= i < |entries| - 1 ==> Fits(entries[i]))
    && (entries != [] ==> FitsLast(entries[|entries| - 1]))
  }

  /** The last line is parsed with or without its newline. */
  lemma LastLineParses(e: Entry)
    requires Word(e.key) && Word(e.value) && FitsLast(e)
    ensures ParseLine(DumpLine(e)) == Some(e)
  {
    if Fits(e) {
      DumpLineParses(e);
    } else {
      var line := e.key + "=" + e.value;
      assert DumpLine(e) == line;
      BodyParses(e);
    }
  }

  lemma BodyParses(e: Entry)
    requires Word(e.key) && Word(e.value)
    ensures ParseLine(e.key + "=" + e.value) == Some(e)
  {
    var line, keyEnd := e.key + "=" + e.value, |e.key|;
    assert NUL !in line;
    CStringOfClean(line);
    assert line[..keyEnd] == e.key && line[keyEnd] == '=' && line[keyEnd + 1..|line|] == e.value;
    ParseForm(line, e, 0, keyEnd, keyEnd + 1, |line|);
  }

  /** Loading what an entry alone was dumped to loads one line. */
  lemma LoadOneLine(m: Bindings, e: Entry)
    requires Word(e.key) && Word(e.value)
    ensures LoadText(m, DumpLine(e)) == LoadLine(m, DumpLine(e))
  {
    var line := DumpLine(e);
    hide LoadLine;
    if Fits(e) {
      assert line + "" == line;
      DumpLineEnd(e, "");
    } else {
      CutLineIsOpen(e);
      OpenLineCount(line);
    }
    hide DumpLine, Word, LineEnd;
    assert line[..|line|] == line && line[|line|..] == "";
  }

  /** Loading dumped entries that all fit, and then one more line. */
  lemma {:induction false} LoadBeforeLast(m: Bindings, entries: seq<Entry>, last: Entry)
    requires forall e :: e in entries ==> Word(e.key) && Word(e.value) && Fits(e)
    requires Word(last.key) && Word(last.value)
    ensures LoadText(m, DumpText(entries + [last])) == LoadLine(Bind(m, entries), DumpLine(last))
    decreases |entries|
  {
    if entries == [] {
      assert entries + [last] == [last] && [last][1..] == [];
      assert DumpText([last]) == DumpLine(last) + "" == DumpLine(last);
      LoadOneLine(m, last);
    } else {
      var e := entries[0];
      assert (entries + [last])[1..] == entries[1..] + [last] && (entries + [last])[0] == e;
      hide DumpLine, Word, LoadLine;
      LoadDumpedLine(m, e, DumpText(entries[1..] + [last]));
      LoadBeforeLast(m[e.key := e.value], entries[1..], last);
    }
  }

  /** An entry is no longer than the line it was parsed from. */
  lemma ParsedFits(line: string, e: Entry)
    requires ParseLine(line) == Some(e)
    ensures |e.key| + 1 + |e.value| <= |line|
  {
    var key, keyEnd, value, valueEnd := ParsedForm(line, e);
  }

  /** The last line gives its binding exactly when no more than its newline was cut. */
  lemma LastLineSurvives(m: Bindings, last: Entry)
    requires Word(last.key) && Word(last.value) && last.key !in m
    ensures LoadLine(m, DumpLine(last)) == m[last.key := last.value] <==> FitsLast(last)
  {
    var line := DumpLine(last);
    if FitsLast(last) {
      LastLineParses(last);
    } else {
      var parsed := ParseLine(line);
      if parsed.Some? {
        ParsedFits(line, parsed.value);
      }
      hide ParseLine, DumpLine, Word;
      SetBindsOne(m, last, parsed);
    }
  }

  lemma SetBindsOne(m: Bindings, e: Entry, parsed: Option<Entry>)
    requires e.key !in m && parsed != Some(e)
    ensures parsed.Some? ==> m[parsed.value.key := parsed.value.value] != m[e.key := e.value]
    ensures m != m[e.key := e.value]
  {
    assert e.key in m[e.key := e.value];
    if parsed.Some? && parsed.value.key == e.key {
      assert m[e.key := parsed.value.value][e.key] != m[e.key := e.value][e.key];
    }
  }

  /**
   Dumping bindings and loading them back gives the same bindings if and only if every key
   and value is a word, all lines but the last fit whole, and the last fits but for its newline.
   */
  lemma MapRoundTrip(m: Bindings, entries: seq<Entry>)
    requires Enumerates(entries, m)
    ensures LoadText(map[], DumpText(entries)) == m <==> Clean(m) && CutsNothing(entries)
  {
    LoadKeepsClean(map[], DumpText(entries));
    if Clean(m) {
      forall e | e in entries
        ensures Word(e.key) && Word(e.value)
      {
        EntriesBound(entries, m, e);
      }
      hide Word, LoadText, DumpText, Clean;
      CleanRoundTrip(m, entries);
    }
  }

  lemma CleanRoundTrip(m: Bindings, entries: seq<Entry>)
    requires Enumerates(entries, m) && forall e :: e in entries ==> Word(e.key) && Word(e.value)
    ensures LoadText(map[], DumpText(entries)) == m <==> CutsNothing(entries)
  {
    hide Word, Fits, FitsLast, LineCount, LoadLine, DumpLine;
    if entries == [] {
    } else if i :| 0 <= i < |entries| - 1 && !Fits(entries[i]) {
      hide LoadText, DumpText;
      DumpedLines(entries);
      LoadIsBounded(map[], DumpText(entries));
      BindCounts(map[], entries);
    } else {
      var init, last := entries[..|entries| - 1], entries[|entries| - 1];
      assert entries == init + [last];
      hide LoadText, DumpText;
      LoadBeforeLast(map[], init, last);
      BindSplits(map[], init, last);
      LastKeyIsNew(init, last);
      LastLineSurvives(Bind(map[], init), last);
    }
  }

  lemma {:induction false} BindSplits(m: Bindings, entries: seq<Entry>, last: Entry)
    ensures Bind(m, entries + [last]) == Bind(m, entries)[last.key := last.value]
    decreases |entries|
  {
    if entries == [] {
      assert entries + [last] == [last] && [last][1..] == [];
    } else {
      assert (entries + [last])[1..] == entries[1..] + [last];
      BindSplits(m[entries[0].key := entries[0].value], entries[1..], last);
    }
  }

  lemma LastKeyIsNew(entries: seq<Entry>, last: Entry)
    requires DistinctKeys(entries + [last])
    ensures DistinctKeys(entries) && last.key !in Bind(map[], entries)
  {
    assert forall i :: 0 <= i < |entries| ==> (entries + [last])[i] == entries[i];
    assert (entries + [last])[|entries|] == last;
    var i := LookupFound(entries, last.key);
    BindLooksUp(map[], entries, last.key);
  }

  // ------------------------------------------------------------ any order

  /** Some order lists the bindings, starting with a given key. */
  lemma {:induction false} EnumerationFrom(m: Bindings, key: string) returns (entries: seq<Entry>)
    requires key in m
    ensures Enumerates(entries, m) && entries != [] && entries[0] == Entry(key, m[key]) && |entries| == |m|
    decreases |m|
  {
    var m', e := m - {key}, Entry(key, m[key]);
    var rest := [];
    assert m == m'[key := m[key]];
    if m' != map[] {
      var key' :| key' in m';
      rest := EnumerationFrom(m', key');
    } else {
      assert Bind(map[], rest) == m';
    }
    entries := [e] + rest;
    NewFirst(m', rest, e);
  }

  lemma NewFirst(m: Bindings, entries: seq<Entry>, e: Entry)
    requires Enumerates(entries, m) && e.key !in m
    ensures Enumerates([e] + entries, m[e.key := e.value])
  {
    var all := [e] + entries;
    forall i, j | 0 <= i < j < |all|
      ensures all[i].key != all[j].key
    {
      assert all[j] == entries[j - 1] && entries[j - 1] in entries;
      EntriesBound(entries, m, entries[j - 1]);
    }
    assert all[1..] == entries;
    forall k: string
      ensures Value(Bind(map[], all), k) == Value(m[e.key := e.value], k)
    {
      BindLooksUp(map[], all, k);
      BindLooksUp(map[], entries, k);
    }
    SameBindings(Bind(map[], all), m[e.key := e.value]);
  }

  /** A single binding may lose its newline; of more than one, every line has to fit. */
  ghost predicate AlwaysFits(m: Bindings) {
    forall k :: k in m ==> if |m| == 1 then FitsLast(Entry(k, m[k])) else Fits(Entry(k, m[k]))
  }

  /** Bindings survive in whatever order they are dumped if and only if they are words that always fit. */
  lemma AnyOrderRoundTrip(m: Bindings)
    ensures (forall entries :: Enumerates(entries, m) ==> LoadText(map[], DumpText(entries)) == m)
            <==> Clean(m) && AlwaysFits(m)
  {
    hide Word, Fits, FitsLast, LoadText, DumpText, Enumerates;
    if forall entries :: Enumerates(entries, m) ==> LoadText(map[], DumpText(entries)) == m {
      forall k | k in m
        ensures Clean(m) && if |m| == 1 then FitsLast(Entry(k, m[k])) else Fits(Entry(k, m[k]))
      {
        var entries := EnumerationFrom(m, k);
        MapRoundTrip(m, entries);
      }
      assert m == map[] || exists k :: k in m;
    }
    if Clean(m) && AlwaysFits(m) {
      forall entries | Enumerates(entries, m)
        ensures LoadText(map[], DumpText(entries)) == m
      {
        AlwaysCutsNothing(m, entries);
        MapRoundTrip(m, entries);
      }
    }
  }

  lemma AlwaysCutsNothing(m: Bindings, entries: seq<Entry>)
    requires Enumerates(entries, m) && AlwaysFits(m)
    ensures CutsNothing(entries)
  {
    BindCounts(map[], entries);
    forall i | 0 <= i < |entries|
      ensures if |entries| == 1 then FitsLast(entries[i]) else Fits(entries[i])
    {
      assert entries[i] in entries;
      EntriesBound(entries, m, entries[i]);
    }
  }

  /** A value of 2045 characters, under a key of one: its line loses the newline, and with it the next entry. */
  lemma OrderMatters(value: string, long: Entry, short: Entry)
    requires |value| == 2045 && Word(value) && long == Entry("a", value) && short == Entry("b", "c")
    ensures LoadText(map[], DumpText([long, short])) != map["a" := value, "b" := "c"]
    ensures LoadText(map[], DumpText([short, long])) == map["a" := value, "b" := "c"]
  {
    var m := map["a" := value, "b" := "c"];
    hide LoadText, DumpText;
    ShortWords();
    TwoEntries(long, short);
    TwoEntries(short, long);
    hide Word, Enumerates;
    assert map["b" := "c", "a" := value] == m;
    LongFirstCut(m, long, short);
    LongLastFits(m, long, short);
  }

  lemma ShortWords()
    ensures Word("a") && Word("b") && Word("c")
  {
  }

  lemma LongFirstCut(m: Bindings, long: Entry, short: Entry)
    requires Enumerates([long, short], m) && !Fits(long)
    ensures LoadText(map[], DumpText([long, short])) != m
  {
    hide LoadText, DumpText, Enumerates, Fits;
    MapRoundTrip(m, [long, short]);
    assert !Fits([long, short][0]);
  }

  lemma LongLastFits(m: Bindings, long: Entry, short: Entry)
    requires Enumerates([short, long], m) && Clean(m) && Fits(short) && FitsLast(long)
    ensures LoadText(map[], DumpText([short, long])) == m
  {
    hide LoadText, DumpText, Enumerates, Clean;
    MapRoundTrip(m, [short, long]);
  }

  lemma TwoEntries(x: Entry, y: Entry)
    requires x.key != y.key
    ensures Enumerates([x, y], map[x.key := x.value, y.key := y.value])
  {
    assert [x, y][1..] == [y] && [y][1..] == [];
    assert Bind(map[], [x, y]) == Bind(map[x.key := x.value], [y]) == Bind(map[x.key := x.value][y.key := y.value], []);
  }

  /** What was loaded from a text whose lines have at most 2046 characters survives dump and load. */
  lemma TextRoundTrip(text: string, entries: seq<Entry>)
    requires LinesUpTo(text, MAX_LINE_SIZE - 2) && Enumerates(entries, LoadText(map[], text))
    ensures LoadText(map[], DumpText(entries)) == LoadText(map[], text)
  {
    LoadKeepsClean(map[], text);
    LoadKeepsFitting(map[], text);
    AnyOrderRoundTrip(LoadText(map[], text));
  }

  /** Under that condition the dump can be loaded: its lines fit the buffer, whatever they hold. */
  lemma {:induction false} DumpCanBeLoaded(entries: seq<Entry>)
    requires CutsNothing(entries)
    ensures BufferHolds(DumpText(entries))
  {
    if |entries| == 1 {
      assert DumpText(entries) == DumpLine(entries[0]) + "" == DumpLine(entries[0]);
      ShortHolds(DumpLine(entries[0]));
    } else if entries != [] {
      var rest := entries[1..];
      assert forall i :: 0 <= i < |rest| ==> rest[i] == entries[i + 1];
      DumpCanBeLoaded(rest);
      DumpLineShape(entries[0]);
      hide DumpLine;
      PieceHolds(DumpLine(entries[0]), DumpText(rest));
    }
  }

  lemma {:induction false} ShortHolds(text: string)
    requires |text| < MAX_LINE_SIZE
    ensures BufferHolds(text)
    decreases |text|
  {
    if text != "" {
      ShortHolds(text[LineEnd(text)..]);
    }
  }

  lemma DumpLineShape(e: Entry)
    requires Fits(e)
    ensures var line := DumpLine(e); line != "" && line[|line| - 1] == '\n' && |line| < MAX_LINE_SIZE
  {
  }

  lemma {:induction false} PieceHolds(piece: string, rest: string)
    requires piece != "" && piece[|piece| - 1] == '\n' && |piece| < MAX_LINE_SIZE && BufferHolds(rest)
    ensures BufferHolds(piece + rest)
    decreases |piece|
  {
    var text := piece + rest;
    var n := LineEnd(text);
    assert text[|piece| - 1] == '\n';
    assert n <= |piece|;
    var piece' := piece[n..];
    assert text[n..] == piece' + rest;
    hide LineEnd;
    if piece' != "" {
      assert piece'[|piece'| - 1] == piece[|piece| - 1];
      PieceHolds(piece', rest);
    } else {
      assert piece' + rest == rest;
    }
  }
}
