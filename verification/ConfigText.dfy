/** The text form of a configuration: its lines, their parsing and printing (framework/unix_config.cpp). */
module ConfigText {

  datatype Option<+T> = None | Some(value: T)

  datatype Entry = Entry(key: string, value: string)

  type Bindings = map<string, string>

  const NUL := '\0'
  const MAX_LINE_SIZE := 2048

  /** What a `const char*` can hold. */
  type cstring = s: string | NUL !in s witness ""

  // ------------------------------------------------------------ one line

  predicate Delimiter(c: char) {
    c == ' ' || c == '\t' || c == '\r' || c == '=' || c == '\n'
  }

  /** `strspn` from `i` on, as a position. */
  function SkipDelimiters(s: string, i: nat): (j: nat)
    requires i <= |s|
    ensures i <= j <= |s| && (forall x :: i <= x < j ==> Delimiter(s[x]))
    ensures j < |s| ==> !Delimiter(s[j])
    decreases |s| - i
  {
    if i < |s| && Delimiter(s[i]) then SkipDelimiters(s, i + 1) else i
  }

  /** `strcspn` from `i` on, as a position. */
  function WordEnd(s: string, i: nat): (j: nat)
    requires i <= |s|
    ensures i <= j <= |s| && (forall x :: i <= x < j ==> !Delimiter(s[x]))
    ensures j < |s| ==> Delimiter(s[j])
    decreases |s| - i
  {
    if i < |s| && !Delimiter(s[i]) then WordEnd(s, i + 1) else i
  }

  /** What the string functions see of a line: everything before the first NUL. */
  function CString(s: string): (r: cstring)
    ensures r <= s && (r == s || s[|r|] == NUL)
  {
    if s == "" || s[0] == NUL then "" else [s[0]] + CString(s[1..])
  }

  /** `parse_line` up to its call of `set`. */
  function ParseLine(line: string): Option<Entry> {
    var s := CString(line);
    var key := SkipDelimiters(s, 0);
    if key == |s| || s[key] == '#' then None
    else
      var keyEnd := WordEnd(s, key);
      var value := SkipDelimiters(s, keyEnd);
      if value == |s| || s[value] == '#' then None
      else Some(Entry(s[key..keyEnd], s[value..WordEnd(s, value)]))
  }

  /** What can be a key or a value in a file. */
  predicate Word(w: string) {
    w != "" && w[0] != '#' && forall x :: 0 <= x < |w| ==> !Delimiter(w[x]) && w[x] != NUL
  }

  predicate Delimiters(s: string, i: nat, j: nat)
    requires i <= j <= |s|
  {
    forall x :: i <= x < j ==> Delimiter(s[x])
  }

  /** A line that binds a key: delimiters, the key, delimiters, the value, and anything after a delimiter. */
  predicate BindingLine(s: string, e: Entry, key: nat, keyEnd: nat, value: nat, valueEnd: nat) {
    && key <= keyEnd < value <= valueEnd <= |s|
    && Delimiters(s, 0, key) && e.key == s[key..keyEnd] && Word(e.key)
    && Delimiters(s, keyEnd, value) && e.value == s[value..valueEnd] && Word(e.value)
    && (valueEnd < |s| ==> Delimiter(s[valueEnd]))
  }

  /** Parsing yields an entry exactly for the lines of that form, and it is the entry they spell. */
  lemma ParseIsExact(line: string, s: cstring, e: Entry)
    requires s == CString(line)
    ensures ParseLine(line) == Some(e) <==>
            exists key: nat, keyEnd: nat, value: nat, valueEnd: nat :: BindingLine(s, e, key, keyEnd, value, valueEnd)
  {
    hide BindingLine, ParseLine;
    if ParseLine(line) == Some(e) {
      var key, keyEnd, value, valueEnd := ParsedForm(line, e);
      assert BindingLine(s, e, key, keyEnd, value, valueEnd);
    } else if key: nat, keyEnd: nat, value: nat, valueEnd: nat :| BindingLine(s, e, key, keyEnd, value, valueEnd) {
      ParseForm(line, e, key, keyEnd, value, valueEnd);
    }
  }

  lemma ParsedForm(line: string, e: Entry) returns (key: nat, keyEnd: nat, value: nat, valueEnd: nat)
    requires ParseLine(line) == Some(e)
    ensures BindingLine(CString(line), e, key, keyEnd, value, valueEnd)
  {
    var s := CString(line);
    key := SkipDelimiters(s, 0);
    keyEnd := WordEnd(s, key);
    value := SkipDelimiters(s, keyEnd);
    valueEnd := WordEnd(s, value);
    WordBetween(s, key, keyEnd);
    WordBetween(s, value, valueEnd);
  }

  lemma WordBetween(s: cstring, i: nat, j: nat)
    requires i < |s| && !Delimiter(s[i]) && s[i] != '#' && j == WordEnd(s, i)
    ensures i < j <= |s| && Word(s[i..j])
  {
    forall x | 0 <= x < j - i
      ensures !Delimiter(s[i..j][x]) && s[i..j][x] != NUL
    {
      assert s[i + x] in s;
    }
  }

  lemma ParseForm(line: string, e: Entry, key: nat, keyEnd: nat, value: nat, valueEnd: nat)
    requires BindingLine(CString(line), e, key, keyEnd, value, valueEnd)
    ensures ParseLine(line) == Some(e)
  {
    var s := CString(line);
    assert s[key] == e.key[0] && s[value] == e.value[0];
    SkipIs(s, 0, key);
    WordIs(s, e.key, key, keyEnd);
    SkipIs(s, keyEnd, value);
    WordIs(s, e.value, value, valueEnd);
  }

  lemma SkipIs(s: string, i: nat, j: nat)
    requires i <= j <= |s| && Delimiters(s, i, j) && (j < |s| ==> !Delimiter(s[j]))
    ensures SkipDelimiters(s, i) == j
  {
  }

  lemma WordIs(s: string, w: string, i: nat, j: nat)
    requires i <= j <= |s| && s[i..j] == w && Word(w) && (j < |s| ==> Delimiter(s[j]))
    ensures WordEnd(s, i) == j
  {
    assert forall x :: i <= x < j ==> s[x] == w[x - i];
  }

  // ------------------------------------------------------------ lines, character by character

  /** Space, tab, carriage return, equals sign and newline separate words; nothing else does. */
  predicate Separates(c: char) {
    c in [' ', '\t', '\r', '=', '\n']
  }

  predicate Separators(s: string) {
    forall x :: 0 <= x < |s| ==> Separates(s[x])
  }

  /** A key or a value as it can stand in a line. */
  predicate PlainWord(w: string) {
    w != "" && w[0] != '#' && forall x :: 0 <= x < |w| ==> !Separates(w[x]) && w[x] != '\0'
  }

  /** The line is a key and a value between separators; the value ends at a separator, a NUL or the end of the line. */
  predicate Spells(line: string, e: Entry, before: string, between: string, after: string) {
    && line == before + e.key + between + e.value + after
    && Separators(before) && PlainWord(e.key) && between != "" && Separators(between) && PlainWord(e.value)
    && (after != "" ==> Separates(after[0]) || after[0] == '\0')
  }

  /** A line binds just the key and value that it spells, and nothing when it spells none. */
  lemma ParseSpells(line: string, e: Entry)
    ensures ParseLine(line) == Some(e) <==>
            exists before: string, between: string, after: string :: Spells(line, e, before, between, after)
  {
    hide ParseLine, CString, Spells;
    if ParseLine(line) == Some(e) {
      var key, keyEnd, value, valueEnd := ParsedForm(line, e);
      FormIsSpelled(line, e, key, keyEnd, value, valueEnd);
    } else if before: string, between: string, after: string :| Spells(line, e, before, between, after) {
      SpelledForm(line, e, before, between, after);
    }
  }

  lemma WordIsPlain(w: string)
    ensures Word(w) <==> PlainWord(w)
  {
  }

  /** Five pieces of a line, two of them given as words. */
  lemma Pieces(line: string, key: string, value: string, a: nat, b: nat, c: nat, d: nat)
    requires a <= b <= c <= d <= |line| && key == line[a..b] && value == line[c..d]
    ensures line == line[..a] + key + line[b..c] + value + line[d..]
  {
    assert line[..a] + line[a..b] == line[..b];
    assert line[..b] + line[b..c] == line[..c];
    assert line[..c] + line[c..d] == line[..d];
  }

  lemma FormIsSpelled(line: string, e: Entry, key: nat, keyEnd: nat, value: nat, valueEnd: nat)
    requires BindingLine(CString(line), e, key, keyEnd, value, valueEnd)
    ensures valueEnd <= |line| && Spells(line, e, line[..key], line[keyEnd..value], line[valueEnd..])
  {
    hide CString, Delimiters, Separators, Word, PlainWord;
    var s := CString(line);
    WordIsPlain(e.key);
    WordIsPlain(e.value);
    SamePiece(s, line, 0, key);
    SamePiece(s, line, key, keyEnd);
    SamePiece(s, line, keyEnd, value);
    SamePiece(s, line, value, valueEnd);
    DelimitersSeparate(s, 0, key);
    DelimitersSeparate(s, keyEnd, value);
    AfterValue(s, line, valueEnd);
    hide BindingLine;
    Pieces(line, e.key, e.value, key, keyEnd, value, valueEnd);
  }

  lemma AfterValue(s: string, line: string, i: nat)
    requires s <= line && (s == line || line[|s|] == NUL) && i <= |s| && (i < |s| ==> Delimiter(s[i]))
    ensures line[i..] != "" ==> Separates(line[i..][0]) || line[i..][0] == '\0'
  {
    assert i < |s| ==> line[i] == s[i];
  }

  lemma SamePiece(s: string, line: string, i: nat, j: nat)
    requires s <= line && i <= j <= |s|
    ensures s[i..j] == line[i..j]
  {
    assert forall x :: i <= x < j ==> line[x] == s[x];
  }

  lemma DelimitersSeparate(s: string, i: nat, j: nat)
    requires i <= j <= |s| && Delimiters(s, i, j)
    ensures Separators(s[i..j])
  {
  }

  lemma SpelledForm(line: string, e: Entry, before: string, between: string, after: string)
    requires Spells(line, e, before, between, after)
    ensures ParseLine(line) == Some(e)
  {
    var head := before + e.key + between + e.value;
    var tail := CString(after);
    NoNul(e, before, between);
    CStringAfter(head, after);
    assert tail == "" || tail[0] == after[0];
    FormOf(e, before, between, tail);
    hide Spells, BindingLine;
    ParseForm(line, e, |before|, |before| + |e.key|, |before| + |e.key| + |between|,
      |before| + |e.key| + |between| + |e.value|);
  }

  lemma NoNul(e: Entry, before: string, between: string)
    requires Separators(before) && Separators(between) && PlainWord(e.key) && PlainWord(e.value)
    ensures var head := before + e.key + between + e.value; forall x :: 0 <= x < |head| ==> head[x] != NUL
  {
  }

  lemma FormOf(e: Entry, before: string, between: string, tail: string)
    requires Separators(before) && Separators(between) && between != "" && PlainWord(e.key) && PlainWord(e.value)
    requires tail != "" ==> Separates(tail[0])
    ensures var key, keyEnd := |before|, |before| + |e.key|;
            var value := keyEnd + |between|;
            BindingLine(before + e.key + between + e.value + tail, e, key, keyEnd, value, value + |e.value|)
  {
    WordIsPlain(e.key);
    WordIsPlain(e.value);
    hide Word, PlainWord;
    var key, keyEnd := |before|, |before| + |e.key|;
    var value := keyEnd + |between|;
    var s := before + e.key + between + e.value + tail;
    assert s[key..keyEnd] == e.key;
    assert s[value..value + |e.value|] == e.value;
    assert Delimiters(s, 0, key);
    assert Delimiters(s, keyEnd, value);
    assert tail != "" ==> s[value + |e.value|] == tail[0];
  }

  lemma {:induction false} CStringAfter(s: string, t: string)
    requires forall x :: 0 <= x < |s| ==> s[x] != NUL
    ensures CString(s + t) == s + CString(t)
  {
    if s == "" {
      assert s + t == t;
    } else {
      assert (s + t)[1..] == s[1..] + t;
      CStringAfter(s[1..], t);
    }
  }

  /** The line `dump` prints for an entry, cut to what `snprintf` fits into its buffer. */
  function DumpLine(e: Entry): string {
    var line := e.key + "=" + e.value + "\n";
    if |line| < MAX_LINE_SIZE then line else line[..MAX_LINE_SIZE - 1]
  }

  /** A printed entry, character by character: key, equals sign, value, newline, or the first 2047 of them. */
  predicate PrintedAs(line: string, e: Entry) {
    var k, n := |e.key|, |e.key| + 1 + |e.value|;
    && |line| == (if n + 1 <= 2047 then n + 1 else 2047)
    && forall x :: 0 <= x < |line| ==>
         line[x] == if x < k then e.key[x] else if x == k then '=' else if x < n then e.value[x - k - 1] else '\n'
  }

  lemma DumpLinePrints(e: Entry)
    ensures PrintedAs(DumpLine(e), e)
  {
  }

  /** What is printed for a single binding. */
  lemma DumpOfOne(entries: seq<Entry>, k: string, v: string)
    requires Enumerates(entries, map[k := v])
    ensures PrintedAs(DumpText(entries), Entry(k, v))
  {
    var m := map[k := v];
    forall i | 0 <= i < |entries|
      ensures entries[i] == Entry(k, v)
    {
      LookupAt(entries, entries[i].key, i);
      BindLooksUp(map[], entries, entries[i].key);
      assert Value(m, entries[i].key) == Some(entries[i].value);
    }
    BindLooksUp(map[], entries, k);
    assert Value(m, k) == Some(v);
    assert |entries| > 1 ==> entries[0].key != entries[1].key;
    assert entries == [Entry(k, v)];
    assert DumpText(entries) == DumpLine(Entry(k, v));
    DumpLinePrints(Entry(k, v));
  }

  predicate Fits(e: Entry) {
    |e.key| + |e.value| + 2 < MAX_LINE_SIZE
  }

  lemma {:induction false} CStringOfClean(s: string)
    requires NUL !in s
    ensures CString(s) == s
  {
    if s != "" {
      assert s[0] in s;
      CStringOfClean(s[1..]);
    }
  }

  lemma DumpLineParses(e: Entry)
    requires Word(e.key) && Word(e.value) && Fits(e)
    ensures ParseLine(DumpLine(e)) == Some(e)
  {
    var line := DumpLine(e);
    assert NUL !in line;
    CStringOfClean(line);
    var keyEnd := |e.key|;
    assert line[..keyEnd] == e.key && line[keyEnd] == '=' && line[keyEnd + 1..|line| - 1] == e.value;
    ParseForm(line, e, 0, keyEnd, keyEnd + 1, |line| - 1);
  }

  // ------------------------------------------------------------ whole texts

  /** The end of the first line, past its newline when it has one. */
  function LineEnd(text: string): (n: nat)
    requires text != ""
    ensures 0 < n <= |text| && (forall x :: 0 <= x < n - 1 ==> text[x] != '\n')
    ensures n < |text| ==> text[n - 1] == '\n'
  {
    if text[0] == '\n' || |text| == 1 then 1 else 1 + LineEnd(text[1..])
  }

  lemma LineEndIs(text: string, n: nat)
    requires 0 < n <= |text| && (forall x :: 0 <= x < n - 1 ==> text[x] != '\n')
    requires n < |text| ==> text[n - 1] == '\n'
    ensures LineEnd(text) == n
  {
  }

  /** `set` refuses anything longer. */
  predicate Settable(e: Entry) {
    |e.key| <= MAX_LINE_SIZE && |e.value| <= MAX_LINE_SIZE
  }

  /** The bindings after one line. */
  function LoadLine(m: Bindings, line: string): Bindings {
    match ParseLine(line)
    case None => m
    case Some(e) => if Settable(e) then m[e.key := e.value] else m
  }

  /** The bindings after the lines of a text, first to last. */
  function LoadText(m: Bindings, text: string): Bindings
    decreases |text|
  {
    if text == "" then m
    else
      var n := LineEnd(text);
      LoadText(LoadLine(m, text[..n]), text[n..])
  }

  /** `load` copies each line, with its newline, into a buffer of fixed size. */
  predicate BufferHolds(text: string)
    decreases |text|
  {
    text == "" ||
    var n := LineEnd(text);
    n < MAX_LINE_SIZE && BufferHolds(text[n..])
  }

  /** Every line, not counting its newline, has at most `size` characters. */
  predicate LinesUpTo(text: string, size: nat)
    decreases |text|
  {
    text == "" ||
    var n := LineEnd(text);
    (if text[n - 1] == '\n' then n - 1 else n) <= size && LinesUpTo(text[n..], size)
  }

  predicate NoNewline(text: string, i: nat, j: nat)
    requires i <= j <= |text|
  {
    forall x :: i <= x < j ==> text[x] != '\n'
  }

  /** That is: a stretch without newlines is nowhere longer. */
  lemma {:induction false} LinesUpToMeans(text: string, size: nat)
    ensures LinesUpTo(text, size) <==>
            forall i: nat, j: nat :: i <= j <= |text| && NoNewline(text, i, j) ==> j - i <= size
    decreases |text|
  {
    if text != "" {
      var n := LineEnd(text);
      var m, rest := if text[n - 1] == '\n' then n - 1 else n, text[n..];
      LinesUpToMeans(rest, size);
      assert NoNewline(text, 0, m);
      forall i: nat, j: nat | i <= j <= |rest|
        ensures NoNewline(rest, i, j) <==> NoNewline(text, n + i, n + j)
      {
        Shifted(text, n, i, j);
      }
      hide LineEnd, LinesUpTo;
      if m <= size && (forall i: nat, j: nat :: i <= j <= |rest| && NoNewline(rest, i, j) ==> j - i <= size) {
        forall i: nat, j: nat | i <= j <= |text| && NoNewline(text, i, j)
          ensures j - i <= size
        {
          if i >= n {
            assert NoNewline(rest, i - n, j - n);
          }
        }
      }
    }
  }

  lemma Shifted(text: string, n: nat, i: nat, j: nat)
    requires n <= |text| && i <= j <= |text| - n
    ensures NoNewline(text[n..], i, j) <==> NoNewline(text, n + i, n + j)
  {
    assert forall x :: n + i <= x < n + j ==> text[x] == text[n..][x - n];
  }

  function DumpText(entries: seq<Entry>): string {
    if entries == [] then "" else DumpLine(entries[0]) + DumpText(entries[1..])
  }

  lemma {:induction false} DumpSplits(x: seq<Entry>, y: seq<Entry>)
    ensures DumpText(x + y) == DumpText(x) + DumpText(y)
  {
    if x == [] {
      assert x + y == y;
    } else {
      assert (x + y)[1..] == x[1..] + y;
      DumpSplits(x[1..], y);
    }
  }

  /** Loading from `begin` on starts with the line that ends at `p`. */
  lemma FirstLine(m: Bindings, data: string, begin: nat, p: nat)
    requires begin <= p < |data| && BufferHolds(data[begin..])
    requires (forall x :: begin <= x < p ==> data[x] != '\n') && (data[p] == '\n' || p == |data| - 1)
    ensures p + 1 - begin < MAX_LINE_SIZE && BufferHolds(data[p + 1..])
    ensures LoadText(m, data[begin..]) == LoadText(LoadLine(m, data[begin..p + 1]), data[p + 1..])
  {
    var text, n := data[begin..], p + 1 - begin;
    LineEndIs(text, n);
    hide LoadLine, LineEnd;
    Slices(data, begin, n);
  }

  lemma Slices(data: string, begin: nat, n: nat)
    requires begin + n <= |data|
    ensures data[begin..][..n] == data[begin..begin + n] && data[begin..][n..] == data[begin + n..]
  {
  }

  lemma LoadNothing(m: Bindings, text: string)
    requires text == ""
    ensures LoadText(m, text) == m
  {
  }

  /**
   `m'` is what a line makes of `m`: the key it spells is set, unless key or value has more
   than 2048 characters, and a line that spells none changes nothing.
   */
  ghost predicate LineSets(m: Bindings, line: string, m': Bindings) {
    && (forall e: Entry, before: string, between: string, after: string :: Spells(line, e, before, between, after) ==>
          m' == if |e.key| <= 2048 && |e.value| <= 2048 then m[e.key := e.value] else m)
    && ((forall e: Entry, before: string, between: string, after: string :: !Spells(line, e, before, between, after)) ==>
          m' == m)
  }

  /** The answer for a line: 0 when it sets a key, otherwise -1. */
  ghost predicate LineAnswers(line: string, code: int) {
    && (forall e: Entry, before: string, between: string, after: string :: Spells(line, e, before, between, after) ==>
          code == if |e.key| <= 2048 && |e.value| <= 2048 then 0 else -1)
    && ((forall e: Entry, before: string, between: string, after: string :: !Spells(line, e, before, between, after)) ==>
          code == -1)
  }

  lemma LoadLineSets(m: Bindings, line: string)
    ensures LineSets(m, line, LoadLine(m, line))
    ensures LineAnswers(line, if ParseLine(line).Some? && Settable(ParseLine(line).value) then 0 else -1)
  {
    hide ParseLine, Spells;
    forall e: Entry, before: string, between: string, after: string | Spells(line, e, before, between, after)
      ensures ParseLine(line) == Some(e)
    {
      ParseSpells(line, e);
    }
    if ParseLine(line).Some? {
      ParseSpells(line, ParseLine(line).value);
    }
  }

  /** A text is loaded line by line: the line up to its newline, and then the rest. */
  lemma LoadTextByLines(m: Bindings, line: string, rest: string)
    requires line != "" && line[|line| - 1] == '\n' && forall x :: 0 <= x < |line| - 1 ==> line[x] != '\n'
    ensures LoadText(m, line + rest) == LoadText(LoadLine(m, line), rest)
  {
    hide LoadLine, LineEnd;
    LineEndIs(line + rest, |line|);
    assert (line + rest)[..|line|] == line && (line + rest)[|line|..] == rest;
  }

  /** A text of one line, with or without its newline, is that line. */
  lemma LoadSingleLine(m: Bindings, line: string)
    requires forall x :: 0 <= x < |line| - 1 ==> line[x] != '\n'
    ensures LoadText(m, line) == if line == "" then m else LoadLine(m, line)
  {
    hide LoadLine, LineEnd;
    if line != "" {
      LineEndIs(line, |line|);
      assert line[..|line|] == line && line[|line|..] == "";
      LoadNothing(LoadLine(m, line), line[|line|..]);
    }
  }

  /** A line loaded on its own, or in front of more lines, binds the key that it spells to the value that it spells. */
  lemma LoadSpelled(m: Bindings, line: string, rest: string, e: Entry, before: string, between: string, after: string)
    requires Spells(line, e, before, between, after) && |e.key| <= 2048 && |e.value| <= 2048
    requires forall x :: 0 <= x < |line| - 1 ==> line[x] != '\n'
    ensures LoadText(m, line) == m[e.key := e.value]
    ensures line[|line| - 1] == '\n' ==> LoadText(m, line + rest) == LoadText(m[e.key := e.value], rest)
  {
    assert line != "";
    hide LoadText, LoadLine, Spells;
    LoadLineSets(m, line);
    LoadSingleLine(m, line);
    if line[|line| - 1] == '\n' {
      LoadTextByLines(m, line, rest);
    }
  }

  /** For instance. */
  lemma LoadExample()
    ensures LoadText(map[], "port = 80\n") == map["port" := "80"]
    ensures LoadText(map[], "#port = 80\n") == map[]
  {
    hide LoadText, LoadLine, Spells;
    ExampleLine();
    LoadSpelled(map[], "port = 80\n", "", Entry("port", "80"), "", " = ", "\n");
    CommentedLine(map[], "#port = 80\n");
    LoadSingleLine(map[], "#port = 80\n");
  }

  lemma ExampleLine()
    ensures Spells("port = 80\n", Entry("port", "80"), "", " = ", "\n")
  {
  }

  /** A line that starts with `#` binds nothing. */
  lemma CommentedLine(m: Bindings, line: string)
    requires line != "" && line[0] == '#'
    ensures LoadLine(m, line) == m
  {
  }

  // ------------------------------------------------------------ entries and bindings

  /** The bindings after setting the entries in turn. */
  function Bind(m: Bindings, entries: seq<Entry>): Bindings
    decreases |entries|
  {
    if entries == [] then m else Bind(m[entries[0].key := entries[0].value], entries[1..])
  }

  ghost predicate DistinctKeys(entries: seq<Entry>) {
    forall i, j :: 0 <= i < j < |entries| ==> entries[i].key != entries[j].key
  }

  /** The entries list the bindings, each once, in some order. */
  ghost predicate Enumerates(entries: seq<Entry>, m: Bindings) {
    DistinctKeys(entries) && Bind(map[], entries) == m
  }

  function Lookup(entries: seq<Entry>, key: string): Option<string> {
    if entries == [] then None
    else if entries[0].key == key then Some(entries[0].value)
    else Lookup(entries[1..], key)
  }

  function Value(m: Bindings, key: string): Option<string> {
    if key in m then Some(m[key]) else None
  }

  lemma {:induction false} LookupAt(entries: seq<Entry>, key: string, i: nat)
    requires DistinctKeys(entries) && i < |entries| && entries[i].key == key
    ensures Lookup(entries, key) == Some(entries[i].value)
  {
    if i > 0 {
      LookupAt(entries[1..], key, i - 1);
    }
  }

  lemma {:induction false} LookupFound(entries: seq<Entry>, key: string) returns (i: nat)
    ensures Lookup(entries, key) != None ==> i < |entries| && entries[i].key == key
    ensures Lookup(entries, key) == None ==> forall e :: e in entries ==> e.key != key
  {
    i := 0;
    if entries != [] && entries[0].key != key {
      i := LookupFound(entries[1..], key);
      i := i + 1;
    }
  }

  lemma {:induction false} LookupSplits(x: seq<Entry>, y: seq<Entry>, key: string)
    ensures Lookup(x + y, key) == if Lookup(x, key) == None then Lookup(y, key) else Lookup(x, key)
  {
    if x == [] {
      assert x + y == y;
    } else {
      assert (x + y)[1..] == x[1..] + y;
      LookupSplits(x[1..], y, key);
    }
  }

  lemma {:induction false} BindLooksUp(m: Bindings, entries: seq<Entry>, key: string)
    requires DistinctKeys(entries)
    ensures Value(Bind(m, entries), key) ==
            if Lookup(entries, key) == None then Value(m, key) else Lookup(entries, key)
    decreases |entries|
  {
    if entries != [] {
      var e := entries[0];
      BindLooksUp(m[e.key := e.value], entries[1..], key);
      if e.key == key {
        var i := LookupFound(entries[1..], key);
        assert forall i :: 0 <= i < |entries[1..]| ==> entries[1..][i] == entries[i + 1];
      }
    }
  }

  lemma SameBindings(x: Bindings, y: Bindings)
    requires forall k: string :: Value(x, k) == Value(y, k)
    ensures x == y
  {
    forall k: string
      ensures k in x <==> k in y
      ensures k in x ==> x[k] == y[k]
    {
      assert Value(x, k) == Value(y, k);
    }
  }
}
