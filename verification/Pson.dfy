// The configuration file reader: sections in braces, `key = "value"` lines, and
// comments that start at a # outside quotes.

module Pson {
  import opened Sequences
  import opened Text

  type Data = map<string, map<string, string>>

  const SPACES := " \t\r\n"
  const QUOTED := " \t\""

  // ---- One line ----

  /** A line up to the first # outside quotes. */
  function Strip(line: string, inQuote: bool): string {
    if line == [] then []
    else if line[0] == '"' then [line[0]] + Strip(line[1..], !inQuote)
    else if line[0] == '#' && !inQuote then []
    else [line[0]] + Strip(line[1..], inQuote)
  }

  function Trim(line: string): string {
    TrimRight(TrimLeft(line, SPACES), SPACES)
  }

  /** The length of the leading stretch without blanks and braces. */
  function NameEnd(line: string): (n: nat)
    ensures n <= |line|
  {
    if line == [] || line[0] in " \t{" then 0 else 1 + NameEnd(line[1..])
  }

  function Put(data: Data, section: string, key: string, value: string): Data {
    data[section := (if section in data then data[section] else map[])[key := value]]
  }

  /** The reader's state: the open section and what has been read. */
  datatype State = State(section: string, data: Data)

  function LoadLine(s: State, raw: string): State {
    var line := Trim(Strip(raw, false));
    if line == [] then s
    else if line[|line| - 1] == '{' then s.(section := line[..NameEnd(line)])
    else if line == "}" then s.(section := [])
    else
      var eq := Find(line, "=", 0);
      if eq == NPOS || s.section == [] then s
      else
        var key := TrimRight(line[..eq], " \t");
        var value := TrimRight(TrimLeft(line[eq + 1..], QUOTED), QUOTED);
        s.(data := Put(s.data, s.section, key, value))
  }

  function LoadLines(s: State, lines: seq<string>): State
    decreases lines
  {
    if lines == [] then s else LoadLines(LoadLine(s, lines[0]), lines[1..])
  }

  function Load(text: string): Data {
    LoadLines(State([], map[]), Lines(text, [])).data
  }

  function Get(data: Data, section: string, key: string, default: string): string {
    if section in data && key in data[section] then data[section][key] else default
  }

  function GetBool(data: Data, section: string, key: string, default: bool): bool {
    var v := Get(data, section, key, "");
    if v == "true" || v == "1" || v == "yes" then true
    else if v == "false" || v == "0" || v == "no" then false
    else default
  }

  // ---- Printed configurations ----

  datatype Entry = Entry(key: string, value: string)

  datatype Section = Section(name: string, entries: seq<Entry>)

  predicate GoodName(s: string) {
    s != [] && forall c :: c in s ==> c !in " \t\r\n{\"#"
  }

  predicate GoodKey(s: string) {
    s != [] && s[0] !in SPACES && s[|s| - 1] !in " \t" && forall c :: c in s ==> c !in "\"#=\n"
  }

  /** Values may hold anything but quotes and line breaks, with no blanks at the ends. */
  predicate GoodValue(s: string) {
    '"' !in s && '\n' !in s && Trimmed(s, " \t")
  }

  predicate GoodEntry(e: Entry) {
    GoodKey(e.key) && GoodValue(e.value)
  }

  predicate GoodSection(s: Section) {
    GoodName(s.name) && forall i :: 0 <= i < |s.entries| ==> GoodEntry(s.entries[i])
  }

  function EntryLine(e: Entry): string {
    e.key + " = \"" + e.value + "\""
  }

  function EntryLines(es: seq<Entry>): (r: seq<string>)
    ensures |r| == |es| && forall i :: 0 <= i < |r| ==> r[i] == EntryLine(es[i])
  {
    seq(|es|, i requires 0 <= i < |es| => EntryLine(es[i]))
  }

  function SectionLines(s: Section): seq<string> {
    [s.name + " {"] + EntryLines(s.entries) + ["}"]
  }

  function ConfigLines(ss: seq<Section>): seq<string> {
    if ss == [] then [] else SectionLines(ss[0]) + ConfigLines(ss[1..])
  }

  // ---- Comments and blanks ----

  /** Even number of quotes: the line ends outside quotes. */
  predicate EndsQuoted(line: string, inQuote: bool) {
    if line == [] then inQuote else EndsQuoted(line[1..], if line[0] == '"' then !inQuote else inQuote)
  }

  lemma {:induction false} StripClean(line: string, inQuote: bool)
    requires '#' !in line
    ensures Strip(line, inQuote) == line
    decreases line
  {
    if line != [] {
      StripClean(line[1..], if line[0] == '"' then !inQuote else inQuote);
      assert line == [line[0]] + line[1..];
    }
  }

  function AfterChar(c: char, inQuote: bool): bool {
    if c == '"' then !inQuote else inQuote
  }

  lemma StripStep(c: char, rest: string, inQuote: bool)
    ensures Strip([c] + rest, inQuote) ==
            if c == '#' && !inQuote then [] else [c] + Strip(rest, AfterChar(c, inQuote))
    ensures EndsQuoted([c] + rest, inQuote) == EndsQuoted(rest, AfterChar(c, inQuote))
  {
    assert ([c] + rest)[1..] == rest;
  }

  lemma {:induction false} StripConcat(a: string, b: string, inQuote: bool)
    requires Strip(a, inQuote) == a
    ensures Strip(a + b, inQuote) == a + Strip(b, EndsQuoted(a, inQuote))
    decreases a
  {
    hide Strip, AfterChar, EndsQuoted;
    if a == [] {
      assert a + b == b;
      NoQuotes(a, inQuote);
    } else {
      var c, rest := a[0], a[1..];
      var next := AfterChar(c, inQuote);
      assert a == [c] + rest;
      StripStep(c, rest, inQuote);
      Regroup([c], rest, b);
      StripStep(c, rest + b, inQuote);
      assert Strip(rest, next) == a[1..];
      StripConcat(rest, b, next);
      Regroup([c], rest, Strip(b, EndsQuoted(rest, next)));
    }
  }

  /** Inside quotes a # is kept. */
  lemma {:induction false} StripQuoted(line: string)
    requires '"' !in line
    ensures Strip(line, true) == line && EndsQuoted(line, true)
    decreases line
  {
    if line != [] {
      StripQuoted(line[1..]);
      assert line == [line[0]] + line[1..];
    }
  }

  lemma {:induction false} NoQuotes(line: string, inQuote: bool)
    requires '"' !in line
    ensures EndsQuoted(line, inQuote) == inQuote
    decreases line
  {
    if line != [] {
      NoQuotes(line[1..], inQuote);
    }
  }

  /** Only what stripping leaves of a line matters. */
  lemma SameStrip(s: State, a: string, b: string)
    requires Strip(a, false) == Strip(b, false)
    ensures LoadLine(s, a) == LoadLine(s, b)
  {
    hide Strip, Trim, Find, TrimRight, TrimLeft, Put, NameEnd;
  }

  /** A comment after a line that ends outside quotes changes nothing. */
  lemma CommentIgnored(s: State, line: string, comment: string)
    requires Strip(line, false) == line && !EndsQuoted(line, false)
    ensures LoadLine(s, line + "#" + comment) == LoadLine(s, line)
  {
    hide LoadLine, EndsQuoted;
    assert line + "#" + comment == line + ("#" + comment);
    StripConcat(line, "#" + comment, false);
    assert line + [] == line;
    SameStrip(s, line + "#" + comment, line);
  }

  /** Blank lines and pure comment lines change nothing. */
  lemma BlankIgnored(s: State, blank: string, comment: string)
    requires AllIn(blank, SPACES)
    ensures LoadLine(s, blank) == s && LoadLine(s, blank + "#" + comment) == s
  {
    StripClean(blank, false);
    NoQuotes(blank, false);
    TrimLeftOf(blank, [], SPACES);
    assert blank + [] == blank;
    CommentIgnored(s, blank, comment);
  }

  lemma {:induction false} LoadConcat(s: State, a: seq<string>, b: seq<string>)
    ensures LoadLines(s, a + b) == LoadLines(LoadLines(s, a), b)
    decreases a
  {
    hide LoadLine;
    if a == [] {
      assert a + b == b;
    } else {
      assert (a + b)[1..] == a[1..] + b;
      LoadConcat(LoadLine(s, a[0]), a[1..], b);
    }
  }

  /** A line that changes nothing can be put anywhere. */
  lemma LineAnywhere(s: State, before: seq<string>, idle: string, after: seq<string>)
    requires forall t: State :: LoadLine(t, idle) == t
    ensures LoadLines(s, before + [idle] + after) == LoadLines(s, before + after)
  {
    LoadConcat(s, before + [idle], after);
    LoadConcat(s, before, [idle]);
    LoadConcat(s, before, after);
    assert [idle][1..] == [];
  }

  // ---- Reading back what is printed ----

  lemma TrimNothing(s: string)
    requires Trimmed(s, SPACES)
    ensures Trim(s) == s
  {
  }

  lemma {:induction false} NameEndOf(name: string, rest: string)
    requires GoodName(name) || name == []
    requires rest != [] && rest[0] in " \t{"
    ensures NameEnd(name + rest) == |name|
    decreases name
  {
    if name == [] {
      assert name + rest == rest;
    } else {
      assert (name + rest)[1..] == name[1..] + rest && (name + rest)[0] in name;
      NameEndOf(name[1..], rest);
    }
  }

  lemma OpenLine(s: State, name: string)
    requires GoodName(name)
    ensures LoadLine(s, name + " {") == s.(section := name)
  {
    hide Strip, Find, Trim;
    var line := name + " {";
    assert '#' !in line;
    StripClean(line, false);
    assert line[0] == name[0] && name[0] in name;
    TrimNothing(line);
    NameEndOf(name, " {");
    assert line[..|name|] == name;
  }

  lemma CloseLine(s: State)
    ensures LoadLine(s, "}") == s.(section := [])
  {
    hide Find, Trim;
    StripClean("}", false);
    TrimNothing("}");
  }

  /** A quoted value keeps every # in it. */
  lemma StripEntry(e: Entry)
    requires GoodEntry(e)
    ensures Strip(EntryLine(e), false) == EntryLine(e)
  {
    hide Strip, EndsQuoted;
    var front := e.key + " = \"";
    assert '#' !in front;
    StripClean(front, false);
    QuoteOpens(e.key + " = ");
    assert front == e.key + " = " + "\"";
    StripQuoted(e.value);
    StripConcat(front, e.value, false);
    StripClean("\"", true);
    EndsConcat(front, e.value, false);
    StripConcat(front + e.value, "\"", false);
  }

  lemma {:induction false} EndsConcat(a: string, b: string, inQuote: bool)
    ensures EndsQuoted(a + b, inQuote) == EndsQuoted(b, EndsQuoted(a, inQuote))
    decreases a
  {
    if a == [] {
      assert a + b == b;
    } else {
      assert (a + b)[1..] == a[1..] + b;
      EndsConcat(a[1..], b, if a[0] == '"' then !inQuote else inQuote);
    }
  }

  lemma QuoteOpens(s: string)
    requires '"' !in s
    ensures EndsQuoted(s + "\"", false)
  {
    EndsConcat(s, "\"", false);
    NoQuotes(s, false);
    assert "\""[1..] == [];
  }

  /** The value between its quotes survives both trims. */
  lemma Unquote(value: string)
    requires GoodValue(value)
    ensures TrimRight(TrimLeft(" \"" + value + "\"", QUOTED), QUOTED) == value
  {
    hide TrimRight, TrimLeft;
    if value == [] {
      assert " \"" + value + "\"" == " \"\"" + [];
      TrimLeftOf(" \"\"", [], QUOTED);
      TrimRightOf([], [], QUOTED);
      assert value + value == value;
    } else {
      assert value[0] in value && value[|value| - 1] in value;
      var rest := value + "\"";
      assert " \"" + value + "\"" == " \"" + rest;
      TrimLeftOf(" \"", rest, QUOTED);
      TrimRightOf(value, "\"", QUOTED);
    }
  }

  lemma FindEquals(key: string, rest: string)
    requires '=' !in key
    ensures Find(key + " = " + rest, "=", 0) == |key| + 1
  {
    var s := key + " = " + rest;
    forall i | 0 <= i < |key| + 1 ensures !OccursAt(s, "=", i) {
      assert s[i] != '=';
      Mismatch(s, "=", i, 0);
    }
    assert s[|key| + 1..|key| + 2] == "=";
    FindIs(s, "=", 0, |key| + 1);
  }

  lemma EntryLoads(s: State, e: Entry)
    requires GoodEntry(e) && s.section != []
    ensures LoadLine(s, EntryLine(e)) == s.(data := Put(s.data, s.section, e.key, e.value))
  {
    hide Strip, Find, Trim, TrimLeft, TrimRight, Put, GoodValue;
    var line := EntryLine(e);
    StripEntry(e);
    assert line[0] == e.key[0] && line[|line| - 1] == '"';
    TrimNothing(line);
    var quoted := "\"" + e.value + "\"";
    assert line == e.key + " = " + quoted;
    FindEquals(e.key, quoted);
    assert line[..|e.key| + 1] == e.key + " ";
    TrimRightOf(e.key, " ", " \t");
    assert line[|e.key| + 2..] == " \"" + e.value + "\"";
    Unquote(e.value);
  }

  predicate Blank(s: string) {
    forall c :: c in s ==> c == ' ' || c == '\t'
  }

  /** An entry with any blanks and tabs around its equals sign. */
  function SpacedLine(e: Entry, before: string, after: string): string {
    e.key + before + ("=" + (after + ("\"" + e.value + "\"")))
  }

  lemma SpacedStrip(e: Entry, before: string, after: string)
    requires GoodEntry(e) && Blank(before) && Blank(after)
    ensures Strip(SpacedLine(e, before, after), false) == SpacedLine(e, before, after)
  {
    hide Strip, EndsQuoted;
    var front := e.key + before + "=" + after + "\"";
    assert '#' !in front;
    StripClean(front, false);
    QuoteOpens(e.key + before + "=" + after);
    StripQuoted(e.value);
    StripConcat(front, e.value, false);
    StripClean("\"", true);
    EndsConcat(front, e.value, false);
    StripConcat(front + e.value, "\"", false);
    assert SpacedLine(e, before, after) == front + e.value + "\"";
  }

  lemma FirstEquals(front: string, rest: string)
    requires '=' !in front
    ensures Find(front + ("=" + rest), "=", 0) == |front|
  {
    var s := front + ("=" + rest);
    forall i | 0 <= i < |front| ensures !OccursAt(s, "=", i) {
      assert s[i] == front[i];
      Mismatch(s, "=", i, 0);
    }
    assert s[|front|..|front| + 1] == "=";
    FindIs(s, "=", 0, |front|);
  }

  lemma UnquoteAfter(value: string, after: string)
    requires GoodValue(value) && Blank(after)
    ensures TrimRight(TrimLeft(after + ("\"" + value + "\""), QUOTED), QUOTED) == value
  {
    hide TrimRight, TrimLeft;
    var pad := after + "\"";
    assert AllIn(pad, QUOTED);
    if value == [] {
      assert after + ("\"" + value + "\"") == (pad + "\"") + [];
      TrimLeftOf(pad + "\"", [], QUOTED);
      TrimRightOf([], [], QUOTED);
      assert value + value == value;
    } else {
      assert value[0] in value && value[|value| - 1] in value;
      assert after + ("\"" + value + "\"") == pad + (value + "\"");
      TrimLeftOf(pad, value + "\"", QUOTED);
      TrimRightOf(value, "\"", QUOTED);
    }
  }

  /** An entry is stored the same with any blanks and tabs around its equals sign. */
  lemma SpacedEntryLoads(s: State, e: Entry, before: string, after: string)
    requires GoodEntry(e) && s.section != [] && Blank(before) && Blank(after)
    ensures LoadLine(s, SpacedLine(e, before, after)) == s.(data := Put(s.data, s.section, e.key, e.value))
  {
    hide Strip, Find, Trim, TrimLeft, TrimRight, Put, GoodValue;
    var line, quoted := SpacedLine(e, before, after), "\"" + e.value + "\"";
    SpacedStrip(e, before, after);
    assert line[0] == e.key[0] && line[|line| - 1] == '"';
    TrimNothing(line);
    FirstEquals(e.key + before, after + quoted);
    assert line[..|e.key + before|] == e.key + before;
    TrimRightOf(e.key, before, " \t");
    assert line[|e.key + before| + 1..] == after + quoted;
    UnquoteAfter(e.value, after);
  }

  function PutAll(data: Data, section: string, es: seq<Entry>): Data
    decreases es
  {
    if es == [] then data else PutAll(Put(data, section, es[0].key, es[0].value), section, es[1..])
  }

  /** The settings a configuration stands for; a repeated key keeps its last value. */
  function Settings(data: Data, ss: seq<Section>): Data
    decreases ss
  {
    if ss == [] then data else Settings(PutAll(data, ss[0].name, ss[0].entries), ss[1..])
  }

  lemma {:induction false} EntriesLoad(s: State, es: seq<Entry>)
    requires s.section != [] && forall i :: 0 <= i < |es| ==> GoodEntry(es[i])
    ensures LoadLines(s, EntryLines(es)) == s.(data := PutAll(s.data, s.section, es))
    decreases es
  {
    hide LoadLine, GoodEntry, Put;
    if es != [] {
      EntryLoads(s, es[0]);
      EntriesLoad(LoadLine(s, EntryLine(es[0])), es[1..]);
      assert EntryLines(es)[1..] == EntryLines(es[1..]);
    }
  }

  lemma SectionLoads(s: State, sec: Section)
    requires GoodSection(sec) && s.section == []
    ensures LoadLines(s, SectionLines(sec)) == s.(data := PutAll(s.data, sec.name, sec.entries))
  {
    hide LoadLine, GoodEntry, PutAll, EntryLines;
    var open, body, close := [sec.name + " {"], EntryLines(sec.entries), ["}"];
    OpenLine(s, sec.name);
    var t := s.(section := sec.name);
    assert open[1..] == [] && close[1..] == [];
    assert LoadLines(s, open) == t;
    EntriesLoad(t, sec.entries);
    LoadConcat(s, open, body);
    LoadConcat(s, open + body, close);
    CloseLine(LoadLines(t, body));
  }

  lemma {:induction false} ConfigLoads(s: State, ss: seq<Section>)
    requires s.section == [] && forall i :: 0 <= i < |ss| ==> GoodSection(ss[i])
    ensures LoadLines(s, ConfigLines(ss)) == s.(data := Settings(s.data, ss))
    decreases ss
  {
    hide LoadLine, GoodSection, PutAll, SectionLines;
    if ss != [] {
      SectionLoads(s, ss[0]);
      LoadConcat(s, SectionLines(ss[0]), ConfigLines(ss[1..]));
      ConfigLoads(LoadLines(s, SectionLines(ss[0])), ss[1..]);
    }
  }

  lemma {:induction false} NoBreaks(ss: seq<Section>)
    requires forall i :: 0 <= i < |ss| ==> GoodSection(ss[i])
    ensures forall i :: 0 <= i < |ConfigLines(ss)| ==> '\n' !in ConfigLines(ss)[i]
    decreases ss
  {
    if ss != [] {
      NoBreaks(ss[1..]);
      var sec := ss[0];
      forall i | 0 <= i < |sec.entries| ensures '\n' !in EntryLine(sec.entries[i]) {
        assert GoodEntry(sec.entries[i]);
      }
    }
  }

  /** Loading a printed configuration file gives exactly its settings. */
  lemma LoadRoundTrip(ss: seq<Section>)
    requires forall i :: 0 <= i < |ss| ==> GoodSection(ss[i])
    ensures Load(PrintLines(ConfigLines(ss))) == Settings(map[], ss)
  {
    hide GoodSection, LoadLines;
    NoBreaks(ss);
    LinesRoundTrip(ConfigLines(ss));
    ConfigLoads(State([], map[]), ss);
  }

  /** A line of blanks, with or without a comment. */
  predicate IdleLine(line: string) {
    exists n :: 0 <= n <= |line| && AllIn(line[..n], SPACES) && (n == |line| || line[n] == '#')
  }

  lemma IdleLineIgnored(s: State, line: string)
    requires IdleLine(line)
    ensures LoadLine(s, line) == s
  {
    hide LoadLine;
    var n :| 0 <= n <= |line| && AllIn(line[..n], SPACES) && (n == |line| || line[n] == '#');
    if n == |line| {
      assert line[..n] == line;
      BlankIgnored(s, line, []);
    } else {
      assert line == line[..n] + "#" + line[n + 1..];
      BlankIgnored(s, line[..n], line[n + 1..]);
    }
  }

  predicate OneLineEach(lines: seq<string>) {
    forall i :: 0 <= i < |lines| ==> '\n' !in lines[i]
  }

  /** Blank lines and comment lines can be added anywhere in a file, whatever else it holds. */
  lemma IdleLineAnywhere(before: seq<string>, idle: string, after: seq<string>)
    requires OneLineEach(before) && '\n' !in idle && OneLineEach(after) && IdleLine(idle)
    ensures Load(PrintLines(before + [idle] + after)) == Load(PrintLines(before + after))
  {
    hide LoadLine, LoadLines, PrintLines, Lines, IdleLine;
    LinesRoundTrip(before + [idle] + after);
    LinesRoundTrip(before + after);
    forall t: State ensures LoadLine(t, idle) == t {
      IdleLineIgnored(t, idle);
    }
    LineAnywhere(State([], map[]), before, idle, after);
  }

  // ---- Looking settings up ----

  predicate DistinctNames(ss: seq<Section>) {
    forall i, j :: 0 <= i < j < |ss| ==> ss[i].name != ss[j].name
  }

  predicate DistinctKeys(es: seq<Entry>) {
    forall i, j :: 0 <= i < j < |es| ==> es[i].key != es[j].key
  }

  lemma {:induction false} PutAllGet(data: Data, section: string, es: seq<Entry>, other: string, key: string)
    requires section != other || forall i :: 0 <= i < |es| ==> es[i].key != key
    ensures forall d :: Get(PutAll(data, section, es), other, key, d) == Get(data, other, key, d)
    decreases es
  {
    if es != [] {
      PutAllGet(Put(data, section, es[0].key, es[0].value), section, es[1..], other, key);
    }
  }

  lemma {:induction false} PutAllFinds(data: Data, section: string, es: seq<Entry>, k: nat)
    requires k < |es| && DistinctKeys(es)
    ensures forall d :: Get(PutAll(data, section, es), section, es[k].key, d) == es[k].value
    decreases es
  {
    var next := Put(data, section, es[0].key, es[0].value);
    if k == 0 {
      PutAllGet(next, section, es[1..], section, es[0].key);
    } else {
      PutAllFinds(next, section, es[1..], k - 1);
    }
  }

  lemma {:induction false} SettingsKeep(data: Data, ss: seq<Section>, other: string, key: string)
    requires forall i :: 0 <= i < |ss| ==> ss[i].name != other
    ensures forall d :: Get(Settings(data, ss), other, key, d) == Get(data, other, key, d)
    decreases ss
  {
    if ss != [] {
      PutAllGet(data, ss[0].name, ss[0].entries, other, key);
      SettingsKeep(PutAll(data, ss[0].name, ss[0].entries), ss[1..], other, key);
    }
  }

  lemma {:induction false} SettingsFind(data: Data, ss: seq<Section>, i: nat, k: nat)
    requires i < |ss| && k < |ss[i].entries| && DistinctNames(ss) && DistinctKeys(ss[i].entries)
    ensures forall d :: Get(Settings(data, ss), ss[i].name, ss[i].entries[k].key, d) == ss[i].entries[k].value
    decreases ss
  {
    hide PutAll, Get;
    var next := PutAll(data, ss[0].name, ss[0].entries);
    if i == 0 {
      PutAllFinds(data, ss[0].name, ss[0].entries, k);
      SettingsKeep(next, ss[1..], ss[0].name, ss[0].entries[k].key);
    } else {
      SettingsFind(next, ss[1..], i - 1, k);
    }
  }

  /** Every value of a printed configuration is found under its section and key, whatever the default. */
  lemma GetAfterLoad(ss: seq<Section>, i: nat, k: nat, default: string)
    requires forall j :: 0 <= j < |ss| ==> GoodSection(ss[j])
    requires i < |ss| && k < |ss[i].entries| && DistinctNames(ss) && DistinctKeys(ss[i].entries)
    ensures Get(Load(PrintLines(ConfigLines(ss))), ss[i].name, ss[i].entries[k].key, default) == ss[i].entries[k].value
  {
    LoadRoundTrip(ss);
    SettingsFind(map[], ss, i, k);
  }

  /** A printed truth value is read as what it says, and any other value as the default. */
  lemma BoolAfterLoad(ss: seq<Section>, i: nat, k: nat, default: bool)
    requires forall j :: 0 <= j < |ss| ==> GoodSection(ss[j])
    requires i < |ss| && k < |ss[i].entries| && DistinctNames(ss) && DistinctKeys(ss[i].entries)
    ensures var v := ss[i].entries[k].value;
            var r := GetBool(Load(PrintLines(ConfigLines(ss))), ss[i].name, ss[i].entries[k].key, default);
            && (v in ["true", "1", "yes"] ==> r)
            && (v in ["false", "0", "no"] ==> !r)
            && (v !in ["true", "1", "yes", "false", "0", "no"] ==> r == default)
  {
    hide Load, Get, GoodSection, PrintLines, ConfigLines, DistinctNames, DistinctKeys;
    GetAfterLoad(ss, i, k, "");
  }

  /** No section of the configuration prints this key. */
  predicate NotPrinted(ss: seq<Section>, section: string, key: string) {
    forall i, k :: 0 <= i < |ss| && 0 <= k < |ss[i].entries| ==> ss[i].name != section || ss[i].entries[k].key != key
  }

  lemma {:induction false} SettingsLack(data: Data, ss: seq<Section>, section: string, key: string)
    requires NotPrinted(ss, section, key)
    ensures forall d :: Get(Settings(data, ss), section, key, d) == Get(data, section, key, d)
    decreases ss
  {
    hide PutAll, Get;
    if ss != [] {
      var rest := ss[1..];
      assert forall i :: 0 <= i < |rest| ==> rest[i] == ss[i + 1];
      PutAllGet(data, ss[0].name, ss[0].entries, section, key);
      SettingsLack(PutAll(data, ss[0].name, ss[0].entries), rest, section, key);
    }
  }

  /** What a configuration does not print is found as the default, for every section and key. */
  lemma DefaultAfterLoad(ss: seq<Section>, section: string, key: string, default: string, flag: bool)
    requires forall j :: 0 <= j < |ss| ==> GoodSection(ss[j])
    requires NotPrinted(ss, section, key)
    ensures Get(Load(PrintLines(ConfigLines(ss))), section, key, default) == default
    ensures GetBool(Load(PrintLines(ConfigLines(ss))), section, key, flag) == flag
  {
    hide GoodSection, Load, PrintLines, ConfigLines, Settings;
    LoadRoundTrip(ss);
    SettingsLack(map[], ss, section, key);
  }

  // ---- Line ends and indentation ----

  lemma {:induction false} StripLast(line: string, c: char, inQuote: bool)
    requires c != '"' && c != '#'
    ensures Strip(line + [c], inQuote) == Strip(line, inQuote) ||
            Strip(line + [c], inQuote) == Strip(line, inQuote) + [c]
    decreases line
  {
    if line == [] {
      assert [] + [c] == [c] && [c][1..] == [];
    } else {
      assert (line + [c])[1..] == line[1..] + [c];
      StripLast(line[1..], c, if line[0] == '"' then !inQuote else inQuote);
    }
  }

  lemma {:induction false} TrimLeftSnoc(s: string, c: char)
    ensures TrimLeft(s + [c], SPACES) ==
            if TrimLeft(s, SPACES) == [] then TrimLeft([c], SPACES) else TrimLeft(s, SPACES) + [c]
    decreases s
  {
    if s == [] {
      assert [] + [c] == [c];
    } else if s[0] in SPACES {
      assert (s + [c])[1..] == s[1..] + [c];
      TrimLeftSnoc(s[1..], c);
    }
  }

  lemma TrimLast(s: string, c: char)
    requires c == ' ' || c == '\t' || c == '\r'
    ensures Trim(s + [c]) == Trim(s)
  {
    TrimLeftSnoc(s, c);
    assert c in SPACES;
    assert [c][1..] == [];
    var t := TrimLeft(s, SPACES);
    assert (t + [c])[..|t|] == t;
  }

  /** Blanks, tabs and a carriage return at the end of a line, or blanks and tabs before it, change nothing. */
  lemma PaddingIgnored(s: State, line: string, c: char)
    requires c == ' ' || c == '\t' || c == '\r'
    ensures LoadLine(s, line + [c]) == LoadLine(s, line) && LoadLine(s, [c] + line) == LoadLine(s, line)
  {
    hide Strip, Find, TrimLeft, TrimRight, Put, NameEnd, Trim;
    StripLast(line, c, false);
    TrimLast(Strip(line, false), c);
    StripStep(c, line, false);
    TrimFirst(Strip(line, false), c);
  }

  lemma TrimFirst(s: string, c: char)
    requires c == ' ' || c == '\t' || c == '\r'
    ensures Trim([c] + s) == Trim(s)
  {
    hide TrimRight;
    assert c in SPACES && ([c] + s)[1..] == s;
  }

  // ---- The reader ----

  /** One character of the comment-stripping loop. */
  lemma StripNext(stripped: string, line: string, i: nat, inQuote: bool)
    requires i < |line|
    ensures stripped + Strip(line[i..], inQuote) ==
            if line[i] == '#' && !inQuote then stripped
            else (stripped + [line[i]]) + Strip(line[i + 1..], AfterChar(line[i], inQuote))
  {
    hide Strip, AfterChar;
    assert line[i..] == [line[i]] + line[i + 1..];
    StripStep(line[i], line[i + 1..], inQuote);
    if line[i] == '#' && !inQuote {
      assert stripped + [] == stripped;
    } else {
      Regroup(stripped, [line[i]], Strip(line[i + 1..], AfterChar(line[i], inQuote)));
    }
  }

  lemma StripEnd(stripped: string, line: string, inQuote: bool)
    ensures stripped + Strip(line[|line|..], inQuote) == stripped
  {
  }

  /** The comment-stripping loop. */
  method StripComment(line: string) returns (stripped: string)
    ensures stripped == Strip(line, false)
  {
    hide Strip;
    var inQuote := false;
    stripped := [];
    assert line[0..] == line;
    for i := 0 to |line|
      invariant stripped + Strip(line[i..], inQuote) == Strip(line, false)
    {
      var c := line[i];
      StripNext(stripped, line, i, inQuote);
      if c == '"' {
        inQuote := !inQuote;
        stripped := stripped + [c];
      } else if c == '#' && !inQuote {
        return;
      } else {
        stripped := stripped + [c];
      }
    }
    StripEnd(stripped, line, inQuote);
  }

  /** The configuration file as loaded, and the lookups on it. */
  class Reader {
    var data: Data

    constructor ()
      ensures data == map[]
    {
      data := map[];
    }

    /** Reads a file's text over what is there already. */
    method LoadText(text: string)
      modifies this
      ensures data == LoadLines(State([], old(data)), Lines(text, [])).data
    {
      hide Strip, Trim, Find, TrimLeft, TrimRight, Put;
      var lines := ReadLines(text);
      var section: string := [];
      for i := 0 to |lines|
        invariant LoadLines(State(section, data), lines[i..]) == LoadLines(State([], old(data)), lines)
      {
        ghost var before := State(section, data);
        assert lines[i..][1..] == lines[i + 1..];
        var line := StripComment(lines[i]);
        line := Trim(line);
        if line == [] {
          continue;
        }
        if line[|line| - 1] == '{' {
          section := line[..NameEnd(line)];
        } else if line == "}" {
          section := [];
        } else {
          var eq := Find(line, "=", 0);
          if eq == NPOS || section == [] {
            continue;
          }
          var k := TrimRight(line[..eq], " \t");
          var v := TrimRight(TrimLeft(line[eq + 1..], QUOTED), QUOTED);
          data := Put(data, section, k, v);
        }
        assert State(section, data) == LoadLine(before, lines[i]);
      }
    }
  }
}
