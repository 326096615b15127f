/** The text of the configuration file (ya_config.c:25-171, 224-253): what parsing reads from it and what
    saving writes to it. Texts are strings without NUL characters. */
module ConfigText {
  import opened Bytes

  // Buffer sizes, each with its terminating NUL.
  const MAX_LINE_LENGTH: nat := 256
  const MAX_SECTION_LENGTH: nat := 64
  const MAX_KEY_LENGTH: nat := 64
  const MAX_VALUE_LENGTH: nat := 256

  datatype Entry = Entry(section: string, key: string, value: string)

  /** isspace in the C locale. */
  predicate IsSpace(c: char) { c in {' ', '\t', '\n', '\r', 11 as char, 12 as char} }

  function DropLeading(s: string): string {
    if s != [] && IsSpace(s[0]) then DropLeading(s[1..]) else s
  }

  function DropTrailing(s: string): string {
    if s != [] && IsSpace(s[|s| - 1]) then DropTrailing(s[..|s| - 1]) else s
  }

  /** trim_whitespace. */
  function Trim(s: string): string { DropTrailing(DropLeading(s)) }

  /** strchr as an index: the first c, or |s|. */
  function Find(s: string, c: char): (i: nat)
    ensures i <= |s| && (i < |s| ==> s[i] == c) && forall j | 0 <= j < i :: s[j] != c
  {
    if s == [] || s[0] == c then 0 else 1 + Find(s[1..], c)
  }

  /** strrchr: the last c, or |s|. */
  function FindLast(s: string, c: char): (i: nat)
    ensures i <= |s| && (i < |s| ==> s[i] == c)
    ensures forall j | 0 <= j < |s| && (i < |s| ==> j > i) :: s[j] != c
  {
    if s == [] then 0
    else if s[|s| - 1] == c then |s| - 1
    else var i := FindLast(s[..|s| - 1], c); if i < |s| - 1 then i else |s|
  }

  /** remove_inline_comment: first at a semicolon, then at a hash sign. */
  function RemoveComment(s: string): string {
    var a := s[..Find(s, ';')];
    Trim(a[..Find(a, '#')])
  }

  /** A quoted value loses the opening quote, and everything from the last quote on. */
  function Unquote(s: string): string {
    if s != [] && s[0] == '"' && FindLast(s[1..], '"') < |s| - 1 then s[1..][..FindLast(s[1..], '"')] else s
  }

  /** safe_strncpy into a buffer of n bytes. */
  function Truncate(s: string, n: nat): string
    requires n > 0
  {
    s[..Min(|s|, n - 1)]
  }

  function ValueOf(s: string): string { Unquote(RemoveComment(Trim(s))) }

  function SizedEntry(section: string, key: string, value: string): Entry {
    Entry(Truncate(section, MAX_SECTION_LENGTH), Truncate(key, MAX_KEY_LENGTH), Truncate(value, MAX_VALUE_LENGTH))
  }

  /** What parsing has found so far. */
  datatype Parsed = Parsed(section: string, entries: seq<Entry>)

  /** One line as fgets delivered it. */
  function ParseLine(st: Parsed, line: string): Parsed {
    var start := Trim(line);
    if start == [] || start[0] == ';' || start[0] == '#' then st
    else if start[0] == '[' then
      var end := Find(start, ']');
      if end < |start| then st.(section := Trim(Truncate(start[1..end], MAX_SECTION_LENGTH))) else st
    else
      var end := Find(start, '=');
      if end < |start| then
        st.(entries := st.entries + [SizedEntry(st.section, Trim(start[..end]), ValueOf(start[end + 1..]))])
      else st
  }

  /** How much fgets reads: through the next newline, but at most 255 characters. */
  function LineLength(text: string): (n: nat)
    requires text != []
    ensures 0 < n <= |text| && n < MAX_LINE_LENGTH
  {
    var window := text[..Min(|text|, MAX_LINE_LENGTH - 1)];
    if Find(window, '\n') < |window| then Find(window, '\n') + 1 else |window|
  }

  /** ya_config_parse on the text of the file. */
  function Parse(text: string, st: Parsed): Parsed
    decreases |text|
  {
    if text == [] then st else Parse(text[LineLength(text)..], ParseLine(st, text[..LineLength(text)]))
  }

  function EntryLine(e: Entry): string { e.key + "=" + e.value }

  function SectionLine(i: nat, e: Entry): string { (if i > 0 then "\n" else "") + "[" + e.section + "]\n" }

  /** ya_config_save from the i-th entry on, where `last` is the section printed last. */
  function Save(es: seq<Entry>, i: nat, last: string): string
    requires i <= |es|
    decreases |es| - i
  {
    if i == |es| then "" else
    (if last != es[i].section then SectionLine(i, es[i]) else "") + (EntryLine(es[i]) + "\n" + Save(es, i + 1, es[i].section))
  }

  // Printing and parsing.

  predicate NoEdgeSpace(s: string) {
    s != [] ==> !IsSpace(s[0]) && !IsSpace(s[|s| - 1])
  }

  /** Fields that the file format can hold: within their buffers, and without what the parser takes for
      something else. */
  predicate Printable(e: Entry) {
    && |e.section| < MAX_SECTION_LENGTH && |e.key| < MAX_KEY_LENGTH && |e.value| < MAX_VALUE_LENGTH
    && NoEdgeSpace(e.section) && NoEdgeSpace(e.key) && NoEdgeSpace(e.value)
    && '\n' !in e.section && '\n' !in e.key && '\n' !in e.value
    && ']' !in e.section && '=' !in e.key && ';' !in e.value && '#' !in e.value
    && (e.key != [] ==> e.key[0] !in {'[', ';', '#'})
    && (e.value != [] ==> e.value[0] != '"')
  }

  lemma FindAt(s: string, c: char, i: nat)
    requires i <= |s| && c !in s[..i] && (i < |s| ==> s[i] == c)
    ensures Find(s, c) == i
  {
    assert forall k | 0 <= k < i :: s[k] == s[..i][k];
  }

  lemma FindNone(s: string, c: char)
    requires c !in s
    ensures Find(s, c) == |s| && s[..Find(s, c)] == s
  {
  }

  lemma TrimNothing(s: string)
    requires NoEdgeSpace(s)
    ensures Trim(s) == s
  {
  }

  /** White space in front and behind is trimmed. */
  lemma {:induction false} DropWhite(a: string, s: string)
    requires forall i | 0 <= i < |a| :: IsSpace(a[i])
    ensures DropLeading(a + s) == DropLeading(s) && DropTrailing(s + a) == DropTrailing(s)
    decreases |a|
  {
    if a == [] {
      assert a + s == s == s + a;
    } else {
      DropWhite(a[1..], s);
      assert (a + s)[1..] == a[1..] + s;
      var n := |a| - 1;
      DropWhite(a[..n], s);
      assert (s + a)[..|s + a| - 1] == s + a[..n];
    }
  }

  lemma TrimAround(a: string, s: string, b: string)
    requires forall i | 0 <= i < |a| :: IsSpace(a[i])
    requires forall i | 0 <= i < |b| :: IsSpace(b[i])
    requires NoEdgeSpace(s)
    ensures Trim(a + s + b) == s
  {
    assert a + s + b == a + (s + b);
    DropWhite(a, s + b);
    if s == [] {
      assert s + b == b == b + [];
      DropWhite(b, []);
    } else {
      assert (s + b)[0] == s[0];
      DropWhite(b, s);
    }
  }

  lemma TrimNewline(s: string)
    ensures Trim(s + "\n") == Trim(s)
  {
    if s != [] && IsSpace(s[0]) {
      assert (s + "\n")[1..] == s[1..] + "\n";
      TrimNewline(s[1..]);
    } else if s == [] {
      assert DropLeading("\n") == DropLeading("\n"[1..]) == [];
      assert s + "\n" == "\n";
    } else {
      assert DropLeading(s + "\n") == s + "\n";
      DropWhite("\n", s);
    }
  }

  /** A line of up to 255 characters is parsed as it was written, with or without its newline. */
  lemma LineParsed(line: string, rest: string, st: Parsed)
    requires '\n' !in line && |line| < MAX_LINE_LENGTH
    ensures Parse(line + "\n" + rest, st) == Parse(rest, ParseLine(st, line))
  {
    hide ParseLine, Trim;
    var text := line + "\n" + rest;
    var window := text[..Min(|text|, MAX_LINE_LENGTH - 1)];
    if |line| < MAX_LINE_LENGTH - 1 {
      assert window[..|line|] == line && window[|line|] == '\n';
      FindAt(window, '\n', |line|);
      assert text[..|line| + 1] == line + "\n" && text[|line| + 1..] == rest;
      SameLine(st, line);
    } else {
      assert window == line;
      FindNone(window, '\n');
      assert text[|line|..] == "\n" + rest;
      NewlineSkipped(rest, ParseLine(st, line));
    }
  }

  lemma SameLine(st: Parsed, line: string)
    ensures ParseLine(st, line + "\n") == ParseLine(st, line)
  {
    hide Trim;
    TrimNewline(line);
  }

  /** Empty lines mean nothing. */
  lemma NewlineSkipped(rest: string, st: Parsed)
    ensures Parse("\n" + rest, st) == Parse(rest, st)
  {
    var text := "\n" + rest;
    var window := text[..Min(|text|, MAX_LINE_LENGTH - 1)];
    FindAt(window, '\n', 0);
    assert text[..1] == "" + "\n" && text[1..] == rest;
    TrimNewline("");
  }

  lemma TruncateNothing(s: string, n: nat)
    requires |s| < n
    ensures Truncate(s, n) == s
  {
  }

  lemma SectionParsed(e: Entry, st: Parsed)
    requires Printable(e)
    ensures ParseLine(st, "[" + e.section + "]") == st.(section := e.section)
  {
    hide Trim;
    var line := "[" + e.section + "]";
    assert NoEdgeSpace(line);
    TrimNothing(line);
    assert line[..|e.section| + 1] == "[" + e.section;
    FindAt(line, ']', |e.section| + 1);
    assert line[1..|e.section| + 1] == e.section;
    TruncateNothing(e.section, MAX_SECTION_LENGTH);
    TrimNothing(e.section);
  }

  lemma ValueKept(v: string)
    requires NoEdgeSpace(v) && ';' !in v && '#' !in v && (v != [] ==> v[0] != '"')
    ensures ValueOf(v) == v
  {
    hide Trim, FindLast;
    TrimNothing(v);
    FindNone(v, ';');
    FindNone(v, '#');
  }

  lemma EntryParsed(e: Entry, st: Parsed)
    requires Printable(e) && st.section == e.section
    ensures NoEdgeSpace(EntryLine(e)) && '\n' !in EntryLine(e)
    ensures ParseLine(st, EntryLine(e)) == st.(entries := st.entries + [e])
  {
    hide Trim, ValueOf;
    var line := EntryLine(e);
    assert line[|e.key|] == '=' && line[..|e.key|] == e.key && line[|e.key| + 1..] == e.value;
    TrimNothing(line);
    FindAt(line, '=', |e.key|);
    TrimNothing(e.key);
    ValueKept(e.value);
    TruncateNothing(e.section, MAX_SECTION_LENGTH);
    TruncateNothing(e.key, MAX_KEY_LENGTH);
    TruncateNothing(e.value, MAX_VALUE_LENGTH);
  }

  predicate AllPrintable(es: seq<Entry>) {
    forall i | 0 <= i < |es| :: Printable(es[i])
  }

  /** A line that fgets delivers in one piece, perhaps without its newline. */
  predicate Fits(e: Entry) { |EntryLine(e)| < MAX_LINE_LENGTH }

  lemma SectionText(i: nat, e: Entry, rest: string)
    ensures var line := "[" + e.section + "]" + "\n" + rest;
            SectionLine(i, e) + rest == if i > 0 then "\n" + line else line
  {
    var line := "[" + e.section + "]" + "\n" + rest;
    if i > 0 {
      assert "\n" + "[" + e.section + "]\n" + rest == "\n" + line;
    } else {
      assert "" + "[" + e.section + "]\n" + rest == line;
    }
  }

  /** The section line in front of an entry, if any, only sets the section. */
  lemma SectionRead(es: seq<Entry>, i: nat, last: string, st: Parsed)
    requires i < |es| && Printable(es[i]) && st.section == last
    ensures Parse(Save(es, i, last), st)
            == Parse(EntryLine(es[i]) + "\n" + Save(es, i + 1, es[i].section), st.(section := es[i].section))
  {
    hide Parse, ParseLine, Trim, EntryLine, SectionLine;
    var e, rest := es[i], EntryLine(es[i]) + "\n" + Save(es, i + 1, es[i].section);
    if last != e.section {
      var line := "[" + e.section + "]";
      LineParsed(line, rest, st);
      SectionParsed(e, st);
      SectionText(i, e, rest);
      if i > 0 {
        NewlineSkipped(line + "\n" + rest, st);
      }
    } else {
      assert Save(es, i, last) == "" + rest == rest;
    }
  }

  /** Parsing what was saved, from the i-th entry on. */
  lemma {:induction false} SavedParsed(es: seq<Entry>, i: nat, last: string, st: Parsed)
    requires i <= |es| && AllPrintable(es) && st.section == last
    requires forall k | i <= k < |es| :: Fits(es[k])
    ensures Parse(Save(es, i, last), st).entries == st.entries + es[i..]
    decreases |es| - i
  {
    hide Parse, ParseLine, Trim, EntryLine;
    if i == |es| {
      ParseNothing(st);
      assert st.entries + [] == st.entries;
    } else {
      var e := es[i];
      SectionRead(es, i, last, st);
      var st1 := st.(section := e.section);
      EntryParsed(e, st1);
      assert Fits(e);
      LineParsed(EntryLine(e), Save(es, i + 1, e.section), st1);
      SavedParsed(es, i + 1, e.section, st1.(entries := st.entries + [e]));
      assert st.entries + [e] + es[i + 1..] == st.entries + es[i..];
    }
  }

  lemma ParseNothing(st: Parsed)
    ensures Parse("", st) == st
  {
  }

  // Lines that are too long.

  lemma {:induction false} ParseExtends(text: string, st: Parsed)
    ensures st.entries <= Parse(text, st).entries
    decreases |text|
  {
    hide Trim, ValueOf, LineLength;
    if text != [] {
      ParseExtends(text[LineLength(text)..], ParseLine(st, text[..LineLength(text)]));
    }
  }

  lemma {:induction false} DropTrailingBehind(a: string, c: char, b: string)
    requires !IsSpace(c)
    ensures DropTrailing(a + [c] + b) == a + [c] + DropTrailing(b)
  {
    var s := a + [c] + b;
    if b != [] && IsSpace(b[|b| - 1]) {
      assert s[..|s| - 1] == a + [c] + b[..|b| - 1];
      DropTrailingBehind(a, c, b[..|b| - 1]);
    } else {
      assert b == [] ==> s[|s| - 1] == c;
    }
  }

  lemma {:induction false} Shorter(s: string)
    ensures |DropLeading(s)| <= |s| && |DropTrailing(s)| <= |s|
  {
    if s != [] {
      Shorter(s[1..]);
      Shorter(s[..|s| - 1]);
    }
  }

  lemma ValueShorter(s: string)
    ensures |ValueOf(s)| <= |s|
  {
    hide DropLeading, DropTrailing, Find, FindLast;
    Shorter(s);
    Shorter(DropLeading(s));
    var t := Trim(s);
    var a := t[..Find(t, ';')];
    var b := a[..Find(a, '#')];
    Shorter(b);
    Shorter(DropLeading(b));
  }

  /** The first part of a line that is cut off inside its value yields a shorter value. */
  lemma CutEntry(e: Entry, n: nat, st: Parsed)
    requires Printable(e) && st.section == e.section && n < |e.value|
    ensures var got := ParseLine(st, e.key + "=" + e.value[..n]);
            |got.entries| == |st.entries| + 1 && got.entries[..|st.entries|] == st.entries && got.entries[|st.entries|] != e
  {
    hide DropTrailing, ValueOf, FindLast;
    var line := e.key + "=" + e.value[..n];
    var value := DropTrailing(e.value[..n]);
    assert DropLeading(line) == line;
    DropTrailingBehind(e.key, '=', e.value[..n]);
    var start := e.key + "=" + value;
    assert Trim(line) == start;
    assert start[..|e.key|] == e.key && start[|e.key| + 1..] == value;
    FindAt(start, '=', |e.key|);
    Shorter(e.value[..n]);
    ValueShorter(value);
  }

  /** An entry whose line is longer than 255 characters does not come back. */
  lemma LongEntryBroken(e: Entry, rest: string, st: Parsed)
    requires Printable(e) && st.section == e.section && !Fits(e)
    ensures var got := Parse(EntryLine(e) + "\n" + rest, st).entries;
            |got| > |st.entries| && got[|st.entries|] != e
  {
    hide ParseLine, Parse, Trim;
    var text := EntryLine(e) + "\n" + rest;
    var n := MAX_LINE_LENGTH - 2 - |e.key|;
    var window := text[..MAX_LINE_LENGTH - 1];
    assert window == e.key + "=" + e.value[..n];
    FindNone(window, '\n');
    CutEntry(e, n, st);
    ParseExtends(text[MAX_LINE_LENGTH - 1..], ParseLine(st, window));
    ParseUnfold(text, st);
  }

  lemma ParseUnfold(text: string, st: Parsed)
    requires text != []
    ensures Parse(text, st) == Parse(text[LineLength(text)..], ParseLine(st, text[..LineLength(text)]))
  {
  }

  lemma {:induction false} SavedBroken(es: seq<Entry>, i: nat, last: string, st: Parsed, bad: nat)
    requires i <= bad < |es| && AllPrintable(es) && st.section == last
    requires !Fits(es[bad]) && forall k | i <= k < bad :: Fits(es[k])
    ensures var got := Parse(Save(es, i, last), st).entries;
            |got| > |st.entries| + (bad - i) && got[|st.entries| + (bad - i)] != es[bad]
    decreases |es| - i
  {
    hide Parse, ParseLine, Trim, EntryLine, Save, Printable;
    var e := es[i];
    SectionRead(es, i, last, st);
    var st1 := st.(section := e.section);
    if i == bad {
      LongEntryBroken(e, Save(es, i + 1, e.section), st1);
    } else {
      EntryParsed(e, st1);
      assert Fits(e);
      LineParsed(EntryLine(e), Save(es, i + 1, e.section), st1);
      var st2 := st1.(entries := st.entries + [e]);
      assert |st2.entries| + (bad - (i + 1)) == |st.entries| + (bad - i);
      SavedBroken(es, i + 1, e.section, st2, bad);
    }
  }

  /** Parsing what was saved returns the same entries in the same order, exactly when every key=value line
      has at most 255 characters. */
  lemma RoundTrip(es: seq<Entry>)
    requires AllPrintable(es)
    ensures Parse(Save(es, 0, ""), Parsed("", [])).entries == es <==> forall k | 0 <= k < |es| :: Fits(es[k])
  {
    hide Parse, Save;
    if forall k | 0 <= k < |es| :: Fits(es[k]) {
      SavedParsed(es, 0, "", Parsed("", []));
      assert [] + es[0..] == es;
    } else {
      var bad := FirstLong(es);
      SavedBroken(es, 0, "", Parsed("", []), bad);
    }
  }

  lemma FirstLong(es: seq<Entry>) returns (bad: nat)
    requires exists k :: 0 <= k < |es| && !Fits(es[k])
    ensures bad < |es| && !Fits(es[bad]) && forall k | 0 <= k < bad :: Fits(es[k])
  {
    bad := 0;
    while Fits(es[bad])
      invariant bad < |es| && forall k | 0 <= k < bad :: Fits(es[k])
      invariant exists k :: bad <= k < |es| && !Fits(es[k])
      decreases |es| - bad
    {
      bad := bad + 1;
    }
  }
}
