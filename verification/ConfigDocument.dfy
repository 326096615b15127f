/** Configuration files as people write them (ya_config.c:25-171, ya_config_test.c): white space around
    everything, comments on lines of their own and behind values, quoted values. What such a file means is said
    here line by line, and the parser reads just that. */
module ConfigDocument {
  import opened Bytes
  import opened ConfigText

  predicate WhiteChar(c: char) { c == ' ' || 9 <= c as int <= 13 }

  predicate White(s: string) {
    forall i | 0 <= i < |s| :: WhiteChar(s[i])
  }

  /** No white space at either end. */
  predicate Bare(s: string) {
    s != [] ==> !WhiteChar(s[0]) && !WhiteChar(s[|s| - 1])
  }

  predicate Unmarked(s: string) { ';' !in s && '#' !in s }

  /** A value as it stands in the file. Behind the closing quote there may be anything without a quote. */
  datatype Written =
    | Plain(text: string)
    | Quoted(text: string, junk: string)
  {
    function Shown(): string {
      match this
      case Plain(_) => text
      case Quoted(_, _) => "\"" + text + "\"" + junk
    }

    /** Comment signs end a value, also inside quotes. */
    predicate Proper() {
      && Unmarked(text) && |text| <= 255
      && match this
         case Plain(_) => Bare(text) && (text != [] && text[0] == '"' ==> '"' !in text[1..])
         case Quoted(_, _) => Unmarked(junk) && '"' !in junk && (junk != [] ==> !WhiteChar(junk[|junk| - 1]))
    }
  }

  datatype Line =
    | Blank(space: string)
    | Remark(lead: string, text: string)
    | Heading(lead: string, before: string, name: string, after: string, rest: string)
    | Setting(lead: string, key: string, beforeSign: string, afterSign: string, value: Written, behind: string, remark: string)
    | Stray(lead: string, text: string)
  {
    /** What stands in the file. */
    function Shown(): string {
      match this
      case Blank(_) => space
      case Remark(_, _) => lead + text
      case Heading(_, _, _, _, _) => lead + "[" + before + name + after + "]" + rest
      case Setting(_, _, _, _, _, _, _) => lead + key + beforeSign + "=" + afterSign + value.Shown() + behind + remark
      case Stray(_, _) => lead + text
    }

    predicate Proper() {
      match this
      case Blank(_) => White(space)
      case Remark(_, _) => White(lead) && Marked(text)
      case Heading(_, _, _, _, _) =>
        White(lead) && White(before) && White(after) && Bare(name) && ']' !in name && |before + name + after| <= 63
      case Setting(_, _, _, _, _, _, _) =>
        && White(lead) && White(beforeSign) && White(afterSign) && White(behind)
        && Bare(key) && '=' !in key && |key| <= 63 && (key != [] ==> key[0] !in {'[', ';', '#'})
        && value.Proper() && (remark != [] ==> Marked(remark))
      case Stray(_, _) =>
        && White(lead) && text != [] && !WhiteChar(text[0]) && !Marked(text)
        && if text[0] == '[' then ']' !in text else '=' !in text
    }

    /** What it means. */
    function Meaning(st: Parsed): Parsed {
      match this
      case Heading(_, _, _, _, _) => Parsed(name, st.entries)
      case Setting(_, _, _, _, _, _, _) => Parsed(st.section, st.entries + [Entry(st.section, key, value.text)])
      case _ => st
    }
  }

  predicate Marked(s: string) { s != [] && (s[0] == ';' || s[0] == '#') }

  lemma SpacesAreWhite(c: char)
    ensures IsSpace(c) <==> WhiteChar(c)
  {
  }

  lemma AllWhite(s: string)
    ensures White(s) <==> forall i | 0 <= i < |s| :: IsSpace(s[i])
    ensures Bare(s) <==> NoEdgeSpace(s)
  {
    forall i | 0 <= i < |s| ensures IsSpace(s[i]) <==> WhiteChar(s[i]) {
      SpacesAreWhite(s[i]);
    }
  }

  /** Trimming takes white space, all of it, and nothing else. */
  lemma TrimExactly(a: string, s: string, b: string)
    requires White(a) && Bare(s) && White(b)
    ensures Trim(a + s + b) == s
  {
    AllWhite(a);
    AllWhite(s);
    AllWhite(b);
    TrimAround(a, s, b);
  }

  /** Something behind white space that starts with a sign: only its end is trimmed. */
  lemma TrimBehind(lead: string, a: string, c: char, b: string)
    requires White(lead) && !WhiteChar(c) && (a != [] ==> !WhiteChar(a[0]))
    ensures Trim(lead + (a + [c] + b)) == a + [c] + DropTrailing(b)
  {
    var s := a + [c] + b;
    AllWhite(lead);
    SpacesAreWhite(s[0]);
    SpacesAreWhite(c);
    DropWhite(lead, s);
    assert DropLeading(s) == s;
    DropTrailingBehind(a, c, b);
  }

  /** What DropTrailing leaves has no white space at its end. */
  lemma {:induction false} EndsBare(s: string)
    ensures DropTrailing(s) != [] ==> !WhiteChar(DropTrailing(s)[|DropTrailing(s)| - 1])
  {
    if s != [] {
      SpacesAreWhite(s[|s| - 1]);
      EndsBare(s[..|s| - 1]);
    }
  }

  // Values.

  lemma WhiteUnmarked(s: string)
    requires White(s)
    ensures Unmarked(s) && '=' !in s && ']' !in s
  {
  }

  /** Cutting at the comment. */
  lemma CommentCut(q: string, remark: string)
    requires Unmarked(q) && (remark != [] ==> Marked(remark))
    ensures RemoveComment(q + remark) == Trim(q)
  {
    hide Trim;
    var s := q + remark;
    assert s[..|q|] == q;
    if remark == [] {
      FindNone(q, ';');
      FindNone(q, '#');
      assert s == q;
    } else if remark[0] == ';' {
      FindAt(s, ';', |q|);
      FindNone(q, '#');
    } else {
      var a := s[..Find(s, ';')];
      assert Find(s, ';') > |q| by {
        assert forall j | 0 <= j < |q| :: s[j] == q[j];
      }
      assert a[..|q|] == q && a[|q|] == '#';
      FindAt(a, '#', |q|);
    }
  }

  lemma ShownBare(w: Written)
    requires w.Proper()
    ensures Bare(w.Shown()) && Unmarked(w.Shown())
  {
  }

  lemma Unquoted(w: Written)
    requires w.Proper()
    ensures Unquote(w.Shown()) == w.text
  {
    hide FindLast;
    var s := w.Shown();
    if w.Quoted? {
      var tail := s[1..];
      assert tail == w.text + "\"" + w.junk;
      LastAt(tail, '"', |w.text|);
      assert tail[..|w.text|] == w.text;
    } else if s != [] && s[0] == '"' {
      LastNone(s[1..], '"');
    }
  }

  lemma LastAt(s: string, c: char, i: nat)
    requires i < |s| && s[i] == c && c !in s[i + 1..]
    ensures FindLast(s, c) == i
  {
    forall j | i < j < |s| ensures s[j] != c {
      assert s[i + 1..][j - i - 1] == s[j];
    }
  }

  lemma LastNone(s: string, c: char)
    requires c !in s
    ensures FindLast(s, c) == |s|
  {
  }

  /** What the parser makes of the text behind the equals sign, whose end has been trimmed already. */
  lemma ValueRead(afterSign: string, w: Written, behind: string, remark: string)
    requires White(afterSign) && White(behind) && w.Proper() && (remark != [] ==> Marked(remark))
    ensures ValueOf(DropTrailing(afterSign + w.Shown() + behind + remark)) == w.text
  {
    hide Trim, DropTrailing, RemoveComment, Unquote, Written.Shown, Written.Proper;
    ShownBare(w);
    Unquoted(w);
    var q, rest := TrimmedValue(afterSign, w.Shown(), behind, remark);
    CommentCut(q, rest);
  }

  /** Trimmed, it is the value, what stands behind it, and the comment. */
  lemma TrimmedValue(afterSign: string, s: string, behind: string, remark: string) returns (q: string, rest: string)
    requires White(afterSign) && White(behind) && Bare(s) && Unmarked(s) && (remark != [] ==> Marked(remark))
    ensures Trim(DropTrailing(afterSign + s + behind + remark)) == q + rest
    ensures Unmarked(q) && Trim(q) == s && (rest != [] ==> Marked(rest))
  {
    hide DropLeading, DropTrailing, Trim;
    if remark == [] {
      assert afterSign + s + behind + remark == afterSign + s + behind;
      TwiceTrimmed(afterSign, s, behind);
      TrimExactly([], s, []);
      assert [] + s + [] == s;
      q, rest := s, [];
      assert q + rest == s;
    } else {
      q, rest := TrimmedBefore(afterSign, s, behind, remark);
    }
  }

  lemma TrimmedBefore(afterSign: string, s: string, behind: string, remark: string) returns (q: string, rest: string)
    requires White(afterSign) && White(behind) && Bare(s) && Unmarked(s) && Marked(remark)
    ensures Trim(DropTrailing(afterSign + s + behind + remark)) == q + rest
    ensures Unmarked(q) && Trim(q) == s && Marked(rest)
  {
    hide DropLeading, DropTrailing, Trim, White;
    var text, u := afterSign + s + behind, DropTrailing(remark[1..]);
    q := if s == [] then [] else s + behind;
    rest := [remark[0]] + u;
    RemarkTrimmed(text, remark);
    EndsBare(remark[1..]);
    BareAround(s, behind, rest, q);
    var lead := if s == [] then afterSign + behind else afterSign;
    assert White(lead) by { BothWhite(afterSign, behind); }
    NoneWhite();
    TrimExactly(lead, q + rest, []);
    assert lead + (q + rest) + [] == text + rest;
  }

  lemma NoneWhite()
    ensures White([])
  {
  }

  lemma BothWhite(a: string, b: string)
    requires White(a) && White(b)
    ensures White(a + b)
  {
  }

  lemma RemarkTrimmed(text: string, remark: string)
    requires Marked(remark)
    ensures DropTrailing(text + remark) == text + ([remark[0]] + DropTrailing(remark[1..]))
  {
    SpacesAreWhite(remark[0]);
    assert text + remark == text + [remark[0]] + remark[1..];
    DropTrailingBehind(text, remark[0], remark[1..]);
    assert text + [remark[0]] + DropTrailing(remark[1..]) == text + ([remark[0]] + DropTrailing(remark[1..]));
  }

  lemma BareAround(s: string, behind: string, rest: string, q: string)
    requires Bare(s) && Unmarked(s) && White(behind) && Marked(rest) && !WhiteChar(rest[|rest| - 1])
    requires q == if s == [] then [] else s + behind
    ensures Bare(q + rest) && Unmarked(q) && Trim(q) == s
  {
    hide Trim;
    WhiteUnmarked(behind);
    TrimExactly([], s, behind);
    TrimExactly([], [], []);
    assert s == [] ==> q == [] + [] + [];
    assert s != [] ==> q == [] + s + behind;
  }

  lemma TwiceTrimmed(a: string, s: string, b: string)
    requires White(a) && Bare(s) && White(b)
    ensures Trim(DropTrailing(a + s + b)) == s
  {
    AllWhite(b);
    DropWhite(b, a + s);
    if s == [] {
      assert a + s == a == [] + a;
      AllWhite(a);
      DropWhite(a, []);
    } else {
      var n := |s| - 1;
      SpacesAreWhite(s[n]);
      assert a + s == (a + s[..n]) + [s[n]] + [];
      DropTrailingBehind(a + s[..n], s[n], []);
      assert a + s + [] == a + s;
      TrimExactly(a, s, []);
    }
  }

  // Lines.

  lemma {:induction false} KeyRead(key: string, beforeSign: string)
    requires Bare(key) && White(beforeSign)
    ensures Trim(key + beforeSign) == key
  {
    TrimExactly([], key, beforeSign);
    assert [] + key + beforeSign == key + beforeSign;
  }

  /** A line whose trimmed form has its first equals sign behind `front`. */
  lemma SplitRead(line: string, front: string, tail: string, st: Parsed)
    requires Trim(line) == front + ['='] + tail && '=' !in front && (front != [] ==> front[0] !in {'[', ';', '#'})
    ensures ParseLine(st, line) == st.(entries := st.entries + [SizedEntry(st.section, Trim(front), ValueOf(tail))])
  {
    hide Trim, ValueOf, Find, SizedEntry;
    var start := front + ['='] + tail;
    assert start[..|front|] == front && start[|front| + 1..] == tail;
    FindAt(start, '=', |front|);
  }

  lemma SizesKept(section: string, key: string, value: string)
    requires |section| <= 63 && |key| <= 63 && |value| <= 255
    ensures SizedEntry(section, key, value) == Entry(section, key, value)
  {
    TruncateNothing(section, MAX_SECTION_LENGTH);
    TruncateNothing(key, MAX_KEY_LENGTH);
    TruncateNothing(value, MAX_VALUE_LENGTH);
  }

  lemma SettingRead(l: Line, st: Parsed)
    requires l.Setting? && l.Proper() && |st.section| <= 63
    ensures ParseLine(st, l.Shown()) == l.Meaning(st)
  {
    hide ParseLine, Trim, DropTrailing, ValueOf, SizedEntry, Written.Shown, Written.Proper;
    var front := if l.key == [] then [] else l.key + l.beforeSign;
    var lead := if l.key == [] then l.lead + l.beforeSign else l.lead;
    var rest := l.afterSign + l.value.Shown() + l.behind + l.remark;
    assert l.Shown() == lead + (front + ['='] + rest);
    TrimBehind(lead, front, '=', rest);
    WhiteUnmarked(l.beforeSign);
    SplitRead(l.Shown(), front, DropTrailing(rest), st);
    KeyRead(l.key, l.beforeSign);
    KeyRead("", "");
    assert "" + "" == "";
    ValueRead(l.afterSign, l.value, l.behind, l.remark);
    TextFits(l.value);
    SizesKept(st.section, l.key, l.value.text);
  }

  lemma TextFits(w: Written)
    requires w.Proper()
    ensures |w.text| <= 255
  {
  }

  lemma HeadingRead(l: Line, st: Parsed)
    requires l.Heading? && l.Proper()
    ensures ParseLine(st, l.Shown()) == l.Meaning(st)
  {
    hide Trim, DropTrailing;
    var name := l.before + l.name + l.after;
    assert l.Shown() == l.lead + (("[" + name) + [']'] + l.rest);
    TrimBehind(l.lead, "[" + name, ']', l.rest);
    var start := ("[" + name) + [']'] + DropTrailing(l.rest);
    WhiteUnmarked(l.before);
    WhiteUnmarked(l.after);
    assert start[..|name| + 1] == "[" + name;
    FindAt(start, ']', |name| + 1);
    assert start[1..|name| + 1] == name;
    TruncateNothing(name, MAX_SECTION_LENGTH);
    TrimExactly(l.before, l.name, l.after);
  }

  lemma OtherRead(l: Line, st: Parsed)
    requires (l.Blank? || l.Remark? || l.Stray?) && l.Proper()
    ensures ParseLine(st, l.Shown()) == st
  {
    hide Trim, DropTrailing;
    if l.Blank? {
      TrimExactly(l.space, [], []);
      assert l.space + [] + [] == l.space;
    } else {
      var c, more := l.text[0], DropTrailing(l.text[1..]);
      assert l.Shown() == l.lead + ([] + [c] + l.text[1..]);
      TrimBehind(l.lead, [], c, l.text[1..]);
      var start := [] + [c] + more;
      assert start == [c] + more;
      PartOf(l.text[1..]);
      if l.Stray? {
        FindNone(start, if c == '[' then ']' else '=');
      }
    }
  }

  lemma {:induction false} PartOf(s: string)
    ensures forall i | 0 <= i < |DropTrailing(s)| :: DropTrailing(s)[i] in s
  {
    if s != [] && IsSpace(s[|s| - 1]) {
      PartOf(s[..|s| - 1]);
    }
  }

  /** Every proper line is read as what it means. */
  lemma LineRead(l: Line, st: Parsed)
    requires l.Proper() && |st.section| <= 63
    ensures ParseLine(st, l.Shown()) == l.Meaning(st) && |l.Meaning(st).section| <= 63
  {
    hide ParseLine, Line.Shown;
    match l
    case Setting(_, _, _, _, _, _, _) => SettingRead(l, st);
    case Heading(_, _, _, _, _) => HeadingRead(l, st);
    case _ => OtherRead(l, st);
  }

  /** A file of such lines, each on a line of at most 255 characters. */
  function Text(ls: seq<Line>): string {
    if ls == [] then "" else ls[0].Shown() + "\n" + Text(ls[1..])
  }

  function Meaning(ls: seq<Line>, st: Parsed): Parsed {
    if ls == [] then st else Meaning(ls[1..], ls[0].Meaning(st))
  }

  predicate Proper(ls: seq<Line>) {
    forall i | 0 <= i < |ls| :: ls[i].Proper() && '\n' !in ls[i].Shown() && |ls[i].Shown()| <= 255
  }

  lemma {:induction false} DocumentRead(ls: seq<Line>, st: Parsed)
    requires Proper(ls) && |st.section| <= 63
    ensures Parse(Text(ls), st) == Meaning(ls, st)
  {
    hide Parse, ParseLine, Line.Shown, Line.Meaning, Line.Proper;
    if ls == [] {
      ParseNothing(st);
    } else {
      assert ls[0].Proper();
      LineParsed(ls[0].Shown(), Text(ls[1..]), st);
      LineRead(ls[0], st);
      DocumentRead(ls[1..], ls[0].Meaning(st));
    }
  }

  /** A value in quotes is read as it was meant exactly if there is no comment sign in it: quotes do not protect
      these, and a value that is cut keeps its opening quote. */
  lemma QuotesExactly(key: string, v: string, st: Parsed)
    requires Bare(key) && '=' !in key && |key| <= 63 && (key != [] ==> key[0] !in {'[', ';', '#'})
    requires |st.section| <= 63 && '"' !in v && |v| <= 254
    ensures ParseLine(st, key + "=\"" + v + "\"") == Parsed(st.section, st.entries + [Entry(st.section, key, v)])
            <==> Unmarked(v)
  {
    hide ParseLine;
    if Unmarked(v) {
      var l := Setting("", key, "", "", Quoted(v, ""), "", "");
      LineRead(l, st);
      assert l.Shown() == key + "=\"" + v + "\"";
    } else {
      var k := FirstSign(v);
      QuotedSign(key, v[..k], v[k..] + "\"", st);
      assert v[..k] + (v[k..] + "\"") == v + "\"";
      assert key + "=\"" + v[..k] + (v[k..] + "\"") == key + "=\"" + v + "\"";
      DifferentEntries(st, key, "\"" + DropTrailing(v[..k]), v);
    }
  }

  lemma DifferentEntries(st: Parsed, key: string, a: string, b: string)
    requires a != [] && a[0] == '"' && '"' !in b
    ensures st.entries + [Entry(st.section, key, a)] != st.entries + [Entry(st.section, key, b)]
  {
    assert (st.entries + [Entry(st.section, key, a)])[|st.entries|] == Entry(st.section, key, a);
    assert (st.entries + [Entry(st.section, key, b)])[|st.entries|] == Entry(st.section, key, b);
    assert b != [] ==> b[0] in b;
  }

  lemma FirstSign(v: string) returns (k: nat)
    requires !Unmarked(v)
    ensures k < |v| && Unmarked(v[..k]) && Marked(v[k..])
  {
    var a, b := Find(v, ';'), Find(v, '#');
    k := if a < b then a else b;
    assert forall j | 0 <= j < k :: v[..k][j] == v[j];
    assert v[k..][0] == v[k];
  }

  /** The value is cut at the sign. */
  lemma QuotedSign(key: string, before: string, remark: string, st: Parsed)
    requires Bare(key) && '=' !in key && |key| <= 63 && (key != [] ==> key[0] !in {'[', ';', '#'})
    requires |st.section| <= 63 && Unmarked(before) && '"' !in before && |before| <= 254 && Marked(remark)
    ensures ParseLine(st, key + "=\"" + before + remark)
            == Parsed(st.section, st.entries + [Entry(st.section, key, "\"" + DropTrailing(before))])
  {
    hide ParseLine, DropTrailing, White, Written.Proper, Written.Shown;
    var core := DropTrailing(before);
    OnlyWhiteDropped(before);
    EndsBare(before);
    QuoteOpen(before, core);
    NoneWhite();
    var l := Setting("", key, "", "", Plain("\"" + core), before[|core|..], remark);
    LineRead(l, st);
    ShownLine(key, core, before, remark);
  }

  lemma QuoteOpen(before: string, core: string)
    requires core <= before && Unmarked(before) && '"' !in before && |before| <= 254
    requires core != [] ==> !WhiteChar(core[|core| - 1])
    ensures Plain("\"" + core).Proper()
  {
    assert ("\"" + core)[1..] == core;
    assert forall i | 0 <= i < |core| :: core[i] == before[i];
  }

  lemma ShownLine(key: string, core: string, before: string, remark: string)
    requires core <= before
    ensures Setting("", key, "", "", Plain("\"" + core), before[|core|..], remark).Shown() == key + "=\"" + before + remark
  {
    assert core + before[|core|..] == before;
  }

  lemma {:induction false} OnlyWhiteDropped(s: string)
    ensures DropTrailing(s) <= s && White(s[|DropTrailing(s)|..])
  {
    if s != [] && IsSpace(s[|s| - 1]) {
      SpacesAreWhite(s[|s| - 1]);
      OnlyWhiteDropped(s[..|s| - 1]);
    }
  }
}
