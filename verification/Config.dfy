/** The configuration store (ya_config.c): a growable array of entries, its parser and its printer. */
module Config {
  import opened Bytes
  import opened ConfigText

  /** The first entry with this section and key. */
  function Index(es: seq<Entry>, section: string, key: string): (i: nat)
    ensures i <= |es| && (i < |es| ==> es[i].section == section && es[i].key == key)
    ensures forall j | 0 <= j < i :: es[j].section != section || es[j].key != key
  {
    if es == [] || (es[0].section == section && es[0].key == key) then 0 else 1 + Index(es[1..], section, key)
  }

  /** What the store says about a section and key: the first match wins. */
  function Lookup(es: seq<Entry>, section: string, key: string): Option<string> {
    var i := Index(es, section, key);
    if i < |es| then Some(es[i].value) else None
  }

  /** What ya_config_set makes of the entries. */
  function Updated(es: seq<Entry>, section: string, key: string, value: string): seq<Entry> {
    var i := Index(es, section, key);
    if i < |es| then es[i := es[i].(value := Truncate(value, MAX_VALUE_LENGTH))]
    else es + [SizedEntry(section, key, value)]
  }

  /** Fields within their buffers. */
  predicate Sized(es: seq<Entry>) {
    forall i | 0 <= i < |es| ::
      |es[i].section| < MAX_SECTION_LENGTH && |es[i].key| < MAX_KEY_LENGTH && |es[i].value| < MAX_VALUE_LENGTH
  }

  lemma IndexIs(es: seq<Entry>, section: string, key: string, i: nat)
    requires i <= |es| && (i < |es| ==> es[i].section == section && es[i].key == key)
    requires forall j | 0 <= j < i :: es[j].section != section || es[j].key != key
    ensures Index(es, section, key) == i
  {
  }

  /** A value can be read back exactly when section, key and value fit their buffers: lookup compares with
      the names as given, not as they were stored. */
  lemma GetAfterSet(es: seq<Entry>, section: string, key: string, value: string)
    requires Sized(es)
    ensures Sized(Updated(es, section, key, value))
    ensures Lookup(Updated(es, section, key, value), section, key) == Some(value)
            <==> |section| < MAX_SECTION_LENGTH && |key| < MAX_KEY_LENGTH && |value| < MAX_VALUE_LENGTH
  {
    var i := Index(es, section, key);
    var es' := Updated(es, section, key, value);
    assert Truncate(value, MAX_VALUE_LENGTH) == value <==> |value| < MAX_VALUE_LENGTH;
    if i < |es| {
      IndexIs(es', section, key, i);
    } else if |section| < MAX_SECTION_LENGTH && |key| < MAX_KEY_LENGTH {
      TruncateNothing(section, MAX_SECTION_LENGTH);
      TruncateNothing(key, MAX_KEY_LENGTH);
      IndexIs(es', section, key, i);
    } else {
      IndexIs(es', section, key, i + 1);
    }
  }

  /** Setting one entry leaves all others alone. */
  lemma OthersKept(es: seq<Entry>, section: string, key: string, value: string, section': string, key': string)
    requires Sized(es)
    requires (section', key') != (section, key)
    requires (section', key') != (Truncate(section, MAX_SECTION_LENGTH), Truncate(key, MAX_KEY_LENGTH))
    ensures Lookup(Updated(es, section, key, value), section', key') == Lookup(es, section', key')
  {
    var es' := Updated(es, section, key, value);
    var j := Index(es, section', key');
    IndexIs(es', section', key', if j < |es| then j else |es'|);
  }

  class Store {
    var entries: array<Entry>
    var count: nat

    ghost predicate Valid()
      reads this, entries
    {
      count <= entries.Length && Sized(Contents())
    }

    ghost function Contents(): seq<Entry>
      reads this, entries
    {
      if count <= entries.Length then entries[..count] else []
    }

    /** ya_config_init. */
    constructor ()
      ensures Valid() && Contents() == [] && fresh(entries)
    {
      entries := new Entry[0];
      count := 0;
    }

    /** Room for one more entry. */
    method Grow()
      requires Valid()
      modifies this`entries
      ensures Valid() && Contents() == old(Contents()) && count < entries.Length
      ensures entries == old(entries) || fresh(entries)
    {
      if count >= entries.Length {
        var from := entries;
        entries := new Entry[from.Length * 2 + 8](i reads from => if 0 <= i < from.Length then from[i] else Entry("", "", ""));
        assert entries[..count] == from[..count];
      }
    }

    method Append(section: string, key: string, value: string)
      requires Valid()
      modifies this, entries
      ensures Valid() && (entries == old(entries) || fresh(entries))
      ensures Contents() == old(Contents()) + [SizedEntry(section, key, value)]
    {
      Grow();
      entries[count] := SizedEntry(section, key, value);
      count := count + 1;
      assert entries[..count] == old(Contents()) + [SizedEntry(section, key, value)];
    }

    /** The searching loop of ya_config_get and ya_config_set. */
    method Search(section: string, key: string) returns (i: nat)
      requires Valid()
      ensures i == Index(Contents(), section, key)
    {
      i := 0;
      while i < count
        invariant i <= count
        invariant forall j | 0 <= j < i :: Contents()[j].section != section || Contents()[j].key != key
      {
        if entries[i].section == section && entries[i].key == key {
          break;
        }
        i := i + 1;
      }
      IndexIs(Contents(), section, key, i);
    }

    /** ya_config_get. */
    method Get(section: string, key: string) returns (value: Option<string>)
      requires Valid()
      ensures value == Lookup(Contents(), section, key)
    {
      var i := Search(section, key);
      value := if i < count then Some(entries[i].value) else None;
    }

    /** ya_config_set. */
    method Set(section: string, key: string, value: string)
      requires Valid()
      modifies this, entries
      ensures Valid() && (entries == old(entries) || fresh(entries))
      ensures Contents() == Updated(old(Contents()), section, key, value)
    {
      var i := Search(section, key);
      if i < count {
        entries[i] := entries[i].(value := Truncate(value, MAX_VALUE_LENGTH));
        assert entries[..count] == old(entries[..count])[i := entries[i]];
      } else {
        Append(section, key, value);
      }
    }

    /** trim_whitespace, with its two loops. */
    static method TrimWhitespace(str: string) returns (r: string)
      ensures r == Trim(str)
    {
      var start := 0;
      while start < |str| && IsSpace(str[start])
        invariant start <= |str| && DropLeading(str[start..]) == DropLeading(str)
      {
        assert str[start..][1..] == str[start + 1..];
        start := start + 1;
      }
      var moved := str[start..];
      var end := |moved|;
      assert moved[..end] == moved;
      while end > 0 && IsSpace(moved[end - 1])
        invariant 0 <= end <= |moved| && DropTrailing(moved[..end]) == DropTrailing(moved)
      {
        assert moved[..end][..end - 1] == moved[..end - 1];
        end := end - 1;
      }
      r := moved[..end];
    }

    /** fgets into the line buffer. */
    static method Fgets(text: string, at: nat) returns (n: nat)
      requires at < |text|
      ensures n == LineLength(text[at..])
    {
      n := 0;
      var window := text[at..][..Min(|text[at..]|, MAX_LINE_LENGTH - 1)];
      while n < |window|
        invariant n <= |window| && '\n' !in window[..n]
      {
        n := n + 1;
        if window[n - 1] == '\n' {
          FindAt(window, '\n', n - 1);
          return;
        }
      }
      FindNone(window, '\n');
    }

    /** The body of ya_config_parse's loop: the section afterwards, and perhaps one more entry. */
    method TakeLine(line: string, section: string) returns (section': string)
      requires Valid()
      modifies this, entries
      ensures Valid() && (entries == old(entries) || fresh(entries))
      ensures Parsed(section', Contents()) == ParseLine(Parsed(section, old(Contents())), line)
    {
      section' := section;
      var start := TrimWhitespace(line);
      if start == [] || start[0] == ';' || start[0] == '#' {
        return;
      }
      if start[0] == '[' {
        var end := Find(start, ']');
        if end < |start| {
          section' := TrimWhitespace(Truncate(start[1..end], MAX_SECTION_LENGTH));
        }
        return;
      }
      var end := Find(start, '=');
      if end < |start| {
        var key := TrimWhitespace(start[..end]);
        var value := TrimWhitespace(start[end + 1..]);
        value := value[..Find(value, ';')];
        value := value[..Find(value, '#')];
        value := TrimWhitespace(value);
        Append(section, key, Unquote(value));
      }
    }

    /** ya_config_parse. */
    method ParseText(text: string)
      requires Valid()
      modifies this, entries
      ensures Valid() && (entries == old(entries) || fresh(entries))
      ensures Contents() == Parse(text, Parsed("", old(Contents()))).entries
    {
      hide ParseLine, LineLength;
      var at, section := 0, "";
      assert text[0..] == text;
      while at < |text|
        invariant Valid() && (entries == old(entries) || fresh(entries)) && at <= |text|
        invariant Parse(text[at..], Parsed(section, Contents())) == Parse(text, Parsed("", old(Contents())))
      {
        var n := Fgets(text, at);
        var line := text[at..at + n];
        assert text[at..][..n] == line && text[at..][n..] == text[at + n..];
        section := TakeLine(line, section);
        at := at + n;
      }
    }

    /** ya_config_save. */
    method SaveText() returns (text: string)
      requires Valid()
      ensures text == Save(Contents(), 0, "")
    {
      hide EntryLine, SectionLine;
      text := "";
      var last := "";
      ghost var es := Contents();
      assert "" + Save(es, 0, "") == Save(es, 0, "");
      for i := 0 to count
        invariant text + Save(es, i, last) == Save(es, 0, "")
      {
        var e := entries[i];
        ghost var before, rest := text, Save(es, i + 1, e.section);
        if last != e.section {
          text := text + SectionLine(i, e);
          last := e.section;
          assert text + (EntryLine(e) + "\n" + rest) == before + (SectionLine(i, e) + (EntryLine(e) + "\n" + rest));
        } else {
          assert text + (EntryLine(e) + "\n" + rest) == before + ("" + (EntryLine(e) + "\n" + rest));
        }
        assert text + EntryLine(e) + "\n" + rest == text + (EntryLine(e) + "\n" + rest);
        text := text + EntryLine(e) + "\n";
      }
      assert text + "" == text;
    }
  }

  /** Saving and parsing into an empty store, exactly when every line fits. */
  method SaveAndParse(store: Store) returns (copy: Store)
    requires store.Valid() && AllPrintable(store.Contents())
    ensures fresh(copy) && copy.Valid()
    ensures copy.Contents() == store.Contents() <==> forall k | 0 <= k < |store.Contents()| :: Fits(store.Contents()[k])
  {
    hide Parse, Save;
    var text := store.SaveText();
    copy := new Store();
    copy.ParseText(text);
    RoundTrip(store.Contents());
  }
}
