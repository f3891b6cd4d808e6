/** The editor's locale handling: `parseIni` turns the text of an INI file
    into a key/value table, and `applyTranslations` replaces the text of
    every element tagged with a key that the table holds. */
module Locale {
  import opened Wrappers
  import opened Text

  /** A translation table, key to display string. */
  type Table = map<string, string>

  /** One `key = value` line. */
  datatype Entry = Entry(key: string, value: string)

  /** A trimmed line that yields no entry: blank, a `;` or `#` comment, or
      without any `=`. */
  predicate Skipped(line: string) {
    line == [] || line[0] == ';' || line[0] == '#' || '=' !in line
  }

  /** The entry one raw line contributes. The key is the trimmed text
      before the first `=` and the value the trimmed text after it, so the
      key never holds `=` while the value may. */
  function ParseLine(raw: string): (r: Option<Entry>)
    ensures r.None? <==> Skipped(Trim(raw))
    ensures r.Some? ==> '=' !in r.value.key && NoOuterSpace(r.value.key)
    ensures r.Some? ==>
      var line := Trim(raw);
      && exists i :: 0 <= i < |line| && line[i] == '=' && '=' !in line[..i]
           && r.value.key == Trim(line[..i]) && r.value.value == Trim(line[i + 1..])
  {
    ParseTrimmed(Trim(raw))
  }

  /** `ParseLine` once the line is trimmed. */
  function ParseTrimmed(line: string): (r: Option<Entry>)
    ensures r.None? <==> Skipped(line)
    ensures r.Some? ==> '=' !in r.value.key && NoOuterSpace(r.value.key)
    ensures r.Some? ==>
      && exists i :: 0 <= i < |line| && line[i] == '=' && '=' !in line[..i]
           && r.value.key == Trim(line[..i]) && r.value.value == Trim(line[i + 1..])
  {
    if line == [] || line[0] == ';' || line[0] == '#' then None
    else
      var idx := IndexOf(line, '=');
      if idx == -1 then None else Some(Cut(line, idx))
  }

  /** The entry of a line cut at its first `=`. */
  function Cut(line: string, idx: nat): (e: Entry)
    requires idx < |line| && line[idx] == '=' && '=' !in line[..idx]
    ensures '=' !in e.key && NoOuterSpace(e.key)
    ensures exists i :: 0 <= i < |line| && line[i] == '=' && '=' !in line[..i]
                        && e.key == Trim(line[..i]) && e.value == Trim(line[i + 1..])
  {
    var key := Trim(line[..idx]);
    assert '=' !in key by { TrimIsInfix(line[..idx]); }
    Entry(key, Trim(line[idx + 1..]))
  }

  /** A trimmed string is made of characters of the original. */
  lemma TrimIsInfix(s: string)
    ensures forall c :: c in Trim(s) ==> c in s
  {
    var r := Trim(s);
    var i := LeadingSpace(s);
    var j := TrailingStart(s[i..]);
    assert r == s[i..i + j];
    forall c | c in r ensures c in s {
      var k :| 0 <= k < |r| && r[k] == c;
      assert s[i + k] == c;
    }
  }

  /** The entry gives key `k`. */
  predicate DefinesKey(entry: Option<Entry>, k: string) {
    entry.Some? && entry.value.key == k
  }

  /** The table built from entries in order, each entry overwriting an
      earlier one with the same key; a missing entry changes nothing. */
  function Collect(entries: seq<Option<Entry>>): (r: Table)
    ensures entries != [] && entries[|entries| - 1].Some? ==>
      var e := entries[|entries| - 1].value; e.key in r && r[e.key] == e.value
    decreases |entries|
  {
    if entries == [] then map[]
    else
      var table := Collect(entries[..|entries| - 1]);
      match entries[|entries| - 1]
      case None => table
      case Some(e) => table[e.key := e.value]
  }

  /** The entries of the lines, line by line. */
  function ParseEach(lines: seq<string>): (r: seq<Option<Entry>>)
    ensures |r| == |lines|
    ensures forall i :: 0 <= i < |lines| ==> r[i] == ParseLine(lines[i])
  {
    seq(|lines|, i requires 0 <= i < |lines| => ParseLine(lines[i]))
  }

  /** The table of a file already cut into lines: the lines are read one
      by one, a later entry overwriting an earlier one with the same key.
      Every key of the table is trimmed and free of `=`. */
  function ParseLines(lines: seq<string>): (r: Table)
    ensures forall k :: k in r ==> '=' !in k && NoOuterSpace(k)
  {
    ParsedKeys(ParseEach(lines));
    Collect(ParseEach(lines))
  }

  /** `parseIni`: the text is cut into lines at LF or CR LF, and the lines
      give the table. Every key of the table is trimmed and free of `=`. */
  function ParseIni(text: string): (r: Table)
    ensures forall k :: k in r ==> '=' !in k && NoOuterSpace(k)
  {
    ParseLines(SplitLines(text))
  }

  /** Every key collected from parsed lines has the shape of a parsed key. */
  lemma ParsedKeys(entries: seq<Option<Entry>>)
    requires forall i :: 0 <= i < |entries| && entries[i].Some? ==>
      '=' !in entries[i].value.key && NoOuterSpace(entries[i].value.key)
    ensures forall k :: k in Collect(entries) ==> '=' !in k && NoOuterSpace(k)
  {
    forall k | k in Collect(entries) ensures '=' !in k && NoOuterSpace(k) {
      CollectLastWins(entries, k);
      var i :| 0 <= i < |entries| && DefinesKey(entries[i], k);
      assert entries[i].value.key == k;
    }
  }

  /** The table of a file's lines, line by line: a key is in the table
      exactly when some line defines it, and it maps to the value of the
      last line that does. With `lines` the lines of a text this is the
      behaviour of `parseIni`. */
  lemma ParseLinesLastWins(lines: seq<string>, k: string)
    ensures k in ParseLines(lines) <==> exists i :: 0 <= i < |lines| && DefinesKey(ParseLine(lines[i]), k)
    ensures k in ParseLines(lines) ==>
      exists i :: && 0 <= i < |lines| && DefinesKey(ParseLine(lines[i]), k)
                  && ParseLine(lines[i]).value.value == ParseLines(lines)[k]
                  && forall j :: i < j < |lines| ==> !DefinesKey(ParseLine(lines[j]), k)
  {
    CollectMappedLastWins(ParseEach(lines), lines, ParseLine, k);
  }

  /** `CollectLastWins` restated for entries that are the images of lines
      under `parse`. */
  lemma CollectMappedLastWins(entries: seq<Option<Entry>>, lines: seq<string>,
                              parse: string -> Option<Entry>, k: string)
    requires |entries| == |lines|
    requires forall i :: 0 <= i < |lines| ==> entries[i] == parse(lines[i])
    ensures k in Collect(entries) <==> exists i :: 0 <= i < |lines| && DefinesKey(parse(lines[i]), k)
    ensures k in Collect(entries) ==>
      exists i :: && 0 <= i < |lines| && DefinesKey(parse(lines[i]), k)
                  && parse(lines[i]).value.value == Collect(entries)[k]
                  && forall j :: i < j < |lines| ==> !DefinesKey(parse(lines[j]), k)
  {
    CollectLastWins(entries, k);
    if k in Collect(entries) {
      var i :| && 0 <= i < |entries| && DefinesKey(entries[i], k)
               && entries[i].value.value == Collect(entries)[k]
               && forall j :: i < j < |entries| ==> !DefinesKey(entries[j], k);
      assert entries[i] == parse(lines[i]);
    }
  }

  /** A key is in the table exactly when some entry gives it, and it maps
      to the value of the last entry that does. */
  lemma {:induction false} CollectLastWins(entries: seq<Option<Entry>>, k: string)
    ensures k in Collect(entries) <==> exists i :: 0 <= i < |entries| && DefinesKey(entries[i], k)
    ensures k in Collect(entries) ==>
      exists i :: && 0 <= i < |entries| && DefinesKey(entries[i], k)
                  && entries[i].value.value == Collect(entries)[k]
                  && forall j :: i < j < |entries| ==> !DefinesKey(entries[j], k)
    decreases |entries|
  {
    if entries != [] {
      var n := |entries| - 1;
      var init := entries[..n];
      CollectLastWins(init, k);
      assert forall i :: 0 <= i < n ==> init[i] == entries[i];
      if DefinesKey(entries[n], k) {
        assert Collect(entries) == Collect(init)[k := entries[n].value.value];
      } else {
        assert k in Collect(entries) <==> k in Collect(init);
        assert k in Collect(entries) ==> Collect(entries)[k] == Collect(init)[k];
        if k in Collect(entries) {
          var i :| && 0 <= i < n && DefinesKey(init[i], k)
                   && init[i].value.value == Collect(init)[k]
                   && forall j :: i < j < n ==> !DefinesKey(init[j], k);
          assert DefinesKey(entries[i], k);
          assert forall j :: i < j < |entries| ==> !DefinesKey(entries[j], k);
        }
        if exists i :: 0 <= i < |entries| && DefinesKey(entries[i], k) {
          var i :| 0 <= i < |entries| && DefinesKey(entries[i], k);
          assert i < n && DefinesKey(init[i], k);
        }
      }
    }
  }

  /** A line without an entry can be dropped from anywhere in the file
      without changing the table. */
  lemma {:induction false} SkippedLineIrrelevant(before: seq<Option<Entry>>, after: seq<Option<Entry>>)
    ensures Collect(before + [None] + after) == Collect(before + after)
    decreases |after|
  {
    if after == [] {
      assert (before + [None])[..|before|] == before;
      assert before + [None] + after == before + [None];
      assert before + after == before;
    } else {
      var n := |after| - 1;
      SkippedLineIrrelevant(before, after[..n]);
      assert (before + [None] + after)[..|before| + 1 + n] == before + [None] + after[..n];
      assert (before + after)[..|before| + n] == before + after[..n];
    }
  }

  /** The line a writer of locale files would produce for an entry. */
  function FormatLine(e: Entry): string {
    e.key + "=" + e.value
  }

  /** An entry that survives a write and a re-read: a non-empty key that
      is not a comment marker and holds no `=`, and no whitespace at the
      ends of key or value. */
  predicate Writable(e: Entry) {
    && e.key != [] && e.key[0] != ';' && e.key[0] != '#' && '=' !in e.key
    && NoOuterSpace(e.key) && NoOuterSpace(e.value)
  }

  /** Reading back a written line gives the entry again. */
  lemma ParseFormatLine(e: Entry)
    requires Writable(e)
    ensures ParseLine(FormatLine(e)) == Some(e)
  {
    FormatLineTrimmed(e);
    FormatLineSplit(e);
    FormatLineParts(e);
    ParseLineAt(FormatLine(e), |e.key|);
    TrimNoOuterSpace(e.key);
    TrimNoOuterSpace(e.value);
  }

  /** A trimmed line that starts with neither comment marker and whose
      first `=` is at `idx` is cut there. */
  lemma ParseLineAt(raw: string, idx: nat)
    requires Trim(raw) == raw && raw != [] && raw[0] != ';' && raw[0] != '#'
    requires IndexOf(raw, '=') == idx
    ensures ParseLine(raw) == Some(Entry(Trim(raw[..idx]), Trim(raw[idx + 1..])))
  {
  }

  /** A written line is the key, then `=`, then the value. */
  lemma FormatLineParts(e: Entry)
    ensures |FormatLine(e)| == |e.key| + 1 + |e.value|
    ensures FormatLine(e)[..|e.key|] == e.key && FormatLine(e)[|e.key|] == '='
    ensures FormatLine(e)[|e.key| + 1..] == e.value
  {
    var raw := FormatLine(e);
    assert raw == e.key + ['='] + e.value;
    assert raw[..|e.key|] == e.key;
    assert raw[|e.key| + 1..] == e.value;
  }

  /** A written line has no whitespace at its ends. */
  lemma FormatLineTrimmed(e: Entry)
    requires Writable(e)
    ensures Trim(FormatLine(e)) == FormatLine(e)
  {
    var raw := FormatLine(e);
    assert raw == e.key + ['='] + e.value;
    assert raw[0] == e.key[0];
    assert NoOuterSpace(raw);
    TrimNoOuterSpace(raw);
  }

  /** The first `=` of a written line is the one after the key. */
  lemma FormatLineSplit(e: Entry)
    requires '=' !in e.key
    ensures IndexOf(FormatLine(e), '=') == |e.key|
  {
    assert FormatLine(e) == e.key + ['='] + e.value;
    IndexOfAfter(e.key, '=', e.value);
  }

  /** The lines of a locale file written from entries. */
  function WriteLines(entries: seq<Entry>): (lines: seq<string>)
    ensures |lines| == |entries|
    ensures forall i :: 0 <= i < |entries| ==> lines[i] == FormatLine(entries[i])
  {
    seq(|entries|, i requires 0 <= i < |entries| => FormatLine(entries[i]))
  }

  /** A locale file written from entries, one line per entry. */
  function WriteIni(entries: seq<Entry>): string {
    if entries == [] then "" else JoinLines(WriteLines(entries), LfBreaks(|entries| - 1))
  }

  /** `n` plain LF line breaks. */
  function LfBreaks(n: nat): (r: seq<bool>)
    ensures |r| == n && forall k :: 0 <= k < n ==> !r[k]
  {
    seq(n, _ => false)
  }

  /** The entries as a parsed file would present them. */
  function Present(entries: seq<Entry>): (r: seq<Option<Entry>>)
    ensures |r| == |entries|
    ensures forall i :: 0 <= i < |entries| ==> r[i] == Some(entries[i])
  {
    seq(|entries|, i requires 0 <= i < |entries| => Some(entries[i]))
  }

  /** Reading back a written file gives the table of its entries, built in
      file order (so a later duplicate key wins). */
  lemma ParseWrittenIni(entries: seq<Entry>)
    requires forall i :: 0 <= i < |entries| ==> Writable(entries[i])
    requires forall i :: 0 <= i < |entries| ==> '\n' !in entries[i].key && '\n' !in entries[i].value
    ensures ParseIni(WriteIni(entries)) == Collect(Present(entries))
  {
    if entries == [] {
      EmptyIni();
    } else {
      var lines := WriteLines(entries);
      WrittenLines(entries);
      SplitJoinLines(lines, LfBreaks(|entries| - 1));
      assert SplitLines(WriteIni(entries)) == lines;
    }
  }

  lemma WrittenLines(entries: seq<Entry>)
    requires forall i :: 0 <= i < |entries| ==> Writable(entries[i])
    requires forall i :: 0 <= i < |entries| ==> '\n' !in entries[i].key && '\n' !in entries[i].value
    ensures forall k :: 0 <= k < |entries| ==> '\n' !in WriteLines(entries)[k] && NoTrailingCR(WriteLines(entries)[k])
    ensures ParseEach(WriteLines(entries)) == Present(entries)
  {
    var lines := WriteLines(entries);
    forall k | 0 <= k < |lines|
      ensures '\n' !in lines[k] && NoTrailingCR(lines[k])
      ensures ParseLine(lines[k]) == Some(entries[k])
    {
      WrittenLine(entries[k]);
    }
  }

  lemma WrittenLine(e: Entry)
    requires Writable(e) && '\n' !in e.key && '\n' !in e.value
    ensures '\n' !in FormatLine(e) && NoTrailingCR(FormatLine(e))
    ensures ParseLine(FormatLine(e)) == Some(e)
  {
    var line := FormatLine(e);
    FormatLineParts(e);
    assert '\n' !in line by {
      forall k | 0 <= k < |line| ensures line[k] != '\n' {
        if k < |e.key| {
          assert line[k] == line[..|e.key|][k] == e.key[k];
        } else if k > |e.key| {
          assert line[k] == line[|e.key| + 1..][k - |e.key| - 1] == e.value[k - |e.key| - 1];
        }
      }
    }
    assert IsSpace('\r');
    assert line[|line| - 1] == if e.value == [] then '=' else e.value[|e.value| - 1];
    ParseFormatLine(e);
  }

  /** An empty file gives an empty table. */
  lemma EmptyIni()
    ensures ParseIni("") == map[]
  {
    assert SplitLines("") == [""];
    assert ParseEach([""]) == [None];
  }

  /** The table in use: the one passed in when there is one, otherwise the
      one loaded last (an empty table before any load). */
  function ActiveTable(given: Option<Table>, loaded: Table): (t: Table)
    ensures given.Some? ==> t == given.value
    ensures given.None? ==> t == loaded
  {
    match given
    case Some(m) => m
    case None => loaded
  }

  /** One element that carries a `data-i18n` key. */
  datatype Element = Element(key: string, text: string)

  /** The lookup rule of `applyTranslations`: an element whose key is
      non-empty and present in the table shows the table's string; every
      other element keeps its text. */
  function Translate(table: Table, e: Element): (r: Element)
    ensures r.key == e.key
    ensures e.key != [] && e.key in table ==> r.text == table[e.key]
    ensures e.key == [] || e.key !in table ==> r.text == e.text
  {
    if e.key != [] && e.key in table then Element(e.key, table[e.key]) else e
  }

  /** `applyTranslations` over the tagged elements, in document order. */
  function ApplyTranslations(table: Table, elements: seq<Element>): (r: seq<Element>)
    ensures |r| == |elements|
    ensures forall i :: 0 <= i < |r| ==> r[i] == Translate(table, elements[i])
    decreases |elements|
  {
    if elements == [] then []
    else [Translate(table, elements[0])] + ApplyTranslations(table, elements[1..])
  }

  /** The list view translates its new elements without a table of its
      own, and so with the table loaded last. */
  lemma RenderedListTranslation(loaded: Table, elements: seq<Element>)
    ensures ApplyTranslations(ActiveTable(None, loaded), elements) == ApplyTranslations(loaded, elements)
  {
  }

  /** Translating again with the same table changes nothing more. */
  lemma ApplyTranslationsIdempotent(table: Table, elements: seq<Element>)
    ensures ApplyTranslations(table, ApplyTranslations(table, elements))
         == ApplyTranslations(table, elements)
  {
  }

  /** Loading a locale file and applying it: an element's text becomes the
      value of the last line of the file that defines its key, and stays as
      it was when no line does (or its key is empty). `lines` are the lines
      of the file, so `ParseLines(lines)` is `ParseIni` of its text. */
  lemma LocalizedText(lines: seq<string>, e: Element)
    ensures var r := Translate(ParseLines(lines), e);
      && (e.key == [] || (forall i :: 0 <= i < |lines| ==> !DefinesKey(ParseLine(lines[i]), e.key)) ==> r.text == e.text)
      && (e.key != [] && (exists i :: 0 <= i < |lines| && DefinesKey(ParseLine(lines[i]), e.key)) ==>
            exists i :: && 0 <= i < |lines| && DefinesKey(ParseLine(lines[i]), e.key)
                        && r.text == ParseLine(lines[i]).value.value
                        && forall j :: i < j < |lines| ==> !DefinesKey(ParseLine(lines[j]), e.key))
  {
    var r := Translate(ParseLines(lines), e);
    ParseLinesLastWins(lines, e.key);
    if e.key != [] && exists i :: 0 <= i < |lines| && DefinesKey(ParseLine(lines[i]), e.key) {
      var i :| && 0 <= i < |lines| && DefinesKey(ParseLine(lines[i]), e.key)
               && ParseLine(lines[i]).value.value == ParseLines(lines)[e.key]
               && forall j :: i < j < |lines| ==> !DefinesKey(ParseLine(lines[j]), e.key);
      assert r.text == ParseLine(lines[i]).value.value;
    }
  }
}
