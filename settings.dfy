/** The settings window: the form it fills from `server.properties`, the
    merge and writer behind its save button, and the port lookup that reads
    the file back. A dictionary is held as its items in insertion order, the
    order Python iterates it in. */
module Settings {
  import opened Wrappers
  import opened PyStr
  import opened PyInt
  import opened PropertyDefinitions
  import opened Properties

  // ---------------------------------------------------------------- form

  /** What a row of the window holds: a check box or a text entry. */
  datatype Field = Flag(on: bool) | Text(text: string)

  /** The text a row is saved as. */
  function Render(f: Field): (r: string)
    ensures f.Flag? ==> (r == "true" || r == "false") && (r == "true" <==> f.on)
    ensures f.Text? ==> r == f.text
  {
    match f
    case Flag(on) => if on then "true" else "false"
    case Text(t) => t
  }

  /** The row shown for definition `d`: the value read from the file, or the
      default; a check box is ticked when that text is `true` in any case. */
  function InitialField(d: PropertyDef, props: map<string, string>): Field {
    var current := if d.key in props then props[d.key] else d.default;
    if d.isBool then Flag(Lower(current) == "true") else Text(current)
  }

  /** A form with one row per definition, a check box exactly for the
      boolean ones. */
  predicate FitsDefinitions(form: seq<Field>) {
    |form| == |Definitions|
    && forall i :: 0 <= i < |form| ==> (form[i].Flag? <==> Definitions[i].isBool)
  }

  /** The form the window opens with. */
  function InitialForm(props: map<string, string>): (form: seq<Field>)
    ensures FitsDefinitions(form)
  {
    seq(|Definitions|, i requires 0 <= i < |Definitions| => InitialField(Definitions[i], props))
  }

  /** A text row shows the file's value or the default; a check box is
      ticked exactly when that value reads `true` ignoring case. Saving an
      untouched row and opening the window again shows the same row. */
  lemma {:induction false} InitialFieldShows(d: PropertyDef, props: map<string, string>)
    ensures var current := if d.key in props then props[d.key] else d.default;
      var f := InitialField(d, props);
      (!d.isBool ==> Render(f) == current)
      && (d.isBool ==> (Render(f) == "true" <==> Lower(current) == "true"))
      && InitialField(d, props[d.key := Render(f)]) == f
  {
    var f := InitialField(d, props);
    if d.isBool {
      assert Lower("true") == "true";
      assert Lower("false")[0] == 'f';
    }
  }

  // ---------------------------------------------------------------- dictionaries

  /** The keys of a dictionary, in order. */
  function KeysOf(items: seq<(string, string)>): seq<string> {
    seq(|items|, i requires 0 <= i < |items| => items[i].0)
  }

  lemma {:induction false} InKeysOf(items: seq<(string, string)>, k: string)
    ensures k in KeysOf(items) <==> exists i :: 0 <= i < |items| && items[i].0 == k
  {
    if k in KeysOf(items) {
      var i :| 0 <= i < |items| && KeysOf(items)[i] == k;
    }
    if exists i :: 0 <= i < |items| && items[i].0 == k {
      var i :| 0 <= i < |items| && items[i].0 == k;
      assert KeysOf(items)[i] == k;
    }
  }

  predicate DistinctKeys(items: seq<(string, string)>) {
    forall i, j :: 0 <= i < j < |items| ==> items[i].0 != items[j].0
  }

  /** `d[k] = v`: a new key goes at the end, an existing key keeps its place
      and takes the new value. */
  function Put(items: seq<(string, string)>, k: string, v: string): (r: seq<(string, string)>)
    ensures k !in KeysOf(items) ==> r == items + [(k, v)]
    ensures k in KeysOf(items) ==> KeysOf(r) == KeysOf(items) && (k, v) in r
    ensures ReplacesFirst(items, k, v, r)
    decreases |items|
  {
    if items == [] then [(k, v)]
    else if items[0].0 == k then
      var r := [(k, v)] + items[1..];
      assert KeysOf(items) == [k] + KeysOf(items[1..]);
      assert KeysOf(r) == [k] + KeysOf(items[1..]);
      assert r == items[0 := (k, v)];
      r
    else
      var rest := Put(items[1..], k, v);
      var r := [items[0]] + rest;
      assert KeysOf(items) == [items[0].0] + KeysOf(items[1..]);
      assert KeysOf(r) == [items[0].0] + KeysOf(rest);
      ReplacesFirstShift(items, k, v, rest);
      r
  }

  /** `r` is `items` with the first item under key `k` replaced by `(k, v)`,
      every other item in its place. */
  predicate ReplacesFirst(items: seq<(string, string)>, k: string, v: string, r: seq<(string, string)>) {
    forall j :: 0 <= j < |items| && items[j].0 == k && (forall i :: 0 <= i < j ==> items[i].0 != k)
      ==> r == items[j := (k, v)]
  }

  /** Replacing behind an item with another key. */
  lemma {:induction false} ReplacesFirstShift(items: seq<(string, string)>, k: string, v: string,
                                              rest: seq<(string, string)>)
    requires items != [] && items[0].0 != k && ReplacesFirst(items[1..], k, v, rest)
    ensures ReplacesFirst(items, k, v, [items[0]] + rest)
  {
    forall j | 0 <= j < |items| && items[j].0 == k && (forall i :: 0 <= i < j ==> items[i].0 != k)
      ensures [items[0]] + rest == items[j := (k, v)]
    {
      assert j != 0;
      forall i | 0 <= i < j - 1
        ensures items[1..][i].0 != k
      {
        assert items[1..][i] == items[i + 1];
      }
      assert items[1..][j - 1] == items[j];
      assert rest == items[1..][j - 1 := (k, v)];
      assert [items[0]] + items[1..][j - 1 := (k, v)] == items[j := (k, v)];
    }
  }

  // ---------------------------------------------------------------- save

  /** The items `save_settings` starts from: every definition in order, with
      the text of its row. */
  function FormEntries(form: seq<Field>): (items: seq<(string, string)>)
    requires |form| == |Definitions|
  {
    seq(|form|, i requires 0 <= i < |form| => (Definitions[i].key, Render(form[i])))
  }

  /** One line of the merge: a key not written yet is added at the end. */
  function AddNew(out: seq<(string, string)>, c: Option<(string, string)>): seq<(string, string)> {
    if c.Some? && c.value.0 !in KeysOf(out) then Put(out, c.value.0, c.value.1) else out
  }

  /** The merge over the pairs taken from the lines of the file, in order:
      the items written so far stay in front and keep their keys distinct. */
  function CarryAll(out: seq<(string, string)>, cs: seq<Option<(string, string)>>): (r: seq<(string, string)>)
    ensures |out| <= |r| && r[..|out|] == out
    ensures DistinctKeys(out) ==> DistinctKeys(r)
  {
    if cs == [] then out
    else
      var m := CarryAll(out, cs[..|cs| - 1]);
      var c := cs[|cs| - 1];
      if c.Some? && c.value.0 !in KeysOf(m) then
        assert forall i :: 0 <= i < |m| ==> m[i].0 != c.value.0 by {
          forall i | 0 <= i < |m|
            ensures m[i].0 != c.value.0
          {
            assert KeysOf(m)[i] == m[i].0;
          }
        }
        assert (m + [c.value])[..|out|] == m[..|out|];
        AddNew(m, c)
      else
        AddNew(m, c)
  }

  /** The lines the save merges: those of the file, or none when it does
      not exist (an unreadable file stops the save before it writes). */
  function LinesOf(file: PropertiesFile): seq<string> {
    if file.Readable? then SplitLines(file.text) else []
  }

  /** What the save loop takes from one line of the file: the text before
      the first `=`, as it stands, and the rest without its newline; nothing
      from a line without `=` or from a comment. */
  function RawCarried(line: string): Option<(string, string)> {
    if '=' !in line || IsComment(line) then None
    else
      ContainsChar(line, '=');
      var (k, rest) := SplitOnce(line, "=").value;
      Some((k, RStripChar(rest, '\n')))
  }

  function RawCarriedOf(lines: seq<string>): (cs: seq<Option<(string, string)>>)
    ensures |cs| == |lines|
  {
    seq(|lines|, i requires 0 <= i < |lines| => RawCarried(lines[i]))
  }

  /** The items saved from `form`, merging in the pairs `cs`. */
  function Saved(form: seq<Field>, cs: seq<Option<(string, string)>>): seq<(string, string)>
    requires |form| == |Definitions|
  {
    CarryAll(FormEntries(form), cs)
  }

  /** What `save_settings` writes, given the lines of the existing file. */
  function SavedAsWritten(form: seq<Field>, lines: seq<string>): seq<(string, string)>
    requires |form| == |Definitions|
  {
    Saved(form, RawCarriedOf(lines))
  }

  /** The save with the merge keyed as the window reads the file: each
      carried line contributes the key and value the parser sees. */
  function SavedFixed(form: seq<Field>, lines: seq<string>): seq<(string, string)>
    requires |form| == |Definitions|
  {
    Saved(form, EntriesOf(lines))
  }

  /** The file text for a dictionary: one `k=v` line per item, in order. */
  function Serialize(items: seq<(string, string)>): (text: string)
    ensures text == [] || text[|text| - 1] == '\n'
  {
    if items == [] then []
    else EntryLine(items[0].0, items[0].1) + Serialize(items[1..])
  }

  lemma {:induction false} SerializeAppend(items: seq<(string, string)>, x: (string, string))
    ensures Serialize(items + [x]) == Serialize(items) + EntryLine(x.0, x.1)
    decreases |items|
  {
    if items == [] {
      assert items + [x] == [x];
    } else {
      assert (items + [x])[1..] == items[1..] + [x];
      SerializeAppend(items[1..], x);
    }
  }

  /** One step of the merge. */
  lemma {:induction false} CarryStep(out: seq<(string, string)>, cs: seq<Option<(string, string)>>, i: nat)
    requires i < |cs|
    ensures CarryAll(out, cs[..i + 1]) == AddNew(CarryAll(out, cs[..i]), cs[i])
  {
    assert cs[..i + 1][..i] == cs[..i];
  }

  /** A definition's key is not among the keys of the rows before it. */
  lemma {:induction false} FreshDefinitionKey(form: seq<Field>, i: nat)
    requires |form| == |Definitions| && i < |Definitions|
    ensures Definitions[i].key !in KeysOf(FormEntries(form)[..i])
  {
    DefinitionKeysDistinct();
    var ks := KeysOf(FormEntries(form)[..i]);
    forall j | 0 <= j < i
      ensures ks[j] != Definitions[i].key
    {
      assert ks[j] == Definitions[j].key;
    }
  }

  /** The first loop of `save_settings`: `out[key]` set from every row, in
      definition order. */
  method CollectForm(form: seq<Field>) returns (out: seq<(string, string)>)
    requires |form| == |Definitions|
    ensures out == FormEntries(form)
  {
    out := [];
    var i := 0;
    ghost var fe := FormEntries(form);
    while i < |Definitions|
      invariant 0 <= i <= |Definitions|
      invariant out == fe[..i]
    {
      FreshDefinitionKey(form, i);
      out := Put(out, Definitions[i].key, Render(form[i]));
      assert fe[..i + 1] == fe[..i] + [fe[i]];
      i := i + 1;
    }
    assert fe[..i] == fe;
  }

  /** The second loop of `save_settings`: each line of the old file with
      `=` that is not a comment adds its key, if not written yet, with the
      rest of the line as value. */
  method MergeLines(start: seq<(string, string)>, lines: seq<string>) returns (out: seq<(string, string)>)
    ensures out == CarryAll(start, RawCarriedOf(lines))
  {
    ghost var cs := RawCarriedOf(lines);
    out := start;
    var n := 0;
    while n < |lines|
      invariant 0 <= n <= |lines|
      invariant out == CarryAll(start, cs[..n])
    {
      var line := lines[n];
      CarryStep(start, cs, n);
      if '=' in line && !IsComment(line) {
        ContainsChar(line, '=');
        var k := SplitOnce(line, "=").value.0;
        if k !in KeysOf(out) {
          var v := RStripChar(SplitOnce(line, "=").value.1, '\n');
          out := Put(out, k, v);
        }
      }
      n := n + 1;
    }
    assert cs[..n] == cs;
  }

  /** The write loop of `save_settings`: `f"{k}={v}\n"` per item. */
  method WriteItems(out: seq<(string, string)>) returns (text: string)
    ensures text == Serialize(out)
  {
    text := "";
    var j := 0;
    while j < |out|
      invariant 0 <= j <= |out|
      invariant text == Serialize(out[..j])
    {
      SerializeAppend(out[..j], out[j]);
      assert out[..j + 1] == out[..j] + [out[j]];
      text := text + EntryLine(out[j].0, out[j].1);
      j := j + 1;
    }
    assert out[..j] == out;
  }

  /** `save_settings`: `None` when nothing is written, because the server
      folder is missing or the existing file cannot be read (reading, merging
      and writing share one `try`); otherwise the text written to
      `server.properties`. */
  method SaveSettings(form: seq<Field>, file: PropertiesFile, dirExists: bool) returns (written: Option<string>)
    requires |form| == |Definitions|
    ensures !dirExists || file.Unreadable? ==> written == None
    ensures dirExists && !file.Unreadable? ==> written == Some(Serialize(SavedAsWritten(form, LinesOf(file))))
  {
    if !dirExists || file.Unreadable? {
      return None;
    }
    var out := CollectForm(form);
    out := MergeLines(out, LinesOf(file));
    var text := WriteItems(out);
    written := Some(text);
  }

  // ---------------------------------------------------------------- what a save keeps

  /** The saved items start with every definition, in definition order, with
      the text of its row (`"true"`/`"false"` for a check box), and no key is
      saved twice. */
  lemma {:induction false} SavedLayout(form: seq<Field>, cs: seq<Option<(string, string)>>)
    requires |form| == |Definitions|
    ensures var r := Saved(form, cs);
      |Definitions| <= |r| && DistinctKeys(r)
      && (forall i :: 0 <= i < |Definitions| ==> r[i] == (Definitions[i].key, Render(form[i])))
      && (FitsDefinitions(form) ==> forall i :: 0 <= i < |Definitions| && Definitions[i].isBool ==>
            r[i].1 == "true" || r[i].1 == "false")
  {
    DefinitionKeysDistinct();
    var r := Saved(form, cs);
    assert r[..|Definitions|] == FormEntries(form);
    forall i | 0 <= i < |Definitions|
      ensures r[i] == FormEntries(form)[i]
    {
      assert r[..|Definitions|][i] == r[i];
    }
  }

  /** A key is saved exactly when it is a definition's or some carried line
      holds it. */
  lemma {:induction false} CarryKeys(out: seq<(string, string)>, cs: seq<Option<(string, string)>>, k: string)
    ensures k in KeysOf(CarryAll(out, cs))
      <==> k in KeysOf(out) || exists i :: 0 <= i < |cs| && cs[i].Some? && cs[i].value.0 == k
  {
    if cs != [] {
      var init := cs[..|cs| - 1];
      var c := cs[|cs| - 1];
      var m := CarryAll(out, init);
      CarryKeys(out, init, k);
      if c.Some? && c.value.0 !in KeysOf(m) {
        assert KeysOf(m + [c.value]) == KeysOf(m) + [c.value.0];
      }
      if exists i :: 0 <= i < |cs| && cs[i].Some? && cs[i].value.0 == k {
        var i :| 0 <= i < |cs| && cs[i].Some? && cs[i].value.0 == k;
        if i < |cs| - 1 {
          assert init[i] == cs[i];
        }
      }
      if exists i :: 0 <= i < |init| && init[i].Some? && init[i].value.0 == k {
        var i :| 0 <= i < |init| && init[i].Some? && init[i].value.0 == k;
        assert cs[i] == init[i];
      }
    }
  }

  /** The merge only ever appends: what the first `n` lines produce is a
      prefix of what all of them produce, so new keys appear in file order. */
  lemma {:induction false} CarryPrefix(out: seq<(string, string)>, cs: seq<Option<(string, string)>>, n: nat)
    requires n <= |cs|
    ensures CarryAll(out, cs[..n]) <= CarryAll(out, cs)
    decreases |cs|
  {
    if n < |cs| {
      var init := cs[..|cs| - 1];
      assert init[..n] == cs[..n];
      CarryPrefix(out, init, n);
      var m := CarryAll(out, init);
      assert m <= CarryAll(out, cs);
    } else {
      assert cs[..n] == cs;
    }
  }

  /** A key first carried by line `i`, and not a definition's, is saved with
      the value that line carries. */
  lemma {:induction false} CarryFirst(out: seq<(string, string)>, cs: seq<Option<(string, string)>>, i: nat)
    requires i < |cs| && cs[i].Some? && cs[i].value.0 !in KeysOf(out)
    requires forall j :: 0 <= j < i ==> cs[j].None? || cs[j].value.0 != cs[i].value.0
    ensures cs[i].value in CarryAll(out, cs)
  {
    var k := cs[i].value.0;
    CarryKeys(out, cs[..i], k);
    assert k !in KeysOf(CarryAll(out, cs[..i]));
    CarryStep(out, cs, i);
    var m := CarryAll(out, cs[..i + 1]);
    assert m[|m| - 1] == cs[i].value;
    CarryPrefix(out, cs, i + 1);
    assert CarryAll(out, cs)[|m| - 1] == cs[i].value;
  }

  // ---------------------------------------------------------------- reading a save back

  /** The items that can be written and read back unchanged. */
  predicate CleanItems(items: seq<(string, string)>) {
    forall i :: 0 <= i < |items| ==> CleanKey(items[i].0) && CleanValue(items[i].1)
  }

  /** A written item is one line of the file. */
  lemma {:induction false} EntryLineIsLine(k: string, v: string)
    requires '\n' !in k && '\n' !in v
    ensures IsLine(EntryLine(k, v))
  {
    var l := EntryLine(k, v);
    forall m | 0 <= m < |l| - 1
      ensures l[m] != '\n'
    {
      if m < |k| {
        assert l[m] == k[m];
      } else if m > |k| {
        assert l[m] == v[m - |k| - 1];
      }
    }
  }

  /** The written text is read back as one line per item. */
  lemma {:induction false} LinesOfSerialize(items: seq<(string, string)>)
    requires forall i :: 0 <= i < |items| ==> '\n' !in items[i].0 && '\n' !in items[i].1
    requires forall i :: 0 <= i < |items| ==> '\r' !in items[i].0 && '\r' !in items[i].1
    ensures var lines := SplitLines(Serialize(items));
      |lines| == |items|
      && forall i :: 0 <= i < |items| ==> lines[i] == EntryLine(items[i].0, items[i].1)
    decreases |items|
  {
    if items != [] {
      var line := EntryLine(items[0].0, items[0].1);
      var lines := SplitLines(Serialize(items));
      assert lines == [line] + SplitLines(Serialize(items[1..])) by {
        EntryLineIsLine(items[0].0, items[0].1);
        SplitLinesStep(line, Serialize(items[1..]));
      }
      LinesOfSerialize(items[1..]);
      forall i | 1 <= i < |items|
        ensures lines[i] == EntryLine(items[i].0, items[i].1)
      {
        assert items[1..][i - 1] == items[i];
      }
    }
  }

  /** Each written line reads back as its item. */
  lemma {:induction false} EntriesOfSerialize(items: seq<(string, string)>)
    requires CleanItems(items)
    ensures var es := EntriesOf(SplitLines(Serialize(items)));
      |es| == |items| && forall i :: 0 <= i < |items| ==> es[i] == Some(items[i])
  {
    var lines := SplitLines(Serialize(items));
    LinesOfSerialize(items);
    forall i | 0 <= i < |items|
      ensures Entry(lines[i]) == Some(items[i])
    {
      EntryOfLine([], items[i].0, items[i].1);
      assert [] + EntryLine(items[i].0, items[i].1) == lines[i];
    }
  }

  /** Collecting one entry per item, keys distinct, gives back each item. */
  lemma {:induction false} CollectItemValues(items: seq<(string, string)>, es: seq<Option<(string, string)>>)
    requires DistinctKeys(items)
    requires |es| == |items| && forall i :: 0 <= i < |items| ==> es[i] == Some(items[i])
    ensures forall i :: 0 <= i < |items| ==> items[i].0 in Collect(es) && Collect(es)[items[i].0] == items[i].1
  {
    forall i | 0 <= i < |items|
      ensures items[i].0 in Collect(es) && Collect(es)[items[i].0] == items[i].1
    {
      CollectLast(es, i, items[i].0, items[i].1);
    }
  }

  /** Collecting one entry per item gives the items' keys and no others. */
  lemma {:induction false} CollectItemKeys(items: seq<(string, string)>, es: seq<Option<(string, string)>>)
    requires |es| == |items| && forall i :: 0 <= i < |items| ==> es[i] == Some(items[i])
    ensures forall k :: k in Collect(es) <==> k in KeysOf(items)
  {
    forall k | k in Collect(es)
      ensures k in KeysOf(items)
    {
      CollectFrom(es, k);
      InKeysOf(items, k);
    }
    forall k | k in KeysOf(items)
      ensures k in Collect(es)
    {
      InKeysOf(items, k);
      var i :| 0 <= i < |items| && items[i].0 == k;
      CollectLast(es[..i + 1], i, k, items[i].1);
      CollectStillIn(es, i + 1, k);
    }
  }

  /** Writing items with distinct keys and reading the file back in the
      window yields exactly those items. */
  lemma {:induction false} ReadBack(items: seq<(string, string)>)
    requires CleanItems(items) && DistinctKeys(items)
    ensures var props := Parsed(Readable(Serialize(items)));
      (forall i :: 0 <= i < |items| ==> items[i].0 in props && props[items[i].0] == items[i].1)
      && (forall k :: k in props <==> k in KeysOf(items))
  {
    var es := EntriesOf(SplitLines(Serialize(items)));
    assert Parsed(Readable(Serialize(items))) == Collect(es);
    EntriesOfSerialize(items);
    CollectItemValues(items, es);
    CollectItemKeys(items, es);
  }

  /** Merging clean pairs into clean items gives clean items. */
  lemma {:induction false} CarryClean(out: seq<(string, string)>, cs: seq<Option<(string, string)>>)
    requires CleanItems(out)
    requires forall i :: 0 <= i < |cs| && cs[i].Some? ==> CleanKey(cs[i].value.0) && CleanValue(cs[i].value.1)
    ensures CleanItems(CarryAll(out, cs))
  {
    if cs != [] {
      var init := cs[..|cs| - 1];
      assert forall i :: 0 <= i < |init| ==> init[i] == cs[i];
      CarryClean(out, init);
    }
  }

  /** Every row of a form whose texts are clean saves as a clean item. */
  lemma {:induction false} FormEntriesClean(form: seq<Field>)
    requires |form| == |Definitions|
    requires forall i :: 0 <= i < |form| ==> CleanValue(Render(form[i]))
    ensures CleanItems(FormEntries(form))
  {
    DefinitionKeysPlain();
    forall i | 0 <= i < |form|
      ensures CleanKey(Definitions[i].key)
    {
      var k := Definitions[i].key;
      assert PlainKey(k);
      GraphicNotSpace(k[0]);
      assert forall j :: 0 <= j < |k| ==> k[j] != '=' && k[j] != '\n' && k[j] != '\r';
    }
  }

  /** What the fixed save writes can be read back unchanged. */
  lemma {:induction false} SavedFixedClean(form: seq<Field>, lines: seq<string>)
    requires |form| == |Definitions|
    requires forall i :: 0 <= i < |form| ==> CleanValue(Render(form[i]))
    requires forall i :: 0 <= i < |lines| ==> IsLine(lines[i]) && '\r' !in lines[i]
    ensures CleanItems(SavedFixed(form, lines)) && DistinctKeys(SavedFixed(form, lines))
  {
    var cs := EntriesOf(lines);
    FormEntriesClean(form);
    forall i | 0 <= i < |cs| && cs[i].Some?
      ensures CleanKey(cs[i].value.0) && CleanValue(cs[i].value.1)
    {
      EntryClean(lines[i]);
    }
    CarryClean(FormEntries(form), cs);
    SavedLayout(form, cs);
  }

  /** A key the old file held is saved by the fixed save. */
  lemma {:induction false} SaveKeepsKey(form: seq<Field>, lines: seq<string>, k: string)
    requires |form| == |Definitions| && k in ParsedMap(lines)
    ensures k in KeysOf(SavedFixed(form, lines))
  {
    CollectFrom(EntriesOf(lines), k);
    CarryKeys(FormEntries(form), EntriesOf(lines), k);
  }

  /** With the merge keyed as the window reads the file, opening the window
      after a save shows every row as it was saved, and every key the old
      file held is still there. */
  lemma {:induction false} SavedFixedReadsBack(form: seq<Field>, t: string)
    requires |form| == |Definitions| && '\r' !in t
    requires forall i :: 0 <= i < |form| ==> CleanValue(Render(form[i]))
    ensures var props := Parsed(Readable(Serialize(SavedFixed(form, SplitLines(t)))));
      (forall i :: 0 <= i < |Definitions| ==> Definitions[i].key in props && props[Definitions[i].key] == Render(form[i]))
      && (forall k :: k in Parsed(Readable(t)) ==> k in props)
  {
    var lines := SplitLines(t);
    var r := SavedFixed(form, lines);
    var props := Parsed(Readable(Serialize(r)));
    SavedLayout(form, EntriesOf(lines));
    SplitLinesWithout(t, '\r');
    SavedFixedClean(form, lines);
    ReadBack(r);
    forall k | k in Parsed(Readable(t))
      ensures k in props
    {
      SaveKeepsKey(form, lines, k);
    }
  }

  // ---------------------------------------------------------------- the save as written

  /** An indented entry line as the save loop takes it: the key keeps its
      indentation, while the window's parser strips it. */
  lemma {:induction false} RawCarriedIndented(w: string, k: string, v: string)
    requires AllSpace(w) && CleanKey(k) && CleanValue(v)
    ensures RawCarried(w + EntryLine(k, v)) == Some((w + k, v))
    ensures Entry(w + EntryLine(k, v)) == Some((k, v))
  {
    var line := w + EntryLine(k, v);
    EntryOfLine(w, k, v);
    assert !IsComment(line);
    IndentedSplit(w, k, v);
    NewlineStripped(v);
  }

  /** The first `=` of an indented entry line is the one after its key. */
  lemma {:induction false} IndentedSplit(w: string, k: string, v: string)
    requires AllSpace(w) && '=' !in k
    ensures '=' in w + EntryLine(k, v)
    ensures SplitOnce(w + EntryLine(k, v), "=") == Some((w + k, v + "\n"))
  {
    var line := w + EntryLine(k, v);
    AppendAssoc(k + "=", v, "\n");
    AppendAssoc(w, k + "=", v + "\n");
    AppendAssoc(w, k, "=");
    assert line == w + k + ['='] + (v + "\n");
    assert line[|w| + |k|] == '=';
    GraphicNotSpace('=');
    assert '=' !in w + k;
    SplitOnceAfter(w + k, '=', v + "\n");
  }

  /** Dropping the newline after a value that does not end in one. */
  lemma {:induction false} NewlineStripped(v: string)
    requires v == [] || v[|v| - 1] != '\n'
    ensures RStripChar(v + "\n", '\n') == v
  {
    var s := v + "\n";
    var r := RStripChar(s, '\n');
    assert |r| >= |v| by {
      assert v != [] ==> s[|v| - 1] != '\n';
    }
    assert r == s[..|v|];
  }

  /** A definition's key can be written and read back. */
  lemma {:induction false} DefinitionKeyClean(i: nat)
    requires i < |Definitions|
    ensures CleanKey(Definitions[i].key)
  {
    DefinitionKeysPlain();
    var k := Definitions[i].key;
    assert PlainKey(k);
    GraphicNotSpace(k[0]);
    assert forall j :: 0 <= j < |k| ==> k[j] != '=' && k[j] != '\n' && k[j] != '\r';
  }

  /** The line for an indented key is the indentation, then the line. */
  lemma {:induction false} EntryLineIndented(w: string, k: string, v: string)
    ensures EntryLine(w + k, v) == w + EntryLine(k, v)
  {
  }

  /** An indented entry line is one line of the file. */
  lemma {:induction false} IndentedIsLine(w: string, k: string, v: string)
    requires '\n' !in w && '\n' !in k && '\n' !in v
    ensures IsLine(w + EntryLine(k, v))
  {
    var line := w + EntryLine(k, v);
    EntryLineIsLine(k, v);
    forall m | 0 <= m < |line| - 1
      ensures line[m] != '\n'
    {
      if m < |w| {
        assert line[m] == w[m];
      } else {
        assert line[m] == EntryLine(k, v)[m - |w|];
      }
    }
  }

  /** A line written after others is parsed after them. */
  lemma {:induction false} ParsedLastLine(a: string, line: string)
    requires a == [] || a[|a| - 1] == '\n'
    requires line != [] && line[|line| - 1] == '\n' && IsLine(line)
    ensures Parsed(Readable(a + line)) == ParsedMap(SplitLines(a)) + ParsedMap([line])
  {
    var lines := SplitLines(a) + [line];
    assert SplitLines(line) == [line] by {
      SplitLinesStep(line, []);
      assert line + [] == line;
    }
    assert SplitLines(a + line) == lines by {
      SplitLinesAppend(a, line);
    }
    ParsedAppend(SplitLines(a), [line]);
  }

  /** A file of one entry line parses to that one pair. */
  lemma {:induction false} ParsedOneLine(line: string, k: string, v: string)
    requires Entry(line) == Some((k, v))
    ensures ParsedMap([line]) == map[k := v]
  {
    var es := EntriesOf([line]);
    assert es == [Some((k, v))];
    CollectStep(es, 0);
    assert es[..0] == [] && es[..1] == es;
  }

  /** Saving over a file whose one line is an indented entry appends the
      entry with its indented key, after every row of the form. */
  lemma {:induction false} IndentedSaveItems(form: seq<Field>, w: string, k: string, v: string)
    requires |form| == |Definitions|
    requires AllSpace(w) && w != [] && '\n' !in w && CleanKey(k) && CleanValue(v)
    ensures SavedAsWritten(form, SplitLines(w + EntryLine(k, v))) == FormEntries(form) + [(w + k, v)]
  {
    var line := w + EntryLine(k, v);
    var fe := FormEntries(form);
    var lines := SplitLines(line);
    assert lines == [line] by {
      IndentedIsLine(w, k, v);
      SplitLinesStep(line, []);
      assert line + [] == line;
    }
    var c := Some((w + k, v));
    var cs := RawCarriedOf(lines);
    assert cs == [c] by {
      RawCarriedIndented(w, k, v);
    }
    IndentedKeyFresh(form, w, k);
    assert CarryAll(fe, cs[..0]) == fe by {
      assert cs[..0] == [];
    }
    assert CarryAll(fe, cs) == AddNew(fe, c);
    assert AddNew(fe, c) == Put(fe, w + k, v);
  }

  /** An indented key is none of the window's keys. */
  lemma {:induction false} IndentedKeyFresh(form: seq<Field>, w: string, k: string)
    requires |form| == |Definitions|
    requires AllSpace(w) && w != []
    ensures w + k !in KeysOf(FormEntries(form))
  {
    var fe := FormEntries(form);
    DefinitionKeysPlain();
    InKeysOf(fe, w + k);
    forall i | 0 <= i < |fe|
      ensures fe[i].0 != w + k
    {
      var d := Definitions[i].key;
      assert fe[i].0 == d && PlainKey(d);
      GraphicNotSpace(d[0]);
      assert (w + k)[0] == w[0] && IsSpace(w[0]);
    }
  }

  /** Whatever row `i` of the window holds, saving over a file that holds
      the same key indented writes the row and then the old line with its
      indented key; opening the window again shows the old value, so the
      edit is lost (for instance `pvp` ticked over a file line `  pvp=false`). */
  lemma {:induction false} SaveAsWrittenReverts(form: seq<Field>, i: nat, w: string, v: string)
    requires |form| == |Definitions| && i < |Definitions|
    requires AllSpace(w) && w != [] && '\n' !in w && CleanValue(v)
    ensures var k := Definitions[i].key;
      var props := Parsed(Readable(Serialize(SavedAsWritten(form, SplitLines(w + EntryLine(k, v))))));
      k in props && props[k] == v
  {
    var k := Definitions[i].key;
    DefinitionKeyClean(i);
    var line := w + EntryLine(k, v);
    var fe := FormEntries(form);
    IndentedSaveItems(form, w, k, v);
    SerializeAppend(fe, (w + k, v));
    EntryLineIndented(w, k, v);
    IndentedIsLine(w, k, v);
    ParsedLastLine(Serialize(fe), line);
    RawCarriedIndented(w, k, v);
    ParsedOneLine(line, k, v);
  }
}
