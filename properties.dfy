/** `server.properties`: the definitions the settings window shows, the parser
    that fills it, the merge and writer behind its save button, and the port
    lookup. A file is its text after newline translation, so a line ends with
    `\n`. */
module Properties {
  import opened Wrappers
  import opened PyStr
  import opened PyInt
  import opened PropertyDefinitions

  /** `server.properties` as the program finds it: not there, there but
      not openable or not valid UTF-8, or read as this text (after newline
      translation, so a `Readable` text holds no `\r`). */
  datatype PropertiesFile = Absent | Unreadable | Readable(text: string)

  // ---------------------------------------------------------------- lines

  /** Text that `for line in f` yields as one line: non-empty, with `\n`
      at most at its end. */
  predicate IsLine(l: string) {
    l != [] && forall k :: 0 <= k < |l| - 1 ==> l[k] != '\n'
  }

  /** The index just past the first `\n` at or after `i`, or the end. */
  function LineEnd(t: string, i: nat): (j: nat)
    requires i <= |t|
    ensures i <= j <= |t| && (i < |t| ==> i < j)
    ensures forall k :: i <= k < j - 1 ==> t[k] != '\n'
    ensures j < |t| ==> t[j - 1] == '\n'
    decreases |t| - i
  {
    if i == |t| then i else if t[i] == '\n' then i + 1 else LineEnd(t, i + 1)
  }

  /** The lines of a text file, as `for line in f` yields them. */
  function SplitLines(t: string): (lines: seq<string>)
    ensures forall i :: 0 <= i < |lines| ==> IsLine(lines[i])
    decreases |t|
  {
    if t == [] then []
    else
      var j := LineEnd(t, 0);
      [t[..j]] + SplitLines(t[j..])
  }

  lemma {:induction false} LineEndAt(t: string, i: nat, j: nat)
    requires i < j <= |t| && t[j - 1] == '\n'
    requires forall k :: i <= k < j - 1 ==> t[k] != '\n'
    ensures LineEnd(t, i) == j
    decreases j - i
  {
    if t[i] != '\n' {
      LineEndAt(t, i + 1, j);
    }
  }

  /** A complete line in front of more text is read as one line. */
  lemma {:induction false} SplitLinesStep(line: string, rest: string)
    requires line != [] && line[|line| - 1] == '\n' && IsLine(line)
    ensures SplitLines(line + rest) == [line] + SplitLines(rest)
  {
    var t := line + rest;
    LineEndAt(t, 0, |line|);
    assert t[..|line|] == line && t[|line|..] == rest;
  }

  /** The first line of text that ends with a newline, and the rest. */
  lemma {:induction false} FirstLineOf(a: string)
    requires a != [] && a[|a| - 1] == '\n'
    ensures var j := LineEnd(a, 0);
      0 < j && a[j - 1] == '\n' && IsLine(a[..j]) && a == a[..j] + a[j..]
  {
    var j := LineEnd(a, 0);
    assert a == a[..j] + a[j..];
  }

  /** Text that ends with a newline is read line by line on its own, so
      what follows it starts a new line. */
  lemma {:induction false} SplitLinesAppend(a: string, b: string)
    requires a == [] || a[|a| - 1] == '\n'
    ensures SplitLines(a + b) == SplitLines(a) + SplitLines(b)
    decreases |a|
  {
    if a == [] {
      assert a + b == b;
    } else {
      var j := LineEnd(a, 0);
      FirstLineOf(a);
      var line, rest := a[..j], a[j..];
      SplitLinesAppend(rest, b);
      LineThenAppend(line, rest, b);
    }
  }

  /** A complete line in front keeps its place when more text follows. */
  lemma {:induction false} LineThenAppend(line: string, rest: string, b: string)
    requires line != [] && line[|line| - 1] == '\n' && IsLine(line)
    requires SplitLines(rest + b) == SplitLines(rest) + SplitLines(b)
    ensures SplitLines(line + rest + b) == SplitLines(line + rest) + SplitLines(b)
  {
    AppendAssoc(line, rest, b);
    SplitLinesStep(line, rest + b);
    SplitLinesStep(line, rest);
    AppendAssoc([line], SplitLines(rest), SplitLines(b));
  }

  /** The lines joined back together. */
  function Concat(lines: seq<string>): string {
    if lines == [] then [] else lines[0] + Concat(lines[1..])
  }

  /** The lines cut the whole text into pieces: joined, they give it back. */
  lemma {:induction false} SplitLinesConcat(t: string)
    ensures Concat(SplitLines(t)) == t
    decreases |t|
  {
    if t != [] {
      var j := LineEnd(t, 0);
      var ls := SplitLines(t);
      var rest := SplitLines(t[j..]);
      assert ls == [t[..j]] + rest;
      assert ls[1..] == rest;
      SplitLinesConcat(t[j..]);
      assert Concat(ls) == t[..j] + Concat(rest);
      assert t[..j] + t[j..] == t;
    }
  }

  /** A character absent from the text is absent from each of its lines. */
  lemma {:induction false} SplitLinesWithout(t: string, c: char)
    requires c !in t
    ensures forall i :: 0 <= i < |SplitLines(t)| ==> c !in SplitLines(t)[i]
    decreases |t|
  {
    if t != [] {
      var j := LineEnd(t, 0);
      var ls := SplitLines(t);
      assert c !in t[j..] && c !in t[..j] by {
        forall p | 0 <= p < |t| - j
          ensures t[j..][p] != c
        {
          assert t[j..][p] == t[j + p];
        }
        forall p | 0 <= p < j
          ensures t[..j][p] != c
        {
          assert t[..j][p] == t[p];
        }
      }
      SplitLinesWithout(t[j..], c);
      assert ls[0] == t[..j] && ls[1..] == SplitLines(t[j..]);
      forall i | 1 <= i < |ls|
        ensures c !in ls[i]
      {
        assert ls[i] == SplitLines(t[j..])[i - 1];
      }
    }
  }

  // ---------------------------------------------------------------- parsing

  /** `line.strip().startswith("#")`. */
  predicate IsComment(line: string) {
    var t := Strip(line);
    t != [] && t[0] == '#'
  }

  /** What the settings window takes from one line: the text of the stripped
      line before and after its first `=`, or `None` for a blank line, a
      comment or a line without `=`. */
  function Entry(line: string): Option<(string, string)> {
    var t := Strip(line);
    if t == [] || t[0] == '#' || '=' !in line then None else SplitOnce(t, "=")
  }

  /** A non-space character of `s` survives `strip`. */
  lemma {:induction false} InStrip(s: string, c: char)
    requires c in s && !IsSpace(c)
    ensures c in Strip(s)
  {
    var p :| 0 <= p < |s| && s[p] == c;
    var i := SkipSpace(s, 0);
    var j := TrimEnd(s, |s|);
    SkipSpaceSpan(s, 0);
    TrimEndSpan(s, |s|);
    assert i <= p < j;
    assert Strip(s)[p - i] == c;
  }

  /** An entry is exactly a stripped line split at its first `=`, and a line
      is skipped exactly when it is blank, a comment or has no `=`. */
  lemma {:induction false} EntryShape(line: string)
    ensures Entry(line).None? <==> AllSpace(line) || IsComment(line) || '=' !in line
    ensures Entry(line).Some? ==> var (k, v) := Entry(line).value;
      k + "=" + v == Strip(line) && '=' !in k
  {
    var t := Strip(line);
    StripEmpty(line);
    if t != [] && t[0] != '#' && '=' in line {
      GraphicNotSpace('=');
      InStrip(line, '=');
      ContainsChar(t, '=');
      var (k, v) := Entry(line).value;
      ContainsChar(k, '=');
    }
  }

  /** A key that can be written as `k=v` and read back: no `=`, newline or
      carriage return in it (reading with universal newlines ends a line at
      either), and no whitespace or `#` at its start. */
  predicate CleanKey(k: string) {
    '=' !in k && '\n' !in k && '\r' !in k && (k == [] || (!IsSpace(k[0]) && k[0] != '#'))
  }

  /** A value that can be written as `k=v` and read back: no newline or
      carriage return in it and no whitespace at its end. */
  predicate CleanValue(v: string) {
    '\n' !in v && '\r' !in v && (v == [] || !IsSpace(v[|v| - 1]))
  }

  /** A stripped line holds no newline. */
  lemma {:induction false} StripLineNoNewline(line: string)
    requires IsLine(line)
    ensures '\n' !in Strip(line)
  {
    var i := SkipSpace(line, 0);
    var j := TrimEnd(line, |line|);
    assert IsSpace('\n');
    if i < j {
      forall p | 0 <= p < j - i
        ensures Strip(line)[p] != '\n'
      {
        assert Strip(line)[p] == line[i + p];
      }
    }
  }

  /** A character absent from a text is absent from the text stripped. */
  lemma {:induction false} StripWithout(s: string, c: char)
    requires c !in s
    ensures c !in Strip(s)
  {
    var i := SkipSpace(s, 0);
    var j := TrimEnd(s, |s|);
    if i < j {
      forall p | 0 <= p < j - i
        ensures Strip(s)[p] != c
      {
        assert Strip(s)[p] == s[i + p];
      }
    }
  }

  /** What the window reads from a line of translated text (which holds no
      carriage return) can be written back and read again. */
  lemma {:induction false} EntryClean(line: string)
    requires IsLine(line) && '\r' !in line && Entry(line).Some?
    ensures CleanKey(Entry(line).value.0) && CleanValue(Entry(line).value.1)
  {
    var (k, v) := Entry(line).value;
    var t := Strip(line);
    EntryShape(line);
    StripLineNoNewline(line);
    StripWithout(line, '\r');
    assert forall m :: 0 <= m < |k| ==> k[m] == t[m];
    assert forall m :: 0 <= m < |v| ==> v[m] == t[|k| + 1 + m];
  }

  /** The text of one written line: `k=v` and a newline. */
  function EntryLine(k: string, v: string): string {
    k + "=" + v + "\n"
  }

  /** The line `w + k + "=" + v + "\n"`, with `w` whitespace, reads back as
      key `k` and value `v`, when `k` does not start a comment and neither
      end of `k=v` is whitespace. */
  lemma {:induction false} EntryOfLine(w: string, k: string, v: string)
    requires AllSpace(w) && '=' !in k
    requires k == [] || (!IsSpace(k[0]) && k[0] != '#')
    requires v == [] || !IsSpace(v[|v| - 1])
    ensures Entry(w + EntryLine(k, v)) == Some((k, v))
  {
    var s := k + "=" + v;
    var x := w + EntryLine(k, v);
    AppendAssoc(w, s, "\n");
    assert Strip(x) == s by {
      GraphicNotSpace('=');
      assert s[0] == (if k == [] then '=' else k[0]);
      assert s[|s| - 1] == (if v == [] then '=' else v[|v| - 1]);
      assert AllSpace("\n");
      StripPadded(w, s, "\n");
    }
    assert '=' in x by {
      assert x[|w| + |k|] == '=';
    }
    assert SplitOnce(s, "=") == Some((k, v)) by {
      SplitOnceAfter(k, '=', v);
    }
  }

  /** The entries of a run of lines, one per line. */
  function EntriesOf(lines: seq<string>): (es: seq<Option<(string, string)>>)
    ensures |es| == |lines|
  {
    seq(|lines|, i requires 0 <= i < |lines| => Entry(lines[i]))
  }

  /** The map a run of entries builds: a later entry for a key replaces an
      earlier one. */
  function Collect(es: seq<Option<(string, string)>>): map<string, string> {
    if es == [] then map[]
    else
      var m := Collect(es[..|es| - 1]);
      match es[|es| - 1]
      case Some((k, v)) => m[k := v]
      case None => m
  }

  /** The properties read from a sequence of lines. */
  function ParsedMap(lines: seq<string>): map<string, string> {
    Collect(EntriesOf(lines))
  }

  /** The window's `props`: empty when there is no file, or when reading
      it raises. */
  function Parsed(file: PropertiesFile): map<string, string> {
    if file.Readable? then ParsedMap(SplitLines(file.text)) else map[]
  }

  /** The loop of `open_settings_window` over the lines of the file. */
  method ParseProperties(file: PropertiesFile) returns (props: map<string, string>)
    ensures props == Parsed(file)
  {
    props := map[];
    if !file.Readable? {
      return;
    }
    var lines := SplitLines(file.text);
    ghost var es := EntriesOf(lines);
    var i := 0;
    while i < |lines|
      invariant 0 <= i <= |lines|
      invariant props == Collect(es[..i])
    {
      var line := lines[i];
      var t := Strip(line);
      CollectStep(es, i);
      ghost var e := Entry(line);
      ghost var before := props;
      assert es[i] == e;
      if t != [] && t[0] != '#' && '=' in line {
        var kv := SplitOnce(t, "=");
        assert e == kv;
        if kv.Some? {
          props := props[kv.value.0 := kv.value.1];
        }
        assert props == AddEntry(before, kv);
      } else {
        assert e == None;
      }
      assert props == AddEntry(before, e);
      i := i + 1;
    }
    assert es[..i] == es;
  }

  /** One entry added to the map built so far. */
  function AddEntry(m: map<string, string>, e: Option<(string, string)>): map<string, string> {
    match e
    case Some((k, v)) => m[k := v]
    case None => m
  }

  /** Collecting one more entry. */
  lemma {:induction false} CollectStep(es: seq<Option<(string, string)>>, i: nat)
    requires i < |es|
    ensures Collect(es[..i + 1]) == AddEntry(Collect(es[..i]), es[i])
  {
    assert es[..i + 1][..i] == es[..i];
  }

  /** Two runs of entries one after the other: the second run's keys take
      precedence. */
  lemma {:induction false} CollectAppend(a: seq<Option<(string, string)>>, b: seq<Option<(string, string)>>)
    ensures Collect(a + b) == Collect(a) + Collect(b)
    decreases |b|
  {
    if b != [] {
      var b' := b[..|b| - 1];
      assert (a + b)[..|a + b| - 1] == a + b';
      assert (a + b)[|a + b| - 1] == b[|b| - 1];
      CollectAppend(a, b');
    } else {
      assert a + b == a;
    }
  }

  /** A key that no entry carries is not collected. */
  lemma {:induction false} CollectNone(es: seq<Option<(string, string)>>, k: string)
    requires forall i :: 0 <= i < |es| ==> es[i].None? || es[i].value.0 != k
    ensures k !in Collect(es)
  {
    if es != [] {
      CollectNone(es[..|es| - 1], k);
    }
  }

  /** Every collected key comes from some entry. */
  lemma {:induction false} CollectFrom(es: seq<Option<(string, string)>>, k: string)
    requires k in Collect(es)
    ensures exists i :: 0 <= i < |es| && es[i].Some? && es[i].value.0 == k
  {
    var init := es[..|es| - 1];
    if k in Collect(init) {
      CollectFrom(init, k);
      var i :| 0 <= i < |init| && init[i].Some? && init[i].value.0 == k;
      assert es[i] == init[i];
    }
  }

  /** A key collected from a prefix of the entries stays collected. */
  lemma {:induction false} CollectStillIn(es: seq<Option<(string, string)>>, n: nat, k: string)
    requires n <= |es| && k in Collect(es[..n])
    ensures k in Collect(es)
  {
    assert es == es[..n] + es[n..];
    CollectAppend(es[..n], es[n..]);
  }

  /** A key is collected with the value of the last entry that carries it. */
  lemma {:induction false} CollectLast(es: seq<Option<(string, string)>>, i: nat, k: string, v: string)
    requires i < |es| && es[i] == Some((k, v))
    requires forall j :: i < j < |es| ==> es[j].None? || es[j].value.0 != k
    ensures k in Collect(es) && Collect(es)[k] == v
  {
    var a, b := es[..i + 1], es[i + 1..];
    assert es == a + b;
    CollectAppend(a, b);
    assert a[..i] == es[..i] && a[i] == es[i];
    CollectNone(b, k);
  }

  /** A key is read exactly when some line yields it, with the value of the
      last line that yields it; lines read later take precedence. */
  lemma {:induction false} ParsedLastWins(lines: seq<string>, i: nat, k: string, v: string)
    requires i < |lines| && Entry(lines[i]) == Some((k, v))
    requires forall j :: i < j < |lines| ==> Entry(lines[j]).None? || Entry(lines[j]).value.0 != k
    ensures k in ParsedMap(lines) && ParsedMap(lines)[k] == v
  {
    CollectLast(EntriesOf(lines), i, k, v);
  }

  /** Every key read comes from a line that yields it. */
  lemma {:induction false} ParsedFrom(lines: seq<string>, k: string)
    requires k in ParsedMap(lines)
    ensures exists i :: 0 <= i < |lines| && Entry(lines[i]).Some? && Entry(lines[i]).value.0 == k
  {
    CollectFrom(EntriesOf(lines), k);
  }

  /** The lines of one text after those of another are read as one file. */
  lemma {:induction false} ParsedAppend(a: seq<string>, b: seq<string>)
    ensures ParsedMap(a + b) == ParsedMap(a) + ParsedMap(b)
  {
    EntriesOfAppend(a, b);
    CollectAppend(EntriesOf(a), EntriesOf(b));
  }

  lemma {:induction false} EntriesOfAppend(a: seq<string>, b: seq<string>)
    ensures EntriesOf(a + b) == EntriesOf(a) + EntriesOf(b)
  {
    var x, y := EntriesOf(a + b), EntriesOf(a) + EntriesOf(b);
    forall i | 0 <= i < |x|
      ensures x[i] == y[i]
    {
      if i < |a| {
        assert (a + b)[i] == a[i];
      } else {
        assert (a + b)[i] == b[i - |a|];
      }
    }
  }
}
