/** `_get_server_port`: the port read back from `server.properties`, and the
    file the server setup writes when there is none. */
module ServerPort {
  import opened Wrappers
  import opened PyStr
  import opened PyInt
  import opened PropertyDefinitions
  import opened Properties
  import opened Settings

  /** Minecraft's default port, also the lookup's fallback. */
  const DefaultPort := 25565

  /** A line the lookup stops at: it holds `=` and, stripped, starts with
      `server-port`. */
  predicate IsPortLine(line: string) {
    '=' in line && "server-port" <= Strip(line)
  }

  /** What the lookup returns at such a line: the text after the first `=`,
      stripped, as an integer; the default when `int()` raises. */
  function PortValue(line: string): int
    requires '=' in line
  {
    ContainsChar(line, '=');
    match ParseInt(Strip(SplitOnce(line, "=").value.1))
    case Some(n) => n
    case None => DefaultPort
  }

  /** The lookup over the lines of the file: the first port line decides. */
  function PortOfLines(lines: seq<string>): (p: int)
    ensures (forall i :: 0 <= i < |lines| ==> !IsPortLine(lines[i])) ==> p == DefaultPort
  {
    if lines == [] then DefaultPort
    else if IsPortLine(lines[0]) then PortValue(lines[0])
    else PortOfLines(lines[1..])
  }

  /** The port for the file's text, or the default when there is no file or
      it cannot be read. */
  function Port(file: PropertiesFile): int {
    if file.Readable? then PortOfLines(SplitLines(file.text)) else DefaultPort
  }

  /** The loop of `_get_server_port`, returning at the first port line. */
  method GetServerPort(file: PropertiesFile) returns (port: int)
    ensures port == Port(file)
  {
    if !file.Readable? {
      return DefaultPort;
    }
    var lines := SplitLines(file.text);
    var i := 0;
    while i < |lines|
      invariant 0 <= i <= |lines|
      invariant PortOfLines(lines[i..]) == PortOfLines(lines)
    {
      var line := lines[i];
      if '=' in line && "server-port" <= Strip(line) {
        ContainsChar(line, '=');
        var (_, after) := SplitOnce(line, "=").value;
        var n := ParseInt(Strip(after));
        if n.Some? {
          return n.value;
        }
        return DefaultPort;
      }
      assert lines[i..][1..] == lines[i + 1..];
      i := i + 1;
    }
    return DefaultPort;
  }

  /** The first port line decides, whatever follows it. */
  lemma {:induction false} PortFirstLine(lines: seq<string>, i: nat)
    requires i < |lines| && IsPortLine(lines[i])
    requires forall j :: 0 <= j < i ==> !IsPortLine(lines[j])
    ensures PortOfLines(lines) == PortValue(lines[i])
  {
    if i > 0 {
      PortFirstLine(lines[1..], i - 1);
    }
  }

  /** The value `int()` reads from the text `v`, or the default. */
  function PortOf(v: string): int {
    match ParseInt(v)
    case Some(n) => n
    case None => DefaultPort
  }

  /** The written `motd` line is not a port line. */
  lemma {:induction false} MotdLineNotPort(v: string)
    ensures !IsPortLine(EntryLine("motd", v))
  {
    var line := EntryLine("motd", v);
    GraphicNotSpace('m');
    StripKeepsPrefix(line, 1);
    assert Strip(line)[0] == 'm';
  }

  /** A written line whose key has no `=` and no surrounding whitespace
      starts, stripped, with that key, and splits at the `=` after it. */
  lemma {:induction false} KeyLineSplit(k: string, v: string)
    requires k != [] && !IsSpace(k[0]) && !IsSpace(k[|k| - 1]) && '=' !in k
    ensures '=' in EntryLine(k, v) && k <= Strip(EntryLine(k, v))
    ensures SplitOnce(EntryLine(k, v), "=") == Some((k, v + "\n"))
  {
    var line := EntryLine(k, v);
    StripKeepsPrefix(line, |k|);
    assert line[..|k|] == k;
    assert line[|k|] == '=';
    assert line == k + ['='] + (v + "\n");
    SplitOnceAfter(k, '=', v + "\n");
  }

  /** `int()` reads a value the same with the newline after it. */
  lemma {:induction false} ParseWithNewline(v: string)
    ensures ParseInt(Strip(v + "\n")) == ParseInt(v)
  {
    assert AllSpace("\n");
    StripAppendSpace(v, "\n");
    StripStrip(v);
  }

  /** The written `server-port` line is a port line giving the port its value
      reads as. */
  lemma {:induction false} PortLineValue(v: string)
    ensures IsPortLine(EntryLine("server-port", v))
    ensures PortValue(EntryLine("server-port", v)) == PortOf(v)
  {
    var k := "server-port";
    GraphicNotSpace('s');
    GraphicNotSpace('t');
    assert '=' !in k by {
      PartAPlain1();
      assert PartA[1].key == k;
    }
    KeyLineSplit(k, v);
    ParseWithNewline(v);
  }

  /** The first two lines of a written file. */
  lemma {:induction false} SerializeTwo(items: seq<(string, string)>)
    requires |items| >= 2
    requires '\n' !in items[0].0 && '\n' !in items[0].1
    requires '\n' !in items[1].0 && '\n' !in items[1].1
    ensures var lines := SplitLines(Serialize(items));
      |lines| >= 2
      && lines[0] == EntryLine(items[0].0, items[0].1)
      && lines[1] == EntryLine(items[1].0, items[1].1)
  {
    var l0 := EntryLine(items[0].0, items[0].1);
    var l1 := EntryLine(items[1].0, items[1].1);
    assert items[1..][0] == items[1] && items[1..][1..] == items[2..];
    var rest := Serialize(items[2..]);
    assert Serialize(items) == l0 + (l1 + rest);
    EntryLineIsLine(items[0].0, items[0].1);
    EntryLineIsLine(items[1].0, items[1].1);
    SplitLinesStep(l0, l1 + rest);
    SplitLinesStep(l1, rest);
  }

  /** A written file whose first two items are `motd` and `server-port`
      gives the port the second one's value reads as. */
  lemma {:induction false} PortAfterSave(items: seq<(string, string)>)
    requires |items| >= 2 && items[0].0 == "motd" && items[1].0 == "server-port"
    requires '\n' !in items[0].1 && '\n' !in items[1].1
    requires '\r' !in items[0].1 && '\r' !in items[1].1
    ensures Port(Readable(Serialize(items))) == PortOf(items[1].1)
  {
    SerializeTwo(items);
    var lines := SplitLines(Serialize(items));
    assert !IsPortLine(lines[0]) by {
      MotdLineNotPort(items[0].1);
    }
    assert IsPortLine(lines[1]) && PortValue(lines[1]) == PortOf(items[1].1) by {
      PortLineValue(items[1].1);
    }
    assert lines[1..][0] == lines[1];
    assert Port(Readable(Serialize(items))) == PortOfLines(lines);
  }

  /** After a save, with or without the old file merged in, the lookup reads
      the port the window's `server-port` row holds, or the default when that
      text is not an integer. */
  lemma {:induction false} SavedPort(form: seq<Field>, cs: seq<Option<(string, string)>>)
    requires |form| == |Definitions|
    requires '\n' !in Render(form[0]) && '\n' !in Render(form[1])
    requires '\r' !in Render(form[0]) && '\r' !in Render(form[1])
    ensures Port(Readable(Serialize(Saved(form, cs)))) == PortOf(Render(form[1]))
  {
    assert Definitions[0] == PartA[0] && Definitions[1] == PartA[1];
    SavedLayout(form, cs);
    PortAfterSave(Saved(form, cs));
  }

  // ---------------------------------------------------------------- setup

  /** The `server.properties` the server setup writes when there is none. */
  const SetupProperties: seq<(string, string)> := [
    ("motd", "A Minecraft Server"),
    ("server-port", "25565"),
    ("max-players", "20"),
    ("online-mode", "true"),
    ("level-name", "world"),
    ("gamemode", "survival"),
    ("difficulty", "1"),
    ("pvp", "true")
  ]

  /** The setup's step for `server.properties`: the text written, or `None`
      when a file is already there, readable or not, and is left alone. */
  function SetupWrite(existing: PropertiesFile): (written: Option<string>)
    ensures written.Some? <==> existing.Absent?
  {
    if existing.Absent? then Some(Serialize(SetupProperties)) else None
  }

  /** `"25565"` reads as 25565. */
  lemma {:induction false} DefaultPortText()
    ensures PortOf("25565") == DefaultPort
  {
    ParseIntToString(25565);
    DefaultPortDigits();
    assert IntToString(25565) == "25565";
  }

  /** `str(25565)` is `"25565"`. */
  lemma {:induction false} DefaultPortDigits()
    ensures NatToString(25565) == "25565"
  {
    DigitsOf(25565, 2556, '5');
    DigitsOf(2556, 255, '6');
    DigitsOf(255, 25, '5');
    DigitsOf(25, 2, '5');
    assert NatToString(2) == ['2'];
    assert NatToString(25565) == ['2'] + ['5'] + ['5'] + ['6'] + ['5'];
  }

  /** The decimal digits of `n` are those of `n / 10`, then its last digit. */
  lemma {:induction false} DigitsOf(n: nat, m: nat, c: char)
    requires n >= 10 && m == n / 10 && c as int == '0' as int + n % 10
    ensures NatToString(n) == NatToString(m) + [c]
  {
  }

  /** A freshly set-up server listens on the default port. */
  lemma {:induction false} SetupPort()
    ensures var w := SetupWrite(Absent); w.Some? && Port(Readable(w.value)) == DefaultPort
  {
    SetupText(Serialize(SetupProperties));
  }

  /** The text the setup writes gives the default port. */
  lemma {:induction false} SetupText(t: string)
    requires t == Serialize(SetupProperties)
    ensures Port(Readable(t)) == DefaultPort
  {
    SetupHead();
    PortAfterSave(SetupProperties);
    DefaultPortText();
  }

  /** The setup's first two items are a one-line `motd` (no newline or
      carriage return) and `server-port` set to `25565`. */
  lemma {:induction false} SetupHead()
    ensures |SetupProperties| >= 2
    ensures SetupProperties[0].0 == "motd" && SetupProperties[1].0 == "server-port"
    ensures SetupProperties[1].1 == "25565"
    ensures '\n' !in SetupProperties[0].1 && '\n' !in SetupProperties[1].1
    ensures '\r' !in SetupProperties[0].1 && '\r' !in SetupProperties[1].1
  {
    var motd := SetupProperties[0].1;
    assert motd == "A Minecraft Server";
    assert forall i :: 0 <= i < |motd| ==> motd[i] != '\n' && motd[i] != '\r';
  }
}
