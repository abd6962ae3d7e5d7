/** The command line `start_server` hands to the operating system, and the one
    the setup job writes into `start.bat`. */
module Launch {
  import opened Wrappers
  import opened PyStr

  /** The heap size in megabytes: the RAM field when it is all digits,
      otherwise 2048. */
  function HeapMegabytes(ram: string): (r: string)
    ensures IsDigits(r)
  {
    if IsDigits(ram) then ram else "2048"
  }

  /** The argument text used when the user leaves it blank (also what the
      "reset arguments" box stores). */
  function DefaultArgs(ram: string): string {
    var r := HeapMegabytes(ram);
    var xmx, xms := "-Xmx" + r + "M", "-Xms" + r + "M";
    xmx + " " + xms + " " + "nogui"
  }

  /** The argument text after stripping, falling back to `DefaultArgs`. */
  function EffectiveArgs(argsField: string, ram: string): string {
    var t := Strip(argsField);
    if t == [] then DefaultArgs(ram) else t
  }

  /** The Java executable: the stripped Java field, or `java` when it is
      blank; `probe` says what the file system answers for that name (the
      path of `bin/java.exe` when the name is a directory holding one). */
  function JavaExec(javaField: string, probe: string -> Option<string>): string {
    var name := if Strip(javaField) == [] then "java" else Strip(javaField);
    match probe(name)
    case Some(p) => p
    case None => name
  }

  /** `a.lower() == "nogui"`. */
  predicate IsNoGui(a: string) {
    Lower(a) == "nogui"
  }

  /** The words that are not `nogui` in any letter case, in order. */
  function RemoveNoGui(words: seq<string>): (r: seq<string>)
    ensures forall w :: w in r <==> w in words && !IsNoGui(w)
    ensures |r| <= |words|
  {
    if words == [] then []
    else (if IsNoGui(words[0]) then [] else [words[0]]) + RemoveNoGui(words[1..])
  }

  /** Filtering two lists one after the other is filtering their concatenation. */
  lemma {:induction false} RemoveNoGuiAppend(a: seq<string>, b: seq<string>)
    ensures RemoveNoGui(a + b) == RemoveNoGui(a) + RemoveNoGui(b)
  {
    if a != [] {
      assert (a + b)[0] == a[0];
      assert (a + b)[1..] == a[1..] + b;
      RemoveNoGuiAppend(a[1..], b);
      var h: seq<string> := if IsNoGui(a[0]) then [] else [a[0]];
      assert RemoveNoGui(a + b) == h + RemoveNoGui(a[1..] + b);
      assert RemoveNoGui(a) == h + RemoveNoGui(a[1..]);
      assert h + (RemoveNoGui(a[1..]) + RemoveNoGui(b)) == (h + RemoveNoGui(a[1..])) + RemoveNoGui(b);
    } else {
      assert a + b == b;
    }
  }

  /** A list without `nogui` is left as it is. */
  lemma {:induction false} RemoveNoGuiClean(words: seq<string>)
    requires forall i :: 0 <= i < |words| ==> !IsNoGui(words[i])
    ensures RemoveNoGui(words) == words
  {
    if words != [] {
      RemoveNoGuiClean(words[1..]);
    }
  }

  /** The argv of the server process: Java, the user's arguments without any
      `nogui`, then `-jar`, the jar name and one `nogui`. */
  function LaunchArgv(java: string, argsText: string, jarName: string): (argv: seq<string>)
    ensures |argv| >= 4 && argv[0] == java && argv[|argv| - 3..] == ["-jar", jarName, "nogui"]
  {
    [java] + RemoveNoGui(SplitWhitespace(argsText)) + ["-jar", jarName, "nogui"]
  }

  /** The whole of `start_server`'s command construction from the form fields
      and the name of the first jar found. */
  function StartCommand(javaField: string, probe: string -> Option<string>, argsField: string,
                        ram: string, jarName: string): seq<string>
  {
    LaunchArgv(JavaExec(javaField, probe), EffectiveArgs(argsField, ram), jarName)
  }

  /** The argv starts with the Java executable and ends with `-jar`, the jar
      and `nogui`; what lies between is exactly the words of the argument text
      that are not `nogui`. */
  lemma {:induction false} ArgvShape(java: string, argsText: string, jarName: string)
    ensures var argv := LaunchArgv(java, argsText, jarName);
      argv[0] == java
      && argv[|argv| - 3..] == ["-jar", jarName, "nogui"]
      && forall w :: w in argv[1..|argv| - 3] <==> w in SplitWhitespace(argsText) && !IsNoGui(w)
  {
    var argv := LaunchArgv(java, argsText, jarName);
    assert argv[1..|argv| - 3] == RemoveNoGui(SplitWhitespace(argsText));
  }

  /** A name matched by `*.jar` is not `nogui`. */
  lemma {:induction false} JarNameNotNoGui(jarName: string)
    requires EndsWith(Lower(jarName), ".jar")
    ensures !IsNoGui(jarName)
  {
    var l := Lower(jarName);
    assert l[|l| - 4..][3] == 'r';
    assert l[|l| - 1] != "nogui"[4];
  }

  /** After the executable, `nogui` occurs once, as the last argument. */
  lemma {:induction false} NoGuiOnceLast(java: string, argsText: string, jarName: string)
    requires EndsWith(Lower(jarName), ".jar")
    ensures var argv := LaunchArgv(java, argsText, jarName);
      IsNoGui(argv[|argv| - 1])
      && forall i :: 1 <= i < |argv| - 1 ==> !IsNoGui(argv[i])
  {
    var argv := LaunchArgv(java, argsText, jarName);
    var user := RemoveNoGui(SplitWhitespace(argsText));
    var n := |argv|;
    assert argv[1..n - 3] == user;
    assert argv[n - 3] == "-jar" && argv[n - 2] == jarName && argv[n - 1] == "nogui";
    assert IsNoGui(argv[n - 1]) by {
      NoGuiWord();
    }
    JarNameNotNoGui(jarName);
    assert !IsNoGui("-jar");
    forall i | 1 <= i < n - 1
      ensures !IsNoGui(argv[i])
    {
      if i < n - 3 {
        assert argv[i] == argv[1..n - 3][i - 1];
        assert argv[i] in user;
      } else if i == n - 3 {
        assert argv[i] == "-jar";
      } else {
        assert argv[i] == jarName;
      }
    }
  }

  /** A word whose second letter is `X` is not `nogui`. */
  lemma {:induction false} SecondLetterX(w: string)
    requires |w| >= 2 && w[1] == 'X'
    ensures !IsNoGui(w)
  {
    assert Lower(w)[1] != "nogui"[1];
  }

  /** The words of `DefaultArgs`: the two heap options and `nogui`. */
  lemma {:induction false} DefaultArgsWords(ram: string)
    ensures var r := HeapMegabytes(ram);
      SplitWhitespace(DefaultArgs(ram)) == ["-Xmx" + r + "M", "-Xms" + r + "M", "nogui"]
  {
    var r := HeapMegabytes(ram);
    var words := ["-Xmx" + r + "M", "-Xms" + r + "M", "nogui"];
    forall k, i | 0 <= k < 3 && 0 <= i < |words[k]|
      ensures !IsSpace(words[k][i])
    {
      var c := words[k][i];
      assert c in "-XmxsMnogui" || IsDigit(c);
      GraphicNotSpace(c);
    }
    assert Join(words[2..], " ") == "nogui";
    assert Join(words[1..], " ") == words[1] + " " + "nogui";
    assert Join(words, " ") == words[0] + " " + (words[1] + " " + "nogui");
    assert words[0] + " " + (words[1] + " " + "nogui") == DefaultArgs(ram);
    SplitJoinedWords(words);
  }

  /** With the heap options alone, the argv is fixed down to the token. */
  lemma {:induction false} DefaultArgv(java: string, ram: string, jarName: string)
    ensures var r := HeapMegabytes(ram);
      LaunchArgv(java, DefaultArgs(ram), jarName)
        == [java, "-Xmx" + r + "M", "-Xms" + r + "M", "-jar", jarName, "nogui"]
  {
    var r := HeapMegabytes(ram);
    DefaultArgsWords(ram);
    var a, b := "-Xmx" + r + "M", "-Xms" + r + "M";
    HeapWordsKept(a, b);
    assert [java] + [a, b] + ["-jar", jarName, "nogui"] == [java, a, b, "-jar", jarName, "nogui"];
  }

  /** Two words with `X` as second letter stay; the `nogui` after them goes. */
  lemma {:induction false} HeapWordsKept(a: string, b: string)
    requires |a| >= 2 && a[1] == 'X' && |b| >= 2 && b[1] == 'X'
    ensures RemoveNoGui([a, b, "nogui"]) == [a, b]
  {
    var words := [a, b, "nogui"];
    SecondLetterX(a);
    SecondLetterX(b);
    assert words == [a, b] + ["nogui"];
    RemoveNoGuiAppend([a, b], ["nogui"]);
    RemoveNoGuiClean([a, b]);
    NoGuiWord();
    assert RemoveNoGui(["nogui"]) == [];
  }

  /** `nogui` itself is `nogui`. */
  lemma {:induction false} NoGuiWord()
    ensures IsNoGui("nogui")
  {
    var w := "nogui";
    assert forall i :: 0 <= i < |w| ==> LowerChar(w[i]) == w[i];
  }

  /** A blank argument field starts the server with the default heap options
      and no other argument. */
  lemma {:induction false} BlankArgsStart(javaField: string, probe: string -> Option<string>, argsField: string,
                       ram: string, jarName: string)
    requires AllSpace(argsField)
    ensures var r := HeapMegabytes(ram);
      StartCommand(javaField, probe, argsField, ram, jarName)
        == [JavaExec(javaField, probe), "-Xmx" + r + "M", "-Xms" + r + "M", "-jar", jarName, "nogui"]
  {
    StripEmpty(argsField);
    DefaultArgv(JavaExec(javaField, probe), ram, jarName);
  }

  /** Text with its surrounding whitespace removed is used as it is. */
  lemma {:induction false} NonBlankArgsKept(argsField: string, ram: string)
    requires !AllSpace(argsField)
    ensures EffectiveArgs(argsField, ram) == Strip(argsField) != []
  {
    StripEmpty(argsField);
  }

  /** The arguments the "reset" box stores start the server exactly as a
      blank field with the same RAM would. */
  lemma {:induction false} ResetArgsStart(javaField: string, probe: string -> Option<string>, ram: string, jarName: string)
    ensures StartCommand(javaField, probe, DefaultArgs(ram), ram, jarName)
      == StartCommand(javaField, probe, "", ram, jarName)
  {
    var d := DefaultArgs(ram);
    assert d[0] == '-' && d[|d| - 1] == 'i';
    GraphicNotSpace('-');
    GraphicNotSpace('i');
    StripUnpadded(d);
    assert AllSpace("");
    StripEmpty("");
  }

  /** What the Java launcher does: run the jar after `-jar` or the class
      named by the first argument that is not an option, print and exit
      without running anything, or fail for want of a class. */
  datatype LaunchTarget = JarFile(jar: string) | MainClass(name: string) | Exits | NoTarget

  /** Options the launcher reads the next argument as the value of. */
  predicate TakesValue(w: string) {
    w != [] && w[0] == '-'
    && (w == "-cp" || w == "-classpath" || w == "--class-path" || w == "-p" || w == "--module-path")
  }

  /** Options on which the launcher prints something and exits. */
  predicate EndsLauncher(w: string) {
    w != [] && w[0] == '-'
    && (w == "-version" || w == "--version" || w == "-help" || w == "--help" || w == "-h" || w == "-?"
        || w == "--dry-run")
  }

  /** An option the launcher passes over on its own: it starts with `-`, and
      is not `-jar`, an option taking a value or one that exits. */
  predicate PlainOption(w: string) {
    w != [] && w[0] == '-' && w != "-jar" && !TakesValue(w) && !EndsLauncher(w)
  }

  /** The launcher's reading of the arguments after the executable. */
  function JvmTarget(args: seq<string>): LaunchTarget {
    if args == [] then NoTarget
    else if args[0] == "-jar" then (if |args| > 1 then JarFile(args[1]) else NoTarget)
    else if EndsLauncher(args[0]) then Exits
    else if TakesValue(args[0]) then (if |args| > 1 then JvmTarget(args[2..]) else NoTarget)
    else if args[0] != [] && args[0][0] == '-' then JvmTarget(args[1..])
    else MainClass(args[0])
  }

  /** A plain option is passed over. */
  lemma {:induction false} SkipOption(o: string, rest: seq<string>)
    requires PlainOption(o)
    ensures JvmTarget([o] + rest) == JvmTarget(rest)
  {
    assert ([o] + rest)[1..] == rest;
  }

  /** An option taking a value is passed over together with its value,
      whatever that value looks like (`-cp nogui` or `-cp -jar`). */
  lemma {:induction false} SkipValue(o: string, v: string, rest: seq<string>)
    requires TakesValue(o)
    ensures JvmTarget([o, v] + rest) == JvmTarget(rest)
  {
    assert o != "-jar" && !EndsLauncher(o);
    assert ([o, v] + rest)[2..] == rest;
  }

  /** A word whose second letter is `X` (a `-X` option) is a plain option. */
  lemma {:induction false} XOptionPlain(w: string)
    requires |w| >= 2 && w[0] == '-' && w[1] == 'X'
    ensures PlainOption(w)
  {
    assert w != "-jar" by { assert "-jar"[1] != 'X'; }
    assert !TakesValue(w) by {
      assert "-cp"[1] != 'X' && "-classpath"[1] != 'X' && "--class-path"[1] != 'X';
      assert "-p"[1] != 'X' && "--module-path"[1] != 'X';
    }
    assert !EndsLauncher(w) by {
      assert "-version"[1] != 'X' && "--version"[1] != 'X' && "-help"[1] != 'X' && "--help"[1] != 'X';
      assert "-h"[1] != 'X' && "-?"[1] != 'X' && "--dry-run"[1] != 'X';
    }
  }

  /** Options before `-jar` leave the jar as what is run. */
  lemma {:induction false} OptionsThenJar(opts: seq<string>, jarName: string, rest: seq<string>)
    requires forall i :: 0 <= i < |opts| ==> PlainOption(opts[i])
    ensures JvmTarget(opts + ["-jar", jarName] + rest) == JarFile(jarName)
  {
    if opts != [] {
      assert opts + ["-jar", jarName] + rest == [opts[0]] + (opts[1..] + ["-jar", jarName] + rest);
      SkipOption(opts[0], opts[1..] + ["-jar", jarName] + rest);
      OptionsThenJar(opts[1..], jarName, rest);
    }
  }

  /** With the default arguments the server process runs the jar. */
  lemma {:induction false} DefaultLaunchRunsJar(java: string, ram: string, jarName: string)
    ensures JvmTarget(LaunchArgv(java, DefaultArgs(ram), jarName)[1..]) == JarFile(jarName)
  {
    var r := HeapMegabytes(ram);
    DefaultArgv(java, ram, jarName);
    var argv := LaunchArgv(java, DefaultArgs(ram), jarName);
    var opts := HeapOptions(ram);
    assert argv[1..] == opts + ["-jar", jarName] + ["nogui"];
    HeapOptionsPlain(ram);
    OptionsThenJar(opts, jarName, ["nogui"]);
  }

  /** The two heap options of `DefaultArgs`. */
  function HeapOptions(ram: string): seq<string> {
    var r := HeapMegabytes(ram);
    ["-Xmx" + r + "M", "-Xms" + r + "M"]
  }

  /** Both heap options are plain options. */
  lemma {:induction false} HeapOptionsPlain(ram: string)
    ensures forall i :: 0 <= i < |HeapOptions(ram)| ==> PlainOption(HeapOptions(ram)[i])
  {
    var opts := HeapOptions(ram);
    XOptionPlain(opts[0]);
    XOptionPlain(opts[1]);
  }

  /** The command the setup job writes into `start.bat` as written: the
      argument text word for word, `nogui` included, before `-jar`. */
  function BatchArgvAsWritten(java: string, argsText: string, jarName: string): (argv: seq<string>)
    ensures |argv| >= 4 && argv[0] == java && argv[|argv| - 3..] == ["-jar", jarName, "nogui"]
  {
    [java] + SplitWhitespace(argsText) + ["-jar", jarName, "nogui"]
  }

  /** As written, a `start.bat` made with the default arguments names
      `nogui` as the class to run, ahead of `-jar`. */
  lemma {:induction false} BatchDefaultRunsNoGui(java: string, ram: string, jarName: string)
    ensures JvmTarget(BatchArgvAsWritten(java, DefaultArgs(ram), jarName)[1..]) == MainClass("nogui")
  {
    var r := HeapMegabytes(ram);
    DefaultArgsWords(ram);
    var xmx, xms := "-Xmx" + r + "M", "-Xms" + r + "M";
    var tail := ["nogui", "-jar", jarName, "nogui"];
    assert BatchArgvAsWritten(java, DefaultArgs(ram), jarName)[1..] == [xmx] + ([xms] + tail);
    XOptionPlain(xmx);
    XOptionPlain(xms);
    SkipOption(xmx, [xms] + tail);
    SkipOption(xms, tail);
    assert JvmTarget(tail) == MainClass("nogui") by { assert "nogui"[0] == 'n'; }
  }

  /** A run of options in front of the arguments is passed over. */
  lemma {:induction false} SkipOptions(opts: seq<string>, rest: seq<string>)
    requires forall i :: 0 <= i < |opts| ==> PlainOption(opts[i])
    ensures JvmTarget(opts + rest) == JvmTarget(rest)
  {
    if opts != [] {
      assert opts + rest == [opts[0]] + (opts[1..] + rest);
      SkipOption(opts[0], opts[1..] + rest);
      SkipOptions(opts[1..], rest);
    } else {
      assert opts + rest == rest;
    }
  }

  /** As written, any argument text whose words are options up to a `nogui`
      word makes the `start.bat` command run a class of that name instead of
      the jar. */
  lemma {:induction false} BatchNoGuiRunsClass(java: string, argsText: string, jarName: string,
                                               opts: seq<string>, word: string, rest: seq<string>)
    requires SplitWhitespace(argsText) == opts + [word] + rest && IsNoGui(word)
    requires forall i :: 0 <= i < |opts| ==> PlainOption(opts[i])
    ensures JvmTarget(BatchArgvAsWritten(java, argsText, jarName)[1..]) == MainClass(word)
  {
    var tail := [word] + (rest + ["-jar", jarName, "nogui"]);
    assert BatchArgvAsWritten(java, argsText, jarName)[1..] == opts + tail;
    SkipOptions(opts, tail);
    assert word != [] && word[0] != '-' by {
      assert Lower(word)[0] == 'n';
    }
  }

  /** The corrected `start.bat` writes the argv `start_server` builds. Then
      any argument text whose words, `nogui` aside, are options runs the jar,
      and `nogui` reaches the server once, as its last argument. */
  lemma {:induction false} FilteredArgsRunJar(java: string, argsText: string, jarName: string)
    requires EndsWith(Lower(jarName), ".jar")
    requires forall w :: w in SplitWhitespace(argsText) && !IsNoGui(w) ==> PlainOption(w)
    ensures var argv := LaunchArgv(java, argsText, jarName);
      JvmTarget(argv[1..]) == JarFile(jarName)
      && IsNoGui(argv[|argv| - 1])
      && forall i :: 1 <= i < |argv| - 1 ==> !IsNoGui(argv[i])
  {
    var opts := RemoveNoGui(SplitWhitespace(argsText));
    forall i | 0 <= i < |opts|
      ensures PlainOption(opts[i])
    {
      assert opts[i] in opts;
    }
    OptionsThenJar(opts, jarName, ["nogui"]);
    ArgvAfterJava(java, opts, jarName);
    NoGuiOnceLast(java, argsText, jarName);
  }

  /** The arguments after the executable, regrouped around `-jar`. */
  lemma {:induction false} ArgvAfterJava(java: string, opts: seq<string>, jarName: string)
    ensures ([java] + opts + ["-jar", jarName, "nogui"])[1..] == opts + ["-jar", jarName] + ["nogui"]
  {
    AppendAssoc([java], opts, ["-jar", jarName, "nogui"]);
    AppendAssoc(opts, ["-jar", jarName], ["nogui"]);
    assert ["-jar", jarName] + ["nogui"] == ["-jar", jarName, "nogui"];
  }
}
