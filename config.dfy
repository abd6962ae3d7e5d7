/** `load_config`: the program's settings file, with every missing default
    filled in. */
module Config {
  import opened Wrappers
  import opened JsonValue

  /** What opening and decoding the settings file gives: no file, a file
      that cannot be read or decoded, or the decoded value. */
  datatype ConfigFile = Missing | Unreadable | Loaded(value: Json)

  /** The keys of `DEFAULT_CONFIG`, in its order. */
  const DefaultKeys: seq<string> := ["java_path", "args", "install_dir", "ram", "server_type", "version"]

  /** `DEFAULT_CONFIG`; `install_dir` defaults to the working directory `cwd`. */
  function Defaults(cwd: string): map<string, Json> {
    map["java_path" := JString(""), "args" := JString(""), "install_dir" := JString(cwd),
        "ram" := JString("2048"), "server_type" := JString("paper"), "version" := JString("")]
  }

  /** Whether Python's `k not in j` test passes without error for every default key. */
  predicate HasAllKeys(j: Json) {
    forall t :: 0 <= t < |DefaultKeys| ==> In(j, DefaultKeys[t]) == Some(true)
  }

  /** What `load_config` returns. A decoded object gains every default key it
      lacks and keeps the values it has. Any other decoded value is returned
      as it is when `in` finds every default key in it, since then nothing is
      assigned; otherwise the `in` test or the assignment raises and the
      defaults are returned. */
  function LoadedConfig(file: ConfigFile, cwd: string): Json {
    match file
    case Loaded(JObject(fields)) => JObject(Defaults(cwd) + fields)
    case Loaded(j) => if HasAllKeys(j) then j else JObject(Defaults(cwd))
    case _ => JObject(Defaults(cwd))
  }

  /** The defaults for the first `i` keys of `DefaultKeys`. */
  function DefaultsUpTo(cwd: string, i: nat): (d: map<string, Json>)
    requires i <= |DefaultKeys|
  {
    map k | k in DefaultKeys[..i] && k in Defaults(cwd) :: Defaults(cwd)[k]
  }

  /** Filling key `i` into an object that holds the defaults before it. */
  lemma {:induction false} FillStep(cwd: string, i: nat, fields: map<string, Json>)
    requires i < |DefaultKeys|
    ensures var k := DefaultKeys[i];
      var m := DefaultsUpTo(cwd, i) + fields;
      DefaultsUpTo(cwd, i + 1) + fields == if k in m then m else m[k := Defaults(cwd)[k]]
  {
    var k := DefaultKeys[i];
    assert DefaultKeys[..i + 1] == DefaultKeys[..i] + [k];
    assert k !in DefaultKeys[..i];
    assert k in Defaults(cwd);
    assert DefaultsUpTo(cwd, i + 1) == DefaultsUpTo(cwd, i)[k := Defaults(cwd)[k]];
  }

  lemma {:induction false} FillAll(cwd: string)
    ensures DefaultsUpTo(cwd, |DefaultKeys|) == Defaults(cwd)
  {
    assert DefaultKeys[..|DefaultKeys|] == DefaultKeys;
  }

  /** `load_config`, key by key in the order of `DEFAULT_CONFIG`. */
  method LoadConfig(file: ConfigFile, cwd: string) returns (cfg: Json)
    ensures cfg == LoadedConfig(file, cwd)
  {
    if !file.Loaded? {
      return JObject(Defaults(cwd));
    }
    var j := file.value;
    cfg := j;
    var i := 0;
    while i < |DefaultKeys|
      invariant 0 <= i <= |DefaultKeys|
      invariant j.JObject? ==> cfg == JObject(DefaultsUpTo(cwd, i) + j.fields)
      invariant !j.JObject? ==> cfg == j
      invariant !j.JObject? ==> forall t :: 0 <= t < i ==> In(j, DefaultKeys[t]) == Some(true)
    {
      var k := DefaultKeys[i];
      var present := In(cfg, k);
      if present.None? {
        // `k not in j` raised TypeError
        return JObject(Defaults(cwd));
      }
      if !present.value {
        if !cfg.JObject? {
          // `j[k] = v` on a list or a string raised TypeError
          return JObject(Defaults(cwd));
        }
        cfg := JObject(cfg.fields[k := Defaults(cwd)[k]]);
      }
      if j.JObject? {
        FillStep(cwd, i, j.fields);
      }
      i := i + 1;
    }
    FillAll(cwd);
  }

  /** A decoded object keeps every value it holds and gains the default of
      every key it lacks, and nothing else. */
  lemma {:induction false} LoadedObject(fields: map<string, Json>, cwd: string)
    ensures var c := LoadedConfig(Loaded(JObject(fields)), cwd);
      c.JObject?
      && (forall k :: k in c.fields <==> k in fields || k in DefaultKeys)
      && (forall k :: k in fields ==> c.fields[k] == fields[k])
      && (forall k :: k in DefaultKeys && k !in fields ==> c.fields[k] == Defaults(cwd)[k])
  {
  }

  /** Without a readable file the configuration is `DEFAULT_CONFIG`. */
  lemma {:induction false} NoFileGivesDefaults(file: ConfigFile, cwd: string)
    requires !file.Loaded?
    ensures LoadedConfig(file, cwd) == JObject(Defaults(cwd))
  {
  }

  /** Where `load_config` returns an object, saving it and loading it again
      gives the same configuration. */
  lemma {:induction false} ReloadObject(file: ConfigFile, cwd: string)
    requires LoadedConfig(file, cwd).JObject?
    ensures LoadedConfig(Loaded(LoadedConfig(file, cwd)), cwd) == LoadedConfig(file, cwd)
  {
    var c := LoadedConfig(file, cwd);
    assert Defaults(cwd) + c.fields == c.fields by {
      if file.Loaded? && file.value.JObject? {
        assert c.fields == Defaults(cwd) + file.value.fields;
      }
    }
  }

  /** A JSON list naming every default key: `load_config` returns it as it is. */
  const KeyList: Json := JArray([JString("java_path"), JString("args"), JString("install_dir"),
                                 JString("ram"), JString("server_type"), JString("version")])

  /** As written, `load_config` can return a value that is not an object: a
      settings file holding `KeyList` is returned unchanged, and the
      `self.config.get(...)` calls that follow then fail. */
  lemma {:induction false} LoadedNonObject(cwd: string)
    ensures !LoadedConfig(Loaded(KeyList), cwd).JObject?
  {
    assert HasAllKeys(KeyList) by {
      forall t | 0 <= t < |DefaultKeys|
        ensures In(KeyList, DefaultKeys[t]) == Some(true)
      {
        assert KeyList.items[t] == JString(DefaultKeys[t]);
      }
    }
  }

  /** `load_config` with the fall-back to the defaults also taken when the
      file holds something other than an object. */
  function CheckedConfig(file: ConfigFile, cwd: string): (c: map<string, Json>)
    ensures forall k :: k in DefaultKeys ==> k in c
    ensures file.Loaded? && file.value.JObject? ==> forall k :: k in file.value.fields ==> k in c && c[k] == file.value.fields[k]
  {
    if file.Loaded? && file.value.JObject? then Defaults(cwd) + file.value.fields else Defaults(cwd)
  }

  /** The corrected loader agrees with `load_config` wherever that returns an
      object. */
  lemma {:induction false} CheckedAgrees(file: ConfigFile, cwd: string)
    requires LoadedConfig(file, cwd).JObject?
    ensures LoadedConfig(file, cwd) == JObject(CheckedConfig(file, cwd))
  {
  }

  /** Reloading the saved configuration changes nothing. */
  lemma {:induction false} CheckedReload(file: ConfigFile, cwd: string)
    ensures CheckedConfig(Loaded(JObject(CheckedConfig(file, cwd))), cwd) == CheckedConfig(file, cwd)
  {
  }
}
