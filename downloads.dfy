/** The version lists the server setup offers for Forge and Fabric, and the
    file name a downloaded plugin is saved under. The HTTP requests and the
    HTML parsing are outside the model: the Forge extraction starts from the
    `href` values of the index page's links, the Fabric one from the decoded
    JSON reply, and the plugin name from the response's `Content-Disposition`
    header, its final URL and the clock reading. */
module Downloads {
  import opened Wrappers
  import opened PyStr
  import opened PyInt
  import opened Ordering
  import opened JsonValue

  // ---------------------------------------------------------------- forge

  /** The path before a version in the links of the Forge Maven index. */
  const ForgeMarker := "/net/minecraftforge/forge/"

  /** The text of `s` before its first `/`, or all of `s`. */
  function UpToSlash(s: string): (r: string)
    ensures r <= s && '/' !in r
    ensures |r| == |s| || s[|r|] == '/'
  {
    if s == [] || s[0] == '/' then []
    else
      var t := UpToSlash(s[1..]);
      assert s == [s[0]] + s[1..];
      assert |t| < |s[1..]| ==> s[|t| + 1] == s[1..][|t|];
      [s[0]] + t
  }

  lemma {:induction false} UpToSlashAppend(a: string, b: string)
    requires '/' !in a
    ensures UpToSlash(a + b) == a + UpToSlash(b)
  {
    if a != [] {
      assert a[0] in a;
      assert (a + b)[0] == a[0] && (a + b)[1..] == a[1..] + b;
      assert UpToSlash(a + b) == [a[0]] + UpToSlash(a[1..] + b);
      UpToSlashAppend(a[1..], b);
      assert a == [a[0]] + a[1..];
    } else {
      assert a + b == b;
    }
  }

  /** What one link contributes: `href.split(marker)[1].split("/")[0]` when
      the marker occurs and that piece is not empty. */
  function ForgeVersionOf(href: string): Option<string> {
    var parts := Split(href, ForgeMarker);
    if |parts| > 1 then
      var ver := Split(parts[1], "/")[0];
      if ver != [] then Some(ver) else None
    else None
  }

  /** The head of a join is a prefix of it, followed by the separator when
      more pieces come. */
  lemma {:induction false} JoinHead(ps: seq<string>, sep: string)
    requires ps != []
    ensures ps[0] <= Join(ps, sep)
    ensures |Join(ps, sep)| == |ps[0]| || sep <= Join(ps, sep)[|ps[0]|..]
  {
    if |ps| > 1 {
      var j := Join(ps, sep);
      assert j == ps[0] + sep + Join(ps[1..], sep);
      assert j[|ps[0]|..] == sep + Join(ps[1..], sep);
    }
  }

  /** Text that is empty or starts with `/` has nothing before a `/`. */
  lemma {:induction false} UpToSlashAtSlash(s: string)
    requires s == [] || s[0] == '/'
    ensures UpToSlash(s) == []
  {
  }

  /** The first `/`-piece of `t` is the text before the first `/` of `t`
      followed by anything that starts with `/`. */
  lemma {:induction false} FirstPieceUpToSlash(t: string, rest: string)
    requires rest == [] || rest[0] == '/'
    ensures Split(t, "/")[0] == UpToSlash(t + rest)
  {
    SplitOnceIsSplit(t, "/");
    ContainsChar(t, '/');
    match SplitOnce(t, "/")
    case None =>
      NoSlashPiece(t, rest);
    case Some((a, b)) =>
      SlashPiece(a, b, rest);
  }

  /** Without a `/` in `t`, the text before the first `/` of `t + rest` is
      `t`. */
  lemma {:induction false} NoSlashPiece(t: string, rest: string)
    requires rest == [] || rest[0] == '/'
    requires '/' !in t
    ensures UpToSlash(t + rest) == t
  {
    UpToSlashAppend(t, rest);
    UpToSlashAtSlash(rest);
    assert t + [] == t;
  }

  /** The text before the first `/` of `a/b` followed by `rest` is `a`. */
  lemma {:induction false} SlashPiece(a: string, b: string, rest: string)
    requires !Contains(a, "/")
    ensures UpToSlash(a + "/" + b + rest) == a
  {
    ContainsChar(a, '/');
    assert a + "/" + b + rest == a + ("/" + b + rest);
    UpToSlashAppend(a, "/" + b + rest);
    UpToSlashAtSlash("/" + b + rest);
    assert a + [] == a;
  }

  /** A link yields the text after its first marker up to the next `/`, when
      that text is not empty; a link without the marker yields nothing. */
  lemma {:induction false} ForgeVersionOfSpec(href: string)
    ensures ForgeVersionOf(href) ==
      match SplitOnce(href, ForgeMarker)
      case None => None
      case Some((_, after)) => if UpToSlash(after) == [] then None else Some(UpToSlash(after))
  {
    var parts := Split(href, ForgeMarker);
    SplitOnceIsSplit(href, ForgeMarker);
    match SplitOnce(href, ForgeMarker)
    case None =>
    case Some((_, after)) =>
      var tail := parts[1];
      assert parts[1..][0] == tail;
      JoinHead(parts[1..], ForgeMarker);
      assert after == tail + after[|tail|..];
      FirstPieceUpToSlash(tail, after[|tail|..]);
  }

  /** The values present in `ys`, in order. */
  function Somes<T(!new)>(ys: seq<Option<T>>): (xs: seq<T>)
    ensures |xs| <= |ys|
    ensures forall x :: x in xs <==> Some(x) in ys
  {
    if ys == [] then []
    else
      var n := |ys| - 1;
      assert ys == ys[..n] + [ys[n]];
      match ys[n]
      case None => Somes(ys[..n])
      case Some(x) => Somes(ys[..n]) + [x]
  }

  /** A value is present exactly when some position holds it. */
  lemma {:induction false} SomesMember<T(!new)>(ys: seq<Option<T>>, x: T)
    ensures x in Somes(ys) <==> exists i :: 0 <= i < |ys| && ys[i] == Some(x)
  {
    if Some(x) in ys {
      var i :| 0 <= i < |ys| && ys[i] == Some(x);
    }
  }

  /** A link yields a non-empty path segment. */
  lemma {:induction false} ForgeVersionClean(href: string)
    ensures ForgeVersionOf(href).Some? ==>
      ForgeVersionOf(href).value != [] && '/' !in ForgeVersionOf(href).value
  {
    ForgeVersionOfSpec(href);
  }

  /** What each link yields, link by link. */
  function ForgeYields(hrefs: seq<string>): (ys: seq<Option<string>>)
    ensures |ys| == |hrefs|
  {
    seq(|hrefs|, i requires 0 <= i < |hrefs| => ForgeVersionOf(hrefs[i]))
  }

  /** `fetch_forge_versions` on the links of the index page:
      `sorted(set(...), reverse=True)` of what the links yield. */
  function ForgeVersions(hrefs: seq<string>): seq<string> {
    SortDesc(Distinct(Somes(ForgeYields(hrefs))))
  }

  /** The loop of `fetch_forge_versions`. The Python `set` is kept as a list
      of the distinct versions in the order first seen; which order a set
      iterates in makes no difference once the result is sorted. */
  method FetchForgeVersions(hrefs: seq<string>) returns (versions: seq<string>)
    ensures versions == ForgeVersions(hrefs)
  {
    var found: seq<string> := [];
    var i := 0;
    ghost var ys := ForgeYields(hrefs);
    while i < |hrefs|
      invariant 0 <= i <= |hrefs|
      invariant found == Distinct(Somes(ys[..i]))
    {
      FoundStep(ys, i);
      ghost var y := ForgeVersionOf(hrefs[i]);
      assert ys[i] == y;
      var parts := Split(hrefs[i], ForgeMarker);
      if |parts| > 1 {
        var tail := parts[1];
        var ver := Split(tail, "/")[0];
        assert y == if ver != [] then Some(ver) else None;
        if ver != [] && ver !in found {
          found := found + [ver];
        }
      } else {
        assert y == None;
      }
      i := i + 1;
    }
    assert ys[..|hrefs|] == ys;
    versions := SortDesc(found);
  }

  /** One more yield adds its version to the distinct ones unless already
      there. */
  lemma {:induction false} FoundStep(ys: seq<Option<string>>, i: nat)
    requires i < |ys|
    ensures var found := Distinct(Somes(ys[..i]));
      Distinct(Somes(ys[..i + 1]))
      == if ys[i].Some? && ys[i].value !in found then found + [ys[i].value] else found
  {
    var pre := ys[..i + 1];
    assert pre[..i] == ys[..i] && pre[i] == ys[i];
    if ys[i].Some? {
      var xs := Somes(ys[..i]);
      assert Somes(pre) == xs + [ys[i].value];
      assert (xs + [ys[i].value])[..|xs|] == xs;
    }
  }

  /** The Forge list is strictly decreasing (newest first, no repeats), holds
      exactly the versions some link yields, and each is a non-empty path
      segment. */
  lemma {:induction false} ForgeVersionsSorted(hrefs: seq<string>)
    ensures var r := ForgeVersions(hrefs);
      (forall i, j :: 0 <= i < j < |r| ==> Less(r[j], r[i]))
      && (forall v :: v in r <==> exists i :: 0 <= i < |hrefs| && ForgeVersionOf(hrefs[i]) == Some(v))
      && (forall v :: v in r ==> v != [] && '/' !in v)
  {
    var ys := ForgeYields(hrefs);
    var r := ForgeVersions(hrefs);
    SortedSet(Somes(ys));
    forall v
      ensures v in r <==> exists i :: 0 <= i < |hrefs| && ForgeVersionOf(hrefs[i]) == Some(v)
    {
      SomesMember(ys, v);
      if v in r {
        var i :| 0 <= i < |ys| && ys[i] == Some(v);
        assert ForgeVersionOf(hrefs[i]) == Some(v);
      }
      if exists i :: 0 <= i < |hrefs| && ForgeVersionOf(hrefs[i]) == Some(v) {
        var i :| 0 <= i < |hrefs| && ForgeVersionOf(hrefs[i]) == Some(v);
        assert ys[i] == Some(v);
      }
    }
    forall v | v in r
      ensures v != [] && '/' !in v
    {
      SomesMember(ys, v);
      var i :| 0 <= i < |ys| && ys[i] == Some(v);
      ForgeVersionClean(hrefs[i]);
    }
  }

  // ---------------------------------------------------------------- fabric

  /** What one entry of the Fabric list contributes: an object's `"version"`
      member, or the entry itself when it is a string; other entries add
      nothing. */
  function FabricValue(e: Json): Option<Json> {
    match e
    case JObject(fields) => if "version" in fields then Some(fields["version"]) else None
    case JString(_) => Some(e)
    case _ => None
  }

  /** The values the entries contribute, in list order. */
  function FabricValues(entries: seq<Json>): seq<Json> {
    Somes(FabricYields(entries))
  }

  /** What each entry contributes, entry by entry. */
  function FabricYields(entries: seq<Json>): (ys: seq<Option<Json>>)
    ensures |ys| == |entries|
  {
    seq(|entries|, i requires 0 <= i < |entries| => FabricValue(entries[i]))
  }

  /** The values as text, or `None` when one of them is not a string. */
  function Texts(vals: seq<Json>): (r: Option<seq<string>>)
    ensures r.Some? <==> forall i :: 0 <= i < |vals| ==> vals[i].JString?
    ensures r.Some? ==> |r.value| == |vals|
    ensures r.Some? ==> forall i :: 0 <= i < |vals| ==> vals[i] == JString(r.value[i])
  {
    if forall i :: 0 <= i < |vals| ==> vals[i].JString? then
      Some(seq(|vals|, i requires 0 <= i < |vals| => vals[i].s))
    else None
  }

  /** `fetch_fabric_versions` on the decoded reply: a list gives its values
      sorted newest first, anything else the empty list. `None` stands for
      a list whose values are not all strings. */
  function FabricVersions(reply: Json): Option<seq<string>> {
    match reply
    case JArray(entries) =>
      (match Texts(FabricValues(entries))
       case Some(texts) => Some(SortDesc(texts))
       case None => None)
    case _ => Some([])
  }

  /** The loop of `fetch_fabric_versions`, then the sort. */
  method FetchFabricVersions(reply: Json) returns (versions: Option<seq<string>>)
    ensures versions == FabricVersions(reply)
  {
    if !reply.JArray? {
      return Some([]);
    }
    var entries := reply.items;
    var vals: seq<Json> := [];
    var i := 0;
    ghost var ys := FabricYields(entries);
    while i < |entries|
      invariant 0 <= i <= |entries|
      invariant vals == Somes(ys[..i])
    {
      var e := entries[i];
      assert ys[..i + 1][..i] == ys[..i] && ys[..i + 1][i] == FabricValue(e);
      if e.JObject? && "version" in e.fields {
        vals := vals + [e.fields["version"]];
      } else if e.JString? {
        vals := vals + [e];
      }
      i := i + 1;
    }
    assert ys[..|entries|] == ys;
    var texts := Texts(vals);
    if texts.None? {
      return None;
    }
    versions := Some(SortDesc(texts.value));
  }

  /** A list reply gives a non-increasing arrangement of exactly the strings
      its entries contribute, one per contributing entry, and `None` exactly
      when some entry contributes a value that is not a string; any other
      reply gives the empty list. */
  lemma {:induction false} FabricVersionsSorted(reply: Json)
    ensures !reply.JArray? ==> FabricVersions(reply) == Some([])
    ensures reply.JArray? ==> var entries := reply.items;
      (FabricVersions(reply).None? <==>
        exists i :: 0 <= i < |entries| && FabricValue(entries[i]).Some? && !FabricValue(entries[i]).value.JString?)
      && (FabricVersions(reply).Some? ==>
        var r := FabricVersions(reply).value;
        NonIncreasing(r) && |r| == |FabricValues(entries)| && |r| <= |entries|
        && Texts(FabricValues(entries)).Some? && multiset(r) == multiset(Texts(FabricValues(entries)).value)
        && forall v :: v in r <==> exists i :: 0 <= i < |entries| && FabricValue(entries[i]) == Some(JString(v)))
  {
    if reply.JArray? {
      var entries := reply.items;
      var ys := FabricYields(entries);
      var vals := FabricValues(entries);
      match Texts(vals)
      case None =>
        var k :| 0 <= k < |vals| && !vals[k].JString?;
        SomesMember(ys, vals[k]);
        var i :| 0 <= i < |ys| && ys[i] == Some(vals[k]);
        assert FabricValue(entries[i]) == Some(vals[k]);
      case Some(texts) =>
        var r := SortDesc(texts);
        forall i | 0 <= i < |entries| && FabricValue(entries[i]).Some?
          ensures FabricValue(entries[i]).value.JString?
        {
          var v := FabricValue(entries[i]).value;
          assert ys[i] == Some(v);
          SomesMember(ys, v);
          var k :| 0 <= k < |vals| && vals[k] == v;
        }
        assert |multiset(r)| == |multiset(texts)|;
        forall v
          ensures v in r <==> exists i :: 0 <= i < |entries| && FabricValue(entries[i]) == Some(JString(v))
        {
          SomesMember(ys, JString(v));
          assert v in r <==> v in multiset(r);
          assert v in texts <==> v in multiset(texts);
          if v in texts {
            var k :| 0 <= k < |texts| && texts[k] == v;
            assert JString(v) == vals[k];
            assert JString(v) in vals;
            var i :| 0 <= i < |ys| && ys[i] == Some(JString(v));
            assert FabricValue(entries[i]) == Some(JString(v));
          }
          if exists i :: 0 <= i < |entries| && FabricValue(entries[i]) == Some(JString(v)) {
            var i :| 0 <= i < |entries| && FabricValue(entries[i]) == Some(JString(v));
            assert ys[i] == Some(JString(v));
            var k :| 0 <= k < |vals| && vals[k] == JString(v);
            assert texts[k] == v;
          }
        }
    }
  }

  // ---------------------------------------------------------------- plugins

  /** The last piece of a path split at `/` that is neither empty nor `.`,
      or `""`. */
  function LastName(parts: seq<string>): (r: string)
    ensures r == [] || r in parts
    ensures r != "."
  {
    if parts == [] then []
    else
      var last := parts[|parts| - 1];
      if last == [] || last == "." then LastName(parts[..|parts| - 1]) else last
  }

  /** Every piece of `s.split(sep)` lacks `sep` and is made of characters
      of `s`. */
  lemma {:induction false} SplitPieces(s: string, sep: string)
    requires sep != []
    ensures forall i :: 0 <= i < |Split(s, sep)| ==> !Contains(Split(s, sep)[i], sep)
    ensures forall i, c :: 0 <= i < |Split(s, sep)| && c in Split(s, sep)[i] ==> c in s
    decreases |s|
  {
    match Find(s, sep)
    case None =>
    case Some(k) =>
      var rest := s[k + |sep|..];
      SplitPieces(rest, sep);
      NoneBefore(s, sep, k);
      var parts := Split(s, sep);
      assert parts == [s[..k]] + Split(rest, sep);
      forall i, c | 0 <= i < |parts| && c in parts[i]
        ensures c in s
      {
        if i == 0 {
          assert c in s[..k];
        } else {
          assert parts[i] == Split(rest, sep)[i - 1];
          assert c in rest;
        }
      }
  }

  /** `PurePosixPath(p).name`: the last component of `p`, with empty and `.`
      components dropped as `pathlib` does (`..` is kept). */
  function PathName(p: string): (r: string)
    ensures '/' !in r && r != "."
    ensures forall c :: c in r ==> c in p
  {
    var parts := Split(p, "/");
    SplitPieces(p, "/");
    var r := LastName(parts);
    ContainsChar(r, '/');
    r
  }

  /** `url.split("?")[0]`: the URL without its query. */
  function WithoutQuery(url: string): string {
    Split(url, "?")[0]
  }

  /** `s.lower().endswith(".jar")`. */
  predicate IsJarName(s: string) {
    EndsWith(Lower(s), ".jar")
  }

  /** The name a direct `.jar` link is saved under,
      `Path(url.split("?")[0]).name`: a single component with no `/`. It can
      still be `..` (for `https://h/..?x.jar`), which names the parent of the
      plugins folder, a directory, so that download fails when it opens it. */
  function DirectJarName(url: string): (name: string)
    ensures '/' !in name && name != "."
    ensures forall c :: c in name ==> c in url
  {
    SplitPieces(url, "?");
    PathName(WithoutQuery(url))
  }

  /** `str(i)` holds digits and at most a minus sign. */
  lemma {:induction false} SignedDigits(i: int)
    ensures '/' !in IntToString(i) && '\\' !in IntToString(i)
  {
    var n := if i < 0 then -i else i;
    var d := NatToString(n);
    assert IsDigits(d);
    assert IntToString(i) == if i < 0 then "-" + d else d;
  }

  /** Any text followed by `.jar` counts as a jar name. */
  lemma {:induction false} JarSuffix(a: string)
    ensures IsJarName(a + ".jar")
  {
    var s := a + ".jar";
    var l := Lower(s);
    assert l[|s| - 4..] == ".jar" by {
      assert forall k :: 0 <= k < 4 ==> s[|a| + k] == ".jar"[k];
    }
  }

  /** `f"plugin_{int(time.time())}.jar"` for the clock reading `now`. */
  function Fallback(now: int): (name: string)
    ensures IsJarName(name)
    ensures '/' !in name && '\\' !in name
  {
    var digits := IntToString(now);
    SignedDigits(now);
    var name := "plugin_" + digits + ".jar";
    JarSuffix("plugin_" + digits);
    name
  }

  /** The name the `Content-Disposition` header gives, as the code takes it:
      the text after the first `filename=`, stripped of whitespace, then of
      `"` at both ends, then cut at the first `;`. `None` when there is no
      header or it holds no `filename=`. */
  function HeaderNameAsWritten(cd: Option<string>): Option<string> {
    if cd.Some? && cd.value != [] && Contains(cd.value, FileNameKey) then
      SplitOnceIsSplit(cd.value, FileNameKey);
      var after := Split(cd.value, FileNameKey)[1];
      Some(Split(StripChar(Strip(after), '"'), ";")[0])
    else None
  }

  /** The file name `download_plugin_from_spigot_page` saves a plugin under
      after following the download page: the header's name, else the final
      URL's last component, replaced by the clock-based name when it does not
      end in `.jar`. */
  function FileNameAsWritten(cd: Option<string>, finalUrl: string, now: int): (name: string)
    ensures IsJarName(name)
  {
    var fromHeader := HeaderNameAsWritten(cd);
    var name :=
      if fromHeader.Some? && fromHeader.value != [] then fromHeader.value
      else PathName(WithoutQuery(finalUrl));
    if IsJarName(name) then name else Fallback(now)
  }

  /** `s` with every `\` turned into `/`, so both separators split. */
  function Slashes(s: string): (r: string)
    ensures |r| == |s| && '\\' !in r
    ensures forall i :: 0 <= i < |s| ==> r[i] == if s[i] == '\\' then '/' else s[i]
  {
    if s == [] then [] else [if s[0] == '\\' then '/' else s[0]] + Slashes(s[1..])
  }

  /** The last component of `p` under either separator. */
  function SafeName(p: string): (r: string)
    ensures '/' !in r && '\\' !in r && r != "."
  {
    PathName(Slashes(p))
  }

  /** The header's name cut at the first `;` before its quotes are
      stripped. */
  function HeaderName(cd: Option<string>): Option<string> {
    if cd.Some? && cd.value != [] && Contains(cd.value, FileNameKey) then
      SplitOnceIsSplit(cd.value, FileNameKey);
      var after := Split(cd.value, FileNameKey)[1];
      Some(StripChar(Strip(Split(after, ";")[0]), '"'))
    else None
  }

  /** The plugin's file name with the header read up to its `;` and both
      candidates reduced to their last path component: it ends in `.jar`
      and holds no separator, so the file is written directly inside the
      plugins folder. */
  function PluginFileName(cd: Option<string>, finalUrl: string, now: int): (name: string)
    ensures IsJarName(name)
    ensures '/' !in name && '\\' !in name
  {
    var fromHeader := HeaderName(cd);
    var name :=
      if fromHeader.Some? && fromHeader.value != [] then SafeName(fromHeader.value)
      else SafeName(WithoutQuery(finalUrl));
    if IsJarName(name) then name else Fallback(now)
  }

  /** The header keyword the name follows. */
  const FileNameKey := "filename="

  /** `pre + "filename=" + rest` splits at that `filename=` when `pre` holds
      no `=` and `rest` no second `filename=`. */
  lemma {:induction false} HeaderSplit(pre: string, rest: string)
    requires '=' !in pre && !Contains(rest, FileNameKey)
    ensures var cd := pre + FileNameKey + rest;
      cd != [] && Contains(cd, FileNameKey) && Split(cd, FileNameKey)[1] == rest
  {
    var sep := FileNameKey;
    var cd := pre + sep + rest;
    var at := |pre|;
    assert cd[at..at + |sep|] == sep;
    assert OccursAt(cd, sep, at);
    forall j | 0 <= j < at
      ensures !OccursAt(cd, sep, j)
    {
      assert cd[j + 8] != '=' by {
        if j + 8 < at {
          assert cd[j + 8] == pre[j + 8];
        } else {
          assert cd[j + 8] == sep[j + 8 - at];
        }
      }
      assert cd[j..j + |sep|][8] == cd[j + 8];
    }
    var i := Find(cd, sep).value;
    assert i == at;
    assert cd[..at] == pre && cd[at + |sep|..] == rest;
    SplitOnceIsSplit(cd, sep);
    var parts := Split(cd, sep);
    assert parts[1..][0] == parts[1];
    JoinHead(parts[1..], sep);
    assert !OccursAt(rest, sep, |parts[1]|);
  }

  /** Text without `=` holds no `filename=`. */
  lemma {:induction false} NoKey(s: string)
    requires '=' !in s
    ensures !Contains(s, FileNameKey)
  {
    forall k | 0 <= k <= |s| - 9
      ensures !OccursAt(s, FileNameKey, k)
    {
      assert s[k..k + 9][8] == s[k + 8];
    }
  }

  /** The header name as the code reads it from such a header. */
  lemma {:induction false} HeaderAsWritten(pre: string, rest: string)
    requires '=' !in pre && !Contains(rest, FileNameKey)
    ensures HeaderNameAsWritten(Some(pre + FileNameKey + rest))
      == Some(Split(StripChar(Strip(rest), '"'), ";")[0])
  {
    HeaderSplit(pre, rest);
  }

  /** The header name under the corrected rule from such a header. */
  lemma {:induction false} HeaderCorrected(pre: string, rest: string)
    requires '=' !in pre && !Contains(rest, FileNameKey)
    ensures HeaderName(Some(pre + FileNameKey + rest))
      == Some(StripChar(Strip(Split(rest, ";")[0]), '"'))
  {
    HeaderSplit(pre, rest);
  }

  /** `s.split(";")[0]` on `k + ";" + v` when `k` lacks `;` is `k`. */
  lemma {:induction false} FirstBeforeSemicolon(k: string, v: string)
    requires ';' !in k
    ensures Split(k + ";" + v, ";")[0] == k
  {
    SplitOnceIsSplit(k + ";" + v, ";");
    SplitOnceAfter(k, ';', v);
  }

  /** Text without `;` is one piece. */
  lemma {:induction false} NoSemicolon(k: string)
    requires ';' !in k
    ensures Split(k, ";") == [k]
  {
    ContainsChar(k, ';');
  }

  /** The leading quote goes, and the name's first character stays. */
  lemma {:induction false} LeftQuote(n: string)
    requires n != [] && n[0] != '"'
    ensures LStripChar("\"" + n + "\"", '"') == n + "\""
  {
    var m := n + "\"";
    assert ("\"" + m)[1..] == m;
    assert m[0] == n[0];
  }

  /** The closing quote goes, and the name's last character stays. */
  lemma {:induction false} RightQuote(n: string)
    requires n != [] && n[|n| - 1] != '"'
    ensures RStripChar(n + "\"", '"') == n
  {
    var m := n + "\"";
    assert m[..|m| - 1] == n;
  }

  /** A quoted name loses exactly its quotes. */
  lemma {:induction false} Unquoted(n: string)
    requires n != [] && '"' !in n
    ensures StripChar(Strip("\"" + n + "\""), '"') == n
  {
    var q := "\"" + n + "\"";
    assert Strip(q) == q by {
      GraphicNotSpace('"');
      StripUnpadded(q);
    }
    assert n[0] in n && n[|n| - 1] in n;
    LeftQuote(n);
    RightQuote(n);
  }

  /** A non-empty header name decides the saved name, as written. */
  lemma {:induction false} FromHeaderAsWritten(cd: Option<string>, h: string, finalUrl: string, now: int)
    requires HeaderNameAsWritten(cd) == Some(h) && h != []
    ensures FileNameAsWritten(cd, finalUrl, now) == if IsJarName(h) then h else Fallback(now)
  {
  }

  /** A non-empty header name decides the saved name under the corrected
      rule. */
  lemma {:induction false} FromHeader(cd: Option<string>, h: string, finalUrl: string, now: int)
    requires HeaderName(cd) == Some(h) && h != [] && IsJarName(SafeName(h))
    ensures PluginFileName(cd, finalUrl, now) == SafeName(h)
  {
  }

  /** `"<n>"`: a name in quotes. */
  function Quoted(n: string): (q: string)
    ensures |q| == |n| + 2 && q[0] == '"' && q[|q| - 1] == '"'
  {
    "\"" + n + "\""
  }

  /** Finding: the header `filename="<n>"` with nothing after it gives `n`
      as it stands, so a name holding `/` (such as `../evil.jar`) is joined
      to the plugins folder and the file is written outside it. */
  lemma {:induction false} HeaderPathKept(pre: string, n: string, finalUrl: string, now: int)
    requires '=' !in pre && !Contains(Quoted(n), FileNameKey) && ';' !in n && '"' !in n
    requires n != [] && IsJarName(n)
    ensures FileNameAsWritten(Some(pre + FileNameKey + Quoted(n)), finalUrl, now) == n
  {
    var cd := Some(pre + FileNameKey + Quoted(n));
    assert HeaderNameAsWritten(cd) == Some(Split(StripChar(Strip(Quoted(n)), '"'), ";")[0]) by {
      HeaderAsWritten(pre, Quoted(n));
    }
    assert StripChar(Strip(Quoted(n)), '"') == n by {
      Unquoted(n);
    }
    assert Split(n, ";")[0] == n by {
      NoSemicolon(n);
    }
    FromHeaderAsWritten(cd, n, finalUrl, now);
  }

  /** Under the corrected rule such a header gives the name's last
      component. */
  lemma {:induction false} HeaderPathReduced(pre: string, n: string, finalUrl: string, now: int)
    requires '=' !in pre && !Contains(Quoted(n), FileNameKey) && ';' !in n && '"' !in n
    requires n != [] && IsJarName(SafeName(n))
    ensures PluginFileName(Some(pre + FileNameKey + Quoted(n)), finalUrl, now) == SafeName(n)
  {
    QuotedHeader(pre, n);
    FromHeader(Some(pre + FileNameKey + Quoted(n)), n, finalUrl, now);
  }

  /** The corrected rule reads `n` from `filename="<n>"`. */
  lemma {:induction false} QuotedHeader(pre: string, n: string)
    requires '=' !in pre && !Contains(Quoted(n), FileNameKey) && ';' !in n && '"' !in n && n != []
    ensures HeaderName(Some(pre + FileNameKey + Quoted(n))) == Some(n)
  {
    var q := Quoted(n);
    HeaderCorrected(pre, q);
    assert ';' !in q;
    NoSemicolon(q);
    Unquoted(n);
  }

  /** Quoted text followed by `;` and more: stripping changes nothing at
      the front quote's far end, so only the front quote goes. */
  lemma {:induction false} QuotedThenParams(n: string, p: string)
    requires n != [] && n[0] != '"'
    requires p != [] && !IsSpace(p[|p| - 1]) && p[|p| - 1] != '"'
    ensures StripChar(Strip(Quoted(n) + ";" + p), '"') == n + "\"" + ";" + p
  {
    var inner := n + "\"" + ";" + p;
    assert Quoted(n) + ";" + p == "\"" + inner;
    assert inner[0] == n[0] && inner[|inner| - 1] == p[|p| - 1];
    LeadingQuoteOnly(inner);
  }

  /** Text after a leading quote, ending in neither a quote nor whitespace,
      loses only that quote. */
  lemma {:induction false} LeadingQuoteOnly(inner: string)
    requires inner != [] && inner[0] != '"'
    requires !IsSpace(inner[|inner| - 1]) && inner[|inner| - 1] != '"'
    ensures StripChar(Strip("\"" + inner), '"') == inner
  {
    var rest := "\"" + inner;
    assert Strip(rest) == rest by {
      GraphicNotSpace('"');
      StripUnpadded(rest);
    }
    assert LStripChar(rest, '"') == inner by {
      assert rest[0] == '"' && rest[1..] == inner;
    }
    assert RStripChar(inner, '"') == inner;
  }

  /** Finding: a quoted name followed by `;` and more parameters is cut to
      the name and its closing quote, which never ends in `.jar`, so the
      plugin is saved under the clock-based name instead. */
  lemma {:induction false} QuotedParamsDropped(pre: string, n: string, p: string, finalUrl: string, now: int)
    requires '=' !in pre && !Contains(Quoted(n) + ";" + p, FileNameKey) && ';' !in n && '"' !in n
    requires n != [] && p != [] && !IsSpace(p[|p| - 1]) && p[|p| - 1] != '"'
    ensures FileNameAsWritten(Some(pre + FileNameKey + (Quoted(n) + ";" + p)), finalUrl, now) == Fallback(now)
  {
    var rest := Quoted(n) + ";" + p;
    var cd := Some(pre + FileNameKey + rest);
    var cut := n + "\"";
    assert HeaderNameAsWritten(cd) == Some(Split(StripChar(Strip(rest), '"'), ";")[0]) by {
      HeaderAsWritten(pre, rest);
    }
    assert StripChar(Strip(rest), '"') == cut + ";" + p by {
      assert n[0] in n;
      QuotedThenParams(n, p);
    }
    assert Split(cut + ";" + p, ";")[0] == cut by {
      FirstBeforeSemicolon(cut, p);
    }
    assert !IsJarName(cut) by {
      assert Lower(cut)[|cut| - 1] == '"';
    }
    FromHeaderAsWritten(cd, cut, finalUrl, now);
  }

  /** The corrected rule keeps the quoted name when parameters follow it. */
  lemma {:induction false} QuotedParamsKept(pre: string, n: string, p: string, finalUrl: string, now: int)
    requires '=' !in pre && !Contains(Quoted(n) + ";" + p, FileNameKey) && ';' !in n && '"' !in n
    requires n != [] && IsJarName(SafeName(n))
    ensures PluginFileName(Some(pre + FileNameKey + (Quoted(n) + ";" + p)), finalUrl, now) == SafeName(n)
  {
    QuotedHeaderWithParams(pre, n, p);
    FromHeader(Some(pre + FileNameKey + (Quoted(n) + ";" + p)), n, finalUrl, now);
  }

  /** The corrected rule reads `n` from `filename="<n>";<p>`. */
  lemma {:induction false} QuotedHeaderWithParams(pre: string, n: string, p: string)
    requires '=' !in pre && !Contains(Quoted(n) + ";" + p, FileNameKey) && ';' !in n && '"' !in n && n != []
    ensures HeaderName(Some(pre + FileNameKey + (Quoted(n) + ";" + p))) == Some(n)
  {
    HeaderCorrected(pre, Quoted(n) + ";" + p);
    CutThenUnquote(n, p);
  }

  /** Cutting `"<n>";<p>` at the `;` and dropping the quotes leaves `n`. */
  lemma {:induction false} CutThenUnquote(n: string, p: string)
    requires ';' !in n && '"' !in n && n != []
    ensures StripChar(Strip(Split(Quoted(n) + ";" + p, ";")[0]), '"') == n
  {
    var q := Quoted(n);
    assert ';' !in q;
    FirstBeforeSemicolon(q, p);
    Unquoted(n);
  }

  /** The name `../<stem>.jar`, one directory up from where it is saved. */
  function ParentJar(stem: string): (n: string)
    ensures IsJarName(n)
  {
    JarSuffix(".." + "/" + stem);
    ".." + "/" + stem + ".jar"
  }

  /** Characters a stem must avoid to pass through the header unchanged. */
  predicate PlainStem(stem: string) {
    '/' !in stem && '\\' !in stem && ';' !in stem && '"' !in stem && '=' !in stem
  }

  /** As written, a server sending `filename="../<stem>.jar"` (for instance
      `attachment; filename="../evil.jar"`) makes the download land one
      directory above the plugins folder. */
  lemma {:induction false} EscapingName(pre: string, stem: string, finalUrl: string, now: int)
    requires '=' !in pre && PlainStem(stem)
    ensures FileNameAsWritten(Some(pre + FileNameKey + Quoted(ParentJar(stem))), finalUrl, now)
      == ParentJar(stem)
  {
    ParentJarPlain(stem);
    HeaderPathKept(pre, ParentJar(stem), finalUrl, now);
  }

  /** With the name reduced to its last component, the same header saves
      `<stem>.jar` inside the plugins folder. */
  lemma {:induction false} EscapingNameReduced(pre: string, stem: string, finalUrl: string, now: int)
    requires '=' !in pre && PlainStem(stem)
    ensures PluginFileName(Some(pre + FileNameKey + Quoted(ParentJar(stem))), finalUrl, now)
      == stem + ".jar"
  {
    ParentJarPlain(stem);
    ParentJarName(stem);
    HeaderPathReduced(pre, ParentJar(stem), finalUrl, now);
  }

  /** `../<stem>.jar` holds no `;` or `"`, and quoted no `filename=`. */
  lemma {:induction false} ParentJarPlain(stem: string)
    requires PlainStem(stem)
    ensures var n := ParentJar(stem);
      n != [] && ';' !in n && '"' !in n && !Contains(Quoted(n), FileNameKey)
  {
    var n := ParentJar(stem);
    assert '=' !in Quoted(n);
    NoKey(Quoted(n));
  }

  /** The last component of `../<stem>.jar` is `<stem>.jar`. */
  lemma {:induction false} ParentJarName(stem: string)
    requires PlainStem(stem)
    ensures SafeName(ParentJar(stem)) == stem + ".jar" && IsJarName(stem + ".jar")
  {
    assert ParentJar(stem) == ".." + "/" + (stem + ".jar");
    LastComponent("..", stem + ".jar");
    JarSuffix(stem);
  }

  /** Text without `\\` keeps its slashes as they are. */
  lemma {:induction false} SlashesPlain(s: string)
    requires '\\' !in s
    ensures Slashes(s) == s
  {
    assert forall i :: 0 <= i < |s| ==> s[i] != '\\';
  }

  /** The last component of `d/f`, for a file name `f` that is neither
      empty nor `.`. */
  lemma {:induction false} LastComponent(d: string, f: string)
    requires '/' !in d && '/' !in f && '\\' !in d && '\\' !in f
    requires f != [] && f != "."
    ensures SafeName(d + "/" + f) == f
  {
    var p := d + "/" + f;
    assert '\\' !in p;
    SlashesPlain(p);
    FindAfter(d, '/', f);
    assert p[..|d|] == d && p[|d| + 1..] == f;
    assert Split(p, "/") == [d] + Split(f, "/");
    ContainsChar(f, '/');
    assert Split(f, "/") == [f];
    assert LastName([d, f]) == f;
  }
}
