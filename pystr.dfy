/** Python's `str` operations the program relies on, as functions on `string`
    (a sequence of Unicode scalar values): whitespace stripping, prefix and
    suffix tests, substring search, `split`, whitespace `split()`, `lower()`
    and `isdigit()`. */
module PyStr {
  import opened Wrappers

  /** Whether `c` falls in one of the inclusive ranges `ranges`. */
  predicate InRanges(c: char, ranges: seq<(char, char)>) {
    ranges != [] && ((ranges[0].0 <= c <= ranges[0].1) || InRanges(c, ranges[1..]))
  }

  /** The code-point ranges of the characters `str.isspace()` accepts;
      `strip()` and `split()` without arguments use the same set. */
  const SpaceRanges: seq<(char, char)> :=
    [('\t', '\r'), ('\U{1c}', ' '), ('\U{85}', '\U{85}'), ('\U{a0}', '\U{a0}'),
     ('\U{1680}', '\U{1680}'), ('\U{2000}', '\U{200a}'), ('\U{2028}', '\U{2029}'),
     ('\U{202f}', '\U{202f}'), ('\U{205f}', '\U{205f}'), ('\U{3000}', '\U{3000}')]

  predicate IsSpace(c: char) {
    InRanges(c, SpaceRanges)
  }

  /** A character below the start of every range is in none of them. */
  lemma {:induction false} BelowRanges(c: char, ranges: seq<(char, char)>)
    requires forall k :: 0 <= k < |ranges| ==> c < ranges[k].0
    ensures !InRanges(c, ranges)
    decreases |ranges|
  {
    if ranges != [] {
      BelowRanges(c, ranges[1..]);
    }
  }

  /** Printable ASCII other than the space character is not whitespace. */
  lemma {:induction false} GraphicNotSpace(c: char)
    requires '!' <= c <= '~'
    ensures !IsSpace(c)
  {
    var r := SpaceRanges;
    assert InRanges(c, r) == InRanges(c, r[1..]);
    assert InRanges(c, r[1..]) == InRanges(c, r[2..]);
    BelowRanges(c, r[2..]);
  }

  predicate AllSpace(s: string) {
    forall i :: 0 <= i < |s| ==> IsSpace(s[i])
  }

  predicate NoSpace(s: string) {
    forall i :: 0 <= i < |s| ==> !IsSpace(s[i])
  }

  /** The first index at or after `i` that does not hold whitespace. */
  function SkipSpace(s: string, i: nat): (j: nat)
    requires i <= |s|
    ensures i <= j <= |s|
    ensures j == |s| || !IsSpace(s[j])
    decreases |s| - i
  {
    if i < |s| && IsSpace(s[i]) then SkipSpace(s, i + 1) else i
  }

  /** Everything `SkipSpace` passes over is whitespace. */
  lemma {:induction false} SkipSpaceSpan(s: string, i: nat)
    requires i <= |s|
    ensures forall k :: i <= k < SkipSpace(s, i) ==> IsSpace(s[k])
    decreases |s| - i
  {
    if i < |s| && IsSpace(s[i]) {
      SkipSpaceSpan(s, i + 1);
    }
  }

  /** `SkipSpace` stops at the first character from `i` on that is not whitespace. */
  lemma {:induction false} SkipSpaceOver(s: string, i: nat, j: nat)
    requires i <= j <= |s|
    requires forall k :: i <= k < j ==> IsSpace(s[k])
    requires j == |s| || !IsSpace(s[j])
    ensures SkipSpace(s, i) == j
    decreases j - i
  {
    if i < j {
      SkipSpaceOver(s, i + 1, j);
    }
  }

  /** The first index at or after `i` that holds whitespace. */
  function SkipWord(s: string, i: nat): (j: nat)
    requires i <= |s|
    ensures i <= j <= |s|
    ensures j == |s| || IsSpace(s[j])
    decreases |s| - i
  {
    if i < |s| && !IsSpace(s[i]) then SkipWord(s, i + 1) else i
  }

  /** Nothing `SkipWord` passes over is whitespace. */
  lemma {:induction false} SkipWordSpan(s: string, i: nat)
    requires i <= |s|
    ensures forall k :: i <= k < SkipWord(s, i) ==> !IsSpace(s[k])
    decreases |s| - i
  {
    if i < |s| && !IsSpace(s[i]) {
      SkipWordSpan(s, i + 1);
    }
  }

  /** The end of `s[..j]` once its trailing whitespace is dropped. */
  function TrimEnd(s: string, j: nat): (k: nat)
    requires j <= |s|
    ensures k <= j
    ensures k == 0 || !IsSpace(s[k - 1])
  {
    if j > 0 && IsSpace(s[j - 1]) then TrimEnd(s, j - 1) else j
  }

  /** Everything `TrimEnd` drops is whitespace. */
  lemma {:induction false} TrimEndSpan(s: string, j: nat)
    requires j <= |s|
    ensures forall m :: TrimEnd(s, j) <= m < j ==> IsSpace(s[m])
  {
    if j > 0 && IsSpace(s[j - 1]) {
      TrimEndSpan(s, j - 1);
    }
  }

  /** `s.lstrip()`. */
  function LStrip(s: string): string {
    s[SkipSpace(s, 0)..]
  }

  /** `s.rstrip()`. */
  function RStrip(s: string): string {
    s[..TrimEnd(s, |s|)]
  }

  /** `s.strip()`: what lies between the leading and the trailing whitespace. */
  function Strip(s: string): (r: string)
    ensures r == [] || (!IsSpace(r[0]) && !IsSpace(r[|r| - 1]))
    ensures |r| <= |s|
  {
    var i := SkipSpace(s, 0);
    var j := TrimEnd(s, |s|);
    if j <= i then [] else s[i..j]
  }

  /** `s.strip()` is empty exactly when `s` is all whitespace. */
  lemma {:induction false} StripEmpty(s: string)
    ensures Strip(s) == [] <==> AllSpace(s)
  {
    var i := SkipSpace(s, 0);
    var j := TrimEnd(s, |s|);
    SkipSpaceSpan(s, 0);
    TrimEndSpan(s, |s|);
    assert i < |s| ==> i < j;
  }

  /** `TrimEnd` stops at the last character before `j` that is not whitespace. */
  lemma {:induction false} TrimEndOver(s: string, k: nat, j: nat)
    requires 0 < k <= j <= |s| && !IsSpace(s[k - 1])
    requires forall m :: k <= m < j ==> IsSpace(s[m])
    ensures TrimEnd(s, j) == k
    decreases j
  {
    if k < j {
      TrimEndOver(s, k, j - 1);
    }
  }

  /** Surrounding whitespace is exactly what `strip` removes. */
  lemma {:induction false} StripPadded(w1: string, s: string, w2: string)
    requires AllSpace(w1) && AllSpace(w2)
    requires s != [] && !IsSpace(s[0]) && !IsSpace(s[|s| - 1])
    ensures Strip(w1 + s + w2) == s
  {
    var x := w1 + s + w2;
    assert forall m :: 0 <= m < |w1| ==> x[m] == w1[m];
    SkipSpaceOver(x, 0, |w1|);
    assert forall m :: |w1| + |s| <= m < |x| ==> x[m] == w2[m - |w1| - |s|];
    TrimEndOver(x, |w1| + |s|, |x|);
    assert x[|w1|..|w1| + |s|] == s;
  }

  /** Text with no whitespace at either end is its own `strip`. */
  lemma {:induction false} StripUnpadded(s: string)
    requires s == [] || (!IsSpace(s[0]) && !IsSpace(s[|s| - 1]))
    ensures Strip(s) == s
  {
    if s != [] {
      StripPadded([], s, []);
      assert [] + s + [] == s;
    }
  }

  /** `strip` is idempotent. */
  lemma {:induction false} StripStrip(s: string)
    ensures Strip(Strip(s)) == Strip(s)
  {
    StripUnpadded(Strip(s));
  }

  lemma {:induction false} SplitThree(s: string, i: nat, j: nat)
    requires i <= j <= |s|
    ensures s == s[..i] + s[i..j] + s[j..]
  {
  }

  lemma {:induction false} Regroup(a: string, b: string, c: string, w: string)
    ensures a + b + c + w == a + b + (c + w)
  {
  }

  /** What `lstrip` removes is whitespace. */
  lemma {:induction false} LeadingSpace(s: string)
    ensures AllSpace(s[..SkipSpace(s, 0)])
  {
    SkipSpaceSpan(s, 0);
  }

  /** What `rstrip` removes is whitespace, and stays so with more behind it. */
  lemma {:induction false} TrailingSpace(s: string, w: string)
    requires AllSpace(w)
    ensures AllSpace(s[TrimEnd(s, |s|)..] + w)
  {
    var j := TrimEnd(s, |s|);
    var t := s[j..] + w;
    TrimEndSpan(s, |s|);
    forall m | 0 <= m < |t|
      ensures IsSpace(t[m])
    {
      if m < |s| - j {
        assert t[m] == s[j + m];
      } else {
        assert t[m] == w[m - (|s| - j)];
      }
    }
  }

  /** Whitespace after whitespace is whitespace. */
  lemma {:induction false} AllSpaceAppend(s: string, w: string)
    requires AllSpace(s) && AllSpace(w)
    ensures AllSpace(s + w)
  {
    var x := s + w;
    forall m | 0 <= m < |x|
      ensures IsSpace(x[m])
    {
      if m < |s| {
        assert x[m] == s[m];
      } else {
        assert x[m] == w[m - |s|];
      }
    }
  }

  /** Whitespace appended to `s` does not change `s.strip()`. */
  lemma {:induction false} StripAppendSpace(s: string, w: string)
    requires AllSpace(w)
    ensures Strip(s + w) == Strip(s)
  {
    StripEmpty(s);
    if Strip(s) == [] {
      AllSpaceAppend(s, w);
      StripEmpty(s + w);
    } else {
      var i := SkipSpace(s, 0);
      var j := TrimEnd(s, |s|);
      LeadingSpace(s);
      TrailingSpace(s, w);
      SplitThree(s, i, j);
      Regroup(s[..i], s[i..j], s[j..], w);
      StripPadded(s[..i], s[i..j], s[j..] + w);
    }
  }

  /** `strip` keeps the first `n` characters of text that starts with
      something other than whitespace, when the `n`-th is not whitespace either. */
  lemma {:induction false} StripKeepsPrefix(s: string, n: nat)
    requires 0 < n <= |s| && !IsSpace(s[0]) && !IsSpace(s[n - 1])
    ensures n <= |Strip(s)| && Strip(s)[..n] == s[..n]
  {
    var j := TrimEnd(s, |s|);
    assert SkipSpace(s, 0) == 0;
    assert n <= j by {
      TrimEndSpan(s, |s|);
    }
  }

  /** `lstrip` then `rstrip` is `strip`. */
  lemma {:induction false} StripIsRStripOfLStrip(s: string)
    ensures Strip(s) == RStrip(LStrip(s))
  {
    var i := SkipSpace(s, 0);
    var j := TrimEnd(s, |s|);
    var l := s[i..];
    TrimEndShift(s, l, i);
  }

  lemma {:induction false} TrimEndShift(s: string, l: string, i: nat)
    requires i <= |s| && l == s[i..]
    requires i == |s| || !IsSpace(s[i])
    ensures var j := TrimEnd(s, |s|);
      (j <= i ==> TrimEnd(l, |l|) == 0) && (j > i ==> TrimEnd(l, |l|) == j - i)
  {
    TrimEndShiftAt(s, l, i, |s|);
  }

  lemma {:induction false} TrimEndShiftAt(s: string, l: string, i: nat, j: nat)
    requires i <= j <= |s| && l == s[i..]
    requires i == |s| || !IsSpace(s[i])
    ensures var k := TrimEnd(s, j);
      (k <= i ==> TrimEnd(l, j - i) == 0) && (k > i ==> TrimEnd(l, j - i) == k - i)
    decreases j
  {
    if j > i {
      assert l[j - i - 1] == s[j - 1];
      if IsSpace(s[j - 1]) {
        TrimEndShiftAt(s, l, i, j - 1);
      }
    }
  }

  /** `s.rstrip(c)` for one character `c`, e.g. `rstrip("\n")`. */
  function RStripChar(s: string, c: char): (r: string)
    ensures |r| <= |s| && r == s[..|r|]
    ensures forall i :: |r| <= i < |s| ==> s[i] == c
    ensures r == [] || r[|r| - 1] != c
  {
    if s != [] && s[|s| - 1] == c then RStripChar(s[..|s| - 1], c) else s
  }

  /** `s.lstrip(c)` for one character `c`. */
  function LStripChar(s: string, c: char): (r: string)
    ensures |r| <= |s| && r == s[|s| - |r|..]
    ensures forall i :: 0 <= i < |s| - |r| ==> s[i] == c
    ensures r == [] || r[0] != c
  {
    if s != [] && s[0] == c then LStripChar(s[1..], c) else s
  }

  /** `s.strip(c)` for one character `c`, e.g. `strip('"')`. */
  function StripChar(s: string, c: char): string {
    RStripChar(LStripChar(s, c), c)
  }

  /** `s.endswith(suffix)`; `s.startswith(prefix)` is Dafny's `prefix <= s`. */
  predicate EndsWith(s: string, suffix: string) {
    |suffix| <= |s| && s[|s| - |suffix|..] == suffix
  }

  predicate OccursAt(s: string, sub: string, i: int) {
    0 <= i && i + |sub| <= |s| && s[i..i + |sub|] == sub
  }

  /** `s.find(sub)`, with `None` for -1: the first position where `sub` occurs. */
  function Find(s: string, sub: string): (r: Option<nat>)
    ensures r.Some? ==> OccursAt(s, sub, r.value)
    ensures r.Some? ==> forall j :: 0 <= j < r.value ==> !OccursAt(s, sub, j)
    ensures r.None? ==> forall j :: 0 <= j <= |s| - |sub| ==> !OccursAt(s, sub, j)
    decreases |s|
  {
    if |s| < |sub| then None
    else if s[..|sub|] == sub then Some(0)
    else
      OccursShift(s, sub);
      match Find(s[1..], sub)
      case None => None
      case Some(i) => Some(i + 1)
  }

  lemma {:induction false} OccursShift(s: string, sub: string)
    requires s != []
    ensures forall j :: 1 <= j ==> (OccursAt(s, sub, j) <==> OccursAt(s[1..], sub, j - 1))
  {
    forall j | 1 <= j
      ensures OccursAt(s, sub, j) <==> OccursAt(s[1..], sub, j - 1)
    {
      if j + |sub| <= |s| {
        SliceOfTail(s, j, j + |sub|);
      }
    }
  }

  /** A slice of `s[1..]` is the slice of `s` one position further on. */
  lemma {:induction false} SliceOfTail(s: string, a: nat, b: nat)
    requires 1 <= a <= b <= |s|
    ensures s[1..][a - 1..b - 1] == s[a..b]
  {
    assert forall k :: 0 <= k < b - a ==> s[1..][a - 1..b - 1][k] == s[a..b][k];
  }

  /** An occurrence inside `s[..i]` is an occurrence inside `s`. */
  lemma {:induction false} OccursInPrefix(s: string, sub: string, i: nat)
    requires i <= |s|
    ensures forall j :: OccursAt(s[..i], sub, j) ==> OccursAt(s, sub, j)
  {
    forall j | OccursAt(s[..i], sub, j)
      ensures OccursAt(s, sub, j)
    {
      assert s[..i][j..j + |sub|] == s[j..j + |sub|];
    }
  }

  /** Nothing before the first occurrence of a non-empty `sub` contains it. */
  lemma {:induction false} NoneBefore(s: string, sub: string, i: nat)
    requires sub != [] && i <= |s|
    requires forall j :: 0 <= j < i ==> !OccursAt(s, sub, j)
    ensures !Contains(s[..i], sub)
  {
    OccursInPrefix(s, sub, i);
  }

  /** Python's `sub in s`. */
  predicate Contains(s: string, sub: string) {
    Find(s, sub).Some?
  }

  /** For a one-character `sub`, `sub in s` is membership of that character. */
  lemma {:induction false} ContainsChar(s: string, c: char)
    ensures Contains(s, [c]) <==> c in s
  {
    if Contains(s, [c]) {
      var v := Find(s, [c]).value;
      assert s[v] == s[v..v + 1][0];
    }
    if c in s {
      var j :| 0 <= j < |s| && s[j] == c;
      assert s[j..j + 1] == [c];
      assert OccursAt(s, [c], j);
    }
  }

  /** The first occurrence of `c` in `k + [c] + v`, when `k` lacks `c`, is right after `k`. */
  lemma {:induction false} FindAfter(k: string, c: char, v: string)
    requires c !in k
    ensures Find(k + [c] + v, [c]) == Some(|k|)
  {
    var s := k + [c] + v;
    assert s[|k|..|k| + 1] == [c];
    assert OccursAt(s, [c], |k|);
    forall j | 0 <= j < |k|
      ensures !OccursAt(s, [c], j)
    {
      assert s[j..j + 1] == [k[j]];
    }
  }

  /** `s.split(c, 1)` on `k + c + v` when `k` lacks `c`: the pieces are `k` and `v`. */
  lemma {:induction false} SplitOnceAfter(k: string, c: char, v: string)
    requires c !in k
    ensures SplitOnce(k + [c] + v, [c]) == Some((k, v))
  {
    var s := k + [c] + v;
    FindAfter(k, c, v);
    assert s[..|k|] == k;
    assert s[|k| + 1..] == v;
  }

  /** `sep.join(parts)`. */
  function Join(parts: seq<string>, sep: string): string
    requires parts != []
  {
    if |parts| == 1 then parts[0] else parts[0] + sep + Join(parts[1..], sep)
  }

  /** `s.split(sep)` for a non-empty separator: the pieces between the
      occurrences of `sep`, found left to right without overlap. */
  function Split(s: string, sep: string): (parts: seq<string>)
    requires sep != []
    ensures parts != [] && Join(parts, sep) == s
    ensures forall i :: 0 <= i < |parts| - 1 ==> !Contains(parts[i], sep)
    decreases |s|
  {
    match Find(s, sep)
    case None => [s]
    case Some(i) =>
      var head := s[..i];
      NoneBefore(s, sep, i);
      var rest := Split(s[i + |sep|..], sep);
      assert s == head + sep + s[i + |sep|..];
      [head] + rest
  }

  /** `s.split(sep, 1)`: the text before the first `sep` and the text after
      it, or `None` when `sep` does not occur (Python then returns `[s]`). */
  function SplitOnce(s: string, sep: string): (r: Option<(string, string)>)
    requires sep != []
    ensures r.Some? <==> Contains(s, sep)
    ensures r.Some? ==> r.value.0 + sep + r.value.1 == s && !Contains(r.value.0, sep)
  {
    match Find(s, sep)
    case None => None
    case Some(i) =>
      NoneBefore(s, sep, i);
      Some((s[..i], s[i + |sep|..]))
  }

  /** The first piece of `s.split(sep)` is the text before the first `sep`,
      and the second piece of `s.split(sep, 1)` is everything after it. */
  lemma {:induction false} SplitOnceIsSplit(s: string, sep: string)
    requires sep != []
    ensures var parts := Split(s, sep);
      match SplitOnce(s, sep)
      case None => parts == [s]
      case Some(p) => |parts| >= 2 && parts[0] == p.0 && Join(parts[1..], sep) == p.1
  {
    var parts := Split(s, sep);
    match Find(s, sep)
    case None =>
    case Some(i) =>
      assert parts == [s[..i]] + Split(s[i + |sep|..], sep);
  }

  /** A non-empty run of non-whitespace characters. */
  predicate IsWord(w: string) {
    w != [] && NoSpace(w)
  }

  /** The words of `s[i..]`: its maximal runs of non-whitespace characters. */
  function WordsFrom(s: string, i: nat): (words: seq<string>)
    requires i <= |s|
    ensures |words| <= |s| - i
    decreases |s| - i
  {
    var a := SkipSpace(s, i);
    if a == |s| then []
    else
      var b := SkipWord(s, a);
      [s[a..b]] + WordsFrom(s, b)
  }

  /** Every piece `WordsFrom` yields is a word. */
  lemma {:induction false} WordsAreWords(s: string, i: nat)
    requires i <= |s|
    ensures forall k :: 0 <= k < |WordsFrom(s, i)| ==> IsWord(WordsFrom(s, i)[k])
    decreases |s| - i
  {
    var a := SkipSpace(s, i);
    if a < |s| {
      var b := SkipWord(s, a);
      SkipWordSpan(s, a);
      WordsAreWords(s, b);
      WordsFromStep(s, i, a, b);
    }
  }

  /** `s.split()`. */
  function SplitWhitespace(s: string): seq<string> {
    WordsFrom(s, 0)
  }

  /** Skipping over text put in front of `r` shifts the result by its length. */
  lemma {:induction false} SkipAppend(p: string, r: string, i: nat)
    requires i <= |r|
    ensures SkipSpace(p + r, |p| + i) == |p| + SkipSpace(r, i)
    ensures SkipWord(p + r, |p| + i) == |p| + SkipWord(r, i)
    decreases |r| - i
  {
    if i < |r| {
      assert (p + r)[|p| + i] == r[i];
      SkipAppend(p, r, i + 1);
    }
  }

  /** `SkipAppend` at the two positions one step of `WordsFrom` looks at. */
  lemma {:induction false} SkipAppendAt(p: string, r: string, i: nat, a: nat, b: nat)
    requires i <= |r| && a == SkipSpace(r, i) && b == SkipWord(r, a)
    ensures SkipSpace(p + r, |p| + i) == |p| + a
    ensures SkipWord(p + r, |p| + a) == |p| + b
  {
    SkipAppend(p, r, i);
    SkipAppend(p, r, a);
  }

  /** One step of `WordsFrom`: the word found at `a`, then the words after it. */
  lemma {:induction false} WordsFromStep(s: string, i: nat, a: nat, b: nat)
    requires i <= |s| && SkipSpace(s, i) == a && a < |s| && SkipWord(s, a) == b
    ensures WordsFrom(s, i) == [s[a..b]] + WordsFrom(s, b)
  {
  }

  /** A slice of `r` is the same slice of `p + r`, shifted by `|p|`. */
  lemma {:induction false} SliceAppend(p: string, r: string, a: nat, b: nat)
    requires a <= b <= |r|
    ensures (p + r)[|p| + a..|p| + b] == r[a..b]
  {
  }

  /** No words are left once only whitespace remains. */
  lemma {:induction false} WordsFromEnd(s: string, i: nat)
    requires i <= |s| && SkipSpace(s, i) == |s|
    ensures WordsFrom(s, i) == []
  {
  }

  /** The inductive step of `WordsAppend`. */
  lemma {:induction false} WordsAppendStep(p: string, r: string, i: nat, a: nat, b: nat)
    requires i <= |r| && a == SkipSpace(r, i) && a < |r| && b == SkipWord(r, a)
    requires WordsFrom(p + r, |p| + b) == WordsFrom(r, b)
    ensures WordsFrom(p + r, |p| + i) == WordsFrom(r, i)
  {
    var t := p + r;
    SkipAppendAt(p, r, i, a, b);
    WordsFromStep(t, |p| + i, |p| + a, |p| + b);
    WordsFromStep(r, i, a, b);
    SliceAppend(p, r, a, b);
  }

  /** The base case of `WordsAppend`. */
  lemma {:induction false} WordsAppendEnd(p: string, r: string, i: nat)
    requires i <= |r| && SkipSpace(r, i) == |r|
    ensures WordsFrom(p + r, |p| + i) == WordsFrom(r, i) == []
  {
    SkipAppend(p, r, i);
    WordsFromEnd(r, i);
    WordsFromEnd(p + r, |p| + i);
  }

  /** The words after a prefix are the words of what follows it. */
  lemma {:induction false} WordsAppend(p: string, r: string, i: nat)
    requires i <= |r|
    ensures WordsFrom(p + r, |p| + i) == WordsFrom(r, i)
    decreases |r| - i
  {
    var a := SkipSpace(r, i);
    if a < |r| {
      var b := SkipWord(r, a);
      WordsAppend(p, r, b);
      WordsAppendStep(p, r, i, a, b);
    } else {
      WordsAppendEnd(p, r, i);
    }
  }

  /** Whitespace between `i` and `j` does not change the words from `i` on. */
  lemma {:induction false} WordsFromSkipsSpace(s: string, i: nat, j: nat)
    requires i <= j <= |s|
    requires forall k :: i <= k < j ==> IsSpace(s[k])
    ensures WordsFrom(s, i) == WordsFrom(s, j)
    decreases j - i
  {
    if i < j {
      assert SkipSpace(s, i) == SkipSpace(s, i + 1);
      WordsFromSkipsSpace(s, i + 1, j);
    }
  }

  lemma {:induction false} SkipWordOver(s: string, i: nat, j: nat)
    requires i <= j <= |s|
    requires forall k :: i <= k < j ==> !IsSpace(s[k])
    requires j == |s| || IsSpace(s[j])
    ensures SkipWord(s, i) == j
    decreases j - i
  {
    if i < j {
      SkipWordOver(s, i + 1, j);
    }
  }

  /** A word, then whitespace, then more text: that word comes first, then
      the words of the rest. */
  lemma {:induction false} WordThenRest(w: string, sp: string, rest: string)
    requires IsWord(w)
    requires sp != [] && AllSpace(sp)
    ensures SplitWhitespace(w + sp + rest) == [w] + SplitWhitespace(rest)
  {
    var p := w + sp;
    var t := p + rest;
    assert t[0] == w[0];
    assert SkipSpace(t, 0) == 0;
    assert t[|w|] == sp[0];
    SkipWordOver(t, 0, |w|);
    assert t[0..|w|] == w;
    assert WordsFrom(t, 0) == [w] + WordsFrom(t, |w|);
    WordsFromSkipsSpace(t, |w|, |p|);
    WordsAppend(p, rest, 0);
  }

  /** A single word splits into itself. */
  lemma {:induction false} SingleWord(w: string)
    requires IsWord(w)
    ensures SplitWhitespace(w) == [w]
  {
    assert SkipSpace(w, 0) == 0;
    SkipWordOver(w, 0, |w|);
    assert WordsFrom(w, 0) == [w[0..|w|]] + WordsFrom(w, |w|);
    assert WordsFrom(w, |w|) == [];
    assert w[0..|w|] == w;
  }

  /** Splitting words joined by single spaces gives the words back. */
  lemma {:induction false} SplitJoinedWords(words: seq<string>)
    requires words != []
    requires forall k :: 0 <= k < |words| ==> IsWord(words[k])
    ensures SplitWhitespace(Join(words, " ")) == words
  {
    if |words| == 1 {
      SingleWord(words[0]);
    } else {
      var rest := words[1..];
      SplitJoinedWords(rest);
      assert AllSpace(" ");
      WordThenRest(words[0], " ", Join(rest, " "));
      assert [words[0]] + rest == words;
    }
  }

  /** `c.lower()` for one character: ASCII upper-case letters become lower-case. */
  function LowerChar(c: char): (r: char)
    ensures 'A' <= c <= 'Z' ==> r as int == c as int + 32
    ensures !('A' <= c <= 'Z') ==> r == c
  {
    if 'A' <= c <= 'Z' then (c as int + 32) as char else c
  }

  /** `s.lower()` (ASCII letters; see README for why that is exact where it is used). */
  function Lower(s: string): (r: string)
    ensures |r| == |s|
    ensures forall i :: 0 <= i < |s| ==> r[i] == LowerChar(s[i])
  {
    if s == [] then [] else [LowerChar(s[0])] + Lower(s[1..])
  }

  predicate IsDigit(c: char) {
    '0' <= c <= '9'
  }

  /** `s.isdigit()`: at least one character, and every character a digit. */
  predicate IsDigits(s: string) {
    s != [] && forall i :: 0 <= i < |s| ==> IsDigit(s[i])
  }
}
