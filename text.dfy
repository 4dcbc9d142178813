/** The parts of Python's `str` and `os.path` (POSIX) that the bot relies on, on `seq<char>`. */
module Text {
  import opened Wrappers

  /** `c.isspace()` for one character: the characters Python's `str.strip()` removes. */
  predicate IsSpace(c: char) {
    c == ' ' || ('\t' <= c <= '\r') || ('\U{1C}' <= c <= '\U{1F}') || c == '\U{85}' || c == '\U{A0}'
    || c == '\U{1680}' || ('\U{2000}' <= c <= '\U{200A}') || c == '\U{2028}' || c == '\U{2029}'
    || c == '\U{202F}' || c == '\U{205F}' || c == '\U{3000}'
  }

  /** Every character is white space (vacuously so for the empty string). */
  predicate AllSpace(s: string) {
    forall k | 0 <= k < |s| :: IsSpace(s[k])
  }

  /** Python truthiness of an optional string: present and non-empty. */
  predicate Truthy(o: Option<string>) {
    o.Some? && o.value != ""
  }

  lemma {:induction false} AllSpaceConcat(a: string, b: string)
    ensures AllSpace(a + b) <==> AllSpace(a) && AllSpace(b)
  {
    if AllSpace(a + b) {
      forall k | 0 <= k < |b| ensures IsSpace(b[k]) {
        assert (a + b)[|a| + k] == b[k];
      }
      forall k | 0 <= k < |a| ensures IsSpace(a[k]) {
        assert (a + b)[k] == a[k];
      }
    }
  }

  /** `s.lstrip()`: what is cut off is white space, and what is left starts with a non-space. */
  function TrimStart(s: string): (r: string)
    ensures |r| <= |s| && r == s[|s| - |r|..]
    ensures r == [] || !IsSpace(r[0])
    ensures AllSpace(s[..|s| - |r|])
  {
    if |s| > 0 && IsSpace(s[0]) then
      var t := s[1..];
      var r := TrimStart(t);
      var cut := t[..|t| - |r|];
      assert AllSpace([s[0]]);
      assert s[..|s| - |r|] == [s[0]] + cut;
      AllSpaceConcat([s[0]], cut);
      assert t[|t| - |r|..] == s[|s| - |r|..];
      r
    else s
  }

  /** `s.rstrip()`: what is cut off is white space, and what is left ends with a non-space. */
  function TrimEnd(s: string): (r: string)
    ensures |r| <= |s| && r == s[..|r|]
    ensures r == [] || !IsSpace(r[|r| - 1])
    ensures AllSpace(s[|r|..])
  {
    if |s| > 0 && IsSpace(s[|s| - 1]) then
      var r := TrimEnd(s[..|s| - 1]);
      assert s[|r|..] == s[..|s| - 1][|r|..] + [s[|s| - 1]];
      AllSpaceConcat(s[..|s| - 1][|r|..], [s[|s| - 1]]);
      assert s[..|s| - 1][..|r|] == s[..|r|];
      r
    else s
  }

  /** `r` is a slice `s[i..j]` of `s` with only white space before and after it. */
  ghost predicate TrimmedOf(s: string, r: string) {
    exists i, j | 0 <= i <= j <= |s| :: r == s[i..j] && AllSpace(s[..i]) && AllSpace(s[j..])
  }

  /** Cutting white space off the front of `s` (leaving `a`) and then off the back of `a` (leaving
      `r`) leaves a slice of `s` with white space on both sides of it. */
  lemma TrimmedSlice(s: string, a: string, r: string)
    requires |a| <= |s| && a == s[|s| - |a|..] && AllSpace(s[..|s| - |a|])
    requires |r| <= |a| && r == a[..|r|] && AllSpace(a[|r|..])
    ensures TrimmedOf(s, r)
  {
    var i := |s| - |a|;
    assert a[|r|..] == s[i + |r|..];
    assert r == s[i..i + |r|];
  }

  /** `s.strip()`: a slice of `s` that is empty exactly when `s` is all white space, and otherwise
      begins and ends with a non-space character. */
  function Strip(s: string): (r: string)
    ensures r == [] <==> AllSpace(s)
    ensures r == [] || (!IsSpace(r[0]) && !IsSpace(r[|r| - 1]))
  {
    var a := TrimStart(s);
    var r := TrimEnd(a);
    if r == [] then
      assert a == a[|r|..];
      assert s == s[..|s| - |a|] + a;
      AllSpaceConcat(s[..|s| - |a|], a);
      r
    else
      assert r[0] == a[0];
      r
  }

  /** What `strip` returns is a slice of its argument with only white space cut off either end. */
  lemma StripSlice(s: string)
    ensures TrimmedOf(s, Strip(s))
  {
    TrimmedSlice(s, TrimStart(s), TrimEnd(TrimStart(s)));
  }

  /** Stripping twice is stripping once (`add_user_key` strips a key that `receive_key` already stripped). */
  lemma StripIdempotent(s: string)
    ensures Strip(Strip(s)) == Strip(s)
  {
  }

  /** ASCII case mapping (`str.lower()` on ASCII letters). */
  function LowerChar(c: char): char {
    if 'A' <= c <= 'Z' then (c as int + 32) as char else c
  }

  function UpperChar(c: char): char {
    if 'a' <= c <= 'z' then (c as int - 32) as char else c
  }

  /** `s.lower()`: the same length, each character mapped. */
  function Lower(s: string): (r: string)
    ensures |r| == |s| && forall k | 0 <= k < |s| :: r[k] == LowerChar(s[k])
  {
    if s == [] then [] else [LowerChar(s[0])] + Lower(s[1..])
  }

  /** `s.upper()`: the same length, each character mapped. */
  function Upper(s: string): (r: string)
    ensures |r| == |s| && forall k | 0 <= k < |s| :: r[k] == UpperChar(s[k])
  {
    if s == [] then [] else [UpperChar(s[0])] + Upper(s[1..])
  }

  predicate StartsWith(s: string, prefix: string) {
    |prefix| <= |s| && s[..|prefix|] == prefix
  }

  predicate EndsWith(s: string, suffix: string) {
    |suffix| <= |s| && s[|s| - |suffix|..] == suffix
  }

  /** `s.find(c)`: the first position of `c`, if any. */
  function IndexOf(s: string, c: char): (r: Option<nat>)
    ensures r.None? <==> c !in s
    ensures r.Some? ==> r.value < |s| && s[r.value] == c && c !in s[..r.value]
  {
    if s == [] then None
    else if s[0] == c then Some(0)
    else match IndexOf(s[1..], c)
      case None => None
      case Some(i) => assert s[..i + 1] == [s[0]] + s[1..][..i]; Some(i + 1)
  }

  /** `s.rfind(c)`: the last position of `c`, if any. */
  function LastIndexOf(s: string, c: char): (r: Option<nat>)
    ensures r.None? <==> c !in s
    ensures r.Some? ==> r.value < |s| && s[r.value] == c && c !in s[r.value + 1..]
  {
    if s == [] then None
    else if s[|s| - 1] == c then Some(|s| - 1)
    else
      var r := LastIndexOf(s[..|s| - 1], c);
      assert r.Some? ==> s[r.value + 1..] == s[..|s| - 1][r.value + 1..] + [s[|s| - 1]];
      assert r.None? ==> s == s[..|s| - 1] + [s[|s| - 1]];
      r
  }

  /** `s.split(c, 1)[1]`: everything after the first `c`; `None` where Python raises IndexError. */
  function AfterFirst(s: string, c: char): Option<string> {
    match IndexOf(s, c)
    case None => None
    case Some(i) => Some(s[i + 1..])
  }

  /** `s.split(c)[0]`: everything before the first `c`, or all of `s`. */
  function BeforeFirst(s: string, c: char): string {
    match IndexOf(s, c)
    case None => s
    case Some(i) => s[..i]
  }

  /** `s.split(c)[-1]`: everything after the last `c`, or all of `s`. */
  function AfterLast(s: string, c: char): string {
    match LastIndexOf(s, c)
    case None => s
    case Some(i) => s[i + 1..]
  }

  /** The text after a tag and its separator is recovered whole, whatever it contains. */
  lemma {:induction false} AfterFirstOfTagged(tag: string, c: char, rest: string)
    requires c !in tag
    ensures AfterFirst(tag + [c] + rest, c) == Some(rest)
  {
    var s := tag + [c] + rest;
    assert s[|tag|] == c;
    assert s[..|tag|] == tag;
    assert s[|tag| + 1..] == rest;
  }

  /** A string that starts with a tag and its separator splits right after that separator. */
  lemma AfterFirstOfPrefixed(s: string, tag: string, c: char)
    requires c !in tag && StartsWith(s, tag + [c])
    ensures AfterFirst(s, c) == Some(s[|tag| + 1..])
  {
    assert s == tag + [c] + s[|tag| + 1..];
    AfterFirstOfTagged(tag, c, s[|tag| + 1..]);
  }

  /** The last `c` of a string is the one after which no `c` follows. */
  lemma LastIndexOfAt(s: string, c: char, i: nat)
    requires i < |s| && s[i] == c && c !in s[i + 1..]
    ensures LastIndexOf(s, c) == Some(i)
  {
    var j := LastIndexOf(s, c).value;
    assert s[j] == c && c !in s[j + 1..];
  }

  /** `s[:n]`: Python slicing does not fail on a short string. */
  function Take(s: string, n: nat): (r: string)
    ensures |r| <= n && StartsWith(s, r)
    ensures |s| <= n ==> r == s
  {
    if n >= |s| then s else s[..n]
  }

  /** `s.replace(pattern, with)`: occurrences are replaced left to right without overlapping;
      a replacement no longer than the pattern never makes the string longer. */
  function ReplaceAll(s: string, pattern: string, with: string): (r: string)
    requires |pattern| > 0
    ensures |with| <= |pattern| ==> |r| <= |s|
    decreases |s|
  {
    if |s| < |pattern| then s
    else if s[..|pattern|] == pattern then with + ReplaceAll(s[|pattern|..], pattern, with)
    else [s[0]] + ReplaceAll(s[1..], pattern, with)
  }

  /** `sep.join(parts)`. */
  function JoinWith(parts: seq<string>, sep: string): string
    decreases |parts|
  {
    if parts == [] then ""
    else if |parts| == 1 then parts[0]
    else parts[0] + sep + JoinWith(parts[1..], sep)
  }

  /** `os.path.join(a, b)` on POSIX. */
  function PathJoin(a: string, b: string): string {
    if StartsWith(b, "/") then b
    else if a == "" || EndsWith(a, "/") then a + b
    else a + "/" + b
  }

  /** `os.path.basename(p)`: whatever follows the last `/`. */
  function Basename(p: string): (r: string)
    ensures '/' !in r
  {
    match LastIndexOf(p, '/')
    case None => p
    case Some(i) => p[i + 1..]
  }

  /** Joining a directory and a plain file name, then taking the base name, gives back the file name. */
  lemma {:induction false} BasenameOfJoin(dir: string, name: string)
    requires '/' !in name
    ensures Basename(PathJoin(dir, name)) == name
  {
    assert !StartsWith(name, "/") by {
      if |name| > 0 { assert name[0] in name; }
    }
    if dir == "" {
      assert PathJoin(dir, name) == name;
    } else if EndsWith(dir, "/") {
      var p := dir + name;
      assert p[|dir| - 1] == '/';
      assert p[|dir|..] == name;
      LastIndexOfAt(p, '/', |dir| - 1);
    } else {
      var p := dir + "/" + name;
      assert p[|dir|] == '/';
      assert p[|dir| + 1..] == name;
      LastIndexOfAt(p, '/', |dir|);
    }
  }

  /** Joining keeps the end of the joined name. */
  lemma EndsWithJoin(dir: string, name: string, suffix: string)
    requires EndsWith(name, suffix)
    ensures EndsWith(PathJoin(dir, name), suffix)
  {
    var p := PathJoin(dir, name);
    assert p[|p| - |name|..] == name;
    assert p[|p| - |suffix|..] == name[|name| - |suffix|..];
  }

  /** Appending a suffix without `/` to a path appends it to the base name (`image.jpg` + `.txt`). */
  lemma BasenameAppend(p: string, suffix: string)
    requires '/' !in suffix
    ensures Basename(p + suffix) == Basename(p) + suffix
  {
    var q := p + suffix;
    match LastIndexOf(p, '/')
    case None =>
      assert '/' !in q by {
        forall k | 0 <= k < |q| ensures q[k] != '/' {
          if k < |p| { assert q[k] == p[k]; } else { assert q[k] == suffix[k - |p|]; }
        }
      }
    case Some(i) =>
      assert q[i + 1..] == p[i + 1..] + suffix;
      LastIndexOfAt(q, '/', i);
  }

  /** Some character of `p[lo..hi]` is not a dot. */
  predicate HasNonDot(p: string, lo: int, hi: int)
    requires 0 <= lo <= hi <= |p|
  {
    exists k | lo <= k < hi :: p[k] != '.'
  }

  /** `os.path.splitext(p)[0]`: the path without its extension. The extension starts at the last dot
      of the final component, unless only dots precede that dot in the component (`.bashrc`). */
  function StemOf(p: string): string {
    var start := match LastIndexOf(p, '/') case None => 0 case Some(i) => i + 1;
    match LastIndexOf(p, '.')
    case None => p
    case Some(d) => if start <= d && HasNonDot(p, start, d) then p[..d] else p
  }

  /** A name made of a stem and a one-dot extension loses exactly the extension. */
  lemma {:induction false} StemOfWithExtension(stem: string, ext: string)
    requires |ext| > 0 && ext[0] == '.' && '.' !in ext[1..] && '/' !in ext && '/' !in stem
    requires exists k | 0 <= k < |stem| :: stem[k] != '.'
    ensures StemOf(stem + ext) == stem
  {
    var p := stem + ext;
    assert p[|stem|] == '.';
    assert p[|stem| + 1..] == ext[1..];
    LastIndexOfAt(p, '.', |stem|);
    assert '/' !in p by {
      forall k | 0 <= k < |p| ensures p[k] != '/' {
        if k < |stem| { assert p[k] == stem[k]; } else { assert p[k] == ext[k - |stem|]; }
      }
    }
    var k :| 0 <= k < |stem| && stem[k] != '.';
    assert p[k] == stem[k];
    assert HasNonDot(p, 0, |stem|);
    assert p[..|stem|] == stem;
  }

  /** Decimal digits of a natural number, as `str(n)`. */
  function NatToString(n: nat): (r: string)
    ensures |r| > 0
    decreases n
  {
    if n < 10 then [DigitChar(n)] else NatToString(n / 10) + [DigitChar(n % 10)]
  }

  function DigitChar(d: nat): char
    requires d < 10
  {
    "0123456789"[d]
  }

  /** `f"{n:,}"`: decimal digits grouped in threes by commas. */
  function Grouped(n: int): (r: string)
    ensures |r| > 0
    decreases if n < 0 then -n + 1 else n
  {
    if n < 0 then "-" + Grouped(-n)
    else if n < 1000 then NatToString(n)
    else Grouped(n / 1000) + "," + Pad3(n % 1000)
  }

  /** Three digits with leading zeros. */
  function Pad3(n: nat): (r: string)
    requires n < 1000
    ensures |r| == 3
  {
    [DigitChar(n / 100), DigitChar(n / 10 % 10), DigitChar(n % 10)]
  }
}
