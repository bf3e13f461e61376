/** The subset of Go's `strings` package and of `path.Dir` that the renderer
    and the argument loader rely on, as functions on `seq<char>`. */
module GoStrings {

  /** strings.HasPrefix */
  predicate HasPrefix(s: string, prefix: string) {
    |prefix| <= |s| && s[..|prefix|] == prefix
  }

  /** strings.HasSuffix */
  predicate HasSuffix(s: string, suffix: string) {
    |suffix| <= |s| && s[|s| - |suffix|..] == suffix
  }

  /** HasPrefix holds exactly when every character of `prefix` matches the
      start of `s`, and HasSuffix when every character of `suffix` matches
      its end. */
  lemma AffixByCharacters(s: string, prefix: string, suffix: string)
    ensures HasPrefix(s, prefix) <==> |prefix| <= |s| && forall i :: 0 <= i < |prefix| ==> s[i] == prefix[i]
    ensures HasSuffix(s, suffix) <==> |suffix| <= |s| && forall i :: 0 <= i < |suffix| ==> s[|s| - |suffix| + i] == suffix[i]
  {
  }

  /** strings.TrimPrefix: drops one leading `prefix`, if there is one. */
  function TrimPrefix(s: string, prefix: string): (r: string)
    ensures HasPrefix(s, prefix) ==> prefix + r == s
    ensures !HasPrefix(s, prefix) ==> r == s
  {
    if HasPrefix(s, prefix) then s[|prefix|..] else s
  }

  /** strings.TrimSuffix: drops one trailing `suffix`, if there is one. */
  function TrimSuffix(s: string, suffix: string): (r: string)
    ensures HasSuffix(s, suffix) ==> r + suffix == s
    ensures !HasSuffix(s, suffix) ==> r == s
  {
    if HasSuffix(s, suffix) then s[..|s| - |suffix|] else s
  }

  /** Appending a suffix and trimming it gives the original back, and only one
      copy of the suffix is ever removed. */
  lemma TrimSuffixOnce(s: string, suffix: string)
    ensures TrimSuffix(s + suffix, suffix) == s
  {
    assert (s + suffix)[|s|..] == suffix;
    assert (s + suffix)[..|s|] == s;
  }

  /** strings.TrimRight: drops every trailing character that is in `cutset`. */
  function TrimRight(s: string, cutset: set<char>): (r: string)
    ensures |r| <= |s| && r == s[..|r|]
    ensures forall i :: |r| <= i < |s| ==> s[i] in cutset
    ensures r == [] || r[|r| - 1] !in cutset
    decreases |s|
  {
    if s != [] && s[|s| - 1] in cutset then TrimRight(s[..|s| - 1], cutset) else s
  }

  /** TrimRight removes exactly a trailing run of cutset characters. */
  lemma {:induction false} TrimRightTail(s: string, tail: string, cutset: set<char>)
    requires s == [] || s[|s| - 1] !in cutset
    requires forall i :: 0 <= i < |tail| ==> tail[i] in cutset
    ensures TrimRight(s + tail, cutset) == s
    decreases |tail|
  {
    if tail == [] {
      assert s + tail == s;
    } else {
      var u := s + tail;
      assert u[|u| - 1] == tail[|tail| - 1];
      assert u[..|u| - 1] == s + tail[..|tail| - 1];
      TrimRightTail(s, tail[..|tail| - 1], cutset);
    }
  }

  /** Position of the first `c` in `s`, or -1 (strings.IndexByte). */
  function Index(s: string, c: char): (r: int)
    ensures -1 <= r < |s|
    ensures r == -1 <==> c !in s
    ensures 0 <= r ==> s[r] == c && c !in s[..r]
  {
    if s == [] then -1
    else if s[0] == c then 0
    else
      var i := Index(s[1..], c);
      assert i >= 0 ==> s[..i + 1] == [s[0]] + s[1..][..i];
      assert i < 0 ==> s == [s[0]] + s[1..];
      if i < 0 then -1 else i + 1
  }

  /** Position of the last `c` in `s`, or -1 (strings.LastIndexByte). */
  function LastIndex(s: string, c: char): (r: int)
    ensures -1 <= r < |s|
    ensures r == -1 <==> c !in s
    ensures 0 <= r ==> s[r] == c && forall k :: r < k < |s| ==> s[k] != c
  {
    if s == [] then -1
    else if s[|s| - 1] == c then |s| - 1
    else
      var i := LastIndex(s[..|s| - 1], c);
      assert i < 0 ==> s == s[..|s| - 1] + [s[|s| - 1]];
      i
  }

  /** The first `c` of `a + [c] + b` is the one after `a` when `a` has none. */
  lemma {:induction false} IndexAfter(a: string, b: string, c: char)
    requires c !in a
    ensures Index(a + [c] + b, c) == |a|
  {
    if a != [] {
      assert (a + [c] + b)[1..] == a[1..] + [c] + b;
      IndexAfter(a[1..], b, c);
    }
  }

  /** The last `c` of `a + [c] + b` is the one after `a` when `b` has none. */
  lemma {:induction false} LastIndexBefore(a: string, b: string, c: char)
    requires c !in b
    ensures LastIndex(a + [c] + b, c) == |a|
    decreases |b|
  {
    var s := a + [c] + b;
    if b != [] {
      assert s[|s| - 1] == b[|b| - 1];
      assert s[..|s| - 1] == a + [c] + b[..|b| - 1];
      LastIndexBefore(a, b[..|b| - 1], c);
    }
  }

  /** The separator-joined concatenation of `parts` (strings.Join). */
  function Join(parts: seq<string>, sep: char): string
    requires |parts| >= 1
  {
    if |parts| == 1 then parts[0] else parts[0] + [sep] + Join(parts[1..], sep)
  }

  /** strings.Split with a one-character separator: never empty, no part holds
      the separator, and joining the parts gives the input back. */
  function Split(s: string, sep: char): (parts: seq<string>)
    ensures |parts| >= 1
    ensures forall i :: 0 <= i < |parts| ==> sep !in parts[i]
    ensures Join(parts, sep) == s
    decreases |s|
  {
    var i := Index(s, sep);
    if i < 0 then [s]
    else
      var rest := Split(s[i + 1..], sep);
      assert s == s[..i] + [sep] + s[i + 1..];
      [s[..i]] + rest
  }

  /** The other half of the round trip: splitting a join of separator-free
      parts gives the parts back. */
  lemma {:induction false} SplitJoin(parts: seq<string>, sep: char)
    requires |parts| >= 1
    requires forall i :: 0 <= i < |parts| ==> sep !in parts[i]
    ensures Split(Join(parts, sep), sep) == parts
  {
    if |parts| > 1 {
      var p0 := parts[0];
      var rest := Join(parts[1..], sep);
      var s := p0 + [sep] + rest;
      assert Join(parts, sep) == s;
      IndexAfter(p0, rest, sep);
      var i := Index(s, sep);
      assert s[..i] == p0;
      assert s[i + 1..] == rest;
      SplitJoin(parts[1..], sep);
    }
  }

  /** Splitting `a`, the separator and `b` gives `a` followed by the parts
      of `b`, when `a` holds no separator. */
  lemma SplitHead(a: string, b: string, sep: char)
    requires sep !in a
    ensures Split(a + [sep] + b, sep) == [a] + Split(b, sep)
  {
    var s := a + [sep] + b;
    IndexAfter(a, b, sep);
    assert s[..|a|] == a && s[|a| + 1..] == b;
  }

  /** A string without the separator is its own only part. */
  lemma SplitNoSep(s: string, sep: char)
    requires sep !in s
    ensures Split(s, sep) == [s]
  {
  }

  /** The first part of `b`, followed by nothing or by a further part, is `b`. */
  lemma SplitFirstOf(b: string, tail: string, sep: char)
    requires sep !in b
    requires tail == [] || tail[0] == sep
    ensures Split(b + tail, sep)[0] == b
  {
    if tail == [] {
      assert b + tail == b;
      SplitNoSep(b, sep);
    } else {
      assert b + tail == b + [sep] + tail[1..];
      SplitHead(b, tail[1..], sep);
    }
  }

  /** The first two parts of `a/b...` are `a` and `b` when neither holds the
      separator and what follows `b` is empty or starts a further part. */
  lemma SplitFirstTwo(a: string, b: string, tail: string, sep: char)
    requires sep !in a && sep !in b
    requires tail == [] || tail[0] == sep
    ensures var parts := Split(a + [sep] + (b + tail), sep);
      |parts| >= 2 && parts[0] == a && parts[1] == b
  {
    SplitHead(a, b + tail, sep);
    SplitFirstOf(b, tail, sep);
  }

  /** strings.SplitN(s, sep, 2): the whole string when there is no separator,
      otherwise the text before the first separator and everything after it. */
  function SplitN2(s: string, sep: char): (parts: seq<string>)
    ensures sep !in s ==> parts == [s]
    ensures sep in s ==> |parts| == 2 && sep !in parts[0] && parts[0] + [sep] + parts[1] == s
  {
    var i := Index(s, sep);
    if i < 0 then [s]
    else
      assert s == s[..i] + [sep] + s[i + 1..];
      [s[..i], s[i + 1..]]
  }

  /** The split happens at the first separator only: later separators stay in
      the second part. */
  lemma SplitN2First(a: string, b: string, sep: char)
    requires sep !in a
    ensures SplitN2(a + [sep] + b, sep) == [a, b]
  {
    var s := a + [sep] + b;
    IndexAfter(a, b, sep);
    assert s[..|a|] == a && s[|a| + 1..] == b;
  }

  /** path.Dir on a slash-separated path: the text before the last '/', or "."
      when there is none. */
  function Dir(p: string): (d: string)
    ensures '/' !in p ==> d == "."
    ensures '/' in p ==> HasPrefix(p, d + "/") && forall k :: |d| < k < |p| ==> p[k] != '/'
  {
    var i := LastIndex(p, '/');
    if i < 0 then "."
    else
      assert p[..i + 1] == p[..i] + "/";
      p[..i]
  }

  /** The directory of `acc/seg` is `acc` when `seg` has no slash. */
  lemma DirOfChild(acc: string, seg: string)
    requires '/' !in seg
    ensures Dir(acc + "/" + seg) == acc
  {
    var p := acc + "/" + seg;
    assert p == acc + ['/'] + seg;
    LastIndexBefore(acc, seg, '/');
    assert p[..|acc|] == acc;
  }

  /** A name without a slash lives in the root directory ".". */
  lemma DirOfName(seg: string)
    requires '/' !in seg
    ensures Dir(seg) == "."
  {
  }
}
