/**
 * The Python `str` operations the generators rely on, over strings of code
 * points: `isspace`, `lower`, `strip`, `rstrip('.')`, `endswith`, `in`,
 * `split(sep)`, `split()`, `join` and `replace`.
 */
module PyStr {
  import opened Wrappers
  import opened Domain

  /** `c.isspace()`: the code points Python treats as whitespace. */
  predicate IsSpace(c: char)
  {
    var n := c as int;
    (9 <= n <= 13) || (28 <= n <= 32) || n == 0x85 || n == 0xA0 || n == 0x1680
    || (0x2000 <= n <= 0x200A) || n == 0x2028 || n == 0x2029 || n == 0x202F
    || n == 0x205F || n == 0x3000
  }

  function LowerChar(c: char): char
  {
    if 'A' <= c <= 'Z' then (c as int + 32) as char else c
  }

  /** `s.lower()`, restricted to the ASCII letters. */
  function Lower(s: String): (r: String)
    ensures |r| == |s|
    ensures forall i :: 0 <= i < |s| ==> r[i] == LowerChar(s[i])
  {
    seq(|s|, i requires 0 <= i < |s| => LowerChar(s[i]))
  }

  /** `s.lstrip()`: the suffix left after dropping the leading whitespace. */
  function LStrip(s: String): (r: String)
    ensures |r| <= |s| && r == s[|s| - |r|..]
    ensures r == [] || !IsSpace(r[0])
    ensures forall i :: 0 <= i < |s| - |r| ==> IsSpace(s[i])
  {
    if s != [] && IsSpace(s[0]) then LStrip(s[1..]) else s
  }

  /** `s.rstrip()`: the prefix left after dropping the trailing whitespace. */
  function RStrip(s: String): (r: String)
    ensures |r| <= |s| && r == s[..|r|]
    ensures r == [] || !IsSpace(r[|r| - 1])
    ensures forall i :: |r| <= i < |s| ==> IsSpace(s[i])
  {
    if s != [] && IsSpace(s[|s| - 1]) then RStrip(s[..|s| - 1]) else s
  }

  /** `s.strip()`: a slice of `s` that neither starts nor ends with whitespace,
      everything cut off on either side being whitespace. */
  function Strip(s: String): (r: String)
    ensures var a := |s| - |LStrip(s)|;
            a + |r| <= |s| && r == s[a..a + |r|]
            && (forall i :: 0 <= i < a ==> IsSpace(s[i]))
            && (forall i :: a + |r| <= i < |s| ==> IsSpace(s[i]))
    ensures r == [] || (!IsSpace(r[0]) && !IsSpace(r[|r| - 1]))
  {
    RStrip(LStrip(s))
  }

  lemma StripIdempotent(s: String)
    ensures Strip(Strip(s)) == Strip(s)
  {
  }

  /** `s.rstrip('.')`: the prefix left after dropping every trailing dot. */
  function RStripDots(s: String): (r: String)
    ensures |r| <= |s| && r == s[..|r|]
    ensures r == [] || r[|r| - 1] != '.'
    ensures forall i :: |r| <= i < |s| ==> s[i] == '.'
  {
    if s != [] && s[|s| - 1] == '.' then RStripDots(s[..|s| - 1]) else s
  }

  /** `s.endswith(suffix)` */
  predicate EndsWith(s: String, suffix: String)
  {
    |suffix| <= |s| && s[|s| - |suffix|..] == suffix
  }

  /** `t` occurs in `s` starting at index `i`. */
  predicate OccursAt(s: String, t: String, i: nat)
  {
    i + |t| <= |s| && s[i..i + |t|] == t
  }

  lemma OccursShift(s: String, t: String)
    requires s != []
    ensures forall j: nat :: 0 < j ==> (OccursAt(s, t, j) <==> OccursAt(s[1..], t, j - 1))
  {
    forall j: nat | 0 < j
      ensures OccursAt(s, t, j) <==> OccursAt(s[1..], t, j - 1)
    {
      if j + |t| <= |s| {
        assert s[1..][j - 1..j - 1 + |t|] == s[j..j + |t|];
      }
    }
  }

  /** `s.find(t)`: the first index at which `t` occurs in `s`, if any. */
  function IndexOf(s: String, t: String): (r: Option<nat>)
    ensures r.Some? ==> OccursAt(s, t, r.value)
    ensures r.Some? ==> forall j: nat :: j < r.value ==> !OccursAt(s, t, j)
    ensures r.None? ==> forall j: nat :: !OccursAt(s, t, j)
    decreases |s|
  {
    if |s| < |t| then None
    else if s[..|t|] == t then Some(0)
    else
      assert !OccursAt(s, t, 0) by { assert s[0..|t|] == s[..|t|]; }
      OccursShift(s, t);
      match IndexOf(s[1..], t)
      case None => None
      case Some(i) => Some(i + 1)
  }

  /** `t in s` */
  function Contains(s: String, t: String): (b: bool)
    ensures b <==> exists i: nat :: OccursAt(s, t, i)
  {
    IndexOf(s, t).Some?
  }

  lemma OccursInPrefix(s: String, t: String, n: nat, j: nat)
    requires n <= |s| && OccursAt(s[..n], t, j)
    ensures OccursAt(s, t, j)
  {
    assert s[..n][j..j + |t|] == s[j..j + |t|];
  }

  /** `s.split(sep)`: the pieces between the non-overlapping occurrences of `sep`,
      found left to right; none of the pieces contains `sep`. */
  function Split(s: String, sep: String): (parts: seq<String>)
    requires sep != []
    ensures |parts| >= 1
    ensures forall k :: 0 <= k < |parts| ==> !Contains(parts[k], sep)
    decreases |s|
  {
    match IndexOf(s, sep)
    case None => [s]
    case Some(i) =>
      assert !Contains(s[..i], sep) by {
        forall j: nat | OccursAt(s[..i], sep, j)
          ensures false
        {
          OccursInPrefix(s, sep, i, j);
        }
      }
      [s[..i]] + Split(s[i + |sep|..], sep)
  }

  /** `sep.join(parts)` */
  function Join(parts: seq<String>, sep: String): String
  {
    if |parts| == 0 then []
    else if |parts| == 1 then parts[0]
    else parts[0] + sep + Join(parts[1..], sep)
  }

  lemma Reassemble(s: String, i: nat, t: String)
    requires OccursAt(s, t, i)
    ensures s == s[..i] + t + s[i + |t|..]
  {
    assert s == s[..i] + s[i..i + |t|] + s[i + |t|..];
  }

  /** Splitting and joining again with the same separator gives back the string. */
  lemma {:induction false} SplitJoin(s: String, sep: String)
    requires sep != []
    ensures Join(Split(s, sep), sep) == s
    decreases |s|
  {
    match IndexOf(s, sep)
    case None =>
    case Some(i) =>
      var rest := s[i + |sep|..];
      SplitJoin(rest, sep);
      var tail := Split(rest, sep);
      assert Split(s, sep) == [s[..i]] + tail;
      assert ([s[..i]] + tail)[1..] == tail;
      assert Join([s[..i]] + tail, sep) == s[..i] + sep + Join(tail, sep);
      assert OccursAt(s, sep, i);
      Reassemble(s, i, sep);
  }

  /** Two pieces means the string is the first piece, one separator, and the
      second piece. */
  lemma SplitInTwo(s: String, sep: String)
    requires sep != [] && |Split(s, sep)| == 2
    ensures s == Split(s, sep)[0] + sep + Split(s, sep)[1]
  {
    SplitJoin(s, sep);
    var parts := Split(s, sep);
    assert parts[1..] == [parts[1]];
  }

  /** `a + sep + b` splits into `a` and `b` when no occurrence of `sep` starts
      inside `a` and none lies in `b`. */
  lemma SplitOfTwo(a: String, sep: String, b: String)
    requires sep != []
    requires !Contains(a + sep[..|sep| - 1], sep) && !Contains(b, sep)
    ensures Split(a + sep + b, sep) == [a, b]
  {
    var s := a + sep + b;
    assert OccursAt(s, sep, |a|) by { assert s[|a|..|a| + |sep|] == sep; }
    forall j: nat | j < |a|
      ensures !OccursAt(s, sep, j)
    {
      var p := a + sep[..|sep| - 1];
      assert s[..|p|] == p;
      if OccursAt(s, sep, j) {
        assert p[j..j + |sep|] == s[j..j + |sep|];
        assert OccursAt(p, sep, j);
      }
    }
    assert IndexOf(s, sep) == Some(|a|);
    assert s[..|a|] == a && s[|a| + |sep|..] == b;
  }

  /** No occurrence of `sep` starts inside any part but the last, counting the
      separator that follows it: every cut is at the leftmost occurrence. */
  predicate CutsLeftmost(parts: seq<String>, sep: String)
    requires sep != []
  {
    forall k :: 0 <= k < |parts| - 1 ==> !Contains(parts[k] + sep[..|sep| - 1], sep)
  }

  /** `split` cuts at the leftmost occurrences. With `SplitJoin` this fixes the
      parts, also for separators that overlap themselves. */
  lemma {:induction false} SplitLeftmost(s: String, sep: String)
    requires sep != []
    ensures CutsLeftmost(Split(s, sep), sep)
    decreases |s|
  {
    match IndexOf(s, sep)
    case None =>
    case Some(i) =>
      var rest := s[i + |sep|..];
      SplitLeftmost(rest, sep);
      var tail := Split(rest, sep);
      var parts := Split(s, sep);
      assert parts == [s[..i]] + tail;
      FirstCutLeftmost(s, sep, i);
      forall k | 0 < k < |parts| - 1
        ensures !Contains(parts[k] + sep[..|sep| - 1], sep)
      {
        assert parts[k] == tail[k - 1];
      }
  }

  /** No occurrence starts in the part before the first occurrence or in the
      first `|sep| - 1` characters of that occurrence. */
  lemma FirstCutLeftmost(s: String, sep: String, i: nat)
    requires sep != [] && IndexOf(s, sep) == Some(i)
    ensures !Contains(s[..i] + sep[..|sep| - 1], sep)
  {
    PrefixThroughCut(s, sep, i);
    NoneBeforeFirst(s, sep, i);
  }

  /** The text up to an occurrence, followed by all but the last character of
      the separator, is a prefix of the string. */
  lemma PrefixThroughCut(s: String, sep: String, i: nat)
    requires sep != [] && OccursAt(s, sep, i)
    ensures s[..i] + sep[..|sep| - 1] == s[..i + |sep| - 1]
  {
    var n := i + |sep| - 1;
    assert s[i..n] == s[i..i + |sep|][..|sep| - 1];
    assert s[..n] == s[..i] + s[i..n];
  }

  /** A prefix ending before the first occurrence is complete holds no occurrence. */
  lemma NoneBeforeFirst(s: String, sep: String, i: nat)
    requires sep != [] && IndexOf(s, sep) == Some(i)
    ensures !Contains(s[..i + |sep| - 1], sep)
  {
    var n := i + |sep| - 1;
    var p := s[..n];
    forall j: nat | OccursAt(p, sep, j)
      ensures false
    {
      OccursInPrefix(s, sep, n, j);
    }
  }

  /** Every position of `s` followed by `repl`, as `s.replace("", repl)` does. */
  function Interleave(s: String, repl: String): (r: String)
    ensures |r| == |s| + (|s| + 1) * |repl|
  {
    if s == [] then repl else repl + [s[0]] + Interleave(s[1..], repl)
  }

  /** `s.replace(target, repl)`: every non-overlapping occurrence of `target`,
      found left to right, replaced by `repl`. */
  function Replace(s: String, target: String, repl: String): String
    decreases |s|
  {
    if target == [] then Interleave(s, repl)
    else
      match IndexOf(s, target)
      case None => s
      case Some(i) => s[..i] + repl + Replace(s[i + |target|..], target, repl)
  }

  /** Replacing is splitting on the pattern and joining with the replacement:
      what lies between two replacements never contains the pattern. */
  lemma {:induction false} ReplaceIsJoinOfSplit(s: String, target: String, repl: String)
    requires target != []
    ensures Replace(s, target, repl) == Join(Split(s, target), repl)
    decreases |s|
  {
    match IndexOf(s, target)
    case None =>
    case Some(i) =>
      var rest := s[i + |target|..];
      ReplaceIsJoinOfSplit(rest, target, repl);
      var tail := Split(rest, target);
      assert Split(s, target) == [s[..i]] + tail;
      assert Replace(s, target, repl) == s[..i] + repl + Join(tail, repl);
      JoinCons(s[..i], tail, repl);
  }

  lemma JoinCons(head: String, tail: seq<String>, sep: String)
    requires tail != []
    ensures Join([head] + tail, sep) == head + sep + Join(tail, sep)
  {
    assert ([head] + tail)[1..] == tail;
  }

  /** A string that does not contain the pattern is left unchanged. */
  lemma ReplaceAbsent(s: String, target: String, repl: String)
    requires !Contains(s, target)
    ensures Replace(s, target, repl) == s
  {
    assert OccursAt(s, [], 0);
  }

  predicate IsWord(w: String)
  {
    w != [] && forall i :: 0 <= i < |w| ==> !IsSpace(w[i])
  }

  /** The length of the run of non-whitespace characters at the start of `s`. */
  function WordLength(s: String): (n: nat)
    ensures n <= |s|
    ensures forall i :: 0 <= i < n ==> !IsSpace(s[i])
    ensures n == |s| || IsSpace(s[n])
  {
    if s == [] || IsSpace(s[0]) then 0 else 1 + WordLength(s[1..])
  }

  lemma WordAtStart(t: String)
    requires t != [] && !IsSpace(t[0])
    ensures IsWord(t[..WordLength(t)]) && WordLength(t) > 0
  {
    var w := t[..WordLength(t)];
    assert forall i :: 0 <= i < |w| ==> w[i] == t[i];
  }

  /** `s.split()`: the maximal runs of non-whitespace characters, in order. */
  function Words(s: String): (ws: seq<String>)
    ensures forall w :: w in ws ==> IsWord(w)
    decreases |s|
  {
    var t := LStrip(s);
    if t == [] then []
    else
      var n := WordLength(t);
      WordAtStart(t);
      [t[..n]] + Words(t[n..])
  }

  /** The number of word starts in `s`: non-whitespace characters that follow
      whitespace, or the start of the text when `afterSpace` holds. */
  function WordStarts(s: String, afterSpace: bool): nat
  {
    if s == [] then 0
    else (if afterSpace && !IsSpace(s[0]) then 1 else 0) + WordStarts(s[1..], IsSpace(s[0]))
  }

  /** Leading whitespace starts no word. */
  lemma {:induction false} StartsAfterLStrip(s: String)
    ensures WordStarts(LStrip(s), true) == WordStarts(s, true)
    decreases |s|
  {
    if s != [] && IsSpace(s[0]) {
      StartsAfterLStrip(s[1..]);
    }
  }

  /** Inside a word no new word starts until the run of non-whitespace ends. */
  lemma {:induction false} StartsInsideWord(u: String)
    ensures WordStarts(u, false) == WordStarts(u[WordLength(u)..], true)
    decreases |u|
  {
    if u != [] && !IsSpace(u[0]) {
      StartsInsideWord(u[1..]);
      assert u[1..][WordLength(u[1..])..] == u[WordLength(u)..];
    }
  }

  /** `split()` yields one word per word start. */
  lemma {:induction false} WordsCount(s: String)
    ensures |Words(s)| == WordStarts(s, true)
    decreases |s|
  {
    var t := LStrip(s);
    StartsAfterLStrip(s);
    if t != [] {
      var n := WordLength(t);
      WordAtStart(t);
      WordsCount(t[n..]);
      StartsInsideWord(t[1..]);
      assert t[1..][WordLength(t[1..])..] == t[n..];
    }
  }
}
