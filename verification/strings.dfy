/**
 PHP's byte-string functions that the models rely on, over Dafny's `string`.
 One Dafny `char` stands for one character of the PHP string.
 */
module Strings {
  import opened Wrappers

  // ---------------------------------------------------------------------------
  // Searching

  /** `pat` occurs in `s` starting at index `i`. */
  predicate OccursAt(s: string, pat: string, i: nat) {
    i + |pat| <= |s| && s[i..i + |pat|] == pat
  }

  predicate Contains(s: string, pat: string) {
    exists i: nat | i <= |s| :: OccursAt(s, pat, i)
  }

  predicate EndsWith(s: string, suffix: string) {
    |suffix| <= |s| && s[|s| - |suffix|..] == suffix
  }

  function FirstOccurrenceFrom(s: string, pat: string, from: nat): (r: Option<nat>)
    requires forall j: nat :: j < from ==> !OccursAt(s, pat, j)
    ensures r.Some? ==> OccursAt(s, pat, r.value)
    ensures r.Some? ==> forall j: nat :: j < r.value ==> !OccursAt(s, pat, j)
    ensures r.None? ==> forall j: nat :: !OccursAt(s, pat, j)
    decreases |s| - from
  {
    if from + |pat| > |s| then None
    else if s[from..from + |pat|] == pat then Some(from)
    else FirstOccurrenceFrom(s, pat, from + 1)
  }

  /** The index of the leftmost occurrence of `pat` in `s`, if there is one. */
  function FirstOccurrence(s: string, pat: string): (r: Option<nat>)
    ensures r.Some? <==> Contains(s, pat)
    ensures r.Some? ==> OccursAt(s, pat, r.value)
    ensures r.Some? ==> forall j: nat :: j < r.value ==> !OccursAt(s, pat, j)
  {
    FirstOccurrenceFrom(s, pat, 0)
  }

  /** The index of the first `c` in `s`. */
  function IndexOf(s: string, c: char): (i: nat)
    requires c in s
    ensures i < |s| && s[i] == c && c !in s[..i]
  {
    if s[0] == c then 0
    else
      var k := IndexOf(s[1..], c);
      assert s[..k + 1] == [s[0]] + s[1..][..k];
      1 + k
  }

  /** An occurrence in a prefix of `s` is an occurrence in `s`. */
  lemma ContainsInPrefix(s: string, t: string, pat: string)
    requires |t| <= |s| && s[..|t|] == t
    requires Contains(t, pat)
    ensures Contains(s, pat)
  {
    var k: nat :| k <= |t| && OccursAt(t, pat, k);
    assert s[k..k + |pat|] == t[k..k + |pat|];
    assert OccursAt(s, pat, k);
  }

  /**
   When `b` starts with a character that `pat` lacks, no occurrence of `pat`
   straddles the seam of `a + b`.
   */
  lemma ContainsSplit(a: string, b: string, pat: string)
    requires b != [] && b[0] !in pat
    requires Contains(a + b, pat)
    ensures Contains(a, pat) || Contains(b, pat)
  {
    var s := a + b;
    var k: nat :| k <= |s| && OccursAt(s, pat, k);
    if k + |pat| <= |a| {
      assert a[k..k + |pat|] == s[k..k + |pat|];
      assert OccursAt(a, pat, k);
    } else if k >= |a| {
      assert b[k - |a|..k - |a| + |pat|] == s[k..k + |pat|];
      assert OccursAt(b, pat, k - |a|);
    } else {
      OccurrenceCovers(s, pat, k, |a|);
      assert false;
    }
  }

  /** Each character an occurrence covers is the matching character of `pat`. */
  lemma OccurrenceCovers(s: string, pat: string, k: nat, m: nat)
    requires OccursAt(s, pat, k) && k <= m < k + |pat|
    ensures s[m] == pat[m - k]
  {
    assert s[k..k + |pat|][m - k] == s[m];
  }

  /** When `a` lacks the first character of `pat`, every occurrence in `a + b` lies in `b`. */
  lemma ContainsAfterHead(a: string, b: string, pat: string)
    requires pat != [] && pat[0] !in a
    requires Contains(a + b, pat)
    ensures Contains(b, pat)
  {
    var s := a + b;
    var k: nat :| k <= |s| && OccursAt(s, pat, k);
    if k < |a| {
      assert false;
    }
    assert b[k - |a|..k - |a| + |pat|] == s[k..k + |pat|];
    assert OccursAt(b, pat, k - |a|);
  }

  // ---------------------------------------------------------------------------
  // explode / implode on a one-character separator

  /** `explode(sep, s)`: the pieces between separators; there is always at least one. */
  function Split(s: string, sep: char): (parts: seq<string>)
    ensures |parts| >= 1
    ensures forall i :: 0 <= i < |parts| ==> sep !in parts[i]
    decreases |s|
  {
    if sep !in s then [s]
    else
      var i := IndexOf(s, sep);
      [s[..i]] + Split(s[i + 1..], sep)
  }

  /** `implode(sep, parts)`. */
  function Join(parts: seq<string>, sep: char): string
  {
    if |parts| == 0 then ""
    else if |parts| == 1 then parts[0]
    else parts[0] + [sep] + Join(parts[1..], sep)
  }

  /** Joining the pieces of a split gives back the original text. */
  lemma {:induction false} JoinSplit(s: string, sep: char)
    ensures Join(Split(s, sep), sep) == s
    decreases |s|
  {
    if sep in s {
      var i := IndexOf(s, sep);
      var rest := Split(s[i + 1..], sep);
      assert Split(s, sep) == [s[..i]] + rest;
      assert ([s[..i]] + rest)[1..] == rest;
      JoinSplit(s[i + 1..], sep);
      assert Join([s[..i]] + rest, sep) == s[..i] + [sep] + Join(rest, sep);
      assert s == s[..i] + [sep] + s[i + 1..];
    }
  }

  /** Splitting a join of separator-free pieces gives back the pieces. */
  lemma {:induction false} SplitJoin(parts: seq<string>, sep: char)
    requires |parts| >= 1
    requires forall i :: 0 <= i < |parts| ==> sep !in parts[i]
    ensures Split(Join(parts, sep), sep) == parts
  {
    if |parts| > 1 {
      var rest := Join(parts[1..], sep);
      assert Join(parts, sep) == parts[0] + [sep] + rest;
      SplitFirstPiece(parts[0], sep, rest);
      SplitJoin(parts[1..], sep);
      assert parts == [parts[0]] + parts[1..];
    }
  }

  /** A separator-free first piece is split off at the separator that follows it. */
  lemma SplitFirstPiece(p: string, sep: char, rest: string)
    requires sep !in p
    ensures Split(p + [sep] + rest, sep) == [p] + Split(rest, sep)
  {
    var s := p + [sep] + rest;
    assert s[|p|] == sep;
    var i := IndexOf(s, sep);
    assert s[..|p|] == p;
    assert i == |p|;
    assert s[i + 1..] == rest;
  }

  // ---------------------------------------------------------------------------
  // trim

  /** The characters PHP's `trim` strips by default. */
  predicate IsTrimChar(c: char) {
    c == ' ' || c == '\t' || c == '\n' || c == '\r' || c == '\0' || c == '\U{000B}'
  }

  function TrimStart(s: string): (r: string)
    ensures |r| <= |s| && r == s[|s| - |r|..]
    ensures forall i :: 0 <= i < |s| - |r| ==> IsTrimChar(s[i])
    ensures r == [] || !IsTrimChar(r[0])
  {
    if s != [] && IsTrimChar(s[0]) then TrimStart(s[1..]) else s
  }

  function TrimEnd(s: string): (r: string)
    ensures |r| <= |s| && r == s[..|r|]
    ensures forall i :: |r| <= i < |s| ==> IsTrimChar(s[i])
    ensures r == [] || !IsTrimChar(r[|r| - 1])
  {
    if s != [] && IsTrimChar(s[|s| - 1]) then TrimEnd(s[..|s| - 1]) else s
  }

  /** PHP's `trim` with its default character list. */
  function Trim(s: string): (r: string)
    ensures r == [] || (!IsTrimChar(r[0]) && !IsTrimChar(r[|r| - 1]))
    ensures |r| <= |s|
    ensures exists a, b :: 0 <= a <= b <= |s| && r == s[a..b]
                           && (forall i :: 0 <= i < a ==> IsTrimChar(s[i]))
                           && (forall i :: b <= i < |s| ==> IsTrimChar(s[i]))
  {
    var t := TrimStart(s);
    var r := TrimEnd(t);
    TrimmedSlice(s, t, r);
    r
  }

  /** A prefix of a suffix of `s` is a slice of `s`, and what was cut off at either end stays cut off. */
  lemma TrimmedSlice(s: string, t: string, r: string)
    requires |t| <= |s| && t == s[|s| - |t|..] && (forall i :: 0 <= i < |s| - |t| ==> IsTrimChar(s[i]))
    requires |r| <= |t| && r == t[..|r|] && (forall i :: |r| <= i < |t| ==> IsTrimChar(t[i]))
    ensures exists a, b :: 0 <= a <= b <= |s| && r == s[a..b]
                           && (forall i :: 0 <= i < a ==> IsTrimChar(s[i]))
                           && (forall i :: b <= i < |s| ==> IsTrimChar(s[i]))
  {
    var a := |s| - |t|;
    assert r == s[a..a + |r|];
    assert forall i :: a + |r| <= i < |s| ==> s[i] == t[i - a];
  }

  /** A string with no blank at either end is its own trim. */
  lemma TrimKeepsTrimmed(s: string)
    requires s == [] || (!IsTrimChar(s[0]) && !IsTrimChar(s[|s| - 1]))
    ensures Trim(s) == s
  {
  }

  // ---------------------------------------------------------------------------
  // ASCII case mapping (`strtoupper`/`strtolower`, and the `toupper` of `ucwords`, are
  // locale-independent from PHP 8.2 on)

  function ToUpper(c: char): char {
    if 'a' <= c <= 'z' then (c as int - 32) as char else c
  }

  function ToLower(c: char): char {
    if 'A' <= c <= 'Z' then (c as int + 32) as char else c
  }

  /** `strtolower`. */
  function LowerAll(s: string): (r: string)
    ensures |r| == |s|
    ensures forall i :: 0 <= i < |s| ==> r[i] == ToLower(s[i])
  {
    seq(|s|, i requires 0 <= i < |s| => ToLower(s[i]))
  }

  // ---------------------------------------------------------------------------
  // Replacement

  /** `str_replace(from, to, s)` for single characters. */
  function ReplaceChar(s: string, from: char, to: char): (r: string)
    ensures |r| == |s|
    ensures forall i :: 0 <= i < |s| ==> r[i] == if s[i] == from then to else s[i]
  {
    seq(|s|, i requires 0 <= i < |s| => if s[i] == from then to else s[i])
  }

  /**
   `str_replace(pat, '', s)`: removes the occurrences of `pat` found scanning from
   the left, without overlap; an empty `pat` leaves `s` unchanged.
   */
  function RemoveAll(s: string, pat: string): (r: string)
    ensures |r| <= |s|
    decreases |s|
  {
    if pat == [] || |s| < |pat| then s
    else if s[..|pat|] == pat then RemoveAll(s[|pat|..], pat)
    else [s[0]] + RemoveAll(s[1..], pat)
  }

  /** Text in which `pat` does not occur passes through `RemoveAll` untouched. */
  lemma {:induction false} RemoveAllAbsent(s: string, pat: string)
    requires !Contains(s, pat)
    ensures RemoveAll(s, pat) == s
    decreases |s|
  {
    if pat != [] && |s| >= |pat| {
      if s[..|pat|] == pat {
        assert OccursAt(s, pat, 0);
        assert false;
      }
      forall j: nat | OccursAt(s[1..], pat, j)
        ensures false
      {
        assert s[j + 1..j + 1 + |pat|] == s[1..][j..j + |pat|];
        assert OccursAt(s, pat, j + 1);
      }
      RemoveAllAbsent(s[1..], pat);
    }
  }

  /**
   The leftmost occurrence goes, and the scan resumes right after it: the text
   before it is kept and every later occurrence is removed in turn.
   */
  lemma {:induction false} RemoveAllFirst(pre: string, pat: string, post: string)
    requires pat != []
    requires forall j: nat :: j < |pre| ==> !OccursAt(pre + pat + post, pat, j)
    ensures RemoveAll(pre + pat + post, pat) == pre + RemoveAll(post, pat)
    decreases |pre|
  {
    var s := pre + pat + post;
    if pre == [] {
      assert s[..|pat|] == pat && s[|pat|..] == post;
    } else {
      assert !OccursAt(s, pat, 0);
      RemoveAllKeepsHead(s, pat);
      var s' := pre[1..] + pat + post;
      assert s[1..] == s';
      forall j: nat | j < |pre[1..]|
        ensures !OccursAt(s', pat, j)
      {
        assert !OccursAt(s, pat, j + 1);
        if j + |pat| <= |s'| {
          assert s'[j..j + |pat|] == s[j + 1..j + 1 + |pat|];
        }
      }
      RemoveAllFirst(pre[1..], pat, post);
      assert [pre[0]] + pre[1..] == pre;
    }
  }

  /** Both copies of `pat` go from `pat + mid + pat + rel`. */
  lemma RemoveBothCopies(pat: string, mid: string, rel: string)
    requires pat != []
    requires forall j: nat :: j < |mid| ==> !OccursAt(mid + pat + rel, pat, j)
    requires !Contains(rel, pat)
    ensures RemoveAll(pat + mid + pat + rel, pat) == mid + rel
  {
    var tail := mid + pat + rel;
    RemoveAllFirst([], pat, tail);
    assert [] + pat + tail == pat + mid + pat + rel;
    RemoveAllFirst(mid, pat, rel);
    RemoveAllAbsent(rel, pat);
  }

  /** Text that does not start with `pat` keeps its first character. */
  lemma RemoveAllKeepsHead(s: string, pat: string)
    requires pat != [] && s != [] && !OccursAt(s, pat, 0)
    ensures RemoveAll(s, pat) == [s[0]] + RemoveAll(s[1..], pat)
  {
    if |s| >= |pat| {
      assert s[..|pat|] == s[0..|pat|];
    } else {
      RemoveAllAbsent(s[1..], pat);
    }
  }

  /** `ltrim(s, c)`: drops every leading `c`. */
  function TrimStartChar(s: string, c: char): (r: string)
    ensures |r| <= |s| && r == s[|s| - |r|..]
    ensures forall i :: 0 <= i < |s| - |r| ==> s[i] == c
    ensures r == [] || r[0] != c
  {
    if s != [] && s[0] == c then TrimStartChar(s[1..], c) else s
  }
}
