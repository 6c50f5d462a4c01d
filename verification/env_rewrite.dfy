/**
 `preg_replace` of the pattern `KEY=.*` (with a count) and `preg_match` of
 `KEY=(.*)` on `.env` text, as the setup script uses them.

 The pattern is not anchored and `.` does not match a newline, so on every
 `\n`-separated line that contains `KEY=`, the match runs from the first `KEY=`
 to the end of that line; `$count` is the number of such lines. Keys are taken to
 contain no newline.

 PHP interprets the replacement as a template: `$0`, `\0` and `${0}` stand for the
 whole match, other group numbers for the empty string (the pattern has no
 groups), and `\\` and `\$` stand for `\` and `$`. `RewriteKeyPreg` models that;
 `RewriteKey` inserts the replacement literally.
 */
module EnvRewrite {
  import opened Wrappers
  import opened Strings

  // ---------------------------------------------------------------------------
  // One line

  /** The matched text of `KEY=.*` on a line, given as the index where it starts. */
  function MatchStart(line: string, key: string): Option<nat> {
    FirstOccurrence(line, key + "=")
  }

  /**
   A line after replacement: the text before the first `KEY=` followed by the
   replacement computed from the matched text; `matched` says whether there was a match.
   */
  function RewriteLine(line: string, key: string, replace: string -> string): (r: (string, bool))
    ensures r.1 <==> Contains(line, key + "=")
    ensures !r.1 ==> r.0 == line
  {
    match MatchStart(line, key)
    case None => (line, false)
    case Some(i) => (line[..i] + replace(line[i..]), true)
  }

  /** `(.*)` captured by `KEY=(.*)` on a line: what follows the first `KEY=`. */
  function ValueOf(line: string, key: string): (r: Option<string>)
    ensures r.Some? <==> Contains(line, key + "=")
  {
    match MatchStart(line, key)
    case None => None
    case Some(i) => Some(line[i + |key| + 1..])
  }

  /**
   Writing `KEY=value` over the match and reading the key back gives `value`: the
   first `KEY=` of the new line is where the old one was.
   */
  lemma ValueOfRewriteLine(line: string, key: string, value: string)
    requires Contains(line, key + "=")
    ensures ValueOf(RewriteLine(line, key, Literal(key, value)).0, key) == Some(value)
  {
    var pat := key + "=";
    var i := MatchStart(line, key).value;
    var out := line[..i] + pat + value;
    assert RewriteLine(line, key, Literal(key, value)).0 == out;
    Splice(line, i, pat, value);
    forall j: nat | j < i
      ensures !OccursAt(out, pat, j)
    {
      SharedPrefixOccurrence(out, line, i + |pat|, pat, j);
    }
    var k := FirstOccurrence(out, pat);
    assert k.Some? && k.value == i;
  }

  /** Writing `pat + value` over `line` from index `i` on. */
  lemma Splice(line: string, i: nat, pat: string, value: string)
    requires i + |pat| <= |line|
    ensures var out := line[..i] + pat + value;
      && out[..i + |pat|] == line[..i] + pat
      && OccursAt(out, pat, i)
      && out[i + |pat|..] == value
  {
  }

  /** Two texts that agree on their first `n` characters have the same occurrences ending by `n`. */
  lemma SharedPrefixOccurrence(s: string, t: string, n: nat, pat: string, j: nat)
    requires n <= |s| && n <= |t| && s[..n] == t[..n] && j + |pat| <= n
    ensures OccursAt(s, pat, j) == OccursAt(t, pat, j)
  {
    assert s[j..j + |pat|] == s[..n][j..j + |pat|];
    assert t[j..j + |pat|] == t[..n][j..j + |pat|];
  }

  // ---------------------------------------------------------------------------
  // Whole text

  /** Every line rewritten in turn, with the number of lines that matched. */
  function RewriteLines(lines: seq<string>, key: string, replace: string -> string): (r: (seq<string>, nat))
    ensures |r.0| == |lines|
    ensures forall i :: 0 <= i < |lines| ==> r.0[i] == RewriteLine(lines[i], key, replace).0
    ensures r.1 <= |lines|
  {
    if lines == [] then ([], 0)
    else
      var (line, matched) := RewriteLine(lines[0], key, replace);
      var (rest, n) := RewriteLines(lines[1..], key, replace);
      assert forall i :: 1 <= i < |lines| ==> lines[i] == lines[1..][i - 1];
      ([line] + rest, n + if matched then 1 else 0)
  }

  /** The count is positive exactly when some line contains `KEY=`. */
  lemma {:induction false} RewriteLinesCount(lines: seq<string>, key: string, replace: string -> string)
    ensures RewriteLines(lines, key, replace).1 > 0 <==> exists i :: 0 <= i < |lines| && Contains(lines[i], key + "=")
  {
    if lines != [] {
      RewriteLinesCount(lines[1..], key, replace);
      if exists i :: 0 <= i < |lines| && Contains(lines[i], key + "=") {
        var i :| 0 <= i < |lines| && Contains(lines[i], key + "=");
        if i > 0 {
          assert Contains(lines[1..][i - 1], key + "=");
        }
      }
      if exists i :: 0 <= i < |lines[1..]| && Contains(lines[1..][i], key + "=") {
        var i :| 0 <= i < |lines[1..]| && Contains(lines[1..][i], key + "=");
        assert Contains(lines[i + 1], key + "=");
      }
    }
  }

  /** `preg_replace` of `KEY=.*` with the replacement computed from the match, and its count. */
  function RewriteKeyWith(env: string, key: string, replace: string -> string): (r: (string, nat))
    ensures r.1 > 0 <==> HasKey(env, key)
  {
    RewriteLinesCount(Split(env, '\n'), key, replace);
    var (lines, n) := RewriteLines(Split(env, '\n'), key, replace);
    (Join(lines, '\n'), n)
  }

  /** The replacement `KEY=value` taken literally, whatever was matched. */
  function Literal(key: string, value: string): string -> string {
    m => key + "=" + value
  }

  /** `KEY=.*` replaced by `KEY=value`, inserted literally. */
  function RewriteKey(env: string, key: string, value: string): (r: (string, nat))
    ensures r.1 > 0 <==> HasKey(env, key)
  {
    RewriteKeyWith(env, key, Literal(key, value))
  }

  /** Some line of the text contains `KEY=`, so `KEY=.*` matches. */
  predicate HasKey(env: string, key: string) {
    exists i :: 0 <= i < |Split(env, '\n')| && Contains(Split(env, '\n')[i], key + "=")
  }

  /**
   The line structure of a rewrite: the same number of lines, each one rewritten
   on its own (so lines without `KEY=` are unchanged), and a positive count
   exactly when some line contains `KEY=`.
   */
  lemma RewriteKeyLines(env: string, key: string, value: string)
    requires '\n' !in key && '\n' !in value
    ensures
      var lines := Split(env, '\n');
      var out := Split(RewriteKey(env, key, value).0, '\n');
      && |out| == |lines|
      && out == RewriteLines(lines, key, Literal(key, value)).0
      && (forall i :: 0 <= i < |lines| ==> out[i] == RewriteLine(lines[i], key, Literal(key, value)).0)
      && (forall i :: 0 <= i < |lines| && !Contains(lines[i], key + "=") ==> out[i] == lines[i])
      && (RewriteKey(env, key, value).1 > 0 <==> HasKey(env, key))
  {
    var lines := Split(env, '\n');
    var replace := Literal(key, value);
    var rewritten := RewriteLines(lines, key, replace).0;
    forall i | 0 <= i < |rewritten|
      ensures '\n' !in rewritten[i]
    {
      var line := lines[i];
      match MatchStart(line, key)
      case None =>
      case Some(j) =>
        assert rewritten[i] == line[..j] + (key + "=" + value);
        assert '\n' !in line[..j] by {
          assert forall c :: c in line[..j] ==> c in line;
        }
    }
    SplitJoin(rewritten, '\n');
  }

  /** `preg_match('KEY=(.*)', $text, $m)` followed by `$m[1]`: the capture in the first matching line. */
  function FirstValue(env: string, key: string): Option<string> {
    FirstValueOfLines(Split(env, '\n'), key)
  }

  function FirstValueOfLines(lines: seq<string>, key: string): (r: Option<string>)
    ensures r.Some? <==> exists i :: 0 <= i < |lines| && Contains(lines[i], key + "=")
  {
    if lines == [] then None
    else
      match ValueOf(lines[0], key)
      case Some(v) => Some(v)
      case None =>
        assert forall i :: 1 <= i < |lines| ==> lines[i] == lines[1..][i - 1];
        FirstValueOfLines(lines[1..], key)
  }

  lemma {:induction false} FirstValueOfRewrittenLines(lines: seq<string>, key: string, value: string)
    requires exists i :: 0 <= i < |lines| && Contains(lines[i], key + "=")
    ensures FirstValueOfLines(RewriteLines(lines, key, Literal(key, value)).0, key) == Some(value)
  {
    var replace := Literal(key, value);
    var out := RewriteLines(lines, key, replace).0;
    if Contains(lines[0], key + "=") {
      ValueOfRewriteLine(lines[0], key, value);
    } else {
      assert out[0] == lines[0];
      assert exists i :: 0 <= i < |lines[1..]| && Contains(lines[1..][i], key + "=") by {
        var i :| 0 <= i < |lines| && Contains(lines[i], key + "=");
        assert i > 0 && lines[1..][i - 1] == lines[i];
      }
      FirstValueOfRewrittenLines(lines[1..], key, value);
      assert out[1..] == RewriteLines(lines[1..], key, replace).0;
    }
  }

  /**
   Reading a key back after writing it: once `KEY=value` has replaced the matches,
   `preg_match('KEY=(.*)')` captures exactly `value`.
   */
  lemma FirstValueAfterRewrite(env: string, key: string, value: string)
    requires '\n' !in key && '\n' !in value
    requires HasKey(env, key)
    ensures FirstValue(RewriteKey(env, key, value).0, key) == Some(value)
  {
    RewriteKeyLines(env, key, value);
    FirstValueOfRewrittenLines(Split(env, '\n'), key, value);
  }

  /** One differing character rules out an occurrence. */
  lemma MismatchAt(s: string, pat: string, i: nat, j: nat)
    requires j < |pat| && i + j < |s| && s[i + j] != pat[j]
    ensures !OccursAt(s, pat, i)
  {
  }

  /**
   A line whose text before `KEY=` holds no `KEY=` is rewritten from there on,
   whatever comes before: the pattern is not anchored at the start of the line.
   */
  lemma RewriteLineAfterPrefix(prefix: string, key: string, rest: string, replace: string -> string)
    requires forall j: nat :: j < |prefix| ==> !OccursAt(prefix + key + "=" + rest, key + "=", j)
    ensures RewriteLine(prefix + key + "=" + rest, key, replace) == (prefix + replace(key + "=" + rest), true)
  {
    var line := prefix + key + "=" + rest;
    assert line[|prefix|..] == key + "=" + rest;
    assert OccursAt(line, key + "=", |prefix|);
    assert line[..|prefix|] == prefix;
  }

  /**
   `VITE_APP_NAME=` contains `APP_NAME=`, so the unanchored pattern rewrites it
   too, keeping the `VITE_` prefix.
   */
  lemma UnanchoredMatch()
    ensures RewriteLine("VITE_" + "APP_NAME" + "=" + "x", "APP_NAME", m => "APP_NAME=y") == ("VITE_" + "APP_NAME=y", true)
  {
    var line := "VITE_" + "APP_NAME" + "=" + "x";
    var pat := "APP_NAME" + "=";
    forall j: nat | j < 5
      ensures !OccursAt(line, pat, j)
    {
      MismatchAt(line, pat, j, 0);
    }
    RewriteLineAfterPrefix("VITE_", "APP_NAME", "x", m => "APP_NAME=y");
  }

  // ---------------------------------------------------------------------------
  // PHP's replacement templates

  predicate IsDigit(c: char) {
    '0' <= c <= '9'
  }

  function DigitValue(c: char): nat
    requires IsDigit(c)
  {
    c as int - '0' as int
  }

  /**
   A group reference at the start of `t` (`\n`, `$n`, `${n}`, with one or two
   digits): its number and how many characters it spans. A NUL right after the
   sigil ends the template for this purpose, as in PHP's C implementation.
   */
  function Backref(t: string): (r: Option<(nat, nat)>)
    requires |t| >= 1 && (t[0] == '\\' || t[0] == '$')
    ensures r.Some? ==> 2 <= r.value.1 <= |t| && r.value.0 < 100
  {
    if |t| < 2 || t[1] == '\0' then None
    else
      var brace := t[0] == '$' && t[1] == '{';
      var p := if brace then 2 else 1;
      if p >= |t| || !IsDigit(t[p]) then None
      else
        var n := DigitValue(t[p]);
        var two := p + 1 < |t| && IsDigit(t[p + 1]);
        var number := if two then n * 10 + DigitValue(t[p + 1]) else n;
        var q := if two then p + 2 else p + 1;
        if !brace then Some((number, q))
        else if q < |t| && t[q] == '}' then Some((number, q + 1))
        else None
  }

  /**
   The replacement text PHP produces from template `t` for a pattern without
   groups whose match is `whole`. A `\` copied literally and followed by `\` or `$`
   is overwritten by that character.
   */
  function Expand(t: string, whole: string): string
    decreases |t|
  {
    if t == [] then []
    else if (t[0] == '\\' || t[0] == '$') && Backref(t).Some? then
      var (n, len) := Backref(t).value;
      (if n == 0 then whole else []) + Expand(t[len..], whole)
    else if t[0] == '\\' && |t| >= 2 && (t[1] == '\\' || t[1] == '$') then
      [t[1]] + Expand(t[2..], whole)
    else
      [t[0]] + Expand(t[1..], whole)
  }

  /** A template without `\` and `$` expands to itself. */
  lemma {:induction false} ExpandPlain(t: string, whole: string)
    requires '\\' !in t && '$' !in t
    ensures Expand(t, whole) == t
  {
    if t != [] {
      assert '\\' !in t[1..] && '$' !in t[1..] by {
        assert forall c :: c in t[1..] ==> c in t;
      }
      ExpandPlain(t[1..], whole);
    }
  }

  /** `preg_replace` of `KEY=.*` by `'KEY=' . $value` as PHP evaluates it: `value` is a template. */
  function RewriteKeyPreg(env: string, key: string, value: string): (r: (string, nat))
    ensures r.1 > 0 <==> HasKey(env, key)
  {
    RewriteKeyWith(env, key, Template(key, value))
  }

  /** The replacement `KEY=value` read as a template against the matched text. */
  function Template(key: string, value: string): string -> string {
    m => Expand(key + "=" + value, m)
  }

  lemma {:induction false} RewriteLinesAgree(lines: seq<string>, key: string, r1: string -> string, r2: string -> string)
    requires forall m :: r1(m) == r2(m)
    ensures RewriteLines(lines, key, r1) == RewriteLines(lines, key, r2)
  {
    if lines != [] {
      RewriteLinesAgree(lines[1..], key, r1, r2);
    }
  }

  /**
   When neither the key nor the value holds `\` or `$`, PHP's template reading
   and the literal replacement agree.
   */
  lemma RewriteKeyPregAgrees(env: string, key: string, value: string)
    requires '\\' !in key + "=" + value && '$' !in key + "=" + value
    ensures RewriteKeyPreg(env, key, value) == RewriteKey(env, key, value)
  {
    forall m {
      ExpandPlain(key + "=" + value, m);
    }
    RewriteLinesAgree(Split(env, '\n'), key, Template(key, value), Literal(key, value));
  }

  /** A line that starts with `KEY=` is replaced as a whole. */
  lemma RewriteLineAtStart(line: string, key: string, replace: string -> string)
    requires OccursAt(line, key + "=", 0)
    ensures RewriteLine(line, key, replace) == (replace(line), true)
  {
    assert line[..0] + replace(line[0..]) == replace(line);
  }

  /** Text without a newline is one line. */
  lemma RewriteSingleLine(env: string, key: string, replace: string -> string)
    requires '\n' !in env
    ensures RewriteKeyWith(env, key, replace) ==
              (RewriteLine(env, key, replace).0, if RewriteLine(env, key, replace).1 then 1 else 0)
  {
    assert Split(env, '\n') == [env];
    assert [env][1..] == [];
  }

  /** `$0` followed by plain text expands to the match followed by that text. */
  lemma ExpandDollarZero(q: string, whole: string)
    requires '\\' !in q && '$' !in q && (q == [] || !IsDigit(q[0]))
    ensures Expand("$0" + q, whole) == whole + q
  {
    var t := "$0" + q;
    assert t[0] == '$' && t[1] == '0';
    assert Backref(t) == Some((0, 2));
    assert t[2..] == q;
    ExpandPlain(q, whole);
  }

  /** A one-line text starting with `KEY=` becomes `KEY=value` under the literal rewrite. */
  lemma RewriteKeyOneLine(env: string, key: string, value: string)
    requires '\n' !in env && OccursAt(env, key + "=", 0)
    ensures RewriteKey(env, key, value) == (key + "=" + value, 1)
  {
    RewriteSingleLine(env, key, Literal(key, value));
    RewriteLineAtStart(env, key, Literal(key, value));
  }

  /**
   A value of the form `p$0q` written over a one-line text `KEY=...`: PHP
   substitutes the whole matched line for `$0`.
   */
  lemma DollarZeroRewrite(env: string, key: string, p: string, q: string)
    requires '\n' !in env && OccursAt(env, key + "=", 0)
    requires '\\' !in key + "=" + p && '$' !in key + "=" + p
    requires '\\' !in q && '$' !in q && (q == [] || !IsDigit(q[0]))
    ensures RewriteKeyPreg(env, key, p + "$0" + q) == (key + "=" + p + env + q, 1)
  {
    var value := p + "$0" + q;
    RewriteSingleLine(env, key, Template(key, value));
    RewriteLineAtStart(env, key, Template(key, value));
    var plain := key + "=" + p;
    assert key + "=" + value == plain + ("$0" + q);
    ExpandPrefix(plain, "$0" + q, env);
    ExpandDollarZero(q, env);
    assert plain + (env + q) == key + "=" + p + env + q;
  }

  /**
   The project name `$0`, quoted as `"$0"`, written over `APP_NAME=Laravel`:
   the script's `preg_replace` writes `APP_NAME="APP_NAME=Laravel"`, where the
   literal replacement writes `APP_NAME="$0"`.
   */
  lemma DollarZeroCounterexample(env: string)
    requires env == "APP_NAME=Laravel"
    ensures RewriteKeyPreg(env, "APP_NAME", "\"" + "$0" + "\"") == ("APP_NAME" + "=" + "\"" + env + "\"", 1)
    ensures RewriteKey(env, "APP_NAME", "\"" + "$0" + "\"") == ("APP_NAME" + "=" + ("\"" + "$0" + "\""), 1)
  {
    assert env[..9] == "APP_NAME" + "=";
    DollarZeroRewrite(env, "APP_NAME", "\"", "\"");
    RewriteKeyOneLine(env, "APP_NAME", "\"" + "$0" + "\"");
  }

  /**
   A template text that expands to itself: no `$`, and every `\` is directly
   followed by `"` (the escapes a quoted name carries).
   */
  predicate QuoteSafe(p: string)
    decreases |p|
  {
    || p == []
    || (p[0] == '\\' && |p| >= 2 && p[1] == '"' && QuoteSafe(p[2..]))
    || (p[0] != '\\' && p[0] != '$' && QuoteSafe(p[1..]))
  }

  /** `\"` is no group reference and no escape, so a quote-safe template is copied as it stands. */
  lemma {:induction false} ExpandQuoteSafe(p: string, whole: string)
    requires QuoteSafe(p)
    ensures Expand(p, whole) == p
    decreases |p|
  {
    if p != [] {
      if p[0] == '\\' {
        assert Backref(p).None?;
        ExpandQuoteSafe(p[2..], whole);
        assert p[1..][1..] == p[2..];
        assert Expand(p[1..], whole) == [p[1]] + Expand(p[2..], whole);
        assert p == [p[0]] + ([p[1]] + p[2..]);
      } else {
        ExpandQuoteSafe(p[1..], whole);
        assert p == [p[0]] + p[1..];
      }
    }
  }

  /** Text without `\` and `$` is quote-safe. */
  lemma {:induction false} PlainQuoteSafe(p: string)
    requires '\\' !in p && '$' !in p
    ensures QuoteSafe(p)
    decreases |p|
  {
    if p != [] {
      assert '\\' !in p[1..] && '$' !in p[1..] by {
        assert forall c :: c in p[1..] ==> c in p;
      }
      PlainQuoteSafe(p[1..]);
    }
  }

  /** Quote-safe texts stay quote-safe when joined. */
  lemma {:induction false} QuoteSafeAppend(a: string, b: string)
    requires QuoteSafe(a) && QuoteSafe(b)
    ensures QuoteSafe(a + b)
    decreases |a|
  {
    if a == [] {
      assert a + b == b;
    } else if a[0] == '\\' {
      QuoteSafeAppend(a[2..], b);
      assert (a + b)[2..] == a[2..] + b;
    } else {
      QuoteSafeAppend(a[1..], b);
      assert (a + b)[1..] == a[1..] + b;
    }
  }

  /** A plain prefix is copied through ahead of the rest of the template. */
  lemma {:induction false} ExpandPrefix(p: string, t: string, whole: string)
    requires '\\' !in p && '$' !in p
    ensures Expand(p + t, whole) == p + Expand(t, whole)
  {
    if p != [] {
      assert (p + t)[0] == p[0];
      assert p[0] != '\\' && p[0] != '$';
      assert (p + t)[1..] == p[1..] + t;
      assert '\\' !in p[1..] && '$' !in p[1..] by {
        assert forall c :: c in p[1..] ==> c in p;
      }
      ExpandPrefix(p[1..], t, whole);
      assert Expand(p + t, whole) == [p[0]] + Expand(p[1..] + t, whole);
      assert p == [p[0]] + p[1..];
    } else {
      assert p + t == t;
    }
  }

  // ---------------------------------------------------------------------------
  // Reading back through the template rewrite

  /**
   For a key and value without newline, `\` and `$`, `preg_replace` of a present
   key is read back by `preg_match` as the value written.
   */
  lemma PregReadBack(env: string, key: string, value: string)
    requires HasKey(env, key)
    requires '\n' !in key && '\\' !in key && '$' !in key
    requires '\n' !in value && '\\' !in value && '$' !in value
    ensures FirstValue(RewriteKeyPreg(env, key, value).0, key) == Some(value)
  {
    RewriteKeyPregAgrees(env, key, value);
    FirstValueAfterRewrite(env, key, value);
  }

  /**
   Every line holding `second=` comes after every line holding `first=` (so no
   line holds both), as in a `.env` file that sets `first` before `second`.
   */
  predicate KeyLinesPrecede(env: string, first: string, second: string) {
    var lines := Split(env, '\n');
    forall j, k :: 0 <= j <= k < |lines| && Contains(lines[j], second + "=") ==> !Contains(lines[k], first + "=")
  }

  /**
   The line where `key1=value1` was written holds no `key2=`, provided the line
   held none before and `value1` holds none: with the character conditions on
   the two keys (true of `APP_URL` and `MAIL_FROM_ADDRESS`), no occurrence can
   straddle the seams of the rewritten line.
   */
  lemma KeyLineSurvives(line: string, key1: string, value1: string, key2: string, value2: string)
    requires Contains(line, key1 + "=") && !Contains(line, key2 + "=")
    requires |key1| >= 2 && key1[1] !in key2 + "=" && key2 != [] && key2[0] !in key1[1..] + "="
    requires !Contains(value1, key2 + "=")
    ensures var mid := RewriteLine(line, key1, Literal(key1, value1)).0;
      && RewriteLine(mid, key2, Literal(key2, value2)).0 == mid
      && ValueOf(mid, key1) == Some(value1)
  {
    ValueOfRewriteLine(line, key1, value1);
    var i := RewrittenLineSplits(line, key1, value1);
    assert (key1 + "=")[1..] == key1[1..] + "=";
    SeamFree(line, line[..i + 1], key1[1..] + "=", value1, key2 + "=");
  }

  /** The rewritten line is the old line up to the first character of `key1=`, then the rest of `key1=value1`. */
  lemma RewrittenLineSplits(line: string, key1: string, value1: string) returns (i: nat)
    requires Contains(line, key1 + "=") && key1 != []
    ensures i < |line| && RewriteLine(line, key1, Literal(key1, value1)).0 == line[..i + 1] + ((key1 + "=")[1..] + value1)
  {
    i := MatchStart(line, key1).value;
    KeyAtSeam(line, i, key1 + "=", value1);
  }

  /** Writing `pat + value` at an occurrence of `pat` is writing the rest of it after the occurrence's first character. */
  lemma KeyAtSeam(line: string, i: nat, pat: string, value: string)
    requires pat != [] && OccursAt(line, pat, i)
    ensures line[..i] + (pat + value) == line[..i + 1] + (pat[1..] + value)
  {
    assert line[i] == pat[0];
    assert line[..i + 1] == line[..i] + [pat[0]];
    assert pat + value == [pat[0]] + (pat[1..] + value);
  }

  /**
   `pat` cannot occur in `head + (joint + value)` when it occurs in neither the
   line `head` is a prefix of nor `value`, and `joint` starts with a character
   `pat` lacks and lacks the first character of `pat`.
   */
  lemma SeamFree(line: string, head: string, joint: string, value: string, pat: string)
    requires |head| <= |line| && line[..|head|] == head && !Contains(line, pat)
    requires joint != [] && joint[0] !in pat && pat != [] && pat[0] !in joint
    requires !Contains(value, pat)
    ensures !Contains(head + (joint + value), pat)
  {
    if Contains(head + (joint + value), pat) {
      ContainsSplit(head, joint + value, pat);
      if Contains(head, pat) {
        ContainsInPrefix(line, head, pat);
      } else {
        ContainsAfterHead(joint, value, pat);
      }
      assert false;
    }
  }

  /**
   Line by line: after writing `key1=value1` and then `key2=value2`, the first
   `key1=` line still yields `value1` when the `key2` lines all come later.
   */
  lemma {:induction false} FirstValueOfTwiceRewrittenLines(lines: seq<string>, key1: string, value1: string, key2: string, value2: string)
    requires |key1| >= 2 && key1[1] !in key2 + "=" && key2 != [] && key2[0] !in key1[1..] + "="
    requires !Contains(value1, key2 + "=")
    requires exists i :: 0 <= i < |lines| && Contains(lines[i], key1 + "=")
    requires forall j, k :: 0 <= j <= k < |lines| && Contains(lines[j], key2 + "=") ==> !Contains(lines[k], key1 + "=")
    ensures FirstValueOfLines(RewriteLines(RewriteLines(lines, key1, Literal(key1, value1)).0, key2, Literal(key2, value2)).0, key1)
         == Some(value1)
  {
    var r1, r2 := Literal(key1, value1), Literal(key2, value2);
    var out := RewriteLines(RewriteLines(lines, key1, r1).0, key2, r2).0;
    RewriteLinesTwiceCons(lines, key1, r1, key2, r2);
    assert !Contains(lines[0], key2 + "=") by {
      var i :| 0 <= i < |lines| && Contains(lines[i], key1 + "=");
    }
    if Contains(lines[0], key1 + "=") {
      KeyLineSurvives(lines[0], key1, value1, key2, value2);
    } else {
      assert out[0] == lines[0];
      var tail := lines[1..];
      assert exists i :: 0 <= i < |tail| && Contains(tail[i], key1 + "=") by {
        var i :| 0 <= i < |lines| && Contains(lines[i], key1 + "=");
        assert tail[i - 1] == lines[i];
      }
      FirstValueOfTwiceRewrittenLines(tail, key1, value1, key2, value2);
    }
  }

  /** Two line-by-line rewrites, taken apart at the first line. */
  lemma RewriteLinesTwiceCons(lines: seq<string>, key1: string, r1: string -> string, key2: string, r2: string -> string)
    requires lines != []
    ensures var out := RewriteLines(RewriteLines(lines, key1, r1).0, key2, r2).0;
      && out[0] == RewriteLine(RewriteLine(lines[0], key1, r1).0, key2, r2).0
      && out[1..] == RewriteLines(RewriteLines(lines[1..], key1, r1).0, key2, r2).0
  {
    var out := RewriteLines(RewriteLines(lines, key1, r1).0, key2, r2).0;
    var out' := RewriteLines(RewriteLines(lines[1..], key1, r1).0, key2, r2).0;
    forall x | 0 <= x < |out'|
      ensures out[1..][x] == out'[x]
    {
      assert lines[1..][x] == lines[x + 1];
    }
  }

  /**
   After `preg_replace` writes `key1=value1` and then `key2=value2`, reading
   `key1` back still yields `value1`, when every `key2` line comes after every
   `key1` line and `value1` holds no `key2=`.
   */
  lemma PregReadBackBeforeSecond(env: string, key1: string, value1: string, key2: string, value2: string)
    requires HasKey(env, key1) && KeyLinesPrecede(env, key1, key2)
    requires '\n' !in key1 && '\\' !in key1 && '$' !in key1
    requires '\n' !in value1 && '\\' !in value1 && '$' !in value1
    requires '\n' !in key2 && '\\' !in key2 && '$' !in key2
    requires '\n' !in value2 && '\\' !in value2 && '$' !in value2
    requires |key1| >= 2 && key1[1] !in key2 + "=" && key2 != [] && key2[0] !in key1[1..] + "="
    requires !Contains(value1, key2 + "=")
    ensures FirstValue(RewriteKeyPreg(RewriteKeyPreg(env, key1, value1).0, key2, value2).0, key1) == Some(value1)
  {
    RewriteKeyPregAgrees(env, key1, value1);
    var env1 := RewriteKey(env, key1, value1).0;
    RewriteKeyPregAgrees(env1, key2, value2);
    RewriteKeyLines(env, key1, value1);
    RewriteKeyLines(env1, key2, value2);
    FirstValueOfTwiceRewrittenLines(Split(env, '\n'), key1, value1, key2, value2);
  }

  /**
   After `preg_replace` writes `key1=value1` and then `key2=value2`, reading
   `key2` back yields `value2`, when some line holds `key2=` and no `key1=`.
   */
  lemma PregReadBackSecond(env: string, key1: string, value1: string, key2: string, value2: string)
    requires exists j :: 0 <= j < |Split(env, '\n')| && Contains(Split(env, '\n')[j], key2 + "=")
                                                  && !Contains(Split(env, '\n')[j], key1 + "=")
    requires '\n' !in key1 && '\\' !in key1 && '$' !in key1
    requires '\n' !in value1 && '\\' !in value1 && '$' !in value1
    requires '\n' !in key2 && '\\' !in key2 && '$' !in key2
    requires '\n' !in value2 && '\\' !in value2 && '$' !in value2
    ensures FirstValue(RewriteKeyPreg(RewriteKeyPreg(env, key1, value1).0, key2, value2).0, key2) == Some(value2)
  {
    RewriteKeyPregAgrees(env, key1, value1);
    var env1 := RewriteKey(env, key1, value1).0;
    RewriteKeyLines(env, key1, value1);
    assert HasKey(env1, key2) by {
      var j :| 0 <= j < |Split(env, '\n')| && Contains(Split(env, '\n')[j], key2 + "=")
                                         && !Contains(Split(env, '\n')[j], key1 + "=");
      assert Split(env1, '\n')[j] == Split(env, '\n')[j];
    }
    PregReadBack(env1, key2, value2);
  }
}
