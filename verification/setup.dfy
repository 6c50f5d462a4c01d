/**
 The one-shot project setup script: a fixed list of steps, each taking and
 returning the pair (`.env` text, whether it was updated), run in order from
 `('', false)`.

 The outside world is an input: `Host` holds the folder name, what the
 filesystem and `parse_url` answer, and standard input is a list of lines.
 Commands the script runs are recorded as effects; their output is not modelled.
 */
module Setup {
  import opened Wrappers
  import opened Strings
  import Php
  import EnvRewrite

  // ---------------------------------------------------------------------------
  // Default application name: formatAppName

  /** The characters `ucwords` treats as word delimiters by default. */
  predicate IsWordDelimiter(c: char) {
    c == ' ' || c == '\t' || c == '\r' || c == '\n' || c == '\U{000C}' || c == '\U{000B}'
  }

  /** A character after which `formatAppName` starts a new word. */
  predicate IsNameSeparator(c: char) {
    c == '-' || c == '_' || IsWordDelimiter(c)
  }

  /** `ucwords` from a position where a word starts (or not), scanning left to right. */
  function UcwordsFrom(s: string, atWordStart: bool): (r: string)
    ensures |r| == |s|
    ensures s != [] ==> r[0] == if atWordStart then ToUpper(s[0]) else s[0]
    ensures forall i :: 0 < i < |s| ==> r[i] == if IsWordDelimiter(s[i - 1]) then ToUpper(s[i]) else s[i]
  {
    if s == [] then []
    else [if atWordStart then ToUpper(s[0]) else s[0]] + UcwordsFrom(s[1..], IsWordDelimiter(s[0]))
  }

  /** `ucwords`: upper-cases the first character and every character after a delimiter. */
  function Ucwords(s: string): (r: string)
    ensures |r| == |s|
    ensures forall i :: 0 <= i < |s| ==>
              r[i] == if i == 0 || IsWordDelimiter(s[i - 1]) then ToUpper(s[i]) else s[i]
  {
    UcwordsFrom(s, true)
  }

  /** `str_replace(['-', '_'], ' ', ...)` on one character. */
  function Spaced(c: char): char {
    if c == '-' || c == '_' then ' ' else c
  }

  /**
   `formatAppName`: dashes and underscores become spaces, then each word is
   capitalised. Stated on the folder name itself: a character opening a word
   (the first, or one after a dash, underscore or blank) is upper-cased, every
   other one is kept, and dashes and underscores are spaces either way.
   */
  function FormatAppName(folder: string): (r: string)
    ensures |r| == |folder|
    ensures forall i :: 0 <= i < |folder| ==>
              r[i] == if i == 0 || IsNameSeparator(folder[i - 1]) then ToUpper(Spaced(folder[i])) else Spaced(folder[i])
  {
    var spaced := ReplaceChar(ReplaceChar(folder, '-', ' '), '_', ' ');
    assert forall i :: 0 <= i < |folder| ==> spaced[i] == Spaced(folder[i]);
    assert forall i :: 0 <= i < |folder| ==> (IsWordDelimiter(spaced[i]) <==> IsNameSeparator(folder[i]));
    Ucwords(spaced)
  }

  /** Upper-casing and spacing neither create nor remove a separator, and both settle after one application. */
  lemma SeparatorFacts(c: char)
    ensures IsNameSeparator(Spaced(c)) <==> IsNameSeparator(c)
    ensures IsNameSeparator(ToUpper(c)) <==> IsNameSeparator(c)
    ensures ToUpper(ToUpper(c)) == ToUpper(c)
    ensures Spaced(ToUpper(c)) == ToUpper(c) <==> Spaced(c) == c
    ensures Spaced(c) != '-' && Spaced(c) != '_'
    ensures ToUpper(c) == '-' ==> c == '-'
    ensures ToUpper(c) == '_' ==> c == '_'
  {
  }

  /** A formatted name holds no dash and no underscore. */
  lemma FormatAppNameNoDashes(folder: string)
    ensures '-' !in FormatAppName(folder) && '_' !in FormatAppName(folder)
  {
    var r := FormatAppName(folder);
    forall i | 0 <= i < |r|
      ensures r[i] != '-' && r[i] != '_'
    {
      var c := Spaced(folder[i]);
      assert r[i] == if i == 0 || IsNameSeparator(folder[i - 1]) then ToUpper(c) else c;
      SeparatorFacts(c);
    }
  }

  /** Formatting an already formatted name changes nothing. */
  lemma FormatAppNameIdempotent(folder: string)
    ensures FormatAppName(FormatAppName(folder)) == FormatAppName(folder)
  {
    var y := FormatAppName(folder);
    var z := FormatAppName(y);
    forall i | 0 <= i < |y|
      ensures z[i] == y[i]
    {
      SeparatorFacts(folder[i]);
      SeparatorFacts(Spaced(folder[i]));
      if i > 0 {
        SeparatorFacts(folder[i - 1]);
        SeparatorFacts(Spaced(folder[i - 1]));
        var p := folder[i - 1];
        if i - 1 == 0 || IsNameSeparator(folder[i - 2]) {
          assert y[i - 1] == ToUpper(Spaced(p));
        } else {
          assert y[i - 1] == Spaced(p);
        }
        assert IsNameSeparator(y[i - 1]) <==> IsNameSeparator(p);
      }
    }
  }

  // ---------------------------------------------------------------------------
  // Answers

  /** `fgets(STDIN)`: the next line, or `false` at the end of input, which `trim` turns into `''`. */
  function ReadLine(stdin: seq<string>): (r: (string, seq<string>))
    ensures stdin == [] ==> r == ("", [])
    ensures stdin != [] ==> r == (stdin[0], stdin[1..])
  {
    if stdin == [] then ("", []) else (stdin[0], stdin[1..])
  }

  /** The trimmed answer, or the default when PHP's `empty` holds of it. */
  function AnswerOr(line: string, default: string): string {
    var answer := Trim(line);
    if Php.EmptyString(answer) then default else answer
  }

  /** The default project name, URL and database name, all derived from the folder name. */
  function DefaultAppName(folder: string): string { FormatAppName(folder) }
  function DefaultUrl(folder: string): string { "https://" + folder + ".test" }
  function DefaultDbName(folder: string): string { folder }

  /** A blank answer, or one that trims to `0`, selects the default. */
  lemma BlankAnswerUsesDefault(line: string, default: string)
    requires (forall i :: 0 <= i < |line| ==> IsTrimChar(line[i])) || Trim(line) == "0"
    ensures AnswerOr(line, default) == default
  {
    var t := TrimStart(line);
    if t != [] {
      assert t[0] == line[|line| - |t|];
    }
  }

  /** Any other answer is used as typed, without surrounding blanks. */
  lemma OtherAnswerUsed(line: string, default: string)
    requires !Php.EmptyString(Trim(line))
    ensures AnswerOr(line, default) == Trim(line)
    ensures AnswerOr(line, default) != [] && !IsTrimChar(AnswerOr(line, default)[0])
  {
  }

  // ---------------------------------------------------------------------------
  // Quoting the project name

  /** What `EscapeQuotes` writes for one character. */
  function EscapeHead(c: char): string {
    if c == '"' then "\\\"" else [c]
  }

  /** `str_replace('"', '\"', s)`. */
  function EscapeQuotes(s: string): (r: string)
    ensures forall i :: 0 <= i < |r| && r[i] == '"' ==> i > 0 && r[i - 1] == '\\'
    ensures forall c :: c in r ==> c in s || c == '\\'
  {
    if s == [] then []
    else
      var rest := EscapeQuotes(s[1..]);
      var head := EscapeHead(s[0]);
      assert forall i :: |head| <= i < |head| + |rest| ==> (head + rest)[i] == rest[i - |head|];
      head + rest
  }

  /** The reading that undoes `EscapeQuotes`: each `\"` stands for `"`. */
  function UnescapeQuotes(s: string): string
  {
    if s == [] then []
    else if |s| >= 2 && s[0] == '\\' && s[1] == '"' then "\"" + UnescapeQuotes(s[2..])
    else [s[0]] + UnescapeQuotes(s[1..])
  }

  /** Escaping loses nothing: the name is recovered from its escaped form. */
  lemma {:induction false} UnescapeEscape(s: string)
    ensures UnescapeQuotes(EscapeQuotes(s)) == s
  {
    if s != [] {
      var rest := EscapeQuotes(s[1..]);
      UnescapeEscape(s[1..]);
      if s[0] == '"' {
        assert EscapeQuotes(s) == "\\\"" + rest;
        assert ("\\\"" + rest)[2..] == rest;
      } else {
        assert EscapeQuotes(s) == [s[0]] + rest;
        assert ([s[0]] + rest)[1..] == rest;
        if s[0] == '\\' && rest != [] {
          // an escaped text never starts with a bare quote
          assert rest[0] != '"';
        }
      }
      assert s == [s[0]] + s[1..];
    }
  }

  /** The value written for `APP_NAME`: the escaped name between double quotes. */
  function QuoteName(name: string): (r: string)
    ensures |r| >= 2 && r[0] == '"' && r[|r| - 1] == '"'
    ensures UnescapeQuotes(r[1..|r| - 1]) == name
  {
    UnescapeEscape(name);
    var r := "\"" + EscapeQuotes(name) + "\"";
    assert r[1..|r| - 1] == EscapeQuotes(name);
    r
  }

  /**
   An escaped name without `$` and `\` is inert as a replacement template: its
   only `\`s are the ones escaping a `"`.
   */
  lemma {:induction false} EscapedIsQuoteSafe(s: string)
    requires '\\' !in s && '$' !in s
    ensures EnvRewrite.QuoteSafe(EscapeQuotes(s))
  {
    if s != [] {
      EscapeQuotesCons(s);
      assert '\\' !in s[1..] && '$' !in s[1..] by {
        assert forall c :: c in s[1..] ==> c in s;
      }
      EscapedIsQuoteSafe(s[1..]);
      var e := EscapeQuotes(s[1..]);
      var r := EscapeHead(s[0]) + e;
      if s[0] == '"' {
        assert r[0] == '\\' && r[1] == '"' && r[2..] == e;
      } else {
        assert r[0] == s[0] && r[1..] == e;
      }
    }
  }

  /** `EscapeQuotes` works character by character. */
  lemma EscapeQuotesCons(s: string)
    requires s != []
    ensures EscapeQuotes(s) == EscapeHead(s[0]) + EscapeQuotes(s[1..])
  {
  }

  /** A quoted name without `$` and `\` is quote-safe: its only `\`s escape a `"`. */
  lemma QuoteNameQuoteSafe(name: string)
    requires '\\' !in name && '$' !in name
    ensures EnvRewrite.QuoteSafe(QuoteName(name))
  {
    var quote := "\"";
    EnvRewrite.PlainQuoteSafe(quote);
    EscapedIsQuoteSafe(name);
    EnvRewrite.QuoteSafeAppend(quote, EscapeQuotes(name));
    EnvRewrite.QuoteSafeAppend(quote + EscapeQuotes(name), quote);
  }

  /**
   For a name without `$` and `\`, the script's `preg_replace` of `KEY=.*` by
   `KEY="name"` writes the quoted name literally, as the literal rewrite does.
   */
  lemma QuotedRewriteIsLiteral(env: string, key: string, name: string)
    requires '\\' !in key && '$' !in key
    requires '\\' !in name && '$' !in name
    ensures EnvRewrite.RewriteKeyPreg(env, key, QuoteName(name)) == EnvRewrite.RewriteKey(env, key, QuoteName(name))
  {
    var q := QuoteName(name);
    var pre := key + "=";
    assert '\\' !in pre && '$' !in pre;
    EnvRewrite.PlainQuoteSafe(pre);
    QuoteNameQuoteSafe(name);
    EnvRewrite.QuoteSafeAppend(pre, q);
    forall m {
      EnvRewrite.ExpandQuoteSafe(pre + q, m);
    }
    EnvRewrite.RewriteLinesAgree(Split(env, '\n'), key, EnvRewrite.Template(key, q), EnvRewrite.Literal(key, q));
  }

  // ---------------------------------------------------------------------------
  // The steps

  datatype Step =
    | CopyEnvFile
    | UpdateAppName
    | UpdateAppUrl
    | UpdateDbName
    | GenerateAppKey
    | InstallComposerDependencies
    | InstallNpmDependencies
    | SetupWhiskey
    | RunMigrations
    | SecureHerd
    | AskDeleteScript
    | OpenInBrowser
    | StartNpmDev

  /** The step list, in the order the script runs it. */
  const SetupSteps: seq<Step> := [
    CopyEnvFile, UpdateAppName, UpdateAppUrl, UpdateDbName, GenerateAppKey,
    InstallComposerDependencies, InstallNpmDependencies, SetupWhiskey, RunMigrations,
    SecureHerd, AskDeleteScript, OpenInBrowser, StartNpmDev
  ]

  /** The pair every step receives and returns. */
  datatype SetupState = SetupState(envContent: string, updated: bool)

  const InitialState := SetupState("", false)

  /** What the script observes of its environment. */
  datatype Host = Host(
    folder: string,                     // basename(getcwd())
    envExampleExists: bool,
    envExists: bool,
    copySucceeds: bool,
    envFile: string,                    // what file_get_contents('.env') returns once the copy step has run
    hostOf: string -> Option<string>,   // parse_url($url, PHP_URL_HOST)
    canWriteEnv: bool)

  /** Observable actions of the script. */
  datatype Effect =
    | CreatedEnv                  // copy('.env.example', '.env')
    | SavedEnv(content: string)   // file_put_contents('.env', ...)
    | RanCommand(command: string) // exec / passthru
    | DeletedScript               // unlink(__FILE__)
    | ScheduledBrowser(url: string)

  /** The script between steps: the threaded pair, unread input, effects so far, and whether it has exited. */
  datatype Machine = Machine(state: SetupState, stdin: seq<string>, effects: seq<Effect>, exited: bool)

  /**
   `updateAppName` on the pair, given the answer line. As in the script, the
   quoted name goes into `preg_replace`'s replacement unescaped, so it is read as
   a template (see `AppNameDollarZero`).
   */
  function AppNameStep(st: SetupState, line: string, folder: string): (r: SetupState)
    ensures r.updated <==> st.updated || EnvRewrite.HasKey(st.envContent, "APP_NAME")
  {
    var name := QuoteName(AnswerOr(line, DefaultAppName(folder)));
    var (env, count) := EnvRewrite.RewriteKeyPreg(st.envContent, "APP_NAME", name);
    SetupState(env, st.updated || count > 0)
  }

  /**
   `updateAppUrl`: `APP_URL`, then `MAIL_FROM_ADDRESS` when the URL has a
   non-empty host; both replacements are templates, as in the script.
   */
  function AppUrlStep(st: SetupState, line: string, folder: string, hostOf: string -> Option<string>): (r: SetupState)
    ensures r.updated <==>
              || st.updated
              || EnvRewrite.HasKey(st.envContent, "APP_URL")
              || (MailHost(AnswerOr(line, DefaultUrl(folder)), hostOf).Some?
                  && EnvRewrite.HasKey(EnvRewrite.RewriteKeyPreg(st.envContent, "APP_URL", AnswerOr(line, DefaultUrl(folder))).0,
                                       "MAIL_FROM_ADDRESS"))
  {
    var url := AnswerOr(line, DefaultUrl(folder));
    var (env1, count1) := EnvRewrite.RewriteKeyPreg(st.envContent, "APP_URL", url);
    var updated1 := st.updated || count1 > 0;
    match MailHost(url, hostOf)
    case None => SetupState(env1, updated1)
    case Some(domain) =>
      var (env2, count2) := EnvRewrite.RewriteKeyPreg(env1, "MAIL_FROM_ADDRESS", "app@" + domain);
      SetupState(env2, updated1 || count2 > 0)
  }

  /** The host of the URL when it converts to `true` (`if ($domain)`). */
  function MailHost(url: string, hostOf: string -> Option<string>): (r: Option<string>)
    ensures r.Some? ==> hostOf(url) == r && !Php.EmptyString(r.value)
    ensures r.None? ==> hostOf(url).None? || Php.EmptyString(hostOf(url).value)
  {
    match hostOf(url)
    case Some(h) => if Php.EmptyString(h) then None else Some(h)
    case None => None
  }

  /** The `DB_DATABASE` rewrite of `updateDbName`, before the save; the replacement is a template, as in the script. */
  function DbNameStep(st: SetupState, line: string, folder: string): (r: SetupState)
    ensures r.updated <==> st.updated || EnvRewrite.HasKey(st.envContent, "DB_DATABASE")
  {
    var db := AnswerOr(line, DefaultDbName(folder));
    var (env, count) := EnvRewrite.RewriteKeyPreg(st.envContent, "DB_DATABASE", db);
    SetupState(env, st.updated || count > 0)
  }

  /**
   `askDeleteScript`'s answer rule: the lower-cased, trimmed answer, `y` when
   empty, deletes on `y` or `yes`.
   */
  function ShouldDelete(line: string): (b: bool)
    ensures b <==> LowerAll(Trim(line)) in ["", "0", "y", "yes"]
  {
    var answer := LowerAll(Trim(line));
    DeleteAnswerRule(answer);
    var answer' := if Php.EmptyString(answer) then "y" else answer;
    answer' == "y" || answer' == "yes"
  }

  /** An empty answer becomes `y`, so the accepted answers are `""`, `"0"`, `y` and `yes`. */
  lemma DeleteAnswerRule(answer: string)
    ensures var answer' := if Php.EmptyString(answer) then "y" else answer;
      (answer' == "y" || answer' == "yes") <==> answer in ["", "0", "y", "yes"]
  {
  }

  /** Saving `.env`: `file_put_contents` converts to `true` only when it wrote at least one byte. */
  function Save(m: Machine, host: Host): (m': Machine)
    ensures m'.state == m.state && m'.stdin == m.stdin
    ensures m'.exited <==> m.exited || !(host.canWriteEnv && |m.state.envContent| > 0)
  {
    var written := if host.canWriteEnv then [SavedEnv(m.state.envContent)] else [];
    Emit(m, written).(exited := m.exited || !(host.canWriteEnv && |m.state.envContent| > 0))
  }

  /** Records further effects after the ones so far. */
  function Emit(m: Machine, added: seq<Effect>): (m': Machine)
    ensures m'.state == m.state && m'.stdin == m.stdin && m'.exited == m.exited
    ensures |m.effects| <= |m'.effects| && m'.effects[..|m.effects|] == m.effects
    ensures m'.effects[|m.effects|..] == added
  {
    m.(effects := m.effects + added)
  }

  /** The command a step runs, for the steps that only run one. */
  function CommandOf(step: Step): Option<string> {
    match step
    case GenerateAppKey => Some("php artisan key:generate")
    case InstallComposerDependencies => Some("composer install")
    case InstallNpmDependencies => Some("npm install")
    case SetupWhiskey => Some("./vendor/bin/whisky install -n")
    case RunMigrations => Some("php artisan migrate --force")
    case SecureHerd => Some("herd secure")
    case StartNpmDev => Some("npm run dev")
    case _ => None
  }

  /** One step. Effects are only appended, and `updated` is never reset. */
  function RunStep(step: Step, host: Host, m: Machine): (m': Machine)
    requires !m.exited
    ensures |m.effects| <= |m'.effects| && m'.effects[..|m.effects|] == m.effects
    ensures m.state.updated ==> m'.state.updated
  {
    var st := m.state;
    match step
    case CopyEnvFile =>
      if !host.envExampleExists then m.(exited := true)
      else if !host.envExists && !host.copySucceeds then m.(exited := true)
      else
        var created := if host.envExists then [] else [CreatedEnv];
        Emit(m, created).(state := SetupState(host.envFile, st.updated))
    case UpdateAppName =>
      var (line, rest) := ReadLine(m.stdin);
      m.(state := AppNameStep(st, line, host.folder), stdin := rest)
    case UpdateAppUrl =>
      var (line, rest) := ReadLine(m.stdin);
      m.(state := AppUrlStep(st, line, host.folder, host.hostOf), stdin := rest)
    case UpdateDbName =>
      var (line, rest) := ReadLine(m.stdin);
      var next := m.(state := DbNameStep(st, line, host.folder), stdin := rest);
      if next.state.updated then Save(next, host) else next
    case AskDeleteScript =>
      var (line, rest) := ReadLine(m.stdin);
      Emit(m, if ShouldDelete(line) then [DeletedScript] else []).(stdin := rest)
    case OpenInBrowser =>
      (match EnvRewrite.FirstValue(st.envContent, "APP_URL")
       case Some(v) => Emit(m, [ScheduledBrowser(Trim(v))])
       case None => m)
    case _ =>
      Emit(m, [RanCommand(CommandOf(step).value)])
  }

  /** `runSetup`: the steps in list order, each receiving what the previous returned; `exit` ends the run. */
  function Run(steps: seq<Step>, host: Host, m: Machine): Machine
  {
    if steps == [] || m.exited then m
    else Run(steps[1..], host, RunStep(steps[0], host, m))
  }

  /** The whole script on the given input lines. */
  function RunSetup(host: Host, stdin: seq<string>): Machine {
    Run(SetupSteps, host, Machine(InitialState, stdin, [], false))
  }

  // ---------------------------------------------------------------------------
  // Properties of the run

  /** Running two step lists in sequence is running their concatenation. */
  lemma {:induction false} RunAppend(a: seq<Step>, b: seq<Step>, host: Host, m: Machine)
    ensures Run(a + b, host, m) == Run(b, host, Run(a, host, m))
  {
    if a == [] {
      assert a + b == b;
    } else if !m.exited {
      assert (a + b)[0] == a[0];
      assert (a + b)[1..] == a[1..] + b;
      RunAppend(a[1..], b, host, RunStep(a[0], host, m));
    } else {
      if b != [] {
        assert (a + b) != [];
      }
    }
  }

  /** Effects are only ever appended, and after an exit nothing more happens. */
  lemma {:induction false} RunExtends(steps: seq<Step>, host: Host, m: Machine)
    ensures var m' := Run(steps, host, m);
      && |m.effects| <= |m'.effects| && m'.effects[..|m.effects|] == m.effects
      && (m.exited ==> m' == m)
  {
    if steps != [] && !m.exited {
      var n := RunStep(steps[0], host, m);
      RunExtends(steps[1..], host, n);
      var m' := Run(steps[1..], host, n);
      assert m'.effects[..|m.effects|] == m'.effects[..|n.effects|][..|m.effects|];
    }
  }

  /** Once `updated` is true it stays true for the rest of the run. */
  lemma {:induction false} UpdatedNeverReset(steps: seq<Step>, host: Host, m: Machine)
    requires m.state.updated
    ensures Run(steps, host, m).state.updated
  {
    if steps != [] && !m.exited {
      UpdatedNeverReset(steps[1..], host, RunStep(steps[0], host, m));
    }
  }

  /**
   `updateDbName` writes `.env` exactly when the pair it returns says `updated`,
   and it writes that pair's text; only a failed or empty write exits.
   */
  lemma DbNameSavesIffUpdated(host: Host, m: Machine)
    requires !m.exited
    ensures
      var m' := RunStep(UpdateDbName, host, m);
      && (m'.effects != m.effects <==> m'.state.updated && host.canWriteEnv)
      && (m'.effects != m.effects ==> m'.effects == m.effects + [SavedEnv(m'.state.envContent)])
      && (m'.exited <==> m'.state.updated && !(host.canWriteEnv && |m'.state.envContent| > 0))
  {
    var m' := RunStep(UpdateDbName, host, m);
    if m'.state.updated && host.canWriteEnv {
      assert |m'.effects| == |m.effects| + 1;
    }
  }

  /** No other step writes `.env`. */
  lemma OnlyDbNameSaves(step: Step, host: Host, m: Machine)
    requires !m.exited && step != UpdateDbName
    ensures forall e :: e in RunStep(step, host, m).effects && e !in m.effects ==> !e.SavedEnv?
  {
  }

  /**
   The delete step consumes one answer, leaves the pair untouched, and records
   the deletion exactly when the answer rule says so.
   */
  lemma DeleteIffAnswerYes(host: Host, m: Machine)
    requires !m.exited
    ensures
      var m' := RunStep(AskDeleteScript, host, m);
      && m'.state == m.state && m'.stdin == ReadLine(m.stdin).1 && !m'.exited
      && (|m'.effects| > |m.effects| <==> ShouldDelete(ReadLine(m.stdin).0))
      && (|m'.effects| > |m.effects| ==> m'.effects == m.effects + [DeletedScript])
      && (|m'.effects| <= |m.effects| ==> m'.effects == m.effects)
  {
  }

  /**
   A quoted name written over `KEY=.*` reads back from the first `KEY=` line,
   provided neither the key nor the name holds a newline, `$` or `\`.
   */
  lemma QuotedReadBack(env: string, key: string, name: string)
    requires EnvRewrite.HasKey(env, key)
    requires '\n' !in key && '\\' !in key && '$' !in key
    requires '\n' !in name && '\\' !in name && '$' !in name
    ensures EnvRewrite.FirstValue(EnvRewrite.RewriteKeyPreg(env, key, QuoteName(name)).0, key) == Some(QuoteName(name))
  {
    QuotedRewriteIsLiteral(env, key, name);
    assert '\n' !in EscapeQuotes(name);
    assert '\n' !in QuoteName(name);
    EnvRewrite.FirstValueAfterRewrite(env, key, QuoteName(name));
  }

  /**
   The written project name reads back, quoted, from the first `APP_NAME=` line,
   provided the name holds no newline, no `$` and no `\` (which the template
   reading would interpret).
   */
  lemma AppNameReadBack(st: SetupState, line: string, folder: string)
    requires EnvRewrite.HasKey(st.envContent, "APP_NAME")
    requires '\n' !in AnswerOr(line, DefaultAppName(folder))
    requires '$' !in AnswerOr(line, DefaultAppName(folder)) && '\\' !in AnswerOr(line, DefaultAppName(folder))
    ensures EnvRewrite.FirstValue(AppNameStep(st, line, folder).envContent, "APP_NAME")
         == Some(QuoteName(AnswerOr(line, DefaultAppName(folder))))
  {
    var key := "APP_NAME";
    assert '\n' !in key && '\\' !in key && '$' !in key;
    QuotedReadBack(st.envContent, key, AnswerOr(line, DefaultAppName(folder)));
  }

  /**
   The URL step writes the answer, or the default URL, to the first `APP_URL=`
   line, for a URL without newline, `$` or `\`. When the URL has a truthy host
   and `MAIL_FROM_ADDRESS` is rewritten after it, the value survives provided the
   host holds none of those characters either, the URL holds no
   `MAIL_FROM_ADDRESS=`, and the `MAIL_FROM_ADDRESS` lines come after the
   `APP_URL` lines.
   */
  lemma AppUrlReadBack(st: SetupState, line: string, folder: string, hostOf: string -> Option<string>)
    requires EnvRewrite.HasKey(st.envContent, "APP_URL")
    requires '\n' !in AnswerOr(line, DefaultUrl(folder))
    requires '$' !in AnswerOr(line, DefaultUrl(folder)) && '\\' !in AnswerOr(line, DefaultUrl(folder))
    requires MailHost(AnswerOr(line, DefaultUrl(folder)), hostOf).Some? ==>
               && '\n' !in MailHost(AnswerOr(line, DefaultUrl(folder)), hostOf).value
               && '$' !in MailHost(AnswerOr(line, DefaultUrl(folder)), hostOf).value
               && '\\' !in MailHost(AnswerOr(line, DefaultUrl(folder)), hostOf).value
               && !Contains(AnswerOr(line, DefaultUrl(folder)), "MAIL_FROM_ADDRESS" + "=")
               && EnvRewrite.KeyLinesPrecede(st.envContent, "APP_URL", "MAIL_FROM_ADDRESS")
    ensures EnvRewrite.FirstValue(AppUrlStep(st, line, folder, hostOf).envContent, "APP_URL")
         == Some(AnswerOr(line, DefaultUrl(folder)))
  {
    var url := AnswerOr(line, DefaultUrl(folder));
    UrlKeys();
    match MailHost(url, hostOf)
    case None =>
      EnvRewrite.PregReadBack(st.envContent, "APP_URL", url);
    case Some(h) =>
      EnvRewrite.PregReadBackBeforeSecond(st.envContent, "APP_URL", url, "MAIL_FROM_ADDRESS", "app@" + h);
  }

  /** The two keys of the URL step meet the conditions of the read-back lemmas. */
  lemma UrlKeys()
    ensures '\n' !in "APP_URL" && '\\' !in "APP_URL" && '$' !in "APP_URL"
    ensures '\n' !in "MAIL_FROM_ADDRESS" && '\\' !in "MAIL_FROM_ADDRESS" && '$' !in "MAIL_FROM_ADDRESS"
    ensures '\n' !in "app@" && '\\' !in "app@" && '$' !in "app@"
    ensures |"APP_URL"| >= 2 && "APP_URL"[1] !in "MAIL_FROM_ADDRESS" + "="
    ensures "MAIL_FROM_ADDRESS" != [] && "MAIL_FROM_ADDRESS"[0] !in "APP_URL"[1..] + "="
  {
    assert "APP_URL"[1..] + "=" == "PP_URL=";
    assert "MAIL_FROM_ADDRESS" + "=" == "MAIL_FROM_ADDRESS=";
  }

  /**
   When the URL has a truthy host `h`, the URL step writes `app@h` to the first
   `MAIL_FROM_ADDRESS=` line, provided some line holds `MAIL_FROM_ADDRESS=` and
   not `APP_URL=`, and neither the URL nor the host holds a newline, `$` or `\`.
   */
  lemma MailFromReadBack(st: SetupState, line: string, folder: string, hostOf: string -> Option<string>)
    requires MailHost(AnswerOr(line, DefaultUrl(folder)), hostOf).Some?
    requires exists j :: 0 <= j < |Split(st.envContent, '\n')|
                      && Contains(Split(st.envContent, '\n')[j], "MAIL_FROM_ADDRESS" + "=")
                      && !Contains(Split(st.envContent, '\n')[j], "APP_URL" + "=")
    requires '\n' !in AnswerOr(line, DefaultUrl(folder))
    requires '$' !in AnswerOr(line, DefaultUrl(folder)) && '\\' !in AnswerOr(line, DefaultUrl(folder))
    requires '\n' !in MailHost(AnswerOr(line, DefaultUrl(folder)), hostOf).value
    requires '$' !in MailHost(AnswerOr(line, DefaultUrl(folder)), hostOf).value
    requires '\\' !in MailHost(AnswerOr(line, DefaultUrl(folder)), hostOf).value
    ensures EnvRewrite.FirstValue(AppUrlStep(st, line, folder, hostOf).envContent, "MAIL_FROM_ADDRESS")
         == Some("app@" + MailHost(AnswerOr(line, DefaultUrl(folder)), hostOf).value)
  {
    var url := AnswerOr(line, DefaultUrl(folder));
    var h := MailHost(url, hostOf).value;
    UrlKeys();
    EnvRewrite.PregReadBackSecond(st.envContent, "APP_URL", url, "MAIL_FROM_ADDRESS", "app@" + h);
  }

  /**
   The database step writes the answer, or the folder name, to the first
   `DB_DATABASE=` line, for a name without newline, `$` or `\`.
   */
  lemma DbNameReadBack(st: SetupState, line: string, folder: string)
    requires EnvRewrite.HasKey(st.envContent, "DB_DATABASE")
    requires '\n' !in AnswerOr(line, DefaultDbName(folder))
    requires '$' !in AnswerOr(line, DefaultDbName(folder)) && '\\' !in AnswerOr(line, DefaultDbName(folder))
    ensures EnvRewrite.FirstValue(DbNameStep(st, line, folder).envContent, "DB_DATABASE")
         == Some(AnswerOr(line, DefaultDbName(folder)))
  {
    var key := "DB_DATABASE";
    assert '\n' !in key && '\\' !in key && '$' !in key;
    EnvRewrite.PregReadBack(st.envContent, key, AnswerOr(line, DefaultDbName(folder)));
  }

  /** A name without `"` is quoted as it stands. */
  lemma {:induction false} EscapeQuotesNoQuote(s: string)
    requires '"' !in s
    ensures EscapeQuotes(s) == s
  {
    if s != [] {
      assert '"' !in s[1..] by {
        assert forall c :: c in s[1..] ==> c in s;
      }
      EscapeQuotesNoQuote(s[1..]);
      assert s == [s[0]] + s[1..];
    }
  }

  /**
   The project name `$0` typed over the `.env` text `APP_NAME=Laravel`: the step
   writes the old line back inside the quotes, not the name.
   */
  lemma AppNameDollarZero(st: SetupState, line: string, folder: string)
    requires st.envContent == "APP_NAME=Laravel" && line == "$0"
    ensures AppNameStep(st, line, folder).envContent == "APP_NAME" + "=" + "\"" + st.envContent + "\""
    ensures AppNameStep(st, line, folder).updated
  {
    assert line[0] == '$' && line[1] == '0' && |line| == 2;
    assert !IsTrimChar(line[0]) && !IsTrimChar(line[1]);
    TrimKeepsTrimmed(line);
    assert !Php.EmptyString(line);
    EscapeQuotesNoQuote(line);
    assert QuoteName(line) == "\"" + "$0" + "\"";
    EnvRewrite.DollarZeroCounterexample(st.envContent);
  }
}
