# laravel-vue-test core, modelled in Dafny

This project models the decision and string logic of a Laravel + Inertia + Vue
starter application. There are four pieces:

- **Inertia response middleware** (`InertiaResponse`, in `inertia.dfy`). It
  classifies the response the rest of the stack produced. The kinds are an
  initial root-view render, an `x-inertia` navigation response, or a
  pass-through. It extracts the page object, splits the page props into shared
  and page-specific entries, and records the `telescope_inertia_shared`
  snapshot. PHP arrays are ordered key/value sequences (`Php`, in `php.dfy`).
  Reading a missing key is modelled as an error, because Laravel turns PHP's
  undefined-key warning into an exception.
- **Content-Security-Policy middleware** (`Csp`, in `csp.dfy`). It runs an
  ordered sequence of guards, then sets the enforced and the report-only header.
  The policy library is opaque: a function gives each policy's contents, and
  another says whether the policy is empty.
- **The setup script** (`Setup`, in `setup.dfy`, with `.env` rewriting in
  `EnvRewrite`, in `env_rewrite.dfy`). It covers:
  - the default project name;
  - blank-answer defaults under PHP's `empty`;
  - double-quote escaping;
  - the unanchored `KEY=.*` rewrite of `.env` text;
  - the delete-yourself answer rule;
  - threading `(envContent, updated)` through the thirteen steps.
- **The `generate:controllers-ts` command** (`ControllersTs`, in
  `controllers_ts.dfy`). It filters a file listing down to `*Controller.ts`,
  renders one re-export line per file and joins them under a fixed header.

Shared helpers:

- `Wrappers`: `Option` and `Result`.
- `Seqs`: an order-preserving filter.
- `Strings`: `trim`, `explode`/`implode`, single-character `str_replace`,
  `str_replace` with an empty replacement, `ltrim` and ASCII case.
- `Http`: a response with status, content and headers.

Collaborators are inputs to the model:

- `rootView`, `share` and `base_path` for the Inertia middleware;
- the `csp.*` configuration and the policy library for the CSP middleware;
- the folder name, the answer lines, filesystem outcomes and `parse_url` for the setup script;
- the file listing and `DIRECTORY_SEPARATOR` for the controller command.

## Model

| member | source | states |
|---|---|---|
| InertiaResponse.Classify | app/Http/Middleware/HandleInertiaResponse.php:62-74 | a response is an initial render iff its content is a view named like the root view; a navigation response iff it is not that and its `x-inertia` header is exactly `true`; a pass-through otherwise |
| InertiaResponse.PagePayload | app/Http/Middleware/HandleInertiaResponse.php:76-85 | the payload is the view data's `page` entry (an error when absent) for view content, and the raw content itself otherwise |
| InertiaResponse.ComponentProps | app/Http/Middleware/HandleInertiaResponse.php:90-99 | null iff the props are not an array; otherwise the result's keys are props keys, none of them shared, and every unshared props key is kept |
| InertiaResponse.ComponentPath | app/Http/Middleware/HandleInertiaResponse.php:52 | a path exists iff the component is a string, and it is `base_path('resources/js/pages/<component>.vue')` |
| InertiaResponse.BuildSnapshot | app/Http/Middleware/HandleInertiaResponse.php:37-57 | the snapshot is built iff the page has `props`, `version`, `component`, `clearHistory` and `encryptHistory`; it holds the fixed library versions, `Assets` = the page version, the props unchanged, the split, and both history flags; otherwise the error names a missing key |
| InertiaResponse.Handle | app/Http/Middleware/HandleInertiaResponse.php:21-60 | a pass-through returns the second `$next` result and writes nothing; a non-array payload returns the first response and writes nothing; an Inertia response whose page object has all five keys returns the first response after one `$next` call with the snapshot written; an attribute is written only in that case, and it is the snapshot of the page; it raises iff an Inertia response lacks the view's `page` entry or a page-object key, and the key named is one the view data or page object lacks |
| InertiaResponse.ComponentPropsGet | app/Http/Middleware/HandleInertiaResponse.php:98 | a page-specific key reads as in the props; a shared key is absent |
| InertiaResponse.ComponentPropsOrder | app/Http/Middleware/HandleInertiaResponse.php:98 | the split keeps the props' order: splitting `a + b` gives the split of `a` followed by the split of `b` |
| InertiaResponse.ComponentPropsNothingShared | app/Http/Middleware/HandleInertiaResponse.php:98 | with no shared props the page-specific props equal the props exactly |
| InertiaResponse.ComponentPropsDistinct | app/Http/Middleware/HandleInertiaResponse.php:98 | the split of an array with distinct keys has distinct keys |
| InertiaResponse.SplitExample | app/Http/Middleware/HandleInertiaResponse.php:96-98 | `{a: 1, shared: 2}` split against `{shared: 2}` is `{a: 1}` |
| InertiaResponse.NavigationExample | app/Http/Middleware/HandleInertiaResponse.php:21-60 | a concrete navigation response records the full snapshot (root view path, versions, props, split, component path, flags) and is returned after one `$next` call |
| InertiaResponse.SnapshotIgnoresClassification | app/Http/Middleware/HandleInertiaResponse.php:76-85 | two Inertia responses with equal content record the same snapshot or fail on the same key, whichever test classified them |
| InertiaResponse.RecordedSplitInvariant | app/Http/Middleware/HandleInertiaResponse.php:41-57 | every recorded snapshot satisfies the split invariant and has a component path iff the component is a string |
| Php.FilterByKeyKeys | app/Http/Middleware/HandleInertiaResponse.php:98 | `array_filter` by key keeps exactly the keys that pass the test |
| Php.FilterByKeyGet | app/Http/Middleware/HandleInertiaResponse.php:98 | a filtered array reads as the original on kept keys and has nothing under dropped keys |
| Csp.HasCspHeader | app/Support/Csp/AddCspHeaders.php:85-93 | false for anything that is not a response; for a response, true iff either CSP header is present |
| Csp.Decide | app/Support/Csp/AddCspHeaders.php:21-46 | the guards in order, first match wins: disabled, server error (500–599), a CSP header present, a truthy custom preset, else configuration; each outcome holds iff its guard holds and all earlier ones fail |
| Csp.AddCspHeaders | app/Support/Csp/AddCspHeaders.php:14-83 | status, content and every non-CSP header are unchanged; each skip guard returns the response as it was; a custom preset sets exactly the enforced header; otherwise each header is present iff its policy is non-empty, with that policy's contents |
| Csp.SharedReportUri | app/Support/Csp/AddCspHeaders.php:53-76 | both configured policies use the same `csp.report_uri` |
| Csp.AddCspHeadersIdempotent | app/Support/Csp/AddCspHeaders.php:36-38 | running the middleware on its own output changes nothing |
| Setup.Ucwords | setup.php:47 | `ucwords`: the first character and every character after a space, tab, CR, LF, form feed or vertical tab are upper-cased; all others are kept |
| Setup.FormatAppName | setup.php:41-48 | same length as the folder name; each `-`/`_` becomes a space; a character that opens a word (first, or after `-`, `_` or a blank) is upper-cased; every other character is kept |
| Setup.FormatAppNameNoDashes | setup.php:44 | a formatted name contains no `-` and no `_` |
| Setup.FormatAppNameIdempotent | setup.php:41-48 | formatting a formatted name changes nothing |
| Setup.ReadLine | setup.php:102 | `fgets` yields the next input line; at end of input it returns `false`, which `trim` turns into the empty string, so the model yields `""` there |
| Setup.BlankAnswerUsesDefault | setup.php:102-107 | an answer of blanks only, or one that trims to `0`, selects the default |
| Setup.OtherAnswerUsed | setup.php:102-107 | any other answer is used trimmed, and is non-empty |
| Setup.EscapeQuotes | setup.php:110 | every `"` in the escaped name is preceded by a backslash, and no character but `\` is introduced |
| Setup.UnescapeEscape | setup.php:110 | escaping is lossless: reading `\"` back as `"` recovers the name |
| Setup.QuoteName | setup.php:110 | the quoted name starts and ends with `"`, and its inside unescapes to the name |
| Setup.AppNameStep | setup.php:94-125 | the quoted name goes through `preg_replace` as a template, as in the script; `updated` becomes true iff it was true or the text has an `APP_NAME=` line |
| Setup.AppUrlStep | setup.php:128-172 | both rewrites go through `preg_replace` as templates; `updated` becomes true iff it was true, or the text has an `APP_URL=` line, or the URL has a truthy host and the text after the `APP_URL` rewrite has a `MAIL_FROM_ADDRESS=` line (the values written are stated by `Setup.AppUrlReadBack` and `Setup.MailFromReadBack`) |
| Setup.MailHost | setup.php:156-157 | the mail domain is the host `parse_url` reports, only when PHP treats it as true |
| Setup.DbNameStep | setup.php:175-199 | the name goes through `preg_replace` as a template; `updated` becomes true iff it was true or the text has a `DB_DATABASE=` line (the value written is stated by `Setup.DbNameReadBack`) |
| Setup.ShouldDelete | setup.php:400-406 | the script is deleted iff the lower-cased, trimmed answer is empty, `0`, `y` or `yes` |
| Setup.Save | setup.php:202-208 | the state and input are untouched, and the script exits iff `file_put_contents` fails or writes zero bytes |
| Setup.RunStep | setup.php:58-60 | a step only appends effects and never turns `updated` from true back to false |
| Setup.RunAppend | setup.php:58-60 | running `a + b` is running `b` on the result of running `a`: steps run in list order, each on its predecessor's result |
| Setup.RunExtends | setup.php:58-60 | a run only appends effects, and after an exit nothing more happens |
| Setup.UpdatedNeverReset | setup.php:55-60 | once `updated` holds it holds for the rest of the run |
| Setup.DbNameSavesIffUpdated | setup.php:202-211 | `updateDbName` writes `.env` exactly when the returned `updated` holds (and the write is possible), writes the returned text, and exits iff that write fails or is empty |
| Setup.OnlyDbNameSaves | setup.php:201-211 | no step other than `updateDbName` writes `.env` |
| Setup.DeleteIffAnswerYes | setup.php:396-419 | the delete step removes the script iff the answer rule says so |
| Setup.QuoteNameQuoteSafe | setup.php:110 | for a name without `$` and `\`, the quoted name's only backslashes are the ones escaping a `"` |
| Setup.QuotedRewriteIsLiteral | setup.php:110-115 | for a key and name without `$` and `\`, `preg_replace` by `KEY="name"` gives the same text and count as the literal rewrite |
| Setup.QuotedReadBack | setup.php:110-115 | for a key and name without newline, `$` and `\`, after `preg_replace` of a present key the first `KEY=` line holds the quoted name |
| Setup.AppNameReadBack | setup.php:94-115 | after the step, for an answer without newline, `$` and `\`, the first `APP_NAME=` line holds the quoted name |
| Setup.AppNameDollarZero | setup.php:102-115 | the answer `$0` over the `.env` text `APP_NAME=Laravel` makes the step write `APP_NAME="APP_NAME=Laravel"` and report an update |
| Setup.AppUrlReadBack | setup.php:128-172 | after the URL step, for a URL (the answer, or `https://<folder>.test`) without newline, `$` and `\`, the first `APP_URL=` line yields that URL; when a truthy host also rewrites `MAIL_FROM_ADDRESS`, this holds provided the host has none of those characters, the URL holds no `MAIL_FROM_ADDRESS=`, and every `MAIL_FROM_ADDRESS=` line comes after every `APP_URL=` line |
| Setup.MailFromReadBack | setup.php:155-163 | when the URL has a truthy host `h`, the first `MAIL_FROM_ADDRESS=` line yields `app@h` after the step, provided some line holds `MAIL_FROM_ADDRESS=` and not `APP_URL=` and neither URL nor host holds a newline, `$` or `\` |
| Setup.DbNameReadBack | setup.php:175-192 | after the database step, for a name (the answer, or the folder name) without newline, `$` and `\`, the first `DB_DATABASE=` line yields that name |
| EnvRewrite.RewriteLine | setup.php:113-115 | a line is rewritten iff it contains `KEY=`; the text before the first `KEY=` is kept and the rest of the line is replaced |
| EnvRewrite.ValueOfRewriteLine | setup.php:113-115 | after a literal rewrite, the text following the line's first `KEY=` is the new value |
| EnvRewrite.RewriteLines | setup.php:115 | each line is rewritten on its own, and the count never exceeds the number of lines |
| EnvRewrite.RewriteLinesCount | setup.php:115-117 | the count is positive iff some line contains `KEY=` |
| EnvRewrite.RewriteKey | setup.php:113-117 | the replacement count is positive iff the text has a `KEY=` line |
| EnvRewrite.RewriteKeyLines | setup.php:144-146 | for the literal rewrite (the corrected `preg_replace`, which agrees with the script's on values without `$` and `\`): the rewritten text has the same lines; each line is rewritten on its own; lines without `KEY=` are unchanged; the count is positive iff the key is present |
| EnvRewrite.FirstValueOfLines | setup.php:364-365 | `preg_match('APP_URL=(.*)')` succeeds iff some line contains `APP_URL=` |
| EnvRewrite.FirstValueAfterRewrite | setup.php:146 | after a literal rewrite of a present key, reading the key back yields the new value |
| EnvRewrite.FirstValueOfRewrittenLines | setup.php:192 | after the literal rewrite of the lines, the first line containing `KEY=` yields the new value |
| EnvRewrite.RewriteLineAfterPrefix | setup.php:113-115 | a line whose text before `KEY=` holds no `KEY=` keeps that text and has the rest replaced: the pattern is not anchored |
| EnvRewrite.UnanchoredMatch | setup.php:113 | because the pattern is unanchored, `VITE_APP_NAME=x` is rewritten to `VITE_APP_NAME=y` |
| EnvRewrite.Backref | setup.php:115 | a back-reference in a `preg_replace` replacement spans 2 or more characters and names a group below 100 |
| EnvRewrite.ExpandPlain | setup.php:115 | a replacement without `\` or `$` is inserted literally |
| EnvRewrite.ExpandPrefix | setup.php:115 | replacement text free of `\` and `$` passes through expansion unchanged in front of the rest |
| EnvRewrite.ExpandQuoteSafe | setup.php:110-115 | a replacement with no `$` whose every `\` is followed by `"` is inserted literally: `\"` is neither a back-reference nor an escape |
| EnvRewrite.QuoteSafeAppend | setup.php:110-114 | joining two such replacement texts gives another |
| EnvRewrite.PlainQuoteSafe | setup.php:114 | text without `\` and `$` is such a replacement text |
| EnvRewrite.RewriteKeyPregAgrees | setup.php:113-115 | when neither key nor value holds `\` or `$`, the script's `preg_replace` and the literal rewrite agree |
| EnvRewrite.PregReadBack | setup.php:144-146 | after `preg_replace` writes `KEY=value` over a present key, for key and value without newline, `$` and `\`, `preg_match` reads back the value |
| EnvRewrite.KeyLineSurvives | setup.php:144-161 | a line that had `key1=` and no `key2=` still has no `key2=` once `key1=value1` is written into it (for a `value1` without `key2=`, and keys such as `APP_URL` and `MAIL_FROM_ADDRESS` that cannot form `key2=` across a seam), so the `key2` rewrite leaves it alone and it yields `value1` |
| EnvRewrite.FirstValueOfTwiceRewrittenLines | setup.php:144-161 | line by line: after writing `key1` and then `key2`, the first `key1=` line yields `value1` when every `key2` line comes after every `key1` line |
| EnvRewrite.PregReadBackBeforeSecond | setup.php:144-161 | after two `preg_replace` calls (`key1`, then `key2`), `key1` still reads back as `value1` under the same layout condition |
| EnvRewrite.PregReadBackSecond | setup.php:144-161 | after two `preg_replace` calls, `key2` reads back as `value2` when some line holds `key2=` and not `key1=` |
| EnvRewrite.RewriteKeyOneLine | setup.php:113-115 | the literal rewrite turns a one-line text starting with `KEY=` into `KEY=value`, with count 1 |
| EnvRewrite.ExpandDollarZero | setup.php:115 | in a replacement, `$0` followed by plain text expands to the whole match followed by that text |
| EnvRewrite.DollarZeroRewrite | setup.php:113-115 | for a value `p$0q` over a one-line text `KEY=...`, the script's `preg_replace` writes `KEY=p`, then the whole old line, then `q` |
| EnvRewrite.DollarZeroCounterexample | setup.php:113-115 | the name `"$0"` makes `preg_replace` write the matched line back into itself, where the literal rewrite writes `"$0"` |
| Strings.Trim | setup.php:102 | the trimmed text is a slice of the input; everything cut off before and after it is a blank (space, tab, LF, CR, NUL, vertical tab); and it neither starts nor ends with a blank |
| Strings.RemoveAllAbsent | app/Console/Commands/GenerateControllersTs.php:22 | `str_replace` deleting a string that does not occur changes nothing |
| Strings.RemoveAllFirst | app/Console/Commands/GenerateControllersTs.php:22 | `str_replace` with an empty replacement deletes the leftmost occurrence, keeps the text before it, and goes on deleting in the text after it |
| Strings.RemoveBothCopies | app/Console/Commands/GenerateControllersTs.php:22 | both copies go from `pat + mid + pat + rel` (no copy of `pat` starting inside `mid`, none in `rel`), leaving `mid + rel` |
| Strings.TrimStartChar | app/Console/Commands/GenerateControllersTs.php:22 | `ltrim(s, '/')` drops exactly the leading `/` characters |
| Strings.ReplaceChar | app/Console/Commands/GenerateControllersTs.php:22 | each occurrence of the separator becomes `/`, nothing else changes |
| ControllersTs.Basename | app/Console/Commands/GenerateControllersTs.php:47 | with the path's trailing slashes dropped, the file name is the text after the last remaining `/` (all of it when there is none); it has no `/` |
| ControllersTs.Stem | app/Console/Commands/GenerateControllersTs.php:24 | the export name is a prefix of the basename that stops at its last `.`, or all of it when there is none |
| ControllersTs.StemOfExtension | app/Console/Commands/GenerateControllersTs.php:24 | the stem of `x.y`, for a dot-free extension `y`, is `x` |
| ControllersTs.ControllerFiles | app/Console/Commands/GenerateControllersTs.php:42-53 | only files whose name ends in `Controller.ts` are kept, and every such file is kept |
| ControllersTs.ControllerFilesAppend | app/Console/Commands/GenerateControllersTs.php:46-50 | the kept files keep the listing's order |
| ControllersTs.ControllerFilesKeepsAll | app/Console/Commands/GenerateControllersTs.php:46-50 | a listing of controller files only is kept whole |
| ControllersTs.ControllerExportName | app/Console/Commands/GenerateControllersTs.php:24 | a kept file's export name followed by `.ts` is its basename, and it ends in `Controller` |
| ControllersTs.ModulePathUnderActions | app/Console/Commands/GenerateControllersTs.php:22-23 | a file `actions/<rel>` gets module path `./actions/<rel>` with separators turned into `/` |
| ControllersTs.ModulePathOfPrefixed | app/Console/Commands/GenerateControllersTs.php:22-23 | for any path that starts with the actions directory, the module path is built from the rest with every further copy of the directory removed |
| ControllersTs.ModulePathRepeatedActions | app/Console/Commands/GenerateControllersTs.php:22-23 | a second copy of the actions directory further down the path is removed too: `<actions><mid><actions><rel>` gets module path `./actions/` + `<mid><rel>` without leading `/`, separators turned into `/` |
| ControllersTs.ControllerFileLine | app/Console/Commands/GenerateControllersTs.php:21-27 | the line for such a file is `export { default as <name> } from './actions/<rel>';`, with `<name>` its basename without `.ts` |
| ControllersTs.Lines | app/Console/Commands/GenerateControllersTs.php:21-27 | one line per kept file, in the same order |
| ControllersTs.Generate | app/Console/Commands/GenerateControllersTs.php:29-34 | the reported count is the number of kept files; the content starts with the header and ends with a newline |
| ControllersTs.GenerateEmpty | app/Console/Commands/GenerateControllersTs.php:29-30 | with no controller files the content is the header and one newline |
| ControllersTs.GenerateLayout | app/Console/Commands/GenerateControllersTs.php:29-30 | otherwise the text after the header, split at newlines, is exactly the rendered lines followed by the empty piece after the final newline |

## Left out

- Console output (`echo`, `$this->info`), the outputs and exit codes of `exec`/`passthru`, `sleep`, and the temporary browser-opener script. The setup model records only the commands run and the URL handed to the opener. These steps change no state.
- The filesystem. The model takes these as inputs:
  - whether `.env.example` and `.env` exist;
  - whether `copy` succeeds;
  - the text `file_get_contents` returns (its `false` failure is not modelled);
  - whether `.env` can be written.
- Whether `unlink` succeeds is not modelled. The script ignores it apart from printing.
- `File::allFiles` and `File::put` are left out: the listing is an input, and the content is the output.
- `getcwd`: the folder name is an input.
- `parse_url` is an input function, because it is a library call.
- The Spatie `Policy` library (`create`, `getContents`, `isEmpty`) is opaque. The same goes for `HandleInertiaRequests::share`/`rootView` and `base_path`.
- `app/Support/Csp/Presets/Development.php` is not part of this model. It is a configuration wrapper over the policy library.
- The commented-out hot-reloading guard in the CSP middleware is not modelled.
- Header names are matched exactly. Symfony's `HeaderBag` is case-insensitive.
- `in_array`'s loose comparison and PHP's integer-coerced array keys: keys are compared as exact strings. So a numeric-string key edge case is not modelled.
- The `==` comparison of the view name with the root view is modelled as exact string equality.
- InertiaResponse.Handle: does not model the `TypeError` PHP raises when `$next` returns something other than `Illuminate\Http\Response`. The middleware's typed property and return type reject, for example, a redirect or JSON response. The model accepts any response.
- ControllersTs.Basename: models the `/`-separated (Unix) `basename` only.
- ControllersTs.GenerateLayout: requires the rendered lines to be free of newlines. Otherwise the split could not recover them.
- ControllersTs.GenerateEmpty: states the content's length (header plus one character). Together with `Generate`'s header prefix and final newline, this fixes the content as header + newline.
- Setup.AppNameReadBack: requires the chosen name to contain no newline, `$` or `\`. A newline would split the rewritten line, and `preg_replace` reads `$` and `\` in the replacement as back-references or escapes (see "## Findings" and `Setup.AppNameDollarZero`).
- The `csp.*` configuration is read once per request (`Csp.Config`), where the middleware calls `config()` for each value it uses (`csp.report_uri` twice, at app/Support/Csp/AddCspHeaders.php:53 and :70). Configuration changing during a request is not modelled, so `Csp.SharedReportUri` holds by construction.
- Setup.AppUrlReadBack: requires the URL and host to contain no newline, `$` or `\`, as for the project name. When the mail address is rewritten too, it also requires that the URL holds no `MAIL_FROM_ADDRESS=` and that the `MAIL_FROM_ADDRESS` lines come after the `APP_URL` lines, as in a `.env` that sets the URL before the mail settings. Otherwise the mail rewrite can overwrite the URL line.
- Setup.MailFromReadBack: requires the URL and host to contain no newline, `$` or `\`, and a `MAIL_FROM_ADDRESS=` line that does not also hold `APP_URL=`.
- Setup.DbNameReadBack: requires the database name to contain no newline, `$` or `\`, for the same reason as `Setup.AppNameReadBack`.
- Setup.RunStep: each answer is one element of the input sequence. Splitting standard input into lines is not modelled.
- `Strings` treats one `char` as one character of the PHP string. No multi-byte encoding is modelled.

## Findings

| source | as written | input that shows it | evidently intended | confidence | as-written member | corrected member |
|---|---|---|---|---|---|---|
| setup.php:110-115 | The typed project name is put into `preg_replace`'s replacement unescaped. `$0`, `\0`, `${n}` and `\\` in it are then read as back-references or escapes. | Project name `$0` with `.env` line `APP_NAME=Laravel`. It writes `APP_NAME="APP_NAME=Laravel"`. | The name is written literally: `APP_NAME="$0"`. | high; not executed | EnvRewrite.RewriteKeyPreg | EnvRewrite.RewriteKey |

`EnvRewrite.DollarZeroCounterexample` exhibits the discrepancy on the input above, and `Setup.AppNameDollarZero` shows the setup step itself writing it. `EnvRewrite.FirstValueAfterRewrite` proves the intended property of the literal rewrite. The setup steps model the script as written, with the template reading. `Setup.QuotedRewriteIsLiteral` proves that both readings agree on names without `$` and `\`. The same splice happens for the URL (setup.php:146), the mail address (setup.php:161) and the database name (setup.php:192). `Setup.AppUrlReadBack`, `Setup.MailFromReadBack` and `Setup.DbNameReadBack` state what those steps write when the value holds no `$` or `\`.

A further observation, not a claimed defect: on the pass-through path the Inertia middleware calls `$next` a second time (app/Http/Middleware/HandleInertiaResponse.php:25 and :28). So the rest of the pipeline, the controller included, runs twice for every request that is not an Inertia response, and the second response is the one returned. The model keeps this behaviour: `InertiaResponse.Handle` ensures that a pass-through returns the second response after two calls (`Returned(second, 2, None)`).
