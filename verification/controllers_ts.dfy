/**
 The `generate:controllers-ts` console command: from a listing of the files
 under the actions directory it keeps the `*Controller.ts` files and renders an
 `index.ts` that re-exports each one's default export under its file name.

 The directory walk and the final write are left out: the listing is an input
 and the command's result is the file content together with the count it reports.
 `DIRECTORY_SEPARATOR` is an input character.
 */
module ControllersTs {
  import opened Wrappers
  import opened Strings
  import Seqs

  /** The first line of the generated file, followed by a blank line. */
  const Header: string := "// Auto-generated file \U{2013} do not edit manually\n\n"

  const ControllerStem: string := "Controller"
  const TsExtension: string := "ts"
  const ControllerSuffix: string := ControllerStem + ['.'] + TsExtension

  // ---------------------------------------------------------------------------
  // File names

  /** `path` without its trailing slashes. */
  function StripTrailingSlashes(s: string): (r: string)
    ensures |r| <= |s| && r == s[..|r|]
    ensures r == [] || r[|r| - 1] != '/'
    ensures forall i :: |r| <= i < |s| ==> s[i] == '/'
  {
    if s != [] && s[|s| - 1] == '/' then StripTrailingSlashes(s[..|s| - 1]) else s
  }

  /** The text after the last `/` (all of it when there is none). */
  function LastSegment(s: string): (r: string)
    ensures |r| <= |s| && r == s[|s| - |r|..]
    ensures '/' !in r
    ensures |r| < |s| ==> s[|s| - |r| - 1] == '/'
  {
    if s == [] || s[|s| - 1] == '/' then []
    else
      var init := LastSegment(s[..|s| - 1]);
      assert s[|s| - |init| - 1..] == init + [s[|s| - 1]];
      init + [s[|s| - 1]]
  }

  /**
   `basename` on a `/`-separated path: the last component, trailing slashes
   ignored. With `e` the end of the path once its trailing slashes are dropped,
   the result is the text ending at `e` that starts after the last `/` before it.
   */
  function Basename(path: string): (r: string)
    ensures '/' !in r
    ensures forall c :: c in r ==> c in path
    ensures var e := |StripTrailingSlashes(path)|;
      && |r| <= e <= |path| && r == path[e - |r|..e]
      && (forall i :: e <= i < |path| ==> path[i] == '/')
      && (e > 0 ==> path[e - 1] != '/')
      && (e - |r| > 0 ==> path[e - |r| - 1] == '/')
  {
    var stripped := StripTrailingSlashes(path);
    var r := LastSegment(stripped);
    SegmentOfPrefix(path, stripped, r);
    r
  }

  /** A trailing segment of a prefix of `path`, read back as a slice of `path` itself. */
  lemma SegmentOfPrefix(path: string, stripped: string, r: string)
    requires |stripped| <= |path| && stripped == path[..|stripped|]
    requires stripped == [] || stripped[|stripped| - 1] != '/'
    requires |r| <= |stripped| && r == stripped[|stripped| - |r|..]
    requires |r| < |stripped| ==> stripped[|stripped| - |r| - 1] == '/'
    ensures var e := |stripped|;
      && r == path[e - |r|..e]
      && (e > 0 ==> path[e - 1] != '/')
      && (e - |r| > 0 ==> path[e - |r| - 1] == '/')
    ensures forall c :: c in r ==> c in path
  {
    var e := |stripped|;
    assert forall i :: 0 <= i < e ==> stripped[i] == path[i];
    assert forall i :: 0 <= i < |r| ==> r[i] == path[e - |r| + i];
  }

  /** The index of the last `c` in `s`. */
  function LastIndexOf(s: string, c: char): (r: Option<nat>)
    ensures r.None? <==> c !in s
    ensures r.Some? ==> r.value < |s| && s[r.value] == c && c !in s[r.value + 1..]
  {
    if s == [] then None
    else if s[|s| - 1] == c then Some(|s| - 1)
    else
      var r := LastIndexOf(s[..|s| - 1], c);
      assert s == s[..|s| - 1] + [s[|s| - 1]];
      if r.Some? then
        assert s[r.value + 1..] == s[..|s| - 1][r.value + 1..] + [s[|s| - 1]];
        r
      else r
  }

  /** A file name up to its last `.`, or all of it when it has none. */
  function Stem(b: string): (r: string)
    ensures |r| <= |b| && r == b[..|r|]
    ensures '.' in b ==> |r| < |b| && b[|r|] == '.' && '.' !in b[|r| + 1..]
    ensures '.' !in b ==> r == b
  {
    match LastIndexOf(b, '.')
    case Some(i) => b[..i]
    case None => b
  }

  /** `pathinfo($path, PATHINFO_FILENAME)`: the stem of the basename. */
  function ExportName(path: string): string {
    Stem(Basename(path))
  }

  // ---------------------------------------------------------------------------
  // getControllerFiles

  /** `str_ends_with($file->getFilename(), 'Controller.ts')`. */
  predicate IsControllerFile(path: string) {
    EndsWith(Basename(path), ControllerSuffix)
  }

  /** `getControllerFiles`: the listing's controller files, in listing order. */
  function ControllerFiles(files: seq<string>): (kept: seq<string>)
    ensures |kept| <= |files|
    ensures forall i :: 0 <= i < |kept| ==> IsControllerFile(kept[i]) && kept[i] in files
    ensures forall i :: 0 <= i < |files| && IsControllerFile(files[i]) ==> files[i] in kept
  {
    Seqs.Filter(files, IsControllerFile)
  }

  /** Listing order is kept: the files of a longer listing follow those of its prefix. */
  lemma ControllerFilesAppend(a: seq<string>, b: seq<string>)
    ensures ControllerFiles(a + b) == ControllerFiles(a) + ControllerFiles(b)
  {
    Seqs.FilterAppend(a, b, IsControllerFile);
  }

  /** A listing of controller files only is kept whole. */
  lemma ControllerFilesKeepsAll(files: seq<string>)
    requires forall i :: 0 <= i < |files| ==> IsControllerFile(files[i])
    ensures ControllerFiles(files) == files
  {
    Seqs.FilterKeepsAll(files, IsControllerFile);
  }

  /** The last `c` of `x + [c] + y` is the one after `x` when `y` has none. */
  lemma {:induction false} LastIndexOfBefore(x: string, c: char, y: string)
    requires c !in y
    ensures LastIndexOf(x + [c] + y, c) == Some(|x|)
    decreases |y|
  {
    var s := x + [c] + y;
    if y != [] {
      var y' := y[..|y| - 1];
      assert s[..|s| - 1] == x + [c] + y';
      assert s[|s| - 1] == y[|y| - 1];
      assert c !in y' by {
        assert forall d :: d in y' ==> d in y;
      }
      LastIndexOfBefore(x, c, y');
    }
  }

  /** The stem of `x.y`, for an extension `y` without a dot, is `x`. */
  lemma StemOfExtension(x: string, y: string)
    requires '.' !in y
    ensures Stem(x + ['.'] + y) == x
  {
    LastIndexOfBefore(x, '.', y);
    assert (x + ['.'] + y)[..|x|] == x;
  }

  /** A text ending in `x + [c] + y` is a text ending in `x`, then `c`, then `y`. */
  lemma EndsWithParts(b: string, x: string, c: char, y: string)
    requires EndsWith(b, x + [c] + y)
    ensures b == b[..|b| - |y| - 1] + [c] + y && EndsWith(b[..|b| - |y| - 1], x)
  {
    var w := x + [c] + y;
    assert b[|b| - |y|..] == w[|x| + 1..];
    assert b[|b| - |y| - 1] == w[|x|];
    assert b[..|b| - |y| - 1][|b| - |y| - 1 - |x|..] == w[..|x|];
  }

  /** For a kept file the export name is its basename without `.ts`, and so ends in `Controller`. */
  lemma ControllerExportName(path: string)
    requires IsControllerFile(path)
    ensures ExportName(path) + ['.'] + TsExtension == Basename(path)
    ensures EndsWith(ExportName(path), ControllerStem)
  {
    var b := Basename(path);
    EndsWithParts(b, ControllerStem, '.', TsExtension);
    StemOfExtension(b[..|b| - |TsExtension| - 1], TsExtension);
  }

  // ---------------------------------------------------------------------------
  // The generated lines

  /** The module path: `./actions/` and the file path relative to the actions directory, with `/` separators. */
  function ModulePath(file: string, actionsPath: string, separator: char): string {
    "./actions/" + ReplaceChar(TrimStartChar(RemoveAll(file, actionsPath), '/'), separator, '/')
  }

  /** For a file under the actions directory, the module path is its relative path with `/` separators. */
  lemma ModulePathUnderActions(actionsPath: string, rel: string, separator: char)
    requires actionsPath != []
    requires !Contains("/" + rel, actionsPath)
    requires rel == [] || rel[0] != '/'
    ensures ModulePath(actionsPath + "/" + rel, actionsPath, separator) == "./actions/" + ReplaceChar(rel, separator, '/')
  {
    var file := actionsPath + "/" + rel;
    assert file[..|actionsPath|] == actionsPath;
    assert file[|actionsPath|..] == "/" + rel;
    RemoveAllAbsent("/" + rel, actionsPath);
    assert RemoveAll(file, actionsPath) == "/" + rel;
    assert ("/" + rel)[1..] == rel;
  }

  /** A path that starts with the actions directory loses that copy, and every later one is removed from the rest. */
  lemma ModulePathOfPrefixed(actionsPath: string, rest: string, separator: char)
    requires actionsPath != []
    ensures ModulePath(actionsPath + rest, actionsPath, separator)
         == "./actions/" + ReplaceChar(TrimStartChar(RemoveAll(rest, actionsPath), '/'), separator, '/')
  {
    RemoveAllFirst([], actionsPath, rest);
    assert [] + actionsPath + rest == actionsPath + rest;
  }

  /**
   A second copy of the actions directory further down the path is removed
   as well, as `str_replace` removes every occurrence: only the text between
   and after the copies remains.
   */
  lemma ModulePathRepeatedActions(actionsPath: string, mid: string, rel: string, separator: char)
    requires actionsPath != []
    requires forall j: nat :: j < |mid| ==> !OccursAt(mid + actionsPath + rel, actionsPath, j)
    requires !Contains(rel, actionsPath)
    ensures ModulePath(actionsPath + mid + actionsPath + rel, actionsPath, separator)
         == "./actions/" + ReplaceChar(TrimStartChar(mid + rel, '/'), separator, '/')
  {
    RemoveBothCopies(actionsPath, mid, rel);
  }

  /** `export { default as <name> } from '<module>';`. */
  function ExportLine(name: string, modulePath: string): string {
    "export { default as " + name + " } from '" + modulePath + "';"
  }

  /** The line rendered for one file. */
  function FileLine(file: string, actionsPath: string, separator: char): string {
    ExportLine(ExportName(file), ModulePath(file, actionsPath, separator))
  }

  /**
   The line for a controller file under the actions directory: exported under
   its basename without `.ts`, from its relative path with `/` separators.
   */
  lemma ControllerFileLine(actionsPath: string, rel: string, separator: char)
    requires actionsPath != []
    requires !Contains("/" + rel, actionsPath)
    requires rel == [] || rel[0] != '/'
    requires IsControllerFile(actionsPath + "/" + rel)
    ensures
      var file := actionsPath + "/" + rel;
      && FileLine(file, actionsPath, separator)
           == ExportLine(ExportName(file), "./actions/" + ReplaceChar(rel, separator, '/'))
      && ExportName(file) + ['.'] + TsExtension == Basename(file)
  {
    ModulePathUnderActions(actionsPath, rel, separator);
    ControllerExportName(actionsPath + "/" + rel);
  }

  /** The `array_map` over the kept files: one line each, in the same order. */
  function Lines(kept: seq<string>, actionsPath: string, separator: char): (lines: seq<string>)
    ensures |lines| == |kept|
    ensures forall i :: 0 <= i < |kept| ==> lines[i] == FileLine(kept[i], actionsPath, separator)
  {
    seq(|kept|, i requires 0 <= i < |kept| => FileLine(kept[i], actionsPath, separator))
  }

  /** The text after the header: the lines joined with newlines, and a final newline. */
  function Body(lines: seq<string>): (body: string)
    ensures |body| >= 1 && body[|body| - 1] == '\n'
  {
    Join(lines, '\n') + "\n"
  }

  /** What `handle` produces: the content of `index.ts` and the number of exports it reports. */
  datatype Output = Output(content: string, count: nat)

  /** `handle`, without the directory walk and the write. */
  function Generate(files: seq<string>, actionsPath: string, separator: char): (out: Output)
    ensures out.count == |ControllerFiles(files)|
    ensures |out.content| >= |Header| + 1 && out.content[..|Header|] == Header
    ensures out.content[|out.content| - 1] == '\n'
  {
    var kept := ControllerFiles(files);
    var body := Body(Lines(kept, actionsPath, separator));
    PrefixOfConcat(Header, body);
    Output(Header + body, |kept|)
  }

  /** `a` is the prefix of `a + b` of its own length. */
  lemma PrefixOfConcat(a: string, b: string)
    ensures |a + b| == |a| + |b| && (a + b)[..|a|] == a && (a + b)[|a|..] == b
  {
  }

  /** Joining with one more, empty, piece appends the separator. */
  lemma {:induction false} JoinAppendEmpty(parts: seq<string>, sep: char)
    requires |parts| >= 1
    ensures Join(parts + [""], sep) == Join(parts, sep) + [sep]
  {
    if |parts| == 1 {
      assert Join(parts + [""], sep) == parts[0] + [sep] + Join([""], sep);
    } else {
      assert (parts + [""])[1..] == parts[1..] + [""];
      JoinAppendEmpty(parts[1..], sep);
    }
  }

  /**
   With no controller files the content is the header and one newline: one
   character past the header, which `Generate` guarantees is a newline.
   */
  lemma GenerateEmpty(files: seq<string>, actionsPath: string, separator: char)
    requires ControllerFiles(files) == []
    ensures |Generate(files, actionsPath, separator).content| == |Header| + 1
    ensures Generate(files, actionsPath, separator).count == 0
  {
    assert Lines(ControllerFiles(files), actionsPath, separator) == [];
    assert |Body([])| == 1;
  }

  /** The body splits back into the lines it joins, followed by the empty piece after the final newline. */
  lemma BodyLayout(lines: seq<string>)
    requires |lines| >= 1
    requires forall i :: 0 <= i < |lines| ==> '\n' !in lines[i]
    ensures Split(Body(lines), '\n') == lines + [""]
  {
    JoinAppendEmpty(lines, '\n');
    SplitJoin(lines + [""], '\n');
  }

  /**
   Otherwise the text after the header, split at newlines, is exactly the
   rendered lines followed by the empty piece after the final newline.
   */
  lemma GenerateLayout(files: seq<string>, actionsPath: string, separator: char)
    requires ControllerFiles(files) != []
    requires forall i :: 0 <= i < |Lines(ControllerFiles(files), actionsPath, separator)| ==>
               '\n' !in Lines(ControllerFiles(files), actionsPath, separator)[i]
    ensures
      var content := Generate(files, actionsPath, separator).content;
      Split(content[|Header|..], '\n') == Lines(ControllerFiles(files), actionsPath, separator) + [""]
  {
    var lines := Lines(ControllerFiles(files), actionsPath, separator);
    var body := Body(lines);
    assert Generate(files, actionsPath, separator).content == Header + body;
    PrefixOfConcat(Header, body);
    BodyLayout(lines);
  }
}
