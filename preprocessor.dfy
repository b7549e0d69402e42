/** The `#include` directive.  The included file is read as lines from an
    abstract map from path to lines.  Its first line is always consumed as
    a possible `#ID <id>` guard; the remaining lines are spliced into the
    line list at the cursor, so they are the next lines scanned, unless the
    guard's id was included before. */
module Preprocessor {
  import opened BigEndian
  import opened Text
  import opened Errors

  /** What a `#include` leaves behind: the new line list, the ids of the
      included files, and the warnings it raised. */
  datatype Included = Included(lines: seq<string>, includes: seq<string>, warnings: seq<Warning>)

  /** The path argument: the second shell word of the directive line. */
  function IncludePath(line: string): Option<string> {
    var words := Tokens(line);
    if |words| < 2 then None else Some(words[1])
  }

  /** The path of `#include <path>` is the word after the directive: the
      line's first word, a space, a word, and then nothing or text after a
      separator give that word; a line of one word has no path. */
  lemma IncludePathWord(directive: string, path: string, rest: string)
    requires directive != [] && forall i :: 0 <= i < |directive| ==> !IsShellSpace(directive[i])
    requires path != [] && forall i :: 0 <= i < |path| ==> !IsShellSpace(path[i])
    requires rest == [] || IsShellSpace(rest[0])
    ensures IncludePath(directive + " " + path + rest) == Some(path)
    ensures IncludePath(directive) == None
  {
    assert directive + " " + path + rest == directive + ([' '] + (path + rest));
    TokensWord(directive, [' '] + (path + rest));
    TokensSeparator(' ', path + rest);
    TokensWord(path, rest);
    TokensWord(directive, []);
    assert directive + [] == directive;
  }

  /** The first line of a file as `readline` gives it ("" for an empty file). */
  function FirstLine(file: seq<string>): string {
    if file == [] then "" else file[0]
  }

  /** The lines `read` gives after the first line has been consumed. */
  function AfterFirstLine(file: seq<string>): seq<string> {
    if file == [] then [] else file[1..]
  }

  /** The include guard of a file: the text after the first space of a first
      line that starts with `#ID`. */
  function Guard(file: seq<string>): Option<string> {
    var first := FirstLine(file);
    if StartsWith(first, "#ID") then Some(Tail(first)) else None
  }

  /** `process_include(line)` with the cursor at `cursor` (the line after the
      directive). */
  function ProcessInclude(line: string, lines: seq<string>, cursor: nat, includes: seq<string>,
                          files: map<string, seq<string>>): (r: Result<Included>)
    requires cursor <= |lines|
    ensures IncludePath(line).None? ==> r == Err(IncludeMissingPath(cursor))
    ensures IncludePath(line).Some? && IncludePath(line).value !in files
            ==> r == Err(IncludeNotFound(IncludePath(line).value))
    ensures r.Ok? <==> IncludePath(line).Some? && IncludePath(line).value in files
    ensures r.Ok? ==> var file := files[IncludePath(line).value];
      || (Guard(file).Some? && Guard(file).value in includes && r.value == Included(lines, includes, []))
      || (r.value.lines == lines[..cursor] + AfterFirstLine(file) + lines[cursor..]
          && (Guard(file).None? ==> r.value.includes == includes
                                    && r.value.warnings == [MissingIncludeId(IncludePath(line).value)])
          && (Guard(file).Some? ==> Guard(file).value !in includes
                                    && r.value.includes == includes + [Guard(file).value]
                                    && r.value.warnings == []))
  {
    var path := IncludePath(line);
    if path.None? then Err(IncludeMissingPath(cursor))
    else if path.value !in files then Err(IncludeNotFound(path.value))
    else
      var file := files[path.value];
      var guard := Guard(file);
      var spliced := lines[..cursor] + AfterFirstLine(file) + lines[cursor..];
      if guard.None? then Ok(Included(spliced, includes, [MissingIncludeId(path.value)]))
      else if guard.value in includes then Ok(Included(lines, includes, []))
      else Ok(Included(spliced, includes + [guard.value], []))
  }

  /** The spliced lines come right after the cursor, in file order and
      without the first line, and the lines after the cursor follow them. */
  lemma IncludeNextLines(line: string, lines: seq<string>, cursor: nat, includes: seq<string>,
                         files: map<string, seq<string>>)
    requires cursor <= |lines|
    requires IncludePath(line).Some? && IncludePath(line).value in files
    requires var g := Guard(files[IncludePath(line).value]); g.None? || g.value !in includes
    ensures var r := ProcessInclude(line, lines, cursor, includes, files);
      var rest := AfterFirstLine(files[IncludePath(line).value]);
      && r.Ok?
      && |r.value.lines| == |lines| + |rest|
      && r.value.lines[..cursor] == lines[..cursor]
      && r.value.lines[cursor..cursor + |rest|] == rest
      && r.value.lines[cursor + |rest|..] == lines[cursor..]
  {
    var rest := AfterFirstLine(files[IncludePath(line).value]);
    var out := lines[..cursor] + rest + lines[cursor..];
    assert out[..cursor] == lines[..cursor];
    assert out[cursor..cursor + |rest|] == rest;
    assert out[cursor + |rest|..] == lines[cursor..];
  }

  /** Once a guarded file has been included, including it again leaves the
      lines and the include list as they are. */
  lemma IncludeOnce(line: string, lines: seq<string>, cursor: nat, includes: seq<string>,
                    files: map<string, seq<string>>, later: nat)
    requires cursor <= |lines|
    requires ProcessInclude(line, lines, cursor, includes, files).Ok?
    requires Guard(files[IncludePath(line).value]).Some?
    requires later <= |ProcessInclude(line, lines, cursor, includes, files).value.lines|
    ensures var first := ProcessInclude(line, lines, cursor, includes, files).value;
      ProcessInclude(line, first.lines, later, first.includes, files) == Ok(Included(first.lines, first.includes, []))
  {
  }
}
