/** A segment model of Node's POSIX `path.resolve`, `path.basename` and `path.dirname`.
    Directories are lists of names; `.` and empty segments are dropped and `..` climbs one level. */
module Paths {
  import opened Text

  /** `s.split(c)`. */
  function Split(s: string, c: char): (r: seq<string>)
    decreases |s|
    ensures |r| > 0
  {
    var head := BeforeFirst(s, c);
    if |head| == |s| then [s] else [head] + Split(s[|head| + 1..], c)
  }

  /** Walks `parts` from directory `dir`. */
  function Normalize(dir: seq<string>, parts: seq<string>): seq<string>
    decreases |parts|
  {
    if parts == [] then dir
    else if parts[0] == "" || parts[0] == "." then Normalize(dir, parts[1..])
    else if parts[0] == ".." then Normalize(if dir == [] then [] else dir[..|dir| - 1], parts[1..])
    else Normalize(dir + [parts[0]], parts[1..])
  }

  function Segments(p: string): seq<string>
  {
    Normalize([], Split(p, '/'))
  }

  function Render(dir: seq<string>): string
  {
    "/" + Join(dir, "/")
  }

  /** `path.resolve(base, rel)` for an absolute `base`. */
  function Resolve(base: string, rel: string): string
  {
    if StartsWith(rel, "/") then Render(Segments(rel))
    else Render(Normalize(Segments(base), Split(rel, '/')))
  }

  function LastNonEmpty(parts: seq<string>): string
    decreases |parts|
  {
    if parts == [] then ""
    else if parts[|parts| - 1] != "" then parts[|parts| - 1]
    else LastNonEmpty(parts[..|parts| - 1])
  }

  /** `path.basename(p)`: the last name, trailing slashes ignored. */
  function Basename(p: string): string
  {
    LastNonEmpty(Split(p, '/'))
  }

  /** No piece of `s.split(c)` holds `c`. */
  lemma {:induction false} SplitPiecesLackSeparator(s: string, c: char)
    decreases |s|
    ensures forall x :: x in Split(s, c) ==> c !in x
  {
    var head := BeforeFirst(s, c);
    if |head| != |s| {
      SplitPiecesLackSeparator(s[|head| + 1..], c);
    }
  }

  /** A base name never holds a `/`. */
  lemma BasenameHasNoSlash(p: string)
    ensures '/' !in Basename(p)
  {
    SplitPiecesLackSeparator(p, '/');
    LastNonEmptyIn(Split(p, '/'));
  }

  lemma {:induction false} LastNonEmptyIn(parts: seq<string>)
    decreases |parts|
    ensures LastNonEmpty(parts) == "" || LastNonEmpty(parts) in parts
  {
    if parts != [] && parts[|parts| - 1] == "" {
      LastNonEmptyIn(parts[..|parts| - 1]);
    }
  }

  /** `path.dirname(p)` for an absolute `p`. */
  function Dirname(p: string): string
  {
    var dir := Segments(p);
    Render(if dir == [] then [] else dir[..|dir| - 1])
  }
}
