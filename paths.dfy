/** The part of Go's `path/filepath` package used by the bot (Unix paths, separator '/'). */
module Paths {

  import opened Text

  /** The final element of `path`: everything after the last '/'. */
  function LastElement(path: string): (r: string)
    ensures '/' !in r
    ensures |r| <= |path| && (|r| == |path| || path[|path| - |r| - 1] == '/')
  {
    if path == [] || path[|path| - 1] == '/' then ""
    else LastElement(path[..|path| - 1]) + [path[|path| - 1]]
  }

  lemma {:induction false} ElementIsSuffix(path: string)
    ensures IsSuffix(LastElement(path), path)
  {
    if path != [] && path[|path| - 1] != '/' {
      var init := path[..|path| - 1];
      ElementIsSuffix(init);
      assert path == init + [path[|path| - 1]];
    }
  }

  /** Position of the last `c` in `s`. */
  function LastIndexOf(s: string, c: char): (i: nat)
    requires c in s
    ensures i < |s| && s[i] == c && c !in s[i + 1..]
  {
    if s[|s| - 1] == c then |s| - 1 else LastIndexOf(s[..|s| - 1], c)
  }

  /** `filepath.Ext`: the suffix of `path` from the last '.' of its final element,
      or "" when the final element has no '.'. */
  function Ext(path: string): (e: string)
    ensures e == "" <==> '.' !in LastElement(path)
    ensures e == "" || (e[0] == '.' && '.' !in e[1..])
  {
    var element := LastElement(path);
    if '.' in element then element[LastIndexOf(element, '.')..] else ""
  }

  /** The extension is a suffix of the path. */
  lemma ExtIsSuffix(path: string)
    ensures IsSuffix(Ext(path), path)
  {
    var element := LastElement(path);
    ElementIsSuffix(path);
    if '.' in element {
      var i := LastIndexOf(element, '.');
      DropIsSuffix(element, i);
      SuffixTransitive(element[i..], element, path);
    }
  }

  /** The path with its trailing separators removed. */
  function TrimTrailingSlashes(path: string): (r: string)
    ensures r <= path
    ensures r == [] || r[|r| - 1] != '/'
    ensures forall k | |r| <= k < |path| :: path[k] == '/'
  {
    if path != [] && path[|path| - 1] == '/' then TrimTrailingSlashes(path[..|path| - 1]) else path
  }

  /** `filepath.Base`: the final element, ignoring trailing separators; "." for the
      empty path and "/" for a path made only of separators. */
  function Base(path: string): (r: string)
    ensures r != ""
    ensures r == "/" || '/' !in r
    ensures path == "" ==> r == "."
    ensures path != "" && (forall k | 0 <= k < |path| :: path[k] == '/') ==> r == "/"
    ensures (exists k | 0 <= k < |path| :: path[k] != '/') ==>
      var p := TrimTrailingSlashes(path);
      IsSuffix(r, p) && '/' !in r && (|r| == |p| || p[|p| - |r| - 1] == '/')
  {
    if path == "" then "."
    else
      var p := TrimTrailingSlashes(path);
      if p == "" then "/"
      else
        ElementIsSuffix(p);
        LastElement(p)
  }

  /** A name without separators, placed under a directory, is that path's base. */
  lemma {:induction false} BaseOfChild(dir: string, name: string)
    requires name != "" && '/' !in name
    ensures Base(dir + "/" + name) == name
    ensures LastElement(dir + "/" + name) == name
  {
    ChildElement(dir + "/", name);
  }

  lemma {:induction false} ChildElement(prefix: string, name: string)
    requires prefix != [] && prefix[|prefix| - 1] == '/' && '/' !in name
    ensures LastElement(prefix + name) == name
    decreases |name|
  {
    if name != [] {
      var p := prefix + name;
      assert p[..|p| - 1] == prefix + name[..|name| - 1];
      ChildElement(prefix, name[..|name| - 1]);
      assert name == name[..|name| - 1] + [name[|name| - 1]];
    } else {
      assert prefix + name == prefix;
    }
  }

  /** Appending separator-free text extends the final element. */
  lemma {:induction false} ElementOfAppended(path: string, suffix: string)
    requires '/' !in suffix
    ensures LastElement(path + suffix) == LastElement(path) + suffix
    decreases |suffix|
  {
    if suffix == [] {
      assert path + suffix == path;
    } else {
      var p := path + suffix;
      assert p[..|p| - 1] == path + suffix[..|suffix| - 1];
      ElementOfAppended(path, suffix[..|suffix| - 1]);
      assert suffix == suffix[..|suffix| - 1] + [suffix[|suffix| - 1]];
    }
  }

  lemma LastIndexOfAt(s: string, c: char, i: nat)
    requires i < |s| && s[i] == c && c !in s[i + 1..]
    ensures LastIndexOf(s, c) == i
  {
  }

  /** Appending ".mobi" to any path makes ".mobi" its extension. */
  lemma ExtOfMobi(base: string)
    ensures Ext(base + ".mobi") == ".mobi"
  {
    ExtOfDotted(base, ".mobi");
  }

  /** Appending a '.' followed by text without '.' or '/' makes that its extension. */
  lemma ExtOfDotted(base: string, ext: string)
    requires |ext| >= 1 && ext[0] == '.' && '.' !in ext[1..] && '/' !in ext
    ensures Ext(base + ext) == ext
  {
    ElementOfAppended(base, ext);
    var element := LastElement(base + ext);
    var k := |LastElement(base)|;
    AfterPrefix(LastElement(base), ext);
    LastIndexOfAt(element, '.', k);
  }

  lemma AfterPrefix<T>(a: seq<T>, b: seq<T>)
    requires b != []
    ensures (a + b)[|a|] == b[0] && (a + b)[|a| + 1..] == b[1..] && (a + b)[|a|..] == b
  {
  }
}
