/**
 * The e-book converter: stages the downloaded file in a fresh temporary
 * directory under a sanitised name, runs `ebook-convert` to produce a `.mobi`
 * beside it, and reads that back. The directory creation, the write, the
 * converter run and the read-back are I/O; their outcomes are inputs here, and
 * what the converter asks of the system is returned as a trace of effects.
 */
module Converter {

  import opened Wrappers
  import opened Go
  import opened Text
  import opened Paths

  /** The characters the sanitiser keeps: the complement of `[^a-zA-Z0-9.]`. */
  predicate IsAllowed(c: char)
  {
    ('a' <= c <= 'z') || ('A' <= c <= 'Z') || ('0' <= c <= '9') || c == '.'
  }

  predicate AllAllowed(s: string)
  {
    forall i | 0 <= i < |s| :: IsAllowed(s[i])
  }

  /** Replacing every run of disallowed characters by "" deletes each of them. */
  function Sanitize(s: string): (r: string)
    ensures AllAllowed(r)
    ensures |r| <= |s|
  {
    if s == [] then []
    else (if IsAllowed(s[0]) then [s[0]] else []) + Sanitize(s[1..])
  }

  /** Sanitising works character by character: it distributes over concatenation. */
  lemma {:induction false} SanitizeAppend(a: string, b: string)
    ensures Sanitize(a + b) == Sanitize(a) + Sanitize(b)
  {
    if a != [] {
      assert (a + b)[1..] == a[1..] + b;
      SanitizeAppend(a[1..], b);
    } else {
      assert a + b == b;
    }
  }

  /** A name made only of allowed characters is left as it is. */
  lemma {:induction false} SanitizeKeepsAllowed(s: string)
    requires AllAllowed(s)
    ensures Sanitize(s) == s
  {
    if s != [] {
      SanitizeKeepsAllowed(s[1..]);
    }
  }

  /** Sanitising its own output changes nothing. */
  lemma SanitizeIdempotent(s: string)
    ensures Sanitize(Sanitize(s)) == Sanitize(s)
  {
    SanitizeKeepsAllowed(Sanitize(s));
  }

  /** `a` is `b` with some characters deleted, the rest in their order. */
  predicate IsSubsequence(a: string, b: string)
    decreases |b|
  {
    if a == [] then true
    else if b == [] then false
    else (a[0] == b[0] && IsSubsequence(a[1..], b[1..])) || IsSubsequence(a, b[1..])
  }

  /** Sanitising only deletes: what it keeps is a subsequence of the input. */
  lemma {:induction false} SanitizeIsSubsequence(s: string)
    ensures IsSubsequence(Sanitize(s), s)
  {
    if s != [] {
      SanitizeIsSubsequence(s[1..]);
      if IsAllowed(s[0]) {
        assert Sanitize(s) == [s[0]] + Sanitize(s[1..]);
        assert Sanitize(s)[1..] == Sanitize(s[1..]);
      } else {
        assert Sanitize(s) == Sanitize(s[1..]);
      }
    }
  }

  /** Every allowed character occurs in the result exactly as often as in the input,
      and no other character occurs in it. */
  lemma {:induction false} SanitizeCounts(s: string, c: char)
    ensures multiset(Sanitize(s))[c] == if IsAllowed(c) then multiset(s)[c] else 0
  {
    if s != [] {
      SanitizeCounts(s[1..], c);
      assert s == [s[0]] + s[1..];
      assert multiset(s) == multiset{s[0]} + multiset(s[1..]);
      if IsAllowed(s[0]) {
        assert Sanitize(s) == [s[0]] + Sanitize(s[1..]);
        assert multiset(Sanitize(s)) == multiset{s[0]} + multiset(Sanitize(s[1..]));
      }
    }
  }

  /** The random part of a temporary directory's name: decimal digits. */
  type Digits = s: string | forall i | 0 <= i < |s| :: '0' <= s[i] <= '9'

  /** `ioutil.TempDir("/tmp", "book")`. */
  function TempDir(nonce: Digits): string
  {
    "/tmp/book" + nonce
  }

  /** `filepath.Join(dir, name)` for a sanitised name: the joined path is cleaned,
      so "" and "." name the directory itself and ".." its parent. */
  function StagingPath(nonce: Digits, name: string): (path: string)
    requires AllAllowed(name)
    ensures name !in {"", ".", ".."} ==> path == TempDir(nonce) + "/" + name && Base(path) == name
  {
    if name == "" || name == "." then TempDir(nonce)
    else if name == ".." then "/tmp"
    else
      BaseOfChild(TempDir(nonce), name);
      TempDir(nonce) + "/" + name
  }

  /** The converted file's name: the path with its extension replaced by ".mobi". */
  function MobiName(path: string): (r: string)
    ensures IsSuffix(".mobi", r)
  {
    TrimSuffix(path, Ext(path)) + ".mobi"
  }

  /** The converted name's own extension is ".mobi". */
  lemma MobiNameExt(path: string)
    ensures Ext(MobiName(path)) == ".mobi"
  {
    ExtOfMobi(TrimSuffix(path, Ext(path)));
  }

  /** The extension is all that is dropped: the stem and the extension make up the path. */
  lemma MobiNameStem(path: string)
    ensures MobiName(path) == path[..|path| - |Ext(path)|] + ".mobi"
  {
    ExtIsSuffix(path);
  }

  /** A staged name without a '.' keeps all of it: ".mobi" is simply appended. */
  lemma MobiNameWithoutDot(nonce: Digits, name: string)
    requires AllAllowed(name) && '.' !in name
    ensures MobiName(StagingPath(nonce, name)) == StagingPath(nonce, name) + ".mobi"
  {
    var path := StagingPath(nonce, name);
    if name == "" {
      DigitsHaveNoDot(nonce);
      assert path == "/tmp/" + ("book" + nonce);
      ExtWithoutDot("/tmp/", "book" + nonce);
    } else {
      ExtWithoutDot(TempDir(nonce) + "/", name);
    }
  }

  lemma ExtWithoutDot(prefix: string, name: string)
    requires prefix != [] && prefix[|prefix| - 1] == '/'
    requires '/' !in name && '.' !in name
    ensures Ext(prefix + name) == ""
  {
    ChildElement(prefix, name);
  }

  lemma DigitsHaveNoDot(nonce: Digits)
    ensures '.' !in "book" + nonce && '/' !in "book" + nonce
  {
    var s := "book" + nonce;
    assert forall i | 0 <= i < |s| :: s[i] != '.' && s[i] != '/' by {
      forall i | 0 <= i < |s| ensures s[i] != '.' && s[i] != '/' {
        if i >= 4 {
          assert s[i] == nonce[i - 4];
        }
      }
    }
  }

  /** The outcomes of the converter's I/O steps. */
  datatype Environment = Environment(
    tempDir: Result<Digits, Error>,  // the directory is created, with this random part
    write: Option<Error>,            // writing the staged file fails with this error
    run: Option<Error>,              // `ebook-convert` fails with this error
    read: Result<Bytes, Error>)      // reading the .mobi back

  /** What the converter asks of the system, in order. */
  datatype Effect =
    | MakeTempDir(dir: string, pattern: string)
    | WriteFile(path: string, content: Bytes)
    | Run(command: seq<string>)
    | ReadFile(path: string)
    | RemoveAll(path: string)

  /** `ConvertFile`'s three results; `content` is None for a nil slice. */
  datatype Converted = Converted(name: string, content: Option<Bytes>, err: Option<Error>)

  /** The converter command line for a staged file. */
  function Command(path: string): seq<string>
  {
    ["ebook-convert", path, MobiName(path), "--mobi-keep-original-images"]
  }

  /** What `ConvertFile` returns: the .mobi path and its bytes, or, on the first
      failing step, "", nil and that step's error. */
  function Conversion(filename: string, env: Environment): Converted
  {
    match env.tempDir
    case Failure(e) => Converted("", None, Some(e))
    case Success(nonce) =>
      if env.write.Some? then Converted("", None, env.write)
      else if env.run.Some? then Converted("", None, env.run)
      else
        match env.read
        case Failure(e) => Converted("", None, Some(e))
        case Success(bytes) => Converted(MobiName(StagingPath(nonce, Sanitize(filename))), Some(bytes), None)
  }
  /** All or nothing: an error comes with no name and no content, success with both,
      and success needs every step to succeed; the error is that of the first failing
      step; the name is the staged path with its extension replaced by ".mobi". */
  lemma ConversionOutcome(filename: string, env: Environment)
    ensures var c := Conversion(filename, env);
      && (c.err.Some? ==> c.name == "" && c.content == None)
      && (c.err.None? ==> c.content.Some? && IsSuffix(".mobi", c.name))
      && (c.err.None? <==> env.tempDir.Success? && env.write.None? && env.run.None? && env.read.Success?)
      && (env.tempDir.Failure? ==> c.err == Some(env.tempDir.error))
      && (env.tempDir.Success? && env.write.Some? ==> c.err == env.write)
      && (env.tempDir.Success? && env.write.None? && env.run.Some? ==> c.err == env.run)
      && (env.tempDir.Success? && env.write.None? && env.run.None? ==>
            match env.read
            case Failure(e) => c.err == Some(e)
            case Success(bytes) =>
              c.content == Some(bytes) && c.name == MobiName(StagingPath(env.tempDir.value, Sanitize(filename))))
  {
  }


  /** A file named `stem` + ".epub", with a plain non-empty stem, converts to
      `stem` + ".mobi" inside the temporary directory. */
  lemma ConvertedEpubName(stem: string, env: Environment)
    requires stem != "" && AllAllowed(stem) && '.' !in stem
    requires Conversion(stem + ".epub", env).err.None?
    ensures Conversion(stem + ".epub", env).name == TempDir(env.tempDir.value) + "/" + stem + ".mobi"
    ensures Base(Conversion(stem + ".epub", env).name) == stem + ".mobi"
  {
    var name, nonce := stem + ".epub", env.tempDir.value;
    ConversionOutcome(name, env);
    EpubStagedAsMobi(nonce, stem);
    SanitizeKeepsAllowed(name);
    assert Conversion(name, env).name == MobiName(StagingPath(nonce, name));
  }

  lemma EpubStagedAsMobi(nonce: Digits, stem: string)
    requires stem != "" && AllAllowed(stem) && '.' !in stem
    ensures AllAllowed(stem + ".epub")
    ensures MobiName(StagingPath(nonce, stem + ".epub")) == TempDir(nonce) + "/" + stem + ".mobi"
    ensures Base(TempDir(nonce) + "/" + stem + ".mobi") == stem + ".mobi"
  {
    MobiBase(TempDir(nonce), stem);
    var dir := TempDir(nonce);
    var prefix := dir + "/" + stem;
    StagedEpub(nonce, stem);
    assert StagingPath(nonce, stem + ".epub") == prefix + ".epub";
    MobiOfDotted(prefix, ".epub");
    assert MobiName(StagingPath(nonce, stem + ".epub")) == prefix + ".mobi";

  }

  lemma MobiBase(dir: string, stem: string)
    requires AllAllowed(stem)
    ensures Base(dir + "/" + stem + ".mobi") == stem + ".mobi"
  {
    var name := stem + ".mobi";
    assert AllAllowed(name);
    AllowedHasNoSlash(name);
    BaseOfChild(dir, name);
    assert dir + "/" + stem + ".mobi" == dir + "/" + name;
  }

  lemma StagedEpub(nonce: Digits, stem: string)
    requires stem != "" && AllAllowed(stem)
    ensures AllAllowed(stem + ".epub")
    ensures StagingPath(nonce, stem + ".epub") == TempDir(nonce) + "/" + stem + ".epub"
  {
    var name := stem + ".epub";
    assert AllAllowed(name);
    assert name !in {"", ".", ".."} by {
      assert |name| > 2;
    }
    assert TempDir(nonce) + "/" + name == TempDir(nonce) + "/" + stem + ".epub";
  }

  /** Replacing an extension by ".mobi" keeps everything before it. */
  lemma MobiOfDotted(prefix: string, ext: string)
    requires |ext| >= 1 && ext[0] == '.' && '.' !in ext[1..] && '/' !in ext
    ensures MobiName(prefix + ext) == prefix + ".mobi"
  {
    ExtOfDotted(prefix, ext);
    MobiNameStem(prefix + ext);
    assert (prefix + ext)[..|prefix|] == prefix;
  }

  lemma AllowedHasNoSlash(s: string)
    requires AllAllowed(s)
    ensures '/' !in s
  {
    forall i | 0 <= i < |s| ensures s[i] != '/' {
      assert IsAllowed(s[i]);
    }
  }

  /** The effects `ConvertFile` asks for: the directory is made first; once it exists,
      the staged file is written, the converter run and its output read, each only if
      the step before succeeded, and the directory is removed last whatever happened. */
  function Effects(filename: string, content: Bytes, env: Environment): seq<Effect>
  {
    match env.tempDir
    case Failure(_) => [MakeTempDir("/tmp", "book")]
    case Success(nonce) =>
      var path := StagingPath(nonce, Sanitize(filename));
      var cleanUp := RemoveAll(TempDir(nonce));
      var written := [MakeTempDir("/tmp", "book"), WriteFile(path, content)];
      if env.write.Some? then written + [cleanUp]
      else
        var ran := written + [Run(Command(path))];
        if env.run.Some? then ran + [cleanUp]
        else ran + [ReadFile(MobiName(path))] + [cleanUp]
  }

  /** The directory is made first, and nothing else happens when that fails; otherwise
      the staged file is written to the sanitised name, the converter runs only if the
      write succeeded and the read-back only if the converter did, and removing the
      directory is always the last effect. */
  lemma EffectsOrder(filename: string, content: Bytes, env: Environment)
    ensures var effects := Effects(filename, content, env);
      && |effects| >= 1 && effects[0] == MakeTempDir("/tmp", "book")
      && (env.tempDir.Failure? ==> |effects| == 1)
    ensures env.tempDir.Success? ==>
      var effects, path := Effects(filename, content, env), StagingPath(env.tempDir.value, Sanitize(filename));
      && 3 <= |effects| <= 5
      && effects[1] == WriteFile(path, content)
      && effects[|effects| - 1] == RemoveAll(TempDir(env.tempDir.value))
      && (env.write.Some? ==> |effects| == 3)
      && (env.write.None? ==> effects[2] == Run(Command(path)))
      && (env.write.None? && env.run.Some? ==> |effects| == 4)
      && (env.write.None? && env.run.None? ==> |effects| == 5 && effects[3] == ReadFile(MobiName(path)))
  {
    if env.tempDir.Success? {
      var nonce := env.tempDir.value;
      var path := StagingPath(nonce, Sanitize(filename));
      var cleanUp := RemoveAll(TempDir(nonce));
      var written := [MakeTempDir("/tmp", "book"), WriteFile(path, content)];
      if env.write.Some? {
        Appended(written, cleanUp);
      } else {
        var ran := written + [Run(Command(path))];
        Appended(written, Run(Command(path)));
        if env.run.Some? {
          Appended(ran, cleanUp);
        } else {
          Appended(ran, ReadFile(MobiName(path)));
          Appended(ran + [ReadFile(MobiName(path))], cleanUp);
        }
      }
    }
  }

  lemma Appended<T>(a: seq<T>, x: T)
    ensures |a + [x]| == |a| + 1 && (a + [x])[|a|] == x
    ensures forall i | 0 <= i < |a| :: (a + [x])[i] == a[i]
  {
  }



  /** `ConvertFile`, step by step with its early returns. */
  method ConvertFile(filename: string, content: Bytes, env: Environment) returns (c: Converted, effects: seq<Effect>)
    ensures c == Conversion(filename, env)
    ensures effects == Effects(filename, content, env)
  {
    effects := [MakeTempDir("/tmp", "book")];
    if env.tempDir.Failure? {
      return Converted("", None, Some(env.tempDir.error)), effects;
    }
    var nonce := env.tempDir.value;
    var dir := TempDir(nonce);
    var path := StagingPath(nonce, Sanitize(filename));
    effects := effects + [WriteFile(path, content)];
    PairDisplay(MakeTempDir("/tmp", "book"), WriteFile(path, content));
    if env.write.Some? {
      return Converted("", None, env.write), effects + [RemoveAll(dir)];
    }
    var mobiName := MobiName(path);
    effects := effects + [Run(["ebook-convert", path, mobiName, "--mobi-keep-original-images"])];
    if env.run.Some? {
      return Converted("", None, env.run), effects + [RemoveAll(dir)];
    }
    effects := effects + [ReadFile(mobiName)];
    match env.read {
      case Failure(e) =>
        return Converted("", None, Some(e)), effects + [RemoveAll(dir)];
      case Success(bytes) =>
        return Converted(mobiName, Some(bytes), None), effects + [RemoveAll(dir)];
    }
  }

  lemma PairDisplay<T>(x: T, y: T)
    ensures [x] + [y] == [x, y]
  {
  }
}
