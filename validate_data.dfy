/**
 * The data validator of scripts/validate_data.py. A manifest holds one
 * `<hash> <filename>` record per line; for each line in order the validator
 * hashes the file `str(Path(data_directory)) + filename`, as pathlib prints
 * it, and stops at the first line that does not split into two tokens, names
 * a file that cannot be read, or records a hash different from the file's
 * digest.
 *
 * The filesystem is a map from path to contents and the hash function
 * (SHA-1 as hex in the script) is a parameter, so every property below
 * holds whatever digest function is used.
 */
module ValidateData {
  import opened PyText
  import PyPath

  newtype byte = x: int | 0 <= x < 256

  type Bytes = seq<byte>

  /**
   * The files the validator can read, keyed by their path as pathlib prints
   * it (`str(Path(p))`), so `a//b`, `./a/b` and `a/b/` all name the key `a/b`.
   */
  type FileSystem = map<string, Bytes>

  /** A hex digest of a file's bytes; `hashlib.sha1(...).hexdigest()` in the script. */
  type Digest = Bytes -> string

  datatype Option<T> = None | Some(value: T)

  /** How a run ends: normally, or with the exception the script raises. */
  datatype Outcome =
    | Passed
      /** ValueError from unpacking `line.split()` into exactly two names. */
    | Malformed(line: string, tokens: nat)
      /** FileNotFoundError from reading a file that is not there. */
    | IOError(path: string)
      /** The ValueError raised when a recomputed hash differs from the record. */
    | Mismatch(filename: string, actual: string, expected: string)
      /** The RuntimeError of `main` when no directory is given. */
    | UsageError(message: string)

  /** What `file_hash` gives back: the digest, or the read error it lets through. */
  datatype HashResult = Hashed(hex: string) | Unreadable(path: string)

  /**
   * `file_hash(filename)`: `Path(filename).read_bytes()` opens the file
   * pathlib prints for `filename`, and the digest covers all its bytes; a
   * missing file gives the read error, which names that printed path.
   */
  function FileHash(fs: FileSystem, path: string, digest: Digest): (r: HashResult)
    ensures r.Unreadable? <==> PyPath.Normalize(path) !in fs
    ensures r.Unreadable? ==> r.path == PyPath.Normalize(path)
    ensures r.Hashed? ==> r.hex == digest(fs[PyPath.Normalize(path)])
  {
    var file := PyPath.Normalize(path);
    if file in fs then Hashed(digest(fs[file])) else Unreadable(file)
  }

  /** The hash depends only on the bytes: two files with equal contents hash alike. */
  lemma FileHashDependsOnContents(fs: FileSystem, p: string, q: string, digest: Digest)
    requires PyPath.Normalize(p) in fs && PyPath.Normalize(q) in fs
    requires fs[PyPath.Normalize(p)] == fs[PyPath.Normalize(q)]
    ensures FileHash(fs, p, digest).Hashed?
    ensures FileHash(fs, p, digest) == FileHash(fs, q, digest)
  {
  }

  /** A trailing slash on a plain file name still opens that file. */
  lemma FileHashIgnoresTrailingSlash(fs: FileSystem, p: string, digest: Digest)
    requires PyPath.IsNamed(p)
    ensures FileHash(fs, p + "/", digest) == FileHash(fs, p, digest)
  {
    PyPath.NormalizeTrailingSlash(p);
    PyPath.NormalizePlainName(p);
  }

  /** The file a manifest line names: the printed directory and the file name, printed by pathlib. */
  function FilePath(prefix: string, filename: string): string
  {
    PyPath.Normalize(prefix + filename)
  }

  const MessageHead: string := "Hash for "
  const MessageMiddle: string := " is "
  const MessageTail: string := ", which does not match the expected "

  /** The text of the mismatch error, the f-string of the script. */
  function MismatchMessage(filename: string, actual: string, expected: string): (m: string)
    ensures |m| >= |MessageHead| + |filename| + |expected|
    ensures m[..|MessageHead|] == MessageHead
    ensures m[|MessageHead|..|MessageHead| + |filename|] == filename
    ensures m[|m| - |expected|..] == expected
  {
    MessageHead + filename + MessageMiddle + actual + MessageTail + expected
  }

  /** Length of the longest suffix of `s` free of whitespace. */
  function TrailingWordRun(s: string): (n: nat)
    ensures n <= |s|
    ensures forall i :: |s| - n <= i < |s| ==> !IsSpace(s[i])
    ensures n < |s| ==> IsSpace(s[|s| - n - 1])
    decreases |s|
  {
    if s == [] || IsSpace(s[|s| - 1]) then 0 else 1 + TrailingWordRun(s[..|s| - 1])
  }

  lemma {:induction false} TrailingWordRunAppend(a: string, e: string)
    requires NoSpace(e)
    requires a == [] || IsSpace(a[|a| - 1])
    ensures TrailingWordRun(a + e) == |e|
    decreases |e|
  {
    if e == [] {
      assert a + e == a;
    } else {
      var s := a + e;
      assert s[|s| - 1] == e[|e| - 1];
      assert s[..|s| - 1] == a + e[..|e| - 1];
      TrailingWordRunAppend(a, e[..|e| - 1]);
    }
  }

  /**
   * Reads a mismatch message back: the file name is the token after
   * "Hash for ", the expected hash the token at the end.
   */
  function ParseMismatchMessage(m: string): Option<(string, string)>
  {
    if |m| < |MessageHead| || m[..|MessageHead|] != MessageHead then None
    else
      var rest := m[|MessageHead|..];
      var n := WordRun(rest);
      var k := TrailingWordRun(m);
      if n == 0 || k == 0 then None else Some((rest[..n], m[|m| - k..]))
  }

  /** The file name is the whole token that follows "Hash for ". */
  lemma MessageNamesFile(filename: string, actual: string, expected: string)
    requires IsToken(filename)
    ensures var rest := MismatchMessage(filename, actual, expected)[|MessageHead|..];
      WordRun(rest) == |filename| && rest[..|filename|] == filename
  {
    var after := MessageMiddle + actual + MessageTail + expected;
    var m := MismatchMessage(filename, actual, expected);
    RegroupMessage(MessageHead, filename, MessageMiddle, actual, MessageTail, expected);
    assert m[|MessageHead|..] == filename + after;
    assert after[0] == MessageMiddle[0] == ' ';
    WordRunAppend(filename, after);
  }

  lemma RegroupMessage(h: string, f: string, mid: string, a: string, t: string, e: string)
    ensures h + f + mid + a + t + e == h + (f + (mid + a + t + e))
  {
    var x := mid + a + t + e;
    assert h + f + mid + a + t + e == h + f + x;
  }

  /** The expected hash is the whole token at the end of the message. */
  lemma MessageEndsWithHash(filename: string, actual: string, expected: string)
    requires IsToken(expected)
    ensures var m := MismatchMessage(filename, actual, expected);
      TrailingWordRun(m) == |expected| && m[|m| - |expected|..] == expected
  {
    var m := MismatchMessage(filename, actual, expected);
    var front := MessageHead + filename + MessageMiddle + actual + MessageTail;
    assert m == front + expected;
    assert front[|front| - 1] == ' ';
    TrailingWordRunAppend(front, expected);
  }

  /** The mismatch message carries the file name and the expected hash recoverably. */
  lemma MismatchMessageNamesFileAndHash(filename: string, actual: string, expected: string)
    requires IsToken(filename) && IsToken(expected)
    ensures ParseMismatchMessage(MismatchMessage(filename, actual, expected)) == Some((filename, expected))
  {
    MessageNamesFile(filename, actual, expected);
    MessageEndsWithHash(filename, actual, expected);
  }

  /**
   * One pass of the loop body for `line`, with `prefix` the printed
   * directory: unpack `line.split()` into hash and file name, hash the file
   * `prefix + filename` (as pathlib prints it) and compare the two strings
   * exactly. Each failure carries what the script reports about it.
   */
  function CheckLine(prefix: string, line: string, fs: FileSystem, digest: Digest): (r: Outcome)
    ensures r.Passed? <==>
      |Split(line)| == 2 && FilePath(prefix, Split(line)[1]) in fs && digest(fs[FilePath(prefix, Split(line)[1])]) == Split(line)[0]
    ensures r.Malformed? <==> |Split(line)| != 2
    ensures r.Malformed? ==> r == Malformed(line, |Split(line)|)
    ensures r.Mismatch? ==> IsToken(r.filename) && IsToken(r.expected)
    ensures r.Mismatch? ==>
      |Split(line)| == 2 && r.filename == Split(line)[1] && r.expected == Split(line)[0] &&
      FilePath(prefix, Split(line)[1]) in fs && r.actual == digest(fs[FilePath(prefix, Split(line)[1])])
    ensures r.IOError? <==> |Split(line)| == 2 && FilePath(prefix, Split(line)[1]) !in fs
    ensures r.IOError? ==> r.path == FilePath(prefix, Split(line)[1])
    ensures !r.UsageError?
  {
    var tokens := Split(line);
    if |tokens| != 2 then Malformed(line, |tokens|)
    else
      var hash, filename := tokens[0], tokens[1];
      match FileHash(fs, prefix + filename, digest)
      case Unreadable(path) => IOError(path)
      case Hashed(actual) => if actual != hash then Mismatch(filename, actual, hash) else Passed
  }

  /** A token, then whitespace, then more: the token comes first and the whitespace is dropped. */
  lemma SplitTokenSpace(t: string, w: string, rest: string)
    requires IsToken(t) && AllSpace(w) && w != []
    ensures Split(t + w + rest) == [t] + Split(rest)
  {
    assert t + w + rest == t + (w + rest);
    assert (w + rest)[0] == w[0];
    SplitToken(t, w + rest);
    SplitSkipsSpace(w, rest);
  }

  /** A record line splits into its hash and its file name, whatever whitespace surrounds them. */
  lemma SplitRecord(w0: string, hash: string, w1: string, filename: string, w2: string)
    requires IsToken(hash) && IsToken(filename)
    requires AllSpace(w0) && AllSpace(w1) && AllSpace(w2) && w1 != []
    ensures Split(w0 + hash + w1 + filename + w2) == [hash, filename]
  {
    var y := filename + w2;
    var x := hash + w1 + y;
    Regroup(w0, hash, w1, filename, w2);
    SplitSkipsSpace(w0, x);
    SplitTokenSpace(hash, w1, y);
    SplitLast(filename, w2);
    assert Split(x) == [hash] + [filename];
  }

  lemma Regroup(a: string, b: string, c: string, d: string, e: string)
    ensures a + b + c + d + e == a + (b + c + (d + e))
  {
    var p := a + b + c;
    assert p + d + e == p + (d + e);
    assert p + (d + e) == (a + (b + c)) + (d + e);
  }

  /** A token followed only by whitespace is the one token. */
  lemma SplitLast(t: string, w: string)
    requires IsToken(t) && AllSpace(w)
    ensures Split(t + w) == [t]
  {
    assert w == [] || IsSpace(w[0]);
    SplitToken(t, w);
    SplitEmptyIff(w);
    assert [t] + [] == [t];
  }

  /**
   * A record `hash filename`, with any whitespace around and between the two
   * tokens, reads the file `prefix + filename`, as pathlib prints it, and nothing else, and passes
   * exactly when that file's digest is the recorded hash.
   */
  lemma CheckLineOfRecord(prefix: string, w0: string, hash: string, w1: string, filename: string, w2: string,
                          fs: FileSystem, digest: Digest)
    requires IsToken(hash) && IsToken(filename)
    requires AllSpace(w0) && AllSpace(w1) && AllSpace(w2) && w1 != []
    ensures var path := FilePath(prefix, filename);
      CheckLine(prefix, w0 + hash + w1 + filename + w2, fs, digest) ==
        if path !in fs then IOError(path)
        else if digest(fs[path]) == hash then Passed
        else Mismatch(filename, digest(fs[path]), hash)
  {
    SplitRecord(w0, hash, w1, filename, w2);
  }

  /** The record `hash filename` with one space between. */
  lemma CheckSpacedRecord(prefix: string, hash: string, filename: string, fs: FileSystem, digest: Digest)
    requires IsToken(hash) && IsToken(filename)
    ensures var path := FilePath(prefix, filename);
      CheckLine(prefix, hash + " " + filename, fs, digest) ==
        if path !in fs then IOError(path)
        else if digest(fs[path]) == hash then Passed
        else Mismatch(filename, digest(fs[path]), hash)
  {
    assert AllSpace(" ");
    EmptyEnds(hash, " ", filename);
    CheckLineOfRecord(prefix, [], hash, " ", filename, [], fs, digest);
  }

  lemma EmptyEnds(a: string, b: string, c: string)
    ensures [] + a + b + c + [] == a + b + c
  {
    assert [] + a == a;
  }

  /** An empty or all-whitespace line is an error, not a line to skip. */
  lemma CheckLineBlank(prefix: string, line: string, fs: FileSystem, digest: Digest)
    requires AllSpace(line)
    ensures CheckLine(prefix, line, fs, digest) == Malformed(line, 0)
  {
    SplitEmptyIff(line);
  }

  /**
   * A line of one token, or of three or more, with any whitespace around and
   * between them, is an error naming how many tokens there were.
   */
  lemma CheckLineArity(prefix: string, tokens: seq<string>, ws: seq<string>, fs: FileSystem, digest: Digest)
    requires IsLayout(tokens, ws)
    requires |tokens| != 2
    ensures CheckLine(prefix, Layout(tokens, ws), fs, digest) == Malformed(Layout(tokens, ws), |tokens|)
  {
    SplitLayout(tokens, ws);
  }

  /** Python's `str.upper` restricted to ASCII letters. */
  function AsciiUpper(s: string): (r: string)
    ensures |r| == |s|
    ensures forall i :: 0 <= i < |s| ==> ('a' <= s[i] <= 'z' ==> r[i] as int == s[i] as int - 32)
    ensures forall i :: 0 <= i < |s| ==> (!('a' <= s[i] <= 'z') ==> r[i] == s[i])
  {
    seq(|s|, i requires 0 <= i < |s| => if 'a' <= s[i] <= 'z' then (s[i] as int - 32) as char else s[i])
  }

  /**
   * The comparison is exact: a record holding the right digest in upper case
   * is a mismatch as soon as the digest has a lower-case letter.
   */
  lemma CheckLineCaseSensitive(prefix: string, filename: string, fs: FileSystem, digest: Digest, k: nat)
    requires IsToken(filename) && FilePath(prefix, filename) in fs
    requires IsToken(digest(fs[FilePath(prefix, filename)]))
    requires k < |digest(fs[FilePath(prefix, filename)])| && 'a' <= digest(fs[FilePath(prefix, filename)])[k] <= 'z'
    ensures var actual := digest(fs[FilePath(prefix, filename)]);
      CheckLine(prefix, AsciiUpper(actual) + " " + filename, fs, digest) ==
        Mismatch(filename, actual, AsciiUpper(actual))
  {
    var actual := digest(fs[FilePath(prefix, filename)]);
    var upper := AsciiUpper(actual);
    assert upper[k] != actual[k];
    assert IsToken(upper) by {
      forall i | 0 <= i < |upper|
        ensures !IsSpace(upper[i])
      {
        assert !IsSpace(actual[i]);
      }
    }
    CheckSpacedRecord(prefix, upper, filename, fs, digest);
  }

  /** Only the file the line names is read: filesystems that agree on it give the same outcome. */
  lemma CheckLineReadsOnlyItsFile(prefix: string, line: string, fs1: FileSystem, fs2: FileSystem, digest: Digest)
    requires |Split(line)| == 2
    requires FilePath(prefix, Split(line)[1]) in fs1 <==> FilePath(prefix, Split(line)[1]) in fs2
    requires FilePath(prefix, Split(line)[1]) in fs1 ==> fs1[FilePath(prefix, Split(line)[1])] == fs2[FilePath(prefix, Split(line)[1])]
    ensures CheckLine(prefix, line, fs1, digest) == CheckLine(prefix, line, fs2, digest)
  {
  }

  /** The loop over the manifest's lines, as a function: the first failing line decides. */
  function CheckLines(prefix: string, lines: seq<string>, fs: FileSystem, digest: Digest): (r: Outcome)
    ensures !r.UsageError?
    ensures r.Mismatch? ==> IsToken(r.filename) && IsToken(r.expected)
    decreases |lines|
  {
    if lines == [] then Passed
    else
      var first := CheckLine(prefix, lines[0], fs, digest);
      if first != Passed then first else CheckLines(prefix, lines[1..], fs, digest)
  }

  /** The run passes exactly when every line passes; an empty manifest passes. */
  lemma {:induction false} CheckLinesPassedIff(prefix: string, lines: seq<string>, fs: FileSystem, digest: Digest)
    ensures CheckLines(prefix, lines, fs, digest) == Passed <==>
      forall i :: 0 <= i < |lines| ==> CheckLine(prefix, lines[i], fs, digest) == Passed
    decreases |lines|
  {
    if lines != [] {
      var rest := lines[1..];
      CheckLinesPassedIff(prefix, rest, fs, digest);
      if CheckLine(prefix, lines[0], fs, digest) == Passed {
        if CheckLines(prefix, rest, fs, digest) == Passed {
          forall i | 0 <= i < |lines|
            ensures CheckLine(prefix, lines[i], fs, digest) == Passed
          {
            if i > 0 {
              assert lines[i] == rest[i - 1];
            }
          }
        } else {
          var j :| 0 <= j < |rest| && CheckLine(prefix, rest[j], fs, digest) != Passed;
          assert lines[j + 1] == rest[j];
        }
      }
    }
  }

  /** The outcome is that of the first failing line, whatever the lines after it hold. */
  lemma {:induction false} CheckLinesFirstFailure(prefix: string, lines: seq<string>, fs: FileSystem, digest: Digest, i: nat)
    requires i < |lines|
    requires forall j :: 0 <= j < i ==> CheckLine(prefix, lines[j], fs, digest) == Passed
    requires CheckLine(prefix, lines[i], fs, digest) != Passed
    ensures CheckLines(prefix, lines, fs, digest) == CheckLine(prefix, lines[i], fs, digest)
    decreases i
  {
    if i > 0 {
      var rest := lines[1..];
      assert CheckLine(prefix, lines[0], fs, digest) == Passed;
      forall j | 0 <= j < i - 1
        ensures CheckLine(prefix, rest[j], fs, digest) == Passed
      {
        assert rest[j] == lines[j + 1];
      }
      assert rest[i - 1] == lines[i];
      CheckLinesFirstFailure(prefix, rest, fs, digest, i - 1);
    }
  }

  /** No line after a failure is parsed or hashed: appending lines cannot change a failed run. */
  lemma {:induction false} CheckLinesAppend(prefix: string, a: seq<string>, b: seq<string>, fs: FileSystem, digest: Digest)
    ensures CheckLines(prefix, a + b, fs, digest) ==
      if CheckLines(prefix, a, fs, digest) == Passed then CheckLines(prefix, b, fs, digest)
      else CheckLines(prefix, a, fs, digest)
    decreases |a|
  {
    if a == [] {
      assert a + b == b;
    } else {
      assert (a + b)[0] == a[0];
      assert (a + b)[1..] == a[1..] + b;
      CheckLinesAppend(prefix, a[1..], b, fs, digest);
    }
  }

  /** Lines that pass up to `i`, and line `i` too, pass up to `i + 1`. */
  lemma PassedThrough(prefix: string, lines: seq<string>, fs: FileSystem, digest: Digest, i: nat)
    requires i < |lines|
    requires forall j :: 0 <= j < i ==> CheckLine(prefix, lines[j], fs, digest) == Passed
    requires CheckLine(prefix, lines[i], fs, digest) == Passed
    ensures forall j :: 0 <= j < i + 1 ==> CheckLine(prefix, lines[j], fs, digest) == Passed
  {
  }

  /**
   * `validate_data(data_directory)` given the text of its manifest: walks the
   * lines in order, rebinding hash, file name, path and actual hash on each
   * pass, and ends at the first failure. Every line before `i` has passed, so
   * a failure at line `i` is the run's outcome.
   */
  method Validate(dataDirectory: string, manifest: string, fs: FileSystem, digest: Digest) returns (r: Outcome)
    ensures r == CheckLines(PyPath.Normalize(dataDirectory), SplitLines(manifest), fs, digest)
  {
    var localPath := PyPath.Normalize(dataDirectory);
    var lines := SplitLines(manifest);
    for i := 0 to |lines|
      invariant forall j :: 0 <= j < i ==> CheckLine(localPath, lines[j], fs, digest) == Passed
    {
      var line := lines[i];
      var tokens := Split(line);
      if |tokens| != 2 {
        assert CheckLine(localPath, line, fs, digest) == Malformed(line, |tokens|);
        CheckLinesFirstFailure(localPath, lines, fs, digest, i);
        return Malformed(line, |tokens|);
      }
      var hash, filename := tokens[0], tokens[1];
      var filenamePath := localPath + filename;
      var hashAct := FileHash(fs, filenamePath, digest);
      if hashAct.Unreadable? {
        assert CheckLine(localPath, line, fs, digest) == IOError(hashAct.path);
        CheckLinesFirstFailure(localPath, lines, fs, digest, i);
        return IOError(hashAct.path);
      }
      if hashAct.hex != hash {
        assert CheckLine(localPath, line, fs, digest) == Mismatch(filename, hashAct.hex, hash);
        CheckLinesFirstFailure(localPath, lines, fs, digest, i);
        return Mismatch(filename, hashAct.hex, hash);
      }
      assert CheckLine(localPath, line, fs, digest) == Passed;
      PassedThrough(localPath, lines, fs, digest, i);
    }
    CheckLinesPassedIff(localPath, lines, fs, digest);
    return Passed;
  }

  const UsageMessage: string := "Please give data directory on command line"

  /**
   * `main`: with fewer than two entries in `argv` the run fails with the
   * usage error; otherwise it validates `argv[1]` and nothing else.
   */
  method Run(argv: seq<string>, manifest: string, fs: FileSystem, digest: Digest) returns (r: Outcome)
    ensures r == UsageError(UsageMessage) <==> |argv| < 2
    ensures |argv| >= 2 ==> r == CheckLines(PyPath.Normalize(argv[1]), SplitLines(manifest), fs, digest)
  {
    if |argv| < 2 {
      return UsageError(UsageMessage);
    }
    var dataDirectory := argv[1];
    r := Validate(dataDirectory, manifest, fs, digest);
  }

  /**
   * The text of the exceptions whose message the script writes: the
   * mismatch f-string and the usage message. Python writes the text of the
   * unpacking and read errors itself.
   */
  function ErrorText(o: Outcome): (t: Option<string>)
    ensures t.Some? <==> o.Mismatch? || o.UsageError?
  {
    match o
    case Mismatch(filename, actual, expected) => Some(MismatchMessage(filename, actual, expected))
    case UsageError(message) => Some(message)
    case _ => None
  }

  /** A run that ends in a mismatch reports a message from which its file name and expected hash read back. */
  lemma CheckLinesMismatchText(prefix: string, lines: seq<string>, fs: FileSystem, digest: Digest)
    ensures var o := CheckLines(prefix, lines, fs, digest);
      o.Mismatch? ==> ErrorText(o).Some? && ParseMismatchMessage(ErrorText(o).value) == Some((o.filename, o.expected))
  {
    var o := CheckLines(prefix, lines, fs, digest);
    if o.Mismatch? {
      MismatchMessageNamesFileAndHash(o.filename, o.actual, o.expected);
    }
  }

  /** The manifest line recording the current digest of the file `prefix + name`. */
  function Record(prefix: string, name: string, fs: FileSystem, digest: Digest): string
    requires FilePath(prefix, name) in fs
  {
    digest(fs[FilePath(prefix, name)]) + " " + name
  }

  /** The record of each of `names`, in order. */
  function Records(prefix: string, names: seq<string>, fs: FileSystem, digest: Digest): (r: seq<string>)
    requires forall i :: 0 <= i < |names| ==> FilePath(prefix, names[i]) in fs
    ensures |r| == |names|
    ensures forall i :: 0 <= i < |names| ==> r[i] == Record(prefix, names[i], fs, digest)
  {
    seq(|names|, i requires 0 <= i < |names| => Record(prefix, names[i], fs, digest))
  }

  /** The manifest of `names`: their records, one per line, each followed by `eol`. */
  function ManifestFor(prefix: string, names: seq<string>, fs: FileSystem, digest: Digest, eol: string): string
    requires forall i :: 0 <= i < |names| ==> FilePath(prefix, names[i]) in fs
  {
    Terminated(Records(prefix, names, fs, digest), eol)
  }

  /** A record line `hash filename` holds no line boundary, so it stays one line of the manifest. */
  lemma SpacedRecordHasNoLineBreak(hash: string, filename: string)
    requires IsToken(hash) && IsToken(filename)
    ensures NoLineBreak(hash + " " + filename)
  {
    var rec := hash + " " + filename;
    forall i | 0 <= i < |rec|
      ensures !IsLineBreak(rec[i])
    {
      if i < |hash| {
        assert rec[i] == hash[i];
        LineBreakIsSpace(hash[i]);
      } else if i == |hash| {
        assert rec[i] == ' ';
      } else {
        assert rec[i] == filename[i - |hash| - 1];
        LineBreakIsSpace(filename[i - |hash| - 1]);
      }
    }
  }

  lemma RecordHasNoLineBreak(prefix: string, name: string, fs: FileSystem, digest: Digest)
    requires FilePath(prefix, name) in fs
    requires IsToken(name) && IsToken(digest(fs[FilePath(prefix, name)]))
    ensures NoLineBreak(Record(prefix, name, fs, digest))
  {
    SpacedRecordHasNoLineBreak(digest(fs[FilePath(prefix, name)]), name);
  }

  lemma CheckRecord(prefix: string, name: string, fs: FileSystem, digest: Digest)
    requires FilePath(prefix, name) in fs
    requires IsToken(name) && IsToken(digest(fs[FilePath(prefix, name)]))
    ensures CheckLine(prefix, Record(prefix, name, fs, digest), fs, digest) == Passed
  {
    CheckSpacedRecord(prefix, digest(fs[FilePath(prefix, name)]), name, fs, digest);
  }

  /** Splitting a generated manifest into lines gives back its records. */
  lemma ManifestLines(prefix: string, names: seq<string>, fs: FileSystem, digest: Digest, eol: string)
    requires IsTerminator(eol)
    requires forall i :: 0 <= i < |names| ==> IsToken(names[i])
    requires forall i :: 0 <= i < |names| ==> FilePath(prefix, names[i]) in fs
    requires forall i :: 0 <= i < |names| ==> IsToken(digest(fs[FilePath(prefix, names[i])]))
    ensures SplitLines(ManifestFor(prefix, names, fs, digest, eol)) == Records(prefix, names, fs, digest)
  {
    var records := Records(prefix, names, fs, digest);
    forall i | 0 <= i < |records|
      ensures NoLineBreak(records[i])
    {
      RecordHasNoLineBreak(prefix, names[i], fs, digest);
    }
    SplitLinesTerminated(records, eol);
  }

  /**
   * Files unchanged since their manifest was written pass: a manifest that
   * records each file's current digest validates, whatever terminator it
   * uses (`prefix` is the printed data directory).
   */
  lemma ValidateFreshManifest(prefix: string, names: seq<string>, fs: FileSystem, digest: Digest, eol: string)
    requires IsTerminator(eol)
    requires forall i :: 0 <= i < |names| ==> IsToken(names[i])
    requires forall i :: 0 <= i < |names| ==> FilePath(prefix, names[i]) in fs
    requires forall i :: 0 <= i < |names| ==> IsToken(digest(fs[FilePath(prefix, names[i])]))
    ensures CheckLines(prefix, SplitLines(ManifestFor(prefix, names, fs, digest, eol)), fs, digest) == Passed
  {
    ManifestLines(prefix, names, fs, digest, eol);
    RecordsPass(prefix, names, fs, digest);
  }

  /** Records of current digests pass, one and all. */
  lemma RecordsPass(prefix: string, names: seq<string>, fs: FileSystem, digest: Digest)
    requires forall i :: 0 <= i < |names| ==> IsToken(names[i])
    requires forall i :: 0 <= i < |names| ==> FilePath(prefix, names[i]) in fs
    requires forall i :: 0 <= i < |names| ==> IsToken(digest(fs[FilePath(prefix, names[i])]))
    ensures CheckLines(prefix, Records(prefix, names, fs, digest), fs, digest) == Passed
  {
    var records := Records(prefix, names, fs, digest);
    forall i | 0 <= i < |records|
      ensures CheckLine(prefix, records[i], fs, digest) == Passed
    {
      CheckRecord(prefix, names[i], fs, digest);
    }
    CheckLinesPassedIff(prefix, records, fs, digest);
  }

  lemma RecordNotEmpty(prefix: string, name: string, fs: FileSystem, digest: Digest)
    requires FilePath(prefix, name) in fs
    ensures Record(prefix, name, fs, digest) != []
  {
    assert |Record(prefix, name, fs, digest)| >= 1;
  }

  /** The manifest of `names` with no terminator after its last record. */
  function UnterminatedManifestFor(prefix: string, names: seq<string>, fs: FileSystem, digest: Digest, eol: string): string
    requires names != []
    requires forall i :: 0 <= i < |names| ==> FilePath(prefix, names[i]) in fs
  {
    var records := Records(prefix, names, fs, digest);
    Terminated(records[..|records| - 1], eol) + records[|records| - 1]
  }

  /** A manifest of current digests validates also when its last line has no terminator. */
  lemma ValidateUnterminatedManifest(prefix: string, names: seq<string>, fs: FileSystem, digest: Digest, eol: string)
    requires IsTerminator(eol) && names != []
    requires forall i :: 0 <= i < |names| ==> IsToken(names[i])
    requires forall i :: 0 <= i < |names| ==> FilePath(prefix, names[i]) in fs
    requires forall i :: 0 <= i < |names| ==> IsToken(digest(fs[FilePath(prefix, names[i])]))
    ensures SplitLines(UnterminatedManifestFor(prefix, names, fs, digest, eol)) == Records(prefix, names, fs, digest)
    ensures CheckLines(prefix, SplitLines(UnterminatedManifestFor(prefix, names, fs, digest, eol)), fs, digest) == Passed
  {
    var records := Records(prefix, names, fs, digest);
    forall i | 0 <= i < |records|
      ensures NoLineBreak(records[i])
    {
      RecordHasNoLineBreak(prefix, names[i], fs, digest);
    }
    RecordNotEmpty(prefix, names[|names| - 1], fs, digest);
    SplitLinesUnterminated(records, eol);
    RecordsPass(prefix, names, fs, digest);
  }

  /** The records of the files other than that of `names[k]` still pass once that file is rewritten. */
  lemma OtherRecordsPass(prefix: string, names: seq<string>, fs: FileSystem, digest: Digest, k: nat, changed: Bytes)
    requires forall i :: 0 <= i < |names| ==> IsToken(names[i])
    requires forall i :: 0 <= i < |names| ==> FilePath(prefix, names[i]) in fs
    requires forall i :: 0 <= i < |names| ==> IsToken(digest(fs[FilePath(prefix, names[i])]))
    requires k < |names|
    ensures forall j :: 0 <= j < |names| && FilePath(prefix, names[j]) != FilePath(prefix, names[k]) ==>
      CheckLine(prefix, Record(prefix, names[j], fs, digest), fs[FilePath(prefix, names[k]) := changed], digest) == Passed
  {
    var path := FilePath(prefix, names[k]);
    var fs2 := fs[path := changed];
    forall j | 0 <= j < |names| && FilePath(prefix, names[j]) != path
      ensures CheckLine(prefix, Record(prefix, names[j], fs, digest), fs2, digest) == Passed
    {
      CheckRecordIn(prefix, names[j], fs, fs2, digest);
    }
  }

  /**
   * Changing one tracked file so that its digest changes makes the run fail
   * with a mismatch naming exactly that file, its new digest and the
   * recorded one (`prefix` is the printed data directory, and no two
   * records name the same file).
   */
  lemma ValidateDetectsChange(prefix: string, names: seq<string>, fs: FileSystem, digest: Digest,
                              eol: string, k: nat, changed: Bytes)
    requires IsTerminator(eol)
    requires forall i :: 0 <= i < |names| ==> IsToken(names[i])
    requires forall i, j :: 0 <= i < j < |names| ==> FilePath(prefix, names[i]) != FilePath(prefix, names[j])
    requires forall i :: 0 <= i < |names| ==> FilePath(prefix, names[i]) in fs
    requires forall i :: 0 <= i < |names| ==> IsToken(digest(fs[FilePath(prefix, names[i])]))
    requires k < |names|
    requires digest(changed) != digest(fs[FilePath(prefix, names[k])])
    ensures CheckLines(prefix, SplitLines(ManifestFor(prefix, names, fs, digest, eol)), fs[FilePath(prefix, names[k]) := changed], digest)
      == Mismatch(names[k], digest(changed), digest(fs[FilePath(prefix, names[k])]))
  {
    var path := FilePath(prefix, names[k]);
    var fs2 := fs[path := changed];
    var records := Records(prefix, names, fs, digest);
    ManifestLines(prefix, names, fs, digest, eol);
    OtherRecordsPass(prefix, names, fs, digest, k, changed);
    forall j | 0 <= j < k
      ensures CheckLine(prefix, records[j], fs2, digest) == Passed
    {
      assert FilePath(prefix, names[j]) != path;
    }
    ChangedRecordFails(prefix, names[k], fs, digest, changed);
    CheckLinesFirstFailure(prefix, records, fs2, digest, k);
  }

  lemma ChangedRecordFails(prefix: string, name: string, fs: FileSystem, digest: Digest, changed: Bytes)
    requires FilePath(prefix, name) in fs
    requires IsToken(name) && IsToken(digest(fs[FilePath(prefix, name)]))
    requires digest(changed) != digest(fs[FilePath(prefix, name)])
    ensures CheckLine(prefix, Record(prefix, name, fs, digest), fs[FilePath(prefix, name) := changed], digest)
      == Mismatch(name, digest(changed), digest(fs[FilePath(prefix, name)]))
  {
    CheckSpacedRecord(prefix, digest(fs[FilePath(prefix, name)]), name, fs[FilePath(prefix, name) := changed], digest);
  }

  lemma CheckRecordIn(prefix: string, name: string, fs: FileSystem, fs2: FileSystem, digest: Digest)
    requires FilePath(prefix, name) in fs && FilePath(prefix, name) in fs2 && fs2[FilePath(prefix, name)] == fs[FilePath(prefix, name)]
    requires IsToken(name) && IsToken(digest(fs[FilePath(prefix, name)]))
    ensures CheckLine(prefix, Record(prefix, name, fs, digest), fs2, digest) == Passed
  {
    CheckSpacedRecord(prefix, digest(fs[FilePath(prefix, name)]), name, fs2, digest);
  }

  /**
   * A one-line manifest `<digest> name` checked against a directory given as
   * one plain name, and a file name without '/': the file read is
   * `dir + name`, with no separator (for
   * `data` and `a.bin`, the file `dataa.bin`). The run passes while that
   * file is unchanged, reports a mismatch once its digest changes, and fails
   * to read it when the bytes sit at `dir/name` instead.
   */
  lemma PathHasNoSeparator(dir: string, name: string, digest: Digest, original: Bytes, edited: Bytes)
    requires PyPath.IsNamed(dir) && IsToken(name) && '/' !in name
    requires IsToken(digest(original))
    requires digest(edited) != digest(original)
    ensures var lines := SplitLines(digest(original) + " " + name + "\n");
      var prefix := PyPath.Normalize(dir);
      && CheckLines(prefix, lines, map[dir + name := original], digest) == Passed
      && CheckLines(prefix, lines, map[dir + name := edited], digest) == Mismatch(name, digest(edited), digest(original))
      && CheckLines(prefix, lines, map[dir + "/" + name := original], digest) == IOError(dir + name)
  {
    PyPath.NormalizePlainName(dir);
    assert PyPath.IsNamed(dir + name);
    PyPath.NormalizePlainName(dir + name);
    var h := digest(original);
    var line := h + " " + name;
    OneLineManifest(h, name);
    assert |dir + "/" + name| != |dir + name|;
    CheckSpacedRecord(dir, h, name, map[dir + name := original], digest);
    CheckSpacedRecord(dir, h, name, map[dir + name := edited], digest);
    CheckSpacedRecord(dir, h, name, map[dir + "/" + name := original], digest);
    CheckLinesSingle(dir, line, map[dir + name := original], digest);
    CheckLinesSingle(dir, line, map[dir + name := edited], digest);
    CheckLinesSingle(dir, line, map[dir + "/" + name := original], digest);
  }

  /** A manifest of one record and its `\n` is that one line. */
  lemma OneLineManifest(hash: string, filename: string)
    requires IsToken(hash) && IsToken(filename)
    ensures SplitLines(hash + " " + filename + "\n") == [hash + " " + filename]
  {
    var line := hash + " " + filename;
    SpacedRecordHasNoLineBreak(hash, filename);
    SplitLinesStepLF(line, []);
    assert line + "\n" + [] == line + "\n";
    assert SplitLines([]) == [];
  }

  lemma CheckLinesSingle(prefix: string, line: string, fs: FileSystem, digest: Digest)
    ensures CheckLines(prefix, [line], fs, digest) == CheckLine(prefix, line, fs, digest)
  {
    assert [line][1..] == [];
  }
}
