# validate_data, modelled in Dafny

`scripts/validate_data.py` checks a directory of data files against a
manifest of SHA-1 hashes. Each manifest line holds a recorded hash and a
file name. For each line, in manifest order, the script:

1. splits the line with `str.split()` and unpacks it into exactly `hash, filename`;
2. builds the path `str(Path(data_directory)) + filename` by plain string concatenation;
3. hashes that file's bytes;
4. raises a `ValueError` with the message
   `Hash for {filename} is {actual}, which does not match the expected {hash}`
   at the first mismatch.

`main` refuses to run without a directory argument and otherwise validates
`argv[1]`.

The project has three modules:

- `PyText` (`text.dfy`) models the two Python string built-ins the loop relies on.
  `Split` is `str.split()`: maximal runs of non-whitespace, with whitespace as
  `str.isspace` defines it (the Unicode set, not only ASCII). `SplitLines` is
  `str.splitlines()`, with the full set of Python line boundaries. `\r\n`
  counts as one boundary, and no empty line follows a final terminator.
- `PyPath` (`paths.dfy`) models `str(Path(d))` on POSIX. It keeps the anchor
  (`""`, `"/"` or `"//"`), drops empty and `.` parts, joins the rest with `/`,
  and prints `.` for the empty path. So the argument `data/` becomes the prefix `data`.
- `ValidateData` (`validate_data.dfy`) holds the validator itself:
  - The filesystem is a `map<string, seq<byte>>`, keyed by paths as pathlib
    prints them. `file_hash` opens `Path(filename)`, so the key looked up is
    `str(Path(prefix + filename))`: `a.bin/` and `./a.bin` open `a.bin`.
  - The digest function is a parameter, so SHA-1 stays uninterpreted.
  - Every run ends in an `Outcome`: `Passed`, `Malformed(line, tokens)`,
    `IOError(path)`, `Mismatch(filename, actual, expected)` or `UsageError(message)`.
  - `CheckLine` is one pass of the loop body, and `CheckLines` is the whole loop as a function.
  - `Validate` is the loop itself, as a method. Its loop invariant says that
    every earlier line passed. Its postcondition ties its result to `CheckLines`.
  - `Run` models `main`.
  - `ErrorText` gives the message text the script writes for an outcome.

The model follows the code as written. That has four consequences:

- Blank and all-whitespace lines are errors. They are not skipped.
- There is no comment syntax.
- There is no "manifest not found" or "ambiguous manifest" error.
- The file read is the printed directory with the file name appended directly.
  For the directory `data` and the name `a.bin`, that is `dataa.bin`
  (`ValidateData.PathHasNoSeparator`).

## Model

| member | source | states |
|---|---|---|
| `PyText.Split` | scripts/validate_data.py:60 | every element `line.split()` returns is a non-empty run of non-whitespace |
| `PyText.SplitKeepsNonSpace` | scripts/validate_data.py:60 | the tokens, concatenated in order, are exactly the non-whitespace characters of the line: nothing lost, nothing invented, order kept |
| `PyText.SplitEmptyIff` | scripts/validate_data.py:60 | a line gives no token at all if and only if it is empty or all whitespace |
| `PyText.SplitSkipsSpace` | scripts/validate_data.py:60 | leading whitespace of any length does not change the tokens |
| `PyText.SplitToken` | scripts/validate_data.py:60 | a token followed by whitespace, or by the end of the line, is the first element of the split |
| `PyText.SplitWord` | scripts/validate_data.py:60 | a single token, with nothing around it, splits to exactly itself |
| `PyText.SplitSpaced` | scripts/validate_data.py:60 | a token, one space and more text split to the token followed by the tokens of the text |
| `PyText.SplitJoinSpaced` | scripts/validate_data.py:60 | splitting undoes joining tokens with single spaces |
| `PyText.SplitLayout` | scripts/validate_data.py:60 | splitting tokens laid out with any whitespace before, between and after them (some between each two) gives back exactly those tokens |
| `PyText.SplitLines` | scripts/validate_data.py:58 | no line that `splitlines()` returns contains a line boundary |
| `PyText.SplitLinesStepLF` | scripts/validate_data.py:58 | text without boundaries, then `\n`, is the first line, and splitting goes on after the `\n` |
| `PyText.SplitLinesStepCR` | scripts/validate_data.py:58 | text without boundaries, then a `\r` that no `\n` follows, is the first line, and splitting goes on after the `\r` |
| `PyText.SplitLinesStepCRLF` | scripts/validate_data.py:58 | text without boundaries, then `\r\n`, is the first line: the pair is one boundary, and splitting goes on after it |
| `PyText.SplitLinesTerminatedLF` | scripts/validate_data.py:58 | splitting undoes ending every line with `\n` |
| `PyText.SplitLinesTerminatedCR` | scripts/validate_data.py:58 | splitting undoes ending every line with `\r` |
| `PyText.SplitLinesTerminatedCRLF` | scripts/validate_data.py:58 | splitting undoes ending every line with `\r\n` |
| `PyText.SplitLinesStep` | scripts/validate_data.py:58 | text without boundaries, then any other boundary (`\x0b`, `\x0c`, `\x1c`-`\x1e`, `\x85`, U+2028, U+2029 as well as `\n`), is the first line, and splitting goes on after it |
| `PyText.SplitLinesLast` | scripts/validate_data.py:58 | non-empty text without boundaries and without a terminator is one line |
| `PyText.SplitLinesTerminatedThen` | scripts/validate_data.py:58 | terminated lines followed by more text split into those lines and then the lines of that text, unless a `\r` terminator meets a `\n` of the text |
| `PyText.SplitLinesUnterminated` | scripts/validate_data.py:58 | boundary-free lines, all terminated but the last, which is not empty and has no terminator, split back into exactly those lines |
| `PyText.SplitLinesTerminated` | scripts/validate_data.py:58 | splitting undoes ending every line with `\n`, `\r\n` or `\r`; no empty line appears after the last terminator |
| `PyPath.Normalize` | scripts/validate_data.py:56 | `str(Path(s))`, also applied to each file path at line 28: the anchor followed by the named parts joined by `/`, or `.` when there are none; the printed path is never empty, and it starts with `/` exactly when `s` does; `NormalizeKeepsParts` and `NormalizeIdempotent` carry its round trip |
| `PyPath.NormalizeKeepsParts` | scripts/validate_data.py:56 | printing the parsed directory and parsing it again gives back the same anchor and the same named parts |
| `PyPath.NormalizeIdempotent` | scripts/validate_data.py:56 | `str(Path(d))` is never empty and printing it through `Path` again changes nothing |
| `PyPath.NormalizePlainName` | scripts/validate_data.py:56 | a directory given as one plain name is used as it is |
| `PyPath.JoinSplitOn` | scripts/validate_data.py:56 | joining the pieces of `split('/')` with `/` gives back the path: cutting at separators loses nothing |
| `PyPath.SplitOnJoin` | scripts/validate_data.py:56 | cutting at `/` undoes joining parts that hold no `/` |
| `PyPath.NormalizeTrailingSlash` | scripts/validate_data.py:56 | for a plain name `d`, the argument `d/` gives the prefix `d` (for example `data/` gives `data`): the trailing slash is dropped |
| `PyPath.NormalizeEmpty` | scripts/validate_data.py:56 | the empty argument gives the prefix `.` |
| `ValidateData.FileHash` | scripts/validate_data.py:14-30 | the file opened is the path as pathlib prints it; the hash is the digest of all its bytes; the read fails, naming that printed path, exactly when no such file exists |
| `ValidateData.FileHashDependsOnContents` | scripts/validate_data.py:28-30 | two paths whose files have equal contents give equal digests |
| `ValidateData.FileHashIgnoresTrailingSlash` | scripts/validate_data.py:28 | `Path(filename)` drops a trailing slash: for a plain name `p`, hashing `p/` reads the file `p` |
| `ValidateData.MismatchMessage` | scripts/validate_data.py:64 | the text of the mismatch error, with the file name, actual and expected hash interpolated: it starts with `Hash for ` followed by the file name and ends with the expected hash; `MismatchMessageNamesFileAndHash` and `CheckLinesMismatchText` read both back |
| `ValidateData.MismatchMessageNamesFileAndHash` | scripts/validate_data.py:64 | the mismatch message starts with `Hash for ` and the file name, and ends with the expected hash, so both can be read back from it |
| `ValidateData.CheckLine` | scripts/validate_data.py:60-64 | a line passes if and only if it splits into exactly two tokens, the file `prefix + filename` (as pathlib prints it) exists, and its digest equals the recorded hash; it is malformed if and only if the token count is not two, and then carries the line and that count; it is an `IOError` if and only if there are two tokens and that file is missing, and then names the printed path; a mismatch names the line's second token as file name, its first as expected hash, and the digest of that file as actual hash |
| `ValidateData.CheckLineOfRecord` | scripts/validate_data.py:60-63 | for a line `hash filename` with any whitespace around or between the tokens, the only file read is `prefix + filename` as pathlib prints it: missing gives `IOError` naming that path, an equal digest passes, and a different one gives `Mismatch(filename, actual, hash)` |
| `ValidateData.SplitRecord` | scripts/validate_data.py:60 | a line of a hash and a file name, with any whitespace around them and some between them, unpacks into exactly that hash and that name |
| `ValidateData.CheckSpacedRecord` | scripts/validate_data.py:60-64 | for the line `hash filename` with one space between: a missing file gives `IOError` naming the printed path `prefix + filename`, an equal digest passes, and a different one gives `Mismatch(filename, actual, hash)` |
| `ValidateData.CheckLineBlank` | scripts/validate_data.py:60 | an empty or all-whitespace line is `Malformed` with zero tokens, not a skipped line |
| `ValidateData.CheckLineArity` | scripts/validate_data.py:60 | a line of one token, or of three or more, with any whitespace around and between them, is `Malformed` and carries its token count |
| `ValidateData.CheckLineCaseSensitive` | scripts/validate_data.py:63 | the comparison is exact: the right digest recorded in upper case is a mismatch whenever the digest has a lower-case letter |
| `ValidateData.CheckLineReadsOnlyItsFile` | scripts/validate_data.py:61-62 | two filesystems that agree on the one file the line names give the same outcome for the line |
| `ValidateData.CheckLines` | scripts/validate_data.py:59-64 | the loop ends normally or with one of the line errors, never with the usage error; a mismatch it reports names a file name and a hash that are whitespace-free tokens |
| `ValidateData.CheckLinesPassedIff` | scripts/validate_data.py:59-64 | the run passes if and only if every line passes; an empty manifest passes |
| `ValidateData.CheckLinesFirstFailure` | scripts/validate_data.py:59-64 | if all lines before line i pass and line i fails, the run's outcome is exactly line i's failure, whatever follows |
| `ValidateData.CheckLinesAppend` | scripts/validate_data.py:59-64 | after a failure no later line is parsed or hashed: appending lines cannot change a failed run; after a passing prefix, the outcome is that of the rest |
| `ValidateData.Validate` | scripts/validate_data.py:56-64 | the loop over `splitlines()` with the prefix `str(Path(data_directory))`; it returns the first failing line's error, or passes when every line matched |
| `ValidateData.Run` | scripts/validate_data.py:67-76 | fewer than two `argv` entries give the usage error, and only then; otherwise the outcome is that of validating exactly `argv[1]` |
| `ValidateData.ErrorText` | scripts/validate_data.py:64-73 | the outcomes whose message the script writes, a mismatch and the usage error, and only those, have a message text |
| `ValidateData.CheckLinesMismatchText` | scripts/validate_data.py:59-64 | when a run ends in a mismatch, the message it raises names that file and that expected hash, and both read back from the text |
| `ValidateData.SpacedRecordHasNoLineBreak` | scripts/validate_data.py:58 | a record line `hash filename` holds no line boundary, so `splitlines()` keeps it whole |
| `ValidateData.ManifestLines` | scripts/validate_data.py:58 | a manifest written as one `digest name` record per terminated line splits back into exactly those records |
| `ValidateData.ValidateFreshManifest` | scripts/validate_data.py:59-64 | a manifest recording each file's current digest validates, whatever terminator it uses |
| `ValidateData.ValidateUnterminatedManifest` | scripts/validate_data.py:58-64 | a manifest of current digests whose last record has no terminator still splits into exactly its records and validates |
| `ValidateData.ValidateDetectsChange` | scripts/validate_data.py:59-64 | when no two records name the same file, changing one tracked file so that its digest changes gives `Mismatch` naming exactly that file, its new digest and the recorded one |
| `ValidateData.OneLineManifest` | scripts/validate_data.py:58 | a manifest of one record followed by `\n` is exactly that one line |
| `ValidateData.PathHasNoSeparator` | scripts/validate_data.py:56-64 | for a directory given as a plain name `dir`, a file name `name` without `/` and the one-line manifest `<digest> name`, the file read is `dir + name` with no `/` between (for `data` and `a.bin`, the file `dataa.bin`): the run passes while that file is unchanged, mismatches with the new and recorded digests once it changes, and gives `IOError(dir + name)` when the bytes sit at `dir/name` instead |

## Left out

- Locating the manifest with `glob.glob(str(local_path) + "/*/data_hashes.txt")` (line 57) is filesystem I/O and is not modelled. As written it is also broken. `glob` returns a list, and line 58 calls `.read_text()` on that list, so every call of `validate_data` raises `AttributeError` before it reads a line. The model takes the manifest's text as a parameter and models lines 59-64 on that text.
- Reading and decoding the manifest (`read_text`, line 58) is left out. Text mode turns `\r\n` and `\r` into `\n`, and `splitlines()` gives the same lines either way, so nothing is lost.
- The read at line 28 becomes a lookup in the map. Every failure to read (missing file, permission, directory) becomes the one `IOError(path)` case.
- ValidateData.FileHash: the map is keyed by the path as pathlib prints it, so equivalences the operating system adds beyond pathlib's are not modelled: `a/../b` against `b`, symbolic links, and a leading `//` that POSIX allows to differ from `/`.
- PathHasNoSeparator: states its three outcomes only for a file name without `/`. For a name holding `/`, `dir + name` is a longer path that pathlib reprints, and the case is covered by `CheckLineOfRecord` instead.
- SHA-1 and hex encoding (`hashlib`, line 30) are a foreign call. The model takes the digest as a function parameter.
- `sys.argv` and the `__main__` guard (lines 74, 79-81) are process plumbing. `Run` takes `argv` as a parameter, together with the manifest text and filesystem it would read.
- The text of Python's own unpacking error (`not enough values to unpack ...`) depends on the Python version and is not modelled. `Malformed` carries the line and its token count instead. `Mismatch` carries the three values the f-string at line 64 interpolates, and `ErrorText` builds the message from them. `UsageError` carries the script's own text.
- Both `Malformed` and `Mismatch` are `ValueError` in the script. The model keeps them apart, as distinct outcomes.
- `PyPath.Normalize` models POSIX paths only. Windows drive letters and backslashes are not modelled.
