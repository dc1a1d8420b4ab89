# exif-rewriter-rs: the renaming logic, modelled and verified in Dafny

The tool walks a directory and picks out JPEG files by extension. For each one it
reads the Exif DateTimeOriginal field ("YYYY:MM:DD HH:MM:SS"). It then renames the
file, in its own directory, to "YYYYMMDD_HHMMSS.<ext>", where `<ext>` is the old
extension in lower case. This project models the pure logic of that pipeline:

- `format_datetime` (`ExifRename.FormatDatetime`) turns the capture-time text into
  the stem. It splits the text on `' '`, keeping empty pieces as Rust's `split`
  does. It requires exactly two pieces, removes every `':'` and joins the two
  pieces with `'_'`. It checks no digits or ranges.
- `is_image` (`ExifRename.IsImage`) accepts a path whose extension, lower-cased,
  is "jpg" or "jpeg".
- The middle of `process_file` (`ExifRename.DeriveTarget`) maps the field value
  and the path to one of three outcomes: skip, error, or the new directory and
  name.
- `process_file` as a whole (`ExifRename.ProcessFile`) chains the steps. Opening
  the file, reading the Exif container and the rename are inputs to it: their
  outcomes are passed in, not computed.

Modules:

- `Wrappers` holds `Option` and `Result`.
- `Text` holds the string operations the source takes from Rust's library:
  `split`, `replace(c, "")` and lower-casing.
- `Paths` models a path as its parent directory and its file name, both
  taken as given (nothing splits a path into them), and computes the
  extension from the file name as Rust's `Path::extension` does.
- `ExifRename` holds the renamer itself.

The comment at src/main.rs:62 expects "YYYY:MM:DD HH:MM:SS", but the code
accepts any text with exactly one space, and the model follows the code. For example, "2024:13:45 99:99:99"
gives "20241345_999999", and " 19:39:23" gives "_193923".

## Model

| member | source | states |
|---|---|---|
| Text.Split | src/main.rs:80 | `split(' ')` gives one piece more than there are separators, and no piece holds the separator |
| Text.JoinSplit | src/main.rs:80 | joining the pieces with the separator gives the original text back |
| Text.SplitJoin | src/main.rs:80 | splitting undoes joining when no piece holds the separator, so the pieces are determined by the text |
| Text.RemoveAll | src/main.rs:84-85 | `replace(':', "")` leaves no ':' and shortens the text by exactly the number of ':' removed |
| Text.RemoveAllCount | src/main.rs:84-85 | every other character occurs as often after removal as before |
| Text.RemoveAllAppend | src/main.rs:84-85 | removal works piece by piece, so the kept characters keep their relative order |
| Text.AsciiLower | src/main.rs:44 | lower-casing keeps the length, leaves no upper-case letter and agrees with the input up to case |
| Text.AsciiLowerIdempotent | src/main.rs:66 | lower-casing an already lower-cased extension changes nothing |
| Text.LowerEqualsIff | src/main.rs:44-45 | comparing the lower-cased text with a lower-case word is exactly a case-insensitive comparison |
| Text.LastIndex | src/main.rs:42 | the index found holds the character and no later index does; none exactly when the character is absent |
| Paths.NameExtension | src/main.rs:42 | the extension exists exactly when the name has a '.' after its first character and is not ".."; it is the dot-free text after the last '.' |
| Paths.Extension | src/main.rs:42 | a path without a file name has no extension; an extension is dot-free and is the end of the file name after a '.' that is not its first character |
| Paths.NameExtensionOfJoined | src/main.rs:66 | a name built as stem + "." + dot-free extension has exactly that extension |
| ExifRename.FormatDatetime | src/main.rs:78-83 | formatting fails exactly when the input does not hold exactly one space, and the error carries the input |
| ExifRename.FormatDatetimeAt | src/main.rs:84-86 | with its one space at index i, the stem is the colon-free text before i, '_', and the colon-free text after i |
| ExifRename.FormatDatetimeSuccess | src/main.rs:80-86 | every successful input has a single space, and its stem has the shape FormatDatetimeAt states |
| ExifRename.FormatDatetimeNoSeparators | src/main.rs:84-86 | a stem contains neither ':' nor ' ' |
| ExifRename.FormatDatetimeLength | src/main.rs:84-86 | a stem has one '_' more than the input and is as long as the input less its colons |
| ExifRename.FormatDatetimeCanonical | src/main.rs:77-86 | every well-formed "YYYY:MM:DD HH:MM:SS" formats to the 8 date digits, '_', and the 6 time digits |
| ExifRename.FormatDatetimeDocumentedExample | src/main.rs:79-86 | "2024:01:01 19:39:23" formats to "20240101_193923" |
| ExifRename.FormatDatetimeNoRangeCheck | src/main.rs:84-86 | out-of-range fields pass through: "2024:13:45 99:99:99" gives "20241345_999999" |
| ExifRename.FormatDatetimeRejectsIso | src/main.rs:80-83 | "2024-01-01T19:39:23", which has no space, is rejected |
| ExifRename.FormatDatetimeRejectsEmpty | src/main.rs:80-83 | the empty text is rejected |
| ExifRename.FormatDatetimeRejectsDoubleSpace | src/main.rs:80-83 | any text with two spaces in a row ("2024:01:01  19:39:23", say) is rejected: the extra empty piece makes three |
| ExifRename.FormatDatetimeLeadingSpace | src/main.rs:80-86 | empty pieces are kept: " " + time gives "_" + time without colons, not an error |
| ExifRename.IsJpegExtension | src/main.rs:44-45 | an extension passes exactly when it spells "jpg" or "jpeg" in some mixture of cases, so it has 3 or 4 characters |
| ExifRename.IsImage | src/main.rs:41-49 | a path is an image exactly when it has an extension that spells "jpg" or "jpeg" in some mixture of cases; an image always has a file name |
| ExifRename.IsImageNamed | src/main.rs:41-48 | a file named stem + "." + ext is an image exactly when ext spells "jpg" or "jpeg" in any case |
| ExifRename.IsImageAnyCase | src/main.rs:42-45 | "<name>.JPG" and "<name>.JpEg" are images |
| ExifRename.IsImageLastExtension | src/main.rs:42-45 | "<name>.jpg.txt" is not an image: only the last extension counts |
| ExifRename.IsImageRejectsPng | src/main.rs:42-45 | "<name>.png" is not an image |
| ExifRename.IsImageRejects | src/main.rs:42-47 | a dot-less name, the hidden file ".jpg" and a path without a file name are not images |
| ExifRename.FirstComponent | src/main.rs:58-60 | the timestamp is the first component of an ASCII value, and there is none for a missing field, a non-ASCII value or an empty component list |
| ExifRename.DeriveTarget | src/main.rs:58-74 | skip exactly when there is no first ASCII component; error exactly when that component is not UTF-8 (then `InvalidUtf8`) or does not hold exactly one space (then `BadDateTime` carrying the text); a target always lies in the parent directory, "." by default |
| ExifRename.DeriveTargetName | src/main.rs:63-66 | the new name is the formatted stem, '.', and the lower-cased old extension ("jpg" by default), and that is the new name's extension |
| ExifRename.DeriveTargetIdempotent | src/main.rs:64-67 | deriving again from the renamed file with the same timestamp gives the same target |
| ExifRename.DeriveTargetKeepsImage | src/main.rs:64-66 | a renamed image is still an image, with extension "jpg" or "jpeg" in lower case |
| ExifRename.DeriveTargetWellFormed | src/main.rs:58-67 | "<name>.JPG" with a well-formed timestamp is renamed to "YYYYMMDD_HHMMSS.jpg" in the same directory |
| ExifRename.ProcessFile | src/main.rs:52-75 | a file is renamed exactly when Exif was read, a target was derived and the rename succeeded; it is skipped exactly when there is no first ASCII component; a failed rename is reported as such; a failed open, Exif read or derivation is reported with its own error |
| ExifRename.ProcessFileSkipsAndFails | src/main.rs:53-58 | a missing or non-ASCII field, or an empty ASCII value, skips the file; an unreadable file or Exif container is an error |
| ExifRename.ProcessFileReportsCause | src/main.rs:60-63 | a first component that is not UTF-8 fails the file with `InvalidUtf8`, and one without exactly one space with `BadDateTime` carrying the text, whatever the rename would have done |

## Left out

- Argument parsing and the check that the argument is a directory are left out (src/main.rs:18-24). They are command-line plumbing.
- Directory traversal with WalkDir is left out, and so is its silent skipping of unreadable entries (src/main.rs:26-28). It is filesystem I/O.
- The `is_file` test in the main loop is left out (src/main.rs:28). It queries the filesystem.
- Console output with `println!` and `eprintln!` is left out (src/main.rs:30-32). The three outcomes it reports are the three shapes of `ProcessFile`'s result.
- Opening the file and parsing the Exif container are left out (src/main.rs:53-56). They are calls into the filesystem and the exif library. `ProcessFile` takes their outcome as an `ExifRead` input.
- Looking up DateTimeOriginal in the primary image directory is left out (src/main.rs:58). The field is an input, as absent or as a value.
- UTF-8 decoding (`std::str::from_utf8`, src/main.rs:61) is not modelled. Each ASCII component is given as already decoded text or as not UTF-8.
- `fs::rename` is left out (src/main.rs:68). So are its behaviour when the destination exists and its platform-dependent overwriting. `ProcessFile` takes whether the rename succeeded as a boolean input.
- Splitting a path into its parent and its file name (`Path::parent`, `Path::file_name`, src/main.rs:42, 64-65) is not modelled. A `FilePath` is given as the two parts, so the rules for a trailing "..", a root or an empty path are not captured.
- Paths.NameExtension: file names are Dafny strings, so the case where `OsStr::to_str` fails on a non-UTF-8 extension is not modelled. In the source that case counts as no extension.
- Text.AsciiLower: lower-cases ASCII letters only, while Rust's `to_lowercase` follows Unicode. For the "jpg"/"jpeg" test this makes no difference, since no non-ASCII character lower-cases to one of those letters. For the extension written into the new name (src/main.rs:66), a non-ASCII upper-case extension is kept as it is in the model.
- ExifRename.DeriveTarget: the new name is kept as a single path component in the target directory. In the source, `Path::join` would treat a '/' inside the Exif text as a directory separator, and a leading '/' as an absolute path, so such a value would move the file out of its directory.
