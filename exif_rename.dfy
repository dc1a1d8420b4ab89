/**
 * The renamer's own logic: formatting an Exif DateTimeOriginal value
 * ("YYYY:MM:DD HH:MM:SS") into a file-name stem ("YYYYMMDD_HHMMSS"),
 * recognising JPEG files by extension, and deriving the new path of a
 * file from its DateTimeOriginal field. Opening the file, parsing the
 * Exif container, UTF-8 decoding and the rename itself are not modelled;
 * their outcomes are inputs here.
 */
module ExifRename {
  import opened Wrappers
  import opened Text
  import opened Paths

  /** The error `format_datetime` reports, carrying the rejected text. */
  datatype FormatError = UnexpectedDateTimeFormat(input: string)

  /**
   * The stem for a DateTimeOriginal text: split on ' ', which must give
   * exactly two pieces, drop every ':' from each piece and join the two
   * with '_'. No digit or range check is made.
   */
  function FormatDatetime(exifDt: string): (r: Result<string, FormatError>)
    ensures r.Failure? <==> Count(exifDt, ' ') != 1
    ensures r.Failure? ==> r.error.input == exifDt
  {
    var parts := Split(exifDt, ' ');
    if |parts| != 2 then Failure(UnexpectedDateTimeFormat(exifDt))
    else Success(RemoveAll(parts[0], ':') + "_" + RemoveAll(parts[1], ':'))
  }

  /** `s` has exactly one space, at index `i`. */
  predicate SoleSpaceAt(s: string, i: int)
  {
    0 <= i < |s| && s[i] == ' ' && ' ' !in s[..i] && ' ' !in s[i + 1..]
  }

  /** With the one space at `i`, the stem is the colon-free date part, '_', and the colon-free time part. */
  lemma FormatDatetimeAt(s: string, i: int)
    requires SoleSpaceAt(s, i)
    ensures FormatDatetime(s) == Success(RemoveAll(s[..i], ':') + "_" + RemoveAll(s[i + 1..], ':'))
  {
    assert s == Join([s[..i], s[i + 1..]], ' ');
    SplitJoin([s[..i], s[i + 1..]], ' ');
  }

  /** Every success comes from a text with a single space, formatted as FormatDatetimeAt says. */
  lemma FormatDatetimeSuccess(s: string)
    requires FormatDatetime(s).Success?
    ensures exists i :: SoleSpaceAt(s, i) &&
                        FormatDatetime(s).value == RemoveAll(s[..i], ':') + "_" + RemoveAll(s[i + 1..], ':')
  {
    var parts := Split(s, ' ');
    JoinSplit(s, ' ');
    var i := |parts[0]|;
    assert s == parts[0] + [' '] + parts[1];
    assert s[..i] == parts[0] && s[i + 1..] == parts[1];
    assert SoleSpaceAt(s, i);
  }

  /** A stem holds no ':' and no ' '. */
  lemma FormatDatetimeNoSeparators(s: string)
    requires FormatDatetime(s).Success?
    ensures ':' !in FormatDatetime(s).value && ' ' !in FormatDatetime(s).value
  {
    FormatDatetimeSuccess(s);
    var i :| SoleSpaceAt(s, i) &&
      FormatDatetime(s).value == RemoveAll(s[..i], ':') + "_" + RemoveAll(s[i + 1..], ':');
    var before, after := s[..i], s[i + 1..];
    RemoveAllCount(before, ':', ' ');
    RemoveAllCount(after, ':', ' ');
  }

  /**
   * A stem has one '_' more than the input and is as long as the input
   * less its colons: the space is replaced one for one by the '_'.
   */
  lemma FormatDatetimeLength(s: string)
    requires FormatDatetime(s).Success?
    ensures Count(FormatDatetime(s).value, '_') == Count(s, '_') + 1
    ensures |FormatDatetime(s).value| == |s| - Count(s, ':')
  {
    var parts := Split(s, ' ');
    JoinSplit(s, ' ');
    var before, after := parts[0], parts[1];
    assert s == before + [' '] + after;
    var date, time := RemoveAll(before, ':'), RemoveAll(after, ':');
    assert FormatDatetime(s).value == date + ['_'] + time;
    CountJoined(before, ' ', after, '_');
    CountJoined(before, ' ', after, ':');
    CountJoined(date, '_', time, '_');
    RemoveAllCount(before, ':', '_');
    RemoveAllCount(after, ':', '_');
  }

  /** Counting `x` in two texts joined by `sep`. */
  lemma CountJoined(a: string, sep: char, b: string, x: char)
    ensures Count(a + [sep] + b, x) == Count(a, x) + (if sep == x then 1 else 0) + Count(b, x)
  {
    CountAppend(a + [sep], b, x);
    CountAppend(a, [sep], x);
    assert [sep][1..] == [];
  }

  /** Counting `x` in `s` around the character at index `i`. */
  lemma CountAround(s: string, i: int, x: char)
    requires 0 <= i < |s|
    ensures Count(s, x) == Count(s[..i], x) + (if s[i] == x then 1 else 0) + Count(s[i + 1..], x)
  {
    assert s == s[..i] + ([s[i]] + s[i + 1..]);
    CountAppend(s[..i], [s[i]] + s[i + 1..], x);
    CountAppend([s[i]], s[i + 1..], x);
  }

  predicate IsDigit(c: char) { '0' <= c <= '9' }

  predicate AllDigits(s: string)
  {
    forall i :: 0 <= i < |s| ==> IsDigit(s[i])
  }

  /** The Exif rendering "YYYY:MM:DD HH:MM:SS" of an 8-digit date and a 6-digit time. */
  function ExifDateTime(date: string, time: string): string
    requires |date| == 8 && |time| == 6
  {
    date[..4] + ":" + date[4..6] + ":" + date[6..] + " " + time[..2] + ":" + time[2..4] + ":" + time[4..]
  }

  /** "a:b:c" with the colons removed, for colon-free a, b, c. */
  lemma RemoveColons(a: string, b: string, c: string)
    requires ':' !in a && ':' !in b && ':' !in c
    ensures RemoveAll(a + ":" + b + ":" + c, ':') == a + b + c
  {
    var colon: string := ":";
    assert RemoveAll(colon, ':') == [] by {
      assert colon[1..] == [];
    }
    var x1 := a + colon;
    var x2 := x1 + b;
    var x3 := x2 + colon;
    RemoveAllAbsent(a, ':');
    RemoveAllAbsent(b, ':');
    RemoveAllAbsent(c, ':');
    RemoveAllAppend(a, colon, ':');
    assert RemoveAll(x1, ':') == a;
    RemoveAllAppend(x1, b, ':');
    assert RemoveAll(x2, ':') == a + b;
    RemoveAllAppend(x2, colon, ':');
    assert RemoveAll(x3, ':') == a + b;
    RemoveAllAppend(x3, c, ':');
  }

  /** Digits with colons put in after the first `m` and the first `n`: no space, and removing the colons gives the digits back. */
  lemma ColonSeparated(x: string, m: nat, n: nat)
    requires m <= n <= |x| && AllDigits(x)
    ensures ' ' !in x[..m] + ":" + x[m..n] + ":" + x[n..]
    ensures RemoveAll(x[..m] + ":" + x[m..n] + ":" + x[n..], ':') == x
  {
    var a, b, c := x[..m], x[m..n], x[n..];
    DigitsHaveNoSeparator(x, 0, m);
    DigitsHaveNoSeparator(x, m, n);
    DigitsHaveNoSeparator(x, n, |x|);
    assert x[0..m] == a && x[n..|x|] == c;
    assert ' ' !in a + ":" + b + ":" + c;
    assert RemoveAll(a + ":" + b + ":" + c, ':') == x by {
      RemoveColons(a, b, c);
      assert a + b + c == x;
    }
  }

  /** A run of digits holds neither a space nor a colon. */
  lemma DigitsHaveNoSeparator(x: string, from: nat, to: nat)
    requires from <= to <= |x| && AllDigits(x)
    ensures ' ' !in x[from..to] && ':' !in x[from..to]
  {
    assert forall k :: 0 <= k < to - from ==> IsDigit(x[from..to][k]);
  }

  /** A well-formed DateTimeOriginal formats to its date digits, '_', and its time digits. */
  lemma FormatDatetimeCanonical(s: string, date: string, time: string)
    requires |date| == 8 && |time| == 6 && AllDigits(date) && AllDigits(time)
    requires s == ExifDateTime(date, time)
    ensures FormatDatetime(s) == Success(date + "_" + time)
  {
    var d := date[..4] + ":" + date[4..6] + ":" + date[6..];
    var t := time[..2] + ":" + time[2..4] + ":" + time[4..];
    assert s == d + " " + t;
    assert ' ' !in d && RemoveAll(d, ':') == date by {
      ColonSeparated(date, 4, 6);
    }
    assert ' ' !in t && RemoveAll(t, ':') == time by {
      ColonSeparated(time, 2, 4);
    }
    assert SoleSpaceAt(s, |d|) && s[..|d|] == d && s[|d| + 1..] == t by {
      assert s[..|d|] == d && s[|d| + 1..] == t;
    }
    FormatDatetimeAt(s, |d|);
  }

  /** The documented example: "2024:01:01 19:39:23" becomes "20240101_193923". */
  lemma FormatDatetimeDocumentedExample()
    ensures FormatDatetime("2024:01:01 19:39:23") == Success("20240101_193923")
  {
    var date, time := "20240101", "193923";
    assert date[..4] == "2024" && date[4..6] == "01" && date[6..] == "01";
    assert time[..2] == "19" && time[2..4] == "39" && time[4..] == "23";
    assert "2024" + ":" + "01" + ":" + "01" + " " + "19" + ":" + "39" + ":" + "23" == "2024:01:01 19:39:23";
    assert "20240101" + "_" + "193923" == "20240101_193923";
    FormatDatetimeCanonical("2024:01:01 19:39:23", "20240101", "193923");
  }

  /** Month 13, day 45 and hour 99 pass through unchecked. */
  lemma FormatDatetimeNoRangeCheck()
    ensures FormatDatetime("2024:13:45 99:99:99") == Success("20241345_999999")
  {
    var date, time := "20241345", "999999";
    assert date[..4] == "2024" && date[4..6] == "13" && date[6..] == "45";
    assert time[..2] == "99" && time[2..4] == "99" && time[4..] == "99";
    assert "2024" + ":" + "13" + ":" + "45" + " " + "99" + ":" + "99" + ":" + "99" == "2024:13:45 99:99:99";
    assert "20241345" + "_" + "999999" == "20241345_999999";
    FormatDatetimeCanonical("2024:13:45 99:99:99", "20241345", "999999");
  }

  /** A text without a space is rejected (ISO 8601 style "T" separator). */
  lemma FormatDatetimeRejectsIso()
    ensures FormatDatetime("2024-01-01T19:39:23").Failure?
  {
    assert ' ' !in "2024-01-01T19:39:23";
  }

  /** The empty text is rejected. */
  lemma FormatDatetimeRejectsEmpty()
    ensures FormatDatetime("").Failure?
  {
  }

  /** Two spaces in a row make three pieces, which are rejected, whatever surrounds them. */
  lemma FormatDatetimeRejectsDoubleSpace(date: string, time: string)
    ensures FormatDatetime(date + "  " + time).Failure?
  {
    var s := date + "  " + time;
    CountAround(s, |date|, ' ');
    assert s[|date| + 1..][0] == ' ';
  }

  /** Empty pieces are kept: a leading space gives an empty date part, not an error. */
  lemma FormatDatetimeLeadingSpace(time: string)
    requires ' ' !in time
    ensures FormatDatetime(" " + time) == Success("_" + RemoveAll(time, ':'))
  {
    var s := " " + time;
    var rest := RemoveAll(time, ':');
    assert s[..0] == [] && s[1..] == time;
    assert RemoveAll(s[..0], ':') == [];
    assert [] + "_" + rest == "_" + rest;
    FormatDatetimeAt(s, 0);
  }

  // ---------------------------------------------------------------------
  // Recognising image files by extension

  /**
   * `ext`, lower-cased, is "jpg" or "jpeg": the comparison ignores case, so
   * exactly the 8 spellings of "jpg" and the 16 of "jpeg" are accepted.
   */
  predicate IsJpegExtension(ext: string)
    ensures IsJpegExtension(ext) <==> SpellsIgnoringCase(ext, "jpg") || SpellsIgnoringCase(ext, "jpeg")
    ensures IsJpegExtension(ext) ==> |ext| == 3 || |ext| == 4
  {
    LowerEqualsIff(ext, "jpg");
    LowerEqualsIff(ext, "jpeg");
    var lower := AsciiLower(ext);
    lower == "jpg" || lower == "jpeg"
  }

  /**
   * A path is taken for an image when it has a file name, that name has an
   * extension, and the extension spells "jpg" or "jpeg" in any case.
   */
  predicate IsImage(path: FilePath)
    ensures IsImage(path) ==> path.fileName.Some?
    ensures IsImage(path) <==>
      && Extension(path).Some?
      && (SpellsIgnoringCase(Extension(path).value, "jpg") || SpellsIgnoringCase(Extension(path).value, "jpeg"))
  {
    match Extension(path)
    case Some(ext) => IsJpegExtension(ext)
    case None => false
  }

  /** A file named "<stem>.<ext>" is an image exactly when `ext` spells "jpg" or "jpeg" in any case. */
  lemma IsImageNamed(path: FilePath, stem: string, ext: string)
    requires stem != [] && '.' !in ext && stem + "." + ext != ".."
    requires path.fileName == Some(stem + "." + ext)
    ensures IsImage(path) <==> SpellsIgnoringCase(ext, "jpg") || SpellsIgnoringCase(ext, "jpeg")
  {
    NameExtensionOfJoined(stem, ext);
  }

  /** Whatever the file is called, upper- and mixed-case extensions are accepted. */
  lemma IsImageAnyCase(dir: string, stem: string)
    requires stem != []
    ensures IsImage(Joined(dir, stem + ".JPG"))
    ensures IsImage(Joined(dir, stem + ".JpEg"))
  {
    assert Extension(Joined(dir, stem + ".JPG")) == Some("JPG") by {
      assert stem + ".JPG" == stem + "." + "JPG";
      NameExtensionOfJoined(stem, "JPG");
    }
    assert Extension(Joined(dir, stem + ".JpEg")) == Some("JpEg") by {
      assert stem + ".JpEg" == stem + "." + "JpEg";
      NameExtensionOfJoined(stem, "JpEg");
    }
    UpperJpgIsJpg();
    MixedJpegIsJpeg();
  }

  /** "JpEg" lower-cases to "jpeg". */
  lemma MixedJpegIsJpeg()
    ensures AsciiLower("JpEg") == "jpeg"
  {
    LowerEqualsIff("JpEg", "jpeg");
  }

  /** Only the last extension counts. */
  lemma IsImageLastExtension(dir: string, stem: string)
    requires stem != []
    ensures !IsImage(Joined(dir, stem + ".jpg.txt"))
  {
    assert stem + ".jpg.txt" == (stem + ".jpg") + "." + "txt";
    IsImageNamed(Joined(dir, stem + ".jpg.txt"), stem + ".jpg", "txt");
    assert "txt"[0] != 'j' && "txt"[0] != 'J';
  }

  /** Another image extension is rejected. */
  lemma IsImageRejectsPng(dir: string, stem: string)
    requires stem != []
    ensures !IsImage(Joined(dir, stem + ".png"))
  {
    assert stem + ".png" == stem + "." + "png";
    IsImageNamed(Joined(dir, stem + ".png"), stem, "png");
    assert "png"[0] != 'j' && "png"[0] != 'J';
  }

  /** Dot-less names, hidden files and paths without a file name are rejected. */
  lemma IsImageRejects(dir: string)
    ensures !IsImage(Joined(dir, "README"))
    ensures !IsImage(Joined(dir, ".jpg"))
    ensures !IsImage(FilePath(Some(dir), None))
  {
    assert '.' !in "README";
    assert forall i :: 0 < i < |".jpg"| ==> ".jpg"[i] != '.';
  }

  // ---------------------------------------------------------------------
  // Deriving the new name from the DateTimeOriginal field

  /** One component of an Exif ASCII value: its bytes decode as UTF-8 text, or they do not. */
  datatype Component = Utf8(text: string) | NotUtf8

  /** The value of the DateTimeOriginal field: ASCII components, or a value of another Exif type. */
  datatype FieldValue = Ascii(components: seq<Component>) | NonAscii

  /** The per-file failures, one per fallible step of processing a file. */
  datatype ProcessError =
    | OpenFailed                        // the file cannot be opened
    | ExifUnreadable                    // no Exif container can be read from it
    | InvalidUtf8                       // the first component is not UTF-8
    | BadDateTime(cause: FormatError)   // the text is not "date time"
    | RenameFailed                      // the rename itself fails

  /** The new location of a file: a directory and a file name in it. */
  datatype Target = Target(dir: string, name: string)

  /** The timestamp text the field carries for renaming: the first component of an ASCII value. */
  function FirstComponent(field: Option<FieldValue>): (c: Option<Component>)
    ensures c.Some? <==> field.Some? && field.value.Ascii? && field.value.components != []
    ensures c.Some? ==> c.value == field.value.components[0]
  {
    match field
    case Some(Ascii(components)) => if components == [] then None else Some(components[0])
    case _ => None
  }

  /**
   * What the DateTimeOriginal field (absent, or its value) means for `path`:
   * `Success(None)` to skip the file, a failure, or `Success(Some(t))` with
   * the target to rename it to.
   */
  function DeriveTarget(field: Option<FieldValue>, path: FilePath): (r: Result<Option<Target>, ProcessError>)
    ensures r == Success(None) <==> FirstComponent(field).None?
    ensures r.Failure? <==>
      || FirstComponent(field) == Some(NotUtf8)
      || (FirstComponent(field).Some? && FirstComponent(field).value.Utf8?
          && Count(FirstComponent(field).value.text, ' ') != 1)
    ensures FirstComponent(field) == Some(NotUtf8) ==> r == Failure(InvalidUtf8)
    ensures FirstComponent(field).Some? && FirstComponent(field).value.Utf8?
            && FormatDatetime(FirstComponent(field).value.text).Failure? ==>
              r == Failure(BadDateTime(UnexpectedDateTimeFormat(FirstComponent(field).value.text)))
    ensures r.Success? && r.value.Some? ==> r.value.value.dir == path.parent.GetOr(".")
  {
    match FirstComponent(field)
    case None => Success(None)
    case Some(NotUtf8) => Failure(InvalidUtf8)
    case Some(Utf8(dateTime)) =>
      match FormatDatetime(dateTime)
      case Failure(e) => Failure(BadDateTime(e))
      case Success(stem) =>
        var ext := Extension(path).GetOr("jpg");
        Success(Some(Target(path.parent.GetOr("."), stem + "." + AsciiLower(ext))))
  }

  /**
   * A successful derivation names the file "<stem>.<ext>", where the stem
   * is the formatted timestamp and the extension is the old one lower-cased
   * ("jpg" when there was none); the new name's own extension is exactly
   * that lower-cased one.
   */
  lemma DeriveTargetName(field: Option<FieldValue>, path: FilePath)
    requires DeriveTarget(field, path).Success? && DeriveTarget(field, path).value.Some?
    ensures FirstComponent(field).Some? && FirstComponent(field).value.Utf8?
    ensures var stem := FormatDatetime(FirstComponent(field).value.text);
      var ext := AsciiLower(Extension(path).GetOr("jpg"));
      && stem.Success?
      && DeriveTarget(field, path).value.value.name == stem.value + "." + ext
      && NameExtension(DeriveTarget(field, path).value.value.name) == Some(ext)
  {
    var text := FirstComponent(field).value.text;
    var stem := FormatDatetime(text).value;
    var ext := AsciiLower(Extension(path).GetOr("jpg"));
    assert '.' !in ext by {
      LowerKeepsDots(Extension(path).GetOr("jpg"));
    }
    var name := stem + "." + ext;
    assert name != ".." by {
      FormatDatetimeLength(text);
      assert '_' in stem;
      var j :| 0 <= j < |stem| && stem[j] == '_';
      assert name[j] == '_';
    }
    NameExtensionOfJoined(stem, ext);
  }

  /** Lower-casing neither adds nor removes '.' characters. */
  lemma LowerKeepsDots(s: string)
    ensures '.' in AsciiLower(s) <==> '.' in s
  {
    var lower := AsciiLower(s);
    if '.' in lower {
      var i :| 0 <= i < |lower| && lower[i] == '.';
      assert LowerChar(s[i]) == '.';
    }
    if '.' in s {
      var i :| 0 <= i < |s| && s[i] == '.';
      assert LowerChar(lower[i]) == '.';
    }
  }

  /**
   * Processing a renamed file again with the same timestamp yields the
   * same target: the name is a fixed point, since it already carries the
   * lower-cased extension and lies in the target directory.
   */
  lemma DeriveTargetIdempotent(field: Option<FieldValue>, path: FilePath, t: Target)
    requires DeriveTarget(field, path) == Success(Some(t))
    ensures DeriveTarget(field, Joined(t.dir, t.name)) == Success(Some(t))
  {
    DeriveTargetName(field, path);
    AsciiLowerIdempotent(Extension(path).GetOr("jpg"));
  }

  /** An image keeps being an image: its new extension is "jpg" or "jpeg" in lower case. */
  lemma DeriveTargetKeepsImage(field: Option<FieldValue>, path: FilePath, t: Target)
    requires IsImage(path)
    requires DeriveTarget(field, path) == Success(Some(t))
    ensures Extension(Joined(t.dir, t.name)) == Some("jpg") || Extension(Joined(t.dir, t.name)) == Some("jpeg")
    ensures IsImage(Joined(t.dir, t.name))
  {
    DeriveTargetName(field, path);
    AsciiLowerIdempotent(Extension(path).value);
  }

  /**
   * A file in `dir` named "<name>.JPG" whose DateTimeOriginal is the
   * well-formed "YYYY:MM:DD HH:MM:SS" is to be renamed to
   * "YYYYMMDD_HHMMSS.jpg" in the same directory.
   */
  lemma DeriveTargetWellFormed(dir: string, name: string, date: string, time: string)
    requires name != []
    requires |date| == 8 && |time| == 6 && AllDigits(date) && AllDigits(time)
    ensures DeriveTarget(Some(Ascii([Utf8(ExifDateTime(date, time))])), Joined(dir, name + ".JPG"))
         == Success(Some(Target(dir, date + "_" + time + ".jpg")))
  {
    var path := Joined(dir, name + ".JPG");
    UpperJpgLowered(path, name);
    var stem := date + "_" + time;
    var stamp := ExifDateTime(date, time);
    FormatDatetimeCanonical(stamp, date, time);
    assert stem + "." + "jpg" == date + "_" + time + ".jpg";
  }

  /** The extension of "<name>.JPG", lower-cased, is "jpg". */
  lemma UpperJpgLowered(path: FilePath, name: string)
    requires name != [] && path.fileName == Some(name + ".JPG")
    ensures AsciiLower(Extension(path).GetOr("jpg")) == "jpg"
  {
    assert Extension(path) == Some("JPG") by {
      assert name + ".JPG" == name + "." + "JPG";
      NameExtensionOfJoined(name, "JPG");
    }
    UpperJpgIsJpg();
  }

  /** "JPG" lower-cases to "jpg". */
  lemma UpperJpgIsJpg()
    ensures AsciiLower("JPG") == "jpg"
  {
    LowerEqualsIff("JPG", "jpg");
  }

  // ---------------------------------------------------------------------
  // Processing one file

  /** What reading the file's Exif data gave: it could not be opened, held no Exif container, or the DateTimeOriginal field (if any). */
  datatype ExifRead = CannotOpen | NoExif | Exif(dateTimeOriginal: Option<FieldValue>)

  /**
   * The outcome of processing one image file: the first failing step's
   * error, `Success(None)` when the file is skipped, or the target the file
   * was renamed to. The rename is attempted only once a target is known;
   * `renameSucceeds` is its outcome.
   */
  function ProcessFile(path: FilePath, read: ExifRead, renameSucceeds: bool): (r: Result<Option<Target>, ProcessError>)
    ensures r.Success? && r.value.Some? <==>
      read.Exif? && renameSucceeds && DeriveTarget(read.dateTimeOriginal, path).Success?
      && DeriveTarget(read.dateTimeOriginal, path).value.Some?
    ensures r.Success? && r.value.Some? ==> r == DeriveTarget(read.dateTimeOriginal, path)
    ensures r == Success(None) <==> read.Exif? && FirstComponent(read.dateTimeOriginal).None?
    ensures r == Failure(RenameFailed) <==>
      read.Exif? && !renameSucceeds && DeriveTarget(read.dateTimeOriginal, path).Success?
      && DeriveTarget(read.dateTimeOriginal, path).value.Some?
    ensures read.Exif? && DeriveTarget(read.dateTimeOriginal, path).Failure? ==>
      r == DeriveTarget(read.dateTimeOriginal, path)
    ensures read == CannotOpen ==> r == Failure(OpenFailed)
    ensures read == NoExif ==> r == Failure(ExifUnreadable)
  {
    match read
    case CannotOpen => Failure(OpenFailed)
    case NoExif => Failure(ExifUnreadable)
    case Exif(field) =>
      var derived := DeriveTarget(field, path);
      if derived.Success? && derived.value.Some? then
        if renameSucceeds then derived else Failure(RenameFailed)
      else derived
  }

  /**
   * A file whose Exif data has no DateTimeOriginal is skipped, a file
   * without Exif data fails, and neither is renamed whatever the rename
   * would have done.
   */
  lemma ProcessFileSkipsAndFails(path: FilePath, renameSucceeds: bool)
    ensures ProcessFile(path, Exif(None), renameSucceeds) == Success(None)
    ensures ProcessFile(path, Exif(Some(NonAscii)), renameSucceeds) == Success(None)
    ensures ProcessFile(path, Exif(Some(Ascii([]))), renameSucceeds) == Success(None)
    ensures ProcessFile(path, NoExif, renameSucceeds) == Failure(ExifUnreadable)
    ensures ProcessFile(path, CannotOpen, renameSucceeds) == Failure(OpenFailed)
  {
  }

  /**
   * A timestamp that cannot be used fails the file with its own cause,
   * whatever the rename would have done: undecodable bytes as
   * `InvalidUtf8`, a text without exactly one space as `BadDateTime`
   * carrying that text.
   */
  lemma ProcessFileReportsCause(path: FilePath, text: string, rest: seq<Component>, renameSucceeds: bool)
    requires Count(text, ' ') != 1
    ensures ProcessFile(path, Exif(Some(Ascii([NotUtf8] + rest))), renameSucceeds) == Failure(InvalidUtf8)
    ensures ProcessFile(path, Exif(Some(Ascii([Utf8(text)] + rest))), renameSucceeds)
         == Failure(BadDateTime(UnexpectedDateTimeFormat(text)))
  {
  }
}
