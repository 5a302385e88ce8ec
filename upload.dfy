/** The image upload handler (`POST /api/upload`): three guards in a fixed
    order, then a stored file named after a random token and the original
    extension. The random token is a parameter; writing the bytes is recorded
    in the outcome instead of performed. */
module UploadRoute {
  import opened Js

  const AllowedTypes: seq<string> := ["image/jpeg", "image/jpg", "image/png", "image/gif", "image/webp"]
  const MaxFileSize: nat := 5 * 1024 * 1024

  const NoFileError := "No file uploaded"
  const TypeError := "Invalid file type. Only image files are allowed."
  const SizeError := "File size exceeds 5MB limit"

  /** An uploaded file: its original name, its `type` as `formData()`
      delivers it (the `File` object that `formData()` builds lower-cases it,
      and empties it if it holds non-printable characters), and its bytes. */
  datatype UploadedFile = UploadedFile(name: string, mimeType: string, content: seq<bv8>)

  /** The multipart field "file": absent (`null`), a plain text value, or a file. */
  datatype FormEntry = Missing | Text(value: string) | FileEntry(file: UploadedFile)

  /** The bytes written to the uploads directory under `filename`. */
  datatype SavedFile = SavedFile(filename: string, content: seq<bv8>)

  /** 400 with one error message, or success with the generated name and URL. */
  datatype UploadResponse = Rejected(error: string) | Uploaded(filename: string, url: string)
  {
    function Status(): int
    {
      if Rejected? then 400 else 200
    }
  }

  /** The response, and the file written on the way (if any). */
  datatype UploadOutcome = UploadOutcome(response: UploadResponse, written: Option<SavedFile>)

  /** `!file` is false: a missing entry and an empty text value are falsy. */
  predicate Present(entry: FormEntry)
  {
    match entry
    case Missing => false
    case Text(v) => v != ""
    case FileEntry(_) => true
  }

  /** `ALLOWED_TYPES.includes(file.type)`; a text value has no type. */
  predicate TypeAllowed(entry: FormEntry)
  {
    entry.FileEntry? && entry.file.mimeType in AllowedTypes
  }

  /** `text.split(".")`: the pieces between the dots, in order. */
  function Split(s: string): (parts: seq<string>)
    ensures |parts| >= 1
    ensures forall i :: 0 <= i < |parts| ==> '.' !in parts[i]
  {
    if s == [] then [""]
    else
      var rest := Split(s[1..]);
      if s[0] == '.' then [""] + rest
      else [[s[0]] + rest[0]] + rest[1..]
  }

  /** `parts.join(".")`. */
  function Join(parts: seq<string>): string
    requires |parts| >= 1
  {
    if |parts| == 1 then parts[0] else parts[0] + "." + Join(parts[1..])
  }

  /** Splitting at the dots loses nothing: joining the pieces gives the text back. */
  lemma {:induction false} JoinSplit(s: string)
    ensures Join(Split(s)) == s
  {
    if s != [] {
      var rest := Split(s[1..]);
      JoinSplit(s[1..]);
      if s[0] == '.' {
        assert ([""] + rest)[1..] == rest;
      } else {
        var parts := [[s[0]] + rest[0]] + rest[1..];
        if |rest| > 1 {
          assert parts[1..] == rest[1..];
          assert Join(rest) == rest[0] + "." + Join(rest[1..]);
        }
        assert Join(parts) == [s[0]] + Join(rest);
      }
    }
  }

  /** `file.name.split(".").pop()`. */
  function Extension(name: string): (e: string)
    ensures '.' !in e
    ensures '.' !in name ==> e == name
  {
    var parts := Split(name);
    JoinSplit(name);
    SplitHasOnePieceIffNoDot(name);
    parts[|parts| - 1]
  }

  /** The text splits into more than one piece exactly when it has a dot. */
  lemma SplitHasOnePieceIffNoDot(s: string)
    ensures |Split(s)| == 1 <==> '.' !in s
  {
    var parts := Split(s);
    JoinSplit(s);
    if |parts| > 1 {
      assert Join(parts) == parts[0] + "." + Join(parts[1..]);
      assert s[|parts[0]|] == '.';
    }
  }

  /** With more than one piece, the text is the joined front pieces, a dot,
      and the last piece. */
  lemma {:induction false} JoinLast(parts: seq<string>)
    requires |parts| > 1
    ensures Join(parts) == Join(parts[..|parts| - 1]) + "." + parts[|parts| - 1]
  {
    if |parts| > 2 {
      JoinLast(parts[1..]);
      assert parts[1..][..|parts| - 2] == parts[..|parts| - 1][1..];
    } else {
      assert parts[..1] == [parts[0]];
    }
  }

  /** The extension is the text after the last dot of the name: it has no
      dot, it ends the name, and the character before it is a dot unless the
      name has none, in which case it is the whole name. */
  lemma ExtensionIsTextAfterLastDot(name: string)
    ensures var e := Extension(name);
            '.' !in e && |e| <= |name| && name[|name| - |e|..] == e
            && ('.' in name ==> |e| < |name| && name[|name| - |e| - 1] == '.')
            && ('.' !in name ==> e == name)
            && (name != [] && name[|name| - 1] == '.' ==> e == [])
  {
    var parts := Split(name);
    var e := Extension(name);
    JoinSplit(name);
    SplitHasOnePieceIffNoDot(name);
    if |parts| > 1 {
      JoinLast(parts);
      var front := Join(parts[..|parts| - 1]);
      assert name == front + "." + e;
      assert name[|name| - |e|..] == e;
      assert name[|name| - |e| - 1] == '.';
    }
  }

  /** `${token}.${extension}` */
  function FileName(token: string, extension: string): (n: string)
    ensures |n| == |token| + 1 + |extension|
    ensures n[..|token|] == token && n[|token|] == '.' && n[|token| + 1..] == extension
  {
    token + "." + extension
  }

  /** The text before the first dot. */
  function TokenOf(filename: string): (t: string)
    ensures '.' !in t
  {
    if filename == [] || filename[0] == '.' then [] else [filename[0]] + TokenOf(filename[1..])
  }

  /** A dot-free token is read back from the generated name. */
  lemma {:induction false} TokenOfFileName(token: string, extension: string)
    requires '.' !in token
    ensures TokenOf(FileName(token, extension)) == token
    ensures FileName(token, extension)[|token| + 1..] == extension
  {
    if token != [] {
      TokenOfFileName(token[1..], extension);
      assert FileName(token, extension)[1..] == FileName(token[1..], extension);
    }
  }

  /** Distinct dot-free tokens give distinct file names, whatever the
      extensions: uploads never overwrite each other. */
  lemma DistinctTokensGiveDistinctNames(t1: string, e1: string, t2: string, e2: string)
    requires '.' !in t1 && '.' !in t2
    ensures FileName(t1, e1) == FileName(t2, e2) <==> t1 == t2 && e1 == e2
  {
    TokenOfFileName(t1, e1);
    TokenOfFileName(t2, e2);
  }

  /** The upload handler for the form entry "file" and the random token. */
  function Upload(entry: FormEntry, token: string): (out: UploadOutcome)
    ensures out.written.Some? <==> out.response.Uploaded?
    ensures out.response.Uploaded?
            <==> TypeAllowed(entry) && |entry.file.content| <= MaxFileSize
    ensures !Present(entry) ==> out.response == Rejected(NoFileError)
    ensures Present(entry) && !TypeAllowed(entry) ==> out.response == Rejected(TypeError)
    ensures TypeAllowed(entry) && |entry.file.content| > MaxFileSize
            ==> out.response == Rejected(SizeError)
    ensures out.response.Uploaded? ==>
              out.response.filename == FileName(token, Extension(entry.file.name))
              && out.response.url == "/uploads/" + out.response.filename
              && out.written == Some(SavedFile(out.response.filename, entry.file.content))
    ensures out.response.Uploaded? ==>
              var url, filename := out.response.url, out.response.filename;
              |filename| < |url| && url[|url| - |filename|..] == filename
  {
    if !Present(entry) then
      UploadOutcome(Rejected(NoFileError), None)
    else if !TypeAllowed(entry) then
      UploadOutcome(Rejected(TypeError), None)
    else if |entry.file.content| > MaxFileSize then
      UploadOutcome(Rejected(SizeError), None)
    else
      var filename := FileName(token, Extension(entry.file.name));
      var url := "/uploads/" + filename;
      UploadOutcome(Uploaded(filename, url), Some(SavedFile(filename, entry.file.content)))
  }

  /** A file of exactly 5 MiB passes the size guard; one byte more does not. */
  lemma SizeLimitIsInclusive(f: UploadedFile, token: string)
    requires f.mimeType in AllowedTypes
    ensures |f.content| == MaxFileSize ==> Upload(FileEntry(f), token).response.Uploaded?
    ensures |f.content| == MaxFileSize + 1 ==> Upload(FileEntry(f), token).response == Rejected(SizeError)
  {
  }

  /** The type guard runs before the size guard: an oversized file of a
      refused type gets the type error. */
  lemma TypeCheckedBeforeSize(f: UploadedFile, token: string)
    requires f.mimeType !in AllowedTypes && |f.content| > MaxFileSize
    ensures Upload(FileEntry(f), token).response == Rejected(TypeError)
  {
  }
}
