/**
  The request handler `resize_image` (backend/main.py:10-51), without the HTTP
  plumbing. The image library is a parameter: `decode` stands for
  `Image.open`, and `encode` for resizing to the computed size and saving in
  the decoded format at the requested quality. Either may fail; a failure
  skips that upload only.
*/
module ResizeService {
  import opened Wrappers
  import opened Filenames
  import opened Dimensions
  import opened Validation

  newtype byte = b: int | 0 <= b < 256

  /** A decoded image: the format it was read as and its size. */
  datatype Image = Image(format: string, size: Size)

  /** The foreign image library; `None` stands for any exception it raises. */
  datatype ImageLibrary = ImageLibrary(
    decode: seq<byte> -> Option<Image>,
    encode: (Image, Size, int) -> Option<seq<byte>>)

  /** One part of the multipart `files` field. */
  datatype Upload = Upload(filename: string, content: seq<byte>)

  /** One `zipf.writestr(name, data)` record. */
  datatype Entry = Entry(name: string, data: seq<byte>)

  /** What the handler answers: a plain-text message, or the archive of resized images. */
  datatype Response = Message(text: string) | Archive(entries: seq<Entry>)

  const NoFilesSelected := "No files selected"
  const ValidationFailed := "Input validation failed"
  const OnlyImages := "You can only upload images"

  /** The in-memory zip archive; each write appends a record, duplicate names included. */
  class ZipArchive {
    var entries: seq<Entry>

    constructor ()
      ensures entries == []
    {
      entries := [];
    }

    method WriteStr(name: string, data: seq<byte>)
      modifies this
      ensures entries == old(entries) + [Entry(name, data)]
    {
      entries := entries + [Entry(name, data)];
    }
  }

  /** An upload that aborts the whole batch: a named file whose extension is refused. */
  predicate Refused(u: Upload)
    ensures u.filename != "" && '.' !in u.filename ==> Refused(u)
    ensures Refused(u) ==> u.filename != ""
  {
    u.filename != "" && !AllowedFile(u.filename)
  }

  /**
    What one upload of an accepted batch adds to the archive: nothing for an
    empty slot or a file the library cannot decode or encode, otherwise one
    entry under its own filename.
  */
  function Contribution(u: Upload, maxSize: nat, quality: int, lib: ImageLibrary): seq<Entry>
  {
    if u.filename == "" then []
    else match lib.decode(u.content)
      case None => []
      case Some(image) =>
        match lib.encode(image, Resize(image.size, maxSize), quality)
        case None => []
        case Some(data) => [Entry(u.filename, data)]
  }

  /** No upload of the batch aborts it. */
  predicate NoneRefused(files: seq<Upload>)
  {
    forall j :: 0 <= j < |files| ==> !Refused(files[j])
  }

  lemma NoneRefusedStep(files: seq<Upload>, i: nat)
    requires i < |files| && NoneRefused(files[..i]) && !Refused(files[i])
    ensures NoneRefused(files[..i + 1])
  {
    assert files[..i + 1] == files[..i] + [files[i]];
  }

  /** The archive built from an accepted batch. */
  function Processed(files: seq<Upload>, maxSize: nat, quality: int, lib: ImageLibrary): seq<Entry>
  {
    if files == [] then []
    else Processed(files[..|files| - 1], maxSize, quality, lib)
         + Contribution(files[|files| - 1], maxSize, quality, lib)
  }

  /** The response `resize_image` gives, stated without its loop. */
  function Handle(files: seq<Upload>, maxSizeStr: Option<string>, qualityStr: Option<string>,
                  lib: ImageLibrary): (r: Response)
    ensures r.Archive? ==> files != [] && ValidateInput(maxSizeStr, qualityStr) && NoneRefused(files)
  {
    if files == [] then Message(NoFilesSelected)
    else if !ValidateInput(maxSizeStr, qualityStr) then Message(ValidationFailed)
    else if !NoneRefused(files) then Message(OnlyImages)
    else Archive(Processed(files, ParseInt(maxSizeStr.value).value as nat,
                           ParseInt(qualityStr.value).value, lib))
  }

  /** `resize_image`: the checks up front, then the pass over the uploads. */
  method ResizeImage(files: seq<Upload>, maxSizeStr: Option<string>, qualityStr: Option<string>,
                     lib: ImageLibrary) returns (response: Response)
    ensures response == Handle(files, maxSizeStr, qualityStr, lib)
  {
    if files == [] {
      return Message(NoFilesSelected);
    }
    if !ValidateInput(maxSizeStr, qualityStr) {
      return Message(ValidationFailed);
    }
    var maxSize := ParseInt(maxSizeStr.value).value as nat;
    var quality := ParseInt(qualityStr.value).value;
    response := ArchiveUploads(files, maxSize, quality, lib);
  }

  /**
    The `with zipfile.ZipFile(...)` block of `resize_image`: one pass over the
    uploads in order, skipping empty slots and files the library cannot
    process, writing the rest into the archive, and aborting at the first
    refused filename.
  */
  method ArchiveUploads(files: seq<Upload>, maxSize: nat, quality: int, lib: ImageLibrary)
    returns (response: Response)
    ensures NoneRefused(files) ==> response == Archive(Processed(files, maxSize, quality, lib))
    ensures !NoneRefused(files) ==> response == Message(OnlyImages)
  {
    var zipf := new ZipArchive();
    for i := 0 to |files|
      invariant zipf.entries == Processed(files[..i], maxSize, quality, lib)
      invariant NoneRefused(files[..i])
    {
      var file := files[i];
      ProcessedStep(files, i, maxSize, quality, lib);
      if file.filename == "" {
        NoneRefusedStep(files, i);
        assert Contribution(file, maxSize, quality, lib) == [];
        continue;
      }
      if !AllowedFile(file.filename) {
        assert Refused(files[i]);
        return Message(OnlyImages);
      }
      NoneRefusedStep(files, i);
      var image := lib.decode(file.content);
      if image.None? {
        assert Contribution(file, maxSize, quality, lib) == [];
        continue;
      }
      var resized := Resize(image.value.size, maxSize);
      var data := lib.encode(image.value, resized, quality);
      if data.None? {
        assert Contribution(file, maxSize, quality, lib) == [];
        continue;
      }
      assert Contribution(file, maxSize, quality, lib) == [Entry(file.filename, data.value)];
      zipf.WriteStr(file.filename, data.value);
    }
    assert files[..|files|] == files;
    response := Archive(zipf.entries);
  }

  /** One more upload extends the archive by its own contribution. */
  lemma ProcessedStep(files: seq<Upload>, i: nat, maxSize: nat, quality: int, lib: ImageLibrary)
    requires i < |files|
    ensures Processed(files[..i + 1], maxSize, quality, lib)
         == Processed(files[..i], maxSize, quality, lib) + Contribution(files[i], maxSize, quality, lib)
  {
    assert files[..i + 1][..i] == files[..i];
  }

  /** The archive of a batch split in two is the archive of each half, in order. */
  lemma {:induction false} ProcessedAppend(a: seq<Upload>, b: seq<Upload>, maxSize: nat, quality: int,
                                           lib: ImageLibrary)
    ensures Processed(a + b, maxSize, quality, lib)
         == Processed(a, maxSize, quality, lib) + Processed(b, maxSize, quality, lib)
    decreases |b|
  {
    if b == [] {
      assert a + b == a;
    } else {
      var b' := b[..|b| - 1];
      assert (a + b)[..|a + b| - 1] == a + b';
      ProcessedAppend(a, b', maxSize, quality, lib);
    }
  }

  /** At most one entry per upload. */
  lemma {:induction false} ProcessedLength(files: seq<Upload>, maxSize: nat, quality: int, lib: ImageLibrary)
    ensures |Processed(files, maxSize, quality, lib)| <= |files|
  {
    if files != [] {
      ProcessedLength(files[..|files| - 1], maxSize, quality, lib);
    }
  }

  /** Every entry is named after a non-empty filename whose extension is allowed and that some upload carries. */
  lemma {:induction false} ProcessedNames(files: seq<Upload>, maxSize: nat, quality: int, lib: ImageLibrary)
    requires forall j :: 0 <= j < |files| ==> !Refused(files[j])
    ensures forall e :: e in Processed(files, maxSize, quality, lib) ==>
      AllowedFile(e.name) && exists j :: 0 <= j < |files| && files[j].filename == e.name
  {
    if files != [] {
      var init := files[..|files| - 1];
      ProcessedNames(init, maxSize, quality, lib);
      forall e | e in Processed(files, maxSize, quality, lib)
        ensures AllowedFile(e.name) && exists j :: 0 <= j < |files| && files[j].filename == e.name
      {
        if e in Processed(init, maxSize, quality, lib) {
          var j :| 0 <= j < |init| && init[j].filename == e.name;
          assert files[j].filename == e.name;
        } else {
          assert files[|files| - 1].filename == e.name;
        }
      }
    }
  }

  /** When every upload is processed successfully, the archive holds one entry per upload, in order, under its filename. */
  lemma {:induction false} ProcessedAllSucceed(files: seq<Upload>, maxSize: nat, quality: int, lib: ImageLibrary)
    requires forall j :: 0 <= j < |files| ==> Contribution(files[j], maxSize, quality, lib) != []
    ensures var entries := Processed(files, maxSize, quality, lib);
      |entries| == |files| && forall k :: 0 <= k < |files| ==> entries[k].name == files[k].filename
  {
    if files != [] {
      ProcessedAllSucceed(files[..|files| - 1], maxSize, quality, lib);
    }
  }

  /** A file that fails to decode or encode is left out and the rest of the batch is unaffected. */
  lemma ProcessedSkipsFailure(files: seq<Upload>, j: nat, maxSize: nat, quality: int, lib: ImageLibrary)
    requires j < |files| && Contribution(files[j], maxSize, quality, lib) == []
    ensures Processed(files, maxSize, quality, lib)
         == Processed(files[..j], maxSize, quality, lib) + Processed(files[j + 1..], maxSize, quality, lib)
  {
    assert files == files[..j + 1] + files[j + 1..];
    ProcessedAppend(files[..j + 1], files[j + 1..], maxSize, quality, lib);
    ProcessedStep(files, j, maxSize, quality, lib);
  }

  /** One upload that fails among uploads that all succeed costs exactly one entry. */
  lemma ProcessedOneFailure(files: seq<Upload>, j: nat, maxSize: nat, quality: int, lib: ImageLibrary)
    requires j < |files| && Contribution(files[j], maxSize, quality, lib) == []
    requires forall k :: 0 <= k < |files| && k != j ==> Contribution(files[k], maxSize, quality, lib) != []
    ensures |Processed(files, maxSize, quality, lib)| == |files| - 1
  {
    ProcessedSkipsFailure(files, j, maxSize, quality, lib);
    var before, after := files[..j], files[j + 1..];
    assert forall k :: 0 <= k < |after| ==> after[k] == files[j + 1 + k];
    ProcessedAllSucceed(before, maxSize, quality, lib);
    ProcessedAllSucceed(after, maxSize, quality, lib);
  }

  /** Two successful uploads under one filename give two entries: nothing is overwritten. */
  lemma ProcessedKeepsDuplicates(u: Upload, v: Upload, maxSize: nat, quality: int, lib: ImageLibrary)
    requires u.filename == v.filename
    requires Contribution(u, maxSize, quality, lib) != [] && Contribution(v, maxSize, quality, lib) != []
    ensures var entries := Processed([u, v], maxSize, quality, lib);
      |entries| == 2 && entries[0].name == entries[1].name == u.filename
  {
    assert [u, v][..1] == [u];
    assert [u][..0] == [];
    assert Processed([u], maxSize, quality, lib) == Contribution(u, maxSize, quality, lib);
  }

  /** An empty batch or invalid parameters are answered before any upload is looked at. */
  lemma HandleChecksFirst(files: seq<Upload>, files': seq<Upload>, maxSizeStr: Option<string>,
                          qualityStr: Option<string>, lib: ImageLibrary, lib': ImageLibrary)
    requires files != [] && files' != [] && !ValidateInput(maxSizeStr, qualityStr)
    ensures Handle([], maxSizeStr, qualityStr, lib) == Message(NoFilesSelected)
    ensures Handle(files, maxSizeStr, qualityStr, lib) == Handle(files', maxSizeStr, qualityStr, lib')
         == Message(ValidationFailed)
  {
  }

  /** One refused filename anywhere in the batch aborts the request with no archive. */
  lemma HandleRefusedAnywhere(files: seq<Upload>, j: nat, maxSizeStr: Option<string>,
                              qualityStr: Option<string>, lib: ImageLibrary)
    requires j < |files| && Refused(files[j]) && ValidateInput(maxSizeStr, qualityStr)
    ensures Handle(files, maxSizeStr, qualityStr, lib) == Message(OnlyImages)
  {
  }

  /** An archive holds at most one entry per upload, each named after an upload with an allowed extension. */
  lemma HandleArchive(files: seq<Upload>, maxSizeStr: Option<string>, qualityStr: Option<string>,
                      lib: ImageLibrary)
    requires Handle(files, maxSizeStr, qualityStr, lib).Archive?
    ensures var entries := Handle(files, maxSizeStr, qualityStr, lib).entries;
      && |entries| <= |files|
      && forall e :: e in entries ==>
           AllowedFile(e.name) && exists j :: 0 <= j < |files| && files[j].filename == e.name
  {
    var maxSize := ParseInt(maxSizeStr.value).value as nat;
    var quality := ParseInt(qualityStr.value).value;
    ProcessedLength(files, maxSize, quality, lib);
    ProcessedNames(files, maxSize, quality, lib);
  }

  /**
    A valid request whose uploads all carry allowed names and all decode and
    encode answers with an archive of one entry per upload, in submission
    order, under the original filenames.
  */
  lemma HandleAllImages(files: seq<Upload>, maxSizeStr: Option<string>, qualityStr: Option<string>,
                        lib: ImageLibrary)
    requires files != [] && ValidateInput(maxSizeStr, qualityStr)
    requires forall j :: 0 <= j < |files| ==> AllowedFile(files[j].filename)
    requires forall j :: 0 <= j < |files| ==>
      Contribution(files[j], ParseInt(maxSizeStr.value).value as nat, ParseInt(qualityStr.value).value, lib) != []
    ensures var response := Handle(files, maxSizeStr, qualityStr, lib);
      && response.Archive?
      && |response.entries| == |files|
      && forall k :: 0 <= k < |files| ==> response.entries[k].name == files[k].filename
  {
    ProcessedAllSucceed(files, ParseInt(maxSizeStr.value).value as nat, ParseInt(qualityStr.value).value, lib);
  }

  /** An empty batch is answered "No files selected", whatever the form fields hold. */
  lemma HandleEmpty(maxSizeStr: Option<string>, qualityStr: Option<string>, lib: ImageLibrary)
    ensures Handle([], maxSizeStr, qualityStr, lib) == Message(NoFilesSelected)
  {
  }

  /** An upload with an empty filename is skipped: removing it from a batch of two or more changes nothing. */
  lemma HandleSkipsEmpty(files: seq<Upload>, j: nat, maxSizeStr: Option<string>, qualityStr: Option<string>,
                         lib: ImageLibrary)
    requires j < |files| && files[j].filename == "" && |files| > 1
    ensures Handle(files, maxSizeStr, qualityStr, lib)
         == Handle(files[..j] + files[j + 1..], maxSizeStr, qualityStr, lib)
  {
    var rest := files[..j] + files[j + 1..];
    assert forall k :: 0 <= k < |rest| ==> rest[k] == files[if k < j then k else k + 1];
    assert NoneRefused(files) <==> NoneRefused(rest) by {
      if NoneRefused(rest) {
        forall k | 0 <= k < |files| ensures !Refused(files[k]) {
          if k < j {
            assert files[k] == rest[k];
          } else if k > j {
            assert files[k] == rest[k - 1];
          }
        }
      }
    }
    if ValidateInput(maxSizeStr, qualityStr) {
      var maxSize := ParseInt(maxSizeStr.value).value as nat;
      var quality := ParseInt(qualityStr.value).value;
      ProcessedSkipsFailure(files, j, maxSize, quality, lib);
      ProcessedAppend(files[..j], files[j + 1..], maxSize, quality, lib);
    }
  }
}
