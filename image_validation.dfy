/** ImageValidationUtil: the checks a profile image upload must pass, the extension of a
    file name, and the S3 key a profile image is stored under. */
module ImageValidation {
  import opened Wrappers
  import opened Errors
  import opened Text

  const AllowedExtensions: seq<string> := ["jpg", "jpeg", "png", "gif", "webp"]
  const AllowedContentTypes: seq<string> := ["image/jpeg", "image/jpg", "image/png", "image/gif", "image/webp"]

  /** 5 MiB, the largest size accepted. */
  const MaxFileSize: nat := 5 * 1024 * 1024

  /** A MultipartFile as the checks see it: isEmpty() is a size of zero; a null content
      type or original file name is None. */
  datatype ImageFile = ImageFile(size: nat, contentType: Option<string>, originalFilename: Option<string>)

  /** getFileExtension(filename): the text after the last '.', or "" when there is none. */
  function FileExtension(filename: string): (r: string)
    ensures forall i | 0 <= i < |r| :: r[i] != '.'
    ensures LastIndexOf(filename, '.') == -1 ==> r == ""
    ensures LastIndexOf(filename, '.') >= 0 ==>
      |r| < |filename| && filename[|filename| - |r| - 1] == '.' && filename[|filename| - |r|..] == r
  {
    var dot := LastIndexOf(filename, '.');
    if dot == -1 then "" else filename[dot + 1..]
  }

  /** A name ending in '.' and a dot-free extension has that extension. */
  lemma FileExtensionOf(stem: string, ext: string)
    requires forall i | 0 <= i < |ext| :: ext[i] != '.'
    ensures FileExtension(stem + "." + ext) == ext
  {
    var s := stem + "." + ext;
    var dot := LastIndexOf(s, '.');
    assert s[|stem|] == '.';
    assert s[|stem| + 1..] == ext;
  }

  /** validateImageFile(file), checks in order: a missing or empty file is
      INVALID_IMAGE_FILE, a size above 5 MiB is IMAGE_FILE_TOO_LARGE, a missing or unlisted
      (lower-cased) content type is INVALID_IMAGE_FORMAT, a missing or blank file name is
      INVALID_IMAGE_FILE, and an unlisted (lower-cased) extension is INVALID_IMAGE_FORMAT. */
  function ValidateImageFile(file: Option<ImageFile>): (r: Result<(), Failure>)
    ensures file.None? || file.value.size == 0 ==> r == Err(MemberErr(InvalidImageFile))
    ensures r == Err(MemberErr(ImageFileTooLarge)) <==> file.Some? && file.value.size > MaxFileSize
    ensures r == Err(MemberErr(InvalidImageFile)) <==>
      || file.None? || file.value.size == 0
      || (&& file.value.size <= MaxFileSize
          && file.value.contentType.Some? && ToLower(file.value.contentType.value) in AllowedContentTypes
          && (file.value.originalFilename.None? || Trim(file.value.originalFilename.value) == ""))
    ensures r.Err? ==> r.error in {MemberErr(InvalidImageFile), MemberErr(ImageFileTooLarge), MemberErr(InvalidImageFormat)}
  {
    if file.None? || file.value.size == 0 then Err(MemberErr(InvalidImageFile))
    else if file.value.size > MaxFileSize then Err(MemberErr(ImageFileTooLarge))
    else if file.value.contentType.None? || ToLower(file.value.contentType.value) !in AllowedContentTypes then
      Err(MemberErr(InvalidImageFormat))
    else if file.value.originalFilename.None? || Trim(file.value.originalFilename.value) == "" then
      Err(MemberErr(InvalidImageFile))
    else if ToLower(FileExtension(file.value.originalFilename.value)) !in AllowedExtensions then
      Err(MemberErr(InvalidImageFormat))
    else Ok(())
  }

  /** A file is accepted exactly when it is non-empty and at most 5 MiB, its content type
      and extension are allowed ignoring case, and its name is not blank; an accepted file's
      extension is one of the five image extensions, so it is never empty. */
  lemma ValidateImageFileOkIff(file: Option<ImageFile>)
    ensures ValidateImageFile(file).Ok? <==>
      && file.Some? && 0 < file.value.size <= MaxFileSize
      && file.value.contentType.Some? && ToLower(file.value.contentType.value) in AllowedContentTypes
      && file.value.originalFilename.Some? && (exists i | 0 <= i < |file.value.originalFilename.value| ::
                                                 !IsTrimmable(file.value.originalFilename.value[i]))
      && ToLower(FileExtension(file.value.originalFilename.value)) in AllowedExtensions
    ensures ValidateImageFile(file).Ok? ==> |FileExtension(file.value.originalFilename.value)| >= 3
  {
    if file.Some? && file.value.originalFilename.Some? {
      var name := file.value.originalFilename.value;
      TrimEmptyIff(name);
      var lower := ToLower(FileExtension(name));
      if lower in AllowedExtensions {
        AllowedExtensionsLong(lower);
      }
    }
  }

  /** Every allowed extension has at least three characters. */
  lemma AllowedExtensionsLong(e: string)
    requires e in AllowedExtensions
    ensures |e| >= 3
  {
  }

  /** A rejection names the first failing check: a file too large is reported as such even
      when its type and name are also wrong, and a file of exactly 5 MiB fares as any small
      non-empty file with the same type and name does, so the size bound is inclusive. */
  lemma ValidationOrder(size: nat, contentType: Option<string>, name: Option<string>)
    ensures size > MaxFileSize ==>
      ValidateImageFile(Some(ImageFile(size, contentType, name))) == Err(MemberErr(ImageFileTooLarge))
    ensures 0 < size <= MaxFileSize ==>
      ValidateImageFile(Some(ImageFile(size, contentType, name)))
        == ValidateImageFile(Some(ImageFile(MaxFileSize, contentType, name)))
  {
  }

  /** generateProfileImageKey(memberId, filename) with the clock's milliseconds and the
      random UUID's text as parameters: "profile/" + memberId + "/" + millis + "_" + the
      first eight UUID characters + "." + the file's extension. */
  function ProfileImageKey(memberId: nat, millis: nat, uuid: string, filename: string): (r: string)
    requires |uuid| >= 8
  {
    "profile/" + NatToString(memberId) + "/" + (NatToString(millis) + "_" + uuid[..8] + "." + FileExtension(filename))
  }

  /** In a decimal number followed by '/', the first '/' is the one after the number. */
  lemma FirstSlash(n: string, rest: string)
    requires forall i | 0 <= i < |n| :: IsDigit(n[i])
    ensures (n + ("/" + rest))[|n|] == '/'
    ensures forall i | 0 <= i < |n| :: (n + ("/" + rest))[i] != '/'
  {
  }

  /** A decimal number between "profile/" and the next '/' is recovered from the key. */
  lemma SlashSeparated(na: string, nb: string, ra: string, rb: string)
    requires forall i | 0 <= i < |na| :: IsDigit(na[i])
    requires forall i | 0 <= i < |nb| :: IsDigit(nb[i])
    requires "profile/" + na + "/" + ra == "profile/" + nb + "/" + rb
    ensures na == nb
  {
    var s := ("profile/" + na + "/" + ra)[8..];
    assert s == na + ("/" + ra);
    assert s == nb + ("/" + rb);
    FirstSlash(na, ra);
    FirstSlash(nb, rb);
    assert |na| == |nb|;
    assert na == s[..|na|] == nb;
  }

  /** The key keeps the uploaded file's extension and lies under the member's own folder. */
  lemma ProfileImageKeyShape(a: nat, millis: nat, uuid: string, filename: string)
    requires |uuid| >= 8
    ensures FileExtension(ProfileImageKey(a, millis, uuid, filename)) == FileExtension(filename)
    ensures StartsWith(ProfileImageKey(a, millis, uuid, filename), "profile/" + NatToString(a) + "/")
  {
    var ext := FileExtension(filename);
    var folder := "profile/" + NatToString(a) + "/";
    var stem := folder + NatToString(millis) + "_" + uuid[..8];
    var k := ProfileImageKey(a, millis, uuid, filename);
    assert k == folder + (NatToString(millis) + "_" + uuid[..8] + "." + ext);
    assert k == stem + "." + ext;
    FileExtensionOf(stem, ext);
    assert k[..|folder|] == folder;
  }

  /** Keys of different members never coincide, whatever the clock, UUID and file name. */
  lemma ProfileImageKeysOfMembersDiffer(a: nat, b: nat, millis: nat, millis': nat, uuid: string, uuid': string,
                                        filename: string, filename': string)
    requires |uuid| >= 8 && |uuid'| >= 8 && a != b
    ensures ProfileImageKey(a, millis, uuid, filename) != ProfileImageKey(b, millis', uuid', filename')
  {
    var na, nb := NatToString(a), NatToString(b);
    if ProfileImageKey(a, millis, uuid, filename) == ProfileImageKey(b, millis', uuid', filename') {
      SlashSeparated(na, nb, NatToString(millis) + "_" + uuid[..8] + "." + FileExtension(filename),
                     NatToString(millis') + "_" + uuid'[..8] + "." + FileExtension(filename'));
      DigitsValueOfNatToString(a);
      DigitsValueOfNatToString(b);
    }
  }
}
