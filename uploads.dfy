/**
 * The upload list of the page: files picked or dropped by the user are kept
 * when their name has an image extension, appended after those already
 * chosen; a file can be taken out again by its position in the list.
 */
module Uploads {
  import opened Sequences

  /** A chosen file; only its name matters to the list operations. */
  datatype UploadFile = UploadFile(name: string, size: nat)

  /** The extensions the page accepts, compared in lower case. */
  const AllowedExtensions: seq<string> := [".jpg", ".jpeg", ".png", ".webp"]

  // ---------------------------------------------------------------------------
  // Extension test

  /** `toLowerCase` on one character, for the ASCII letters. */
  function LowerChar(c: char): char
  {
    if 'A' <= c <= 'Z' then (c as int + 32) as char else c
  }

  function ToLower(s: string): (t: string)
    ensures |t| == |s|
  {
    seq(|s|, i requires 0 <= i < |s| => LowerChar(s[i]))
  }

  /** `exts.some((ext) => s.endsWith(ext))`. */
  predicate EndsWithAny(s: string, exts: seq<string>)
  {
    exts != [] && (EndsWith(s, exts[0]) || EndsWithAny(s, exts[1..]))
  }

  lemma {:induction false} EndsWithAnyMeans(s: string, exts: seq<string>)
    ensures EndsWithAny(s, exts) <==> exists ext <- exts :: EndsWith(s, ext)
  {
    if exts != [] {
      EndsWithAnyMeans(s, exts[1..]);
      assert forall ext <- exts :: ext == exts[0] || ext in exts[1..];
    }
  }

  /** `allowed.some((ext) => f.name.toLowerCase().endsWith(ext))`. */
  predicate HasAllowedExtension(name: string): (b: bool)
    ensures b <==> exists ext <- AllowedExtensions :: EndsWith(ToLower(name), ext)
  {
    EndsWithAnyMeans(ToLower(name), AllowedExtensions);
    EndsWithAny(ToLower(name), AllowedExtensions)
  }

  /** Lower-casing twice is lower-casing once. */
  lemma ToLowerIdempotent(s: string)
    ensures ToLower(ToLower(s)) == ToLower(s)
  {
    var t := ToLower(s);
    assert forall i :: 0 <= i < |s| ==> ToLower(t)[i] == LowerChar(LowerChar(s[i])) == t[i];
  }

  /** The test ignores case: a name and its lower-case form are accepted alike. */
  lemma AllowedIgnoresCase(name: string)
    ensures HasAllowedExtension(ToLower(name)) <==> HasAllowedExtension(name)
  {
    ToLowerIdempotent(name);
  }

  /** An upper-case image extension is accepted. */
  lemma AcceptsUpperCaseExtension()
    ensures HasAllowedExtension("Portrait.JPEG")
  {
    assert ToLower("Portrait.JPEG") == "portrait.jpeg";
    assert EndsWith("portrait.jpeg", AllowedExtensions[1]);
  }

  /** Another extension is refused, even after an image extension. */
  lemma RejectsOtherExtension()
    ensures !HasAllowedExtension("photo.png.txt")
  {
    var s := "photo.png.txt";
    forall i | 0 <= i < |s|
      ensures ToLower(s)[i] == s[i]
    {
    }
    assert ToLower(s) == s;
  }

  // ---------------------------------------------------------------------------
  // Adding files

  /**
   * `Array.prototype.filter` with a test that looks at the element only: the
   * elements passing `keep`, in their order, each as often as it was given.
   */
  function Filter(files: seq<UploadFile>, keep: UploadFile -> bool): (kept: seq<UploadFile>)
    ensures |kept| <= |files|
    ensures forall f <- kept :: keep(f)
  {
    if files == [] then []
    else (if keep(files[0]) then [files[0]] else []) + Filter(files[1..], keep)
  }

  /** Each element passing `keep` is kept as often as it was given, every other one dropped. */
  lemma {:induction false} FilterCounts(files: seq<UploadFile>, keep: UploadFile -> bool)
    ensures forall f :: multiset(Filter(files, keep))[f] == if keep(f) then multiset(files)[f] else 0
  {
    if files != [] {
      assert files == [files[0]] + files[1..];
      FilterCounts(files[1..], keep);
    }
  }

  /** Filtering a concatenation filters each part, so the kept files stay in order. */
  lemma {:induction false} FilterAppend(a: seq<UploadFile>, b: seq<UploadFile>, keep: UploadFile -> bool)
    ensures Filter(a + b, keep) == Filter(a, keep) + Filter(b, keep)
  {
    if a == [] {
      assert a + b == b;
    } else {
      var head := if keep(a[0]) then [a[0]] else [];
      assert (a + b)[0] == a[0] && (a + b)[1..] == a[1..] + b;
      FilterAppend(a[1..], b, keep);
      calc {
        Filter(a + b, keep);
        head + Filter(a[1..] + b, keep);
        head + (Filter(a[1..], keep) + Filter(b, keep));
        (head + Filter(a[1..], keep)) + Filter(b, keep);
      }
    }
  }

  /** A list whose every element passes is kept as it is. */
  lemma {:induction false} FilterAllPass(files: seq<UploadFile>, keep: UploadFile -> bool)
    requires forall f <- files :: keep(f)
    ensures Filter(files, keep) == files
  {
    if files != [] {
      assert forall f <- files[1..] :: f in files;
      FilterAllPass(files[1..], keep);
    }
  }

  /** The test `addFiles` applies to each new file. */
  predicate Accepted(f: UploadFile)
  {
    HasAllowedExtension(f.name)
  }

  /** `addFiles`: the previous list, then the accepted new files. */
  function AddFiles(prev: seq<UploadFile>, newFiles: seq<UploadFile>): (files: seq<UploadFile>)
    ensures |prev| <= |files| <= |prev| + |newFiles|
    ensures files[..|prev|] == prev
    ensures forall f <- files[|prev|..] :: Accepted(f)
  {
    prev + Filter(newFiles, Accepted)
  }

  /**
   * After adding, the list starts with the previous files untouched, and
   * holds each file as often as before plus, if its name is accepted, as
   * often as it was among the new files.
   */
  lemma AddFilesContents(prev: seq<UploadFile>, newFiles: seq<UploadFile>)
    ensures AddFiles(prev, newFiles)[..|prev|] == prev
    ensures forall f :: multiset(AddFiles(prev, newFiles))[f] ==
              multiset(prev)[f] + if Accepted(f) then multiset(newFiles)[f] else 0
  {
    var kept := Filter(newFiles, Accepted);
    FilterCounts(newFiles, Accepted);
    assert (prev + kept)[..|prev|] == prev;
    assert multiset(prev + kept) == multiset(prev) + multiset(kept);
  }

  /** Adding two batches one after the other is adding them together. */
  lemma AddFilesTwice(prev: seq<UploadFile>, a: seq<UploadFile>, b: seq<UploadFile>)
    ensures AddFiles(AddFiles(prev, a), b) == AddFiles(prev, a + b)
  {
    FilterAppend(a, b, Accepted);
  }

  /** Adding files that are all images appends them as given. */
  lemma AddImages(prev: seq<UploadFile>, newFiles: seq<UploadFile>)
    requires forall f <- newFiles :: Accepted(f)
    ensures AddFiles(prev, newFiles) == prev + newFiles
  {
    FilterAllPass(newFiles, Accepted);
  }

  // ---------------------------------------------------------------------------
  // Removing a file

  /**
   * `removeFile`: `prev.filter((_, i) => i !== index)`. Walking the list,
   * the element at position `i` of the rest is position `i + 1` of the
   * whole, so the index to drop moves down by one at each step.
   */
  function RemoveFile(files: seq<UploadFile>, index: int): (r: seq<UploadFile>)
    ensures 0 <= index < |files| ==> r == files[..index] + files[index + 1 ..]
    ensures !(0 <= index < |files|) ==> r == files
    decreases |files|
  {
    if files == [] then []
    else if index == 0 then
      assert files[..0] + files[1..] == files[1..];
      RemoveFile(files[1..], index - 1)
    else
      var rest := RemoveFile(files[1..], index - 1);
      assert 0 < index < |files| ==> files[1..][..index - 1] + files[1..][index ..] == files[1..index] + files[index + 1 ..];
      assert 0 < index < |files| ==> files[..index] == [files[0]] + files[1..index];
      assert files == [files[0]] + files[1..];
      [files[0]] + rest
  }

  /** Removing a position in range: one fewer file, those before it in place, those after it moved up by one. */
  lemma RemoveFileShifts(files: seq<UploadFile>, index: int)
    requires 0 <= index < |files|
    ensures |RemoveFile(files, index)| == |files| - 1
    ensures forall j :: 0 <= j < index ==> RemoveFile(files, index)[j] == files[j]
    ensures forall j :: index <= j < |files| - 1 ==> RemoveFile(files, index)[j] == files[j + 1]
  {
  }

  /** ... and exactly one copy of the file at that position is gone. */
  lemma RemoveFileCounts(files: seq<UploadFile>, index: int)
    requires 0 <= index < |files|
    ensures multiset(RemoveFile(files, index)) + multiset{files[index]} == multiset(files)
  {
    CutCounts(files, index);
  }

  lemma CutCounts<T>(s: seq<T>, i: int)
    requires 0 <= i < |s|
    ensures multiset(s[..i] + s[i + 1 ..]) + multiset{s[i]} == multiset(s)
  {
    var before, after := s[..i], s[i + 1 ..];
    assert s == before + ([s[i]] + after);
  }

  /** Removing a just-added file that is the last of the list gives back the earlier list. */
  lemma RemoveLastAdded(prev: seq<UploadFile>, f: UploadFile)
    requires Accepted(f)
    ensures RemoveFile(AddFiles(prev, [f]), |prev|) == prev
  {
    AddImages(prev, [f]);
    var files := prev + [f];
    assert files[..|prev|] == prev && files[|prev| + 1 ..] == [];
    assert RemoveFile(files, |prev|) == prev + [];
  }
}
