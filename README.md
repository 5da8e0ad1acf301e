# Headshot app: framing, archive reading and the upload list

This project models the headshot web application in Dafny and proves properties of the model. It covers the three pieces of the core that decide results:

- **Framing** (`framing.dfy`) follows the route that processes an image. It picks the subject among the detected faces, giving high faces more weight, with ties going to the earlier face. It computes the square crop around that face: 2.2 face heights, at least 1.6, never larger than the image, centred on the face with top padding above the head and clamped into the image. Without a face it takes the centred fallback square. It also selects the output size, 500 or 1000.
- **ZIP reading** (`zip_reader.dfy`, `zip_records.dfy`) follows the page's `extractPngsFromZip`. It walks the local file headers of PKWARE's APPNOTE.TXT (section 4.3.7) from the start of the returned archive and keeps the stored entries whose name ends in ".png".
  - `ZipReader` holds the reader: a function `Walk` and the imperative cursor loop proved equal to it.
  - `ZipRecords` adds a reference writer of local records. It is used to prove the round trip: the reader returns exactly the stored ".png" records of an archive, in order, with their bytes. It also proves what a truncated record does.
- **Upload list** (`uploads.dfy`) follows the page's `addFiles` extension filter and `removeFile`.

The code is followed where it is more precise than its description. In the reader, only three reads can leave the buffer: the fixed 30-byte header, the name, and the data of an entry that is kept. Each of these throws in the original, and here each is an explicit error value, `ZipReader.ZipError`. A skipped entry is never checked against the buffer. When its data runs past the end, the cursor jumps past the end, the loop ends and the entries found so far are returned without an error. `ZipRecords.TruncatedRecord` states this case.

## Model

| member | source | states |
|---|---|---|
| Framing.Round | src/app/api/process/route.ts:170 | `Math.round` gives an integer within one half of its argument (halves go up) |
| Framing.PositionWeight | src/app/api/process/route.ts:140-149 | the weight is 3.0 exactly when the face centre is above half the height, 1.0 exactly when it lies from 50% to below 65%, 0.05 exactly when it is at or below 65% |
| Framing.PositionWeightNonIncreasing | src/app/api/process/route.ts:140-149 | a face lower in the frame never gets a larger weight |
| Framing.Score | src/app/api/process/route.ts:151 | for a non-negative confidence c the score lies between 0.05 c and 3 c |
| Framing.SelectBestFace | src/app/api/process/route.ts:129-159 | no face exactly when the list is empty; otherwise the face at the first index whose score is maximal, with the running best starting at -1 |
| Framing.FirstBestWithNonNegativeConfidence | src/app/api/process/route.ts:151-155 | with confidences of at least 0, the chosen face scores at least as much as every face and strictly more than every earlier one |
| Framing.TieGoesToEarlierFace | src/app/api/process/route.ts:152-155 | of two faces with equal scores the first is chosen, because replacing needs a strictly larger score |
| Framing.UpperFaceBeatsLowerFace | src/app/api/process/route.ts:140-151 | position outweighs confidence: a face at 30% of the height with confidence 0.71 beats one at 90% with 0.95 |
| Framing.CropSide | src/app/api/process/route.ts:173-176 | the side is at most both image dimensions; it is at least round(1.6 h) whenever that fits; for a non-negative face height it is min(round(2.2 h), short side) if round(1.6 h) fits and the short side otherwise |
| Framing.RoundOfClamped | src/app/api/process/route.ts:186-190 | clamping the real left edge and then rounding equals rounding and then clamping to integer bounds |
| Framing.PlaceCrop | src/app/api/process/route.ts:166-193 | left and top are non-negative; for non-negative sizes the square lies inside the image, with top = clamp(headTop - round(0.02 side)) and left = clamp(round(face centre - side/2)) |
| Framing.HeadshotCrop | src/app/api/process/route.ts:161-194 | the crop satisfies both the size rule of `CropSide` and the placement of `PlaceCrop` |
| Framing.RoundHalf | src/app/api/process/route.ts:201 | twice round(n/2) is n or n + 1 |
| Framing.FallbackCrop | src/app/api/process/route.ts:196-203 | side = min(W, H), top 0, left round((W - side)/2) (2 left + side - W is 0 or 1), and the square lies inside the image |
| Framing.FallbackCropLandscape | src/app/api/process/route.ts:200-202 | a 1200 x 800 image gives left 200, top 0, side 800 |
| Framing.FrameImage | src/app/api/process/route.ts:212-217 | no faces gives the fallback crop; otherwise the head crop around the first best face; the crop is inside the image whenever sizes and face heights are non-negative |
| Framing.TargetSize | src/app/api/process/route.ts:238-239 | the size is 500 or 1000, and it is 1000 exactly when the field's number is 1000 |
| ZipReader.LeU16 | src/app/page.tsx:639-643 | a little-endian 16-bit read is below 2^16 |
| ZipReader.LeU32 | src/app/page.tsx:636-641 | a little-endian 32-bit read is below 2^32 |
| ZipReader.ReadHeader | src/app/page.tsx:639-643 | the method, name length and extra length read are below 2^16, the two sizes below 2^32 |
| ZipReader.DataSize | src/app/page.tsx:649 | the data size is the compressed size when that is non-zero and the uncompressed size otherwise; it is 0 exactly when both are 0 |
| ZipReader.PngNameLowered | src/app/page.tsx:651 | the byte-wise test of the last four bytes is the same as lower-casing the name and testing that it ends in ".png" |
| ZipReader.StepAt | src/app/page.tsx:635-658 | one turn that goes on moves the cursor forward by at least 30 and emits at most one entry |
| ZipReader.Walk | src/app/page.tsx:635-659 | an error names the offset of a header the loop reached: at or after the start offset and below the length minus 4 |
| ZipReader.ReadEntryAt | src/app/page.tsx:636-658 | the loop body (signature, header fields, name, data offset and size, selection, data) computes exactly the turn `StepAt` |
| ZipReader.ExtractPngs | src/app/page.tsx:635-659 | an error names the offset of a header the loop reached, below the length minus 4 |
| ZipReader.ExtractPngsFromZip | src/app/page.tsx:628-662 | the cursor loop returns exactly the result of the walk `ExtractPngs`, either the entries or the error |
| ZipReader.StopsAtOtherSignature | src/app/page.tsx:636-637 | at a signature other than 0x04034b50 the walk ends and adds nothing |
| ZipReader.StopsNearEnd | src/app/page.tsx:635 | once the cursor is not below the length minus 4 the walk ends and adds nothing |
| ZipReader.OnlyPngNames | src/app/page.tsx:651-655 | every entry returned has a ".png" name |
| ZipRecords.U32Bytes | src/app/page.tsx:636 | the four bytes written for a 32-bit value read back as that value |
| ZipRecords.HeaderReadsBack | src/app/page.tsx:639-643 | a written header reads back its signature, method, sizes, name length and extra length at offsets 0, 8, 18, 22, 26 and 28 |
| ZipRecords.StepAtHeader | src/app/page.tsx:645-658 | one turn at a header: a name-out-of-bounds error, a data-out-of-bounds error for a selected entry, or the record's entries and a jump to the end of its data at offset + 30 + name + extra + data size |
| ZipRecords.WalkLaidOut | src/app/page.tsx:635-659 | over records laid out one after another, the walk returns exactly the selected records, in order |
| ZipRecords.LaysOut | src/app/page.tsx:648-658 | written records, followed by bytes that stop the reader, are laid out the way `WalkLaidOut` needs |
| ZipRecords.ReadsBackWrittenRecords | src/app/page.tsx:628-662 | reading an archive of well-formed records returns exactly its stored ".png" records with their names and data, in order |
| ZipRecords.CentralDirectoryStops | src/app/page.tsx:636-637 | a central directory signature after the local records ends the walk |
| ZipRecords.TruncatedRecord | src/app/page.tsx:645-658 | a record cut after n bytes gives: a truncated-header error below 30 bytes; a name error inside the name; a data error for a selected entry; and, for a skipped one, no error and no entry |
| Uploads.EndsWithAnyMeans | src/app/page.tsx:25 | `some` over the extensions holds exactly when the name ends in one of them |
| Uploads.HasAllowedExtension | src/app/page.tsx:25 | a name is accepted exactly when its lower-case form ends in one of ".jpg", ".jpeg", ".png", ".webp" |
| Uploads.AllowedIgnoresCase | src/app/page.tsx:25 | a name and its lower-case form are accepted alike |
| Uploads.AcceptsUpperCaseExtension | src/app/page.tsx:23-25 | "Portrait.JPEG" is accepted |
| Uploads.RejectsOtherExtension | src/app/page.tsx:23-25 | "photo.png.txt" is refused |
| Uploads.Filter | src/app/page.tsx:24-26 | the kept elements all pass the test and are no more than the given ones |
| Uploads.FilterCounts | src/app/page.tsx:24-26 | each element passing the test is kept as many times as it was given, every other one is dropped |
| Uploads.FilterAppend | src/app/page.tsx:24-26 | filtering a concatenation is concatenating the filtered parts, so order is kept |
| Uploads.FilterAllPass | src/app/page.tsx:24-26 | a list whose every element passes is kept as it is |
| Uploads.AddFiles | src/app/page.tsx:22-27 | the list grows by at most the new files, starts with the previous files unchanged, and everything after them is accepted |
| Uploads.AddFilesContents | src/app/page.tsx:22-27 | after adding, the list starts with the previous files unchanged, and holds each file as often as before plus, if its name is accepted, as often as among the new files |
| Uploads.AddFilesTwice | src/app/page.tsx:27 | adding two batches one after the other is adding them together |
| Uploads.AddImages | src/app/page.tsx:22-27 | adding files that are all images appends them as given |
| Uploads.RemoveFile | src/app/page.tsx:33-35 | in range: the list with the element at that position cut out; out of range: the list unchanged |
| Uploads.RemoveFileShifts | src/app/page.tsx:33-35 | in range: one fewer element, those before the position in place, those after it moved up by one |
| Uploads.RemoveFileCounts | src/app/page.tsx:33-35 | in range: exactly one copy of the element at that position is gone |
| Uploads.RemoveLastAdded | src/app/page.tsx:22-35 | removing the position of a just-added image gives back the earlier list |

## Left out

- Face detection (the ONNX model, its session and tensor preprocessing) is foreign runtime code with floating-point work. Its output list of `FaceRect` is an input here.
- Cropping, resizing and PNG encoding are done by the `sharp` library, whose code is not part of this model. The crop rectangle handed to it is modelled.
- Writing the archive is done by JSZip, which is not part of this model. `ZipRecords` is a reference writer of stored local records, used only to state what the reader makes of them. CRC-32, the central directory and data descriptors are neither written nor checked.
- HTTP handling, form parsing, file renaming, `fetch`, Blobs, object URLs and all rendering and React state are I/O or UI.
  - `addFiles` also clears the error, the results and the archive in component state; only the file list is modelled.
- All numbers are exact reals and unbounded integers, not IEEE doubles. `Math.round` is modelled as floor(x + 0.5), which is its definition on exact values.
- Framing.SelectBestFace: the NaN cases of IEEE arithmetic (where `>` is always false) are not modelled.
- Framing.HeadshotCrop: containment in the image is promised only for non-negative image sizes and face height. With a negative crop side the original's clamps do not keep the square inside either.
- Framing.HeadshotCrop: products are exact here, so the head top and the crop top can differ by one pixel from the original's. In IEEE doubles `0.35 * 90` is 31.499999999999996, which `Math.round` takes to 31; the model has 31.5, which rounds to 32. So `HeadTop` of a face at y = 100 with height 90 is 68 in the model and 69 in the original. A face height of 170 behaves the same way.
- Framing.TargetSize: the form field is taken as an already converted number (NaN or a value). The conversion of strings by `Number` is not modelled.
- ZipReader.IsPngName: tests raw name bytes with ASCII lower-casing, not the UTF-8 decoded name. For the suffix ".png" the two agree, because UTF-8 decoding maps ASCII bytes to themselves and no other character lower-cases to '.', 'p', 'n' or 'g'. Returned entry names are bytes.
- ZipReader.ZipError: the original throws one kind of range error. The model distinguishes three error kinds by which read failed.
- Uploads.LowerChar: only ASCII letters are lower-cased. No other character lower-cases to a letter of ".jpg", ".jpeg", ".png" or ".webp", so the result of the extension test is unaffected.
- Uploads.UploadFile: a file is its name and size; its contents play no part in the list operations.
