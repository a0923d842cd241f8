# PyCam in Dafny

A model of `01-data-collection/pycam.py`, a webcam script. It streams camera frames to a window. SPACE saves the current frame as `opencv_frame_<n>.png` and ESC quits. The script's own logic is modelled and proved here, in six modules:

- `Wrappers` (`wrappers.dfy`): the `Option` and `Result` types used for Python's exceptions.
- `Decimal` (`decimal.dfy`): Python's `str(n)` / `"{}".format(n)` and `int(s)` on decimal text.
- `Resolution` (`resolution.dfy`): the `-r` option. The string is split on `'x'`, unpacked into two names and converted with `int`. This module also holds the `str(w) + "x" + str(h)` text the script prints.
- `PhotoFiles` (`photo_files.dfy`): photo names `file_prefix + str(n) + ".png"`. It also holds the start-up scan, a `while` loop written as the method `FirstFreeIndex`. The scan stops at the first index whose file does not exist.
- `CaptureLoop` (`capture_loop.dfy`): the `while True` loop. Each iteration is an event: the frame read failed, or it succeeded and `waitKey` returned a key code. `Step`/`Run` are the specification. The method `CaptureLoop` is the loop itself, with `break`, and it is proved equal to `Run`.
- `PyCam` (`pycam.dfy`): the whole script as one method, from the resolution string, the set of file names already in the directory and the events to the outcome.

The model follows what the code does, including where that is narrower than a reader might expect:
- A resolution is not checked for positivity. `"-640x0"` is accepted (`Resolution.NonPositiveAccepted`).
- Nothing checks that the camera opened. A missing camera shows up as a failed frame read, which ends the loop normally.
- The comment on line 54 says numbering starts after the last photo. The loop on lines 55-57 actually stops at the first gap, not at the largest existing index plus one. With photos 0, 1 and 3 the scan gives 2, and the session's second save writes over photo 3 (`PhotoFiles.LaterPhotoOverwritten`).

Python's `k % 256` with a positive modulus is never negative, and Dafny's `%` gives the same result. So `-1` ("no key") becomes 255 and is ignored.

## Model

| member | source | states |
|---|---|---|
| `Decimal.NatToString` | 01-data-collection/pycam.py:80 | `str(n)` is canonical decimal text (digits only, no leading zero) whose digit value is n, and it is one character long exactly when n < 10 |
| `Decimal.CanonicalIsNatToString` | 01-data-collection/pycam.py:80 | every canonical digit string is `str` of its own value, so `str` is a bijection between naturals and canonical digit strings |
| `Decimal.NatToStringInjective` | 01-data-collection/pycam.py:80 | different naturals have different decimal text |
| `Decimal.IntToString` | 01-data-collection/pycam.py:43 | `str(n)` of any integer is text that `int` accepts, and it starts with '-' exactly when n is negative; `ParseIntToString` gives its inverse |
| `Decimal.ParseInt` | 01-data-collection/pycam.py:40 | `int(s)` succeeds exactly when s is an optional sign followed by one or more digits; the value it returns is stated by `ParseIntSignsAndZeros`, `ParseIntToString` and `CanonicalIsNatToString` |
| `Decimal.ParseIntToString` | 01-data-collection/pycam.py:40-43 | `int(str(n)) == n` for every integer n, negative ones included |
| `Decimal.LeadingZeroValue` | 01-data-collection/pycam.py:40 | a leading zero does not change the value of a digit string |
| `Decimal.ParseIntSignsAndZeros` | 01-data-collection/pycam.py:40 | `int` of a digit string is its digit value; a '+' sign or a leading zero leaves the value unchanged and a '-' sign negates it, which with `CanonicalIsNatToString` fixes the value of every accepted string |
| `Resolution.Split` | 01-data-collection/pycam.py:39 | `s.split('x')` always has at least one piece; `SplitPieces`, `JoinSplit` and `SplitJoin` state the rest |
| `Resolution.SplitPieces` | 01-data-collection/pycam.py:39 | `s.split('x')` has one more piece than s has separators, and no piece contains the separator |
| `Resolution.JoinSplit` | 01-data-collection/pycam.py:39 | joining the pieces of the split with the separator gives back the original string |
| `Resolution.SplitJoin` | 01-data-collection/pycam.py:39 | splitting a join of separator-free pieces gives back exactly those pieces |
| `Resolution.ParseResolution` | 01-data-collection/pycam.py:39-40 | a successful parse means the string has exactly one `'x'`; an unpacking error reports the split's piece count, which is never 2; `ParseResolutionOneSeparator`, `ParseResolutionSeparatorCount` and `ParseResolutionAccepted` give the full case analysis |
| `Resolution.FormatResolution` | 01-data-collection/pycam.py:43 | the printed resolution text; `FormatResolutionOneSeparator` and `ParseFormatResolution` state its properties |
| `Resolution.FormatResolutionOneSeparator` | 01-data-collection/pycam.py:43 | the printed text `str(w)+"x"+str(h)` holds exactly one `'x'`, negative components included |
| `Resolution.ParseFormatResolution` | 01-data-collection/pycam.py:39-43 | for every integer pair (w, h), parsing the printed text `str(w)+"x"+str(h)` gives exactly (w, h) |
| `Resolution.ParseResolutionOneSeparator` | 01-data-collection/pycam.py:39-40 | with exactly one `'x'`, parsing succeeds iff both sides are decimal integers; each side's value is the component; an invalid width is reported before an invalid height |
| `Resolution.ParseResolutionSeparatorCount` | 01-data-collection/pycam.py:39 | zero or more than one `'x'` always fails the two-name unpacking, reporting the number of pieces |
| `Resolution.ParseResolutionAccepted` | 01-data-collection/pycam.py:39-40 | every accepted string has exactly one `'x'`, and its two sides parse to the width and height returned |
| `Resolution.DefaultResolutionParses` | 01-data-collection/pycam.py:34-40 | the default `"1280x720"` gives (1280, 720) |
| `Resolution.NonPositiveAccepted` | 01-data-collection/pycam.py:39-40 | no positivity check: `"-640x0"` gives (-640, 0) |
| `Resolution.SignedPaddedParses` | 01-data-collection/pycam.py:39-40 | for all naturals w, h, a '+' before the width and a leading zero before the height are accepted and give exactly (w, h) |
| `Resolution.SignedPaddedExample` | 01-data-collection/pycam.py:39-40 | `"+1280x0720"` gives (1280, 720) |
| `PhotoFiles.FileNameMatchesCanonical` | 01-data-collection/pycam.py:26 | `FileName(n)`, the name `file_prefix + str(n) + ".png"` used by both the scan (line 55) and the save (line 80), equals `file_prefix + d + ".png"` exactly when d is canonical decimal text whose value is n; with `FileNameInjective` and `ScannedNamesCount` this pins the naming down |
| `PhotoFiles.PaddedNameNeverScanned` | 01-data-collection/pycam.py:55 | the scan never matches a zero-padded name: `opencv_frame_00.png` is the name of no photo index |
| `PhotoFiles.FileNameInjective` | 01-data-collection/pycam.py:80 | two photo indices with the same file name are equal |
| `PhotoFiles.ScannedNamesCount` | 01-data-collection/pycam.py:55-57 | the names of indices 0 .. k-1 are k distinct files |
| `PhotoFiles.FirstFreeIndex` | 01-data-collection/pycam.py:52-57 | the scan ends on every finite directory; photo `counter` is missing and every lower-numbered photo exists; those `counter` photos are distinct existing files, so `counter` is at most the directory's size |
| `PhotoFiles.FirstFreeUnique` | 01-data-collection/pycam.py:52-57 | only one index can be the first free one |
| `PhotoFiles.FirstGapExample` | 01-data-collection/pycam.py:52-57 | photos 0, 1, 3 give start index 2, not 4 |
| `PhotoFiles.ContiguousFilesExample` | 01-data-collection/pycam.py:52-57 | an empty directory gives 0; photos 0 .. k-1 and nothing else give k |
| `PhotoFiles.SavedNamesDistinct` | 01-data-collection/pycam.py:80-83 | the names of one session's saves are pairwise distinct, so no save overwrites another save of that session |
| `PhotoFiles.RescanAfterSession` | 01-data-collection/pycam.py:52-57 | after n saves from the first free index c, a new scan of the directory starts at c+n or later |
| `PhotoFiles.LaterPhotoOverwritten` | 01-data-collection/pycam.py:54-57 | the first-gap scan can reuse a name above the gap: with photos 0, 1, 3, the second save is named after photo 3 |
| `PhotoFiles.NoOverwriteWithoutLaterPhotos` | 01-data-collection/pycam.py:54-57 | if no photo exists at or above the first free index, no save of the session names an existing file |
| `CaptureLoop.Action` | 01-data-collection/pycam.py:71-77 | a key code quits exactly when it is congruent to 27 modulo 256 and saves exactly when it is congruent to 32 modulo 256; everything else is ignored |
| `CaptureLoop.Step` | 01-data-collection/pycam.py:63-83 | one iteration makes exactly one frame read, appends at most one name and never removes one, moves the counter by exactly the number of names appended, and writes nothing on the iteration that stops the loop; `EscapeStops`, `SpaceSaves`, `OtherKeyContinues` and `FailedReadStops` give each case |
| `CaptureLoop.Run` | 01-data-collection/pycam.py:60-83 | running the loop only appends to the written names, moves the counter by the number of saves, and makes at most one read per event and at least one read per save |
| `CaptureLoop.CaptureLoop` | 01-data-collection/pycam.py:60-83 | the loop with its `break`s ends in exactly the counter, written names, exit reason and number of reads of the specification `Run` |
| `CaptureLoop.RunKeepsNaming` | 01-data-collection/pycam.py:77-83 | every step keeps the invariant that the counter equals start plus saves and that the written names are those of consecutive indices; each event costs at most one read |
| `CaptureLoop.SessionSavesConsecutive` | 01-data-collection/pycam.py:52-83 | after N saves from start counter c, the files written are c, c+1, ..., c+N-1 in order, pairwise distinct, and the counter is c+N |
| `CaptureLoop.RunSaveCount` | 01-data-collection/pycam.py:77-83 | the number of files written equals the number of SPACE key codes among the frames actually read |
| `CaptureLoop.RunStopsAtFirstEnd` | 01-data-collection/pycam.py:63-75 | a failed read or ESC at event i ends the loop on that iteration: exactly i+1 reads, the matching exit reason, and later events are never looked at |
| `CaptureLoop.RunWithoutEnd` | 01-data-collection/pycam.py:60-83 | with no failed read and no ESC, the loop reads every frame and keeps running |
| `CaptureLoop.StoppedRunIgnoresLaterEvents` | 01-data-collection/pycam.py:64-75 | once stopped, further events add no reads and no saves |
| `CaptureLoop.EscapeStops` | 01-data-collection/pycam.py:71-75 | in any running state, a key with `k % 256 == 27` stops the loop and writes no file and leaves the counter unchanged |
| `CaptureLoop.FailedReadStops` | 01-data-collection/pycam.py:63-66 | in any running state, a failed read stops the loop on that iteration with no save |
| `CaptureLoop.SpaceSaves` | 01-data-collection/pycam.py:77-83 | a key with `k % 256 == 32` writes exactly one file, named after the current counter, then raises the counter by exactly 1 and keeps running |
| `CaptureLoop.OtherKeyContinues` | 01-data-collection/pycam.py:70-83 | any other key code leaves the counter and the written files unchanged, and the loop continues |
| `CaptureLoop.KeyCodeLowByte` | 01-data-collection/pycam.py:70-77 | -1 ("no key") is ignored, and key codes that differ by a multiple of 256 act the same |
| `CaptureLoop.SpaceSpaceEscapeScenario` | 01-data-collection/pycam.py:60-83 | from counter 0, SPACE, SPACE, ESC writes `opencv_frame_0.png` then `opencv_frame_1.png` and stops after three reads |
| `PyCam.PyCam` | 01-data-collection/pycam.py:39-87 | a malformed resolution string ends the script with that error before the camera is used; otherwise the camera is asked for the parsed size, numbering starts at the first free index, the session is `Run` of the events, the directory gains exactly the photos from the start index up to the final counter, and the camera is released exactly when the loop has ended |
| `PyCam.SessionDirectory` | 01-data-collection/pycam.py:77-83 | a session started at index c adds to the directory exactly the photos of indices c up to, but not including, its final counter |
| `PyCam.RerunStartsAfterSession` | 01-data-collection/pycam.py:52-83 | running the script again starts numbering past every photo the previous session wrote |

## Left out

- OpenCV calls are left out: opening the camera (`VideoCapture`, `set`), the window (`namedWindow`, `imshow`, `destroyAllWindows`), `waitKey`'s 1 ms wait and `release`. They are foreign library calls with device and GUI effects. A read and its key poll become one `Event`. The camera size request is the `requested` field of the outcome.
- Frame pixels and PNG encoding are not modelled. `imwrite` is modelled only by the name it writes to. A failed write, which the script does not handle, is not modelled.
- Whether the camera honours the requested width and height is device behaviour and is not modelled.
- `os.path.isfile` is modelled as membership in a finite set of file names. Races with other programs changing the directory are not modelled.
- `argparse` is not modelled. The model starts from the resolution string it returns, with `Resolution.DEFAULT_RESOLUTION` as the default.
- `print` output (lines 43, 56, 65, 74, 82) is informational and not modelled. Only the resolution text of line 43 is kept, as `Resolution.FormatResolution`.
- `Decimal.ParseInt`: accepts only an optional `+`/`-` sign followed by ASCII digits. Python's `int` also allows surrounding whitespace, underscores between digits and non-ASCII decimal digits; the model rejects those. The model also sets no limit on the number of digits, where Python 3.11 and later (and the 2022 security releases of 3.7-3.10) raise ValueError for more than 4300 digits by default.
- `CaptureLoop.CaptureLoop`: the source loop runs until ESC or a failed read. The model processes a finite sequence of events and reports `Running` if they run out first.
- `PyCam.PyCam`: release at lines 86-87 is modelled only as a flag that is set once when the loop has ended.
