# tortoise-tts-fast notebook helpers: line stitching and voice folders

This project models the two stateful cores of `functions.py`, the notebook
helper module of tortoise-tts-fast.

**`text2speech`: the synthesis loop.** The input text is split on newlines.
Each element is then handled in turn:

- it is stripped;
- it is skipped when empty;
- every `[silence]` marker is removed, and a one-second silence is requested
  when a marker was present;
- a look-back fragment from the previous line and a look-ahead fragment from
  the next line may be added;
- the text is synthesised as `generated-<voice>-<i>.wav`, where `i` is the
  original index minus the skip counter `r`.

After the loop, the zip archive and the combined audio list the files
`0 .. i-1`. Module `Stitching` states all of this as functions of the split
text. Synthesis and the file operations of the try block are an oracle
`fault: nat -> Fault`, indexed by position in the split text. It says whether
the try block of that element raises before its file is saved (synthesis or
`torchaudio.save`), after it is saved (the silence export or the backup
copy), or not at all. Module `Synthesis` has the loops as methods, each proved
against those functions. It also tracks the generated files on disk, by
index.

**`load_my_voice`: the voice-sample folders.** The two folders are the local
`tortoise/voices/<voice>` and its backup on the drive. Each is a map from file
name to bytes.

- Under colab, when not reloading, each copy of the reconciliation copies the
  non-empty folder into the empty one.
- When reloading, or when the local folder is empty, the reload branch runs.
  It removes the `*.wav` samples, using `remove_old_files` (the backup's only
  under colab, and only when the local folder was not empty). Under colab it
  then writes the uploaded buffers as `0.wav`, `1.wav`, ... to both folders.

Module `VoiceFiles` states this as functions, with the imperative loops as
methods proved against them. Module `Strings` models the Python `str`
operations the code uses: `strip`, `split`, `join`, `replace(p, "")`,
`rstrip(c)`, and `lower` and `capitalize`.

Three consequences of the code are worth stating outright:

- **Archive range.** The zip and the mp3 take `range(i)`, where `i` is the
  last element's adjusted index (lines 209 and 265). When the last element
  is spoken, its own file is left out of both. No spoken element's file is
  ever left out otherwise (`Stitching.ArchiveCoverage`).
- **A failure after the save.** An element whose try block raises after
  `torchaudio.save` leaves its file on disk and still advances `r`. The next
  element reuses that index, so a later spoken element overwrites the file.
  When no spoken element follows, the file stays on disk at index `i`, outside
  `range(i)` (`Stitching.ArchiveVersusDisk`). Lines `a`, `b[silence]` and an
  empty line, with the silence export of the second failing, show this
  (`Stitching.AbandonedFileLeftOut`).
- **`append_next` on the last element.** The guard `i+r < len(splt)` always
  holds, so `splt[i+r+1]` raises on the last element. That line therefore
  never produces a file (`Stitching.LastLineWithAppendNext`).

## Model

| member | source | states |
|---|---|---|
| Strings.Strip | functions.py:208 | `strip()` result is empty exactly when every character is Python whitespace; otherwise neither end is whitespace |
| Strings.StripSlice | functions.py:208 | `strip()` cuts only whitespace, and only off the two ends: the line is leading whitespace, the result, then trailing whitespace |
| Strings.TrimEndChar | functions.py:236 | `rstrip('.')` is the longest prefix not ending in a dot; everything removed is dots |
| Strings.RemoveAll | functions.py:220-222 | `replace("[silence]", "")` shortens the line exactly when the marker occurs in it, and otherwise leaves it unchanged (the test behind `add_silence`) |
| Strings.RemoveAllPieces | functions.py:220 | `replace(p, "")` splits the line into pieces free of `p` that, joined by `p`, give the line; the result is those pieces run together |
| Strings.Pieces | functions.py:220 | the pieces that `replace(p, "")` keeps, computed left to right, are free of `p`, give the line when joined by `p`, and give the result when run together |
| Strings.PieceEndsAtFirst | functions.py:220 | when `p` cannot overlap itself, a `p`-free piece followed by nothing or by `p` ends where `s.find(p)` points |
| Strings.PiecesUnique | functions.py:220 | when `p` cannot overlap itself, there is only one way to write a string as `p`-free pieces joined by `p` |
| Strings.RemoveAllOfPieces | functions.py:220 | when `p` cannot overlap itself, `replace(p, "")` is any such decomposition's pieces run together |
| Strings.Split | functions.py:204 | `split` gives at least one piece, no piece holds the separator, and joining the pieces restores the text |
| Strings.SplitJoin | functions.py:204 | splitting a join of separator-free pieces gives the pieces back |
| Strings.JoinConcat | functions.py:236-239 | the join of two part lists is their joins with one separator between |
| Strings.CountSplit | functions.py:204 | the number of pieces is one more than the number of separators |
| Strings.Lower | functions.py:236 | `lower()` keeps the length, maps every upper-case ASCII letter to its lower-case letter, and leaves every other character as it is |
| Strings.Capitalize | functions.py:236 | `capitalize()` keeps the letters up to case, first not lower case, the rest not upper case |
| Stitching.FirstWords | functions.py:239 | `' '.join(s.split(" ")[:3])` is a prefix of `s` holding min(spaces, 2) spaces, cut exactly at a space |
| Stitching.LastWords | functions.py:236 | `' '.join(s.split(" ")[-3:])` is a suffix of `s` holding min(spaces, 2) spaces, cut just after a space |
| Stitching.PrevContext | functions.py:230-236 | the look-back fragment ends in ". "; its core equals the last three words without trailing dots, up to case, and is capitalised |
| Stitching.NextContext | functions.py:238-239 | the look-ahead fragment is a space, a prefix of the next line holding min(spaces, 2) spaces and cut at a space, then "..." |
| Stitching.MarkerRemoval | functions.py:220-222 | `[silence]` cannot overlap itself, so the marker-free line is the marker-free pieces of the line, between its markers, run together |
| Stitching.MarkerCanReform | functions.py:217-222 | one `replace` pass can re-form the marker: a line can request silence and still send "[silence]" to synthesis |
| Stitching.OutcomeCases | functions.py:206-260 | an element is skipped exactly when blank; it fails when the look-ahead reads past the end or the try block raises before the save; it is abandoned when the try block raises after the save; otherwise it is spoken with its stitched text and its silence flag |
| Stitching.ClipsNumbered | functions.py:202-260 | the files are numbered 0, 1, 2, ... without gaps, one per spoken element, in line order; each carries its own line's outcome |
| Stitching.SpokenLineHasClip | functions.py:209 | a spoken element at index `k` gets file index `k - r`, the number of earlier spoken elements |
| Stitching.UnspokenLineHasNoClip | functions.py:211-260 | a skipped, failed or abandoned element advances `r` and has no place in the file list |
| Stitching.EmptyLineSkipped | functions.py:211-214 | an all-whitespace element advances `r` and has no file |
| Stitching.ClipContents | functions.py:207-252 | the line behind each file is non-empty after strip and did not raise; silence is set exactly when it held the marker; its text is the marker-free line between the optional context fragments |
| Stitching.LastLineWithAppendNext | functions.py:238 | with `append_next` the last element is skipped when empty and fails otherwise |
| Stitching.ArchiveCoverage | functions.py:262-267 | `range(i)` lists the spoken elements' files in order from 0, and misses exactly one of them: the last element's own, when it was spoken |
| Stitching.ArchiveCompleteWhenLastUnspoken | functions.py:264-266 | when the last element is not spoken, every spoken element's file is archived; a file on disk is left out only when an abandoned element wrote it and nothing spoken followed |
| Stitching.ArchiveCompleteWithAppendNext | functions.py:238-266 | with `append_next` the last element saves no file, every spoken element's file is archived, and only an abandoned file with nothing spoken after it stays outside |
| Stitching.DiskShape | functions.py:209-260 | the files on disk are the spoken elements' files 0, 1, 2, ..., plus at most one more at the next index, written by an abandoned element that nothing spoken has overwritten |
| Stitching.ArchiveVersusDisk | functions.py:209-266 | every index in `range(i)` names a file on disk written by a spoken element; the only file on disk outside that range is at index `i`, written by a spoken last element or by an abandoned one |
| Stitching.AbandonedNotArchived | functions.py:251-266 | spoken, abandoned, skipped: file 1 is on disk and `range(i)` is `range(1)` |
| Stitching.AbandonedFileLeftOut | functions.py:204-266 | the lines `a`, `b[silence]` and an empty line, with the second raising after its save: file 1 is on disk and outside `range(i)` |
| Synthesis.StripMarker | functions.py:217-222 | the marker-free text is `RemoveAll` of the line, and silence is requested exactly when the line contains the marker |
| Synthesis.AddPrevContext | functions.py:230-236 | the look-back fragment is put in front exactly under the three conditions of lines 230-235, otherwise the text is unchanged |
| Synthesis.SynthesiseLine | functions.py:207-260 | one loop iteration gives the outcome the specification function assigns to that element |
| Synthesis.PlanLines | functions.py:201-260 | the line loop produces exactly the numbered files of the spoken elements and the files on disk, and leaves `i` at the archive bound |
| Synthesis.ArchiveMembers | functions.py:264-266 | the zip loop lists indices `0 .. bound-1` in order |
| Synthesis.CombineAudio | functions.py:274-277 | the combined audio is the listed files in order, then one second of silence |
| Synthesis.TextToSpeech | functions.py:201-277 | every archived and combined index names a file a spoken element wrote in this run; the only file on disk outside the list is at index `i`, from a spoken last element or an abandoned one |
| VoiceFiles.WavNameStem | functions.py:77-82 | `glob('*.wav')` matches a name ending in ".wav" exactly when its stem is non-empty and does not start with a dot |
| VoiceFiles.DecimalRoundTrip | functions.py:147 | `int(str(i)) == i` for the upload file names |
| VoiceFiles.UploadName | functions.py:147 | `f'{i}.wav'` is matched by the `*.wav` pattern |
| VoiceFiles.UploadNameInjective | functions.py:146-152 | different upload positions get different names, so uploads never overwrite each other |
| VoiceFiles.WithUploads | functions.py:146-152 | after the upload loop each name `i.wav` holds buffer `i`; every other file is unchanged |
| VoiceFiles.ReconcileCases | functions.py:117-125 | a non-empty local folder seeds an empty backup; a non-empty backup restores an empty local folder; otherwise, or when reloading, nothing changes |
| VoiceFiles.ReloadedContents | functions.py:133-152 | after reloading, uploads sit under their names; every other file survives exactly when the pattern misses it or its removal failed; the backup is cleaned only when the local folder was non-empty |
| VoiceFiles.LoadWithoutReload | functions.py:113-133 | without reload, a voice that already has samples ends with both folders as reconciliation leaves them |
| VoiceFiles.ReloadTwiceLocal | functions.py:133-152 | a second colab reload with the same uploads leaves the local folder as the first left it |
| VoiceFiles.ReloadTwiceBackupSettled | functions.py:133-152 | when the first reload left no backup sample to clean, a second leaves the backup unchanged |
| VoiceFiles.ReloadTwiceBackupUnsettled | functions.py:135-141 | when the first reload skipped cleaning a backup with stale samples, a second reload removes them |
| VoiceFiles.ReloadIdempotent | functions.py:133-152 | the colab reload path is idempotent exactly when the first run did not skip cleaning a backup that held stale samples |
| VoiceFiles.StaleBackupSample | functions.py:135-141 | an empty local folder with backup sample `9.wav`: the first reload keeps it, the second removes it |
| VoiceFiles.RemoveOldFiles | functions.py:77-82 | `remove_old_files` leaves exactly the files the pattern misses or whose removal failed, with contents unchanged |
| VoiceFiles.CopyFiles | functions.py:119-120 | copying every file of one folder into another gives the target overridden by the source |
| VoiceFiles.WriteUploads | functions.py:146-152 | the upload loop writes and backs up each buffer, giving `WithUploads` on both folders |
| VoiceFiles.Reconcile | functions.py:117-125 | the two copy steps, evaluated in order, give the reconciled folders |
| VoiceFiles.LoadMyVoice | functions.py:113-152 | the whole folder handling gives the loaded state of the specification function |

## Left out

- Speech synthesis (`tts.tts_with_preset`), `torchaudio.save`, the pydub silence export and the backup copy of each line are not modelled. They collapse into the oracle `fault(k)`. A generated file is its index and the element that wrote it, not audio.
- `load_voice` (line 194) runs once, before the line loop and outside any try block. The model assumes it succeeds; if it raised, `text2speech` would stop before any line and write no zip or mp3.
- The oracle may say an element raises after the save even when no silence export or backup copy runs for it. The model does not tie `AfterSave` to `add_silence` or to colab.
- The zip file, the mp3 export, `sum` over pydub segments and the backup copies of the artifacts are not modelled. The archive and the combined audio are index lists.
- `print` output is left out, including the `SENTENCE #i` trace.
- Directory creation (lines 95-111 and 176-186) is left out: the model assumes the directories exist.
- The removal of old generated files at the start of `text2speech` (lines 188-192) is left out. `OnDisk` starts empty: the model assumes that removal deleted every earlier generated file of this voice. `remove_old_files` ignores failed removals, so an earlier run's file could survive at an index this run never writes; the disk claims of `Stitching.DiskShape`, `Stitching.ArchiveVersusDisk` and `Synthesis.TextToSpeech` do not cover such a file.
- `check_gpu`, the locale patch, `load_gdrive` and `list_voices` are not modelled. Whether the session is colab is an input.
- The non-colab upload widget (`FileUpload` and its callback, lines 153-168) is left out: it is event wiring with no observable effect at the time of the call.
- `files.upload()` is an input: the sequence of uploaded buffers, in the dictionary's order.
- The name `files` is imported only inside `load_gdrive` (line 35), which makes it local to that function, so the call at line 146 finds no global `files` in this file. The model assumes the name is bound when the upload loop runs; the `NameError` the code as written would raise there is not modelled.
- Strings.Lower: only ASCII letters change case; Python's full Unicode case mapping is not modelled.
- Strings.Capitalize: only ASCII letters change case; Python's title-casing of the first character is not modelled.
- Folders hold only files, so subdirectories are not modelled. An `os.remove` failure is the `stuck` set of file names.
- Reconcile: an exception in the reconciliation try block, such as `shutil.copy` failing part-way, is not modelled; both copies always complete.
- VoiceFiles.WriteUploads: the `open`/`write` of lines 148-149 and the `shutil.copy` of line 152 are outside any try block, so a failure there stops `load_my_voice` part-way through the uploads. The model assumes every write and copy succeeds.
- The glob pattern is only `*.wav` without hidden names; other glob syntax is not modelled.
