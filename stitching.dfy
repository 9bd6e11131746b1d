/**
  What `text2speech` does with each line of its input, as pure functions of the
  split text: the `[silence]` marker, the look-back and look-ahead context
  fragments, which lines are skipped or fail, the file index each synthesised
  line gets through the `i -= r` skip counter, and the index range that the
  zip archive and the combined audio cover afterwards. Line numbers in the
  comments are those of `text2speech` in `functions.py`.
 */
module Stitching {
  import opened Strings

  /** The in-text marker asking for one second of trailing silence. */
  const Marker: string := "[silence]"

  /** Duration, in milliseconds, of every silence the helper appends. */
  const SilenceMs: nat := 1000

  /** The two keyword flags `append_prev` and `append_next`. */
  datatype Options = Options(appendPrev: bool, appendNext: bool)

  /**
    Where the try block of one line raises, if at all: before its file is
    saved (synthesis or `torchaudio.save`), or after it (the silence export
    or the backup copy).
   */
  datatype Fault = NoFault | BeforeSave | AfterSave

  /** What happens to one element of the split text. */
  datatype LineOutcome =
    | Skipped                                  // empty after strip(): r += 1, no synthesis call
    | Failed                                   // the try block raises before the save: r += 1, no file
    | Abandoned                                // the file is saved, then the try block raises: r += 1
    | Spoken(text: string, addSilence: bool)   // synthesised with this text

  /**
    One generated file `generated-<voice>-<index>.wav`: its index, the
    position of its line in the split text, the text sent to synthesis, and
    whether one second of silence was appended to it.
   */
  datatype Clip = Clip(index: nat, line: nat, text: string, addSilence: bool)

  /** `' '.join(s.split(" ")[:3])`: `s` cut just before its third space. */
  function FirstWords(s: string): (r: string)
    ensures |r| <= |s| && r == s[..|r|]
    ensures Count(r, ' ') == Min(Count(s, ' '), 2)
    ensures |r| < |s| ==> s[|r|] == ' '
  {
    var parts := Split(s, ' ');
    var n := Min(3, |parts|);
    CountSplit(s, ' ');
    CountJoin(parts[..n], ' ');
    if n < |parts| then
      assert parts == parts[..n] + parts[n..];
      JoinConcat(parts[..n], parts[n..], " ");
      Join(parts[..n], " ")
    else
      assert parts[..n] == parts;
      Join(parts[..n], " ")
  }

  /** `' '.join(s.split(" ")[-3:])`: `s` cut just after its third space from the end. */
  function LastWords(s: string): (r: string)
    ensures |r| <= |s| && r == s[|s| - |r|..]
    ensures Count(r, ' ') == Min(Count(s, ' '), 2)
    ensures |r| < |s| ==> s[|s| - |r| - 1] == ' '
  {
    var parts := Split(s, ' ');
    var n := Min(3, |parts|);
    var cut := |parts| - n;
    CountSplit(s, ' ');
    CountJoin(parts[cut..], ' ');
    if cut > 0 then
      assert parts == parts[..cut] + parts[cut..];
      JoinConcat(parts[..cut], parts[cut..], " ");
      Join(parts[cut..], " ")
    else
      assert parts[cut..] == parts;
      Join(parts[cut..], " ")
  }

  /**
    The look-back fragment of line 236: the last three words of the previous
    line, trailing dots removed, lowered and capitalised, then ". ".
   */
  function PrevContext(prev: string): (r: string)
    ensures |r| >= 2 && r[|r| - 2..] == ". "
    ensures Lower(r[..|r| - 2]) == Lower(TrimEndChar(LastWords(prev), '.'))
    ensures var core := r[..|r| - 2];
            (core == "" || !IsLowerAscii(core[0]))
            && (forall i :: 1 <= i < |core| ==> !IsUpperAscii(core[i]))
            && (core == "" || core[|core| - 1] != '.')
  {
    var words := TrimEndChar(LastWords(prev), '.');
    var core := Capitalize(Lower(words));
    CapitalizedLower(words);
    assert (core + ". ")[..|core|] == core;
    core + ". "
  }

  /** Lowering then capitalising keeps the letters up to case and keeps a last character that is not a dot. */
  lemma CapitalizedLower(s: string)
    ensures Lower(Capitalize(Lower(s))) == Lower(s)
    ensures s != "" && s[|s| - 1] != '.' ==> Capitalize(Lower(s))[|s| - 1] != '.'
  {
    var low := Lower(s);
    assert Lower(low) == low;
    if s != "" && s[|s| - 1] != '.' {
      assert low[|s| - 1] == LowerChar(s[|s| - 1]) != '.';
      if |s| > 1 {
        assert Capitalize(low)[|s| - 1] == Lower(low[1..])[|s| - 2] == LowerChar(low[|s| - 1]);
      }
    }
  }

  /** The look-ahead fragment of line 239: a space, the first three words of the next line, "...". */
  function NextContext(next: string): (r: string)
    ensures 4 <= |r| <= |next| + 4 && r == " " + next[..|r| - 4] + "..."
    ensures Count(r[1..|r| - 3], ' ') == Min(Count(next, ' '), 2)
    ensures |r| - 4 < |next| ==> next[|r| - 4] == ' '
  {
    var words := FirstWords(next);
    var r := " " + words + "...";
    assert r[1..|r| - 3] == words;
    r
  }

  /** The current line's own text: stripped, every marker removed (lines 208, 220). */
  function Body(raw: string): string
  {
    RemoveAll(Strip(raw), Marker)
  }

  /**
    Line 220 for the marker, whose first character `[` does not occur again
    in it: however a line is written as marker-free pieces joined by the
    marker, the marker-free line is those pieces run together.
   */
  lemma MarkerRemoval(s: string, pieces: seq<string>)
    requires |pieces| >= 1 && Join(pieces, Marker) == s
    requires forall i :: 0 <= i < |pieces| ==> !Contains(pieces[i], Marker)
    ensures RemoveAll(s, Marker) == Join(pieces, "")
  {
    assert FirstCharUnique(Marker);
    RemoveAllOfPieces(s, Marker, pieces);
  }

  /**
    `replace` makes one left-to-right pass, so removing the marker can join
    two halves into a new one: that line asks for silence and still sends
    the marker text to synthesis.
   */
  lemma MarkerCanReform(s: string)
    requires s == "[sil" + Marker + "ence]"
    ensures WantsSilence(s) && Body(s) == Marker
  {
    StripUnchanged(s);
    ReformedContainsMarker(s);
    ReformedRemoval(s);
  }

  lemma ReformedContainsMarker(s: string)
    requires s == "[sil" + Marker + "ence]"
    ensures Contains(s, Marker)
  {
    assert s[4..][..|Marker|] == Marker;
    assert s[1..][1..][1..][1..] == s[4..];
    assert Contains(s[1..][1..][1..], Marker);
  }

  lemma ReformedRemoval(s: string)
    requires s == "[sil" + Marker + "ence]"
    ensures RemoveAll(s, Marker) == Marker
  {
    var m := Marker + "ence]";
    var t := "sil" + m;
    assert s[0] == '[' && s[1..] == t by {
      assert s == "[" + t;
    }
    assert RemoveAll(s, Marker) == [s[0]] + RemoveAll(t, Marker) by {
      assert s[..|Marker|][4] != Marker[4];
      RemoveAllKeeps(s, Marker);
    }
    assert RemoveAll(t, Marker) == "silence]" by {
      ReformedTail(m);
    }
    assert ['['] + "silence]" == Marker;
  }

  lemma ReformedTail(m: string)
    requires m == Marker + "ence]"
    ensures RemoveAll("sil" + m, Marker) == "silence]"
  {
    assert RemoveAll(m, Marker) == "ence]" by {
      assert m[|Marker|..] == "ence]";
      RemoveAllDrops(m, Marker);
    }
    RemoveAllCons('l', m, Marker);
    assert "il" + m == ['i'] + (['l'] + m);
    RemoveAllCons('i', ['l'] + m, Marker);
    assert "sil" + m == ['s'] + (['i'] + (['l'] + m));
    RemoveAllCons('s', ['i'] + (['l'] + m), Marker);
  }

  /** Whether the stripped line carries the marker (lines 217-222). */
  predicate WantsSilence(raw: string)
  {
    Contains(Strip(raw), Marker)
  }

  /** The three conditions of lines 230-235 under which the look-back fragment is prepended. */
  predicate TakesPrev(lines: seq<string>, k: nat, opts: Options)
    requires k < |lines|
  {
    opts.appendPrev && k > 0 && Strip(lines[k - 1]) != "" && !Contains(lines[k - 1], Marker)
  }

  /** The condition of line 238 under which the look-ahead fragment is appended, when it does not raise. */
  predicate TakesNext(lines: seq<string>, k: nat, opts: Options)
    requires k < |lines|
  {
    opts.appendNext && k + 1 < |lines| && Strip(lines[k + 1]) != ""
  }

  /** The text sent to synthesis for line `k`. */
  function SpokenText(lines: seq<string>, k: nat, opts: Options): string
    requires k < |lines|
  {
    (if TakesPrev(lines, k, opts) then PrevContext(lines[k - 1]) else "")
    + Body(lines[k])
    + (if TakesNext(lines, k, opts) then NextContext(lines[k + 1]) else "")
  }

  /**
    The outcome of element `k` of the split text. With `append_next` the
    guard `i+r < len(splt)` always holds, so the last element reads
    `splt[len(splt)]`, which raises before anything is saved.
    `fault(k)` says where, if at all, the rest of the try block raises.
   */
  function Outcome(lines: seq<string>, fault: nat -> Fault, opts: Options, k: nat): LineOutcome
    requires k < |lines|
  {
    if Strip(lines[k]) == "" then Skipped
    else if opts.appendNext && k + 1 == |lines| then Failed
    else if fault(k) == BeforeSave then Failed
    else if fault(k) == AfterSave then Abandoned
    else Spoken(SpokenText(lines, k, opts), WantsSilence(lines[k]))
  }

  /**
    The four outcomes of an element: skipped exactly when it is blank,
    failed when the look-ahead reads past the end or the try block raises
    before the save, abandoned when it raises after the save, and spoken,
    with its stitched text and its silence flag, otherwise.
   */
  lemma OutcomeCases(lines: seq<string>, fault: nat -> Fault, opts: Options, k: nat)
    requires k < |lines|
    ensures var o := Outcome(lines, fault, opts, k);
            (o == Skipped <==> Strip(lines[k]) == "")
            && (o == Failed <==> Strip(lines[k]) != "" && ((opts.appendNext && k + 1 == |lines|) || fault(k) == BeforeSave))
            && (o == Abandoned <==> Strip(lines[k]) != "" && !(opts.appendNext && k + 1 == |lines|) && fault(k) == AfterSave)
            && (o.Spoken? <==> Strip(lines[k]) != "" && !(opts.appendNext && k + 1 == |lines|) && fault(k) == NoFault)
            && (o.Spoken? ==> o.text == SpokenText(lines, k, opts) && (o.addSilence <==> WantsSilence(lines[k])))
  {
  }

  /** The values `f(0), ..., f(n-1)`, in order. */
  function Tabulate(f: nat --> LineOutcome, n: nat): (outs: seq<LineOutcome>)
    requires forall i :: 0 <= i < n ==> f.requires(i)
    ensures |outs| == n
  {
    if n == 0 then [] else Tabulate(f, n - 1) + [f(n - 1)]
  }

  lemma {:induction false} TabulateAt(f: nat --> LineOutcome, n: nat, k: nat)
    requires forall i :: 0 <= i < n ==> f.requires(i)
    requires k < n
    ensures Tabulate(f, n)[k] == f(k)
  {
    if k < n - 1 {
      TabulateAt(f, n - 1, k);
    }
  }

  /** The outcome of every element of the split text, in order. */
  function Outcomes(lines: seq<string>, fault: nat -> Fault, opts: Options): (outs: seq<LineOutcome>)
    ensures |outs| == |lines|
  {
    Tabulate((k: nat) requires k < |lines| => Outcome(lines, fault, opts, k), |lines|)
  }

  lemma OutcomesAt(lines: seq<string>, fault: nat -> Fault, opts: Options, k: nat)
    requires k < |lines|
    ensures Outcomes(lines, fault, opts)[k] == Outcome(lines, fault, opts, k)
  {
    TabulateAt((k: nat) requires k < |lines| => Outcome(lines, fault, opts, k), |lines|, k);
  }

  /** The skip counter `r` when element `k` is reached: the earlier elements that were skipped, failed or abandoned. */
  function Skips(outs: seq<LineOutcome>, k: nat): (r: nat)
    requires k <= |outs|
    ensures r <= k
  {
    if k == 0 then 0
    else Skips(outs, k - 1) + (if outs[k - 1].Spoken? then 0 else 1)
  }

  /** The files generated by elements `0 .. k-1`, each numbered `i = k - r` as line 209 does. */
  function Clips(outs: seq<LineOutcome>, k: nat): seq<Clip>
    requires k <= |outs|
  {
    if k == 0 then []
    else
      var earlier := Clips(outs, k - 1);
      match outs[k - 1]
      case Spoken(text, silence) => earlier + [Clip(k - 1 - Skips(outs, k - 1), k - 1, text, silence)]
      case _ => earlier
  }

  /** The value of `i` after the loop: the adjusted index of the last element, the bound of `range(i)`. */
  function ArchiveBound(outs: seq<LineOutcome>): nat
    requires |outs| >= 1
  {
    |outs| - 1 - Skips(outs, |outs| - 1)
  }

  /**
    The files are numbered 0, 1, 2, ... without gaps, one per element that
    was neither skipped nor failed, in line order; each carries the outcome of
    its own line.
   */
  lemma {:induction false} ClipsNumbered(outs: seq<LineOutcome>, k: nat)
    requires k <= |outs|
    ensures |Clips(outs, k)| == k - Skips(outs, k)
    ensures forall j :: 0 <= j < |Clips(outs, k)| ==>
              var c := Clips(outs, k)[j];
              c.index == j && c.line < k && outs[c.line] == Spoken(c.text, c.addSilence)
    ensures forall j1, j2 :: 0 <= j1 < j2 < |Clips(outs, k)| ==> Clips(outs, k)[j1].line < Clips(outs, k)[j2].line
  {
    if k > 0 {
      ClipsNumbered(outs, k - 1);
    }
  }

  /** Clips of a shorter prefix of the text are a prefix of the clips of a longer one. */
  lemma {:induction false} ClipsGrow(outs: seq<LineOutcome>, k: nat, m: nat)
    requires k <= m <= |outs|
    ensures Clips(outs, k) <= Clips(outs, m)
    decreases m - k
  {
    if k < m {
      ClipsGrow(outs, k, m - 1);
    }
  }

  /**
    Every element that is synthesised has its file, at index
    `originalIndex - r`, which is the number of earlier elements that were
    spoken: a failed line's index is taken by the next spoken one.
   */
  lemma SpokenLineHasClip(outs: seq<LineOutcome>, k: nat)
    requires k < |outs| && outs[k].Spoken?
    ensures var idx := k - Skips(outs, k);
            idx == |Clips(outs, k)|
            && idx < |Clips(outs, |outs|)|
            && Clips(outs, |outs|)[idx] == Clip(idx, k, outs[k].text, outs[k].addSilence)
  {
    ClipsNumbered(outs, k);
    ClipsGrow(outs, k + 1, |outs|);
  }

  /** An element that is not spoken advances the skip counter and has no file. */
  lemma UnspokenLineHasNoClip(outs: seq<LineOutcome>, k: nat)
    requires k < |outs| && !outs[k].Spoken?
    ensures Skips(outs, k + 1) == Skips(outs, k) + 1
    ensures forall c :: c in Clips(outs, |outs|) ==> c.line != k
  {
    ClipsNumbered(outs, |outs|);
  }

  /**
    `range(i)` after the loop: every listed index is a spoken element's file
    from this run, and the only spoken element's file left out is the last
    element's own, when that element was synthesised.
   */
  lemma {:induction false} ArchiveCoverage(outs: seq<LineOutcome>)
    requires |outs| >= 1
    ensures var all := Clips(outs, |outs|);
            ArchiveBound(outs) == |all| - (if outs[|outs| - 1].Spoken? then 1 else 0)
            && (forall j :: 0 <= j < ArchiveBound(outs) ==> all[j].index == j)
            && (outs[|outs| - 1].Spoken? ==> all[ArchiveBound(outs)].line == |outs| - 1)
  {
    ClipsNumbered(outs, |outs| - 1);
    ClipsNumbered(outs, |outs|);
  }

  /** A line that is empty after strip() produces no file and advances the skip counter. */
  lemma EmptyLineSkipped(lines: seq<string>, fault: nat -> Fault, opts: Options, k: nat)
    requires k < |lines|
    requires forall i :: 0 <= i < |lines[k]| ==> IsSpace(lines[k][i])
    ensures var outs := Outcomes(lines, fault, opts);
            Skips(outs, k + 1) == Skips(outs, k) + 1
            && forall c :: c in Clips(outs, |outs|) ==> c.line != k
  {
    OutcomesAt(lines, fault, opts, k);
    UnspokenLineHasNoClip(Outcomes(lines, fault, opts), k);
  }

  /**
    What each generated file holds: its line is non-empty after strip(), did
    not raise, the silence flag is set exactly when that line holds the
    marker, and the text sent to synthesis is the line's own text with every
    marker removed, possibly between the two context fragments.
   */
  lemma ClipContents(lines: seq<string>, fault: nat -> Fault, opts: Options, j: nat)
    requires j < |Clips(Outcomes(lines, fault, opts), |lines|)|
    ensures var c := Clips(Outcomes(lines, fault, opts), |lines|)[j];
            c.line < |lines|
            && Strip(lines[c.line]) != ""
            && fault(c.line) == NoFault
            && !(opts.appendNext && c.line == |lines| - 1)
            && (c.addSilence <==> Contains(Strip(lines[c.line]), Marker))
            && (c.addSilence <==> |Body(lines[c.line])| < |Strip(lines[c.line])|)
            && c.text == (if TakesPrev(lines, c.line, opts) then PrevContext(lines[c.line - 1]) else "")
                         + Body(lines[c.line])
                         + (if TakesNext(lines, c.line, opts) then NextContext(lines[c.line + 1]) else "")
  {
    var outs := Outcomes(lines, fault, opts);
    ClipsNumbered(outs, |lines|);
    OutcomesAt(lines, fault, opts, Clips(outs, |lines|)[j].line);
  }

  /** With `append_next` the last element is skipped when empty and fails otherwise: line 238 reads past the end. */
  lemma LastLineWithAppendNext(lines: seq<string>, fault: nat -> Fault, opts: Options)
    requires |lines| >= 1 && opts.appendNext
    ensures Outcome(lines, fault, opts, |lines| - 1) == (if Strip(lines[|lines| - 1]) == "" then Skipped else Failed)
  {
  }

  /**
    When the last element is not spoken, the archive covers the file of every
    spoken element. A file on disk is left out only when an abandoned element
    wrote it and no spoken element came after.
   */
  lemma ArchiveCompleteWhenLastUnspoken(outs: seq<LineOutcome>)
    requires |outs| >= 1 && !outs[|outs| - 1].Spoken?
    ensures (forall c :: c in Clips(outs, |outs|) ==> c.line < |outs| - 1)
            && ArchiveBound(outs) == |Clips(outs, |outs|)|
    ensures var d, b := OnDisk(outs, |outs|), ArchiveBound(outs);
            forall j: nat :: j in d && j >= b <==> j == b && Stale(outs, |outs|)
  {
    ClipsNumbered(outs, |outs|);
    ArchiveCoverage(outs);
    ArchiveVersusDisk(outs);
  }

  /**
    Hence with `append_next` the last element never saves a file, and the
    archive covers every spoken element's file; only an abandoned file with
    no spoken element after it stays outside.
   */
  lemma ArchiveCompleteWithAppendNext(lines: seq<string>, fault: nat -> Fault, opts: Options)
    requires |lines| >= 1 && opts.appendNext
    ensures var outs := Outcomes(lines, fault, opts);
            (forall c :: c in Clips(outs, |outs|) ==> c.line < |lines| - 1)
            && ArchiveBound(outs) == |Clips(outs, |outs|)|
    ensures var outs := Outcomes(lines, fault, opts);
            var d, b := OnDisk(outs, |outs|), ArchiveBound(outs);
            forall j: nat :: j in d && j >= b <==> j == b && Stale(outs, |outs|)
  {
    LastLineWithAppendNext(lines, fault, opts);
    OutcomesAt(lines, fault, opts, |lines| - 1);
    ArchiveCompleteWhenLastUnspoken(Outcomes(lines, fault, opts));
  }

  /**
    The generated files on disk after elements `0 .. k-1`, by index: the
    element that last wrote each one. Spoken and abandoned elements both
    save their file, and a later element with the same index overwrites it.
   */
  function OnDisk(outs: seq<LineOutcome>, k: nat): map<nat, nat>
    requires k <= |outs|
  {
    if k == 0 then map[]
    else
      var earlier := OnDisk(outs, k - 1);
      if outs[k - 1].Spoken? || outs[k - 1] == Abandoned then earlier[k - 1 - Skips(outs, k - 1) := k - 1]
      else earlier
  }

  /** How element `k` extends the skip count, the file list and the files on disk. */
  lemma Step(outs: seq<LineOutcome>, k: nat)
    requires k < |outs|
    ensures Skips(outs, k + 1) == Skips(outs, k) + (if outs[k].Spoken? then 0 else 1)
    ensures Clips(outs, k + 1)
            == if outs[k].Spoken? then Clips(outs, k) + [Clip(k - Skips(outs, k), k, outs[k].text, outs[k].addSilence)]
               else Clips(outs, k)
    ensures OnDisk(outs, k + 1)
            == if outs[k].Spoken? || outs[k] == Abandoned then OnDisk(outs, k)[k - Skips(outs, k) := k]
               else OnDisk(outs, k)
  {
  }

  /** Some element among `0 .. k-1` saved its file and then failed, and no element after it was spoken. */
  predicate Stale(outs: seq<LineOutcome>, k: nat)
    requires k <= |outs|
  {
    k > 0 && !outs[k - 1].Spoken? && (outs[k - 1] == Abandoned || Stale(outs, k - 1))
  }

  /**
    The files on disk are those of the spoken elements, numbered 0, 1, 2,
    ..., plus one more, at the next index, when an abandoned element's file
    has not been overwritten yet.
   */
  ghost predicate DiskFits(outs: seq<LineOutcome>, k: nat)
    requires k <= |outs|
  {
    var d, c := OnDisk(outs, k), Clips(outs, k);
    && (forall j: nat :: j in d <==> j < |c| || (j == |c| && Stale(outs, k)))
    && (forall j :: j in d ==> d[j] < k)
    && (forall j :: 0 <= j < |c| ==> d[j] == c[j].line)
    && (Stale(outs, k) ==> d[|c|] < k && outs[d[|c|]] == Abandoned)
  }

  lemma {:induction false} DiskShape(outs: seq<LineOutcome>, k: nat)
    requires k <= |outs|
    ensures DiskFits(outs, k)
  {
    if k > 0 {
      DiskShape(outs, k - 1);
      ClipsNumbered(outs, k - 1);
      Step(outs, k - 1);
      if outs[k - 1].Spoken? {
        DiskAfterSpoken(outs, k - 1);
      } else if outs[k - 1] == Abandoned {
        DiskAfterAbandoned(outs, k - 1);
      } else {
        DiskAfterNoFile(outs, k - 1);
      }
    }
  }

  /** A spoken element writes the next file and overwrites any abandoned one there. */
  lemma DiskAfterSpoken(outs: seq<LineOutcome>, k: nat)
    requires k < |outs| && outs[k].Spoken? && DiskFits(outs, k)
    requires |Clips(outs, k)| == k - Skips(outs, k)
    ensures DiskFits(outs, k + 1)
  {
    Step(outs, k);
    var earlier, before := OnDisk(outs, k), Clips(outs, k);
    assert !Stale(outs, k + 1);
    assert forall j: nat :: j in OnDisk(outs, k + 1) <==> j in earlier || j == |before|;
  }

  /** An abandoned element writes the next file without taking a place in the list. */
  lemma DiskAfterAbandoned(outs: seq<LineOutcome>, k: nat)
    requires k < |outs| && outs[k] == Abandoned && DiskFits(outs, k)
    requires |Clips(outs, k)| == k - Skips(outs, k)
    ensures DiskFits(outs, k + 1)
  {
    Step(outs, k);
    var earlier, before := OnDisk(outs, k), Clips(outs, k);
    assert Stale(outs, k + 1);
    assert forall j: nat :: j in OnDisk(outs, k + 1) <==> j in earlier || j == |before|;
  }

  /** A skipped or failed element leaves the disk as it was. */
  lemma DiskAfterNoFile(outs: seq<LineOutcome>, k: nat)
    requires k < |outs| && (outs[k] == Skipped || outs[k] == Failed) && DiskFits(outs, k)
    ensures DiskFits(outs, k + 1)
  {
    Step(outs, k);
    assert Stale(outs, k + 1) == Stale(outs, k);
  }

  /**
    After the loop, every index in `range(i)` names a file on disk that a
    spoken element wrote, and the only file on disk outside that range sits
    at index `i`: the last element's own file when it was spoken, or the file
    of an abandoned element that no later spoken element overwrote.
   */
  lemma ArchiveVersusDisk(outs: seq<LineOutcome>)
    requires |outs| >= 1
    ensures var d, b := OnDisk(outs, |outs|), ArchiveBound(outs);
            (forall j :: 0 <= j < b ==> j in d && d[j] < |outs| && outs[d[j]].Spoken?)
            && (forall j: nat :: j in d && j >= b <==> j == b && (outs[|outs| - 1].Spoken? || Stale(outs, |outs|)))
  {
    DiskShape(outs, |outs|);
    ArchiveCoverage(outs);
    ClipsNumbered(outs, |outs|);
  }

  /**
    A spoken element, then one that saved its file and failed, then a
    skipped one: file 1 stays on disk and `range(i)` stops before it.
   */
  lemma AbandonedNotArchived(outs: seq<LineOutcome>)
    requires |outs| == 3 && outs[0].Spoken? && outs[1] == Abandoned && outs[2] == Skipped
    ensures 1 in OnDisk(outs, |outs|) && ArchiveBound(outs) == 1
  {
    ArchiveVersusDisk(outs);
  }

  /**
    Three lines where the second saves its file and then raises in the
    silence export, and the third is empty: file 1 stays on disk and
    `range(i)` stops before it.
   */
  lemma AbandonedFileLeftOut(lines: seq<string>, fault: nat -> Fault, opts: Options)
    requires lines == ["a", "b" + Marker, ""]
    requires fault(0) == NoFault && fault(1) == AfterSave && !opts.appendNext
    ensures var outs := Outcomes(lines, fault, opts);
            1 in OnDisk(outs, |outs|) && ArchiveBound(outs) == 1
  {
    assert Strip(lines[0]) != "" by {
      assert !IsSpace(lines[0][0]);
    }
    assert Strip(lines[1]) != "" by {
      assert !IsSpace(lines[1][0]);
    }
    AbandonedSecondLine(lines, fault, opts);
  }

  lemma AbandonedSecondLine(lines: seq<string>, fault: nat -> Fault, opts: Options)
    requires |lines| == 3 && Strip(lines[0]) != "" && Strip(lines[1]) != "" && Strip(lines[2]) == ""
    requires fault(0) == NoFault && fault(1) == AfterSave && !opts.appendNext
    ensures var outs := Outcomes(lines, fault, opts);
            1 in OnDisk(outs, |outs|) && ArchiveBound(outs) == 1
  {
    var outs := Outcomes(lines, fault, opts);
    assert outs[0].Spoken? by {
      OutcomesAt(lines, fault, opts, 0);
      OutcomeCases(lines, fault, opts, 0);
    }
    assert outs[1] == Abandoned by {
      OutcomesAt(lines, fault, opts, 1);
      OutcomeCases(lines, fault, opts, 1);
    }
    assert outs[2] == Skipped by {
      OutcomesAt(lines, fault, opts, 2);
      OutcomeCases(lines, fault, opts, 2);
    }
    AbandonedNotArchived(outs);
  }
}
