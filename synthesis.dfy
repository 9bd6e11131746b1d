/**
  The line loop of `text2speech` and the two loops over `range(i)` that build
  the zip archive and the combined audio. Synthesis and the file operations
  of the try block are the oracle `fault`: `fault(k)` says whether the try
  block for element `k` of the split text raises before its file is saved,
  after it is saved, or not at all.
 */
module Synthesis {
  import opened Strings
  import opened Stitching

  /** A piece of the combined audio: a generated line file, or a stretch of silence. */
  datatype Segment = ClipAudio(index: nat) | Silence(ms: nat)

  /** In `text2speech`, lines 217-222: the marker is deleted, and a shorter result means silence is wanted. */
  method StripMarker(t: string) returns (body: string, addSilence: bool)
    ensures body == RemoveAll(t, Marker)
    ensures addSilence <==> Contains(t, Marker)
  {
    addSilence := false;
    var l := |t|;
    body := RemoveAll(t, Marker);
    if l > |body| {
      addSilence := true;
    }
  }

  /** In `text2speech`, lines 230-236: the look-back fragment goes in front when the previous line is non-blank and has no marker. */
  method AddPrevContext(splt: seq<string>, k: nat, opts: Options, t: string) returns (t': string)
    requires k < |splt|
    ensures t' == (if TakesPrev(splt, k, opts) then PrevContext(splt[k - 1]) else "") + t
  {
    t' := t;
    if opts.appendPrev && k > 0 && Strip(splt[k - 1]) != "" {
      var y := splt[k - 1];
      var x := RemoveAll(y, Marker);
      // a marker in the previous line means no look-back fragment
      if |x| == |y| {
        t' := PrevContext(x) + t;
      }
    }
  }

  /**
    One iteration of the line loop of `text2speech` (lines 207-260) for
    element `k = i + r` of the split text. A skipped or failed element saves
    no file; an abandoned one saves its file and then counts as a failure.
   */
  method SynthesiseLine(splt: seq<string>, k: nat, fault: nat -> Fault, opts: Options) returns (o: LineOutcome)
    requires k < |splt|
    ensures o == Outcomes(splt, fault, opts)[k]
  {
    OutcomesAt(splt, fault, opts, k);
    var t := Strip(splt[k]);
    if t == "" {
      return Skipped;
    }
    var addSilence;
    t, addSilence := StripMarker(t);
    t := AddPrevContext(splt, k, opts, t);
    if opts.appendNext && k < |splt| {
      if k + 1 == |splt| {
        // the look-ahead index is one past the end; the except branch counts it
        return Failed;
      } else if Strip(splt[k + 1]) != "" {
        t := t + NextContext(splt[k + 1]);
      }
    }
    assert t == SpokenText(splt, k, opts);
    if fault(k) == BeforeSave {
      return Failed;
    }
    if fault(k) == AfterSave {
      return Abandoned;
    }
    o := Spoken(t, addSilence);
  }

  /**
    The line loop of `text2speech`, lines 202-260. Each element gets the
    index `i = originalIndex - r`. The method returns the files of the
    spoken elements, the files on disk (index to the element that last wrote
    it), and the final value of `i`, the adjusted index of the last element.
   */
  method PlanLines(splt: seq<string>, fault: nat -> Fault, opts: Options)
    returns (clips: seq<Clip>, files: map<nat, nat>, i: nat)
    requires |splt| >= 1
    ensures var outs := Outcomes(splt, fault, opts);
            clips == Clips(outs, |outs|) && files == OnDisk(outs, |outs|) && i == ArchiveBound(outs)
  {
    // r counts the elements whose try block did not complete, or that were blank
    var r := 0;
    ghost var outs := Outcomes(splt, fault, opts);
    i := 0;
    clips := [];
    files := map[];
    var k := 0;
    while k < |splt|
      invariant 0 <= k <= |splt|
      invariant r == Skips(outs, k)
      invariant clips == Clips(outs, k)
      invariant files == OnDisk(outs, k)
      invariant k > 0 ==> i == k - 1 - Skips(outs, k - 1)
    {
      assert r <= k;
      i := k - r;
      var o := SynthesiseLine(splt, i + r, fault, opts);
      Step(outs, k);
      match o {
        case Spoken(t, addSilence) =>
          clips := clips + [Clip(i, i + r, t, addSilence)];
          files := files[i := i + r];
        case Abandoned =>
          files := files[i := i + r];
          r := r + 1;
        case _ =>
          r := r + 1;
      }
      k := k + 1;
    }
  }

  /** The zip loop of `text2speech`, lines 264-266: the names `generated-<voice>-<j>.wav` for `j` in `range(bound)`. */
  method ArchiveMembers(bound: nat) returns (archived: seq<nat>)
    ensures |archived| == bound
    ensures forall j :: 0 <= j < bound ==> archived[j] == j
  {
    archived := [];
    for j := 0 to bound
      invariant |archived| == j
      invariant forall m :: 0 <= m < j ==> archived[m] == m
    {
      archived := archived + [j];
    }
  }

  /** In `text2speech`, lines 274-277: the listed files in order, closed by 1000 ms of silence. */
  method CombineAudio(archived: seq<nat>) returns (combined: seq<Segment>)
    ensures |combined| == |archived| + 1 && combined[|archived|] == Silence(SilenceMs)
    ensures forall j :: 0 <= j < |archived| ==> combined[j] == ClipAudio(archived[j])
  {
    combined := [];
    for j := 0 to |archived|
      invariant |combined| == j
      invariant forall m :: 0 <= m < j ==> combined[m] == ClipAudio(archived[m])
    {
      combined := combined + [ClipAudio(archived[j])];
    }
    combined := combined + [Silence(SilenceMs)];
  }

  /**
    `text2speech`, lines 201-277: the text is cut at newlines, every element
    goes through the line loop, and the final `i` bounds the files listed
    for the zip archive and the combined audio. Every listed index names a
    file a spoken element wrote in this run. The files on disk outside the
    list are at most one, at index `i`: a spoken last element's file, or the
    file of an abandoned element that no later spoken element overwrote.
   */
  method TextToSpeech(text: string, fault: nat -> Fault, opts: Options)
    returns (clips: seq<Clip>, onDisk: map<nat, nat>, archived: seq<nat>, combined: seq<Segment>)
    ensures var outs := Outcomes(Split(text, '\n'), fault, opts);
            clips == Clips(outs, |outs|)
            && onDisk == OnDisk(outs, |outs|)
            && |archived| == ArchiveBound(outs)
            && |archived| == |clips| - (if outs[|outs| - 1].Spoken? then 1 else 0)
            && (forall j :: 0 <= j < |archived| ==> archived[j] in onDisk && onDisk[archived[j]] < |outs| && outs[onDisk[archived[j]]].Spoken?)
            && (forall j: nat :: j in onDisk && j >= |archived| <==>
                  j == |archived| && (outs[|outs| - 1].Spoken? || Stale(outs, |outs|)))
    ensures forall j :: 0 <= j < |archived| ==> archived[j] == j && j < |clips| && clips[j].index == j
    ensures |combined| == |archived| + 1 && combined[|archived|] == Silence(SilenceMs)
    ensures forall j :: 0 <= j < |archived| ==> combined[j] == ClipAudio(archived[j])
  {
    var splt := Split(text, '\n');
    ghost var outs := Outcomes(splt, fault, opts);
    var i;
    clips, onDisk, i := PlanLines(splt, fault, opts);
    ArchiveCoverage(outs);
    ArchiveVersusDisk(outs);
    assert i <= |clips| && forall j :: 0 <= j < i ==> clips[j].index == j;
    archived := ArchiveMembers(i);
    assert forall j :: 0 <= j < |archived| ==> archived[j] == j && j < |clips| && clips[j].index == j;
    combined := CombineAudio(archived);
  }
}
