/**
  The voice-sample folders of `load_my_voice`: the local folder
  `tortoise/voices/<voice>` and, when the drive is mounted, its backup
  `<drive>/<voice>/voices`. Each folder is a map from file name to contents.
  Reconciliation copies the non-empty folder into the empty one; the reload
  path removes the `*.wav` samples and writes the uploaded buffers as
  `0.wav`, `1.wav`, ... into both folders.
 */
module VoiceFiles {

  type Bytes = seq<bv8>

  /** The files of one directory, by name. */
  type Folder = map<string, Bytes>

  /** The local sample folder and its backup on the drive. */
  datatype Voice = Voice(local: Folder, backup: Folder)

  /** A name the glob pattern `*.wav` matches: it ends in ".wav" and is not hidden (does not start with a dot). */
  predicate IsWavName(name: string)
  {
    |name| >= 4 && name[|name| - 4..] == ".wav" && name[0] != '.'
  }

  /** A name ending in ".wav" is matched exactly when its stem is non-empty and does not start with a dot. */
  lemma WavNameStem(stem: string)
    ensures IsWavName(stem + ".wav") <==> stem != "" && stem[0] != '.'
  {
    var name := stem + ".wav";
    assert name[|name| - 4..] == ".wav";
    if stem != "" {
      assert name[0] == stem[0];
    }
  }

  predicate IsDigits(s: string)
  {
    forall i :: 0 <= i < |s| ==> '0' <= s[i] <= '9'
  }

  function DigitChar(d: nat): char
    requires d < 10
  {
    ('0' as int + d) as char
  }

  /** `str(n)`: the decimal digits of `n`. */
  function Decimal(n: nat): (s: string)
    ensures |s| >= 1 && IsDigits(s)
    decreases n
  {
    if n < 10 then [DigitChar(n)] else Decimal(n / 10) + [DigitChar(n % 10)]
  }

  /** `int(s)` for a string of decimal digits. */
  function DecimalValue(s: string): nat
    requires IsDigits(s)
  {
    if s == "" then 0 else DecimalValue(s[..|s| - 1]) * 10 + (s[|s| - 1] as int - '0' as int)
  }

  lemma {:induction false} DecimalRoundTrip(n: nat)
    ensures DecimalValue(Decimal(n)) == n
    decreases n
  {
    if n >= 10 {
      DecimalRoundTrip(n / 10);
      var s := Decimal(n);
      assert s[..|s| - 1] == Decimal(n / 10);
    }
  }

  /** The name `f'{i}.wav'` the upload loop gives to the `i`-th uploaded buffer. */
  function UploadName(i: nat): (name: string)
    ensures IsWavName(name)
  {
    Decimal(i) + ".wav"
  }

  /** Different upload positions get different file names, so no upload overwrites another. */
  lemma UploadNameInjective(a: nat, b: nat)
    requires UploadName(a) == UploadName(b)
    ensures a == b
  {
    var na, nb := UploadName(a), UploadName(b);
    assert na[..|na| - 4] == Decimal(a);
    assert nb[..|nb| - 4] == Decimal(b);
    DecimalRoundTrip(a);
    DecimalRoundTrip(b);
  }

  lemma UploadNamesDistinct()
    ensures forall a: nat, b: nat :: UploadName(a) == UploadName(b) ==> a == b
  {
    forall a: nat, b: nat | UploadName(a) == UploadName(b)
      ensures a == b
    {
      UploadNameInjective(a, b);
    }
  }

  /** `name` is the file name of one of the first `count` uploads. */
  predicate IsUploadName(name: string, count: nat)
  {
    exists i: nat :: i < count && UploadName(i) == name
  }

  /** A file that `remove_old_files` on the folder's `*.wav` pattern leaves: the pattern does not match it, or `os.remove` failed on it. */
  predicate Survives(name: string, stuck: set<string>)
  {
    !IsWavName(name) || name in stuck
  }

  /** A folder after `remove_old_files` on its `*.wav` pattern, where `stuck` holds the files `os.remove` refuses. */
  function WithoutWavs(folder: Folder, stuck: set<string>): Folder
  {
    map n | n in folder && Survives(n, stuck) :: folder[n]
  }

  /**
    A folder after the uploaded buffers are written in upload order as
    `0.wav`, `1.wav`, ...: each upload name holds its buffer, and every other
    entry is as it was.
   */
  function WithUploads(folder: Folder, uploads: seq<Bytes>): (r: Folder)
    ensures forall i :: 0 <= i < |uploads| ==> UploadName(i) in r && r[UploadName(i)] == uploads[i]
    ensures forall n :: !IsUploadName(n, |uploads|) ==>
              (n in r <==> n in folder) && (n in folder ==> r[n] == folder[n])
    decreases |uploads|
  {
    if uploads == [] then folder
    else
      var m := |uploads| - 1;
      UploadNamesDistinct();
      assert forall n :: !IsUploadName(n, |uploads|) ==> !IsUploadName(n, m) && n != UploadName(m);
      WithUploads(folder, uploads[..m])[UploadName(m) := uploads[m]]
  }

  /** In `load_my_voice`, lines 117-125: the two copies of reconciliation, evaluated one after the other. */
  function Reconciled(v: Voice, reload: bool): Voice
  {
    var v1 := if !reload && v.backup == map[] && v.local != map[] then Voice(v.local, v.backup + v.local) else v;
    if !reload && v1.backup != map[] && v1.local == map[] then Voice(v1.local + v1.backup, v1.backup) else v1
  }

  /**
    In `load_my_voice`, lines 135-152: when the local folder is not empty, its `*.wav` files are
    removed, and under colab those of the backup too; under colab the
    uploads are then written to both folders.
   */
  function Reloaded(v: Voice, colab: bool, uploads: seq<Bytes>, localStuck: set<string>, backupStuck: set<string>): Voice
  {
    var cleaned :=
      if v.local != map[] then
        Voice(WithoutWavs(v.local, localStuck), if colab then WithoutWavs(v.backup, backupStuck) else v.backup)
      else v;
    if colab then Voice(WithUploads(cleaned.local, uploads), WithUploads(cleaned.backup, uploads)) else cleaned
  }

  /** `load_my_voice`, lines 113-152: reconcile under colab, then reload when asked to or when the local folder is (still) empty. */
  function LoadedVoice(v: Voice, reload: bool, colab: bool, uploads: seq<Bytes>,
                       localStuck: set<string>, backupStuck: set<string>): Voice
  {
    var v1 := if colab then Reconciled(v, reload) else v;
    if reload || v1.local == map[] then Reloaded(v1, colab, uploads, localStuck, backupStuck) else v1
  }

  /**
    Reconciliation: a non-empty local folder seeds an empty backup, a
    non-empty backup restores an empty local folder, the two copies never
    both happen, and nothing changes when both or neither folder is empty or
    when reloading.
   */
  lemma ReconcileCases(v: Voice, reload: bool)
    ensures reload ==> Reconciled(v, reload) == v
    ensures !reload && v.backup == map[] && v.local != map[] ==> Reconciled(v, reload) == Voice(v.local, v.local)
    ensures !reload && v.local == map[] && v.backup != map[] ==> Reconciled(v, reload) == Voice(v.backup, v.backup)
    ensures (v.local == map[] <==> v.backup == map[]) ==> Reconciled(v, reload) == v
  {
    if !reload && v.backup == map[] && v.local != map[] {
      assert v.backup + v.local == v.local;
    }
    if !reload && v.local == map[] && v.backup != map[] {
      assert v.local + v.backup == v.backup;
    }
  }

  /**
    The reload path: the uploads land under their names in both folders
    (under colab); every other file survives exactly when it is not a
    `*.wav` sample the path removes, and keeps its contents. The backup is
    cleaned only when the local folder was not empty.
   */
  lemma ReloadedContents(v: Voice, colab: bool, uploads: seq<Bytes>, localStuck: set<string>, backupStuck: set<string>)
    ensures var after := Reloaded(v, colab, uploads, localStuck, backupStuck);
            colab ==> forall i :: 0 <= i < |uploads| ==>
              UploadName(i) in after.local && after.local[UploadName(i)] == uploads[i]
              && UploadName(i) in after.backup && after.backup[UploadName(i)] == uploads[i]
    ensures var after := Reloaded(v, colab, uploads, localStuck, backupStuck);
            forall n :: !(colab && IsUploadName(n, |uploads|)) ==>
              (n in after.local <==> n in v.local && Survives(n, localStuck))
              && (n in after.local ==> after.local[n] == v.local[n])
    ensures var after := Reloaded(v, colab, uploads, localStuck, backupStuck);
            forall n :: !(colab && IsUploadName(n, |uploads|)) ==>
              (n in after.backup <==> n in v.backup && (Survives(n, backupStuck) || !colab || v.local == map[]))
              && (n in after.backup ==> after.backup[n] == v.backup[n])
  {
  }

  /** The loaded state of the folders depends only on the state, not on how it was reached: spelled out per case when not reloading. */
  lemma LoadWithoutReload(v: Voice, colab: bool, uploads: seq<Bytes>, localStuck: set<string>, backupStuck: set<string>)
    requires v.local != map[] || (colab && v.backup != map[])
    ensures var after := LoadedVoice(v, false, colab, uploads, localStuck, backupStuck);
            if !colab then after == v
            else if v.local == map[] then after == Voice(v.backup, v.backup)
            else if v.backup == map[] then after == Voice(v.local, v.local)
            else after == v
  {
    ReconcileCases(v, false);
  }

  /** A second colab reload with the same uploads leaves the local folder as the first one left it. */
  lemma ReloadTwiceLocal(v: Voice, uploads: seq<Bytes>, localStuck: set<string>, backupStuck: set<string>)
    ensures var once := Reloaded(v, true, uploads, localStuck, backupStuck);
            Reloaded(once, true, uploads, localStuck, backupStuck).local == once.local
  {
    var once := Reloaded(v, true, uploads, localStuck, backupStuck);
    ReloadLeavesLocalSurvivors(v, uploads, localStuck, backupStuck);
    ReloadKeepsSettledLocal(once, uploads, localStuck, backupStuck);
  }

  /** After a colab reload, the local folder holds the uploads and otherwise only files that survive removal. */
  lemma ReloadLeavesLocalSurvivors(v: Voice, uploads: seq<Bytes>, localStuck: set<string>, backupStuck: set<string>)
    ensures var once := Reloaded(v, true, uploads, localStuck, backupStuck);
            (forall i :: 0 <= i < |uploads| ==> UploadName(i) in once.local && once.local[UploadName(i)] == uploads[i])
            && forall n :: n in once.local && !IsUploadName(n, |uploads|) ==> Survives(n, localStuck)
  {
    ReloadedContents(v, true, uploads, localStuck, backupStuck);
  }

  /** A reload whose local folder holds only uploads and surviving files leaves that folder as it was. */
  lemma ReloadKeepsSettledLocal(w: Voice, uploads: seq<Bytes>, localStuck: set<string>, backupStuck: set<string>)
    requires forall i :: 0 <= i < |uploads| ==> UploadName(i) in w.local && w.local[UploadName(i)] == uploads[i]
    requires forall n :: n in w.local && !IsUploadName(n, |uploads|) ==> Survives(n, localStuck)
    ensures Reloaded(w, true, uploads, localStuck, backupStuck).local == w.local
  {
    var after := Reloaded(w, true, uploads, localStuck, backupStuck);
    ReloadedContents(w, true, uploads, localStuck, backupStuck);
    forall n | n in w.local || n in after.local
      ensures n in w.local && n in after.local && after.local[n] == w.local[n]
    {
      if IsUploadName(n, |uploads|) {
        var i: nat :| i < |uploads| && UploadName(i) == n;
      }
    }
    assert after.local.Keys == w.local.Keys;
  }

  /** The condition under which the first colab reload leaves no backup sample for a second run to clean. */
  predicate BackupSettles(v: Voice, uploads: seq<Bytes>, backupStuck: set<string>)
  {
    v.local != map[] || uploads == []
    || forall n :: n in v.backup && !IsUploadName(n, |uploads|) ==> Survives(n, backupStuck)
  }

  /** When the first colab reload cleaned the backup, or it had nothing to clean, only uploads and surviving files are left there. */
  lemma ReloadLeavesSurvivors(v: Voice, uploads: seq<Bytes>, localStuck: set<string>, backupStuck: set<string>)
    requires v.local != map[] || forall n :: n in v.backup && !IsUploadName(n, |uploads|) ==> Survives(n, backupStuck)
    ensures var once := Reloaded(v, true, uploads, localStuck, backupStuck);
            forall n :: n in once.backup && !IsUploadName(n, |uploads|) ==> Survives(n, backupStuck)
  {
    ReloadedContents(v, true, uploads, localStuck, backupStuck);
  }

  /** A reload whose backup holds only uploads and surviving files leaves the backup as it was. */
  lemma ReloadKeepsSettledBackup(w: Voice, uploads: seq<Bytes>, localStuck: set<string>, backupStuck: set<string>)
    requires forall i :: 0 <= i < |uploads| ==> UploadName(i) in w.backup && w.backup[UploadName(i)] == uploads[i]
    requires forall n :: n in w.backup && !IsUploadName(n, |uploads|) ==> Survives(n, backupStuck)
    ensures Reloaded(w, true, uploads, localStuck, backupStuck).backup == w.backup
  {
    var after := Reloaded(w, true, uploads, localStuck, backupStuck);
    ReloadedContents(w, true, uploads, localStuck, backupStuck);
    forall n | n in w.backup || n in after.backup
      ensures n in w.backup && n in after.backup && after.backup[n] == w.backup[n]
    {
      if IsUploadName(n, |uploads|) {
        var i: nat :| i < |uploads| && UploadName(i) == n;
      }
    }
    assert after.backup.Keys == w.backup.Keys;
  }

  lemma ReloadTwiceBackupSettled(v: Voice, uploads: seq<Bytes>, localStuck: set<string>, backupStuck: set<string>)
    requires BackupSettles(v, uploads, backupStuck)
    ensures var once := Reloaded(v, true, uploads, localStuck, backupStuck);
            Reloaded(once, true, uploads, localStuck, backupStuck).backup == once.backup
  {
    var once := Reloaded(v, true, uploads, localStuck, backupStuck);
    if v.local == map[] && uploads == [] {
      assert once == v;
    } else {
      ReloadLeavesSurvivors(v, uploads, localStuck, backupStuck);
      ReloadedContents(v, true, uploads, localStuck, backupStuck);
      ReloadKeepsSettledBackup(once, uploads, localStuck, backupStuck);
    }
  }

  lemma ReloadTwiceBackupUnsettled(v: Voice, uploads: seq<Bytes>, localStuck: set<string>, backupStuck: set<string>)
    requires !BackupSettles(v, uploads, backupStuck)
    ensures var once := Reloaded(v, true, uploads, localStuck, backupStuck);
            Reloaded(once, true, uploads, localStuck, backupStuck).backup != once.backup
  {
    var once := Reloaded(v, true, uploads, localStuck, backupStuck);
    var twice := Reloaded(once, true, uploads, localStuck, backupStuck);
    ReloadedContents(v, true, uploads, localStuck, backupStuck);
    ReloadedContents(once, true, uploads, localStuck, backupStuck);
    assert UploadName(0) in once.local;
    var n :| n in v.backup && !IsUploadName(n, |uploads|) && !Survives(n, backupStuck);
    assert n in once.backup && n !in twice.backup;
  }

  /**
    Running the colab reload path twice with the same uploads gives the
    state after the first run exactly when the first run did not skip the
    backup cleaning with backup samples left to clean: a first run on an
    empty local folder keeps stale backup `*.wav` files that the second run
    removes.
   */
  lemma ReloadIdempotent(v: Voice, uploads: seq<Bytes>, localStuck: set<string>, backupStuck: set<string>)
    ensures var once := LoadedVoice(v, true, true, uploads, localStuck, backupStuck);
            LoadedVoice(once, true, true, uploads, localStuck, backupStuck) == once
            <==> BackupSettles(v, uploads, backupStuck)
  {
    var once := LoadedVoice(v, true, true, uploads, localStuck, backupStuck);
    ReconcileCases(v, true);
    ReconcileCases(once, true);
    assert once == Reloaded(v, true, uploads, localStuck, backupStuck);
    ReloadTwiceLocal(v, uploads, localStuck, backupStuck);
    if BackupSettles(v, uploads, backupStuck) {
      ReloadTwiceBackupSettled(v, uploads, localStuck, backupStuck);
    } else {
      ReloadTwiceBackupUnsettled(v, uploads, localStuck, backupStuck);
    }
  }

  /** The smallest case where the second run differs: an empty local folder and one stale backup sample. */
  lemma StaleBackupSample()
    ensures var v := Voice(map[], map["9.wav" := [1]]);
            var once := LoadedVoice(v, true, true, [[2]], {}, {});
            "9.wav" in once.backup
            && "9.wav" !in LoadedVoice(once, true, true, [[2]], {}, {}).backup
  {
    var v := Voice(map[], map["9.wav" := [1]]);
    assert IsWavName("9.wav");
    assert !IsUploadName("9.wav", 1) by {
      assert UploadName(0) == "0.wav";
    }
    ReloadIdempotent(v, [[2]], {}, {});
    var once := LoadedVoice(v, true, true, [[2]], {}, {});
    ReconcileCases(v, true);
    ReloadedContents(v, true, [[2]], {}, {});
    ReconcileCases(once, true);
    ReloadedContents(once, true, [[2]], {}, {});
    assert UploadName(0) in once.local;
  }

  /** `remove_old_files` on a folder's `*.wav` pattern (lines 77-82): removes each matched file; a failed removal leaves it. */
  method RemoveOldFiles(folder: Folder, stuck: set<string>) returns (after: Folder)
    ensures after == WithoutWavs(folder, stuck)
  {
    after := folder;
    var matched := set n | n in folder && IsWavName(n);
    while matched != {}
      invariant matched <= folder.Keys
      invariant forall n :: n in matched ==> IsWavName(n)
      invariant forall n :: n in after <==> n in folder && (Survives(n, stuck) || n in matched)
      invariant forall n :: n in after ==> after[n] == folder[n]
      decreases |matched|
    {
      var f :| f in matched;
      if f !in stuck {
        after := after - {f};
      }
      matched := matched - {f};
    }
    assert after.Keys == WithoutWavs(folder, stuck).Keys;
  }

  /** `for f in os.listdir(src): shutil.copy(f"{src}/{f}", dst)`: every file of `src` lands in `dst`. */
  method CopyFiles(src: Folder, dst: Folder) returns (after: Folder)
    ensures after == dst + src
  {
    after := dst;
    var pending := src.Keys;
    while pending != {}
      invariant pending <= src.Keys
      invariant forall n :: n in src && n !in pending ==> n in after && after[n] == src[n]
      invariant forall n :: n in dst && (n !in src || n in pending) ==> n in after && after[n] == dst[n]
      invariant forall n :: n in after ==> n in dst || (n in src && n !in pending)
      decreases |pending|
    {
      var f :| f in pending;
      after := after[f := src[f]];
      pending := pending - {f};
    }
    assert after.Keys == (dst + src).Keys;
  }

  /** The colab upload loop (lines 146-152): buffer `i` is written to local `i.wav`, then copied to the backup. */
  method WriteUploads(local: Folder, backup: Folder, uploads: seq<Bytes>) returns (local': Folder, backup': Folder)
    ensures local' == WithUploads(local, uploads)
    ensures backup' == WithUploads(backup, uploads)
  {
    local', backup' := local, backup;
    for i := 0 to |uploads|
      invariant local' == WithUploads(local, uploads[..i])
      invariant backup' == WithUploads(backup, uploads[..i])
    {
      assert uploads[..i + 1][..i] == uploads[..i];
      var path := UploadName(i);
      local' := local'[path := uploads[i]];
      backup' := backup'[path := local'[path]];
    }
    assert uploads[..|uploads|] == uploads;
  }

  /** In `load_my_voice`, lines 117-125: copy the non-empty folder into the empty one, unless reloading. */
  method Reconcile(v: Voice, reload: bool) returns (after: Voice)
    ensures after == Reconciled(v, reload)
  {
    var local, backup := v.local, v.backup;
    if !reload && backup == map[] && local != map[] {
      backup := CopyFiles(local, backup);
    }
    if !reload && backup != map[] && local == map[] {
      local := CopyFiles(backup, local);
    }
    after := Voice(local, backup);
  }

  /**
    `load_my_voice` once its directories exist (lines 113-152). Under colab
    the folders are reconciled first; then, when reloading or when the
    local folder is empty, old samples are removed and the uploads written.
   */
  method LoadMyVoice(v: Voice, reload: bool, colab: bool, uploads: seq<Bytes>,
                     localStuck: set<string>, backupStuck: set<string>) returns (after: Voice)
    ensures after == LoadedVoice(v, reload, colab, uploads, localStuck, backupStuck)
  {
    after := v;
    if colab {
      after := Reconcile(after, reload);
    }
    // the reload branch: asked for, or nothing to load after reconciliation
    if reload || after.local == map[] {
      var local, backup := after.local, after.backup;
      if local != map[] {
        local := RemoveOldFiles(local, localStuck);
        if colab {
          backup := RemoveOldFiles(backup, backupStuck);
        }
      }
      if colab {
        local, backup := WriteUploads(local, backup, uploads);
      }
      after := Voice(local, backup);
    }
  }
}
