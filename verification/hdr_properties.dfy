/**
 * Properties of the `HdrCreationManager` loading bookkeeping: the state
 * invariant is kept by every operation, the input mode and the error flag
 * behave as a small state machine, loaders are started in order and within
 * the thread limit, and per-file entries stay index-aligned.
 */
module HdrLoadingProperties {
  import opened Wrappers
  import opened HdrCreationManager

  /** The entries all per-file lists hold for file `i`. */
  datatype FileRow = FileRow(file: string, expotime: real, tempFile: string, started: bool)

  function Row(m: Manager, i: nat): (row: FileRow)
    requires Aligned(m) && i < |m.fileList|
  {
    FileRow(m.fileList[i], m.expotimes[i], m.filesToRemove[i], m.startedProcessing[i])
  }

  /** How many files have been started; they are the first ones. */
  function StartedCount(s: seq<bool>): (p: nat)
    requires StartedPrefix(s)
    ensures p <= |s|
    ensures forall j :: 0 <= j < |s| ==> s[j] == (j < p)
  {
    match FirstNotStarted(s, |s|)
    case None => |s|
    case Some(f) => f
  }

  /** The started count is the length of the leading run of started files. */
  lemma StartedCountIs(s: seq<bool>, q: nat)
    requires q <= |s| && forall j :: 0 <= j < |s| ==> s[j] == (j < q)
    ensures StartedPrefix(s) && StartedCount(s) == q
  {
    var p := StartedCount(s);
    var first := if p < q then p else q;
    assert first < |s| ==> s[first] == (first < p) && s[first] == (first < q);
  }

  /** Every file has been started. */
  predicate AllStarted(m: Manager)
    requires |m.startedProcessing| == |m.fileList|
  {
    forall j :: 0 <= j < |m.fileList| ==> m.startedProcessing[j]
  }

  // ---------------------------------------------------------------------------
  // Operations, and the invariant they keep
  // ---------------------------------------------------------------------------

  /** The calls the manager receives while it loads its inputs. */
  datatype Op =
    | SetFiles(files: seq<string>)
    | SetFilesAsWritten(files: seq<string>)
    | LoadInputs(numThreads: int)
    | LdrLoaded(image: Size, index: nat, expotime: real, newfname: string, numThreads: int)
    | MdrLoaded(frame: MdrFrame, index: nat, expotime: real, newfname: string, numThreads: int)
    | LoadFailure(message: string)
    | RemoveFile(index: nat)

  /** The operation names an existing file where it names one at all. */
  predicate Enabled(m: Manager, op: Op)
  {
    match op
    case LdrLoaded(_, index, _, _, _) => index < |m.fileList|
    case MdrLoaded(_, index, _, _, _) => index < |m.fileList|
    case RemoveFile(index) => index < |m.fileList|
    case _ => true
  }

  function Apply(m: Manager, op: Op): (s: Step)
    requires Wf(m) && Enabled(m, op)
  {
    match op
    case SetFiles(files) => Step(SetFileList(m, files), [])
    case SetFilesAsWritten(files) => Step(SetFileListAsWritten(m, files), [])
    case LoadInputs(n) => LoadInputFiles(m, n)
    case LdrLoaded(image, index, expotime, newfname, n) => LdrReady(m, image, index, expotime, newfname, n)
    case MdrLoaded(frame, index, expotime, newfname, n) => MdrReady(m, frame, index, expotime, newfname, n)
    case LoadFailure(message) => LoadFailed(m, message)
    case RemoveFile(index) => Remove(m, index)
  }

  lemma SetFileListPreservesWf(m: Manager, l: seq<string>)
    requires Wf(m)
    ensures Wf(SetFileList(m, l))
  {
    var r := SetFileList(m, l);
    forall i, j | 0 <= i < j < |r.startedProcessing| && r.startedProcessing[j]
      ensures r.startedProcessing[i]
    {
      assert j < |m.startedProcessing|;
    }
  }

  lemma SetFileListAsWrittenPreservesWf(m: Manager, l: seq<string>)
    requires Wf(m)
    ensures Wf(SetFileListAsWritten(m, l))
  {
    var r := SetFileListAsWritten(m, l);
    forall i, j | 0 <= i < j < |r.startedProcessing| && r.startedProcessing[j]
      ensures r.startedProcessing[i]
    {
      assert j < |m.startedProcessing|;
    }
  }

  lemma StartFilesFromCount(m: Manager, numThreads: int)
    requires Wf(m)
    ensures var p := StartedCount(m.startedProcessing);
      var r := LoadInputFiles(m, numThreads);
      var k := r.m.runningThreads - m.runningThreads;
      && 0 <= k && p + k <= |m.fileList|
      && (forall j :: 0 <= j < |m.fileList| ==> r.m.startedProcessing[j] == (j < p + k))
      && (p < |m.fileList| ==> r.events == seq(k, j requires 0 <= j < k => Started(p + j, m.fileList[p + j])))
      && (p == |m.fileList| ==> k == 0)
  {
    var p := StartedCount(m.startedProcessing);
    var r := LoadInputFiles(m, numThreads);
    var f := FirstNotStarted(m.startedProcessing, |m.fileList|);
    if p < |m.fileList| {
      assert !m.startedProcessing[p];
      assert f == Some(p);
      var launch := StartFiles(m.startedProcessing, m.fileList, p, m.runningThreads, numThreads);
      assert r.events == launch.events;
    } else {
      assert f.None?;
    }
  }

  lemma LoadInputFilesPreservesWf(m: Manager, numThreads: int)
    requires Wf(m)
    ensures Wf(LoadInputFiles(m, numThreads).m)
  {
    StartFilesFromCount(m, numThreads);
  }

  lemma LdrReadyPreservesWf(m: Manager, image: Size, index: nat, expotime: real, newfname: string, numThreads: int)
    requires Wf(m) && index < |m.fileList|
    ensures Wf(LdrReady(m, image, index, expotime, newfname, numThreads).m)
  {
    if !m.loadingError && m.inputType != MdrInput && LdrsHaveSameSize(m, image.width, image.height) {
      var m1 := m.(inputType := LdrInput);
      var m2 := m1.(ldrImages := m1.ldrImages[index := Some(image)],
                    agMasks := if m.fromCommandLine then m1.agMasks else m1.agMasks[index := Some(image)]);
      var s3 := NewResult(m2, index, expotime, newfname);
      assert Wf(s3.m);
      LoadInputFilesPreservesWf(s3.m, numThreads);
    }
  }

  lemma MdrReadyPreservesWf(m: Manager, frame: MdrFrame, index: nat, expotime: real, newfname: string, numThreads: int)
    requires Wf(m) && index < |m.fileList|
    ensures Wf(MdrReady(m, frame, index, expotime, newfname, numThreads).m)
  {
    if !m.loadingError && m.inputType != LdrInput && MdrsHaveSameSize(m, frame.r.width, frame.r.height) {
      var m1 := m.(inputType := MdrInput);
      var m2 := m1.(mdrImages := if m.fromCommandLine then m1.mdrImages else m1.mdrImages[index := Some(frame.r)],
                    agMasks := if m.fromCommandLine then m1.agMasks else m1.agMasks[index := Some(frame.r)],
                    mdrWidth := frame.r.width,
                    mdrHeight := frame.r.height,
                    mdrR := m1.mdrR[index := Some(frame.r)],
                    mdrG := m1.mdrG[index := Some(frame.g)],
                    mdrB := m1.mdrB[index := Some(frame.b)]);
      var s3 := NewResult(m2, index, expotime, newfname);
      assert Wf(s3.m);
      LoadInputFilesPreservesWf(s3.m, numThreads);
    }
  }

  lemma RemovePreservesWf(m: Manager, index: nat)
    requires Wf(m) && index < |m.fileList|
    ensures Wf(Remove(m, index).m)
  {
    var r := Remove(m, index).m;
    forall i, j | 0 <= i < j < |r.startedProcessing| && r.startedProcessing[j]
      ensures r.startedProcessing[i]
    {
      assert r.startedProcessing[j] == m.startedProcessing[if j < index then j else j + 1];
      assert r.startedProcessing[i] == m.startedProcessing[if i < index then i else i + 1];
    }
  }

  /** Every operation keeps the state invariant. */
  lemma ApplyPreservesWf(m: Manager, op: Op)
    requires Wf(m) && Enabled(m, op)
    ensures Wf(Apply(m, op).m)
  {
    match op
    case SetFiles(files) => SetFileListPreservesWf(m, files);
    case SetFilesAsWritten(files) => SetFileListAsWrittenPreservesWf(m, files);
    case LoadInputs(n) => LoadInputFilesPreservesWf(m, n);
    case LdrLoaded(image, index, expotime, newfname, n) => LdrReadyPreservesWf(m, image, index, expotime, newfname, n);
    case MdrLoaded(frame, index, expotime, newfname, n) => MdrReadyPreservesWf(m, frame, index, expotime, newfname, n);
    case LoadFailure(message) =>
    case RemoveFile(index) => RemovePreservesWf(m, index);
  }

  /** The state after a sequence of calls; a call naming a missing file is skipped. */
  function Run(m: Manager, ops: seq<Op>): (r: Manager)
    requires Wf(m)
    ensures Wf(r)
    decreases |ops|
  {
    if |ops| == 0 then m
    else if Enabled(m, ops[0]) then
      ApplyPreservesWf(m, ops[0]);
      Run(Apply(m, ops[0]).m, ops[1..])
    else Run(m, ops[1..])
  }

  /** Every state the manager reaches from construction satisfies the invariant. */
  lemma ReachableStatesAreWf(fromCommandLine: bool, ops: seq<Op>)
    ensures Wf(Run(Init(fromCommandLine), ops))
  {
  }

  // ---------------------------------------------------------------------------
  // setFileList
  // ---------------------------------------------------------------------------

  /**
   * After `setFileList(l)` the old files keep their rows, each new file has
   * the row (name, -1, "", not started), and every payload list has an empty
   * slot per new file.
   */
  lemma SetFileListRows(m: Manager, l: seq<string>)
    requires Wf(m)
    ensures var r := SetFileList(m, l);
      && Aligned(r) && |r.fileList| == |m.fileList| + |l|
      && (forall i :: 0 <= i < |m.fileList| ==> Row(r, i) == Row(m, i))
      && (forall i :: 0 <= i < |l| ==> Row(r, |m.fileList| + i) == FileRow(l[i], -1.0, "", false))
      && r.ldrImages == m.ldrImages + Repeat(None, |l|)
      && r.mdrR == m.mdrR + Repeat(None, |l|) && r.mdrG == m.mdrG + Repeat(None, |l|)
      && r.mdrB == m.mdrB + Repeat(None, |l|) && r.mdrImages == m.mdrImages + Repeat(None, |l|)
      && r.agMasks == m.agMasks + Repeat(None, |l|)
  {
  }

  /** On an empty list the code as written and the corrected reading coincide. */
  lemma SetFileListAsWrittenOnEmptyList(m: Manager, l: seq<string>)
    requires Aligned(m) && |m.fileList| == 0
    ensures SetFileListAsWritten(m, l) == SetFileList(m, l)
  {
  }

  /**
   * Read with `m_shift` = 0, `setFileList` agrees with the corrected reading
   * exactly when the list was empty before the call.
   */
  lemma SetFileListAsWrittenAgreesIffEmpty(m: Manager, l: seq<string>)
    requires Aligned(m)
    ensures SetFileListAsWritten(m, l) == SetFileList(m, l) <==> |m.fileList| == 0
  {
    if |m.fileList| == 0 {
      SetFileListAsWrittenOnEmptyList(m, l);
    } else {
      assert SetFileListAsWritten(m, l).processedFiles != SetFileList(m, l).processedFiles;
    }
  }

  /**
   * Read with `m_shift` = 0, adding files to a non-empty list leaves the last
   * new file with exposure 0.0 instead of -1 and gives the first file -1
   * whatever it held, while the corrected reading keeps the first file's
   * exposure and gives the last new file -1.
   */
  lemma SetFileListAsWrittenMisplacesDefaults(m: Manager, l: seq<string>)
    requires Aligned(m) && |m.fileList| > 0 && |l| > 0
    ensures var n := |m.fileList| + |l|;
      && SetFileListAsWritten(m, l).expotimes[n - 1] == 0.0
      && SetFileListAsWritten(m, l).expotimes[0] == -1.0
      && SetFileList(m, l).expotimes[n - 1] == -1.0
      && SetFileList(m, l).expotimes[0] == m.expotimes[0]
  {
  }

  /**
   * As written, `setFileList` on a list that already holds a loaded file
   * (exposure 2.0) overwrites that file's exposure with -1, leaves the new
   * file at 0.0 instead of -1, and forgets that one file was processed.
   */
  lemma SetFileListAsWrittenOverwritesOldExposure()
    ensures var m0 := NewResult(SetFileList(Init(false), ["a.tif"]), 0, 2.0, "a.tif").m;
      && m0.expotimes == [2.0] && m0.processedFiles == 1
      && SetFileListAsWritten(m0, ["b.tif"]).expotimes == [-1.0, 0.0]
      && SetFileListAsWritten(m0, ["b.tif"]).processedFiles == 0
      && SetFileList(m0, ["b.tif"]).expotimes == [2.0, -1.0]
      && SetFileList(m0, ["b.tif"]).processedFiles == 1
  {
    var m0 := NewResult(SetFileList(Init(false), ["a.tif"]), 0, 2.0, "a.tif").m;
    assert m0.expotimes == [2.0];
    assert SetFileListAsWritten(m0, ["b.tif"]).expotimes == [-1.0, 0.0];
    assert SetFileList(m0, ["b.tif"]).expotimes == [2.0, -1.0];
  }

  // ---------------------------------------------------------------------------
  // loadInputFiles
  // ---------------------------------------------------------------------------

  /**
   * Loaders are started for consecutive files in ascending order, beginning
   * with the first unstarted one; every file started was unstarted before, and
   * the files started afterwards are still a prefix of the list.
   */
  lemma LoadStartsFirstUnstartedInOrder(m: Manager, numThreads: int)
    requires Wf(m) && !AllStarted(m)
    ensures var p := StartedCount(m.startedProcessing);
      var r := LoadInputFiles(m, numThreads);
      && p < |m.fileList| && !m.startedProcessing[p]
      && (forall j :: 0 <= j < p ==> m.startedProcessing[j])
      && p + |r.events| <= |m.fileList|
      && (forall j :: 0 <= j < |r.events| ==> r.events[j] == Started(p + j, m.fileList[p + j]) && !m.startedProcessing[p + j])
      && (forall j :: 0 <= j < |m.fileList| ==> r.m.startedProcessing[j] == (m.startedProcessing[j] || p <= j < p + |r.events|))
  {
    StartFilesFromCount(m, numThreads);
  }

  /**
   * Starting loaders never lifts `runningThreads` above the thread limit (or
   * above its old value when it already was), and the loop stops only when the
   * limit is reached or every file has been started.
   */
  lemma LoadRespectsThreadLimit(m: Manager, numThreads: int)
    requires Wf(m)
    ensures var r := LoadInputFiles(m, numThreads).m;
      && m.runningThreads <= r.runningThreads
      && (r.runningThreads <= numThreads || r.runningThreads == m.runningThreads)
      && (r.runningThreads >= numThreads || AllStarted(r))
      && r.runningThreads - m.runningThreads == StartedCount(r.startedProcessing) - StartedCount(m.startedProcessing)
  {
    StartFilesFromCount(m, numThreads);
    var r := LoadInputFiles(m, numThreads).m;
    StartedCountIs(r.startedProcessing, StartedCount(m.startedProcessing) + r.runningThreads - m.runningThreads);
  }

  /**
   * Once every file has been started `loadInputFiles` starts nothing and
   * changes nothing; it reports completion exactly when every file has been
   * processed, running `checkEVvalues` first when no file lacks EXIF data.
   */
  lemma LoadWhenAllStarted(m: Manager, numThreads: int)
    requires Aligned(m) && AllStarted(m)
    ensures var r := LoadInputFiles(m, numThreads);
      && r.m == m
      && (forall e :: e in r.events ==> !e.Started?)
      && (FinishedLoading(m.filesLackingExif) in r.events <==> m.processedFiles == |m.fileList|)
      && (EvValuesChecked in r.events <==> m.processedFiles == |m.fileList| && |m.filesLackingExif| == 0)
  {
  }

  /** Completion is never reported while a file is unstarted or unprocessed. */
  lemma FinishedOnlyWhenAllProcessed(m: Manager, numThreads: int, lacking: seq<string>)
    requires Wf(m)
    requires FinishedLoading(lacking) in LoadInputFiles(m, numThreads).events
    ensures AllStarted(m) && m.processedFiles == |m.fileList| && lacking == m.filesLackingExif
  {
    if !AllStarted(m) {
      LoadStartsFirstUnstartedInOrder(m, numThreads);
      assert false;
    }
  }

  // ---------------------------------------------------------------------------
  // Input mode and the error flag
  // ---------------------------------------------------------------------------

  /** The first result accepted while the mode is unknown fixes the mode. */
  lemma FirstResultFixesMode(m: Manager, image: Size, frame: MdrFrame, index: nat, expotime: real, newfname: string, numThreads: int)
    requires Wf(m) && index < |m.fileList| && m.inputType == UnknownInput && !m.loadingError
    ensures LdrReady(m, image, index, expotime, newfname, numThreads).m.inputType == LdrInput
    ensures MdrReady(m, frame, index, expotime, newfname, numThreads).m.inputType == MdrInput
  {
  }

  /**
   * A result of the other kind than the mode is an error that changes nothing
   * but the error flag; in particular the mode stays.
   */
  lemma MixedInputIsAnError(m: Manager, image: Size, frame: MdrFrame, index: nat, expotime: real, newfname: string, numThreads: int)
    requires Wf(m) && index < |m.fileList| && !m.loadingError
    ensures m.inputType == MdrInput ==>
      LdrReady(m, image, index, expotime, newfname, numThreads) == Step(m.(loadingError := true), [ErrorWhileLoading(LdrAfterMdr(newfname))])
    ensures m.inputType == LdrInput ==>
      MdrReady(m, frame, index, expotime, newfname, numThreads) == Step(m.(loadingError := true), [ErrorWhileLoading(MdrAfterLdr(newfname))])
  {
  }

  /** Once a loading error happened, further results are dropped without any change. */
  lemma ErrorDropsResults(m: Manager, image: Size, frame: MdrFrame, index: nat, expotime: real, newfname: string, numThreads: int)
    requires Wf(m) && index < |m.fileList| && m.loadingError
    ensures LdrReady(m, image, index, expotime, newfname, numThreads) == Step(m, [Processed])
    ensures MdrReady(m, frame, index, expotime, newfname, numThreads) == Step(m, [Processed])
  {
  }

  /**
   * The mode never goes back: once LDR or MDR, every operation keeps it; and
   * the error flag is only ever cleared by `setFileList`.
   */
  lemma ModeAndErrorAreSticky(m: Manager, op: Op)
    requires Wf(m) && Enabled(m, op)
    ensures m.inputType != UnknownInput ==> Apply(m, op).m.inputType == m.inputType
    ensures m.loadingError && !op.SetFiles? && !op.SetFilesAsWritten? ==> Apply(m, op).m.loadingError
  {
    match op
    case SetFiles(files) =>
    case SetFilesAsWritten(files) =>
    case LoadInputs(n) =>
    case LdrLoaded(image, index, expotime, newfname, n) =>
    case MdrLoaded(frame, index, expotime, newfname, n) =>
    case LoadFailure(message) =>
    case RemoveFile(index) =>
  }

  /**
   * An LDR image is stored exactly when it has the size of every stored LDR
   * image; a mismatch fixes the mode, sets the error flag, reports the size
   * error and changes nothing else.  An accepted image also fills the file's
   * anti-ghosting mask slot unless run from the command line.
   */
  lemma LdrStoredIffSameSize(m: Manager, image: Size, index: nat, expotime: real, newfname: string, numThreads: int)
    requires Wf(m) && index < |m.fileList| && !m.loadingError && m.inputType != MdrInput
    ensures var s := LdrReady(m, image, index, expotime, newfname, numThreads); var r := s.m;
      && (r.loadingError <==> exists i :: 0 <= i < |m.ldrImages| && m.ldrImages[i].Some? && m.ldrImages[i].value != image)
      && (r.loadingError ==> s == Step(m.(inputType := LdrInput, loadingError := true), [ErrorWhileLoading(InvalidSize(newfname))]))
      && (!r.loadingError ==> r.ldrImages == m.ldrImages[index := Some(image)])
      && (!r.loadingError ==> r.agMasks == if m.fromCommandLine then m.agMasks else m.agMasks[index := Some(image)])
  {
  }

  /**
   * An MDR frame is stored exactly when, at every index holding all three
   * planes, they have the size of its R plane; a mismatch fixes the mode,
   * sets the error flag, reports the size error and changes nothing else.  An
   * accepted frame records its size and, unless run from the command line,
   * fills the file's preview and anti-ghosting mask slots.
   */
  lemma MdrStoredIffSameSize(m: Manager, frame: MdrFrame, index: nat, expotime: real, newfname: string, numThreads: int)
    requires Wf(m) && index < |m.fileList| && !m.loadingError && m.inputType != LdrInput
    ensures var s := MdrReady(m, frame, index, expotime, newfname, numThreads); var r := s.m;
      && (r.loadingError <==>
            exists i :: 0 <= i < |m.mdrR| && MdrStored(m, i) &&
              (m.mdrR[i].value != frame.r || m.mdrG[i].value != frame.r || m.mdrB[i].value != frame.r))
      && (r.loadingError ==> s == Step(m.(inputType := MdrInput, loadingError := true), [ErrorWhileLoading(InvalidSize(newfname))]))
      && (!r.loadingError ==>
            && r.mdrR == m.mdrR[index := Some(frame.r)]
            && r.mdrG == m.mdrG[index := Some(frame.g)]
            && r.mdrB == m.mdrB[index := Some(frame.b)]
            && r.mdrWidth == frame.r.width && r.mdrHeight == frame.r.height
            && r.mdrImages == (if m.fromCommandLine then m.mdrImages else m.mdrImages[index := Some(frame.r)])
            && r.agMasks == (if m.fromCommandLine then m.agMasks else m.agMasks[index := Some(frame.r)]))
  {
  }

  // ---------------------------------------------------------------------------
  // newResult
  // ---------------------------------------------------------------------------

  /**
   * `newResult` retires one loader and counts one processed file, and touches
   * only the row of file `index`: its exposure becomes `expotime`, and its
   * temporary file becomes `newfname` exactly when that differs from the file
   * loaded.  Apart from those and `filesLackingExif`, no field changes.
   */
  lemma NewResultUpdatesOneRow(m: Manager, index: nat, expotime: real, newfname: string)
    requires Aligned(m) && index < |m.fileList|
    ensures var r := NewResult(m, index, expotime, newfname).m;
      && r.runningThreads == m.runningThreads - 1
      && r.processedFiles == m.processedFiles + 1
      && |r.fileList| == |m.fileList|
      && (forall j :: 0 <= j < |m.fileList| && j != index ==> Row(r, j) == Row(m, j))
      && Row(r, index).expotime == expotime
      && (Row(r, index).tempFile == newfname <==> m.fileList[index] != newfname || m.filesToRemove[index] == newfname)
      && (m.fileList[index] == newfname ==> Row(r, index).tempFile == m.filesToRemove[index])
      && Row(r, index).file == m.fileList[index] && Row(r, index).started == m.startedProcessing[index]
      && r == m.(runningThreads := r.runningThreads, processedFiles := r.processedFiles,
                 filesToRemove := r.filesToRemove, expotimes := r.expotimes, filesLackingExif := r.filesLackingExif)
  {
  }

  /**
   * Exactly one entry naming the file is added to `filesLackingExif` when the
   * stored exposure is -1, none otherwise.
   */
  lemma NewResultListsMissingExposure(m: Manager, index: nat, expotime: real, newfname: string)
    requires Aligned(m) && index < |m.fileList|
    ensures var r := NewResult(m, index, expotime, newfname).m;
      && r.filesLackingExif[..|m.filesLackingExif|] == m.filesLackingExif
      && |r.filesLackingExif| == |m.filesLackingExif| + (if r.expotimes[index] == -1.0 then 1 else 0)
      && (r.expotimes[index] == -1.0 ==> r.filesLackingExif[|m.filesLackingExif|] == LackingExifEntry(m.fileList[index]))
  {
  }

  // ---------------------------------------------------------------------------
  // remove
  // ---------------------------------------------------------------------------

  /**
   * `remove(index)` deletes exactly row `index`; the other rows keep their
   * order.  The mode's own payload list(s) lose the same slot, the other
   * payload lists are untouched, and only in MDR mode is a file deleted.
   * The list of files lacking EXIF data, the error flag and the MDR size are
   * left as they were, so a removed file's entry stays in that list.
   */
  lemma RemoveDropsOneRow(m: Manager, index: nat)
    requires Wf(m) && index < |m.fileList|
    ensures var s := Remove(m, index); var r := s.m;
      && Aligned(r) && |r.fileList| == |m.fileList| - 1
      && (forall j :: 0 <= j < |r.fileList| ==> Row(r, j) == Row(m, if j < index then j else j + 1))
      && r.inputType == m.inputType && r.runningThreads == m.runningThreads && r.processedFiles == m.processedFiles
      && r.agMasks == m.agMasks
      && (m.inputType == LdrInput ==> r.ldrImages == m.ldrImages[..index] + m.ldrImages[index + 1..])
      && (m.inputType != LdrInput ==> r.ldrImages == m.ldrImages)
      && (m.inputType == MdrInput ==>
            && r.mdrR == m.mdrR[..index] + m.mdrR[index + 1..]
            && r.mdrG == m.mdrG[..index] + m.mdrG[index + 1..]
            && r.mdrB == m.mdrB[..index] + m.mdrB[index + 1..]
            && r.mdrImages == m.mdrImages[..index] + m.mdrImages[index + 1..]
            && s.events == [FileRemoved(m.filesToRemove[index])])
      && (m.inputType != MdrInput ==>
            r.mdrR == m.mdrR && r.mdrG == m.mdrG && r.mdrB == m.mdrB && r.mdrImages == m.mdrImages && s.events == [])
      && r.filesLackingExif == m.filesLackingExif && r.loadingError == m.loadingError
      && r.mdrWidth == m.mdrWidth && r.mdrHeight == m.mdrHeight && r.fromCommandLine == m.fromCommandLine
  {
  }
}
