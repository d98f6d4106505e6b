/**
 * The input-loading bookkeeping of `HdrCreationManager`
 * (HdrCreation/HdrCreationManager.cpp).
 *
 * The manager keeps parallel per-file lists (file names, exposure times,
 * "started" flags, temporary files to delete, and one payload slot per file in
 * each image list), two counters, the input mode and a sticky error flag.
 * Images are reduced to their size, `None` standing for a NULL slot.  Loader
 * threads and Qt signals become the list of `Event`s a transition returns;
 * the thread limit `getNumThreads()` is a parameter.
 */
module HdrCreationManager {
  import opened Wrappers

  /** `inputType`: nothing loaded yet, 8-bit (LDR) input, or 16-bit/float (MDR) input. */
  datatype InputType = UnknownInput | LdrInput | MdrInput

  /** The size of a stored image or plane. */
  datatype Size = Size(width: int, height: int)

  /** A loaded MDR frame: its R, G and B planes (kept under the names X, Y, Z). */
  datatype MdrFrame = MdrFrame(r: Size, g: Size, b: Size)

  /** The reasons `errorWhileLoading` is emitted. */
  datatype LoadError =
    | ReaderFailed(message: string)   // loadFailed(): a loader thread gave up
    | LdrAfterMdr(file: string)       // "... is an 16 bit format while the previous ones are not."
    | MdrAfterLdr(file: string)       // "... is an 8 bit format (LDR) while the previous ones are not."
    | InvalidSize(file: string)       // "... has an invalid size."

  /** What a transition does to the outside world, in order. */
  datatype Event =
    | Started(index: nat, file: string)                   // a loader thread for fileList[index] is started
    | EvValuesChecked                                     // checkEVvalues() is run
    | FinishedLoading(lackingExif: seq<string>)           // finishedLoadingInputFiles(filesLackingExif)
    | ErrorWhileLoading(error: LoadError)                 // errorWhileLoading(message)
    | FileLoaded(index: nat, file: string, expotime: real) // fileLoaded(index, fileList[index], expotimes[index])
    | Processed                                           // processed()
    | FileRemoved(file: string)                           // QFile::remove(file)

  /** The manager's fields that take part in loading. */
  datatype Manager = Manager(
    fromCommandLine: bool,
    inputType: InputType,
    fileList: seq<string>,
    expotimes: seq<real>,
    filesToRemove: seq<string>,
    startedProcessing: seq<bool>,
    filesLackingExif: seq<string>,
    ldrImages: seq<Option<Size>>,
    agMasks: seq<Option<Size>>,
    mdrImages: seq<Option<Size>>,
    mdrR: seq<Option<Size>>,
    mdrG: seq<Option<Size>>,
    mdrB: seq<Option<Size>>,
    runningThreads: int,
    processedFiles: int,
    loadingError: bool,
    mdrWidth: int,
    mdrHeight: int)

  /** A transition's new state and the events it emitted. */
  datatype Step = Step(m: Manager, events: seq<Event>)

  /** The four per-file lists that always have one entry per file. */
  predicate Aligned(m: Manager)
  {
    && |m.expotimes| == |m.fileList|
    && |m.filesToRemove| == |m.fileList|
    && |m.startedProcessing| == |m.fileList|
  }

  /**
   * Files are started in index order and none is ever un-started, so the
   * started flags read true...true false...false.
   */
  ghost predicate StartedPrefix(started: seq<bool>)
  {
    forall i, j :: 0 <= i < j < |started| && started[j] ==> started[i]
  }

  /**
   * The state invariant.  Payload lists get one slot per file but `remove`
   * only shrinks the lists of the current mode and never the anti-ghosting
   * masks, so payload lists are at least as long as `fileList`.
   */
  ghost predicate Wf(m: Manager)
  {
    && Aligned(m)
    && StartedPrefix(m.startedProcessing)
    && |m.ldrImages| >= |m.fileList|
    && |m.agMasks| >= |m.fileList|
    && |m.mdrImages| == |m.mdrR| == |m.mdrG| == |m.mdrB|
    && |m.mdrR| >= |m.fileList|
  }

  /**
   * The constructor: no files, mode unknown.  The constructor leaves the
   * counters and the error flag uninitialised (`setFileList` sets them); they
   * start at 0 and false here.
   */
  function Init(fromCommandLine: bool): (m: Manager)
    ensures Wf(m) && |m.fileList| == 0 && m.inputType == UnknownInput
  {
    Manager(fromCommandLine, UnknownInput, [], [], [], [], [], [], [], [], [], [], [], 0, 0, false, 0, 0)
  }

  // ---------------------------------------------------------------------------
  // Sequence helpers
  // ---------------------------------------------------------------------------

  /** `n` copies of `v`. */
  function Repeat<T>(v: T, n: nat): (r: seq<T>)
    ensures |r| == n && forall i :: 0 <= i < n ==> r[i] == v
  {
    seq(n, _ => v)
  }

  /** `QVector::resize(n)`: truncate, or pad with the element type's default value `d`. */
  function Resize<T>(s: seq<T>, n: nat, d: T): (r: seq<T>)
    ensures |r| == n
    ensures forall i :: 0 <= i < n ==> r[i] == if i < |s| then s[i] else d
  {
    if n <= |s| then s[..n] else s + Repeat(d, n - |s|)
  }

  /** `removeAt(i)` / `erase(begin() + i)`: the i-th element goes, the others close up in order. */
  function RemoveAt<T>(s: seq<T>, i: nat): (r: seq<T>)
    requires i < |s|
    ensures |r| == |s| - 1
    ensures forall j :: 0 <= j < |r| ==> r[j] == s[if j < i then j else j + 1]
  {
    s[..i] + s[i + 1..]
  }

  // ---------------------------------------------------------------------------
  // setFileList
  // ---------------------------------------------------------------------------

  /**
   * `setFileList(l)` with the offset `m_shift` given explicitly: `l` is
   * appended to `fileList`; `expotimes` and `filesToRemove` are resized to the
   * new length (new entries 0.0 and ""); the `|l|` exposure times from
   * `shift` on are set to -1; `startedProcessing` and every payload list get
   * one fresh entry per new file; `processedFiles` becomes `shift`.
   */
  function SetFileListAt(m: Manager, l: seq<string>, shift: nat): (r: Manager)
    requires shift <= |m.fileList|
    ensures r.fileList == m.fileList + l
    ensures |r.expotimes| == |r.filesToRemove| == |r.fileList|
    ensures forall i :: 0 <= i < |r.fileList| ==>
              r.expotimes[i] == if shift <= i < shift + |l| then -1.0 else if i < |m.expotimes| then m.expotimes[i] else 0.0
    ensures forall i :: 0 <= i < |r.fileList| ==>
              r.filesToRemove[i] == if i < |m.filesToRemove| then m.filesToRemove[i] else ""
    ensures r.processedFiles == shift && r.runningThreads == 0 && !r.loadingError
    ensures r.startedProcessing == m.startedProcessing + Repeat(false, |l|)
    ensures && r.ldrImages == m.ldrImages + Repeat(None, |l|)
            && r.agMasks == m.agMasks + Repeat(None, |l|)
            && r.mdrImages == m.mdrImages + Repeat(None, |l|)
            && r.mdrR == m.mdrR + Repeat(None, |l|)
            && r.mdrG == m.mdrG + Repeat(None, |l|)
            && r.mdrB == m.mdrB + Repeat(None, |l|)
    ensures r.inputType == m.inputType && r.fromCommandLine == m.fromCommandLine
    ensures r.filesLackingExif == m.filesLackingExif && r.mdrWidth == m.mdrWidth && r.mdrHeight == m.mdrHeight
  {
    var n := |m.fileList| + |l|;
    var padded := Resize(m.expotimes, n, 0.0);
    m.(processedFiles := shift,
       runningThreads := 0,
       loadingError := false,
       fileList := m.fileList + l,
       expotimes := seq(n, i requires 0 <= i < n => if shift <= i < shift + |l| then -1.0 else padded[i]),
       filesToRemove := Resize(m.filesToRemove, n, ""),
       startedProcessing := m.startedProcessing + Repeat(false, |l|),
       mdrImages := m.mdrImages + Repeat(None, |l|),
       agMasks := m.agMasks + Repeat(None, |l|),
       ldrImages := m.ldrImages + Repeat(None, |l|),
       mdrR := m.mdrR + Repeat(None, |l|),
       mdrG := m.mdrG + Repeat(None, |l|),
       mdrB := m.mdrB + Repeat(None, |l|))
  }

  /**
   * `setFileList(l)` with `m_shift` = 0: the constructor sets it to 0, and no
   * statement in HdrCreationManager.cpp changes it afterwards (the class
   * header is not part of this model). The -1 entries then land on the first
   * `|l|` files, whichever those are; later old files keep their exposure,
   * new files beyond the first `|l|` keep the 0.0 padding, and the processed
   * count restarts at 0.
   */
  function SetFileListAsWritten(m: Manager, l: seq<string>): (r: Manager)
    ensures r.fileList == m.fileList + l && |r.expotimes| == |r.fileList|
    ensures r.processedFiles == 0 && r.runningThreads == 0 && !r.loadingError
    ensures forall i :: 0 <= i < |r.fileList| ==>
              r.expotimes[i] == if i < |l| then -1.0 else if i < |m.expotimes| then m.expotimes[i] else 0.0
    ensures r.startedProcessing == m.startedProcessing + Repeat(false, |l|)
  {
    SetFileListAt(m, l, 0)
  }

  /**
   * `setFileList(l)` with `m_shift` equal to the number of files already in
   * the list, which is what the offset is evidently for: the new files get the
   * -1 ("no exposure yet") entries, the old entries keep theirs, and the files
   * already listed count as processed.
   */
  function SetFileList(m: Manager, l: seq<string>): (r: Manager)
    requires Aligned(m)
    ensures Aligned(r)
    ensures r.fileList == m.fileList + l
    ensures forall i :: 0 <= i < |m.fileList| ==> r.expotimes[i] == m.expotimes[i] && r.filesToRemove[i] == m.filesToRemove[i]
    ensures forall i :: |m.fileList| <= i < |r.fileList| ==> r.expotimes[i] == -1.0 && r.filesToRemove[i] == ""
    ensures r.startedProcessing == m.startedProcessing + Repeat(false, |l|)
    ensures r.processedFiles == |m.fileList| && r.runningThreads == 0 && !r.loadingError
    ensures r.inputType == m.inputType
  {
    SetFileListAt(m, l, |m.fileList|)
  }

  // ---------------------------------------------------------------------------
  // loadInputFiles
  // ---------------------------------------------------------------------------

  /** The first of the first `n` files whose loading has not started, if any. */
  function FirstNotStarted(started: seq<bool>, n: nat): (r: Option<nat>)
    requires n <= |started|
    ensures r.None? <==> forall j :: 0 <= j < n ==> started[j]
    ensures r.Some? ==> r.value < n && !started[r.value] && forall j :: 0 <= j < r.value ==> started[j]
  {
    FirstNotStartedFrom(started, n, 0)
  }

  function FirstNotStartedFrom(started: seq<bool>, n: nat, from: nat): (r: Option<nat>)
    requires from <= n <= |started|
    requires forall j :: 0 <= j < from ==> started[j]
    ensures r.None? <==> forall j :: 0 <= j < n ==> started[j]
    ensures r.Some? ==> from <= r.value < n && !started[r.value] && forall j :: 0 <= j < r.value ==> started[j]
    decreases n - from
  {
    if from == n then None
    else if !started[from] then Some(from)
    else FirstNotStartedFrom(started, n, from + 1)
  }

  /** What the start loop of `loadInputFiles` leaves behind. */
  datatype Launch = Launch(started: seq<bool>, running: int, events: seq<Event>)

  function Min(a: int, b: int): (r: int) { if a < b then a else b }

  /**
   * The `while` loop of `loadInputFiles`: from index `next` on, mark the file
   * as started, start its loader and count it as running, as long as fewer
   * than `limit` loaders run and the list has not ended.
   */
  function StartFiles(started: seq<bool>, files: seq<string>, next: nat, running: int, limit: int): (r: Launch)
    requires |files| == |started| && next <= |started|
    ensures r.running - running == if running < limit then Min(limit - running, |started| - next) else 0
    ensures |r.started| == |started|
    ensures forall j :: 0 <= j < |started| ==> r.started[j] == if next <= j < next + (r.running - running) then true else started[j]
    ensures |r.events| == r.running - running
    ensures forall j :: 0 <= j < |r.events| ==> next + j < |files| && r.events[j] == Started(next + j, files[next + j])
    decreases |started| - next
  {
    if running < limit && next < |started| then
      var rest := StartFiles(started[next := true], files, next + 1, running + 1, limit);
      Launch(rest.started, rest.running, [Started(next, files[next])] + rest.events)
    else
      Launch(started, running, [])
  }

  /**
   * `loadInputFiles()`.  When every file has been started nothing is started;
   * then, if all files are processed, `checkEVvalues` runs when no file lacks
   * EXIF data and loading is reported finished.  Otherwise loaders are started
   * from the first unstarted file on, up to `numThreads` running loaders.
   */
  function LoadInputFiles(m: Manager, numThreads: int): (r: Step)
    requires |m.startedProcessing| == |m.fileList|
    ensures r.m == m.(startedProcessing := r.m.startedProcessing, runningThreads := r.m.runningThreads)
    ensures |r.m.startedProcessing| == |m.startedProcessing|
  {
    match FirstNotStarted(m.startedProcessing, |m.fileList|)
    case None =>
      if m.processedFiles == |m.fileList| then
        var check := if |m.filesLackingExif| == 0 then [EvValuesChecked] else [];
        Step(m, check + [FinishedLoading(m.filesLackingExif)])
      else
        Step(m, [])
    case Some(first) =>
      var launch := StartFiles(m.startedProcessing, m.fileList, first, m.runningThreads, numThreads);
      Step(m.(startedProcessing := launch.started, runningThreads := launch.running), launch.events)
  }

  // ---------------------------------------------------------------------------
  // newResult, loadFailed, ldrReady, mdrReady
  // ---------------------------------------------------------------------------

  /**
   * `QFileInfo(path).fileName()`: the part of the path after its last '/'
   * (empty when the path ends in '/').
   */
  function FileName(path: string): (name: string)
    ensures |name| <= |path| && name == path[|path| - |name|..]
    ensures forall i :: 0 <= i < |name| ==> name[i] != '/'
    ensures |name| < |path| ==> path[|path| - |name| - 1] == '/'
  {
    if |path| == 0 || path[|path| - 1] == '/' then ""
    else
      var init := path[..|path| - 1];
      var name := FileName(init) + [path[|path| - 1]];
      assert path == init + [path[|path| - 1]];
      name
  }

  /** The `filesLackingExif` entry of a file: an HTML list item with its name. */
  function LackingExifEntry(path: string): (entry: string)
  {
    "<li>" + FileName(path) + "</li>"
  }

  /**
   * `newResult(index, expotime, newfname)`: one loader is done; its file is
   * processed, its exposure time stored, a converted copy `newfname` remembered
   * for deletion, and a file without an exposure time (-1) listed.
   */
  function NewResult(m: Manager, index: nat, expotime: real, newfname: string): (r: Step)
    requires Aligned(m) && index < |m.fileList|
    ensures Aligned(r.m)
    ensures r.events == [FileLoaded(index, m.fileList[index], expotime), Processed]
  {
    var lacking := if expotime == -1.0 then [LackingExifEntry(m.fileList[index])] else [];
    Step(m.(runningThreads := m.runningThreads - 1,
            processedFiles := m.processedFiles + 1,
            filesToRemove := if m.fileList[index] != newfname then m.filesToRemove[index := newfname] else m.filesToRemove,
            expotimes := m.expotimes[index := expotime],
            filesLackingExif := m.filesLackingExif + lacking),
         [FileLoaded(index, m.fileList[index], expotime), Processed])
  }

  /** `loadFailed(message, index)`: a loader could not read its file. */
  function LoadFailed(m: Manager, message: string): (r: Step)
    ensures r.m.loadingError
    ensures r.m.(loadingError := m.loadingError) == m
    ensures r.events == [ErrorWhileLoading(ReaderFailed(message))]
  {
    Step(m.(loadingError := true), [ErrorWhileLoading(ReaderFailed(message))])
  }

  /** `ldrsHaveSameSize(w, h)`: every stored LDR image is w x h. */
  function LdrsHaveSameSize(m: Manager, w: int, h: int): (r: bool)
    ensures r <==> forall i :: 0 <= i < |m.ldrImages| && m.ldrImages[i].Some? ==> m.ldrImages[i].value == Size(w, h)
  {
    LdrsHaveSameSizeFrom(m.ldrImages, w, h, 0)
  }

  function LdrsHaveSameSizeFrom(imgs: seq<Option<Size>>, w: int, h: int, from: nat): (r: bool)
    requires from <= |imgs|
    ensures r <==> forall i :: from <= i < |imgs| && imgs[i].Some? ==> imgs[i].value == Size(w, h)
    decreases |imgs| - from
  {
    if from == |imgs| then true
    else if imgs[from].Some? && (imgs[from].value.width != w || imgs[from].value.height != h) then false
    else LdrsHaveSameSizeFrom(imgs, w, h, from + 1)
  }

  /** Slot i holds all three planes of an MDR frame. */
  predicate MdrStored(m: Manager, i: nat)
    requires i < |m.mdrR| && i < |m.mdrG| && i < |m.mdrB|
  {
    m.mdrR[i].Some? && m.mdrG[i].Some? && m.mdrB[i].Some?
  }

  /**
   * `mdrsHaveSameSize(w, h)`: at every index where R, G and B are all stored,
   * all three planes are w x h.
   */
  function MdrsHaveSameSize(m: Manager, w: int, h: int): (r: bool)
    requires |m.mdrG| >= |m.mdrR| && |m.mdrB| >= |m.mdrR|
    ensures r <==> forall i :: 0 <= i < |m.mdrR| && MdrStored(m, i) ==>
      m.mdrR[i].value == Size(w, h) && m.mdrG[i].value == Size(w, h) && m.mdrB[i].value == Size(w, h)
  {
    MdrsHaveSameSizeFrom(m, w, h, 0)
  }

  function MdrsHaveSameSizeFrom(m: Manager, w: int, h: int, from: nat): (r: bool)
    requires |m.mdrG| >= |m.mdrR| && |m.mdrB| >= |m.mdrR| && from <= |m.mdrR|
    ensures r <==> forall i :: from <= i < |m.mdrR| && MdrStored(m, i) ==>
      m.mdrR[i].value == Size(w, h) && m.mdrG[i].value == Size(w, h) && m.mdrB[i].value == Size(w, h)
    decreases |m.mdrR| - from
  {
    if from == |m.mdrR| then true
    else if MdrStored(m, from) && (m.mdrR[from].value != Size(w, h) || m.mdrG[from].value != Size(w, h) || m.mdrB[from].value != Size(w, h)) then false
    else MdrsHaveSameSizeFrom(m, w, h, from + 1)
  }

  /**
   * `ldrReady(image, index, expotime, newfname)`: after an error nothing is
   * stored; an LDR image after MDR ones is an error; otherwise the mode becomes
   * LDR and an image of a size differing from the stored ones is an error.
   * An accepted image is stored (with an empty anti-ghosting mask of its size
   * unless run from the command line), then `newResult` and `loadInputFiles`
   * follow.
   */
  function LdrReady(m: Manager, image: Size, index: nat, expotime: real, newfname: string, numThreads: int): (r: Step)
    requires Wf(m) && index < |m.fileList|
  {
    if m.loadingError then
      Step(m, [Processed])
    else if m.inputType == MdrInput then
      Step(m.(loadingError := true), [ErrorWhileLoading(LdrAfterMdr(newfname))])
    else
      var m1 := m.(inputType := LdrInput);
      if !LdrsHaveSameSize(m1, image.width, image.height) then
        Step(m1.(loadingError := true), [ErrorWhileLoading(InvalidSize(newfname))])
      else
        var m2 := m1.(ldrImages := m1.ldrImages[index := Some(image)],
                      agMasks := if m.fromCommandLine then m1.agMasks else m1.agMasks[index := Some(image)]);
        var s3 := NewResult(m2, index, expotime, newfname);
        var s4 := LoadInputFiles(s3.m, numThreads);
        Step(s4.m, s3.events + s4.events)
  }

  /**
   * `mdrReady(frame, index, expotime, newfname)`: the same protocol for a
   * 16-bit/float frame, whose size is its R plane's.  An accepted frame stores
   * its three planes, records the MDR size, and, unless run from the command
   * line, a preview image and an empty anti-ghosting mask of that size.
   */
  function MdrReady(m: Manager, frame: MdrFrame, index: nat, expotime: real, newfname: string, numThreads: int): (r: Step)
    requires Wf(m) && index < |m.fileList|
  {
    if m.loadingError then
      Step(m, [Processed])
    else if m.inputType == LdrInput then
      Step(m.(loadingError := true), [ErrorWhileLoading(MdrAfterLdr(newfname))])
    else
      var m1 := m.(inputType := MdrInput);
      if !MdrsHaveSameSize(m1, frame.r.width, frame.r.height) then
        Step(m1.(loadingError := true), [ErrorWhileLoading(InvalidSize(newfname))])
      else
        var m2 := m1.(mdrImages := if m.fromCommandLine then m1.mdrImages else m1.mdrImages[index := Some(frame.r)],
                      agMasks := if m.fromCommandLine then m1.agMasks else m1.agMasks[index := Some(frame.r)],
                      mdrWidth := frame.r.width,
                      mdrHeight := frame.r.height,
                      mdrR := m1.mdrR[index := Some(frame.r)],
                      mdrG := m1.mdrG[index := Some(frame.g)],
                      mdrB := m1.mdrB[index := Some(frame.b)]);
        var s3 := NewResult(m2, index, expotime, newfname);
        var s4 := LoadInputFiles(s3.m, numThreads);
        Step(s4.m, s3.events + s4.events)
  }

  // ---------------------------------------------------------------------------
  // remove
  // ---------------------------------------------------------------------------

  /**
   * `remove(index)`: drop file `index` from the per-file lists; in LDR mode
   * also its LDR image, in MDR mode also its three planes and its preview, and
   * its converted copy is deleted from disk.  Nothing is dropped from the
   * payload lists while the mode is unknown.
   */
  function Remove(m: Manager, index: nat): (r: Step)
    requires Wf(m) && index < |m.fileList|
  {
    var m1 :=
      match m.inputType
      case LdrInput => m.(ldrImages := RemoveAt(m.ldrImages, index))
      case MdrInput => m.(mdrR := RemoveAt(m.mdrR, index),
                          mdrG := RemoveAt(m.mdrG, index),
                          mdrB := RemoveAt(m.mdrB, index),
                          mdrImages := RemoveAt(m.mdrImages, index))
      case UnknownInput => m;
    var events := if m.inputType == MdrInput then [FileRemoved(m.filesToRemove[index])] else [];
    Step(m1.(fileList := RemoveAt(m.fileList, index),
             filesToRemove := RemoveAt(m.filesToRemove, index),
             expotimes := RemoveAt(m.expotimes, index),
             startedProcessing := RemoveAt(m.startedProcessing, index)),
         events)
  }
}
