/** The target as the user of the qconn client sees it: a store of files and a few calls on it. There
    are no services, prompts, descriptors or chunks here. */
module QconnStore {
  import opened Telnet
  import opened QconnText
  import opened QconnHex
  import opened QconnLines
  import opened QconnDaemon
  import opened QconnEcho
  import opened QconnFields
  import opened QconnCommands

  datatype Call =
    | Versions
    | Info
    | Stat(path: string)
    | ReadFile(path: string)
    | ReadFileRange(path: string, off: int, n: int)
    | WriteFile(path: string, data: string, mode: int)
    | WriteFileAt(path: string, at: int, data: string)
    | Delete(path: string)
    | Mkdir(path: string, mode: int)
    | Chmod(path: string, mode: int)
    | Signal(pid: int, sig: int)

  datatype Result =
    | Done
    | Failed
    | Numbers(versions: map<string, int>)
    | Attributes(attributes: map<string, string>)
    | Status(mode: int, size: int)
    | Data(data: string)
    | Wrote(total: nat)

  type Files = map<string, string>

  const READ_CHUNK: nat := 2048
  const WRITE_CHUNK: nat := 16384

  function WriteMode(mode: int): int {
    if mode == 0 then MODE_RW_ALL else mode
  }

  function MkdirMode(mode: int): int {
    DirectoryMode(if mode == 0 then MODE_DIR else mode)
  }

  predicate NeedsOpen(c: Call) {
    !(c.Versions? || c.Info? || c.Delete? || c.Signal?)
  }

  function OpenMode(c: Call): int {
    match c
    case WriteFile(_, _, mode) => WriteMode(mode)
    case Mkdir(_, mode) => MkdirMode(mode)
    case _ => 0
  }

  /** Whether the daemon accepts the open with which a call starts. */
  predicate Opens(c: Call) {
    NeedsOpen(c) && Openable(c.path, OpenMode(c))
  }

  /** Whether the client makes out the daemon's answer to it. Every path without the octet 255 and without a
      prompt in it is of this kind (`PlainPathsAreReached`). */
  predicate Reaches(path: string) {
    Audible(path) && NoPrompt(Heard(path))
  }

  lemma PlainPathsAreReached(path: string)
    requires IAC !in path
    ensures Reaches(path) <==> path != "" && NoPrompt(path)
    ensures EchoReplies(path) == ""
  {
    PlainPathIsHeard(path);
  }

  /** The files after `data` was stored; process memory ignores writes, and nothing stored is
      nothing changed. */
  function Stored(files: Files, path: string, off: nat, data: string): Files {
    if data == "" || IsMemory(path) then files
    else files[path := Overlay(Content(files, path), off, data)]
  }

  function FilesAfter(files: Files, c: Call): Files {
    if !Opens(c) then files
    else
      var afterOpen := FilesAfterOpen(files, c.path);
      if !Reaches(c.path) then afterOpen
      else match c
      case WriteFile(path, data, _) => Stored(afterOpen, path, 0, data)
      case WriteFileAt(path, at, data) => if at < 0 then afterOpen else Stored(afterOpen, path, at, data)
      case _ => afterOpen
  }

  /** Reading to the announced size in whole chunks. */
  function RoundUp(n: nat): nat {
    (n + (READ_CHUNK - 1)) / READ_CHUNK * READ_CHUNK
  }

  function Whole(files: Files, path: string): string {
    if IsMemory(path) then ProcBytes(0, RoundUp(PROC_SIZE)) else Content(files, path)
  }

  function Range(files: Files, path: string, off: nat, n: nat): string {
    if IsMemory(path) then ProcBytes(off, n) else Slice(Content(files, path), off, n)
  }

  function ResultOf(tables: Tables, files: Files, c: Call): Result {
    if NeedsOpen(c) && !(Opens(c) && Reaches(c.path)) then Failed
    else
      match c
      case Versions => Numbers(Table(VersionPairs(tables.versions)))
      case Info => Attributes(Table(AttributePairs(tables.attributes)))
      case Delete(_) => Done
      case Signal(_, _) => Done
      case Mkdir(_, _) => Done
      case Chmod(_, _) => Done
      case Stat(path) => Status(FILE_MODE, SizeOf(FilesAfterOpen(files, path), path))
      case ReadFile(path) => Data(Whole(FilesAfterOpen(files, path), path))
      case ReadFileRange(path, off, n) =>
        if n <= 0 then Data("")
        else if off < 0 then Failed
        else Data(Range(FilesAfterOpen(files, path), path, off, n))
      case WriteFile(_, data, _) => Wrote(|data|)
      case WriteFileAt(_, at, data) => if data != "" && at < 0 then Failed else Wrote(|data|)
  }

  datatype History = History(files: Files, results: seq<Result>)

  function PerformAll(tables: Tables, files: Files, calls: seq<Call>): History
    decreases |calls|
  {
    if calls == [] then History(files, [])
    else
      var n := |calls| - 1;
      var before := PerformAll(tables, files, calls[..n]);
      History(FilesAfter(before.files, calls[n]), before.results + [ResultOf(tables, before.files, calls[n])])
  }

  // ----- properties of the store -----

  lemma PerformNext(tables: Tables, files: Files, calls: seq<Call>, i: nat)
    requires i < |calls|
    ensures var before := PerformAll(tables, files, calls[..i]);
      PerformAll(tables, files, calls[..i + 1]) ==
        History(FilesAfter(before.files, calls[i]), before.results + [ResultOf(tables, before.files, calls[i])])
  {
    assert calls[..i + 1][..i] == calls[..i];
  }

  /** Calls that leave the files alone. */
  lemma OtherCalls(tables: Tables, files: Files, path: string)
    ensures ResultOf(tables, files, Delete(path)) == Done && FilesAfter(files, Delete(path)) == files
    ensures KeepsStep(Delete(path)) <==> '\n' !in path
    ensures ResultOf(tables, files, Info) == Attributes(Table(AttributePairs(tables.attributes)))
    ensures FilesAfter(files, Info) == files
  {
  }

  /** What was beyond the data written stays: an open does not truncate. */
  function Beyond(was: string, n: nat): string {
    if n < |was| then was[n..] else ""
  }

  /** Written data is read back octet for octet, followed by what the file held beyond it. */
  lemma WriteThenRead(tables: Tables, files: Files, path: string, data: string, mode: int)
    requires Openable(path, WriteMode(mode)) && !InProc(path)
    ensures var was := Content(files, path);
      ResultOf(tables, FilesAfter(files, WriteFile(path, data, mode)), ReadFile(path)) ==
        if Reaches(path) then Data(data + Beyond(was, |data|)) else Failed
    ensures ResultOf(tables, FilesAfter(files, WriteFile(path, data, mode)), ReadFile(path)) == Data(data)
      <==> Reaches(path) && |Content(files, path)| <= |data|
  {
    var was := Content(files, path);
    assert Openable(path, 0);
    if data == "" {
      assert "" + Beyond(was, 0) == was;
    } else {
      assert Overlay(was, 0, data) == data + Beyond(was, |data|);
    }
    assert |was| <= |data| ==> data + Beyond(was, |data|) == data;
  }

  predicate Writes(c: Call, path: string) {
    (c.WriteFile? || c.WriteFileAt?) && c.path == path
  }

  lemma {:induction false} PerformConcat(tables: Tables, files: Files, a: seq<Call>, b: seq<Call>)
    ensures var first := PerformAll(tables, files, a);
      var second := PerformAll(tables, first.files, b);
      PerformAll(tables, files, a + b) == History(second.files, first.results + second.results)
    decreases |b|
  {
    var first := PerformAll(tables, files, a);
    if b == [] {
      assert a + b == a && first.results + [] == first.results;
    } else {
      var n := |b| - 1;
      PerformConcat(tables, files, a, b[..n]);
      assert (a + b)[..|a + b| - 1] == a + b[..n];
      var second := PerformAll(tables, first.files, b[..n]);
      var last := ResultOf(tables, second.files, b[n]);
      assert first.results + second.results + [last] == first.results + (second.results + [last]);
    }
  }

  /** A file that no call writes keeps its content through any run. */
  lemma {:induction false} UnwrittenIsKept(tables: Tables, files: Files, calls: seq<Call>, path: string)
    requires !InProc(path) && forall c | c in calls :: !Writes(c, path)
    ensures Content(PerformAll(tables, files, calls).files, path) == Content(files, path)
    decreases |calls|
  {
    if calls != [] {
      var n := |calls| - 1;
      UnwrittenIsKept(tables, files, calls[..n], path);
      assert calls[n] in calls;
    }
  }

  /** In any run, a read returns what the last write to that file stored, however many other calls
      come in between. */
  lemma RunReadsBackWhatItWrote(
    tables: Tables, files: Files, before: seq<Call>, path: string, data: string, mode: int, between: seq<Call>)
    requires Openable(path, WriteMode(mode)) && !InProc(path) && forall c | c in between :: !Writes(c, path)
    ensures var calls := before + [WriteFile(path, data, mode)] + between;
      var was := Content(PerformAll(tables, files, before).files, path);
      ResultOf(tables, PerformAll(tables, files, calls).files, ReadFile(path)) ==
        if Reaches(path) then Data(data + Beyond(was, |data|)) else Failed
  {
    var now := PerformAll(tables, files, before).files;
    var write := [WriteFile(path, data, mode)];
    PerformConcat(tables, files, before, write);
    assert write[..0] == [];
    var after := PerformAll(tables, now, write).files;
    assert PerformAll(tables, now, []) == History(now, []);
    assert after == FilesAfter(now, write[0]);
    PerformConcat(tables, files, before + write, between);
    UnwrittenIsKept(tables, after, between, path);
    WriteThenRead(tables, now, path, data, mode);
  }

  /** A write at an offset changes exactly the range written, and other files not at all. */
  lemma WriteAtIsLocal(files: Files, path: string, off: nat, data: string, i: nat, other: string)
    requires Openable(path, 0) && !InProc(path) && data != ""
    ensures var was := Content(files, path);
      var now := Content(FilesAfter(files, WriteFileAt(path, off, data)), path);
      if !Reaches(path) then now == was else
      && |now| == (if off + |data| > |was| then off + |data| else |was|)
      && (i < |now| ==> now[i] == if off <= i < off + |data| then data[i - off] else if i < |was| then was[i] else '\0')
    ensures other != path ==>
      Content(FilesAfter(files, WriteFileAt(path, off, data)), other) == Content(files, other)
  {
  }

  // ----- chunks -----

  /** Storing in two parts is storing the whole. */
  lemma OverlayInTwo(buf: string, off: nat, a: string, b: string)
    ensures Overlay(Overlay(buf, off, a), off + |a|, b) == Overlay(buf, off, a + b)
  {
    var one, two := Overlay(Overlay(buf, off, a), off + |a|, b), Overlay(buf, off, a + b);
    assert |one| == |two|;
    forall i | 0 <= i < |one|
      ensures one[i] == two[i]
    {
    }
  }

  // ----- open files -----

  ghost predicate IsOpen(st: State, fd: nat, path: string) {
    fd in st.fds && st.fds[fd] == Vfile(path, IsMemory(path))
  }

  /** One round of a chunked read: nothing more means that all was read, and otherwise the read goes on. */
  lemma RangeRound(files: Files, path: string, off: nat, out: string, want: nat, n: nat)
    requires out == Range(files, path, off, |out|) && 0 < want && |out| + want <= n
    ensures var chunk := Range(files, path, off + |out|, want);
      && |chunk| <= want
      && (chunk == "" ==> out == Range(files, path, off, n))
      && out + chunk == Range(files, path, off, |out| + |chunk|)
  {
    var chunk := Range(files, path, off + |out|, want);
    assert chunk == Range(files, path, off + |out|, |chunk|);
  }

  /** How far a read of a whole file can have come: process memory is read in full chunks, and past
      the size announced for it. */
  ghost predicate ReadSoFar(files: Files, path: string, out: string) {
    && out == Range(files, path, 0, |out|)
    && (IsMemory(path) ==> |out| % READ_CHUNK == 0 && |out| < PROC_SIZE)
  }

  lemma WholeRound(files: Files, path: string, out: string)
    requires ReadSoFar(files, path, out)
    ensures var chunk := Range(files, path, |out|, READ_CHUNK);
      var size := SizeOf(files, path);
      && (chunk == "" ==> out == Whole(files, path))
      && (chunk != "" ==> |out| < size)
      && (chunk != "" && |out + chunk| < size ==> ReadSoFar(files, path, out + chunk))
      && (chunk != "" && |out + chunk| >= size ==> out + chunk == Whole(files, path))
  {
    var chunk := Range(files, path, |out|, READ_CHUNK);
    RangeRound(files, path, 0, out, READ_CHUNK, |out| + READ_CHUNK);
    if !IsMemory(path) {
      var buf := Content(files, path);
      assert Slice(buf, 0, |buf|) == buf;
    }
  }

  /** Storing on where the last store ended. */
  lemma StoredInTwo(files: Files, path: string, off: nat, a: string, b: string)
    ensures Stored(Stored(files, path, off, a), path, off + |a|, b) == Stored(files, path, off, a + b)
  {
    if a == "" {
      assert a + b == b;
    } else if b == "" {
      assert a + b == a;
    } else if !IsMemory(path) {
      var buf := Content(files, path);
      var once := files[path := Overlay(buf, off, a)];
      OverlayInTwo(buf, off, a, b);
      assert once[path := Overlay(buf, off, a + b)] == files[path := Overlay(buf, off, a + b)];
    }
  }

  /** One round of a chunked write. */
  lemma StoreRound(files: Files, path: string, off: nat, data: string, total: nat, end: nat)
    requires total <= end <= |data|
    ensures Stored(Stored(files, path, off, data[..total]), path, off + total, data[total..end]) ==
      Stored(files, path, off, data[..end])
  {
    var a, b := data[..total], data[total..end];
    assert data[..end] == a + b;
    StoredInTwo(files, path, off, a, b);
  }

  /** The files after each part of some data was stored, as a function value. (The trigger keeps the proof of
      the loop free of what storing is.) */
  type StoreFn = nat -> Files

  ghost predicate Stores(store: StoreFn, files: Files, path: string, off: nat, data: string) {
    forall k: nat {:trigger Stored(files, path, off, data[..k])} ::
      k <= |data| ==> store(k) == Stored(files, path, off, data[..k])
  }

  lemma StoreSteps(files: Files, path: string, off: nat, data: string) returns (store: StoreFn)
    ensures Stores(store, files, path, off, data)
    ensures store(0) == files && store(|data|) == Stored(files, path, off, data)
  {
    store := (k: nat) => if k <= |data| then Stored(files, path, off, data[..k]) else files;
    assert data[..0] == "" && data[..|data|] == data;
  }

  lemma StoreNext(store: StoreFn, files: Files, path: string, off: nat, data: string, total: nat, end: nat)
    requires Stores(store, files, path, off, data) && total <= end <= |data|
    ensures Stored(store(total), path, off + total, data[total..end]) == store(end)
  {
    StoreRound(files, path, off, data, total, end);
  }

  // ----- bounds -----

  predicate Bounded(files: Files) {
    forall p | p in files :: |files[p]| <= MAX_INT64
  }

  /** Paths that leave the two ends in step or, with a prompt in them, cost them their step at once. */
  predicate Utterable(path: string, mode: int) {
    Speakable(path, mode) || Interrupts(path, mode)
  }

  /** Calls whose offsets and lengths fit 64 bits. */
  predicate Admissible(c: Call) {
    && (NeedsOpen(c) ==> Utterable(c.path, OpenMode(c)))
    && (c.ReadFileRange? ==> c.off <= MAX_INT64 && c.off + c.n <= MAX_INT64)
    && (c.WriteFile? ==> |c.data| <= MAX_INT64)
    && (c.WriteFileAt? ==> c.at <= MAX_INT64 && c.at + |c.data| <= MAX_INT64 && |c.data| <= MAX_INT64)
  }

  /** The two ends are in step after a call, unless there is a newline in the path of a delete or a prompt in
      the echo of a path, or something is written at a negative offset. */
  predicate KeepsStep(c: Call) {
    && (c.Delete? ==> '\n' !in c.path)
    && (Opens(c) ==> NoPrompt(Heard(c.path)))
    && !(c.WriteFileAt? && Opens(c) && Reaches(c.path) && c.at < 0 && c.data != "")
  }

  lemma StaysBounded(files: Files, c: Call)
    requires Bounded(files) && Admissible(c)
    ensures Bounded(FilesAfter(files, c))
  {
  }
}
