/**
 * Input-source recovery of input.c: each input file has a pollfd slot that
 * is active (events == POLLIN, holding an open descriptor) or inactive
 * (events == 0), and an inotify watch descriptor on its directory that is
 * unset (< 0) or set. The last pollfd slot is the shared inotify channel.
 * The kernel's answers (inotify_init1, inotify_add_watch, open, the clock
 * ioctl, read) are parameters; the calls made are returned as a log.
 */
module Input {
  import opened Opt
  import opened Utils
  import KeyNames
  import opened InotifyRecords

  const POLLIN: int := 1
  const IN_CREATE: nat := 0x100

  datatype PollFd = PollFd(fd: int, events: int)

  /** An input file: its path, the offset in the path of the name inside
      its directory (None when the file may not be watched), and the
      inotify watch descriptor of its directory. */
  datatype InputFile = InputFile(path: seq<char>, dirent: Option<nat>, inotifyWd: int)

  datatype OpenResult = Opened(fd: nat) | OpenFailed(errno: Errno)

  /** The kernel's answers to the calls one reopen can make. */
  datatype Os = Os(initFd: int, watchWd: int, open: OpenResult, clockOk: bool)

  datatype Syscall =
    | InotifyInit
    | AddWatch(fd: int, dir: string)
    | Close(fd: int)
    | Open(path: string)
    | ClockRequest(fd: int)

  /** Why the daemon aborts (an xassert that fails). */
  datatype Failure =
    | InotifyInitFailed | PathChanged | WatchFailed | OpenError | NoWatchPossible
    | RecordSize | ReadFailed

  datatype Status = Ok | Fatal(why: Failure)

  /** The dirent offset lies inside the path. */
  predicate DirentInPath(f: InputFile) {
    f.dirent.Some? ==> f.dirent.value <= |f.path|
  }

  /** An input file whose dirent lies inside its path, as every input file
      of the daemon is. */
  type File = f: InputFile | DirentInPath(f) witness InputFile([], None, -1)

  /** An input file as the daemon sets it up: a C string path, and a dirent
      that is the whole path or follows its last '/'. */
  predicate WellFormedFile(f: File) {
    (forall j :: 0 <= j < |f.path| ==> f.path[j] != KeyNames.NUL) &&
    (f.dirent.Some? && f.dirent.value > 0 ==> f.path[f.dirent.value - 1] == '/')
  }

  // ---------------------------------------------------------------------
  // inotify_watch

  datatype Watched = Watched(file: File, inotify: PollFd, calls: seq<Syscall>, status: Status)

  /** The directory inotify_watch asks to watch: "." when the dirent is the
      whole path, otherwise the path cut at the '/' before the dirent. */
  function WatchDir(path: seq<char>, d: nat): string
    requires 0 < d <= |path|
  {
    KeyNames.CStr(path[d - 1 := KeyNames.NUL])
  }

  /** What inotify_watch does to an input file and the inotify channel. */
  function WatchSpec(file: File, inotify: PollFd, o: Os): Watched
    requires file.dirent.Some?
  {
    if file.inotifyWd >= 0 then Watched(file, inotify, [], Ok)
    else if inotify.events == 0 && o.initFd < 0 then
      Watched(file, inotify.(fd := o.initFd), [InotifyInit], Fatal(InotifyInitFailed))
    else
      var ino := if inotify.events == 0 then PollFd(o.initFd, POLLIN) else inotify;
      var init := if inotify.events == 0 then [InotifyInit] else [];
      var d := file.dirent.value;
      if d > 0 && file.path[d - 1] != '/' then
        Watched(file, ino, init, Fatal(PathChanged))
      else
        var dir := if d == 0 then "." else WatchDir(file.path, d);
        var calls := init + [AddWatch(ino.fd, dir)];
        if o.watchWd < 0 then
          var written := if d == 0 then file.path else file.path[d - 1 := KeyNames.NUL];
          Watched(file.(path := written, inotifyWd := o.watchWd), ino, calls, Fatal(WatchFailed))
        else
          Watched(file.(inotifyWd := o.watchWd), ino, calls, Ok)
  }

  /** inotify_watch: set up the channel if needed, then watch the input's
      directory, cutting the path at the '/' for the call and restoring it
      afterwards. */
  method InotifyWatch(files: array<File>, i: nat, pollfds: array<PollFd>, ino: nat, o: Os)
    returns (calls: seq<Syscall>, status: Status)
    requires i < files.Length && ino < pollfds.Length
    requires files[i].dirent.Some?
    modifies files, pollfds
    ensures var w := WatchSpec(old(files[i]), old(pollfds[ino]), o);
      files[i] == w.file && pollfds[ino] == w.inotify && calls == w.calls && status == w.status
    ensures forall j :: 0 <= j < files.Length && j != i ==> files[j] == old(files[j])
    ensures forall j :: 0 <= j < pollfds.Length && j != ino ==> pollfds[j] == old(pollfds[j])
  {
    calls := [];
    if files[i].inotifyWd >= 0 {
      return calls, Ok;
    }
    if pollfds[ino].events == 0 {
      pollfds[ino] := pollfds[ino].(fd := o.initFd);
      calls := calls + [InotifyInit];
      if pollfds[ino].fd < 0 {
        return calls, Fatal(InotifyInitFailed);
      }
      pollfds[ino] := pollfds[ino].(events := POLLIN);
    }
    var d := files[i].dirent.value;
    var dir: string;
    if d == 0 {
      dir := ".";
    } else {
      if files[i].path[d - 1] != '/' {
        return calls, Fatal(PathChanged);
      }
      files[i] := files[i].(path := files[i].path[d - 1 := KeyNames.NUL]);
      dir := KeyNames.CStr(files[i].path);
    }
    calls := calls + [AddWatch(pollfds[ino].fd, dir)];
    files[i] := files[i].(inotifyWd := o.watchWd);
    if files[i].inotifyWd < 0 {
      return calls, Fatal(WatchFailed);
    }
    if d != 0 {
      files[i] := files[i].(path := files[i].path[d - 1 := '/']);
    }
    status := Ok;
  }

  /** A watch already set up makes inotify_watch a no-op. */
  lemma WatchNoOpWhenWatched(file: File, inotify: PollFd, o: Os)
    requires file.dirent.Some? && file.inotifyWd >= 0
    ensures WatchSpec(file, inotify, o) == Watched(file, inotify, [], Ok)
  {
  }

  /** The inotify channel is created only while it is inactive, and once
      the watch succeeds it is active: so it is created at most once. */
  lemma WatchCreatesChannelOnce(file: File, inotify: PollFd, o: Os)
    requires file.dirent.Some? && file.inotifyWd < 0
    ensures var w := WatchSpec(file, inotify, o);
      && (inotify.events != 0 ==> w.inotify == inotify && InotifyInit !in w.calls)
      && (inotify.events == 0 ==> |w.calls| >= 1 && w.calls[0] == InotifyInit)
      && (inotify.events == 0 && w.status == Ok ==> w.inotify == PollFd(o.initFd, POLLIN))
  {
  }

  /** A successful watch leaves the input's path and dirent as they were
      and its watch descriptor set to what inotify_add_watch returned. */
  lemma WatchRestoresPath(file: File, inotify: PollFd, o: Os)
    requires file.dirent.Some?
    ensures var w := WatchSpec(file, inotify, o);
      w.status == Ok ==>
        && w.file.path == file.path && w.file.dirent == file.dirent
        && w.file.inotifyWd >= 0
        && (file.inotifyWd < 0 ==> w.file.inotifyWd == o.watchWd)
  {
  }

  /** Cutting a C path at the '/' before the dirent leaves the parent
      directory. */
  lemma WatchDirIsParent(path: seq<char>, d: nat)
    requires 0 < d <= |path|
    requires forall j :: 0 <= j < |path| ==> path[j] != KeyNames.NUL
    ensures WatchDir(path, d) == path[..d - 1]
  {
    var written := path[d - 1 := KeyNames.NUL];
    KeyNames.StrLenOf(written, 0, d - 1);
  }

  /** For a well-formed input the path check never fires, and the watched
      directory is "." or the path up to the last '/'. */
  lemma WatchOfWellFormed(file: File, inotify: PollFd, o: Os)
    requires WellFormedFile(file) && file.dirent.Some? && file.inotifyWd < 0
    ensures var w := WatchSpec(file, inotify, o);
      var d := file.dirent.value;
      && w.status != Fatal(PathChanged)
      && ((inotify.events != 0 || o.initFd >= 0) ==>
            AddWatch(w.inotify.fd, if d == 0 then "." else file.path[..d - 1]) in w.calls)
  {
    var d := file.dirent.value;
    if d > 0 {
      WatchDirIsParent(file.path, d);
    }
  }

  // ---------------------------------------------------------------------
  // reopen_input

  datatype Reopened = Reopened(file: File, pollfd: PollFd, inotify: PollFd, calls: seq<Syscall>, status: Status)

  /** The pollfd after the close reopen_input starts with, and the calls it
      made. */
  function CloseFirst(pollfd: PollFd): (PollFd, seq<Syscall>) {
    if pollfd.events != 0 then (pollfd.(events := 0), [Close(pollfd.fd)]) else (pollfd, [])
  }

  /** The fallback after a failed open or clock request: abort without a
      dirent, otherwise watch the directory. */
  function Fallback(file: File, pollfd: PollFd, inotify: PollFd, o: Os, calls: seq<Syscall>): Reopened
  {
    if file.dirent.None? then Reopened(file, pollfd, inotify, calls, Fatal(NoWatchPossible))
    else
      var w := WatchSpec(file, inotify, o);
      Reopened(w.file, pollfd, w.inotify, calls + w.calls, w.status)
  }

  /** What reopen_input does to an input file, its pollfd and the inotify
      channel. */
  function ReopenSpec(file: File, pollfd: PollFd, inotify: PollFd, o: Os, testMode: bool): Reopened
  {
    var (pfd, closed) := CloseFirst(pollfd);
    var calls := closed + [Open(file.path)];
    match o.open
    case OpenFailed(e) =>
      if e != ENOENT then Reopened(file, pfd, inotify, calls, Fatal(OpenError))
      else Fallback(file, pfd, inotify, o, calls)
    case Opened(fd) =>
      if !testMode && !o.clockOk then
        Fallback(file, pfd, inotify, o, calls + [ClockRequest(fd), Close(fd)])
      else
        Reopened(file, PollFd(fd, POLLIN), inotify, calls + (if testMode then [] else [ClockRequest(fd)]), Ok)
  }

  /** The tail of reopen_input after a failed open or clock request. */
  method FallBackToWatch(files: array<File>, i: nat, pollfds: array<PollFd>, ino: nat, o: Os, calls0: seq<Syscall>)
    returns (calls: seq<Syscall>, status: Status)
    requires i < files.Length && i < pollfds.Length && ino < pollfds.Length && i != ino
    modifies files, pollfds
    ensures var r := Fallback(old(files[i]), old(pollfds[i]), old(pollfds[ino]), o, calls0);
      && files[i] == r.file && pollfds[i] == r.pollfd && pollfds[ino] == r.inotify
      && calls == r.calls && status == r.status
    ensures forall j :: 0 <= j < files.Length && j != i ==> files[j] == old(files[j])
    ensures forall j :: 0 <= j < pollfds.Length && j != ino ==> pollfds[j] == old(pollfds[j])
  {
    if files[i].dirent.None? {
      return calls0, Fatal(NoWatchPossible);
    }
    var more;
    more, status := InotifyWatch(files, i, pollfds, ino, o);
    calls := calls0 + more;
  }

  /** reopen_input: close the input if open, open it again, and fall back
      to watching its directory when it cannot be used. */
  method ReopenInput(files: array<File>, i: nat, pollfds: array<PollFd>, ino: nat, o: Os, testMode: bool)
    returns (calls: seq<Syscall>, status: Status)
    requires i < files.Length && i < pollfds.Length && ino < pollfds.Length && i != ino
    modifies files, pollfds
    ensures var r := ReopenSpec(old(files[i]), old(pollfds[i]), old(pollfds[ino]), o, testMode);
      && files[i] == r.file && pollfds[i] == r.pollfd && pollfds[ino] == r.inotify
      && calls == r.calls && status == r.status
    ensures forall j :: 0 <= j < files.Length && j != i ==> files[j] == old(files[j])
    ensures forall j :: 0 <= j < pollfds.Length && j != i && j != ino ==> pollfds[j] == old(pollfds[j])
  {
    ghost var r := ReopenSpec(files[i], pollfds[i], pollfds[ino], o, testMode);
    ghost var (pfd, closed) := CloseFirst(pollfds[i]);
    calls := [];
    if pollfds[i].events != 0 {
      calls := calls + [Close(pollfds[i].fd)];
      pollfds[i] := pollfds[i].(events := 0);
    }
    calls := calls + [Open(files[i].path)];
    assert pollfds[i] == pfd && calls == closed + [Open(files[i].path)];
    match o.open
    case OpenFailed(e) =>
      if e != ENOENT {
        return calls, Fatal(OpenError);
      }
      assert r == Fallback(files[i], pfd, pollfds[ino], o, calls);
      calls, status := FallBackToWatch(files, i, pollfds, ino, o, calls);
    case Opened(fd) =>
      if !testMode {
        calls := calls + [ClockRequest(fd)];
        if !o.clockOk {
          assert r == Fallback(files[i], pfd, pollfds[ino], o, calls + [Close(fd)]);
          calls, status := FallBackToWatch(files, i, pollfds, ino, o, calls + [Close(fd)]);
          return;
        }
      }
      pollfds[i] := PollFd(fd, POLLIN);
      status := Ok;
  }

  /** After a reopen that does not abort, the input is either open on the
      new descriptor (the open succeeded and the clock was accepted or the
      daemon runs in test mode) or inactive with its directory watched. */
  lemma ReopenOutcome(file: File, pollfd: PollFd, inotify: PollFd, o: Os, testMode: bool)
    ensures var r := ReopenSpec(file, pollfd, inotify, o, testMode);
      r.status == Ok ==>
        || (o.open.Opened? && (testMode || o.clockOk) && r.pollfd == PollFd(o.open.fd, POLLIN))
        || (r.pollfd.events == 0 && r.pollfd.fd == pollfd.fd && r.file.inotifyWd >= 0
            && r.file.path == file.path && r.file.dirent == file.dirent && file.dirent.Some?)
  {
    if file.dirent.Some? {
      WatchRestoresPath(file, inotify, o);
    }
  }

  /** The aborts of reopen_input: an open error other than ENOENT, and any
      failure of an input that has no dirent to watch. */
  lemma ReopenFailures(file: File, pollfd: PollFd, inotify: PollFd, o: Os, testMode: bool)
    ensures var r := ReopenSpec(file, pollfd, inotify, o, testMode);
      && (o.open.OpenFailed? && o.open.errno != ENOENT ==> r.status == Fatal(OpenError))
      && (file.dirent.None? && (o.open.OpenFailed? || (!testMode && !o.clockOk)) ==> r.status.Fatal?)
      && (o.open.Opened? && (testMode || o.clockOk) ==> r.status == Ok)
  {
  }

  /** An active pollfd is closed before anything else, and the path opened
      is the input's path. */
  lemma ReopenClosesFirst(file: File, pollfd: PollFd, inotify: PollFd, o: Os, testMode: bool)
    ensures var r := ReopenSpec(file, pollfd, inotify, o, testMode);
      && (pollfd.events != 0 ==> |r.calls| >= 2 && r.calls[0] == Close(pollfd.fd) && r.calls[1] == Open(file.path))
      && (pollfd.events == 0 ==> |r.calls| >= 1 && r.calls[0] == Open(file.path))
  {
  }

  // ---------------------------------------------------------------------
  // handle_inotify_event

  /** The C string in an event's NUL-padded name field. */
  function EventName(name: seq<byte>): string {
    if name == [] || name[0] == 0 then [] else [name[0] as char] + EventName(name[1..])
  }

  /** An input is concerned by an event when the event comes from the
      input's directory watch and names the input's file. */
  predicate Concerned(f: File, ev: Record) {
    f.inotifyWd == ev.wd && f.dirent.Some? && f.dirent.value <= |f.path| &&
    EventName(ev.name) == f.path[f.dirent.value..]
  }

  predicate IsCreate(mask: nat) {
    (mask / IN_CREATE) % 2 == 1
  }

  /** The state handle_inotify_event works on. */
  datatype Inputs = Inputs(files: seq<File>, pollfds: seq<PollFd>, calls: seq<Syscall>, status: Status)

  predicate Shaped(s: Inputs) {
    |s.pollfds| == |s.files| + 1
  }

  /** Reopen input i of the state, with the last pollfd as channel. */
  function ReopenAt(s: Inputs, i: nat, o: Os, testMode: bool): (t: Inputs)
    requires Shaped(s) && i < |s.files|
    ensures |t.files| == |s.files| && |t.pollfds| == |s.pollfds|
  {
    var ino := |s.files|;
    var r := ReopenSpec(s.files[i], s.pollfds[i], s.pollfds[ino], o, testMode);
    Inputs(s.files[i := r.file], s.pollfds[i := r.pollfd][ino := r.inotify], s.calls + r.calls, r.status)
  }

  /** The loop of handle_inotify_event from input i on: every concerned
      input is reopened, in order, until one reopen aborts. */
  function Dispatch(ev: Record, s: Inputs, os: nat -> Os, testMode: bool, i: nat): (t: Inputs)
    requires Shaped(s) && i <= |s.files|
    ensures Shaped(t) && |t.files| == |s.files|
    decreases |s.files| - i
  {
    if i == |s.files| || s.status.Fatal? then s
    else if Concerned(s.files[i], ev) then
      var t := ReopenAt(s, i, os(i), testMode);
      Dispatch(ev, t, os, testMode, i + 1)
    else Dispatch(ev, s, os, testMode, i + 1)
  }

  /** handle_inotify_event on the state: events other than creations are
      ignored. */
  function EventSpec(ev: Record, s: Inputs, os: nat -> Os, testMode: bool): Inputs
    requires Shaped(s)
  {
    if !IsCreate(ev.mask) then s else Dispatch(ev, s, os, testMode, 0)
  }

  /** Reopening input i changes no other input and only appends calls. */
  lemma ReopenAtFrame(s: Inputs, i: nat, o: Os, testMode: bool)
    requires Shaped(s) && i < |s.files|
    ensures var u := ReopenAt(s, i, o, testMode);
      && (forall j :: 0 <= j < |s.files| && j != i ==> u.files[j] == s.files[j] && u.pollfds[j] == s.pollfds[j])
      && s.calls <= u.calls
  {
  }

  /** Dispatch leaves alone every input it has passed or that the event
      does not concern, and only appends to the call log. */
  lemma {:induction false} DispatchFrame(ev: Record, s: Inputs, os: nat -> Os, testMode: bool, i: nat)
    requires Shaped(s) && i <= |s.files|
    ensures var t := Dispatch(ev, s, os, testMode, i);
      && (forall j :: 0 <= j < |s.files| && (j < i || !Concerned(s.files[j], ev)) ==>
            t.files[j] == s.files[j] && t.pollfds[j] == s.pollfds[j])
      && s.calls <= t.calls
    decreases |s.files| - i
  {
    if i == |s.files| || s.status.Fatal? {
    } else if Concerned(s.files[i], ev) {
      DispatchFrame(ev, ReopenAt(s, i, os(i), testMode), os, testMode, i + 1);
      ReopenThenFrame(ev, s, os, testMode, i);
    } else {
      DispatchFrame(ev, s, os, testMode, i + 1);
    }
  }

  /** The step of DispatchFrame at a concerned input: the reopen touches
      only that input, and the rest of the dispatch keeps the others. */
  lemma ReopenThenFrame(ev: Record, s: Inputs, os: nat -> Os, testMode: bool, i: nat)
    requires Shaped(s) && i < |s.files| && s.status == Ok && Concerned(s.files[i], ev)
    requires var u := ReopenAt(s, i, os(i), testMode);
      var t := Dispatch(ev, u, os, testMode, i + 1);
      && (forall j :: 0 <= j < |u.files| && (j < i + 1 || !Concerned(u.files[j], ev)) ==>
            t.files[j] == u.files[j] && t.pollfds[j] == u.pollfds[j])
      && u.calls <= t.calls
    ensures var t := Dispatch(ev, s, os, testMode, i);
      && (forall j :: 0 <= j < |s.files| && (j < i || !Concerned(s.files[j], ev)) ==>
            t.files[j] == s.files[j] && t.pollfds[j] == s.pollfds[j])
      && s.calls <= t.calls
  {
    var u := ReopenAt(s, i, os(i), testMode);
    var t := Dispatch(ev, u, os, testMode, i + 1);
    assert t == Dispatch(ev, s, os, testMode, i);
    ReopenAtFrame(s, i, os(i), testMode);
    forall j | 0 <= j < |s.files| && (j < i || !Concerned(s.files[j], ev))
      ensures t.files[j] == s.files[j] && t.pollfds[j] == s.pollfds[j]
    {
      assert j != i && u.files[j] == s.files[j];
    }
  }

  /** A dispatch that does not abort opens every input from i on that the
      event concerns. */
  lemma {:induction false} DispatchOpensConcerned(ev: Record, s: Inputs, os: nat -> Os, testMode: bool, i: nat)
    requires Shaped(s) && i <= |s.files|
    ensures var t := Dispatch(ev, s, os, testMode, i);
      t.status == Ok ==>
        forall j :: i <= j < |s.files| && Concerned(s.files[j], ev) ==> Open(s.files[j].path) in t.calls
    decreases |s.files| - i
  {
    if i == |s.files| || s.status.Fatal? {
    } else if Concerned(s.files[i], ev) {
      DispatchOpensConcerned(ev, ReopenAt(s, i, os(i), testMode), os, testMode, i + 1);
      ReopenThenOpens(ev, s, os, testMode, i);
    } else {
      DispatchOpensConcerned(ev, s, os, testMode, i + 1);
    }
  }

  /** The step of DispatchOpensConcerned at a concerned input: its reopen
      opens it, and the rest of the dispatch keeps that call. */
  lemma ReopenThenOpens(ev: Record, s: Inputs, os: nat -> Os, testMode: bool, i: nat)
    requires Shaped(s) && i < |s.files| && s.status == Ok && Concerned(s.files[i], ev)
    requires var u := ReopenAt(s, i, os(i), testMode);
      var t := Dispatch(ev, u, os, testMode, i + 1);
      t.status == Ok ==>
        forall j :: i + 1 <= j < |u.files| && Concerned(u.files[j], ev) ==> Open(u.files[j].path) in t.calls
    ensures var t := Dispatch(ev, s, os, testMode, i);
      t.status == Ok ==>
        forall j :: i <= j < |s.files| && Concerned(s.files[j], ev) ==> Open(s.files[j].path) in t.calls
  {
    var u := ReopenAt(s, i, os(i), testMode);
    var t := Dispatch(ev, u, os, testMode, i + 1);
    assert t == Dispatch(ev, s, os, testMode, i);
    if t.status == Ok {
      DispatchFrame(ev, u, os, testMode, i + 1);
      ReopenAtFrame(s, i, os(i), testMode);
      assert Open(s.files[i].path) in u.calls by {
        ReopenClosesFirst(s.files[i], s.pollfds[i], s.pollfds[|s.files|], os(i), testMode);
      }
      forall j | i <= j < |s.files| && Concerned(s.files[j], ev)
        ensures Open(s.files[j].path) in t.calls
      {
        if j != i {
          assert u.files[j] == s.files[j];
        }
      }
    }
  }

  /** handle_inotify_event ignores events that are not creations, and for
      a creation it changes only the inputs the event concerns and opens
      each of them unless a reopen aborts. */
  lemma CreateEventsOnly(ev: Record, s: Inputs, os: nat -> Os, testMode: bool)
    requires Shaped(s)
    ensures var t := EventSpec(ev, s, os, testMode);
      && (!IsCreate(ev.mask) ==> t == s)
      && (forall j :: 0 <= j < |s.files| && !Concerned(s.files[j], ev) ==>
            t.files[j] == s.files[j] && t.pollfds[j] == s.pollfds[j])
      && (IsCreate(ev.mask) && t.status == Ok ==>
            forall j :: 0 <= j < |s.files| && Concerned(s.files[j], ev) ==> Open(s.files[j].path) in t.calls)
  {
    if IsCreate(ev.mask) {
      DispatchFrame(ev, s, os, testMode, 0);
      DispatchOpensConcerned(ev, s, os, testMode, 0);
    }
  }

  /** handle_inotify_event: reopen the inputs the creation event concerns.
      os(i) is the kernel's answers for input i. */
  method HandleInotifyEvent(ev: Record, files: array<File>, pollfds: array<PollFd>,
                            os: nat -> Os, testMode: bool, calls0: seq<Syscall>)
    returns (calls: seq<Syscall>, status: Status)
    requires pollfds.Length == files.Length + 1
    modifies files, pollfds
    ensures var s := Inputs(old(files[..]), old(pollfds[..]), calls0, Ok);
      Shaped(s) && EventSpec(ev, s, os, testMode) == Inputs(files[..], pollfds[..], calls, status)
  {
    ghost var s0 := Inputs(files[..], pollfds[..], calls0, Ok);
    calls := calls0;
    status := Ok;
    if !IsCreate(ev.mask) {
      return;
    }
    var count := files.Length;
    var i := 0;
    while i < count
      invariant 0 <= i <= count
      invariant status == Ok
      invariant Dispatch(ev, s0, os, testMode, 0) == Dispatch(ev, Inputs(files[..], pollfds[..], calls, status), os, testMode, i)
    {
      ghost var s := Inputs(files[..], pollfds[..], calls, status);
      if files[i].inotifyWd == ev.wd && files[i].dirent.Some? && files[i].dirent.value <= |files[i].path|
         && EventName(ev.name) == files[i].path[files[i].dirent.value..] {
        var more;
        more, status := ReopenInput(files, i, pollfds, count, os(i), testMode);
        calls := calls + more;
        assert Inputs(files[..], pollfds[..], calls, status) == ReopenAt(s, i, os(i), testMode);
          if status.Fatal? {
          return;
        }
      }
      i := i + 1;
    }
  }

  // ---------------------------------------------------------------------
  // handle_inotify

  /** What one call of read_safe on the inotify descriptor gave: the bytes
      read (none when there was nothing more to read) or a failure. */
  datatype Chunk = Bytes(data: seq<byte>) | ReadFailure(errno: Errno)

  /** handle_inotify_event applied to records in turn; the k-th record of
      the pass is answered by os(k). */
  function Events(rs: seq<Record>, s: Inputs, os: nat -> nat -> Os, testMode: bool, k: nat): (t: Inputs)
    requires Shaped(s)
    ensures Shaped(t) && |t.files| == |s.files|
    decreases |rs|
  {
    if rs == [] || s.status.Fatal? then s
    else Events(rs[1..], EventSpec(rs[0], s, os(k), testMode), os, testMode, k + 1)
  }

  /** One chunk of bytes walked record by record: the records are handled
      in turn, and a chunk they do not tile is fatal. */
  function ChunkSpec(buf: seq<byte>, s: Inputs, os: nat -> nat -> Os, testMode: bool): (t: Inputs)
    requires Shaped(s)
    ensures Shaped(t)
  {
    var w := WalkChecked(buf, 0);
    var t := Events(w.records, s, os, testMode, 0);
    if t.status.Fatal? || w.complete then t else t.(status := Fatal(RecordSize))
  }

  /** The read loop of handle_inotify: each chunk is walked, a failed read
      is fatal, and an empty read ends the loop. The c-th chunk's records
      are answered by os(c). */
  function Chunks(cs: seq<Chunk>, s: Inputs, os: nat -> nat -> nat -> Os, testMode: bool, c: nat): Inputs
    requires Shaped(s)
    decreases |cs|
  {
    if cs == [] || s.status.Fatal? then s
    else match cs[0]
      case ReadFailure(_) => s.(status := Fatal(ReadFailed))
      case Bytes(data) =>
        if data == [] then s
        else Chunks(cs[1..], ChunkSpec(data, s, os(c), testMode), os, testMode, c + 1)
  }

  /** One step of the walk over a chunk: the record at off is handled
      first, the rest follow. */
  lemma EventsStep(buf: seq<byte>, off: nat, s: Inputs, os: nat -> nat -> Os, testMode: bool, k: nat)
    requires Shaped(s) && s.status == Ok
    requires off + HEADER_SIZE <= |buf| && NextAt(buf, off) <= |buf|
    ensures var rest := WalkChecked(buf, NextAt(buf, off));
      && WalkChecked(buf, off).records == [RecordAt(buf, off)] + rest.records
      && WalkChecked(buf, off).complete == rest.complete
      && Events(WalkChecked(buf, off).records, s, os, testMode, k)
         == Events(rest.records, EventSpec(RecordAt(buf, off), s, os(k), testMode), os, testMode, k + 1)
  {
    var rs := WalkChecked(buf, off).records;
    assert rs[1..] == WalkChecked(buf, NextAt(buf, off)).records;
  }

  /** The chunks read before the first empty read. */
  function Consumed(cs: seq<Chunk>): (r: seq<Chunk>)
    ensures |r| <= |cs| && r == cs[..|r|]
    ensures Bytes([]) !in r
    decreases |cs|
  {
    if cs == [] || cs[0] == Bytes([]) then [] else [cs[0]] + Consumed(cs[1..])
  }

  /** An abort is never undone: handling more records keeps it. */
  lemma {:induction false} EventsKeepFatal(rs: seq<Record>, s: Inputs, os: nat -> nat -> Os, testMode: bool, k: nat)
    requires Shaped(s)
    ensures Events(rs, s, os, testMode, k).status == Ok ==> s.status == Ok
    decreases |rs|
  {
    if rs != [] && s.status == Ok {
      EventsKeepFatal(rs[1..], EventSpec(rs[0], s, os(k), testMode), os, testMode, k + 1);
    }
  }

  /** When handle_inotify ends without aborting, every read before the
      first empty one succeeded and its bytes were tiled exactly by
      records. */
  lemma {:induction false} ChunksOkTiled(cs: seq<Chunk>, s: Inputs, os: nat -> nat -> nat -> Os, testMode: bool, c: nat)
    requires Shaped(s)
    ensures Chunks(cs, s, os, testMode, c).status == Ok ==>
      s.status == Ok && forall ch :: ch in Consumed(cs) ==> ch.Bytes? && Tiles(ch.data, 0)
    decreases |cs|
  {
    if cs == [] || s.status.Fatal? {
    } else {
      match cs[0]
      case ReadFailure(_) =>
      case Bytes(data) =>
        if data != [] {
          var w := WalkChecked(data, 0);
          var u := ChunkSpec(data, s, os(c), testMode);
          ChunksOkTiled(cs[1..], u, os, testMode, c + 1);
          EventsKeepFatal(w.records, s, os(c), testMode, 0);
          if Chunks(cs, s, os, testMode, c).status == Ok {
            assert u.status == Ok;
            assert w.complete;
            CompleteIffTiles(data, 0);
            assert Consumed(cs) == [cs[0]] + Consumed(cs[1..]);
          }
        }
    }
  }

  /** One turn of the walk: the record at off, whose size was checked, is
      handed on to handle_inotify_event, and the walk goes on after it. */
  method HandleRecord(files: array<File>, pollfds: array<PollFd>, buf: seq<byte>, off: nat,
                      os: nat -> nat -> Os, testMode: bool, calls0: seq<Syscall>, k: nat)
    returns (calls: seq<Syscall>, status: Status)
    requires pollfds.Length == files.Length + 1
    requires off + HEADER_SIZE <= |buf| && NextAt(buf, off) <= |buf|
    modifies files, pollfds
    ensures var s := Inputs(old(files[..]), old(pollfds[..]), calls0, Ok);
      var next := WalkChecked(buf, NextAt(buf, off));
      && Events(WalkChecked(buf, off).records, s, os, testMode, k)
         == Events(next.records, Inputs(files[..], pollfds[..], calls, status), os, testMode, k + 1)
      && WalkChecked(buf, off).complete == next.complete
      && |WalkChecked(buf, off).records| == |next.records| + 1
  {
    EventsStep(buf, off, Inputs(files[..], pollfds[..], calls0, Ok), os, testMode, k);
    calls, status := HandleInotifyEvent(RecordAt(buf, off), files, pollfds, os(k), testMode, calls0);
  }

  /** The walk of handle_inotify over the n bytes of one read, with the
      record size checked before each record is handed on. */
  method HandleChunk(files: array<File>, pollfds: array<PollFd>, buf: seq<byte>,
                     os: nat -> nat -> Os, testMode: bool, calls0: seq<Syscall>)
    returns (calls: seq<Syscall>, status: Status)
    requires pollfds.Length == files.Length + 1
    modifies files, pollfds
    ensures var s := Inputs(old(files[..]), old(pollfds[..]), calls0, Ok);
      Shaped(s) && ChunkSpec(buf, s, os, testMode) == Inputs(files[..], pollfds[..], calls, status)
  {
    ghost var s0 := Inputs(files[..], pollfds[..], calls0, Ok);
    ghost var t := Events(WalkChecked(buf, 0).records, s0, os, testMode, 0);
    calls := calls0;
    status := Ok;
    var k := 0;
    var n := |buf|;
    var off := 0;
    while off + HEADER_SIZE <= n
      invariant 0 <= off <= n && status == Ok
      invariant k == |WalkChecked(buf, 0).records| - |WalkChecked(buf, off).records|
      invariant WalkChecked(buf, 0).complete == WalkChecked(buf, off).complete
      invariant t == Events(WalkChecked(buf, off).records, Inputs(files[..], pollfds[..], calls, status), os, testMode, k)
      decreases n - off
    {
      if NextAt(buf, off) > n {
        assert WalkChecked(buf, off) == Walk([], false);
        assert t == Inputs(files[..], pollfds[..], calls, status);
        return calls, Fatal(RecordSize);
      }
      calls, status := HandleRecord(files, pollfds, buf, off, os, testMode, calls, k);
      k := k + 1;
      off := NextAt(buf, off);
      if status.Fatal? {
        assert t == Inputs(files[..], pollfds[..], calls, status);
        return;
      }
    }
    assert WalkChecked(buf, off) == Walk([], off == n);
    assert t == Inputs(files[..], pollfds[..], calls, status);
    if off != n {
      status := Fatal(RecordSize);
    }
  }

  /** handle_inotify: read the inotify descriptor until nothing is left and
      hand each record on to handle_inotify_event. cs are read_safe's
      results in order. */
  method HandleInotify(files: array<File>, pollfds: array<PollFd>, cs: seq<Chunk>,
                       os: nat -> nat -> nat -> Os, testMode: bool)
    returns (calls: seq<Syscall>, status: Status)
    requires pollfds.Length == files.Length + 1
    modifies files, pollfds
    ensures var s := Inputs(old(files[..]), old(pollfds[..]), [], Ok);
      Shaped(s) && Chunks(cs, s, os, testMode, 0) == Inputs(files[..], pollfds[..], calls, status)
  {
    ghost var s0 := Inputs(files[..], pollfds[..], [], Ok);
    calls := [];
    status := Ok;
    var c := 0;
    while c < |cs|
      invariant 0 <= c <= |cs| && status == Ok
      invariant Chunks(cs, s0, os, testMode, 0) == Chunks(cs[c..], Inputs(files[..], pollfds[..], calls, status), os, testMode, c)
    {
      assert cs[c..][1..] == cs[c + 1..];
      match cs[c]
      case ReadFailure(_) =>
        return calls, Fatal(ReadFailed);
      case Bytes(buf) =>
        if |buf| == 0 {
          break;
        }
        calls, status := HandleChunk(files, pollfds, buf, os(c), testMode, calls);
        if status.Fatal? {
          return;
        }
        c := c + 1;
    }
  }
}
