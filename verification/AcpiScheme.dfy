/** The ACPI scheme: a file-descriptor table over immutable byte strings. The specification is a table of
    abstract files, each a byte string and a cursor; the class below is the scheme itself. */
module AcpiScheme {
  import opened Basics
  import opened LittleEndian

  const U64: int := 0x1_0000_0000_0000_0000
  const I64: int := 0x8000_0000_0000_0000

  type Word = x: int | 0 <= x < 0x1_0000_0000_0000_0000
  type Isize = x: int | -0x8000_0000_0000_0000 <= x < 0x8000_0000_0000_0000
  /** A byte slice is never longer than the largest `isize`. */
  type Bytes = s: seq<Byte> | |s| < 0x8000_0000_0000_0000

  datatype Kind = TopLevel | RootTable | ShutdownPipe

  datatype Handle = Handle(offset: Word, kind: Kind, stat: bool)

  datatype State = State(handles: map<Word, Handle>, next: Word)

  datatype Errno = EACCES | EROFS | EINVAL | EISDIR | ENOENT | EBADF | EBADFD

  datatype Reply = Ok(value: int) | Err(error: Errno) | Panic

  /** The open flags the scheme looks at; `readOnly` is the access mode being read-only. */
  datatype OpenFlags = OpenFlags(creat: bool, excl: bool, symlink: bool, readOnly: bool, stat: bool, directory: bool)

  datatype Whence = SeekSet | SeekCur | SeekEnd | Other

  datatype Op =
    | Open(path: string, flags: OpenFlags, uid: nat)
    | Close(id: Word)
    | Write(id: Word)
    | Seek(id: Word, pos: Isize, whence: Whence)
    | Fevent(id: Word)
    | Read(id: Word, len: nat)

  /** The directory listing `rxsdt\nkstop\n`. */
  const SIGNATURE: Bytes := [114, 120, 115, 100, 116, 10, 107, 115, 116, 111, 112, 10]

  // ----- abstract files -----

  /** The bytes behind a handle; the tables may be absent. A shutdown pipe is a file of one byte. */
  function Content(tables: Option<Bytes>, kind: Kind): Option<Bytes> {
    match kind
    case TopLevel => Some(SIGNATURE)
    case RootTable => tables
    case ShutdownPipe => Some([0x42])
  }

  /** What reading `n` bytes at `offset` gives. */
  function Slice(content: Bytes, offset: nat, n: nat): (r: Bytes)
    ensures offset + |r| <= if offset < |content| then |content| else offset
  {
    content[Min(offset, |content|)..Min(offset + n, |content|)]
  }

  /** Two reads in sequence read what one longer read would. */
  lemma SliceSplits(content: Bytes, offset: nat, n: nat, m: nat)
    ensures Slice(content, offset, n) + Slice(content, offset + |Slice(content, offset, n)|, m)
      == Slice(content, offset, n + m)
  {
  }

  // ----- the specification of each operation -----

  function TrimSlashes(path: string): string {
    if path != "" && path[0] == '/' then TrimSlashes(path[1..]) else path
  }

  /** The handle an open call would create, or its error. */
  function OpenKind(path: string, flags: OpenFlags, uid: nat): (r: (Option<Kind>, Errno)) {
    if uid != 0 then (None, EACCES)
    else if flags.creat then (None, EROFS)
    else if flags.excl || flags.symlink then (None, EINVAL)
    else if !flags.readOnly && !flags.stat then (None, EROFS)
    else
      var name := TrimSlashes(path);
      if name != "" && name != "rxsdt" && name != "kstop" then (None, ENOENT)
      else if !flags.directory && !flags.stat then (None, EISDIR)
      else (Some(if name == "" then TopLevel else if name == "rxsdt" then RootTable else ShutdownPipe), EBADF)
  }

  /** Leading slashes, and nothing else, are cut off. */
  lemma {:induction false} TrimSlashesMeans(path: string)
    ensures var name := TrimSlashes(path);
      && |name| <= |path| && path[|path| - |name|..] == name && (name == "" || name[0] != '/')
      && forall i :: 0 <= i < |path| - |name| ==> path[i] == '/'
  {
    if path != "" && path[0] == '/' {
      var rest, name := path[1..], TrimSlashes(path);
      TrimSlashesMeans(rest);
      assert path[|path| - |name|..] == rest[|rest| - |name|..];
      assert forall i :: 0 < i < |path| - |name| ==> path[i] == rest[i - 1];
    }
  }

  /** Who may open what: root only, no creation, read-only or for status, and always as a directory or for status. */
  lemma OpenGrantedIff(path: string, flags: OpenFlags, uid: nat)
    ensures OpenKind(path, flags, uid).0.Some? <==>
      && uid == 0 && !flags.creat && !flags.excl && !flags.symlink
      && (flags.stat || (flags.readOnly && flags.directory))
      && TrimSlashes(path) in {"", "rxsdt", "kstop"}
  {
  }

  /** Which error an open call gets, if any. */
  lemma OpenReplies(tables: Option<Bytes>, s: State, path: string, flags: OpenFlags, uid: nat)
    ensures
      var reply := Step(tables, s, Open(path, flags, uid)).1;
      var known := TrimSlashes(path) in {"", "rxsdt", "kstop"};
      var allowed := uid == 0 && !flags.creat && !flags.excl && !flags.symlink && (flags.readOnly || flags.stat);
      && (reply == Err(EACCES) <==> uid != 0)
      && (reply == Err(EINVAL) <==> uid == 0 && !flags.creat && (flags.excl || flags.symlink))
      && (reply == Err(EROFS) <==>
            uid == 0 && (flags.creat || (!flags.excl && !flags.symlink && !flags.readOnly && !flags.stat)))
      && (reply == Err(ENOENT) <==> allowed && !known)
      && (reply == Err(EISDIR) <==> allowed && known && !flags.directory && !flags.stat)
      && (reply == Ok(s.next) <==> allowed && known && (flags.directory || flags.stat))
  {
  }

  /** The offset a seek asks for; `None` is `EINVAL`. */
  function SeekTarget(offset: Word, length: Word, pos: Isize, whence: Whence): Option<Word>
  {
    match whence
    case SeekSet => Some(if pos < 0 then U64 + pos else pos)
    case SeekCur =>
      if pos < 0 then if 0 <= offset + pos then Some(offset + pos) else None
      else Some(Min(offset + pos, U64 - 1))
    case SeekEnd =>
      if pos < 0 then if 0 <= length + pos then Some(length + pos) else None
      else Some(length)
    case Other => None
  }

  /** `offset as isize`. */
  function AsIsize(offset: Word): Isize {
    if offset < I64 then offset else offset - U64
  }

  /** The state after an operation, its reply, and the bytes it delivers. */
  function Step(tables: Option<Bytes>, s: State, op: Op): (State, Reply, Bytes) {
    match op
    case Open(path, flags, uid) =>
      var (kind, error) := OpenKind(path, flags, uid);
      if kind.None? then (s, Err(error), [])
      else (State(s.handles[s.next := Handle(0, kind.value, flags.stat)], (s.next + 1) % U64), Ok(s.next), [])
    case Close(id) =>
      if id in s.handles then (s.(handles := s.handles - {id}), Ok(0), []) else (s, Err(EBADF), [])
    case Write(_) => (s, Err(EBADF), [])
    case Fevent(id) =>
      (s, if id in s.handles && !s.handles[id].stat then Ok(0) else Err(EBADF), [])
    case Seek(id, pos, whence) =>
      if id !in s.handles || s.handles[id].stat then (s, Err(EBADF), [])
      else
        var h := s.handles[id];
        var content := Content(tables, h.kind);
        if content.None? || (pos == -I64 && (whence == SeekCur || whence == SeekEnd)) then (s, Panic, [])
        else
          var target := SeekTarget(h.offset, |content.value|, pos, whence);
          if target.None? then (s, Err(EINVAL), [])
          else (s.(handles := s.handles[id := h.(offset := target.value)]), Ok(AsIsize(target.value)), [])
    case Read(id, len) =>
      if id !in s.handles then (s, Err(EBADF), [])
      else
        var h := s.handles[id];
        var content := Content(tables, h.kind);
        if content.None? then (s, Err(EBADFD), [])
        else
          var bytes := Slice(content.value, h.offset, len);
          (s.(handles := s.handles[id := h.(offset := h.offset + |bytes|)]), Ok(|bytes|), bytes)
  }

  // ----- runs -----

  /** Every open descriptor was handed out before. */
  ghost predicate Valid(s: State) {
    forall fd :: fd in s.handles ==> fd < s.next
  }

  function Opens(ops: seq<Op>): nat {
    if ops == [] then 0 else (if ops[0].Open? then 1 else 0) + Opens(ops[1..])
  }

  /** The run stays below 2^64 opens in all, so `NEXT` does not wrap. */
  ghost predicate NoWrap(s: State, ops: seq<Op>) {
    s.next + Opens(ops) < U64
  }

  function Target(op: Op): Option<Word> {
    if op.Open? then None else Some(op.id)
  }

  function Final(tables: Option<Bytes>, s: State, ops: seq<Op>): State
    decreases |ops|
  {
    if ops == [] then s else Final(tables, Step(tables, s, ops[0]).0, ops[1..])
  }

  function Replies(tables: Option<Bytes>, s: State, ops: seq<Op>): (r: seq<Reply>)
    ensures |r| == |ops|
    decreases |ops|
  {
    if ops == [] then []
    else
      var (after, reply, _) := Step(tables, s, ops[0]);
      [reply] + Replies(tables, after, ops[1..])
  }

  /** One operation keeps the table valid, and touches no handle but its own. */
  lemma StepFrame(tables: Option<Bytes>, s: State, op: Op, fd: Word)
    requires Valid(s) && NoWrap(s, [op])
    ensures var after := Step(tables, s, op).0;
      && Valid(after) && s.next <= after.next <= s.next + Opens([op])
      && (Target(op) != Some(fd) && fd < s.next ==>
            (fd in after.handles <==> fd in s.handles) && (fd in s.handles ==> after.handles[fd] == s.handles[fd]))
      && (Step(tables, s, op).1.Err? ==> after == s)
  {
  }

  lemma OpensSplits(op: Op, ops: seq<Op>)
    ensures Opens([op] + ops) == Opens([op]) + Opens(ops)
  {
    assert ([op] + ops)[1..] == ops;
  }

  /** The bytes a run delivers through one descriptor. */
  function Delivered(tables: Option<Bytes>, s: State, ops: seq<Op>, fd: Word): seq<Byte>
    decreases |ops|
  {
    if ops == [] then []
    else
      var (after, _, bytes) := Step(tables, s, ops[0]);
      (if Target(ops[0]) == Some(fd) then bytes else []) + Delivered(tables, after, ops[1..], fd)
  }

  /** The buffer space offered to one descriptor. */
  function Offered(ops: seq<Op>, fd: Word): nat {
    if ops == [] then 0 else OfferedBy(ops[0], fd) + Offered(ops[1..], fd)
  }

  /** No operation of the run seeks or closes the descriptor. */
  ghost predicate Undisturbed(ops: seq<Op>, fd: Word) {
    forall i :: 0 <= i < |ops| && Target(ops[i]) == Some(fd) ==> !ops[i].Seek? && !ops[i].Close?
  }

  function OfferedBy(op: Op, fd: Word): nat {
    if op.Read? && op.id == fd then op.len else 0
  }

  /** One operation, seen by an open descriptor it neither seeks nor closes, is a read of what it offers. */
  lemma ReadStep(tables: Option<Bytes>, s: State, op: Op, fd: Word)
    requires Valid(s) && NoWrap(s, [op]) && Undisturbed([op], fd)
    requires fd in s.handles && Content(tables, s.handles[fd].kind).Some?
    ensures
      var h, content := s.handles[fd], Content(tables, s.handles[fd].kind).value;
      var (after, _, bytes) := Step(tables, s, op);
      var slice := Slice(content, h.offset, OfferedBy(op, fd));
      && Valid(after) && after.next <= s.next + Opens([op])
      && (if Target(op) == Some(fd) then bytes else []) == slice
      && fd in after.handles && after.handles[fd] == h.(offset := h.offset + |slice|)
  {
    assert [op][0] == op;
  }

  /** Whatever happens on other descriptors in between, reads on one descriptor deliver the file's bytes from its
      offset on, in order, without gap or repetition, up to the space offered or the end of the file. */
  lemma {:induction false} ReadsConcatenate(tables: Option<Bytes>, s: State, ops: seq<Op>, fd: Word)
    requires Valid(s) && NoWrap(s, ops) && Undisturbed(ops, fd)
    requires fd in s.handles && Content(tables, s.handles[fd].kind).Some?
    ensures
      var h, content := s.handles[fd], Content(tables, s.handles[fd].kind).value;
      var after := Final(tables, s, ops).handles;
      && Delivered(tables, s, ops, fd) == Slice(content, h.offset, Offered(ops, fd))
      && fd in after && after[fd] == h.(offset := h.offset + |Slice(content, h.offset, Offered(ops, fd))|)
    decreases |ops|
  {
    hide Step, Slice, Content;
    SliceNone(tables, s, fd);
    if ops != [] {
      var h, content := s.handles[fd], Content(tables, s.handles[fd].kind).value;
      var op, rest := ops[0], ops[1..];
      assert ops == [op] + rest;
      OpensSplits(op, rest);
      ReadStep(tables, s, op, fd);
      ReadsConcatenate(tables, Step(tables, s, op).0, rest, fd);
      SliceSplits(content, h.offset, OfferedBy(op, fd), Offered(rest, fd));
    }
  }

  lemma SliceNone(tables: Option<Bytes>, s: State, fd: Word)
    requires fd in s.handles && Content(tables, s.handles[fd].kind).Some?
    ensures Slice(Content(tables, s.handles[fd].kind).value, s.handles[fd].offset, 0) == []
  {
  }

  /** Once the space offered reaches the end of the file, reads deliver nothing more;
      in particular a shutdown pipe delivers at most one byte between seeks. */
  lemma ReadsEnd(tables: Option<Bytes>, s: State, ops: seq<Op>, fd: Word, len: nat)
    requires Valid(s) && NoWrap(s, ops) && Undisturbed(ops, fd)
    requires fd in s.handles && Content(tables, s.handles[fd].kind).Some?
    ensures s.handles[fd].kind.ShutdownPipe? ==> |Delivered(tables, s, ops, fd)| <= 1
    ensures s.handles[fd].offset + Offered(ops, fd) >= |Content(tables, s.handles[fd].kind).value| ==>
      Step(tables, Final(tables, s, ops), Read(fd, len)).1 == Ok(0)
  {
    ReadsConcatenate(tables, s, ops, fd);
  }

  /** A seek from the start followed by a read is a slice; a negative position lands beyond every file. */
  lemma SeekThenRead(tables: Option<Bytes>, s: State, fd: Word, pos: Isize, len: nat)
    requires fd in s.handles && !s.handles[fd].stat && Content(tables, s.handles[fd].kind).Some?
    ensures
      var content := Content(tables, s.handles[fd].kind).value;
      var (sought, reply, _) := Step(tables, s, Seek(fd, pos, SeekSet));
      && reply == Ok(pos)
      && Step(tables, sought, Read(fd, len)).2
      == if pos >= 0 then Slice(content, pos, len) else []
  {
    hide Slice, Content;
    if pos < 0 {
      SliceBeyond(Content(tables, s.handles[fd].kind).value, U64 + pos, len);
    }
  }

  lemma SliceBeyond(content: Bytes, offset: nat, len: nat)
    requires offset >= |content|
    ensures Slice(content, offset, len) == []
  {
  }

  /** Seeking back by what a read delivered undoes the read. */
  lemma SeekBackUndoesRead(tables: Option<Bytes>, s: State, fd: Word, len: nat)
    requires fd in s.handles && !s.handles[fd].stat && Content(tables, s.handles[fd].kind).Some?
    ensures
      var (after, _, bytes) := Step(tables, s, Read(fd, len));
      Step(tables, after, Seek(fd, -|bytes|, SeekCur)).0 == s
  {
    hide Slice, Content, OpenKind;
    var (after, _, bytes) := Step(tables, s, Read(fd, len));
    var back := Step(tables, after, Seek(fd, -|bytes|, SeekCur)).0;
    assert back.handles == s.handles[fd := s.handles[fd]] == s.handles;
  }

  /** Seeking to `k` bytes before the end and reading delivers the last `k` bytes; beyond the start is `EINVAL`. */
  lemma SeekEndThenRead(tables: Option<Bytes>, s: State, fd: Word, k: int, len: nat)
    requires fd in s.handles && !s.handles[fd].stat && Content(tables, s.handles[fd].kind).Some?
    requires 0 <= k < I64 && len >= k
    ensures
      var content := Content(tables, s.handles[fd].kind).value;
      var (sought, reply, _) := Step(tables, s, Seek(fd, -k, SeekEnd));
      if k <= |content| then
        reply == Ok(|content| - k) && Step(tables, sought, Read(fd, len)).2 == content[|content| - k..]
      else reply == Err(EINVAL) && sought == s
  {
    hide Slice, Content;
    SliceEnd(Content(tables, s.handles[fd].kind).value, k, len);
  }

  /** A seek relative to the cursor followed by a read is a slice, also where the cursor saturates; a seek to before
      the start is `EINVAL` and changes nothing. */
  lemma SeekCurThenRead(tables: Option<Bytes>, s: State, fd: Word, pos: Isize, len: nat)
    requires fd in s.handles && !s.handles[fd].stat && Content(tables, s.handles[fd].kind).Some? && pos > -I64
    ensures
      var h, content := s.handles[fd], Content(tables, s.handles[fd].kind).value;
      var (sought, reply, _) := Step(tables, s, Seek(fd, pos, SeekCur));
      if h.offset + pos >= 0 then
        reply.Ok? && Step(tables, sought, Read(fd, len)).2 == Slice(content, h.offset + pos, len)
      else reply == Err(EINVAL) && sought == s
  {
    hide Slice, Content, OpenKind;
    var h, content := s.handles[fd], Content(tables, s.handles[fd].kind).value;
    if h.offset + pos >= U64 - 1 {
      SliceBeyond(content, h.offset + pos, len);
      SliceBeyond(content, U64 - 1, len);
    }
  }

  /** A seek to the end or, as the scheme has it, to anywhere behind it. */
  lemma SeekPastEnd(tables: Option<Bytes>, s: State, fd: Word, pos: Isize, len: nat)
    requires fd in s.handles && !s.handles[fd].stat && Content(tables, s.handles[fd].kind).Some? && pos >= 0
    ensures
      var (sought, reply, _) := Step(tables, s, Seek(fd, pos, SeekEnd));
      reply == Ok(|Content(tables, s.handles[fd].kind).value|) && Step(tables, sought, Read(fd, len)).1 == Ok(0)
  {
    hide Slice, Content, OpenKind;
    var content := Content(tables, s.handles[fd].kind).value;
    SliceBeyond(content, |content|, len);
  }

  /** Which seeks fail on an open handle: none moves a handle opened for status; a missing table and the negation of
      the smallest position panic; everything before the start and every other origin is `EINVAL`. */
  lemma SeekReplies(tables: Option<Bytes>, s: State, fd: Word, pos: Isize, whence: Whence)
    requires fd in s.handles
    ensures
      var h := s.handles[fd];
      var (after, reply, _) := Step(tables, s, Seek(fd, pos, whence));
      var absent := h.kind == RootTable && tables.None?;
      var least := pos == -0x8000_0000_0000_0000 && (whence == SeekCur || whence == SeekEnd);
      && (reply == Err(EBADF) <==> h.stat)
      && (reply == Panic <==> !h.stat && (absent || least))
      && (reply == Err(EINVAL) <==>
            && !h.stat && !absent && !least
            && (|| whence == Other
                || (whence == SeekCur && h.offset + pos < 0)
                || (whence == SeekEnd && |Content(tables, h.kind).value| + pos < 0)))
      && (reply.Ok? || after == s)
  {
  }

  /** Which reads fail: those of a closed descriptor, and those of the tables when there are none. */
  lemma ReadReplies(tables: Option<Bytes>, s: State, fd: Word, len: nat)
    ensures
      var (_, reply, bytes) := Step(tables, s, Read(fd, len));
      && (reply == Err(EBADF) <==> fd !in s.handles)
      && (reply == Err(EBADFD) <==> fd in s.handles && s.handles[fd].kind == RootTable && tables.None?)
      && (reply == Ok(|bytes|) <==> fd in s.handles && !(s.handles[fd].kind == RootTable && tables.None?))
  {
  }

  lemma SliceEnd(content: Bytes, k: nat, len: nat)
    requires len >= k
    ensures k <= |content| ==> Slice(content, |content| - k, len) == content[|content| - k..]
  {
  }

  // ----- descriptors are never reused -----

  /** A descriptor that was handed out and is closed stays closed: every later operation on it fails with `EBADF`. */
  lemma {:induction false} ClosedStaysClosed(tables: Option<Bytes>, s: State, ops: seq<Op>, fd: Word, i: nat)
    requires Valid(s) && NoWrap(s, ops) && fd < s.next && fd !in s.handles
    requires i < |ops| && Target(ops[i]) == Some(fd)
    ensures Replies(tables, s, ops)[i] == Err(EBADF)
    decreases |ops|
  {
    var op, rest := ops[0], ops[1..];
    assert ops == [op] + rest;
    OpensSplits(op, rest);
    StepFrame(tables, s, op, fd);
    if i > 0 {
      ClosedStaysClosed(tables, Step(tables, s, op).0, rest, fd, i - 1);
    }
  }

  /** A close succeeds exactly on an open descriptor, and takes it away. */
  lemma CloseReplies(tables: Option<Bytes>, s: State, fd: Word)
    ensures
      var (after, reply, _) := Step(tables, s, Close(fd));
      && reply == (if fd in s.handles then Ok(0) else Err(EBADF))
      && fd !in after.handles
  {
  }

  /** From a successful close on, every operation on the descriptor fails with `EBADF`, in every run. */
  lemma {:induction false} ClosedForGood(tables: Option<Bytes>, s: State, ops: seq<Op>, c: nat, j: nat)
    requires Valid(s) && NoWrap(s, ops) && c < j < |ops|
    requires ops[c].Close? && Replies(tables, s, ops)[c].Ok? && Target(ops[j]) == Some(ops[c].id)
    ensures Replies(tables, s, ops)[c] == Ok(0) && Replies(tables, s, ops)[j] == Err(EBADF)
    decreases |ops|
  {
    hide Step, OpenKind;
    var op, rest := ops[0], ops[1..];
    assert ops == [op] + rest;
    OpensSplits(op, rest);
    StepFrame(tables, s, op, 0);
    var after := Step(tables, s, op).0;
    if c > 0 {
      ClosedForGood(tables, after, rest, c - 1, j - 1);
    } else {
      CloseReplies(tables, s, op.id);
      ClosedStaysClosed(tables, after, rest, op.id, j - 1);
    }
  }

  // ----- from an open call on -----

  /** No operation of the run closes the descriptor. */
  ghost predicate NotClosed(ops: seq<Op>, fd: Word) {
    forall i :: 0 <= i < |ops| ==> ops[i] != Close(fd)
  }

  lemma KeepStep(tables: Option<Bytes>, s: State, op: Op, fd: Word)
    requires Valid(s) && NoWrap(s, [op]) && fd in s.handles && op != Close(fd)
    ensures
      var after := Step(tables, s, op).0;
      && Valid(after) && after.next <= s.next + Opens([op])
      && fd in after.handles && after.handles[fd].kind == s.handles[fd].kind
      && after.handles[fd].stat == s.handles[fd].stat
  {
    StepFrame(tables, s, op, fd);
  }

  /** A descriptor that is not closed stays open for the same file and with the same status flag. */
  lemma {:induction false} HandleKept(tables: Option<Bytes>, s: State, ops: seq<Op>, fd: Word)
    requires Valid(s) && NoWrap(s, ops) && fd in s.handles && NotClosed(ops, fd)
    ensures
      var after := Final(tables, s, ops).handles;
      fd in after && after[fd].kind == s.handles[fd].kind && after[fd].stat == s.handles[fd].stat
    decreases |ops|
  {
    hide Step, OpenKind;
    if ops != [] {
      var op, rest := ops[0], ops[1..];
      assert ops == [op] + rest;
      OpensSplits(op, rest);
      KeepStep(tables, s, op, fd);
      HandleKept(tables, Step(tables, s, op).0, rest, fd);
    }
  }

  /** A granted open takes the counter as its descriptor, with the cursor at the start. */
  lemma OpenStep(tables: Option<Bytes>, s: State, path: string, flags: OpenFlags, uid: nat)
    requires Valid(s) && s.next + 1 < U64 && Step(tables, s, Open(path, flags, uid)).1.Ok?
    ensures
      var (after, reply, _) := Step(tables, s, Open(path, flags, uid));
      && reply == Ok(s.next) && Valid(after) && after.next == s.next + 1 && s.next in after.handles
      && after.handles[s.next].offset == 0 && (after.handles[s.next].stat <==> flags.stat)
      && Content(tables, after.handles[s.next].kind) ==
         if TrimSlashes(path) == "" then Some([114, 120, 115, 100, 116, 10, 107, 115, 116, 111, 112, 10])
         else if TrimSlashes(path) == "rxsdt" then tables
         else Some([0x42])
  {
  }

  /** After a granted open, whatever happens on other descriptors, reads deliver from byte 0 on the listing of the
      directory, the tables, or the one byte of the shutdown pipe, by the name that was opened. */
  lemma OpenThenRead(tables: Option<Bytes>, s: State, path: string, flags: OpenFlags, uid: nat, ops: seq<Op>)
    requires Valid(s) && NoWrap(s, [Open(path, flags, uid)] + ops)
    requires Step(tables, s, Open(path, flags, uid)).1.Ok? && Undisturbed(ops, s.next)
    requires TrimSlashes(path) == "rxsdt" ==> tables.Some?
    ensures
      var file := if TrimSlashes(path) == "" then [114, 120, 115, 100, 116, 10, 107, 115, 116, 111, 112, 10]
                  else if TrimSlashes(path) == "rxsdt" then tables.value
                  else [0x42];
      Delivered(tables, Step(tables, s, Open(path, flags, uid)).0, ops, s.next)
      == file[..Min(Offered(ops, s.next), |file|)]
  {
    hide Step, OpenKind, Content, TrimSlashes;
    OpensSplits(Open(path, flags, uid), ops);
    OpenStep(tables, s, path, flags, uid);
    ReadsConcatenate(tables, Step(tables, s, Open(path, flags, uid)).0, ops, s.next);
  }

  /** A descriptor opened for its status can neither be sought nor polled, in any run that does not close it; one
      opened without can be polled. */
  lemma StatusOnly(tables: Option<Bytes>, s: State, path: string, flags: OpenFlags, uid: nat, ops: seq<Op>,
                   pos: Isize, whence: Whence)
    requires Valid(s) && NoWrap(s, [Open(path, flags, uid)] + ops)
    requires Step(tables, s, Open(path, flags, uid)).1.Ok? && NotClosed(ops, s.next)
    ensures
      var later := Final(tables, Step(tables, s, Open(path, flags, uid)).0, ops);
      && Step(tables, later, Fevent(s.next)).1 == (if flags.stat then Err(EBADF) else Ok(0))
      && (Step(tables, later, Seek(s.next, pos, whence)).1 == Err(EBADF) <==> flags.stat)
  {
    hide OpenKind, Content, TrimSlashes, SeekTarget, Final;
    OpensSplits(Open(path, flags, uid), ops);
    OpenStep(tables, s, path, flags, uid);
    HandleKept(tables, Step(tables, s, Open(path, flags, uid)).0, ops, s.next);
  }

  /** The successful opens of a run return `NEXT`, `NEXT + 1` and so on, whatever happens in between. */
  lemma {:induction false} OpensCountUp(tables: Option<Bytes>, s: State, ops: seq<Op>, i: nat)
    requires Valid(s) && NoWrap(s, ops)
    requires i < |ops| && ops[i].Open? && Replies(tables, s, ops)[i].Ok?
    ensures Replies(tables, s, ops)[i].value == s.next + Granted(tables, s, ops[..i])
    decreases |ops|
  {
    var op, rest := ops[0], ops[1..];
    assert ops == [op] + rest;
    OpensSplits(op, rest);
    StepFrame(tables, s, op, 0);
    if i > 0 {
      OpensCountUp(tables, Step(tables, s, op).0, rest, i - 1);
      assert ops[..i][1..] == rest[..i - 1];
    }
  }

  /** The number of successful opens in a run. */
  function Granted(tables: Option<Bytes>, s: State, ops: seq<Op>): nat
    decreases |ops|
  {
    if ops == [] then 0
    else
      var (after, reply, _) := Step(tables, s, ops[0]);
      (if ops[0].Open? && reply.Ok? then 1 else 0) + Granted(tables, after, ops[1..])
  }

  lemma {:induction false} GrantedGrows(tables: Option<Bytes>, s: State, ops: seq<Op>, i: nat, j: nat)
    requires i < j <= |ops| && ops[i].Open? && Replies(tables, s, ops)[i].Ok?
    ensures Granted(tables, s, ops[..i]) < Granted(tables, s, ops[..j])
    decreases |ops|
  {
    assert ops[..j][0] == ops[0] && ops[..j][1..] == ops[1..][..j - 1];
    if i > 0 {
      assert ops[..i][0] == ops[0] && ops[..i][1..] == ops[1..][..i - 1];
      GrantedGrows(tables, Step(tables, s, ops[0]).0, ops[1..], i - 1, j - 1);
    }
  }

  /** No descriptor is returned twice in a run of fewer than 2^64 opens. */
  lemma FreshDescriptors(tables: Option<Bytes>, s: State, ops: seq<Op>, i: nat, j: nat)
    requires Valid(s) && NoWrap(s, ops) && i < j < |ops| && ops[i].Open? && ops[j].Open?
    requires Replies(tables, s, ops)[i].Ok? && Replies(tables, s, ops)[j].Ok?
    ensures Replies(tables, s, ops)[i].value < Replies(tables, s, ops)[j].value
  {
    OpensCountUp(tables, s, ops, i);
    OpensCountUp(tables, s, ops, j);
    GrantedGrows(tables, s, ops, i, j);
  }

  // ----- the scheme -----

  lemma PipeSlice(offset: nat, n: nat)
    ensures Slice([0x42], offset, n) == if n == 0 || offset >= 1 then [] else [0x42]
  {
  }

  class Scheme {
    const tables: Option<Bytes>
    var handles: map<Word, Handle>
    var next: Word

    function Abs(): State
      reads this
    {
      State(handles, next)
    }

    constructor (tables: Option<Bytes>)
      ensures this.tables == tables && Abs() == State(map[], 0) && Valid(Abs())
    {
      this.tables, handles, next := tables, map[], 0;
    }

    method TrimStart(path: string) returns (r: string)
      ensures r == TrimSlashes(path)
    {
      r := path;
      while r != "" && r[0] == '/'
        invariant TrimSlashes(r) == TrimSlashes(path)
        decreases |r|
      {
        r := r[1..];
      }
    }

    method Open(path: string, flags: OpenFlags, uid: nat) returns (r: Reply)
      modifies this
      ensures var (after, reply, _) := Step(tables, old(Abs()), Op.Open(path, flags, uid));
        Abs() == after && r == reply
    {
      var name := TrimStart(path);
      if uid != 0 {
        return Err(EACCES);
      }
      if flags.creat {
        return Err(EROFS);
      }
      if flags.excl || flags.symlink {
        return Err(EINVAL);
      }
      if !flags.readOnly && !flags.stat {
        return Err(EROFS);
      }
      var kind;
      if name == "" {
        if !flags.directory && !flags.stat {
          return Err(EISDIR);
        }
        kind := TopLevel;
      } else if name == "rxsdt" {
        if !flags.directory && !flags.stat {
          return Err(EISDIR);
        }
        kind := RootTable;
      } else if name == "kstop" {
        if !flags.directory && !flags.stat {
          return Err(EISDIR);
        }
        kind := ShutdownPipe;
      } else {
        return Err(ENOENT);
      }
      var fd := next;
      next := (next + 1) % U64;
      handles := handles[fd := Handle(0, kind, flags.stat)];
      return Ok(fd);
    }

    method Close(id: Word) returns (r: Reply)
      modifies this
      ensures var (after, reply, _) := Step(tables, old(Abs()), Op.Close(id));
        Abs() == after && r == reply
      ensures id !in handles && r == if id in old(handles) then Ok(0) else Err(EBADF)
    {
      if id !in handles {
        return Err(EBADF);
      }
      handles := handles - {id};
      return Ok(0);
    }

    method Write(id: Word) returns (r: Reply)
      ensures r == Step(tables, Abs(), Op.Write(id)).1 == Err(EBADF)
    {
      return Err(EBADF);
    }

    method Fevent(id: Word) returns (r: Reply)
      ensures r == Step(tables, Abs(), Op.Fevent(id)).1
    {
      if id !in handles {
        return Err(EBADF);
      }
      if handles[id].stat {
        return Err(EBADF);
      }
      return Ok(0);
    }

    method Seek(id: Word, pos: Isize, whence: Whence) returns (r: Reply)
      modifies this
      ensures var (after, reply, _) := Step(tables, old(Abs()), Op.Seek(id, pos, whence));
        Abs() == after && r == reply
    {
      if id !in handles {
        return Err(EBADF);
      }
      var handle := handles[id];
      if handle.stat {
        return Err(EBADF);
      }
      var flen;
      match handle.kind {
        case TopLevel => flen := |SIGNATURE|;
        case RootTable =>
          if tables.None? {
            return Panic;
          }
          flen := |tables.value|;
        case ShutdownPipe => flen := 1;
      }
      var offset;
      match whence {
        case SeekSet => offset := if pos < 0 then U64 + pos else pos;
        case SeekCur =>
          if pos < 0 {
            if pos == -I64 {
              return Panic;
            }
            if handle.offset + pos < 0 {
              return Err(EINVAL);
            }
            offset := handle.offset + pos;
          } else {
            offset := if handle.offset + pos < U64 then handle.offset + pos else U64 - 1;
          }
        case SeekEnd =>
          if pos < 0 {
            if pos == -I64 {
              return Panic;
            }
            if flen + pos < 0 {
              return Err(EINVAL);
            }
            offset := flen + pos;
          } else {
            offset := flen;
          }
        case Other => return Err(EINVAL);
      }
      handles := handles[id := handle.(offset := offset)];
      return Ok(AsIsize(offset));
    }

    /** The copy at the end of `read`. */
    method CopyOut(data: Bytes, offset: Word, buf: array<Byte>) returns (count: Word)
      modifies buf
      ensures count == |Slice(data, offset, buf.Length)|
      ensures buf[..] == Slice(data, offset, buf.Length) + old(buf[..])[count..]
    {
      var srcOffset := Min(offset, |data|);
      var src := data[srcOffset..];
      count := Min(buf.Length, |src|);
      assert src[..count] == Slice(data, offset, buf.Length);
      forall i | 0 <= i < count {
        buf[i] := src[i];
      }
    }

    /** The shutdown pipe; the wait for the shutdown flag is taken to have ended. */
    method PipeOut(offset: Word, buf: array<Byte>) returns (count: Word)
      modifies buf
      ensures count == |Slice([0x42], offset, buf.Length)| <= 1 && (count == 1 ==> offset == 0)
      ensures buf[..] == Slice([0x42], offset, buf.Length) + old(buf[..])[count..]
    {
      PipeSlice(offset, buf.Length);
      if buf.Length == 0 || offset >= 1 {
        return 0;
      }
      buf[0] := 0x42;
      return 1;
    }

    method Read(id: Word, buf: array<Byte>) returns (r: Reply)
      modifies this, buf
      ensures
        var (after, reply, bytes) := Step(tables, old(Abs()), Op.Read(id, buf.Length));
        Abs() == after && r == reply && |bytes| <= buf.Length && buf[..] == bytes + old(buf[..])[|bytes|..]
    {
      hide Slice;
      if id !in handles {
        return Err(EBADF);
      }
      var handle := handles[id];
      var data;
      match handle.kind {
        case TopLevel => data := SIGNATURE;
        case RootTable =>
          if tables.None? {
            return Err(EBADFD);
          }
          data := tables.value;
        case ShutdownPipe =>
          var sent := PipeOut(handle.offset, buf);
          if sent == 0 {
            assert handles[id := handle] == handles;
            return Ok(0);
          }
          handles := handles[id := handle.(offset := 1)];
          return Ok(1);
      }
      var count := CopyOut(data, handle.offset, buf);
      handles := handles[id := handle.(offset := handle.offset + count)];
      return Ok(count);
    }
  }
}
