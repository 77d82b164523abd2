/**
 The permission table of practicum2/server.c and the WRITE requests that race on it. Each call of
 get_file_permission and set_file_permission is atomic; one WRITE makes up to three of them, and any
 number of client threads interleave in any order.
 */
module Permissions {
  import opened Wrappers

  const MAX_FILES: nat := 100
  const MAX_NAME: nat := 255

  datatype Permission = ReadWrite | ReadOnly

  datatype FileMeta = FileMeta(filename: string, perm: Permission)

  /** strncpy into the 256-byte field keeps at most 255 characters of a path. */
  function Truncated(path: string): string {
    if |path| <= MAX_NAME then path else path[..MAX_NAME]
  }

  /** The first entry whose name is the path. */
  function Lookup(files: seq<FileMeta>, path: string): Option<Permission> {
    if files == [] then None
    else if files[0].filename == path then Some(files[0].perm)
    else Lookup(files[1..], path)
  }

  function PermissionOf(files: seq<FileMeta>, path: string): Permission {
    match Lookup(files, path) case Some(p) => p case None => ReadWrite
  }

  /** An entry, once there, stays; a full table takes no new one. */
  function Recorded(files: seq<FileMeta>, path: string, p: Permission): seq<FileMeta> {
    if Lookup(files, path).Some? || |files| >= MAX_FILES then files else files + [FileMeta(Truncated(path), p)]
  }

  lemma {:induction false} LookupAppend(files: seq<FileMeta>, more: seq<FileMeta>, path: string)
    ensures Lookup(files + more, path) ==
            if Lookup(files, path).Some? then Lookup(files, path) else Lookup(more, path)
  {
    if files == [] {
      assert files + more == more;
    } else {
      assert (files + more)[1..] == files[1..] + more;
      LookupAppend(files[1..], more, path);
    }
  }

  /** The lookup is the permission of the first entry of that name. */
  lemma {:induction false} LookupFirst(files: seq<FileMeta>, path: string)
    ensures Lookup(files, path).Some? <==> exists i :: 0 <= i < |files| && files[i].filename == path
    ensures forall i :: 0 <= i < |files| && files[i].filename == path ==>
              (forall j :: 0 <= j < i ==> files[j].filename != path) ==> Lookup(files, path) == Some(files[i].perm)
  {
    if files == [] {
    } else {
      var rest := files[1..];
      LookupFirst(rest, path);
      assert forall i :: 0 < i < |files| ==> files[i] == rest[i - 1];
      assert forall i :: 0 <= i < |rest| ==> rest[i] == files[i + 1];
      if files[0].filename != path {
        forall i | 0 <= i < |files| && files[i].filename == path &&
          (forall j :: 0 <= j < i ==> files[j].filename != path)
          ensures Lookup(files, path) == Some(files[i].perm)
        {
          assert rest[i - 1].filename == path && forall j :: 0 <= j < i - 1 ==> rest[j].filename != path;
        }
      }
    }
  }

  // ----- The table in place

  class FileTable {
    var files: array<FileMeta>
    var count: nat

    ghost predicate Valid()
      reads this, files
    {
      files.Length == MAX_FILES && count <= MAX_FILES && NamesFit(files[..count])
    }

    ghost function Entries(): seq<FileMeta>
      reads this, files
      requires Valid()
    {
      files[..count]
    }

    constructor ()
      ensures Valid() && Entries() == [] && fresh(files)
    {
      files := new FileMeta[MAX_FILES](_ => FileMeta("", ReadWrite));
      count := 0;
    }

    method GetFilePermission(path: string) returns (p: Permission)
      requires Valid()
      ensures p == PermissionOf(Entries(), path)
      ensures forall i :: 0 <= i < |Entries()| && Entries()[i].filename == path ==>
                (forall j :: 0 <= j < i ==> Entries()[j].filename != path) ==> p == Entries()[i].perm
      ensures (forall i :: 0 <= i < |Entries()| ==> Entries()[i].filename != path) ==> p == ReadWrite
    {
      LookupFirst(Entries(), path);
      for i := 0 to count
        invariant Lookup(Entries(), path) == Lookup(Entries()[i..], path)
      {
        if files[i].filename == path {
          return files[i].perm;
        }
        assert Entries()[i..][1..] == Entries()[i + 1..];
      }
      p := ReadWrite;
    }

    method SetFilePermission(path: string, p: Permission)
      requires Valid()
      modifies this, files
      ensures Valid() && files == old(files)
      ensures Entries() == Recorded(old(Entries()), path, p)
      ensures var before := old(Entries());
              Entries() ==
              if (exists i :: 0 <= i < |before| && before[i].filename == path) || |before| == 100 then before
              else before + [FileMeta(if |path| <= 255 then path else path[..255], p)]
    {
      LookupFirst(Entries(), path);
      for i := 0 to count
        invariant Lookup(Entries(), path) == Lookup(Entries()[i..], path)
        invariant count == old(count) && files == old(files) && files[..] == old(files[..])
      {
        if files[i].filename == path {
          return;
        }
        assert Entries()[i..][1..] == Entries()[i + 1..];
      }
      if count < MAX_FILES {
        files[count] := FileMeta(Truncated(path), p);
        count := count + 1;
      }
    }
  }

  // ----- The permission argument

  function Upper(c: char): char {
    if 'a' <= c <= 'z' then (c as int - 32) as char else c
  }

  /** strcasecmp(s, t) == 0 */
  predicate SameIgnoringCase(s: string, t: string) {
    |s| == |t| && forall i :: 0 <= i < |s| ==> Upper(s[i]) == Upper(t[i])
  }

  function ParsePerm(s: Option<string>): Permission {
    if s.Some? && SameIgnoringCase(s.value, "RO") then ReadOnly else ReadWrite
  }

  // ----- WRITE requests

  /** The next call handle_write makes on the table, or its answer. */
  datatype Stage = First | Record | Second | Accepted | Rejected

  datatype Request = Request(path: string, permission: Option<string>, stage: Stage)

  datatype State = State(files: seq<FileMeta>, requests: seq<Request>)

  predicate Pending(s: State, i: nat) {
    i < |s.requests| && !s.requests[i].stage.Accepted? && !s.requests[i].stage.Rejected?
  }

  function Goto(s: State, i: nat, stage: Stage): State
    requires i < |s.requests|
  {
    s.(requests := s.requests[i := s.requests[i].(stage := stage)])
  }

  /** One atomic call on the table by request `i`, and what handle_write does with its result. */
  function Step(s: State, i: nat): State
    requires Pending(s, i)
  {
    var r := s.requests[i];
    match r.stage
    case First => Goto(s, i, if PermissionOf(s.files, r.path) == ReadWrite then Record else Rejected)
    case Record => Goto(s, i, Second).(files := Recorded(s.files, r.path, ParsePerm(r.permission)))
    case Second => Goto(s, i, if PermissionOf(s.files, r.path) == ReadOnly then Rejected else Accepted)
  }

  /** An interleaving names the request that moves next; it ends where one cannot move. */
  function Run(s: State, schedule: seq<nat>): Option<State>
    decreases |schedule|
  {
    if schedule == [] then Some(s)
    else if Pending(s, schedule[0]) then Run(Step(s, schedule[0]), schedule[1..])
    else None
  }

  ghost predicate Initial(s: State) {
    s.files == [] && forall i :: 0 <= i < |s.requests| ==> s.requests[i].stage == First
  }

  // ----- The invariant

  /** The lookup of `path` can no longer change. */
  ghost predicate Settled(files: seq<FileMeta>, path: string) {
    Lookup(files, path).Some? || |files| >= MAX_FILES || |path| > MAX_NAME
  }

  ghost predicate RequestOk(files: seq<FileMeta>, r: Request) {
    match r.stage
    case First => true
    case Record => true
    case Second => Settled(files, r.path)
    case Accepted => Settled(files, r.path) && PermissionOf(files, r.path) == ReadWrite
    case Rejected => Lookup(files, r.path) == Some(ReadOnly)
  }

  ghost predicate NamesFit(files: seq<FileMeta>) {
    |files| <= MAX_FILES && forall i :: 0 <= i < |files| ==> |files[i].filename| <= MAX_NAME
  }

  ghost predicate Inv(s: State) {
    NamesFit(s.files) && forall i :: 0 <= i < |s.requests| ==> RequestOk(s.files, s.requests[i])
  }

  /** A recorded entry changes no lookup that is settled, and settles its own path. */
  lemma RecordedSettles(files: seq<FileMeta>, path: string, p: Permission, other: string)
    requires NamesFit(files)
    ensures var files' := Recorded(files, path, p);
            NamesFit(files') && files <= files' && Settled(files', path) &&
            (Settled(files, other) ==> Settled(files', other) && Lookup(files', other) == Lookup(files, other))
  {
    LookupAppend(files, [FileMeta(Truncated(path), p)], other);
    LookupAppend(files, [FileMeta(Truncated(path), p)], path);
  }

  lemma StepKeeps(s: State, i: nat, path: string)
    requires Inv(s) && Pending(s, i)
    ensures Inv(Step(s, i))
    ensures Settled(s.files, path) ==>
              Settled(Step(s, i).files, path) && Lookup(Step(s, i).files, path) == Lookup(s.files, path)
    ensures s.files <= Step(s, i).files && |Step(s, i).requests| == |s.requests|
  {
    var r, s' := s.requests[i], Step(s, i);
    RecordedSettles(s.files, r.path, ParsePerm(r.permission), path);
    forall j | 0 <= j < |s.requests| ensures RequestOk(s'.files, s'.requests[j]) {
      RecordedSettles(s.files, r.path, ParsePerm(r.permission), s.requests[j].path);
      assert RequestOk(s.files, s.requests[j]);
    }
  }

  /** Along any interleaving the invariant holds and a settled lookup stays what it is. */
  lemma {:induction false} RunKeeps(s: State, schedule: seq<nat>, path: string)
    requires Inv(s) && Run(s, schedule).Some?
    ensures Inv(Run(s, schedule).value)
    ensures Settled(s.files, path) ==> Lookup(Run(s, schedule).value.files, path) == Lookup(s.files, path)
    ensures |Run(s, schedule).value.requests| == |s.requests|
    decreases |schedule|
  {
    if schedule == [] {
    } else {
      StepKeeps(s, schedule[0], path);
      RunKeeps(Step(s, schedule[0]), schedule[1..], path);
    }
  }

  ghost predicate Reachable(s: State) {
    exists start, schedule :: Initial(start) && Run(start, schedule) == Some(s)
  }

  lemma ReachableInv(s: State)
    requires Reachable(s)
    ensures Inv(s)
  {
    var start, schedule :| Initial(start) && Run(start, schedule) == Some(s);
    RunKeeps(start, schedule, "");
  }

  // ----- What the clients can rely on

  /** A path that has an entry looks up the same for ever. */
  lemma EntryIsPermanent(s: State, schedule: seq<nat>, path: string)
    requires Reachable(s) && Run(s, schedule).Some? && Lookup(s.files, path).Some?
    ensures Lookup(Run(s, schedule).value.files, path) == Lookup(s.files, path)
  {
    ReachableInv(s);
    RunKeeps(s, schedule, path);
  }

  /** Once a WRITE of a path is accepted, the path is read-write for ever, even if the table was full. */
  lemma AcceptedStaysReadWrite(s: State, schedule: seq<nat>, i: nat)
    requires Reachable(s) && Run(s, schedule).Some? && i < |s.requests| && s.requests[i].stage.Accepted?
    ensures PermissionOf(Run(s, schedule).value.files, s.requests[i].path) == ReadWrite
  {
    ReachableInv(s);
    assert RequestOk(s.files, s.requests[i]);
    RunKeeps(s, schedule, s.requests[i].path);
  }

  /** All WRITEs of one path get the same answer, whatever the interleaving. */
  lemma OneAnswerPerPath(s: State, i: nat, j: nat)
    requires Reachable(s) && i < |s.requests| && j < |s.requests| && s.requests[i].path == s.requests[j].path
    ensures !(s.requests[i].stage.Accepted? && s.requests[j].stage.Rejected?)
  {
    ReachableInv(s);
    assert RequestOk(s.files, s.requests[i]) && RequestOk(s.files, s.requests[j]);
  }

  /** A path that looks up read-only never had and never gets an accepted WRITE. */
  lemma ReadOnlyNeverAccepted(s: State, before: State, schedule: seq<nat>, after: seq<nat>, i: nat)
    requires Reachable(before) && Run(before, schedule) == Some(s) && Run(s, after).Some?
    requires i < |before.requests| && i < |Run(s, after).value.requests|
    requires Lookup(s.files, before.requests[i].path) == Some(ReadOnly)
    requires Run(s, after).value.requests[i].path == before.requests[i].path
    ensures !before.requests[i].stage.Accepted?
    ensures !Run(s, after).value.requests[i].stage.Accepted?
  {
    ReachableInv(before);
    var path, later := before.requests[i].path, Run(s, after).value;
    assert RequestOk(before.files, before.requests[i]);
    RunKeeps(before, schedule, path);
    RunKeeps(s, after, path);
    assert RequestOk(later.files, later.requests[i]);
  }

  // ----- Who decides

  /** What the first request to record `path` while the table has room asks for; a longer path is cut to fit. */
  ghost function FirstRecorded(s: State, schedule: seq<nat>, path: string): Option<Permission>
    requires Run(s, schedule).Some?
    decreases |schedule|
  {
    if schedule == [] then None
    else
      var r := s.requests[schedule[0]];
      if r.stage == Record && Truncated(r.path) == path && |s.files| < MAX_FILES then Some(ParsePerm(r.permission))
      else FirstRecorded(Step(s, schedule[0]), schedule[1..], path)
  }

  /** The lookup of an unknown path after one call on the table. */
  lemma RecordedLookup(files: seq<FileMeta>, path: string, p: Permission, other: string)
    requires NamesFit(files) && Lookup(files, other).None? && |other| <= MAX_NAME
    ensures NamesFit(Recorded(files, path, p))
    ensures Lookup(Recorded(files, path, p), other) ==
            if Truncated(path) == other && |files| < MAX_FILES then Some(p) else None
  {
    LookupAppend(files, [FileMeta(Truncated(path), p)], other);
    if |path| > MAX_NAME { TooLongUnknown(files, path); }
  }

  lemma {:induction false} TooLongUnknown(files: seq<FileMeta>, path: string)
    requires NamesFit(files) && |path| > MAX_NAME
    ensures Lookup(files, path).None?
  {
    if files == [] {
    } else {
      TooLongUnknown(files[1..], path);
    }
  }

  /** First write wins: in every interleaving the first request to record a path fixes its lookup. */
  lemma {:induction false} FirstRecordWins(s: State, schedule: seq<nat>, path: string)
    requires NamesFit(s.files) && Run(s, schedule).Some? && |path| <= MAX_NAME && Lookup(s.files, path).None?
    ensures Lookup(Run(s, schedule).value.files, path) == FirstRecorded(s, schedule, path)
    decreases |schedule|
  {
    if schedule == [] {
    } else {
      var r, s' := s.requests[schedule[0]], Step(s, schedule[0]);
      if r.stage == Record {
        RecordedLookup(s.files, r.path, ParsePerm(r.permission), path);
        if Lookup(s'.files, path).Some? { LookupKept(s', schedule[1..], path); }
      }
      if Lookup(s'.files, path).None? { FirstRecordWins(s', schedule[1..], path); }
    }
  }

  lemma {:induction false} LookupKept(s: State, schedule: seq<nat>, path: string)
    requires NamesFit(s.files) && Run(s, schedule).Some? && Lookup(s.files, path).Some?
    ensures Lookup(Run(s, schedule).value.files, path) == Lookup(s.files, path)
    decreases |schedule|
  {
    if schedule == [] {
    } else {
      var r := s.requests[schedule[0]];
      RecordedSettles(s.files, r.path, ParsePerm(r.permission), path);
      LookupKept(Step(s, schedule[0]), schedule[1..], path);
    }
  }

  /**
   The answer to every WRITE in every interleaving, from an empty table: it is turned away exactly when the
   first request to record its path asked for read-only.
   */
  lemma FirstRecorderDecides(start: State, schedule: seq<nat>, i: nat)
    requires Initial(start) && Run(start, schedule).Some? && i < |Run(start, schedule).value.requests|
    requires !Pending(Run(start, schedule).value, i)
    ensures var r := Run(start, schedule).value.requests[i];
            r.stage.Rejected? <==> |r.path| <= MAX_NAME && FirstRecorded(start, schedule, r.path) == Some(ReadOnly)
  {
    var s := Run(start, schedule).value;
    var r := s.requests[i];
    ReachableInv(s);
    assert RequestOk(s.files, r);
    if |r.path| <= MAX_NAME {
      FirstRecordWins(start, schedule, r.path);
    } else {
      TooLongUnknown(s.files, r.path);
    }
  }

  /** A WRITE that runs by itself from its first to its last call. */
  function Alone(s: State, i: nat): State
    requires i < |s.requests| && s.requests[i].stage == First
  {
    var s1 := Step(s, i);
    if s1.requests[i].stage == Rejected then s1 else Step(Step(s1, i), i)
  }

  /** The permission part of handle_write, on the table in place. */
  method HandleWrite(table: FileTable, path: string, permission: Option<string>) returns (accepted: bool)
    requires table.Valid()
    modifies table, table.files
    ensures table.Valid() && table.files == old(table.files)
    ensures State(table.Entries(), [Request(path, permission, if accepted then Accepted else Rejected)]) ==
            Alone(State(old(table.Entries()), [Request(path, permission, First)]), 0)
    ensures match Lookup(old(table.Entries()), path)
            case Some(p) => accepted <==> p == ReadWrite
            case None =>
              !accepted <==>
              |path| <= 255 && |old(table.Entries())| < 100 && permission.Some? && |permission.value| == 2 &&
              permission.value[0] in {'R', 'r'} && permission.value[1] in {'O', 'o'}
  {
    LoneWriteRejected(State(table.Entries(), [Request(path, permission, First)]), 0);
    var perm := table.GetFilePermission(path);
    if perm == ReadWrite {
      table.SetFilePermission(path, ParsePerm(permission));
      perm := table.GetFilePermission(path);
    }
    accepted := perm != ReadOnly;
  }

  lemma AloneIsARun(s: State, i: nat)
    requires i < |s.requests| && s.requests[i].stage == First
    ensures Run(s, [i]) == Some(Alone(s, i)) || Run(s, [i, i, i]) == Some(Alone(s, i))
  {
    var s1 := Step(s, i);
    assert [i][1..] == [];
    assert Run(s, [i]) == Some(s1);
    if s1.requests[i].stage != Rejected {
      var s2 := Step(s1, i);
      assert [i, i][1..] == [i] && [i, i, i][1..] == [i, i];
      assert Run(s2, [i]) == Some(Step(s2, i));
      assert Run(s1, [i, i]) == Some(Step(s2, i));
    }
  }

  /**
   The answer to a WRITE that runs by itself. In particular the first WRITE of a path with RO is rejected
   unless the table is full or the path too long for it.
   */
  lemma AloneAnswer(s: State, i: nat)
    requires NamesFit(s.files) && i < |s.requests| && s.requests[i].stage == First
    ensures var r, answer := s.requests[i], Alone(s, i).requests[i].stage;
            (answer.Accepted? || answer.Rejected?) &&
            (answer.Rejected? <==>
               Lookup(s.files, r.path) == Some(ReadOnly) ||
               (Lookup(s.files, r.path).None? && ParsePerm(r.permission) == ReadOnly &&
                |s.files| < MAX_FILES && |r.path| <= MAX_NAME))
  {
    var r := s.requests[i];
    LookupAppend(s.files, [FileMeta(Truncated(r.path), ParsePerm(r.permission))], r.path);
  }

  /** Only the two letters R and O, each in either case, ask for read-only. */
  lemma ReadOnlyAsked(permission: Option<string>)
    ensures ParsePerm(permission) == ReadOnly <==>
            permission.Some? && |permission.value| == 2 &&
            permission.value[0] in {'R', 'r'} && permission.value[1] in {'O', 'o'}
  {
    assert "RO"[0] == 'R' && "RO"[1] == 'O';
  }

  /**
   A WRITE of a path that has an entry is answered by the entry. One of a new path, running by itself, is
   rejected exactly when there is room for the path and it asks for read-only.
   */
  lemma LoneWriteRejected(s: State, i: nat)
    requires NamesFit(s.files) && i < |s.requests| && s.requests[i].stage == First
    ensures var r := s.requests[i];
            Alone(s, i).requests[i].stage.Rejected? <==>
            match Lookup(s.files, r.path)
            case Some(p) => p == ReadOnly
            case None =>
              |r.path| <= 255 && |s.files| < 100 && r.permission.Some? && |r.permission.value| == 2 &&
              r.permission.value[0] in {'R', 'r'} && r.permission.value[1] in {'O', 'o'}
    ensures Alone(s, i).requests[i].stage.Rejected? || Alone(s, i).requests[i].stage.Accepted?
  {
    hide Alone, Lookup, ParsePerm, NamesFit;
    AloneAnswer(s, i);
    ReadOnlyAsked(s.requests[i].permission);
  }

  /** The documented use `WRITE file RO` on a new file is turned away. */
  lemma FirstReadOnlyWriteIsRejected(path: string)
    requires |path| <= MAX_NAME
    ensures Alone(State([], [Request(path, Some("RO"), First)]), 0).requests[0].stage.Rejected?
  {
    AloneAnswer(State([], [Request(path, Some("RO"), First)]), 0);
  }
}
