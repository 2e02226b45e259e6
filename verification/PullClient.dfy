/**
 The receiving side of the pull: the loop of `csiebox_client_run` in mp5/src/csiebox_client.c
 on an empty client directory.

 `Receive` is what one received message makes the client do; the method `PullLoop` is the
 source's loop, proved to do the same. A client that is sent a message of another kind or
 length than the one it is waiting for is `Broken`.
 */
module PullClient {
  import opened ByteStrings
  import opened PullMessages
  import opened PullServer

  type Files = map<PathName, FsNode>

  datatype Phase =
    | AwaitHeader
    | AwaitMeta(op: int)
    | AwaitPath(pathlen: nat, kind: Kind)
    | AwaitFileHeader(path: PathName)
    | AwaitData(path: PathName, datalen: nat)
    | Finished
    | Broken

  /** `orphans` says that some `mkdir` was refused. */
  datatype Client = Client(phase: Phase, files: Files, orphans: bool)

  const EMPTY_CLIENT := Client(AwaitHeader, map[], false)

  predicate ParentExists(files: Files, path: PathName) {
    |path| <= 1 || (path[..|path| - 1] in files && files[path[..|path| - 1]] == FsDir)
  }

  /** `mkdir`, or `fopen` for writing, on a received path. A file that cannot be opened is a null pointer. */
  function Create(c: Client, text: string, kind: Kind): Client {
    var path := Split(text);
    match kind
    case Directory =>
      if ParentExists(c.files, path) && path !in c.files
      then c.(phase := AwaitHeader, files := c.files[path := FsDir])
      else c.(phase := AwaitHeader, orphans := true)
    case Regular =>
      if ParentExists(c.files, path) && !(path in c.files && c.files[path] == FsDir)
      then c.(phase := AwaitFileHeader(path), files := c.files[path := FsFile([])])
      else c.(phase := Broken)
  }

  lemma {:induction false} CreateIgnoresPhase(c: Client, text: string, kind: Kind)
    ensures Create(c, text, kind) == Create(c.(phase := AwaitHeader), text, kind)
  {
  }

  /** `fwrite` of a chunk to the open file. */
  function Append(files: Files, path: PathName, bytes: Bytes): Files {
    var got := if path in files && files[path].FsFile? then files[path].content else [];
    files[path := FsFile(got + bytes)]
  }

  function Receive(c: Client, m: Msg, n: nat): (Client, seq<Msg>) {
    match c.phase
    case AwaitHeader =>
      if !m.Header? then (c.(phase := Broken), [])
      else if m.status == STATUS_OK then (c.(phase := Finished), [])
      else if m.op == OP_SYNC_HARDLINK then (c.(phase := Broken), [])
      else (c.(phase := AwaitMeta(m.op)), [])
    case AwaitMeta(op) =>
      if !m.Meta? then (c.(phase := Broken), [])
      else (if m.pathlen == 0 then Create(c, "", m.kind) else c.(phase := AwaitPath(m.pathlen, m.kind)),
            [Header(op, STATUS_OK)])
    case AwaitPath(pathlen, kind) =>
      if m.Path? && |m.text| == pathlen then (Create(c, m.text, kind), []) else (c.(phase := Broken), [])
    case AwaitFileHeader(path) =>
      if !m.FileHeader? || n < m.datalen then (c.(phase := Broken), [])
      else if m.datalen == 0 then (c.(phase := AfterChunk(path, 0, n)), [])
      else (c.(phase := AwaitData(path, m.datalen)), [])
    case AwaitData(path, datalen) =>
      if m.Data? && |m.bytes| == datalen
      then (c.(phase := AfterChunk(path, datalen, n), files := Append(c.files, path, m.bytes)), [])
      else (c.(phase := Broken), [])
    case _ => (c.(phase := Broken), [])
  }

  /** Only a full chunk is followed by another. */
  function AfterChunk(path: PathName, datalen: nat, n: nat): Phase {
    if datalen == n then AwaitFileHeader(path) else AwaitHeader
  }

  /** The client after a sequence of messages. */
  function Feed(c: Client, msgs: seq<Msg>, n: nat): Client
    decreases |msgs|
  {
    if |msgs| == 0 then c else Feed(Receive(c, msgs[0], n).0, msgs[1..], n)
  }

  /** The acknowledgements it has sent by then. */
  function Acks(c: Client, msgs: seq<Msg>, n: nat): seq<Msg>
    decreases |msgs|
  {
    if |msgs| == 0 then [] else Receive(c, msgs[0], n).1 + Acks(Receive(c, msgs[0], n).0, msgs[1..], n)
  }

  lemma {:induction false} FeedConcat(c: Client, a: seq<Msg>, b: seq<Msg>, n: nat)
    ensures Feed(c, a + b, n) == Feed(Feed(c, a, n), b, n)
    decreases |a|
  {
    if |a| == 0 {
      assert a + b == b;
    } else {
      assert (a + b)[0] == a[0] && (a + b)[1..] == a[1..] + b;
      FeedConcat(Receive(c, a[0], n).0, a[1..], b, n);
    }
  }

  /** The client answers a meta with the operation of the header before it, and status OK. */
  lemma {:induction false} AckEchoesHeader(c: Client, header: Msg, meta: Msg, n: nat)
    requires c.phase == AwaitHeader && header.Header? && meta.Meta?
    requires header.status != 0x00 && header.op != 0x03
    ensures Acks(c, [header, meta], n) == [Header(header.op, 0x00)]
  {
    var one := Receive(c, header, n).0;
    assert [header, meta][1..] == [meta] && [meta][1..] == [];
    assert Acks(one, [meta], n) == Receive(one, meta, n).1 + [];
  }

  // What the file system keeps --------------------------------------------------------------

  /** Everything lies in a directory that is there. */
  ghost predicate Rooted(files: Files) {
    forall path :: path in files && 1 < |path| ==> path[..|path| - 1] in files && files[path[..|path| - 1]] == FsDir
  }

  /** And the file being received is a file. */
  ghost predicate Sound(c: Client) {
    && Rooted(c.files)
    && (c.phase.AwaitFileHeader? || c.phase.AwaitData? ==>
          c.phase.path in c.files && c.files[c.phase.path].FsFile?)
  }

  /** Nothing disappears or changes its kind. */
  ghost predicate Grown(before: Files, after: Files) {
    forall path :: path in before ==> path in after && (after[path] == FsDir <==> before[path] == FsDir)
  }

  /** Whatever the client is sent, it creates nothing outside a directory, and turns no file into a directory or a
      directory into a file. */
  lemma {:induction false} ReceiveKeepsSound(c: Client, m: Msg, n: nat)
    requires Sound(c)
    ensures Sound(Receive(c, m, n).0) && Grown(c.files, Receive(c, m, n).0.files)
  {
    hide Rooted, Grown, Create;
    SameFiles(c.files);
    if c.phase.AwaitData? {
      PutKeepsFile(c.files, c.phase.path, if m.Data? then m.bytes else []);
    }
    match c.phase
    case AwaitMeta(_) =>
      if m.Meta? {
        CreateKeepsSound(c, "", m.kind);
      }
    case AwaitPath(_, kind) =>
      if m.Path? {
        CreateKeepsSound(c, m.text, kind);
      }
    case _ =>
  }

  lemma {:induction false} CreateKeepsSound(c: Client, text: string, kind: Kind)
    requires Sound(c)
    ensures Sound(Create(c, text, kind)) && Grown(c.files, Create(c, text, kind).files)
  {
    hide Rooted, Grown, Split;
    var path := Split(text);
    SameFiles(c.files);
    if ParentExists(c.files, path) {
      PutKeepsRooted(c.files, path, if kind == Directory then FsDir else FsFile([]));
    }
  }

  lemma {:induction false} PutKeepsFile(files: Files, path: PathName, bytes: Bytes)
    requires Rooted(files) && path in files && files[path].FsFile?
    ensures Rooted(Append(files, path, bytes)) && Grown(files, Append(files, path, bytes))
    ensures path in Append(files, path, bytes) && Append(files, path, bytes)[path].FsFile?
  {
  }

  lemma {:induction false} SameFiles(files: Files)
    ensures Grown(files, files)
  {
  }

  lemma {:induction false} PutKeepsRooted(files: Files, path: PathName, node: FsNode)
    requires Rooted(files) && ParentExists(files, path)
    ensures (path in files ==> (files[path] == FsDir <==> node == FsDir)) ==>
              Rooted(files[path := node]) && Grown(files, files[path := node])
  {
    if path in files ==> (files[path] == FsDir <==> node == FsDir) {
      var after := files[path := node];
      forall p | p in after && 1 < |p| ensures p[..|p| - 1] in after && after[p[..|p| - 1]] == FsDir {
        if p == path {
          assert p[..|p| - 1] != path;
        }
      }
    }
  }

  lemma {:induction false} FeedKeepsSound(c: Client, msgs: seq<Msg>, n: nat)
    requires Sound(c)
    ensures Sound(Feed(c, msgs, n)) && Grown(c.files, Feed(c, msgs, n).files)
    decreases |msgs|
  {
    if |msgs| != 0 {
      ReceiveKeepsSound(c, msgs[0], n);
      hide Receive;
      FeedKeepsSound(Receive(c, msgs[0], n).0, msgs[1..], n);
    }
  }

  /** A `mkdir` is refused exactly where something is already, or where the parent is not a directory; an open for
      writing exactly where a directory is, or where the parent is not one. A refusal creates nothing. */
  lemma {:induction false} RefusedIff(c: Client, text: string, kind: Kind)
    requires c.phase == AwaitPath(|text|, kind) && !c.orphans
    ensures var path := Split(text);
            var parent := |path| == 1 || (path[..|path| - 1] in c.files && c.files[path[..|path| - 1]] == FsDir);
            var t := Create(c, text, kind);
            var refused := !parent || (path in c.files && (kind == Directory || c.files[path] == FsDir));
            && (refused <==> t.orphans || t.phase == Broken)
            && t.files == if refused then c.files
                          else c.files[path := if kind == Directory then FsDir else FsFile([])]
  {
    hide Split;
    SplitNonempty(text);
  }

  // The source's loop ------------------------------------------------------------------

  class PullState {
    var files: Files
    var orphans: bool

    constructor ()
      ensures files == map[] && !orphans
    {
      files, orphans := map[], false;
    }

    /** `mkdir`, or `fopen` with mode "w"; `ok` is false when the file pointer would be null. */
    method CreateEntry(text: string, kind: Kind) returns (path: PathName, ok: bool)
      modifies this
      ensures path == Split(text)
      ensures var before, after := Client(AwaitHeader, old(files), old(orphans)), Client(AwaitHeader, files, orphans);
              Create(before, text, kind)
              == after.(phase := if !ok then Broken else if kind == Regular then AwaitFileHeader(path) else AwaitHeader)
    {
      path, ok := Split(text), true;
      if kind == Directory {
        if ParentExists(files, path) && path !in files {
          files := files[path := FsDir];
        } else {
          orphans := true;
        }
      } else if ParentExists(files, path) && !(path in files && files[path] == FsDir) {
        files := files[path := FsFile([])];
      } else {
        ok := false;
      }
    }

    /** The do-while loop over the chunks of one file. */
    method ReceiveFile(path: PathName, incoming: seq<Msg>, start: nat, n: nat,
                       ghost first: Client, ghost acks: seq<Msg>)
      returns (phase: Phase, i: nat)
      requires start <= |incoming|
      requires Resumes(first, incoming, Client(AwaitFileHeader(path), files, orphans), acks, start, n)
      modifies `files
      ensures start <= i <= |incoming| && Resumes(first, incoming, Client(phase, files, orphans), acks, i, n)
      ensures phase == AwaitHeader || phase == Broken || i == |incoming|
    {
      hide Resumes;
      i, phase := start, AwaitFileHeader(path);
      while phase == AwaitFileHeader(path)
        invariant start <= i <= |incoming| && phase in {AwaitFileHeader(path), AwaitHeader}
        invariant Resumes(first, incoming, Client(phase, files, orphans), acks, i, n)
        decreases |incoming| - i, phase.AwaitFileHeader?
      {
        if i == |incoming| {
          return;
        }
        ResumeQuietly(first, incoming, Client(phase, files, orphans), acks, i, n);
        var req := incoming[i];
        i := i + 1;
        if !req.FileHeader? || n < req.datalen {
          phase := Broken;
          return;
        }
        if req.datalen != 0 {
          phase := AwaitData(path, req.datalen);
          if i == |incoming| {
            return;
          }
          ResumeQuietly(first, incoming, Client(phase, files, orphans), acks, i, n);
          var buf := incoming[i];
          i := i + 1;
          if !buf.Data? || |buf.bytes| != req.datalen {
            phase := Broken;
            return;
          }
          files := Append(files, path, buf.bytes);
        }
        phase := AfterChunk(path, req.datalen, n);
      }
    }

    /** One round of the pull loop after its header: meta, acknowledgement, path, entry, and contents of a file. */
    method ReceiveEntry(header: Msg, incoming: seq<Msg>, start: nat, n: nat, ghost first: Client, sofar: seq<Msg>)
      returns (phase: Phase, i: nat, acks: seq<Msg>)
      requires header.Header? && start <= |incoming|
      requires Resumes(first, incoming, Client(AwaitMeta(header.op), files, orphans), sofar, start, n)
      modifies this
      ensures start <= i <= |incoming| && Resumes(first, incoming, Client(phase, files, orphans), acks, i, n)
      ensures phase == AwaitHeader || phase == Broken || i == |incoming|
    {
      hide Resumes, Create;
      i, acks, phase := start, sofar, AwaitMeta(header.op);
      if i == |incoming| {
        return;
      }
      var meta := incoming[i];
      Resume(first, incoming, Client(phase, files, orphans), acks, i, n);
      i := i + 1;
      if !meta.Meta? {
        assert acks + [] == acks;
        phase := Broken;
        return;
      }
      acks := acks + [Header(header.op, STATUS_OK)];
      var text := "";
      if meta.pathlen != 0 {
        phase := AwaitPath(meta.pathlen, meta.kind);
        if i == |incoming| {
          return;
        }
        var rest := incoming[i];
        ResumeQuietly(first, incoming, Client(phase, files, orphans), acks, i, n);
        i := i + 1;
        if !rest.Path? || |rest.text| != meta.pathlen {
          phase := Broken;
          return;
        }
        text := rest.text;
      }
      CreateIgnoresPhase(Client(phase, files, orphans), text, meta.kind);
      var path, ok := CreateEntry(text, meta.kind);
      phase := if !ok then Broken else if meta.kind == Regular then AwaitFileHeader(path) else AwaitHeader;
      if ok && meta.kind == Regular {
        phase, i := ReceiveFile(path, incoming, i, n, first, acks);
      }
    }

    /** The pull loop on the messages that arrive; it ends early when it would wait for one more. */
    method PullLoop(incoming: seq<Msg>, n: nat) returns (phase: Phase, acks: seq<Msg>)
      modifies this
      ensures var start := Client(AwaitHeader, old(files), old(orphans));
              && (phase == Broken <==> Feed(start, incoming, n).phase == Broken)
              && (phase != Broken ==>
                    Client(phase, files, orphans) == Feed(start, incoming, n) && acks == Acks(start, incoming, n))
    {
      var i := 0;
      phase, acks := AwaitHeader, [];
      ghost var start := Client(AwaitHeader, files, orphans);
      while i < |incoming| && phase == AwaitHeader
        invariant i <= |incoming| && (phase == AwaitHeader || phase == Finished || phase == Broken || i == |incoming|)
        invariant Resumes(start, incoming, Client(phase, files, orphans), acks, i, n)
        decreases |incoming| - i
      {
        var header := incoming[i];
        ResumeQuietly(start, incoming, Client(phase, files, orphans), acks, i, n);
        i := i + 1;
        if !header.Header? || (header.status != STATUS_OK && header.op == OP_SYNC_HARDLINK) {
          phase := Broken;
        } else if header.status == STATUS_OK {
          phase := Finished;
        } else {
          phase, i, acks := ReceiveEntry(header, incoming, i, n, start, acks);
        }
      }
      if i < |incoming| {
        ClosedStays(Client(phase, files, orphans), incoming[i..], n);
        phase := Broken;
      } else {
        assert acks + [] == acks;
      }
    }
  }

  /** At index `i` of the input the client is `c` and has sent `acks`. */
  ghost predicate Resumes(start: Client, incoming: seq<Msg>, c: Client, acks: seq<Msg>, i: nat, n: nat)
    requires i <= |incoming|
  {
    && Feed(start, incoming, n) == Feed(c, incoming[i..], n)
    && Acks(start, incoming, n) == acks + Acks(c, incoming[i..], n)
  }

  lemma {:induction false} Resume(start: Client, incoming: seq<Msg>, c: Client, acks: seq<Msg>, i: nat, n: nat)
    requires i < |incoming| && Resumes(start, incoming, c, acks, i, n)
    ensures var (next, more) := Receive(c, incoming[i], n);
            Resumes(start, incoming, next, acks + more, i + 1, n)
  {
    var (next, more) := Receive(c, incoming[i], n);
    assert incoming[i..][1..] == incoming[i + 1..];
    assert acks + (more + Acks(next, incoming[i + 1..], n)) == acks + more + Acks(next, incoming[i + 1..], n);
  }

  lemma {:induction false} ResumeQuietly(start: Client, incoming: seq<Msg>, c: Client, acks: seq<Msg>, i: nat, n: nat)
    requires i < |incoming| && Resumes(start, incoming, c, acks, i, n) && !c.phase.AwaitMeta?
    ensures Resumes(start, incoming, Receive(c, incoming[i], n).0, acks, i + 1, n)
  {
    Resume(start, incoming, c, acks, i, n);
    assert acks + [] == acks;
  }

  /** A client that has left the loop, or lost its place in the stream, can only misread what still comes. */
  lemma {:induction false} ClosedStays(c: Client, msgs: seq<Msg>, n: nat)
    requires (c.phase == Finished && 0 < |msgs|) || c.phase == Broken
    ensures Feed(c, msgs, n).phase == Broken
    decreases |msgs|
  {
    if |msgs| != 0 {
      ClosedStays(Receive(c, msgs[0], n).0, msgs[1..], n);
    }
  }
}
