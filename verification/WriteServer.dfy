/**
 The write server of sp_even_hw1.c (built without READ_SERVER): connections upload files side
 by side, and a second upload of a name that is being uploaded is rejected.

 `Step` is one event of the server as a function of its state; the class `Server` is the source's
 event loop, proved to do exactly that.
 */
module WriteServer {
  import opened ByteStrings
  import opened Options
  import opened UploadHeader

  /** `request`: the file name once the header is read, and the content of the last read. */
  datatype Request = Request(filename: Option<Bytes>, headerDone: bool, buf: Bytes)

  const NO_REQUEST := Request(None, false, [])

  /** An entry of `fd_table`: 0, or a descriptor open for writing at an offset. */
  datatype Fd = NoFd | Fd(name: Bytes, offset: nat)

  datatype Reply = Accept | Reject

  /** What `read` on a connection gives; `left` is in memory behind the bytes it put into the buffer. */
  datatype Read = Got(data: Bytes, left: Bytes) | Ended | Failed

  /** What `open`, which truncates, and the lock that follows it give. */
  datatype OpenResult = Opened | NotOpened | Locked

  /** `running` is false once the process has ended, by `exit` or by following a null pointer. */
  datatype State = State(running: bool, master: set<nat>, requests: seq<Request>, fds: seq<Fd>,
                         files: map<Bytes, Bytes>, replies: seq<(nat, Reply)>)

  const FIRST := 4
  const BUFFER := 512

  function Start(maxfd: nat, files: map<Bytes, Bytes>): State {
    State(true, {}, seq(maxfd, _ => NO_REQUEST), seq(maxfd, _ => NoFd), files, [])
  }

  ghost predicate Formed(s: State) {
    |s.fds| == |s.requests| && forall c :: c in s.master ==> FIRST <= c < |s.requests|
  }

  // One read of one connection ------------------------------------------------------------

  /** `handle_read`; None is where it ends the process. */
  function AfterRead(r: Request, read: Read): Option<Request> {
    if !read.Got? then Some(r)
    else if r.headerDone then Some(r.(buf := read.data))
    else
      match ParseIn(read.data, read.left)
      case None => None
      case Some(u) => Some(Request(Some(u.name), true, u.content))
  }

  /** Some other active connection has a file name, or has this one. */
  ghost predicate Rivals(s: State, c: nat)
    requires Formed(s)
  {
    exists i :: i in s.master && i != c && s.requests[i].filename.Some?
  }

  ghost predicate Taken(s: State, c: nat, name: Bytes)
    requires Formed(s)
  {
    exists i :: i in s.master && i != c && s.requests[i].filename == Some(name)
  }

  /** From the label `close` on: the entry in `fd_table` stays. */
  function Drop(s: State, c: nat): State
    requires c < |s.requests|
  {
    s.(master := s.master - {c}, requests := s.requests[c := NO_REQUEST])
  }

  /** From the label `write_end` on. */
  function Finish(s: State, c: nat): State
    requires c < |s.requests| == |s.fds|
  {
    Drop(s.(fds := s.fds[c := NoFd]), c)
  }

  function Answer(s: State, c: nat, reply: Reply): State {
    s.(replies := s.replies + [(c, reply)])
  }

  function Zeros(k: nat): Bytes {
    seq(k, _ => 0)
  }

  /** `write` at an offset of a file: it overwrites, extends, or leaves a hole of zeros. */
  function WriteAt(content: Bytes, offset: nat, buf: Bytes): Bytes {
    if |buf| == 0 then content
    else if |content| < offset then content + Zeros(offset - |content|) + buf
    else content[..offset] + buf + if offset + |buf| < |content| then content[offset + |buf|..] else []
  }

  function Contents(files: map<Bytes, Bytes>, name: Bytes): Bytes {
    if name in files then files[name] else []
  }

  function Truncate(s: State, name: Bytes): State {
    s.(files := s.files[name := []])
  }

  function Write(s: State, c: nat): State
    requires c < |s.requests| == |s.fds| && s.fds[c].Fd?
  {
    var (fd, buf) := (s.fds[c], s.requests[c].buf);
    s.(files := s.files[fd.name := WriteAt(Contents(s.files, fd.name), fd.offset, buf)],
       fds := s.fds[c := fd.(offset := fd.offset + |buf|)])
  }

  /** The end of the stream ends the upload, anything else is written. */
  function Deliver(s: State, c: nat, read: Read): State
    requires c < |s.requests| == |s.fds| && s.fds[c].Fd?
  {
    if read.Ended? then Finish(s, c) else Write(s, c)
  }

  /** The file of a connection that has none open is opened, truncated and locked, and the connection answered. */
  function Open(s: State, c: nat, result: OpenResult): (State, bool)
    requires c < |s.requests| == |s.fds|
  {
    var name := s.requests[c].filename;
    if s.fds[c].Fd? then (s, true)
    else if name.None? || result == NotOpened then (Answer(s, c, Reject), false)
    else if result == Locked then (Answer(Truncate(s, name.value), c, Reject), false)
    else (Answer(Truncate(s, name.value).(fds := s.fds[c := Fd(name.value, 0)]), c, Accept), true)
  }

  /** What happens after `handle_read`. */
  ghost function Judge(s: State, c: nat, read: Read, result: OpenResult): State
    requires Formed(s) && c in s.master
  {
    var name := s.requests[c].filename;
    if name.None? && Rivals(s, c) then s.(running := false)
    else if name.Some? && Taken(s, c, name.value) then Drop(Answer(s, c, Reject), c)
    else if read.Failed? then Finish(s, c)
    else
      var (t, done) := Open(s, c, result);
      if done then Deliver(t, c, read) else Finish(t, c)
  }

  // Events --------------------------------------------------------------------------------

  datatype Event = Connect(c: nat) | Serve(c: nat, read: Read, result: OpenResult)

  ghost predicate Enabled(s: State, e: Event) {
    && s.running
    && match e
       case Connect(c) => FIRST <= c < |s.requests| && c !in s.master
       case Serve(c, read, _) => c in s.master && (read.Got? ==> 0 < |read.data| <= BUFFER)
  }

  /** One event, which has no effect when it cannot happen. */
  ghost function Step(s: State, e: Event): (t: State)
    requires Formed(s)
    ensures Formed(t) && |t.requests| == |s.requests| && s.replies <= t.replies
  {
    if !Enabled(s, e) then s
    else
      match e
      case Connect(c) => s.(master := s.master + {c})
      case Serve(c, read, result) =>
        match AfterRead(s.requests[c], read)
        case None => s.(running := false)
        case Some(r) => Judge(s.(requests := s.requests[c := r]), c, read, result)
  }

  /** The state after a sequence of events. */
  ghost function After(s: State, events: seq<Event>): (t: State)
    requires Formed(s)
    ensures Formed(t) && |t.requests| == |s.requests|
  {
    if |events| == 0 then s else Step(After(s, events[..|events| - 1]), events[|events| - 1])
  }

  lemma {:induction false} AfterOneMore(s: State, events: seq<Event>, k: nat)
    requires Formed(s) && k < |events|
    ensures After(s, events[..k + 1]) == Step(After(s, events[..k]), events[k])
  {
    assert events[..k + 1][..k] == events[..k];
  }

  /** Reads of a connection that is gone are reads that do not take place. */
  lemma {:induction false} AfterGone(s: State, events: seq<Event>, k: nat, c: nat)
    requires Formed(s) && k <= |events|
    requires forall i :: k <= i < |events| ==> events[i].Serve? && events[i].c == c
    requires !After(s, events[..k]).running || c !in After(s, events[..k]).master
    ensures After(s, events) == After(s, events[..k])
    decreases |events|
  {
    if k == |events| {
      assert events[..k] == events;
    } else {
      var last := |events| - 1;
      assert events[..last][..k] == events[..k];
      AfterGone(s, events[..last], k, c);
    }
  }

  // The source's event loop ------------------------------------------------------------------

  /** The events in which connection `c` is served the given reads. */
  ghost function Serves(c: nat, incoming: seq<(Read, OpenResult)>): seq<Event> {
    seq(|incoming|, i requires 0 <= i < |incoming| => Serve(c, incoming[i].0, incoming[i].1))
  }

  class Server {
    var running: bool
    var masterset: set<nat>
    const requestP: array<Request>
    const fdTable: array<Fd>
    var files: map<Bytes, Bytes>
    var replies: seq<(nat, Reply)>

    ghost predicate Valid()
      reads this
    {
      && fdTable.Length == requestP.Length
      && forall c :: c in masterset ==> FIRST <= c < requestP.Length
    }

    ghost function Value(): (s: State)
      requires Valid()
      reads this, requestP, fdTable
      ensures Formed(s)
    {
      State(running, masterset, requestP[..], fdTable[..], files, replies)
    }

    constructor (maxfd: nat, disk: map<Bytes, Bytes>)
      ensures Valid() && fresh(requestP) && fresh(fdTable)
      ensures Value() == Start(maxfd, disk)
    {
      running, masterset, files, replies := true, {}, disk, [];
      requestP := new Request[maxfd](_ => NO_REQUEST);
      fdTable := new Fd[maxfd](_ => NoFd);
    }

    /** A new connection on descriptor `c`. */
    method AcceptConnection(c: nat)
      requires Valid() && Enabled(Value(), Connect(c))
      modifies this
      ensures Valid() && Value() == Step(old(Value()), Connect(c))
      ensures masterset == old(masterset) + {c} && replies == old(replies) && files == old(files) && running
    {
      masterset := masterset + {c};
    }

    method FreeRequest(c: nat)
      requires Valid() && c < requestP.Length
      modifies this, requestP
      ensures Valid() && Value() == Drop(old(Value()), c)
    {
      masterset := masterset - {c};
      requestP[c] := NO_REQUEST;
    }

    /** `handle_read`: 1, 0 and -1 as there; the process may have ended instead. */
    method HandleRead(c: nat, read: Read) returns (ret: int)
      requires Valid() && running && c < requestP.Length
      modifies this, requestP
      ensures Valid() && (ret > 0 <==> read.Got?) && (ret == 0 <==> read.Ended?)
      ensures var s := old(Value());
              Value() == match AfterRead(s.requests[c], read)
                         case None => s.(running := false)
                         case Some(r) => s.(requests := s.requests[c := r])
    {
      match read
      case Failed =>
        ret := -1;
      case Ended =>
        ret := 0;
      case Got(data, left) =>
        ret := 1;
        if !requestP[c].headerDone {
          var header := ParseIn(data, left);
          if header.None? {
            running := false;
            return;
          }
          requestP[c] := Request(Some(header.value.name), true, header.value.content);
        } else {
          requestP[c] := requestP[c].(buf := data);
        }
    }

    /** The search for another active connection with the same file name. */
    method SameName(c: nat) returns (taken: bool)
      requires Valid() && running && c < requestP.Length
      modifies `running
      ensures var s, name := old(Value()), requestP[c].filename;
              && Value() == s.(running := !(name.None? && Rivals(s, c)))
              && (running ==> (taken <==> name.Some? && Taken(s, c, name.value)))
    {
      taken := false;
      var i, mine := FIRST, requestP[c].filename;
      while i < requestP.Length
        invariant FIRST <= i
        invariant mine.None? ==> !taken
        invariant mine.None? ==>
                    forall k :: FIRST <= k < i && k in masterset && k != c ==> requestP[k].filename.None?
        invariant mine.Some? ==>
                    (taken <==> exists k :: FIRST <= k < i && k in masterset && k != c && requestP[k].filename == mine)
      {
        if i in masterset && i != c && requestP[i].filename.Some? {
          if mine.None? {
            running := false;
            return;
          }
          if requestP[i].filename == mine {
            taken := true;
          }
        }
        i := i + 1;
      }
    }

    /** The label `write_end` and all that follows it. */
    method EndConnection(c: nat)
      requires Valid() && c < requestP.Length
      modifies this, requestP, fdTable
      ensures Valid() && c !in masterset && Value() == Finish(old(Value()), c)
    {
      fdTable[c] := NoFd;
      FreeRequest(c);
    }

    method OpenFile(c: nat, result: OpenResult) returns (done: bool)
      requires Valid() && c < requestP.Length
      modifies this, fdTable
      ensures Valid() && masterset == old(masterset) && running == old(running)
      ensures (Value(), done) == Open(old(Value()), c, result) && (done ==> fdTable[c].Fd?)
    {
      if fdTable[c] == NoFd {
        if requestP[c].filename.None? || result == NotOpened {
          replies := replies + [(c, Reject)];
          return false;
        }
        files := files[requestP[c].filename.value := []];
        if result == Locked {
          replies := replies + [(c, Reject)];
          return false;
        }
        fdTable[c] := Fd(requestP[c].filename.value, 0);
        replies := replies + [(c, Accept)];
      }
      done := true;
    }

    method WriteBuffer(c: nat)
      requires Valid() && c < requestP.Length && fdTable[c].Fd?
      modifies this, fdTable
      ensures Valid() && masterset == old(masterset) && running == old(running)
      ensures Value() == Write(old(Value()), c)
    {
      var fd, buf := fdTable[c], requestP[c].buf;
      files := files[fd.name := WriteAt(Contents(files, fd.name), fd.offset, buf)];
      fdTable[c] := fd.(offset := fd.offset + |buf|);
    }

    /** The body of the do-while loop; `more` is whether the loop goes on. */
    method ServeOnce(c: nat, read: Read, result: OpenResult) returns (more: bool)
      requires Valid() && Enabled(Value(), Serve(c, read, result))
      modifies this, requestP, fdTable
      ensures Valid() && Value() == Step(old(Value()), Serve(c, read, result))
      ensures more <==> running && c in masterset
    {
      hide Open, Write, Finish, AfterRead, Taken, Rivals;
      var ret := HandleRead(c, read);
      if !running {
        return false;
      }
      var taken := SameName(c);
      if !running {
        return false;
      }
      if taken {
        replies := replies + [(c, Reject)];
        FreeRequest(c);
        return false;
      }
      var done := false;
      if ret >= 0 {
        done := OpenFile(c, result);
      }
      if done && ret > 0 {
        WriteBuffer(c);
        return true;
      }
      EndConnection(c);
      more := false;
    }

    /** The do-while loop: reads are served until the upload ends, or none is waiting. */
    method ServeConnection(c: nat, incoming: seq<(Read, OpenResult)>)
      requires Valid() && running && c in masterset
      requires forall i :: 0 <= i < |incoming| ==> incoming[i].0.Got? ==> 0 < |incoming[i].0.data| <= BUFFER
      modifies this, requestP, fdTable
      ensures Valid() && Value() == After(old(Value()), Serves(c, incoming))
    {
      ghost var s, events := Value(), Serves(c, incoming);
      var i, more := 0, true;
      while more && i < |incoming|
        invariant i <= |incoming| && Valid()
        invariant Value() == After(s, events[..i]) && (more <==> running && c in masterset)
        decreases |incoming| - i
      {
        more := ServeOnce(c, incoming[i].0, incoming[i].1);
        AfterOneMore(s, events, i);
        i := i + 1;
      }
      if more {
        assert events[..i] == events;
      } else {
        AfterGone(s, events, i, c);
      }
    }

    /** The first descriptor that `select` found ready. */
    method Pick(ready: set<nat>) returns (c: nat)
      requires forall i :: i in ready ==> FIRST <= i < requestP.Length
      ensures if ready == {} then c == 0 else c in ready && forall i :: i in ready ==> c <= i
    {
      var i := FIRST;
      while i < requestP.Length
        invariant FIRST <= i && forall k :: k in ready ==> i <= k
      {
        if i in ready {
          return i;
        }
        i := i + 1;
      }
      assert forall k :: k !in ready;
      c := 0;
    }

    /** One iteration of the outer loop: a new connection if there is one, then the first ready one. */
    method Iterate(incomer: Option<nat>, ready: set<nat>, incoming: seq<(Read, OpenResult)>) returns (ghost served: nat)
      requires Valid() && running && ready <= masterset
      requires incomer.Some? ==> Enabled(Value(), Connect(incomer.value))
      requires forall i :: 0 <= i < |incoming| ==> incoming[i].0.Got? ==> 0 < |incoming[i].0.data| <= BUFFER
      modifies this, requestP, fdTable
      ensures Valid()
      ensures var s := old(Value());
              var t := if incomer.Some? then Step(s, Connect(incomer.value)) else s;
              Value() == if ready == {} then t else After(t, Serves(served, incoming))
      ensures ready != {} ==> served in ready && forall i :: i in ready ==> served <= i
    {
      if incomer.Some? {
        AcceptConnection(incomer.value);
      }
      var c := Pick(ready);
      served := c;
      if c == 0 {
        return;
      }
      ServeConnection(c, incoming);
    }
  }
}
