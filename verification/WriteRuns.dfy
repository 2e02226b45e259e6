/** What holds of the write server after every sequence of events. */
module WriteRuns {
  import opened ByteStrings
  import opened Options
  import opened UploadHeader
  import opened WriteServer

  // What a connection has sent -------------------------------------------------------------

  /** The reads of the connection that is now on descriptor `c`. */
  ghost function ReadsOf(s: State, events: seq<Event>, c: nat): seq<Bytes>
    requires Formed(s)
  {
    if |events| == 0 then []
    else
      var n := |events| - 1;
      if Enabled(After(s, events[..n]), events[n]) then NextReads(ReadsOf(s, events[..n], c), events[n], c)
      else ReadsOf(s, events[..n], c)
  }

  ghost function NextReads(pieces: seq<Bytes>, e: Event, c: nat): seq<Bytes> {
    if e.c != c then pieces
    else if e.Connect? then []
    else if e.read.Got? then pieces + [e.read.data]
    else pieces
  }

  // The invariant --------------------------------------------------------------------------

  /** No two active connections have the same file name. */
  ghost predicate Exclusive(s: State)
    requires Formed(s)
  {
    forall i, j :: i in s.master && j in s.master && i != j && s.requests[i].filename.Some? ==>
      s.requests[i].filename != s.requests[j].filename
  }

  /** A connection that has sent `pieces` and has a name owns the file of that name, which holds its content. */
  ghost predicate Owns(s: State, c: nat, pieces: seq<Bytes>)
    requires Formed(s) && c < |s.requests|
  {
    var r := s.requests[c];
    match r.filename
    case None => pieces == [] && r == NO_REQUEST && s.fds[c] == NoFd
    case Some(name) =>
      && 0 < |pieces| && r.headerDone && name in s.files
      && Received(pieces) == Some(Upload(name, s.files[name]))
      && s.fds[c] == Fd(name, |s.files[name]|)
  }

  ghost predicate Inv(s: State, sent: nat -> seq<Bytes>)
    requires Formed(s)
  {
    && Exclusive(s)
    && (forall c :: c in s.master ==> Owns(s, c, sent(c)))
    && forall c :: 0 <= c < |s.requests| && c !in s.master ==> s.requests[c] == NO_REQUEST && s.fds[c] == NoFd
  }

  // One event --------------------------------------------------------------------------------

  lemma {:induction false} AppendAtEnd(content: Bytes, buf: Bytes)
    ensures WriteAt(content, |content|, buf) == content + buf
  {
    assert content[..|content|] == content;
  }

  lemma {:induction false} SetTwice<T>(a: seq<T>, i: nat, x: T, y: T)
    requires i < |a|
    ensures a[i := x][i := y] == a[i := y]
    ensures y == a[i] ==> a[i := y] == a
  {
  }

  lemma {:induction false} PutTwice<K, V>(m: map<K, V>, k: K, v: V, w: V)
    ensures m[k := v][k := w] == m[k := w]
  {
  }

  /** A first read: the upload is accepted exactly if no other active connection has its name and it can be opened. */
  lemma {:induction false} FirstRead(
      s: State, c: nat, data: Bytes, left: Bytes, result: OpenResult, sent: nat -> seq<Bytes>)
    requires Formed(s) && Inv(s, sent) && Enabled(s, Serve(c, Got(data, left), result))
    requires s.requests[c].filename.None? && ParseIn(data, left).Some?
    ensures Parse(data).Some?
    ensures var t, u := Step(s, Serve(c, Got(data, left), result)), Parse(data).value;
            if !Taken(s, c, u.name) && result == Opened
            then t == s.(requests := s.requests[c := Request(Some(u.name), true, u.content)],
                         fds := s.fds[c := Fd(u.name, |u.content|)],
                         files := s.files[u.name := u.content],
                         replies := s.replies + [(c, Accept)])
            else t == s.(master := s.master - {c},
                         files := if !Taken(s, c, u.name) && result == Locked then s.files[u.name := []] else s.files,
                         replies := s.replies + [(c, Reject)])
  {
    hide Parse, ParseIn, HasCrLf, HasLineFeed, Received, Exclusive;
    ParsesInIff(data, left);
    var u := Parse(data).value;
    var s1 := s.(requests := s.requests[c := Request(Some(u.name), true, u.content)]);
    assert Owns(s, c, sent(c));
    assert s.requests[c] == NO_REQUEST && s.fds[c] == NoFd;
    SetTwice(s.requests, c, s1.requests[c], NO_REQUEST);
    SetTwice(s.fds, c, NoFd, NoFd);
    SetTwice(s.fds, c, Fd(u.name, 0), Fd(u.name, |u.content|));
    PutTwice(s.files, u.name, [], u.content);
    assert Taken(s1, c, u.name) <==> Taken(s, c, u.name);
    AppendAtEnd([], u.content);
    assert [] + u.content == u.content;
  }

  /** A later read is never rejected: it extends the file, and changes nothing else. */
  lemma {:induction false} LaterRead(
      s: State, c: nat, data: Bytes, left: Bytes, result: OpenResult, sent: nat -> seq<Bytes>)
    requires Formed(s) && Inv(s, sent) && Enabled(s, Serve(c, Got(data, left), result))
    requires s.requests[c].filename.Some?
    ensures var t, name := Step(s, Serve(c, Got(data, left), result)), s.requests[c].filename.value;
            && name in s.files
            && t == s.(requests := s.requests[c := Request(Some(name), true, data)],
                       fds := s.fds[c := Fd(name, |s.files[name]| + |data|)],
                       files := s.files[name := s.files[name] + data])
  {
    var name := s.requests[c].filename.value;
    var s1 := s.(requests := s.requests[c := Request(Some(name), true, data)]);
    assert Owns(s, c, sent(c));
    assert !Taken(s1, c, name);
    AppendAtEnd(s.files[name], data);
  }

  /** A connection that ends, fails, or never sent a name leaves the files alone. */
  lemma {:induction false} LastRead(s: State, c: nat, read: Read, result: OpenResult, sent: nat -> seq<Bytes>)
    requires Formed(s) && Inv(s, sent) && Enabled(s, Serve(c, read, result)) && !read.Got?
    ensures var t := Step(s, Serve(c, read, result));
            if s.requests[c].filename.None? && Rivals(s, c) then t == s.(running := false)
            else t == s.(master := s.master - {c},
                         requests := s.requests[c := NO_REQUEST],
                         fds := s.fds[c := NoFd],
                         replies := s.replies
                                    + if s.requests[c].filename.None? && read.Ended? then [(c, Reject)] else [])
  {
    assert Owns(s, c, sent(c));
    assert s.requests[c := s.requests[c]] == s.requests;
    assert s.(requests := s.requests) == s;
    assert s.replies + [] == s.replies;
    if s.requests[c].filename.Some? {
      assert !Taken(s, c, s.requests[c].filename.value);
    }
  }

  /** What the process does not survive: a first read without a line feed, or with a CR LF not in it but left behind
      it, and the end of a connection before its header while another has a name. */
  ghost predicate Fatal(s: State, e: Event)
    requires Formed(s)
  {
    && Enabled(s, e) && e.Serve? && s.requests[e.c].filename.None?
    && if e.read.Got?
       then !HasLineFeed(e.read.data) || (!HasCrLf(e.read.data) && HasCrLf(e.read.data + e.read.left))
       else Rivals(s, e.c)
  }

  lemma {:induction false} EndsIff(s: State, e: Event, sent: nat -> seq<Bytes>)
    requires Formed(s) && Inv(s, sent) && Enabled(s, e)
    ensures !Step(s, e).running <==> Fatal(s, e)
  {
    match e
    case Connect(_) =>
    case Serve(c, read, result) =>
      assert Owns(s, c, sent(c));
      if read.Got? {
        ParsesInIff(read.data, read.left);
        if s.requests[c].filename.Some? {
          LaterRead(s, c, read.data, read.left, result, sent);
        } else if ParseIn(read.data, read.left).Some? {
          FirstRead(s, c, read.data, read.left, result, sent);
        }
      } else {
        LastRead(s, c, read, result, sent);
      }
  }

  /** The first connection of all sends a whole header in its first read. */
  lemma {:induction false} OneUpload(maxfd: nat, disk: map<Bytes, Bytes>, data: Bytes, left: Bytes)
    requires 6 <= maxfd && 0 < |data| <= 512 && ParseIn(data, left).Some?
    ensures var t := Step(Step(Start(maxfd, disk), Connect(4)), Serve(4, Got(data, left), Opened));
            && t.running && t.master == {4} && |t.requests| == maxfd
            && t.requests[4].filename.Some? && t.requests[5] == NO_REQUEST
  {
    var start := Start(maxfd, disk);
    var sent := (c: nat) => [];
    ConnectKeepsInv(start, 4, sent, sent);
    FirstRead(Step(start, Connect(4)), 4, data, left, Opened, sent);
  }

  lemma {:induction false} EarlyEnd(s: State, c: nat, result: OpenResult)
    requires Formed(s) && Enabled(s, Serve(c, Ended, result)) && s.requests[c].filename.None? && Rivals(s, c)
    ensures !Step(s, Serve(c, Ended, result)).running
  {
    assert s.requests[c := s.requests[c]] == s.requests;
  }

  /** One upload is under way and a second connection ends before it has sent a header. */
  lemma {:induction false} EarlyEndStopsServer(maxfd: nat, disk: map<Bytes, Bytes>, left: Bytes)
    requires 6 <= maxfd
    ensures var first: Bytes := [97, 97, 97, 97, 97, 13, 10];
            var s := Step(Step(Step(Start(maxfd, disk), Connect(4)), Serve(4, Got(first, left), Opened)), Connect(5));
            s.running && s.master == {4, 5} && !Step(s, Serve(5, Ended, Opened)).running
  {
    var first: Bytes := [97, 97, 97, 97, 97, 13, 10];
    LeftCanMatter(left);
    OneUpload(maxfd, disk, first, left);
    var t := Step(Step(Start(maxfd, disk), Connect(4)), Serve(4, Got(first, left), Opened));
    var s := Step(t, Connect(5));
    assert 4 in s.master && s.requests[4].filename.Some?;
    EarlyEnd(s, 5, Opened);
  }

  /** A second connection whose header ends with LF, read over the first one's header that ended with CR LF:
      the second header is whole and names another file, and yet the process ends. */
  lemma {:induction false} OldHeaderStopsServer(maxfd: nat, disk: map<Bytes, Bytes>, left: Bytes)
    requires 6 <= maxfd
    ensures var first: Bytes := [97, 97, 97, 97, 97, 13, 10]; var second: Bytes := [98, 10, 104, 105];
            var s := Step(Step(Step(Start(maxfd, disk), Connect(4)), Serve(4, Got(first, left), Opened)), Connect(5));
            && s.running && s.master == {4, 5} && Parse(second) == Some(Upload([98], [104, 105]))
            && !Step(s, Serve(5, Got(second, first[|second|..]), Opened)).running
  {
    var first: Bytes := [97, 97, 97, 97, 97, 13, 10];
    LeftCanMatter(left);
    OneUpload(maxfd, disk, first, left);
  }

  // Every event keeps the invariant -------------------------------------------------------------

  lemma {:induction false} ConnectKeepsInv(s: State, c: nat, sent: nat -> seq<Bytes>, next: nat -> seq<Bytes>)
    requires Formed(s) && Inv(s, sent) && Enabled(s, Connect(c))
    requires forall d: nat :: next(d) == NextReads(sent(d), Connect(c), d)
    ensures Inv(Step(s, Connect(c)), next)
  {
    var t := Step(s, Connect(c));
    forall d | d in t.master ensures Owns(t, d, next(d)) {
      assert d != c ==> Owns(s, d, sent(d));
    }
  }

  lemma {:induction false} FirstReadKeepsInv(
      s: State, c: nat, data: Bytes, left: Bytes, result: OpenResult, sent: nat -> seq<Bytes>, next: nat -> seq<Bytes>)
    requires Formed(s) && Inv(s, sent) && Enabled(s, Serve(c, Got(data, left), result))
    requires s.requests[c].filename.None? && ParseIn(data, left).Some?
    requires forall d: nat :: next(d) == NextReads(sent(d), Serve(c, Got(data, left), result), d)
    ensures Inv(Step(s, Serve(c, Got(data, left), result)), next)
  {
    hide Parse, ParseIn, HasCrLf, HasLineFeed, Received, Step;
    ParsesInIff(data, left);
    var t, u := Step(s, Serve(c, Got(data, left), result)), Parse(data).value;
    FirstRead(s, c, data, left, result, sent);
    assert Owns(s, c, sent(c));
    ReceivedOne(data);
    forall d | d in t.master ensures Owns(t, d, next(d)) {
      if d == c {
        assert [] + [data] == [data];
      } else {
        assert Owns(s, d, sent(d));
      }
    }
  }

  lemma {:induction false} LaterReadKeepsInv(
      s: State, c: nat, data: Bytes, left: Bytes, result: OpenResult, sent: nat -> seq<Bytes>, next: nat -> seq<Bytes>)
    requires Formed(s) && Inv(s, sent) && Enabled(s, Serve(c, Got(data, left), result))
    requires s.requests[c].filename.Some?
    requires forall d: nat :: next(d) == NextReads(sent(d), Serve(c, Got(data, left), result), d)
    ensures Inv(Step(s, Serve(c, Got(data, left), result)), next)
  {
    var t := Step(s, Serve(c, Got(data, left), result));
    LaterRead(s, c, data, left, result, sent);
    forall d | d in t.master ensures Owns(t, d, next(d)) {
      assert Owns(s, d, sent(d));
      if d == c {
        ReceivedMore(sent(c), data);
      } else {
        assert t.requests[d] == s.requests[d];
      }
    }
  }

  lemma {:induction false} LastReadKeepsInv(
      s: State, c: nat, read: Read, result: OpenResult, sent: nat -> seq<Bytes>, next: nat -> seq<Bytes>)
    requires Formed(s) && Inv(s, sent) && Enabled(s, Serve(c, read, result)) && !read.Got?
    requires forall d: nat :: next(d) == NextReads(sent(d), Serve(c, read, result), d)
    ensures Inv(Step(s, Serve(c, read, result)), next)
  {
    var t := Step(s, Serve(c, read, result));
    LastRead(s, c, read, result, sent);
    forall d | d in t.master ensures Owns(t, d, next(d)) {
      assert Owns(s, d, sent(d));
    }
  }

  lemma {:induction false} StepKeepsInv(s: State, e: Event, sent: nat -> seq<Bytes>, next: nat -> seq<Bytes>)
    requires Formed(s) && Inv(s, sent) && Enabled(s, e)
    requires forall d: nat :: next(d) == NextReads(sent(d), e, d)
    ensures Step(s, e).running ==> Inv(Step(s, e), next)
  {
    match e
    case Connect(c) => ConnectKeepsInv(s, c, sent, next);
    case Serve(c, read, result) =>
      EndsIff(s, e, sent);
      if !read.Got? {
        LastReadKeepsInv(s, c, read, result, sent, next);
      } else if s.requests[c].filename.Some? {
        LaterReadKeepsInv(s, c, read.data, read.left, result, sent, next);
      } else {
        ParsesInIff(read.data, read.left);
        if ParseIn(read.data, read.left).Some? {
          FirstReadKeepsInv(s, c, read.data, read.left, result, sent, next);
        }
      }
  }

  // Every sequence of events ----------------------------------------------------------------------

  lemma {:induction false} Reachable(maxfd: nat, disk: map<Bytes, Bytes>, events: seq<Event>)
    ensures var s := After(Start(maxfd, disk), events);
            s.running ==> Inv(s, (c: nat) => ReadsOf(Start(maxfd, disk), events, c))
    decreases |events|
  {
    var start := Start(maxfd, disk);
    if |events| != 0 {
      var n := |events| - 1;
      var before, e := events[..n], events[n];
      var s := After(start, before);
      Reachable(maxfd, disk, before);
      var sent: nat -> seq<Bytes> := (c: nat) => ReadsOf(start, before, c);
      var next: nat -> seq<Bytes> := (c: nat) => ReadsOf(start, events, c);
      if Enabled(s, e) {
        StepKeepsInv(s, e, sent, next);
      } else if s.running {
        SameInv(s, sent, next);
      }
    }
  }

  lemma {:induction false} SameInv(s: State, sent: nat -> seq<Bytes>, next: nat -> seq<Bytes>)
    requires Formed(s) && Inv(s, sent) && forall d: nat :: next(d) == sent(d)
    ensures Inv(s, next)
  {
    forall d | d in s.master ensures Owns(s, d, next(d)) {
      assert Owns(s, d, sent(d));
    }
  }

  lemma {:induction false} StepRunsIff(maxfd: nat, disk: map<Bytes, Bytes>, events: seq<Event>, e: Event)
    ensures var s := After(Start(maxfd, disk), events); Step(s, e).running <==> s.running && !Fatal(s, e)
  {
    hide Inv, After, ReadsOf;
    var s := After(Start(maxfd, disk), events);
    if Enabled(s, e) {
      Reachable(maxfd, disk, events);
      EndsIff(s, e, (c: nat) => ReadsOf(Start(maxfd, disk), events, c));
    }
  }

  /** No event of the sequence is fatal where it happens. */
  ghost predicate Harmless(s: State, events: seq<Event>)
    requires Formed(s)
  {
    forall i :: 0 <= i < |events| ==> !Fatal(After(s, events[..i]), events[i])
  }

  lemma {:induction false} HarmlessMore(s: State, events: seq<Event>, n: nat)
    requires Formed(s) && |events| == n + 1
    ensures Harmless(s, events) <==> Harmless(s, events[..n]) && !Fatal(After(s, events[..n]), events[n])
  {
    hide After, Fatal;
    assert forall i :: 0 <= i < n ==> events[..n][..i] == events[..i] && events[..n][i] == events[i];
  }

  /** The server is still running after a sequence of events if and only if none was fatal where it happened. */
  lemma {:induction false} RunsOnIff(maxfd: nat, disk: map<Bytes, Bytes>, events: seq<Event>)
    ensures After(Start(maxfd, disk), events).running <==> Harmless(Start(maxfd, disk), events)
    decreases |events|
  {
    var start, n := Start(maxfd, disk), |events| - 1;
    if 0 <= n {
      hide Fatal, Step, Harmless;
      RunsOnIff(maxfd, disk, events[..n]);
      StepRunsIff(maxfd, disk, events[..n], events[n]);
      HarmlessMore(start, events, n);
    }
  }

  /** Names are never shared: in every reachable state the active file names are pairwise different. */
  lemma {:induction false} ExclusiveWriter(maxfd: nat, disk: map<Bytes, Bytes>, events: seq<Event>, i: nat, j: nat)
    requires var s := After(Start(maxfd, disk), events); s.running && i in s.master && j in s.master && i != j
    ensures var s := After(Start(maxfd, disk), events);
            s.requests[i].filename.Some? ==> s.requests[i].filename != s.requests[j].filename
  {
    Reachable(maxfd, disk, events);
  }

  /**
   In every reachable state, the file of an active upload is the concatenation of what its connection
   has sent so far without the header, whatever other connections did in between.
   */
  lemma {:induction false} UploadedContent(maxfd: nat, disk: map<Bytes, Bytes>, events: seq<Event>, c: nat)
    requires var s := After(Start(maxfd, disk), events); s.running && c in s.master
    ensures var s, pieces := After(Start(maxfd, disk), events), ReadsOf(Start(maxfd, disk), events, c);
            match s.requests[c].filename
            case None => pieces == []
            case Some(name) => name in s.files && 0 < |pieces| && Received(pieces) == Some(Upload(name, s.files[name]))
  {
    Reachable(maxfd, disk, events);
    var s := After(Start(maxfd, disk), events);
    assert Owns(s, c, ReadsOf(Start(maxfd, disk), events, c));
  }

  /** Once accepted, a connection is not rejected on a later read, and its file grows by that read. */
  lemma {:induction false} AcceptedStaysAccepted(
      maxfd: nat, disk: map<Bytes, Bytes>, events: seq<Event>, c: nat, data: Bytes, left: Bytes, result: OpenResult)
    requires var s := After(Start(maxfd, disk), events);
             Enabled(s, Serve(c, Got(data, left), result)) && s.requests[c].filename.Some?
    ensures var s := After(Start(maxfd, disk), events);
            var t, name := Step(s, Serve(c, Got(data, left), result)), s.requests[c].filename.value;
            && t.running && t.master == s.master && t.replies == s.replies
            && t.requests[c].filename == Some(name)
            && name in s.files && t.files == s.files[name := s.files[name] + data]
  {
    Reachable(maxfd, disk, events);
    var s := After(Start(maxfd, disk), events);
    LaterRead(s, c, data, left, result, (d: nat) => ReadsOf(Start(maxfd, disk), events, d));
  }

  /**
   When an upload ends, its file is what the whole stream of the connection parses to, if and only
   if the first read had the line end that the whole stream has.
   */
  lemma {:induction false} FinishedUploadIff(
      maxfd: nat, disk: map<Bytes, Bytes>, events: seq<Event>, c: nat, result: OpenResult)
    requires var s := After(Start(maxfd, disk), events);
             Enabled(s, Serve(c, Ended, result)) && s.requests[c].filename.Some?
    ensures var s := After(Start(maxfd, disk), events);
            var t, name := Step(s, Serve(c, Ended, result)), s.requests[c].filename.value;
            var pieces := ReadsOf(Start(maxfd, disk), events, c);
            && c !in t.master && t.files == s.files && name in t.files && 0 < |pieces|
            && (Parse(Concat(pieces)) == Some(Upload(name, t.files[name])) <==>
                  (HasCrLf(Concat(pieces)) ==> HasCrLf(pieces[0])))
  {
    UploadedContent(maxfd, disk, events, c);
    Reachable(maxfd, disk, events);
    var s, pieces := After(Start(maxfd, disk), events), ReadsOf(Start(maxfd, disk), events, c);
    LastRead(s, c, Ended, result, (d: nat) => ReadsOf(Start(maxfd, disk), events, d));
    ParsesIff(pieces[0]);
    ReceivedIsParseIff(pieces);
  }

  /** What is reached from a reachable state is reachable, so all of this holds wherever the loop starts anew. */
  lemma {:induction false} AfterConcat(s: State, a: seq<Event>, b: seq<Event>)
    requires Formed(s)
    ensures After(After(s, a), b) == After(s, a + b)
    decreases |b|
  {
    if |b| == 0 {
      assert a + b == a;
    } else {
      var n := |b| - 1;
      assert (a + b)[..|a + b| - 1] == a + b[..n];
      AfterConcat(s, a, b[..n]);
    }
  }

  // What a connection is told ----------------------------------------------------------------------

  ghost function RepliesTo(replies: seq<(nat, Reply)>, c: nat): seq<Reply> {
    if |replies| == 0 then []
    else
      var last := replies[|replies| - 1];
      RepliesTo(replies[..|replies| - 1], c) + if last.0 == c then [last.1] else []
  }

  /** What an event makes the server write to its connections. */
  ghost function Written(s: State, e: Event): seq<(nat, Reply)>
    requires Formed(s)
  {
    Step(s, e).replies[|s.replies|..]
  }

  /** What the connection that is, or was last, on descriptor `c` has been told since it connected. */
  ghost function AnswersOf(s: State, events: seq<Event>, c: nat): seq<Reply>
    requires Formed(s)
  {
    if |events| == 0 then []
    else
      var n := |events| - 1;
      NextAnswers(AnswersOf(s, events[..n], c), After(s, events[..n]), events[n], c)
  }

  ghost function NextAnswers(answers: seq<Reply>, s: State, e: Event, c: nat): seq<Reply>
    requires Formed(s)
  {
    (if e == Connect(c) && Enabled(s, e) then [] else answers) + RepliesTo(Written(s, e), c)
  }

  /** A connection is told something only on its first read, or when it ends before that: that it is accepted if it
      stays, that it is rejected if not. */
  lemma {:induction false} WrittenIs(s: State, e: Event, sent: nat -> seq<Bytes>)
    requires Formed(s) && Inv(s, sent) && Enabled(s, e) && Step(s, e).running
    ensures var t := Step(s, e);
            Written(s, e) == if e.Connect? || s.requests[e.c].filename.Some? || e.read.Failed? then []
                             else if e.c in t.master then [(e.c, Accept)] else [(e.c, Reject)]
  {
    if e.Serve? {
      OneServed(s, e.c, e.read, e.result, sent);
    }
    assert s.replies + [] == s.replies;
  }

  lemma {:induction false} OneReply(c: nat, reply: Reply, d: nat)
    ensures RepliesTo([], d) == [] && RepliesTo([(c, reply)], d) == if c == d then [reply] else []
  {
    assert [(c, reply)][..0] == [];
  }

  lemma {:induction false} WrittenTo(s: State, e: Event, sent: nat -> seq<Bytes>, c: nat)
    requires Formed(s) && Inv(s, sent) && Enabled(s, e) && Step(s, e).running
    ensures RepliesTo(Written(s, e), c)
         == if c != e.c || e.Connect? || s.requests[c].filename.Some? || e.read.Failed? then []
            else if c in Step(s, e).master then [Accept] else [Reject]
  {
    WrittenIs(s, e, sent);
    hide Written, Inv, RepliesTo, Step;
    OneReply(e.c, Accept, c);
    OneReply(e.c, Reject, c);
  }

  /** What becomes of the connection that is served, and of the others nothing. */
  lemma {:induction false} OneServed(s: State, c: nat, read: Read, result: OpenResult, sent: nat -> seq<Bytes>)
    requires Formed(s) && Inv(s, sent) && Enabled(s, Serve(c, read, result)) && Step(s, Serve(c, read, result)).running
    ensures var t := Step(s, Serve(c, read, result));
            && t.replies == s.replies
                            + (if s.requests[c].filename.Some? || read.Failed? then []
                               else if c in t.master then [(c, Accept)] else [(c, Reject)])
            && (c in t.master ==> t.requests[c].filename.Some?)
            && (s.requests[c].filename.Some? && read.Got? ==> c in t.master)
            && (c in t.master ==> read.Got?)
            && forall d :: d in s.master && d != c ==> d in t.master && t.requests[d] == s.requests[d]
    ensures Step(s, Serve(c, read, result)).master <= s.master
  {
    hide HasLineFeed, HasCrLf, ParseIn, Parse;
    EndsIff(s, Serve(c, read, result), sent);
    if !read.Got? {
      LastRead(s, c, read, result, sent);
    } else if s.requests[c].filename.Some? {
      LaterRead(s, c, read.data, read.left, result, sent);
    } else {
      ParsesInIff(read.data, read.left);
      FirstRead(s, c, read.data, read.left, result, sent);
    }
  }

  /** A connection without a name has been told nothing, one with a name once that it is accepted. */
  ghost predicate ToldOne(s: State, c: nat, answers: seq<Reply>)
    requires Formed(s)
  {
    && |answers| <= 1
    && (c in s.master ==> answers == if s.requests[c].filename.None? then [] else [Accept])
  }

  ghost predicate Told(s: State, answers: nat -> seq<Reply>)
    requires Formed(s)
  {
    forall c: nat :: ToldOne(s, c, answers(c))
  }

  lemma {:induction false} TellServed(s: State, e: Event, sent: nat -> seq<Bytes>, c: nat, answers: seq<Reply>)
    requires Formed(s) && Inv(s, sent) && Enabled(s, e) && e.Serve? && Step(s, e).running && ToldOne(s, c, answers)
    ensures ToldOne(Step(s, e), c, NextAnswers(answers, s, e, c))
  {
    OneServed(s, e.c, e.read, e.result, sent);
    WrittenTo(s, e, sent, c);
    hide Inv, Step, Written, RepliesTo;
    assert answers + [] == answers;
    assert [] + [Accept] == [Accept] && [] + [Reject] == [Reject];
  }

  lemma {:induction false} TellConnected(s: State, e: Event, sent: nat -> seq<Bytes>, c: nat, answers: seq<Reply>)
    requires Formed(s) && Inv(s, sent) && Enabled(s, e) && e.Connect? && ToldOne(s, c, answers)
    ensures ToldOne(Step(s, e), c, NextAnswers(answers, s, e, c))
  {
    WrittenTo(s, e, sent, c);
    assert s.requests[e.c] == NO_REQUEST;
    hide Inv, Written, RepliesTo;
    assert answers + [] == answers;
  }

  lemma {:induction false} TellStep(
      s: State, e: Event, sent: nat -> seq<Bytes>, answers: nat -> seq<Reply>, next: nat -> seq<Reply>)
    requires Formed(s) && Inv(s, sent) && Told(s, answers) && Enabled(s, e) && Step(s, e).running
    requires forall c: nat :: next(c) == NextAnswers(answers(c), s, e, c)
    ensures Told(Step(s, e), next)
  {
    hide Inv, Step, Enabled, NextAnswers, ToldOne;
    forall c: nat ensures ToldOne(Step(s, e), c, next(c)) {
      if e.Serve? {
        TellServed(s, e, sent, c, answers(c));
      } else {
        TellConnected(s, e, sent, c, answers(c));
      }
    }
  }

  lemma {:induction false} ToldInRuns(maxfd: nat, disk: map<Bytes, Bytes>, events: seq<Event>)
    ensures var s := After(Start(maxfd, disk), events);
            s.running ==> Told(s, (c: nat) => AnswersOf(Start(maxfd, disk), events, c))
    decreases |events|
  {
    var start := Start(maxfd, disk);
    if |events| != 0 {
      var n := |events| - 1;
      var before, e := events[..n], events[n];
      var s := After(start, before);
      ToldInRuns(maxfd, disk, before);
      Reachable(maxfd, disk, before);
      var answers: nat -> seq<Reply> := (c: nat) => AnswersOf(start, before, c);
      var next: nat -> seq<Reply> := (c: nat) => AnswersOf(start, events, c);
      if Step(s, e).running {
        if Enabled(s, e) {
          TellStep(s, e, (c: nat) => ReadsOf(start, before, c), answers, next);
        } else {
          assert Written(s, e) == [];
          assert forall c: nat :: next(c) == answers(c) + [];
        }
      }
    }
  }

  /** In every run a connection has been told nothing before its first read, exactly once ACCEPT while it is active
      and has a name, and never more than one thing. */
  lemma {:induction false} AnsweredOnce(maxfd: nat, disk: map<Bytes, Bytes>, events: seq<Event>, c: nat)
    requires After(Start(maxfd, disk), events).running
    ensures var s, answers := After(Start(maxfd, disk), events), AnswersOf(Start(maxfd, disk), events, c);
            && |answers| <= 1
            && (c in s.master && s.requests[c].filename.None? ==> answers == [])
            && (c in s.master && s.requests[c].filename.Some? ==> answers == [Accept])
  {
    ToldInRuns(maxfd, disk, events);
    var answers: nat -> seq<Reply> := (d: nat) => AnswersOf(Start(maxfd, disk), events, d);
    assert Told(After(Start(maxfd, disk), events), answers);
    assert answers(c) == AnswersOf(Start(maxfd, disk), events, c);
  }

  /** A connection that leaves without having got a name has been told REJECT, exactly once, unless it failed; one
      that had a name has been told nothing but ACCEPT. */
  lemma {:induction false} AnsweredOnLeaving(maxfd: nat, disk: map<Bytes, Bytes>, events: seq<Event>, e: Event)
    requires var s := After(Start(maxfd, disk), events);
             Enabled(s, e) && e.Serve? && Step(s, e).running && e.c !in Step(s, e).master
    ensures var s := After(Start(maxfd, disk), events);
            AnswersOf(Start(maxfd, disk), events + [e], e.c)
            == if s.requests[e.c].filename.Some? then [Accept] else if e.read.Failed? then [] else [Reject]
  {
    var start, s := Start(maxfd, disk), After(Start(maxfd, disk), events);
    AnsweredOnce(maxfd, disk, events, e.c);
    Reachable(maxfd, disk, events);
    WrittenTo(s, e, (c: nat) => ReadsOf(start, events, c), e.c);
    hide Inv, Step, Written, RepliesTo, After;
    assert (events + [e])[..|events|] == events;
    assert AnswersOf(start, events + [e], e.c) == AnswersOf(start, events, e.c) + RepliesTo(Written(s, e), e.c);
  }

  // A file between uploads ------------------------------------------------------------------------

  /** Some active connection has this name, or gets it from this event. */
  ghost predicate Claims(s: State, e: Event, name: Bytes)
    requires Formed(s)
  {
    && e.Serve? && e.c in s.master && e.read.Got?
    && match s.requests[e.c].filename
       case Some(mine) => mine == name
       case None => ParseIn(e.read.data, e.read.left).Some? && ParseIn(e.read.data, e.read.left).value.name == name
  }

  /** Only a read of a connection with its name changes a file. */
  lemma {:induction false} OnlyTheOwnerWrites(
      maxfd: nat, disk: map<Bytes, Bytes>, events: seq<Event>, e: Event, name: Bytes)
    requires !Claims(After(Start(maxfd, disk), events), e, name)
    ensures var s := After(Start(maxfd, disk), events); var t := Step(s, e);
            (name in t.files <==> name in s.files) && Contents(t.files, name) == Contents(s.files, name)
  {
    var s := After(Start(maxfd, disk), events);
    Reachable(maxfd, disk, events);
    var sent: nat -> seq<Bytes> := (d: nat) => ReadsOf(Start(maxfd, disk), events, d);
    hide Parse, ParseIn, HasCrLf, HasLineFeed, Inv, After;
    if Enabled(s, e) && e.Serve? {
      ParsesInIff(if e.read.Got? then e.read.data else [], if e.read.Got? then e.read.left else []);
      if !e.read.Got? {
        LastRead(s, e.c, e.read, e.result, sent);
      } else if s.requests[e.c].filename.Some? {
        LaterRead(s, e.c, e.read.data, e.read.left, e.result, sent);
      } else if ParseIn(e.read.data, e.read.left).Some? {
        FirstRead(s, e.c, e.read.data, e.read.left, e.result, sent);
      }
    }
  }

  /** A file stands through any events none of which is a read of a connection with its name. */
  lemma {:induction false} FileStands(maxfd: nat, disk: map<Bytes, Bytes>, events: seq<Event>, k: nat, name: Bytes)
    requires k <= |events|
    requires forall i :: k <= i < |events| ==> !Claims(After(Start(maxfd, disk), events[..i]), events[i], name)
    ensures var s, t := After(Start(maxfd, disk), events[..k]), After(Start(maxfd, disk), events);
            (name in t.files <==> name in s.files) && Contents(t.files, name) == Contents(s.files, name)
    decreases |events|
  {
    hide Claims, Step, Contents;
    if k == |events| {
      assert events[..k] == events;
    } else {
      var last := |events| - 1;
      var before := events[..last];
      assert before[..k] == events[..k];
      forall i | k <= i < last ensures !Claims(After(Start(maxfd, disk), before[..i]), before[i], name) {
        assert before[..i] == events[..i];
      }
      FileStands(maxfd, disk, before, k, name);
      OnlyTheOwnerWrites(maxfd, disk, before, events[last], name);
    }
  }
}
