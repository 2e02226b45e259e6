/** The client's tree after a pull is the server's visible tree. */
module PullRoundTrip {
  import opened ByteStrings
  import opened Options
  import opened PullMessages
  import opened PullServer
  import opened PullClient

  // What the server puts on the wire -------------------------------------------------

  function Sends(acts: seq<Act>): seq<Msg> {
    if |acts| == 0 then []
    else (if acts[0].Send? then [acts[0].msg] else []) + Sends(acts[1..])
  }

  lemma {:induction false} SendsConcat(a: seq<Act>, b: seq<Act>)
    ensures Sends(a + b) == Sends(a) + Sends(b)
  {
    if |a| == 0 {
      assert a + b == b;
    } else {
      assert (a + b)[0] == a[0] && (a + b)[1..] == a[1..] + b;
      SendsConcat(a[1..], b);
    }
  }

  lemma {:induction false} SendsOfSendAll(msgs: seq<Msg>)
    ensures Sends(SendAll(msgs)) == msgs
  {
    if |msgs| != 0 {
      assert SendAll(msgs)[1..] == SendAll(msgs[1..]);
      SendsOfSendAll(msgs[1..]);
    }
  }

  lemma {:induction false} SendsOfAnnounce(path: PathName, kind: Kind)
    requires 0 < |path| && 0 < |Join(path)|
    ensures Sends(Announce(path, kind))
         == [Header(0x00, 0x02), Meta(|Join(path)|, kind), Path(Join(path))]
  {
    var acts := Announce(path, kind);
    assert acts[1..][1..][1..][1..] == [];
    assert acts[1..][1..][1..] == [Send(Path(Join(path)))];
    assert Sends(acts[1..][1..][1..]) == [Path(Join(path))];
    assert Sends(acts[1..][1..]) == [] + [Path(Join(path))];
    assert Sends(acts[1..]) == [Meta(|Join(path)|, kind)] + [Path(Join(path))];
  }

  // What the tree should become --------------------------------------------------------

  /** The paths, kinds and contents of the visible part of a directory, under `prefix`. */
  ghost function Flatten(entries: seq<Entry>, prefix: PathName): Files
    decreases entries
  {
    if |entries| == 0 then map[] else FlattenEntry(entries[0], prefix) + Flatten(entries[1..], prefix)
  }

  ghost function FlattenEntry(e: Entry, prefix: PathName): Files
    decreases e
  {
    var path := prefix + [e.name];
    if Hidden(e.name) then map[]
    else
      match e.node
      case File(content) => map[path := FsFile(content)]
      case Dir(entries) => map[path := FsDir] + Flatten(entries, path)
  }

  ghost predicate Under(path: PathName, prefix: PathName) {
    |prefix| < |path| && path[..|prefix|] == prefix
  }

  ghost predicate Named(entries: seq<Entry>, name: string) {
    exists j :: 0 <= j < |entries| && entries[j].name == name
  }

  lemma {:induction false} FlattenKeys(entries: seq<Entry>, prefix: PathName)
    ensures forall p :: p in Flatten(entries, prefix) ==> Under(p, prefix) && Named(entries, p[|prefix|])
    decreases entries
  {
    if |entries| != 0 {
      FlattenEntryKeys(entries[0], prefix);
      FlattenKeys(entries[1..], prefix);
      forall p | p in Flatten(entries[1..], prefix) ensures Named(entries, p[|prefix|]) {
        var j :| 0 <= j < |entries[1..]| && entries[1..][j].name == p[|prefix|];
        assert entries[j + 1].name == p[|prefix|];
      }
    }
  }

  lemma {:induction false} FlattenEntryKeys(e: Entry, prefix: PathName)
    ensures forall p :: p in FlattenEntry(e, prefix) ==> Under(p, prefix) && p[|prefix|] == e.name
    decreases e
  {
    if !Hidden(e.name) && e.node.Dir? {
      var path := prefix + [e.name];
      FlattenKeys(e.node.entries, path);
      forall p | p in Flatten(e.node.entries, path) ensures Under(p, prefix) && p[|prefix|] == e.name {
        assert p[..|path|][..|prefix|] == prefix && p[..|path|][|prefix|] == e.name;
      }
    }
  }

  // The client rebuilds it ---------------------------------------------------------------

  /** Nothing the entries are about to create is there yet, and `prefix` is a directory. */
  ghost predicate Ready(files: Files, entries: seq<Entry>, prefix: PathName) {
    && (|prefix| == 0 || (prefix in files && files[prefix] == FsDir))
    && (forall i :: 0 <= i < |prefix| ==> GoodName(prefix[i]))
    && forall p :: p in files && Under(p, prefix) ==> !Named(entries, p[|prefix|])
  }

  /** The chunks of a file, and nothing of what follows them, complete the open file. */
  lemma {:induction false} FeedChunks(c: Client, path: PathName, content: Bytes, n: nat)
    requires 0 < n && c.phase == AwaitFileHeader(path) && path in c.files && c.files[path].FsFile?
    ensures Feed(c, Chunks(content, n), n)
         == c.(phase := AwaitHeader, files := c.files[path := FsFile(c.files[path].content + content)])
    decreases |content|
  {
    if |content| < n {
      FeedFrame(c, path, content, n);
    } else {
      var first, rest := content[..n], content[n..];
      var mid := c.(files := c.files[path := FsFile(c.files[path].content + first)]);
      FeedFrame(c, path, first, n);
      FeedChunks(mid, path, rest, n);
      FeedConcat(c, Frame(first), Chunks(rest, n), n);
      assert c.files[path].content + first + rest == c.files[path].content + content;
    }
  }

  lemma {:induction false} FeedFrame(c: Client, path: PathName, chunk: Bytes, n: nat)
    requires |chunk| <= n && 0 < n && c.phase == AwaitFileHeader(path) && path in c.files && c.files[path].FsFile?
    ensures Feed(c, Frame(chunk), n)
         == c.(phase := AfterChunk(path, |chunk|, n), files := c.files[path := FsFile(c.files[path].content + chunk)])
  {
    var one := Receive(c, FileHeader(|chunk|), n).0;
    assert Frame(chunk)[1..] == SendData(chunk);
    assert Feed(c, Frame(chunk), n) == Feed(one, SendData(chunk), n);
    if |chunk| == 0 {
      assert c.files[path].content + chunk == c.files[path].content;
      assert c.files[path := c.files[path]] == c.files;
    } else {
      assert SendData(chunk)[1..] == [];
      assert Feed(one, SendData(chunk), n) == Receive(one, Data(chunk), n).0;
    }
  }

  lemma {:induction false} FeedAnnounce(c: Client, path: PathName, kind: Kind, n: nat)
    requires c.phase == AwaitHeader && 0 < |path| && forall i :: 0 <= i < |path| ==> GoodName(path[i])
    ensures Feed(c, Sends(Announce(path, kind)), n) == Create(c, Join(path), kind)
  {
    SplitJoin(path);
    SendsOfAnnounce(path, kind);
    var text := Join(path);
    var c1, c2 := c.(phase := AwaitMeta(OP_NONE)), c.(phase := AwaitPath(|text|, kind));
    FeedFirst(c, Header(OP_NONE, STATUS_MORE), [Meta(|text|, kind), Path(text)], n);
    FeedFirst(c1, Meta(|text|, kind), [Path(text)], n);
    FeedFirst(c2, Path(text), [], n);
    assert Sends(Announce(path, kind)) == [Header(OP_NONE, STATUS_MORE)] + ([Meta(|text|, kind)] + ([Path(text)] + []));
    assert [Path(text)] + [] == [Path(text)];
    assert [Meta(|text|, kind)] + [Path(text)] == [Meta(|text|, kind), Path(text)];
  }

  lemma {:induction false} FeedFirst(c: Client, m: Msg, rest: seq<Msg>, n: nat)
    ensures Feed(c, [m] + rest, n) == Feed(Receive(c, m, n).0, rest, n)
  {
    assert ([m] + rest)[1..] == rest;
  }

  lemma {:induction false} UpdateTwice<K, V>(m: map<K, V>, k: K, v: V, w: V)
    ensures m[k := v][k := w] == m[k := w]
  {
  }

  lemma {:induction false} FeedFile(c: Client, content: Bytes, path: PathName, n: nat)
    requires 0 < n && c.phase == AwaitHeader && 0 < |path| && ParentExists(c.files, path) && path !in c.files
    requires forall i :: 0 <= i < |path| ==> GoodName(path[i])
    ensures Feed(c, Sends(Announce(path, Regular) + SendAll(Chunks(content, n))), n)
         == c.(files := c.files + map[path := FsFile(content)])
  {
    var frames := Chunks(content, n);
    SplitJoin(path);
    FeedAnnounce(c, path, Regular, n);
    SendsOfSendAll(frames);
    SendsConcat(Announce(path, Regular), SendAll(frames));
    FeedConcat(c, Sends(Announce(path, Regular)), frames, n);
    FeedChunks(Create(c, Join(path), Regular), path, content, n);
    assert [] + content == content;
    UpdateIsMerge(c.files, path, FsFile(content));
    UpdateTwice(c.files, path, FsFile([]), FsFile(content));
  }

  lemma {:induction false} FeedMkdir(c: Client, inner: seq<Act>, path: PathName, n: nat)
    requires c.phase == AwaitHeader && 0 < |path| && ParentExists(c.files, path) && path !in c.files
    requires forall i :: 0 <= i < |path| ==> GoodName(path[i])
    ensures Feed(c, Sends(Announce(path, Directory) + inner), n)
         == Feed(c.(files := c.files[path := FsDir]), Sends(inner), n)
  {
    SplitJoin(path);
    FeedAnnounce(c, path, Directory, n);
    SendsConcat(Announce(path, Directory), inner);
    FeedConcat(c, Sends(Announce(path, Directory)), Sends(inner), n);
  }

  lemma {:induction false} MergeMore<K, V>(a: map<K, V>, b: map<K, V>, c: map<K, V>)
    ensures a + b + c == a + (b + c)
  {
  }

  lemma {:induction false} UpdateIsMerge<K, V>(m: map<K, V>, k: K, v: V)
    ensures m[k := v] == m + map[k := v]
  {
  }

  lemma {:induction false} FeedEntry(c: Client, e: Entry, prefix: PathName, n: nat)
    requires 0 < n && c.phase == AwaitHeader && GoodName(e.name)
    requires e.node.Dir? ==> WellNamed(e.node.entries)
    requires Ready(c.files, [e], prefix)
    ensures Feed(c, Sends(EntryScript(e, prefix, n)), n) == c.(files := c.files + FlattenEntry(e, prefix))
    decreases e, 0
  {
    var path := prefix + [e.name];
    if Hidden(e.name) {
      assert c.files + map[] == c.files;
    } else {
      NewPath(c.files, e, prefix);
      match e.node
      case File(content) => FeedFile(c, content, path, n);
      case Dir(entries) =>
        ReadyInside(c.files, e, prefix);
        FeedMkdir(c, Script(entries, path, n), path, n);
        FeedScript(c.(files := c.files[path := FsDir]), entries, path, n);
        MergeMore(c.files, map[path := FsDir], Flatten(entries, path));
        UpdateIsMerge(c.files, path, FsDir);
    }
  }

  /** An entry about to be received is new, and its parent is there. */
  lemma {:induction false} NewPath(files: Files, e: Entry, prefix: PathName)
    requires Ready(files, [e], prefix) && GoodName(e.name)
    ensures var path := prefix + [e.name];
            && ParentExists(files, path) && path !in files
            && forall i :: 0 <= i < |path| ==> GoodName(path[i])
  {
    var path := prefix + [e.name];
    assert path[..|path| - 1] == prefix;
    assert [e][0].name == path[|prefix|];
  }

  lemma {:induction false} ReadyInside(files: Files, e: Entry, prefix: PathName)
    requires Ready(files, [e], prefix) && GoodName(e.name) && e.node.Dir?
    ensures var path := prefix + [e.name]; Ready(files[path := FsDir], e.node.entries, path)
  {
    var path := prefix + [e.name];
    assert [e][0].name == e.name;
    forall p | Under(p, path) ensures Under(p, prefix) && p[|prefix|] == e.name {
      assert p[..|path|][..|prefix|] == prefix && p[..|path|][|prefix|] == e.name;
    }
  }

  lemma {:induction false} ReadyAfter(files: Files, entries: seq<Entry>, prefix: PathName)
    requires 0 < |entries| && WellNamed(entries) && Ready(files, entries, prefix)
    ensures Ready(files, [entries[0]], prefix)
    ensures Ready(files + FlattenEntry(entries[0], prefix), entries[1..], prefix)
  {
    var e := entries[0];
    FlattenEntryKeys(e, prefix);
    forall p | Named([e], p) ensures Named(entries, p) {
      assert entries[0].name == p;
    }
    forall name | Named(entries[1..], name) ensures Named(entries, name) && name != e.name {
      var j :| 0 <= j < |entries[1..]| && entries[1..][j].name == name;
      assert entries[j + 1].name == name;
    }
  }

  /** Every `mkdir` and every open succeeds, and adds what the tree has. */
  lemma {:induction false} FeedScript(c: Client, entries: seq<Entry>, prefix: PathName, n: nat)
    requires 0 < n && c.phase == AwaitHeader && WellNamed(entries) && Ready(c.files, entries, prefix)
    ensures Feed(c, Sends(Script(entries, prefix, n)), n) == c.(files := c.files + Flatten(entries, prefix))
    decreases entries, 1
  {
    if |entries| == 0 {
      assert c.files + map[] == c.files;
    } else {
      var first, rest := EntryScript(entries[0], prefix, n), Script(entries[1..], prefix, n);
      ReadyAfter(c.files, entries, prefix);
      FeedEntry(c, entries[0], prefix, n);
      var mid := c.(files := c.files + FlattenEntry(entries[0], prefix));
      FeedScript(mid, entries[1..], prefix, n);
      SendsConcat(first, rest);
      FeedConcat(c, Sends(first), Sends(rest), n);
      MergeMore(c.files, FlattenEntry(entries[0], prefix), Flatten(entries[1..], prefix));
    }
  }

  /**
   The round trip: on the messages of a home directory with at least one entry, the client that
   started empty ends, with no `mkdir` or open refused, holding the visible tree.
   */
  lemma {:induction false} ClientRebuildsTree(home: seq<Entry>, n: nat)
    requires 0 < n && WellNamed(home) && 0 < |home|
    ensures Feed(EMPTY_CLIENT, Sends(LoginScript(home, n)), n) == Client(Finished, Flatten(home, []), false)
  {
    var body, bye := Script(home, [], n), [Send(Header(OP_NONE, STATUS_OK))];
    FeedScript(EMPTY_CLIENT, home, [], n);
    SendsConcat(body, bye);
    assert bye[1..] == [] && Sends(bye) == [Header(OP_NONE, STATUS_OK)] + [];
    FeedConcat(EMPTY_CLIENT, Sends(body), Sends(bye), n);
    assert map[] + Flatten(home, []) == Flatten(home, []);
  }

  // The visible tree, path by path ---------------------------------------------------------

  /** No component of the path starts with a dot. */
  ghost predicate Dotless(path: PathName) {
    forall i :: 0 <= i < |path| ==> !(0 < |path[i]| && path[i][0] == '.')
  }

  lemma {:induction false} DotlessIs(path: PathName)
    requires 0 < |path|
    ensures Dotless(path) <==> !Hidden(path[0]) && Dotless(path[1..])
  {
    assert forall i :: 0 < i < |path| ==> path[i] == path[1..][i - 1];
    assert forall i :: 0 <= i < |path| - 1 ==> path[1..][i] == path[i + 1];
  }

  /** The flattened tree has a path exactly if walking down the directory finds it and no component starts with
      a dot, and then it has what is found. */
  lemma {:induction false} FlattenIsLookup(entries: seq<Entry>, prefix: PathName, path: PathName)
    requires 0 < |path| && WellNamed(entries)
    ensures prefix + path in Flatten(entries, prefix) <==> Lookup(entries, path).Some? && Dotless(path)
    ensures prefix + path in Flatten(entries, prefix) ==>
              Flatten(entries, prefix)[prefix + path] == Lookup(entries, path).value
    decreases |path|, |entries|
  {
    if |entries| != 0 {
      FlattenIsLookup(entries[1..], prefix, path);
      if entries[0].name == path[0] {
        NotAmong(entries[1..], prefix, prefix + path, path[0]);
        LookupHere(entries, path);
        FlattenEntryIsLookup(entries[0], prefix, path);
      } else {
        FlattenEntryKeys(entries[0], prefix);
        assert (prefix + path)[|prefix|] == path[0];
      }
    }
  }

  /** Behind an entry with the name looked for there is no other. */
  lemma {:induction false} LookupHere(entries: seq<Entry>, path: PathName)
    requires 0 < |path| && 0 < |entries| && entries[0].name == path[0]
    ensures Lookup(entries, path) == Lookup([entries[0]], path)
  {
  }

  lemma {:induction false} FlattenEntryIsLookup(e: Entry, prefix: PathName, path: PathName)
    requires 0 < |path| && e.name == path[0] && (e.node.Dir? ==> WellNamed(e.node.entries))
    ensures prefix + path in FlattenEntry(e, prefix) <==> Lookup([e], path).Some? && Dotless(path)
    ensures prefix + path in FlattenEntry(e, prefix) ==>
              FlattenEntry(e, prefix)[prefix + path] == Lookup([e], path).value
    decreases |path|, 0
  {
    var whole, inner := prefix + path, prefix + [e.name];
    DotlessIs(path);
    if e.node.Dir? {
      FlattenKeys(e.node.entries, inner);
    }
    if |path| == 1 {
      assert whole == inner;
    } else {
      assert whole == inner + path[1..] && whole != inner;
      if e.node.Dir? {
        FlattenIsLookup(e.node.entries, inner, path[1..]);
      }
    }
  }

  lemma {:induction false} NotAmong(entries: seq<Entry>, prefix: PathName, path: PathName, name: string)
    requires |prefix| < |path| && path[|prefix|] == name && !Named(entries, name)
    ensures path !in Flatten(entries, prefix)
  {
    FlattenKeys(entries, prefix);
  }

  /** The tree the client ends with: a path is in it if and only if the home directory has it and no component
      starts with a dot, and then with the kind and content it has there. */
  lemma {:induction false} PulledTree(home: seq<Entry>, n: nat, path: PathName)
    requires 0 < n && WellNamed(home) && 0 < |home| && 0 < |path|
    ensures var files := Feed(EMPTY_CLIENT, Sends(LoginScript(home, n)), n).files;
            && (path in files <==>
                  && Lookup(home, path).Some?
                  && forall i :: 0 <= i < |path| ==> !(0 < |path[i]| && path[i][0] == '.'))
            && (path in files ==> files[path] == Lookup(home, path).value)
            && [] !in files
  {
    FlattenKeys(home, []);
    ClientRebuildsTree(home, n);
    FlattenIsLookup(home, [], path);
    assert [] + path == path;
  }
}
