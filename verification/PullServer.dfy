/**
 The sending side of the pull: `traverse_file` and the login branch of mp5/src/csiebox_server.c,
 with `send_meta` and `send_file` of mp5/src/send.c.

 The server's directory is a tree of directories and singly linked regular files, its entries in
 the order `readdir` gives them. What the server does with its connection is a sequence of acts:
 sends, and waits for the acknowledgement of a meta message.
 */
module PullServer {
  import opened ByteStrings
  import opened Options
  import opened PullMessages

  datatype Node = File(content: Bytes) | Dir(entries: seq<Entry>)

  datatype Entry = Entry(name: string, node: Node)

  type PathName = seq<string>

  // Paths on the wire ----------------------------------------------------------------

  /** The path relative to the home directory, as `snprintf` builds it. */
  function Join(path: PathName): string
    requires 0 < |path|
  {
    if |path| == 1 then path[0] else Join(path[..|path| - 1]) + "/" + path[|path| - 1]
  }

  /** The index of the last '/', or -1. */
  function LastSlash(text: string): (k: int)
    ensures -1 <= k < |text|
    ensures 0 <= k ==> text[k] == '/'
    ensures forall j :: k < j < |text| ==> text[j] != '/'
  {
    if |text| == 0 then -1
    else if text[|text| - 1] == '/' then |text| - 1
    else LastSlash(text[..|text| - 1])
  }

  /** The components a file system finds in a path. */
  function Split(text: string): PathName {
    var k := LastSlash(text);
    if k < 0 then [text] else Split(text[..k]) + [text[k + 1..]]
  }

  predicate GoodName(name: string) {
    0 < |name| && '/' !in name
  }

  lemma {:induction false} LastSlashIs(text: string, k: int)
    requires -1 <= k < |text| && (0 <= k ==> text[k] == '/')
    requires forall j :: k < j < |text| ==> text[j] != '/'
    ensures LastSlash(text) == k
  {
    if k < |text| - 1 {
      LastSlashIs(text[..|text| - 1], k);
    }
  }

  lemma {:induction false} SplitNonempty(text: string)
    ensures 0 < |Split(text)|
  {
  }

  lemma {:induction false} SplitLast(front: string, last: string)
    requires '/' !in last
    ensures Split(front + "/" + last) == Split(front) + [last]
  {
    var text := front + "/" + last;
    LastSlashIs(text, |front|);
    assert text[..|front|] == front && text[|front| + 1..] == last;
  }

  lemma {:induction false} SplitOne(name: string)
    requires '/' !in name
    ensures Split(name) == [name]
  {
    LastSlashIs(name, -1);
  }

  /** A path survives the wire. */
  lemma {:induction false} SplitJoin(path: PathName)
    requires 0 < |path| && forall i :: 0 <= i < |path| ==> GoodName(path[i])
    ensures 0 < |Join(path)| && Split(Join(path)) == path
    ensures 1 < |path| ==> Join(path) == Join(path[..|path| - 1]) + [47 as char] + path[|path| - 1]
  {
    hide Split;
    var front, last := path[..|path| - 1], path[|path| - 1];
    assert path == front + [last];
    if |path| == 1 {
      SplitOne(last);
    } else {
      SplitJoin(front);
      SplitLast(Join(front), last);
    }
  }

  // The tree -------------------------------------------------------------------------

  predicate Hidden(name: string) {
    0 < |name| && name[0] == '.'
  }

  /** What any file system guarantees: names are nonempty, without '/', and distinct in a directory. */
  ghost predicate WellNamed(entries: seq<Entry>)
    decreases entries
  {
    |entries| == 0 || (
      && GoodName(entries[0].name)
      && (forall j :: 0 < j < |entries| ==> entries[j].name != entries[0].name)
      && (entries[0].node.Dir? ==> WellNamed(entries[0].node.entries))
      && WellNamed(entries[1..]))
  }

  datatype FsNode = FsDir | FsFile(content: Bytes)

  function Imprint(node: Node): FsNode {
    match node
    case File(content) => FsFile(content)
    case Dir(_) => FsDir
  }

  /** The node at a path, by walking down from `entries`. */
  ghost function Lookup(entries: seq<Entry>, path: PathName): Option<FsNode>
    requires 0 < |path|
    decreases |path|, |entries|
  {
    if |entries| == 0 then None
    else if entries[0].name != path[0] then Lookup(entries[1..], path)
    else if |path| == 1 then Some(Imprint(entries[0].node))
    else if entries[0].node.Dir? then Lookup(entries[0].node.entries, path[1..])
    else None
  }

  // What the server does ----------------------------------------------------------------

  datatype Act = Send(msg: Msg) | AwaitAck(retry: Msg)

  function SendAll(msgs: seq<Msg>): seq<Act> {
    seq(|msgs|, i requires 0 <= i < |msgs| => Send(msgs[i]))
  }

  /** The header of an entry, and `send_meta`. */
  function Announce(path: PathName, kind: Kind): seq<Act>
    requires 0 < |path|
  {
    var meta := Meta(|Join(path)|, kind);
    [Send(Header(OP_NONE, STATUS_MORE)), Send(meta), AwaitAck(meta)]
    + if |Join(path)| == 0 then [] else [Send(Path(Join(path)))]
  }

  function EntryScript(e: Entry, prefix: PathName, n: nat): seq<Act>
    requires 0 < n
    decreases e
  {
    var path := prefix + [e.name];
    if Hidden(e.name) then []
    else
      match e.node
      case File(content) => Announce(path, Regular) + SendAll(Chunks(content, n))
      case Dir(entries) => Announce(path, Directory) + Script(entries, path, n)
  }

  function Script(entries: seq<Entry>, prefix: PathName, n: nat): seq<Act>
    requires 0 < n
    decreases entries
  {
    if |entries| == 0 then []
    else EntryScript(entries[0], prefix, n) + Script(entries[1..], prefix, n)
  }

  lemma {:induction false} ScriptStep(dir: seq<Entry>, i: nat, prefix: PathName, n: nat)
    requires 0 < n && i < |dir|
    ensures Script(dir[i..], prefix, n) == EntryScript(dir[i], prefix, n) + Script(dir[i + 1..], prefix, n)
    ensures Hidden(dir[i].name) ==> Script(dir[i..], prefix, n) == Script(dir[i + 1..], prefix, n)
  {
    assert dir[i..][1..] == dir[i + 1..];
    assert [] + Script(dir[i + 1..], prefix, n) == Script(dir[i + 1..], prefix, n);
  }

  lemma {:induction false} ScriptEnds(dir: seq<Entry>, prefix: PathName, n: nat)
    requires 0 < n
    ensures Script(dir[|dir|..], prefix, n) == [] && dir[0..] == dir
    ensures forall acts: seq<Act> :: acts + [] == acts && [] + acts == acts
  {
  }

  /** `traverse_file`: the acts of a directory, entry by entry, each directory before its contents. */
  method TraverseFile(dir: seq<Entry>, prefix: PathName, n: nat) returns (acts: seq<Act>)
    requires 0 < n
    ensures acts == Script(dir, prefix, n)
    decreases dir
  {
    hide Script, Announce, SendAll;
    acts := [];
    ScriptEnds(dir, prefix, n);
    for i := 0 to |dir|
      invariant acts + Script(dir[i..], prefix, n) == Script(dir, prefix, n)
    {
      var e, path := dir[i], prefix + [dir[i].name];
      ScriptStep(dir, i, prefix, n);
      if Hidden(e.name) {
        continue;
      }
      var part := Announce(path, if e.node.Dir? then Directory else Regular);
      if e.node.File? {
        var sent := SendFile(e.node.content, n);
        part := part + SendAll(sent);
      }
      if e.node.Dir? {
        var inner := TraverseFile(e.node.entries, path, n);
        part := part + inner;
      }
      ConcatAssociates(acts, part, Script(dir[i + 1..], prefix, n));
      acts := acts + part;
    }
  }

  /**
   The login branch: only a home directory with more than the two entries '.' and '..' is sent,
   and only then does a header with status OK follow.
   */
  method Login(home: seq<Entry>, n: nat) returns (acts: seq<Act>)
    requires 0 < n
    ensures acts == LoginScript(home, n)
  {
    acts := [];
    var num := 2 + |home|;
    if 2 < num {
      acts := TraverseFile(home, [], n);
      acts := acts + [Send(Header(OP_NONE, STATUS_OK))];
    }
  }

  function LoginScript(home: seq<Entry>, n: nat): seq<Act>
    requires 0 < n
  {
    if |home| == 0 then [] else Script(home, [], n) + [Send(Header(OP_NONE, STATUS_OK))]
  }
}
