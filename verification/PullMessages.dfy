/**
 What travels over the connection while a client pulls a tree (mp5/include/csiebox_common.h,
 mp5/src/send.c), and the framing of file contents in chunks of `n` bytes.

 One `Msg` is what one `send_message` sends. A message of length 0 is never sent, and
 never received: both functions return at once on length 0.
 */
module PullMessages {
  import opened ByteStrings
  import opened Modulo

  const STATUS_OK := 0x00
  const STATUS_MORE := 0x02
  const STATUS_BUSY := 0x03

  const OP_NONE := 0x00
  const OP_SYNC_HARDLINK := 0x03

  datatype Kind = Directory | Regular

  datatype Msg =
    | Header(op: int, status: int)
    | Meta(pathlen: nat, kind: Kind)
    | Path(text: string)
    | FileHeader(datalen: nat)
    | Data(bytes: Bytes)

  /** `send_message` on a buffer. */
  function SendData(bytes: Bytes): seq<Msg> {
    if |bytes| == 0 then [] else [Data(bytes)]
  }

  /** What `fread` returns next from a file of which `content` is left. */
  function Chunk(content: Bytes, n: nat): Bytes {
    if n <= |content| then content[..n] else content
  }

  function Frame(chunk: Bytes): seq<Msg> {
    [FileHeader(|chunk|)] + SendData(chunk)
  }

  /** The frames of a file: a chunk shorter than `n`, possibly empty, ends it. */
  function Chunks(content: Bytes, n: nat): seq<Msg>
    requires 0 < n
    decreases |content|
  {
    if |content| < n then Frame(content) else Frame(content[..n]) + Chunks(content[n..], n)
  }

  lemma {:induction false} NextChunk(content: Bytes, pos: nat, n: nat)
    requires 0 < n && pos <= |content|
    ensures var buf := Chunk(content[pos..], n);
            Chunks(content[pos..], n) == if |buf| == n then Frame(buf) + Chunks(content[pos + n..], n) else Frame(buf)
  {
    if n <= |content| - pos {
      assert content[pos..][n..] == content[pos + n..];
    }
  }

  lemma {:induction false} ConcatAssociates<T>(a: seq<T>, b: seq<T>, c: seq<T>)
    ensures a + (b + c) == a + b + c
    ensures [] + a == a == a + []
  {
  }

  /** The loop of `send_file`. */
  method SendFile(content: Bytes, n: nat) returns (sent: seq<Msg>)
    requires 0 < n
    ensures sent == Chunks(content, n)
  {
    hide Chunks, Frame;
    sent := [];
    var pos, num := 0, n;
    ghost var rest := Chunks(content, n);
    assert content[0..] == content;
    ConcatAssociates(rest, rest, rest);
    while num == n
      invariant 0 <= num <= n && pos <= |content|
      invariant sent + rest == Chunks(content, n) && (num < n ==> sent == Chunks(content, n))
      invariant num == n ==> rest == Chunks(content[pos..], n)
      decreases |content| - pos, num
    {
      var buf := Chunk(content[pos..], n);
      NextChunk(content, pos, n);
      num := |buf|;
      pos := pos + num;
      rest := if num == n then Chunks(content[pos..], n) else [];
      ConcatAssociates(sent, Frame(buf), rest);
      ConcatAssociates(Frame(buf), rest, rest);
      sent := sent + Frame(buf);
      ConcatAssociates(sent, rest, rest);
    }
  }

  /** The lengths announced by the frames, in order. */
  ghost function Lengths(frames: seq<Msg>): seq<nat> {
    if |frames| == 0 then []
    else (if frames[0].FileHeader? then [frames[0].datalen] else []) + Lengths(frames[1..])
  }

  lemma {:induction false} LengthsOfConcat(a: seq<Msg>, b: seq<Msg>)
    ensures Lengths(a + b) == Lengths(a) + Lengths(b)
  {
    if |a| == 0 {
      assert a + b == b;
    } else {
      assert (a + b)[0] == a[0] && (a + b)[1..] == a[1..] + b;
      LengthsOfConcat(a[1..], b);
    }
  }

  lemma {:induction false} LengthsOfFrame(chunk: Bytes)
    ensures Lengths(Frame(chunk)) == [|chunk|]
  {
    assert Frame(chunk)[1..] == SendData(chunk);
    if |chunk| != 0 {
      assert Lengths(SendData(chunk)) == [] + Lengths([Data(chunk)][1..]);
    }
  }

  lemma {:induction false} OneFrameFewer(len: nat, n: nat)
    requires 0 < n
    ensures if len < n then len / n == 0 && len % n == len
            else len / n == (len - n) / n + 1 && len % n == (len - n) % n
  {
    if len < n {
      QuotientIs(len, n, 0, len);
    } else {
      QuotientIs(len, n, (len - n) / n + 1, (len - n) % n);
    }
  }

  /** There are `|content| / n + 1` frames, and the last is the only one shorter than `n`. */
  lemma {:induction false} FrameLengths(content: Bytes, n: nat)
    requires 0 < n
    ensures var lengths := Lengths(Chunks(content, n));
            && |lengths| == |content| / n + 1
            && lengths[|lengths| - 1] == |content| % n
            && forall i :: 0 <= i < |lengths| - 1 ==> lengths[i] == n
    decreases |content|
  {
    OneFrameFewer(|content|, n);
    if |content| < n {
      LengthsOfFrame(content);
    } else {
      FrameLengths(content[n..], n);
      LengthsOfFrame(content[..n]);
      LengthsOfConcat(Frame(content[..n]), Chunks(content[n..], n));
    }
  }
}
