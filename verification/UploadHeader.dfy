/**
 The header of an upload (`handle_read` in sp_even_hw1.c): the file name, ended by the first
 CR LF or, if there is none, by the first LF. What follows it is content.

 The buffer is neither cleared before a read nor terminated after it, so what is searched are the
 bytes read and, up to the next NUL, whatever is left in memory behind them. `Parse` is the header
 of bytes with nothing behind them, `ParseIn` what the source does.
 */
module UploadHeader {
  import opened ByteStrings
  import opened Options

  const NUL: bv8 := 0
  const LINE_FEED: Bytes := [10]
  const CR_LF: Bytes := [13, 10]

  /** What `strstr` can see of a buffer: the bytes before the first NUL. */
  function Text(buf: Bytes): (t: Bytes)
    ensures t <= buf && NUL !in t
    ensures |t| < |buf| ==> buf[|t|] == NUL
  {
    if |buf| == 0 || buf[0] == NUL then [] else [buf[0]] + Text(buf[1..])
  }

  predicate OccursAt(text: Bytes, pattern: Bytes, k: nat) {
    k + |pattern| <= |text| && text[k..k + |pattern|] == pattern
  }

  ghost predicate Occurs(text: Bytes, pattern: Bytes) {
    exists k: nat :: OccursAt(text, pattern, k)
  }

  /** The first occurrence at index `i` or later, or -1. */
  function Search(text: Bytes, pattern: Bytes, i: nat): (p: int)
    ensures p == -1 || (i <= p && OccursAt(text, pattern, p))
    ensures forall k: nat :: i <= k && OccursAt(text, pattern, k) ==> i <= p <= k
    decreases |text| - i
  {
    if |text| < i + |pattern| then -1
    else if OccursAt(text, pattern, i) then i
    else if i == |text| then -1
    else Search(text, pattern, i + 1)
  }

  /** `strstr`, with -1 for the null pointer. */
  function Strstr(text: Bytes, pattern: Bytes): (p: int)
    ensures p == -1 || (0 <= p && OccursAt(text, pattern, p))
    ensures forall k: nat :: OccursAt(text, pattern, k) ==> 0 <= p <= k
  {
    Search(text, pattern, 0)
  }

  /** A file name and the content that came with it. */
  datatype Upload = Upload(name: Bytes, content: Bytes)

  /** Where the header ends, and the length of its line end. */
  function HeaderEnd(memory: Bytes): (end: Option<(nat, nat)>)
    ensures end.Some? ==> end.value.0 + end.value.1 <= |memory|
  {
    var p1, p2 := Strstr(Text(memory), CR_LF), Strstr(Text(memory), LINE_FEED);
    if 0 <= p1 then Some((p1, 2)) else if 0 <= p2 then Some((p2, 1)) else None
  }

  function Parse(buf: Bytes): Option<Upload> {
    match HeaderEnd(buf)
    case None => None
    case Some((p, len)) => Some(Upload(buf[..p], buf[p + len..]))
  }

  /**
   The header branch of `handle_read`, with `left` in memory behind the bytes read. None is where it
   ends the process: by `exit` if no line end is found, and by copying a negative number of bytes,
   as a `size_t`, if the line end found does not lie in the bytes read.
   */
  function ParseIn(data: Bytes, left: Bytes): Option<Upload> {
    match HeaderEnd(data + left)
    case None => None
    case Some((p, len)) => if |data| < p + len then None else Some(Upload(data[..p], data[p + len..]))
  }

  /** The upload that the reads of a connection amount to, by the header of the first alone. */
  function Received(pieces: seq<Bytes>): Option<Upload>
    requires 0 < |pieces|
  {
    match Parse(pieces[0])
    case None => None
    case Some(u) => Some(u.(content := u.content + Concat(pieces[1..])))
  }

  /** One more read is more content. */
  lemma {:induction false} ReceivedMore(pieces: seq<Bytes>, last: Bytes)
    requires 0 < |pieces| && Received(pieces).Some?
    ensures var u := Received(pieces).value; Received(pieces + [last]) == Some(u.(content := u.content + last))
  {
    assert (pieces + [last])[1..] == pieces[1..] + [last];
    ConcatMore(pieces[1..], last);
    var u := Parse(pieces[0]).value;
    assert u.content + (Concat(pieces[1..]) + last) == u.content + Concat(pieces[1..]) + last;
  }

  // How the stream is split into reads ---------------------------------------------------

  lemma {:induction false} TextOfPrefix(a: Bytes, b: Bytes)
    ensures Text(a) <= Text(a + b)
  {
    if |a| == 0 {
    } else {
      assert (a + b)[1..] == a[1..] + b;
      TextOfPrefix(a[1..], b);
    }
  }

  lemma {:induction false} OccursInPrefix(t: Bytes, u: Bytes, pattern: Bytes, k: nat)
    requires t <= u
    ensures k + |pattern| <= |t| ==> (OccursAt(t, pattern, k) <==> OccursAt(u, pattern, k))
  {
    if k + |pattern| <= |t| {
      assert u[k..k + |pattern|] == t[k..k + |pattern|];
    }
  }

  lemma {:induction false} FoundInPrefix(t: Bytes, u: Bytes, pattern: Bytes)
    requires t <= u && 0 <= Strstr(t, pattern)
    ensures Strstr(u, pattern) == Strstr(t, pattern)
  {
    OccursInPrefix(t, u, pattern, Strstr(t, pattern));
    OccursInPrefix(t, u, pattern, Strstr(u, pattern));
  }

  lemma {:induction false} FoundIff(text: Bytes, pattern: Bytes)
    requires 0 < |pattern|
    ensures 0 <= Strstr(text, pattern) <==> Occurs(text, pattern)
  {
  }

  /** Header ends, in what `strstr` sees of a buffer. */
  ghost predicate HasLineFeed(buf: Bytes) {
    Occurs(Text(buf), LINE_FEED)
  }

  ghost predicate HasCrLf(buf: Bytes) {
    Occurs(Text(buf), CR_LF)
  }

  /** Where a buffer has a CR LF, it has a line feed. */
  lemma {:induction false} CrLfHasLineFeed(buf: Bytes)
    ensures HasCrLf(buf) ==> HasLineFeed(buf)
  {
    if HasCrLf(buf) {
      var text := Text(buf);
      var k: nat :| OccursAt(text, CR_LF, k);
      LineFeedInside(text, k);
    }
  }

  lemma {:induction false} LineFeedInside(text: Bytes, k: nat)
    requires OccursAt(text, CR_LF, k)
    ensures text[k] == 13 && OccursAt(text, LINE_FEED, k + 1)
  {
    assert text[k..k + 2][0] == text[k] && text[k..k + 2][1] == text[k + 1];
  }

  lemma {:induction false} ParsesIff(buf: Bytes)
    ensures Parse(buf).Some? <==> HasLineFeed(buf)
  {
    FoundIff(Text(buf), CR_LF);
    FoundIff(Text(buf), LINE_FEED);
    CrLfHasLineFeed(buf);
  }

  lemma {:induction false} HasInPrefix(first: Bytes, rest: Bytes, pattern: Bytes)
    ensures Occurs(Text(first), pattern) ==> Occurs(Text(first + rest), pattern)
  {
    TextOfPrefix(first, rest);
    if Occurs(Text(first), pattern) {
      var k: nat :| OccursAt(Text(first), pattern, k);
      OccursInPrefix(Text(first), Text(first + rest), pattern, k);
    }
  }

  /** With a CR LF in `data`, or a line feed and no CR LF with what follows either, the header ends in `data`. */
  lemma {:induction false} EndKept(data: Bytes, left: Bytes)
    requires HasCrLf(data) || (HasLineFeed(data) && !HasCrLf(data + left))
    ensures HeaderEnd(data).Some? && HeaderEnd(data + left) == HeaderEnd(data)
  {
    var short, long := Text(data), Text(data + left);
    TextOfPrefix(data, left);
    FoundIff(short, CR_LF);
    FoundIff(short, LINE_FEED);
    FoundIff(long, CR_LF);
    if HasCrLf(data) {
      FoundInPrefix(short, long, CR_LF);
    } else {
      FoundInPrefix(short, long, LINE_FEED);
      HasInPrefix(data, left, CR_LF);
    }
  }

  /** If the first read has the same kind of header end as the whole stream, it has the same one. */
  lemma {:induction false} SameHeader(first: Bytes, rest: Bytes)
    requires HasLineFeed(first) && (HasCrLf(first) || !HasCrLf(first + rest))
    ensures Parse(first).Some?
    ensures Parse(first + rest) == Some(Upload(Parse(first).value.name, Parse(first).value.content + rest))
  {
    hide HasCrLf, HasLineFeed, HeaderEnd;
    EndKept(first, rest);
    var (p, len) := HeaderEnd(first).value;
    Cut(first, rest, p, len);
  }

  lemma {:induction false} Cut(first: Bytes, rest: Bytes, p: nat, len: nat)
    requires p + len <= |first|
    ensures (first + rest)[..p] == first[..p]
    ensures (first + rest)[p + len..] == first[p + len..] + rest
  {
  }

  lemma {:induction false} NoCrBefore(short: Bytes, long: Bytes, q: nat, p: nat)
    requires short <= long && OccursAt(short, LINE_FEED, q) && OccursAt(long, CR_LF, p) && !Occurs(short, CR_LF)
    requires forall k: nat :: OccursAt(short, LINE_FEED, k) ==> q <= k
    ensures q < p
  {
    LineFeedInside(long, p);
    OccursInPrefix(short, long, CR_LF, p);
    OccursInPrefix(short, long, LINE_FEED, p + 1);
    assert short[q..q + 1][0] == 10;
  }

  /** An LF header in a stream with a later CR LF: the name would be another one. */
  lemma {:induction false} OtherHeader(first: Bytes, rest: Bytes)
    requires HasLineFeed(first) && !HasCrLf(first) && HasCrLf(first + rest)
    ensures Parse(first).Some? && Parse(first + rest).Some?
    ensures |Parse(first).value.name| < |Parse(first + rest).value.name|
  {
    var short, long := Text(first), Text(first + rest);
    TextOfPrefix(first, rest);
    FoundIff(short, CR_LF);
    FoundIff(short, LINE_FEED);
    FoundIff(long, CR_LF);
    NoCrBefore(short, long, Strstr(short, LINE_FEED), Strstr(long, CR_LF));
  }

  /** The reads of a connection and its whole stream give one upload if and only if the first read has a line
      end whenever the stream has one, and a CR LF whenever the stream has one. */
  lemma {:induction false} ReceivedIsParseIff(pieces: seq<Bytes>)
    requires 0 < |pieces|
    ensures Received(pieces) == Parse(Concat(pieces)) <==>
            && (HasLineFeed(Concat(pieces)) ==> HasLineFeed(pieces[0]))
            && (HasCrLf(Concat(pieces)) ==> HasCrLf(pieces[0]))
  {
    var first, rest := pieces[0], Concat(pieces[1..]);
    ParsesIff(first);
    ParsesIff(first + rest);
    CrLfHasLineFeed(first + rest);
    if HasLineFeed(first) {
      if HasCrLf(first) || !HasCrLf(first + rest) {
        SameHeader(first, rest);
      } else {
        OtherHeader(first, rest);
      }
    }
  }

  // What is left in memory ----------------------------------------------------------------

  lemma {:induction false} EndBehind(data: Bytes, left: Bytes)
    requires !HasCrLf(data) && (HasLineFeed(data) ==> HasCrLf(data + left))
    ensures var end := HeaderEnd(data + left); end.Some? ==> |data| < end.value.0 + end.value.1
  {
    FoundIff(Text(data + left), CR_LF);
    if HasCrLf(data + left) {
      FoundBehind(data, left, CR_LF);
    } else {
      FoundBehind(data, left, LINE_FEED);
    }
  }

  /** A first read gives an upload if and only if it has a line feed, and either a CR LF or no CR LF in what is
      left behind it; and then it is the upload of the bytes read. */
  lemma {:induction false} ParsesInIff(data: Bytes, left: Bytes)
    ensures ParseIn(data, left).Some? <==> HasLineFeed(data) && (HasCrLf(data) || !HasCrLf(data + left))
    ensures ParseIn(data, left).Some? ==> ParseIn(data, left) == Parse(data)
  {
    hide HasCrLf, HasLineFeed, HeaderEnd;
    CrLfHasLineFeed(data);
    if HasCrLf(data) || (HasLineFeed(data) && !HasCrLf(data + left)) {
      EndKept(data, left);
    } else {
      EndBehind(data, left);
    }
  }

  /** What is found with the bytes left, and not without them, does not lie in the bytes read. */
  lemma {:induction false} FoundBehind(data: Bytes, left: Bytes, pattern: Bytes)
    requires 0 < |pattern| && !Occurs(Text(data), pattern)
    ensures var p := Strstr(Text(data + left), pattern); 0 <= p ==> |data| < p + |pattern|
  {
    var short, long := Text(data), Text(data + left);
    TextOfPrefix(data, left);
    TextStops(data, left);
    var p := Strstr(long, pattern);
    if 0 <= p {
      OccursInPrefix(short, long, pattern, p);
    }
  }

  /** A NUL among the bytes read ends the search there. */
  lemma {:induction false} TextStops(data: Bytes, left: Bytes)
    ensures if NUL in data then Text(data + left) == Text(data)
            else Text(data) == data && Text(data + left) == data + Text(left)
  {
    if |data| == 0 {
      assert data + left == left;
    } else {
      assert (data + left)[1..] == data[1..] + left;
      TextStops(data[1..], left);
    }
  }

  lemma {:induction false} CrLfBehind(data: Bytes)
    requires NUL !in data
    ensures HasCrLf(data + CR_LF)
  {
    NoNul(data + CR_LF);
    OccursElementwise(data + CR_LF, |data|);
  }

  lemma {:induction false} SameTextAt(data: Bytes, left: Bytes)
    requires NUL in data
    ensures HasCrLf(data + left) == HasCrLf(data) && HasLineFeed(data + left) == HasLineFeed(data)
  {
    TextStops(data, left);
  }

  /** A read with a line feed is parsed alike whatever is left behind it if and only if it has a CR LF or a NUL. */
  lemma {:induction false} LeftIrrelevantIff(data: Bytes)
    requires HasLineFeed(data)
    ensures (forall left :: ParseIn(data, left) == Parse(data)) <==> HasCrLf(data) || NUL in data
  {
    hide HasCrLf, HasLineFeed, Parse, ParseIn;
    ParsesIff(data);
    forall left ensures ParseIn(data, left) == Parse(data) <==> HasCrLf(data) || !HasCrLf(data + left) {
      ParsesInIff(data, left);
    }
    if NUL in data {
      forall left ensures HasCrLf(data + left) <==> HasCrLf(data) {
        SameTextAt(data, left);
      }
    } else {
      CrLfBehind(data);
      assert ParseIn(data, CR_LF) == Parse(data) <==> HasCrLf(data);
    }
  }

  /** What comes of a connection that sends `pieces`, with `left` behind the first of them. */
  function Outcome(pieces: seq<Bytes>, left: Bytes): Option<Upload>
    requires 0 < |pieces|
  {
    if ParseIn(pieces[0], left).None? then None else Received(pieces)
  }

  /**
   What comes of a stream depends on the stream alone, neither on how it is split into reads nor on what
   is left in memory, if and only if, when it has a line end at all, its first read has a CR LF or a NUL.
   */
  lemma {:induction false} StreamDecidesIff(pieces: seq<Bytes>)
    requires 0 < |pieces|
    ensures (forall left :: Outcome(pieces, left) == Parse(Concat(pieces))) <==>
            (HasLineFeed(Concat(pieces)) ==> HasCrLf(pieces[0]) || NUL in pieces[0])
  {
    var first, stream := pieces[0], Concat(pieces);
    forall left ensures Outcome(pieces, left) == Parse(stream) <==>
                        && (HasLineFeed(stream) ==> HasLineFeed(first))
                        && (HasCrLf(stream) ==> HasCrLf(first))
                        && (HasLineFeed(first) ==> HasCrLf(first) || !HasCrLf(first + left))
    {
      SplitIrrelevantIff(pieces, left);
    }
    assert stream == first + Concat(pieces[1..]);
    TextStops(first, Concat(pieces[1..]));
    HasInPrefix(first, Concat(pieces[1..]), LINE_FEED);
    CrLfHasLineFeed(first);
    CrLfHasLineFeed(stream);
    if HasLineFeed(first) {
      LeftMatters(first);
    }
  }

  lemma {:induction false} LeftMatters(data: Bytes)
    requires HasLineFeed(data)
    ensures (forall left :: HasCrLf(data) || !HasCrLf(data + left)) <==> HasCrLf(data) || NUL in data
  {
    LeftIrrelevantIff(data);
    ParsesIff(data);
    forall left ensures ParseIn(data, left) == Parse(data) <==> HasCrLf(data) || !HasCrLf(data + left) {
      ParsesInIff(data, left);
    }
  }

  /** The same for given bytes left in memory. */
  lemma {:induction false} SplitIrrelevantIff(pieces: seq<Bytes>, left: Bytes)
    requires 0 < |pieces|
    ensures Outcome(pieces, left) == Parse(Concat(pieces)) <==>
            && (HasLineFeed(Concat(pieces)) ==> HasLineFeed(pieces[0]))
            && (HasCrLf(Concat(pieces)) ==> HasCrLf(pieces[0]))
            && (HasLineFeed(pieces[0]) ==> HasCrLf(pieces[0]) || !HasCrLf(pieces[0] + left))
  {
    var first := pieces[0];
    ReceivedIsParseIff(pieces);
    ParsesInIff(first, left);
    ParsesIff(first);
    ParsesIff(Concat(pieces));
    HasInPrefix(first, Concat(pieces[1..]), LINE_FEED);
  }

  lemma {:induction false} ReceivedOne(data: Bytes)
    ensures Received([data]) == Parse(data)
  {
    assert Concat([data][1..]) == [];
    if Parse(data).Some? {
      assert Parse(data).value.content + [] == Parse(data).value.content;
    }
  }

  // Concrete streams ------------------------------------------------------------------------

  lemma {:induction false} OccursElementwise(text: Bytes, k: nat)
    ensures OccursAt(text, LINE_FEED, k) <==> k < |text| && text[k] == 10
    ensures OccursAt(text, CR_LF, k) <==> k + 1 < |text| && text[k] == 13 && text[k + 1] == 10
  {
    if k + 1 < |text| {
      assert text[k..k + 2] == [text[k], text[k + 1]];
    }
    if k < |text| {
      assert text[k..k + 1] == [text[k]];
    }
  }

  /** A read without NUL whose first CR LF is at `p`. */
  lemma {:induction false} CrLfHeader(data: Bytes, p: nat)
    requires NUL !in data && p + 1 < |data| && data[p] == 13 && data[p + 1] == 10
    requires forall k :: 0 <= k < p ==> data[k] != 13
    ensures Parse(data) == Some(Upload(data[..p], data[p + 2..])) && HasCrLf(data)
  {
    NoNul(data);
    FirstCrLf(data, p);
    FoundIff(data, CR_LF);
  }

  lemma {:induction false} FirstCrLf(text: Bytes, p: nat)
    requires p + 1 < |text| && text[p] == 13 && text[p + 1] == 10 && forall k :: 0 <= k < p ==> text[k] != 13
    ensures Strstr(text, CR_LF) == p
  {
    OccursElementwise(text, p);
    OccursElementwise(text, Strstr(text, CR_LF));
  }

  lemma {:induction false} FirstLineFeed(text: Bytes, p: nat)
    requires p < |text| && text[p] == 10 && forall k :: 0 <= k < p ==> text[k] != 10
    ensures Strstr(text, LINE_FEED) == p
  {
    OccursElementwise(text, p);
    OccursElementwise(text, Strstr(text, LINE_FEED));
  }

  lemma {:induction false} NoCrLf(text: Bytes)
    requires 13 !in text
    ensures Strstr(text, CR_LF) == -1
  {
    var p := Strstr(text, CR_LF);
    OccursElementwise(text, if 0 <= p then p else 0);
  }

  /** A read without NUL and CR whose first LF is at `p`. */
  lemma {:induction false} LfHeader(data: Bytes, p: nat)
    requires NUL !in data && 13 !in data && p < |data| && data[p] == 10
    requires forall k :: 0 <= k < p ==> data[k] != 10
    ensures Parse(data) == Some(Upload(data[..p], data[p + 1..])) && HasLineFeed(data) && !HasCrLf(data)
  {
    NoNul(data);
    FirstLineFeed(data, p);
    NoCrLf(data);
    FoundIff(data, LINE_FEED);
    FoundIff(data, CR_LF);
  }

  /** "a", LF, "b", CR, LF: split after the LF the name is "a", read at once it is "a", LF, "b". */
  lemma {:induction false} SplitCanMatter()
    ensures Outcome([[97, 10], [98, 13, 10]], []) == Some(Upload([97], [98, 13, 10]))
    ensures Outcome([[97, 10, 98, 13, 10]], []) == Some(Upload([97, 10, 98], []))
  {
    hide Parse, ParseIn, HasCrLf, HasLineFeed;
    var first, rest, whole: Bytes := [97, 10], [98, 13, 10], [97, 10, 98, 13, 10];
    LfHeader(first, 1);
    CrLfHeader(whole, 3);
    CrLfHasLineFeed(whole);
    assert first + [] == first && whole + [] == whole;
    ParsesInIff(first, []);
    ParsesInIff(whole, []);
    assert first[..1] == [97] && first[2..] == [] && whole[..3] == [97, 10, 98] && whole[5..] == [];
    ConcatOne(rest);
    assert [first, rest][1..] == [rest] && [] + rest == rest;
    ReceivedOne(whole);
  }

  lemma {:induction false} ConcatOne(piece: Bytes)
    ensures Concat([piece]) == piece
  {
    assert [piece][1..] == [] && piece + [] == piece;
  }

  /** "aaaaa", CR, LF is read into the buffer, then "b", LF, "hi" over it: the second header ends behind its
      read, at the CR LF of the first. */
  lemma {:induction false} LeftCanMatter(before: Bytes)
    ensures var first: Bytes := [97, 97, 97, 97, 97, 13, 10]; var second: Bytes := [98, 10, 104, 105];
            && ParseIn(first, before) == Some(Upload([97, 97, 97, 97, 97], []))
            && Parse(second) == Some(Upload([98], [104, 105]))
            && ParseIn(second, first[|second|..]) == None
  {
    hide Parse, ParseIn, HasCrLf, HasLineFeed;
    var first: Bytes := [97, 97, 97, 97, 97, 13, 10];
    var second: Bytes := [98, 10, 104, 105];
    CrLfHeader(first, 5);
    CrLfHasLineFeed(first);
    ParsesInIff(first, before);
    assert first[..5] == [97, 97, 97, 97, 97] && first[7..] == [];
    LfHeader(second, 1);
    assert second[..1] == [98] && second[2..] == [104, 105];
    var memory: Bytes := [98, 10, 104, 105, 97, 13, 10];
    assert second + first[4..] == memory;
    CrLfHeader(memory, 5);
    ParsesInIff(second, first[4..]);
  }

  lemma {:induction false} NoNul(buf: Bytes)
    requires NUL !in buf
    ensures Text(buf) == buf
  {
    if |buf| != 0 {
      NoNul(buf[1..]);
    }
  }
}
