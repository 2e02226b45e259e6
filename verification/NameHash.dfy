/** The key of mp5/src/port_register.c: a 32-bit code computed from a name, byte by byte. */
module NameHash {

  /** A C `char`, signed. */
  type Byte = c: int | -128 <= c < 128

  const TWO_TO_32 := 0x1_0000_0000

  /** What is left of an int after it overflowed, in two's complement. */
  function Wrap32(x: int): (w: int)
    ensures -0x8000_0000 <= w < 0x8000_0000
  {
    (x + 0x8000_0000) % TWO_TO_32 - 0x8000_0000
  }

  function HashCode(name: seq<Byte>): int {
    if |name| == 0 then 0 else Wrap32(Shift(HashCode(name[..|name| - 1]), name[|name| - 1]))
  }

  method GetHashCode(name: seq<Byte>) returns (code: int)
    ensures code == HashCode(name)
    ensures code == Wrap32(Unwrapped(Suffix(name)))
  {
    code := 0;
    for i := 0 to |name|
      invariant code == HashCode(name[..i])
    {
      assert name[..i + 1][..i] == name[..i];
      WrapSum(code * 256, name[i]);
      code := Wrap32(Wrap32(code * 256) + name[i]);
    }
    assert name[..|name|] == name;
    HashIsSuffix(name);
  }

  /** The last four bytes, with zeros for those a short name does not have. */
  function Suffix(name: seq<Byte>): (s: seq<Byte>)
    ensures |s| == 4
  {
    ([0, 0, 0, 0] + name)[|name|..]
  }

  function Shift(x: int, c: int): int { x * 256 + c }

  lemma {:induction false} WrapSum(x: int, c: int)
    ensures Wrap32(Wrap32(x) + c) == Wrap32(x + c)
  {
  }

  lemma {:induction false} WrapStep(x: int, c: int)
    ensures Wrap32(Shift(Wrap32(x), c)) == Wrap32(Shift(x, c))
  {
  }

  /** The code without the overflow. */
  ghost function Unwrapped(name: seq<Byte>): int {
    if |name| == 0 then 0 else Shift(Unwrapped(name[..|name| - 1]), name[|name| - 1])
  }

  lemma {:induction false} HashIsWrapped(name: seq<Byte>)
    ensures HashCode(name) == Wrap32(Unwrapped(name))
  {
    if |name| != 0 {
      HashIsWrapped(name[..|name| - 1]);
      WrapStep(Unwrapped(name[..|name| - 1]), name[|name| - 1]);
    }
  }

  lemma {:induction false} LeadingZeros(zeros: seq<Byte>, name: seq<Byte>)
    requires forall i :: 0 <= i < |zeros| ==> zeros[i] == 0
    ensures Unwrapped(zeros + name) == Unwrapped(name)
  {
    var padded, last := zeros + name, |zeros| + |name| - 1;
    if |name| != 0 {
      assert padded[..last] == zeros + name[..|name| - 1];
      LeadingZeros(zeros, name[..|name| - 1]);
    } else if |zeros| != 0 {
      assert padded[..last] == zeros[..last] + name;
      LeadingZeros(zeros[..last], name);
    }
  }

  lemma {:induction false} OneMore(name: seq<Byte>, c: Byte)
    ensures Unwrapped(name + [c]) == Shift(Unwrapped(name), c)
  {
    assert (name + [c])[..|name|] == name;
  }

  lemma {:induction false} FourMore(name: seq<Byte>, s: seq<Byte>)
    requires |s| == 4
    ensures Unwrapped(name + s) == Shift(Shift(Shift(Shift(Unwrapped(name), s[0]), s[1]), s[2]), s[3])
  {
    OneMore(name, s[0]);
    OneMore(name + [s[0]], s[1]);
    OneMore(name + [s[0]] + [s[1]], s[2]);
    OneMore(name + [s[0]] + [s[1]] + [s[2]], s[3]);
    assert name + [s[0]] + [s[1]] + [s[2]] + [s[3]] == name + s;
  }

  lemma {:induction false} ShiftedOut(name: seq<Byte>, s: seq<Byte>)
    requires |s| == 4
    ensures Unwrapped(name + s) == Unwrapped(name) * TWO_TO_32 + Unwrapped(s)
    ensures -128 * 0x101_0101 <= Unwrapped(s) <= 127 * 0x101_0101
  {
    FourMore(name, s);
    FourMore([], s);
    assert [] + s == s;
  }

  lemma {:induction false} WrapForgets(h: int, q: int)
    ensures Wrap32(h * TWO_TO_32 + q) == Wrap32(q)
  {
  }

  /** Whatever comes before the last four bytes is shifted out. */
  lemma {:induction false} HashIsSuffix(name: seq<Byte>)
    ensures HashCode(name) == Wrap32(Unwrapped(Suffix(name)))
  {
    var zeros: seq<Byte> := [0, 0, 0, 0];
    var before := (zeros + name)[..|name|];
    HashIsWrapped(name);
    LeadingZeros(zeros, name);
    assert before + Suffix(name) == zeros + name;
    ShiftedOut(before, Suffix(name));
    WrapForgets(Unwrapped(before), Unwrapped(Suffix(name)));
  }

  lemma {:induction false} WrapIsInjective(x: int, y: int)
    requires Wrap32(x) == Wrap32(y) && -TWO_TO_32 < x - y < TWO_TO_32
    ensures x == y
  {
  }

  lemma {:induction false} UnwrappedIsInjective(s: seq<Byte>, t: seq<Byte>)
    requires |s| == |t| && Unwrapped(s) == Unwrapped(t)
    ensures s == t
  {
    if |s| != 0 {
      var last := |s| - 1;
      UnwrappedIsInjective(s[..last], t[..last]);
      assert s == s[..last] + [s[last]] && t == t[..last] + [t[last]];
    }
  }

  /** The code is a 32-bit int, and the last four bytes read as one big-endian number, up to multiples of 2^32. */
  lemma {:induction false} HashIsBigEndian(name: seq<Byte>)
    ensures -0x8000_0000 <= HashCode(name) < 0x8000_0000
    ensures var s := Suffix(name);
            var number: int := s[0] as int * 0x100_0000 + s[1] as int * 0x1_0000 + s[2] as int * 0x100 + s[3] as int;
            (HashCode(name) - number) % 0x1_0000_0000 == 0
  {
    var s := Suffix(name);
    HashIsSuffix(name);
    FourMore([], s);
    assert [] + s == s;
    WrapDiffers(Unwrapped(s));
  }

  lemma {:induction false} WrapDiffers(x: int)
    ensures (Wrap32(x) - x) % TWO_TO_32 == 0
  {
  }

  /** Two names have one code if and only if they end in the same four bytes. */
  lemma {:induction false} SameHashIffSameSuffix(a: seq<Byte>, b: seq<Byte>)
    ensures HashCode(a) == HashCode(b) <==> Suffix(a) == Suffix(b)
  {
    HashIsSuffix(a);
    HashIsSuffix(b);
    if HashCode(a) == HashCode(b) {
      ShiftedOut([], Suffix(a));
      ShiftedOut([], Suffix(b));
      WrapIsInjective(Unwrapped(Suffix(a)), Unwrapped(Suffix(b)));
      UnwrappedIsInjective(Suffix(a), Suffix(b));
    }
  }
}
