/** The standard base64 decoder of section 4 of RFC 4648 (alphabet
    `A-Z a-z 0-9 + /`, `=` padding), shaped like Go's
    `base64.StdEncoding.Decode`: it returns how many bytes it produced and
    whether the input was corrupt. Decoding goes four characters at a time;
    at the first group that does not decode, it stops, keeps the bytes of
    the groups before it, and reports corruption. */
module Base64 {
  import opened Bytes

  const PadChar: byte := 61

  /** The 6-bit value of an alphabet character, -1 for every other byte. */
  function CharValue(c: byte): (v: int)
    ensures -1 <= v < 64
  {
    if 65 <= c <= 90 then c - 65          // 'A'..'Z'
    else if 97 <= c <= 122 then c - 71    // 'a'..'z'
    else if 48 <= c <= 57 then c + 4      // '0'..'9'
    else if c == 43 then 62               // '+'
    else if c == 47 then 63               // '/'
    else -1
  }

  predicate InAlphabet(c: byte) {
    CharValue(c) >= 0
  }

  /** A stream made only of alphabet characters: no padding, no stray bytes. */
  predicate AllInAlphabet(s: seq<byte>) {
    forall i :: 0 <= i < |s| ==> InAlphabet(s[i])
  }

  /** A stream with no padding character anywhere: every byte is either an
      alphabet character or a stray byte. */
  predicate NoPadding(s: seq<byte>) {
    forall i :: 0 <= i < |s| ==> s[i] != PadChar
  }

  /** The three bytes carried by four 6-bit values, most significant bits first. */
  function Join(a: int, b: int, c: int, d: int): (r: seq<byte>)
    requires 0 <= a < 64 && 0 <= b < 64 && 0 <= c < 64 && 0 <= d < 64
    ensures |r| == 3
  {
    [a * 4 + b / 16, (b % 16) * 16 + c / 4, (c % 4) * 64 + d]
  }

  /** How one group of four characters decodes: three bytes that may be
      followed by more groups, one or two bytes before padding that must end
      the input, or nothing at all. */
  datatype Group = Full(bytes: seq<byte>) | Final(bytes: seq<byte>) | Bad

  function DecodeGroup(g: seq<byte>): (r: Group)
    requires |g| == 4
    ensures r.Full? <==> AllInAlphabet(g)
    ensures r.Full? ==> |r.bytes| == 3
    ensures r.Final? ==> 1 <= |r.bytes| <= 2
  {
    AlphabetFour(g);
    var v0, v1, v2, v3 := CharValue(g[0]), CharValue(g[1]), CharValue(g[2]), CharValue(g[3]);
    if v0 >= 0 && v1 >= 0 && v2 >= 0 && v3 >= 0 then Full(Join(v0, v1, v2, v3))
    else if v0 >= 0 && v1 >= 0 && g[2] == PadChar && g[3] == PadChar then Final(Join(v0, v1, 0, 0)[..1])
    else if v0 >= 0 && v1 >= 0 && v2 >= 0 && g[3] == PadChar then Final(Join(v0, v1, v2, 0)[..2])
    else Bad
  }

  /** A group of four is in the alphabet exactly when each of its characters is. */
  lemma AlphabetFour(g: seq<byte>)
    requires |g| == 4
    ensures AllInAlphabet(g) <==> InAlphabet(g[0]) && InAlphabet(g[1]) && InAlphabet(g[2]) && InAlphabet(g[3])
  {
    if InAlphabet(g[0]) && InAlphabet(g[1]) && InAlphabet(g[2]) && InAlphabet(g[3]) {
      forall i | 0 <= i < 4 ensures InAlphabet(g[i]) {
        if i == 0 {} else if i == 1 {} else if i == 2 {} else {}
      }
    }
  }

  datatype Decoded = Decoded(out: seq<byte>, corrupt: bool)

  /** Decodes `src` group by group. A group of four alphabet characters
      gives three bytes; `xx==` gives one and `xxx=` two, and must end the
      input (anything after it is reported as corrupt, after its bytes);
      any other group, or a trailing group shorter than four, is corrupt
      and gives nothing. */
  function Decode(src: seq<byte>): (r: Decoded)
    ensures |r.out| * 4 <= |src| * 3
    ensures |src| == 0 ==> r == Decoded([], false)
    decreases |src|
  {
    if |src| == 0 then Decoded([], false)
    else if |src| < 4 then Decoded([], true)
    else
      match DecodeGroup(src[..4])
      case Full(bytes) =>
        var rest := Decode(src[4..]);
        Decoded(bytes + rest.out, rest.corrupt)
      case Final(bytes) => Decoded(bytes, |src| > 4)
      case Bad => Decoded([], true)
  }

  /** On alphabet-only input every whole group decodes: three bytes per four
      characters, and corruption exactly when a partial group trails. */
  lemma {:induction false} DecodeAlphabet(s: seq<byte>)
    requires AllInAlphabet(s)
    ensures |Decode(s).out| == 3 * (|s| / 4)
    ensures Decode(s).corrupt <==> |s| % 4 != 0
    decreases |s|
  {
    if |s| >= 4 {
      AlphabetPrefix(s, 4);
      DecodeAlphabet(s[4..]);
      assert |s[4..]| / 4 == |s| / 4 - 1 && |s[4..]| % 4 == |s| % 4;
    } else {
      assert |s| / 4 == 0;
    }
  }

  /** Without padding, whole groups decode without corruption exactly when
      every character is in the alphabet: a stray byte anywhere is reported. */
  lemma {:induction false} DecodeNoPadding(s: seq<byte>)
    requires NoPadding(s) && |s| % 4 == 0
    ensures Decode(s).corrupt <==> !AllInAlphabet(s)
    decreases |s|
  {
    if |s| > 0 {
      var g := s[..4];
      assert g[3] == s[3] != PadChar;
      NoPaddingSlices(s, 4);
      if DecodeGroup(g).Full? {
        DecodeNoPadding(s[4..]);
        if AllInAlphabet(s[4..]) {
          AlphabetJoin(g, s[4..]);
          assert g + s[4..] == s;
        } else if AllInAlphabet(s) {
          AlphabetPrefix(s, 4);
        }
      } else {
        assert !AllInAlphabet(s) by {
          if AllInAlphabet(s) {
            AlphabetPrefix(s, 4);
          }
        }
      }
    }
  }

  lemma NoPaddingSlices(s: seq<byte>, n: nat)
    requires NoPadding(s) && n <= |s|
    ensures NoPadding(s[..n]) && NoPadding(s[n..])
  {
    forall i | 0 <= i < n ensures s[..n][i] != PadChar {
      assert s[..n][i] == s[i];
    }
    forall i | 0 <= i < |s| - n ensures s[n..][i] != PadChar {
      assert s[n..][i] == s[n + i];
    }
  }

  lemma NoPaddingJoin(a: seq<byte>, b: seq<byte>)
    requires NoPadding(a) && NoPadding(b)
    ensures NoPadding(a + b)
  {
    forall i | 0 <= i < |a + b| ensures (a + b)[i] != PadChar {
      if i < |a| { assert (a + b)[i] == a[i]; } else { assert (a + b)[i] == b[i - |a|]; }
    }
  }

  /** Alphabet characters are never the padding character. */
  lemma AlphabetNoPadding(s: seq<byte>)
    requires AllInAlphabet(s)
    ensures NoPadding(s)
  {
    forall i | 0 <= i < |s| ensures s[i] != PadChar {
      assert InAlphabet(s[i]);
    }
  }

  lemma AlphabetJoin(a: seq<byte>, b: seq<byte>)
    requires AllInAlphabet(a) && AllInAlphabet(b)
    ensures AllInAlphabet(a + b)
  {
    forall i | 0 <= i < |a + b| ensures InAlphabet((a + b)[i]) {
      if i < |a| { assert (a + b)[i] == a[i]; } else { assert (a + b)[i] == b[i - |a|]; }
    }
  }

  lemma AlphabetConcat(a: seq<byte>, b: seq<byte>)
    ensures AllInAlphabet(a + b) <==> AllInAlphabet(a) && AllInAlphabet(b)
  {
    if AllInAlphabet(a) && AllInAlphabet(b) {
      AlphabetJoin(a, b);
    }
    if AllInAlphabet(a + b) {
      AlphabetPrefix(a + b, |a|);
      assert (a + b)[..|a|] == a && (a + b)[|a|..] == b;
    }
  }

  /** Whole alphabet groups in front decode independently of what follows. */
  lemma {:induction false} DecodeAppend(a: seq<byte>, b: seq<byte>)
    requires AllInAlphabet(a) && |a| % 4 == 0
    ensures Decode(a + b) == Decoded(Decode(a).out + Decode(b).out, Decode(b).corrupt)
    decreases |a|
  {
    if |a| == 0 {
      assert a + b == b;
    } else {
      var s := a + b;
      assert s[..4] == a[..4] && s[4..] == a[4..] + b;
      AlphabetPrefix(a, 4);
      DecodeAppend(a[4..], b);
      var g, ra, rb := DecodeGroup(a[..4]).bytes, Decode(a[4..]), Decode(b);
      assert g + (ra.out + rb.out) == (g + ra.out) + rb.out;
    }
  }

  /** A trailing partial group adds nothing to the bytes decoded. */
  lemma DecodeWholeGroups(s: seq<byte>)
    requires AllInAlphabet(s)
    ensures Decode(s).out == Decode(s[..|s| - |s| % 4]).out
  {
    var n := |s| - |s| % 4;
    WholeGroupsLength(|s|);
    var whole, tail := s[..n], s[n..];
    AlphabetPrefix(s, n);
    SplitAt(s, n);
    DecodeAppend(whole, tail);
    assert |tail| < 4;
    assert Decode(tail).out == [];
  }

  lemma WholeGroupsLength(len: nat)
    ensures 0 <= len - len % 4 <= len && (len - len % 4) % 4 == 0 && len - (len - len % 4) < 4
  {
  }

  lemma SplitAt<T>(s: seq<T>, n: nat)
    requires n <= |s|
    ensures s == s[..n] + s[n..]
  {
  }

  lemma AlphabetPrefix(s: seq<byte>, n: nat)
    requires AllInAlphabet(s) && n <= |s|
    ensures AllInAlphabet(s[..n]) && AllInAlphabet(s[n..])
  {
    forall i | 0 <= i < n ensures InAlphabet(s[..n][i]) {
      assert s[..n][i] == s[i];
    }
    forall i | 0 <= i < |s| - n ensures InAlphabet(s[n..][i]) {
      assert s[n..][i] == s[n + i];
    }
  }
  /** The alphabet character of a 6-bit value. */
  function Char(v: int): (c: byte)
    requires 0 <= v < 64
    ensures CharValue(c) == v
  {
    if v < 26 then 65 + v
    else if v < 52 then v + 71
    else if v < 62 then v - 4
    else if v == 62 then 43
    else 47
  }

  /** The standard encoder (`base64.StdEncoding.EncodeToString`): each three
      bytes become four characters, and a trailing one or two bytes become a
      group padded with `=`. */
  function Encode(x: seq<byte>): (r: seq<byte>)
    ensures |r| % 4 == 0 && (|x| > 0 ==> |r| > 0)
    ensures |r| == 4 * ((|x| + 2) / 3)
    decreases |x|
  {
    if |x| == 0 then []
    else if |x| == 1 then Single(x[0])
    else if |x| == 2 then Pair(x[0], x[1])
    else
      assert (|x| - 3 + 2) / 3 == (|x| + 2) / 3 - 1;
      Quad(x[0], x[1], x[2]) + Encode(x[3..])
  }

  function Quad(b0: byte, b1: byte, b2: byte): (r: seq<byte>) {
    [Char(b0 / 4), Char((b0 % 4) * 16 + b1 / 16), Char((b1 % 16) * 4 + b2 / 64), Char(b2 % 64)]
  }

  function Pair(b0: byte, b1: byte): (r: seq<byte>) {
    [Char(b0 / 4), Char((b0 % 4) * 16 + b1 / 16), Char((b1 % 16) * 4), PadChar]
  }

  function Single(b0: byte): (r: seq<byte>) {
    [Char(b0 / 4), Char((b0 % 4) * 16), PadChar, PadChar]
  }

  /** Splitting three bytes into four 6-bit values and joining them again
      gives the bytes back. */
  lemma JoinSplit(b0: byte, b1: byte, b2: byte)
    ensures Join(b0 / 4, (b0 % 4) * 16 + b1 / 16, (b1 % 16) * 4 + b2 / 64, b2 % 64) == [b0, b1, b2]
  {
    var b, c := (b0 % 4) * 16 + b1 / 16, (b1 % 16) * 4 + b2 / 64;
    assert b / 16 == b0 % 4 && b % 16 == b1 / 16;
    assert c / 4 == b1 % 16 && c % 4 == b2 / 64;
  }

  /** Each kind of encoded group decodes to the bytes it encodes. */
  lemma QuadDecodes(b0: byte, b1: byte, b2: byte)
    ensures DecodeGroup(Quad(b0, b1, b2)) == Full([b0, b1, b2])
  {
    var g := Quad(b0, b1, b2);
    var v0, v1, v2, v3 := b0 / 4, (b0 % 4) * 16 + b1 / 16, (b1 % 16) * 4 + b2 / 64, b2 % 64;
    assert CharValue(g[0]) == v0 && CharValue(g[1]) == v1;
    assert CharValue(g[2]) == v2 && CharValue(g[3]) == v3;
    assert DecodeGroup(g) == Full(Join(v0, v1, v2, v3));
    JoinSplit(b0, b1, b2);
  }

  lemma PairDecodes(b0: byte, b1: byte)
    ensures DecodeGroup(Pair(b0, b1)) == Final([b0, b1])
  {
    var g := Pair(b0, b1);
    var v2 := (b1 % 16) * 4;
    assert CharValue(g[2]) == v2 && CharValue(g[3]) == -1;
    assert g[2] != PadChar;
    JoinSplit(b0, b1, 0);
    assert Join(b0 / 4, (b0 % 4) * 16 + b1 / 16, v2, 0)[..2] == [b0, b1];
  }

  lemma SingleDecodes(b0: byte)
    ensures DecodeGroup(Single(b0)) == Final([b0])
  {
    var g := Single(b0);
    assert CharValue(g[2]) == -1;
    JoinSplit(b0, 0, 0);
    assert Join(b0 / 4, (b0 % 4) * 16, 0, 0)[..1] == [b0];
  }

  /** Decoding undoes encoding, for every byte string: the bytes come back
      and the input is never reported corrupt. */
  lemma {:induction false} EncodeDecode(x: seq<byte>)
    ensures Decode(Encode(x)) == Decoded(x, false)
    decreases |x|
  {
    if |x| == 1 {
      SingleDecodes(x[0]);
      assert Single(x[0])[..4] == Single(x[0]);
    } else if |x| == 2 {
      PairDecodes(x[0], x[1]);
      assert Pair(x[0], x[1])[..4] == Pair(x[0], x[1]);
    } else if |x| >= 3 {
      var q, rest := Quad(x[0], x[1], x[2]), Encode(x[3..]);
      QuadDecodes(x[0], x[1], x[2]);
      EncodeDecode(x[3..]);
      assert (q + rest)[..4] == q && (q + rest)[4..] == rest;
      assert x == [x[0], x[1], x[2]] + x[3..];
    }
  }

  /** An encoding that ends in padding must end the input: whatever
      follows it makes the decode corrupt, after the encoded bytes. */
  lemma {:induction false} PaddedThenMore(x: seq<byte>, y: seq<byte>)
    requires |x| % 3 != 0 && |y| > 0
    ensures Decode(Encode(x) + y) == Decoded(x, true)
    decreases |x|
  {
    if |x| == 1 {
      SingleDecodes(x[0]);
      assert (Single(x[0]) + y)[..4] == Single(x[0]);
    } else if |x| == 2 {
      PairDecodes(x[0], x[1]);
      assert (Pair(x[0], x[1]) + y)[..4] == Pair(x[0], x[1]);
    } else {
      var q, rest := Quad(x[0], x[1], x[2]), Encode(x[3..]);
      QuadDecodes(x[0], x[1], x[2]);
      ThreeMore(|x[3..]|);
      PaddedThenMore(x[3..], y);
      assert q + rest + y == q + (rest + y);
      assert (q + (rest + y))[..4] == q && (q + (rest + y))[4..] == rest + y;
      assert x == [x[0], x[1], x[2]] + x[3..];
    }
  }

  lemma ThreeMore(n: nat)
    ensures (n + 3) % 3 == n % 3
  {
  }
}
