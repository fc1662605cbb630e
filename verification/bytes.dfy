/** Fixed-width integers, little-endian encoding and Go's `copy` on byte slices.

    Go's `uint8`, `uint16` and `uint32` become subset types of `int`, so every
    wrap-around the source relies on has to be written out explicitly. */
module Bytes {

  type byte = x: int | 0 <= x < 0x100
  type uint16 = x: int | 0 <= x < 0x1_0000
  type uint32 = x: int | 0 <= x < 0x1_0000_0000

  const Modulus32: int := 0x1_0000_0000

  /** uint32 addition, wrapping modulo 2^32. */
  function Add32(a: uint32, b: uint32): (r: uint32)
    ensures r == (a + b) % Modulus32
  {
    if a + b < Modulus32 then a + b else a + b - Modulus32
  }

  /** uint32 subtraction, wrapping modulo 2^32. */
  function Sub32(a: uint32, b: uint32): uint32 {
    if a >= b then a - b else a - b + Modulus32
  }

  function Min(a: int, b: int): int {
    if a < b then a else b
  }

  /** A freshly allocated Go slice: `make([]byte, n)`. */
  function Zeros(n: nat): (r: seq<byte>)
    ensures |r| == n
    ensures forall i :: 0 <= i < n ==> r[i] == 0
  {
    seq(n, _ => 0)
  }

  /** Go's `copy(dst[at:], src)`: copies as many elements as fit and
      leaves the rest of `dst` alone. */
  function Copy<T>(dst: seq<T>, at: nat, src: seq<T>): (r: seq<T>)
    requires at <= |dst|
    ensures |r| == |dst|
    decreases |src|
  {
    if |src| == 0 || at == |dst| then dst
    else Copy(dst[at := src[0]], at + 1, src[1..])
  }

  /** Element by element: the copied prefix of `src` from `at`, `dst` elsewhere. */
  lemma {:induction false} CopyAt<T>(dst: seq<T>, at: nat, src: seq<T>)
    requires at <= |dst|
    ensures var r := Copy(dst, at, src);
      var n := Min(|dst| - at, |src|);
      forall i :: 0 <= i < |dst| ==> r[i] == if at <= i < at + n then src[i - at] else dst[i]
    decreases |src|
  {
    if |src| > 0 && at < |dst| {
      var d1 := dst[at := src[0]];
      CopyAt(d1, at + 1, src[1..]);
      var r := Copy(dst, at, src);
      assert r == Copy(d1, at + 1, src[1..]);
      var n := Min(|dst| - at, |src|);
      assert Min(|d1| - (at + 1), |src[1..]|) == n - 1;
      forall i | 0 <= i < |dst| ensures r[i] == if at <= i < at + n then src[i - at] else dst[i] {
        if at + 1 <= i < at + n {
          assert src[1..][i - (at + 1)] == src[i - at];
        }
      }
    }
  }

  /** What `Copy` leaves where: `dst` before `at`, the copied prefix of
      `src` from `at`, and `dst` again after it. */
  lemma CopyContents<T>(dst: seq<T>, at: nat, src: seq<T>)
    requires at <= |dst|
    ensures var r := Copy(dst, at, src);
      var n := Min(|dst| - at, |src|);
      && r[..at] == dst[..at]
      && r[at..at + n] == src[..n]
      && r[at + n..] == dst[at + n..]
  {
    CopyAt(dst, at, src);
  }

  /** Copying into the front of a buffer at least as long keeps the tail. */
  lemma CopyPrefix<T>(dst: seq<T>, src: seq<T>)
    requires |src| <= |dst|
    ensures Copy(dst, 0, src) == src + dst[|src|..]
  {
    CopyContents(dst, 0, src);
    assert Min(|dst| - 0, |src|) == |src|;
    Reassemble(Copy(dst, 0, src), src, dst);
  }

  lemma Reassemble<T>(r: seq<T>, src: seq<T>, dst: seq<T>)
    requires |src| <= |r| == |dst|
    requires r[0..|src|] == src[..|src|] && r[|src|..] == dst[|src|..]
    ensures r == src + dst[|src|..]
  {
    assert r == r[..|src|] + r[|src|..];
  }

  /** Copying a sequence over one of the same length replaces it. */
  lemma CopyWhole<T>(dst: seq<T>, src: seq<T>)
    requires |src| == |dst|
    ensures Copy(dst, 0, src) == src
  {
    CopyAt(dst, 0, src);
    var r := Copy(dst, 0, src);
    assert forall i :: 0 <= i < |r| ==> r[i] == src[i];
  }

  /** Copying `a` and then `b` right after it is one copy of `a + b`,
      as long as both fit. */
  lemma CopyTwice<T>(dst: seq<T>, at: nat, a: seq<T>, b: seq<T>)
    requires at + |a| + |b| <= |dst|
    ensures Copy(Copy(dst, at, a), at + |a|, b) == Copy(dst, at, a + b)
  {
    var once := Copy(dst, at, a);
    CopyAt(dst, at, a);
    CopyAt(once, at + |a|, b);
    CopyAt(dst, at, a + b);
    var lhs := Copy(once, at + |a|, b);
    var rhs := Copy(dst, at, a + b);
    assert |once| == |dst| && Min(|once| - (at + |a|), |b|) == |b|;
    assert Min(|dst| - at, |a|) == |a| && Min(|dst| - at, |a + b|) == |a| + |b|;
    forall i | 0 <= i < |dst| ensures lhs[i] == rhs[i] {
      if at + |a| <= i < at + |a| + |b| {
        assert lhs[i] == b[i - (at + |a|)];
        assert (a + b)[i - at] == b[i - at - |a|];
      } else if at <= i < at + |a| {
        assert lhs[i] == once[i] == a[i - at];
        assert (a + b)[i - at] == a[i - at];
      } else {
        assert lhs[i] == once[i] == dst[i];
      }
    }
  }

  /** The chunks of a stream, one after the other. */
  function Concat<T>(chunks: seq<seq<T>>): seq<T> {
    if |chunks| == 0 then [] else chunks[0] + Concat(chunks[1..])
  }

  function LE16(x: uint16): (r: seq<byte>)
    ensures |r| == 2
  {
    [x % 0x100, x / 0x100]
  }

  function LE32(x: uint32): (r: seq<byte>)
    ensures |r| == 4
  {
    LE16(x % 0x1_0000) + LE16(x / 0x1_0000)
  }

  /** Go's `binary.LittleEndian.Uint16(s[at:at+2])`. */
  function ReadLE16(s: seq<byte>, at: nat): uint16
    requires at + 2 <= |s|
  {
    s[at] as int + s[at + 1] as int * 0x100
  }

  /** Go's `binary.LittleEndian.Uint32(s[at:at+4])`. */
  function ReadLE32(s: seq<byte>, at: nat): uint32
    requires at + 4 <= |s|
  {
    ReadLE16(s, at) as int + ReadLE16(s, at + 2) as int * 0x1_0000
  }

  lemma LE16RoundTrip(x: uint16, s: seq<byte>, at: nat)
    requires at + 2 <= |s| && s[at..at + 2] == LE16(x)
    ensures ReadLE16(s, at) == x
  {
    assert s[at] == LE16(x)[0] && s[at + 1] == LE16(x)[1];
  }

  lemma LE32RoundTrip(x: uint32, s: seq<byte>, at: nat)
    requires at + 4 <= |s| && s[at..at + 4] == LE32(x)
    ensures ReadLE32(s, at) == x
  {
    assert s[at..at + 2] == LE16(x % 0x1_0000) by {
      assert s[at..at + 2] == s[at..at + 4][..2];
    }
    assert s[at + 2..at + 4] == LE16(x / 0x1_0000) by {
      assert s[at + 2..at + 4] == s[at..at + 4][2..];
    }
    LE16RoundTrip(x % 0x1_0000, s, at);
    LE16RoundTrip(x / 0x1_0000, s, at + 2);
  }
}

/** Error values and the optional/result wrappers used by every component. */
module Outcomes {

  datatype Option<T> = None | Some(value: T)

  /** The errors the source returns, plus the Go runtime panic the model
      turns into a value (`SliceBounds`). */
  datatype Error =
    | HeaderIncomplete     // fewer bytes than a frame header needs
    | FrameTooLarge        // a chunkSize above the frame limit
    | ChunkSizeMismatch    // chunkSize and dataSize disagree
    | BufferOverrun        // more payload than the message buffer has room for
    | UnknownError         // the base64 filter's catch-all error
    | CorruptInput         // base64 input that does not decode
    | DuplicateMember      // connection already in the group
    | NotAMember           // connection not found in the group
    | CommandExists        // command key registered twice
    | CommandNotFound      // command key not registered
    | HandlerFailed(code: int)  // an error returned by a message handler
    | SliceBounds          // a Go runtime panic: slice bounds out of range
    | NilPointer           // a Go runtime panic: method call through a nil message
    | Blocked              // a send on a channel that was never set: the call never returns

  datatype Result<T> = Ok(value: T) | Err(error: Error)
}
