/** `XORFilter`: XORs each byte with a repeating mask. The position in the
    mask carries over from one call to the next, so a stream is masked the
    same way however it is cut into calls. */
module XorFilter {
  import opened Bytes
  import opened Outcomes

  datatype Filter = Filter(mask: seq<byte>, offset: int)

  /** The offset always indexes the mask; an empty mask keeps offset 0. */
  predicate Valid(f: Filter) {
    0 <= f.offset && (f.offset < |f.mask| || (|f.mask| == 0 && f.offset == 0))
  }

  function NewFilter(mask: seq<byte>): (f: Filter)
    ensures Valid(f) && f.mask == mask && f.offset == 0
  {
    Filter(mask, 0)
  }

  /** Bitwise exclusive or, one bit at a time from the least significant. */
  function XorBits(a: nat, b: nat): nat
    decreases a + b
  {
    if a == 0 && b == 0 then 0
    else (a % 2 + b % 2) % 2 + 2 * XorBits(a / 2, b / 2)
  }

  lemma {:induction false} XorBitsBound(a: nat, b: nat, k: nat)
    requires a < Pow2(k) && b < Pow2(k)
    ensures XorBits(a, b) < Pow2(k)
    decreases a + b
  {
    if a != 0 || b != 0 {
      assert k > 0;
      XorBitsBound(a / 2, b / 2, k - 1);
    }
  }

  lemma {:induction false} XorBitsCancel(a: nat, b: nat)
    ensures XorBits(XorBits(a, b), b) == a
    decreases a + b
  {
    if a != 0 || b != 0 {
      var y := XorBits(a / 2, b / 2);
      XorBitsCancel(a / 2, b / 2);
      XorStep(a, b);
      CancelStep(a, b, y);
    }
  }

  /** The inductive step of `XorBitsCancel`: if XORing with the high bits of
      `b` restores the high bits of `a`, XORing with all of `b` restores `a`. */
  lemma CancelStep(a: nat, b: nat, y: nat)
    requires XorBits(y, b / 2) == a / 2
    ensures XorBits((a % 2 + b % 2) % 2 + 2 * y, b) == a
  {
    var c := (a % 2 + b % 2) % 2;
    var x := c + 2 * y;
    LowBit(a, b, y);
    XorStep(x, b);
    assert x % 2 == c && x / 2 == y;
    assert XorBits(x / 2, b / 2) == a / 2;
    assert (x % 2 + b % 2) % 2 == a % 2;
  }

  /** One unfolding of `XorBits`; at `(0, 0)` both sides are zero. */
  lemma XorStep(a: nat, b: nat)
    ensures XorBits(a, b) == (a % 2 + b % 2) % 2 + 2 * XorBits(a / 2, b / 2)
  {
    if a == 0 && b == 0 {
      assert XorBits(a / 2, b / 2) == 0;
    }
  }

  /** The arithmetic of one bit: the low bit of `c + 2 * y` is `c`, the rest
      is `y`, and XORing the low bit of `b` twice restores the low bit of `a`. */
  lemma LowBit(a: nat, b: nat, y: nat)
    ensures var c := (a % 2 + b % 2) % 2;
      && (c + 2 * y) % 2 == c && (c + 2 * y) / 2 == y
      && (c + b % 2) % 2 == a % 2
      && a == a % 2 + 2 * (a / 2)
  {
  }

  function Pow2(k: nat): nat {
    if k == 0 then 1 else 2 * Pow2(k - 1)
  }

  function Xor(a: byte, b: byte): (r: byte)
    ensures XorBits(r, b) == a
  {
    XorBitsBound(a, b, 8);
    XorBitsCancel(a, b);
    XorBits(a, b)
  }

  /** `(offset + 1) % maskLen` for an offset inside the mask. */
  function Next(o: nat, n: nat): (r: nat)
    requires o < n
    ensures r < n && r == (o + 1) % n
  {
    if o + 1 == n then
      assert (o + 1) % n == 0;
      0
    else
      assert (o + 1) % n == o + 1;
      o + 1
  }

  /** The mask position `i` steps after `o`. */
  function Advance(o: nat, i: nat, n: nat): (r: nat)
    requires o < n
    ensures r < n
    decreases i
  {
    if i == 0 then o else Advance(Next(o, n), i - 1, n)
  }

  /** Advancing `i` steps lands on `(o + i) mod n`. */
  lemma {:induction false} AdvanceMod(o: nat, i: nat, n: nat)
    requires o < n
    ensures Advance(o, i, n) == (o + i) % n
    decreases i
  {
    if i > 0 {
      AdvanceMod(Next(o, n), i - 1, n);
      if o + 1 == n {
        assert o + i == (i - 1) + n;
        ModShift(i - 1, n);
      } else {
        assert Next(o, n) + (i - 1) == o + i;
      }
    }
  }

  lemma ModShift(x: nat, n: nat)
    requires n > 0
    ensures (x + n) % n == x % n
  {
    var q, r := x / n, x % n;
    assert x == q * n + r;
    assert x + n == (q + 1) * n + r;
    ModUnique(x + n, n, q + 1, r);
  }

  /** The remainder is the only `r` in `[0, n)` with `x == q * n + r`. */
  lemma ModUnique(x: int, n: int, q: int, r: int)
    requires n > 0 && 0 <= r < n && x == q * n + r
    ensures x % n == r
  {
    var q0, r0 := x / n, x % n;
    assert x == q0 * n + r0;
    assert (q - q0) * n == r0 - r;
    if q > q0 {
      MulAtLeast(q - q0, n);
    } else if q < q0 {
      MulAtLeast(q0 - q, n);
    }
  }

  lemma MulAtLeast(k: int, n: int)
    requires k >= 1 && n > 0
    ensures k * n >= n
  {
  }

  lemma {:induction false} AdvanceAdd(o: nat, i: nat, j: nat, n: nat)
    requires o < n
    ensures Advance(o, i + j, n) == Advance(Advance(o, i, n), j, n)
    decreases i
  {
    if i > 0 {
      AdvanceAdd(Next(o, n), i - 1, j, n);
    }
  }

  datatype Step = Step(f: Filter, output: seq<byte>)

  /** `WriteBytes`. With an empty mask, the first byte indexes past the mask
      and panics; an empty input touches nothing. */
  function WriteBytes(f: Filter, input: seq<byte>): (r: Result<Step>)
    requires Valid(f)
    ensures r.Err? <==> |f.mask| == 0 && |input| > 0
    ensures r.Err? ==> r.error == SliceBounds
    ensures r.Ok? ==> Valid(r.value.f) && r.value.f.mask == f.mask
    ensures r.Ok? ==> |r.value.output| == |input|
    ensures r.Ok? && |f.mask| > 0 ==> r.value.f.offset == Advance(f.offset, |input|, |f.mask|)
    ensures r.Ok? && |f.mask| > 0 ==> r.value.f.offset == (f.offset + |input|) % |f.mask|
    decreases |input|
  {
    if |input| == 0 then Ok(Step(f, []))
    else if |f.mask| == 0 then Err(SliceBounds)
    else
      var b := Xor(input[0], f.mask[f.offset]);
      var next := f.(offset := Next(f.offset, |f.mask|));
      var rest := WriteBytes(next, input[1..]).value;
      AdvanceMod(f.offset, |input|, |f.mask|);
      Ok(Step(rest.f, [b] + rest.output))
  }

  /** Byte `i` of the output is byte `i` of the input XORed with the mask
      byte `i` positions after the starting offset. */
  lemma {:induction false} MasksEachByte(f: Filter, input: seq<byte>)
    requires Valid(f) && |f.mask| > 0
    ensures forall i :: 0 <= i < |input| ==>
      WriteBytes(f, input).value.output[i] == Xor(input[i], f.mask[Advance(f.offset, i, |f.mask|)])
    ensures forall i :: 0 <= i < |input| ==>
      WriteBytes(f, input).value.output[i] == Xor(input[i], f.mask[(f.offset + i) % |f.mask|])
    decreases |input|
  {
    forall i | 0 <= i < |input| {
      AdvanceMod(f.offset, i, |f.mask|);
    }
    if |input| > 0 {
      var next := f.(offset := Next(f.offset, |f.mask|));
      MasksEachByte(next, input[1..]);
      forall i | 1 <= i < |input|
        ensures Advance(next.offset, i - 1, |f.mask|) == Advance(f.offset, i, |f.mask|)
      {
      }
    }
  }

  /** Masking `a` and then `b` in two calls gives what one call on `a + b`
      gives, ending at the same mask position. */
  lemma {:induction false} SplitIndependent(f: Filter, a: seq<byte>, b: seq<byte>)
    requires Valid(f) && |f.mask| > 0
    ensures var s1 := WriteBytes(f, a).value;
      var s2 := WriteBytes(s1.f, b).value;
      WriteBytes(f, a + b) == Ok(Step(s2.f, s1.output + s2.output))
    decreases |a|
  {
    if |a| == 0 {
      assert a + b == b;
      assert WriteBytes(f, a) == Ok(Step(f, []));
      var s2 := WriteBytes(f, b).value;
      assert [] + s2.output == s2.output;
    } else {
      var next := f.(offset := Next(f.offset, |f.mask|));
      var x := Xor(a[0], f.mask[f.offset]);
      assert (a + b)[0] == a[0] && (a + b)[1..] == a[1..] + b;
      SplitIndependent(next, a[1..], b);
      var t1 := WriteBytes(next, a[1..]).value;
      var s2 := WriteBytes(t1.f, b).value;
      var t12 := WriteBytes(next, a[1..] + b).value;
      assert WriteBytes(f, a) == Ok(Step(t1.f, [x] + t1.output)) by {
        WriteStep(f, a);
      }
      assert WriteBytes(f, a + b) == Ok(Step(t12.f, [x] + t12.output)) by {
        WriteStep(f, a + b);
      }
      assert [x] + (t1.output + s2.output) == ([x] + t1.output) + s2.output;
    }
  }

  /** One byte of `WriteBytes` with a non-empty mask. */
  lemma WriteStep(f: Filter, input: seq<byte>)
    requires Valid(f) && |f.mask| > 0 && |input| > 0
    ensures var next := f.(offset := Next(f.offset, |f.mask|));
      var rest := WriteBytes(next, input[1..]).value;
      WriteBytes(f, input) == Ok(Step(rest.f, [Xor(input[0], f.mask[f.offset])] + rest.output))
  {
  }

  /** Masking twice from the same position restores the input. */
  lemma Involution(f: Filter, input: seq<byte>)
    requires Valid(f) && |f.mask| > 0
    ensures WriteBytes(f, WriteBytes(f, input).value.output).value.output == input
  {
    var once := WriteBytes(f, input).value.output;
    MasksEachByte(f, input);
    MasksEachByte(f, once);
  }
}
