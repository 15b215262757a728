/**
 The CRC over the flash image that the boot loader stores after programming and checks before booting. It tells
 apart any two images that differ within a burst of sixteen bits. The 16-bit register is modelled by its bits,
 the most significant one first.
 */
module ImageCrc {
  import opened Bytes

  type Register = r: seq<bool> | |r| ==
    16 witness [false, false, false, false, false, false, false, false, false, false, false, false, false, false,
    false, false]

  /** 0x1021 */
  const POLYNOMIAL: Register := [
    false, false, false, true, false, false, false, false,
    false, false, true, false, false, false, false, true]

  /** 0xFFFF */
  const INITIAL: Register :=
    [true, true, true, true, true, true, true, true, true, true, true, true, true, true, true, true]

  const ZERO: Register := seq(16, _ => false)

  function Shift(r: Register): Register {
    r[1..] + [false]
  }

  function Xor(r: Register, s: Register): (x: Register)
    ensures forall i :: 0 <= i < 16 ==> x[i] == (r[i] != s[i])
  {
    seq(16, i requires 0 <= i < 16 => r[i] != s[i])
  }

  /** One turn of the inner loop: a data bit is shifted in. */
  function Step(r: Register, bit: bool): Register {
    if r[0] != bit then Xor(Shift(r), POLYNOMIAL) else Shift(r)
  }

  function Run(r: Register, bits: seq<bool>): Register {
    if bits == [] then r else Step(Run(r, bits[..|bits| - 1]), bits[|bits| - 1])
  }

  function Double(b: int): Byte {
    2 * b % 256
  }

  /** The byte after `i` shifts to the left. */
  function Shifted(b: Byte, i: nat): Byte {
    if i == 0 then b else Double(Shifted(b, i - 1))
  }

  /** The bits of a byte, the most significant one first: what its top bit is while it is shifted to the left. */
  function BitsOf(b: Byte): (r: seq<bool>)
    ensures |r| == 8 && forall i :: 0 <= i < 8 ==> r[i] == (Shifted(b, i) >= 128)
  {
    seq(8, i requires 0 <= i < 8 => Shifted(b, i) >= 128)
  }

  function Bits(image: seq<Byte>): (r: seq<bool>)
    ensures |r| == 8 * |image|
  {
    if image == [] then [] else Bits(image[..|image| - 1]) + BitsOf(image[|image| - 1])
  }

  function Crc(image: seq<Byte>): Register {
    Run(INITIAL, Bits(image))
  }

  lemma ShiftsOfA()
    ensures Shifted(65, 0) == 65 && Shifted(65, 1) == 130 && Shifted(65, 2) == 4 && Shifted(65, 3) == 8
    ensures Shifted(65, 4) == 16 && Shifted(65, 5) == 32 && Shifted(65, 6) == 64 && Shifted(65, 7) == 128
  {
  }

  lemma BitsOfA()
    ensures Bits([65]) == [false, true, false, false, false, false, false, true]
  {
    ShiftsOfA();
    assert BitsOf(65) == [false, true, false, false, false, false, false, true];
    assert [65][..0] == [];
    assert Bits([65]) == Bits([]) + BitsOf(65);
  }

  /** The register moves up by a bit; the bits for x^12, x^5 and 1 change if what falls out is not the data bit. */
  lemma StepBits(r: Register, bit: bool)
    ensures forall i :: 0 <= i < 16 ==>
      Step(r, bit)[i] == ((i < 15 && r[i + 1]) != (r[0] != bit && (i == 3 || i == 10 || i == 15)))
  {
  }

  // The register while the bits of the byte 65 go through it: 0xEFDF, 0xDFBE and so on, 0xB915 at last.
  const AFTER_1: Register :=
    [true, true, true, false, true, true, true, true, true, true, false, true, true, true, true, true]
  const AFTER_2: Register :=
    [true, true, false, true, true, true, true, true, true, false, true, true, true, true, true, false]
  const AFTER_3: Register :=
    [true, false, true, false, true, true, true, true, false, true, false, true, true, true, false, true]
  const AFTER_4: Register :=
    [false, true, false, false, true, true, true, false, true, false, false, true, true, false, true, true]
  const AFTER_5: Register :=
    [true, false, false, true, true, true, false, true, false, false, true, true, false, true, true, false]
  const AFTER_6: Register :=
    [false, false, true, false, true, false, true, false, false, true, false, false, true, true, false, true]
  const AFTER_7: Register :=
    [false, true, false, true, false, true, false, false, true, false, false, true, true, false, true, false]
  const AFTER_8: Register :=
    [true, false, true, true, true, false, false, true, false, false, false, true, false, true, false, true]

  lemma StepTo1()
    ensures Step(INITIAL, false) == AFTER_1
  {
  }

  lemma StepTo2()
    ensures Step(AFTER_1, true) == AFTER_2
  {
  }

  lemma StepTo3()
    ensures Step(AFTER_2, false) == AFTER_3
  {
  }

  lemma StepTo4()
    ensures Step(AFTER_3, false) == AFTER_4
  {
  }

  lemma StepTo5()
    ensures Step(AFTER_4, false) == AFTER_5
  {
  }

  lemma StepTo6()
    ensures Step(AFTER_5, false) == AFTER_6
  {
  }

  lemma StepTo7()
    ensures Step(AFTER_6, false) == AFTER_7
  {
  }

  lemma StepTo8()
    ensures Step(AFTER_7, true) == AFTER_8
  {
  }

  /** The first bit, and then the others. */
  lemma RunFirst(r: Register, bits: seq<bool>)
    requires bits != []
    ensures Run(r, bits) == Run(Step(r, bits[0]), bits[1..])
  {
    var one := bits[..1];
    assert one[..0] == [];
    assert Run(r, one) == Step(r, bits[0]);
    assert bits == one + bits[1..];
    RunSplit(r, one, bits[1..]);
  }

  lemma RunTwo(r: Register, bits: seq<bool>, s: Register)
    requires |bits| >= 2 && Step(Step(r, bits[0]), bits[1]) == s
    ensures Run(r, bits) == Run(s, bits[2..])
  {
    RunFirst(r, bits);
    RunFirst(Step(r, bits[0]), bits[1..]);
    assert bits[1..][1..] == bits[2..];
  }

  lemma RunEight(bits: seq<bool>, r0: Register, r1: Register, r2: Register, r3: Register, r4: Register)
    requires |bits| == 8
    requires Step(Step(r0, bits[0]), bits[1]) == r1 && Step(Step(r1, bits[2]), bits[3]) == r2
    requires Step(Step(r2, bits[4]), bits[5]) == r3 && Step(Step(r3, bits[6]), bits[7]) == r4
    ensures Run(r0, bits) == r4
  {
    RunTwo(r0, bits, r1);
    RunTwo(r1, bits[2..], r2);
    assert bits[2..][2..] == bits[4..];
    RunTwo(r2, bits[4..], r3);
    assert bits[4..][2..] == bits[6..];
    RunTwo(r3, bits[6..], r4);
    assert bits[6..][2..] == [];
  }

  /** 0xB915, the CRC of the byte 65 for the polynomial x^16 + x^12 + x^5 + 1 and a register that begins with ones. */
  lemma CrcOfA()
    ensures Crc([65]) == AFTER_8
  {
    BitsOfA();
    StepTo1();
    StepTo2();
    StepTo3();
    StepTo4();
    StepTo5();
    StepTo6();
    StepTo7();
    StepTo8();
    RunEight(Bits([65]), INITIAL, AFTER_2, AFTER_4, AFTER_6, AFTER_8);
  }

  lemma {:induction false} RunSplit(r: Register, a: seq<bool>, b: seq<bool>)
    ensures Run(r, a + b) == Run(Run(r, a), b)
  {
    if b == [] {
      assert a + b == a;
    } else {
      RunSplit(r, a, b[..|b| - 1]);
      assert (a + b)[..|a + b| - 1] == a + b[..|b| - 1];
    }
  }

  /** The inner loop of `calc_crc`, over the bits of one byte. */
  method ShiftByte(r: Register, b: Byte) returns (crc: Register)
    ensures crc == Run(r, BitsOf(b))
  {
    crc := r;
    var rest := b;
    var i := 0;
    while i < 8
      invariant 0 <= i <= 8 && rest == Shifted(b, i)
      invariant crc == Run(r, BitsOf(b)[..i])
    {
      var crcbit := crc[0];
      var databit := rest >= 128;
      assert BitsOf(b)[..i + 1][..i] == BitsOf(b)[..i];
      crc := Shift(crc);
      rest := Double(rest);
      if crcbit != databit {
        crc := Xor(crc, POLYNOMIAL);
      }
      i := i + 1;
    }
    assert BitsOf(b)[..8] == BitsOf(b);
  }

  /** `calc_crc` over an image. */
  method CalcCrc(image: seq<Byte>) returns (crc: Register)
    ensures crc == Crc(image)
  {
    crc := INITIAL;
    var c := 0;
    while c < |image|
      invariant 0 <= c <= |image| && crc == Crc(image[..c])
    {
      assert image[..c + 1][..c] == image[..c];
      RunSplit(INITIAL, Bits(image[..c]), BitsOf(image[c]));
      crc := ShiftByte(crc, image[c]);
      c := c + 1;
    }
    assert image[..c] == image;
  }

  // ---------------------------------------------------------------- differences

  function Differ(a: seq<bool>, b: seq<bool>): (e: seq<bool>)
    requires |a| == |b|
    ensures |e| == |a|
  {
    seq(|a|, i requires 0 <= i < |a| => a[i] != b[i])
  }

  lemma StepLinear(x: Register, y: Register, p: bool, q: bool)
    ensures Xor(Step(x, p), Step(y, q)) == Step(Xor(x, y), p != q)
  {
    forall i | 0 <= i < 16 ensures Xor(Step(x, p), Step(y, q))[i] == Step(Xor(x, y), p != q)[i] {
    }
  }

  /** The CRC of the difference is the difference of the CRCs. */
  lemma {:induction false} RunLinear(x: Register, y: Register, a: seq<bool>, b: seq<bool>)
    requires |a| == |b|
    ensures Xor(Run(x, a), Run(y, b)) == Run(Xor(x, y), Differ(a, b))
  {
    if a != [] {
      var n := |a| - 1;
      RunLinear(x, y, a[..n], b[..n]);
      assert Differ(a, b)[..n] == Differ(a[..n], b[..n]);
      StepLinear(Run(x, a[..n]), Run(y, b[..n]), a[n], b[n]);
    }
  }

  ghost predicate Quiet(e: seq<bool>) {
    forall i :: 0 <= i < |e| ==> !e[i]
  }

  /** The last `k` bits of a register are zero. */
  ghost predicate LowZero(r: Register, k: nat) {
    forall i :: 0 <= i < 16 && i >= 16 - k ==> !r[i]
  }

  /** If low bits after a step are zero, nothing was fed back, and the bits that were shifted there were zero. */
  lemma StepBack(y: Register, bit: bool, k: nat)
    requires 1 <= k <= 16 && LowZero(Step(y, bit), k)
    ensures bit == y[0] && Step(y, bit) == Shift(y) && LowZero(y, k - 1)
  {
    assert !Step(y, bit)[15];
    forall i | 0 <= i < 16 && i >= 16 - (k - 1) ensures !y[i] {
      assert !Step(y, bit)[i - 1];
    }
  }

  lemma LowZeroIsZero(r: Register)
    ensures LowZero(r, 16) <==> r == ZERO
  {
    if LowZero(r, 16) {
      assert forall i :: 0 <= i < 16 ==> r[i] == ZERO[i];
    }
  }

  lemma StepQuiet(d: Register)
    ensures Step(d, false) == ZERO <==> d == ZERO
  {
    assert Shift(ZERO) == ZERO;
    if Step(d, false) == ZERO {
      LowZeroIsZero(Step(d, false));
      StepBack(d, false, 16);
      assert forall i :: 0 <= i < 16 ==> d[i] == ZERO[i];
    }
  }

  /** Equal bits neither create nor remove a difference. */
  lemma {:induction false} RunQuiet(d: Register, e: seq<bool>)
    requires Quiet(e)
    ensures Run(d, e) == ZERO <==> d == ZERO
  {
    if e != [] {
      RunQuiet(d, e[..|e| - 1]);
      StepQuiet(Run(d, e[..|e| - 1]));
    }
  }

  /** From no difference, at most sixteen bits that leave low bits equal are no difference at all. */
  lemma {:induction false} BurstBack(e: seq<bool>, k: nat)
    requires |e| <= k <= 16 && LowZero(Run(ZERO, e), k)
    ensures Quiet(e)
  {
    if e != [] {
      var n := |e| - 1;
      StepBack(Run(ZERO, e[..n]), e[n], k);
      BurstBack(e[..n], k - 1);
      RunQuiet(ZERO, e[..n]);
      forall i | 0 <= i < |e| ensures !e[i] {
        assert i < n ==> !e[..n][i];
      }
    }
  }

  lemma XorZero(x: Register, y: Register)
    ensures Xor(x, y) == ZERO <==> x == y
  {
    if Xor(x, y) == ZERO {
      forall i | 0 <= i < 16 ensures x[i] == y[i] {
        assert !Xor(x, y)[i];
      }
    }
  }

  /** A difference within sixteen bits is not shifted out again. */
  lemma BurstStays(before: seq<bool>, burst: seq<bool>, after: seq<bool>)
    requires Quiet(before) && Quiet(after) && |burst| <= 16 && Run(ZERO, before + burst + after) == ZERO
    ensures Quiet(burst)
  {
    RunSplit(ZERO, before + burst, after);
    RunSplit(ZERO, before, burst);
    RunQuiet(ZERO, before);
    RunQuiet(Run(ZERO, burst), after);
    LowZeroIsZero(Run(ZERO, burst));
    BurstBack(burst, 16);
  }

  lemma BurstWithin(e: seq<bool>, p: nat, w: nat)
    requires p + w <= |e| && w <= 16 && Quiet(e[..p]) && Quiet(e[p + w..]) && Run(ZERO, e) == ZERO
    ensures Quiet(e[p..p + w])
  {
    assert e == e[..p] + e[p..p + w] + e[p + w..];
    BurstStays(e[..p], e[p..p + w], e[p + w..]);
  }

  /** The bits agree, except perhaps for `w` bits from `p` on. */
  ghost predicate AgreeOutside(a: seq<bool>, b: seq<bool>, p: nat, w: nat) {
    && |a| == |b| && p + w <= |a|
    && forall i :: 0 <= i < |a| && !(p <= i < p + w) ==> a[i] == b[i]
  }

  lemma QuietOutside(a: seq<bool>, b: seq<bool>, p: nat, w: nat)
    requires AgreeOutside(a, b, p, w)
    ensures Quiet(Differ(a, b)[..p]) && Quiet(Differ(a, b)[p + w..])
    ensures Quiet(Differ(a, b)[p..p + w]) ==> a == b
  {
    var e := Differ(a, b);
    if Quiet(e[p..p + w]) {
      forall i | 0 <= i < |a| ensures a[i] == b[i] {
        if p <= i < p + w {
          assert !e[p..p + w][i - p];
        }
      }
    }
  }

  /** Two bit strings that differ, but only within sixteen bits, have different CRCs. */
  lemma BurstDetected(r: Register, a: seq<bool>, b: seq<bool>, p: nat, w: nat)
    requires AgreeOutside(a, b, p, w) && w <= 16
    ensures Run(r, a) == Run(r, b) ==> a == b
  {
    if Run(r, a) == Run(r, b) {
      var e := Differ(a, b);
      RunLinear(r, r, a, b);
      XorZero(r, r);
      XorZero(Run(r, a), Run(r, b));
      QuietOutside(a, b, p, w);
      BurstWithin(e, p, w);
    }
  }

  function Scaled(i: nat, d: int): int {
    if i == 0 then d else 2 * Scaled(i - 1, d)
  }

  lemma DistanceStep(x: Byte, y: Byte)
    requires x >= 128 <==> y >= 128
    ensures Double(x) - Double(y) == 2 * (x - y)
  {
  }

  /** As long as the top bits agree, the distance of two bytes doubles with every shift. */
  lemma {:induction false} DistanceDoubles(x: Byte, y: Byte, i: nat)
    requires i <= 8 && BitsOf(x) == BitsOf(y)
    ensures Shifted(x, i) - Shifted(y, i) == Scaled(i, x - y)
  {
    if i > 0 {
      DistanceDoubles(x, y, i - 1);
      assert BitsOf(x)[i - 1] == BitsOf(y)[i - 1];
      DistanceStep(Shifted(x, i - 1), Shifted(y, i - 1));
    }
  }

  lemma BitsOfInjective(x: Byte, y: Byte)
    requires BitsOf(x) == BitsOf(y)
    ensures x == y
  {
    DistanceDoubles(x, y, 8);
    var d := x - y;
    assert Scaled(1, d) == 2 * d;
    assert Scaled(2, d) == 2 * Scaled(1, d);
    assert Scaled(3, d) == 2 * Scaled(2, d);
    assert Scaled(4, d) == 2 * Scaled(3, d);
    assert Scaled(5, d) == 2 * Scaled(4, d);
    assert Scaled(6, d) == 2 * Scaled(5, d);
    assert Scaled(7, d) == 2 * Scaled(6, d);
    assert Scaled(8, d) == 2 * Scaled(7, d);
  }

  lemma {:induction false} BitsInjective(x: seq<Byte>, y: seq<Byte>)
    requires Bits(x) == Bits(y)
    ensures x == y
    decreases |x|
  {
    if x != [] {
      var n := |x| - 1;
      assert |y| == |x|;
      assert Bits(x[..n]) == Bits(x)[..8 * n] == Bits(y[..n]);
      assert BitsOf(x[n]) == Bits(x)[8 * n..] == BitsOf(y[n]);
      BitsInjective(x[..n], y[..n]);
      BitsOfInjective(x[n], y[n]);
      assert x == x[..n] + [x[n]] && y == y[..n] + [y[n]];
    }
  }

  /** Different images of equal length that differ only within a burst of at most sixteen bits have different CRCs. */
  lemma ImageBurstDetected(x: seq<Byte>, y: seq<Byte>, p: nat, w: nat)
    requires x != y && AgreeOutside(Bits(x), Bits(y), p, w) && w <= 16
    ensures Crc(x) != Crc(y)
  {
    BurstDetected(INITIAL, Bits(x), Bits(y), p, w);
    if Bits(x) == Bits(y) {
      BitsInjective(x, y);
    }
  }
}
