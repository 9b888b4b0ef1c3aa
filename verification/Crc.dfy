/** mkpimage's crc32: table-driven, equal to dividing one bit at a time. */
module Crc {
  import opened CrcTable

  // ----- arithmetic of remainders -----

  lemma DoubleXor(a: bv32, b: bv32)
    ensures Double(Xor(a, b)) == Xor(Double(a), Double(b))
  {
  }

  lemma TopXor(a: bv32, b: bv32)
    ensures Top(Xor(a, b)) <==> Top(a) != Top(b)
  {
  }

  lemma XorAssoc(a: bv32, b: bv32, c: bv32)
    ensures Xor(Xor(a, b), c) == Xor(a, Xor(b, c))
  {
    assert (a ^ b) ^ c == a ^ (b ^ c);
  }

  lemma XorComm(a: bv32, b: bv32)
    ensures Xor(a, b) == Xor(b, a)
  {
  }

  lemma XorSelf(a: bv32)
    ensures Xor(a, a) == 0 && Xor(a, 0) == a && Xor(0, a) == a
  {
  }

  lemma XorSwap(x: bv32, y: bv32, p: bv32)
    ensures Xor(Xor(x, p), y) == Xor(Xor(x, y), p) == Xor(x, Xor(y, p))
  {
    hide Xor;
    XorAssoc(x, y, p);
    XorAssoc(x, p, y);
    XorComm(p, y);
  }

  lemma XorBoth(x: bv32, y: bv32, p: bv32)
    ensures Xor(Xor(x, p), Xor(y, p)) == Xor(x, y)
  {
    hide Xor;
    XorSwap(x, Xor(y, p), p);
    XorAssoc(x, Xor(y, p), p);
    XorAssoc(y, p, p);
    XorSelf(p);
    XorSelf(y);
  }

  lemma StepXor(a: bv32, b: bv32)
    ensures Step(Xor(a, b)) == Xor(Step(a), Step(b))
  {
    hide Xor, Double, Top, Poly;
    DoubleXor(a, b);
    TopXor(a, b);
    XorSwap(Double(a), Double(b), Poly);
    XorBoth(Double(a), Double(b), Poly);
  }

  lemma StepsXor(a: bv32, b: bv32)
    ensures Steps(Xor(a, b)) == Xor(Steps(a), Steps(b))
  {
    hide Step, Xor;
    StepXor(a, b);
    var a1, b1 := Step(a), Step(b);
    StepXor(a1, b1);
    var a2, b2 := Step(a1), Step(b1);
    StepXor(a2, b2);
    var a3, b3 := Step(a2), Step(b2);
    StepXor(a3, b3);
    var a4, b4 := Step(a3), Step(b3);
    StepXor(a4, b4);
    var a5, b5 := Step(a4), Step(b4);
    StepXor(a5, b5);
    var a6, b6 := Step(a5), Step(b5);
    StepXor(a6, b6);
    StepXor(Step(a6), Step(b6));
  }

  // ----- one bit at a time -----

  // The bits of a byte, most significant first.
  function BitsOf(b: bv8): seq<bool> {
    [b & 0x80 != 0, b & 0x40 != 0, b & 0x20 != 0, b & 0x10 != 0, b & 0x08 != 0, b & 0x04 != 0, b & 0x02 != 0,
      b & 0x01 != 0]
  }

  function Bits(s: seq<bv8>): (bits: seq<bool>)
    ensures |bits| == 8 * |s|
  {
    if s == [] then [] else Bits(s[..|s| - 1]) + BitsOf(s[|s| - 1])
  }

  // The shift register: one message bit goes in at the top.
  function FeedBit(c: bv32, bit: bool): bv32 {
    if Top(c) != bit then Xor(Double(c), Poly) else Double(c)
  }

  /** The CRC of a bit string, one bit at a time. */
  function FeedBits(c: bv32, bits: seq<bool>): bv32
    decreases |bits|
  {
    if bits == [] then c else FeedBits(FeedBit(c, bits[0]), bits[1..])
  }

  lemma {:induction false} FeedBitsConcat(c: bv32, a: seq<bool>, b: seq<bool>)
    ensures FeedBits(c, a + b) == FeedBits(FeedBits(c, a), b)
    decreases |a|
  {
    hide FeedBit;
    if a == [] {
      assert a + b == b;
    } else {
      assert (a + b)[1..] == a[1..] + b;
      FeedBitsConcat(FeedBit(c, a[0]), a[1..], b);
    }
  }

  function Signed(bit: bool): bv32 {
    if bit then Poly else 0
  }

  lemma FeedBitStep(c: bv32, bit: bool)
    ensures FeedBit(c, bit) == Xor(Step(c), Signed(bit))
  {
    hide Xor, Double, Top, Poly;
    XorSelf(Double(c));
    XorAssoc(Double(c), Poly, Poly);
    XorSelf(Poly);
    XorSelf(Xor(Double(c), Poly));
  }

  // Bits waiting in the register can be taken out and fed one by one.
  lemma PeelBit(c: bv32, waiting: bv32)
    ensures Step(Xor(c, waiting)) == Xor(FeedBit(c, Top(waiting)), Double(waiting))
  {
    hide Xor, Double, Top, Poly, FeedBit;
    var bit := Signed(Top(waiting));
    StepXor(c, waiting);
    FeedBitStep(c, Top(waiting));
    assert Step(waiting) == Xor(Double(waiting), bit) by {
      XorSelf(Double(waiting));
    }
    XorSwap(Step(c), Double(waiting), bit);
  }

  // The bits wait at the top of an otherwise empty register.
  ghost predicate Waits(w: bv32, bits: seq<bool>)
    decreases |bits|
  {
    if bits == [] then w == 0 else Top(w) == bits[0] && Waits(Double(w), bits[1..])
  }

  function StepN(c: bv32, n: nat): bv32
    decreases n
  {
    if n == 0 then c else StepN(Step(c), n - 1)
  }

  lemma {:induction false} PeelBits(c: bv32, w: bv32, bits: seq<bool>)
    requires Waits(w, bits)
    ensures StepN(Xor(c, w), |bits|) == FeedBits(c, bits)
    decreases |bits|
  {
    hide Xor, Double, Top, Step, FeedBit;
    if bits == [] {
      XorSelf(c);
    } else {
      PeelBit(c, w);
      PeelBits(FeedBit(c, bits[0]), Double(w), bits[1..]);
    }
  }

  lemma WaitsCons(w: bv32, rest: seq<bool>)
    requires Waits(Double(w), rest)
    ensures Waits(w, [Top(w)] + rest)
  {
    hide Top, Double;
    assert ([Top(w)] + rest)[1..] == rest;
  }

  lemma WaitingBits(b: bv8)
    ensures var w0 := InTop(b);
      var w1 := Double(w0); var w2 := Double(w1); var w3 := Double(w2); var w4 := Double(w3);
      var w5 := Double(w4); var w6 := Double(w5); var w7 := Double(w6);
      BitsOf(b) == [Top(w0), Top(w1), Top(w2), Top(w3), Top(w4), Top(w5), Top(w6), Top(w7)] && Double(w7) == 0
  {
  }

  lemma ByteWaits(b: bv8)
    ensures Waits(InTop(b), BitsOf(b))
  {
    WaitingBits(b);
    assert Waits(0, []);
    hide Top, Double, InTop, BitsOf, Waits;
    var w0 := InTop(b);
    var w1 := Double(w0);
    var w2 := Double(w1);
    var w3 := Double(w2);
    var w4 := Double(w3);
    var w5 := Double(w4);
    var w6 := Double(w5);
    var w7 := Double(w6);
    WaitsFour(w4, []);
    var low := [Top(w4), Top(w5), Top(w6), Top(w7)] + [];
    WaitsFour(w0, low);
    assert [Top(w0), Top(w1), Top(w2), Top(w3)] + low == BitsOf(b);
  }

  lemma WaitsFour(w0: bv32, rest: seq<bool>)
    requires Waits(Double(Double(Double(Double(w0)))), rest)
    ensures Waits(w0, [Top(w0), Top(Double(w0)), Top(Double(Double(w0))), Top(Double(Double(Double(w0))))] + rest)
  {
    hide Top, Double, Waits;
    var w1 := Double(w0);
    var w2 := Double(w1);
    var w3 := Double(w2);
    WaitsCons(w3, rest);
    WaitsCons(w2, [Top(w3)] + rest);
    WaitsCons(w1, [Top(w2)] + ([Top(w3)] + rest));
    WaitsCons(w0, [Top(w1)] + ([Top(w2)] + ([Top(w3)] + rest)));
    assert [Top(w0)] + ([Top(w1)] + ([Top(w2)] + ([Top(w3)] + rest))) == [Top(w0), Top(w1), Top(w2), Top(w3)] + rest;
  }

  // A whole byte put into the top of the register and shifted through.
  lemma ByteFed(c: bv32, b: bv8)
    ensures Steps(Xor(c, InTop(b))) == FeedBits(c, BitsOf(b))
  {
    hide Step, Xor, InTop, BitsOf, FeedBits, Steps;
    ByteWaits(b);
    assert |BitsOf(b)| == 8 by {
      EightBits(b);
    }
    PeelBits(c, InTop(b), BitsOf(b));
    EightSteps(Xor(c, InTop(b)));
  }

  lemma EightBits(b: bv8)
    ensures |BitsOf(b)| == 8
  {
  }

  lemma EightSteps(c: bv32)
    ensures StepN(c, 8) == Steps(c)
  {
    hide Step;
    assert StepN(c, 8) == StepN(Step(Step(Step(Step(c)))), 4);
  }

  // ----- one byte at a time, by table -----

  function Index(c: bv32, b: bv8): bv8 {
    (((c >> 24) ^ (b as bv32)) & 0xff) as bv8
  }

  function TableStep(c: bv32, b: bv8): bv32 {
    Xor(c << 8, Table(Index(c, b)))
  }

  lemma IndexInTop(c: bv32, b: bv8)
    ensures InTop(Index(c, b)) == Xor(c & 0xff00_0000, InTop(b))
  {
  }

  lemma Halves(c: bv32)
    ensures Xor(c & 0xff00_0000, c & 0x00ff_ffff) == c
  {
  }

  lemma LowStep(c: bv32)
    ensures Steps(c & 0x00ff_ffff) == c << 8
  {
  }

  /** One table step is eight steps of the bitwise register. */
  lemma TableStepRight(c: bv32, b: bv8)
    ensures TableStep(c, b) == FeedBits(c, BitsOf(b))
  {
    hide Xor, Steps, FeedBits, InTop, BitsOf, Table, Index;
    var high, low := c & 0xff00_0000, c & 0x00ff_ffff;
    Halves(c);
    IndexInTop(c, b);
    TableRight(Index(c, b));
    XorSwap(high, InTop(b), low);
    StepsXor(Xor(high, InTop(b)), low);
    LowStep(c);
    XorComm(Steps(Xor(high, InTop(b))), c << 8);
    ByteFed(c, b);
  }

  /** crc32: the table-driven loop computes the bitwise CRC of the buffer, from any start value. */
  method Crc32(start: bv32, buf: array<bv8>, length: nat) returns (crc: bv32)
    requires length <= buf.Length
    ensures crc == FeedBits(start, Bits(buf[..length]))
  {
    hide FeedBits, BitsOf;
    crc := start;
    var i := 0;
    assert FeedBits(start, []) == start by {
      FeedNothing(start);
    }
    while i < length
      invariant i <= length && crc == FeedBits(start, Bits(buf[..i]))
    {
      assert buf[..i + 1][..i] == buf[..i] && buf[..i + 1][i] == buf[i];
      TableStepRight(crc, buf[i]);
      FeedBitsConcat(start, Bits(buf[..i]), BitsOf(buf[i]));
      crc := TableStep(crc, buf[i]);
      i := i + 1;
    }
  }

  lemma FeedNothing(c: bv32)
    ensures FeedBits(c, []) == c
  {
  }

  // ----- the remainder of a polynomial division -----

  // Bringing down the next bit of the dividend.
  function Bring(r: bv32, bit: bool): bv32 {
    Xor(Step(r), if bit then 1 else 0)
  }

  /** Long division by the generator, from the remainder `r` on. */
  function Divide(r: bv32, bits: seq<bool>): bv32
    decreases |bits|
  {
    if bits == [] then r else Divide(Bring(r, bits[0]), bits[1..])
  }

  function Zeros(n: nat): (bits: seq<bool>)
    ensures |bits| == n
  {
    if n == 0 then [] else [false] + Zeros(n - 1)
  }

  lemma {:induction false} DivideConcat(r: bv32, a: seq<bool>, b: seq<bool>)
    ensures Divide(r, a + b) == Divide(Divide(r, a), b)
    decreases |a|
  {
    if a == [] {
      assert a + b == b;
    } else {
      assert (a + b)[1..] == a[1..] + b;
      DivideConcat(Bring(r, a[0]), a[1..], b);
    }
  }

  lemma BringZero(r: bv32)
    ensures Bring(r, false) == Step(r)
  {
    hide Xor, Step;
    XorSelf(Step(r));
  }

  lemma {:induction false} DivideZerosXor(a: bv32, b: bv32, n: nat)
    ensures Divide(Xor(a, b), Zeros(n)) == Xor(Divide(a, Zeros(n)), Divide(b, Zeros(n)))
    decreases n
  {
    hide Xor, Step;
    if n > 0 {
      BringZero(a);
      BringZero(b);
      BringZero(Xor(a, b));
      StepXor(a, b);
      assert Zeros(n)[1..] == Zeros(n - 1);
      DivideZerosXor(Step(a), Step(b), n - 1);
    }
  }

  lemma {:induction false} DivideZerosStep(r: bv32, n: nat)
    ensures Step(Divide(r, Zeros(n))) == Divide(Step(r), Zeros(n)) == Divide(r, Zeros(n + 1))
    decreases n
  {
    hide Xor, Step;
    BringZero(r);
    assert Zeros(n + 1)[1..] == Zeros(n);
    if n > 0 {
      assert Zeros(n)[1..] == Zeros(n - 1);
      DivideZerosStep(Step(r), n - 1);
    }
  }

  lemma {:induction false} DivideZerosSteps(r: bv32, n: nat)
    ensures Divide(r, Zeros(n)) == StepN(r, n)
    decreases n
  {
    hide Step, Xor;
    if n > 0 {
      assert Zeros(n)[1..] == Zeros(n - 1);
      BringZero(r);
      DivideZerosSteps(Step(r), n - 1);
    }
  }

  lemma {:induction false} StepNAdd(r: bv32, m: nat, n: nat)
    ensures StepN(r, m + n) == StepN(StepN(r, m), n)
    decreases m
  {
    hide Step;
    if m > 0 {
      StepNAdd(Step(r), m - 1, n);
    }
  }

  // x^32 leaves the rest of the generator.
  lemma PowerTop()
    ensures Divide(1, Zeros(32)) == Poly
  {
    assert Steps(1) == 0x100 && Steps(0x100) == 0x1_0000 && Steps(0x1_0000) == 0x100_0000 && Steps(0x100_0000) == Poly;
    hide Steps, Poly;
    DivideZerosSteps(1, 32);
    StepNAdd(1, 8, 24);
    StepNAdd(0x100, 8, 16);
    StepNAdd(0x1_0000, 8, 8);
    EightSteps(1);
    EightSteps(0x100);
    EightSteps(0x1_0000);
    EightSteps(0x100_0000);
  }

  /** The CRC is the remainder of start * x^n + message * x^32, where n is the length of the message in bits. */
  lemma {:induction false} CrcIsRemainder(c: bv32, bits: seq<bool>)
    ensures FeedBits(c, bits) == Xor(Divide(c, Zeros(|bits|)), Divide(0, bits + Zeros(32)))
    decreases |bits|
  {
    hide Xor, Step, Poly;
    if bits == [] {
      assert bits + Zeros(32) == Zeros(32);
      DivideZero(32);
      XorSelf(c);
    } else {
      var init, b := bits[..|bits| - 1], bits[|bits| - 1];
      CrcIsRemainder(c, init);
      var start, rest := Divide(c, Zeros(|init|)), Divide(0, init + Zeros(32));
      FeedBitStep(FeedBits(c, init), b);
      StepXor(start, rest);
      DivideZerosStep(c, |init|);
      LastBit(init, b);
      XorAssoc(Step(start), Step(rest), Signed(b));
      assert bits == init + [b];
      FeedBitsConcat(c, init, [b]);
      assert FeedBits(FeedBits(c, init), [b]) == FeedBit(FeedBits(c, init), b);
    }
  }

  lemma {:induction false} DivideZero(n: nat)
    ensures Divide(0, Zeros(n)) == 0
  {
    if n > 0 {
      assert Zeros(n)[1..] == Zeros(n - 1);
      BringZero(0);
      DivideZero(n - 1);
    }
  }

  // Appending one bit to the message.
  lemma LastBit(init: seq<bool>, b: bool)
    ensures Divide(0, init + [b] + Zeros(32)) == Xor(Step(Divide(0, init + Zeros(32))), Signed(b))
  {
    hide Xor, Step, Poly;
    var r := Divide(0, init);
    var bit: bv32 := if b then 1 else 0;
    assert init + [b] + Zeros(32) == init + ([b] + Zeros(32)) && ([b] + Zeros(32))[1..] == Zeros(32);
    DivideConcat(0, init, [b] + Zeros(32));
    assert Divide(r, [b] + Zeros(32)) == Divide(Xor(Step(r), bit), Zeros(32));
    DivideZerosXor(Step(r), bit, 32);
    DivideZerosStep(r, 32);
    DivideConcat(0, init, Zeros(32));
    assert Divide(bit, Zeros(32)) == Signed(b) by {
      if b {
        PowerTop();
      } else {
        DivideZero(32);
      }
    }
  }

  // ----- what the CRC catches -----

  lemma DoubleInjective(a: bv32, b: bv32)
    requires Double(a) == Double(b) && Top(a) == Top(b)
    ensures a == b
  {
  }

  // A doubled word is even, the generator is odd.
  lemma DoubleEven(a: bv32, b: bv32)
    ensures Xor(Double(a), Poly) != Double(b)
  {
  }

  lemma XorInjective(a: bv32, b: bv32, p: bv32)
    requires Xor(a, p) == Xor(b, p)
    ensures a == b
  {
    hide Xor;
    XorAssoc(a, p, p);
    XorAssoc(b, p, p);
    XorSelf(p);
    XorSelf(a);
    XorSelf(b);
  }

  lemma StepInjective(a: bv32, b: bv32)
    requires Step(a) == Step(b)
    ensures a == b
  {
    hide Xor, Double, Top, Poly;
    DoubleEven(a, b);
    DoubleEven(b, a);
    if Top(a) && Top(b) {
      XorInjective(Double(a), Double(b), Poly);
    }
    DoubleInjective(a, b);
  }

  lemma {:induction false} StepNInjective(a: bv32, b: bv32, n: nat)
    requires StepN(a, n) == StepN(b, n)
    ensures a == b
    decreases n
  {
    hide Step;
    if n > 0 {
      StepNInjective(Step(a), Step(b), n - 1);
      StepInjective(a, b);
    }
  }

  lemma {:induction false} FeedBitsInjective(c: bv32, d: bv32, bits: seq<bool>)
    requires FeedBits(c, bits) == FeedBits(d, bits)
    ensures c == d
    decreases |bits|
  {
    hide FeedBit, Step, Xor;
    if bits != [] {
      FeedBitsInjective(FeedBit(c, bits[0]), FeedBit(d, bits[0]), bits[1..]);
      FeedBitStep(c, bits[0]);
      FeedBitStep(d, bits[0]);
      XorInjective(Step(c), Step(d), Signed(bits[0]));
      StepInjective(c, d);
    }
  }

  lemma InTopInjective(a: bv8, b: bv8)
    requires InTop(a) == InTop(b)
    ensures a == b
  {
    assert a == (InTop(a) >> 24) as bv8 && b == (InTop(b) >> 24) as bv8;
  }

  lemma ByteInjective(c: bv32, a: bv8, b: bv8)
    requires FeedBits(c, BitsOf(a)) == FeedBits(c, BitsOf(b))
    ensures a == b
  {
    hide FeedBits, BitsOf, InTop, Xor, Steps, StepN;
    ByteFed(c, a);
    ByteFed(c, b);
    EightSteps(Xor(c, InTop(a)));
    EightSteps(Xor(c, InTop(b)));
    StepNInjective(Xor(c, InTop(a)), Xor(c, InTop(b)), 8);
    XorComm(c, InTop(a));
    XorComm(c, InTop(b));
    XorInjective(InTop(a), InTop(b), c);
    InTopInjective(a, b);
  }

  lemma {:induction false} BitsConcat(s: seq<bv8>, t: seq<bv8>)
    ensures Bits(s + t) == Bits(s) + Bits(t)
  {
    hide BitsOf;
    if t == [] {
      assert s + t == s;
    } else {
      var init, last := t[..|t| - 1], t[|t| - 1];
      BitsConcat(s, init);
      assert (s + t)[..|s + t| - 1] == s + init && (s + t)[|s + t| - 1] == last;
    }
  }

  lemma FeedThrough(c: bv32, s: seq<bv8>, i: nat)
    requires i < |s|
    ensures FeedBits(c, Bits(s)) == FeedBits(FeedBits(FeedBits(c, Bits(s[..i])), BitsOf(s[i])), Bits(s[i + 1..]))
  {
    hide BitsOf, FeedBits;
    var front, back := s[..i], s[i + 1..];
    assert s == s[..i + 1] + back && s[..i + 1][..i] == front;
    BitsConcat(s[..i + 1], back);
    FeedBitsConcat(c, Bits(s[..i + 1]), Bits(back));
    FeedBitsConcat(c, Bits(front), BitsOf(s[i]));
  }

  /** Changing one byte of a message always changes its CRC. */
  lemma OneByteCaught(c: bv32, s: seq<bv8>, i: nat, b: bv8)
    requires i < |s| && b != s[i]
    ensures FeedBits(c, Bits(s)) != FeedBits(c, Bits(s[i := b]))
  {
    hide BitsOf, FeedBits, Bits;
    var t := s[i := b];
    if FeedBits(c, Bits(s)) == FeedBits(c, Bits(t)) {
      FeedThrough(c, s, i);
      FeedThrough(c, t, i);
      assert t[..i] == s[..i] && t[i + 1..] == s[i + 1..];
      var before := FeedBits(c, Bits(s[..i]));
      FeedBitsInjective(FeedBits(before, BitsOf(s[i])), FeedBits(before, BitsOf(b)), Bits(s[i + 1..]));
      ByteInjective(before, s[i], b);
    }
  }
}
