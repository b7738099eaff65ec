/**
  The two CRC-32 routines of the kernel: bit by bit in kernel/android_prop.c,
  table-driven in kernel/adb.c (section 8 of RFC 1952).

  The bit-vector operations get names, a handful of laws are proved about them on
  the bits, and everything else is algebra from those laws.
*/
module Crc32 {
  import opened Prelude

  type Word = bv32

  const ONES: Word := 0xFFFFFFFF

  // ----- the operations and their laws -----

  function Xor(a: Word, b: Word): Word { a ^ b }

  function Half(a: Word): Word { a >> 1 }

  predicate Odd(a: Word) { a & 1 == 1 }

  function Low(a: Word): Word { a & 0xFF }

  function High(a: Word): Word { a >> 8 }

  function Raised(a: Word): Word { a << 8 }

  function Wide(b: Byte): Word { b as Word }

  /** The word fits in its lowest `m` bytes. */
  predicate Fits(a: Word, m: nat) {
    match m
    case 0 => a == 0
    case 1 => a < 0x100
    case 2 => a < 0x10000
    case 3 => a < 0x1000000
    case _ => true
  }

  lemma XorAssociates(a: Word, b: Word, c: Word)
    ensures Xor(Xor(a, b), c) == Xor(a, Xor(b, c))
  {
  }

  lemma XorZero(a: Word, b: Word)
    ensures Xor(a, 0) == a && Xor(a, a) == 0
    ensures Xor(a, b) == 0 <==> a == b
  {
  }

  lemma XorGroup(a: Word, b: Word, c: Word)
    ensures Xor(Xor(a, b), c) == Xor(a, Xor(b, c))
    ensures Xor(a, b) == Xor(b, a)
    ensures Xor(a, 0) == a && Xor(a, a) == 0
    ensures Xor(a, b) == 0 <==> a == b
  {
    XorAssociates(a, b, c);
    XorZero(a, b);
  }

  lemma XorUndoes(a: Word, b: Word)
    ensures Xor(Xor(a, b), b) == a
  {
  }

  lemma HalfOfXor(a: Word, b: Word)
    ensures Odd(Xor(a, b)) <==> Odd(a) != Odd(b)
    ensures Half(Xor(a, b)) == Xor(Half(a), Half(b))
  {
  }

  lemma HalfNeverPoly(a: Word)
    ensures Half(a) != 0xEDB88320
    ensures !Odd(a) && Half(a) == 0 ==> a == 0
    ensures Half(0) == 0 && !Odd(0)
  {
  }

  lemma SplitAtByte(a: Word)
    ensures a == Xor(Low(a), Raised(High(a)))
    ensures Fits(Low(a), 1) && Fits(High(a), 3)
  {
  }

  lemma WideIsLow(a: Word, b: Byte)
    ensures Fits(Wide(b), 1) && High(Xor(a, Wide(b))) == High(a)
  {
  }

  lemma WideDiffers(b: Byte, c: Byte)
    ensures Fits(Xor(Wide(b), Wide(c)), 1)
    ensures Xor(Wide(b), Wide(c)) == 0 <==> b == c
  {
  }

  lemma RaisedFits(a: Word, low: Word, m: nat)
    requires m <= 3 && Fits(a, m) && Fits(low, 1)
    ensures Fits(Xor(Raised(a), low), m + 1)
    ensures low == Raised(a) ==> low == 0
    ensures Fits(a, 3)
  {
  }

  // ----- the definition: one bit at a time -----

  function BitStep(c: Word): Word {
    Xor(Half(c), if Odd(c) then 0xEDB88320 else 0)
  }

  function BitSteps(c: Word, n: nat): Word
    decreases n
  {
    if n == 0 then c else BitSteps(BitStep(c), n - 1)
  }

  /** One byte enters at the low end, and eight bits are stepped out. */
  function ByteStep(c: Word, b: Byte): Word {
    BitSteps(Xor(c, Wide(b)), 8)
  }

  function State(c: Word, data: seq<Byte>): Word
    decreases data
  {
    if data == [] then c else State(ByteStep(c, data[0]), data[1..])
  }

  function Crc(data: seq<Byte>): Word {
    Xor(State(ONES, data), ONES)
  }

  lemma {:induction false} StateOfConcat(c: Word, a: seq<Byte>, b: seq<Byte>)
    ensures State(c, a + b) == State(State(c, a), b)
    decreases a
  {
    hide ByteStep;
    if a == [] {
      assert a + b == b;
    } else {
      assert (a + b)[1..] == a[1..] + b;
      StateOfConcat(ByteStep(c, a[0]), a[1..], b);
    }
  }

  lemma StateOfAppend(c: Word, a: seq<Byte>, b: Byte)
    ensures State(c, a + [b]) == ByteStep(State(c, a), b)
  {
    hide ByteStep;
    StateOfConcat(c, a, [b]);
    assert [b][1..] == [];
  }

  // ----- the step is linear and injective -----

  lemma StepIsLinear(a: Word, b: Word)
    ensures BitStep(Xor(a, b)) == Xor(BitStep(a), BitStep(b))
  {
    hide Xor, Half, Odd;
    HalfOfXor(a, b);
    var x, y, p: Word := Half(a), Half(b), 0xEDB88320;
    XorGroup(Xor(x, y), 0, 0);
    XorGroup(x, 0, 0);
    XorGroup(y, p, p);
    XorGroup(x, y, p);
    XorGroup(x, p, y);
    XorGroup(x, p, Xor(y, p));
    XorGroup(p, y, p);
    XorGroup(y, 0, 0);
  }

  lemma {:induction false} StepsAreLinear(a: Word, b: Word, n: nat)
    ensures BitSteps(Xor(a, b), n) == Xor(BitSteps(a, n), BitSteps(b, n))
    decreases n
  {
    hide Xor, BitStep;
    if n > 0 {
      StepIsLinear(a, b);
      StepsAreLinear(BitStep(a), BitStep(b), n - 1);
    }
  }

  lemma StepKeepsNonzero(a: Word)
    requires BitStep(a) == 0
    ensures a == 0
  {
    hide Xor, Half, Odd;
    HalfNeverPoly(a);
    XorGroup(Half(a), 0xEDB88320, 0);
    XorGroup(Half(a), 0, 0);
  }

  lemma {:induction false} StepsKeepNonzero(a: Word, n: nat)
    requires BitSteps(a, n) == 0
    ensures a == 0
    decreases n
  {
    hide BitStep;
    if n > 0 {
      StepsKeepNonzero(BitStep(a), n - 1);
      StepKeepsNonzero(a);
    }
  }

  lemma StepsAreInjective(a: Word, b: Word, n: nat)
    requires BitSteps(a, n) == BitSteps(b, n)
    ensures a == b
  {
    hide Xor, BitSteps;
    StepsAreLinear(a, b, n);
    XorGroup(BitSteps(a, n), BitSteps(b, n), 0);
    XorGroup(a, b, 0);
    StepsKeepNonzero(Xor(a, b), n);
  }

  /** How a difference between two states moves when both take a byte. */
  lemma DifferenceStep(x: Word, y: Word, b: Byte, c: Byte)
    ensures Xor(ByteStep(x, b), ByteStep(y, c)) == BitSteps(Xor(Xor(x, y), Xor(Wide(b), Wide(c))), 8)
  {
    hide Xor, Wide, BitSteps;
    var p, q := Wide(b), Wide(c);
    StepsAreLinear(Xor(x, p), Xor(y, q), 8);
    XorGroup(x, p, Xor(y, q));
    XorGroup(p, y, q);
    XorGroup(y, p, q);
    XorGroup(x, y, Xor(p, q));
  }

  lemma {:induction false} StateIsInjective(a: Word, b: Word, data: seq<Byte>)
    requires State(a, data) == State(b, data)
    ensures a == b
    decreases data
  {
    hide Xor, Wide, BitSteps;
    if data != [] {
      var x := data[0];
      StateIsInjective(ByteStep(a, x), ByteStep(b, x), data[1..]);
      StepsAreInjective(Xor(a, Wide(x)), Xor(b, Wide(x)), 8);
      XorUndoes(a, Wide(x));
      XorUndoes(b, Wide(x));
    }
  }

  // ----- eight steps and a byte -----

  lemma EvenStep(a: Word)
    requires !Odd(a)
    ensures BitStep(a) == Half(a)
  {
    hide Xor, Half, Odd;
    XorGroup(Half(a), 0, 0);
  }

  lemma RaisedHalves(h: Word)
    requires Fits(h, 3)
    ensures var a0 := Raised(h);
            var a1 := Half(a0); var a2 := Half(a1); var a3 := Half(a2); var a4 := Half(a3);
            var a5 := Half(a4); var a6 := Half(a5); var a7 := Half(a6);
            && !Odd(a0) && !Odd(a1) && !Odd(a2) && !Odd(a3) && !Odd(a4) && !Odd(a5) && !Odd(a6) && !Odd(a7)
            && Half(a7) == h
  {
  }

  /** Eight zero bits at the low end leave no trace but the shift. */
  lemma RaisedStepsBack(h: Word)
    requires Fits(h, 3)
    ensures BitSteps(Raised(h), 8) == h
  {
    hide BitStep, Half, Odd, Raised, Fits;
    RaisedHalves(h);
    var a0 := Raised(h);
    var a1 := Half(a0);
    var a2 := Half(a1);
    var a3 := Half(a2);
    var a4 := Half(a3);
    var a5 := Half(a4);
    var a6 := Half(a5);
    var a7 := Half(a6);
    EvenStep(a0);
    EvenStep(a1);
    EvenStep(a2);
    EvenStep(a3);
    EvenStep(a4);
    EvenStep(a5);
    EvenStep(a6);
    EvenStep(a7);
    EightSteps(a0, a1, a2, a3, a4, a5, a6, a7, h);
  }

  lemma EightSteps(c0: Word, c1: Word, c2: Word, c3: Word, c4: Word, c5: Word, c6: Word, c7: Word, c8: Word)
    requires BitStep(c0) == c1 && BitStep(c1) == c2 && BitStep(c2) == c3 && BitStep(c3) == c4
    requires BitStep(c4) == c5 && BitStep(c5) == c6 && BitStep(c6) == c7 && BitStep(c7) == c8
    ensures BitSteps(c0, 8) == c8
  {
    hide BitStep;
    assert BitSteps(c8, 0) == c8;
    assert BitSteps(c7, 1) == c8;
    assert BitSteps(c6, 2) == c8;
    assert BitSteps(c5, 3) == c8;
    assert BitSteps(c4, 4) == c8;
    assert BitSteps(c3, 5) == c8;
    assert BitSteps(c2, 6) == c8;
    assert BitSteps(c1, 7) == c8;
  }

  /** Eight steps on a word are eight steps on its low byte and a plain shift of
      the rest: what makes a table of 256 entries possible. */
  lemma LowByteDecides(c: Word)
    ensures BitSteps(c, 8) == Xor(BitSteps(Low(c), 8), High(c))
  {
    hide Xor, Low, High, Raised, BitSteps, Fits;
    SplitAtByte(c);
    StepsAreLinear(Low(c), Raised(High(c)), 8);
    RaisedStepsBack(High(c));
  }

  // ----- the table -----

  predicate IsTable(tab: seq<Word>) {
    |tab| == 256 && forall i :: 0 <= i < 256 ==> tab[i] == BitSteps(i as Word, 8)
  }

  lemma IndexRoundTrip(x: Word)
    ensures (x as nat) as Word == x
  {
  }

  lemma LowIndexInTable(x: Word)
    requires x < 256
    ensures (x as nat) < 256
  {
  }

  /** `(crc ^ data[i]) & 0xFF`, as an index. */
  function TableIndex(c: Word, b: Byte): (i: nat)
    ensures i < 256
  {
    SplitAtByte(Xor(c, Wide(b)));
    LowIndexInTable(Low(Xor(c, Wide(b))));
    Low(Xor(c, Wide(b))) as nat
  }

  lemma TableStep(tab: seq<Word>, c: Word, b: Byte)
    requires IsTable(tab)
    ensures Xor(tab[TableIndex(c, b)], High(c)) == ByteStep(c, b)
  {
    hide Xor, Low, High, Wide, BitSteps, Fits;
    IndexRoundTrip(Low(Xor(c, Wide(b))));
    LowByteDecides(Xor(c, Wide(b)));
    WideIsLow(c, b);
  }

  // ----- the routines -----

  /** `init_crc32`. */
  method InitCrc32(tab: array<Word>)
    requires tab.Length == 256
    modifies tab
    ensures IsTable(tab[..])
  {
    hide Xor, Half, Odd;
    for i := 0 to 256
      invariant forall k :: 0 <= k < i ==> tab[k] == BitSteps(k as Word, 8)
    {
      var crc: Word := i as Word;
      for j := 0 to 8
        invariant BitSteps(crc, 8 - j) == BitSteps(i as Word, 8)
      {
        crc := Xor(Half(crc), if Odd(crc) then 0xEDB88320 else 0);
      }
      tab[i] := crc;
    }
  }

  /** `calc_crc32`, with the table already filled. */
  method CalcCrc32(tab: array<Word>, data: seq<Byte>) returns (r: Word)
    requires tab.Length == 256 && IsTable(tab[..])
    ensures r == Crc(data)
  {
    hide Xor, High, ByteStep;
    var crc := ONES;
    for i := 0 to |data|
      invariant crc == State(ONES, data[..i])
    {
      TableStep(tab[..], crc, data[i]);
      StateOfAppend(ONES, data[..i], data[i]);
      assert data[..i] + [data[i]] == data[..i + 1];
      crc := Xor(tab[TableIndex(crc, data[i])], High(crc));
    }
    assert data[..|data|] == data;
    r := Xor(crc, ONES);
  }

  /** The bytes of a C string: up to the first zero. */
  function CString(s: seq<Byte>): seq<Byte> {
    if s == [] || s[0] == 0 then [] else [s[0]] + CString(s[1..])
  }

  lemma {:induction false} CStringOfNulFree(s: seq<Byte>)
    requires 0 !in s
    ensures CString(s + [0]) == s
  {
    if s != [] {
      assert (s + [0])[1..] == s[1..] + [0];
      CStringOfNulFree(s[1..]);
    }
  }

  lemma MaskedStep(c: Word)
    ensures (c >> 1) ^ (0xEDB88320 & (0 - (c & 1))) == Xor(Half(c), if Odd(c) then 0xEDB88320 else 0)
  {
    LowBit(c);
    var low, all, none: Word := c & 1, 0xFFFF_FFFF, 0;
    if low == 1 {
      assert 0 - low == all && 0xEDB88320 & all == 0xEDB88320;
    } else {
      assert 0 - low == none && 0xEDB88320 & none == 0;
    }
  }

  lemma LowBit(c: Word)
    ensures c & 1 == 0 || c & 1 == 1
  {
  }

  lemma ComplementIsXor(c: Word)
    ensures !c == Xor(c, ONES)
  {
  }

  /** `crc32_hash`: no table, the polynomial masked in by the low bit. */
  method Crc32Hash(s: seq<Byte>) returns (r: Word)
    requires 0 in s
    ensures r == Crc(CString(s))
  {
    hide Xor, Half, Odd, Wide;
    var crc := ONES;
    var i := 0;
    while s[i] != 0
      invariant 0 <= i < |s| && 0 in s[i..]
      invariant State(crc, CString(s[i..])) == State(ONES, CString(s))
      decreases |s| - i
    {
      ghost var before, b := crc, s[i];
      assert s[i..][0] == b && s[i..][1..] == s[i + 1..];
      crc := Xor(crc, Wide(s[i]));
      for j := 0 to 8
        invariant BitSteps(crc, 8 - j) == ByteStep(before, b)
      {
        MaskedStep(crc);
        crc := (crc >> 1) ^ (0xEDB88320 & (0 - (crc & 1)));
      }
      i := i + 1;
    }
    assert CString(s[i..]) == [];
    ComplementIsXor(crc);
    r := !crc;
  }

  // ----- error detection -----

  /** If eight steps lead to a word that fits in three bytes, they were a shift. */
  lemma SmallResultWasShifted(x: Word, d: Word)
    requires BitSteps(x, 8) == d && Fits(d, 3)
    ensures x == Raised(d)
  {
    hide BitSteps, Raised, Fits;
    RaisedStepsBack(d);
    StepsAreInjective(x, Raised(d), 8);
  }

  /** Two states that the last few bytes bring together, whatever those are, differ
      in no more than that many low bytes. */
  lemma {:induction false} DifferenceIsSmall(x: Word, y: Word, w: seq<Byte>, v: seq<Byte>)
    requires |w| == |v| <= 4 && State(x, w) == State(y, v)
    ensures Fits(Xor(x, y), |w|)
    decreases |w|
  {
    hide Xor, Wide, BitSteps, ByteStep, Raised;
    XorGroup(x, y, 0);
    if w != [] {
      hide Fits;
      var d, low := Xor(ByteStep(x, w[0]), ByteStep(y, v[0])), Xor(Wide(w[0]), Wide(v[0]));
      DifferenceIsSmall(ByteStep(x, w[0]), ByteStep(y, v[0]), w[1..], v[1..]);
      DifferenceStep(x, y, w[0], v[0]);
      WideDiffers(w[0], v[0]);
      RaisedFits(d, low, |w| - 1);
      SmallResultWasShifted(Xor(Xor(x, y), low), d);
      XorUndoes(Xor(x, y), low);
    }
  }

  /** From one state, at most four bytes are determined by the state they lead to. */
  lemma {:induction false} FourBytesAreDetermined(s: Word, w: seq<Byte>, v: seq<Byte>)
    requires |w| == |v| <= 4 && State(s, w) == State(s, v)
    ensures w == v
    decreases |w|
  {
    hide Xor, Wide, BitSteps, ByteStep, Raised, Fits;
    if w != [] {
      var x, y := ByteStep(s, w[0]), ByteStep(s, v[0]);
      var d, low := Xor(x, y), Xor(Wide(w[0]), Wide(v[0]));
      DifferenceIsSmall(x, y, w[1..], v[1..]);
      DifferenceStep(s, s, w[0], v[0]);
      WideDiffers(w[0], v[0]);
      RaisedFits(d, low, |w| - 1);
      XorGroup(s, s, low);
      XorGroup(0, low, 0);
      XorGroup(low, 0, 0);
      SmallResultWasShifted(low, d);
      FourBytesAreDetermined(x, w[1..], v[1..]);
      assert w == [w[0]] + w[1..] && v == [v[0]] + v[1..];
    }
  }

  /** Main result: a payload changed in any way inside a window of four
      consecutive bytes has another CRC, whatever surrounds the window. */
  lemma BurstChangesCrc(before: seq<Byte>, w: seq<Byte>, v: seq<Byte>, after: seq<Byte>)
    requires |w| == |v| <= 4 && w != v
    ensures Crc(before + w + after) != Crc(before + v + after)
  {
    hide Xor;
    if Crc(before + w + after) == Crc(before + v + after) {
      var s := State(ONES, before);
      StateOfConcat(ONES, before + w, after);
      StateOfConcat(ONES, before, w);
      StateOfConcat(ONES, before + v, after);
      StateOfConcat(ONES, before, v);
      XorUndoes(State(ONES, before + w + after), ONES);
      XorUndoes(State(ONES, before + v + after), ONES);
      StateIsInjective(State(s, w), State(s, v), after);
      FourBytesAreDetermined(s, w, v);
    }
  }

  // ----- a known value -----

  lemma FirstByteSteps()
    ensures BitStep(0xFFFFFFCE) == 0x7FFFFFE7
    ensures BitStep(0x7FFFFFE7) == 0xD2477CD3
    ensures BitStep(0xD2477CD3) == 0x849B3D49
    ensures BitStep(0x849B3D49) == 0xAFF51D84
    ensures BitStep(0xAFF51D84) == 0x57FA8EC2
    ensures BitStep(0x57FA8EC2) == 0x2BFD4761
    ensures BitStep(0x2BFD4761) == 0xF8462090
    ensures BitStep(0xF8462090) == 0x7C231048
  {
  }

  /** The CRC-32 of the one-byte string "1". */
  lemma KnownValue()
    ensures Crc([0x31]) == 0x83DCEFB7
  {
    hide BitStep;
    FirstByteSteps();
    EightSteps(0xFFFFFFCE, 0x7FFFFFE7, 0xD2477CD3, 0x849B3D49, 0xAFF51D84, 0x57FA8EC2, 0x2BFD4761, 0xF8462090, 0x7C231048);
    assert Xor(ONES, Wide(0x31)) == 0xFFFFFFCE;
    assert [0x31 as Byte][1..] == [];
  }
}
