/** Jenkins' lookup3 hash as the object hash tables use it on a little-endian host. */
module Lookup3 {

  type Byte = bv8

  /** The internal state of the hash: three 32-bit words. */
  datatype State = State(a: bv32, b: bv32, c: bv32)

  function Rot(x: bv32, k: bv32): bv32
    requires 0 < k < 32
  {
    (x << k) | (x >> (32 - k))
  }

  // Word arithmetic under names, so that a proof can hide it from the bit-vector solver.
  function Add(x: bv32, y: bv32): bv32 { x + y }

  function Sum3(w: bv32, x: bv32, y: bv32): bv32 { w + x + y }

  function Sum4(w: bv32, x: bv32, y: bv32, z: bv32): bv32 { w + x + y + z }

  function Sub(x: bv32, y: bv32): bv32 { x - y }

  function Xor(x: bv32, y: bv32): bv32 { x ^ y }

  lemma Unfold(x: bv32, y: bv32)
    ensures Add(x, y) == x + y && Sub(x, y) == x - y
  {
  }

  lemma SubSum(x: bv32, y: bv32)
    ensures Sub(x + y, y) == x
  {
  }

  lemma AddDifference(x: bv32, y: bv32)
    ensures Add(x - y, y) == x
  {
  }

  lemma AddSubCancel(x: bv32, y: bv32)
    ensures Sub(Add(x, y), y) == x && Add(Sub(x, y), y) == x
  {
    hide *;
    Unfold(x, y);
    SubSum(x, y);
    AddDifference(x, y);
  }

  lemma SumAssoc(x: bv32, y: bv32, z: bv32)
    ensures Add(x + y, z) == Add(x, y + z)
  {
  }

  lemma AddAssoc(x: bv32, y: bv32, z: bv32)
    ensures Add(Add(x, y), z) == Add(x, Add(y, z))
  {
    hide *;
    Unfold(x, y);
    Unfold(y, z);
    SumAssoc(x, y, z);
  }

  lemma SumOfThree(w: bv32, x: bv32, y: bv32)
    ensures Add(Add(w, x), y) == Sum3(w, x, y)
  {
    hide *;
    Unfold(w, x);
    AddToSum(w, x, y);
  }

  lemma AddToSum(w: bv32, x: bv32, y: bv32)
    ensures Add(w + x, y) == Sum3(w, x, y)
  {
  }

  lemma SumOfFour(w: bv32, x: bv32, y: bv32, z: bv32)
    ensures Add(Add(Add(w, x), y), z) == Sum4(w, x, y, z)
  {
    hide *;
    SumOfThree(w, x, y);
    UnfoldSum3(w, x, y);
    AddToSum3(w, x, y, z);
  }

  lemma UnfoldSum3(w: bv32, x: bv32, y: bv32)
    ensures Sum3(w, x, y) == w + x + y
  {
  }

  lemma AddToSum3(w: bv32, x: bv32, y: bv32, z: bv32)
    ensures Add(w + x + y, z) == Sum4(w, x, y, z)
  {
  }

  lemma AddComm(x: bv32, y: bv32)
    ensures Add(x, y) == Add(y, x)
  {
  }

  lemma XorCancel(x: bv32, y: bv32)
    ensures Xor(Xor(x, y), y) == x
  {
  }

  // ----- mix and final, and their inverses

  /**
   * One line of mix, x -= z; x ^= rot(z, k); z += y, with the words handed on in the
   * roles they play in the next line. After six lines every word is back in its place.
   */
  function Round(s: State, k: bv32): State
    requires 0 < k < 32
  {
    State(s.b, Add(s.c, s.b), Xor(Sub(s.a, s.c), Rot(s.c, k)))
  }

  function Unround(s: State, k: bv32): State
    requires 0 < k < 32
  {
    var z := Sub(s.b, s.a);
    State(Add(Xor(s.c, Rot(z, k)), z), s.a, z)
  }

  function Mix(s: State): State {
    Round(Round(Round(Round(Round(Round(s, 4), 6), 8), 16), 19), 4)
  }

  function Unmix(s: State): State {
    Unround(Unround(Unround(Unround(Unround(Unround(s, 4), 19), 16), 8), 6), 4)
  }

  /** One line of final, x ^= y; x -= rot(y, k), for x the first word and y the second. */
  function Step(s: State, k: bv32): State
    requires 0 < k < 32
  {
    State(s.c, Sub(Xor(s.a, s.b), Rot(s.b, k)), s.b)
  }

  function Unstep(s: State, k: bv32): State
    requires 0 < k < 32
  {
    State(Xor(Add(s.b, Rot(s.c, k)), s.c), s.c, s.a)
  }

  function Final(s: State): State {
    var t := Step(Step(Step(Step(Step(Step(Step(State(s.c, s.b, s.a), 14), 11), 25), 16), 4), 14), 24);
    State(t.a, t.c, t.b)
  }

  function Unfinal(s: State): State {
    var t := State(s.a, s.c, s.b);
    var u := Unstep(Unstep(Unstep(Unstep(Unstep(Unstep(Unstep(t, 24), 14), 4), 16), 25), 11), 14);
    State(u.c, u.b, u.a)
  }

  lemma RoundInverse(s: State, k: bv32)
    requires 0 < k < 32
    ensures Unround(Round(s, k), k) == s && Round(Unround(s, k), k) == s
  {
    hide Rot, Add, Sub, Xor;
    AddSubCancel(s.c, s.b);
    AddSubCancel(s.b, s.a);
    var z := Sub(s.b, s.a);
    XorCancel(Sub(s.a, s.c), Rot(s.c, k));
    AddSubCancel(s.a, s.c);
    XorCancel(s.c, Rot(z, k));
    AddSubCancel(Xor(s.c, Rot(z, k)), z);
  }

  lemma StepInverse(s: State, k: bv32)
    requires 0 < k < 32
    ensures Unstep(Step(s, k), k) == s && Step(Unstep(s, k), k) == s
  {
    hide Rot, Add, Sub, Xor;
    AddSubCancel(Xor(s.a, s.b), Rot(s.b, k));
    XorCancel(s.a, s.b);
    XorCancel(Add(s.b, Rot(s.c, k)), s.c);
    AddSubCancel(s.b, Rot(s.c, k));
  }

  /** mix is a bijection on states: Unmix is its two-sided inverse. */
  lemma MixBijective(s: State)
    ensures Unmix(Mix(s)) == s && Mix(Unmix(s)) == s
  {
    hide Round, Unround;
    var r1 := Round(s, 4);
    var r2 := Round(r1, 6);
    var r3 := Round(r2, 8);
    var r4 := Round(r3, 16);
    var r5 := Round(r4, 19);
    RoundInverse(s, 4);
    RoundInverse(r1, 6);
    RoundInverse(r2, 8);
    RoundInverse(r3, 16);
    RoundInverse(r4, 19);
    RoundInverse(r5, 4);
    var u5 := Unround(s, 4);
    var u4 := Unround(u5, 19);
    var u3 := Unround(u4, 16);
    var u2 := Unround(u3, 8);
    var u1 := Unround(u2, 6);
    RoundInverse(u1, 4);
    RoundInverse(u2, 6);
    RoundInverse(u3, 8);
    RoundInverse(u4, 16);
    RoundInverse(u5, 19);
  }

  /** final is a bijection on states: Unfinal is its two-sided inverse. */
  lemma FinalBijective(s: State)
    ensures Unfinal(Final(s)) == s && Final(Unfinal(s)) == s
  {
    hide Step, Unstep;
    var r0 := State(s.c, s.b, s.a);
    var r1 := Step(r0, 14);
    var r2 := Step(r1, 11);
    var r3 := Step(r2, 25);
    var r4 := Step(r3, 16);
    var r5 := Step(r4, 4);
    var r6 := Step(r5, 14);
    StepInverse(r0, 14);
    StepInverse(r1, 11);
    StepInverse(r2, 25);
    StepInverse(r3, 16);
    StepInverse(r4, 4);
    StepInverse(r5, 14);
    StepInverse(r6, 24);
    var t := State(s.a, s.c, s.b);
    var u6 := Unstep(t, 24);
    var u5 := Unstep(u6, 14);
    var u4 := Unstep(u5, 4);
    var u3 := Unstep(u4, 16);
    var u2 := Unstep(u3, 25);
    var u1 := Unstep(u2, 11);
    StepInverse(u1, 14);
    StepInverse(u2, 11);
    StepInverse(u3, 25);
    StepInverse(u4, 16);
    StepInverse(u5, 4);
    StepInverse(u6, 14);
    StepInverse(t, 24);
  }

  /** The macro mix, line by line. */
  method MixWords(a0: bv32, b0: bv32, c0: bv32) returns (a: bv32, b: bv32, c: bv32)
    ensures State(a, b, c) == Mix(State(a0, b0, c0))
  {
    hide Rot, Add, Sub, Xor;
    a, b, c := a0, b0, c0;
    a := Sub(a, c); a := Xor(a, Rot(c, 4)); c := Add(c, b);
    b := Sub(b, a); b := Xor(b, Rot(a, 6)); a := Add(a, c);
    c := Sub(c, b); c := Xor(c, Rot(b, 8)); b := Add(b, a);
    a := Sub(a, c); a := Xor(a, Rot(c, 16)); c := Add(c, b);
    b := Sub(b, a); b := Xor(b, Rot(a, 19)); a := Add(a, c);
    c := Sub(c, b); c := Xor(c, Rot(b, 4)); b := Add(b, a);
  }

  /** The macro final, line by line. */
  method FinalWords(a0: bv32, b0: bv32, c0: bv32) returns (a: bv32, b: bv32, c: bv32)
    ensures State(a, b, c) == Final(State(a0, b0, c0))
  {
    hide Rot, Add, Sub, Xor;
    a, b, c := a0, b0, c0;
    c := Xor(c, b); c := Sub(c, Rot(b, 14));
    a := Xor(a, c); a := Sub(a, Rot(c, 11));
    b := Xor(b, a); b := Sub(b, Rot(a, 25));
    c := Xor(c, b); c := Sub(c, Rot(b, 16));
    a := Xor(a, c); a := Sub(a, Rot(c, 4));
    b := Xor(b, a); b := Sub(b, Rot(a, 14));
    c := Xor(c, b); c := Sub(c, Rot(b, 24));
  }

  // ----- reading the key

  /** A key byte moved to its place in a word. */
  function At(p: Byte, k: bv32): bv32
    requires k < 32
  {
    (p as bv32) << k
  }

  /** The 32-bit word made of four key bytes, the first byte lowest. */
  function Word(p: Byte, q: Byte, r: Byte, s: Byte): bv32 {
    Sum4(At(p, 0), At(q, 8), At(r, 16), At(s, 24))
  }

  /** What a little-endian host reads through a uint16_t pointer at byte i of the key. */
  function Load16(m: seq<Byte>, i: nat): bv32
    requires i + 2 <= |m|
  {
    At(m[i], 0) | At(m[i + 1], 8)
  }

  /** What a little-endian host reads through a uint32_t pointer at byte i of the key. */
  function Load32(m: seq<Byte>, i: nat): bv32
    requires i + 4 <= |m|
  {
    At(m[i], 0) | At(m[i + 1], 8) | At(m[i + 2], 16) | At(m[i + 3], 24)
  }

  function Shift16(x: bv32): bv32 { x << 16 }

  lemma Load32IsWord(m: seq<Byte>, i: nat)
    requires i + 4 <= |m|
    ensures Load32(m, i) == Word(m[i], m[i + 1], m[i + 2], m[i + 3])
  {
  }

  lemma Load16IsWord(m: seq<Byte>, i: nat)
    requires i + 2 <= |m|
    ensures Load16(m, i) == Word(m[i], m[i + 1], 0, 0)
  {
  }

  lemma TwoLoad16IsWord(m: seq<Byte>, i: nat)
    requires i + 4 <= |m|
    ensures Add(Load16(m, i), Shift16(Load16(m, i + 2))) == Word(m[i], m[i + 1], m[i + 2], m[i + 3])
  {
  }

  lemma AtZero(x: bv32, k: bv32)
    requires k < 32
    ensures Add(x, At(0, k)) == x
  {
  }

  lemma WordIsSum(p: Byte, q: Byte, r: Byte, s: Byte)
    ensures Word(p, q, r, s) == Add(Add(Add(At(p, 0), At(q, 8)), At(r, 16)), At(s, 24))
  {
    hide Add, At, Sum4;
    SumOfFour(At(p, 0), At(q, 8), At(r, 16), At(s, 24));
  }

  lemma ZeroBytesAddNothing()
    ensures forall x, k: bv32 | k < 32 :: Add(x, At(0, k)) == x
  {
    forall x, k: bv32 | k < 32 ensures Add(x, At(0, k)) == x { AtZero(x, k); }
  }

  lemma AddNoWord(x: bv32)
    ensures Add(x, Word(0, 0, 0, 0)) == x
  {
    hide Add, At, Word;
    ZeroBytesAddNothing();
    ByteSum(x, 0, 0, 0, 0);
  }

  /** Adding the bytes one by one, from either end, adds the word. */
  lemma ByteSum(x: bv32, p: Byte, q: Byte, r: Byte, s: Byte)
    ensures Add(Add(Add(Add(x, At(p, 0)), At(q, 8)), At(r, 16)), At(s, 24)) == Add(x, Word(p, q, r, s))
    ensures Add(Add(Add(Add(x, At(s, 24)), At(r, 16)), At(q, 8)), At(p, 0)) == Add(x, Word(p, q, r, s))
  {
    hide Add, At, Word;
    WordIsSum(p, q, r, s);
    var p, q, r, s := At(p, 0), At(q, 8), At(r, 16), At(s, 24);
    var pq, pqr := Add(p, q), Add(Add(p, q), r);
    AddAssoc(x, pqr, s);
    AddAssoc(x, pq, r);
    AddAssoc(x, p, q);
    AddComm(pqr, s);
    AddComm(pq, r);
    AddComm(p, q);
    AddAssoc(x, s, pqr);
    AddAssoc(Add(x, s), r, pq);
    AddAssoc(Add(Add(x, s), r), q, p);
  }

  lemma WordInjective(p: Byte, q: Byte, r: Byte, s: Byte, p': Byte, q': Byte, r': Byte, s': Byte)
    requires Word(p, q, r, s) == Word(p', q', r', s')
    ensures p == p' && q == q' && r == r' && s == s'
  {
  }

  // ----- the reference hash: a fold over twelve-byte blocks

  /** A block of at most twelve bytes, zero-padded. */
  function Pad(block: seq<Byte>): (p: seq<Byte>)
    requires |block| <= 12
    ensures |p| == 12
  {
    block + seq(12 - |block|, i => 0)
  }

  function Absorb(s: State, p: seq<Byte>): State
    requires |p| == 12
  {
    State(Add(s.a, Word(p[0], p[1], p[2], p[3])),
          Add(s.b, Word(p[4], p[5], p[6], p[7])),
          Add(s.c, Word(p[8], p[9], p[10], p[11])))
  }

  /** The state after final: every block but the last is absorbed and mixed. */
  function Digest(key: seq<Byte>, s: State): State {
    if |key| > 12 then Digest(key[12..], Mix(Absorb(s, key[..12]))) else Final(Absorb(s, Pad(key)))
  }

  /** The length as a uint32_t. */
  function Length(n: nat): bv32 { (n % 0x1_0000_0000) as bv32 }

  function Init(length: nat, seed: bv32): State {
    var w := Add(Add(0xdeadbeef, Length(length)), seed);
    State(w, w, w)
  }

  /** Both hash words of a key. The empty key is not mixed and leaves the second word alone. */
  function Hash2(key: seq<Byte>, seed: bv32): (bv32, bv32) {
    var s := Init(|key|, seed);
    if key == [] then (s.c, seed) else (Digest(key, s).c, Digest(key, s).b)
  }

  // ----- hashlittle, one method for each of its three reading loops

  /** The cases of the last block that fall through onto one word, highest byte first. */
  method AddTail(k: seq<Byte>, i: nat, x0: bv32) returns (x: bv32)
    requires |k| <= 12 && i <= 8
    ensures var p := Pad(k); x == Add(x0, Word(p[i], p[i + 1], p[i + 2], p[i + 3]))
  {
    hide Add, At, Word;
    ghost var p := Pad(k);
    ZeroBytesAddNothing();
    ByteSum(x0, p[i], p[i + 1], p[i + 2], p[i + 3]);
    x := x0;
    if |k| >= i + 4 { x := Add(x, At(k[i + 3], 24)); }
    assert x == Add(x0, At(p[i + 3], 24));
    if |k| >= i + 3 { x := Add(x, At(k[i + 2], 16)); }
    assert x == Add(Add(x0, At(p[i + 3], 24)), At(p[i + 2], 16));
    if |k| >= i + 2 { x := Add(x, At(k[i + 1], 8)); }
    assert x == Add(Add(Add(x0, At(p[i + 3], 24)), At(p[i + 2], 16)), At(p[i + 1], 8));
    if |k| >= i + 1 { x := Add(x, At(k[i], 0)); }
  }

  method HashBytes(key: seq<Byte>, seed: bv32) returns (h: bv32, second: bv32)
    ensures (h, second) == Hash2(key, seed)
  {
    hide Add, At, Word, Mix, Final;
    var w := Add(Add(0xdeadbeef, Length(|key|)), seed);
    var a, b, c := w, w, w;
    var k := key;
    while |k| > 12
      invariant if key == [] then k == [] && State(a, b, c) == Init(|key|, seed) else k != []
      invariant Digest(k, State(a, b, c)) == Digest(key, Init(|key|, seed))
    {
      ByteSum(a, k[0], k[1], k[2], k[3]);
      ByteSum(b, k[4], k[5], k[6], k[7]);
      ByteSum(c, k[8], k[9], k[10], k[11]);
      a := Add(a, At(k[0], 0));
      a := Add(a, At(k[1], 8));
      a := Add(a, At(k[2], 16));
      a := Add(a, At(k[3], 24));
      b := Add(b, At(k[4], 0));
      b := Add(b, At(k[5], 8));
      b := Add(b, At(k[6], 16));
      b := Add(b, At(k[7], 24));
      c := Add(c, At(k[8], 0));
      c := Add(c, At(k[9], 8));
      c := Add(c, At(k[10], 16));
      c := Add(c, At(k[11], 24));
      a, b, c := MixWords(a, b, c);
      k := k[12..];
    }
    if |k| == 0 {
      return c, seed;
    }
    c := AddTail(k, 8, c);
    b := AddTail(k, 4, b);
    a := AddTail(k, 0, a);
    a, b, c := FinalWords(a, b, c);
    return c, b;
  }

  /** The last block read through a uint32_t pointer: whole words where there are four bytes. */
  method TailWords(k: seq<Byte>, a0: bv32, b0: bv32, c0: bv32) returns (a: bv32, b: bv32, c: bv32)
    requires 0 < |k| <= 12
    ensures State(a, b, c) == Absorb(State(a0, b0, c0), Pad(k))
  {
    hide Add, At, Word, Load32;
    a, b, c := a0, b0, c0;
    if |k| >= 4 { Load32IsWord(k, 0); }
    if |k| >= 8 { Load32IsWord(k, 4); }
    if |k| == 12 {
      Load32IsWord(k, 8);
      c := Add(c, Load32(k, 8));
      b := Add(b, Load32(k, 4));
      a := Add(a, Load32(k, 0));
    } else if |k| >= 8 {
      c := AddTail(k, 8, c);
      b := Add(b, Load32(k, 4));
      a := Add(a, Load32(k, 0));
    } else if |k| >= 4 {
      AddNoWord(c);
      b := AddTail(k, 4, b);
      a := Add(a, Load32(k, 0));
    } else {
      AddNoWord(b);
      AddNoWord(c);
      a := AddTail(k, 0, a);
    }
  }

  /** The last block read through a uint16_t pointer: half words where there are two bytes. */
  method TailHalves(k: seq<Byte>, a0: bv32, b0: bv32, c0: bv32) returns (a: bv32, b: bv32, c: bv32)
    requires 0 < |k| <= 12
    ensures State(a, b, c) == Absorb(State(a0, b0, c0), Pad(k))
  {
    hide Add, At, Word, Load16, Shift16;
    a, b, c := a0, b0, c0;
    if |k| >= 4 { TwoLoad16IsWord(k, 0); }
    if |k| >= 8 { TwoLoad16IsWord(k, 4); }
    if |k| == 12 {
      TwoLoad16IsWord(k, 8);
      c := Add(c, Add(Load16(k, 8), Shift16(Load16(k, 10))));
    } else if |k| > 8 {
      c := AddTailHalf(k, 8, c);
    } else if 4 < |k| < 8 {
      b := AddTailHalf(k, 4, b);
    } else if |k| < 4 {
      a := AddTailHalf(k, 0, a);
    }
    AddNoWord(b0);
    AddNoWord(c0);
    if |k| >= 8 { b := Add(b, Add(Load16(k, 4), Shift16(Load16(k, 6)))); }
    if |k| >= 4 { a := Add(a, Add(Load16(k, 0), Shift16(Load16(k, 2)))); }
  }

  /** The cases that end inside one word: its third byte, then its low half or its low byte. */
  method AddTailHalf(k: seq<Byte>, i: nat, x0: bv32) returns (x: bv32)
    requires i < |k| < i + 4 && i <= 8
    ensures var p := Pad(k); x == Add(x0, Word(p[i], p[i + 1], p[i + 2], p[i + 3]))
  {
    hide Add, At, Word, Load16;
    ghost var p := Pad(k);
    ZeroBytesAddNothing();
    ByteSum(x0, p[i], p[i + 1], p[i + 2], p[i + 3]);
    x := x0;
    if |k| == i + 1 {
      x := Add(x, At(k[i], 0));
    } else {
      if |k| == i + 3 { x := Add(x, At(k[i + 2], 16)); }
      Load16IsWord(k, i);
      ByteSum(x, p[i], p[i + 1], 0, 0);
      x := Add(x, Load16(k, i));
    }
  }

  method HashWords(key: seq<Byte>, seed: bv32) returns (h: bv32, second: bv32)
    ensures (h, second) == Hash2(key, seed)
  {
    hide Add, At, Word, Mix, Final, Load32;
    var w := Add(Add(0xdeadbeef, Length(|key|)), seed);
    var a, b, c := w, w, w;
    var k := key;
    while |k| > 12
      invariant if key == [] then k == [] && State(a, b, c) == Init(|key|, seed) else k != []
      invariant Digest(k, State(a, b, c)) == Digest(key, Init(|key|, seed))
    {
      Load32IsWord(k, 0);
      Load32IsWord(k, 4);
      Load32IsWord(k, 8);
      a := Add(a, Load32(k, 0));
      b := Add(b, Load32(k, 4));
      c := Add(c, Load32(k, 8));
      a, b, c := MixWords(a, b, c);
      k := k[12..];
    }
    if |k| == 0 {
      return c, seed;
    }
    a, b, c := TailWords(k, a, b, c);
    a, b, c := FinalWords(a, b, c);
    return c, b;
  }

  method HashHalves(key: seq<Byte>, seed: bv32) returns (h: bv32, second: bv32)
    ensures (h, second) == Hash2(key, seed)
  {
    hide Add, At, Word, Mix, Final, Load16, Shift16;
    var w := Add(Add(0xdeadbeef, Length(|key|)), seed);
    var a, b, c := w, w, w;
    var k := key;
    while |k| > 12
      invariant if key == [] then k == [] && State(a, b, c) == Init(|key|, seed) else k != []
      invariant Digest(k, State(a, b, c)) == Digest(key, Init(|key|, seed))
    {
      TwoLoad16IsWord(k, 0);
      TwoLoad16IsWord(k, 4);
      TwoLoad16IsWord(k, 8);
      a := Add(a, Add(Load16(k, 0), Shift16(Load16(k, 2))));
      b := Add(b, Add(Load16(k, 4), Shift16(Load16(k, 6))));
      c := Add(c, Add(Load16(k, 8), Shift16(Load16(k, 10))));
      a, b, c := MixWords(a, b, c);
      k := k[12..];
    }
    if |k| == 0 {
      return c, seed;
    }
    a, b, c := TailHalves(k, a, b, c);
    a, b, c := FinalWords(a, b, c);
    return c, b;
  }

  /**
   * hashlittle on a little-endian host. The address decides how the key is read, and the
   * postcondition does not mention it: the hash never depends on the key's alignment.
   */
  method HashLittle(key: seq<Byte>, address: nat, val2: bv32) returns (h: bv32, second: bv32)
    ensures (h, second) == Hash2(key, val2)
  {
    if address % 4 == 0 {
      h, second := HashWords(key, val2);
    } else if address % 2 == 0 {
      h, second := HashHalves(key, val2);
    } else {
      h, second := HashBytes(key, val2);
    }
  }

  /** nl_hash_any: the first hash word of the key, seeded with base. */
  function Hash(key: seq<Byte>, base: bv32): bv32 { Hash2(key, base).0 }

  method HashAny(key: seq<Byte>, address: nat, base: bv32) returns (h: bv32)
    ensures h == Hash(key, base)
  {
    var second;
    h, second := HashLittle(key, address, base);
  }

  // ----- known hashes

  /** "Four score and seven years ago", with which the author of the hash tests it. */
  const FOUR_SCORE: seq<Byte> := [
    70, 111, 117, 114, 32, 115, 99, 111, 114, 101, 32, 97,
    110, 100, 32, 115, 101, 118, 101, 110, 32, 121, 101, 97,
    114, 115, 32, 97, 103, 111]

  // The states in between.
  const START := State(0xdeadbf0d, 0xdeadbf0d, 0xdeadbf0d)
  const FIRST := State(0x51232e53, 0x4e11322d, 0x3fce247f)
  const MIXED := State(0xf859ad7a, 0x04bc57ae, 0x40dddd7e)
  const SECOND := State(0x6b7a11e8, 0x7321ce13, 0xa243569e)
  const MIXED_TWICE := State(0x336aded2, 0x059f2642, 0xbd02ebd5)
  const LAST := State(0x948b5244, 0x059f95a9, 0xbd02ebd5)
  const ENDED := State(0x9a837816, 0xce7226e6, 0x17770551)

  lemma FirstBlock()
    ensures Absorb(START, FOUR_SCORE[..12]) == FIRST && Mix(FIRST) == MIXED
  {
  }

  lemma SecondBlock()
    ensures Absorb(MIXED, FOUR_SCORE[12..24]) == SECOND && Mix(SECOND) == MIXED_TWICE
  {
  }

  lemma LastBlock()
    ensures Absorb(MIXED_TWICE, Pad(FOUR_SCORE[24..])) == LAST && Final(LAST) == ENDED
  {
  }

  /** Both words of the hash of a key of two blocks and a half. */
  lemma KnownHashes()
    ensures Hash2(FOUR_SCORE, 0) == (0x17770551, 0xce7226e6) && Hash(FOUR_SCORE, 0) == 0x17770551
  {
    hide Mix, Final, Absorb, Init;
    InitialStates();
    FirstBlock();
    SecondBlock();
    LastBlock();
    var rest := FOUR_SCORE[12..];
    assert rest[..12] == FOUR_SCORE[12..24] && rest[12..] == FOUR_SCORE[24..];
  }

  lemma InitialStates()
    ensures Init(30, 0) == START
  {
    Lengths();
    hide Length;
  }

  lemma Lengths()
    ensures Length(0) == 0 && Length(13) == 13 && Length(30) == 30
  {
  }

  /** The empty key only adds the seed. */
  lemma EmptyHash(seed: bv32)
    ensures Hash2([], seed) == (0xdeadbeef + seed, seed)
  {
    Lengths();
    hide Mix, Final, Absorb, Length;
  }

  lemma ZeroBlock(s: State, p: seq<Byte>)
    requires |p| == 12 && forall i :: 0 <= i < 12 ==> p[i] == 0
    ensures Absorb(s, p) == s
  {
    hide Add, Word;
    AddNoWord(s.a);
    AddNoWord(s.b);
    AddNoWord(s.c);
  }

  const ZEROS := State(0xdeadbefc, 0xdeadbefc, 0xdeadbefc)
  const ZEROS_MIXED := State(0x823ac9d2, 0x7e4252fa, 0x831fa757)
  const ZEROS_ENDED := State(0xb7a271c3, 0x32039ee3, 0x4310ac3e)

  lemma ZeroMix()
    ensures Init(13, 0) == ZEROS && Mix(ZEROS) == ZEROS_MIXED
  {
    Lengths();
    hide Length;
  }

  lemma ZeroFinal()
    ensures Final(ZEROS_MIXED) == ZEROS_ENDED
  {
  }

  /** The hash of thirteen zero bytes, one more than a block. */
  lemma HashOfZeros(key: seq<Byte>)
    requires |key| == 13 && forall i :: 0 <= i < 13 ==> key[i] == 0
    ensures Hash(key, 0) == 0x4310ac3e
  {
    hide Mix, Final, Absorb, Init;
    ZeroBlock(ZEROS, key[..12]);
    ZeroBlock(ZEROS_MIXED, Pad(key[12..]));
    ZeroMix();
    ZeroFinal();
    var rest := key[12..];
    assert rest[0] == key[12] == 0 && |rest| == 1;
    assert Digest(key, ZEROS) == Digest(rest, ZEROS_MIXED) == Final(ZEROS_MIXED);
  }

  // ----- keys that differ in one block never meet

  /** Absorbing is injective in the block. */
  lemma AbsorbInjective(s: State, p: seq<Byte>, q: seq<Byte>)
    requires |p| == |q| == 12 && Absorb(s, p) == Absorb(s, q)
    ensures p == q
  {
    hide Word, Add, Sub;
    forall i | i in [0, 4, 8]
      ensures p[i] == q[i] && p[i + 1] == q[i + 1] && p[i + 2] == q[i + 2] && p[i + 3] == q[i + 3]
    {
      var x := if i == 0 then s.a else if i == 4 then s.b else s.c;
      var v, w := Word(p[i], p[i + 1], p[i + 2], p[i + 3]), Word(q[i], q[i + 1], q[i + 2], q[i + 3]);
      assert Add(x, v) == Add(x, w);
      AddComm(x, v);
      AddComm(x, w);
      AddSubCancel(v, x);
      AddSubCancel(w, x);
      WordInjective(p[i], p[i + 1], p[i + 2], p[i + 3], q[i], q[i + 1], q[i + 2], q[i + 3]);
    }
    assert 0 in [0, 4, 8] && 4 in [0, 4, 8] && 8 in [0, 4, 8];
  }

  lemma AbsorbKeepsDifference(s: State, t: State, p: seq<Byte>)
    requires |p| == 12 && Absorb(s, p) == Absorb(t, p)
    ensures s == t
  {
    hide Word, Add, Sub;
    AddSubCancel(s.a, Word(p[0], p[1], p[2], p[3]));
    AddSubCancel(t.a, Word(p[0], p[1], p[2], p[3]));
    AddSubCancel(s.b, Word(p[4], p[5], p[6], p[7]));
    AddSubCancel(t.b, Word(p[4], p[5], p[6], p[7]));
    AddSubCancel(s.c, Word(p[8], p[9], p[10], p[11]));
    AddSubCancel(t.c, Word(p[8], p[9], p[10], p[11]));
  }

  /** Different states stay different under one and the same key. */
  lemma {:induction false} DigestKeepsDifference(key: seq<Byte>, s: State, t: State)
    requires s != t
    ensures Digest(key, s) != Digest(key, t)
    decreases |key|
  {
    hide Mix, Unmix, Final, Unfinal, Absorb;
    var p := if |key| > 12 then key[..12] else Pad(key);
    var s', t' := Absorb(s, p), Absorb(t, p);
    if s' == t' { AbsorbKeepsDifference(s, t, p); }
    if |key| > 12 {
      MixBijective(s');
      MixBijective(t');
      DigestKeepsDifference(key[12..], Mix(s'), Mix(t'));
    } else {
      FinalBijective(s');
      FinalBijective(t');
    }
  }

  /**
   * Two keys of one length that differ only in one twelve-byte block, or only in the
   * shorter last block, never reach the same internal state, under any seed.
   */
  lemma {:induction false} OneBlockApart(before: seq<Byte>, x: seq<Byte>, y: seq<Byte>, after: seq<Byte>, s: State)
    requires |before| % 12 == 0 && |x| == |y| && x != y
    requires |x| == 12 || (|x| < 12 && after == [])
    ensures Digest(before + x + after, s) != Digest(before + y + after, s)
    decreases |before|
  {
    hide Mix, Unmix, Final, Unfinal, Absorb;
    var k, l := before + x + after, before + y + after;
    if before != [] {
      assert k[..12] == before[..12] == l[..12];
      assert k[12..] == before[12..] + x + after && l[12..] == before[12..] + y + after;
      OneBlockApart(before[12..], x, y, after, Mix(Absorb(s, before[..12])));
    } else {
      assert k == x + after && l == y + after;
      var p, q := Pad(x), Pad(y);
      assert p[..|x|] == x && q[..|y|] == y;
      var s', t' := Absorb(s, p), Absorb(s, q);
      if s' == t' { AbsorbInjective(s, p, q); }
      if |k| > 12 {
        assert k[..12] == x == p && l[..12] == y == q && k[12..] == after == l[12..];
        MixBijective(s');
        MixBijective(t');
        DigestKeepsDifference(after, Mix(s'), Mix(t'));
      } else {
        assert k == x && l == y;
        FinalBijective(s');
        FinalBijective(t');
      }
    }
  }
}
