/** Jenkins' hash: three ways to read the key, chosen by the alignment of its address on a
    little-endian host, that must give one value. */
module Jenkins {
  import Bytes

  type octet = bv8
  type word = bv32

  // ---------- mixing ----------

  datatype Mixed = Mixed(a: word, b: word, c: word)

  function Rot(x: word, k: nat): word
    requires 0 < k < 32
  {
    (x << k) | (x >> (32 - k))
  }

  /** 32-bit addition and subtraction. */
  function Plus(x: word, y: word): word {
    x + y
  }

  function Minus(x: word, y: word): word {
    x - y
  }

  function Xor(x: word, y: word): word {
    x ^ y
  }

  function Mix(s: Mixed): Mixed {
    var Mixed(a, b, c) := s;
    var a := Xor(Minus(a, c), Rot(c, 4));
    var c := Plus(c, b);
    var b := Xor(Minus(b, a), Rot(a, 6));
    var a := Plus(a, c);
    var c := Xor(Minus(c, b), Rot(b, 8));
    var b := Plus(b, a);
    var a := Xor(Minus(a, c), Rot(c, 16));
    var c := Plus(c, b);
    var b := Xor(Minus(b, a), Rot(a, 19));
    var a := Plus(a, c);
    var c := Xor(Minus(c, b), Rot(b, 4));
    var b := Plus(b, a);
    Mixed(a, b, c)
  }

  function Knot(x: word, y: word, k: nat): word
    requires 0 < k < 32
  {
    Minus(Xor(x, y), Rot(y, k))
  }

  function Final(s: Mixed): word {
    var Mixed(a, b, c) := s;
    var c := Knot(c, b, 14);
    var a := Knot(a, c, 11);
    var b := Knot(b, a, 25);
    var c := Knot(c, b, 16);
    var a := Knot(a, c, 4);
    var b := Knot(b, a, 14);
    Knot(c, b, 24)
  }

  // ---------- the hash of a key ----------

  /** Four bytes as a word, lowest first. */
  function Word(b0: octet, b1: octet, b2: octet, b3: octet): word {
    b0 as word | ((b1 as word) << 8) | ((b2 as word) << 16) | ((b3 as word) << 24)
  }

  /** The word at byte `i` of a key, zeros beyond its end. */
  function WordAt(key: seq<octet>, i: nat): word {
    Word(ByteAt(key, i), ByteAt(key, i + 1), ByteAt(key, i + 2), ByteAt(key, i + 3))
  }

  function ByteAt(key: seq<octet>, i: nat): octet {
    if i < |key| then key[i] else 0
  }

  /** Adds the first twelve bytes of what is left. */
  function Added(key: seq<octet>, s: Mixed): Mixed {
    Mixed(Plus(s.a, WordAt(key, 0)), Plus(s.b, WordAt(key, 4)), Plus(s.c, WordAt(key, 8)))
  }

  function Tail(key: seq<octet>, s: Mixed): word
    decreases |key|
  {
    if |key| > 12 then Tail(key[12..], Mix(Added(key, s)))
    else if key == [] then s.c
    else Final(Added(key, s))
  }

  const INITVAL: word := 13

  function Start(init: word, length: nat): Mixed {
    var x := 0xdeadbeef + ((length % 0x1_0000_0000) as word) + init;
    Mixed(x, x, x)
  }

  function HashFrom(init: word, key: seq<octet>): word {
    Tail(key, Start(init, |key|))
  }

  /** The value every branch must return: it depends on the bytes of the key alone. */
  function Hash(key: seq<octet>): word {
    HashFrom(INITVAL, key)
  }

  // ---------- mixing loses nothing ----------

  /** One line of the mixing: the three words change their places from line to line. */
  function Turn(k: nat, s: Mixed): Mixed
    requires 0 < k < 32
  {
    Mixed(s.b, Plus(s.c, s.b), Xor(Minus(s.a, s.c), Rot(s.c, k)))
  }

  function TurnBack(k: nat, s: Mixed): Mixed
    requires 0 < k < 32
  {
    var c := Minus(s.b, s.a);
    Mixed(Plus(Xor(s.c, Rot(c, k)), c), s.a, c)
  }

  lemma TurnedBack(k: nat, s: Mixed)
    requires 0 < k < 32
    ensures TurnBack(k, Turn(k, s)) == s
  {
    hide Rot, Plus, Minus, Xor;
    MinusPlus(s.c, s.b);
    XorTwice(Minus(s.a, s.c), Rot(s.c, k));
    PlusMinus(s.a, s.c);
  }

  lemma XorTwice(x: word, y: word)
    ensures Xor(Xor(x, y), y) == x
  {
  }

  lemma MinusIs(x: word, y: word)
    ensures Minus(x, y) == x - y
  {
  }

  lemma PlusMinus(x: word, y: word)
    ensures Plus(Minus(x, y), y) == x
  {
    hide Plus, Minus;
    MinusIs(x, y);
    PlusBack(x, y);
  }

  lemma PlusBack(x: word, y: word)
    ensures Plus(x - y, y) == x
  {
  }

  lemma MinusPlus(x: word, y: word)
    ensures Minus(Plus(x, y), y) == x
  {
    hide Plus, Minus;
    PlusIs(x, y);
    MinusBack(x, y);
  }

  lemma MinusBack(x: word, y: word)
    ensures Minus(x + y, y) == x
  {
  }

  lemma MixTurns(s: Mixed)
    ensures Mix(s) == Turn(4, Turn(19, Turn(16, Turn(8, Turn(6, Turn(4, s))))))
  {
    hide Rot, Plus, Minus, Xor;
  }

  function Unmix(s: Mixed): Mixed {
    TurnBack(4, TurnBack(6, TurnBack(8, TurnBack(16, TurnBack(19, TurnBack(4, s))))))
  }

  /** Mixing is reversible: no two states are mixed into one. */
  lemma MixReversible(s: Mixed)
    ensures Unmix(Mix(s)) == s
  {
    hide Turn, TurnBack, Mix;
    MixTurns(s);
    var t1 := Turn(4, s);
    var t2 := Turn(6, t1);
    var t3 := Turn(8, t2);
    var t4 := Turn(16, t3);
    var t5 := Turn(19, t4);
    TurnedBack(4, s);
    TurnedBack(6, t1);
    TurnedBack(8, t2);
    TurnedBack(16, t3);
    TurnedBack(19, t4);
    TurnedBack(4, t5);
  }

  // ---------- known values ----------

  /** The bytes of "Four score and seven years ago". */
  const FOUR_SCORE: seq<octet> := FIRST + (SECOND + THIRD)
  const FIRST: seq<octet> := [70, 111, 117, 114, 32, 115, 99, 111, 114, 101, 32, 97]
  const SECOND: seq<octet> := [110, 100, 32, 115, 101, 118, 101, 110, 32, 121, 101, 97]
  const THIRD: seq<octet> := [114, 115, 32, 97, 103, 111]

  lemma WordIn(part: seq<octet>, rest: seq<octet>, i: nat)
    requires i + 4 <= |part|
    ensures WordAt(part + rest, i) == Word(part[i], part[i + 1], part[i + 2], part[i + 3])
  {
    hide Word;
  }

  lemma WordsOf()
    ensures Word(70, 111, 117, 114) == 0x72756f46 && Word(32, 115, 99, 111) == 0x6f637320
    ensures Word(114, 101, 32, 97) == 0x61206572 && Word(110, 100, 32, 115) == 0x7320646e
    ensures Word(101, 118, 101, 110) == 0x6e657665 && Word(32, 121, 101, 97) == 0x61657920
    ensures Word(114, 115, 32, 97) == 0x61207372 && Word(103, 111, 0, 0) == 0x6f67 && Word(0, 0, 0, 0) == 0
  {
  }

  lemma Words0()
    ensures WordAt(FOUR_SCORE, 0) == 0x72756f46 && WordAt(FOUR_SCORE, 4) == 0x6f637320
    ensures WordAt(FOUR_SCORE, 8) == 0x61206572
  {
    hide WordAt, Word, SECOND, THIRD;
    WordIn(FIRST, SECOND + THIRD, 0);
    WordIn(FIRST, SECOND + THIRD, 4);
    WordIn(FIRST, SECOND + THIRD, 8);
    WordsOf();
  }

  lemma Words1()
    ensures FOUR_SCORE[12..] == SECOND + THIRD
    ensures WordAt(SECOND + THIRD, 0) == 0x7320646e && WordAt(SECOND + THIRD, 4) == 0x6e657665
    ensures WordAt(SECOND + THIRD, 8) == 0x61657920
  {
    hide WordAt, Word, THIRD;
    WordIn(SECOND, THIRD, 0);
    WordIn(SECOND, THIRD, 4);
    WordIn(SECOND, THIRD, 8);
    WordsOf();
  }

  lemma Words2()
    ensures WordAt(THIRD, 0) == 0x61207372 && WordAt(THIRD, 4) == 0x6f67 && WordAt(THIRD, 8) == 0
  {
    hide Word;
    WordsOf();
  }

  lemma TailOf(key: seq<octet>, s: Mixed)
    ensures |key| > 12 ==> Tail(key, s) == Tail(key[12..], Mix(Added(key, s)))
    ensures 0 < |key| <= 12 ==> Tail(key, s) == Final(Added(key, s))
  {
    hide Mix, Added, Final;
  }

  lemma FourScoreIs(init: word)
    ensures var s := Mix(Added(FOUR_SCORE, Start(init, 30)));
            var t := Mix(Added(SECOND + THIRD, s));
            HashFrom(init, FOUR_SCORE) == Final(Added(THIRD, t))
  {
    assert |FOUR_SCORE| == 30 && |SECOND + THIRD| == 18 && |THIRD| == 6;
    assert FOUR_SCORE[12..] == SECOND + THIRD && (SECOND + THIRD)[12..] == THIRD;
    hide Tail, Mix, Added, Start, Final, FOUR_SCORE, SECOND, THIRD;
    var s := Mix(Added(FOUR_SCORE, Start(init, 30)));
    TailOf(FOUR_SCORE, Start(init, 30));
    TailOf(SECOND + THIRD, s);
    TailOf(THIRD, Mix(Added(SECOND + THIRD, s)));
  }

  lemma Zero0()
    ensures Mix(Mixed(0x51232e53, 0x4e11322d, 0x3fce247f)) == Mixed(0xf859ad7a, 0x4bc57ae, 0x40dddd7e)
  {
    assert Turn(4, Mixed(0x51232e53, 0x4e11322d, 0x3fce247f)) == Mixed(0x4e11322d, 0x8ddf56ac, 0xedb74e27);
    assert Turn(6, Mixed(0x4e11322d, 0x8ddf56ac, 0xedb74e27)) == Mixed(0x8ddf56ac, 0x7b96a4d3, 0xd8a6dfd);
    assert Turn(8, Mixed(0x8ddf56ac, 0x7b96a4d3, 0xd8a6dfd)) == Mixed(0x7b96a4d3, 0x892112d0, 0xa3915a2);
    assert Turn(16, Mixed(0x7b96a4d3, 0x892112d0, 0xa3915a2)) == Mixed(0x892112d0, 0x935a2872, 0x64ff8508);
    assert Turn(19, Mixed(0x892112d0, 0x935a2872, 0x64ff8508)) == Mixed(0x935a2872, 0xf859ad7a, 0xc62aa34);
    assert Turn(4, Mixed(0x935a2872, 0xf859ad7a, 0xc62aa34)) == Mixed(0xf859ad7a, 0x4bc57ae, 0x40dddd7e);
    MixTurns(Mixed(0x51232e53, 0x4e11322d, 0x3fce247f));
  }

  lemma Zero1()
    ensures Mix(Mixed(0x6b7a11e8, 0x7321ce13, 0xa243569e)) == Mixed(0x336aded2, 0x59f2642, 0xbd02ebd5)
  {
    assert Turn(4, Mixed(0x6b7a11e8, 0x7321ce13, 0xa243569e)) == Mixed(0x7321ce13, 0x156524b1, 0xed03d2a0);
    assert Turn(6, Mixed(0x7321ce13, 0x156524b1, 0xed03d2a0)) == Mixed(0x156524b1, 0x268f751, 0xc6e95348);
    assert Turn(8, Mixed(0x156524b1, 0x268f751, 0xc6e95348)) == Mixed(0x268f751, 0xc9524a99, 0xa72899af);
    assert Turn(16, Mixed(0x268f751, 0xc9524a99, 0xa72899af)) == Mixed(0xc9524a99, 0x707ae448, 0xc2effa8a);
    assert Turn(19, Mixed(0xc9524a99, 0x707ae448, 0xc2effa8a)) == Mixed(0x707ae448, 0x336aded2, 0xd2344770);
    assert Turn(4, Mixed(0x707ae448, 0x336aded2, 0xd2344770)) == Mixed(0x336aded2, 0x59f2642, 0xbd02ebd5);
    MixTurns(Mixed(0x6b7a11e8, 0x7321ce13, 0xa243569e));
  }

  lemma Sums()
    ensures Start(0, 30) == Mixed(0xdeadbf0d, 0xdeadbf0d, 0xdeadbf0d)
    ensures Plus(0xdeadbf0d, 0x72756f46) == 0x51232e53 && Plus(0xdeadbf0d, 0x6f637320) == 0x4e11322d
    ensures Plus(0xdeadbf0d, 0x61206572) == 0x3fce247f
    ensures Plus(0xf859ad7a, 0x7320646e) == 0x6b7a11e8 && Plus(0x4bc57ae, 0x6e657665) == 0x7321ce13
    ensures Plus(0x40dddd7e, 0x61657920) == 0xa243569e
    ensures Plus(0x336aded2, 0x61207372) == 0x948b5244 && Plus(0x59f2642, 0x6f67) == 0x59f95a9
    ensures Plus(0xbd02ebd5, 0) == 0xbd02ebd5
  {
    StartIs();
    hide Start;
  }

  lemma StartIs()
    ensures Start(0, 30) == Mixed(0xdeadbf0d, 0xdeadbf0d, 0xdeadbf0d)
  {
    assert (30 % 0x1_0000_0000) as word == 0x1e;
  }

  /** The value that the author of the hash publishes for this key with initial value zero. */
  lemma PublishedValue()
    ensures HashFrom(0, FOUR_SCORE) == 0x1777_0551
  {
    hide *;
    Sums();
    Blocks();
    FourScoreIs(0);
    Zero0();
    Zero1();
    LastZero();
  }

  lemma Blocks()
    ensures Added(FOUR_SCORE, Mixed(0xdeadbf0d, 0xdeadbf0d, 0xdeadbf0d)) == Mixed(0x51232e53, 0x4e11322d, 0x3fce247f)
    ensures Added(SECOND + THIRD, Mixed(0xf859ad7a, 0x4bc57ae, 0x40dddd7e)) == Mixed(0x6b7a11e8, 0x7321ce13, 0xa243569e)
    ensures Added(THIRD, Mixed(0x336aded2, 0x59f2642, 0xbd02ebd5)) == Mixed(0x948b5244, 0x59f95a9, 0xbd02ebd5)
  {
    hide WordAt, FOUR_SCORE, SECOND, THIRD, Start, Plus;
    Sums();
    Words0();
    Words1();
    Words2();
  }

  lemma LastZero()
    ensures Final(Mixed(0x948b5244, 0x59f95a9, 0xbd02ebd5)) == 0x17770551
  {
    assert Knot(0xbd02ebd5, 0x59f95a9, 14) == 0xd3333d15;
    assert Knot(0x948b5244, 0xd3333d15, 11) == 0xadcfc0b8;
    assert Knot(0x59f95a9, 0xadcfc0b8, 25) == 0x36f4b590;
    assert Knot(0xd3333d15, 0x36f4b590, 16) == 0x30375191;
    assert Knot(0xadcfc0b8, 0x30375191, 4) == 0x9a837816;
    assert Knot(0x36f4b590, 0x9a837816, 14) == 0xce7226e6;
    assert Knot(0x30375191, 0xce7226e6, 24) == 0x17770551;
    hide Knot;
  }

  /** The hash of the empty key shows the initial value of the library. */
  lemma EmptyValue()
    ensures Hash([]) == 0xdead_beef + 13
  {
  }

  // ---------- reading memory ----------

  /** Aligned 32-bit and 16-bit reads on a little-endian host. */
  function Read32(mem: seq<octet>, i: nat): word
    requires i + 4 <= |mem|
  {
    Word(mem[i], mem[i + 1], mem[i + 2], mem[i + 3])
  }

  function Read16(mem: seq<octet>, i: nat): word
    requires i + 2 <= |mem|
  {
    Half(mem[i], mem[i + 1])
  }

  function Half(b0: octet, b1: octet): word {
    b0 as word | ((b1 as word) << 8)
  }

  /** A byte in each of the four places of a word, and a 16-bit value moved up by two. */
  function Byte0(b: octet): word { b as word }
  function Byte1(b: octet): word { (b as word) << 8 }
  function Byte2(b: octet): word { (b as word) << 16 }
  function Byte3(b: octet): word { (b as word) << 24 }
  function UpHalf(x: word): word { x << 16 }

  /** The masks that keep three, two or one bytes. */
  function Keep3(x: word): word { x & 0xffffff }
  function Keep2(x: word): word { x & 0xffff }
  function Keep1(x: word): word { x & 0xff }

  lemma Masked3(b0: octet, b1: octet, b2: octet, b3: octet)
    ensures Keep3(Word(b0, b1, b2, b3)) == Word(b0, b1, b2, 0)
  {
  }

  lemma Masked2(b0: octet, b1: octet, b2: octet, b3: octet)
    ensures Keep2(Word(b0, b1, b2, b3)) == Word(b0, b1, 0, 0)
  {
  }

  lemma Masked1(b0: octet, b1: octet, b2: octet, b3: octet)
    ensures Keep1(Word(b0, b1, b2, b3)) == Word(b0, 0, 0, 0)
  {
  }

  lemma Half4(b0: octet, b1: octet, b2: octet, b3: octet)
    ensures Plus(Half(b0, b1), UpHalf(Half(b2, b3))) == Word(b0, b1, b2, b3)
  {
  }

  lemma Half3(b0: octet, b1: octet, b2: octet)
    ensures Plus(Half(b0, b1), Byte2(b2)) == Word(b0, b1, b2, 0)
  {
  }

  lemma Half2(b0: octet, b1: octet)
    ensures Half(b0, b1) == Word(b0, b1, 0, 0)
  {
  }

  lemma Half1(b0: octet)
    ensures Byte0(b0) == Word(b0, 0, 0, 0)
  {
  }

  lemma Sum4(b0: octet, b1: octet, b2: octet, b3: octet)
    ensures Plus(Plus(Plus(Byte3(b3), Byte2(b2)), Byte1(b1)), Byte0(b0)) == Word(b0, b1, b2, b3)
  {
  }

  lemma Sum3(b0: octet, b1: octet, b2: octet)
    ensures Plus(Plus(Byte2(b2), Byte1(b1)), Byte0(b0)) == Word(b0, b1, b2, 0)
  {
  }

  lemma Sum2(b0: octet, b1: octet)
    ensures Plus(Byte1(b1), Byte0(b0)) == Word(b0, b1, 0, 0)
  {
  }

  /** Addition can be regrouped. */
  lemma Regroup(x: word, y: word, z: word)
    ensures Plus(Plus(x, y), z) == Plus(x, Plus(y, z))
  {
    hide Plus;
    PlusIs(x, y);
    PlusIs(y, z);
    Rebracket(x, y, z);
  }

  lemma Rebracket(x: word, y: word, z: word)
    ensures Plus(x + y, z) == Plus(x, y + z)
  {
  }

  lemma PlusIs(x: word, y: word)
    ensures Plus(x, y) == x + y
  {
  }

  lemma Single4(x: word, b0: octet, b1: octet, b2: octet, b3: octet)
    ensures Plus(Plus(Plus(Plus(x, Byte3(b3)), Byte2(b2)), Byte1(b1)), Byte0(b0)) == Plus(x, Word(b0, b1, b2, b3))
  {
    hide Plus, Word, Byte0, Byte1, Byte2, Byte3;
    Sum4(b0, b1, b2, b3);
    Regroup(x, Byte3(b3), Byte2(b2));
    Regroup(x, Plus(Byte3(b3), Byte2(b2)), Byte1(b1));
    Regroup(x, Plus(Plus(Byte3(b3), Byte2(b2)), Byte1(b1)), Byte0(b0));
  }

  lemma Single3(x: word, b0: octet, b1: octet, b2: octet)
    ensures Plus(Plus(Plus(x, Byte2(b2)), Byte1(b1)), Byte0(b0)) == Plus(x, Word(b0, b1, b2, 0))
  {
    hide Plus, Word, Byte0, Byte1, Byte2;
    Sum3(b0, b1, b2);
    Regroup(x, Byte2(b2), Byte1(b1));
    Regroup(x, Plus(Byte2(b2), Byte1(b1)), Byte0(b0));
  }

  lemma Single2(x: word, b0: octet, b1: octet)
    ensures Plus(Plus(x, Byte1(b1)), Byte0(b0)) == Plus(x, Word(b0, b1, 0, 0))
  {
    hide Plus, Word, Byte0, Byte1;
    Sum2(b0, b1);
    Regroup(x, Byte1(b1), Byte0(b0));
  }

  lemma AddNothing(x: word)
    ensures Plus(x, Word(0, 0, 0, 0)) == x
  {
  }

  /** The word of which the first `n` bytes are in the key. */
  lemma WordOf(key: seq<octet>, i: nat, n: nat)
    requires 1 <= n <= 4 && (n < 4 ==> i + n == |key|) && i + n <= |key|
    ensures WordAt(key, i) == Word(key[i], if n >= 2 then key[i + 1] else 0, if n >= 3 then key[i + 2] else 0,
                                   if n >= 4 then key[i + 3] else 0)
  {
    hide Word;
  }

  // ---------- the three branches ----------

  /** How a branch adds to `x` the word at byte `i`, of which the key has the first `n` bytes.
      The 32-bit read takes in what lies behind the key in memory and masks it off. */
  method Add32(mem: seq<octet>, i: nat, n: nat, x: word) returns (w: word)
    requires 1 <= n <= 4 && i + 4 <= |mem|
    ensures w == Plus(x, WordAt(mem[..i + n], i))
  {
    hide Word, WordAt, Plus, Keep1, Keep2, Keep3;
    WordOf(mem[..i + n], i, n);
    var k := Read32(mem, i);
    if n == 4 {
      w := Plus(x, k);
    } else if n == 3 {
      Masked3(mem[i], mem[i + 1], mem[i + 2], mem[i + 3]);
      w := Plus(x, Keep3(k));
    } else if n == 2 {
      Masked2(mem[i], mem[i + 1], mem[i + 2], mem[i + 3]);
      w := Plus(x, Keep2(k));
    } else {
      Masked1(mem[i], mem[i + 1], mem[i + 2], mem[i + 3]);
      w := Plus(x, Keep1(k));
    }
  }

  /** By 16-bit reads and a single byte. */
  method Add16(mem: seq<octet>, i: nat, n: nat, x: word) returns (w: word)
    requires 1 <= n <= 4 && i + n <= |mem|
    ensures w == Plus(x, WordAt(mem[..i + n], i))
  {
    hide Word, WordAt, Half, Plus, Byte0, Byte2, UpHalf;
    WordOf(mem[..i + n], i, n);
    if n == 4 {
      Half4(mem[i], mem[i + 1], mem[i + 2], mem[i + 3]);
      w := Plus(x, Plus(Read16(mem, i), UpHalf(Read16(mem, i + 2))));
    } else if n == 3 {
      Half3(mem[i], mem[i + 1], mem[i + 2]);
      w := Plus(x, Plus(Read16(mem, i), Byte2(mem[i + 2])));
    } else if n == 2 {
      Half2(mem[i], mem[i + 1]);
      w := Plus(x, Read16(mem, i));
    } else {
      Half1(mem[i]);
      w := Plus(x, Byte0(mem[i]));
    }
  }

  /** By single bytes, in the order in which the cases fall through. */
  method Add8(mem: seq<octet>, i: nat, n: nat, x: word) returns (w: word)
    requires 1 <= n <= 4 && i + n <= |mem|
    ensures w == Plus(x, WordAt(mem[..i + n], i))
  {
    hide Word, WordAt, Plus, Byte0, Byte1, Byte2, Byte3;
    WordOf(mem[..i + n], i, n);
    w := x;
    if n == 4 {
      Single4(x, mem[i], mem[i + 1], mem[i + 2], mem[i + 3]);
      w := Plus(w, Byte3(mem[i + 3]));
    } else if n == 3 {
      Single3(x, mem[i], mem[i + 1], mem[i + 2]);
    } else if n == 2 {
      Single2(x, mem[i], mem[i + 1]);
    } else {
      Half1(mem[i]);
    }
    if n >= 3 {
      w := Plus(w, Byte2(mem[i + 2]));
    }
    if n >= 2 {
      w := Plus(w, Byte1(mem[i + 1]));
    }
    w := Plus(w, Byte0(mem[i]));
  }

  lemma Sum4Up(b0: octet, b1: octet, b2: octet, b3: octet)
    ensures Plus(Plus(Plus(Byte0(b0), Byte1(b1)), Byte2(b2)), Byte3(b3)) == Word(b0, b1, b2, b3)
  {
  }

  /** A whole word by single bytes, in the order of the block loop. */
  method Add8Up(mem: seq<octet>, i: nat, x: word) returns (w: word)
    requires i + 4 <= |mem|
    ensures w == Plus(x, WordAt(mem[..i + 4], i))
  {
    hide Word, WordAt, Plus, Byte0, Byte1, Byte2, Byte3;
    WordOf(mem[..i + 4], i, 4);
    var b0, b1, b2, b3 := Byte0(mem[i]), Byte1(mem[i + 1]), Byte2(mem[i + 2]), Byte3(mem[i + 3]);
    Sum4Up(mem[i], mem[i + 1], mem[i + 2], mem[i + 3]);
    Regroup(x, b0, b1);
    Regroup(x, Plus(b0, b1), b2);
    Regroup(x, Plus(Plus(b0, b1), b2), b3);
    w := Plus(x, b0);
    w := Plus(w, b1);
    w := Plus(w, b2);
    w := Plus(w, b3);
  }

  datatype Width = Bytes4 | Bytes2 | Bytes1

  /** `inner` says that the block is not the last one. */
  method Add(width: Width, inner: bool, mem: seq<octet>, i: nat, n: nat, x: word) returns (w: word)
    requires inner ==> n == 4
    requires 1 <= n <= 4 && i + n <= |mem| && (width == Bytes4 ==> i + 4 <= |mem|)
    ensures w == Plus(x, WordAt(mem[..i + n], i))
  {
    hide WordAt, Plus;
    match width
    case Bytes4 => w := Add32(mem, i, n, x);
    case Bytes2 => w := Add16(mem, i, n, x);
    case Bytes1 =>
      if inner {
        w := Add8Up(mem, i, x);
      } else {
        w := Add8(mem, i, n, x);
      }
  }

  /** Memory that a branch may read: the key, and for the 32-bit branch the rest of its last
      word. */
  predicate Readable(width: Width, mem: seq<octet>, length: nat) {
    length <= |mem| && (width == Bytes4 ==> (length + 3) / 4 * 4 <= |mem|)
  }

  lemma WordHere(mem: seq<octet>, length: nat, k: nat, j: nat, n: nat)
    requires k + j + n <= length <= |mem| && 1 <= n <= 4 && (n < 4 ==> k + j + n == length)
    ensures WordAt(mem[..k + j + n], k + j) == WordAt(mem[..length][k..], j)
  {
    hide Word, WordAt;
    WordOf(mem[..k + j + n], k + j, n);
    WordOf(mem[..length][k..], j, n);
  }

  lemma NoWord(key: seq<octet>, j: nat)
    requires |key| <= j
    ensures WordAt(key, j) == Word(0, 0, 0, 0)
  {
    hide Word;
  }

  /** Adds up to twelve bytes from offset `k` on: all words that the key reaches. */
  method AddBlock(width: Width, mem: seq<octet>, length: nat, k: nat, s: Mixed) returns (r: Mixed)
    requires Readable(width, mem, length) && k < length && k % 4 == 0
    ensures r == Added(mem[..length][k..], s)
  {
    hide Word, WordAt, Plus;
    var n := length - k;
    ghost var key := mem[..length][k..];
    var a, b, c := s.a, s.b, s.c;
    if n > 8 {
      c := Add(width, n > 12, mem, k + 8, Bytes.Min(n - 8, 4), c);
      WordHere(mem, length, k, 8, Bytes.Min(n - 8, 4));
    } else {
      NoWord(key, 8);
      AddNothing(c);
    }
    if n > 4 {
      b := Add(width, n > 12, mem, k + 4, Bytes.Min(n - 4, 4), b);
      WordHere(mem, length, k, 4, Bytes.Min(n - 4, 4));
    } else {
      NoWord(key, 4);
      AddNothing(b);
    }
    a := Add(width, n > 12, mem, k, Bytes.Min(n, 4), a);
    WordHere(mem, length, k, 0, Bytes.Min(n, 4));
    r := Mixed(a, b, c);
  }

  /** One branch: its loop over blocks and its last, possibly partial block. */
  method Branch(width: Width, mem: seq<octet>, length: nat) returns (h: word)
    requires Readable(width, mem, length)
    ensures h == Hash(mem[..length])
  {
    hide Mix, Final, Added;
    var s := Start(INITVAL, length);
    var k := 0;
    ghost var key := mem[..length];
    assert key[0..] == key;
    while length - k > 12
      invariant k <= length && k % 4 == 0
      invariant Tail(key[k..], s) == Hash(key)
    {
      s := AddBlock(width, mem, length, k, s);
      s := Mix(s);
      assert key[k..][12..] == key[k + 12..];
      k := k + 12;
    }
    if length == k {
      return s.c;
    }
    s := AddBlock(width, mem, length, k, s);
    h := Final(s);
  }

  /** hashkit_jenkins for a key at `address`: whichever branch the address selects and whatever
      follows the key in memory, the value is that of the key. */
  method HashAt(address: nat, mem: seq<octet>, length: nat) returns (h: word)
    requires Readable(if address % 4 == 0 then Bytes4 else Bytes1, mem, length)
    ensures h == Hash(mem[..length])
  {
    if address % 4 == 0 {
      h := Branch(Bytes4, mem, length);
    } else if address % 2 == 0 {
      h := Branch(Bytes2, mem, length);
    } else {
      h := Branch(Bytes1, mem, length);
    }
  }
}
