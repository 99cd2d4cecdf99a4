/** Kademlia identifiers: the XOR metric, Python's integer renderings, and
    the range-checked 160-bit ID of kademlia/id.py and kademlia.py. */
module Ids {
  import opened Wrappers

  // ------------------------------------------------------------------
  // Powers of two and the bits of a natural number
  // ------------------------------------------------------------------

  function Pow2(n: nat): (r: nat)
    ensures r >= 1
  {
    if n == 0 then 1 else 2 * Pow2(n - 1)
  }

  lemma {:induction false} Pow2Add(a: nat, b: nat)
    ensures Pow2(a + b) == Pow2(a) * Pow2(b)
    decreases a
  {
    if a > 0 {
      Pow2Add(a - 1, b);
    }
  }

  /** 2^160, written out as kademlia/node.py writes it. */
  const TWO_160: nat := 1461501637330902918203684832716283019655932542976

  lemma {:induction false} Square(n: nat, p: nat)
    requires Pow2(n) == p
    ensures Pow2(2 * n) == p * p
  {
    Pow2Add(n, n);
  }

  lemma TwoTo160()
    ensures Pow2(160) == TWO_160
    ensures Pow2(159) * 2 == TWO_160
  {
    assert Pow2(10) == 1024;
    Square(10, 1024);
    Square(20, 1048576);
    Square(40, 1099511627776);
    Square(80, 1208925819614629174706176);
    Pow2Add(1, 159);
  }

  /** Bit i of v, the least significant bit being bit 0. */
  predicate Bit(v: nat, i: nat)
  {
    if i == 0 then v % 2 == 1 else Bit(v / 2, i - 1)
  }

  lemma {:induction false} BitOfZero(i: nat)
    ensures !Bit(0, i)
  {
    if i > 0 {
      BitOfZero(i - 1);
    }
  }

  /** Two naturals with the same bits are equal. */
  lemma {:induction false} BitsDetermine(x: nat, y: nat)
    requires forall i: nat :: Bit(x, i) == Bit(y, i)
    ensures x == y
    decreases x + y
  {
    if x != y {
      assert Bit(x, 0) == Bit(y, 0);
      forall i: nat
        ensures Bit(x / 2, i) == Bit(y / 2, i)
      {
        assert Bit(x, i + 1) == Bit(y, i + 1);
      }
      BitsDetermine(x / 2, y / 2);
    }
  }

  // ------------------------------------------------------------------
  // XOR, the Kademlia distance
  // ------------------------------------------------------------------

  /** Bitwise exclusive or of two naturals (Python's ^ on non-negative ints). */
  function Xor(a: nat, b: nat): nat
    decreases a + b
  {
    if a == 0 then b
    else if b == 0 then a
    else 2 * Xor(a / 2, b / 2) + (a % 2 + b % 2) % 2
  }

  lemma HalveTwice(x: nat, d: nat)
    requires d < 2
    ensures (2 * x + d) / 2 == x && (2 * x + d) % 2 == d
  {
  }

  /** The low bit and the rest of a XOR b, for non-zero operands. */
  lemma XorHalves(a: nat, b: nat)
    requires a != 0 && b != 0
    ensures Xor(a, b) / 2 == Xor(a / 2, b / 2)
    ensures Xor(a, b) % 2 == (a % 2 + b % 2) % 2
  {
    HalveTwice(Xor(a / 2, b / 2), (a % 2 + b % 2) % 2);
  }

  /** Bit i of a XOR b is set exactly when the bits of a and b differ. */
  lemma {:induction false} XorBit(a: nat, b: nat, i: nat)
    ensures Bit(Xor(a, b), i) == (Bit(a, i) != Bit(b, i))
    decreases a + b
  {
    if a == 0 {
      BitOfZero(i);
    } else if b == 0 {
      BitOfZero(i);
    } else {
      XorHalves(a, b);
      if i > 0 {
        XorBit(a / 2, b / 2, i - 1);
      }
    }
  }

  lemma {:induction false} XorSymmetric(a: nat, b: nat)
    ensures Xor(a, b) == Xor(b, a)
    decreases a + b
  {
    if a != 0 && b != 0 {
      XorSymmetric(a / 2, b / 2);
    }
  }

  lemma {:induction false} XorSelf(a: nat)
    ensures Xor(a, a) == 0
    decreases a
  {
    if a != 0 {
      XorSelf(a / 2);
    }
  }

  /** The distance is zero exactly between equal identifiers. */
  lemma XorZeroIff(a: nat, b: nat)
    ensures Xor(a, b) == 0 <==> a == b
  {
    if a == b {
      XorSelf(a);
    } else if Xor(a, b) == 0 {
      forall i: nat
        ensures Bit(a, i) == Bit(b, i)
      {
        XorBit(a, b, i);
        BitOfZero(i);
      }
      BitsDetermine(a, b);
    }
  }

  lemma XorAssociative(a: nat, b: nat, c: nat)
    ensures Xor(Xor(a, b), c) == Xor(a, Xor(b, c))
  {
    forall i: nat
      ensures Bit(Xor(Xor(a, b), c), i) == Bit(Xor(a, Xor(b, c)), i)
    {
      XorBit(Xor(a, b), c, i);
      XorBit(a, b, i);
      XorBit(a, Xor(b, c), i);
      XorBit(b, c, i);
    }
    BitsDetermine(Xor(Xor(a, b), c), Xor(a, Xor(b, c)));
  }

  /** XOR of two numbers below 2^n stays below 2^n. */
  lemma {:induction false} XorBound(a: nat, b: nat, n: nat)
    requires a < Pow2(n) && b < Pow2(n)
    ensures Xor(a, b) < Pow2(n)
    decreases n
  {
    if n > 0 && a != 0 && b != 0 {
      XorBound(a / 2, b / 2, n - 1);
    }
  }

  lemma {:induction false} XorAtMostSum(a: nat, b: nat)
    ensures Xor(a, b) <= a + b
    decreases a + b
  {
    if a != 0 && b != 0 {
      XorAtMostSum(a / 2, b / 2);
    }
  }

  /** The triangle inequality of the XOR metric. */
  lemma XorTriangle(a: nat, b: nat, c: nat)
    ensures Xor(a, c) <= Xor(a, b) + Xor(b, c)
  {
    XorAssociative(a, b, Xor(b, c));
    XorAssociative(b, b, c);
    XorSelf(b);
    XorAtMostSum(Xor(a, b), Xor(b, c));
  }

  /** Python's ^ on arbitrary ints, negative ones included (two's complement
      of unbounded width: ~x == -x - 1). */
  function IntXor(a: int, b: int): int
  {
    if a >= 0 && b >= 0 then Xor(a, b)
    else if a < 0 && b < 0 then Xor(-a - 1, -b - 1)
    else if a < 0 then -1 - Xor(-a - 1, b)
    else -1 - Xor(a, -b - 1)
  }

  lemma IntXorProperties(a: int, b: int)
    ensures IntXor(a, b) == IntXor(b, a)
    ensures IntXor(a, b) == 0 <==> a == b
    ensures a >= 0 && b >= 0 ==> IntXor(a, b) >= 0
  {
    if a >= 0 && b >= 0 {
      XorSymmetric(a, b);
      XorZeroIff(a, b);
    } else if a < 0 && b < 0 {
      XorSymmetric(-a - 1, -b - 1);
      XorZeroIff(-a - 1, -b - 1);
    } else if a < 0 {
      XorSymmetric(-a - 1, b);
    } else {
      XorSymmetric(a, -b - 1);
    }
  }

  // ------------------------------------------------------------------
  // Python's renderings of a non-negative int: bin(), hex() and n * "0"
  // ------------------------------------------------------------------

  const DIGITS: string := "0123456789abcdef"

  /** Euclidean division facts for a base of at least 2. */
  lemma DivMod(v: nat, base: nat)
    requires 2 <= base
    ensures v >= base ==> 1 <= v / base < v
  {
    if v >= base {
      var q, r := v / base, v % base;
      assert v == base * q + r;
      assert q >= 1;
      assert base * q >= 2 * q by {
        assert (base - 2) * q >= 0;
      }
    }
  }

  /** The digits of v in the given base with no leading zero: bin(v)[2:]
      for base 2, hex(v)[2:] for base 16. */
  function Numeral(v: nat, base: nat): (s: string)
    requires 2 <= base <= 16
    ensures |s| >= 1
    decreases v
  {
    assert |DIGITS| == 16;
    DivMod(v, base);
    if v < base then [DIGITS[v]] else Numeral(v / base, base) + [DIGITS[v % base]]
  }

  /** The value of a digit character, as int(c, 16) reads it. */
  function DigitValue(c: char): nat
  {
    match c
    case '0' => 0 case '1' => 1 case '2' => 2 case '3' => 3
    case '4' => 4 case '5' => 5 case '6' => 6 case '7' => 7
    case '8' => 8 case '9' => 9 case 'a' => 10 case 'b' => 11
    case 'c' => 12 case 'd' => 13 case 'e' => 14 case 'f' => 15
    case _ => 0
  }

  /** Reads a string of digits in the given base, most significant first. */
  function ParseNumeral(s: string, base: nat): nat
  {
    if s == [] then 0 else ParseNumeral(s[..|s| - 1], base) * base + DigitValue(s[|s| - 1])
  }

  lemma DigitRoundTrip(d: nat)
    requires d < 16
    ensures DigitValue(DIGITS[d]) == d
  {
  }

  lemma DivModIdentity(v: nat, base: nat)
    requires 2 <= base
    ensures v == (v / base) * base + v % base
  {
  }

  /** Reading a rendering back gives the number. */
  lemma {:induction false} NumeralRoundTrip(v: nat, base: nat)
    requires 2 <= base <= 16
    ensures ParseNumeral(Numeral(v, base), base) == v
    decreases v
  {
    var s := Numeral(v, base);
    if v < base {
      DigitRoundTrip(v);
      assert s[..|s| - 1] == [];
    } else {
      var q, r := v / base, v % base;
      DivMod(v, base);
      DivModIdentity(v, base);
      NumeralRoundTrip(q, base);
      DigitRoundTrip(r);
      var p := Numeral(q, base);
      assert s == p + [DIGITS[r]];
      assert s[..|s| - 1] == p;
      assert ParseNumeral(s, base) == ParseNumeral(p, base) * base + DigitValue(DIGITS[r]);
    }
  }

  /** The rendering has no leading zero except for the number 0, and uses
      only digits below the base. */
  lemma {:induction false} NumeralCanonical(v: nat, base: nat)
    requires 2 <= base <= 16
    ensures Numeral(v, base)[0] == '0' <==> v == 0
    ensures forall i :: 0 <= i < |Numeral(v, base)| ==> Numeral(v, base)[i] in DIGITS[..base]
    decreases v
  {
    var s := Numeral(v, base);
    if v >= base {
      DivMod(v, base);
      NumeralCanonical(v / base, base);
      assert s[0] == Numeral(v / base, base)[0];
      assert DIGITS[v % base] in DIGITS[..base];
    } else {
      assert DIGITS[v] in DIGITS[..base];
    }
  }

  /** n * "0" in Python: empty for n <= 0. */
  function Zeros(n: int): (s: string)
    ensures |s| == if n <= 0 then 0 else n
    ensures forall i :: 0 <= i < |s| ==> s[i] == '0'
    decreases n
  {
    if n <= 0 then "" else Zeros(n - 1) + "0"
  }

  function BitChar(b: bool): char
  {
    if b then '1' else '0'
  }

  /** Reference rendering: the low w bits of v, most significant first. */
  function Bits(v: nat, w: nat): (s: string)
    ensures |s| == w
    decreases w
  {
    if w == 0 then "" else Bits(v / 2, w - 1) + [BitChar(v % 2 == 1)]
  }

  lemma {:induction false} BitsOfZero(w: nat)
    ensures Bits(0, w) == Zeros(w)
    decreases w
  {
    if w > 0 {
      BitsOfZero(w - 1);
    }
  }

  /** Character w-1-i of Bits(v, w) is bit i of v. */
  lemma {:induction false} BitsAt(v: nat, w: nat, i: nat)
    requires i < w
    ensures Bits(v, w)[w - 1 - i] == BitChar(Bit(v, i))
    decreases w
  {
    if i > 0 {
      BitsAt(v / 2, w - 1, i - 1);
    }
  }

  lemma {:induction false} ParseBits(v: nat, w: nat)
    requires v < Pow2(w)
    ensures ParseNumeral(Bits(v, w), 2) == v
    decreases w
  {
    if w > 0 {
      var s := Bits(v, w);
      assert s[..|s| - 1] == Bits(v / 2, w - 1);
      ParseBits(v / 2, w - 1);
    }
  }

  /** Halving a number of two or more digits below 2^w leaves one below
      2^(w-1). */
  lemma HalfBelow(v: nat, w: nat)
    requires 2 <= v && 1 <= w && v < Pow2(w)
    ensures w >= 2 && v / 2 < Pow2(w - 1)
  {
    assert Pow2(w) == 2 * Pow2(w - 1);
  }

  /** The step of PaddedNumeral: appending the last digit to a padded
      rendering of v / 2. */
  lemma PaddedNumeralStep(v: nat, w: nat)
    requires 2 <= v && 2 <= w
    requires |Numeral(v / 2, 2)| <= w - 1
    requires Zeros(w - 1 - |Numeral(v / 2, 2)|) + Numeral(v / 2, 2) == Bits(v / 2, w - 1)
    ensures |Numeral(v, 2)| <= w
    ensures Zeros(w - |Numeral(v, 2)|) + Numeral(v, 2) == Bits(v, w)
  {
    var n := Numeral(v / 2, 2);
    var d := DIGITS[v % 2];
    var z := Zeros(w - 1 - |n|);
    assert Numeral(v, 2) == n + [d];
    assert d == BitChar(v % 2 == 1);
    assert Zeros(w - |Numeral(v, 2)|) == z;
    assert z + (n + [d]) == (z + n) + [d];
  }

  /** Padding bin(v)[2:] with zeros to width w gives the reference rendering. */
  lemma {:induction false} PaddedNumeral(v: nat, w: nat)
    requires 1 <= w && v < Pow2(w)
    ensures |Numeral(v, 2)| <= w
    ensures Zeros(w - |Numeral(v, 2)|) + Numeral(v, 2) == Bits(v, w)
    decreases w
  {
    if v < 2 {
      BitsOfZero(w - 1);
      assert Bits(v, w) == Bits(0, w - 1) + [BitChar(v % 2 == 1)];
      assert Zeros(w - 1) + [DIGITS[v]] == Zeros(w - 1) + [BitChar(v % 2 == 1)];
    } else {
      HalfBelow(v, w);
      PaddedNumeral(v / 2, w - 1);
      PaddedNumeralStep(v, w);
    }
  }


  // ------------------------------------------------------------------
  // The ID class of kademlia/id.py (and the ID of kademlia.py, B = 160)
  // ------------------------------------------------------------------

  /** The denary value of an ID: 0 <= value < 2^160. */
  type ID = v: int | 0 <= v < 1461501637330902918203684832716283019655932542976

  /** ID(value): raises ValueError unless 0 <= value < 2^160. */
  function NewId(value: int): (r: Result<ID>)
    ensures r.Ok? <==> 0 <= value < Pow2(160)
    ensures r.Ok? ==> r.value == value
    ensures r.Err? ==> r.error == ValueError
  {
    TwoTo160();
    if 0 <= value < TWO_160 then Ok(value) else Err(ValueError)
  }

  /** ID.bin(): bin(value)[2:] padded with zeros to 160 characters. */
  function Bin(id: ID): (r: string)
    ensures |r| == 160
  {
    TwoTo160();
    PaddedNumeral(id, 160);
    var binary := Numeral(id, 2);
    Zeros(160 - |binary|) + binary
  }

  /** Padded to width w, bin(v)[2:] is w binary digits that read back as v,
      character w-1-i being bit i. */
  lemma PaddedBinary(v: nat, w: nat)
    requires 1 <= w && v < Pow2(w)
    ensures Zeros(w - |Numeral(v, 2)|) + Numeral(v, 2) == Bits(v, w)
    ensures forall i :: 0 <= i < w ==> Bits(v, w)[i] == '0' || Bits(v, w)[i] == '1'
    ensures ParseNumeral(Bits(v, w), 2) == v
    ensures forall i :: 0 <= i < w ==> Bits(v, w)[w - 1 - i] == BitChar(Bit(v, i))
  {
    PaddedNumeral(v, w);
    ParseBits(v, w);
    forall i | 0 <= i < w
      ensures Bits(v, w)[w - 1 - i] == BitChar(Bit(v, i))
    {
      BitsAt(v, w, i);
    }
    forall i | 0 <= i < w
      ensures Bits(v, w)[i] == '0' || Bits(v, w)[i] == '1'
    {
      BitsAt(v, w, w - 1 - i);
    }
  }

  /** bin() is exactly 160 binary digits, and reading it in base 2 gives the
      value back; character 159 - i is bit i. */
  lemma BinRoundTrip(id: ID)
    ensures Bin(id) == Bits(id, 160)
    ensures |Bin(id)| == 160
    ensures forall i :: 0 <= i < 160 ==> Bin(id)[i] == '0' || Bin(id)[i] == '1'
    ensures ParseNumeral(Bin(id), 2) == id
    ensures forall i :: 0 <= i < 160 ==> Bin(id)[159 - i] == BitChar(Bit(id, i))
  {
    TwoTo160();
    PaddedBinary(id, 160);
  }

  /** big_endian_bytes(): the characters of bin(), each as a one-character string. */
  function BigEndianBytes(id: ID): (r: seq<string>)
    ensures |r| == |Bin(id)|
    ensures forall i :: 0 <= i < |r| ==> r[i] == [Bin(id)[i]]
  {
    var b := Bin(id);
    seq(|b|, i requires 0 <= i < |b| => [b[i]])
  }

  function Reverse<T>(s: seq<T>): (r: seq<T>)
    ensures |r| == |s|
    ensures forall i :: 0 <= i < |s| ==> r[i] == s[|s| - 1 - i]
  {
    if s == [] then [] else Reverse(s[1..]) + [s[0]]
  }

  lemma ReverseAt<T>(s: seq<T>, i: nat)
    requires i < |s|
    ensures Reverse(s)[i] == s[|s| - 1 - i]
  {
  }

  /** little_endian_bytes(): big_endian_bytes()[::-1]. */
  function LittleEndianBytes(id: ID): seq<string>
  {
    Reverse(BigEndianBytes(id))
  }

  /** Both byte lists hold the characters of bin(); the little-endian one is
      the reverse of the big-endian one, with bit i of the value at index i. */
  lemma EndianBytes(id: ID)
    ensures |BigEndianBytes(id)| == 160 && |LittleEndianBytes(id)| == 160
    ensures forall i :: 0 <= i < 160 ==>
      LittleEndianBytes(id)[i] == BigEndianBytes(id)[159 - i]
    ensures forall i :: 0 <= i < 160 ==> LittleEndianBytes(id)[i] == [BitChar(Bit(id, i))]
  {
    BinRoundTrip(id);
    forall i | 0 <= i < 160
      ensures LittleEndianBytes(id)[i] == BigEndianBytes(id)[159 - i]
      ensures LittleEndianBytes(id)[i] == [BitChar(Bit(id, i))]
    {
      EndianByteAt(id, i);
    }
  }

  lemma EndianByteAt(id: ID, i: nat)
    requires i < 160
    ensures |BigEndianBytes(id)| == 160
    ensures LittleEndianBytes(id)[i] == BigEndianBytes(id)[159 - i] == [BitChar(Bit(id, i))]
  {
    BinBitAt(id, i);
    var be := BigEndianBytes(id);
    assert be[159 - i] == [Bin(id)[159 - i]];
    assert LittleEndianBytes(id) == Reverse(be);
    ReverseAt(be, i);
  }

  lemma BinBitAt(id: ID, i: nat)
    requires i < 160
    ensures |Bin(id)| == 160 && Bin(id)[159 - i] == BitChar(Bit(id, i))
  {
    BinRoundTrip(id);
  }

  /** set_bit(bit): writes "1" into a freshly built list and returns None. Python
      indexing of the 160-element list raises IndexError outside [-160, 160);
      otherwise the Ok carries the ID as it is after the call. */
  function SetBit(id: ID, bit: int): (r: Result<ID>)
    ensures r.Ok? <==> -160 <= bit < 160
    ensures r.Ok? ==> r.value == id
    ensures r.Err? ==> r.error == IndexError
  {
    var bits := LittleEndianBytes(id);
    EndianBytes(id);
    if -160 <= bit < 160 then
      var index := if bit < 0 then bit + 160 else bit;
      var written := bits[index := "1"];
      assert |written| == 160;
      Ok(id)
    else
      Err(IndexError)
  }

  /** The right operand of ID's operators: another ID or a plain int. */
  datatype Operand = IdOperand(id: ID) | IntOperand(n: int)

  function OperandValue(o: Operand): int
  {
    match o
    case IdOperand(other) => other
    case IntOperand(n) => n
  }

  /** ID ^ x: the integer XOR of the values. */
  function XorWith(id: ID, o: Operand): (r: int)
    ensures o.IdOperand? ==> r >= 0 && r == Xor(id, o.id) && r == Xor(o.id, id)
    ensures o.IdOperand? ==> (r == 0 <==> o.id == id)
    ensures o.IntOperand? && o.n >= 0 ==> r == Xor(id, o.n)
    ensures OperandValue(o) == id ==> r == 0
  {
    IntXorProperties(id, OperandValue(o));
    IntXor(id, OperandValue(o))
  }

  /** Python's order on two strings of one length: the first character
      where they differ decides. */
  predicate LexLess(s: string, t: string)
    requires |s| == |t|
  {
    |s| > 0 && (s[0] < t[0] || (s[0] == t[0] && LexLess(s[1..], t[1..])))
  }

  /** Appending one character to each of two strings of one length. */
  lemma {:induction false} LexLessSnoc(s: string, t: string, c: char, d: char)
    requires |s| == |t|
    ensures LexLess(s + [c], t + [d]) <==> LexLess(s, t) || (s == t && c < d)
    decreases |s|
  {
    if |s| > 0 {
      assert (s + [c])[1..] == s[1..] + [c];
      assert (t + [d])[1..] == t[1..] + [d];
      LexLessSnoc(s[1..], t[1..], c, d);
      assert s == [s[0]] + s[1..] && t == [t[0]] + t[1..];
    }
  }

  /** Renderings of one width are ordered as the numbers are, and equal
      exactly for equal numbers. */
  lemma {:induction false} BitsOrder(a: nat, b: nat, w: nat)
    requires a < Pow2(w) && b < Pow2(w)
    ensures LexLess(Bits(a, w), Bits(b, w)) <==> a < b
    ensures Bits(a, w) == Bits(b, w) <==> a == b
    decreases w
  {
    if w > 0 {
      assert Pow2(w) == 2 * Pow2(w - 1);
      BitsOrder(a / 2, b / 2, w - 1);
      LexLessSnoc(Bits(a / 2, w - 1), Bits(b / 2, w - 1), BitChar(a % 2 == 1), BitChar(b % 2 == 1));
      var sa := Bits(a / 2, w - 1) + [BitChar(a % 2 == 1)];
      var sb := Bits(b / 2, w - 1) + [BitChar(b % 2 == 1)];
      assert Bits(a, w) == sa && Bits(b, w) == sb;
      if sa == sb {
        assert sa[..w - 1] == Bits(a / 2, w - 1) && sb[..w - 1] == Bits(b / 2, w - 1);
        assert sa[w - 1] == sb[w - 1];
      }
    }
  }

  /** bin() renderings are ordered as the IDs are, and equal exactly for
      equal IDs. */
  lemma BinOrder(a: ID, b: ID)
    ensures LexLess(Bin(a), Bin(b)) <==> a < b
    ensures Bin(a) == Bin(b) <==> a == b
  {
    BinRoundTrip(a);
    BinRoundTrip(b);
    TwoTo160();
    BitsOrder(a, b, 160);
  }

  function Eq(id: ID, o: Operand): (r: bool)
    ensures r <==> XorWith(id, o) == 0
  {
    IntXorProperties(id, OperandValue(o));
    id == OperandValue(o)
  }

  /** ID < x: the values in numeric order, which for two IDs is the
      lexicographic order of their bin() renderings. */
  function Lt(id: ID, o: Operand): (r: bool)
    ensures r ==> !Eq(id, o)
    ensures o.IdOperand? ==> (r <==> LexLess(Bin(id), Bin(o.id)))
    ensures o.IntOperand? && o.n < 0 ==> !r
    ensures o.IntOperand? && o.n >= Pow2(160) ==> r
  {
    TwoTo160();
    if o.IdOperand? then BinOrder(id, o.id); id < OperandValue(o) else id < OperandValue(o)
  }

  /** ID > x. */
  function Gt(id: ID, o: Operand): (r: bool)
    ensures r <==> !Lt(id, o) && !Eq(id, o)
    ensures o.IdOperand? ==> (r <==> LexLess(Bin(o.id), Bin(id)))
    ensures o.IntOperand? && o.n < 0 ==> r
    ensures o.IntOperand? && o.n >= Pow2(160) ==> !r
  {
    TwoTo160();
    if o.IdOperand? then BinOrder(o.id, id); id > OperandValue(o) else id > OperandValue(o)
  }

  /** ID <= x. */
  function Le(id: ID, o: Operand): (r: bool)
    ensures r <==> Lt(id, o) || Eq(id, o)
    ensures r <==> !Gt(id, o)
    ensures o.IdOperand? ==> (r <==> LexLess(Bin(id), Bin(o.id)) || Bin(id) == Bin(o.id))
  {
    if o.IdOperand? then BinOrder(id, o.id); id <= OperandValue(o) else id <= OperandValue(o)
  }

  /** ID >= x. */
  function Ge(id: ID, o: Operand): (r: bool)
    ensures r <==> Gt(id, o) || Eq(id, o)
    ensures r <==> !Lt(id, o)
    ensures o.IdOperand? ==> (r <==> LexLess(Bin(o.id), Bin(id)) || Bin(id) == Bin(o.id))
  {
    if o.IdOperand? then BinOrder(o.id, id); id >= OperandValue(o) else id >= OperandValue(o)
  }

  /** The comparison operators of kademlia/id.py form one total order:
      exactly one of <, == and > holds, < is transitive, and an int operand
      compares as the ID of that value does. */
  lemma IdOrder(a: ID, b: ID, c: ID, o: Operand)
    ensures (Lt(a, o) && !Eq(a, o) && !Gt(a, o)) || (!Lt(a, o) && Eq(a, o) && !Gt(a, o))
         || (!Lt(a, o) && !Eq(a, o) && Gt(a, o))
    ensures Lt(a, IdOperand(b)) && Lt(b, IdOperand(c)) ==> Lt(a, IdOperand(c))
    ensures Lt(a, IdOperand(b)) == Lt(a, IntOperand(b)) && Eq(a, IdOperand(b)) == Eq(a, IntOperand(b))
    ensures Gt(a, IdOperand(b)) == Gt(a, IntOperand(b))
    ensures Le(a, IdOperand(b)) == Le(a, IntOperand(b)) && Ge(a, IdOperand(b)) == Ge(a, IntOperand(b))
  {
  }

  /** The two copies of ID that differ in mid(): kademlia/id.py and kademlia.py. */
  datatype IdCopy = PackageId | MonolithId

  /** ID.max(): ID(2^160 - 1). */
  function MaxId(): (r: Result<ID>)
    ensures r.Ok? && r.value + 1 == Pow2(160)
  {
    TwoTo160();
    NewId(TWO_160 - 1)
  }

  /** ID.mid(): ID(2^159 - 1) in kademlia/id.py, ID(2^159) in kademlia.py. */
  function MidId(copy: IdCopy): (r: Result<ID>)
    ensures r.Ok?
    ensures copy == PackageId ==> r.value + 1 == Pow2(159)
    ensures copy == MonolithId ==> r.value == Pow2(159)
  {
    TwoTo160();
    match copy
    case PackageId => NewId(TWO_160 / 2 - 1)
    case MonolithId => NewId(TWO_160 / 2)
  }

  /** ID.min(): ID(0). */
  function MinId(): (r: Result<ID>)
    ensures r.Ok? && r.value == 0
  {
    NewId(0)
  }
}
