/**
 * bitset<N>: N flags packed into unsigned words.  Up to 64 flags live in one
 * word of the narrowest unsigned type of 8, 16, 32 or 64 bits that holds them;
 * more than 64 flags live in (N-1)/64+1 words of 64 bits.  Flag `i` is bit
 * `i % 64` of word `i / 64`.
 *
 * Every word is modelled as a `bv64`; a word of a narrower type is one whose
 * bits above its width are clear.  The index check of debug builds is
 * modelled as enabled: an index of N or more reads as false and is not
 * written.
 */
module Bitsets {

  /** Bit width of the word type: the narrowest of 8, 16, 32 and 64 bits that holds `quantity` flags. */
  function WordWidth(quantity: nat): (w: nat)
    ensures w == 8 || w == 16 || w == 32 || w == 64
    ensures quantity <= 64 ==> quantity <= w
    ensures w == 8 || 2 * quantity > w
  {
    if quantity <= 8 then 8
    else if quantity <= 16 then 16
    else if quantity <= 32 then 32
    else 64
  }

  /** All ones in the low `WordWidth(quantity)` bits: the largest value of the word type. */
  function WordMax(quantity: nat): bv64
  {
    match WordWidth(quantity)
    case 8 => 0xFF
    case 16 => 0xFFFF
    case 32 => 0xFFFF_FFFF
    case _ => 0xFFFF_FFFF_FFFF_FFFF
  }

  /** `v` is a value of the word type: no bit is set above its width. */
  predicate Fits(quantity: nat, v: bv64)
  {
    v & !WordMax(quantity) == 0
  }

  /** Conversion of a 64-bit value to the word type: the bits above its width are dropped. */
  function Truncate(quantity: nat, v: bv64): bv64
  {
    v & WordMax(quantity)
  }

  /** The conversion gives a value of the word type, and leaves a value of the word type unchanged. */
  lemma TruncateFits(quantity: nat, v: bv64)
    ensures Fits(quantity, Truncate(quantity, v))
    ensures Fits(quantity, v) ==> Truncate(quantity, v) == v
  {
    KeepWithinMask(v, WordMax(quantity));
  }

  /** Masking keeps a value whose bits all lie within the mask, and clears every bit outside it. */
  lemma KeepWithinMask(v: bv64, m: bv64)
    ensures (v & m) & !m == 0
    ensures v & !m == 0 ==> v & m == v
  {
  }

  /** Number of words: the fewest 64-bit words that hold `quantity` flags. */
  function ArrayNum(quantity: nat): (r: nat)
    requires quantity > 0
    ensures 64 * (r - 1) < quantity <= 64 * r
  {
    (quantity - 1) / 64 + 1
  }

  /** The word type holds every flag of a bitset of at most 64 flags. */
  lemma WordHoldsFlags(quantity: nat, b: bv6)
    requires b as nat < quantity <= 64
    ensures Fits(quantity, Mask(b))
  {
    if quantity <= 8 {
      NarrowHolds(quantity, b, 8, 0xFF);
    } else if quantity <= 16 {
      NarrowHolds(quantity, b, 16, 0xFFFF);
    } else if quantity <= 32 {
      NarrowHolds(quantity, b, 32, 0xFFFF_FFFF);
    } else {
      assert WordMax(quantity) == 0xFFFF_FFFF_FFFF_FFFF;
    }
  }

  /** A word narrower than 64 bits, all ones in `max`, holds every flag of the bitset. */
  lemma NarrowHolds(quantity: nat, b: bv6, width: bv6, max: bv64)
    requires b as nat < quantity <= width as nat
    requires (width == 8 && max == 0xFF) || (width == 16 && max == 0xFFFF) || (width == 32 && max == 0xFFFF_FFFF)
    requires width == 8 || quantity > width as nat / 2
    ensures Fits(quantity, Mask(b))
  {
    LowPosition(b, width);
    MaskWithin(b, width, max);
    assert WordMax(quantity) == max;
  }

  /** A bit position below a bound as an integer is below it as a bit-vector. */
  lemma LowPosition(b: bv6, bound: bv6)
    requires b as nat < bound as nat
    ensures b < bound
  {
  }

  /** 2^b lies within the low `width` bits, all ones in `max`, when `b < width`. */
  lemma MaskWithin(b: bv6, width: bv6, max: bv64)
    requires b < width
    requires (width == 8 && max == 0xFF) || (width == 16 && max == 0xFFFF) || (width == 32 && max == 0xFFFF_FFFF)
    ensures Mask(b) & !max == 0
  {
  }

  /** Word `i / 64` holds flag `i`. */
  function WordIndex(i: nat): nat
  {
    i / 64
  }

  /** Flag `i` is bit `i % 64` of its word. */
  function BitIndex(i: nat): bv6
  {
    (i % 64) as bv6
  }

  /** The single-bit mask 2^b. */
  function Mask(b: bv6): bv64
  {
    1 << b
  }

  /** Bit `b` of word `w` is set: `w` holds the value 2^b. */
  predicate BitOf(w: bv64, b: bv6)
  {
    w & Mask(b) != 0
  }

  /** The flags held in the words `ws` of a bitset of `quantity` flags. */
  function BitsOf(ws: seq<bv64>, quantity: nat): (s: seq<bool>)
    requires 0 < quantity && |ws| == ArrayNum(quantity)
    ensures |s| == quantity
  {
    seq(quantity, i requires 0 <= i < quantity => BitOf(ws[WordIndex(i)], BitIndex(i)))
  }

  /** `n` words of zero. */
  function Zeros(n: nat): (z: seq<bv64>)
    ensures |z| == n && forall k :: 0 <= k < n ==> z[k] == 0
  {
    seq(n, _ => 0)
  }

  /** Shifting bit `b` down to position 0 reads the same bit as masking it. */
  lemma ShiftReadsBit(w: bv64, b: bv6)
    ensures ((w >> b) & 1 == 1) == BitOf(w, b)
  {
  }

  /** A single-bit mask is not zero. */
  lemma MaskNonZero(b: bv6)
    ensures Mask(b) != 0
  {
  }

  /** Two different positions have disjoint single-bit masks. */
  lemma DistinctMasks(b: bv6, c: bv6)
    requires b != c
    ensures Mask(b) & Mask(c) == 0
  {
  }

  /**
   * The branchless update of SetBit: bits under `mask` become all ones when
   * `flag` holds and all zeros otherwise, and the rest of `w` is kept.
   */
  function SetFormula(w: bv64, mask: bv64, flag: bool): bv64
  {
    w ^ (((if flag then 0xFFFF_FFFF_FFFF_FFFF else 0) ^ w) & mask)
  }

  /** The masked bits of the updated word are all set when `flag` holds and all clear otherwise. */
  lemma SetFormulaMasked(w: bv64, mask: bv64, flag: bool)
    ensures SetFormula(w, mask, flag) & mask == if flag then mask else 0
  {
  }

  /** Bits outside the mask keep their value. */
  lemma SetFormulaKeeps(w: bv64, mask: bv64, flag: bool, other: bv64)
    requires mask & other == 0
    ensures SetFormula(w, mask, flag) & other == w & other
  {
  }

  /** The updated word still fits the word type when the mask does. */
  lemma SetFormulaFits(quantity: nat, w: bv64, mask: bv64, flag: bool)
    requires Fits(quantity, w) && Fits(quantity, mask)
    ensures Fits(quantity, SetFormula(w, mask, flag))
  {
  }

  /** The word SetBit stores: the formula evaluated in 64 bits and converted back to the word type. */
  function SetWord(quantity: nat, w: bv64, b: bv6, flag: bool): bv64
  {
    Truncate(quantity, SetFormula(w, Mask(b), flag))
  }

  /** Setting bit `b` of a word to `flag` makes that bit `flag` and leaves every other bit as it was. */
  lemma {:induction false} SetWordBits(quantity: nat, w: bv64, b: bv6, flag: bool)
    requires Fits(quantity, w) && Fits(quantity, Mask(b))
    ensures Fits(quantity, SetWord(quantity, w, b, flag))
    ensures BitOf(SetWord(quantity, w, b, flag), b) == flag
    ensures forall c: bv6 :: c != b ==> BitOf(SetWord(quantity, w, b, flag), c) == BitOf(w, c)
  {
    var r := SetFormula(w, Mask(b), flag);
    SetFormulaFits(quantity, w, Mask(b), flag);
    TruncateFits(quantity, r);
    assert SetWord(quantity, w, b, flag) == r;
    SetFormulaMasked(w, Mask(b), flag);
    MaskNonZero(b);
    forall c: bv6 | c != b
      ensures BitOf(r, c) == BitOf(w, c)
    {
      SetFormulaOtherBit(w, b, flag, c);
    }
  }

  /** The branchless update leaves a bit other than the one it targets as it was. */
  lemma SetFormulaOtherBit(w: bv64, b: bv6, flag: bool, c: bv6)
    requires c != b
    ensures BitOf(SetFormula(w, Mask(b), flag), c) == BitOf(w, c)
  {
    var m, o := Mask(b), Mask(c);
    DistinctMasks(b, c);
    SetFormulaKeepsBit(w, m, flag, o);
  }

  /** A bit outside the mask reads the same before and after the update. */
  lemma SetFormulaKeepsBit(w: bv64, mask: bv64, flag: bool, other: bv64)
    requires mask & other == 0
    ensures (SetFormula(w, mask, flag) & other != 0) == (w & other != 0)
  {
    SetFormulaKeeps(w, mask, flag, other);
  }

  /** Different flags held in one word sit at different bit positions. */
  lemma SameWordOtherBit(i: nat, j: nat)
    requires i != j && WordIndex(i) == WordIndex(j)
    ensures BitIndex(i) != BitIndex(j)
  {
    assert i % 64 != j % 64;
    PositionValue(i % 64);
    PositionValue(j % 64);
  }

  /** A bit position converts to `bv6` and back unchanged. */
  lemma PositionValue(k: nat)
    requires k < 64
    ensures (k as bv6) as nat == k
  {
  }

  /** The words after flag `index` is set to `flag`: its word is replaced by the updated one. */
  function SetWords(ws: seq<bv64>, quantity: nat, index: nat, flag: bool): seq<bv64>
    requires WordIndex(index) < |ws|
  {
    ws[WordIndex(index) := SetWord(quantity, ws[WordIndex(index)], BitIndex(index), flag)]
  }

  /**
   * Setting one flag: the words still fit the word type, the flag at `index`
   * becomes `flag` and every other flag keeps its value.
   */
  lemma SetWordsBits(ws: seq<bv64>, quantity: nat, index: nat, flag: bool)
    requires 0 < quantity && |ws| == ArrayNum(quantity) && index < quantity
    requires forall k :: 0 <= k < |ws| ==> Fits(quantity, ws[k])
    ensures forall k :: 0 <= k < |ws| ==> Fits(quantity, SetWords(ws, quantity, index, flag)[k])
    ensures BitsOf(SetWords(ws, quantity, index, flag), quantity) == BitsOf(ws, quantity)[index := flag]
  {
    var a, b := WordIndex(index), BitIndex(index);
    if quantity <= 64 {
      PositionValue(index % 64);
      WordHoldsFlags(quantity, b);
    } else {
      assert Fits(quantity, Mask(b));
    }
    SetWordBits(quantity, ws[a], b, flag);
    var after := SetWords(ws, quantity, index, flag);
    forall i | 0 <= i < quantity
      ensures BitsOf(after, quantity)[i] == BitsOf(ws, quantity)[index := flag][i]
    {
      if i != index && WordIndex(i) == a {
        SameWordOtherBit(i, index);
      }
    }
  }

  /** A flag below 64 lives in word 0, and only such flags do. */
  lemma FirstWordFlags(i: nat)
    ensures WordIndex(i) == 0 <==> i < 64
  {
  }

  /** The flags of words that are all zero are all false. */
  lemma ZeroWordsBits(quantity: nat)
    requires 0 < quantity
    ensures BitsOf(Zeros(ArrayNum(quantity)), quantity) == seq(quantity, _ => false)
  {
  }

  class Bitset {
    /** The number of flags, N. */
    const quantity: nat
    /** bitsArray; `bits` is its first word. */
    const words: array<bv64>

    ghost predicate Valid()
      reads this, words
    {
      0 < quantity && words.Length == ArrayNum(quantity) &&
      forall k :: 0 <= k < words.Length ==> Fits(quantity, words[k])
    }

    /** The flags, in order of their index. */
    ghost function Bits(): (s: seq<bool>)
      reads this, words
      requires Valid()
      ensures |s| == quantity
    {
      BitsOf(words[..], quantity)
    }

    /** Default constructor: every word zero, so every flag false. */
    constructor (quantity: nat)
      requires quantity > 0
      ensures Valid() && fresh(words) && this.quantity == quantity
      ensures words[..] == Zeros(ArrayNum(quantity))
      ensures Bits() == seq(quantity, _ => false)
    {
      var n := ArrayNum(quantity);
      var ws := new bv64[n];
      var i := 0;
      while i < n
        invariant 0 <= i <= n
        invariant forall k :: 0 <= k < i ==> ws[k] == 0
      {
        ws[i] := 0;
        i := i + 1;
      }
      this.quantity := quantity;
      words := ws;
      new;
      assert words[..] == Zeros(n);
      ZeroWordsBits(quantity);
    }

    /** Constructor from one value of the word type: it becomes word 0, and every further word is zero. */
    constructor FromValue(quantity: nat, initialFlags: bv64)
      requires quantity > 0 && Fits(quantity, initialFlags)
      ensures Valid() && fresh(words) && this.quantity == quantity
      ensures words[..] == [initialFlags] + Zeros(ArrayNum(quantity) - 1)
      ensures forall i :: 0 <= i < quantity ==> Bits()[i] == (i < 64 && BitOf(initialFlags, BitIndex(i)))
    {
      var n := ArrayNum(quantity);
      var ws := new bv64[n];
      ws[0] := initialFlags;
      var i := 1;
      while i < n
        invariant 1 <= i <= n && ws[0] == initialFlags
        invariant forall k :: 1 <= k < i ==> ws[k] == 0
      {
        ws[i] := 0;
        i := i + 1;
      }
      this.quantity := quantity;
      words := ws;
      new;
      assert words[..] == [initialFlags] + Zeros(n - 1);
      forall i | 0 <= i < quantity
        ensures Bits()[i] == (i < 64 && BitOf(initialFlags, BitIndex(i)))
      {
        FirstWordFlags(i);
      }
    }

    /** Constructor from an array of words, one for each word of the bitset. */
    constructor FromWords(quantity: nat, other: seq<bv64>)
      requires quantity > 0 && |other| == ArrayNum(quantity)
      requires forall k :: 0 <= k < |other| ==> Fits(quantity, other[k])
      ensures Valid() && fresh(words) && this.quantity == quantity
      ensures words[..] == other && Bits() == BitsOf(other, quantity)
    {
      var ws := new bv64[|other|];
      CopyWords(ws, other);
      this.quantity := quantity;
      words := ws;
    }

    /**
     * GetBit: the flag at `index`, read by shifting its word right by the
     * bit position and keeping the lowest bit.  An index of N or more reads
     * as false.
     */
    function GetBit(index: nat): (r: bool)
      reads this, words
      requires Valid()
      ensures r == (index < quantity && Bits()[index])
    {
      if index >= quantity then false
      else
        ShiftReadsBit(words[WordIndex(index)], BitIndex(index));
        (words[WordIndex(index)] >> BitIndex(index)) & 1 == 1
    }

    /**
     * SetBit: the flag at `index` becomes `flag` and every other flag keeps
     * its value.  An index of N or more changes nothing.
     */
    method SetBit(index: nat, flag: bool)
      requires Valid()
      modifies words
      ensures Valid()
      ensures index >= quantity ==> words[..] == old(words[..])
      ensures index < quantity ==> words[..] == SetWords(old(words[..]), quantity, index, flag)
      ensures Bits() == if index < quantity then old(Bits())[index := flag] else old(Bits())
    {
      if index >= quantity {
        return;
      }
      SetWordsBits(words[..], quantity, index, flag);
      var arrayIndex := WordIndex(index);
      var bitIndex := BitIndex(index);
      words[arrayIndex] := SetWord(quantity, words[arrayIndex], bitIndex, flag);
    }

    /** operator=(Bittype): only the first word is assigned; further words keep their value. */
    method AssignValue(other: bv64)
      requires Valid() && Fits(quantity, other)
      modifies words
      ensures Valid()
      ensures words[..] == old(words[..])[0 := other]
      ensures forall i :: 0 <= i < quantity ==> Bits()[i] == if i < 64 then BitOf(other, BitIndex(i)) else old(Bits())[i]
    {
      words[0] := other;
      forall i | 0 <= i < quantity
        ensures Bits()[i] == if i < 64 then BitOf(other, BitIndex(i)) else old(Bits())[i]
      {
        FirstWordFlags(i);
      }
    }

    /** operator=(const Bittype[]): every word is assigned from the array. */
    method AssignWords(other: seq<bv64>)
      requires Valid() && |other| == words.Length
      requires forall k :: 0 <= k < |other| ==> Fits(quantity, other[k])
      modifies words
      ensures Valid() && words[..] == other && Bits() == BitsOf(other, quantity)
    {
      CopyWords(words, other);
    }

    /** operator=(bitset): the other bitset is passed by value, and all of its words are copied. */
    method Assign(other: Bitset)
      requires Valid() && other.Valid() && other.quantity == quantity
      modifies words
      ensures Valid() && words[..] == old(other.words[..]) && Bits() == old(other.Bits())
    {
      var copy := other.words[..];
      AssignWords(copy);
    }

    /** operator==(Bittype): compares the first word only. */
    function EqualsValue(other: bv64): (r: bool)
      reads this, words
      requires Valid() && Fits(quantity, other)
      ensures r <==> words[0] == other
      ensures r ==> forall i :: 0 <= i < quantity && i < 64 ==> Bits()[i] == BitOf(other, BitIndex(i))
    {
      assert forall i :: 0 <= i < quantity && i < 64 ==> WordIndex(i) == 0;
      words[0] == other
    }

    /** operator==(const Bittype[]): word by word, stopping at the first difference. */
    method EqualsWords(other: seq<bv64>) returns (r: bool)
      requires Valid() && |other| == words.Length
      ensures r <==> words[..] == other
      ensures r ==> Bits() == BitsOf(other, quantity)
    {
      var i := 0;
      while i < words.Length
        invariant 0 <= i <= words.Length
        invariant words[..i] == other[..i]
      {
        if words[i] != other[i] {
          return false;
        }
        assert words[..i + 1] == words[..i] + [words[i]];
        assert other[..i + 1] == other[..i] + [other[i]];
        i := i + 1;
      }
      assert words[..] == words[..i] && other == other[..i];
      return true;
    }

    /** operator==(bitset): the words of both bitsets compared one by one. */
    method Equals(other: Bitset) returns (r: bool)
      requires Valid() && other.Valid() && other.quantity == quantity
      ensures r <==> words[..] == other.words[..]
      ensures r ==> Bits() == other.Bits()
    {
      r := EqualsWords(other.words[..]);
    }
  }

  /** The copy loop shared by the array constructor and the array assignment. */
  method CopyWords(dst: array<bv64>, src: seq<bv64>)
    requires dst.Length == |src|
    modifies dst
    ensures dst[..] == src
  {
    var i := 0;
    while i < |src|
      invariant 0 <= i <= |src|
      invariant dst[..i] == src[..i]
    {
      dst[i] := src[i];
      assert dst[..i + 1] == dst[..i] + [dst[i]];
      assert src[..i + 1] == src[..i] + [src[i]];
      i := i + 1;
    }
    assert dst[..] == dst[..i];
  }

  /**
   * Equality compares whole words, including bits above the last flag: a
   * bitset of 5 flags whose word is 0x20 shows the same flags as one whose
   * word is 0, yet the two are not equal.
   */
  lemma EqualityComparesUnusedBits()
    ensures Fits(5, 0x20) && BitsOf([0x20], 5) == BitsOf([0], 5) && [0x20 as bv64] != [0 as bv64]
  {
    assert forall i :: 0 <= i < 5 ==> !BitOf(0x20, BitIndex(i));
  }
}
