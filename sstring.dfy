/**
 * The 16-byte `SString` of string/SString.h and string/SString.cpp, on a
 * 64-bit target.  A string of at most 15 bytes is stored in place in
 * `sso_chars`; a longer one lives in a heap buffer of exactly its length
 * plus one.  Byte 15 plays three parts: in a small string it holds 15 minus
 * the length (so it is zero, the terminator, when the length is 15); in a
 * long string it is the top byte of the little-endian `length` word that
 * occupies bytes 8 to 15; and in both its bit 7 is the long flag.
 */
module ShortStrings {
  import opened Memory

  /** sizeof(char*) + sizeof(size_t) - 1 on a 64-bit target. */
  const MAX_SMALL_SSTRING_LENGTH: nat := 15
  const SSTRING_SMALL_FLAG_BIT: bv8 := 128
  const SSTRING_SMALL_OTHER_BITS: bv8 := 127
  /** The `length` word sits in bytes 8 to 15, after the 8-byte `data` pointer. */
  const LENGTH_OFFSET: nat := 8
  /** SSTRING_LONG_LENGTH_BITMASK plus one: masking the length word is taking it modulo this. */
  const LONG_LENGTH_LIMIT: nat := 0x8000_0000_0000_0000
  const SIZE_T_LIMIT: nat := 0x1_0000_0000_0000_0000

  /** 256 to the power `k`. */
  function Pow256(k: nat): (p: nat)
    ensures p > 0
  {
    if k == 0 then 1 else 256 * Pow256(k - 1)
  }

  /** The value of bytes read as a little-endian word. */
  function LeValue(b: seq<bv8>): nat
    decreases |b|
  {
    if b == [] then 0 else b[0] as nat + 256 * LeValue(b[1..])
  }

  /** The `k` low bytes of `n`, least significant first: how a store of a word lays it out in memory. */
  function LeBytes(n: nat, k: nat): (r: seq<bv8>)
    ensures |r| == k
  {
    if k == 0 then [] else [ByteOf(n % 256)] + LeBytes(n / 256, k - 1)
  }

  /** Reading back the bytes of a word that fits gives the word. */
  lemma {:induction false} LeBytesValue(n: nat, k: nat)
    requires n < Pow256(k)
    ensures LeValue(LeBytes(n, k)) == n
  {
    if k > 0 {
      var r := LeBytes(n, k);
      var q, m := n / 256, n % 256;
      assert n == 256 * q + m;
      assert q < Pow256(k - 1);
      assert r[1..] == LeBytes(q, k - 1);
      LeBytesValue(q, k - 1);
      ByteValue(m);
      assert LeValue(r) == m + 256 * q;
    }
  }

  /** The last byte of a little-endian word is its most significant. */
  lemma {:induction false} LeValueSnoc(a: seq<bv8>, x: bv8)
    ensures LeValue(a + [x]) == LeValue(a) + Pow256(|a|) * x as nat
    decreases |a|
  {
    if a == [] {
      assert a + [x] == [x] && [x][1..] == [];
      assert LeValue([x]) == x as nat + 256 * LeValue([]);
    } else {
      var l: int, p: int, v: int := LeValue(a[1..]), Pow256(|a| - 1), x as nat;
      assert LeValue(a + [x]) == a[0] as nat + 256 * l + 256 * (p * v) by {
        assert (a + [x])[1..] == a[1..] + [x];
        LeValueSnoc(a[1..], x);
      }
      assert LeValue(a) == a[0] as nat + 256 * l;
      assert Pow256(|a|) * v == 256 * (p * v) by {
        assert Pow256(|a|) == 256 * p;
        ScaleProduct(p, v);
      }
    }
  }

  lemma ScaleProduct(p: int, v: int)
    ensures (256 * p) * v == 256 * (p * v)
  {
  }

  lemma Pow256Of7And8()
    ensures Pow256(7) == 0x100_0000_0000_0000 && Pow256(8) == SIZE_T_LIMIT
  {
    assert Pow256(2) == 0x1_0000;
    assert Pow256(4) == 0x1_0000_0000 by { assert Pow256(3) == 0x100_0000; }
    assert Pow256(6) == 0x1_0000_0000_0000 by { assert Pow256(5) == 0x100_0000_0000; }
  }

  /** A byte below 128 has bit 7 clear. */
  lemma LowByte(x: bv8)
    requires x as nat < 128
    ensures x & SSTRING_SMALL_FLAG_BIT == 0
  {
  }

  /** Setting bit 7 of a byte that has it clear adds 128. */
  lemma OrTopBit(x: bv8)
    requires x & SSTRING_SMALL_FLAG_BIT == 0
    ensures (x | SSTRING_SMALL_FLAG_BIT) as nat == x as nat + 128
  {
    assert x | 128 == x + 128;
  }

  // ---------------------------------------------------------------------------
  // The flags byte and the length word.

  /** IsSmallString: bit 7 of byte 15 is clear. */
  predicate IsSmallFlags(flags: bv8)
  {
    flags & SSTRING_SMALL_FLAG_BIT == 0
  }

  /** GetSmallStringLength: 15 minus the low seven bits of byte 15, wrapping as a size_t does. */
  function SmallLengthOf(flags: bv8): nat
  {
    var low := (flags & SSTRING_SMALL_OTHER_BITS) as int;
    if low <= MAX_SMALL_SSTRING_LENGTH then MAX_SMALL_SSTRING_LENGTH - low
    else MAX_SMALL_SSTRING_LENGTH - low + SIZE_T_LIMIT
  }

  /**
   * SetSmallLength: byte 15 becomes 15 minus `n`, with bit 7 cleared after.
   * It reads back as `n`, and is zero, the terminator, exactly when `n` is 15.
   */
  function SmallFlags(n: nat): (r: bv8)
    requires n <= MAX_SMALL_SSTRING_LENGTH
    ensures IsSmallFlags(r) && SmallLengthOf(r) == n
    ensures r == 0 <==> n == MAX_SMALL_SSTRING_LENGTH
  {
    ((MAX_SMALL_SSTRING_LENGTH - n) as bv8) & SSTRING_SMALL_OTHER_BITS
  }

  /** GetLongStringLength: the length word with its top bit, the long flag, masked off. */
  function LongLengthOf(b: seq<bv8>): nat
    requires |b| == 16
  {
    LeValue(b[LENGTH_OFFSET..]) % LONG_LENGTH_LIMIT
  }

  /** SetLongLength: the length word is stored in bytes 8 to 15, then the long flag is set in byte 15. */
  function WithLongLength(b: seq<bv8>, n: nat): (r: seq<bv8>)
    requires |b| == 16 && n < LONG_LENGTH_LIMIT
    ensures |r| == 16 && r[..LENGTH_OFFSET] == b[..LENGTH_OFFSET]
    ensures !IsSmallFlags(r[15]) && LongLengthOf(r) == n
  {
    var w := Splice(b, LENGTH_OFFSET, LeBytes(n, 8));
    LongLengthRoundTrip(b, n);
    w[15 := w[15] | SSTRING_SMALL_FLAG_BIT]
  }

  /** The bytes of a word below 2^63: the top byte has bit 7 clear and weighs 2^56. */
  lemma TopByteOfLength(n: nat)
    requires n < LONG_LENGTH_LIMIT
    ensures var e := LeBytes(n, 8);
      e[7] & SSTRING_SMALL_FLAG_BIT == 0 && n == LeValue(e[..7]) + 0x100_0000_0000_0000 * e[7] as nat
  {
    var e := LeBytes(n, 8);
    Pow256Of7And8();
    LeBytesValue(n, 8);
    assert e == e[..7] + [e[7]];
    LeValueSnoc(e[..7], e[7]);
    LowByte(e[7]);
  }

  /** Setting bit 7 of the top byte of a word adds 2^63 to its value. */
  lemma FlaggedWord(e: seq<bv8>)
    requires |e| == 8 && e[7] & SSTRING_SMALL_FLAG_BIT == 0
    ensures LeValue(e[..7] + [e[7] | SSTRING_SMALL_FLAG_BIT]) == LeValue(e[..7]) + 0x100_0000_0000_0000 * e[7] as nat + LONG_LENGTH_LIMIT
  {
    Pow256Of7And8();
    OrTopBit(e[7]);
    LeValueSnoc(e[..7], e[7] | SSTRING_SMALL_FLAG_BIT);
  }

  /** The length of a word below 2^63 survives being stored, flagged long and masked. */
  lemma LongLengthRoundTrip(b: seq<bv8>, n: nat)
    requires |b| == 16 && n < LONG_LENGTH_LIMIT
    ensures var w := Splice(b, LENGTH_OFFSET, LeBytes(n, 8));
      var r := w[15 := w[15] | SSTRING_SMALL_FLAG_BIT];
      r[..LENGTH_OFFSET] == b[..LENGTH_OFFSET] && !IsSmallFlags(r[15]) && LongLengthOf(r) == n
  {
    var e := LeBytes(n, 8);
    TopByteOfLength(n);
    FlaggedWord(e);
    FlaggedBytes(b, e);
    FlagMasksOff(n);
    FlagSet(e[7]);
  }

  /** Bytes 8 to 15 after the word `e` is stored and bit 7 of byte 15 set. */
  lemma FlaggedBytes(b: seq<bv8>, e: seq<bv8>)
    requires |b| == 16 && |e| == 8
    ensures var w := Splice(b, LENGTH_OFFSET, e);
      var r := w[15 := w[15] | SSTRING_SMALL_FLAG_BIT];
      r[LENGTH_OFFSET..] == e[..7] + [e[7] | SSTRING_SMALL_FLAG_BIT] && r[..LENGTH_OFFSET] == b[..LENGTH_OFFSET] &&
      r[15] == e[7] | SSTRING_SMALL_FLAG_BIT
  {
    var w := Splice(b, LENGTH_OFFSET, e);
    assert w[LENGTH_OFFSET..] == e;
  }

  /** Masking off the flag recovers a length below 2^63. */
  lemma FlagMasksOff(n: nat)
    requires n < LONG_LENGTH_LIMIT
    ensures (n + LONG_LENGTH_LIMIT) % LONG_LENGTH_LIMIT == n
  {
  }

  /** A byte with bit 7 set is not the flags byte of a small string. */
  lemma FlagSet(x: bv8)
    ensures !IsSmallFlags(x | SSTRING_SMALL_FLAG_BIT)
  {
  }

  // ---------------------------------------------------------------------------
  // The small layout.

  /** The 16 bytes of a small string: the flag is clear, the recorded length is at most 15, and the text is terminated and free of zeros. */
  predicate SmallLayout(b: seq<bv8>)
  {
    |b| == 16 && IsSmallFlags(b[15]) && SmallLengthOf(b[15]) <= MAX_SMALL_SSTRING_LENGTH &&
    b[SmallLengthOf(b[15])] == 0 && NoNul(b[..SmallLengthOf(b[15])])
  }

  function SmallText(b: seq<bv8>): seq<bv8>
    requires |b| == 16 && SmallLengthOf(b[15]) <= MAX_SMALL_SSTRING_LENGTH
  {
    b[..SmallLengthOf(b[15])]
  }

  /**
   * The length is set first and the text with its terminator copied after
   * (the constructors and operator=); a 15-byte text's terminator lands on
   * byte 15, which SetSmallLength has already made zero.
   */
  lemma WriteAfterFlags(b: seq<bv8>, text: seq<bv8>)
    requires |b| == 16 && |text| <= MAX_SMALL_SSTRING_LENGTH && b[15] == SmallFlags(|text|) && NoNul(text)
    ensures SmallLayout(Splice(b, 0, text + [0])) && SmallText(Splice(b, 0, text + [0])) == text
  {
    var w := Splice(b, 0, text + [0]);
    SpliceCString(b, 0, text);
    if |text| < MAX_SMALL_SSTRING_LENGTH {
      assert w[15] == b[15];
    } else {
      assert w[15] == 0;
    }
  }

  /** The text with its terminator `src` is copied to position `at` first and the length set after (Append). */
  lemma WriteBeforeFlags(b: seq<bv8>, at: nat, src: seq<bv8>)
    requires |b| == 16 && 0 < |src| && at + |src| <= 16 && src[|src| - 1] == 0
    requires NoNul(b[..at]) && NoNul(src[..|src| - 1])
    ensures var r := Splice(b, at, src)[15 := SmallFlags(at + |src| - 1)];
      SmallLayout(r) && SmallText(r) == b[..at] + src[..|src| - 1]
  {
    var text := src[..|src| - 1];
    assert src == text + [0];
    var n := at + |text|;
    var w := Splice(b, at, src);
    var r := w[15 := SmallFlags(n)];
    SpliceCString(b, at, text);
    NoNulConcat(b[..at], text);
    assert r[..n] == w[..n];
  }

  /** memcpy of `src` to position `at` of the 16 bytes, then SetSmallLength of the length up to the copied terminator. */
  method WriteThenSetSmallLength(b: array<bv8>, at: nat, src: seq<bv8>)
    requires b.Length == 16 && 0 < |src| && at + |src| <= 16
    modifies b
    ensures b[..] == Splice(old(b[..]), at, src)[15 := SmallFlags(at + |src| - 1)]
  {
    MemCopy(b, at, src);
    SetSmallLengthOf(b, at + |src| - 1);
  }

  /** SetSmallLength on the bytes of an SString: byte 15 becomes 15 minus `n`, then SetIsSmallString clears bit 7. */
  method SetSmallLengthOf(b: array<bv8>, n: nat)
    requires b.Length == 16 && n <= MAX_SMALL_SSTRING_LENGTH
    modifies b
    ensures b[..] == old(b[..])[15 := SmallFlags(n)]
  {
    b[15] := (MAX_SMALL_SSTRING_LENGTH - n) as bv8;
    b[15] := b[15] & SSTRING_SMALL_OTHER_BITS;
  }

  /** SetLongLength on the bytes of an SString: the `length` word is stored, then SetIsLongString sets bit 7 of byte 15. */
  method SetLongLengthOf(b: array<bv8>, n: nat)
    requires b.Length == 16 && n < LONG_LENGTH_LIMIT
    modifies b
    ensures b[..] == WithLongLength(old(b[..]), n)
  {
    MemCopy(b, LENGTH_OFFSET, LeBytes(n, 8));
    b[15] := b[15] | SSTRING_SMALL_FLAG_BIT;
  }

  // ---------------------------------------------------------------------------
  // The string.

  class SString {
    /** sso_chars: the text of a small string; bytes 8 to 15 hold the `length` word of a long one. */
    const sso: array<bv8>
    /** The heap buffer of a long string; the source keeps this pointer in bytes 0 to 7. */
    var data: array?<bv8>
    ghost var Repr: set<object>

    /** IsSmallString: bit 7 of byte 15 is clear. */
    predicate IsSmallString()
      reads sso
      requires sso.Length == 16
    {
      IsSmallFlags(sso[15])
    }

    function GetSmallStringLength(): nat
      reads sso
      requires sso.Length == 16
    {
      SmallLengthOf(sso[15])
    }

    function GetLongStringLength(): (n: nat)
      reads sso
      requires sso.Length == 16
      ensures n < LONG_LENGTH_LIMIT
    {
      LongLengthOf(sso[..])
    }

    /** Length: the small length when the flag is clear, the masked length word otherwise. */
    function Length(): nat
      reads sso
      requires sso.Length == 16
    {
      if IsSmallString() then GetSmallStringLength() else GetLongStringLength()
    }

    /**
     * A well-formed string: a small one keeps its text in place; a long one
     * is longer than 15 bytes and owns a buffer of exactly its length plus one.
     */
    ghost predicate Valid()
      reads this, Repr
    {
      this in Repr && sso in Repr && sso.Length == 16 &&
      if IsSmallString() then
        Repr == {this, sso} && SmallLayout(sso[..])
      else
        data != null && Repr == {this, sso, data} && data != sso &&
        MAX_SMALL_SSTRING_LENGTH < GetLongStringLength() && data.Length == GetLongStringLength() + 1 &&
        data[GetLongStringLength()] == 0 && NoNul(data[..GetLongStringLength()])
    }

    /** The small layout with nothing else in the footprint is a valid string holding the text its length byte records. */
    lemma SmallIsValid()
      requires sso.Length == 16 && Repr == {this, sso} && SmallLayout(sso[..])
      ensures Valid() && IsSmallString() && Text() == SmallText(sso[..])
    {
    }

    /** A long string whose buffer is its length plus one bytes, ending in the only zero, is valid. */
    lemma LongIsValid()
      requires sso.Length == 16 && !IsSmallFlags(sso[15]) && data != null && data != sso
      requires Repr == {this, sso, data} && MAX_SMALL_SSTRING_LENGTH < LongLengthOf(sso[..])
      requires data.Length == LongLengthOf(sso[..]) + 1
      requires data[LongLengthOf(sso[..])] == 0 && NoNul(data[..LongLengthOf(sso[..])])
      ensures Valid() && !IsSmallString() && Text() == data[..LongLengthOf(sso[..])]
    {
    }

    /** A well-formed string is small exactly when its length is at most 15. */
    lemma SmallExactlyWhenShort()
      requires Valid()
      ensures IsSmallString() <==> Length() <= MAX_SMALL_SSTRING_LENGTH
    {
    }

    /** The bytes of the string, without its terminator. */
    function Text(): (t: seq<bv8>)
      reads Repr
      requires Valid()
      ensures |t| == Length() < LONG_LENGTH_LIMIT && NoNul(t)
    {
      if IsSmallString() then SmallText(sso[..]) else data[..GetLongStringLength()]
    }

    /** CStr: the bytes the returned pointer reaches, up to and including the terminator. */
    function CStr(): (r: seq<bv8>)
      reads Repr
      requires Valid()
      ensures r == Text() + [0]
    {
      if IsSmallString() then sso[..GetSmallStringLength() + 1] else data[..]
    }

    /** SetLength: a length of at most 15 goes into byte 15, a longer one into the length word with the flag set. */
    method SetLength(newLength: nat)
      requires sso.Length == 16 && newLength < LONG_LENGTH_LIMIT
      modifies sso
      ensures newLength <= MAX_SMALL_SSTRING_LENGTH ==> sso[..] == old(sso[..])[15 := SmallFlags(newLength)]
      ensures newLength <= MAX_SMALL_SSTRING_LENGTH ==> sso[15] == SmallFlags(newLength)
      ensures newLength > MAX_SMALL_SSTRING_LENGTH ==> sso[..] == WithLongLength(old(sso[..]), newLength)
      ensures Length() == newLength && (IsSmallString() <==> newLength <= MAX_SMALL_SSTRING_LENGTH)
    {
      if newLength > MAX_SMALL_SSTRING_LENGTH {
        SetLongLengthOf(sso, newLength);
      } else {
        SetSmallLengthOf(sso, newLength);
      }
    }

    /** Default constructor: the empty small string. */
    constructor ()
      ensures Valid() && fresh(Repr) && IsSmallString() && Text() == []
    {
      sso := new bv8[16];
      new;
      sso[0] := 0;
      SetSmallLengthOf(sso, 0);
      Repr := {this, sso};
      SmallIsValid();
    }

    /**
     * What the constructors and operator= do once SetLength has recorded the
     * length of `str`: a short text and its terminator go in place, a long one
     * into a fresh buffer of exactly its length plus one.
     */
    method Store(str: seq<bv8>)
      requires sso.Length == 16 && NoNul(str) && Length() == |str|
      requires IsSmallString() <==> |str| <= MAX_SMALL_SSTRING_LENGTH
      requires IsSmallString() ==> sso[15] == SmallFlags(|str|)
      modifies this, sso
      ensures Valid() && Text() == str && IsSmallString() == old(IsSmallString())
      ensures IsSmallString() ==> Repr == {this, sso}
      ensures !IsSmallString() ==> fresh(data) && Repr == {this, sso, data}
    {
      if IsSmallString() {
        WriteAfterFlags(sso[..], str);
        MemCopy(sso, 0, str + [0]);
        Repr := {this, sso};
        SmallIsValid();
      } else {
        var buffer := new bv8[|str| + 1];
        SpliceWhole(buffer[..], str + [0]);
        MemCopy(buffer, 0, str + [0]);
        data := buffer;
        Repr := {this, sso, buffer};
        assert data[..|str|] == str;
        LongIsValid();
      }
    }

    /** Constructor from a C string: small when it has at most 15 bytes. */
    constructor FromCString(str: seq<bv8>)
      requires NoNul(str) && |str| < LONG_LENGTH_LIMIT
      ensures Valid() && fresh(Repr) && Text() == str
      ensures IsSmallString() <==> |str| <= MAX_SMALL_SSTRING_LENGTH
    {
      sso := new bv8[16];
      new;
      SetLength(|str|);
      Store(str);
    }

    /** Copy constructor: the same text in the same representation, in storage of its own. */
    constructor Copy(other: SString)
      requires other.Valid()
      ensures Valid() && fresh(Repr) && Text() == other.Text()
      ensures IsSmallString() == other.IsSmallString()
    {
      var text := other.CStr();
      var body := text[..|text| - 1];
      assert body == other.Text();
      other.SmallExactlyWhenShort();
      sso := new bv8[16];
      new;
      SetLength(|body|);
      Store(body);
    }

    /** operator=(const char*): the previous buffer of a long string is released, then the text is stored as the constructor does. */
    method AssignCString(str: seq<bv8>)
      requires Valid() && NoNul(str) && |str| < LONG_LENGTH_LIMIT
      modifies Repr
      ensures Valid() && Text() == str && fresh(Repr - {this, sso})
      ensures IsSmallString() <==> |str| <= MAX_SMALL_SSTRING_LENGTH
      ensures !old(IsSmallString()) ==> old(data) !in Repr
    {
      SetLength(|str|);
      Store(str);
    }

    /** operator=(const SString&): as operator=(const char*), with the other string's text. */
    method Assign(other: SString)
      requires Valid() && other.Valid() && other != this && Repr !! other.Repr
      modifies Repr
      ensures Valid() && Text() == other.Text() && fresh(Repr - {this, sso})
      ensures IsSmallString() == other.IsSmallString()
      ensures !old(IsSmallString()) ==> old(data) !in Repr
    {
      var text := other.CStr();
      var body := text[..|text| - 1];
      assert body == other.Text();
      other.SmallExactlyWhenShort();
      SetLength(|body|);
      Store(body);
    }

    /** Concatenate: a new string holding the text of `left` followed by that of `right`. */
    static method Concatenate(left: SString, right: SString) returns (str: SString)
      requires left.Valid() && right.Valid() && left.Length() + right.Length() < LONG_LENGTH_LIMIT
      ensures str.Valid() && fresh(str.Repr)
      ensures str.Text() == left.Text() + right.Text()
      ensures str.IsSmallString() <==> |str.Text()| <= MAX_SMALL_SSTRING_LENGTH
    {
      var str1Data, str2Data := left.CStr(), right.CStr();
      str := ConcatenateCStrings(str1Data, str2Data);
    }

    /**
     * The body of Concatenate once both C strings are read.  A small result
     * copies GetSmallStringLength() bytes of the left operand, which is then
     * small too, so that is its length.
     */
    static method ConcatenateCStrings(str1Data: seq<bv8>, str2Data: seq<bv8>) returns (str: SString)
      requires |str1Data| > 0 && str1Data[|str1Data| - 1] == 0 && NoNul(str1Data[..|str1Data| - 1])
      requires |str2Data| > 0 && str2Data[|str2Data| - 1] == 0 && NoNul(str2Data[..|str2Data| - 1])
      requires |str1Data| + |str2Data| - 2 < LONG_LENGTH_LIMIT
      ensures str.Valid() && fresh(str.Repr)
      ensures str.Text() == str1Data[..|str1Data| - 1] + str2Data[..|str2Data| - 1]
      ensures str.IsSmallString() <==> |str.Text()| <= MAX_SMALL_SSTRING_LENGTH
    {
      var length1 := |str1Data| - 1;
      var slen := length1 + |str2Data| - 1;
      var text1 := str1Data[..length1];
      ghost var text := text1 + str2Data[..|str2Data| - 1];
      NoNulConcat(text1, str2Data[..|str2Data| - 1]);
      str := new SString();
      assert str.Repr == {str, str.sso};
      str.SetLength(slen);
      if str.IsSmallString() {
        str.StoreJoinedSmall(text1, str2Data);
      } else {
        str.StoreJoinedLong(text1, str2Data);
      }
    }

    /** The in-place branch of Concatenate: the two texts copied one after the other, the second with its terminator. */
    method StoreJoinedSmall(e1: seq<bv8>, e2: seq<bv8>)
      requires sso.Length == 16 && Repr == {this, sso} && |e2| > 0 && e2[|e2| - 1] == 0 && NoNul(e1 + e2[..|e2| - 1])
      requires |e1| + |e2| - 1 <= MAX_SMALL_SSTRING_LENGTH && sso[15] == SmallFlags(|e1| + |e2| - 1)
      modifies sso
      ensures Valid() && Repr == {this, sso} && IsSmallString() && Text() == e1 + e2[..|e2| - 1]
    {
      ghost var text := e1 + e2[..|e2| - 1];
      assert e1 + e2 == text + [0];
      ghost var before := sso[..];
      WriteAfterFlags(before, text);
      MemCopyPair(sso, 0, e1, e2);
      assert sso[..] == Splice(before, 0, text + [0]);
      SmallIsValid();
    }

    /** The heap branch of Concatenate: a fresh buffer of exactly the length plus one holding both texts. */
    method StoreJoinedLong(e1: seq<bv8>, e2: seq<bv8>)
      requires sso.Length == 16 && |e2| > 0 && e2[|e2| - 1] == 0 && NoNul(e1 + e2[..|e2| - 1])
      requires !IsSmallFlags(sso[15]) && LongLengthOf(sso[..]) == |e1| + |e2| - 1 > MAX_SMALL_SSTRING_LENGTH
      modifies this
      ensures Valid() && fresh(data) && Repr == {this, sso, data} && !IsSmallString()
      ensures Text() == e1 + e2[..|e2| - 1]
    {
      ghost var text := e1 + e2[..|e2| - 1];
      assert e1 + e2 == text + [0];
      var newData := NewJoined(e1, e2);
      data := newData;
      Repr := {this, sso, newData};
      assert data[..|text|] == text;
      LongIsValid();
    }

    /**
     * Append(const char*): a combined length of at most 15 stays in place;
     * a longer one always moves to a fresh buffer of exactly that length
     * plus one, releasing the old buffer of a long string.
     */
    method AppendCString(str: seq<bv8>)
      requires Valid() && NoNul(str) && Length() + |str| < LONG_LENGTH_LIMIT
      modifies Repr
      ensures Valid() && Text() == old(Text()) + str && fresh(Repr - old(Repr))
      ensures IsSmallString() <==> old(Length()) + |str| <= MAX_SMALL_SSTRING_LENGTH
      ensures !IsSmallString() ==> fresh(data)
    {
      assert (str + [0])[..|str|] == str;
      AppendTerminated(str + [0]);
    }

    /**
     * Append(const SString&): as Append(const char*).  The small path copies
     * from the other string's `sso_chars`, which is where CStr() points for a
     * string that short.  A string may be appended to itself when the result
     * is longer than 15 bytes, since both copies read the old buffer before
     * it is freed; on the inline path that copy would overlap.
     */
    method AppendString(other: SString)
      requires Valid() && other.Valid() && (other == this || Repr !! other.Repr)
      requires other != this || Length() + other.Length() > MAX_SMALL_SSTRING_LENGTH
      requires Length() + other.Length() < LONG_LENGTH_LIMIT
      modifies Repr
      ensures Valid() && Text() == old(Text()) + old(other.Text()) && fresh(Repr - old(Repr))
      ensures IsSmallString() <==> old(Length()) + old(other.Length()) <= MAX_SMALL_SSTRING_LENGTH
      ensures !IsSmallString() ==> fresh(data)
    {
      var src := other.CStr();
      assert src[..|src| - 1] == other.Text();
      AppendTerminated(src);
    }

    /** The body of both Appends, given the appended bytes with their terminator. */
    method AppendTerminated(src: seq<bv8>)
      requires Valid() && |src| > 0 && src[|src| - 1] == 0 && NoNul(src[..|src| - 1])
      requires Length() + |src| - 1 < LONG_LENGTH_LIMIT
      modifies Repr
      ensures Valid() && Text() == old(Text()) + src[..|src| - 1] && fresh(Repr - old(Repr))
      ensures IsSmallString() <==> old(Length()) + |src| - 1 <= MAX_SMALL_SSTRING_LENGTH
      ensures !IsSmallString() ==> fresh(data)
    {
      var slen := |src| - 1;
      var currentlen := Length();
      if slen + currentlen <= MAX_SMALL_SSTRING_LENGTH {
        AppendInPlace(src);
      } else {
        AppendToNewBuffer(src);
      }
    }

    /** Append's small path: the bytes and their terminator go in place after the text, then SetSmallLength records the sum. */
    method AppendInPlace(src: seq<bv8>)
      requires Valid() && |src| > 0 && src[|src| - 1] == 0 && NoNul(src[..|src| - 1])
      requires Length() + |src| - 1 <= MAX_SMALL_SSTRING_LENGTH
      modifies sso
      ensures Valid() && IsSmallString() && Text() == old(Text()) + src[..|src| - 1]
    {
      SmallExactlyWhenShort();
      var currentlen := GetSmallStringLength();
      ghost var before := sso[..];
      WriteBeforeFlags(before, currentlen, src);
      WriteThenSetSmallLength(sso, currentlen, src);
      SmallIsValid();
    }

    /** Append's long path: both texts are copied into a fresh buffer, which replaces the old one, and SetLongLength records the sum. */
    method AppendToNewBuffer(src: seq<bv8>)
      requires Valid() && |src| > 0 && src[|src| - 1] == 0 && NoNul(src[..|src| - 1])
      requires MAX_SMALL_SSTRING_LENGTH < Length() + |src| - 1 < LONG_LENGTH_LIMIT
      modifies this, sso
      ensures Valid() && !IsSmallString() && fresh(data) && Repr == {this, sso, data}
      ensures Text() == old(Text()) + src[..|src| - 1]
    {
      ghost var otherText := src[..|src| - 1];
      var currentlen := Length();
      var sum := currentlen + |src| - 1;
      var cur := CStr();
      assert cur[..currentlen] == old(Text());
      NoNulConcat(old(Text()), otherText);
      var newData := NewJoined(cur[..currentlen], src);
      assert newData[..sum] == old(Text()) + otherText;
      data := newData;
      SetLongLengthOf(sso, sum);
      Repr := {this, sso, newData};
      LongIsValid();
    }

    /** operator==(const char*): strcmp of the two C strings is zero, which is exactly when the texts are equal. */
    function EqualsCString(str: seq<bv8>): (r: bool)
      reads Repr
      requires Valid() && NoNul(str)
      ensures r <==> Text() == str
    {
      StrcmpZeroIff(Text(), str);
      Strcmp(Text(), str) == 0
    }

    /** operator==(const SString&): false when the lengths differ, otherwise strcmp of the two C strings is zero. */
    function Equals(other: SString): (r: bool)
      reads Repr, other.Repr
      requires Valid() && other.Valid()
      ensures r <==> Text() == other.Text()
    {
      if Length() != other.Length() then false
      else
        StrcmpZeroIff(Text(), other.Text());
        Strcmp(Text(), other.Text()) == 0
    }
  }
}
