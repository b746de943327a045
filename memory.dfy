/**
 * The C library routines the string types rely on (memcpy, strlen, strcmp),
 * stated over byte sequences.  A C string is modelled by the bytes before its
 * terminator, so `strlen(s)` is `|s|` and the terminator is the implicit byte
 * after the end.
 */
module Memory {

  /** The bytes of a C string before its terminator contain no zero byte. */
  predicate NoNul(s: seq<bv8>)
  {
    forall k :: 0 <= k < |s| ==> s[k] != 0
  }

  /** `s` after `e` is written over it from position `off` on (the effect of memcpy on its destination). */
  function Splice<T>(s: seq<T>, off: nat, e: seq<T>): (r: seq<T>)
    requires off + |e| <= |s|
    ensures |r| == |s|
  {
    s[..off] + e + s[off + |e|..]
  }

  /** What each position of a splice holds. */
  lemma SpliceElements<T>(s: seq<T>, off: nat, e: seq<T>)
    requires off + |e| <= |s|
    ensures forall k :: 0 <= k < |s| ==> Splice(s, off, e)[k] == if off <= k < off + |e| then e[k - off] else s[k]
  {
  }

  /** memcpy(&dst[off], src, |src|): copies element by element, touching nothing outside the target range. */
  method MemCopy<T>(dst: array<T>, off: nat, src: seq<T>)
    requires off + |src| <= dst.Length
    modifies dst
    ensures dst[..] == Splice(old(dst[..]), off, src)
  {
    var i := 0;
    while i < |src|
      invariant 0 <= i <= |src|
      invariant forall k :: 0 <= k < dst.Length ==> dst[k] == if off <= k < off + i then src[k - off] else old(dst[k])
    {
      dst[off + i] := src[i];
      i := i + 1;
    }
    ghost var want := Splice(old(dst[..]), off, src);
    SpliceElements(old(dst[..]), off, src);
    assert forall k :: 0 <= k < dst.Length ==> dst[..][k] == want[k];
  }

  /** Two copies to adjacent ranges are one copy of the concatenation. */
  lemma SpliceAdjacent<T>(s: seq<T>, off: nat, e1: seq<T>, e2: seq<T>)
    requires off + |e1| + |e2| <= |s|
    ensures Splice(Splice(s, off, e1), off + |e1|, e2) == Splice(s, off, e1 + e2)
  {
    var l, r := Splice(Splice(s, off, e1), off + |e1|, e2), Splice(s, off, e1 + e2);
    SpliceElements(s, off, e1);
    SpliceElements(Splice(s, off, e1), off + |e1|, e2);
    SpliceElements(s, off, e1 + e2);
    assert forall k :: 0 <= k < |s| ==> l[k] == r[k];
  }

  /** Two memcpy calls to adjacent ranges of one destination: the second range starts where the first ends. */
  method MemCopyPair<T>(dst: array<T>, off: nat, e1: seq<T>, e2: seq<T>)
    requires off + |e1| + |e2| <= dst.Length
    modifies dst
    ensures dst[..] == Splice(old(dst[..]), off, e1 + e2)
  {
    SpliceAdjacent(dst[..], off, e1, e2);
    MemCopy(dst, off, e1);
    MemCopy(dst, off + |e1|, e2);
  }

  /** new char[|e1| + |e2|] followed by memcpy of `e1` and then of `e2` after it. */
  method NewJoined(e1: seq<bv8>, e2: seq<bv8>) returns (buf: array<bv8>)
    ensures fresh(buf) && buf[..] == e1 + e2
  {
    buf := new bv8[|e1| + |e2|];
    SpliceWhole(buf[..], e1 + e2);
    MemCopyPair(buf, 0, e1, e2);
  }

  /** A copy that covers the whole destination replaces it. */
  lemma SpliceWhole<T>(s: seq<T>, e: seq<T>)
    requires |e| == |s|
    ensures Splice(s, 0, e) == e
  {
    assert s[..0] + e + s[|e|..] == e;
  }

  /** Copying a C string with its terminator to position `at`: what precedes it is kept, and it ends in a zero byte. */
  lemma SpliceCString(s: seq<bv8>, at: nat, text: seq<bv8>)
    requires at + |text| < |s|
    ensures Splice(s, at, text + [0])[..at + |text|] == s[..at] + text
    ensures Splice(s, at, text + [0])[at + |text|] == 0
  {
    var w := Splice(s, at, text + [0]);
    SpliceElements(s, at, text + [0]);
    assert forall k :: 0 <= k < at + |text| ==> w[..at + |text|][k] == (s[..at] + text)[k];
  }

  /** Joining two C strings that hold no zero byte gives one that holds none. */
  lemma NoNulConcat(a: seq<bv8>, b: seq<bv8>)
    requires NoNul(a) && NoNul(b)
    ensures NoNul(a + b)
  {
    assert forall k :: 0 <= k < |a + b| ==> (a + b)[k] == if k < |a| then a[k] else b[k - |a|];
  }

  /**
   * The byte that holds a number below 256 (a conversion to unsigned char);
   * counted up from zero so that its value reads back.
   */
  function ByteOf(m: nat): bv8
    requires m < 256
  {
    if m == 0 then 0 else ByteOf(m - 1) + 1
  }

  /** A number below 256 keeps its value as a byte. */
  lemma {:induction false} ByteValue(m: nat)
    requires m < 256
    ensures ByteOf(m) as nat == m
  {
    if m > 0 {
      ByteValue(m - 1);
      ByteSucc(ByteOf(m - 1));
    }
  }

  /** Adding one to a byte below 255 adds one to its value. */
  lemma ByteSucc(x: bv8)
    requires x as nat < 255
    ensures (x + 1) as nat == x as nat + 1
  {
  }

  /** The byte a C string holds at position `k`: past its text, the terminator reads as zero. */
  function ByteAt(s: seq<bv8>, k: nat): bv8
  {
    if k < |s| then s[k] else 0
  }

  /**
   * strcmp: compares the two C strings byte by byte as unsigned characters and
   * returns the difference of the first pair that differs, or zero when both
   * end together.
   */
  function Strcmp(a: seq<bv8>, b: seq<bv8>): int
    decreases |a|
  {
    var x, y := ByteAt(a, 0), ByteAt(b, 0);
    if x != y then x as int - y as int
    else if x == 0 then 0
    else Strcmp(a[1..], b[1..])
  }

  /** strcmp reports zero exactly when the two C strings have the same text. */
  lemma {:induction false} StrcmpZeroIff(a: seq<bv8>, b: seq<bv8>)
    requires NoNul(a) && NoNul(b)
    ensures Strcmp(a, b) == 0 <==> a == b
    decreases |a|
  {
    if a != [] && b != [] && a[0] == b[0] {
      assert NoNul(a[1..]) && NoNul(b[1..]);
      StrcmpZeroIff(a[1..], b[1..]);
      assert a == [a[0]] + a[1..] && b == [b[0]] + b[1..];
    } else if a != [] && b != [] {
      assert a[0] != b[0];
    } else if a != [] {
      assert a[0] != 0;
    } else if b != [] {
      assert b[0] != 0;
    }
  }
}
