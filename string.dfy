/**
 * The 32-byte `String` of string/String.h and string/String.cpp.  A string
 * of at most 31 bytes is stored in place ("small"); a longer one lives in a
 * heap buffer ("long").  Byte 31 of the object is the flags byte: its low
 * five bits hold 31 minus the small length, bit 5 marks a long string, and
 * the top two bits are left as they were.  When a small string is 31 bytes
 * long, the flags byte is zero and doubles as its terminator.
 */
module Strings {
  import opened Memory
  import DynamicArray

  const MAX_SMALL_STRING_LENGTH: nat := 31

  /** Bit 5 of the flags byte marks a long string. */
  predicate IsLongFlags(flags: bv8)
  {
    flags & 32 != 0
  }

  /** SmallStringLength: 31 minus the low five bits of the flags byte. */
  function SmallLengthOf(flags: bv8): (n: nat)
    ensures n <= MAX_SMALL_STRING_LENGTH
  {
    31 - (flags & 31) as int
  }

  /** SetIsSmallString: clears the long bit and keeps every other bit of the flags byte. */
  function ClearLongBit(flags: bv8): (r: bv8)
    ensures !IsLongFlags(r) && r & 0xDF == flags & 0xDF
  {
    flags & 223
  }

  /** SetIsLongString: sets the long bit and keeps every other bit, so the small length reads as before. */
  function SetLongBit(flags: bv8): (r: bv8)
    ensures IsLongFlags(r) && r & 0xDF == flags & 0xDF
    ensures SmallLengthOf(r) == SmallLengthOf(flags)
  {
    flags | 32
  }

  /**
   * SetLengthSmall: the flags byte recording small length `n`.  The long bit
   * comes out clear and the top two bits are carried over.
   */
  function WithSmallLength(flags: bv8, n: nat): (r: bv8)
    requires n <= MAX_SMALL_STRING_LENGTH
    ensures SmallLengthOf(r) == n && !IsLongFlags(r) && r & 192 == flags & 192
  {
    ByteValue(31 - n);
    LowBitsWithTop(ByteOf(31 - n), flags);
    ByteOf(31 - n) + (flags & 192)
  }

  /** A number below 32 added to the top two bits of a byte stays in the low five bits and leaves the rest to the top. */
  lemma LowBitsWithTop(x: bv8, flags: bv8)
    requires x as nat < 32
    ensures (x + (flags & 192)) & 31 == x && (x + (flags & 192)) & 32 == 0
    ensures (x + (flags & 192)) & 192 == flags & 192
  {
    assert x < 32;
  }

  /** A flags byte of a 31-byte small string is a terminator exactly when its top two bits are clear. */
  lemma FullSmallFlagsAreTerminator(flags: bv8)
    ensures WithSmallLength(flags, 31) == 0 <==> flags & 192 == 0
  {
  }

  /** Substring's result: the bytes from `start` up to `end`, or nothing when either bound is past the length. */
  function SubstringText(s: seq<bv8>, start: nat, end: nat): (r: seq<bv8>)
    requires start <= |s| && end <= |s| ==> start <= end
    ensures start <= |s| && end <= |s| ==> |r| == end - start && forall k :: 0 <= k < |r| ==> r[k] == s[start + k]
    ensures start > |s| || end > |s| ==> r == []
  {
    if start > |s| || end > |s| then [] else s[start..end]
  }

  /** Adjacent substrings concatenate to the substring that spans both. */
  lemma SubstringConcat(s: seq<bv8>, a: nat, b: nat, c: nat)
    requires a <= b <= c <= |s|
    ensures SubstringText(s, a, b) + SubstringText(s, b, c) == SubstringText(s, a, c)
  {
    assert s[a..b] + s[b..c] == s[a..c];
  }

  // ---------------------------------------------------------------------------
  // Splitting.  A split is described by the positions where separators start
  // ("cuts") and the separator width; the parts are the pieces in between.

  /** `cuts` are increasing separator starts of width `w`, each at or after `first` and inside `s`. */
  predicate CutsFrom(s: seq<bv8>, first: nat, cuts: seq<nat>, w: nat)
    decreases |cuts|
  {
    if cuts == [] then first <= |s|
    else first <= cuts[0] && cuts[0] + w <= |s| && CutsFrom(s, cuts[0] + w, cuts[1..], w)
  }

  /** The parts of `s[first..]` between the cuts. */
  function Segments(s: seq<bv8>, first: nat, cuts: seq<nat>, w: nat): (parts: seq<seq<bv8>>)
    requires CutsFrom(s, first, cuts, w)
    ensures |parts| == |cuts| + 1
    decreases |cuts|
  {
    if cuts == [] then [s[first..]]
    else [s[first..cuts[0]]] + Segments(s, cuts[0] + w, cuts[1..], w)
  }

  /** The parts joined back together with `sep` between neighbours. */
  function Join(parts: seq<seq<bv8>>, sep: seq<bv8>): seq<bv8>
    decreases |parts|
  {
    if parts == [] then []
    else if |parts| == 1 then parts[0]
    else parts[0] + sep + Join(parts[1..], sep)
  }

  /** `sep` occurs in `t` starting at position `p`. */
  predicate OccursAt(t: seq<bv8>, sep: seq<bv8>, p: nat)
  {
    p + |sep| <= |t| && t[p..p + |sep|] == sep
  }

  /** Every cut is the start of an occurrence of `sep`. */
  predicate CutsAreSeparators(s: seq<bv8>, cuts: seq<nat>, sep: seq<bv8>)
  {
    forall k :: 0 <= k < |cuts| ==> OccursAt(s, sep, cuts[k])
  }

  /** Parts split at occurrences of `sep` join back, with `sep`, into the text they came from. */
  lemma {:induction false} JoinSegments(s: seq<bv8>, first: nat, cuts: seq<nat>, sep: seq<bv8>)
    requires CutsFrom(s, first, cuts, |sep|) && CutsAreSeparators(s, cuts, sep)
    ensures Join(Segments(s, first, cuts, |sep|), sep) == s[first..]
    decreases |cuts|
  {
    if cuts != [] {
      var c := cuts[0];
      LaterSeparators(s, cuts, sep);
      JoinSegments(s, c + |sep|, cuts[1..], sep);
      var parts, rest := Segments(s, first, cuts, |sep|), Segments(s, c + |sep|, cuts[1..], |sep|);
      assert parts == [s[first..c]] + rest;
      JoinFront(s[first..c], rest, sep);
      SliceAroundSeparator(s, first, c, sep);
      calc {
        Join(parts, sep);
        s[first..c] + sep + Join(rest, sep);
        s[first..c] + sep + s[c + |sep|..];
        s[first..];
      }
    } else {
      assert Segments(s, first, cuts, |sep|) == [s[first..]];
    }
  }

  /** The cuts after the first are separator starts too, and so is the first. */
  lemma LaterSeparators(s: seq<bv8>, cuts: seq<nat>, sep: seq<bv8>)
    requires cuts != [] && CutsAreSeparators(s, cuts, sep)
    ensures OccursAt(s, sep, cuts[0]) && CutsAreSeparators(s, cuts[1..], sep)
  {
    forall k | 0 <= k < |cuts[1..]| ensures OccursAt(s, sep, cuts[1..][k]) {
      assert cuts[1..][k] == cuts[k + 1];
    }
  }

  /** Joining a part in front of at least one more puts the separator between them. */
  lemma JoinFront(a: seq<bv8>, rest: seq<seq<bv8>>, sep: seq<bv8>)
    requires rest != []
    ensures Join([a] + rest, sep) == a + sep + Join(rest, sep)
  {
    assert ([a] + rest)[1..] == rest;
  }

  /** The text from `first` on is the part before a separator at `c`, the separator and what follows it. */
  lemma SliceAroundSeparator(s: seq<bv8>, first: nat, c: nat, sep: seq<bv8>)
    requires first <= c && OccursAt(s, sep, c)
    ensures s[first..] == s[first..c] + sep + s[c + |sep|..]
  {
    assert s[first..] == s[first..c] + s[c..c + |sep|] + s[c + |sep|..];
  }

  /**
   * The cuts Split(char) makes, as written: every position holding `c`,
   * except that the position right after a cut is never examined.
   */
  function CharCuts(s: seq<bv8>, c: bv8, i: nat): seq<nat>
    decreases |s| - i
  {
    if i >= |s| then []
    else if s[i] == c then [i] + CharCuts(s, c, i + 2)
    else CharCuts(s, c, i + 1)
  }

  /** Cuts Split(char) makes lie at occurrences of the separator, from `i` on, in order. */
  lemma {:induction false} CharCutsValid(s: seq<bv8>, c: bv8, first: nat, i: nat)
    requires first <= i && first <= |s|
    ensures CutsFrom(s, first, CharCuts(s, c, i), 1) && CutsAreSeparators(s, CharCuts(s, c, i), [c])
    decreases |s| - i
  {
    if i < |s| {
      if s[i] == c {
        CharCutsValid(s, c, i + 1, i + 2);
        var rest := CharCuts(s, c, i + 2);
        assert CharCuts(s, c, i) == [i] + rest;
        assert ([i] + rest)[1..] == rest;
        assert s[i..i + 1] == [c];
        forall k | 0 <= k < |[i] + rest| ensures OccursAt(s, [c], ([i] + rest)[k]) {
          if k > 0 {
            assert ([i] + rest)[k] == rest[k - 1];
          }
        }
      } else {
        CharCutsValid(s, c, first, i + 1);
      }
    }
  }

  /** The parts Split(char) produces, as written. */
  function CharSplitAsWritten(s: seq<bv8>, c: bv8): seq<seq<bv8>>
  {
    CharCutsValid(s, c, 0, 0);
    Segments(s, 0, CharCuts(s, c, 0), 1)
  }

  /** Joining the parts of Split(char), as written, with the separator gives back the text. */
  lemma SplitCharRoundTrip(s: seq<bv8>, c: bv8)
    ensures Join(CharSplitAsWritten(s, c), [c]) == s
  {
    CharCutsValid(s, c, 0, 0);
    JoinSegments(s, 0, CharCuts(s, c, 0), [c]);
  }

  /** A scan from `i` over bytes none of which is the separator makes no cut. */
  lemma {:induction false} CharCutsAbsent(s: seq<bv8>, c: bv8, i: nat)
    requires forall p :: i <= p < |s| ==> s[p] != c
    ensures CharCuts(s, c, i) == []
    decreases |s| - i
  {
    if i < |s| {
      CharCutsAbsent(s, c, i + 1);
    }
  }

  /** Split(char) of a text without the separator gives the whole text as the one part. */
  lemma SplitCharAbsent(s: seq<bv8>, c: bv8)
    requires c !in s
    ensures CharSplitAsWritten(s, c) == [s]
  {
    CharCutsAbsent(s, c, 0);
    assert s[0..] == s;
  }

  /** The cuts of the intended split: every position holding `c`. */
  function AllCuts(s: seq<bv8>, c: bv8, i: nat): seq<nat>
    decreases |s| - i
  {
    if i >= |s| then []
    else if s[i] == c then [i] + AllCuts(s, c, i + 1)
    else AllCuts(s, c, i + 1)
  }

  lemma {:induction false} AllCutsValid(s: seq<bv8>, c: bv8, first: nat, i: nat)
    requires first <= i <= |s|
    ensures CutsFrom(s, first, AllCuts(s, c, i), 1) && CutsAreSeparators(s, AllCuts(s, c, i), [c])
    ensures |AllCuts(s, c, i)| == DynamicArray.Count(s[i..], c)
    decreases |s| - i
  {
    if i < |s| {
      var rest := AllCuts(s, c, i + 1);
      if s[i] == c {
        AllCutsValid(s, c, i + 1, i + 1);
        assert ([i] + rest)[1..] == rest;
        assert s[i..i + 1] == [c];
        forall k | 0 <= k < |[i] + rest| ensures OccursAt(s, [c], ([i] + rest)[k]) {
          if k > 0 {
            assert ([i] + rest)[k] == rest[k - 1];
          }
        }
      } else {
        AllCutsValid(s, c, first, i + 1);
      }
      CountFront(s[i..], c);
      assert s[i..][1..] == s[i + 1..];
    }
  }

  /** Counting from the front: the first element adds one exactly when it is `v`. */
  lemma {:induction false} CountFront(s: seq<bv8>, v: bv8)
    requires s != []
    ensures DynamicArray.Count(s, v) == DynamicArray.Count(s[1..], v) + (if s[0] == v then 1 else 0)
    decreases |s|
  {
    DynamicArray.CountIsMultiplicity(s, v);
    DynamicArray.CountIsMultiplicity(s[1..], v);
    assert s == [s[0]] + s[1..];
  }

  /** No part between consecutive cuts of the intended split holds the separator. */
  lemma {:induction false} AllCutsPartsClean(s: seq<bv8>, c: bv8, first: nat, i: nat)
    requires first <= i <= |s|
    requires forall p :: first <= p < i ==> s[p] != c
    ensures CutsFrom(s, first, AllCuts(s, c, i), 1)
    ensures forall k :: 0 <= k < |Segments(s, first, AllCuts(s, c, i), 1)| ==> c !in Segments(s, first, AllCuts(s, c, i), 1)[k]
    decreases |s| - i
  {
    AllCutsValid(s, c, first, i);
    if i < |s| {
      if s[i] == c {
        AllCutsPartsClean(s, c, i + 1, i + 1);
        assert AllCuts(s, c, i) == [i] + AllCuts(s, c, i + 1);
        var parts := Segments(s, first, AllCuts(s, c, i), 1);
        forall k | 0 <= k < |parts| ensures c !in parts[k] {
          if k == 0 {
            assert parts[0] == s[first..i];
          } else {
            assert parts[k] == Segments(s, i + 1, AllCuts(s, c, i + 1), 1)[k - 1];
          }
        }
      } else {
        AllCutsPartsClean(s, c, first, i + 1);
      }
    }
  }

  /** The intended Split(char): a cut at every occurrence of `c`, so consecutive separators give an empty part. */
  function SplitAll(s: seq<bv8>, c: bv8): (parts: seq<seq<bv8>>)
    ensures |parts| == DynamicArray.Count(s, c) + 1
    ensures forall k :: 0 <= k < |parts| ==> c !in parts[k]
    ensures Join(parts, [c]) == s
  {
    AllCutsValid(s, c, 0, 0);
    AllCutsPartsClean(s, c, 0, 0);
    JoinSegments(s, 0, AllCuts(s, c, 0), [c]);
    assert s[0..] == s;
    Segments(s, 0, AllCuts(s, c, 0), 1)
  }

  /** "a,,b" split at ',' gives "a" and ",b" as written, where "a", "" and "b" were meant. */
  lemma SplitCharSkipsAfterMatch()
    ensures CharSplitAsWritten([97, 44, 44, 98], 44) == [[97], [44, 98]]
    ensures SplitAll([97, 44, 44, 98], 44) == [[97], [], [98]]
  {
    var s: seq<bv8> := [97, 44, 44, 98];
    assert CharCuts(s, 44, 3) == [];
    assert CharCuts(s, 44, 0) == [1];
    CharCutsValid(s, 44, 0, 0);
    assert Segments(s, 0, [1], 1) == [s[0..1]] + Segments(s, 2, [], 1);
    assert s[0..1] == [97] && s[2..] == [44, 98];
    assert AllCuts(s, 44, 3) == [] && AllCuts(s, 44, 2) == [2];
    assert AllCuts(s, 44, 0) == [1, 2];
    AllCutsValid(s, 44, 0, 0);
    assert [1, 2][1..] == [2] && [2][1..] == [];
    assert Segments(s, 0, [1, 2], 1) == [s[0..1]] + Segments(s, 2, [2], 1);
    assert Segments(s, 2, [2], 1) == [s[2..2]] + Segments(s, 3, [], 1);
    assert s[3..] == [98];
  }

  /**
   * The cuts Split(String) makes, as written: a position is examined only
   * when the separator would end strictly before the end of the text, and
   * the position right after a separator is skipped.
   */
  function StrCuts(s: seq<bv8>, sep: seq<bv8>, i: nat): seq<nat>
    decreases |s| - i
  {
    if i + |sep| >= |s| then []
    else if s[i..i + |sep|] == sep then [i] + StrCuts(s, sep, i + |sep| + 1)
    else StrCuts(s, sep, i + 1)
  }

  lemma {:induction false} StrCutsValid(s: seq<bv8>, sep: seq<bv8>, first: nat, i: nat)
    requires first <= i && first <= |s|
    ensures CutsFrom(s, first, StrCuts(s, sep, i), |sep|) && CutsAreSeparators(s, StrCuts(s, sep, i), sep)
    decreases |s| - i
  {
    if i + |sep| < |s| {
      if s[i..i + |sep|] == sep {
        StrCutsValid(s, sep, i + |sep|, i + |sep| + 1);
        var rest := StrCuts(s, sep, i + |sep| + 1);
        assert ([i] + rest)[1..] == rest;
        forall k | 0 <= k < |[i] + rest| ensures OccursAt(s, sep, ([i] + rest)[k]) {
          if k > 0 {
            assert ([i] + rest)[k] == rest[k - 1];
          }
        }
      } else {
        StrCutsValid(s, sep, first, i + 1);
      }
    }
  }

  /** The parts Split(String) produces, as written. */
  function StrSplitAsWritten(s: seq<bv8>, sep: seq<bv8>): seq<seq<bv8>>
  {
    StrCutsValid(s, sep, 0, 0);
    Segments(s, 0, StrCuts(s, sep, 0), |sep|)
  }

  /** Joining the parts of Split(String), as written, with the separator gives back the text. */
  lemma SplitStringRoundTrip(s: seq<bv8>, sep: seq<bv8>)
    ensures Join(StrSplitAsWritten(s, sep), sep) == s
  {
    StrCutsValid(s, sep, 0, 0);
    JoinSegments(s, 0, StrCuts(s, sep, 0), sep);
  }

  /** The cuts of the intended split: leftmost non-overlapping occurrences of `sep`, up to the very end. */
  function GreedyCuts(s: seq<bv8>, sep: seq<bv8>, i: nat): seq<nat>
    requires |sep| > 0
    decreases |s| - i
  {
    if i + |sep| > |s| then []
    else if s[i..i + |sep|] == sep then [i] + GreedyCuts(s, sep, i + |sep|)
    else GreedyCuts(s, sep, i + 1)
  }

  lemma {:induction false} GreedyCutsValid(s: seq<bv8>, sep: seq<bv8>, first: nat, i: nat)
    requires |sep| > 0 && first <= i && first <= |s|
    ensures CutsFrom(s, first, GreedyCuts(s, sep, i), |sep|) && CutsAreSeparators(s, GreedyCuts(s, sep, i), sep)
    decreases |s| - i
  {
    if i + |sep| <= |s| {
      if s[i..i + |sep|] == sep {
        GreedyCutsValid(s, sep, i + |sep|, i + |sep|);
        var rest := GreedyCuts(s, sep, i + |sep|);
        assert ([i] + rest)[1..] == rest;
        forall k | 0 <= k < |[i] + rest| ensures OccursAt(s, sep, ([i] + rest)[k]) {
          if k > 0 {
            assert ([i] + rest)[k] == rest[k - 1];
          }
        }
      } else {
        GreedyCutsValid(s, sep, first, i + 1);
      }
    }
  }

  /** A separator occurrence inside `s[first..end]` is one in `s` at the shifted position. */
  lemma OccursInSlice(s: seq<bv8>, sep: seq<bv8>, first: nat, end: nat, p: nat)
    requires first <= end <= |s| && OccursAt(s[first..end], sep, p)
    ensures first + p + |sep| <= end && OccursAt(s, sep, first + p)
  {
    var t := s[first..end];
    assert t[p..p + |sep|] == sep;
    forall j | 0 <= j < |sep| ensures s[first + p + j] == sep[j] {
      assert t[p..p + |sep|][j] == t[p + j] == s[first + p + j];
    }
    assert s[first + p..first + p + |sep|] == sep;
  }

  /** No part of `parts` holds the separator. */
  ghost predicate PartsClean(parts: seq<seq<bv8>>, sep: seq<bv8>)
  {
    forall k, p :: 0 <= k < |parts| ==> !OccursAt(parts[k], sep, p)
  }

  /** No part of the intended split holds the separator. */
  lemma {:induction false} GreedyPartsClean(s: seq<bv8>, sep: seq<bv8>, first: nat, i: nat)
    requires |sep| > 0 && first <= i && first <= |s|
    requires forall p :: first <= p < i ==> !OccursAt(s, sep, p)
    ensures CutsFrom(s, first, GreedyCuts(s, sep, i), |sep|)
    ensures PartsClean(Segments(s, first, GreedyCuts(s, sep, i), |sep|), sep)
    decreases |s| - i
  {
    GreedyCutsValid(s, sep, first, i);
    if i + |sep| > |s| {
      GreedyLastClean(s, sep, first, i);
    } else if s[i..i + |sep|] == sep {
      GreedyPartsClean(s, sep, i + |sep|, i + |sep|);
      GreedyMatchClean(s, sep, first, i);
    } else {
      GreedyPartsClean(s, sep, first, i + 1);
    }
  }

  /** Past the last place the separator fits, the one remaining part is clean. */
  lemma GreedyLastClean(s: seq<bv8>, sep: seq<bv8>, first: nat, i: nat)
    requires |sep| > 0 && first <= i && first <= |s| && i + |sep| > |s|
    requires forall p :: first <= p < i ==> !OccursAt(s, sep, p)
    ensures PartsClean(Segments(s, first, GreedyCuts(s, sep, i), |sep|), sep)
  {
    assert GreedyCuts(s, sep, i) == [];
    var parts := Segments(s, first, [], |sep|);
    assert |parts| == 1 && parts[0] == s[first..] == s[first..|s|];
    forall k, p | 0 <= k < |parts| ensures !OccursAt(parts[k], sep, p) {
      if OccursAt(parts[k], sep, p) {
        OccursInSlice(s, sep, first, |s|, p);
      }
    }
  }

  /** A match at `i` closes a clean part, and the parts after it are clean. */
  lemma GreedyMatchClean(s: seq<bv8>, sep: seq<bv8>, first: nat, i: nat)
    requires |sep| > 0 && first <= i && i + |sep| <= |s| && s[i..i + |sep|] == sep
    requires forall p :: first <= p < i ==> !OccursAt(s, sep, p)
    requires CutsFrom(s, i + |sep|, GreedyCuts(s, sep, i + |sep|), |sep|)
    requires PartsClean(Segments(s, i + |sep|, GreedyCuts(s, sep, i + |sep|), |sep|), sep)
    ensures PartsClean(Segments(s, first, GreedyCuts(s, sep, i), |sep|), sep)
  {
    var parts := Segments(s, first, GreedyCuts(s, sep, i), |sep|);
    var rest := Segments(s, i + |sep|, GreedyCuts(s, sep, i + |sep|), |sep|);
    assert parts == [s[first..i]] + rest;
    forall k, p | 0 <= k < |parts| ensures !OccursAt(parts[k], sep, p) {
      if k == 0 {
        if OccursAt(parts[0], sep, p) {
          OccursInSlice(s, sep, first, i, p);
        }
      } else {
        assert parts[k] == rest[k - 1];
      }
    }
  }

  /** The intended Split(String) for a non-empty separator: cut at every leftmost occurrence. */
  function SplitOn(s: seq<bv8>, sep: seq<bv8>): (parts: seq<seq<bv8>>)
    requires |sep| > 0
    ensures PartsClean(parts, sep)
    ensures Join(parts, sep) == s
  {
    GreedyCutsValid(s, sep, 0, 0);
    GreedyPartsClean(s, sep, 0, 0);
    JoinSegments(s, 0, GreedyCuts(s, sep, 0), sep);
    assert s[0..] == s;
    Segments(s, 0, GreedyCuts(s, sep, 0), |sep|)
  }

  /** Separators well inside the text are found: "hello, there, up" split at ", " gives "hello", "there" and "up". */
  lemma SplitStringExample()
    ensures StrSplitAsWritten(Hello(), [44, 32]) == [[104, 101, 108, 108, 111], [116, 104, 101, 114, 101], [117, 112]]
  {
    var s, sep := Hello(), [44, 32];
    HelloCuts();
    StrCutsValid(s, sep, 0, 0);
    assert [5, 12][1..] == [12] && [12][1..] == [];
    assert Segments(s, 0, [5, 12], 2) == [s[0..5]] + Segments(s, 7, [12], 2);
    assert Segments(s, 7, [12], 2) == [s[7..12]] + Segments(s, 14, [], 2);
    assert s[0..5] == [104, 101, 108, 108, 111] && s[7..12] == [116, 104, 101, 114, 101] && s[14..] == [117, 112];
  }

  /** The scan of "hello, there, up" for ", " cuts at positions 5 and 12. */
  lemma HelloCuts()
    ensures StrCuts(Hello(), [44, 32], 0) == [5, 12]
  {
    var s, sep := Hello(), [44, 32];
    assert s[5..7] == sep && s[12..14] == sep;
    assert StrCuts(s, sep, 15) == [];
    assert StrCuts(s, sep, 12) == [12];
    assert s[11..13][0] != sep[0];
    assert StrCuts(s, sep, 11) == [12];
    assert StrCuts(s, sep, 10) == [12];
    assert StrCuts(s, sep, 9) == [12];
    assert StrCuts(s, sep, 8) == [12];
    assert StrCuts(s, sep, 5) == [5, 12];
    assert StrCuts(s, sep, 4) == [5, 12];
    assert StrCuts(s, sep, 3) == [5, 12];
    assert StrCuts(s, sep, 2) == [5, 12];
    assert StrCuts(s, sep, 1) == [5, 12];
  }

  /** The bytes of "hello, there, up". */
  function Hello(): (s: seq<bv8>)
    ensures |s| == 16
  {
    [104, 101, 108, 108, 111, 44, 32, 116, 104, 101, 114, 101, 44, 32, 117, 112]
  }

  /** As written, a separator that ends the text is not found: "a," split at "," gives "a,". */
  lemma SplitStringMissesFinalSeparator()
    ensures StrSplitAsWritten([97, 44], [44]) == [[97, 44]]
    ensures SplitOn([97, 44], [44]) == [[97], []]
  {
    var s1: seq<bv8> := [97, 44];
    assert s1[0..1] == [97] && s1[1..2] == [44];
    assert StrCuts(s1, [44], 1) == [];
    assert StrCuts(s1, [44], 0) == [];
    assert GreedyCuts(s1, [44], 2) == [];
    assert GreedyCuts(s1, [44], 1) == [1];
    assert GreedyCuts(s1, [44], 0) == [1];
    StrCutsValid(s1, [44], 0, 0);
    GreedyCutsValid(s1, [44], 0, 0);
    assert s1[0..] == s1 && s1[0..1] == [97] && s1[2..] == [];
    assert Segments(s1, 0, [1], 1) == [s1[0..1]] + Segments(s1, 2, [], 1);
  }

  /** As written, a separator that starts right after another is skipped: "ababx" split at "ab" gives "" and "abx". */
  lemma SplitStringSkipsAdjacentSeparator()
    ensures StrSplitAsWritten([97, 98, 97, 98, 120], [97, 98]) == [[], [97, 98, 120]]
    ensures SplitOn([97, 98, 97, 98, 120], [97, 98]) == [[], [], [120]]
  {
    var s2: seq<bv8> := [97, 98, 97, 98, 120];
    assert s2[0..2] == [97, 98] && s2[2..4] == [97, 98];
    assert StrCuts(s2, [97, 98], 3) == [];
    assert StrCuts(s2, [97, 98], 0) == [0];
    assert GreedyCuts(s2, [97, 98], 4) == [];
    assert GreedyCuts(s2, [97, 98], 2) == [2];
    assert GreedyCuts(s2, [97, 98], 0) == [0, 2];
    StrCutsValid(s2, [97, 98], 0, 0);
    GreedyCutsValid(s2, [97, 98], 0, 0);
    assert [0, 2][1..] == [2] && [2][1..] == [] && [0][1..] == [];
    assert Segments(s2, 0, [0], 2) == [s2[0..0]] + Segments(s2, 2, [], 2);
    assert Segments(s2, 0, [0, 2], 2) == [s2[0..0]] + Segments(s2, 2, [2], 2);
    assert Segments(s2, 2, [2], 2) == [s2[2..2]] + Segments(s2, 4, [], 2);
    assert s2[2..] == [97, 98, 120] && s2[4..] == [120];
  }

  /**
   * Whether AppendString moves a long result of `newSize` bytes to a new
   * buffer: when the string was small, or when the new size plus the
   * terminator passes the recorded capacity.
   */
  predicate AppendReallocates(small: bool, capacity: nat, newSize: nat)
  {
    small || newSize + 1 > capacity
  }

  /**
   * The capacity AppendString leaves a long result of `newSize` bytes with:
   * 1.5 times `newSize + 1` when it reallocates, the old capacity otherwise.
   */
  function AppendedCapacity(small: bool, capacity: nat, newSize: nat): (c: nat)
    ensures newSize < c
    ensures !AppendReallocates(small, capacity, newSize) ==> c == capacity
  {
    if AppendReallocates(small, capacity, newSize) then 3 * (newSize + 1) / 2 else capacity
  }

  /**
   * A reallocating append leaves a long string with more capacity than its
   * length and terminator need, so such a string is one the copy
   * constructor as written copies into a buffer smaller than its capacity.
   */
  lemma ReallocationLeavesSpareCapacity(small: bool, capacity: nat, newSize: nat)
    requires MAX_SMALL_STRING_LENGTH < newSize && AppendReallocates(small, capacity, newSize)
    ensures newSize + 1 < AppendedCapacity(small, capacity, newSize)
  {
  }

  /**
   * In a valid long string the capacity is the buffer's length, so an append
   * that keeps the buffer writes its bytes and terminator inside it.
   */
  lemma ValidAppendFitsBuffer(s: String, appended: nat)
    requires s.Valid() && !s.IsSmallString()
    requires !AppendReallocates(s.IsSmallString(), s.capacity, s.Length() + appended)
    ensures s.Length() + appended + 1 <= s.data.Length
  {
  }

  /** Where part `k` starts: at `first`, or just past the separator before it. */
  function PartStart(first: nat, cuts: seq<nat>, w: nat, k: nat): nat
    requires k <= |cuts|
  {
    if k == 0 then first else cuts[k - 1] + w
  }

  /** Where part `k` ends: at the separator after it, or at the end of the text. */
  function PartEnd(s: seq<bv8>, cuts: seq<nat>, k: nat): nat
    requires k <= |cuts|
  {
    if k < |cuts| then cuts[k] else |s|
  }

  /** Part `k` of a split is the text between the separator before it and the one after it. */
  lemma {:induction false} SegmentAt(s: seq<bv8>, first: nat, cuts: seq<nat>, w: nat, k: nat)
    requires CutsFrom(s, first, cuts, w) && k <= |cuts|
    ensures PartStart(first, cuts, w, k) <= PartEnd(s, cuts, k) <= |s|
    ensures Segments(s, first, cuts, w)[k] == s[PartStart(first, cuts, w, k)..PartEnd(s, cuts, k)]
    decreases k
  {
    if k > 0 {
      var rest := cuts[1..];
      SegmentAt(s, cuts[0] + w, rest, w, k - 1);
      assert PartStart(cuts[0] + w, rest, w, k - 1) == PartStart(first, cuts, w, k);
      assert PartEnd(s, rest, k - 1) == PartEnd(s, cuts, k);
    }
  }

  /** Part `k` of a split of `s` from 0 at `cuts` with separators of width `w`, read off the cut positions. */
  function Piece(s: seq<bv8>, cuts: seq<nat>, w: nat, k: nat): seq<bv8>
    requires k <= |cuts|
  {
    var a, b := PartStart(0, cuts, w, k), PartEnd(s, cuts, k);
    if a <= b <= |s| then s[a..b] else []
  }

  /** Parts that are the pieces between the cuts, one by one, are the segments. */
  lemma PiecesAreSegments(s: seq<bv8>, cuts: seq<nat>, w: nat, parts: seq<seq<bv8>>)
    requires CutsFrom(s, 0, cuts, w) && |parts| == |cuts| + 1
    requires forall k :: 0 <= k < |parts| ==> parts[k] == Piece(s, cuts, w, k)
    ensures parts == Segments(s, 0, cuts, w)
  {
    forall k | 0 <= k < |parts| ensures parts[k] == Segments(s, 0, cuts, w)[k] {
      SegmentAt(s, 0, cuts, w, k);
    }
  }

  /**
   * Where the Split(char) loop stands at position `i`: `n` parts are taken,
   * the current part starts at `first`, and the cuts still ahead are exactly
   * the ones the scan from `i` finds.
   */
  predicate CharScan(s: seq<bv8>, c: bv8, cuts: seq<nat>, n: nat, first: nat, i: nat)
  {
    i <= |s| && n <= |cuts| && CharCuts(s, c, i) == cuts[n..] && first == PartStart(0, cuts, 1, n) && first <= i
  }

  /** A separator at `i` (or the terminator, when the separator is zero) closes part `n`, and the scan resumes two positions on. */
  lemma CharScanMatch(s: seq<bv8>, c: bv8, cuts: seq<nat>, n: nat, first: nat, i: nat)
    requires CharScan(s, c, cuts, n, first, i) && ByteAt(s, i) == c
    ensures Piece(s, cuts, 1, n) == s[first..i]
    ensures i == |s| ==> n == |cuts|
    ensures i < |s| ==> n < |cuts|
    ensures i + 1 < |s| ==> CharScan(s, c, cuts, n + 1, i + 1, i + 2)
    ensures i + 1 == |s| ==> CharScan(s, c, cuts, n + 1, i + 1, i + 1)
  {
    if i < |s| {
      assert CharCuts(s, c, i) == [i] + CharCuts(s, c, i + 2);
      assert cuts[n..][1..] == cuts[n + 1..];
    }
  }

  /** Any other byte before the end moves the scan one position on. */
  lemma CharScanOther(s: seq<bv8>, c: bv8, cuts: seq<nat>, n: nat, first: nat, i: nat)
    requires CharScan(s, c, cuts, n, first, i) && ByteAt(s, i) != c
    ensures i < |s| ==> CharScan(s, c, cuts, n, first, i + 1)
  {
  }

  /** At the end of the text the last part runs from `first` to the end. */
  lemma CharScanEnd(s: seq<bv8>, c: bv8, cuts: seq<nat>, n: nat, first: nat)
    requires CharScan(s, c, cuts, n, first, |s|)
    ensures n == |cuts| && Piece(s, cuts, 1, n) == s[first..|s|]
  {
  }

  /** Where the Split(String) loop stands at position `i`; as CharScan, with separators of width `|sep|`. */
  predicate StrScan(s: seq<bv8>, sep: seq<bv8>, cuts: seq<nat>, n: nat, first: nat, i: nat)
  {
    i <= |s| && n <= |cuts| && StrCuts(s, sep, i) == cuts[n..] && first == PartStart(0, cuts, |sep|, n) && first <= i
  }

  /** A separator at `i` that ends before the end of the text closes part `n`; the scan resumes one past it. */
  lemma StrScanMatch(s: seq<bv8>, sep: seq<bv8>, cuts: seq<nat>, n: nat, first: nat, i: nat)
    requires StrScan(s, sep, cuts, n, first, i) && i + |sep| < |s| && s[i..i + |sep|] == sep
    ensures n < |cuts| && Piece(s, cuts, |sep|, n) == s[first..i]
    ensures StrScan(s, sep, cuts, n + 1, i + |sep|, i + |sep| + 1)
  {
    assert StrCuts(s, sep, i) == [i] + StrCuts(s, sep, i + |sep| + 1);
    assert cuts[n..][1..] == cuts[n + 1..];
  }

  /** Anywhere else before the end the scan moves one position on. */
  lemma StrScanOther(s: seq<bv8>, sep: seq<bv8>, cuts: seq<nat>, n: nat, first: nat, i: nat)
    requires StrScan(s, sep, cuts, n, first, i) && i < |s| && !(i + |sep| < |s| && s[i..i + |sep|] == sep)
    ensures StrScan(s, sep, cuts, n, first, i + 1)
  {
  }

  /** At the end of the text the last part runs from `first` to the end. */
  lemma StrScanEnd(s: seq<bv8>, sep: seq<bv8>, cuts: seq<nat>, n: nat, first: nat)
    requires StrScan(s, sep, cuts, n, first, |s|)
    ensures n == |cuts| && Piece(s, cuts, |sep|, n) == s[first..|s|]
  {
  }

  /**
   * One turn of the Split(char) loop at position `i`: the parts it closes,
   * where the next part starts and where the next turn looks.  A separator
   * closes the current part and the position after it is passed over; when
   * that position is the end of the text, the empty last part is closed too.
   */
  function CharTurn(s: seq<bv8>, c: bv8, first: nat, i: nat): (seq<seq<bv8>>, nat, nat)
    requires first <= i <= |s|
  {
    if ByteAt(s, i) == c then
      (if i + 1 == |s| then [s[first..i], s[i + 1..i + 1]] else [s[first..i]], i + 1, i + 2)
    else if i == |s| then ([s[first..i]], first, i + 1)
    else ([], first, i + 1)
  }

  /** The Split(char) loop's invariant: the parts taken are the first pieces, and the scan state matches the cuts ahead. */
  predicate CharSplitState(s: seq<bv8>, c: bv8, cuts: seq<nat>, parts: seq<seq<bv8>>, first: nat, i: nat)
  {
    i <= |s| + 2 && |parts| <= |cuts| + 1 &&
    (i <= |s| ==> CharScan(s, c, cuts, |parts|, first, i)) &&
    (i > |s| ==> |parts| == |cuts| + 1) &&
    forall k :: 0 <= k < |parts| ==> parts[k] == Piece(s, cuts, 1, k)
  }

  /** A turn of the Split(char) loop keeps its invariant and moves on. */
  lemma CharTurnStep(s: seq<bv8>, c: bv8, cuts: seq<nat>, parts: seq<seq<bv8>>, first: nat, i: nat)
    requires CharSplitState(s, c, cuts, parts, first, i) && i <= |s|
    ensures i < CharTurn(s, c, first, i).2
    ensures CharSplitState(s, c, cuts, parts + CharTurn(s, c, first, i).0, CharTurn(s, c, first, i).1, CharTurn(s, c, first, i).2)
  {
    var n := |parts|;
    if ByteAt(s, i) == c {
      CharScanMatch(s, c, cuts, n, first, i);
      if i + 1 == |s| {
        CharScanEnd(s, c, cuts, n + 1, i + 1);
      }
    } else if i == |s| {
      CharScanEnd(s, c, cuts, n, first);
    } else {
      CharScanOther(s, c, cuts, n, first, i);
    }
  }

  /**
   * One turn of the Split(String) loop at position `i`: a separator that ends
   * before the end of the text closes the current part and the scan resumes
   * one past it; at the end of the text the last part is closed.
   */
  function StrTurn(s: seq<bv8>, sep: seq<bv8>, first: nat, i: nat): (seq<seq<bv8>>, nat, nat)
    requires first <= i <= |s|
  {
    if i + |sep| < |s| && s[i..i + |sep|] == sep then ([s[first..i]], i + |sep|, i + |sep| + 1)
    else if i == |s| then ([s[first..i]], first, i + 1)
    else ([], first, i + 1)
  }

  /** The Split(String) loop's invariant, as CharSplitState. */
  predicate StrSplitState(s: seq<bv8>, sep: seq<bv8>, cuts: seq<nat>, parts: seq<seq<bv8>>, first: nat, i: nat)
  {
    i <= |s| + 1 && |parts| <= |cuts| + 1 &&
    (i <= |s| ==> StrScan(s, sep, cuts, |parts|, first, i)) &&
    (i > |s| ==> |parts| == |cuts| + 1) &&
    forall k :: 0 <= k < |parts| ==> parts[k] == Piece(s, cuts, |sep|, k)
  }

  /** A turn of the Split(String) loop keeps its invariant and moves on. */
  lemma StrTurnStep(s: seq<bv8>, sep: seq<bv8>, cuts: seq<nat>, parts: seq<seq<bv8>>, first: nat, i: nat)
    requires StrSplitState(s, sep, cuts, parts, first, i) && i <= |s|
    ensures i < StrTurn(s, sep, first, i).2
    ensures StrSplitState(s, sep, cuts, parts + StrTurn(s, sep, first, i).0, StrTurn(s, sep, first, i).1, StrTurn(s, sep, first, i).2)
  {
    var n := |parts|;
    if i + |sep| < |s| && s[i..i + |sep|] == sep {
      StrScanMatch(s, sep, cuts, n, first, i);
    } else if i == |s| {
      StrScanEnd(s, sep, cuts, n, first);
    } else {
      StrScanOther(s, sep, cuts, n, first, i);
    }
  }

  /** The 32 bytes of a small string: the long bit is clear and the text the flags record is terminated and free of zeros. */
  predicate SmallLayout(b: seq<bv8>)
  {
    |b| == 32 && !IsLongFlags(b[31]) && b[SmallLengthOf(b[31])] == 0 && NoNul(b[..SmallLengthOf(b[31])])
  }

  function SmallText(b: seq<bv8>): seq<bv8>
    requires |b| == 32
  {
    b[..SmallLengthOf(b[31])]
  }

  /**
   * The flags are set first and the text with its terminator copied after
   * (the constructors); a 31-byte text's terminator lands on the flags byte.
   */
  lemma WriteAfterFlags(b: seq<bv8>, text: seq<bv8>)
    requires |b| == 32 && !IsLongFlags(b[31]) && SmallLengthOf(b[31]) == |text| && NoNul(text)
    ensures SmallLayout(Splice(b, 0, text + [0])) && SmallText(Splice(b, 0, text + [0])) == text
  {
    var w := Splice(b, 0, text + [0]);
    SpliceCString(b, 0, text);
    if |text| < 31 {
      assert w[31] == b[31];
    } else {
      assert w[31] == 0;
    }
  }

  /**
   * The text with its terminator is copied to position `at` first and the
   * flags are set after (AppendString).
   */
  lemma WriteBeforeFlags(b: seq<bv8>, at: nat, text: seq<bv8>)
    requires |b| == 32 && at + |text| <= 31 && NoNul(b[..at]) && NoNul(text)
    ensures var w := Splice(b, at, text + [0]);
      var r := w[31 := WithSmallLength(w[31], at + |text|)];
      SmallLayout(r) && SmallText(r) == b[..at] + text
  {
    var n := at + |text|;
    var w := Splice(b, at, text + [0]);
    var r := w[31 := WithSmallLength(w[31], n)];
    SpliceCString(b, at, text);
    NoNulConcat(b[..at], text);
    assert r[..n] == w[..n];
    if n == 31 {
      assert w[31] == 0;
      assert r[31] == 0;
    }
  }

  /** memcpy of `src` to position `at` of the 32 bytes, then SetLengthSmall of the length up to the copied terminator. */
  method WriteThenSetSmallLength(b: array<bv8>, at: nat, src: seq<bv8>)
    requires b.Length == 32 && 0 < |src| && at + |src| <= 32
    modifies b
    ensures var w := Splice(old(b[..]), at, src); b[..] == w[31 := WithSmallLength(w[31], at + |src| - 1)]
  {
    MemCopy(b, at, src);
    b[31] := WithSmallLength(b[31], at + |src| - 1);
  }

  /** new char[n] with the C string `text`, terminator included, copied to its front. */
  method NewHolding(text: seq<bv8>, n: nat) returns (buf: array<bv8>)
    requires |text| <= n
    ensures fresh(buf) && buf.Length == n && buf[..|text|] == text
  {
    buf := new bv8[n];
    SpliceElements(buf[..], 0, text);
    MemCopy(buf, 0, text);
    assert forall k :: 0 <= k < |text| ==> buf[..|text|][k] == text[k];
  }

  class String {
    /** The 32 bytes of the small layout; byte 31 is the flags byte. */
    const chars: array<bv8>
    /** The heap buffer of a long string. */
    var data: array?<bv8>
    var length: nat
    var capacity: nat
    ghost var Repr: set<object>

    function Flags(): bv8
      reads this, chars
      requires chars.Length == 32
    {
      chars[31]
    }

    /** IsSmallString: the long bit of the flags byte is clear. */
    predicate IsSmallString()
      reads this, chars
      requires chars.Length == 32
    {
      !IsLongFlags(Flags())
    }

    function SmallStringLength(): (n: nat)
      reads this, chars
      requires chars.Length == 32
      ensures n <= MAX_SMALL_STRING_LENGTH
    {
      SmallLengthOf(Flags())
    }

    /** Length: the small length read from the flags byte, or the long length field. */
    function Length(): nat
      reads this, chars
      requires chars.Length == 32
    {
      if IsSmallString() then SmallStringLength() else length
    }

    /** The layout every operation reads through: the text is null-terminated and free of zero bytes. */
    ghost predicate Readable()
      reads this, Repr
    {
      this in Repr && chars in Repr && chars.Length == 32 &&
      if IsSmallString() then
        Repr == {this, chars} && SmallLayout(chars[..])
      else
        data != null && Repr == {this, chars, data} && data != chars &&
        length < data.Length && data[length] == 0 && NoNul(data[..length])
    }

    /** A well-formed string: a long string is longer than 31 bytes and its capacity is its buffer's length. */
    ghost predicate Valid()
      reads this, Repr
    {
      Readable() && (!IsSmallString() ==> MAX_SMALL_STRING_LENGTH < length && capacity == data.Length)
    }

    /** The small layout with nothing else in the footprint is a valid string holding the text the flags record. */
    lemma SmallIsValid()
      requires chars.Length == 32 && Repr == {this, chars} && SmallLayout(chars[..])
      ensures Valid() && IsSmallString() && Text() == SmallText(chars[..])
    {
    }

    /** A long string whose buffer holds a terminator after `length` bytes, and no zero before, is readable. */
    lemma LongIsReadable()
      requires chars.Length == 32 && IsLongFlags(chars[31]) && data != null && data != chars
      requires Repr == {this, chars, data} && length < data.Length
      requires data[length] == 0 && NoNul(data[..length])
      ensures Readable() && !IsSmallString() && Text() == data[..length]
    {
    }

    /** A long string whose buffer ends in a terminator after `length` bytes is valid when its capacity is the buffer's length. */
    lemma LongIsValid()
      requires chars.Length == 32 && IsLongFlags(chars[31]) && data != null && data != chars
      requires Repr == {this, chars, data} && MAX_SMALL_STRING_LENGTH < length < data.Length == capacity
      requires data[length] == 0 && NoNul(data[..length])
      ensures Valid() && !IsSmallString() && Text() == data[..length]
    {
    }

    /** The bytes of the string, without its terminator. */
    function Text(): (t: seq<bv8>)
      reads Repr
      requires Readable()
      ensures |t| == Length() && NoNul(t)
    {
      if IsSmallString() then SmallText(chars[..]) else data[..length]
    }

    /** CString: the bytes the returned pointer reaches, up to and including the terminator. */
    function CString(): (r: seq<bv8>)
      reads Repr
      requires Readable()
      ensures r == Text() + [0]
    {
      if IsSmallString() then chars[..SmallStringLength() + 1] else data[..length + 1]
    }

    /** Capacity: 32 for a small string, the capacity field for a long one. */
    function Capacity(): (c: nat)
      reads Repr
      requires Valid()
      ensures Length() < c
    {
      if IsSmallString() then MAX_SMALL_STRING_LENGTH + 1 else capacity
    }

    /**
     * SetLength: a length of at most 31 is written into the flags byte;
     * a longer one sets the long bit and the length field.
     */
    method SetLength(newLength: nat)
      requires chars.Length == 32
      modifies chars, this`length
      ensures chars[..] == old(chars[..])[31 := Flags()]
      ensures newLength <= MAX_SMALL_STRING_LENGTH ==>
        Flags() == WithSmallLength(old(Flags()), newLength) && length == old(length)
      ensures newLength > MAX_SMALL_STRING_LENGTH ==> Flags() == SetLongBit(old(Flags())) && length == newLength
      ensures Length() == newLength
    {
      if newLength <= MAX_SMALL_STRING_LENGTH {
        chars[31] := WithSmallLength(chars[31], newLength);
      } else {
        chars[31] := SetLongBit(chars[31]);
        length := newLength;
      }
    }

    /** Default constructor: the empty small string; the top two flag bits are left indeterminate. */
    constructor ()
      ensures Valid() && fresh(Repr) && IsSmallString() && Text() == []
    {
      chars := new bv8[32];
      new;
      chars[0] := 0;
      chars[31] := WithSmallLength(chars[31], 0);
      Repr := {this, chars};
      assert SmallLayout(chars[..]);
    }

    /** Copies `str` and its terminator in place after SetLength has recorded a small length. */
    method WriteSmall(str: seq<bv8>)
      requires chars.Length == 32 && IsSmallString() && SmallStringLength() == |str| && NoNul(str)
      modifies chars
      ensures SmallLayout(chars[..]) && SmallText(chars[..]) == str
    {
      WriteAfterFlags(chars[..], str);
      MemCopy(chars, 0, str + [0]);
    }

    /**
     * What the constructors do once SetLength has recorded the length of
     * `str`: a short text and its terminator go in place, a long one into a
     * fresh buffer of exactly its length plus one.
     */
    method Store(str: seq<bv8>)
      requires chars.Length == 32 && NoNul(str) && Length() == |str|
      requires IsSmallString() <==> |str| <= MAX_SMALL_STRING_LENGTH
      modifies this, chars
      ensures Valid() && Text() == str && IsSmallString() == old(IsSmallString())
      ensures IsSmallString() ==> Repr == {this, chars}
      ensures !IsSmallString() ==> fresh(data) && Repr == {this, chars, data} && capacity == |str| + 1
    {
      if IsSmallString() {
        WriteSmall(str);
        Repr := {this, chars};
      } else {
        capacity := length + 1;
        var buffer := new bv8[capacity];
        SpliceWhole(buffer[..], str + [0]);
        MemCopy(buffer, 0, str + [0]);
        data := buffer;
        Repr := {this, chars, buffer};
        assert data[..length] == str;
      }
    }

    /** Constructor from a C string: small when it has at most 31 bytes, otherwise a buffer of exactly length plus one. */
    constructor FromCString(str: seq<bv8>)
      requires NoNul(str)
      ensures Valid() && fresh(Repr) && Text() == str
      ensures IsSmallString() <==> |str| <= MAX_SMALL_STRING_LENGTH
      ensures !IsSmallString() ==> capacity == |str| + 1
    {
      chars := new bv8[32];
      new;
      SetLength(|str|);
      Store(str);
    }

    /** Copy constructor, corrected: the copy's capacity is the length of the buffer it allocates. */
    constructor Copy(other: String)
      requires other.Valid()
      ensures Valid() && fresh(Repr) && Text() == other.Text()
      ensures IsSmallString() == other.IsSmallString()
      ensures !IsSmallString() ==> capacity == |Text()| + 1
    {
      chars := new bv8[32];
      new;
      SetLength(other.Length());
      var text := other.CString();
      Store(text[..|text| - 1]);
    }

    /** Copy constructor as written: a buffer of length plus one, but the original's capacity. */
    constructor CopyAsWritten(other: String)
      requires other.Valid()
      ensures Readable() && fresh(Repr) && Text() == other.Text()
      ensures IsSmallString() == other.IsSmallString()
      ensures !IsSmallString() ==> data.Length == |Text()| + 1 && capacity == other.capacity
    {
      chars := new bv8[32];
      new;
      SetLength(other.Length());
      var text := other.CString();
      Store(text[..|text| - 1]);
      if !IsSmallString() {
        capacity := other.capacity;
      }
    }

    /**
     * The copy constructor as written, applied to a long string whose
     * capacity exceeds its length plus one: an append of up to the spare
     * capacity keeps the copy's buffer, yet the bytes and terminator it
     * writes end past that buffer, and AppendToBuffer's requirement that the
     * capacity be the buffer's length fails.
     */
    static method CopyAsWrittenOverflowsOnAppend(other: String, appended: nat) returns (c: String)
      requires other.Valid() && !other.IsSmallString() && 0 < appended < other.capacity - other.Length()
      ensures c.Readable() && !c.IsSmallString() && c.Text() == other.Text()
      ensures !AppendReallocates(c.IsSmallString(), c.capacity, c.Length() + appended)
      ensures c.data.Length < c.Length() + appended + 1
      ensures c.capacity != c.data.Length && !c.Valid()
    {
      c := new String.CopyAsWritten(other);
    }

    /**
     * Moves the text to a fresh buffer of 1.5 times `minCapacity` and marks
     * the string long, whatever its length.
     */
    method IncreaseLongStringCapacity(minCapacity: nat)
      requires Valid() && Length() + 1 <= 3 * minCapacity / 2
      modifies Repr
      ensures Readable() && !IsSmallString() && fresh(data) && Repr == {this, chars, data}
      ensures Text() == old(Text()) && capacity == 3 * minCapacity / 2 == data.Length
    {
      var newCapacity := 3 * minCapacity / 2;
      var text := CString();
      ghost var t := Text();
      var newData := NewHolding(text, newCapacity);
      assert newData[..|t|] == newData[..|text|][..|t|] == t && newData[|t|] == text[|t|] == 0;
      data := newData;
      capacity := newCapacity;
      length := Length();
      chars[31] := SetLongBit(chars[31]);
      Repr := {this, chars, data};
      assert length == |t| && data[..length] == t;
      LongIsReadable();
    }

    /**
     * Appends the text of `other`.  A result of at most 31 bytes stays in
     * place; a longer one reallocates to 1.5 times the new size plus one when
     * the string was small or its capacity is too small.
     */
    method AppendString(other: String)
      requires Valid() && other.Valid() && other != this && Repr !! other.Repr
      modifies Repr
      ensures Valid() && fresh(Repr - old(Repr))
      ensures Text() == old(Text() + other.Text())
      ensures IsSmallString() <==> old(Length() + other.Length()) <= MAX_SMALL_STRING_LENGTH
      ensures !IsSmallString() ==> capacity == old(AppendedCapacity(IsSmallString(), capacity, Length() + other.Length()))
    {
      var otherStr := other.CString();
      AppendTerminated(otherStr);
    }

    /** The body of AppendString, given the bytes of the appended string up to and including its terminator. */
    method AppendTerminated(otherStr: seq<bv8>)
      requires Valid() && |otherStr| > 0 && otherStr[|otherStr| - 1] == 0 && NoNul(otherStr[..|otherStr| - 1])
      modifies Repr
      ensures Valid() && fresh(Repr - old(Repr))
      ensures Text() == old(Text()) + otherStr[..|otherStr| - 1]
      ensures IsSmallString() <==> old(Length()) + |otherStr| - 1 <= MAX_SMALL_STRING_LENGTH
      ensures !IsSmallString() ==> capacity == AppendedCapacity(old(IsSmallString()), old(capacity), old(Length()) + |otherStr| - 1)
    {
      var newSize := Length() + |otherStr| - 1;
      if newSize <= MAX_SMALL_STRING_LENGTH {
        AppendInPlace(otherStr);
      } else {
        if AppendReallocates(IsSmallString(), capacity, newSize) {
          IncreaseLongStringCapacity(newSize + 1);
        }
        AppendToBuffer(otherStr);
      }
    }

    /** AppendString's small path: the bytes and their terminator go in place after the text, then the flags record the new length. */
    method AppendInPlace(otherStr: seq<bv8>)
      requires Valid() && |otherStr| > 0 && otherStr[|otherStr| - 1] == 0 && NoNul(otherStr[..|otherStr| - 1])
      requires Length() + |otherStr| - 1 <= MAX_SMALL_STRING_LENGTH
      modifies chars
      ensures Valid() && IsSmallString() && Text() == old(Text()) + otherStr[..|otherStr| - 1]
    {
      ghost var otherText := otherStr[..|otherStr| - 1];
      assert otherStr == otherText + [0];
      var initialLength := Length();
      ghost var before := chars[..];
      WriteBeforeFlags(before, initialLength, otherText);
      WriteThenSetSmallLength(chars, initialLength, otherStr);
      SmallIsValid();
    }

    /** AppendString's long path once the buffer is large enough: the bytes and their terminator go after the text. */
    method AppendToBuffer(otherStr: seq<bv8>)
      requires Readable() && !IsSmallString() && capacity == data.Length
      requires |otherStr| > 0 && otherStr[|otherStr| - 1] == 0 && NoNul(otherStr[..|otherStr| - 1])
      requires MAX_SMALL_STRING_LENGTH < Length() + |otherStr| - 1 < capacity
      modifies data, this`length
      ensures Valid() && !IsSmallString() && Text() == old(Text()) + otherStr[..|otherStr| - 1]
    {
      ghost var otherText := otherStr[..|otherStr| - 1];
      assert otherStr == otherText + [0];
      var initialLength := Length();
      ghost var before := data[..];
      assert before[..initialLength] == old(Text());
      SpliceCString(before, initialLength, otherText);
      NoNulConcat(old(Text()), otherText);
      MemCopy(data, initialLength, otherStr);
      length := initialLength + |otherStr| - 1;
      LongIsValid();
    }

    /** ConcatenateStrings: a new string holding the text of `str1` followed by that of `str2`. */
    static method ConcatenateStrings(str1: String, str2: String) returns (r: String)
      requires str1.Valid() && str2.Valid()
      ensures r.Valid() && fresh(r.Repr)
      ensures r.Text() == str1.Text() + str2.Text()
      ensures r.IsSmallString() <==> |r.Text()| <= MAX_SMALL_STRING_LENGTH
      ensures !r.IsSmallString() ==> r.capacity == |r.Text()| + 1
    {
      var str1Data, str2Data := str1.CString(), str2.CString();
      ghost var t1, t2 := str1.Text(), str2.Text();
      assert str1Data[..|str1Data| - 1] == t1 && str2Data[..|str2Data| - 1] == t2;
      r := ConcatenateCStrings(str1Data, str2Data);
    }

    /** The body of ConcatenateStrings once both C strings are read: `str1Data` and `str2Data` end in their terminators. */
    static method ConcatenateCStrings(str1Data: seq<bv8>, str2Data: seq<bv8>) returns (r: String)
      requires |str1Data| > 0 && str1Data[|str1Data| - 1] == 0 && NoNul(str1Data[..|str1Data| - 1])
      requires |str2Data| > 0 && str2Data[|str2Data| - 1] == 0 && NoNul(str2Data[..|str2Data| - 1])
      ensures r.Valid() && fresh(r.Repr)
      ensures r.Text() == str1Data[..|str1Data| - 1] + str2Data[..|str2Data| - 1]
      ensures r.IsSmallString() <==> |r.Text()| <= MAX_SMALL_STRING_LENGTH
      ensures !r.IsSmallString() ==> r.capacity == |r.Text()| + 1
    {
      var length1 := |str1Data| - 1;
      var newSize := length1 + |str2Data| - 1;
      var text1 := str1Data[..length1];
      NoNulConcat(text1, str2Data[..|str2Data| - 1]);
      r := new String();
      r.SetLength(newSize);
      if r.IsSmallString() {
        r.StoreJoinedSmall(text1, str2Data);
      } else {
        r.StoreJoinedLong(text1, str2Data);
      }
    }

    /** ConcatenateStrings' small path: both texts and the second terminator in place, after SetLength has recorded the length. */
    method StoreJoinedSmall(e1: seq<bv8>, e2: seq<bv8>)
      requires chars.Length == 32 && |e2| > 0 && e2[|e2| - 1] == 0 && NoNul(e1 + e2[..|e2| - 1])
      requires IsSmallString() && SmallStringLength() == |e1| + |e2| - 1
      modifies this, chars
      ensures Valid() && Repr == {this, chars} && IsSmallString() && Text() == e1 + e2[..|e2| - 1]
    {
      ghost var text := e1 + e2[..|e2| - 1];
      assert e1 + e2 == text + [0];
      WriteAfterFlags(chars[..], text);
      MemCopyPair(chars, 0, e1, e2);
      Repr := {this, chars};
      SmallIsValid();
    }

    /** ConcatenateStrings' long path: a fresh buffer of exactly the new length plus one holding both texts and the second terminator. */
    method StoreJoinedLong(e1: seq<bv8>, e2: seq<bv8>)
      requires chars.Length == 32 && |e2| > 0 && e2[|e2| - 1] == 0 && NoNul(e1 + e2[..|e2| - 1])
      requires IsLongFlags(chars[31]) && length == |e1| + |e2| - 1 > MAX_SMALL_STRING_LENGTH
      modifies this
      ensures Valid() && fresh(data) && Repr == {this, chars, data} && !IsSmallString()
      ensures Text() == e1 + e2[..|e2| - 1] && capacity == |Text()| + 1
    {
      ghost var text := e1 + e2[..|e2| - 1];
      assert e1 + e2 == text + [0];
      var newData := new bv8[length + 1];
      SpliceWhole(newData[..], text + [0]);
      MemCopyPair(newData, 0, e1, e2);
      data := newData;
      capacity := length + 1;
      Repr := {this, chars, newData};
      assert data[..length] == text;
      LongIsValid();
    }

    /**
     * Substring: a new string of the bytes from `start` up to `end`, or the
     * empty string when either bound is past the length.
     */
    method Substring(start: nat, end: nat) returns (r: String)
      requires Valid()
      requires start <= Length() && end <= Length() ==> start <= end
      ensures r.Valid() && fresh(r.Repr) && r.Text() == SubstringText(Text(), start, end)
    {
      var len := Length();
      if start > len || end > len {
        r := new String();
        return;
      }
      var substr := CString()[start..end];
      assert substr == Text()[start..end];
      r := new String.FromCString(substr);
    }

    /** The text of the string Substring(start, end) returns, for bounds inside the string. */
    method SubstringOf(ghost s: seq<bv8>, start: nat, end: nat) returns (t: seq<bv8>)
      requires Valid() && s == Text() && start <= end <= |s|
      ensures t == s[start..end]
      ensures Valid() && s == Text()
    {
      var r := Substring(start, end);
      t := r.Text();
    }

    /** Split(char), as written: the texts of the parts, each taken with Substring. */
    method Split(splitter: bv8) returns (parts: seq<seq<bv8>>)
      requires Valid()
      ensures parts == CharSplitAsWritten(Text(), splitter)
    {
      ghost var s := Text();
      ghost var cuts := CharCuts(s, splitter, 0);
      var first: nat := 0;
      var cstr := CString();
      var len := Length();
      parts := [];
      var i := 0;
      while i < len + 1
        invariant CharSplitState(s, splitter, cuts, parts, first, i)
        decreases len + 2 - i
      {
        CharTurnStep(s, splitter, cuts, parts, first, i);
        var added;
        added, first, i := SplitTurn(splitter, cstr, s, first, i);
        parts := parts + added;
      }
      CharCutsValid(s, splitter, 0, 0);
      PiecesAreSegments(s, cuts, 1, parts);
    }

    /** The body of the Split(char) loop: one turn at position `i` of the C string `cstr`. */
    method SplitTurn(splitter: bv8, cstr: seq<bv8>, ghost s: seq<bv8>, first: nat, i: nat) returns (added: seq<seq<bv8>>, first': nat, i': nat)
      requires Valid() && s == Text() && cstr == s + [0] && first <= i <= |s|
      ensures added == CharTurn(s, splitter, first, i).0
      ensures first' == CharTurn(s, splitter, first, i).1
      ensures i' == CharTurn(s, splitter, first, i).2
    {
      assert cstr[i] == ByteAt(s, i);
      var len := |cstr| - 1;
      if cstr[i] == splitter {
        var part := SubstringOf(s, first, i);
        first', i' := i + 1, i + 1;
        // the end test that follows a match
        if i' == len {
          var last := SubstringOf(s, first', i');
          added := [part, last];
        } else {
          added := [part];
        }
      } else {
        first', i' := first, i;
        if i' == len {
          var last := SubstringOf(s, first', i');
          added := [last];
        } else {
          added := [];
        }
      }
      i' := i' + 1;
    }

    /** Split(String), as written: the texts of the parts, each taken with Substring. */
    method SplitBy(splitter: String) returns (parts: seq<seq<bv8>>)
      requires Valid() && splitter.Valid()
      ensures parts == StrSplitAsWritten(Text(), splitter.Text())
    {
      ghost var s := Text();
      var sep := splitter.Text();
      ghost var cuts := StrCuts(s, sep, 0);
      var first: nat := 0;
      var len := Length();
      parts := [];
      var i := 0;
      while i < len + 1
        invariant StrSplitState(s, sep, cuts, parts, first, i)
        decreases len + 1 - i
      {
        StrTurnStep(s, sep, cuts, parts, first, i);
        var added;
        added, first, i := SplitByTurn(sep, s, first, i);
        parts := parts + added;
      }
      StrCutsValid(s, sep, 0, 0);
      PiecesAreSegments(s, cuts, |sep|, parts);
    }

    /** The body of the Split(String) loop: one turn at position `i`, comparing the bytes there with `sep`. */
    method SplitByTurn(sep: seq<bv8>, ghost s: seq<bv8>, first: nat, i: nat) returns (added: seq<seq<bv8>>, first': nat, i': nat)
      requires Valid() && s == Text() && first <= i <= |s|
      ensures added == StrTurn(s, sep, first, i).0
      ensures first' == StrTurn(s, sep, first, i).1
      ensures i' == StrTurn(s, sep, first, i).2
    {
      added := [];
      first' := first;
      i' := i;
      var len := Length();
      var end := i' + |sep|;
      if end < len {
        var piece := SubstringOf(s, i', end);
        if piece == sep {
          var part := SubstringOf(s, first', i');
          added := added + [part];
          first' := end;
          i' := i' + |sep|;
        }
      }
      if i' == len {
        var part := SubstringOf(s, first', i');
        added := added + [part];
      }
      i' := i' + 1;
    }
  }
}
