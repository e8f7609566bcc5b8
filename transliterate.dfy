/**
  A model of the MySQL user-defined function `str_transliterate`: it scans a
  NUL-terminated byte string with a read cursor and a write cursor, rewrites
  the UTF-8 encoding of "á" (0xC3 0xA1) to the single ASCII byte 'a', copies
  every other byte through, and terminates the output with a NUL.

  The pure functions below are the specification (what the output is); the
  method StrTransliterate is the loop itself, over arrays, proved against them.
 */
module Transliterate {

  /** The one hard-coded rule: the two-byte sequence LEAD TRAIL becomes TARGET. */
  const LEAD: bv8 := 0xC3
  const TRAIL: bv8 := 0xA1
  const TARGET: bv8 := 0x61  // 'a'

  /** The C string terminator. */
  const NUL: bv8 := 0

  /** The largest 7-bit ASCII byte; larger bytes are tested against the rule. */
  const ASCII_MAX: bv8 := 0x7F

  /** An optional value: the UDF argument is either a byte string or SQL NULL. */
  datatype Option<T> = None | Some(value: T)

  // ---------------------------------------------------------------------------
  // The mapping, as a function of the input bytes
  // ---------------------------------------------------------------------------

  /** The mapped pair starts at index k of s. */
  predicate PairAt(s: seq<bv8>, k: int)
  {
    0 <= k && k + 1 < |s| && s[k] == LEAD && s[k + 1] == TRAIL
  }

  /** s contains no occurrence of the mapped pair. */
  predicate NoPair(s: seq<bv8>)
  {
    forall k :: 0 <= k < |s| ==> !PairAt(s, k)
  }

  /** The pair straddles the join of a and b: a ends with LEAD and b starts with TRAIL. */
  predicate Straddles(a: seq<bv8>, b: seq<bv8>)
  {
    |a| > 0 && |b| > 0 && a[|a| - 1] == LEAD && b[0] == TRAIL
  }

  /**
    The output of one left-to-right scan: a pair at the read position becomes
    TARGET and both of its bytes are consumed; any other byte is copied.
    The output is never longer than the input.
   */
  function Transliterated(s: seq<bv8>): (r: seq<bv8>)
    ensures |r| <= |s|
    decreases |s|
  {
    if s == [] then []
    else if PairAt(s, 0) then [TARGET] + Transliterated(s[2..])
    else [s[0]] + Transliterated(s[1..])
  }

  /** The number of indices at which the pair starts, counting every position. */
  function Occurrences(s: seq<bv8>): nat
    decreases |s|
  {
    if |s| < 2 then 0 else (if PairAt(s, 0) then 1 else 0) + Occurrences(s[1..])
  }

  // ---------------------------------------------------------------------------
  // Properties of the mapping
  // ---------------------------------------------------------------------------

  /** Dropping the first byte shifts every occurrence one place to the left. */
  lemma PairShift(s: seq<bv8>, k: int)
    requires |s| > 0 && 0 <= k
    ensures PairAt(s, k + 1) <==> PairAt(s[1..], k)
  {
  }

  /** The pair cannot overlap itself: its second byte never starts another pair. */
  lemma {:induction false} NoSelfOverlap(s: seq<bv8>)
    requires PairAt(s, 0)
    ensures !PairAt(s, 1)
    ensures Occurrences(s) == 1 + Occurrences(s[2..])
  {
    if |s| > 2 {
      assert s[1..][1..] == s[2..];
    }
  }

  /** The sliding count is zero exactly when the pair does not occur. */
  lemma {:induction false} NoPairIffNoOccurrence(s: seq<bv8>)
    ensures NoPair(s) <==> Occurrences(s) == 0
    decreases |s|
  {
    if |s| < 2 {
      assert forall k :: !PairAt(s, k);
    } else {
      NoPairIffNoOccurrence(s[1..]);
      forall k | 0 <= k ensures PairAt(s, k + 1) <==> PairAt(s[1..], k) {
        PairShift(s, k);
      }
      if NoPair(s[1..]) && !PairAt(s, 0) {
        forall k ensures !PairAt(s, k) {
          if k >= 1 {
            PairShift(s, k - 1);
          }
        }
      }
    }
  }

  /** Each occurrence of the pair shortens the output by exactly one byte. */
  lemma {:induction false} LengthCount(s: seq<bv8>)
    ensures |Transliterated(s)| == |s| - Occurrences(s)
    decreases |s|
  {
    if s == [] {
    } else if PairAt(s, 0) {
      NoSelfOverlap(s);
      LengthCount(s[2..]);
    } else {
      LengthCount(s[1..]);
    }
  }

  /** The mapping is the identity exactly on the inputs that hold no pair. */
  lemma {:induction false} IdentityIffNoPair(s: seq<bv8>)
    ensures Transliterated(s) == s <==> NoPair(s)
    decreases |s|
  {
    if NoPair(s) {
      if s != [] {
        assert !PairAt(s, 0);
        forall k | 0 <= k ensures !PairAt(s[1..], k) {
          PairShift(s, k);
        }
        IdentityIffNoPair(s[1..]);
        assert s == [s[0]] + s[1..];
      }
    } else {
      NoPairIffNoOccurrence(s);
      LengthCount(s);
    }
  }

  /**
    Every output byte is TARGET or a byte of the input, so a string without a
    NUL maps to a string without a NUL and the terminator marks its end.
   */
  lemma {:induction false} OutputBytes(s: seq<bv8>)
    ensures forall k :: 0 <= k < |Transliterated(s)| ==> Transliterated(s)[k] == TARGET || Transliterated(s)[k] in s
    ensures NUL !in s ==> NUL !in Transliterated(s)
    decreases |s|
  {
    if s != [] {
      var n := if PairAt(s, 0) then 2 else 1;
      OutputBytes(s[n..]);
      var r, tail := Transliterated(s), Transliterated(s[n..]);
      assert r == [r[0]] + tail;
      forall k | 1 <= k < |r| ensures r[k] == TARGET || r[k] in s {
        assert r[k] == tail[k - 1];
        if r[k] != TARGET {
          var j :| 0 <= j < |s[n..]| && s[n..][j] == r[k];
          assert s[n + j] == r[k];
        }
      }
    }
  }

  /** Input of 7-bit ASCII bytes only is copied unchanged. */
  lemma AsciiIdentity(s: seq<bv8>)
    requires forall k :: 0 <= k < |s| ==> s[k] <= ASCII_MAX
    ensures Transliterated(s) == s
  {
    assert forall k :: !PairAt(s, k);
    IdentityIffNoPair(s);
  }

  /** The output never contains the mapped pair. */
  lemma {:induction false} NoPairInOutput(s: seq<bv8>)
    ensures NoPair(Transliterated(s))
    decreases |s|
  {
    if s != [] {
      var r := Transliterated(s);
      var rest := if PairAt(s, 0) then s[2..] else s[1..];
      NoPairInOutput(rest);
      var tail := Transliterated(rest);
      assert r == [r[0]] + tail;
      assert r[1..] == tail;
      if !PairAt(s, 0) && |tail| > 0 {
        // The byte after a copied LEAD is TARGET or a copied byte other than TRAIL.
        assert tail[0] == (if PairAt(rest, 0) then TARGET else rest[0]);
      }
      forall k ensures !PairAt(r, k) {
        if k >= 1 {
          PairShift(r, k - 1);
        }
      }
    }
  }

  /** A second pass over the output changes nothing. */
  lemma Idempotent(s: seq<bv8>)
    ensures Transliterated(Transliterated(s)) == Transliterated(s)
  {
    NoPairInOutput(s);
    IdentityIffNoPair(Transliterated(s));
  }

  /** Occurrences in a concatenation: those of each part, plus one where the pair straddles the join. */
  lemma {:induction false} OccurrencesConcat(a: seq<bv8>, b: seq<bv8>)
    ensures Occurrences(a + b) == Occurrences(a) + Occurrences(b) + (if Straddles(a, b) then 1 else 0)
    decreases |a|
  {
    if a == [] {
      assert a + b == b;
    } else {
      assert (a + b)[1..] == a[1..] + b;
      OccurrencesConcat(a[1..], b);
      if |a| == 1 {
        assert a[1..] == [];
      }
    }
  }

  /** Away from a straddling pair, the scan of a + b takes its first step inside a. */
  lemma FrontOfConcat(a: seq<bv8>, b: seq<bv8>)
    requires |a| > 0 && !Straddles(a, b)
    ensures (a + b)[0] == a[0] && PairAt(a + b, 0) == PairAt(a, 0)
    ensures PairAt(a, 0) ==> (a + b)[2..] == a[2..] + b && !Straddles(a[2..], b)
    ensures !PairAt(a, 0) ==> (a + b)[1..] == a[1..] + b && !Straddles(a[1..], b)
  {
  }

  /** Away from a straddling pair, the scan of a concatenation is the concatenation of the scans. */
  lemma {:induction false} ConcatSplits(a: seq<bv8>, b: seq<bv8>)
    requires !Straddles(a, b)
    ensures Transliterated(a + b) == Transliterated(a) + Transliterated(b)
    decreases |a|
  {
    if a == [] {
      assert a + b == b;
    } else {
      FrontOfConcat(a, b);
      if PairAt(a, 0) {
        ConcatSplits(a[2..], b);
        assert [TARGET] + (Transliterated(a[2..]) + Transliterated(b))
            == ([TARGET] + Transliterated(a[2..])) + Transliterated(b);
      } else {
        ConcatSplits(a[1..], b);
        assert [a[0]] + (Transliterated(a[1..]) + Transliterated(b))
            == ([a[0]] + Transliterated(a[1..])) + Transliterated(b);
      }
    }
  }

  /** The scan splits at a join exactly when no pair straddles it: the rewrite is local. */
  lemma ConcatIff(a: seq<bv8>, b: seq<bv8>)
    ensures Transliterated(a + b) == Transliterated(a) + Transliterated(b) <==> !Straddles(a, b)
  {
    if Straddles(a, b) {
      OccurrencesConcat(a, b);
      LengthCount(a + b);
      LengthCount(a);
      LengthCount(b);
    } else {
      ConcatSplits(a, b);
    }
  }

  /** A LEAD as the last byte has only the terminator after it, so it is copied through. */
  lemma TrailingLeadCopied(s: seq<bv8>)
    ensures Transliterated(s + [LEAD]) == Transliterated(s) + [LEAD]
  {
    ConcatSplits(s, [LEAD]);
  }

  /**
    Replacing the first occurrence: when the pair first occurs at k, the
    output is the bytes before k unchanged, then TARGET, then the scan of
    what follows the pair.
   */
  lemma FirstPairReplaced(s: seq<bv8>, k: nat)
    requires PairAt(s, k)
    requires forall j :: 0 <= j < k ==> !PairAt(s, j)
    ensures Transliterated(s) == s[..k] + [TARGET] + Transliterated(s[k + 2..])
  {
    var before, from := s[..k], s[k..];
    assert s == before + from;
    forall j | 0 <= j < |before| ensures !PairAt(before, j) {
      assert !PairAt(s, j);
    }
    IdentityIffNoPair(before);
    ConcatSplits(before, from);
    assert PairAt(from, 0);
    assert from[2..] == s[k + 2..];
  }

  /** "café" in UTF-8 becomes "cafa": the pair at the end is mapped. */
  lemma CafeScenario()
    ensures Transliterated([0x63, 0x61, 0x66, 0xC3, 0xA1]) == [0x63, 0x61, 0x66, 0x61]
  {
    var cafe: seq<bv8> := [0x63, 0x61, 0x66, 0xC3, 0xA1];
    assert cafe[1..][1..][1..] == [0xC3, 0xA1];
  }

  /** "hello" is copied unchanged. */
  lemma HelloScenario()
    ensures Transliterated([0x68, 0x65, 0x6C, 0x6C, 0x6F]) == [0x68, 0x65, 0x6C, 0x6C, 0x6F]
  {
    AsciiIdentity([0x68, 0x65, 0x6C, 0x6C, 0x6F]);
  }

  /** "áá" becomes "aa": consecutive pairs are each mapped. */
  lemma TwiceScenario()
    ensures Transliterated([0xC3, 0xA1, 0xC3, 0xA1]) == [0x61, 0x61]
  {
    var twice: seq<bv8> := [0xC3, 0xA1, 0xC3, 0xA1];
    assert twice[2..] == [0xC3, 0xA1];
  }

  /** "a" followed by a lone LEAD is copied unchanged. */
  lemma LoneLeadScenario()
    ensures Transliterated([0x61, 0xC3]) == [0x61, 0xC3]
  {
    TrailingLeadCopied([0x61]);
    AsciiIdentity([0x61]);
  }

  /**
    The scan is in step at read position i and write position w when the
    output from w on is the transliteration of the input from i on.  In step,
    and with input left to read, output byte w is the next one the loop writes:
    TARGET where a pair starts at i, and the byte at i otherwise.
   */
  lemma StepOutput(s: seq<bv8>, i: nat, w: nat)
    requires i < |s| && w <= |Transliterated(s)|
    requires Transliterated(s)[w..] == Transliterated(s[i..])
    ensures w < |Transliterated(s)|
    ensures Transliterated(s)[w] == if PairAt(s, i) then TARGET else s[i]
  {
    assert s[i..][0] == s[i];
    assert PairAt(s, i) == PairAt(s[i..], 0);
  }

  /**
    One iteration keeps the scan in step: one byte written, and two bytes read
    where a pair starts at i0, one byte read otherwise.
   */
  lemma StepAdvance(s: seq<bv8>, i0: nat, w0: nat, i: nat, w: nat)
    requires i0 < |s| && w0 < |Transliterated(s)|
    requires Transliterated(s)[w0..] == Transliterated(s[i0..])
    requires i == (if PairAt(s, i0) then i0 + 2 else i0 + 1) && w == w0 + 1
    ensures i <= |s| && w <= |Transliterated(s)|
    ensures Transliterated(s)[w..] == Transliterated(s[i..])
  {
    var r := Transliterated(s);
    assert r[w..] == r[w0..][1..];
    assert PairAt(s, i0) == PairAt(s[i0..], 0);
    if PairAt(s, i0) {
      assert s[i0..][2..] == s[i..];
    } else {
      assert s[i0..][1..] == s[i..];
    }
  }

  // ---------------------------------------------------------------------------
  // The output buffer
  // ---------------------------------------------------------------------------

  /** Bytes the output buffer needs for input s: the output and its terminator. */
  function RequiredCapacity(s: seq<bv8>): nat
  {
    |Transliterated(s)| + 1
  }

  /** The allocation as written: strlen(original) bytes, no room for the terminator. */
  function CapacityAsWritten(s: seq<bv8>): nat
  {
    |s|
  }

  /** The allocation as intended: strlen(original) + 1 bytes. */
  function CapacityCorrected(s: seq<bv8>): nat
  {
    |s| + 1
  }

  /** A buffer of strlen bytes is large enough exactly when the input holds a pair. */
  lemma AsWrittenFitsIffPair(s: seq<bv8>)
    ensures CapacityAsWritten(s) >= RequiredCapacity(s) <==> !NoPair(s)
  {
    LengthCount(s);
    NoPairIffNoOccurrence(s);
  }

  /** "hello" gets a 5-byte buffer, but its terminator is written at index 5. */
  lemma AsWrittenOverflowsOnHello()
    ensures CapacityAsWritten([0x68, 0x65, 0x6C, 0x6C, 0x6F]) < RequiredCapacity([0x68, 0x65, 0x6C, 0x6C, 0x6F])
  {
    HelloScenario();
  }

  /** strlen + 1 bytes always suffice, with room to spare for each pair. */
  lemma CorrectedFits(s: seq<bv8>)
    ensures CapacityCorrected(s) == RequiredCapacity(s) + Occurrences(s)
  {
    LengthCount(s);
  }

  /** The output buffer, allocated with room for the terminator. */
  method Allocate(original: seq<bv8>) returns (transliterated: array<bv8>)
    ensures fresh(transliterated)
    ensures transliterated.Length == CapacityCorrected(original)
    ensures transliterated.Length >= RequiredCapacity(original)
  {
    transliterated := new bv8[|original| + 1];
  }

  // ---------------------------------------------------------------------------
  // The row callback
  // ---------------------------------------------------------------------------

  /**
    The row callback. `original` is the argument (None for SQL NULL), given
    by its bytes before the terminator; `transliterated` is the output
    buffer and `nullValueIn` the value of `*null_value` before the call.
    The results are the returned pointer, `*res_length` and `*null_value`.
   */
  method StrTransliterate(original: Option<seq<bv8>>, transliterated: array<bv8>, nullValueIn: bv8)
    returns (result: array?<bv8>, resLength: nat, nullValue: bv8)
    requires original.Some? ==> NUL !in original.value
    requires original.Some? ==> transliterated.Length >= RequiredCapacity(original.value)
    modifies transliterated
    ensures original.None? ==> result == null && resLength == 0 && nullValue == 1
    ensures original.None? ==> unchanged(transliterated)
    ensures original.Some? ==> result == transliterated && nullValue == nullValueIn
    ensures original.Some? ==> resLength == |original.value| - Occurrences(original.value)
    ensures original.Some? ==> resLength < transliterated.Length
    ensures original.Some? ==> transliterated[..resLength] == Transliterated(original.value)
    ensures original.Some? ==> transliterated[resLength] == NUL
    ensures original.Some? ==> transliterated[resLength + 1..] == old(transliterated[resLength + 1..])
  {
    if original.None? {
      return null, 0, 1;
    }
    ghost var text := original.value;
    ghost var r := Transliterated(text);
    ghost var initial := transliterated[..];
    // The argument as the loop sees it: its bytes, then the terminator.
    var bytes := original.value + [NUL];
    var i, w := 0, 0;  // original_counter, transliterated_counter
    while bytes[i] != NUL
      invariant w <= i <= |text| && w <= |r|
      invariant r[w..] == Transliterated(text[i..])
      invariant forall k {:trigger r[k]} :: 0 <= k < w ==> transliterated[k] == r[k]
      invariant forall k {:trigger initial[k]} :: w <= k < transliterated.Length ==> transliterated[k] == initial[k]
      decreases |text| - i
    {
      assert i < |text|;
      ghost var i0, w0 := i, w;
      StepOutput(text, i, w);
      assert PairAt(text, i) <==> bytes[i] == LEAD && bytes[i + 1] == TRAIL;
      if bytes[i] > ASCII_MAX {
        // When i is the last byte of the text, the lookahead reads the terminator.
        if bytes[i] == LEAD && bytes[i + 1] == TRAIL {
          transliterated[w] := TARGET;
          w := w + 1;
          i := i + 1;
        } else {
          transliterated[w] := bytes[i];
          w := w + 1;
        }
      } else {
        transliterated[w] := bytes[i];
        w := w + 1;
      }
      i := i + 1;
      StepAdvance(text, i0, w0, i, w);
    }
    assert i == |text|;
    assert transliterated[..w] == r;
    transliterated[w] := NUL;
    LengthCount(text);
    result, resLength, nullValue := transliterated, w, nullValueIn;
  }
}
