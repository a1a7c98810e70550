/**
 * The shift (Caesar) cipher of StringExtensions.Encryption.Displacement.cs.
 * After the letters-only check and upper-casing, every character found in
 * the alphabet A-Z at index j is replaced by the letter at index j + key
 * (a 32-bit sum that wraps around),
 * corrected once by +26 when negative and reduced by 26 while it is 26 or
 * more; spaces are copied; any other character adds nothing.
 */
module Displacement {
  import opened Wrappers
  import opened Primitives

  /** The exceptions ToDisplacementEncode can raise. */
  datatype CipherError =
    | NotLetters          // the ExtensionException of the letters-only check
    | IndexOutOfRange     // alphabet[eIndex] with eIndex still negative

  const Alphabet: string := "ABCDEFGHIJKLMNOPQRSTUVWXYZ"
  const AlphabetCount: int := 26

  /** Upper-casing of one character (ASCII letters only). */
  function UpperChar(c: char): (u: char)
    ensures 'a' <= c <= 'z' ==> 'A' <= u <= 'Z' && u as int - 'A' as int == c as int - 'a' as int
    ensures !('a' <= c <= 'z') ==> u == c
  {
    if 'a' <= c <= 'z' then (c as int - 'a' as int + 'A' as int) as char else c
  }

  /** string.ToUpper, character by character. */
  function Upper(s: string): (r: string)
    ensures |r| == |s| && forall i :: 0 <= i < |s| ==> r[i] == UpperChar(s[i])
  {
    seq(|s|, i requires 0 <= i < |s| => UpperChar(s[i]))
  }

  predicate IsUpperLetter(c: char) { 'A' <= c <= 'Z' }

  /** Alphabet is A-Z in order: index j holds the j-th letter. */
  lemma AlphabetIndex(j: int)
    requires 0 <= j < AlphabetCount
    ensures IsUpperLetter(Alphabet[j]) && Alphabet[j] as int == 'A' as int + j
  {
  }

  /** The index j with alphabet[j] == c, for an upper-case letter c. */
  function LetterIndex(c: char): (j: int)
    requires IsUpperLetter(c)
    ensures 0 <= j < AlphabetCount && Alphabet[j] == c
  {
    c as int - 'A' as int
  }

  /** The while loop after the negative-index correction: subtract 26 while the index is 26 or more. */
  function Reduce(e: int): (r: int)
    ensures r < AlphabetCount && (r >= 0 <==> e >= 0)
    decreases e
  {
    if e >= AlphabetCount then Reduce(e - AlphabetCount) else e
  }

  /** eIndex after the single negative correction and the reducing loop. */
  function ShiftedIndex(j: int, key: int): int
  {
    var e := Wrap32(j + key);
    Reduce(if e < 0 then AlphabetCount + e else e)
  }

  /** The output of one input character, or the exception it raises. */
  function EncodeChar(c: char, key: Int32): Result<string, CipherError>
  {
    if c == ' ' then Ok(" ")
    else if IsUpperLetter(c) then
      var e := ShiftedIndex(LetterIndex(c), key);
      if e < 0 then Err(IndexOutOfRange) else Ok([Alphabet[e]])
    else Ok([])
  }

  /** The output of the outer loop over an upper-cased text; the first exception wins. */
  function EncodeText(u: string, key: Int32): Result<string, CipherError>
    decreases |u|
  {
    if |u| == 0 then Ok([])
    else
      match EncodeText(u[..|u| - 1], key)
      case Err(e) => Err(e)
      case Ok(prefix) =>
        match EncodeChar(u[|u| - 1], key)
        case Err(e) => Err(e)
        case Ok(piece) => Ok(prefix + piece)
  }

  /** What ToDisplacementEncode(inputStr, key) returns or throws. */
  function Displaced(inputStr: string, key: Int32, isLetter: string -> bool): Result<string, CipherError>
  {
    if !isLetter(inputStr) then Err(NotLetters) else EncodeText(Upper(inputStr), key)
  }

  /**
   * ToDisplacementEncode with its nested loops, key 3 by default; isLetter
   * stands for the letters-only check, whose definition is not part of this model.
   */
  method ToDisplacementEncode(inputStr: string, isLetter: string -> bool, key: Int32 := 3)
    returns (r: Result<string, CipherError>)
    ensures !isLetter(inputStr) ==> r == Err(NotLetters)
    ensures r == Displaced(inputStr, key, isLetter)
  {
    var outputStr: string := [];
    if !isLetter(inputStr) {
      return Err(NotLetters);
    }
    var upper := Upper(inputStr);
    var count := |upper|;
    var i := 0;
    while i < count
      invariant 0 <= i <= count
      invariant EncodeText(upper[..i], key) == Ok(outputStr)
    {
      var piece: string;
      if upper[i] != ' ' {
        var shifted := ShiftLetter(upper[i], key);
        if shifted.Err? {
          assert upper[..i + 1][..i] == upper[..i] && upper[..i + 1][i] == upper[i];
          ErrorPropagates(upper, i + 1, key);
          assert upper[..count] == upper;
          return Err(IndexOutOfRange);
        }
        piece := shifted.value;
      } else {
        piece := " ";
      }
      EncodeTextStep(upper, i, key);
      outputStr := outputStr + piece;
      i := i + 1;
    }
    assert upper[..count] == upper;
    r := Ok(outputStr);
  }

  /**
   * The body of the outer loop for a character other than a space: the search
   * of the alphabet for the character, the index arithmetic and the break.
   */
  method ShiftLetter(c: char, key: Int32) returns (r: Result<string, CipherError>)
    requires c != ' '
    ensures r == EncodeChar(c, key)
  {
    var aCount := |Alphabet|;
    var j := 0;
    while j < aCount
      invariant 0 <= j <= aCount
      invariant IsUpperLetter(c) ==> j <= LetterIndex(c)
    {
      AlphabetIndex(j);
      if c == Alphabet[j] {
        var eIndex: int := Wrap32(j + key);
        if eIndex < 0 {
          eIndex := aCount + eIndex;
        }
        while eIndex >= aCount
          invariant Reduce(eIndex) == ShiftedIndex(j, key)
        {
          eIndex := eIndex - aCount;
        }
        assert LetterIndex(c) == j;
        if eIndex < 0 {
          return Err(IndexOutOfRange);
        }
        return Ok([Alphabet[eIndex]]);
      }
      j := j + 1;
    }
    r := Ok([]);
  }

  /** One more character of the outer loop: its piece is appended to the output so far. */
  lemma EncodeTextStep(u: string, n: nat, key: Int32)
    requires n < |u| && EncodeText(u[..n], key).Ok? && EncodeChar(u[n], key).Ok?
    ensures EncodeText(u[..n + 1], key) == Ok(EncodeText(u[..n], key).value + EncodeChar(u[n], key).value)
  {
    assert u[..n + 1][..n] == u[..n] && u[..n + 1][n] == u[n];
  }

  /** Once a prefix of the text raises, the whole text raises the same exception. */
  lemma {:induction false} ErrorPropagates(u: string, n: nat, key: Int32)
    requires n <= |u| && EncodeText(u[..n], key).Err?
    ensures EncodeText(u, key) == EncodeText(u[..n], key)
    decreases |u| - n
  {
    if n < |u| {
      assert u[..n + 1][..n] == u[..n];
      ErrorPropagates(u, n + 1, key);
    } else {
      assert u[..n] == u;
    }
  }

  /** DisplacementDecode, key 3 by default: the encoding with the negated key (-int.MinValue wraps to itself). */
  method DisplacementDecode(inputStr: string, isLetter: string -> bool, key: Int32 := 3)
    returns (r: Result<string, CipherError>)
    ensures r == Displaced(inputStr, Wrap32(-(key as int)), isLetter)
  {
    r := ToDisplacementEncode(inputStr, isLetter, Wrap32(-(key as int)));
  }

  /** The reducing loop computes the remainder for every non-negative index. */
  lemma {:induction false} ReduceIsMod(e: int)
    requires e >= 0
    ensures Reduce(e) == e % AlphabetCount
  {
    if e >= AlphabetCount {
      ReduceIsMod(e - AlphabetCount);
    }
  }

  /** While -26 <= j + key fits in an int, the shifted index is (j + key) mod 26, so always in range. */
  lemma ShiftedIndexMod(j: int, key: int)
    requires -AlphabetCount <= j + key < 0x8000_0000
    ensures ShiftedIndex(j, key) == (j + key) % AlphabetCount
    ensures 0 <= ShiftedIndex(j, key) < AlphabetCount
  {
    var e := j + key;
    if e < 0 {
      assert Reduce(AlphabetCount + e) == AlphabetCount + e;
    } else {
      ReduceIsMod(e);
    }
  }

  /** Below -26 the single correction leaves the index negative and the access fails. */
  lemma ShiftedIndexNegative(j: int, key: int)
    requires -0x8000_0000 <= j + key < -AlphabetCount
    ensures ShiftedIndex(j, key) < 0
  {
  }

  /** Past int.MaxValue the sum wraps to a large negative index and the access fails. */
  lemma ShiftedIndexOverflow(j: int, key: Int32)
    requires 0 <= j < AlphabetCount && j + key >= 0x8000_0000
    ensures ShiftedIndex(j, key) < 0
  {
    assert Wrap32(j + key) == j + key - 0x1_0000_0000;
  }

  /**
   * One letter: emitted as alphabet[(j + key) mod 26] while -26 <= j + key
   * fits in an int; below -26, or past int.MaxValue, the index error.
   */
  lemma EncodeLetter(c: char, key: Int32)
    requires IsUpperLetter(c)
    ensures -AlphabetCount <= LetterIndex(c) + key < 0x8000_0000 ==>
              EncodeChar(c, key) == Ok([Alphabet[(LetterIndex(c) + key) % AlphabetCount]])
    ensures LetterIndex(c) + key < -AlphabetCount || LetterIndex(c) + key >= 0x8000_0000 ==>
              EncodeChar(c, key) == Err(IndexOutOfRange)
  {
    var j := LetterIndex(c);
    if j + key >= 0x8000_0000 {
      ShiftedIndexOverflow(j, key);
    } else if j + key >= -AlphabetCount {
      ShiftedIndexMod(j, key);
    } else {
      ShiftedIndexNegative(j, key);
    }
  }

  /** Spaces pass through unchanged; any other character outside A-Z adds nothing. */
  lemma EncodeOther(c: char, key: Int32)
    requires !IsUpperLetter(c)
    ensures EncodeChar(c, key) == if c == ' ' then Ok(" ") else Ok([])
  {
  }

  predicate LettersAndSpaces(u: string)
  {
    forall i :: 0 <= i < |u| ==> IsUpperLetter(u[i]) || u[i] == ' '
  }

  /** Shifting every letter of a letters-and-spaces text by key, position by position. */
  function ShiftText(u: string, key: int): (r: string)
    requires LettersAndSpaces(u)
    ensures |r| == |u| && LettersAndSpaces(r)
  {
    seq(|u|, i requires 0 <= i < |u| =>
      if u[i] == ' ' then ' ' else Alphabet[(LetterIndex(u[i]) + key) % AlphabetCount])
  }

  /** With -26 <= key < int.MaxValue - 24 a letters-and-spaces text never fails and is ShiftText. */
  lemma {:induction false} EncodeTextShift(u: string, key: Int32)
    requires LettersAndSpaces(u) && -AlphabetCount <= key < 0x8000_0000 - (AlphabetCount - 1)
    ensures EncodeText(u, key) == Ok(ShiftText(u, key))
    decreases |u|
  {
    if |u| > 0 {
      var p := u[..|u| - 1];
      var c := u[|u| - 1];
      ShiftTextSnoc(u, key);
      EncodeTextShift(p, key);
      assert EncodeChar(c, key) == Ok([ShiftText(u, key)[|u| - 1]]) by {
        if c != ' ' {
          EncodeLetter(c, key);
        }
      }
    }
  }

  /** ShiftText of a non-empty text is ShiftText of all but its last character, then that one shifted. */
  lemma ShiftTextSnoc(u: string, key: int)
    requires LettersAndSpaces(u) && |u| > 0
    ensures LettersAndSpaces(u[..|u| - 1])
    ensures ShiftText(u, key) == ShiftText(u[..|u| - 1], key) + [ShiftText(u, key)[|u| - 1]]
  {
    var p := u[..|u| - 1];
    forall i | 0 <= i < |p| ensures IsUpperLetter(p[i]) || p[i] == ' ' {
      assert p[i] == u[i];
    }
    assert ShiftText(u, key)[..|u| - 1] == ShiftText(p, key);
  }

  /** Shifting an index by key and then by -key restores it when -26 <= key <= 26. */
  lemma IndexShiftInverse(j: int, key: int)
    requires 0 <= j < AlphabetCount && -AlphabetCount <= key <= AlphabetCount
    ensures ((j + key) % AlphabetCount - key) % AlphabetCount == j
  {
    var e := (j + key) % AlphabetCount;
    if j + key < 0 {
      assert e == j + key + AlphabetCount;
    } else if j + key >= AlphabetCount {
      assert e == j + key - AlphabetCount;
    } else {
      assert e == j + key;
    }
  }

  /** Shifting by key and then by -key restores the text when -26 <= key <= 26. */
  lemma ShiftTextInverse(u: string, key: int)
    requires LettersAndSpaces(u) && -AlphabetCount <= key <= AlphabetCount
    ensures ShiftText(ShiftText(u, key), -key) == u
  {
    var v := ShiftText(u, key);
    forall i | 0 <= i < |u|
      ensures ShiftText(v, -key)[i] == u[i]
    {
      if u[i] != ' ' {
        var j := LetterIndex(u[i]);
        var e := (j + key) % AlphabetCount;
        AlphabetIndex(e);
        assert LetterIndex(v[i]) == e;
        IndexShiftInverse(j, key);
        AlphabetIndex(j);
      }
    }
  }

  /**
   * DisplacementDecode(ToDisplacementEncode(s, k), k) gives back the upper-cased
   * text, for a text of letters and spaces accepted by the letters-only check,
   * whenever -26 <= k <= 26 and the check also accepts the cipher text.
   */
  lemma RoundTrip(s: string, key: Int32, isLetter: string -> bool)
    requires isLetter(s) && LettersAndSpaces(Upper(s))
    requires -AlphabetCount <= key <= AlphabetCount
    ensures Displaced(s, key, isLetter).Ok?
    ensures var c := Displaced(s, key, isLetter).value;
            isLetter(c) ==> Displaced(c, Wrap32(-(key as int)), isLetter) == Ok(Upper(s))
  {
    var u := Upper(s);
    EncodeTextShift(u, key);
    var c := ShiftText(u, key);
    assert Upper(c) == c;
    EncodeTextShift(c, -key);
    ShiftTextInverse(u, key);
  }

  /** Outside the bounds the round trip breaks: "Z" with key 27 encodes to "A", which decodes with an index error. */
  lemma RoundTripFailsBeyond26()
    ensures EncodeText("Z", 27) == Ok("A")
    ensures EncodeText("A", -27) == Err(IndexOutOfRange)
  {
    assert "Z"[..0] == [] && "Z"[0] == 'Z';
    assert "A"[..0] == [] && "A"[0] == 'A';
    assert ShiftedIndex(LetterIndex('Z'), 27) == 0 by {
      assert Reduce(52) == Reduce(26) == Reduce(0) == 0;
    }
    assert Alphabet[0] == 'A';
    assert EncodeChar('Z', 27) == Ok("A");
    assert EncodeText("Z"[..0], 27) == Ok([]);
    EncodeTextStep("Z", 0, 27);
    assert "Z"[..1] == "Z";
    assert EncodeText("Z", 27) == Ok([] + "A");
    assert [] + "A" == "A";
  }

  /** The 32-bit wrap-around: "Z" with key int.MaxValue raises the index error, and -int.MinValue is int.MinValue. */
  lemma KeyWrapsAround()
    ensures EncodeText("Z", 0x7FFF_FFFF) == Err(IndexOutOfRange)
    ensures Wrap32(-(-0x8000_0000)) == -0x8000_0000
  {
    assert "Z"[..0] == [] && "Z"[0] == 'Z';
    ShiftedIndexOverflow(LetterIndex('Z'), 0x7FFF_FFFF);
    assert EncodeChar('Z', 0x7FFF_FFFF) == Err(IndexOutOfRange);
    assert EncodeText("Z"[..0], 0x7FFF_FFFF) == Ok([]);
    assert "Z"[..1] == "Z";
  }
}
