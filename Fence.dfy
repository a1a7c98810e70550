/**
 * The two-rail fence cipher of StringExtensions.Encryption.Fence.cs.
 * Encoding writes the characters at even positions first and those at odd
 * positions after them; decoding interleaves the two halves again.
 */
module Fence {

  /** Number of even positions of a text of length n, that is ceil(n/2). */
  function EvenCount(n: nat): nat { (n + 1) / 2 }

  /** The characters at even positions, in order. */
  function Evens(s: string): (r: string)
    ensures |r| == EvenCount(|s|)
    ensures forall k :: 0 <= k < |r| ==> r[k] == s[2 * k]
  {
    seq(EvenCount(|s|), k requires 0 <= k < EvenCount(|s|) => s[2 * k])
  }

  /** The characters at odd positions, in order. */
  function Odds(s: string): (r: string)
    ensures |r| == |s| / 2
    ensures forall k :: 0 <= k < |r| ==> r[k] == s[2 * k + 1]
  {
    seq(|s| / 2, k requires 0 <= k < |s| / 2 => s[2 * k + 1])
  }

  /** What ToFenceEncode returns: the even rail followed by the odd rail. */
  function Encoded(s: string): (r: string)
    ensures |r| == |s|
    ensures forall k :: 0 <= k < EvenCount(|s|) ==> r[k] == s[2 * k]
    ensures forall k :: EvenCount(|s|) <= k < |s| ==> r[k] == s[2 * (k - EvenCount(|s|)) + 1]
  {
    Evens(s) + Odds(s)
  }

  /**
   * What FenceDecode returns: position i of the plain text is taken from the
   * first ceil(n/2) characters when i is even and from the rest when i is odd.
   */
  function Decoded(t: string): (r: string)
    ensures |r| == |t|
  {
    var h := EvenCount(|t|);
    seq(|t|, i requires 0 <= i < |t| => if i % 2 == 0 then t[i / 2] else t[h + i / 2])
  }

  /** ToFenceEncode: one pass over the input, appending to one of two rails. */
  method ToFenceEncode(inputStr: string) returns (r: string)
    ensures r == Encoded(inputStr)
  {
    var outPutStr: string := [];
    var outPutStr2: string := [];
    var count := |inputStr|;
    for i := 0 to count
      invariant |outPutStr| == EvenCount(i) && |outPutStr2| == i / 2
      invariant forall k :: 0 <= k < |outPutStr| ==> outPutStr[k] == inputStr[2 * k]
      invariant forall k :: 0 <= k < |outPutStr2| ==> outPutStr2[k] == inputStr[2 * k + 1]
    {
      if i % 2 == 0 {
        outPutStr := outPutStr + [inputStr[i]];
      } else {
        outPutStr2 := outPutStr2 + [inputStr[i]];
      }
    }
    assert outPutStr == Evens(inputStr);
    assert outPutStr2 == Odds(inputStr);
    r := outPutStr + outPutStr2;
  }

  /**
   * FenceDecode: split at ceil(n/2), then take the next character of the
   * first half at even positions and of the second half at odd positions.
   * The counters never run past their halves.
   */
  method FenceDecode(inputStr: string) returns (r: string)
    ensures r == Decoded(inputStr)
  {
    var count := |inputStr|;
    var outPutStr: string := [];
    var outPutStr1: string;
    var outPutStr2: string;
    var num1 := 0;
    var num2 := 0;
    if count % 2 == 0 {
      outPutStr1 := inputStr[..count / 2];
      outPutStr2 := inputStr[count / 2..];
    } else {
      outPutStr1 := inputStr[..count / 2 + 1];
      outPutStr2 := inputStr[count / 2 + 1..];
    }
    assert |outPutStr1| == EvenCount(count);
    for i := 0 to count
      invariant num1 == EvenCount(i) <= |outPutStr1|
      invariant num2 == i / 2 <= |outPutStr2|
      invariant |outPutStr| == i
      invariant forall k :: 0 <= k < i ==> outPutStr[k] == Decoded(inputStr)[k]
    {
      if i % 2 == 0 {
        outPutStr := outPutStr + [outPutStr1[num1]];
        num1 := num1 + 1;
      } else {
        outPutStr := outPutStr + [outPutStr2[num2]];
        num2 := num2 + 1;
      }
    }
    r := outPutStr;
  }

  /** Decoding undoes encoding, for every text. */
  lemma DecodeEncode(s: string)
    ensures Decoded(Encoded(s)) == s
  {
    var e := Encoded(s);
    var h := EvenCount(|s|);
    forall i | 0 <= i < |s|
      ensures Decoded(e)[i] == s[i]
    {
      if i % 2 == 0 {
        assert e[i / 2] == s[2 * (i / 2)];
      } else {
        assert e[h + i / 2] == Odds(s)[i / 2];
      }
    }
  }

  /** Encoding undoes decoding, for every text: the split point ceil(n/2) is the right one. */
  lemma EncodeDecode(t: string)
    ensures Encoded(Decoded(t)) == t
  {
    var d := Decoded(t);
    var h := EvenCount(|t|);
    forall k | 0 <= k < |t|
      ensures Encoded(d)[k] == t[k]
    {
      if k < h {
        assert Encoded(d)[k] == d[2 * k];
        assert (2 * k) / 2 == k;
      } else {
        var j := k - h;
        assert Encoded(d)[k] == Odds(d)[j] == d[2 * j + 1];
        assert (2 * j + 1) / 2 == j;
      }
    }
  }
}
