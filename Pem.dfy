/**
 * The PEM text framing of StringExtensions.Encryption.RSA.cs (the textual
 * encoding of section 2 of RFC 7468): FormatPEM writes a BEGIN line, the
 * base64 text of the key in lines of 64 characters and an END line;
 * GetBytesFromPEM removes the two label lines and every line break with a
 * regular expression and decodes what is left. Base64 (section 4 of RFC 4648)
 * is a pair of function parameters, related only by the laws in
 * IsBase64Codec.
 */
module Pem {
  import opened Wrappers
  import opened Primitives

  /** The line terminator that StringBuilder.AppendLine writes (Environment.NewLine). */
  datatype NewLine = LF | CRLF

  function NewLineText(nl: NewLine): (t: string)
    ensures t == "\n" || t == "\r\n"
  {
    match nl
    case LF => "\n"
    case CRLF => "\r\n"
  }

  const Dashes: string := "-----"
  const BeginPrefix: string := "-----BEGIN "
  const EndPrefix: string := "-----END "
  const LineWidth: nat := 64

  function Header(keyType: string): string { BeginPrefix + keyType + Dashes }
  function Footer(keyType: string): string { EndPrefix + keyType + Dashes }

  predicate StartsWith(s: string, p: string) { |p| <= |s| && s[..|p|] == p }

  /** p occurs in s at position k. */
  predicate OccursAt(s: string, p: string, k: int)
  {
    0 <= k && k + |p| <= |s| && s[k..k + |p|] == p
  }

  /** string.Contains */
  predicate Contains(s: string, p: string)
  {
    exists k :: 0 <= k <= |s| - |p| && OccursAt(s, p, k)
  }

  /** The characters Convert.ToBase64String writes. */
  predicate IsBase64Char(c: char)
  {
    'A' <= c <= 'Z' || 'a' <= c <= 'z' || '0' <= c <= '9' || c == '+' || c == '/' || c == '='
  }

  predicate IsBase64Text(s: string)
  {
    forall i :: 0 <= i < |s| ==> IsBase64Char(s[i])
  }

  /**
   * The properties of Convert.ToBase64String and Convert.FromBase64String
   * that the framing relies on: the text uses only the base64 alphabet, and
   * decoding gives back the bytes (None stands for the FormatException).
   */
  ghost predicate IsBase64Codec(toBase64: seq<byte> -> string, fromBase64: string -> Option<seq<byte>>)
  {
    forall d :: IsBase64Text(toBase64(d)) && fromBase64(toBase64(d)) == Some(d)
  }

  /** Concatenation of a sequence of lines. */
  function Flatten(lines: seq<string>): string
  {
    if |lines| == 0 then [] else lines[0] + Flatten(lines[1..])
  }

  /** The body lines FormatPEM cuts from the base64 text. */
  function Chunks(s: string): seq<string>
    decreases |s|
  {
    if |s| == 0 then []
    else if |s| <= LineWidth then [s]
    else [s[..LineWidth]] + Chunks(s[LineWidth..])
  }

  /**
   * The lines give back the base64 text; there are ceil(len/64) of them
   * (none for an empty text), all of 64 characters except the last, which
   * has 1 to 64.
   */
  lemma {:induction false} ChunksShape(s: string)
    ensures var r := Chunks(s);
            && Flatten(r) == s
            && |r| == (|s| + LineWidth - 1) / LineWidth
            && (forall k :: 0 <= k < |r| - 1 ==> |r[k]| == LineWidth)
            && (|r| > 0 ==> 1 <= |r[|r| - 1]| <= LineWidth)
    decreases |s|
  {
    if |s| > LineWidth {
      var t := s[LineWidth..];
      ChunksShape(t);
      var r := Chunks(s);
      assert r[1..] == Chunks(t);
      assert Flatten(r) == s[..LineWidth] + Flatten(Chunks(t));
    }
  }

  /** Every line followed by the line terminator, as AppendLine writes them. */
  function Lines(lines: seq<string>, nl: NewLine): string
  {
    if |lines| == 0 then [] else lines[0] + NewLineText(nl) + Lines(lines[1..], nl)
  }

  /** The text FormatPEM returns for the base64 text b64. */
  function PemText(b64: string, keyType: string, nl: NewLine): string
  {
    Header(keyType) + NewLineText(nl) + Lines(Chunks(b64), nl) + Footer(keyType)
  }

  /** The base64 text from position i on (empty once i has passed the end). */
  function RestFrom(s: string, i: nat): string
  {
    if i <= |s| then s[i..] else []
  }

  /** One turn of FormatPEM's loop cuts the next line off the rest of the text. */
  lemma ChunksStep(s: string, i: nat)
    requires i < |s|
    ensures var length := if LineWidth < |s| - i then LineWidth else |s| - i;
            Chunks(RestFrom(s, i)) == [s[i..i + length]] + Chunks(RestFrom(s, i + LineWidth))
  {
    var rest := s[i..];
    assert RestFrom(s, i) == rest;
    if |rest| > LineWidth {
      assert rest[LineWidth..] == RestFrom(s, i + LineWidth);
      assert rest[..LineWidth] == s[i..i + LineWidth];
    } else {
      assert RestFrom(s, i + LineWidth) == [];
      assert Chunks(rest) == [rest];
      assert s[i..i + (|s| - i)] == rest;
      assert Chunks([]) == [];
    }
  }

  /** The PEM text opens with the BEGIN line and closes with the END line, with no line break after it. */
  lemma PemTextFrame(b64: string, keyType: string, nl: NewLine)
    ensures StartsWith(PemText(b64, keyType, nl), Header(keyType) + NewLineText(nl))
    ensures var pem := PemText(b64, keyType, nl);
            |Footer(keyType)| <= |pem| && pem[|pem| - |Footer(keyType)|..] == Footer(keyType)
  {
    var pem := PemText(b64, keyType, nl);
    var start := Header(keyType) + NewLineText(nl);
    assert pem == start + (Lines(Chunks(b64), nl) + Footer(keyType));
    assert pem[..|start|] == start;
  }

  /** The text one turn of FormatPEM's loop appends: the next line and a line terminator. */
  lemma LinesStep(s: string, i: nat, nl: NewLine)
    requires i < |s|
    ensures var length := if LineWidth < |s| - i then LineWidth else |s| - i;
            Lines(Chunks(RestFrom(s, i)), nl)
              == s[i..i + length] + NewLineText(nl) + Lines(Chunks(RestFrom(s, i + LineWidth)), nl)
  {
    var length := if LineWidth < |s| - i then LineWidth else |s| - i;
    var rest := Chunks(RestFrom(s, i + LineWidth));
    ChunksStep(s, i);
    assert ([s[i..i + length]] + rest)[1..] == rest;
  }

  /** Appending a line and its terminator moves them from the text still to come into the builder. */
  lemma AppendStep(sb: string, line: string, nl: string, later: string)
    ensures (sb + line + nl) + later == sb + (line + nl + later)
  {
  }

  /** One turn of FormatPEM's loop keeps the builder plus the lines still to come unchanged. */
  lemma FormatStep(sb: string, s: string, i: nat, nl: NewLine)
    requires i < |s|
    ensures var length := if LineWidth < |s| - i then LineWidth else |s| - i;
            (sb + s[i..i + length] + NewLineText(nl)) + Lines(Chunks(RestFrom(s, i + LineWidth)), nl)
              == sb + Lines(Chunks(RestFrom(s, i)), nl)
  {
    var length := if LineWidth < |s| - i then LineWidth else |s| - i;
    LinesStep(s, i, nl);
    AppendStep(sb, s[i..i + length], NewLineText(nl), Lines(Chunks(RestFrom(s, i + LineWidth)), nl));
  }

  /** FormatPEM: the StringBuilder loop stepping i by 64. */
  method FormatPEM(data: seq<byte>, keyType: string, toBase64: seq<byte> -> string, nl: NewLine)
    returns (pem: string)
    ensures pem == PemText(toBase64(data), keyType, nl)
  {
    var base64 := toBase64(data);
    ghost var whole := Header(keyType) + NewLineText(nl) + Lines(Chunks(base64), nl);
    var sb: string := Header(keyType) + NewLineText(nl);
    var i := 0;
    assert RestFrom(base64, 0) == base64;
    while i < |base64|
      invariant sb + Lines(Chunks(RestFrom(base64, i)), nl) == whole
      decreases |base64| - i
    {
      var length := if LineWidth < |base64| - i then LineWidth else |base64| - i;
      var line := base64[i..i + length];
      FormatStep(sb, base64, i, nl);
      sb := sb + line + NewLineText(nl);
      i := i + LineWidth;
    }
    assert RestFrom(base64, i) == [];
    sb := sb + Footer(keyType);
    pem := sb;
  }

  // ---------------------------------------------------------------------------
  // Regex.Replace(pem, "-----BEGIN .+?-----|\r?\n|-----END .+?-----", "")
  // ---------------------------------------------------------------------------

  /**
   * Length of the shortest match of ".+?-----" at the start of t, where the
   * lazy part has already taken k - 1 characters; 0 when there is none.
   * As in .NET, "." takes every character except '\n'.
   */
  function LazyClose(t: string, k: nat): (m: nat)
    requires k >= 1
    ensures m == 0 || k + |Dashes| <= m <= |t|
    decreases |t| - k
  {
    if k > |t| || t[k - 1] == '\n' then 0
    else if StartsWith(t[k..], Dashes) then k + |Dashes|
    else LazyClose(t, k + 1)
  }

  /**
   * Length of the match of the pattern at the start of s, or 0 when it does
   * not match there. The three alternatives start with different characters,
   * so the first character decides which one is tried; BEGIN is tried before END.
   */
  function MatchLength(s: string): (m: nat)
    ensures m <= |s|
    ensures m > 0 ==> s[0] == '-' || s[0] == '\r' || s[0] == '\n'
  {
    if |s| == 0 then 0
    else if s[0] == '-' then
      if StartsWith(s, BeginPrefix) && LazyClose(s[|BeginPrefix|..], 1) > 0 then
        |BeginPrefix| + LazyClose(s[|BeginPrefix|..], 1)
      else if StartsWith(s, EndPrefix) && LazyClose(s[|EndPrefix|..], 1) > 0 then
        |EndPrefix| + LazyClose(s[|EndPrefix|..], 1)
      else 0
    else if s[0] == '\r' then (if StartsWith(s, "\r\n") then 2 else 0)
    else if s[0] == '\n' then 1
    else 0
  }

  /** The replacement: every match, scanning left to right, is removed; other characters are kept. */
  function RemoveMatches(s: string): string
    decreases |s|
  {
    if |s| == 0 then []
    else if MatchLength(s) > 0 then RemoveMatches(s[MatchLength(s)..])
    else [s[0]] + RemoveMatches(s[1..])
  }

  /** Removing matches never lengthens the text. */
  lemma {:induction false} RemoveMatchesLength(s: string)
    ensures |RemoveMatches(s)| <= |s|
    decreases |s|
  {
    if |s| > 0 {
      if MatchLength(s) > 0 {
        RemoveMatchesLength(s[MatchLength(s)..]);
      } else {
        RemoveMatchesLength(s[1..]);
      }
    }
  }

  /**
   * Regex.Replace(pemString, pattern, ""): never longer than its input, and
   * text of base64 characters alone contains no match.
   */
  function Strip(s: string): (r: string)
    ensures |r| <= |s|
    ensures IsBase64Text(s) ==> r == s
  {
    RemoveMatchesLength(s);
    if IsBase64Text(s) then
      StripBase64(s, []);
      assert s + [] == s;
      RemoveMatches(s)
    else
      RemoveMatches(s)
  }

  /**
   * GetBytesFromPEM: strip the label lines and line breaks, then decode the
   * base64 text; bare base64 text is decoded as it is.
   */
  function GetBytesFromPEM(pemString: string, fromBase64: string -> Option<seq<byte>>): (r: Option<seq<byte>>)
    ensures IsBase64Text(pemString) ==> r == fromBase64(pemString)
  {
    fromBase64(Strip(pemString))
  }

  /**
   * A label the regular expression closes exactly at its own "-----": not
   * empty, no line break, no "-----" inside and no '-' at its end.
   */
  predicate SafeLabel(keyType: string)
  {
    |keyType| > 0 && '\n' !in keyType && keyType[|keyType| - 1] != '-' && !Contains(keyType, Dashes)
  }

  /** Inside a safe label no "-----" begins, not even one reaching into the closing dashes. */
  lemma NoEarlyClose(keyType: string, rest: string, k: nat)
    requires SafeLabel(keyType) && 0 < k < |keyType|
    ensures !StartsWith((keyType + Dashes + rest)[k..], Dashes)
  {
    var t := keyType + Dashes + rest;
    var n := |keyType|;
    if k + |Dashes| <= n {
      assert !OccursAt(keyType, Dashes, k);
      assert t[k..k + |Dashes|] == keyType[k..k + |Dashes|];
    } else {
      assert t[k..][n - 1 - k] == keyType[n - 1] != '-';
    }
  }

  /** The lazy part of the pattern stops right after a safe label. */
  lemma {:induction false} LazyCloseLabel(keyType: string, rest: string, k: nat)
    requires SafeLabel(keyType) && 1 <= k <= |keyType|
    ensures LazyClose(keyType + Dashes + rest, k) == |keyType| + |Dashes|
    decreases |keyType| - k
  {
    var t := keyType + Dashes + rest;
    assert t[k - 1] == keyType[k - 1];
    if k < |keyType| {
      NoEarlyClose(keyType, rest, k);
      LazyCloseLabel(keyType, rest, k + 1);
    } else {
      assert t[k..][..|Dashes|] == Dashes;
    }
  }

  /** The BEGIN line is one match. */
  lemma StripHeader(keyType: string, rest: string)
    requires SafeLabel(keyType)
    ensures RemoveMatches(Header(keyType) + rest) == RemoveMatches(rest)
  {
    var s := Header(keyType) + rest;
    assert s[..|BeginPrefix|] == BeginPrefix;
    assert s[|BeginPrefix|..] == keyType + Dashes + rest;
    LazyCloseLabel(keyType, rest, 1);
    assert MatchLength(s) == |Header(keyType)|;
    assert s[|Header(keyType)|..] == rest;
  }

  /** The END line is one match. */
  lemma StripFooter(keyType: string)
    requires SafeLabel(keyType)
    ensures RemoveMatches(Footer(keyType)) == []
  {
    var s := Footer(keyType);
    assert s[5] == 'E' != BeginPrefix[5];
    assert !StartsWith(s, BeginPrefix);
    assert s[..|EndPrefix|] == EndPrefix;
    assert s[|EndPrefix|..] == keyType + Dashes + [];
    LazyCloseLabel(keyType, [], 1);
    assert MatchLength(s) == |s|;
    assert s[|s|..] == [];
  }

  /** A line break is one match. */
  lemma StripNewLine(nl: NewLine, rest: string)
    ensures RemoveMatches(NewLineText(nl) + rest) == RemoveMatches(rest)
  {
    var s := NewLineText(nl) + rest;
    assert s[..|NewLineText(nl)|] == NewLineText(nl);
    assert MatchLength(s) == |NewLineText(nl)|;
    assert s[MatchLength(s)..] == rest;
  }

  /** A character other than '-', '\r' and '\n' starts no match and is kept. */
  lemma KeptChar(s: string)
    requires |s| > 0 && s[0] != '-' && s[0] != '\r' && s[0] != '\n'
    ensures RemoveMatches(s) == [s[0]] + RemoveMatches(s[1..])
  {
    assert MatchLength(s) == 0;
  }

  /** The first character of base64 text is a base64 character, and the rest is base64 text. */
  lemma Base64Cons(w: string)
    requires IsBase64Text(w) && |w| > 0
    ensures IsBase64Char(w[0]) && IsBase64Text(w[1..])
  {
    assert forall i :: 0 <= i < |w| - 1 ==> w[1..][i] == w[i + 1];
  }

  /** A leading base64 character is kept. */
  lemma StripBase64Cons(w: string, rest: string)
    requires IsBase64Text(w) && |w| > 0
    ensures RemoveMatches(w + rest) == [w[0]] + RemoveMatches(w[1..] + rest)
  {
    var s := w + rest;
    Base64Cons(w);
    assert s[0] == w[0];
    KeptChar(s);
    assert s[1..] == w[1..] + rest;
  }

  /** Base64 characters never start a match, so they are kept. */
  lemma {:induction false} StripBase64(w: string, rest: string)
    requires IsBase64Text(w)
    ensures RemoveMatches(w + rest) == w + RemoveMatches(rest)
    decreases |w|
  {
    if |w| > 0 {
      StripBase64Cons(w, rest);
      Base64Cons(w);
      StripBase64(w[1..], rest);
      assert [w[0]] + (w[1..] + RemoveMatches(rest)) == w + RemoveMatches(rest);
    } else {
      assert w + rest == rest;
    }
  }

  /** A base64 line and its terminator strip to the line. */
  lemma StripLine(line: string, nl: NewLine, tail: string)
    requires IsBase64Text(line)
    ensures RemoveMatches(line + (NewLineText(nl) + tail)) == line + RemoveMatches(tail)
  {
    StripBase64(line, NewLineText(nl) + tail);
    StripNewLine(nl, tail);
  }

  /** The first line, its terminator, then the remaining lines. */
  lemma LinesCons(lines: seq<string>, nl: NewLine, rest: string)
    requires |lines| > 0
    ensures Lines(lines, nl) + rest == lines[0] + (NewLineText(nl) + (Lines(lines[1..], nl) + rest))
  {
  }

  /** The body lines strip to their concatenation. */
  lemma {:induction false} StripLines(lines: seq<string>, nl: NewLine, rest: string)
    requires forall k :: 0 <= k < |lines| ==> IsBase64Text(lines[k])
    ensures RemoveMatches(Lines(lines, nl) + rest) == Flatten(lines) + RemoveMatches(rest)
    decreases |lines|
  {
    if |lines| > 0 {
      var tail := Lines(lines[1..], nl) + rest;
      LinesCons(lines, nl, rest);
      StripLine(lines[0], nl, tail);
      StripLines(lines[1..], nl, rest);
      assert lines[0] + (Flatten(lines[1..]) + RemoveMatches(rest)) == Flatten(lines) + RemoveMatches(rest);
    } else {
      assert Lines(lines, nl) + rest == rest;
    }
  }

  /** Every line cut from a base64 text is base64 text. */
  lemma ChunksBase64(s: string)
    requires IsBase64Text(s)
    ensures forall k :: 0 <= k < |Chunks(s)| ==> IsBase64Text(Chunks(s)[k])
    decreases |s|
  {
    if |s| > LineWidth {
      ChunksBase64(s[LineWidth..]);
      assert Chunks(s) == [s[..LineWidth]] + Chunks(s[LineWidth..]);
    }
  }

  /** PemText, grouped as the stripping proof reads it. */
  lemma PemTextParts(b64: string, keyType: string, nl: NewLine)
    ensures PemText(b64, keyType, nl)
              == Header(keyType) + (NewLineText(nl) + (Lines(Chunks(b64), nl) + Footer(keyType)))
  {
  }

  /** Joining the lines cut from a text gives the text back. */
  lemma FlattenChunks(s: string)
    ensures Flatten(Chunks(s)) == s
  {
    ChunksShape(s);
  }

  /** Regex.Replace on FormatPEM's text leaves exactly the base64 text. */
  lemma StripPemText(b64: string, keyType: string, nl: NewLine)
    requires IsBase64Text(b64) && SafeLabel(keyType)
    ensures RemoveMatches(PemText(b64, keyType, nl)) == b64
  {
    var lines := Chunks(b64);
    var body := Lines(lines, nl) + Footer(keyType);
    PemTextParts(b64, keyType, nl);
    ChunksBase64(b64);
    FlattenChunks(b64);
    calc {
      RemoveMatches(PemText(b64, keyType, nl));
      { StripHeader(keyType, NewLineText(nl) + body); }
      RemoveMatches(NewLineText(nl) + body);
      { StripNewLine(nl, body); }
      RemoveMatches(body);
      { StripLines(lines, nl, Footer(keyType)); }
      Flatten(lines) + RemoveMatches(Footer(keyType));
      { StripFooter(keyType); }
      Flatten(lines) + [];
      b64;
    }
  }

  /** GetBytesFromPEM(FormatPEM(d, keyType)) == d, on either line terminator. */
  lemma PemRoundTrip(data: seq<byte>, keyType: string, nl: NewLine,
                     toBase64: seq<byte> -> string, fromBase64: string -> Option<seq<byte>>)
    requires IsBase64Codec(toBase64, fromBase64) && SafeLabel(keyType)
    ensures GetBytesFromPEM(PemText(toBase64(data), keyType, nl), fromBase64) == Some(data)
  {
    StripPemText(toBase64(data), keyType, nl);
  }

  /** A label ending in '-' breaks the round trip: the lazy match closes one dash early. */
  lemma TrailingDashLeftOver()
    ensures RemoveMatches(Header("A-") + "\n") == "-"
  {
    var s := Header("A-") + "\n";
    assert s == "-----BEGIN A------\n";
    var t := s[|BeginPrefix|..];
    assert t == "A------\n";
    assert t[1..][..|Dashes|] == Dashes;
    assert LazyClose(t, 1) == 6;
    assert MatchLength(s) == 17;
    var u := s[17..];
    assert u == "-\n";
    assert MatchLength(u) == 0;
    assert u[1..] == "\n";
    assert MatchLength("\n") == 1;
    assert RemoveMatches("\n") == RemoveMatches([]) == [];
  }

  /** The label GetXmlKeyFromPEM gives the exported key: a private key exactly when the XML has a P element. */
  function XmlKeyLabel(xmlKey: string): (keyType: string)
    ensures keyType == "PRIVATE KEY" <==> Contains(xmlKey, "<P>")
    ensures keyType == "PUBLIC KEY" <==> !Contains(xmlKey, "<P>")
  {
    if Contains(xmlKey, "<P>") then "PRIVATE KEY" else "PUBLIC KEY"
  }

  /** Both labels GetXmlKeyFromPEM uses can be read back by GetBytesFromPEM. */
  lemma XmlKeyLabelSafe(xmlKey: string)
    ensures SafeLabel(XmlKeyLabel(xmlKey))
  {
    var l := XmlKeyLabel(xmlKey);
    forall k | 0 <= k <= |l| - |Dashes| ensures !OccursAt(l, Dashes, k) {
      assert l[k..k + |Dashes|][0] == l[k] != '-';
    }
  }
}
