/**
 The decoder's laws on the bytes of a text: the equations that define it, what the case of digits, the
 flag word and the redirect mode make of a text, independently of tokens and states.
 */
module UriLaws {
  import opened Bytes
  import opened EscapeTables
  import opened UriSpec
  import opened UriRoundTrip
  import opened UriCanonical
  import opened UriRedirect
  import opened UriRedirectExact

  // ------------------------------------------------------------------------------- defining equations

  /** The percent sign and the two digits of `b`, each in either case. */
  predicate Denotes(escape: seq<Byte>, b: Byte) {
    && |escape| == 3 && escape[0] == 0x25
    && SameDigit(escape[1], HexDigit(b >> 4)) && SameDigit(escape[2], HexDigit(b & 0xf))
  }

  lemma PrintedInEitherCase(ch: Byte)
    requires IsHex(ch)
    ensures HexValue(ch) < 16 && SameDigit(ch, HexDigit(HexValue(ch)))
  {
  }

  lemma Nibbles(hi: Byte, lo: Byte)
    requires IsHex(hi) && IsHex(lo)
    ensures HexPair(hi, lo) >> 4 == HexValue(hi) && HexPair(hi, lo) & 0xf == HexValue(lo)
  {
  }

  /** Two digits denote one byte, and each byte has an escape for every choice of case. */
  lemma DigitsDenote(hi: Byte, lo: Byte, b: Byte)
    ensures Denotes([0x25, hi, lo], b) <==> IsHex(hi) && IsHex(lo) && HexPair(hi, lo) == b
  {
    PrintThenParse(b);
    hide HexDigit, SameDigit, IsHex, IsUpperHex, HexValue;
    UpperIsHex(HexDigit(b >> 4));
    UpperIsHex(HexDigit(b & 0xf));
    if Denotes([0x25, hi, lo], b) {
      CaseOfDigit(hi, HexDigit(b >> 4));
      CaseOfDigit(lo, HexDigit(b & 0xf));
    }
    if IsHex(hi) && IsHex(lo) && HexPair(hi, lo) == b {
      PrintedInEitherCase(hi);
      PrintedInEitherCase(lo);
      Nibbles(hi, lo);
    }
  }

  lemma UpperIsHex(ch: Byte)
    requires IsUpperHex(ch)
    ensures IsHex(ch)
  {
  }

  /**
   Six equations: nothing; a character; an escape in either case; a percent sign before a character that is
   no digit; an escape with a bad second digit; an unfinished escape at the end.
   */
  ghost predicate Decodes(d: seq<Byte> -> seq<Byte>) {
    && d([]) == []
    && (forall b, x | b != 0x25 :: d([b] + x) == [b] + d(x))
    && (forall b, escape, x | Denotes(escape, b) :: d(escape + x) == [b] + d(x))
    && (forall c, x | !IsHex(c) :: d([0x25, c] + x) == [c] + d(x))
    && (forall h, c, x | IsHex(h) && !IsHex(c) :: d([0x25, h, c] + x) == d(x))
    && d([0x25]) == [] && (forall h | IsHex(h) :: d([0x25, h]) == [])
  }

  /** A malformed or unfinished escape, for every flag word. */
  lemma MalformedEscapes(f: Flags, h: Byte, c: Byte, x: seq<Byte>)
    requires IsHex(h) && !IsHex(c)
    ensures Unescape(f, [0x25, c] + x) == Unescape(f, x).After([c], 2)
    ensures Unescape(f, [0x25, h, c] + x) == Unescape(f, x).After([], 3)
    ensures Unescape(f, [0x25]) == Decoded([], 1, Quoted)
    ensures Unescape(f, [0x25, h]) == Decoded([], 2, QuotedSecond)
  {
    hide Unescape, IsHex;
    var bad, cut := [0x25, c] + x, [0x25, h, c] + x;
    assert bad[0] == 0x25 && bad[1] == c && cut[0] == 0x25 && cut[1] == h && cut[2] == c;
    UnescapePeel(f, [0x25, c], x, [c]);
    UnescapePeel(f, [0x25, h, c], x, []);
    UnescapeToken(f, [0x25], Token([], 1, Quoted));
    UnescapeToken(f, [0x25, h], Token([], 2, QuotedSecond));
  }

  /** The plain decoder satisfies the equations. */
  lemma MeaningDecodes()
    ensures Decodes(Meaning)
  {
    hide Unescape, IsHex, Denotes, HexPair;
    NothingToDecode(PLAIN);
    forall b, x: seq<Byte> | b != 0x25 ensures Meaning([b] + x) == [b] + Meaning(x) {
      LiteralTaken(b, x);
    }
    forall b, escape, x: seq<Byte> | Denotes(escape, b) ensures Meaning(escape + x) == [b] + Meaning(x) {
      DenotedIsTaken(b, escape, x);
    }
    assert IsHex(0x30) && !IsHex(0x25) by { HexDigitsAre(0x30); HexDigitsAre(0x25); }
    forall h, c, x | IsHex(h) && !IsHex(c)
      ensures Meaning([0x25, c] + x) == [c] + Meaning(x) && Meaning([0x25, h, c] + x) == Meaning(x)
    {
      MalformedEscapes(PLAIN, h, c, x);
    }
    forall h | IsHex(h) ensures Meaning([0x25, h]) == [] && Meaning([0x25]) == [] {
      MalformedEscapes(PLAIN, h, 0x25, []);
    }
  }

  /** The escape of a byte, with each digit in either case, is decoded to that byte. */
  lemma DenotedIsTaken(b: Byte, escape: seq<Byte>, x: seq<Byte>)
    requires Denotes(escape, b)
    ensures Meaning(escape + x) == [b] + Meaning(x)
  {
    hide Unescape, IsHex, HexPair;
    assert escape == [0x25, escape[1], escape[2]];
    DigitsDenote(escape[1], escape[2], b);
    EscapeTaken(escape[1], escape[2], x);
  }

  /** And it is the only function that does: the equations say all there is to say about decoding. */
  lemma {:induction false} OnlyMeaningDecodes(d: seq<Byte> -> seq<Byte>, s: seq<Byte>)
    requires Decodes(d)
    ensures d(s) == Meaning(s)
    decreases |s|
  {
    hide Unescape, IsHex, Denotes, HexPair;
    MeaningDecodes();
    if s == [] {
    } else if s[0] != 0x25 {
      assert s == [s[0]] + s[1..];
      OnlyMeaningDecodes(d, s[1..]);
    } else if |s| == 1 {
      assert s == [0x25];
    } else if !IsHex(s[1]) {
      assert s == [0x25, s[1]] + s[2..];
      OnlyMeaningDecodes(d, s[2..]);
    } else if |s| == 2 {
      assert s == [0x25, s[1]];
    } else {
      var triple := [0x25, s[1], s[2]];
      assert s == triple + s[3..];
      OnlyMeaningDecodes(d, s[3..]);
      if IsHex(s[2]) {
        var b := HexPair(s[1], s[2]);
        DigitsDenote(s[1], s[2], b);
        assert Denotes(triple, b);
        assert d(triple + s[3..]) == [b] + d(s[3..]);
        DenotedIsTaken(b, triple, s[3..]);
      } else {
        assert d([0x25, s[1], s[2]] + s[3..]) == d(s[3..]);
        assert Meaning([0x25, s[1], s[2]] + s[3..]) == Meaning(s[3..]);
      }
    }
  }

  // ------------------------------------------------------------------------------------- the digits' case

  /** The token `b` is the token `a`, with the digits in another case if it is an escape. */
  predicate SameToken(a: seq<Byte>, b: seq<Byte>) {
    if |a| == 3 && IsHex(a[1]) && IsHex(a[2]) then
      |b| == 3 && b[0] == a[0] && SameDigit(a[1], b[1]) && SameDigit(a[2], b[2])
    else
      b == a
  }

  /** The text `v` is `u` with the digits of some escapes in the other case. */
  predicate SameButForCase(u: seq<Byte>, v: seq<Byte>)
    decreases |u|
  {
    if u == [] then v == []
    else
      var n := FirstToken(PLAIN, u).length;
      n <= |v| && SameToken(u[..n], v[..n]) && SameButForCase(u[n..], v[n..])
  }

  /** Character by character the same, but for the case of the letters A to F. */
  ghost predicate SameDigits(a: seq<Byte>, b: seq<Byte>) {
    |a| == |b| && forall i | 0 <= i < |a| :: SameDigit(a[i], b[i])
  }

  lemma SameEscape(f: Flags, hi: Byte, lo: Byte, hi': Byte, lo': Byte)
    requires IsHex(hi) && IsHex(lo) && SameDigit(hi, hi') && SameDigit(lo, lo')
    ensures IsHex(hi') && IsHex(lo')
    ensures
      var a, b := EscapeToken(f, hi, lo), EscapeToken(f, hi', lo');
      && SameDigits(a.emit, b.emit) && a.length == b.length && a.state == b.state
      && (!HasRedirect(f) ==> a == b)
  {
    CaseOfDigit(hi, hi');
    CaseOfDigit(lo, lo');
    assert SameDigit(PERCENT, PERCENT);
    hide IsHex, IsDigit, HexValue, SafeInRedirect, HasUri, HasRedirect, SameDigit;
    SameIsSame([HexPair(hi, lo)]);
    hide HexPair;
  }

  lemma SameFirstToken(f: Flags, u: seq<Byte>, v: seq<Byte>)
    requires u != [] && FirstToken(PLAIN, u).length <= |v|
    requires SameToken(u[..FirstToken(PLAIN, u).length], v[..FirstToken(PLAIN, u).length])
    requires FirstToken(PLAIN, u).length == |u| ==> |v| == |u|
    ensures
      var a, b := FirstToken(f, u), FirstToken(f, v);
      && SameDigits(a.emit, b.emit) && a.length == b.length == FirstToken(PLAIN, u).length && a.state == b.state
      && (!HasRedirect(f) ==> a == b)
  {
    hide EscapeToken, IsHex, SameDigit;
    var n := FirstToken(PLAIN, u).length;
    assert forall i | 0 <= i < n :: u[i] == u[..n][i] && v[i] == v[..n][i];
    if n == 3 && IsHex(u[1]) && IsHex(u[2]) {
      SameEscape(f, u[1], u[2], v[1], v[2]);
    } else {
      assert forall i | 0 <= i < n :: u[i] == v[i];
      SameIsSame(FirstToken(f, u).emit);
    }
  }

  lemma SameIsSame(a: seq<Byte>)
    ensures SameDigits(a, a)
  {
  }

  /**
   The case of an escape's digits changes no decoding (section 6.2.2.1 of RFC 3986): the plain and the URI
   decoder give the same, the redirect mode the same up to the case of the escapes it keeps.
   */
  lemma {:induction false} CaseOfDigitsIsIgnored(f: Flags, u: seq<Byte>, v: seq<Byte>)
    requires SameButForCase(u, v)
    ensures
      var a, b := Unescape(f, u), Unescape(f, v);
      && a.used == b.used && a.state == b.state && SameDigits(a.out, b.out)
      && (!HasRedirect(f) ==> a == b)
    decreases |u|
  {
    hide Unescape, FirstToken, SameToken, SameDigit;
    NothingToDecode(f);
    if u != [] {
      var n := FirstToken(PLAIN, u).length;
      SameFirstToken(f, u, v);
      UnescapeToken(f, u, FirstToken(f, u));
      UnescapeToken(f, v, FirstToken(f, v));
      if FirstToken(f, u).state == Usual {
        CaseOfDigitsIsIgnored(f, u[n..], v[n..]);
      }
    }
  }

  /** So normalising such texts gives the same. */
  lemma CaseIsNormalized(t: Bitmap, u: seq<Byte>, v: seq<Byte>)
    requires SameButForCase(u, v)
    ensures Normalize(t, u) == Normalize(t, v)
  {
    CaseOfDigitsIsIgnored(PLAIN, u, v);
  }

  // ---------------------------------------------------------------------------------------- the flag word

  lemma {:induction false} OnlyFlagsMatter(f: Flags, g: Flags, s: seq<Byte>)
    requires HasUri(f) == HasUri(g) && HasRedirect(f) == HasRedirect(g)
    ensures Unescape(f, s) == Unescape(g, s)
    decreases |s|
  {
    hide HasUri, HasRedirect;
    if s != [] {
      SameFlagsSameToken(f, g, s);
      if FirstToken(f, s).state == Usual {
        OnlyFlagsMatter(f, g, s[FirstToken(f, s).length..]);
      }
    }
  }

  lemma SameFlagsSameToken(f: Flags, g: Flags, s: seq<Byte>)
    requires s != [] && HasUri(f) == HasUri(g) && HasRedirect(f) == HasRedirect(g)
    ensures FirstToken(f, s) == FirstToken(g, s)
  {
    hide HasUri, HasRedirect;
  }

  /** `%00` and `%0A` are decoded or kept, a question mark stops or not: four behaviours. */
  lemma Behaviours(f: Flags)
    ensures Unescape(f, [0x3f]).state == (if f % 4 == 0 then Usual else Stopped)
    ensures Unescape(f, [0x25, 0x30, 0x30]).out == if f % 4 >= 2 then [0x25, 0x30, 0x30] else [0]
    ensures Unescape(f, [0x25, 0x30, 0x41]).out == if f % 4 == 2 then [0x25, 0x30, 0x41] else [0x0a]
  {
    hide Unescape;
    NothingToDecode(f);
    var question, digit, letter: seq<Byte> := [0x3f], [0x25, 0x30, 0x30], [0x25, 0x30, 0x41];
    assert question[1..] == [] && digit[3..] == [] && letter[3..] == [];
    UnescapeToken(f, question, FirstToken(f, question));
    UnescapeToken(f, digit, FirstToken(f, digit));
    UnescapeToken(f, letter, FirstToken(f, letter));
  }

  lemma FlagBits(f: Flags, g: Flags)
    requires f % 4 == g % 4
    ensures HasUri(f) == HasUri(g) && HasRedirect(f) == HasRedirect(g)
  {
  }

  /** A text that tells the two decoders apart. */
  lemma FlagsDiffer(f: Flags, g: Flags) returns (s: seq<Byte>)
    requires f % 4 != g % 4
    ensures Unescape(f, s) != Unescape(g, s)
  {
    hide Unescape;
    Behaviours(f);
    Behaviours(g);
    if f % 4 == 0 || g % 4 == 0 {
      s := [0x3f];
    } else if f % 4 == 1 || g % 4 == 1 {
      s := [0x25, 0x30, 0x30];
    } else {
      s := [0x25, 0x30, 0x41];
    }
  }

  /**
   Two flag words decode every text alike if and only if they agree in their two lowest bits: no other bit
   matters, and these four decoders all differ.
   */
  lemma FlagsMatterModuloFour(f: Flags, g: Flags)
    ensures (forall s :: Unescape(f, s) == Unescape(g, s)) <==> f % 4 == g % 4
  {
    hide Unescape;
    if f % 4 == g % 4 {
      FlagBits(f, g);
      forall s ensures Unescape(f, s) == Unescape(g, s) {
        OnlyFlagsMatter(f, g, s);
      }
    } else {
      var s := FlagsDiffer(f, g);
    }
  }

  // ------------------------------------------------------------------------- redirect after escaping

  /** Outside the characters from `&` to `~`; an escape that ends in a letter, in redirect mode only. */
  predicate KeptByRedirect(f: Flags, b: Byte) {
    (b <= 0x25 || b >= 0x7f) && (b & 0xf <= 9 || f % 2 == 0)
  }

  /** `s` with the escapes that the redirect mode keeps. */
  function Redirected(t: Bitmap, f: Flags, s: seq<Byte>): seq<Byte> {
    if s == [] then []
    else (if KeptByRedirect(f, s[0]) then EscapeByte(t, s[0]) else [s[0]]) + Redirected(t, f, s[1..])
  }

  /** The first token of an escaped string, under redirect. */
  lemma EscapedByteUnderRedirect(t: Bitmap, f: Flags, b: Byte, rest: seq<Byte>)
    requires Escaped(t, PERCENT) && f / 2 % 2 == 1
    ensures
      var piece := EscapeByte(t, b);
      FirstToken(f, piece + rest) ==
      if b == 0x3f then Token([b], |piece|, Stopped)
      else Token(if KeptByRedirect(f, b) then piece else [b], |piece|, Usual)
    ensures EscapeByte(t, b) != [] && !KeptByRedirect(f, 0x3f)
  {
    PrintThenParse(b);
    var text := EscapeByte(t, b) + rest;
    if Escaped(t, b) {
      var hi, lo := HexDigit(b >> 4), HexDigit(b & 0xf);
      assert text[0] == PERCENT && text[1] == hi && text[2] == lo;
      DigitOfNibble(b & 0xf);
      hide HexDigit, HexPair, IsUpperHex, Escaped;
      UpperIsHex(hi);
      UpperIsHex(lo);
      hide IsHex, IsDigit;
    } else {
      assert text[0] == b;
    }
  }

  lemma DigitOfNibble(nibble: Byte)
    requires nibble < 16
    ensures IsDigit(HexDigit(nibble)) <==> nibble <= 9
  {
  }

  /**
   What the redirect mode delivers of an escaped string: everything up to the first question mark, with
   exactly the characters from `&` to `~` unescaped (with the other flag also those whose escape ends in a
   letter); it has then read the escaped form of just that.
   */
  lemma {:induction false} RedirectOfEscape(t: Bitmap, f: Flags, s: seq<Byte>)
    requires Escaped(t, PERCENT) && f / 2 % 2 == 1
    ensures
      var cut := CutAfterQuestion(s);
      Unescape(f, Escape(t, s)) ==
      Decoded(Redirected(t, f, cut), |Escape(t, cut)|, if 0x3f in s then Stopped else Usual)
  {
    hide Unescape, EscapeByte, FirstToken, KeptByRedirect;
    NothingToDecode(f);
    if s != [] {
      var piece, rest := EscapeByte(t, s[0]), Escape(t, s[1..]);
      EscapedByteUnderRedirect(t, f, s[0], rest);
      if s[0] == 0x3f {
        assert s[0] == QUESTION && [s[0]][1..] == [] && Escape(t, [s[0]]) == piece + [];
        UnescapeToken(f, Escape(t, s), Token([s[0]], |piece|, Stopped));
        assert Redirected(t, f, [s[0]]) == [s[0]] + [];
      } else {
        var cut := CutAfterQuestion(s[1..]);
        UnescapePeel(f, piece, rest, if KeptByRedirect(f, s[0]) then piece else [s[0]]);
        RedirectOfEscape(t, f, s[1..]);
        assert CutAfterQuestion(s) == [s[0]] + cut && ([s[0]] + cut)[1..] == cut;
        assert 0x3f in s <==> 0x3f in s[1..];
      }
    }
  }
}
