/** Canonical escaped strings: which texts the encoder can produce, and how it normalises all others. */
module UriCanonical {
  import opened Bytes
  import opened EscapeTables
  import opened UriSpec
  import opened UriRoundTrip

  /** Bare bytes that need no escape, and upper-case escapes of bytes that do. */
  predicate Canonical(t: Bitmap, u: seq<Byte>) {
    if u == [] then true
    else if u[0] == PERCENT then
      && |u| >= 3 && IsUpperHex(u[1]) && IsUpperHex(u[2])
      && Escaped(t, HexPair(u[1], u[2]))
      && Canonical(t, u[3..])
    else
      !Escaped(t, u[0]) && Canonical(t, u[1..])
  }

  /** Decode, then escape again. */
  function Normalize(t: Bitmap, u: seq<Byte>): seq<Byte> {
    Escape(t, Meaning(u))
  }

  lemma {:induction false} EscapeIsCanonical(t: Bitmap, s: seq<Byte>)
    requires Escaped(t, PERCENT)
    ensures Canonical(t, Escape(t, s))
  {
    if s != [] {
      var piece, rest := EscapeByte(t, s[0]), Escape(t, s[1..]);
      EscapeIsCanonical(t, s[1..]);
      PrintThenParse(s[0]);
      assert (piece + rest)[|piece|..] == rest;
    }
  }

  /** A canonical text is the escaped form of what it means. */
  lemma {:induction false} CanonicalIsFixed(t: Bitmap, u: seq<Byte>)
    requires Canonical(t, u)
    ensures Normalize(t, u) == u
  {
    hide Unescape, EscapeToken, HexPair;
    if u == [] {
      NothingToDecode(PLAIN);
    } else if u[0] == PERCENT {
      var b := HexPair(u[1], u[2]);
      CanonicalIsFixed(t, u[3..]);
      CanonicalEscape(t, u[1], u[2]);
      UnescapeToken(PLAIN, u, Token([b], 3, Usual));
      assert ([b] + Meaning(u[3..]))[1..] == Meaning(u[3..]);
      assert u == [PERCENT, u[1], u[2]] + u[3..];
    } else {
      CanonicalIsFixed(t, u[1..]);
      UnescapeToken(PLAIN, u, Token([u[0]], 1, Usual));
      assert ([u[0]] + Meaning(u[1..]))[1..] == Meaning(u[1..]);
    }
  }

  lemma CanonicalEscape(t: Bitmap, hi: Byte, lo: Byte)
    requires IsUpperHex(hi) && IsUpperHex(lo) && Escaped(t, HexPair(hi, lo))
    ensures EscapeByte(t, HexPair(hi, lo)) == [PERCENT, hi, lo]
    ensures EscapeToken(PLAIN, hi, lo) == Token([HexPair(hi, lo)], 3, Usual)
  {
  }

  /** Three views of the canonical texts: their form, the image of the encoder, the fixed points. */
  lemma CanonicalForm(t: Bitmap, u: seq<Byte>)
    requires Escaped(t, PERCENT)
    ensures Canonical(t, u) <==> exists s :: Escape(t, s) == u
    ensures Canonical(t, u) <==> Normalize(t, u) == u
  {
    if Canonical(t, u) {
      CanonicalIsFixed(t, u);
      assert Escape(t, Meaning(u)) == u;
    }
    forall s | Escape(t, s) == u ensures Canonical(t, u) {
      EscapeIsCanonical(t, s);
    }
  }

  /**
   Percent-encoding normalisation (section 6.2.2 of RFC 3986): the normal form is canonical, means the
   same, is reached in one step, and is shared by exactly the texts of the same meaning.
   */
  lemma NormalForm(t: Bitmap, u: seq<Byte>, v: seq<Byte>)
    requires Escaped(t, PERCENT)
    ensures Canonical(t, Normalize(t, u))
    ensures Meaning(Normalize(t, u)) == Meaning(u)
    ensures Normalize(t, Normalize(t, u)) == Normalize(t, u)
    ensures Normalize(t, u) == Normalize(t, v) <==> Meaning(u) == Meaning(v)
  {
    EscapeIsCanonical(t, Meaning(u));
    RoundTrip(t, Meaning(u));
    RoundTrip(t, Meaning(v));
  }

  /** What URI_COMPONENT writes is made of unreserved characters and percent signs. */
  lemma {:induction false} EscapedComponentIsUriSafe(s: seq<Byte>)
    ensures forall b | b in Escape(Table(URI_COMPONENT), s) :: Unreserved(b) || b == PERCENT
  {
    if s != [] {
      EscapedComponentIsUriSafe(s[1..]);
      UriComponentEscapesAllButUnreserved(s[0]);
      PrintThenParse(s[0]);
    }
  }

  // --------------------------------------------------------------------------- escaping more than once

  /** Escaping changes nothing exactly when nothing needs an escape. */
  lemma {:induction false} EscapeIsIdentityIff(t: Bitmap, s: seq<Byte>)
    ensures Escape(t, s) == s <==> EscapeCount(t, s) == 0
    ensures EscapeCount(t, s) == 0 <==> forall b | b in s :: !Escaped(t, b)
  {
    EscapeLength(t, s);
    if s != [] {
      EscapeIsIdentityIff(t, s[1..]);
      assert s == [s[0]] + s[1..];
    }
  }

  /** The bytes the encoder itself writes need no escape. */
  ghost predicate SparesItsOwnOutput(t: Bitmap) {
    && !Escaped(t, PERCENT)
    && forall b | IsUpperHex(b) :: !Escaped(t, b)
  }

  lemma {:induction false} NothingLeftToEscape(t: Bitmap, s: seq<Byte>)
    requires SparesItsOwnOutput(t)
    ensures EscapeCount(t, Escape(t, s)) == 0
  {
    if s != [] {
      PrintThenParse(s[0]);
      NothingLeftToEscape(t, s[1..]);
      EscapeConcat(t, EscapeByte(t, s[0]), Escape(t, s[1..]));
      EscapeIsIdentityIff(t, EscapeByte(t, s[0]));
    }
  }

  /** When the percent sign is escaped, each escape written is escaped again. */
  lemma {:induction false} EscapesAreEscapedAgain(t: Bitmap, s: seq<Byte>)
    requires Escaped(t, PERCENT)
    ensures EscapeCount(t, Escape(t, s)) >= EscapeCount(t, s)
  {
    if s != [] {
      EscapesAreEscapedAgain(t, s[1..]);
      EscapeConcat(t, EscapeByte(t, s[0]), Escape(t, s[1..]));
    }
  }

  /** A second escaping changes nothing: for refresh always, for the others when the first did nothing. */
  lemma EscapeTwice(kind: nat, s: seq<Byte>)
    requires kind <= MAIL_AUTH
    ensures
      var t := Table(kind);
      Escape(t, Escape(t, s)) == Escape(t, s) <==> kind == REFRESH || forall b | b in s :: !Escaped(t, b)
  {
    var t := Table(kind);
    OnlyRefreshSparesPercent(kind);
    EscapeIsIdentityIff(t, s);
    EscapeIsIdentityIff(t, Escape(t, s));
    if kind == REFRESH {
      forall b ensures IsUpperHex(b) ==> !Escaped(t, b) {
        TableContents(b);
      }
      NothingLeftToEscape(t, s);
    } else {
      EscapesAreEscapedAgain(t, s);
      if EscapeCount(t, s) == 0 {
        assert Escape(t, s) == s;
      }
    }
  }
}
