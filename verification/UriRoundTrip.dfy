/** Decoding undoes encoding, and what exactly the decoder's stop at a question mark makes of that. */
module UriRoundTrip {
  import opened Bytes
  import opened EscapeTables
  import opened UriSpec

  /** `s` up to and including its first question mark, or all of `s`. */
  function CutAfterQuestion(s: seq<Byte>): (r: seq<Byte>)
    ensures r <= s
    ensures forall i | 0 <= i < |r| - 1 :: s[i] != QUESTION
    ensures |r| < |s| ==> r != [] && s[|r| - 1] == QUESTION
  {
    if s == [] then []
    else if s[0] == QUESTION then [QUESTION]
    else [s[0]] + CutAfterQuestion(s[1..])
  }

  /** The part of `s` that a decoder with flags `f` is meant to deliver. */
  function Delivered(f: Flags, s: seq<Byte>): seq<Byte> {
    if StopsAtQuestion(f) then CutAfterQuestion(s) else s
  }

  /** The first token of an escaped string stands for the first byte. */
  lemma EscapedByteIsAToken(t: Bitmap, f: Flags, b: Byte, rest: seq<Byte>)
    requires Escaped(t, PERCENT) && !HasRedirect(f)
    ensures
      FirstToken(f, EscapeByte(t, b) + rest) ==
      Token([b], |EscapeByte(t, b)|, if b == QUESTION && StopsAtQuestion(f) then Stopped else Usual)
  {
    PrintThenParse(b);
  }

  /**
   The full law of the pair, for every table that escapes the percent sign and every decoder that keeps
   no escapes: it delivers the input, cut after the first question mark if it is one of those that stop
   there, and has then read exactly the escaped form of what it delivered.
   */
  lemma {:induction false} UnescapeOfEscape(t: Bitmap, f: Flags, s: seq<Byte>)
    requires Escaped(t, PERCENT) && !HasRedirect(f)
    ensures
      Unescape(f, Escape(t, s)) ==
      Decoded(Delivered(f, s), |Escape(t, Delivered(f, s))|,
              if StopsAtQuestion(f) && QUESTION in s then Stopped else Usual)
  {
    if s != [] {
      var piece, rest := EscapeByte(t, s[0]), Escape(t, s[1..]);
      EscapedByteIsAToken(t, f, s[0], rest);
      if s[0] == QUESTION && StopsAtQuestion(f) {
        assert Escape(t, [s[0]]) == piece;
      } else {
        UnescapePeel(f, piece, rest, [s[0]]);
        UnescapeOfEscape(t, f, s[1..]);
        EscapeConcat(t, [s[0]], Delivered(f, s[1..]));
        assert Delivered(f, s) == [s[0]] + Delivered(f, s[1..]);
        assert Escape(t, [s[0]]) == piece;
        assert QUESTION in s <==> QUESTION in s[1..] || s[0] == QUESTION;
      }
    }
  }

  /** The plain decoder gives every byte string back, and reads all of the escaped text. */
  lemma RoundTrip(t: Bitmap, s: seq<Byte>)
    requires Escaped(t, PERCENT)
    ensures Unescape(PLAIN, Escape(t, s)) == Decoded(s, |Escape(t, s)|, Usual)
  {
    UnescapeOfEscape(t, PLAIN, s);
  }

  /** Escaping the percent sign is what makes the round trip work: without it, some string is lost. */
  lemma RoundTripIffPercentEscaped(t: Bitmap)
    ensures (forall s :: Meaning(Escape(t, s)) == s) <==> Escaped(t, PERCENT)
  {
    if Escaped(t, PERCENT) {
      forall s ensures Meaning(Escape(t, s)) == s {
        RoundTrip(t, s);
      }
    } else {
      assert Escape(t, [PERCENT]) == [PERCENT];
      assert Meaning(Escape(t, [PERCENT])) == [];
    }
  }

  /** Of the seven kinds, all but refresh can be undone. */
  lemma RoundTripOfKinds(kind: nat)
    requires kind <= MAIL_AUTH
    ensures (forall s :: Meaning(Escape(Table(kind), s)) == s) <==> kind != REFRESH
  {
    RoundTripIffPercentEscaped(Table(kind));
    OnlyRefreshSparesPercent(kind);
  }

  lemma EscapeIsInjective(t: Bitmap, s1: seq<Byte>, s2: seq<Byte>)
    requires Escaped(t, PERCENT) && Escape(t, s1) == Escape(t, s2)
    ensures s1 == s2
  {
    RoundTrip(t, s1);
    RoundTrip(t, s2);
  }

  /** Under refresh, a space and the text `%20` are escaped to the same bytes. */
  lemma RefreshIsNotInjective()
    ensures Escape(Table(REFRESH), [0x20]) == Escape(Table(REFRESH), [PERCENT, 0x32, 0x30])
  {
    var t := Table(REFRESH);
    var space, text: seq<Byte> := [0x20], [PERCENT, 0x32, 0x30];
    assert space[1..] == [] && Escape(t, space) == EscapeByte(t, 0x20) + [];
    assert text[1..] == [0x32, 0x30] && text[1..][1..] == [0x30] && text[1..][1..][1..] == [];
    assert Escape(t, text[1..]) == [0x32] + Escape(t, [0x30]);
    assert Escape(t, [0x30]) == [0x30];
  }

  /**
   The public pair `example_uri_encode` and `example_uri_decode`: what comes back is the input cut just
   after its first question mark, so it is the whole input exactly when only its last byte may be one.
   */
  lemma PublicRoundTrip(s: seq<Byte>)
    ensures Unescape(UNESCAPE_URI, Escape(Table(URI_COMPONENT), s)).out == CutAfterQuestion(s)
    ensures Unescape(UNESCAPE_URI, Escape(Table(URI_COMPONENT), s)).out == s <==>
            forall i | 0 <= i < |s| - 1 :: s[i] != QUESTION
  {
    OnlyRefreshSparesPercent(URI_COMPONENT);
    UnescapeOfEscape(Table(URI_COMPONENT), UNESCAPE_URI, s);
  }
}
