/** Exactly when the redirect mode keeps the meaning of a text, and exactly which texts it leaves as they are. */
module UriRedirectExact {
  import opened Bytes
  import opened UriSpec
  import opened UriStreaming
  import opened UriRedirect

  // --------------------------------------------------------------- the meaning lost by a doubled percent

  /** The bytes of an unfinished token of the plain decoder, in state `Lag(p)`. */
  predicate Pending(p: seq<Byte>) {
    p == [] || p == [PERCENT] || (|p| == 2 && p[0] == PERCENT && IsHex(p[1]))
  }

  /**
   Decoding the output has fallen behind decoding the consumed text by the bytes `debt`, and holds back `p`.
   A held-back percent sign is itself owed; a digit after it is one more byte.
   */
  predicate Behind(p: seq<Byte>, debt: seq<Byte>) {
    && Pending(p) && debt != []
    && (p == [PERCENT] ==> debt[|debt| - 1] == PERCENT)
    && (|p| == 2 ==> |debt| >= 2)
  }

  /** What the plain decoder, holding back `p`, makes of a piece, and what it then holds back. */
  function Took(p: seq<Byte>, piece: Piece): (taken: (seq<Byte>, seq<Byte>))
    requires Pending(p) && (piece.Literal? ==> piece.b != PERCENT)
    requires piece.Kept? ==> IsHex(piece.hi) && IsHex(piece.lo)
    ensures Pending(taken.1)
  {
    match piece
    case Nothing => ([], p)
    case Literal(b) =>
      if p == [] then ([b], [])
      else if !IsHex(b) then (if |p| == 1 then [b] else [], [])
      else if |p| == 1 then ([], p + [b])
      else ([HexPair(p[1], b)], [])
    case Kept(hi, lo) =>
      if p == [] then ([HexPair(hi, lo)], [])
      else if |p| == 1 then ([PERCENT, hi, lo], [])
      else ([hi, lo], [])
    case Bare => if p == [] then ([], [PERCENT]) else if |p| == 1 then ([PERCENT], []) else ([], [])
  }

  lemma TookMeaning(p: seq<Byte>, piece: Piece, x: seq<Byte>)
    requires Pending(p) && (piece.Literal? ==> piece.b != PERCENT)
    requires piece.Kept? ==> IsHex(piece.hi) && IsHex(piece.lo)
    ensures Meaning(p + piece.Emit() + x) == Took(p, piece).0 + Meaning(Took(p, piece).1 + x)
  {
    hide Unescape, HexPair;
    var text, emit := p + piece.Emit() + x, piece.Emit();
    match piece {
      case Nothing =>
        assert text == p + x && [] + Meaning(p + x) == Meaning(p + x);
      case Literal(b) => OneByteTaken(p, b, x);
      case Bare => OneByteTaken(p, PERCENT, x);
      case Kept(hi, lo) =>
        OneByteTaken(p, PERCENT, [hi, lo] + x);
        assert text == p + [PERCENT] + ([hi, lo] + x);
        if p == [] {
          EscapeTaken(hi, lo, x);
          assert [PERCENT] + ([hi, lo] + x) == emit + x;
        } else {
          LiteralTaken(hi, [lo] + x);
          LiteralTaken(lo, x);
          assert [hi, lo] + x == [hi] + ([lo] + x) && [] + ([hi, lo] + x) == [hi, lo] + x;
          assert [hi] + ([lo] + Meaning(x)) == [hi, lo] + Meaning(x);
          assert [PERCENT] + ([hi, lo] + Meaning(x)) == [PERCENT, hi, lo] + Meaning(x);
          assert [] + x == x;
        }
    }
  }

  lemma LiteralTaken(b: Byte, x: seq<Byte>)
    requires b != PERCENT
    ensures Meaning([b] + x) == [b] + Meaning(x)
  {
    hide Unescape;
    UnescapePeel(PLAIN, [b], x, [b]);
  }

  lemma EscapeTaken(hi: Byte, lo: Byte, x: seq<Byte>)
    requires IsHex(hi) && IsHex(lo)
    ensures Meaning([PERCENT, hi, lo] + x) == [HexPair(hi, lo)] + Meaning(x)
  {
    hide Unescape, EscapeToken, HexPair;
    var emit := [PERCENT, hi, lo];
    assert (emit + x)[0] == PERCENT && (emit + x)[1] == hi && (emit + x)[2] == lo;
    PlainEscape(hi, lo);
    UnescapePeel(PLAIN, emit, x, [HexPair(hi, lo)]);
  }

  /** One byte after what is held back. */
  lemma OneByteTaken(p: seq<Byte>, b: Byte, x: seq<Byte>)
    requires Pending(p)
    ensures var taken := Took(p, if b == PERCENT then Bare else Literal(b));
            Meaning(p + [b] + x) == taken.0 + Meaning(taken.1 + x)
  {
    hide Unescape, EscapeToken, HexPair;
    var text := p + [b] + x;
    assert [] + x == x && [] + Meaning(x) == Meaning(x) && [] + Meaning(text) == Meaning(text);
    if p == [] {
      assert text == [b] + x;
      if b != PERCENT {
        LiteralTaken(b, x);
      }
    } else if |p| == 1 {
      assert text[0] == PERCENT && text[1] == b && text == p + [b] + x;
      if !IsHex(b) {
        UnescapePeel(PLAIN, p + [b], x, [b]);
      }
    } else {
      assert text[0] == PERCENT && text[1] == p[1] && text[2] == b;
      if IsHex(b) {
        assert text == [PERCENT, p[1], b] + x;
        EscapeTaken(p[1], b, x);
      } else {
        UnescapePeel(PLAIN, p + [b], x, []);
      }
    }
  }

  predicate Differ(a: seq<Byte>, b: seq<Byte>) {
    exists i :: 0 <= i < |a| && i < |b| && a[i] != b[i]
  }

  lemma PrefixOrDiffer(a: seq<Byte>, b: seq<Byte>)
    requires |a| <= |b|
    ensures a <= b || Differ(a, b)
  {
    if !Differ(a, b) {
      assert forall i | 0 <= i < |a| :: a[i] == b[i];
      assert a == b[..|a|];
    }
  }

  /** What the kept escape `%hl` pays after a bare percent sign: `h` or `l` meets a byte that is no such digit. */
  lemma KeptAfterPercent(f: Flags, debt: seq<Byte>, hi: Byte, lo: Byte)
    requires Behind([PERCENT], debt) && Kept(hi, lo).Fits(f)
    ensures
      var taken, owed := [PERCENT, hi, lo], debt + [HexPair(hi, lo)];
      Differ(taken, owed) || (taken <= owed && Behind([], owed[|taken|..]))
  {
    var taken, owed := [PERCENT, hi, lo], debt + [HexPair(hi, lo)];
    assert HexPair(hi, lo) != hi;
    hide HexPair, EscapeToken;
    if |debt| <= 2 {
      assert taken[1] != owed[1];
    } else if |debt| == 3 {
      assert taken[2] != owed[2];
    } else {
      PrefixOrDiffer(taken, owed);
    }
  }

  /** Either the bytes taken contradict what is owed, or they pay some of it and leave a debt. */
  lemma DebtRemains(f: Flags, p: seq<Byte>, debt: seq<Byte>, piece: Piece)
    requires Behind(p, debt) && piece.Fits(f)
    ensures
      var (taken, held) := Took(p, piece);
      var owed := debt + piece.Plain();
      Differ(taken, owed) || (taken <= owed && Behind(held, owed[|taken|..]))
  {
    if piece.Kept? && |p| == 1 {
      KeptAfterPercent(f, debt, piece.hi, piece.lo);
    } else {
      hide HexPair, EscapeToken, Differ;
      PrefixOrDiffer(Took(p, piece).0, debt + piece.Plain());
    }
  }

  lemma PendingMeansNothing(p: seq<Byte>)
    requires Pending(p)
    ensures Meaning(p) == []
  {
  }

  lemma SamePrefix<T>(a: seq<T>, x: seq<T>, y: seq<T>)
    requires x != y
    ensures a + x != a + y
  {
    assert (a + x)[|a|..] == x && (a + y)[|a|..] == y;
  }

  /** A debt that is contradicted, or still owed to different bytes, tells the two results apart. */
  lemma StillDiffer(taken: seq<Byte>, x: seq<Byte>, owed: seq<Byte>, meant: seq<Byte>)
    requires Differ(taken, owed) || (taken <= owed && x != owed[|taken|..] + meant)
    ensures taken + x != owed + meant
  {
    if Differ(taken, owed) {
      var i :| 0 <= i < |taken| && i < |owed| && taken[i] != owed[i];
      assert (taken + x)[i] == taken[i] && (owed + meant)[i] == owed[i];
    } else {
      SamePrefix(taken, x, owed[|taken|..] + meant);
      assert owed + meant == taken + (owed[|taken|..] + meant);
    }
  }

  lemma PieceStaysBehind(f: Flags, p: seq<Byte>, debt: seq<Byte>, piece: Piece, out: seq<Byte>, meant: seq<Byte>)
    requires Behind(p, debt) && piece.Fits(f)
    requires
      var (taken, held) := Took(p, piece);
      var owed := debt + piece.Plain();
      taken <= owed && Behind(held, owed[|taken|..]) ==> Meaning(held + out) != owed[|taken|..] + meant
    ensures Meaning(p + (piece.Emit() + out)) != debt + (piece.Plain() + meant)
  {
    hide Unescape, HexPair, EscapeToken, Differ;
    var (taken, held) := Took(p, piece);
    TookMeaning(p, piece, out);
    DebtRemains(f, p, debt, piece);
    hide Took, Behind;
    StillDiffer(taken, Meaning(held + out), debt + piece.Plain(), meant);
    assert p + (piece.Emit() + out) == p + piece.Emit() + out;
    assert debt + (piece.Plain() + meant) == debt + piece.Plain() + meant;
  }

  /**
   Once behind, decoding the output never catches up: each piece leaves a debt, the end of the text pays
   nothing, and a stop adds as much as it pays.
   */
  lemma {:induction false} NeverCatchesUp(f: Flags, p: seq<Byte>, debt: seq<Byte>, u: seq<Byte>)
    requires HasRedirect(f) && Behind(p, debt)
    ensures Meaning(p + Unescape(f, u).out) != debt + Meaning(Consumed(f, u))
    decreases |u|
  {
    hide FirstToken, Unescape;
    NothingToDecode(f);
    NothingToDecode(PLAIN);
    PendingMeansNothing(p);
    assert p + [] == p;
    if u == [] {
      assert Consumed(f, u) == [];
    } else {
      var token, plain := FirstToken(f, u), FirstToken(PLAIN, u);
      FirstTokenIsRewritten(f, u, token, plain);
      UnescapeToken(f, u, token);
      ConsumedToken(f, u, token, plain);
      if token.state == Usual {
        var rest, piece := u[token.length..], PieceOf(token.emit);
        var (taken, held) := Took(p, piece);
        var owed := debt + piece.Plain();
        if taken <= owed && Behind(held, owed[|taken|..]) {
          NeverCatchesUp(f, held, owed[|taken|..], rest);
        }
        PieceStaysBehind(f, p, debt, piece, Unescape(f, rest).out, Meaning(Consumed(f, rest)));
      } else if token.state == Stopped {
        TookMeaning(p, Literal(QUESTION), []);
        assert p + [QUESTION] + [] == p + [QUESTION];
      }
    }
  }

  /**
   The redirect mode keeps the meaning of a text if and only if none of the tokens it reads is `%%`: the
   percent sign it makes of that begins a new token, and nothing that follows makes up for it.
   */
  lemma {:induction false} KeepsMeaningIff(f: Flags, u: seq<Byte>)
    requires HasRedirect(f)
    ensures KeepsMeaning(f, u) <==> !Reads(f, u, PERCENT)
    decreases |u|
  {
    if !Reads(f, u, PERCENT) {
      RewritingKeepsMeaning(f, u);
    } else {
      hide FirstToken, Unescape;
      var token, plain := FirstToken(f, u), FirstToken(PLAIN, u);
      FirstTokenIsRewritten(f, u, token, plain);
      UnescapeToken(f, u, token);
      ConsumedToken(f, u, token, plain);
      var rest, piece := u[token.length..], PieceOf(token.emit);
      if piece == Bare {
        NeverCatchesUp(f, [PERCENT], [PERCENT], rest);
      } else {
        KeepsMeaningIff(f, rest);
        PieceMeaning(f, piece, Unescape(f, rest).out);
        SamePrefix(piece.Plain(), Meaning(Unescape(f, rest).out), Meaning(Consumed(f, rest)));
      }
    }
  }

  /** The redirect mode, with or without the other flag, on every well-formed text. */
  lemma RedirectIsSound(f: Flags, u: seq<Byte>)
    requires HasRedirect(f) && WellFormed(u)
    ensures KeepsMeaning(f, u) && IsSettled(f, u)
  {
    WellFormedReadsNone(f, u, PERCENT);
    KeepsMeaningIff(f, u);
    WellFormedReadsNone(f, u, QUESTION);
    RewritingKeepsMeaning(f, u);
  }

  /** Among all flag words, exactly those with the redirect bit rewrite every well-formed text soundly. */
  lemma SoundIffRedirect(f: Flags)
    ensures (forall u | WellFormed(u) :: KeepsMeaning(f, u)) <==> HasRedirect(f)
    ensures (forall u | WellFormed(u) :: IsSettled(f, u)) <==> HasRedirect(f)
  {
    if HasRedirect(f) {
      forall u | WellFormed(u) ensures KeepsMeaning(f, u) && IsSettled(f, u) {
        RedirectIsSound(f, u);
      }
    } else {
      PlainDecodingDecodesTwice(f);
    }
  }

  // ------------------------------------------------------------------- the texts that are left as they are

  /** Characters other than `%` and `?`, escapes that are kept, and at most one question mark, at the end. */
  predicate Rewritten(f: Flags, v: seq<Byte>) {
    if v == [] || v == [QUESTION] then true
    else if v[0] != PERCENT then v[0] != QUESTION && Rewritten(f, v[1..])
    else
      && |v| >= 3 && IsHex(v[1]) && IsHex(v[2])
      && EscapeToken(f, v[1], v[2]).emit == v[..3]
      && Rewritten(f, v[3..])
  }

  /** The fixed points of the redirect mode. */
  lemma {:induction false} RewrittenIffFixed(f: Flags, v: seq<Byte>)
    requires HasRedirect(f)
    ensures Rewritten(f, v) <==> Unescape(f, v).out == v
    decreases |v|
  {
    hide Unescape, EscapeToken;
    NothingToDecode(f);
    if v != [] {
      var token := FirstToken(f, v);
      UnescapeToken(f, v, token);
      if token.state == Usual {
        var rest := v[token.length..];
        RewrittenIffFixed(f, rest);
        UnescapeExtent(f, rest);
        assert v == v[..token.length] + rest;
        assert Unescape(f, v).out == v <==> token.emit == v[..token.length] && Unescape(f, rest).out == rest;
      }
    }
  }

  /** A text is settled by one run exactly when the run leaves it in that form. */
  lemma SettledIffRewritten(f: Flags, u: seq<Byte>)
    requires HasRedirect(f)
    ensures IsSettled(f, u) <==> Rewritten(f, Unescape(f, u).out)
  {
    RewrittenIffFixed(f, Unescape(f, u).out);
  }

  // ------------------------------------------------------------------------------------------ examples

  /** `%%41` is rewritten to `%41` and loses its meaning; after a question mark it is not read. */
  lemma DoubledPercentLosesMeaning()
    ensures !KeepsMeaning(UNESCAPE_REDIRECT, [PERCENT] + BARE_PERCENT)
    ensures KeepsMeaning(UNESCAPE_REDIRECT, [QUESTION, PERCENT] + BARE_PERCENT)
  {
    KeepsMeaningIff(UNESCAPE_REDIRECT, [PERCENT] + BARE_PERCENT);
    KeepsMeaningIff(UNESCAPE_REDIRECT, [QUESTION, PERCENT] + BARE_PERCENT);
  }

  /** `%?a` is rewritten to `?a`, which means the same, but the next run cuts it to `?`. */
  lemma PercentQuestionIsUnsettled()
    ensures KeepsMeaning(UNESCAPE_REDIRECT, [PERCENT, QUESTION, 0x61])
    ensures !IsSettled(UNESCAPE_REDIRECT, [PERCENT, QUESTION, 0x61])
  {
    hide Unescape;
    var f, u, rest := UNESCAPE_REDIRECT, [PERCENT, QUESTION, 0x61], [0x61];
    assert u[2..] == rest && rest[1..] == [] && rest + [] == rest;
    NothingToDecode(f);
    UnescapeToken(f, rest, Token(rest, 1, Usual));
    UnescapeToken(f, u, Token([QUESTION], 2, Usual));
    SettledIffRewritten(f, u);
    KeepsMeaningIff(f, u);
  }

  /** `%%00` is rewritten to `%00`: settled, although its meaning is lost. */
  lemma SettledWithoutItsMeaning()
    ensures !KeepsMeaning(UNESCAPE_REDIRECT, [PERCENT, PERCENT, 0x30, 0x30])
    ensures IsSettled(UNESCAPE_REDIRECT, [PERCENT, PERCENT, 0x30, 0x30])
  {
    hide Unescape;
    var f, u, rest := UNESCAPE_REDIRECT, [PERCENT, PERCENT, 0x30, 0x30], [0x30, 0x30];
    assert u[2..] == rest && rest[1..] == [0x30] && [0x30][1..] == [];
    NothingToDecode(f);
    UnescapeToken(f, [0x30], Token([0x30], 1, Usual));
    UnescapeToken(f, rest, Token([0x30], 1, Usual));
    UnescapeToken(f, u, Token([PERCENT], 2, Usual));
    var out := [PERCENT, 0x30, 0x30];
    assert Unescape(f, u).out == out && out[..3] == out && out[3..] == [];
    SettledIffRewritten(f, u);
    KeepsMeaningIff(f, u);
  }
}
