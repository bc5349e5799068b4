/** The redirect mode decodes some escapes and keeps others: what that rewriting does to the meaning of a text. */
module UriRedirect {
  import opened Bytes
  import opened UriSpec
  import opened UriStreaming

  /** Every percent sign begins an escape of two hexadecimal digits. */
  predicate WellFormed(u: seq<Byte>) {
    if u == [] then true
    else if u[0] != PERCENT then WellFormed(u[1..])
    else |u| >= 3 && IsHex(u[1]) && IsHex(u[2]) && WellFormed(u[3..])
  }

  /** The part of the text which the decoder has read. */
  function Consumed(f: Flags, u: seq<Byte>): seq<Byte> {
    u[..Unescape(f, u).used]
  }

  /** What one run of the decoder writes means what it read. */
  ghost predicate KeepsMeaning(f: Flags, u: seq<Byte>) {
    Meaning(Unescape(f, u).out) == Meaning(Consumed(f, u))
  }

  /** A second run of the decoder, over the output of the first, changes nothing. */
  ghost predicate IsSettled(f: Flags, u: seq<Byte>) {
    Unescape(f, Unescape(f, u).out).out == Unescape(f, u).out
  }

  /** The text begins with a malformed escape: a percent sign and the character `c`, no hexadecimal digit. */
  predicate IsMalformed(u: seq<Byte>, c: Byte) {
    |u| >= 2 && u[0] == PERCENT && u[1] == c
  }

  /** Among the tokens which the decoder reads is the malformed escape `%c`. */
  predicate Reads(f: Flags, u: seq<Byte>, c: Byte)
    decreases |u|
  {
    u != [] &&
    (|| IsMalformed(u, c)
     || (FirstToken(f, u).state == Usual && Reads(f, u[FirstToken(f, u).length..], c)))
  }

  lemma {:induction false} WellFormedReadsNone(f: Flags, u: seq<Byte>, c: Byte)
    requires WellFormed(u) && !IsHex(c)
    ensures !Reads(f, u, c)
    decreases |u|
  {
    hide EscapeToken;
    if u != [] && FirstToken(f, u).state == Usual {
      WellFormedReadsNone(f, u[FirstToken(f, u).length..], c);
    }
  }

  // ------------------------------------------------------------------------------------------- pieces

  /**
   What a token that does not stop the decoder leaves in the output: nothing, a character other than the
   percent sign, an escape as it stood, or the percent sign which the decoder makes of `%%`.
   */
  datatype Piece = Nothing | Literal(b: Byte) | Kept(hi: Byte, lo: Byte) | Bare {

    function Emit(): seq<Byte> {
      match this
      case Nothing => []
      case Literal(b) => [b]
      case Kept(hi, lo) => [PERCENT, hi, lo]
      case Bare => [PERCENT]
    }

    /** What the plain decoder makes of the same token. */
    function Plain(): seq<Byte>
      requires Kept? ==> IsHex(hi) && IsHex(lo)
    {
      match this
      case Kept(hi, lo) => [HexPair(hi, lo)]
      case _ => Emit()
    }

    predicate Fits(f: Flags) {
      && (Literal? ==> b != PERCENT)
      && (Kept? ==>
            && IsHex(hi) && IsHex(lo)
            && EscapeToken(f, hi, lo) == Token([PERCENT, hi, lo], 3, Usual)
            && !SafeInRedirect(HexPair(hi, lo)))
    }
  }

  function PieceOf(emit: seq<Byte>): Piece {
    if emit == [] then Nothing
    else if |emit| >= 3 then Kept(emit[1], emit[2])
    else if emit[0] == PERCENT then Bare
    else Literal(emit[0])
  }

  /** No escape with a letter as its second digit denotes the percent sign, none with a digit the question mark. */
  lemma LowDigits(hi: Byte, lo: Byte)
    requires IsHex(hi) && IsHex(lo)
    ensures IsDigit(lo) ==> HexPair(hi, lo) != QUESTION
    ensures !IsDigit(lo) ==> HexPair(hi, lo) != PERCENT
  {
  }

  lemma PlainEscape(hi: Byte, lo: Byte)
    requires IsHex(hi) && IsHex(lo)
    ensures EscapeToken(PLAIN, hi, lo) == Token([HexPair(hi, lo)], 3, Usual)
  {
  }

  lemma EscapeIsRewritten(f: Flags, hi: Byte, lo: Byte, token: Token)
    requires HasRedirect(f) && IsHex(hi) && IsHex(lo) && token == EscapeToken(f, hi, lo)
    ensures EscapeToken(PLAIN, hi, lo) == Token([HexPair(hi, lo)], 3, Usual)
    ensures token.state == Usual ==>
              var piece := PieceOf(token.emit);
              && piece.Fits(f) && token.emit == piece.Emit() && piece.Plain() == [HexPair(hi, lo)]
              && piece != Bare && piece != Literal(QUESTION)
    ensures token.state == Stopped ==> token.emit == [HexPair(hi, lo)] == [QUESTION]
  {
    LowDigits(hi, lo);
  }

  /** What the first token of a text becomes, under redirect and under the plain decoder. */
  lemma FirstTokenIsRewritten(f: Flags, u: seq<Byte>, token: Token, plain: Token)
    requires HasRedirect(f) && u != [] && token == FirstToken(f, u) && plain == FirstToken(PLAIN, u)
    ensures token.length == plain.length
    ensures token.state == Usual ==>
              var piece := PieceOf(token.emit);
              && plain.state == Usual
              && piece.Fits(f) && token.emit == piece.Emit() && plain.emit == piece.Plain()
              && (piece == Bare <==> IsMalformed(u, PERCENT))
              && (piece == Literal(QUESTION) <==> IsMalformed(u, QUESTION))
    ensures token.state == Stopped ==> token.emit == plain.emit == [QUESTION] && plain.state == Usual
    ensures token.state == Quoted || token.state == QuotedSecond ==> plain == token && token.emit == []
    ensures token.state != Usual ==> !IsMalformed(u, PERCENT) && !IsMalformed(u, QUESTION)
  {
    hide EscapeToken, HexPair;
    if |u| >= 3 && u[0] == PERCENT && IsHex(u[1]) && IsHex(u[2]) {
      EscapeIsRewritten(f, u[1], u[2], token);
    }
  }

  /** The consumed text, one token at a time. */
  lemma ConsumedToken(f: Flags, u: seq<Byte>, token: Token, plain: Token)
    requires u != [] && token == FirstToken(f, u) && plain == FirstToken(PLAIN, u) && token.length == plain.length
    requires token.state == Usual || token.state == Stopped ==> plain.state == Usual
    requires token.state == Quoted || token.state == QuotedSecond ==> plain == token
    ensures token.state == Usual ==>
              Meaning(Consumed(f, u)) == plain.emit + Meaning(Consumed(f, u[token.length..]))
    ensures token.state != Usual ==> Meaning(Consumed(f, u)) == plain.emit
  {
    hide FirstToken, Unescape;
    UnescapeToken(f, u, token);
    var taken := Consumed(f, u);
    if token.state == Usual || token.state == Stopped {
      FirstTokenOfPrefix(PLAIN, u, |taken|);
      UnescapeToken(PLAIN, taken, plain);
      if token.state == Usual {
        assert taken[token.length..] == Consumed(f, u[token.length..]);
      } else {
        NothingToDecode(PLAIN);
        assert taken[token.length..] == [] && plain.emit + [] == plain.emit;
      }
    } else {
      assert taken == u;
      UnescapeToken(PLAIN, u, plain);
    }
  }

  lemma StopIsCopied(f: Flags)
    requires StopsAtQuestion(f)
    ensures Unescape(f, [QUESTION]) == Decoded([QUESTION], 1, Stopped)
    ensures Meaning([QUESTION]) == [QUESTION]
  {
    assert [QUESTION][1..] == [];
    UnescapeToken(PLAIN, [QUESTION], Token([QUESTION], 1, Usual));
  }

  // --------------------------------------------------------------------------- pieces that are copied

  /** The plain decoder reads a piece as the token it came from, unless that was `%%`. */
  lemma PieceMeaning(f: Flags, piece: Piece, x: seq<Byte>)
    requires piece.Fits(f) && piece != Bare
    ensures Meaning(piece.Emit() + x) == piece.Plain() + Meaning(x)
  {
    hide Unescape, EscapeToken, HexPair;
    match piece {
      case Nothing =>
        assert [] + x == x && [] + Meaning(x) == Meaning(x);
      case Literal(b) =>
        UnescapePeel(PLAIN, [b], x, [b]);
      case Kept(hi, lo) =>
        var emit := [PERCENT, hi, lo];
        assert (emit + x)[0] == PERCENT && (emit + x)[1] == hi && (emit + x)[2] == lo;
        PlainEscape(hi, lo);
        UnescapePeel(PLAIN, emit, x, [HexPair(hi, lo)]);
    }
  }

  /** The decoder that wrote a piece copies it, unless it came from `%%` or `%?`. */
  lemma PieceIsCopied(f: Flags, piece: Piece, x: seq<Byte>)
    requires piece.Fits(f) && piece != Bare && piece != Literal(QUESTION)
    ensures Unescape(f, piece.Emit() + x) == Unescape(f, x).After(piece.Emit(), |piece.Emit()|)
  {
    hide Unescape, EscapeToken, HexPair;
    var emit := piece.Emit();
    match piece {
      case Nothing =>
        assert [] + x == x && [] + Unescape(f, x).out == Unescape(f, x).out;
      case Literal(b) =>
        UnescapePeel(f, emit, x, emit);
      case Kept(hi, lo) =>
        assert (emit + x)[0] == PERCENT && (emit + x)[1] == hi && (emit + x)[2] == lo;
        UnescapePeel(f, emit, x, emit);
    }
  }

  /**
   The rewriting, along the tokens that are read. Without `%%` among them, decoding the output gives what
   decoding the consumed text gives; without `%?` as well, a second run copies the output to the same stop.
   */
  lemma {:induction false} RewritingKeepsMeaning(f: Flags, u: seq<Byte>)
    requires HasRedirect(f) && !Reads(f, u, PERCENT)
    ensures KeepsMeaning(f, u)
    ensures !Reads(f, u, QUESTION) ==>
              var whole := Unescape(f, u);
              Unescape(f, whole.out) ==
              Decoded(whole.out, |whole.out|, if whole.state == Stopped then Stopped else Usual)
    decreases |u|
  {
    hide FirstToken, Unescape;
    NothingToDecode(f);
    NothingToDecode(PLAIN);
    if u != [] {
      var token, plain := FirstToken(f, u), FirstToken(PLAIN, u);
      FirstTokenIsRewritten(f, u, token, plain);
      UnescapeToken(f, u, token);
      ConsumedToken(f, u, token, plain);
      if token.state == Usual {
        var rest, piece := u[token.length..], PieceOf(token.emit);
        RewritingKeepsMeaning(f, rest);
        PieceMeaning(f, piece, Unescape(f, rest).out);
        if !Reads(f, u, QUESTION) {
          PieceIsCopied(f, piece, Unescape(f, rest).out);
        }
      } else if token.state == Stopped {
        StopIsCopied(f);
      }
    } else {
      assert Consumed(f, u) == [];
    }
  }

  /** The text `%2541`, an escaped percent sign before two digits. */
  const ESCAPED_PERCENT: seq<Byte> := [PERCENT, 0x32, 0x35, 0x34, 0x31]

  const BARE_PERCENT: seq<Byte> := [PERCENT, 0x34, 0x31]

  /** What any decoder makes of the digits `41`, and of their escape. */
  lemma FortyOne(f: Flags)
    ensures Unescape(f, [0x34, 0x31]) == Decoded([0x34, 0x31], 2, Usual)
    ensures Unescape(f, BARE_PERCENT) == Decoded([0x41], 3, Usual)
    ensures WellFormed([0x34, 0x31])
  {
    hide Unescape;
    assert [0x34, 0x31][1..] == [0x31] && [0x31][1..] == [] && BARE_PERCENT[3..] == [];
    NothingToDecode(f);
    UnescapeToken(f, [0x31], Token([0x31], 1, Usual));
    UnescapeToken(f, [0x34, 0x31], Token([0x34], 1, Usual));
    UnescapeToken(f, BARE_PERCENT, Token([0x41], 3, Usual));
  }

  lemma EscapedPercentComesOutBare(f: Flags)
    requires !HasRedirect(f)
    ensures Unescape(f, ESCAPED_PERCENT) == Decoded(BARE_PERCENT, 5, Usual)
  {
    hide Unescape;
    FortyOne(f);
    assert ESCAPED_PERCENT[3..] == [0x34, 0x31] && [PERCENT] + [0x34, 0x31] == BARE_PERCENT;
    UnescapeToken(f, ESCAPED_PERCENT, Token([PERCENT], 3, Usual));
  }

  /** Without the redirect flag a bare percent sign comes out and starts an escape of its own. */
  lemma PlainDecodingDecodesTwice(f: Flags)
    requires !HasRedirect(f)
    ensures WellFormed(ESCAPED_PERCENT) && !KeepsMeaning(f, ESCAPED_PERCENT) && !IsSettled(f, ESCAPED_PERCENT)
  {
    hide Unescape;
    FortyOne(f);
    FortyOne(PLAIN);
    EscapedPercentComesOutBare(f);
    EscapedPercentComesOutBare(PLAIN);
    assert Consumed(f, ESCAPED_PERCENT) == ESCAPED_PERCENT;
    assert ESCAPED_PERCENT[3..] == [0x34, 0x31];
  }
}
