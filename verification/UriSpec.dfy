/**
 What percent-encoding and percent-decoding mean, as functions on byte strings. `Escape` works byte by
 byte; `Unescape` looks ahead for whole tokens, where the C decoder carries a state and half a byte.
 */
module UriSpec {
  import opened Bytes
  import opened EscapeTables

  // ---------------------------------------------------------------------------------------- encoding

  function EscapeByte(t: Bitmap, b: Byte): seq<Byte> {
    if Escaped(t, b) then [PERCENT, HexDigit(b >> 4), HexDigit(b & 0xf)] else [b]
  }

  function Escape(t: Bitmap, s: seq<Byte>): seq<Byte> {
    if s == [] then [] else EscapeByte(t, s[0]) + Escape(t, s[1..])
  }

  /** How many bytes of `s` need escaping. */
  function EscapeCount(t: Bitmap, s: seq<Byte>): nat {
    if s == [] then 0 else (if Escaped(t, s[0]) then 1 else 0) + EscapeCount(t, s[1..])
  }

  // ---------------------------------------------------------------------------------------- decoding

  /** The unsigned flag word `type` of the decoder: bit 0 is URI, bit 1 is REDIRECT, no other matters. */
  type Flags = nat

  const PLAIN: Flags := 0
  const UNESCAPE_URI: Flags := 1
  const UNESCAPE_REDIRECT: Flags := 2

  predicate HasUri(f: Flags) {
    f % 2 == 1
  }

  predicate HasRedirect(f: Flags) {
    f / 2 % 2 == 1
  }

  /** `type & (NGX_UNESCAPE_URI | NGX_UNESCAPE_REDIRECT)` */
  predicate StopsAtQuestion(f: Flags) {
    HasUri(f) || HasRedirect(f)
  }

  /** The three states of the decoder, and the state of having jumped to `done`. */
  datatype State = Usual | Quoted | QuotedSecond | Stopped

  /** How many bytes of an unfinished token have been read in each state. */
  function Lag(state: State): nat {
    match state
    case Quoted => 1
    case QuotedSecond => 2
    case _ => 0
  }

  /** The bytes a token makes the decoder write, the bytes it takes, and the state it leaves behind. */
  datatype Token = Token(emit: seq<Byte>, length: nat, state: State)

  /** Bytes which the redirect mode decodes; it keeps the escapes of all others. */
  predicate SafeInRedirect(b: Byte) {
    PERCENT < b < DELETE
  }

  /** A complete escape `%hl`. The two hexadecimal branches of the decoder treat the flags differently. */
  function EscapeToken(f: Flags, hi: Byte, lo: Byte): (token: Token)
    requires IsHex(hi) && IsHex(lo)
    ensures 1 <= |token.emit| <= 3 == token.length
    ensures token.state == Usual || (token.state == Stopped && token.emit == [QUESTION])
  {
    var b := HexPair(hi, lo);
    var kept := Token([PERCENT, hi, lo], 3, Usual);
    if IsDigit(lo) then
      if HasRedirect(f) && !SafeInRedirect(b) then kept else Token([b], 3, Usual)
    else if StopsAtQuestion(f) && b == QUESTION then
      Token([b], 3, Stopped)
    else if HasRedirect(f) && !HasUri(f) && !SafeInRedirect(b) then
      kept
    else
      Token([b], 3, Usual)
  }

  function FirstToken(f: Flags, s: seq<Byte>): (token: Token)
    requires s != []
    ensures 0 < token.length <= |s| && |token.emit| <= token.length
    ensures token.state == Quoted || token.state == QuotedSecond ==>
              s[0] == PERCENT && token.emit == [] && token.length == |s| == Lag(token.state)
  {
    if s[0] == QUESTION && StopsAtQuestion(f) then Token([QUESTION], 1, Stopped)
    else if s[0] != PERCENT then Token([s[0]], 1, Usual)
    else if |s| == 1 then Token([], 1, Quoted)
    else if !IsHex(s[1]) then Token([s[1]], 2, Usual)
    else if |s| == 2 then Token([], 2, QuotedSecond)
    else if !IsHex(s[2]) then Token([], 3, Usual)
    else EscapeToken(f, s[1], s[2])
  }

  /** The bytes written, the number of bytes read, and the final state. */
  datatype Decoded = Decoded(out: seq<Byte>, used: nat, state: State) {
    /** This decoding as it looks after `emitted` was written and `length` bytes were read. */
    function After(emitted: seq<Byte>, length: nat): Decoded {
      Decoded(emitted + out, length + used, state)
    }
  }

  function Unescape(f: Flags, s: seq<Byte>): (whole: Decoded)
    ensures whole.used <= |s|
  {
    if s == [] then
      Decoded([], 0, Usual)
    else
      var token := FirstToken(f, s);
      if token.state != Usual then
        Decoded(token.emit, token.length, token.state)
      else
        Unescape(f, s[token.length..]).After(token.emit, token.length)
  }

  /** Decoding every escape, with no stop: the byte string which `s` denotes. */
  function Meaning(s: seq<Byte>): seq<Byte> {
    Unescape(PLAIN, s).out
  }

  // ------------------------------------------------------------------------- basic laws of encoding

  lemma {:induction false} EscapeConcat(t: Bitmap, a: seq<Byte>, b: seq<Byte>)
    ensures Escape(t, a + b) == Escape(t, a) + Escape(t, b)
    ensures EscapeCount(t, a + b) == EscapeCount(t, a) + EscapeCount(t, b)
  {
    if a == [] {
      assert a + b == b;
    } else {
      assert (a + b)[1..] == a[1..] + b;
      EscapeConcat(t, a[1..], b);
    }
  }

  /** The loop's view of escaping: one more byte at the end. */
  lemma EscapeSnoc(t: Bitmap, s: seq<Byte>, i: nat)
    requires i < |s|
    ensures Escape(t, s[..i + 1]) == Escape(t, s[..i]) + EscapeByte(t, s[i])
    ensures EscapeCount(t, s[..i + 1]) == EscapeCount(t, s[..i]) + (if Escaped(t, s[i]) then 1 else 0)
    ensures EscapeCount(t, s[..i + 1]) <= EscapeCount(t, s)
    ensures |Escape(t, s[..i + 1])| <= |Escape(t, s)|
  {
    assert s[..i + 1] == s[..i] + [s[i]];
    EscapeConcat(t, s[..i], [s[i]]);
    assert Escape(t, [s[i]]) == EscapeByte(t, s[i]);
    assert s == s[..i + 1] + s[i + 1..];
    EscapeConcat(t, s[..i + 1], s[i + 1..]);
  }

  /** Sizing: each escaped byte costs two more, so the output is between one and three times the input. */
  lemma {:induction false} EscapeLength(t: Bitmap, s: seq<Byte>)
    ensures |Escape(t, s)| == |s| + 2 * EscapeCount(t, s)
    ensures EscapeCount(t, s) <= |s|
  {
    if s != [] {
      EscapeLength(t, s[1..]);
    }
  }

  // ------------------------------------------------------------------------- basic laws of decoding

  lemma AfterAfter(d: Decoded, a: seq<Byte>, m: nat, b: seq<Byte>, n: nat)
    ensures d.After(b, n).After(a, m) == d.After(a + b, m + n)
  {
    assert a + (b + d.out) == a + b + d.out;
  }

  /** The definition of decoding, one token at a time. */
  lemma UnescapeToken(f: Flags, s: seq<Byte>, token: Token)
    requires s != [] && token == FirstToken(f, s)
    ensures
      Unescape(f, s) ==
      if token.state == Usual then Unescape(f, s[token.length..]).After(token.emit, token.length)
      else Decoded(token.emit, token.length, token.state)
  {
  }

  lemma NothingToDecode(f: Flags)
    ensures Unescape(f, []) == Decoded([], 0, Usual)
  {
  }

  /** A known first token of `piece + rest` can be peeled off. */
  lemma UnescapePeel(f: Flags, piece: seq<Byte>, rest: seq<Byte>, emitted: seq<Byte>)
    requires piece != []
    requires FirstToken(f, piece + rest) == Token(emitted, |piece|, Usual)
    ensures Unescape(f, piece + rest) == Unescape(f, rest).After(emitted, |piece|)
  {
    assert (piece + rest)[|piece|..] == rest;
  }

  /** Unless it stopped, the decoder has read all of its input; without a flag it never stops. */
  lemma {:induction false} UnescapeExtent(f: Flags, s: seq<Byte>)
    ensures |Unescape(f, s).out| <= Unescape(f, s).used
    ensures Unescape(f, s).state != Stopped ==> Unescape(f, s).used == |s|
    ensures !StopsAtQuestion(f) ==> Unescape(f, s).state != Stopped
    decreases |s|
  {
    if s != [] {
      var token := FirstToken(f, s);
      if token.state == Usual {
        UnescapeExtent(f, s[token.length..]);
      }
    }
  }
}
