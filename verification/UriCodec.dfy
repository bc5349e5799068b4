/**
 The encoder and decoder loops, working in place on one flat memory as the C code does: `dst` and `src`
 are offsets into the same array, so separate, overlapping and identical buffers are all covered.
 */
module UriCodec {
  import opened Bytes
  import opened EscapeTables
  import opened UriSpec

  /** A C pointer into the memory, or `NULL`. */
  datatype Pointer = Null | At(offset: nat)

  /** Nothing outside `[lo, hi)` differs from `before`. */
  ghost predicate OnlyChanged(mem: array<Byte>, before: seq<Byte>, lo: nat, hi: nat)
    reads mem
  {
    && mem.Length == |before|
    && forall j | 0 <= j < mem.Length && !(lo <= j < hi) :: mem[j] == before[j]
  }

  /** `text` stands at `at`, and the rest of the memory is as `before`. */
  ghost predicate Wrote(mem: array<Byte>, before: seq<Byte>, at: nat, text: seq<Byte>)
    reads mem
  {
    at + |text| <= mem.Length && mem[at..at + |text|] == text && OnlyChanged(mem, before, at, at + |text|)
  }

  /**
   There is room for the escaped text, and no write reaches a byte still to be read: the buffers are
   apart, or the destination starts at least two bytes for each escaped byte before the source.
   */
  ghost predicate CanEscape(t: Bitmap, mem: seq<Byte>, dst: nat, src: nat, size: nat) {
    && src + size <= |mem|
    && dst + |Escape(t, mem[src..src + size])| <= |mem|
    && (src + size <= dst || dst + 2 * EscapeCount(t, mem[src..src + size]) <= src)
  }

  /** There is room for the decoded text, and the output starts at or before the input, or after its end. */
  ghost predicate CanUnescape(f: Flags, mem: seq<Byte>, dst: nat, src: nat, size: nat) {
    && src + size <= |mem|
    && dst + |Unescape(f, mem[src..src + size]).out| <= |mem|
    && (dst <= src || src + size <= dst)
  }

  /** `*d++ = b` */
  method Put(mem: array<Byte>, d: nat, b: Byte, ghost before: seq<Byte>, ghost lo: nat) returns (next: nat)
    requires lo <= d < mem.Length && OnlyChanged(mem, before, lo, d)
    modifies mem
    ensures next == d + 1 && OnlyChanged(mem, before, lo, next)
    ensures mem[lo..next] == old(mem[lo..d]) + [b]
  {
    mem[d] := b;
    next := d + 1;
  }

  /**
   `*d++ = '%'; *d++ = *(s - 2); *d++ = *(s - 1);`: the two digits are read back from the input after the
   percent sign was written, so they must not lie where that write went.
   */
  method PutKept(mem: array<Byte>, d: nat, s: nat, ghost before: seq<Byte>, ghost lo: nat) returns (next: nat)
    requires lo <= d && d + 3 <= mem.Length && OnlyChanged(mem, before, lo, d)
    requires 2 <= s <= mem.Length && (d + 3 <= s || s <= lo)
    modifies mem
    ensures next == d + 3 && OnlyChanged(mem, before, lo, next)
    ensures mem[lo..next] == old(mem[lo..d]) + [PERCENT, before[s - 2], before[s - 1]]
  {
    next := Put(mem, d, PERCENT, before, lo);
    next := Put(mem, next, mem[s - 2], before, lo);
    next := Put(mem, next, mem[s - 1], before, lo);
  }

  /** The counting pass: `n` is a 32-bit counter. */
  method CountEscapes(mem: array<Byte>, src: nat, size: nat, escape: Bitmap) returns (n: nat)
    requires src + size <= mem.Length
    ensures n == EscapeCount(escape, mem[src..src + size]) % WORD_LIMIT
  {
    hide EscapeCount, Escape, Escaped;
    ghost var input := mem[src..src + size];
    EscapeLength(escape, input[..0]);
    n := 0;
    var i := 0;
    while i < size
      invariant 0 <= i <= size
      invariant n == EscapeCount(escape, input[..i]) % WORD_LIMIT
    {
      EscapeSnoc(escape, input, i);
      if Escaped(escape, mem[src + i]) {
        n := (n + 1) % WORD_LIMIT;
      }
      i := i + 1;
    }
    assert input[..size] == input;
  }

  /** The writing pass for one byte. */
  method PutEscaped(mem: array<Byte>, d: nat, b: Byte, escape: Bitmap, ghost before: seq<Byte>, ghost lo: nat)
    returns (next: nat)
    requires lo <= d && d + |EscapeByte(escape, b)| <= mem.Length && OnlyChanged(mem, before, lo, d)
    modifies mem
    ensures next == d + |EscapeByte(escape, b)| && OnlyChanged(mem, before, lo, next)
    ensures mem[lo..next] == old(mem[lo..d]) + EscapeByte(escape, b)
  {
    if Escaped(escape, b) {
      next := Put(mem, d, PERCENT, before, lo);
      next := Put(mem, next, HexDigit(b >> 4), before, lo);
      next := Put(mem, next, HexDigit(b & 0xf), before, lo);
    } else {
      next := Put(mem, d, b, before, lo);
    }
  }

  /** The writing pass. */
  method WriteEscaped(mem: array<Byte>, dst: nat, src: nat, size: nat, escape: Bitmap) returns (d: nat)
    requires CanEscape(escape, mem[..], dst, src, size)
    modifies mem
    ensures
      var text := Escape(escape, old(mem[..])[src..src + size]);
      d == dst + |text| && Wrote(mem, old(mem[..]), dst, text)
  {
    hide Escape, EscapeCount, EscapeByte, Escaped;
    ghost var before := mem[..];
    ghost var input := before[src..src + size];
    ghost var written := Escape(escape, input[..0]);
    EscapeLength(escape, input);
    EscapeLength(escape, input[..0]);
    d := dst;
    var i := 0;
    while i < size
      invariant 0 <= i <= size
      invariant written == Escape(escape, input[..i])
      invariant d == dst + i + 2 * EscapeCount(escape, input[..i]) <= mem.Length
      invariant EscapeCount(escape, input[..i]) <= EscapeCount(escape, input)
      invariant OnlyChanged(mem, before, dst, d) && mem[dst..d] == written
    {
      EscapeSnoc(escape, input, i);
      EscapeLength(escape, input[..i + 1]);
      assert input[i] == before[src + i];
      written := written + EscapeByte(escape, input[i]);
      d := PutEscaped(mem, d, mem[src + i], escape, before, dst);
      i := i + 1;
    }
    EscapeLength(escape, input[..size]);
    assert input[..size] == input;
  }

  /**
   `ngx_escape_uri`: without a destination it counts the bytes to be escaped, in 32 bits; with one it
   writes the escaped text and returns the position after it.
   */
  method NgxEscapeUri(mem: array<Byte>, dst: Pointer, src: nat, size: nat, kind: nat) returns (ret: nat)
    requires src + size <= mem.Length && kind <= MAIL_AUTH
    requires dst.At? ==> CanEscape(Table(kind), mem[..], dst.offset, src, size)
    modifies if dst.Null? then {} else {mem}
    ensures dst.Null? ==> ret == EscapeCount(Table(kind), mem[src..src + size]) % WORD_LIMIT
    ensures dst.Null? ==> ret < 0x1_0000_0000
    ensures dst.Null? && size < 0x1_0000_0000 ==> ret == EscapeCount(Table(kind), mem[src..src + size])
    ensures dst.At? ==>
              var text := Escape(Table(kind), old(mem[..])[src..src + size]);
              ret == dst.offset + |text| && Wrote(mem, old(mem[..]), dst.offset, text)
  {
    var escape := Table(kind);
    if dst.Null? {
      ret := CountEscapes(mem, src, size, escape);
      CutToWord(EscapeCount(escape, mem[src..src + size]));
      EscapeLength(escape, mem[src..src + size]);
    } else {
      ret := WriteEscaped(mem, dst.offset, src, size, escape);
    }
  }

  /**
   The decoder's loop invariant. `written` is the output so far; the token being read starts `Lag(state)`
   bytes back. Decoding the input from there completes the decoding of the whole, the output lags behind
   that place, and the local variables know what the first bytes of the token were.
   */
  ghost predicate Progress(f: Flags, input: seq<Byte>, state: State, decoded: Byte, used: nat, written: seq<Byte>) {
    if state == Stopped then
      Unescape(f, input) == Decoded(written, used, Stopped)
    else
      && |written| + Lag(state) <= used <= |input|
      && var start := used - Lag(state);
      && (state != Usual ==> input[start] == PERCENT)
      && (state == QuotedSecond ==> IsHex(input[start + 1]) && decoded == HexValue(input[start + 1]))
      && Unescape(f, input) == Unescape(f, input[start..]).After(written, start)
  }

  /** What the next byte says about the token being read. */
  function TokenSoFar(f: Flags, state: State, first: Byte, ch: Byte): Token
    requires state == QuotedSecond ==> IsHex(first)
  {
    match state
    case Usual =>
      if ch == QUESTION && StopsAtQuestion(f) then Token([ch], 1, Stopped)
      else if ch == PERCENT then Token([], 1, Quoted)
      else Token([ch], 1, Usual)
    case Quoted => if IsHex(ch) then Token([], 2, QuotedSecond) else Token([ch], 2, Usual)
    case QuotedSecond => if IsHex(ch) then EscapeToken(f, first, ch) else Token([], 3, Usual)
    case Stopped => Token([], 0, Stopped)
  }

  /** The token that the byte at `used` belongs to, the machine being in `state` before it. */
  function TokenAt(f: Flags, state: State, bytes: seq<Byte>, used: nat): Token
    requires used < |bytes|
    requires state == QuotedSecond ==> used > 0 && IsHex(bytes[used - 1])
  {
    TokenSoFar(f, state, if state == QuotedSecond then bytes[used - 1] else 0, bytes[used])
  }

  /** Nothing read and nothing written is progress. */
  lemma ProgressBegins(f: Flags, input: seq<Byte>, decoded: Byte)
    ensures Progress(f, input, Usual, decoded, 0, [])
  {
  }

  /** When the byte completes the token, looking ahead from the token's start finds the same token. */
  lemma LookAheadAgrees(f: Flags, input: seq<Byte>, state: State, used: nat)
    requires state != Stopped && Lag(state) <= used < |input|
    requires state != Usual ==> input[used - Lag(state)] == PERCENT
    requires state == QuotedSecond ==> IsHex(input[used - 1])
    ensures
      var token := TokenAt(f, state, input, used);
      && |token.emit| <= token.length == Lag(state) + 1
      && (token.state == Usual || token.state == Stopped ==> FirstToken(f, input[used - Lag(state)..]) == token)
      && (token.state == Quoted ==> state == Usual && token.emit == [] && input[used] == PERCENT)
      && (token.state == QuotedSecond ==> state == Quoted && token.emit == [] && IsHex(input[used]))
  {
  }

  /** A finished token moves its bytes from the rest to the output. */
  lemma TokenFinished(f: Flags, input: seq<Byte>, start: nat, written: seq<Byte>, token: Token)
    requires start < start + token.length <= |input| && token == FirstToken(f, input[start..])
    requires Unescape(f, input) == Unescape(f, input[start..]).After(written, start)
    ensures written + token.emit <= Unescape(f, input).out
    ensures token.state == Usual ==>
              Unescape(f, input) ==
              Unescape(f, input[start + token.length..]).After(written + token.emit, start + token.length)
    ensures token.state != Usual ==>
              Unescape(f, input) == Decoded(written + token.emit, start + token.length, token.state)
  {
    hide FirstToken;
    if token.state == Usual {
      assert input[start..][token.length..] == input[start + token.length..];
      AfterAfter(Unescape(f, input[start + token.length..]), written, start, token.emit, token.length);
    }
  }

  /** What the machine knows before it reads the byte at `used`. */
  lemma Remembered(f: Flags, input: seq<Byte>, state: State, decoded: Byte, used: nat, written: seq<Byte>)
    requires state != Stopped && used < |input| && Progress(f, input, state, decoded, used, written)
    ensures |written| + Lag(state) <= used
    ensures state == QuotedSecond ==> IsHex(input[used - 1]) && decoded == HexValue(input[used - 1])
  {
  }

  /** A byte that leaves the token open. */
  lemma TokenContinues(f: Flags, input: seq<Byte>, state: State, decoded: Byte, used: nat, written: seq<Byte>,
                       next: State)
    requires state != Stopped && used < |input| && Progress(f, input, state, decoded, used, written)
    requires || (next == Quoted && state == Usual && input[used] == PERCENT)
             || (next == QuotedSecond && state == Quoted && IsHex(input[used]))
    ensures
      var value := if next == QuotedSecond then HexValue(input[used]) else decoded;
      Progress(f, input, next, value, used + 1, written) && written <= Unescape(f, input).out
  {
    hide Unescape;
  }

  /** A byte that finishes the token. */
  lemma TokenEnds(f: Flags, input: seq<Byte>, state: State, decoded: Byte, used: nat, written: seq<Byte>, token: Token)
    requires state != Stopped && used < |input| && Progress(f, input, state, decoded, used, written)
    requires token == FirstToken(f, input[used - Lag(state)..]) && token.length == Lag(state) + 1
    requires token.state == Usual || token.state == Stopped
    ensures written + token.emit <= Unescape(f, input).out
    ensures Progress(f, input, token.state, decoded, used + 1, written + token.emit)
  {
    hide Unescape, FirstToken;
    TokenFinished(f, input, used - Lag(state), written, token);
  }

  /** One more byte read: the output has room for what the byte completes, and writing it makes progress. */
  lemma ByteRead(f: Flags, input: seq<Byte>, state: State, decoded: Byte, used: nat, written: seq<Byte>, token: Token)
    requires state != Stopped && used < |input| && Progress(f, input, state, decoded, used, written)
    requires state == QuotedSecond ==> used > 0 && IsHex(input[used - 1])
    requires token == TokenAt(f, state, input, used)
    ensures written + token.emit <= Unescape(f, input).out
    ensures token.state == QuotedSecond ==> IsHex(input[used])
    ensures
      var value := if token.state == QuotedSecond then HexValue(input[used]) else decoded;
      Progress(f, input, token.state, value, used + 1, written + token.emit)
  {
    assert |written| + Lag(state) <= used && (state != Usual ==> input[used - Lag(state)] == PERCENT);
    hide Unescape, FirstToken, TokenAt, IsHex, HexValue, Progress;
    LookAheadAgrees(f, input, state, used);
    if token.state == Usual || token.state == Stopped {
      TokenEnds(f, input, state, decoded, used, written, token);
    } else {
      TokenContinues(f, input, state, decoded, used, written, token.state);
      assert written + token.emit == written;
    }
  }

  /** The same for the input where it lies in memory, at `src`, and the read position `s`. */
  lemma ByteReadAt(f: Flags, mem: seq<Byte>, src: nat, size: nat, state: State, decoded: Byte, s: nat,
                   written: seq<Byte>)
    requires src <= s < src + size <= |mem| && state != Stopped
    requires Progress(f, mem[src..src + size], state, decoded, s - src, written)
    ensures |written| + Lag(state) <= s - src
    ensures state == QuotedSecond ==> IsHex(mem[s - 1]) && decoded == HexValue(mem[s - 1])
    ensures
      var token := TokenAt(f, state, mem, s);
      && written + token.emit <= Unescape(f, mem[src..src + size]).out
      && (token.state == QuotedSecond ==> IsHex(mem[s]))
      && var value := if token.state == QuotedSecond then HexValue(mem[s]) else decoded;
      Progress(f, mem[src..src + size], token.state, value, s + 1 - src, written + token.emit)
  {
    hide Unescape, Progress, TokenSoFar, IsHex, HexValue;
    var input, used := mem[src..src + size], s - src;
    Remembered(f, input, state, decoded, used, written);
    assert input[used] == mem[s] && (state == QuotedSecond ==> input[used - 1] == mem[s - 1]);
    assert TokenAt(f, state, mem, s) == TokenAt(f, state, input, used);
    hide TokenAt;
    ByteRead(f, input, state, decoded, used, written, TokenAt(f, state, input, used));
  }

  /** At the end of the input an unfinished token has produced nothing. */
  lemma MachineEnds(f: Flags, input: seq<Byte>, state: State, decoded: Byte, used: nat, written: seq<Byte>)
    requires Progress(f, input, state, decoded, used, written)
    requires state != Stopped ==> used == |input|
    ensures Unescape(f, input) == Decoded(written, used, state)
  {
  }

  /** The decoder adds up the letter's value in another order than `HexPair`. */
  lemma HexPairSteps(hi: Byte, lo: Byte)
    requires IsHex(hi) && IsHex(lo)
    ensures IsDigit(lo) ==> HexPair(hi, lo) == (HexValue(hi) << 4) + (lo - 0x30) != QUESTION
    ensures !IsDigit(lo) ==> HexPair(hi, lo) == (HexValue(hi) << 4) + ((lo | CASE_BIT) - 0x61) + 10
  {
  }

  /** The end of state `sw_quoted_second`: what becomes of a complete escape whose second digit is `ch`. */
  method Decide(f: Flags, ghost hi: Byte, decoded: Byte, ch: Byte) returns (b: Byte, kept: bool, stop: bool)
    requires IsHex(hi) && IsHex(ch) && decoded == HexValue(hi)
    ensures
      EscapeToken(f, hi, ch) ==
      if kept then Token([PERCENT, hi, ch], 3, Usual) else Token([b], 3, if stop then Stopped else Usual)
    ensures !(kept && stop)
  {
    HexPairSteps(hi, ch);
    kept, stop := false, false;
    if IsDigit(ch) {
      b := (decoded << 4) + (ch - 0x30);
      if HasRedirect(f) {
        kept := !(b > PERCENT && b < DELETE);
      }
    } else {
      b := (decoded << 4) + ((ch | CASE_BIT) - 0x61) + 10;
      if HasUri(f) {
        stop := b == QUESTION;
      } else if HasRedirect(f) {
        if b == QUESTION {
          stop := true;
        } else {
          kept := !(b > PERCENT && b < DELETE);
        }
      }
    }
  }

  /** Writes a decoded byte, or the escape as it stood, and says how the decoder goes on. */
  method PutDecoded(mem: array<Byte>, d: nat, s: nat, decoded: Byte, ch: Byte, f: Flags,
                    ghost before: seq<Byte>, ghost lo: nat)
    returns (next: nat, state: State)
    requires lo <= d && OnlyChanged(mem, before, lo, d)
    requires 2 <= s <= mem.Length && (d + 3 <= s || s <= lo)
    requires ch == before[s - 1] && IsHex(ch) && IsHex(before[s - 2]) && decoded == HexValue(before[s - 2])
    requires d + |EscapeToken(f, before[s - 2], ch).emit| <= mem.Length
    modifies mem
    ensures
      var token := EscapeToken(f, before[s - 2], ch);
      && lo <= d <= next == d + |token.emit| && OnlyChanged(mem, before, lo, next)
      && mem[lo..next] == old(mem[lo..d]) + token.emit
      && state == token.state
  {
    var b, kept, stop := Decide(f, before[s - 2], decoded, ch);
    if kept {
      next := PutKept(mem, d, s, before, lo);
    } else {
      next := Put(mem, d, b, before, lo);
    }
    state := if stop then Stopped else Usual;
  }

  /** The `switch` on the state, for the byte at `s`. Leaving for `done` is the state `Stopped`. */
  method ReadByte(mem: array<Byte>, d: nat, s: nat, state: State, decoded: Byte, f: Flags,
                  ghost before: seq<Byte>, ghost lo: nat)
    returns (d': nat, state': State, decoded': Byte)
    requires lo <= d <= mem.Length && OnlyChanged(mem, before, lo, d)
    requires state != Stopped && Lag(state) <= s < mem.Length && (d + Lag(state) <= s || s < lo)
    requires state == QuotedSecond ==> IsHex(before[s - 1]) && decoded == HexValue(before[s - 1])
    requires d + |TokenAt(f, state, before, s).emit| <= mem.Length
    modifies mem
    ensures
      var token := TokenAt(f, state, before, s);
      && d' == d + |token.emit| <= mem.Length && OnlyChanged(mem, before, lo, d')
      && mem[lo..d'] == old(mem[lo..d]) + token.emit
      && state' == token.state
      && decoded' == if state' == QuotedSecond then HexValue(before[s]) else decoded
  {
    var ch := mem[s];
    d', state', decoded' := d, state, decoded;
    match state {
      case Usual =>
        if ch == QUESTION && StopsAtQuestion(f) {
          d' := Put(mem, d, ch, before, lo);
          state' := Stopped;
        } else if ch == PERCENT {
          state' := Quoted;
        } else {
          d' := Put(mem, d, ch, before, lo);
        }

      case Quoted =>
        if IsDigit(ch) {
          decoded' := ch - 0x30;
          state' := QuotedSecond;
        } else if IsHexLetter(ch) {
          decoded' := (ch | CASE_BIT) - 0x61 + 10;
          state' := QuotedSecond;
        } else {
          state' := Usual;
          d' := Put(mem, d, ch, before, lo);
        }

      case QuotedSecond =>
        if IsHex(ch) {
          d', state' := PutDecoded(mem, d, s + 1, decoded, ch, f, before, lo);
        } else {
          state' := Usual;
        }
    }
  }

  /**
   `ngx_unescape_uri`: a byte-at-a-time machine of three states. It agrees with the look-ahead decoding
   of the original input on output, final read position and everything else in memory, also when it
   overwrites its own input, as long as it starts writing at or before the place it reads.
   */
  method NgxUnescapeUri(mem: array<Byte>, dst: nat, src: nat, size: nat, f: Flags)
    returns (d: nat, s: nat, ghost final: State)
    requires CanUnescape(f, mem[..], dst, src, size)
    modifies mem
    ensures dst <= d && src <= s <= src + size
    ensures
      var whole := Unescape(f, old(mem[..])[src..src + size]);
      && whole == Decoded(whole.out, s - src, final)
      && d == dst + |whole.out| && Wrote(mem, old(mem[..]), dst, whole.out)
  {
    hide Unescape, Progress, TokenAt, HexValue, IsHex, FirstToken, EscapeToken;
    ghost var before := mem[..];
    ghost var input := before[src..src + size];
    ghost var written: seq<Byte> := [];
    d, s := dst, src;
    var state, decoded := Usual, 0;
    ProgressBegins(f, input, decoded);

    while s < src + size && state != Stopped
      invariant src <= s <= src + size && dst <= d <= mem.Length
      invariant OnlyChanged(mem, before, dst, d) && mem[dst..d] == written
      invariant Progress(f, input, state, decoded, s - src, written)
      decreases src + size - s
    {
      ByteReadAt(f, before, src, size, state, decoded, s, written);
      ghost var token := TokenAt(f, state, before, s);
      d, state, decoded := ReadByte(mem, d, s, state, decoded, f, before, dst);
      s := s + 1;
      written := written + token.emit;
    }
    MachineEnds(f, input, state, decoded, s - src, written);
    final := state;
  }

  lemma SameRemainder(n: nat, more: nat)
    ensures (n + more) % WORD_LIMIT == n % WORD_LIMIT <==> more % WORD_LIMIT == 0
  {
  }

  /** A count cut to 32 bits fits a `uint32_t`, and is exact when it was below 2^32. */
  lemma CutToWord(n: nat)
    ensures n % WORD_LIMIT <= (0xffff_ffff as Word) as nat
    ensures n < 0x1_0000_0000 <==> n % WORD_LIMIT == n
  {
  }

  /**
   Sizing in two passes: what the counting pass returns for an input of up to 32 bits of length is the
   exact number of escapes, the writing pass emits that many pairs of bytes more than it reads, and
   inputs of less than a third of 32 bits lose nothing in the 32-bit result of `example_uri_encode`.
   That result is the count of escaped characters, as the header has it, exactly when input length and
   count add up to a multiple of 32 bits; below a third of 32 bits, for the empty input only.
   */
  lemma TwoPassSizing(t: Bitmap, input: seq<Byte>)
    ensures |input| <= |Escape(t, input)| <= 3 * |input|
    ensures |input| < 0x1_0000_0000 ==>
              |Escape(t, input)| == |input| + 2 * (EscapeCount(t, input) % WORD_LIMIT)
    ensures 3 * |input| < 0x1_0000_0000 ==> |Escape(t, input)| % WORD_LIMIT == |Escape(t, input)|
    ensures |Escape(t, input)| % WORD_LIMIT == EscapeCount(t, input) % WORD_LIMIT <==>
            (|input| + EscapeCount(t, input)) % 0x1_0000_0000 == 0
    ensures 3 * |input| < 0x1_0000_0000 ==>
              (|Escape(t, input)| % WORD_LIMIT == EscapeCount(t, input) % WORD_LIMIT <==> input == [])
  {
    hide Escape, EscapeCount;
    EscapeLength(t, input);
    SameRemainder(EscapeCount(t, input), |input| + EscapeCount(t, input));
  }

  /** `example_uri_encode`: the byte count it returns is cut to 32 bits. */
  method ExampleUriEncode(mem: array<Byte>, dest: Pointer, src: Pointer, len: nat) returns (ret: nat)
    requires src.At? && dest.At? ==> CanEscape(Table(URI_COMPONENT), mem[..], dest.offset, src.offset, len)
    modifies if src.Null? || dest.Null? then {} else {mem}
    ensures src.Null? || dest.Null? ==> ret == 0
    ensures src.At? && dest.At? ==>
              var input := old(mem[..])[src.offset..src.offset + len];
              var text := Escape(Table(URI_COMPONENT), input);
              && Wrote(mem, old(mem[..]), dest.offset, text)
              && ret == |text| % WORD_LIMIT
              && ret < 0x1_0000_0000
              && (3 * len < 0x1_0000_0000 ==> ret == |text|)
  {
    hide Escape, EscapeCount, Escaped, Table, Wrote;
    if src.Null? || dest.Null? {
      return 0;
    }
    ghost var input := mem[src.offset..src.offset + len];
    TwoPassSizing(Table(URI_COMPONENT), input);
    CutToWord(|Escape(Table(URI_COMPONENT), input)|);
    var end := NgxEscapeUri(mem, dest, src.offset, len, URI_COMPONENT);
    assert input == old(mem[..])[src.offset..src.offset + len];
    return (end - dest.offset) % WORD_LIMIT;
  }

  /** `example_uri_decode`: decodes up to the first question mark, and tells nobody how much it wrote. */
  method ExampleUriDecode(mem: array<Byte>, dest: Pointer, src: Pointer, len: nat)
    requires src.At? && dest.At? ==> CanUnescape(UNESCAPE_URI, mem[..], dest.offset, src.offset, len)
    modifies if src.Null? || dest.Null? then {} else {mem}
    ensures src.At? && dest.At? ==>
              Wrote(mem, old(mem[..]), dest.offset,
                    Unescape(UNESCAPE_URI, old(mem[..])[src.offset..src.offset + len]).out)
  {
    hide Unescape, Wrote, CanUnescape;
    if src.Null? || dest.Null? {
      return;
    }
    var dstEnd, srcEnd, final := NgxUnescapeUri(mem, dest.offset, src.offset, len, UNESCAPE_URI);
  }
}
