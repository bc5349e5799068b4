/** The six escape bitmaps of the URI encoder, one bit for each byte value. */
module EscapeTables {
  import opened Bytes

  /** Eight words of 32 bits; bit `b & 31` of word `b >> 5` is set when byte `b` is to be escaped. */
  type Bitmap = t: seq<Word> | |t| == 8 witness seq(8, _ => 0)

  /** `NGX_ESCAPE_URI` and so on, in the order of the array of bitmaps. */
  const URI: nat := 0
  const ARGS: nat := 1
  const URI_COMPONENT: nat := 2
  const HTML: nat := 3
  const REFRESH: nat := 4
  const MEMCACHED: nat := 5
  const MAIL_AUTH: nat := 6

  const ALL: Word := 0xffffffff

  const URI_WORDS: Bitmap := [ALL, 0xd000002d, 0x50000000, 0xb8000001, ALL, ALL, ALL, ALL]
  const ARGS_WORDS: Bitmap := [ALL, 0xd800086d, 0x50000000, 0xb8000001, ALL, ALL, ALL, ALL]
  const URI_COMPONENT_WORDS: Bitmap := [ALL, 0xfc009fff, 0x78000001, 0xb8000001, ALL, ALL, ALL, ALL]
  const HTML_WORDS: Bitmap := [ALL, 0x500000ad, 0x50000000, 0xb8000001, ALL, ALL, ALL, ALL]
  const REFRESH_WORDS: Bitmap := [ALL, 0x50000085, 0x50000000, 0xd8000001, ALL, ALL, ALL, ALL]
  const MEMCACHED_WORDS: Bitmap := [ALL, 0x00000021, 0, 0, 0, 0, 0, 0]

  /** The array `map[]`, indexed by the kind of escaping. */
  function Table(kind: nat): Bitmap
    requires kind <= MAIL_AUTH
  {
    if kind == URI then URI_WORDS
    else if kind == ARGS then ARGS_WORDS
    else if kind == URI_COMPONENT then URI_COMPONENT_WORDS
    else if kind == HTML then HTML_WORDS
    else if kind == REFRESH then REFRESH_WORDS
    else MEMCACHED_WORDS
  }

  /** `escape[b >> 5] & (1U << (b & 0x1f))` */
  predicate Escaped(t: Bitmap, b: Byte) {
    t[(b >> 5) as int] & ((1 as Word) << (b & 0x1f)) != 0
  }

  /** The unreserved characters of section 2.3 of RFC 3986. */
  predicate Unreserved(b: Byte) {
    || 0x41 <= b <= 0x5a || 0x61 <= b <= 0x7a || 0x30 <= b <= 0x39
    || b == 0x2d || b == 0x2e || b == 0x5f || b == 0x7e
  }

  /** Control bytes, space, DEL and everything beyond ASCII. */
  predicate NotPrintable(b: Byte) {
    b <= 0x20 || b >= 0x7f
  }

  /** `"`, `<`, `>`, `\`, `^`, backquote, `{` and `|`: never allowed bare in a URI. */
  predicate Delimiter(b: Byte) {
    b in {0x22, 0x3c, 0x3e, 0x5c, 0x5e, 0x60, 0x7b, 0x7c}
  }

  /** URI_COMPONENT escapes exactly what section 2.3 of RFC 3986 does not call unreserved. */
  lemma UriComponentEscapesAllButUnreserved(b: Byte)
    ensures Escaped(Table(2), b) <==> !Unreserved(b)
  {
  }

  /** What the other kinds escape, character by character. */
  lemma TableContents(b: Byte)
    ensures Escaped(Table(0), b) <==>
            NotPrintable(b) || Delimiter(b) || b in {0x23, PERCENT, QUESTION, 0x7d}
    ensures Escaped(Table(1), b) <==>
            Escaped(Table(0), b) || b in {0x26, 0x2b, 0x3b}
    ensures Escaped(Table(3), b) <==>
            NotPrintable(b) || Delimiter(b) || b in {0x23, PERCENT, 0x27, 0x7d}
    ensures Escaped(Table(4), b) <==>
            NotPrintable(b) || Delimiter(b) || b in {0x27, 0x7e}
    ensures Escaped(Table(5), b) <==> b <= 0x20 || b == PERCENT
    ensures Escaped(Table(6), b) <==> Escaped(Table(5), b)
  {
  }

  /**
   The bit comment beside the fourth word of the refresh bitmap is the one of the other tables; the
   hexadecimal value differs from it in exactly two characters: `~` is escaped and `}` is not.
   */
  lemma RefreshFourthWordDiffersFromItsComment(b: Byte)
    ensures
      Escaped(Table(REFRESH), b) != Escaped(REFRESH_WORDS[3 := 0xb8000001], b) <==> b == 0x7d || b == 0x7e
  {
  }

  /** Of all the tables, only refresh leaves the percent sign bare. */
  lemma OnlyRefreshSparesPercent(kind: nat)
    requires kind <= MAIL_AUTH
    ensures Escaped(Table(kind), PERCENT) <==> kind != REFRESH
  {
  }
}
