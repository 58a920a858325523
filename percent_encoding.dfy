/**
 Percent-encoding as `urllib.parse.quote(prompt)` does it with its default
 `safe='/'`: the prompt is taken as its UTF-8 bytes; the unreserved
 characters of section 2.3 of RFC 3986 and `/` stay as they are, and every
 other byte becomes `%` followed by two upper-case hexadecimal digits
 (section 2.1 of RFC 3986). `Unquote` is the matching percent-decoding.
 */
module PercentEncoding {
  import opened Wrappers

  newtype byte = x: int | 0 <= x < 256

  /** Unreserved characters (RFC 3986, section 2.3): ALPHA, DIGIT, `-`, `.`, `_`, `~`. */
  predicate IsUnreservedChar(c: char)
  {
    ('A' <= c <= 'Z') || ('a' <= c <= 'z') || ('0' <= c <= '9') || c == '-' || c == '.' || c == '_' || c == '~'
  }

  /** Characters `quote` leaves alone: the unreserved ones and the default safe `/`. */
  predicate IsKeptChar(c: char)
  {
    IsUnreservedChar(c) || c == '/'
  }

  /** The character whose code point is the byte's value (Latin-1 reading). */
  function ByteChar(b: byte): char
  {
    (b as int) as char
  }

  predicate IsKeptByte(b: byte)
  {
    IsKeptChar(ByteChar(b))
  }

  predicate IsUpperHex(c: char)
  {
    ('0' <= c <= '9') || ('A' <= c <= 'F')
  }

  /** Hexadecimal digits as percent-decoding accepts them (either case). */
  predicate IsHex(c: char)
  {
    IsUpperHex(c) || ('a' <= c <= 'f')
  }

  function HexValue(c: char): (v: int)
    requires IsHex(c)
    ensures 0 <= v < 16
  {
    if c <= '9' then c as int - '0' as int
    else if c <= 'F' then c as int - 'A' as int + 10
    else c as int - 'a' as int + 10
  }

  /** The upper-case hexadecimal digit of `d`. */
  function HexDigit(d: int): (c: char)
    requires 0 <= d < 16
    ensures IsUpperHex(c) && HexValue(c) == d
  {
    if d < 10 then (d + '0' as int) as char else (d - 10 + 'A' as int) as char
  }

  /**
   One byte of `quote`: a kept byte is itself, any other byte is `%HH`
   with `HH` its value in upper-case hexadecimal.
   */
  function QuoteByte(b: byte): (r: string)
    ensures IsKeptByte(b) ==> r == [ByteChar(b)]
    ensures !IsKeptByte(b) ==>
      |r| == 3 && r[0] == '%' && IsUpperHex(r[1]) && IsUpperHex(r[2])
      && HexValue(r[1]) * 16 + HexValue(r[2]) == b as int
  {
    if IsKeptByte(b) then [ByteChar(b)]
    else ['%', HexDigit(b as int / 16), HexDigit(b as int % 16)]
  }

  /** `urllib.parse.quote` with `safe='/'`, over the UTF-8 bytes of its argument. */
  function Quote(p: seq<byte>): string
  {
    if p == [] then "" else QuoteByte(p[0]) + Quote(p[1..])
  }

  /**
   Strict percent-decoding: kept characters stand for themselves and `%HH`
   for the byte `HH`; anything else (a bare `%`, a reserved or non-ASCII
   character) is refused.
   */
  function Unquote(s: string): Option<seq<byte>>
  {
    if s == [] then Some([])
    else if s[0] == '%' then
      if |s| >= 3 && IsHex(s[1]) && IsHex(s[2]) then
        match Unquote(s[3..])
        case None => None
        case Some(rest) => Some([(HexValue(s[1]) * 16 + HexValue(s[2])) as byte] + rest)
      else None
    else if IsKeptChar(s[0]) then
      match Unquote(s[1..])
      case None => None
      case Some(rest) => Some([(s[0] as int) as byte] + rest)
    else None
  }

  /** The characters `quote` can produce (the hexadecimal digits of `%HH` are kept characters too). */
  predicate IsQuotedChar(c: char)
  {
    IsKeptChar(c) || c == '%'
  }

  /** The number of bytes `quote` escapes. */
  function EscapedCount(p: seq<byte>): nat
  {
    if p == [] then 0 else (if IsKeptByte(p[0]) then 0 else 1) + EscapedCount(p[1..])
  }

  /** Percent-decoding the quoted prompt gives back exactly its bytes. */
  lemma {:induction false} UnquoteQuote(p: seq<byte>)
    ensures Unquote(Quote(p)) == Some(p)
  {
    if p != [] {
      UnquoteQuote(p[1..]);
      var q := Quote(p);
      var head := QuoteByte(p[0]);
      assert q == head + Quote(p[1..]);
      if IsKeptByte(p[0]) {
        assert q[0] == ByteChar(p[0]) && q[1..] == Quote(p[1..]);
      } else {
        assert q[0] == '%' && q[1] == head[1] && q[2] == head[2] && q[3..] == Quote(p[1..]);
      }
      assert [p[0]] + p[1..] == p;
    }
  }

  /** `quote` output holds only kept characters, `%` and upper-case hexadecimal digits. */
  lemma {:induction false} QuoteAlphabet(p: seq<byte>)
    ensures forall i | 0 <= i < |Quote(p)| :: IsQuotedChar(Quote(p)[i])
  {
    if p != [] {
      QuoteAlphabet(p[1..]);
      var head := QuoteByte(p[0]);
      assert Quote(p) == head + Quote(p[1..]);
      assert forall i | 0 <= i < |head| :: IsQuotedChar(head[i]);
    }
  }

  /**
   Every escaped byte costs exactly two extra characters, so the quoted
   prompt is never shorter than the prompt (and, with `EscapedCountZero`,
   strictly longer as soon as one byte is not kept).
   */
  lemma {:induction false} QuoteLength(p: seq<byte>)
    ensures |Quote(p)| == |p| + 2 * EscapedCount(p)
    ensures |Quote(p)| >= |p|
  {
    if p != [] {
      QuoteLength(p[1..]);
    }
  }

  /** No byte is escaped exactly when every byte is kept. */
  lemma {:induction false} EscapedCountZero(p: seq<byte>)
    ensures EscapedCount(p) == 0 <==> forall i | 0 <= i < |p| :: IsKeptByte(p[i])
  {
    if p != [] {
      EscapedCountZero(p[1..]);
      assert forall i | 1 <= i < |p| :: p[i] == p[1..][i - 1];
    }
  }

  /** A prompt of kept bytes only is quoted as itself, character for byte. */
  lemma {:induction false} QuoteKeptIsIdentity(p: seq<byte>)
    requires forall i | 0 <= i < |p| :: IsKeptByte(p[i])
    ensures |Quote(p)| == |p|
    ensures forall i | 0 <= i < |p| :: Quote(p)[i] == ByteChar(p[i])
  {
    if p != [] {
      QuoteKeptIsIdentity(p[1..]);
      assert Quote(p) == [ByteChar(p[0])] + Quote(p[1..]);
    }
  }

  /** `quote` works byte by byte: quoting a concatenation concatenates the quotes. */
  lemma {:induction false} QuoteConcat(a: seq<byte>, b: seq<byte>)
    ensures Quote(a + b) == Quote(a) + Quote(b)
  {
    if a != [] {
      assert (a + b)[1..] == a[1..] + b;
      QuoteConcat(a[1..], b);
    } else {
      assert a + b == b;
    }
  }
}
