/**
 * Percent-encoding and percent-decoding (section 2.1 of RFC 3986) as Python's
 * `urllib.parse.quote` and `urllib.parse.unquote` perform them.
 *
 * A URL is modelled by the octets of its UTF-8 encoding, each octet carried in a
 * `char` below 256. `quote(str)` encodes its argument to UTF-8 and escapes octets,
 * so on octets it is exact. `unquote` decodes `%HH` triplets to octets; the final
 * UTF-8 decoding of those octets back into text is not part of this model.
 */
module UrlCodec {

  /** One octet of a URL. */
  type Byte = c: char | c as int < 256 witness '\0'

  type Bytes = seq<Byte>

  /** A hexadecimal digit in either case, as accepted when decoding. */
  predicate IsHexDigit(c: char) {
    '0' <= c <= '9' || 'A' <= c <= 'F' || 'a' <= c <= 'f'
  }

  /** An upper-case hexadecimal digit, as produced when encoding. */
  predicate IsUpperHexDigit(c: char) {
    '0' <= c <= '9' || 'A' <= c <= 'F'
  }

  function HexValue(c: char): (v: nat)
    requires IsHexDigit(c)
    ensures v < 16
  {
    if '0' <= c <= '9' then c as int - '0' as int
    else if 'A' <= c <= 'F' then c as int - 'A' as int + 10
    else c as int - 'a' as int + 10
  }

  /** The upper-case digit for `v`; `HexValue` reads it back. */
  function HexDigit(v: nat): (c: Byte)
    requires v < 16
    ensures IsUpperHexDigit(c) && HexValue(c) == v
  {
    if v < 10 then ('0' as int + v) as char else ('A' as int + v - 10) as char
  }

  // ---------------------------------------------------------------------
  // Decoding
  // ---------------------------------------------------------------------

  /** A `%` at position `i` followed by two hexadecimal digits. */
  predicate IsEscapeAt(s: seq<char>, i: int) {
    0 <= i && i + 2 < |s| && s[i] == '%' && IsHexDigit(s[i + 1]) && IsHexDigit(s[i + 2])
  }

  /** `s` contains at least one well-formed percent-escape. */
  predicate HasEscape(s: seq<char>) {
    exists i | 0 <= i < |s| :: IsEscapeAt(s, i)
  }

  /** The octet a well-formed escape at `i` stands for. */
  function EscapedByte(s: seq<char>, i: int): Byte
    requires IsEscapeAt(s, i)
  {
    (16 * HexValue(s[i + 1]) + HexValue(s[i + 2])) as char
  }

  /**
   * `unquote_to_bytes`: scanning left to right, every `%` followed by two
   * hexadecimal digits is replaced by the octet it names; a `%` that is not
   * followed by two hexadecimal digits is kept as it is.
   */
  function Unquote(s: Bytes): (r: Bytes)
    ensures |r| <= |s|
    decreases |s|
  {
    if |s| == 0 then []
    else if IsEscapeAt(s, 0) then [EscapedByte(s, 0)] + Unquote(s[3..])
    else [s[0]] + Unquote(s[1..])
  }

  // ---------------------------------------------------------------------
  // Encoding
  // ---------------------------------------------------------------------

  /** The unreserved characters of section 2.3 of RFC 3986: never escaped. */
  predicate IsAlwaysSafe(c: char) {
    'A' <= c <= 'Z' || 'a' <= c <= 'z' || '0' <= c <= '9' || c == '_' || c == '.' || c == '-' || c == '~'
  }

  /** Left unescaped by `quote(_, safe)`: non-ASCII characters of `safe` are ignored. */
  predicate IsSafe(c: char, safe: string) {
    IsAlwaysSafe(c) || (c in safe && c as int < 128)
  }

  /** `%HH` with upper-case hex digits. */
  function Escape(b: Byte): (r: Bytes)
    ensures |r| == 3 && IsEscapeAt(r, 0) && EscapedByte(r, 0) == b
    ensures IsUpperHexDigit(r[1]) && IsUpperHexDigit(r[2])
  {
    ['%', HexDigit(b as int / 16), HexDigit(b as int % 16)]
  }

  /** `quote_from_bytes(s, safe)`: safe octets are kept, every other octet is escaped. */
  function Quote(s: Bytes, safe: string): (r: Bytes)
    ensures |s| <= |r| <= 3 * |s|
    decreases |s|
  {
    if |s| == 0 then []
    else (if IsSafe(s[0], safe) then [s[0]] else Escape(s[0])) + Quote(s[1..], safe)
  }

  /**
   * The shape of an encoded string: every `%` opens an upper-case `%HH` triplet
   * and every other character is safe.
   */
  predicate IsQuoted(r: seq<char>, safe: string)
    decreases |r|
  {
    if |r| == 0 then true
    else if r[0] == '%' then
      |r| >= 3 && IsUpperHexDigit(r[1]) && IsUpperHexDigit(r[2]) && IsQuoted(r[3..], safe)
    else IsSafe(r[0], safe) && IsQuoted(r[1..], safe)
  }

  predicate AllSafe(s: seq<char>, safe: string) {
    forall i | 0 <= i < |s| :: IsSafe(s[i], safe)
  }

  // ---------------------------------------------------------------------
  // Properties
  // ---------------------------------------------------------------------

  /** An escape exists iff one starts at the head or one exists in the tail. */
  lemma HasEscapeStep(s: seq<char>)
    requires |s| > 0
    ensures HasEscape(s) <==> IsEscapeAt(s, 0) || HasEscape(s[1..])
  {
    if HasEscape(s) {
      var i :| 0 <= i < |s| && IsEscapeAt(s, i);
      if i > 0 {
        assert IsEscapeAt(s[1..], i - 1);
      }
    }
    if HasEscape(s[1..]) {
      var j :| 0 <= j < |s[1..]| && IsEscapeAt(s[1..], j);
      assert IsEscapeAt(s, j + 1);
    }
  }

  /** Decoding changes a string exactly when it holds a well-formed escape. */
  lemma {:induction false} UnquoteFixedIffNoEscape(s: Bytes)
    ensures Unquote(s) == s <==> !HasEscape(s)
    decreases |s|
  {
    if |s| > 0 {
      HasEscapeStep(s);
      if IsEscapeAt(s, 0) {
        assert |Unquote(s)| < |s|;
      } else {
        UnquoteFixedIffNoEscape(s[1..]);
        var tail := Unquote(s[1..]);
        assert Unquote(s) == [s[0]] + tail;
        if tail == s[1..] {
          assert [s[0]] + s[1..] == s;
        }
        if Unquote(s) == s {
          assert tail == Unquote(s)[1..];
        }
      }
    }
  }

  /** Encoding distributes over concatenation. */
  lemma {:induction false} QuoteAppend(a: Bytes, b: Bytes, safe: string)
    ensures Quote(a + b, safe) == Quote(a, safe) + Quote(b, safe)
    decreases |a|
  {
    if |a| > 0 {
      assert (a + b)[1..] == a[1..] + b;
      QuoteAppend(a[1..], b, safe);
    } else {
      assert a + b == b;
    }
  }

  /** Encoding leaves a string unchanged exactly when all its octets are safe. */
  lemma {:induction false} QuoteFixedIffAllSafe(s: Bytes, safe: string)
    ensures Quote(s, safe) == s <==> AllSafe(s, safe)
    decreases |s|
  {
    if |s| > 0 {
      QuoteFixedIffAllSafe(s[1..], safe);
      var tail := Quote(s[1..], safe);
      if IsSafe(s[0], safe) {
        assert Quote(s, safe) == [s[0]] + tail;
        if AllSafe(s, safe) {
          assert AllSafe(s[1..], safe) by {
            forall i | 0 <= i < |s[1..]| ensures IsSafe(s[1..][i], safe) {
              assert s[1..][i] == s[i + 1];
            }
          }
          assert [s[0]] + s[1..] == s;
        }
        if Quote(s, safe) == s {
          assert tail == Quote(s, safe)[1..];
          forall i | 0 <= i < |s| ensures IsSafe(s[i], safe) {
            if i > 0 {
              assert s[i] == s[1..][i - 1];
            }
          }
        }
      } else {
        assert |Quote(s, safe)| == 3 + |tail|;
      }
    }
  }

  /** When encoding changes a string, the result holds a well-formed escape. */
  lemma {:induction false} QuoteChangedHasEscape(s: Bytes, safe: string)
    requires Quote(s, safe) != s
    ensures HasEscape(Quote(s, safe))
    decreases |s|
  {
    var r := Quote(s, safe);
    var tail := Quote(s[1..], safe);
    if IsSafe(s[0], safe) {
      assert r == [s[0]] + tail;
      assert s == [s[0]] + s[1..];
      QuoteChangedHasEscape(s[1..], safe);
      var j :| 0 <= j < |tail| && IsEscapeAt(tail, j);
      assert r[1..] == tail;
      assert IsEscapeAt(r, j + 1);
    } else {
      assert r == Escape(s[0]) + tail;
      assert IsEscapeAt(r, 0);
    }
  }

  /** Every encoded string has the shape `IsQuoted` describes. */
  lemma {:induction false} QuoteIsQuoted(s: Bytes, safe: string)
    requires '%' !in safe
    ensures IsQuoted(Quote(s, safe), safe)
    decreases |s|
  {
    if |s| > 0 {
      var r := Quote(s, safe);
      var tail := Quote(s[1..], safe);
      QuoteIsQuoted(s[1..], safe);
      if IsSafe(s[0], safe) {
        assert r == [s[0]] + tail;
        assert r[1..] == tail;
      } else {
        assert r == Escape(s[0]) + tail;
        assert r[3..] == tail;
      }
    }
  }

  /** Decoding undoes encoding, provided `%` itself is never left unescaped. */
  lemma {:induction false} UnquoteQuote(s: Bytes, safe: string)
    requires '%' !in safe
    ensures Unquote(Quote(s, safe)) == s
    decreases |s|
  {
    if |s| > 0 {
      var r := Quote(s, safe);
      var tail := Quote(s[1..], safe);
      UnquoteQuote(s[1..], safe);
      if IsSafe(s[0], safe) {
        assert r == [s[0]] + tail;
        assert !IsEscapeAt(r, 0);
        assert r[1..] == tail;
        assert Unquote(r) == [s[0]] + s[1..];
      } else {
        assert r == Escape(s[0]) + tail;
        assert r[3..] == tail;
        assert Unquote(r) == [s[0]] + s[1..];
      }
      assert [s[0]] + s[1..] == s;
    }
  }
}
