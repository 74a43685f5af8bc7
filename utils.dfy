/** The small helpers both stores rely on: optional values and outcomes of code
    that can throw, the blank test applied before every digest, the escape used
    when text is embedded in an SQL literal, and the hexadecimal rendering of an
    MD5 digest.  The MD5 algorithm itself is not modelled: a `Hasher` stands
    for it and every store is given one. */
module Utils {

  datatype Option<+T> = None | Some(value: T)

  /** The exceptions the modelled code throws or lets through. */
  datatype Exc =
    | SQLException(message: string)
    | OtherException(message: string)
    | RetryFailed
    | NoSuchElement
    | IllegalState

  /** How a call ends: it returns a value or it throws. */
  datatype Outcome<+T> = Return(value: T) | Throw(exc: Exc)

  /** A non-empty sequence is its front followed by its last element. */
  lemma SplitLast<T>(s: seq<T>)
    requires s != []
    ensures s == s[..|s| - 1] + [s[|s| - 1]]
  {
  }

  // ---------------------------------------------------------------------
  // StringUtils.isBlank

  /** `java.lang.Character.isWhitespace`: the Unicode space, line and paragraph
      separators other than the non-breaking ones (U+00A0, U+2007, U+202F),
      plus the control characters U+0009..U+000D and U+001C..U+001F. */
  predicate IsWhitespace(c: char) {
    var n := c as int;
    (0x09 <= n <= 0x0D) || (0x1C <= n <= 0x20) || n == 0x1680
    || (0x2000 <= n <= 0x2006) || (0x2008 <= n <= 0x200A)
    || n == 0x2028 || n == 0x2029 || n == 0x205F || n == 0x3000
  }

  /** A missing text, or one made only of whitespace (the empty text included). */
  predicate Blank(cs: Option<string>) {
    cs.None? || forall i :: 0 <= i < |cs.value| ==> IsWhitespace(cs.value[i])
  }

  /** The character loop with its early exit. */
  method IsBlank(cs: Option<string>) returns (b: bool)
    ensures cs == None || cs == Some("") ==> b
    ensures cs.Some? ==> (b <==> forall i :: 0 <= i < |cs.value| ==> IsWhitespace(cs.value[i]))
    ensures b == Blank(cs)
  {
    if cs.None? {
      return true;
    }
    var s := cs.value;
    if |s| == 0 {
      return true;
    }
    var strLen := |s|;
    for i := 0 to strLen
      invariant forall j :: 0 <= j < i ==> IsWhitespace(s[j])
    {
      if !IsWhitespace(s[i]) {
        return false;
      }
    }
    return true;
  }

  // ---------------------------------------------------------------------
  // StringFix.escape

  /** `String.replace` with a one-character target: every occurrence of `c`,
      left to right, is replaced by `with`. */
  function ReplaceChar(s: string, c: char, with: string): string {
    if s == [] then [] else (if s[0] == c then with else [s[0]]) + ReplaceChar(s[1..], c, with)
  }

  /** Quotes are doubled first, then backslashes. */
  function Escape(s: string): string {
    ReplaceChar(ReplaceChar(s, '\'', "''"), '\\', "\\\\")
  }

  /** The escape of one character on its own. */
  function EscapeChar(c: char): string {
    if c == '\'' then "''" else if c == '\\' then "\\\\" else [c]
  }

  /** The reference escape: each character escaped independently. */
  function EscapeEach(s: string): string {
    if s == [] then [] else EscapeChar(s[0]) + EscapeEach(s[1..])
  }

  function Count(s: string, c: char): nat {
    if s == [] then 0 else (if s[0] == c then 1 else 0) + Count(s[1..], c)
  }

  function Prepend(c: char, o: Option<string>): Option<string> {
    if o.Some? then Some([c] + o.value) else None
  }

  /** How a quoted literal is read back: a doubled quote or a doubled
      backslash stands for one such character; a lone one is not part of a
      well-formed literal (None). */
  function Unescape(t: string): Option<string>
    decreases |t|
  {
    if t == [] then Some([])
    else if t[0] == '\'' || t[0] == '\\' then
      if |t| >= 2 && t[1] == t[0] then Prepend(t[0], Unescape(t[2..])) else None
    else Prepend(t[0], Unescape(t[1..]))
  }

  lemma {:induction false} ReplaceCharAppend(a: string, b: string, c: char, with: string)
    ensures ReplaceChar(a + b, c, with) == ReplaceChar(a, c, with) + ReplaceChar(b, c, with)
  {
    if a != [] {
      assert (a + b)[1..] == a[1..] + b;
      ReplaceCharAppend(a[1..], b, c, with);
    } else {
      assert a + b == b;
    }
  }

  /** The two passes of `escape` agree with escaping each character on its own:
      every quote becomes two quotes, every backslash two backslashes, and
      every other character is left alone. */
  lemma {:induction false} EscapeIsCharwise(s: string)
    ensures Escape(s) == EscapeEach(s)
  {
    if s != [] {
      var first := if s[0] == '\'' then "''" else [s[0]];
      assert ReplaceChar(s, '\'', "''") == first + ReplaceChar(s[1..], '\'', "''");
      ReplaceCharAppend(first, ReplaceChar(s[1..], '\'', "''"), '\\', "\\\\");
      EscapeIsCharwise(s[1..]);
      if s[0] == '\'' {
        assert ReplaceChar(first, '\\', "\\\\") == "''" by {
          assert first[1..][1..] == [];
        }
      } else {
        assert first[1..] == [];
      }
    }
  }

  /** The escaped text is longer by one character per quote and per backslash. */
  lemma {:induction false} EscapeLength(s: string)
    ensures |Escape(s)| == |s| + Count(s, '\'') + Count(s, '\\')
  {
    EscapeIsCharwise(s);
    EscapeEachLength(s);
  }

  lemma {:induction false} EscapeEachLength(s: string)
    ensures |EscapeEach(s)| == |s| + Count(s, '\'') + Count(s, '\\')
  {
    if s != [] {
      EscapeEachLength(s[1..]);
    }
  }

  /** Reading the escaped literal back gives the original text. */
  lemma {:induction false} UnescapeEscape(s: string)
    ensures Unescape(Escape(s)) == Some(s)
  {
    EscapeIsCharwise(s);
    UnescapeEscapeEach(s);
  }

  lemma {:induction false} UnescapeEscapeEach(s: string)
    ensures Unescape(EscapeEach(s)) == Some(s)
  {
    if s != [] {
      var t := EscapeEach(s);
      var rest := EscapeEach(s[1..]);
      UnescapeEscapeEach(s[1..]);
      assert t == EscapeChar(s[0]) + rest;
      if s[0] == '\'' || s[0] == '\\' {
        assert t[2..] == rest;
      } else {
        assert t[1..] == rest;
      }
      assert [s[0]] + s[1..] == s;
    }
  }

  /** Conversely, a text that reads back as `s` is exactly the escape of `s`:
      no other literal denotes the same content. */
  lemma {:induction false} EscapeUnescape(t: string, s: string)
    requires Unescape(t) == Some(s)
    ensures Escape(s) == t
  {
    EscapeIsCharwise(s);
    EscapeEachUnescape(t, s);
  }

  lemma {:induction false} EscapeEachUnescape(t: string, s: string)
    requires Unescape(t) == Some(s)
    ensures EscapeEach(s) == t
    decreases |t|
  {
    if t != [] {
      if t[0] == '\'' || t[0] == '\\' {
        var r := Unescape(t[2..]).value;
        assert s == [t[0]] + r;
        EscapeEachUnescape(t[2..], r);
        assert s[1..] == r;
        assert t == [t[0], t[1]] + t[2..];
      } else {
        var r := Unescape(t[1..]).value;
        assert s == [t[0]] + r;
        EscapeEachUnescape(t[1..], r);
        assert s[1..] == r;
        assert t == [t[0]] + t[1..];
      }
    }
  }

  // ---------------------------------------------------------------------
  // MD5.encode

  /** A JVM `byte`: a signed two's-complement 8-bit value. */
  newtype JByte = x: int | -128 <= x < 128

  /** An MD5 digest: sixteen bytes. */
  type Digest = s: seq<JByte> | |s| == 16
    witness [0, 0, 0, 0, 0, 0, 0, 0, 0, 0, 0, 0, 0, 0, 0, 0]

  /** `MessageDigest.getInstance("MD5").digest(text.toByteArray())`: the
      algorithm is outside this model, only its being a deterministic
      function of the text with a 16-byte result is used. */
  type Hasher = string -> Digest

  /** `b.toInt() and 0xff`: the sign-extended byte masked to its low 8 bits. */
  function Unsigned(b: JByte): (u: int)
    ensures 0 <= u < 256
    ensures u % 256 == (b as int) % 256
  {
    if b < 0 then b as int + 256 else b as int
  }

  /** The byte whose unsigned reading is `u`. */
  function Signed(u: int): JByte
    requires 0 <= u < 256
  {
    if u >= 128 then (u - 256) as JByte else u as JByte
  }

  /** `Character.forDigit(d, 16)`: '0'..'9', then lower-case 'a'..'f'. */
  function HexDigit(d: int): char
    requires 0 <= d < 16
  {
    if d < 10 then ('0' as int + d) as char else ('a' as int + d - 10) as char
  }

  /** `Integer.toHexString` of a non-negative value: lower-case digits, no
      leading zeros. */
  function ToHexString(i: nat): string
    decreases i
  {
    if i < 16 then [HexDigit(i)] else ToHexString(i / 16) + [HexDigit(i % 16)]
  }

  /** What the loop appends for one byte: a "0" when the hex string is a
      single digit, then the hex string. */
  function ByteHex(b: JByte): string {
    var h := ToHexString(Unsigned(b));
    (if |h| < 2 then "0" else "") + h
  }

  /** The text the loop builds for the first bytes of a digest. */
  function Hex(bytes: seq<JByte>): string {
    if bytes == [] then "" else Hex(bytes[..|bytes| - 1]) + ByteHex(bytes[|bytes| - 1])
  }

  /** `MD5.encode`: "" for a missing text, otherwise the hex rendering of the
      digest. */
  function Md5Text(hash: Hasher, text: Option<string>): string {
    if text.None? then "" else Hex(hash(text.value))
  }

  /** The appending loop of `MD5.encode`. */
  method Encode(hash: Hasher, text: Option<string>) returns (s: string)
    ensures s == Md5Text(hash, text)
  {
    if text.None? {
      return "";
    }
    var digest := hash(text.value);
    var sb := "";
    for k := 0 to |digest|
      invariant sb == Hex(digest[..k])
    {
      var i := Unsigned(digest[k]);
      var hexString := ToHexString(i);
      if |hexString| < 2 {
        sb := sb + "0";
      }
      sb := sb + hexString;
      assert digest[..k + 1][..k] == digest[..k];
    }
    assert digest[..|digest|] == digest;
    return sb;
  }

  /** One byte always renders as exactly two digits: the high and the low
      nibble of its unsigned value, zero-padded. */
  lemma ByteHexDigits(b: JByte)
    ensures ByteHex(b) == [HexDigit(Unsigned(b) / 16), HexDigit(Unsigned(b) % 16)]
  {
    var u := Unsigned(b);
    if u >= 16 {
      assert ToHexString(u) == ToHexString(u / 16) + [HexDigit(u % 16)];
      assert ToHexString(u / 16) == [HexDigit(u / 16)];
    }
  }

  predicate IsHexDigit(c: char) {
    '0' <= c <= '9' || 'a' <= c <= 'f'
  }

  /** Two lower-case hex digits per byte, so twice as many characters as bytes. */
  lemma {:induction false} HexShape(bytes: seq<JByte>)
    ensures |Hex(bytes)| == 2 * |bytes|
    ensures forall i :: 0 <= i < |Hex(bytes)| ==> IsHexDigit(Hex(bytes)[i])
  {
    if bytes != [] {
      HexShape(bytes[..|bytes| - 1]);
      ByteHexDigits(bytes[|bytes| - 1]);
    }
  }

  function DigitValue(c: char): int {
    if '0' <= c <= '9' then c as int - '0' as int
    else if 'a' <= c <= 'f' then c as int - 'a' as int + 10
    else -1
  }

  /** Reads a rendering back pair by pair, from the last pair. */
  function HexDecode(s: string): Option<seq<JByte>>
    decreases |s|
  {
    if s == [] then Some([])
    else if |s| < 2 then None
    else
      var hi := DigitValue(s[|s| - 2]);
      var lo := DigitValue(s[|s| - 1]);
      var front := HexDecode(s[..|s| - 2]);
      if hi < 0 || lo < 0 || front.None? then None
      else Some(front.value + [Signed(16 * hi + lo)])
  }

  lemma {:induction false} SignedUnsigned(b: JByte)
    ensures Signed(Unsigned(b)) == b
  {
  }

  lemma DigitValueOfHexDigit(d: int)
    requires 0 <= d < 16
    ensures DigitValue(HexDigit(d)) == d
  {
  }

  lemma PairValue(u: int)
    requires 0 <= u < 256
    ensures 0 <= u / 16 < 16 && 16 * (u / 16) + u % 16 == u
  {
  }

  /** Decoding a text that ends in the two digits of `u`. */
  lemma {:induction false} HexDecodePair(p: string, u: int)
    requires 0 <= u < 256
    ensures HexDecode(p + [HexDigit(u / 16), HexDigit(u % 16)])
         == if HexDecode(p).None? then None else Some(HexDecode(p).value + [Signed(u)])
  {
    PairValue(u);
    var hi, lo := u / 16, u % 16;
    var s := p + [HexDigit(hi), HexDigit(lo)];
    assert s[..|s| - 2] == p;
    DigitValueOfHexDigit(hi);
    DigitValueOfHexDigit(lo);
    assert DigitValue(s[|s| - 2]) == hi;
    assert DigitValue(s[|s| - 1]) == lo;
  }

  /** The rendering loses nothing: it decodes back to the digest bytes. */
  lemma {:induction false} HexRoundTrip(bytes: seq<JByte>)
    ensures HexDecode(Hex(bytes)) == Some(bytes)
  {
    if bytes != [] {
      var init, last := bytes[..|bytes| - 1], bytes[|bytes| - 1];
      var p, u := Hex(init), Unsigned(last);
      HexRoundTrip(init);
      ByteHexDigits(last);
      assert Hex(bytes) == p + [HexDigit(u / 16), HexDigit(u % 16)];
      HexDecodePair(p, u);
      SignedUnsigned(last);
      SplitLast(bytes);
    }
  }

  /** `MD5.encode` gives "" for null, and 32 lower-case hex digits otherwise. */
  lemma Md5TextShape(hash: Hasher, text: Option<string>)
    ensures text.None? ==> Md5Text(hash, text) == ""
    ensures text.Some? ==> |Md5Text(hash, text)| == 32
    ensures forall i :: 0 <= i < |Md5Text(hash, text)| ==> IsHexDigit(Md5Text(hash, text)[i])
  {
    if text.Some? {
      HexShape(hash(text.value));
    }
  }

  /** The digest column of every row: "" for a blank text, otherwise `MD5.encode`
      (the `md5`, `keyMd5` and `valueMd5` getters). */
  function ContentMd5(hash: Hasher, text: Option<string>): string {
    if Blank(text) then "" else Md5Text(hash, text)
  }

  /** The digest is "" exactly for blank texts, so all blank texts share one
      digest and no other text shares it. */
  lemma ContentMd5EmptyIffBlank(hash: Hasher, text: Option<string>)
    ensures ContentMd5(hash, text) == "" <==> Blank(text)
    ensures !Blank(text) ==> |ContentMd5(hash, text)| == 32
  {
    Md5TextShape(hash, text);
  }
}
