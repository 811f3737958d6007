/**
 * The identifier codec of `utils/uuid.go`. A UUID has two textual forms:
 *  - the long form, the canonical `8-4-4-4-12` lower-case hexadecimal layout of RFC 9562 (section 4);
 *  - the short form, the 16 bytes in unpadded base64 over a custom alphabet whose three
 *    non-alphanumeric symbols `+`, `-`, `#` are then escaped as `sp`, `sq`, `sr`.
 * Decoding picks the form by the length of the text: exactly 36 characters is read as the long form,
 * anything else as the short form.
 */
module Uuid {
  import opened Wrappers
  import opened Strings
  import opened Base64

  /** A UUID is its 16 bytes (`uuid.UUID` is a `[16]byte`). */
  type Uuid = u: seq<byte> | |u| == 16 witness seq(16, i => 0)

  /** `uuid.Nil`, returned beside every decoding error. */
  const Nil: Uuid := seq(16, i => 0)

  // ---------------------------------------------------------------------------------------------
  // The custom alphabet

  /** The alphabet of the short form: `t..z`, `0..9`, `A..Z`, `a..r`, then `+`, `-`, `#`. */
  const Alphabet: string := "tuvwxyz" + "0123456789" + "ABCDEFGHIJKLMNOPQRSTUVWXYZ" + "abcdefghijklmnopqr" + "+-#"

  /** The symbol for a 6-bit value, computed from the alphabet's runs. */
  function Sym(v: sextet): char {
    if v < 7 then ('t' as int + v) as char
    else if v < 17 then ('0' as int + (v - 7)) as char
    else if v < 43 then ('A' as int + (v - 17)) as char
    else if v < 61 then ('a' as int + (v - 43)) as char
    else if v == 61 then '+'
    else if v == 62 then '-'
    else '#'
  }

  lemma AlphabetSymbols()
    ensures |Alphabet| == 64
    ensures forall i :: 0 <= i < 64 ==> Alphabet[i] == Sym(i)
  {
    assert forall i :: 0 <= i < 7 ==> "tuvwxyz"[i] == ('t' as int + i) as char;
    assert forall i :: 0 <= i < 10 ==> "0123456789"[i] == ('0' as int + i) as char;
    assert forall i :: 0 <= i < 26 ==> "ABCDEFGHIJKLMNOPQRSTUVWXYZ"[i] == ('A' as int + i) as char;
    assert forall i :: 0 <= i < 18 ==> "abcdefghijklmnopqr"[i] == ('a' as int + i) as char;
  }

  /** The custom alphabet is one `base64.NewEncoding` accepts, and it has no `s`, the escape lead. */
  lemma AlphabetValid()
    ensures ValidAlphabet(Alphabet)
    ensures Free(Alphabet, 's')
  {
    AlphabetSymbols();
  }

  // ---------------------------------------------------------------------------------------------
  // Escaping the three non-alphanumeric symbols

  predicate IsEscapeTag(c: char) {
    c == 'p' || c == 'q' || c == 'r'
  }

  /** `encodeReplacer` on one character. */
  function EscapeChar(c: char): (r: string)
    ensures c == '+' || c == '-' || c == '#' ==> |r| == 2 && r[0] == 's' && IsEscapeTag(r[1])
    ensures c != '+' && c != '-' && c != '#' ==> r == [c]
  {
    if c == '+' then "sp" else if c == '-' then "sq" else if c == '#' then "sr" else [c]
  }

  /** `encodeReplacer.Replace`: `+`, `-`, `#` become `sp`, `sq`, `sr`; every other character stays. */
  function Escape(t: string): (r: string)
    ensures |r| >= |t|
    decreases |t|
  {
    if |t| == 0 then "" else EscapeChar(t[0]) + Escape(t[1..])
  }

  /** The escaped text has no `+`, `-` or `#` left. */
  lemma {:induction false} EscapeRemovesSymbols(t: string)
    ensures Free(Escape(t), '+') && Free(Escape(t), '-') && Free(Escape(t), '#')
    decreases |t|
  {
    if |t| > 0 {
      EscapeRemovesSymbols(t[1..]);
      var e, rest := EscapeChar(t[0]), Escape(t[1..]);
      assert forall j :: 0 <= j < |e + rest| ==> (e + rest)[j] == if j < |e| then e[j] else rest[j - |e|];
    }
  }

  /** The character an escape tag stands for. */
  function Unescaped(tag: char): char
    requires IsEscapeTag(tag)
  {
    if tag == 'p' then '+' else if tag == 'q' then '-' else '#'
  }

  /**
   * `decodeReplacer.Replace`: scanning from the left, each `sp`, `sq`, `sr` becomes `+`, `-`, `#`
   * and the scan resumes after it; every other character is copied.
   */
  function Unescape(s: string): (r: string)
    ensures |r| <= |s|
    decreases |s|
  {
    if |s| == 0 then ""
    else if |s| >= 2 && s[0] == 's' && IsEscapeTag(s[1]) then [Unescaped(s[1])] + Unescape(s[2..])
    else [s[0]] + Unescape(s[1..])
  }

  /** The number of characters that escaping doubles. */
  function EscapeCount(t: string): nat
    decreases |t|
  {
    if |t| == 0 then 0 else (if t[0] == '+' || t[0] == '-' || t[0] == '#' then 1 else 0) + EscapeCount(t[1..])
  }

  lemma {:induction false} EscapeLength(t: string)
    ensures |Escape(t)| == |t| + EscapeCount(t)
    ensures EscapeCount(t) <= |t|
    decreases |t|
  {
    if |t| > 0 {
      EscapeLength(t[1..]);
    }
  }

  lemma {:induction false} EscapeAppend(a: string, b: string)
    ensures Escape(a + b) == Escape(a) + Escape(b)
    decreases |a|
  {
    if |a| > 0 {
      assert (a + b)[0] == a[0];
      assert (a + b)[1..] == a[1..] + b;
      EscapeAppend(a[1..], b);
    } else {
      assert a + b == b;
    }
  }

  /** Unescaping undoes escaping for any text without an `s` of its own. */
  lemma {:induction false} UnescapeOfEscape(t: string)
    requires Free(t, 's')
    ensures Unescape(Escape(t)) == t
    decreases |t|
  {
    if |t| > 0 {
      var e, rest := EscapeChar(t[0]), Escape(t[1..]);
      assert Escape(t) == e + rest;
      assert Free(t[1..], 's') by {
        forall j | 0 <= j < |t| - 1 ensures t[1..][j] != 's' { assert t[1..][j] == t[j + 1]; }
      }
      UnescapeOfEscape(t[1..]);
      if |e| == 2 {
        assert (e + rest)[2..] == rest;
      } else {
        assert (e + rest)[1..] == rest;
      }
      assert t == [t[0]] + t[1..];
    }
  }

  /** Escaping then unescaping is not the identity on texts with an `s`: `sp` comes back as `+`. */
  lemma UnescapeNeedsNoS()
    ensures Unescape(Escape("sp")) == "+"
  {
    assert Escape("sp") == "sp" by {
      assert Escape("p") == "p";
    }
    assert Unescape("") == "";
  }

  /** Every `s` of the text is the lead of an escape: the next character is `p`, `q` or `r`. */
  predicate EscapesTagged(r: string) {
    forall i :: 0 <= i < |r| && r[i] == 's' ==> i + 1 < |r| && IsEscapeTag(r[i + 1])
  }

  /** Escaping a text without an `s` of its own leaves only `s` characters that lead an escape. */
  lemma {:induction false} EscapeTagsEveryS(t: string)
    requires Free(t, 's')
    ensures EscapesTagged(Escape(t))
    decreases |t|
  {
    if |t| > 0 {
      assert Free(t[1..], 's') by {
        forall j | 0 <= j < |t| - 1 ensures t[1..][j] != 's' { assert t[1..][j] == t[j + 1]; }
      }
      EscapeTagsEveryS(t[1..]);
      var e, rest := EscapeChar(t[0]), Escape(t[1..]);
      assert Escape(t) == e + rest;
      forall i | 0 <= i < |e + rest| && (e + rest)[i] == 's'
        ensures i + 1 < |e + rest| && IsEscapeTag((e + rest)[i + 1])
      {
        if i >= |e| {
          assert (e + rest)[i] == rest[i - |e|];
          assert (e + rest)[i + 1] == rest[i + 1 - |e|];
        }
      }
    }
  }

  /** Unescaping a text without `s` leaves it as it is. */
  lemma {:induction false} UnescapeWithoutS(s: string)
    requires Free(s, 's')
    ensures Unescape(s) == s
    decreases |s|
  {
    if |s| > 0 {
      assert Free(s[1..], 's') by {
        forall j | 0 <= j < |s| - 1 ensures s[1..][j] != 's' { assert s[1..][j] == s[j + 1]; }
      }
      UnescapeWithoutS(s[1..]);
      assert s == [s[0]] + s[1..];
    }
  }

  // ---------------------------------------------------------------------------------------------
  // Long form

  function HexDigit(n: int): (c: char)
    requires 0 <= n < 16
  {
    if n < 10 then ('0' as int + n) as char else ('a' as int + (n - 10)) as char
  }

  predicate IsHexDigit(c: char) {
    ('0' <= c <= '9') || ('a' <= c <= 'f') || ('A' <= c <= 'F')
  }

  /** The value of a hexadecimal digit of either case (`fromHexChar`). */
  function HexValue(c: char): (n: int)
    requires IsHexDigit(c)
    ensures 0 <= n < 16
  {
    if c <= '9' then c as int - '0' as int
    else if c <= 'F' then c as int - 'A' as int + 10
    else c as int - 'a' as int + 10
  }

  lemma HexValueOfDigit(n: int)
    requires 0 <= n < 16
    ensures IsHexDigit(HexDigit(n)) && HexValue(HexDigit(n)) == n
  {
  }

  /** The position in the long form of the high digit of byte `i`: two digits per byte, plus the dashes before it. */
  function Offset(i: int): (k: int)
    requires 0 <= i < 16
    ensures 0 <= k && k + 1 < 36
  {
    2 * i + (if i < 4 then 0 else if i < 6 then 1 else if i < 8 then 2 else if i < 10 then 3 else 4)
  }

  predicate DashesAt(s: string)
    requires |s| == 36
  {
    s[8] == '-' && s[13] == '-' && s[18] == '-' && s[23] == '-'
  }

  function DashesBefore(k: int): int {
    (if k > 8 then 1 else 0) + (if k > 13 then 1 else 0) + (if k > 18 then 1 else 0) + (if k > 23 then 1 else 0)
  }

  /** Character `k` of the long form: a dash, or the high or low hex digit of the byte it belongs to. */
  function LongChar(u: Uuid, k: int): char
    requires 0 <= k < 36
  {
    if k == 8 || k == 13 || k == 18 || k == 23 then '-'
    else
      var j := k - DashesBefore(k);
      if j % 2 == 0 then HexDigit(u[j / 2] / 16) else HexDigit(u[j / 2] % 16)
  }

  /**
   * `LongEncodeUUID` (`uuid.String`): 36 characters with dashes at positions 8, 13, 18 and 23; the
   * hex digits are stated by `LongEncodeDigits`.
   */
  function LongEncodeUUID(u: Uuid): (r: string)
    ensures |r| == 36 && DashesAt(r)
  {
    seq(36, k requires 0 <= k < 36 => LongChar(u, k))
  }

  /** At the positions `Offset(i)` and `Offset(i) + 1` the long form holds the lower-case hex digits of byte `i`. */
  lemma LongEncodeDigits(u: Uuid)
    ensures forall i :: 0 <= i < 16 ==>
      LongEncodeUUID(u)[Offset(i)] == HexDigit(u[i] / 16) && LongEncodeUUID(u)[Offset(i) + 1] == HexDigit(u[i] % 16)
  {
    forall i | 0 <= i < 16
      ensures LongEncodeUUID(u)[Offset(i)] == HexDigit(u[i] / 16) && LongEncodeUUID(u)[Offset(i) + 1] == HexDigit(u[i] % 16)
    {
      LongCharAt(u, i);
    }
  }

  lemma LongCharAt(u: Uuid, i: int)
    requires 0 <= i < 16
    ensures LongChar(u, Offset(i)) == HexDigit(u[i] / 16)
    ensures LongChar(u, Offset(i) + 1) == HexDigit(u[i] % 16)
  {
    var k := Offset(i);
    assert k - DashesBefore(k) == 2 * i;
    assert k + 1 - DashesBefore(k + 1) == 2 * i + 1;
  }

  predicate HexPairAt(s: string, k: int)
    requires 0 <= k && k + 1 < |s|
  {
    IsHexDigit(s[k]) && IsHexDigit(s[k + 1])
  }

  /** A canonical text: dashes at positions 8, 13, 18 and 23 and a hexadecimal digit of either case everywhere else. */
  predicate Canonical(s: string)
    requires |s| == 36
  {
    DashesAt(s) && forall i :: 0 <= i < 16 ==> HexPairAt(s, Offset(i))
  }

  /** The canonical reader `uuid.FromString` applies to a 36-character text: the bytes of a canonical text, or an error. */
  function ParseCanonical(s: string): (r: Option<Uuid>)
    requires |s| == 36
    ensures r.Some? <==> Canonical(s)
  {
    if Canonical(s) then
      var u: Uuid := seq(16, i requires 0 <= i < 16 => HexValue(s[Offset(i)]) * 16 + HexValue(s[Offset(i) + 1]));
      Some(u)
    else
      None
  }

  /** Reading the long form gives the UUID back. */
  lemma ParseCanonicalOfLong(u: Uuid)
    ensures ParseCanonical(LongEncodeUUID(u)) == Some(u)
  {
    var s := LongEncodeUUID(u);
    LongEncodeDigits(u);
    forall i | 0 <= i < 16
      ensures HexPairAt(s, Offset(i))
      ensures HexValue(s[Offset(i)]) * 16 + HexValue(s[Offset(i) + 1]) == u[i]
    {
      HexValueOfDigit(u[i] / 16);
      HexValueOfDigit(u[i] % 16);
    }
    assert ParseCanonical(s).Some?;
    var v := ParseCanonical(s).value;
    assert v == seq(16, i requires 0 <= i < 16 => HexValue(s[Offset(i)]) * 16 + HexValue(s[Offset(i) + 1]));
    assert forall i :: 0 <= i < 16 ==> v[i] == u[i];
    assert v == u;
  }

  predicate IsLowerHexDigit(c: char) {
    ('0' <= c <= '9') || ('a' <= c <= 'f')
  }

  lemma HexDigitOfValue(c: char)
    requires IsLowerHexDigit(c)
    ensures HexDigit(HexValue(c)) == c
  {
  }

  /** A canonical text whose hex digits are all lower case, the layout `uuid.String` writes. */
  predicate LowerCanonical(s: string)
    requires |s| == 36
  {
    Canonical(s) && forall i :: 0 <= i < 16 ==> IsLowerHexDigit(s[Offset(i)]) && IsLowerHexDigit(s[Offset(i) + 1])
  }

  /** Every position of the long form is a dash or one of the two digits of some byte. */
  lemma PositionOfOffset(k: int)
    requires 0 <= k < 36 && k != 8 && k != 13 && k != 18 && k != 23
    ensures var j := k - DashesBefore(k); 0 <= j / 2 < 16 && k == Offset(j / 2) + j % 2
  {
  }

  /** Writing out the bytes read from a lower-case canonical text gives the text back. */
  lemma LongOfParseCanonical(s: string)
    requires |s| == 36 && LowerCanonical(s)
    ensures ParseCanonical(s).Some? && LongEncodeUUID(ParseCanonical(s).value) == s
  {
    var r := LongEncodeUUID(ParseCanonical(s).value);
    forall k | 0 <= k < 36 ensures r[k] == s[k] {
      LongCharOfParsed(s, k);
    }
  }

  lemma ParsedByte(s: string, i: int)
    requires |s| == 36 && Canonical(s) && 0 <= i < 16
    ensures ParseCanonical(s).value[i] == HexValue(s[Offset(i)]) * 16 + HexValue(s[Offset(i) + 1])
  {
  }

  lemma LongCharOfParsed(s: string, k: int)
    requires |s| == 36 && LowerCanonical(s) && 0 <= k < 36
    ensures LongChar(ParseCanonical(s).value, k) == s[k]
  {
    if k != 8 && k != 13 && k != 18 && k != 23 {
      PositionOfOffset(k);
      var i := (k - DashesBefore(k)) / 2;
      ParsedByte(s, i);
      var hi, lo := HexValue(s[Offset(i)]), HexValue(s[Offset(i) + 1]);
      ByteOfDigits(hi, lo);
      assert ParseCanonical(s).value[i] / 16 == hi && ParseCanonical(s).value[i] % 16 == lo;
      HexDigitOfValue(s[Offset(i)]);
      HexDigitOfValue(s[Offset(i) + 1]);
    }
  }

  /** A byte made of a high and a low hex digit gives them back. */
  lemma ByteOfDigits(hi: int, lo: int)
    requires 0 <= hi < 16 && 0 <= lo < 16
    ensures (hi * 16 + lo) / 16 == hi && (hi * 16 + lo) % 16 == lo
  {
  }

  /** Distinct UUIDs have distinct long forms. */
  lemma LongEncodeInjective(u: Uuid, v: Uuid)
    requires LongEncodeUUID(u) == LongEncodeUUID(v)
    ensures u == v
  {
    ParseCanonicalOfLong(u);
    ParseCanonicalOfLong(v);
  }

  // ---------------------------------------------------------------------------------------------
  // Short form

  /** `ShortEncodeUUID`: the base64 form of the bytes over the custom alphabet, escaped. */
  function ShortEncodeUUID(u: Uuid): (r: string)
    ensures 22 <= |r| <= 44
  {
    var e := EncodeToString(Alphabet, u);
    EscapeLength(e);
    Escape(e)
  }

  /** The short form holds no `+`, `-` or `#`, the characters a tag value of todo.txt must not be split at. */
  lemma ShortFormSymbols(u: Uuid)
    ensures var r := ShortEncodeUUID(u); Free(r, '+') && Free(r, '-') && Free(r, '#')
  {
    EscapeRemovesSymbols(EncodeToString(Alphabet, u));
  }

  /**
   * `EncodeUUID`: the short form. The corrected decoder always reads it back; the decoder as written
   * reads it back exactly when it is not 36 characters long.
   */
  function EncodeUUID(u: Uuid): (r: string)
    ensures DecodeUUID(r) == Ok(u)
    ensures |r| != 36 ==> DecodeUUIDAsWritten(r) == Ok(u)
    ensures |r| == 36 ==> DecodeUUIDAsWritten(r).Err?
    ensures 22 <= |r| <= 44
  {
    DecodeOfShort(u);
    AsWrittenShortForm(u);
    ShortEncodeUUID(u)
  }

  /** The unescaped short form has no `s`: every symbol of the custom alphabet is not one. */
  lemma EncodedHasNoS(b: seq<byte>)
    ensures Free(EncodeToString(Alphabet, b), 's')
  {
    AlphabetValid();
  }

  /** In the short form every `s` is followed by `p`, `q` or `r`. */
  lemma ShortFormEscapes(u: Uuid)
    ensures EscapesTagged(ShortEncodeUUID(u))
  {
    EncodedHasNoS(u);
    EscapeTagsEveryS(EncodeToString(Alphabet, u));
  }

  /** The short form is 22 characters plus one for each `+`, `-` or `#` symbol the base64 form had. */
  lemma ShortLength(u: Uuid)
    ensures |ShortEncodeUUID(u)| == 22 + EscapeCount(EncodeToString(Alphabet, u))
  {
    EscapeLength(EncodeToString(Alphabet, u));
  }

  // ---------------------------------------------------------------------------------------------
  // Decoding

  /** Why `DecodeUUID` failed: the wrapped error of each of its four error returns. */
  datatype DecodeError = EmptyString | BadCanonical | BadBase64 | BadByteCount

  /** The short path of `DecodeUUID`: unescape, base64-decode, require exactly 16 bytes (`uuid.FromBytes`). */
  function ShortDecodeUUID(s: string): (r: Result<Uuid, DecodeError>)
    ensures r.Err? ==> r.error == BadBase64 || r.error == BadByteCount
  {
    AlphabetValid();
    match DecodeString(Alphabet, Unescape(s))
    case None => Err(BadBase64)
    case Some(b) =>
      if |b| == 16 then
        var u: Uuid := b;
        Ok(u)
      else
        Err(BadByteCount)
  }

  /** Reading the short form gives the UUID back. */
  lemma ShortDecodeOfShort(u: Uuid)
    ensures ShortDecodeUUID(ShortEncodeUUID(u)) == Ok(u)
  {
    AlphabetValid();
    var e := EncodeToString(Alphabet, u);
    EncodedHasNoS(u);
    UnescapeOfEscape(e);
    DecodeOfEncode(Alphabet, u);
  }

  /** Only 22 symbols decode to 16 bytes. */
  lemma DecodedLenSixteen(n: nat)
    requires DecodedLen(n) == 16
    ensures n == 22
  {
    var q, r := n / 4, n % 4;
    assert n == 4 * q + r;
    assert r * 6 / 8 == if r == 2 then 1 else if r == 3 then 2 else 0;
  }

  /** The short path reads a UUID only from a text that is 22 symbols once unescaped and stripped of line breaks. */
  lemma ShortDecodeLength(s: string)
    ensures ShortDecodeUUID(s).Ok? ==> |StripLineBreaks(Unescape(s))| == 22
  {
    AlphabetValid();
    if ShortDecodeUUID(s).Ok? {
      var t := StripLineBreaks(Unescape(s));
      var x := SymbolValues(Alphabet, t).value;
      assert |DecodeSextets(x).value| == 16;
      DecodedLenSixteen(|x|);
    }
  }

  /**
   * `DecodeUUID` as written: the empty text is an error, a text of exactly 36 characters is read only
   * as the long form, any other text only as the short form.
   */
  function DecodeUUIDAsWritten(s: string): (r: Result<Uuid, DecodeError>)
    ensures |s| == 0 <==> r == Err(EmptyString)
    ensures |s| == 36 ==> (r.Ok? <==> ParseCanonical(s).Some?)
  {
    if |s| == 0 then Err(EmptyString)
    else if |s| == 36 then
      match ParseCanonical(s)
      case None => Err(BadCanonical)
      case Some(u) => Ok(u)
    else
      ShortDecodeUUID(s)
  }

  /** The code as written reads back every short form that is not 36 characters long. */
  lemma AsWrittenDecodeOfShort(u: Uuid)
    requires |ShortEncodeUUID(u)| != 36
    ensures DecodeUUIDAsWritten(ShortEncodeUUID(u)) == Ok(u)
  {
    ShortDecodeOfShort(u);
  }

  /** The decoder as written reads a short form back exactly when it is not 36 characters long. */
  lemma AsWrittenShortForm(u: Uuid)
    ensures |ShortEncodeUUID(u)| != 36 ==> DecodeUUIDAsWritten(ShortEncodeUUID(u)) == Ok(u)
    ensures |ShortEncodeUUID(u)| == 36 ==> DecodeUUIDAsWritten(ShortEncodeUUID(u)) == Err(BadCanonical)
  {
    if |ShortEncodeUUID(u)| != 36 {
      AsWrittenDecodeOfShort(u);
    } else {
      AsWrittenRejectsLongShortForms(u);
    }
  }

  /** A short form that escapes 14 symbols is 36 characters long, and the code as written rejects it. */
  lemma AsWrittenRejectsLongShortForms(u: Uuid)
    requires |ShortEncodeUUID(u)| == 36
    ensures DecodeUUIDAsWritten(ShortEncodeUUID(u)) == Err(BadCanonical)
  {
    var s := ShortEncodeUUID(u);
    ShortFormSymbols(u);
    assert s[8] != '-';
  }

  /** The version-7 UUID `ffffffff-ffff-73ff-bfff-ffc000000000`, written group of three bytes by group. */
  const SaturatedV7: Uuid := [255, 255, 255] + ([255, 255, 255] + ([0x73, 255, 0xbf] + ([255, 255, 0xc0] + ([0, 0, 0] + [0]))))

  /** The 6-bit values of `SaturatedV7`, group of four by group. */
  lemma SaturatedV7Sextets()
    ensures EncodeSextets(SaturatedV7)
         == [63, 63, 63, 63] + ([63, 63, 63, 63] + ([28, 63, 62, 63] + ([63, 63, 63, 0] + ([0, 0, 0, 0] + [0, 0]))))
  {
    var g0: seq<byte> := [255, 255, 255];
    var g2: seq<byte> := [0x73, 255, 0xbf];
    var g3: seq<byte> := [255, 255, 0xc0];
    var g4: seq<byte> := [0, 0, 0];
    var g5: seq<byte> := [0];
    assert EncodeGroup(g0) == [63, 63, 63, 63];
    assert EncodeGroup(g2) == [28, 63, 62, 63];
    assert EncodeGroup(g3) == [63, 63, 63, 0];
    assert EncodeGroup(g4) == [0, 0, 0, 0];
    assert EncodeSextets(g5) == [0, 0];
    EncodeSextetsAppend(g4, g5);
    EncodeSextetsAppend(g3, g4 + g5);
    EncodeSextetsAppend(g2, g3 + (g4 + g5));
    EncodeSextetsAppend(g0, g2 + (g3 + (g4 + g5)));
    EncodeSextetsAppend(g0, g0 + (g2 + (g3 + (g4 + g5))));
  }

  /** The base64 form of `SaturatedV7`, before escaping. */
  lemma SaturatedV7Base64()
    ensures EncodeToString(Alphabet, SaturatedV7) == "####" + ("####" + ("L#-#" + ("###t" + ("tttt" + "tt"))))
  {
    SaturatedV7Sextets();
    AlphabetSymbols();
    var x0: seq<sextet>, x2: seq<sextet>, x3: seq<sextet>, x4: seq<sextet>, x5: seq<sextet> :=
      [63, 63, 63, 63], [28, 63, 62, 63], [63, 63, 63, 0], [0, 0, 0, 0], [0, 0];
    RenderAppend(Alphabet, x4, x5);
    RenderAppend(Alphabet, x3, x4 + x5);
    RenderAppend(Alphabet, x2, x3 + (x4 + x5));
    RenderAppend(Alphabet, x0, x2 + (x3 + (x4 + x5)));
    RenderAppend(Alphabet, x0, x0 + (x2 + (x3 + (x4 + x5))));
    RenderFour(x0, "####");
    RenderFour(x2, "L#-#");
    RenderFour(x3, "###t");
    RenderFour(x4, "tttt");
    assert Render(Alphabet, x5) == "tt" by {
      assert Render(Alphabet, x5)[0] == Sym(0) && Render(Alphabet, x5)[1] == Sym(0);
    }
  }

  lemma RenderFour(x: seq<sextet>, t: string)
    requires |x| == 4 && |t| == 4
    requires forall i :: 0 <= i < 4 ==> Sym(x[i]) == t[i]
    ensures Render(Alphabet, x) == t
  {
    AlphabetSymbols();
  }

  /** The short form of `SaturatedV7`: fourteen of its symbols are escaped. */
  lemma SaturatedV7Short()
    ensures ShortEncodeUUID(SaturatedV7) == "srsrsrsr" + ("srsrsrsr" + ("Lsrsqsr" + ("srsrsrt" + ("tttt" + "tt"))))
  {
    SaturatedV7Base64();
    EscapeGroups();
    EscapeAppend("tttt", "tt");
    EscapeAppend("###t", "tttt" + "tt");
    EscapeAppend("L#-#", "###t" + ("tttt" + "tt"));
    EscapeAppend("####", "L#-#" + ("###t" + ("tttt" + "tt")));
    EscapeAppend("####", "####" + ("L#-#" + ("###t" + ("tttt" + "tt"))));
  }

  lemma EscapeGroups()
    ensures Escape("####") == "srsrsrsr" && Escape("L#-#") == "Lsrsqsr" && Escape("###t") == "srsrsrt"
    ensures Escape("tttt") == "tttt" && Escape("tt") == "tt"
  {
    EscapeHashes();
    EscapeMixed();
    EscapePlain();
  }

  lemma EscapeHashes()
    ensures Escape("####") == "srsrsrsr" && Escape("###t") == "srsrsrt"
  {
  }

  lemma EscapeMixed()
    ensures Escape("L#-#") == "Lsrsqsr"
  {
  }

  lemma EscapePlain()
    ensures Escape("tttt") == "tttt" && Escape("tt") == "tt"
  {
  }

  /** Its short form is 36 characters long, `srsrsrsrsrsrsrsrLsrsqsrsrsrsrttttttt`, and the code as written cannot read it back. */
  lemma AsWrittenLosesSaturatedV7()
    ensures |ShortEncodeUUID(SaturatedV7)| == 36
    ensures DecodeUUIDAsWritten(ShortEncodeUUID(SaturatedV7)).Err?
    ensures DecodeUUID(ShortEncodeUUID(SaturatedV7)) == Ok(SaturatedV7)
  {
    SaturatedV7Short();
    AsWrittenRejectsLongShortForms(SaturatedV7);
    DecodeOfShort(SaturatedV7);
  }

  /**
   * `DecodeUUID` as evidently intended: a 36-character text is read as the long form when it is one,
   * and otherwise, like every other non-empty text, as the short form.
   */
  function DecodeUUID(s: string): (r: Result<Uuid, DecodeError>)
    ensures |s| == 0 <==> r == Err(EmptyString)
  {
    if |s| == 0 then Err(EmptyString)
    else if |s| == 36 && ParseCanonical(s).Some? then Ok(ParseCanonical(s).value)
    else ShortDecodeUUID(s)
  }

  /** The intended decoder reads every long form back. */
  lemma DecodeOfLong(u: Uuid)
    ensures DecodeUUID(LongEncodeUUID(u)) == Ok(u)
    ensures DecodeUUIDAsWritten(LongEncodeUUID(u)) == Ok(u)
  {
    ParseCanonicalOfLong(u);
  }

  /** The intended decoder reads every short form back, including the 36-character ones. */
  lemma DecodeOfShort(u: Uuid)
    ensures DecodeUUID(ShortEncodeUUID(u)) == Ok(u)
  {
    var s := ShortEncodeUUID(u);
    if |s| == 36 {
      ShortFormSymbols(u);
      assert s[8] != '-';
    }
    ShortDecodeOfShort(u);
  }

  /** The correction changes nothing the code as written already decodes. */
  lemma DecodeAgreesWithAsWritten(s: string)
    requires DecodeUUIDAsWritten(s).Ok?
    ensures DecodeUUID(s) == DecodeUUIDAsWritten(s)
  {
  }

  /** Distinct UUIDs have distinct short forms. */
  lemma ShortEncodeInjective(u: Uuid, v: Uuid)
    requires ShortEncodeUUID(u) == ShortEncodeUUID(v)
    ensures u == v
  {
    ShortDecodeOfShort(u);
    ShortDecodeOfShort(v);
  }

  // ---------------------------------------------------------------------------------------------
  // The static vectors of `utils/uuid_test.go`

  /** The UUID `0192da75-c158-7d7f-be3c-d5b647bf7fa8`, written group of three bytes by group. */
  const StaticUuid: Uuid :=
    [0x01, 0x92, 0xda] + ([0x75, 0xc1, 0x58] + ([0x7d, 0x7f, 0xbe] + ([0x3c, 0xd5, 0xb6] + ([0x47, 0xbf, 0x7f] + [0xa8]))))
  const StaticLongText: string := "0192da75-c158-7d7f-be3c-d5b647bf7fa8"
  /** `tI4JMLyHOGsqsq86FlAqspsrZt`, written group of four symbols by group. */
  const StaticShortText: string := "tI4J" + ("MLyH" + ("OGsqsq" + ("86Fl" + ("Aqspsr" + "Zt"))))

  lemma StaticGroupsFront()
    ensures EncodeGroup([0x01, 0x92, 0xda]) == [0, 25, 11, 26]
    ensures EncodeGroup([0x75, 0xc1, 0x58]) == [29, 28, 5, 24]
    ensures EncodeGroup([0x7d, 0x7f, 0xbe]) == [31, 23, 62, 62]
  {
  }

  lemma StaticGroupsBack()
    ensures EncodeGroup([0x3c, 0xd5, 0xb6]) == [15, 13, 22, 54]
    ensures EncodeGroup([0x47, 0xbf, 0x7f]) == [17, 59, 61, 63]
    ensures EncodeSextets([0xa8]) == [42, 0]
  {
  }

  lemma StaticSextets()
    ensures EncodeSextets(StaticUuid)
         == [0, 25, 11, 26] + ([29, 28, 5, 24] + ([31, 23, 62, 62] + ([15, 13, 22, 54] + ([17, 59, 61, 63] + [42, 0]))))
  {
    var g0: seq<byte>, g1: seq<byte>, g2: seq<byte>, g3: seq<byte>, g4: seq<byte>, g5: seq<byte> :=
      [0x01, 0x92, 0xda], [0x75, 0xc1, 0x58], [0x7d, 0x7f, 0xbe], [0x3c, 0xd5, 0xb6], [0x47, 0xbf, 0x7f], [0xa8];
    StaticGroupsFront();
    StaticGroupsBack();
    EncodeSextetsAppend(g4, g5);
    EncodeSextetsAppend(g3, g4 + g5);
    EncodeSextetsAppend(g2, g3 + (g4 + g5));
    EncodeSextetsAppend(g1, g2 + (g3 + (g4 + g5)));
    EncodeSextetsAppend(g0, g1 + (g2 + (g3 + (g4 + g5))));
  }

  lemma StaticBase64()
    ensures EncodeToString(Alphabet, StaticUuid) == "tI4J" + ("MLyH" + ("OG--" + ("86Fl" + ("Aq+#" + "Zt"))))
  {
    StaticSextets();
    AlphabetSymbols();
    var x0: seq<sextet>, x1: seq<sextet>, x2: seq<sextet>, x3: seq<sextet>, x4: seq<sextet>, x5: seq<sextet> :=
      [0, 25, 11, 26], [29, 28, 5, 24], [31, 23, 62, 62], [15, 13, 22, 54], [17, 59, 61, 63], [42, 0];
    RenderAppend(Alphabet, x4, x5);
    RenderAppend(Alphabet, x3, x4 + x5);
    RenderAppend(Alphabet, x2, x3 + (x4 + x5));
    RenderAppend(Alphabet, x1, x2 + (x3 + (x4 + x5)));
    RenderAppend(Alphabet, x0, x1 + (x2 + (x3 + (x4 + x5))));
    StaticRenders();
  }

  lemma StaticRenders()
    ensures Render(Alphabet, [0, 25, 11, 26]) == "tI4J" && Render(Alphabet, [29, 28, 5, 24]) == "MLyH"
    ensures Render(Alphabet, [31, 23, 62, 62]) == "OG--" && Render(Alphabet, [15, 13, 22, 54]) == "86Fl"
    ensures Render(Alphabet, [17, 59, 61, 63]) == "Aq+#" && Render(Alphabet, [42, 0]) == "Zt"
  {
    StaticRendersFront();
    StaticRendersBack();
  }

  lemma StaticRendersFront()
    ensures Render(Alphabet, [0, 25, 11, 26]) == "tI4J" && Render(Alphabet, [29, 28, 5, 24]) == "MLyH"
    ensures Render(Alphabet, [31, 23, 62, 62]) == "OG--"
  {
    RenderFour([0, 25, 11, 26], "tI4J");
    RenderFour([29, 28, 5, 24], "MLyH");
    RenderFour([31, 23, 62, 62], "OG--");
  }

  lemma StaticRendersBack()
    ensures Render(Alphabet, [15, 13, 22, 54]) == "86Fl"
    ensures Render(Alphabet, [17, 59, 61, 63]) == "Aq+#" && Render(Alphabet, [42, 0]) == "Zt"
  {
    AlphabetSymbols();
    RenderFour([15, 13, 22, 54], "86Fl");
    RenderFour([17, 59, 61, 63], "Aq+#");
    var x5: seq<sextet> := [42, 0];
    assert Render(Alphabet, x5) == "Zt" by {
      assert Render(Alphabet, x5)[0] == Sym(42) && Render(Alphabet, x5)[1] == Sym(0);
    }
  }

  lemma StaticEscapes()
    ensures Escape("tI4J") == "tI4J" && Escape("MLyH") == "MLyH" && Escape("OG--") == "OGsqsq"
    ensures Escape("86Fl") == "86Fl" && Escape("Aq+#") == "Aqspsr" && Escape("Zt") == "Zt"
  {
    StaticEscapesPlain();
    StaticEscapesEscaped();
  }

  lemma StaticEscapesPlain()
    ensures Escape("tI4J") == "tI4J" && Escape("MLyH") == "MLyH" && Escape("86Fl") == "86Fl" && Escape("Zt") == "Zt"
  {
    StaticEscapesPlainFront();
    StaticEscapesPlainBack();
  }

  lemma StaticEscapesPlainFront()
    ensures Escape("tI4J") == "tI4J" && Escape("MLyH") == "MLyH"
  {
  }

  lemma StaticEscapesPlainBack()
    ensures Escape("86Fl") == "86Fl" && Escape("Zt") == "Zt"
  {
  }

  lemma StaticEscapesEscaped()
    ensures Escape("OG--") == "OGsqsq" && Escape("Aq+#") == "Aqspsr"
  {
  }

  /** The short form of the static vector: its two `-` and its `+` and `#` are escaped. */
  lemma StaticShort()
    ensures ShortEncodeUUID(StaticUuid) == StaticShortText
  {
    StaticBase64();
    StaticEscapes();
    EscapeAppend("Aq+#", "Zt");
    EscapeAppend("86Fl", "Aq+#" + "Zt");
    EscapeAppend("OG--", "86Fl" + ("Aq+#" + "Zt"));
    EscapeAppend("MLyH", "OG--" + ("86Fl" + ("Aq+#" + "Zt")));
    EscapeAppend("tI4J", "MLyH" + ("OG--" + ("86Fl" + ("Aq+#" + "Zt"))));
  }

  lemma StaticDigits1()
    ensures forall k :: 0 <= k < 8 ==> LongChar(StaticUuid, k) == StaticLongText[k]
  {
  }

  lemma StaticDigits2()
    ensures forall k :: 8 <= k < 15 ==> LongChar(StaticUuid, k) == StaticLongText[k]
  {
  }

  lemma StaticDigits3()
    ensures forall k :: 15 <= k < 22 ==> LongChar(StaticUuid, k) == StaticLongText[k]
  {
  }

  lemma StaticDigits4()
    ensures forall k :: 22 <= k < 29 ==> LongChar(StaticUuid, k) == StaticLongText[k]
  {
  }

  lemma StaticDigits5()
    ensures forall k :: 29 <= k < 36 ==> LongChar(StaticUuid, k) == StaticLongText[k]
  {
  }

  lemma StaticLong()
    ensures LongEncodeUUID(StaticUuid) == StaticLongText
  {
    StaticDigits1();
    StaticDigits2();
    StaticDigits3();
    StaticDigits4();
    StaticDigits5();
    var r := LongEncodeUUID(StaticUuid);
    assert forall k :: 0 <= k < 36 ==> r[k] == LongChar(StaticUuid, k);
  }

  /**
   * The static transformations: the short and the long form of the vector are the expected texts,
   * `EncodeUUID` is the short one, and both decoders read either text back to the UUID.
   */
  lemma StaticTransformations()
    ensures ShortEncodeUUID(StaticUuid) == StaticShortText && EncodeUUID(StaticUuid) == StaticShortText
    ensures LongEncodeUUID(StaticUuid) == StaticLongText
    ensures DecodeUUIDAsWritten(StaticShortText) == Ok(StaticUuid) && DecodeUUID(StaticShortText) == Ok(StaticUuid)
    ensures DecodeUUIDAsWritten(StaticLongText) == Ok(StaticUuid) && DecodeUUID(StaticLongText) == Ok(StaticUuid)
  {
    StaticShort();
    StaticLong();
    ShortDecodeOfShort(StaticUuid);
    DecodeOfShort(StaticUuid);
    DecodeOfLong(StaticUuid);
  }

  // ---------------------------------------------------------------------------------------------
  // The edge-case vectors of `utils/uuid_test.go`

  /** The UUID `0192da73-39ce-76ac-826b-bb3fd7e9fd84`, whose short form escapes four symbols. */
  const ManySpecialUuid: Uuid :=
    [0x01, 0x92, 0xda] + ([0x73, 0x39, 0xce] + ([0x76, 0xac, 0x82] + ([0x6b, 0xbb, 0x3f] + ([0xd7, 0xe9, 0xfd] + [0x84]))))
  const ManySpecialLongText: string := "0192da73-39ce-76ac-826b-bb3fd7e9fd84"
  /** `tI4JLiW7MZhvJqbsrksqWspQt`, written group of four symbols by group. */
  const ManySpecialShortText: string := "tI4J" + ("LiW7" + ("MZhv" + ("Jqbsr" + ("ksqWsp" + "Qt"))))

  lemma ManySpecialGroupsFront()
    ensures EncodeGroup([0x01, 0x92, 0xda]) == [0, 25, 11, 26]
    ensures EncodeGroup([0x73, 0x39, 0xce]) == [28, 51, 39, 14]
    ensures EncodeGroup([0x76, 0xac, 0x82]) == [29, 42, 50, 2]
  {
  }

  lemma ManySpecialGroupsBack()
    ensures EncodeGroup([0x6b, 0xbb, 0x3f]) == [26, 59, 44, 63]
    ensures EncodeGroup([0xd7, 0xe9, 0xfd]) == [53, 62, 39, 61]
    ensures EncodeSextets([0x84]) == [33, 0]
  {
  }

  lemma ManySpecialSextets()
    ensures EncodeSextets(ManySpecialUuid)
         == [0, 25, 11, 26] + ([28, 51, 39, 14] + ([29, 42, 50, 2] + ([26, 59, 44, 63] + ([53, 62, 39, 61] + [33, 0]))))
  {
    var g0: seq<byte>, g1: seq<byte>, g2: seq<byte>, g3: seq<byte>, g4: seq<byte>, g5: seq<byte> :=
      [0x01, 0x92, 0xda], [0x73, 0x39, 0xce], [0x76, 0xac, 0x82], [0x6b, 0xbb, 0x3f], [0xd7, 0xe9, 0xfd], [0x84];
    ManySpecialGroupsFront();
    ManySpecialGroupsBack();
    EncodeSextetsAppend(g4, g5);
    EncodeSextetsAppend(g3, g4 + g5);
    EncodeSextetsAppend(g2, g3 + (g4 + g5));
    EncodeSextetsAppend(g1, g2 + (g3 + (g4 + g5)));
    EncodeSextetsAppend(g0, g1 + (g2 + (g3 + (g4 + g5))));
  }

  lemma ManySpecialRendersFront()
    ensures Render(Alphabet, [0, 25, 11, 26]) == "tI4J" && Render(Alphabet, [28, 51, 39, 14]) == "LiW7"
    ensures Render(Alphabet, [29, 42, 50, 2]) == "MZhv"
  {
    RenderFour([0, 25, 11, 26], "tI4J");
    RenderFour([28, 51, 39, 14], "LiW7");
    RenderFour([29, 42, 50, 2], "MZhv");
  }

  lemma ManySpecialRendersBack()
    ensures Render(Alphabet, [26, 59, 44, 63]) == "Jqb#"
    ensures Render(Alphabet, [53, 62, 39, 61]) == "k-W+" && Render(Alphabet, [33, 0]) == "Qt"
  {
    AlphabetSymbols();
    RenderFour([26, 59, 44, 63], "Jqb#");
    RenderFour([53, 62, 39, 61], "k-W+");
    var x5: seq<sextet> := [33, 0];
    assert Render(Alphabet, x5) == "Qt" by {
      assert Render(Alphabet, x5)[0] == Sym(33) && Render(Alphabet, x5)[1] == Sym(0);
    }
  }

  /** The base64 form of `ManySpecialUuid`, before escaping. */
  lemma ManySpecialBase64()
    ensures EncodeToString(Alphabet, ManySpecialUuid) == "tI4J" + ("LiW7" + ("MZhv" + ("Jqb#" + ("k-W+" + "Qt"))))
  {
    ManySpecialSextets();
    var x0: seq<sextet>, x1: seq<sextet>, x2: seq<sextet>, x3: seq<sextet>, x4: seq<sextet>, x5: seq<sextet> :=
      [0, 25, 11, 26], [28, 51, 39, 14], [29, 42, 50, 2], [26, 59, 44, 63], [53, 62, 39, 61], [33, 0];
    RenderAppend(Alphabet, x4, x5);
    RenderAppend(Alphabet, x3, x4 + x5);
    RenderAppend(Alphabet, x2, x3 + (x4 + x5));
    RenderAppend(Alphabet, x1, x2 + (x3 + (x4 + x5)));
    RenderAppend(Alphabet, x0, x1 + (x2 + (x3 + (x4 + x5))));
    ManySpecialRendersFront();
    ManySpecialRendersBack();
  }

  lemma ManySpecialEscapesPlain()
    ensures Escape("LiW7") == "LiW7" && Escape("MZhv") == "MZhv" && Escape("Qt") == "Qt"
  {
  }

  lemma ManySpecialEscapesEscaped()
    ensures Escape("Jqb#") == "Jqbsr" && Escape("k-W+") == "ksqWsp"
  {
  }

  /** The short form of `ManySpecialUuid`: its `#`, `-` and `+` are escaped. */
  lemma ManySpecialShort()
    ensures ShortEncodeUUID(ManySpecialUuid) == ManySpecialShortText
  {
    ManySpecialBase64();
    StaticEscapesPlainFront();
    ManySpecialEscapesPlain();
    ManySpecialEscapesEscaped();
    EscapeAppend("k-W+", "Qt");
    EscapeAppend("Jqb#", "k-W+" + "Qt");
    EscapeAppend("MZhv", "Jqb#" + ("k-W+" + "Qt"));
    EscapeAppend("LiW7", "MZhv" + ("Jqb#" + ("k-W+" + "Qt")));
    EscapeAppend("tI4J", "LiW7" + ("MZhv" + ("Jqb#" + ("k-W+" + "Qt"))));
  }

  lemma ManySpecialDigits1()
    ensures forall k :: 0 <= k < 8 ==> LongChar(ManySpecialUuid, k) == ManySpecialLongText[k]
  {
  }

  lemma ManySpecialDigits2()
    ensures forall k :: 8 <= k < 15 ==> LongChar(ManySpecialUuid, k) == ManySpecialLongText[k]
  {
  }

  lemma ManySpecialDigits3()
    ensures forall k :: 15 <= k < 22 ==> LongChar(ManySpecialUuid, k) == ManySpecialLongText[k]
  {
  }

  lemma ManySpecialDigits4()
    ensures forall k :: 22 <= k < 29 ==> LongChar(ManySpecialUuid, k) == ManySpecialLongText[k]
  {
  }

  lemma ManySpecialDigits5()
    ensures forall k :: 29 <= k < 36 ==> LongChar(ManySpecialUuid, k) == ManySpecialLongText[k]
  {
  }

  lemma ManySpecialLong()
    ensures LongEncodeUUID(ManySpecialUuid) == ManySpecialLongText
  {
    ManySpecialDigits1();
    ManySpecialDigits2();
    ManySpecialDigits3();
    ManySpecialDigits4();
    ManySpecialDigits5();
    var r := LongEncodeUUID(ManySpecialUuid);
    assert forall k :: 0 <= k < 36 ==> r[k] == LongChar(ManySpecialUuid, k);
  }

  /**
   * The "many special chars" case: the long text reads as the UUID, whose short form is the
   * expected 25-character text, and both decoders read that text back.
   */
  lemma ManySpecialTransformations()
    ensures ParseCanonical(ManySpecialLongText) == Some(ManySpecialUuid)
    ensures ShortEncodeUUID(ManySpecialUuid) == ManySpecialShortText && |ManySpecialShortText| == 25
    ensures DecodeUUIDAsWritten(ManySpecialShortText) == Ok(ManySpecialUuid)
    ensures DecodeUUID(ManySpecialShortText) == Ok(ManySpecialUuid)
  {
    ManySpecialLong();
    ParseCanonicalOfLong(ManySpecialUuid);
    ManySpecialShort();
    AsWrittenDecodeOfShort(ManySpecialUuid);
    DecodeOfShort(ManySpecialUuid);
  }

  /** The UUID `ffffffff-ffff-7fff-bfff-ffffffffffff`, whose short form escapes twenty symbols. */
  const SequentialSpecialUuid: Uuid :=
    [255, 255, 255] + ([255, 255, 255] + ([0x7f, 255, 0xbf] + ([255, 255, 255] + ([255, 255, 255] + [255]))))
  const SequentialSpecialLongText: string := "ffffffff-ffff-7fff-bfff-ffffffffffff"
  /** `srsrsrsrsrsrsrsrOsrsqsrsrsrsrsrsrsrsrsrsrf`, written group of four symbols by group. */
  const SequentialSpecialShortText: string :=
    "srsrsrsr" + ("srsrsrsr" + ("Osrsqsr" + ("srsrsrsr" + ("srsrsrsr" + "srf"))))

  lemma SequentialSpecialSextets()
    ensures EncodeSextets(SequentialSpecialUuid)
         == [63, 63, 63, 63] + ([63, 63, 63, 63] + ([31, 63, 62, 63] + ([63, 63, 63, 63] + ([63, 63, 63, 63] + [63, 48]))))
  {
    var g0: seq<byte> := [255, 255, 255];
    var g2: seq<byte> := [0x7f, 255, 0xbf];
    var g5: seq<byte> := [255];
    assert EncodeGroup(g0) == [63, 63, 63, 63];
    assert EncodeGroup(g2) == [31, 63, 62, 63];
    assert EncodeSextets(g5) == [63, 48];
    EncodeSextetsAppend(g0, g5);
    EncodeSextetsAppend(g0, g0 + g5);
    EncodeSextetsAppend(g2, g0 + (g0 + g5));
    EncodeSextetsAppend(g0, g2 + (g0 + (g0 + g5)));
    EncodeSextetsAppend(g0, g0 + (g2 + (g0 + (g0 + g5))));
  }

  /** The base64 form of `SequentialSpecialUuid`, before escaping. */
  lemma SequentialSpecialBase64()
    ensures EncodeToString(Alphabet, SequentialSpecialUuid) == "####" + ("####" + ("O#-#" + ("####" + ("####" + "#f"))))
  {
    SequentialSpecialSextets();
    AlphabetSymbols();
    var x0: seq<sextet>, x2: seq<sextet>, x5: seq<sextet> := [63, 63, 63, 63], [31, 63, 62, 63], [63, 48];
    RenderAppend(Alphabet, x0, x5);
    RenderAppend(Alphabet, x0, x0 + x5);
    RenderAppend(Alphabet, x2, x0 + (x0 + x5));
    RenderAppend(Alphabet, x0, x2 + (x0 + (x0 + x5)));
    RenderAppend(Alphabet, x0, x0 + (x2 + (x0 + (x0 + x5))));
    RenderFour(x0, "####");
    RenderFour(x2, "O#-#");
    assert Render(Alphabet, x5) == "#f" by {
      assert Render(Alphabet, x5)[0] == Sym(63) && Render(Alphabet, x5)[1] == Sym(48);
    }
  }

  lemma SequentialSpecialEscapes()
    ensures Escape("O#-#") == "Osrsqsr" && Escape("#f") == "srf"
  {
  }

  /** The short form of `SequentialSpecialUuid`: twenty of its symbols are escaped. */
  lemma SequentialSpecialShort()
    ensures ShortEncodeUUID(SequentialSpecialUuid) == SequentialSpecialShortText
  {
    SequentialSpecialBase64();
    EscapeHashes();
    SequentialSpecialEscapes();
    EscapeAppend("####", "#f");
    EscapeAppend("####", "####" + "#f");
    EscapeAppend("O#-#", "####" + ("####" + "#f"));
    EscapeAppend("####", "O#-#" + ("####" + ("####" + "#f")));
    EscapeAppend("####", "####" + ("O#-#" + ("####" + ("####" + "#f"))));
  }

  lemma SequentialSpecialDigits1()
    ensures forall k :: 0 <= k < 8 ==> LongChar(SequentialSpecialUuid, k) == SequentialSpecialLongText[k]
  {
  }

  lemma SequentialSpecialDigits2()
    ensures forall k :: 8 <= k < 15 ==> LongChar(SequentialSpecialUuid, k) == SequentialSpecialLongText[k]
  {
  }

  lemma SequentialSpecialDigits3()
    ensures forall k :: 15 <= k < 22 ==> LongChar(SequentialSpecialUuid, k) == SequentialSpecialLongText[k]
  {
  }

  lemma SequentialSpecialDigits4()
    ensures forall k :: 22 <= k < 29 ==> LongChar(SequentialSpecialUuid, k) == SequentialSpecialLongText[k]
  {
  }

  lemma SequentialSpecialDigits5()
    ensures forall k :: 29 <= k < 36 ==> LongChar(SequentialSpecialUuid, k) == SequentialSpecialLongText[k]
  {
  }

  lemma SequentialSpecialLong()
    ensures LongEncodeUUID(SequentialSpecialUuid) == SequentialSpecialLongText
  {
    SequentialSpecialDigits1();
    SequentialSpecialDigits2();
    SequentialSpecialDigits3();
    SequentialSpecialDigits4();
    SequentialSpecialDigits5();
    var r := LongEncodeUUID(SequentialSpecialUuid);
    assert forall k :: 0 <= k < 36 ==> r[k] == LongChar(SequentialSpecialUuid, k);
  }

  /**
   * The "sequential special chars" case: the long text reads as the UUID, whose short form is the
   * expected 42-character text, and both decoders read that text back.
   */
  lemma SequentialSpecialTransformations()
    ensures ParseCanonical(SequentialSpecialLongText) == Some(SequentialSpecialUuid)
    ensures ShortEncodeUUID(SequentialSpecialUuid) == SequentialSpecialShortText && |SequentialSpecialShortText| == 42
    ensures DecodeUUIDAsWritten(SequentialSpecialShortText) == Ok(SequentialSpecialUuid)
    ensures DecodeUUID(SequentialSpecialShortText) == Ok(SequentialSpecialUuid)
  {
    SequentialSpecialLong();
    ParseCanonicalOfLong(SequentialSpecialUuid);
    SequentialSpecialShort();
    AsWrittenDecodeOfShort(SequentialSpecialUuid);
    DecodeOfShort(SequentialSpecialUuid);
  }

  /** Both decoders send a non-empty text of other than 36 characters to the short path. */
  lemma ShortPathOnly(s: string)
    requires |s| > 0 && |s| != 36
    ensures DecodeUUIDAsWritten(s) == ShortDecodeUUID(s) && DecodeUUID(s) == ShortDecodeUUID(s)
  {
  }

  /** A text without `s` and without line breaks. */
  predicate Plain(s: string) {
    Free(s, 's') && forall i :: 0 <= i < |s| ==> !IsLineBreak(s[i])
  }

  /** A text of no `s` and no line break decodes on the short path only when it is 22 characters long. */
  lemma PlainShortLength(s: string)
    requires Plain(s)
    ensures ShortDecodeUUID(s).Ok? ==> |s| == 22
  {
    UnescapeWithoutS(s);
    NoLineBreaksUnchanged(s);
    ShortDecodeLength(s);
  }

  /** `!` is not a symbol of the custom alphabet. */
  lemma BangIsNoSymbol()
    ensures SymbolValue(Alphabet, '!').None?
  {
    AlphabetSymbols();
  }

  /** A text starting with `!` fails the base64 step. */
  lemma BangFailsBase64(s: string)
    requires |s| > 0 && s[0] == '!'
    ensures ShortDecodeUUID(s) == Err(BadBase64)
  {
    AlphabetValid();
    BangIsNoSymbol();
    var u := Unescape(s);
    assert u[0] == '!';
    var t := StripLineBreaks(u);
    assert t[0] == '!';
    DecodeStringFails(Alphabet, u);
  }

  /**
   * The error vectors: the empty text, a text with a character outside the alphabet, a text that is not
   * the base64 of 16 bytes, and a long form missing its last two digits are all rejected.
   */
  lemma ErrorVectors()
    ensures DecodeUUIDAsWritten("") == Err(EmptyString) && DecodeUUID("") == Err(EmptyString)
    ensures DecodeUUIDAsWritten("!invalid-base64!") == Err(BadBase64) && DecodeUUID("!invalid-base64!") == Err(BadBase64)
    ensures DecodeUUIDAsWritten("not-a-valid-uuid-format").Err? && DecodeUUID("not-a-valid-uuid-format").Err?
    ensures DecodeUUIDAsWritten("0192d9fd-d725-765d-8305-a5cdcd3ffe").Err?
    ensures DecodeUUID("0192d9fd-d725-765d-8305-a5cdcd3ffe").Err?
  {
    BangVector();
    BadFormatVector();
    TruncatedVector();
  }

  lemma BangVector()
    ensures DecodeUUIDAsWritten("!invalid-base64!") == Err(BadBase64) && DecodeUUID("!invalid-base64!") == Err(BadBase64)
  {
    BangFailsBase64("!invalid-base64!");
  }

  lemma BadFormatPlain()
    ensures |"not-a-valid-uuid-format"| == 23 && Plain("not-a-valid-uuid-format")
  {
  }

  lemma BadFormatVector()
    ensures DecodeUUIDAsWritten("not-a-valid-uuid-format").Err? && DecodeUUID("not-a-valid-uuid-format").Err?
  {
    BadFormatPlain();
    PlainShortLength("not-a-valid-uuid-format");
    ShortPathOnly("not-a-valid-uuid-format");
  }

  lemma TruncatedPlain()
    ensures |"0192d9fd-d725-765d-8305-a5cdcd3ffe"| == 34 && Plain("0192d9fd-d725-765d-8305-a5cdcd3ffe")
  {
  }

  lemma TruncatedVector()
    ensures DecodeUUIDAsWritten("0192d9fd-d725-765d-8305-a5cdcd3ffe").Err?
    ensures DecodeUUID("0192d9fd-d725-765d-8305-a5cdcd3ffe").Err?
  {
    TruncatedPlain();
    PlainShortLength("0192d9fd-d725-765d-8305-a5cdcd3ffe");
    ShortPathOnly("0192d9fd-d725-765d-8305-a5cdcd3ffe");
  }
}
