/**
 * Go's `encoding/base64` as the identifier codec uses it: an encoding built from a caller-given
 * 64-symbol alphabet, without padding (`WithPadding(NoPadding)`), in the default non-strict mode.
 * Encoding follows sections 3.2 and 4 of RFC 4648 (6 bits per symbol, no pad characters); decoding
 * skips `\r` and `\n`, rejects any other character outside the alphabet and a final group of a
 * single symbol, and ignores the unused low bits of the last symbol.
 */
module Base64 {
  import opened Wrappers
  import opened Strings

  type byte = b: int | 0 <= b < 256
  type sextet = v: int | 0 <= v < 64

  /** An alphabet `base64.NewEncoding` accepts: 64 distinct symbols, none of them a line break. */
  predicate ValidAlphabet(alphabet: string) {
    && |alphabet| == 64
    && (forall i, j :: 0 <= i < j < 64 ==> alphabet[i] != alphabet[j])
    && Free(alphabet, '\n')
    && Free(alphabet, '\r')
  }

  /** `EncodedLen` of an unpadded encoding: the number of symbols for `n` bytes. */
  function EncodedLen(n: nat): nat {
    n / 3 * 4 + (n % 3 * 8 + 5) / 6
  }

  /** `DecodedLen` of an unpadded encoding: the number of bytes `n` symbols stand for. */
  function DecodedLen(n: nat): nat {
    n / 4 * 3 + n % 4 * 6 / 8
  }

  /** One group of one to three bytes as two to four 6-bit values, most significant bits first, zero-filled. */
  function EncodeGroup(b: seq<byte>): (r: seq<sextet>)
    requires 1 <= |b| <= 3
    ensures |r| == |b| + 1
  {
    var b1 := if |b| > 1 then b[1] else 0;
    var b2 := if |b| > 2 then b[2] else 0;
    var d: seq<sextet> := [b[0] / 4, b[0] % 4 * 16 + b1 / 16, b1 % 16 * 4 + b2 / 64, b2 % 64];
    d[..|b| + 1]
  }

  /** `decodeQuantum` for one group of two to four symbols: one to three bytes. */
  function DecodeGroup(d: seq<sextet>): (r: seq<byte>)
    requires 2 <= |d| <= 4
    ensures |r| == |d| - 1
  {
    var d0: int, d1: int := d[0], d[1];
    var d2: int := if |d| > 2 then d[2] else 0;
    var d3: int := if |d| > 3 then d[3] else 0;
    var b: seq<byte> := [d0 * 4 + d1 / 16, d1 % 16 * 16 + d2 / 4, d2 % 4 * 64 + d3];
    b[..|d| - 1]
  }

  /** The bytes of a group survive being cut into 6-bit values and reassembled. */
  lemma DecodeEncodeGroup(b: seq<byte>)
    requires 1 <= |b| <= 3
    ensures DecodeGroup(EncodeGroup(b)) == b
  {
  }

  /** The 6-bit groups of the bytes, three bytes at a time. */
  function EncodeSextets(b: seq<byte>): (r: seq<sextet>)
    ensures |r| == EncodedLen(|b|)
    decreases |b|
  {
    if |b| == 0 then []
    else if |b| <= 3 then EncodeGroup(b)
    else EncodeGroup(b[..3]) + EncodeSextets(b[3..])
  }

  /**
   * `decodeQuantum` applied group after group: four symbols give three bytes, a final group of
   * three or two symbols gives two or one byte, a final group of one symbol is an error. Bits left
   * over in the last symbol are dropped without a check (the decoder is not strict).
   */
  function DecodeSextets(s: seq<sextet>): (r: Option<seq<byte>>)
    ensures r.Some? <==> |s| % 4 != 1
    ensures r.Some? ==> |r.value| == DecodedLen(|s|)
    decreases |s|
  {
    if |s| == 0 then Some([])
    else if |s| == 1 then None
    else if |s| <= 4 then Some(DecodeGroup(s))
    else
      match DecodeSextets(s[4..])
      case None => None
      case Some(rest) => Some(DecodeGroup(s[..4]) + rest)
  }

  /** Each 6-bit value written as its alphabet symbol. */
  function Render(alphabet: string, x: seq<sextet>): (r: string)
    requires |alphabet| == 64
    ensures |r| == |x|
    ensures forall i :: 0 <= i < |x| ==> r[i] == alphabet[x[i]]
    decreases |x|
  {
    if |x| == 0 then "" else [alphabet[x[0]]] + Render(alphabet, x[1..])
  }

  lemma {:induction false} RenderAppend(alphabet: string, x: seq<sextet>, y: seq<sextet>)
    requires |alphabet| == 64
    ensures Render(alphabet, x + y) == Render(alphabet, x) + Render(alphabet, y)
    decreases |x|
  {
    if |x| > 0 {
      assert (x + y)[0] == x[0];
      assert (x + y)[1..] == x[1..] + y;
      RenderAppend(alphabet, x[1..], y);
    } else {
      assert x + y == y;
    }
  }

  /** `EncodeToString`: the 6-bit groups of the bytes, as alphabet symbols. */
  function EncodeToString(alphabet: string, b: seq<byte>): (r: string)
    requires |alphabet| == 64
    ensures |r| == EncodedLen(|b|)
  {
    Render(alphabet, EncodeSextets(b))
  }

  /** Encoding three bytes and then the rest is encoding them all: groups are encoded one by one. */
  lemma EncodeSextetsAppend(a: seq<byte>, rest: seq<byte>)
    requires |a| == 3
    ensures EncodeSextets(a + rest) == EncodeGroup(a) + EncodeSextets(rest)
  {
    assert (a + rest)[..3] == a;
    assert (a + rest)[3..] == rest;
  }

  /** The decode map entry for `c`: its position in the alphabet, if it is a symbol. */
  function SymbolValue(alphabet: string, c: char): (r: Option<sextet>)
    requires |alphabet| == 64
    ensures r.Some? ==> alphabet[r.value] == c
    ensures r.None? ==> forall i :: 0 <= i < 64 ==> alphabet[i] != c
  {
    match IndexOf(alphabet, c)
    case None => None
    case Some(i) => Some(i)
  }

  /** The symbol values of a string, or nothing if one of its characters is not a symbol. */
  function SymbolValues(alphabet: string, s: string): (r: Option<seq<sextet>>)
    requires |alphabet| == 64
    ensures r.Some? <==> forall i :: 0 <= i < |s| ==> SymbolValue(alphabet, s[i]).Some?
    ensures r.Some? ==> |r.value| == |s| && forall i :: 0 <= i < |s| ==> r.value[i] == SymbolValue(alphabet, s[i]).value
    decreases |s|
  {
    if |s| == 0 then Some([])
    else
      match SymbolValue(alphabet, s[0])
      case None => None
      case Some(v) =>
        match SymbolValues(alphabet, s[1..])
        case None =>
          assert exists i :: 0 <= i < |s| && SymbolValue(alphabet, s[i]).None? by {
            var i :| 0 <= i < |s| - 1 && SymbolValue(alphabet, s[1..][i]).None?;
            assert s[i + 1] == s[1..][i];
          }
          None
        case Some(vs) =>
          assert forall i :: 1 <= i < |s| ==> s[i] == s[1..][i - 1];
          Some([v] + vs)
  }

  predicate IsLineBreak(c: char) {
    c == '\n' || c == '\r'
  }

  /** The string without its `\r` and `\n` characters, which the decoder skips. */
  function StripLineBreaks(s: string): (r: string)
    ensures |r| <= |s|
    ensures forall i :: 0 <= i < |r| ==> !IsLineBreak(r[i])
    decreases |s|
  {
    if |s| == 0 then ""
    else if IsLineBreak(s[0]) then StripLineBreaks(s[1..])
    else [s[0]] + StripLineBreaks(s[1..])
  }

  /** `DecodeString`: skip line breaks, map the symbols to their values, decode the groups. */
  function DecodeString(alphabet: string, s: string): Option<seq<byte>>
    requires |alphabet| == 64
  {
    var t := StripLineBreaks(s);
    match SymbolValues(alphabet, t)
    case None => None
    case Some(x) => DecodeSextets(x)
  }

  /** Decoding fails exactly on a non-symbol other than a line break, or on a dangling single symbol. */
  lemma DecodeStringFails(alphabet: string, s: string)
    requires |alphabet| == 64
    ensures var t := StripLineBreaks(s);
      DecodeString(alphabet, s).None? <==>
        (exists i :: 0 <= i < |t| && SymbolValue(alphabet, t[i]).None?) || |t| % 4 == 1
  {
  }

  lemma {:induction false} DecodeEncodeSextets(b: seq<byte>)
    ensures DecodeSextets(EncodeSextets(b)) == Some(b)
    decreases |b|
  {
    if 1 <= |b| <= 3 {
      DecodeEncodeGroup(b);
    } else if |b| > 3 {
      var x := EncodeSextets(b);
      var g := EncodeGroup(b[..3]);
      DecodeEncodeGroup(b[..3]);
      DecodeEncodeSextets(b[3..]);
      assert x[..4] == g;
      assert x[4..] == EncodeSextets(b[3..]);
      assert b == b[..3] + b[3..];
    }
  }

  lemma SymbolValueOfSymbol(alphabet: string, v: sextet)
    requires ValidAlphabet(alphabet)
    ensures SymbolValue(alphabet, alphabet[v]) == Some(v)
  {
  }

  /** Encoding with a valid alphabet and then decoding gives the bytes back. */
  lemma DecodeOfEncode(alphabet: string, b: seq<byte>)
    requires ValidAlphabet(alphabet)
    ensures DecodeString(alphabet, EncodeToString(alphabet, b)) == Some(b)
  {
    var e := EncodeToString(alphabet, b);
    var x := EncodeSextets(b);
    assert forall i :: 0 <= i < |e| ==> e[i] == alphabet[x[i]];
    NoLineBreaksUnchanged(e);
    forall i | 0 <= i < |e| ensures SymbolValue(alphabet, e[i]) == Some(x[i]) {
      SymbolValueOfSymbol(alphabet, x[i]);
    }
    assert SymbolValues(alphabet, e).value == x;
    DecodeEncodeSextets(b);
  }

  lemma {:induction false} NoLineBreaksUnchanged(s: string)
    requires forall i :: 0 <= i < |s| ==> !IsLineBreak(s[i])
    ensures StripLineBreaks(s) == s
    decreases |s|
  {
    if |s| > 0 {
      NoLineBreaksUnchanged(s[1..]);
    }
  }
}
