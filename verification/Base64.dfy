// Base64 as RFC 4648 (sections 4 and 5) defines it and Go decodes it, the tolerant decoder of
// vpn:// links, and the shape check on WireGuard keys.
module Base64 {
  import opened Common
  import opened Text

  /** Value of a character of the standard alphabet. */
  function Digit(c: char): (d: Option<int>)
    ensures d.Some? ==> 0 <= d.value < 64
  {
    if 'A' <= c <= 'Z' then Some(c as int - 'A' as int)
    else if 'a' <= c <= 'z' then Some(c as int - 'a' as int + 26)
    else if '0' <= c <= '9' then Some(c as int - '0' as int + 52)
    else if c == '+' then Some(62)
    else if c == '/' then Some(63)
    else None
  }

  /** Character number d of the standard or of the URL-safe alphabet. */
  function Symbol(d: int, url: bool): char
    requires 0 <= d < 64
  {
    if d < 26 then ('A' as int + d) as char
    else if d < 52 then ('a' as int + d - 26) as char
    else if d < 62 then ('0' as int + d - 52) as char
    else if d == 62 then (if url then '-' else '+')
    else if url then '_' else '/'
  }

  /** The four characters that carry three bytes. */
  function Symbols(x: Byte, y: Byte, z: Byte, url: bool): (q: string)
    ensures |q| == 4
  {
    [Symbol(x / 4, url), Symbol(x % 4 * 16 + y / 16, url), Symbol(y % 16 * 4 + z / 64, url), Symbol(z % 64, url)]
  }

  function Encode(b: seq<Byte>, url: bool, pad: bool): string {
    if b == [] then ""
    else if |b| == 1 then Symbols(b[0], 0, 0, url)[..2] + if pad then "==" else ""
    else if |b| == 2 then Symbols(b[0], b[1], 0, url)[..3] + if pad then "=" else ""
    else Symbols(b[0], b[1], b[2], url) + Encode(b[3..], url, pad)
  }

  predicate NewLine(c: char) { c == '\n' || c == '\r' }

  /** The decoder passes over line ends wherever they stand. */
  function WithoutNewLines(s: string): string {
    if s == "" then "" else (if NewLine(s[0]) then "" else [s[0]]) + WithoutNewLines(s[1..])
  }

  /** Four characters: three bytes, one or two and padding, or not base64. */
  datatype Quantum = Full(bytes: seq<Byte>) | Padded(bytes: seq<Byte>) | Bad

  /** Low bits that padding leaves unused are not checked. */
  function QuantumOf(c0: char, c1: char, c2: char, c3: char): (q: Quantum)
    ensures q.Full? ==> |q.bytes| == 3
    ensures q.Padded? ==> 1 <= |q.bytes| <= 2
  {
    var d0, d1, d2, d3 := Digit(c0), Digit(c1), Digit(c2), Digit(c3);
    if d0.None? || d1.None? then Bad
    else
      var b0 := d0.value * 4 + d1.value / 16;
      if c2 == '=' then (if c3 == '=' then Padded([b0]) else Bad)
      else if d2.None? then Bad
      else
        var b1 := d1.value % 16 * 16 + d2.value / 4;
        if c3 == '=' then Padded([b0, b1])
        else if d3.None? then Bad
        else Full([b0, b1, d2.value % 4 * 64 + d3.value])
  }

  /** Quanta of four characters, only the last of which may be padded. */
  function DecodeQuanta(s: string): Option<seq<Byte>> {
    if s == "" then Some([])
    else if |s| < 4 then None
    else
      match QuantumOf(s[0], s[1], s[2], s[3])
      case Bad => None
      case Padded(bytes) => if |s| == 4 then Some(bytes) else None
      case Full(bytes) =>
        var rest := DecodeQuanta(s[4..]);
        if rest.None? then None else Some(bytes + rest.value)
  }

  /** base64.StdEncoding.DecodeString. */
  function DecodeString(s: string): Option<seq<Byte>> {
    DecodeQuanta(WithoutNewLines(s))
  }

  /** strings.ReplaceAll for single characters. */
  function Replaced(s: string, from: char, to: char): (r: string)
    ensures |r| == |s|
    ensures forall i :: 0 <= i < |s| ==> r[i] == if s[i] == from then to else s[i]
  {
    seq(|s|, i requires 0 <= i < |s| => if s[i] == from then to else s[i])
  }

  function Repadded(s: string): string {
    if |s| % 4 == 2 then s + "==" else if |s| % 4 == 3 then s + "=" else s
  }

  /** The link decoder as one expression. */
  function UrlDecode(input: string): Option<seq<Byte>> {
    DecodeString(Repadded(Replaced(Replaced(TrimSpace(input), '-', '+'), '_', '/')))
  }

  // ---- Round trips ----

  lemma DigitOfSymbol(d: int)
    requires 0 <= d < 64
    ensures Digit(Symbol(d, false)) == Some(d)
    ensures Symbol(d, false) != '='
  {
  }

  lemma BytesRejoin(x: Byte, y: Byte, z: Byte)
    ensures x / 4 * 4 + (x % 4 * 16 + y / 16) / 16 == x
    ensures (x % 4 * 16 + y / 16) % 16 * 16 + (y % 16 * 4 + z / 64) / 4 == y
    ensures (y % 16 * 4 + z / 64) % 4 * 64 + z % 64 == z
  {
  }

  /** A group decodes to its bytes, and so do its first two or three characters once padded. */
  lemma QuantumRoundTrip(x: Byte, y: Byte, z: Byte)
    ensures var q := Symbols(x, y, z, false);
            && QuantumOf(q[0], q[1], q[2], q[3]) == Full([x, y, z])
            && (z == 0 ==> QuantumOf(q[0], q[1], q[2], '=') == Padded([x, y]))
            && (z == 0 && y == 0 ==> QuantumOf(q[0], q[1], '=', '=') == Padded([x]))
  {
    DigitOfSymbol(x / 4);
    DigitOfSymbol(x % 4 * 16 + y / 16);
    DigitOfSymbol(y % 16 * 4 + z / 64);
    DigitOfSymbol(z % 64);
    BytesRejoin(x, y, z);
  }

  lemma DecodeGroup(q: string, rest: string, bytes: seq<Byte>)
    requires |q| == 4 && QuantumOf(q[0], q[1], q[2], q[3]) == Full(bytes)
    requires DecodeQuanta(rest).Some?
    ensures DecodeQuanta(q + rest) == Some(bytes + DecodeQuanta(rest).value)
  {
    assert (q + rest)[4..] == rest;
  }

  lemma DecodeShort(b: seq<Byte>)
    requires |b| <= 2
    ensures DecodeQuanta(Encode(b, false, true)) == Some(b)
  {
    if |b| == 1 {
      QuantumRoundTrip(b[0], 0, 0);
      assert b == [b[0]];
    } else if |b| == 2 {
      QuantumRoundTrip(b[0], b[1], 0);
      assert b == [b[0], b[1]];
    }
  }

  lemma {:induction false} DecodeEncoded(b: seq<Byte>)
    ensures DecodeQuanta(Encode(b, false, true)) == Some(b)
  {
    if |b| <= 2 {
      DecodeShort(b);
    } else {
      var q, rest := Symbols(b[0], b[1], b[2], false), Encode(b[3..], false, true);
      DecodeEncoded(b[3..]);
      QuantumRoundTrip(b[0], b[1], b[2]);
      DecodeGroup(q, rest, [b[0], b[1], b[2]]);
      assert b == [b[0], b[1], b[2]] + b[3..];
      assert Encode(b, false, true) == q + rest;
    }
  }

  function Standard(c: char): char {
    if c == '-' then '+' else if c == '_' then '/' else c
  }

  /** Characters any of the encoders may emit. */
  predicate Emitted(c: char) {
    Digit(c).Some? || c == '-' || c == '_' || c == '='
  }

  lemma SymbolEmitted(d: int, url: bool)
    requires 0 <= d < 64
    ensures Emitted(Symbol(d, url)) && Standard(Symbol(d, url)) == Symbol(d, false)
  {
  }

  function Pads(n: nat): string {
    if n % 3 == 1 then "==" else if n % 3 == 2 then "=" else ""
  }

  lemma PadsRepeat(n: nat)
    requires n >= 3
    ensures Pads(n) == Pads(n - 3) && (n + 2) / 3 * 4 == 4 + (n - 3 + 2) / 3 * 4
  {
  }

  lemma EncodeStep(b: seq<Byte>, url: bool, pad: bool)
    requires |b| > 2
    ensures |b[3..]| == |b| - 3
    ensures Encode(b, url, pad) == Symbols(b[0], b[1], b[2], url) + Encode(b[3..], url, pad)
  {
  }

  lemma {:induction false} EncodedLength(b: seq<Byte>, url: bool)
    ensures |Encode(b, url, false)| + |Pads(|b|)| == (|b| + 2) / 3 * 4
  {
    if |b| <= 2 {
    } else {
      EncodedLength(b[3..], url);
      EncodeStep(b, url, false);
      PadsRepeat(|b|);
    }
  }

  /** Padding is a suffix. */
  lemma {:induction false} EncodedPadding(b: seq<Byte>, url: bool)
    ensures Encode(b, url, true) == Encode(b, url, false) + Pads(|b|)
  {
    if |b| <= 2 {
    } else {
      EncodedPadding(b[3..], url);
      EncodeStep(b, url, false);
      EncodeStep(b, url, true);
      PadsRepeat(|b|);
    }
  }

  /** An unpadded URL-safe text beside the standard text of the same bytes. */
  predicate SameDigits(url: string, std: string) {
    && |url| == |std|
    && forall i :: 0 <= i < |std| ==> Emitted(url[i]) && Standard(url[i]) == std[i] && Digit(std[i]).Some?
  }

  lemma SymbolsAlphabet(x: Byte, y: Byte, z: Byte, url: bool)
    ensures SameDigits(Symbols(x, y, z, url), Symbols(x, y, z, false))
  {
    forall d | 0 <= d < 64
      ensures Emitted(Symbol(d, url)) && Standard(Symbol(d, url)) == Symbol(d, false) && Digit(Symbol(d, false)).Some?
    {
      SymbolEmitted(d, url);
      DigitOfSymbol(d);
    }
  }

  /** Unpadded encodings use alphabet characters only, the same ones in both alphabets. */
  lemma {:induction false} EncodedAlphabet(b: seq<Byte>, url: bool)
    ensures SameDigits(Encode(b, url, false), Encode(b, false, false))
  {
    if b == [] {
    } else if |b| == 1 {
      SymbolsAlphabet(b[0], 0, 0, url);
    } else if |b| == 2 {
      SymbolsAlphabet(b[0], b[1], 0, url);
    } else {
      SymbolsAlphabet(b[0], b[1], b[2], url);
      EncodedAlphabet(b[3..], url);
    }
  }

  lemma {:induction false} NoNewLinesKept(s: string)
    requires forall i :: 0 <= i < |s| ==> !NewLine(s[i])
    ensures WithoutNewLines(s) == s
  {
    if s == "" {
    } else {
      NoNewLinesKept(s[1..]);
    }
  }

  function Standardised(s: string): (r: string) {
    Replaced(Replaced(s, '-', '+'), '_', '/')
  }

  lemma StandardisedEncoding(b: seq<Byte>, url: bool)
    ensures Standardised(Encode(b, url, false)) == Encode(b, false, false)
    ensures Standardised(Encode(b, url, false) + Pads(|b|)) == Encode(b, false, false) + Pads(|b|)
  {
    EncodedAlphabet(b, url);
    var s := Encode(b, url, false);
    assert forall i :: 0 <= i < |s| ==> Standardised(s)[i] == Standard(s[i]);
    assert Standardised(s + Pads(|b|)) == Standardised(s) + Pads(|b|);
  }

  /** Text that padding completes to q quanta is repaired by the same padding. */
  lemma RepadRestores(s: string, n: nat, q: nat)
    requires |s| + |Pads(n)| == 4 * q
    ensures Repadded(s) == s + Pads(n) && Repadded(s + Pads(n)) == s + Pads(n)
  {
    var p := Pads(n);
    assert |s + p| == 4 * q && (4 * q) % 4 == 0;
    if |p| == 0 {
      assert |s| % 4 == 0;
    } else if |p| == 1 {
      assert |s| == 4 * (q - 1) + 3 && |s| % 4 == 3;
    } else {
      assert |s| == 4 * (q - 1) + 2 && |s| % 4 == 2;
    }
  }

  /** Undoing the URL alphabet and repairing the padding yields the padded standard encoding. */
  lemma Normalised(b: seq<Byte>, url: bool, pad: bool)
    ensures Repadded(Standardised(Encode(b, url, pad))) == Encode(b, false, true)
  {
    EncodedLength(b, false);
    EncodedPadding(b, url);
    EncodedPadding(b, false);
    StandardisedEncoding(b, url);
    RepadRestores(Encode(b, false, false), |b|, (|b| + 2) / 3);
  }

  lemma EncodedCharacters(b: seq<Byte>, url: bool, pad: bool)
    ensures forall i :: 0 <= i < |Encode(b, url, pad)| ==> Emitted(Encode(b, url, pad)[i])
  {
    EncodedPadding(b, url);
    EncodedAlphabet(b, url);
  }

  lemma StandardDecodes(b: seq<Byte>)
    ensures DecodeString(Encode(b, false, true)) == Some(b)
  {
    EncodedCharacters(b, false, true);
    NoNewLinesKept(Encode(b, false, true));
    DecodeEncoded(b);
  }

  /** The link decoder inverts the standard and the URL-safe encoder, padded or not, in any white space. */
  lemma UrlDecodeInvertsEncoders(b: seq<Byte>, url: bool, pad: bool, before: string, after: string)
    requires White(before) && White(after)
    ensures UrlDecode(before + Encode(b, url, pad) + after) == Some(b)
  {
    var s := Encode(b, url, pad);
    EncodedCharacters(b, url, pad);
    assert forall i :: 0 <= i < |s| ==> !IsSpace(s[i]);
    TrimSpaceCuts(before, s, after);
    Normalised(b, url, pad);
    StandardDecodes(b);
  }

  /** Whatever one of the encoders made of some bytes is decoded to these bytes, white space around it or not. */
  method Base64URLDecode(input: string) returns (r: Option<seq<Byte>>)
    ensures r == UrlDecode(input)
    ensures forall before, b, url, pad, after ::
              White(before) && White(after) && input == before + Encode(b, url, pad) + after ==> r == Some(b)
  {
    var s := TrimSpace(input);
    s := Replaced(s, '-', '+');
    s := Replaced(s, '_', '/');
    match |s| % 4 {
      case 2 => s := s + "==";
      case 3 => s := s + "=";
      case _ =>
    }
    r := DecodeString(s);
    forall before, b, url, pad, after
      | White(before) && White(after) && input == before + Encode(b, url, pad) + after
      ensures UrlDecode(input) == Some(b)
    {
      UrlDecodeInvertsEncoders(b, url, pad, before, after);
    }
  }

  // ---- The alphabet, and what decodes at all ----

  const CAPITALS := "ABCDEFGHIJKLMNOPQRSTUVWXYZ"
  const SMALLS := "abcdefghijklmnopqrstuvwxyz"
  const DIGITS := "0123456789"

  /** Table 1 of RFC 4648. */
  const ALPHABET := CAPITALS + SMALLS + DIGITS + "+/"

  lemma CapitalAt(d: int)
    requires 0 <= d < 26
    ensures |CAPITALS| == 26 && CAPITALS[d] == ('A' as int + d) as char
  {
  }

  lemma SmallAt(d: int)
    requires 0 <= d < 26
    ensures |SMALLS| == 26 && SMALLS[d] == ('a' as int + d) as char
  {
  }

  lemma DigitAt(d: int)
    requires 0 <= d < 10
    ensures |DIGITS| == 10 && DIGITS[d] == ('0' as int + d) as char
  {
  }

  lemma SymbolAt(d: int)
    requires 0 <= d < 64
    ensures |ALPHABET| == 64 && Symbol(d, false) == ALPHABET[d]
  {
    CapitalAt(0);
    SmallAt(0);
    DigitAt(0);
    if d < 26 {
      CapitalAt(d);
    } else if d < 52 {
      SmallAt(d - 26);
    } else if d < 62 {
      DigitAt(d - 52);
    }
  }

  lemma SymbolOfDigit(c: char)
    requires Digit(c).Some?
    ensures Symbol(Digit(c).value, false) == c
  {
  }

  /** The digits are those of the table, and nothing else is a digit; the other table swaps the last two. */
  lemma DigitsExactly(c: char, d: int)
    ensures |ALPHABET| == 64
    ensures Digit(c) == Some(d) <==> 0 <= d < 64 && ALPHABET[d] == c
    ensures 0 <= d < 64 ==> Symbol(d, false) == ALPHABET[d]
    ensures 0 <= d < 64 ==> Symbol(d, true) == if d == 62 then '-' else if d == 63 then '_' else ALPHABET[d]
  {
    SymbolAt(0);
    if 0 <= d < 64 {
      SymbolAt(d);
      DigitOfSymbol(d);
    }
    if Digit(c).Some? {
      SymbolOfDigit(c);
    }
  }

  /** Examples of section 10 of RFC 4648. */
  lemma Vectors()
    ensures Encode([102], false, true) == "Zg==" && Encode([102, 111], false, true) == "Zm8="
    ensures Encode([102, 111, 111], false, true) == "Zm9v"
    ensures Encode([102, 111, 111, 98, 97, 114], false, true) == "Zm9vYmFy"
  {
    var foobar: seq<Byte> := [102, 111, 111, 98, 97, 114];
    assert foobar[3..] == [98, 97, 114] && foobar[3..][3..] == [];
    assert Encode([98, 97, 114], false, true) == "YmFy" + Encode([], false, true);
  }

  /** A line end anywhere in the text makes no difference to the standard decoder. */
  lemma NewLineIgnored(a: string, c: char, b: string)
    requires NewLine(c)
    ensures DecodeString(a + [c] + b) == DecodeString(a + b)
  {
    WithoutOne(a, c, b);
  }

  lemma {:induction false} WithoutOne(a: string, c: char, b: string)
    requires NewLine(c)
    ensures WithoutNewLines(a + [c] + b) == WithoutNewLines(a + b)
  {
    if a == "" {
      assert a + [c] + b == [c] + b && ([c] + b)[1..] == b && a + b == b;
    } else {
      assert (a + [c] + b)[1..] == a[1..] + [c] + b && (a + b)[1..] == a[1..] + b;
      WithoutOne(a[1..], c, b);
    }
  }

  /** Digits up to position n, padding from there on. */
  predicate PaddedFrom(s: string, n: int) {
    && (forall i :: 0 <= i < |s| && i < n ==> Digit(s[i]).Some?)
    && (forall i :: 0 <= i < |s| && n <= i ==> s[i] == '=')
  }

  /** Whole quanta of digits, the last of which may end in one or two padding characters. */
  predicate Decodable(s: string) {
    |s| % 4 == 0 && exists n :: |s| - 2 <= n <= |s| && PaddedFrom(s, n)
  }

  lemma QuantumShape(c0: char, c1: char, c2: char, c3: char)
    ensures var q := QuantumOf(c0, c1, c2, c3);
            && (q.Full? <==> Digit(c0).Some? && Digit(c1).Some? && Digit(c2).Some? && Digit(c3).Some?)
            && (q.Padded? <==> Digit(c0).Some? && Digit(c1).Some? && c3 == '=' && (c2 == '=' || Digit(c2).Some?))
  {
  }

  lemma LastQuantum(s: string)
    requires |s| == 4
    ensures !QuantumOf(s[0], s[1], s[2], s[3]).Bad? <==> Decodable(s)
  {
    QuantumShape(s[0], s[1], s[2], s[3]);
    var q := QuantumOf(s[0], s[1], s[2], s[3]);
    if q.Full? {
      assert PaddedFrom(s, 4);
    } else if q.Padded? {
      assert PaddedFrom(s, if s[2] == '=' then 2 else 3);
    }
  }

  lemma MoreQuanta(s: string)
    requires |s| >= 8
    ensures Decodable(s) <==> QuantumOf(s[0], s[1], s[2], s[3]).Full? && Decodable(s[4..])
  {
    QuantumShape(s[0], s[1], s[2], s[3]);
    var t := s[4..];
    assert forall i :: 4 <= i < |s| ==> s[i] == t[i - 4];
    if Decodable(s) {
      var n :| |s| - 2 <= n <= |s| && PaddedFrom(s, n);
      assert PaddedFrom(t, n - 4);
    }
    if QuantumOf(s[0], s[1], s[2], s[3]).Full? && Decodable(t) {
      var n :| |t| - 2 <= n <= |t| && PaddedFrom(t, n);
      forall i | 0 <= i < |s| ensures if i < n + 4 then Digit(s[i]).Some? else s[i] == '=' {
        if i >= 4 {
          assert s[i] == t[i - 4];
        }
      }
      assert PaddedFrom(s, n + 4);
    }
  }

  lemma QuantaStep(s: string)
    requires |s| > 4
    ensures DecodeQuanta(s).Some? <==> QuantumOf(s[0], s[1], s[2], s[3]).Full? && DecodeQuanta(s[4..]).Some?
  {
  }

  /** Exactly such text is accepted once its line ends are taken out. */
  lemma {:induction false} AcceptedExactly(s: string)
    ensures DecodeQuanta(s).Some? <==> Decodable(s)
  {
    if s == "" {
      assert PaddedFrom(s, 0);
    } else if |s| < 4 {
    } else if |s| == 4 {
      LastQuantum(s);
    } else {
      QuantaStep(s);
      AcceptedExactly(s[4..]);
      if |s| >= 8 {
        MoreQuanta(s);
      } else {
        assert |s| % 4 != 0 && |s[4..]| % 4 != 0;
      }
    }
  }

  // ---- WireGuard keys ----

  /** The key check: 44 characters, the last '=', decoding to 32 bytes. */
  function IsValidWGKey(key: string): bool {
    if |key| != 44 || key[43] != '=' then false
    else
      var decoded := DecodeString(key);
      decoded.Some? && |decoded.value| == 32
  }

  lemma FullStep(s: string)
    requires |s| >= 4 && QuantumOf(s[0], s[1], s[2], s[3]).Full?
    ensures DecodeQuanta(s).Some? <==> DecodeQuanta(s[4..]).Some?
    ensures DecodeQuanta(s).Some? ==> |DecodeQuanta(s).value| == 3 + |DecodeQuanta(s[4..]).value|
    ensures Digit(s[0]).Some? && Digit(s[1]).Some? && Digit(s[2]).Some? && Digit(s[3]).Some?
  {
  }

  /** Decodable text is q quanta; only the last may fall short of three bytes. */
  lemma {:induction false} DecodedLength(s: string) returns (q: nat)
    requires DecodeQuanta(s).Some?
    ensures |s| == 4 * q
    ensures var n := |DecodeQuanta(s).value|;
            && 3 * q - 2 <= n <= 3 * q
            && (n >= 3 * q - 1 ==> forall i :: 0 <= i < |s| - 1 ==> Digit(s[i]).Some?)
            && (n == 3 * q - 2 ==> q > 0 && s[|s| - 2] == '=')
  {
    if s == "" {
      q := 0;
    } else if QuantumOf(s[0], s[1], s[2], s[3]).Full? {
      FullStep(s);
      q := DecodedLength(s[4..]);
      q := q + 1;
      forall i | 4 <= i < |s| - 1 && |DecodeQuanta(s).value| >= 3 * q - 1 ensures Digit(s[i]).Some? {
        assert s[i] == s[4..][i - 4];
      }
    } else {
      q := 1;
    }
  }

  lemma {:induction false} PaddedDecodes(s: string, q: nat)
    requires |s| == 4 * q && q > 0 && s[|s| - 1] == '='
    requires forall i :: 0 <= i < |s| - 1 ==> Digit(s[i]).Some?
    ensures DecodeQuanta(s).Some? && |DecodeQuanta(s).value| == 3 * q - 1
  {
    assert s[2] != '=';
    if q == 1 {
    } else {
      PaddedDecodes(s[4..], q - 1);
      FullStep(s);
    }
  }

  lemma {:induction false} NewLinesShorten(s: string)
    ensures |WithoutNewLines(s)| <= |s|
    ensures |WithoutNewLines(s)| == |s| ==> WithoutNewLines(s) == s
  {
    if s == "" {
    } else {
      NewLinesShorten(s[1..]);
    }
  }

  /** Exactly the strings of 43 alphabet characters followed by '=' are valid keys. */
  lemma ValidKeyShape(key: string)
    ensures IsValidWGKey(key) <==>
              |key| == 44 && key[43] == '=' && forall i :: 0 <= i < 43 ==> Digit(key[i]).Some?
  {
    if |key| == 44 && key[43] == '=' {
      NewLinesShorten(key);
      if DecodeString(key).Some? {
        var _ := DecodedLength(WithoutNewLines(key));
      }
      if forall i :: 0 <= i < 43 ==> Digit(key[i]).Some? {
        NoNewLinesKept(key);
        PaddedDecodes(key, 11);
      }
    }
  }

  lemma EncodedKeyShape(b: seq<Byte>, body: string)
    requires |b| == 32 && body == Encode(b, false, false)
    ensures Encode(b, false, true) == body + "=" && |body| == 43
    ensures forall i :: 0 <= i < 43 ==> Digit(body[i]).Some?
  {
    EncodedLength(b, false);
    EncodedPadding(b, false);
    EncodedAlphabet(b, false);
  }

  /** Every 32-byte key has a 44-character standard encoding with one '=' that passes the check. */
  lemma EncodedKeyValid(b: seq<Byte>)
    requires |b| == 32
    ensures var key := Encode(b, false, true);
            && |key| == 44
            && (forall i :: 0 <= i < 44 ==> (key[i] == '=' <==> i == 43))
            && IsValidWGKey(key)
            && DecodeString(key) == Some(b)
  {
    var body := Encode(b, false, false);
    EncodedKeyShape(b, body);
    StandardDecodes(b);
    ValidKeyShape(body + "=");
  }
}
