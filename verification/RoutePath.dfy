// Splitting an escaped URL path into decoded segments. A string is a sequence of bytes here:
// every character stands for one byte.
module RoutePath {
  import opened Common
  import opened Base64

  function HexValue(c: char): (v: Option<int>)
    ensures v.Some? ==> 0 <= v.value < 16
  {
    if '0' <= c <= '9' then Some(c as int - '0' as int)
    else if 'a' <= c <= 'f' then Some(c as int - 'a' as int + 10)
    else if 'A' <= c <= 'F' then Some(c as int - 'A' as int + 10)
    else None
  }

  /** The byte that the three characters at the head of s escape, if they do. */
  function Escaped(s: string): Option<char> {
    if |s| >= 3 && s[0] == '%' && HexValue(s[1]).Some? && HexValue(s[2]).Some?
    then Some((HexValue(s[1]).value * 16 + HexValue(s[2]).value) as char) else None
  }

  /** url.PathUnescape. */
  function Unescape(s: string): Option<string>
    decreases |s|
  {
    if s == "" then Some("")
    else if s[0] == '%' then
      if Escaped(s).None? then None
      else
        var rest := Unescape(s[3..]);
        if rest.None? then None else Some([Escaped(s).value] + rest.value)
    else
      var rest := Unescape(s[1..]);
      if rest.None? then None else Some([s[0]] + rest.value)
  }

  function TrimLeftSlashes(s: string): string {
    if s != "" && s[0] == '/' then TrimLeftSlashes(s[1..]) else s
  }

  function TrimRightSlashes(s: string): string {
    if s != "" && s[|s| - 1] == '/' then TrimRightSlashes(s[..|s| - 1]) else s
  }

  /** strings.Trim(s, "/"). */
  function TrimSlashes(s: string): string {
    TrimRightSlashes(TrimLeftSlashes(s))
  }

  /** strings.TrimPrefix. */
  function WithoutPrefix(s: string, prefix: string): string {
    if prefix <= s then s[|prefix|..] else s
  }

  /** strings.Split(s, "/"): never empty. */
  function Split(s: string): (r: seq<string>)
    ensures r != []
  {
    if s == "" then [""]
    else
      var rest := Split(s[1..]);
      if s[0] == '/' then [""] + rest else [[s[0]] + rest[0]] + rest[1..]
  }

  predicate DotSegment(s: string) { s == "." || s == ".." }

  /** One raw segment decoded; None when it is empty, malformed or decodes to a dot segment. */
  function Segment(raw: string): Option<string> {
    if raw == "" || Unescape(raw).None? || DotSegment(Unescape(raw).value) then None else Unescape(raw)
  }

  function Segments(raw: seq<string>): Option<seq<string>> {
    if raw == [] then Some([])
    else
      var first, rest := Segment(raw[0]), Segments(raw[1..]);
      if first.None? || rest.None? then None else Some([first.value] + rest.value)
  }

  function Parts(escaped: string, prefix: string): Option<seq<string>> {
    var rest := TrimSlashes(WithoutPrefix(escaped, prefix));
    if rest == "" then Some([]) else Segments(Split(rest))
  }

  lemma {:induction false} SegmentsConcat(a: seq<string>, b: seq<string>)
    ensures Segments(a + b) ==
            if Segments(a).Some? && Segments(b).Some? then Some(Segments(a).value + Segments(b).value) else None
  {
    if a == [] {
      assert a + b == b;
      if Segments(b).Some? {
        assert [] + Segments(b).value == Segments(b).value;
      }
    } else {
      SegmentsConcat(a[1..], b);
      assert (a + b)[1..] == a[1..] + b;
      if Segments(a).Some? && Segments(b).Some? {
        var x, y, z := [Segment(a[0]).value], Segments(a[1..]).value, Segments(b).value;
        assert x + (y + z) == (x + y) + z;
      }
    }
  }

  method SplitPath(escaped: string, prefix: string) returns (r: Option<seq<string>>)
    ensures r == Parts(escaped, prefix)
  {
    var rest := WithoutPrefix(escaped, prefix);
    rest := TrimSlashes(rest);
    if rest == "" {
      return Some([]);
    }
    var raw := Split(rest);
    var parts: seq<string> := [];
    for i := 0 to |raw|
      invariant Segments(raw[..i]) == Some(parts)
    {
      var seg := raw[i];
      assert raw[..i + 1] == raw[..i] + [seg];
      assert raw == raw[..i + 1] + raw[i + 1..];
      SegmentsConcat(raw[..i], [seg]);
      SegmentsConcat(raw[..i + 1], raw[i + 1..]);
      if seg == "" {
        return None;
      }
      var d := Unescape(seg);
      if d.None? {
        return None;
      }
      if d.value == "." || d.value == ".." {
        return None;
      }
      assert [seg][1..] == [] && [d.value] + [] == [d.value];
      parts := parts + [d.value];
    }
    assert raw[..|raw|] == raw;
    r := Some(parts);
  }

  // ---- Percent-encoding ----

  const UPPER := "0123456789ABCDEF"
  const LOWER := "0123456789abcdef"

  /** c is the hexadecimal digit of v, in either case (RFC 3986 section 2.1). */
  predicate HexDigit(c: char, v: int) {
    0 <= v < 16 && (c == UPPER[v] || c == LOWER[v])
  }

  /** The decoder reads exactly these digits. */
  lemma HexValueExactly(c: char, v: int)
    ensures HexValue(c) == Some(v) <==> HexDigit(c, v)
  {
    if 0 <= v < 10 {
      assert UPPER[v] == LOWER[v] == ('0' as int + v) as char;
    } else if 10 <= v < 16 {
      assert UPPER[v] == ('A' as int + v - 10) as char && LOWER[v] == ('a' as int + v - 10) as char;
    }
  }

  /**
   * enc is a percent-encoding of s: every byte either stands for itself, which '%' and '/' may
   * not, or is written as '%', its high digit and its low digit.
   */
  predicate EncodedAs(enc: string, s: string)
    decreases |enc|
  {
    if s == "" then enc == ""
    else if enc == "" then false
    else if enc[0] == '%' then
      && |enc| >= 3 && HexDigit(enc[1], s[0] as int / 16) && HexDigit(enc[2], s[0] as int % 16)
      && EncodedAs(enc[3..], s[1..])
    else enc[0] == s[0] && enc[0] != '/' && EncodedAs(enc[1..], s[1..])
  }

  /** An escape is read back as the byte whose digits it spells. */
  lemma EscapedExactly(enc: string, c: char)
    requires enc != "" && enc[0] == '%'
    ensures Escaped(enc) == Some(c) <==>
              |enc| >= 3 && HexDigit(enc[1], c as int / 16) && HexDigit(enc[2], c as int % 16)
  {
    if |enc| >= 3 {
      HexValueExactly(enc[1], c as int / 16);
      HexValueExactly(enc[2], c as int % 16);
      if Escaped(enc) == Some(c) {
        var h, l := HexValue(enc[1]).value, HexValue(enc[2]).value;
        assert c as int == h * 16 + l && c as int / 16 == h && c as int % 16 == l;
      }
    }
  }

  /** Decoding inverts every encoding, and every slash-free string that decodes is one. */
  lemma {:induction false} UnescapeInverts(enc: string, s: string)
    ensures EncodedAs(enc, s) <==> Unescape(enc) == Some(s) && '/' !in enc
    decreases |enc|
  {
    if enc == "" {
    } else if enc[0] == '%' {
      UnescapeEscape(enc, s);
      if Escaped(enc).Some? && s != "" {
        UnescapeInverts(enc[3..], s[1..]);
      }
    } else {
      assert enc == [enc[0]] + enc[1..];
      if s != "" {
        UnescapeInverts(enc[1..], s[1..]);
        assert s == [s[0]] + s[1..];
      }
    }
  }

  lemma UnescapeEscape(enc: string, s: string)
    requires enc != "" && enc[0] == '%'
    ensures EncodedAs(enc, s) <==>
              Escaped(enc).Some? && s != "" && Escaped(enc) == Some(s[0]) && EncodedAs(enc[3..], s[1..])
    ensures Unescape(enc) == Some(s) && '/' !in enc <==>
              Escaped(enc).Some? && s != "" && Escaped(enc) == Some(s[0])
              && Unescape(enc[3..]) == Some(s[1..]) && '/' !in enc[3..]
  {
    if s != "" {
      EscapedExactly(enc, s[0]);
      assert s == [s[0]] + s[1..];
    }
    if Escaped(enc).Some? {
      assert enc == [enc[0], enc[1], enc[2]] + enc[3..];
    }
  }

  /** How one byte is written: as itself, or escaped with digits of either case. */
  datatype Writing = Itself | Capitals | Smalls

  function Written(c: char, how: Writing): string
    requires c as int < 256
  {
    match how
    case Itself => [c]
    case Capitals => ['%', UPPER[c as int / 16], UPPER[c as int % 16]]
    case Smalls => ['%', LOWER[c as int / 16], LOWER[c as int % 16]]
  }

  predicate Bytes(s: string) {
    forall i :: 0 <= i < |s| ==> s[i] as int < 256
  }

  /** The encoder: each byte as chosen for it. */
  function PercentEncode(s: string, how: seq<Writing>): string
    requires |how| == |s| && Bytes(s)
  {
    if s == "" then "" else Written(s[0], how[0]) + PercentEncode(s[1..], how[1..])
  }

  /** The choice escapes at least '%' and '/'. */
  predicate Escapes(s: string, how: seq<Writing>) {
    |how| == |s| && Bytes(s) && forall i :: 0 <= i < |s| && s[i] in "%/" ==> how[i] != Itself
  }

  /** Whatever bytes it escapes, '%' and '/' among them, the text decodes back. */
  lemma {:induction false} UnescapeInvertsEncoder(s: string, how: seq<Writing>)
    requires Escapes(s, how)
    ensures EncodedAs(PercentEncode(s, how), s) && Unescape(PercentEncode(s, how)) == Some(s)
  {
    var enc := PercentEncode(s, how);
    if s == "" {
    } else {
      UnescapeInvertsEncoder(s[1..], how[1..]);
      var w, rest := Written(s[0], how[0]), PercentEncode(s[1..], how[1..]);
      assert (w + rest)[|w|..] == rest;
      assert how[0] == Itself ==> s[0] !in "%/";
    }
    UnescapeInverts(enc, s);
  }

  // ---- Splitting inverts joining ----

  function Join(segs: seq<string>): string {
    if segs == [] then "" else if |segs| == 1 then segs[0] else segs[0] + "/" + Join(segs[1..])
  }

  predicate SlashFree(segs: seq<string>) {
    forall i :: 0 <= i < |segs| ==> '/' !in segs[i]
  }

  lemma {:induction false} SplitHead(a: string, b: string)
    requires '/' !in a
    ensures Split(a + "/" + b) == [a] + Split(b)
  {
    if a == "" {
      assert (a + "/" + b)[1..] == b;
    } else {
      SplitHead(a[1..], b);
      assert (a + "/" + b)[1..] == a[1..] + "/" + b;
      assert a == [a[0]] + a[1..];
    }
  }

  lemma {:induction false} SplitSlashFree(a: string)
    requires '/' !in a
    ensures Split(a) == [a]
  {
    if a == "" {
    } else {
      SplitSlashFree(a[1..]);
      assert a == [a[0]] + a[1..];
    }
  }

  lemma {:induction false} SplitOfJoin(segs: seq<string>)
    requires segs != [] && SlashFree(segs)
    ensures Split(Join(segs)) == segs
  {
    if |segs| == 1 {
      SplitSlashFree(segs[0]);
    } else {
      SplitOfJoin(segs[1..]);
      SplitHead(segs[0], Join(segs[1..]));
    }
  }

  lemma JoinSlash(rest: seq<string>)
    requires rest != []
    ensures Join([""] + rest) == "/" + Join(rest)
  {
    assert ([""] + rest)[1..] == rest;
  }

  lemma JoinChar(c: char, rest: seq<string>)
    requires rest != []
    ensures Join([[c] + rest[0]] + rest[1..]) == [c] + Join(rest)
  {
    var longer := [[c] + rest[0]] + rest[1..];
    assert longer[1..] == rest[1..] && |longer| == |rest|;
    assert |rest| > 1 ==> [c] + rest[0] + "/" + Join(rest[1..]) == [c] + (rest[0] + "/" + Join(rest[1..]));
  }

  lemma {:induction false} JoinOfSplit(s: string)
    ensures Join(Split(s)) == s && SlashFree(Split(s))
  {
    if s == "" {
    } else {
      var rest := Split(s[1..]);
      JoinOfSplit(s[1..]);
      if s[0] == '/' {
        JoinSlash(rest);
      } else {
        JoinChar(s[0], rest);
      }
      assert s == [s[0]] + s[1..];
    }
  }

  predicate Slashes(s: string) {
    forall i :: 0 <= i < |s| ==> s[i] == '/'
  }

  lemma {:induction false} TrimLeftExtra(a: string, s: string)
    requires Slashes(a) && (s != "" ==> s[0] != '/')
    ensures TrimLeftSlashes(a + s) == s
  {
    if a == "" {
      assert a + s == s;
    } else {
      TrimLeftExtra(a[1..], s);
      assert (a + s)[1..] == a[1..] + s;
    }
  }

  lemma {:induction false} TrimRightExtra(s: string, b: string)
    requires Slashes(b) && (s != "" ==> s[|s| - 1] != '/')
    ensures TrimRightSlashes(s + b) == s
  {
    if b == "" {
      assert s + b == s;
    } else {
      TrimRightExtra(s, b[..|b| - 1]);
      assert (s + b)[..|s + b| - 1] == s + b[..|b| - 1];
    }
  }

  lemma TrimExtra(a: string, s: string, b: string)
    requires Slashes(a) && Slashes(b)
    requires s != "" && s[0] != '/' && s[|s| - 1] != '/'
    ensures TrimSlashes(a + s + b) == s
  {
    assert a + s + b == a + (s + b);
    TrimLeftExtra(a, s + b);
    TrimRightExtra(s, b);
  }

  lemma {:induction false} JoinEnds(segs: seq<string>)
    requires segs != [] && SlashFree(segs) && forall i :: 0 <= i < |segs| ==> segs[i] != ""
    ensures Join(segs) != "" && Join(segs)[0] != '/' && Join(segs)[|Join(segs)| - 1] != '/'
  {
    assert segs[0][0] in segs[0];
    assert segs[0][|segs[0]| - 1] in segs[0];
    if |segs| == 1 {
    } else {
      JoinEnds(segs[1..]);
    }
  }

  /** Each raw segment encodes the part at its place. */
  predicate EncodedList(encs: seq<string>, parts: seq<string>) {
    |encs| == |parts| && forall i :: 0 <= i < |parts| ==> EncodedAs(encs[i], parts[i])
  }

  predicate Admissible(parts: seq<string>) {
    forall i :: 0 <= i < |parts| ==> parts[i] != "" && parts[i] != "." && parts[i] != ".."
  }

  lemma {:induction false} SegmentsMeaning(encs: seq<string>, parts: seq<string>)
    requires SlashFree(encs)
    ensures Segments(encs) == Some(parts) <==> EncodedList(encs, parts) && Admissible(parts)
  {
    if encs == [] || parts == [] {
    } else {
      SegmentsMeaning(encs[1..], parts[1..]);
      UnescapeInverts(encs[0], parts[0]);
      assert parts == [parts[0]] + parts[1..];
      if EncodedList(encs, parts) && Admissible(parts) {
        assert EncodedAs(encs[0], parts[0]);
      }
      if EncodedList(encs[1..], parts[1..]) && EncodedAs(encs[0], parts[0]) {
        forall i | 0 < i < |parts| ensures EncodedAs(encs[i], parts[i]) {
          assert EncodedAs(encs[1..][i - 1], parts[1..][i - 1]);
        }
      }
      if Admissible(parts[1..]) && parts[0] != "" && !DotSegment(parts[0]) {
        assert forall i :: 0 < i < |parts| ==> parts[i] == parts[1..][i - 1];
      }
    }
  }

  /**
   * Any percent-encoding of any list of admissible segments, slashes inside them included, joined
   * by '/' behind the prefix and surrounded by any number of slashes, splits back into that list.
   */
  lemma SplitInvertsEncoding(prefix: string, a: string, encs: seq<string>, b: string, parts: seq<string>)
    requires Slashes(a) && Slashes(b) && EncodedList(encs, parts) && Admissible(parts)
    ensures Parts(prefix + (a + Join(encs) + b), prefix) == Some(parts)
  {
    var path := a + Join(encs) + b;
    assert (prefix + path)[|prefix|..] == path;
    forall i | 0 <= i < |encs| ensures '/' !in encs[i] && encs[i] != "" {
      UnescapeInverts(encs[i], parts[i]);
    }
    if encs == [] {
      assert path == (a + b) + "";
      TrimLeftExtra(a + b, "");
    } else {
      JoinEnds(encs);
      TrimExtra(a, Join(encs), b);
      SplitOfJoin(encs);
      SegmentsMeaning(encs, parts);
    }
  }

  /** So does what the encoder makes of the segments, whatever bytes it escapes, '%' and '/' among them. */
  lemma SplitInvertsEncoder(prefix: string, a: string, parts: seq<string>, hows: seq<seq<Writing>>, b: string,
                            encs: seq<string>)
    requires Slashes(a) && Slashes(b) && Admissible(parts) && |hows| == |parts| == |encs|
    requires forall i :: 0 <= i < |parts| ==> Escapes(parts[i], hows[i]) && encs[i] == PercentEncode(parts[i], hows[i])
    ensures Parts(prefix + (a + Join(encs) + b), prefix) == Some(parts)
  {
    forall i | 0 <= i < |parts| ensures EncodedAs(encs[i], parts[i]) {
      UnescapeInvertsEncoder(parts[i], hows[i]);
    }
    SplitInvertsEncoding(prefix, a, encs, b, parts);
  }

  lemma {:induction false} TrimLeftSlashParts(s: string) returns (a: string)
    ensures Slashes(a) && s == a + TrimLeftSlashes(s)
  {
    if s == "" || s[0] != '/' {
      a := "";
    } else {
      var rest := TrimLeftSlashParts(s[1..]);
      a := s[..1] + rest;
      assert s == s[..1] + s[1..] && TrimLeftSlashes(s) == TrimLeftSlashes(s[1..]);
      assert a + TrimLeftSlashes(s) == s[..1] + (rest + TrimLeftSlashes(s));
    }
  }

  lemma {:induction false} TrimRightSlashParts(s: string) returns (b: string)
    ensures Slashes(b) && s == TrimRightSlashes(s) + b
  {
    if s == "" || s[|s| - 1] != '/' {
      b := "";
    } else {
      var n := |s| - 1;
      var rest := TrimRightSlashParts(s[..n]);
      b := rest + s[n..];
      assert s == s[..n] + s[n..];
    }
  }

  lemma TrimSlashParts(s: string) returns (a: string, b: string)
    ensures Slashes(a) && Slashes(b) && s == a + TrimSlashes(s) + b
  {
    a := TrimLeftSlashParts(s);
    b := TrimRightSlashParts(TrimLeftSlashes(s));
    assert s == a + (TrimSlashes(s) + b);
  }

  /** The text is the joined encodings of the parts with any number of slashes around them. */
  predicate JoinedEncoding(text: string, a: string, encs: seq<string>, b: string, parts: seq<string>) {
    EncodedList(encs, parts) && Slashes(a) && Slashes(b) && text == a + Join(encs) + b
  }

  /**
   * Conversely, what follows the prefix of an accepted path, or the whole path if it lacks the
   * prefix, is such a joined encoding, and yields admissible segments only.
   */
  lemma AcceptedIsEncoding(escaped: string, prefix: string)
    requires Parts(escaped, prefix).Some?
    ensures var parts := Parts(escaped, prefix).value;
            && Admissible(parts)
            && var text := if prefix <= escaped then escaped[|prefix|..] else escaped;
            exists a, encs, b :: JoinedEncoding(text, a, encs, b, parts)
  {
    var parts := Parts(escaped, prefix).value;
    var text := if prefix <= escaped then escaped[|prefix|..] else escaped;
    var rest := TrimSlashes(text);
    var a, b := TrimSlashParts(text);
    if rest == "" {
      assert JoinedEncoding(text, a, [], b, parts);
    } else {
      JoinOfSplit(rest);
      SegmentsMeaning(Split(rest), parts);
      assert JoinedEncoding(text, a, Split(rest), b, parts);
    }
  }

  /** A path without the prefix is split as a whole. */
  lemma WithoutPrefixWhole(prefix: string, a: string, encs: seq<string>, b: string, parts: seq<string>)
    requires Slashes(a) && Slashes(b) && EncodedList(encs, parts) && Admissible(parts)
    requires !(prefix <= a + Join(encs) + b)
    ensures Parts(a + Join(encs) + b, prefix) == Some(parts)
  {
    var path := a + Join(encs) + b;
    SplitInvertsEncoding("", a, encs, b, parts);
    assert "" + path == path && path[0..] == path;
  }

  // ---- Peer routes decode the key segment a second time ----

  lemma {:induction false} UnescapePlain(s: string)
    requires '%' !in s
    ensures Unescape(s) == Some(s)
  {
    if s == "" {
    } else {
      UnescapePlain(s[1..]);
      assert s == [s[0]] + s[1..];
    }
  }

  /**
   * Whatever percent-encoding a client chose for a peer's base64 key, the third segment of the
   * peer route is the key, and decoding it once more changes nothing.
   */
  lemma PeerRouteKey(bytes: seq<Byte>, encs: seq<string>, name: string, action: string)
    requires |bytes| == 32
    requires Admissible([name, action])
    requires EncodedList(encs, [name, "peers", Encode(bytes, false, true), action])
    ensures var key := Encode(bytes, false, true);
            && Parts("/api/servers/" + Join(encs), "/api/servers/") == Some([name, "peers", key, action])
            && Unescape(key) == Some(key)
            && IsValidWGKey(key)
  {
    var key := Encode(bytes, false, true);
    EncodedKeyValid(bytes);
    EncodedCharacters(bytes, false, true);
    UnescapePlain(key);
    assert Admissible([name, "peers", key, action]) by {
      assert name == [name, action][0] && action == [name, action][1];
    }
    SplitInvertsEncoding("/api/servers/", "", encs, "", [name, "peers", key, action]);
    assert "" + Join(encs) + "" == Join(encs);
  }
}
