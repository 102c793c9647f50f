/** `URLSearchParams` as the two views use it: building a query string with
    `set` and `toString`, and reading one back with the constructor and
    `get`. The encoding is application/x-www-form-urlencoded as the WHATWG
    URL Standard defines it (section 5, "application/x-www-form-urlencoded"):
    a few ASCII characters stand for themselves, a space becomes `+`, and
    every other byte of the UTF-8 form is written `%XY`. */
module UrlQuery {
  import opened Wrappers
  import Text

  datatype Param = Param(name: string, value: string)

  predicate Ascii(s: string) {
    forall i :: 0 <= i < |s| ==> s[i] as int < 0x80
  }

  /** The characters the serializer leaves as they are: `*-._`, digits and
      ASCII letters. */
  predicate Unreserved(c: char) {
    c == '*' || c == '-' || c == '.' || c == '_'
    || ('0' <= c <= '9') || ('A' <= c <= 'Z') || ('a' <= c <= 'z')
  }

  function HexDigit(n: nat): (c: char)
    requires n < 16
  {
    "0123456789ABCDEF"[n]
  }

  predicate IsHex(c: char) {
    ('0' <= c <= '9') || ('A' <= c <= 'F') || ('a' <= c <= 'f')
  }

  /** The value of a hexadecimal digit, in either case. */
  function HexValue(c: char): (n: nat)
    requires IsHex(c)
    ensures n < 16
  {
    if '0' <= c <= '9' then c as int - '0' as int
    else if 'A' <= c <= 'F' then c as int - 'A' as int + 10
    else c as int - 'a' as int + 10
  }

  lemma HexValueOfDigit(n: nat)
    requires n < 16
    ensures IsHex(HexDigit(n)) && HexValue(HexDigit(n)) == n
  {
  }

  /** `%XY` for one byte, upper-case hexadecimal. */
  function PercentByte(b: nat): (s: string)
    requires b < 256
    ensures |s| == 3 && s[0] == '%' && IsHex(s[1]) && IsHex(s[2])
  {
    ['%', HexDigit(b / 16), HexDigit(b % 16)]
  }

  /** The UTF-8 bytes of a code point. */
  function Utf8(c: char): (bs: seq<nat>)
    ensures 1 <= |bs| <= 4 && forall i :: 0 <= i < |bs| ==> bs[i] < 256
  {
    var n := c as int;
    if n < 0x80 then [n]
    else if n < 0x800 then [0xC0 + n / 64, 0x80 + n % 64]
    else if n < 0x10000 then [0xE0 + n / 4096, 0x80 + (n / 64) % 64, 0x80 + n % 64]
    else [0xF0 + n / 262144 % 8, 0x80 + (n / 4096) % 64, 0x80 + (n / 64) % 64, 0x80 + n % 64]
  }

  function PercentBytes(bs: seq<nat>): (s: string)
    requires forall i :: 0 <= i < |bs| ==> bs[i] < 256
    ensures |s| == 3 * |bs|
    ensures forall i :: 0 <= i < |s| ==> s[i] == '%' || IsHex(s[i])
  {
    if bs == [] then [] else PercentByte(bs[0]) + PercentBytes(bs[1..])
  }

  function EncodeChar(c: char): (s: string)
    ensures forall i :: 0 <= i < |s| ==> s[i] == c || s[i] == '+' || s[i] == '%' || IsHex(s[i])
  {
    if Unreserved(c) then [c]
    else if c == ' ' then "+"
    else PercentBytes(Utf8(c))
  }

  /** The form-urlencoded byte serializer on a name or a value. */
  function Encode(s: string): string {
    if s == [] then [] else EncodeChar(s[0]) + Encode(s[1..])
  }

  /** The characters an encoding is made of. */
  predicate EncodedChar(c: char) {
    c == '+' || c == '%' || IsHex(c) || Unreserved(c)
  }

  lemma {:induction false} EncodeAlphabet(s: string)
    ensures forall i :: 0 <= i < |Encode(s)| ==> EncodedChar(Encode(s)[i])
    decreases |s|
  {
    if s != [] {
      var h, t := EncodeChar(s[0]), Encode(s[1..]);
      EncodeAlphabet(s[1..]);
      assert Encode(s) == h + t;
      forall i | 0 <= i < |h + t| ensures EncodedChar((h + t)[i]) {
        if i >= |h| { assert (h + t)[i] == t[i - |h|]; }
      }
    }
  }

  /** The decoding of a name or a value: `+` is a space, and `%XY` with two
      hexadecimal digits is the byte `XY`; anything else stands for itself.
      (The standard first turns every `+` into a space and then decodes
      escapes; as neither `+` nor a space is a hexadecimal digit the two
      passes agree with this single one.) */
  function Decode(s: string): (t: string)
    decreases |s|
  {
    if s == [] then []
    else if s[0] == '+' then " " + Decode(s[1..])
    else if s[0] == '%' && |s| >= 3 && IsHex(s[1]) && IsHex(s[2]) && 16 * HexValue(s[1]) + HexValue(s[2]) < 0x80 then
      [(16 * HexValue(s[1]) + HexValue(s[2])) as char] + Decode(s[3..])
    else [s[0]] + Decode(s[1..])
  }

  lemma DecodeEncodeChar(c: char, t: string)
    requires c as int < 0x80
    ensures Decode(EncodeChar(c) + t) == [c] + Decode(t)
  {
    var e := EncodeChar(c);
    if Unreserved(c) {
      assert (e + t)[0] == c && (e + t)[1..] == t;
    } else if c == ' ' {
      assert (e + t)[1..] == t;
    } else {
      var b := c as int;
      HexValueOfDigit(b / 16);
      HexValueOfDigit(b % 16);
      assert e == PercentByte(b);
      assert (e + t)[3..] == t;
      assert 16 * HexValue(e[1]) + HexValue(e[2]) == b;
    }
  }

  /** Decoding undoes encoding on ASCII text. */
  lemma {:induction false} DecodeEncode(s: string)
    requires Ascii(s)
    ensures Decode(Encode(s)) == s
    decreases |s|
  {
    if s != [] {
      DecodeEncodeChar(s[0], Encode(s[1..]));
      assert Ascii(s[1..]) by {
        forall i | 0 <= i < |s[1..]| ensures s[1..][i] as int < 0x80 { assert s[1..][i] == s[i + 1]; }
      }
      DecodeEncode(s[1..]);
      assert s == [s[0]] + s[1..];
    }
  }

  /** An encoded name or value never contains the separators `&` and `=`. */
  lemma EncodeFree(s: string)
    ensures '&' !in Encode(s) && '=' !in Encode(s) && '?' !in Encode(s)
  {
    EncodeAlphabet(s);
  }

  // ---------------------------------------------------------------------
  // Whole query strings

  function Piece(p: Param): string {
    Encode(p.name) + "=" + Encode(p.value)
  }

  function Pieces(ps: seq<Param>): (r: seq<string>)
    ensures |r| == |ps| && forall i :: 0 <= i < |ps| ==> r[i] == Piece(ps[i])
  {
    if ps == [] then [] else [Piece(ps[0])] + Pieces(ps[1..])
  }

  /** `params.toString()`: `name=value` pairs joined by `&`. */
  function Serialize(ps: seq<Param>): string {
    Text.Join(Pieces(ps), "&")
  }

  /** One `&`-separated piece: name and value split at the first `=`, or the
      whole piece as a name with an empty value. */
  function ParsePiece(piece: string): Param {
    var k := Text.IndexOf(piece, "=");
    if k == -1 then Param(Decode(piece), "")
    else Param(Decode(piece[..k]), Decode(piece[k + 1..]))
  }

  /** The pieces that are not empty, parsed, in order. */
  function ParsePieces(pieces: seq<string>): (r: seq<Param>)
    ensures |r| <= |pieces|
  {
    if pieces == [] then []
    else (if pieces[0] == "" then [] else [ParsePiece(pieces[0])]) + ParsePieces(pieces[1..])
  }

  /** `new URLSearchParams(search)`: one leading `?` is dropped. */
  function Parse(search: string): seq<Param> {
    var q := if Text.StartsWith(search, "?") then search[1..] else search;
    ParsePieces(Text.Split(q, '&'))
  }

  /** `params.get(name)`: the value of the first pair with that name. */
  function Get(ps: seq<Param>, name: string): (r: Option<string>)
    ensures r.None? <==> forall i :: 0 <= i < |ps| ==> ps[i].name != name
    ensures r.Some? ==> exists i :: (0 <= i < |ps| && ps[i] == Param(name, r.value)
                                     && forall j :: 0 <= j < i ==> ps[j].name != name)
  {
    if ps == [] then None
    else if ps[0].name == name then Some(ps[0].value)
    else
      var r := Get(ps[1..], name);
      assert r.Some? ==> exists i :: (1 <= i < |ps| && ps[i] == Param(name, r.value)
                                      && forall j :: 0 <= j < i ==> ps[j].name != name) by {
        if r.Some? {
          var i :| 0 <= i < |ps[1..]| && ps[1..][i] == Param(name, r.value)
            && forall j :: 0 <= j < i ==> ps[1..][j].name != name;
          assert ps[i + 1] == Param(name, r.value);
          forall j | 0 <= j < i + 1 ensures ps[j].name != name {
            if j > 0 { assert ps[j] == ps[1..][j - 1]; }
          }
        }
      }
      r
  }

  /** `get` looks at the first pair, then at the rest. */
  lemma GetCons(p: Param, ps: seq<Param>, name: string)
    ensures Get([p] + ps, name) == if p.name == name then Some(p.value) else Get(ps, name)
  {
    assert ([p] + ps)[1..] == ps;
  }

  predicate AsciiParams(ps: seq<Param>) {
    forall i :: 0 <= i < |ps| ==> Ascii(ps[i].name) && Ascii(ps[i].value)
  }

  lemma ParsePieceOfPiece(p: Param)
    requires Ascii(p.name) && Ascii(p.value)
    ensures ParsePiece(Piece(p)) == p
  {
    var a, b := Encode(p.name), Encode(p.value);
    EncodeFree(p.name);
    Text.FirstSeparator(a, b, '=');
    var s := a + ['='] + b;
    assert Piece(p) == s;
    assert s[..|a|] == a && s[|a| + 1..] == b;
    DecodeEncode(p.name);
    DecodeEncode(p.value);
  }

  lemma PieceNotEmpty(p: Param)
    ensures Piece(p) != ""
  {
    assert Piece(p)[|Encode(p.name)|] == '=';
  }

  lemma {:induction false} ParsePiecesOfPieces(ps: seq<Param>)
    requires AsciiParams(ps)
    ensures ParsePieces(Pieces(ps)) == ps
    decreases |ps|
  {
    if ps != [] {
      PiecesCons(ps);
      ParsePieceOfPiece(ps[0]);
      AsciiTail(ps);
      ParsePiecesOfPieces(ps[1..]);
      assert ps == [ps[0]] + ps[1..];
    }
  }

  /** The first parameter's piece parses back on its own. */
  lemma PiecesCons(ps: seq<Param>)
    requires ps != []
    ensures ParsePieces(Pieces(ps)) == [ParsePiece(Piece(ps[0]))] + ParsePieces(Pieces(ps[1..]))
  {
    var pieces := Pieces(ps);
    assert pieces == [Piece(ps[0])] + Pieces(ps[1..]);
    PieceNotEmpty(ps[0]);
    assert pieces[1..] == Pieces(ps[1..]);
  }

  lemma AsciiTail(ps: seq<Param>)
    requires ps != [] && AsciiParams(ps)
    ensures Ascii(ps[0].name) && Ascii(ps[0].value) && AsciiParams(ps[1..])
  {
    forall i | 0 <= i < |ps[1..]| ensures Ascii(ps[1..][i].name) && Ascii(ps[1..][i].value) {
      assert ps[1..][i] == ps[i + 1];
    }
  }

  lemma SplitSerialized(ps: seq<Param>)
    requires ps != []
    ensures Text.Split(Serialize(ps), '&') == Pieces(ps)
  {
    var pieces := Pieces(ps);
    forall i | 0 <= i < |pieces| ensures '&' !in pieces[i] {
      EncodeFree(ps[i].name);
      EncodeFree(ps[i].value);
    }
    Text.SplitJoin(pieces, '&');
  }

  lemma PieceHead(p: Param)
    ensures Piece(p) != [] && Piece(p)[0] != '?'
  {
    var a := Encode(p.name);
    EncodeFree(p.name);
    var s := Piece(p);
    assert s[|a|] == '=';
    if |a| > 0 {
      assert s[0] == a[0] && a[0] in a;
    }
  }

  lemma SerializedHead(ps: seq<Param>)
    ensures !Text.StartsWith(Serialize(ps), "?")
  {
    if ps != [] {
      var pieces := Pieces(ps);
      var p0 := pieces[0];
      Text.JoinHead(pieces, "&");
      PieceHead(ps[0]);
      var s := Serialize(ps);
      assert s[..|p0|] == p0 && p0 != [] && p0[0] != '?';
      assert s[..|p0|][0] == s[0];
      assert s[..1][0] == s[0];
    }
  }

  /** Reading back a serialized query, with or without its `?`, gives the
      pairs that were set, provided they are ASCII text. */
  lemma ParseSerialize(ps: seq<Param>)
    requires AsciiParams(ps)
    ensures Parse(Serialize(ps)) == ps
    ensures Parse("?" + Serialize(ps)) == ps
  {
    var s := Serialize(ps);
    SerializedHead(ps);
    if ps == [] {
      assert Text.Split("", '&') == [""];
    } else {
      SplitSerialized(ps);
      ParsePiecesOfPieces(ps);
    }
    assert ("?" + s)[1..] == s;
  }
}
