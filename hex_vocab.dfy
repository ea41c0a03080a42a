/**
 * The vocabulary extractor: a text file of comma-separated hexadecimal byte values
 * (`0x7b, 0x22, ...`, possibly spread over several lines) becomes the UTF-8 text those
 * bytes encode. Newlines are turned into spaces, the text is split on commas, each
 * piece is stripped of whitespace, empty pieces are skipped, every other piece is read
 * as a base-16 integer, the integers become a byte array and the bytes are decoded as
 * strict UTF-8.
 *
 * Every step that can fail is an error value: a token that is not a base-16 literal,
 * a value outside 0..255, and bytes that are not well-formed UTF-8.
 */
module HexVocab {
  import opened Common

  datatype Error = BadToken(token: string) | ByteOutOfRange | BadUtf8

  datatype Result<T> = Ok(value: T) | Err(error: Error)

  // ---------------------------------------------------------------- text steps

  function Unbreak(c: char): char {
    if c == '\n' then ' ' else c
  }

  /** `data.replace("\n", " ")`. */
  function ReplaceNewlines(s: string): (r: string)
    ensures |r| == |s|
    ensures forall i :: 0 <= i < |s| ==> r[i] == Unbreak(s[i])
    ensures '\n' !in r
  {
    if |s| == 0 then [] else [Unbreak(s[0])] + ReplaceNewlines(s[1..])
  }

  function Count(s: string, c: char): nat {
    if |s| == 0 then 0 else (if s[0] == c then 1 else 0) + Count(s[1..], c)
  }

  /** The inverse of `Split`: the pieces with `sep` between consecutive ones. */
  function Join(parts: seq<string>, sep: char): string
    requires |parts| >= 1
  {
    if |parts| == 1 then parts[0] else parts[0] + [sep] + Join(parts[1..], sep)
  }

  /** `s.split(sep)` with an explicit separator. */
  function Split(s: string, sep: char): (r: seq<string>)
    ensures |r| >= 1
  {
    if |s| == 0 then [""]
    else
      var rest := Split(s[1..], sep);
      if s[0] == sep then [""] + rest
      else [[s[0]] + rest[0]] + rest[1..]
  }

  /** One more piece than there are separators, no piece holding the separator, and
      joining the pieces gives the string back. */
  lemma {:induction false} SplitPieces(s: string, sep: char)
    ensures |Split(s, sep)| == Count(s, sep) + 1
    ensures forall k :: 0 <= k < |Split(s, sep)| ==> sep !in Split(s, sep)[k]
    ensures Join(Split(s, sep), sep) == s
    decreases |s|
  {
    if |s| > 0 {
      var rest := Split(s[1..], sep);
      SplitPieces(s[1..], sep);
      var r := Split(s, sep);
      if s[0] == sep {
        assert r == [""] + rest;
        assert r[1..] == rest;
      } else {
        assert r == [[s[0]] + rest[0]] + rest[1..];
        assert r[1..] == rest[1..];
        assert forall k :: 1 <= k < |r| ==> r[k] == rest[k];
        assert sep !in [s[0]] + rest[0];
        if |rest| > 1 {
          assert Join(rest, sep) == rest[0] + [sep] + Join(rest[1..], sep);
        }
      }
    }
  }

  lemma {:induction false} SplitNoSep(x: string, sep: char)
    requires sep !in x
    ensures Split(x, sep) == [x]
    decreases |x|
  {
    if |x| > 0 {
      assert sep !in x[1..];
      SplitNoSep(x[1..], sep);
      assert [x[0]] + x[1..] == x;
    }
  }

  lemma {:induction false} SplitPrefix(x: string, sep: char, y: string)
    requires sep !in x
    ensures Split(x + [sep] + y, sep) == [x] + Split(y, sep)
    decreases |x|
  {
    var s := x + [sep] + y;
    if |x| == 0 {
      assert s[1..] == y;
    } else {
      assert s[1..] == x[1..] + [sep] + y;
      assert sep !in x[1..];
      SplitPrefix(x[1..], sep, y);
      assert [x[0]] + x[1..] == x;
    }
  }

  /** Splitting undoes joining whenever no piece holds the separator. */
  lemma {:induction false} SplitJoin(parts: seq<string>, sep: char)
    requires |parts| >= 1
    requires forall k :: 0 <= k < |parts| ==> sep !in parts[k]
    ensures Split(Join(parts, sep), sep) == parts
    decreases |parts|
  {
    if |parts| == 1 {
      SplitNoSep(parts[0], sep);
    } else {
      SplitJoin(parts[1..], sep);
      SplitPrefix(parts[0], sep, Join(parts[1..], sep));
      assert [parts[0]] + parts[1..] == parts;
    }
  }

  /** Turning newlines into spaces neither splits nor joins comma-separated pieces:
      the pieces are the original ones with their newlines turned into spaces. */
  lemma {:induction false} NewlinesKeepPieces(s: string)
    ensures var a := Split(s, ',');
      var b := Split(ReplaceNewlines(s), ',');
      |b| == |a| && forall k :: 0 <= k < |a| ==> b[k] == ReplaceNewlines(a[k])
    decreases |s|
  {
    if |s| > 0 {
      NewlinesKeepPieces(s[1..]);
      var t := ReplaceNewlines(s);
      assert t[1..] == ReplaceNewlines(s[1..]);
      var a, a' := Split(s, ','), Split(s[1..], ',');
      var b, b' := Split(t, ','), Split(t[1..], ',');
      if s[0] != ',' {
        assert ReplaceNewlines([s[0]] + a'[0]) == [Unbreak(s[0])] + ReplaceNewlines(a'[0]) by {
          assert ([s[0]] + a'[0])[1..] == a'[0];
        }
      }
    }
  }

  /** Python's `str.isspace`: the Unicode whitespace characters. */
  predicate IsSpace(c: char) {
    || c == ' ' || '\t' <= c <= '\r' || '\U{1c}' <= c <= '\U{1f}'
    || c == '\U{85}' || c == '\U{a0}' || c == '\U{1680}'
    || '\U{2000}' <= c <= '\U{200a}' || c == '\U{2028}' || c == '\U{2029}'
    || c == '\U{202f}' || c == '\U{205f}' || c == '\U{3000}'
  }

  function TrimLeft(s: string): string {
    if |s| > 0 && IsSpace(s[0]) then TrimLeft(s[1..]) else s
  }

  function TrimRight(s: string): string {
    if |s| > 0 && IsSpace(s[|s| - 1]) then TrimRight(s[..|s| - 1]) else s
  }

  /** `h.strip()`. */
  function Strip(s: string): string {
    TrimRight(TrimLeft(s))
  }

  lemma {:induction false} TrimLeftIsSuffix(s: string)
    ensures var r := TrimLeft(s);
      && |r| <= |s| && r == s[|s| - |r|..]
      && (forall i :: 0 <= i < |s| - |r| ==> IsSpace(s[i]))
      && (|r| > 0 ==> !IsSpace(r[0]))
    decreases |s|
  {
    if |s| > 0 && IsSpace(s[0]) {
      TrimLeftIsSuffix(s[1..]);
    }
  }

  lemma {:induction false} TrimRightIsPrefix(s: string)
    ensures var r := TrimRight(s);
      && |r| <= |s| && r == s[..|r|]
      && (forall i :: |r| <= i < |s| ==> IsSpace(s[i]))
      && (|r| > 0 ==> !IsSpace(r[|r| - 1]))
    decreases |s|
  {
    if |s| > 0 && IsSpace(s[|s| - 1]) {
      TrimRightIsPrefix(s[..|s| - 1]);
    }
  }

  /** Stripping gives the empty string exactly when the piece is all whitespace, and
      otherwise a slice of it that neither starts nor ends with whitespace, with only
      whitespace cut off on either side. */
  lemma StripIsTrimmedSlice(s: string)
    ensures |Strip(s)| == 0 <==> forall i :: 0 <= i < |s| ==> IsSpace(s[i])
    ensures |Strip(s)| > 0 ==> !IsSpace(Strip(s)[0]) && !IsSpace(Strip(s)[|Strip(s)| - 1])
    ensures var i, r := |s| - |TrimLeft(s)|, Strip(s);
      && 0 <= i <= i + |r| <= |s| && r == s[i..i + |r|]
      && (forall k :: 0 <= k < i ==> IsSpace(s[k]))
      && (forall k :: i + |r| <= k < |s| ==> IsSpace(s[k]))
  {
    var l := TrimLeft(s);
    TrimLeftIsSuffix(s);
    TrimRightIsPrefix(l);
    var r := Strip(s);
    var i := |s| - |l|;
    assert |l| > 0 ==> l[0] == s[i];
    assert r == s[i..i + |r|];
    assert forall k :: i + |r| <= k < |s| ==> s[k] == l[k - i];
  }

  // ------------------------------------------------------- base-16 literals

  function HexDigit(c: char): (r: Option<int>)
    ensures r.Some? ==> 0 <= r.value < 16
  {
    if '0' <= c <= '9' then Some(c as int - '0' as int)
    else if 'a' <= c <= 'f' then Some(c as int - 'a' as int + 10)
    else if 'A' <= c <= 'F' then Some(c as int - 'A' as int + 10)
    else None
  }

  predicate IsHexDigit(c: char) {
    HexDigit(c).Some?
  }

  /** The digit part of a literal: hex digits, with single underscores allowed
      between two digits. */
  predicate WellUnderscored(d: string) {
    && |d| > 0 && IsHexDigit(d[0]) && IsHexDigit(d[|d| - 1])
    && (forall i :: 0 <= i < |d| ==> IsHexDigit(d[i]) || d[i] == '_')
    && (forall i :: 0 <= i < |d| - 1 ==> d[i] == '_' ==> d[i + 1] != '_')
  }

  function DropUnderscores(d: string): (r: string)
    ensures (forall i :: 0 <= i < |d| ==> IsHexDigit(d[i]) || d[i] == '_') ==>
      (forall i :: 0 <= i < |r| ==> IsHexDigit(r[i]))
  {
    if |d| == 0 then []
    else if d[|d| - 1] == '_' then DropUnderscores(d[..|d| - 1])
    else DropUnderscores(d[..|d| - 1]) + [d[|d| - 1]]
  }

  /** The value of a string of hex digits, most significant first. */
  function HexValue(ds: string): nat
    requires forall i :: 0 <= i < |ds| ==> IsHexDigit(ds[i])
  {
    if |ds| == 0 then 0
    else
      assert IsHexDigit(ds[|ds| - 1]);
      HexValue(ds[..|ds| - 1]) * 16 + HexDigit(ds[|ds| - 1]).value
  }

  /** The digit scan of a literal, from its last digit back: a hex digit, possibly
      preceded by one underscore and then by a shorter well-formed digit string. */
  function DigitsValue(d: string): (r: Option<nat>)
    decreases |d|
  {
    if |d| == 0 then None
    else match HexDigit(d[|d| - 1])
      case None => None
      case Some(x) =>
        if |d| == 1 then Some(x)
        else
          match DigitsValue(Before(d))
          case None => None
          case Some(v) => Some(v * 16 + x)
  }

  lemma HexValueSnoc(ds: string, c: char)
    requires forall i :: 0 <= i < |ds| ==> IsHexDigit(ds[i])
    requires IsHexDigit(c)
    ensures HexValue(ds + [c]) == HexValue(ds) * 16 + HexDigit(c).value
  {
    assert (ds + [c])[..|ds|] == ds;
  }

  /** The string the scan recurses on: `d` without its last digit and without one
      underscore in front of it. */
  function Before(d: string): (r: string)
    requires |d| >= 2
    ensures |r| < |d| - 1 || r == d[..|d| - 1]
    ensures forall i :: 0 <= i < |r| ==> r[i] == d[i]
  {
    var init := d[..|d| - 1];
    if init[|init| - 1] == '_' then init[..|init| - 1] else init
  }

  lemma WellUnderscoredStep(d: string)
    requires |d| >= 2 && IsHexDigit(d[|d| - 1])
    ensures WellUnderscored(d) <==> |Before(d)| > 0 && WellUnderscored(Before(d))
  {
    var n := |d|;
    var b := Before(d);
    if d[n - 2] == '_' {
      assert |b| == n - 2;
      if WellUnderscored(d) {
        assert n - 2 > 0;
        assert d[n - 3] != '_';
        assert b[|b| - 1] == d[n - 3];
      }
      if |b| > 0 && WellUnderscored(b) {
        assert d[n - 3] == b[|b| - 1];
        assert forall i :: 0 <= i < n - 1 ==> d[i] == '_' ==> d[i + 1] != '_' by {
          forall i | 0 <= i < n - 1 && d[i] == '_'
            ensures d[i + 1] != '_'
          {
            if i < n - 3 {
              assert b[i] == d[i] && b[i + 1] == d[i + 1];
            }
          }
        }
      }
    } else {
      assert b == d[..n - 1];
      if |b| > 0 && WellUnderscored(b) {
        assert IsHexDigit(d[n - 2]);
        assert forall i :: 0 <= i < n - 1 ==> d[i] == '_' ==> d[i + 1] != '_' by {
          forall i | 0 <= i < n - 1 && d[i] == '_'
            ensures d[i + 1] != '_'
          {
            if i < n - 2 {
              assert b[i] == d[i] && b[i + 1] == d[i + 1];
            }
          }
        }
      }
    }
  }

  lemma DropUnderscoresStep(d: string)
    requires |d| >= 2 && d[|d| - 1] != '_'
    ensures DropUnderscores(d) == DropUnderscores(Before(d)) + [d[|d| - 1]]
  {
    var init := d[..|d| - 1];
    if init[|init| - 1] == '_' {
      assert init[..|init| - 1] == Before(d);
    }
  }

  /** The scan accepts exactly the well-formed digit strings, and computes the value
      of their digits with the underscores dropped. */
  lemma {:induction false} DigitsValueIsLiteral(d: string)
    ensures DigitsValue(d).Some? <==> WellUnderscored(d)
    ensures DigitsValue(d).Some? ==> DigitsValue(d).value == HexValue(DropUnderscores(d))
    decreases |d|
  {
    if |d| == 1 {
      assert d[..0] == [];
    } else if |d| >= 2 && IsHexDigit(d[|d| - 1]) {
      var b := Before(d);
      var x := HexDigit(d[|d| - 1]).value;
      DigitsValueIsLiteral(b);
      WellUnderscoredStep(d);
      DropUnderscoresStep(d);
      assert DigitsValue(d) == (if DigitsValue(b).Some? then Some(DigitsValue(b).value * 16 + x) else None);
      if DigitsValue(b).Some? {
        HexValueSnoc(DropUnderscores(b), d[|d| - 1]);
      }
    }
  }

  /**
   * `int(t, 16)` on an already stripped token: an optional sign, an optional `0x`
   * or `0X` prefix (which may be followed by one underscore), then hex digits with
   * single underscores between them. Anything else is None (a `ValueError`).
   */
  function ParseHex(t: string): (r: Option<int>)
    ensures |t| == 0 ==> r.None?
  {
    var neg := |t| > 0 && t[0] == '-';
    var u := if |t| > 0 && (t[0] == '-' || t[0] == '+') then t[1..] else t;
    var d := if |u| >= 2 && u[0] == '0' && (u[1] == 'x' || u[1] == 'X') then
        (if |u| >= 3 && u[2] == '_' then u[3..] else u[2..])
      else u;
    match DigitsValue(d)
    case None => None
    case Some(n) => Some(if neg then -(n as int) else n)
  }

  function HexChar(n: int): char
    requires 0 <= n < 16
  {
    if n < 10 then ('0' as int + n) as char else ('a' as int + n - 10) as char
  }

  /** The `0x%02x` spelling of a byte, as the vocabulary dumps are written. */
  function FormatHex(b: byte): string {
    "0x" + [HexChar(b as int / 16), HexChar(b as int % 16)]
  }

  /** `int(..., 16)` reads every byte's `0x%02x` spelling back as that byte. */
  lemma ParseFormatHex(b: byte)
    ensures ParseHex(FormatHex(b)) == Some(b as int)
  {
    var t := FormatHex(b);
    var d := t[2..];
    assert d == [HexChar(b as int / 16), HexChar(b as int % 16)];
    assert HexDigit(d[0]) == Some(b as int / 16);
    assert HexDigit(d[1]) == Some(b as int % 16);
    assert Before(d) == d[..1];
    assert DigitsValue(d[..1]) == Some(b as int / 16);
  }

  // ------------------------------------------------------------ token values

  /** The non-empty stripped pieces, in order: the tokens that name bytes. */
  function Kept(pieces: seq<string>): (r: seq<string>)
    ensures forall k :: 0 <= k < |r| ==> |r[k]| > 0
  {
    if |pieces| == 0 then []
    else
      var h := Strip(pieces[|pieces| - 1]);
      Kept(pieces[..|pieces| - 1]) + (if |h| == 0 then [] else [h])
  }

  /** The values the loop collects from the pieces, or the first token that is not
      a base-16 literal. */
  function Values(pieces: seq<string>): Result<seq<int>> {
    if |pieces| == 0 then Ok([])
    else
      match Values(pieces[..|pieces| - 1])
      case Err(e) => Err(e)
      case Ok(vs) =>
        var h := Strip(pieces[|pieces| - 1]);
        if |h| == 0 then Ok(vs)
        else match ParseHex(h)
          case None => Err(BadToken(h))
          case Some(v) => Ok(vs + [v])
  }

  /** Each token read as a base-16 literal, in order, or the first one that is not. */
  function ParseAll(tokens: seq<string>): Result<seq<int>> {
    if |tokens| == 0 then Ok([])
    else
      match ParseAll(tokens[..|tokens| - 1])
      case Err(e) => Err(e)
      case Ok(vs) =>
        var h := tokens[|tokens| - 1];
        match ParseHex(h)
        case None => Err(BadToken(h))
        case Some(v) => Ok(vs + [v])
  }

  /** Skipping empty pieces while parsing is parsing the non-empty tokens. */
  lemma {:induction false} ValuesParseKept(pieces: seq<string>)
    ensures Values(pieces) == ParseAll(Kept(pieces))
    decreases |pieces|
  {
    if |pieces| > 0 {
      var init := pieces[..|pieces| - 1];
      ValuesParseKept(init);
      var h := Strip(pieces[|pieces| - 1]);
      var K0 := Kept(init);
      if |h| > 0 {
        var K := K0 + [h];
        assert Kept(pieces) == K;
        assert K[..|K0|] == K0 && K[|K0|] == h;
        if Values(init).Ok? {
          var vs := Values(init).value;
          if ParseHex(h).None? {
            assert Values(pieces) == Err(BadToken(h)) == ParseAll(K);
          } else {
            assert Values(pieces) == Ok(vs + [ParseHex(h).value]) == ParseAll(K);
          }
        } else {
          assert Values(pieces) == Values(init);
          assert ParseAll(K) == ParseAll(K0);
        }
      } else {
        assert Kept(pieces) == K0;
        assert Values(pieces) == Values(init);
      }
    }
  }

  /** One step of `ParseAll` on a list that parses: the values of all but the last
      token, then the last token's value. */
  lemma ParseAllStep(tokens: seq<string>)
    requires |tokens| > 0 && ParseAll(tokens).Ok?
    ensures var init := tokens[..|tokens| - 1];
      ParseAll(init).Ok? && ParseHex(tokens[|tokens| - 1]).Some? &&
      ParseAll(tokens).value == ParseAll(init).value + [ParseHex(tokens[|tokens| - 1]).value]
  {
  }

  /** One value per token, in order. */
  lemma {:induction false} ParseAllOnePerToken(tokens: seq<string>)
    requires ParseAll(tokens).Ok?
    ensures |ParseAll(tokens).value| == |tokens|
    ensures forall k :: 0 <= k < |tokens| ==> ParseHex(tokens[k]) == Some(ParseAll(tokens).value[k])
    decreases |tokens|
  {
    if |tokens| > 0 {
      var init := tokens[..|tokens| - 1];
      ParseAllStep(tokens);
      ParseAllOnePerToken(init);
      var vs, ws := ParseAll(tokens).value, ParseAll(init).value;
      forall k | 0 <= k < |tokens|
        ensures ParseHex(tokens[k]) == Some(vs[k])
      {
        if k < |init| {
          assert tokens[k] == init[k] && vs[k] == ws[k];
        }
      }
    }
  }

  lemma {:induction false} ParseAllOkWhenTokensParse(tokens: seq<string>)
    requires forall k :: 0 <= k < |tokens| ==> ParseHex(tokens[k]).Some?
    ensures ParseAll(tokens).Ok?
    decreases |tokens|
  {
    if |tokens| > 0 {
      var init := tokens[..|tokens| - 1];
      assert forall k :: 0 <= k < |init| ==> tokens[k] == init[k];
      ParseAllOkWhenTokensParse(init);
    }
  }

  /** The loop's values: it succeeds exactly when every non-empty token is a base-16
      literal, and then there is one value per non-empty token, in input order. */
  lemma ValuesOnePerToken(pieces: seq<string>)
    ensures Values(pieces).Ok? <==>
      forall k :: 0 <= k < |Kept(pieces)| ==> ParseHex(Kept(pieces)[k]).Some?
    ensures Values(pieces).Ok? ==>
      |Values(pieces).value| == |Kept(pieces)| &&
      forall k :: 0 <= k < |Kept(pieces)| ==>
        ParseHex(Kept(pieces)[k]) == Some(Values(pieces).value[k])
  {
    ValuesParseKept(pieces);
    var K := Kept(pieces);
    if ParseAll(K).Ok? {
      ParseAllOnePerToken(K);
    }
    if forall k :: 0 <= k < |K| ==> ParseHex(K[k]).Some? {
      ParseAllOkWhenTokensParse(K);
    }
  }

  /** Once a prefix of the pieces fails, the whole collection fails the same way. */
  lemma {:induction false} ValuesErrorSticks(pieces: seq<string>, i: nat)
    requires i <= |pieces| && Values(pieces[..i]).Err?
    ensures Values(pieces) == Values(pieces[..i])
    decreases |pieces| - i
  {
    if i < |pieces| {
      assert pieces[..i + 1][..i] == pieces[..i];
      ValuesErrorSticks(pieces, i + 1);
    } else {
      assert pieces[..i] == pieces;
    }
  }

  /** `bytearray(bytes_list)`: every value must be in 0..255. */
  function ToBytes(vs: seq<int>): (r: Result<seq<byte>>)
    ensures r.Ok? <==> forall k :: 0 <= k < |vs| ==> 0 <= vs[k] < 256
    ensures r.Ok? ==> |r.value| == |vs| && forall k :: 0 <= k < |vs| ==> r.value[k] as int == vs[k]
    ensures r.Err? ==> r.error == ByteOutOfRange
  {
    if forall k :: 0 <= k < |vs| ==> 0 <= vs[k] < 256 then
      Ok(seq(|vs|, k requires 0 <= k < |vs| => vs[k] as byte))
    else Err(ByteOutOfRange)
  }

  // ------------------------------------------------------------------ UTF-8

  predicate Cont(b: byte) {
    0x80 <= b <= 0xBF
  }

  /** The UTF-8 encoding of one Unicode scalar value. */
  function EncodeChar(c: char): (r: seq<byte>)
    ensures 1 <= |r| <= 4
  {
    var v := c as int;
    if v < 0x80 then [v as byte]
    else if v < 0x800 then [(0xC0 + v / 64) as byte, (0x80 + v % 64) as byte]
    else if v < 0x1_0000 then
      [(0xE0 + v / 4096) as byte, (0x80 + v / 64 % 64) as byte, (0x80 + v % 64) as byte]
    else
      [(0xF0 + v / 262144) as byte, (0x80 + v / 4096 % 64) as byte,
       (0x80 + v / 64 % 64) as byte, (0x80 + v % 64) as byte]
  }

  function EncodeString(s: string): (r: seq<byte>) {
    if |s| == 0 then [] else EncodeChar(s[0]) + EncodeString(s[1..])
  }

  lemma Split64(q: int, r: int)
    requires 0 <= r < 64
    ensures (q * 64 + r) / 64 == q && (q * 64 + r) % 64 == r
  {
  }

  /** The character of a well-formed two-byte sequence. */
  function Char2(b0: byte, b1: byte): (c: char)
    requires 0xC2 <= b0 <= 0xDF && Cont(b1)
    ensures EncodeChar(c) == [b0, b1]
  {
    var x, y := b0 as int - 0xC0, b1 as int - 0x80;
    Split64(x, y);
    (x * 64 + y) as char
  }

  /** The character of a well-formed three-byte sequence: no overlong form, no surrogate. */
  function Char3(b0: byte, b1: byte, b2: byte): (c: char)
    requires 0xE0 <= b0 <= 0xEF && Cont(b1) && Cont(b2)
    requires b0 == 0xE0 ==> b1 >= 0xA0
    requires b0 == 0xED ==> b1 <= 0x9F
    ensures EncodeChar(c) == [b0, b1, b2]
  {
    var x, y, z := b0 as int - 0xE0, b1 as int - 0x80, b2 as int - 0x80;
    var v := (x * 64 + y) * 64 + z;
    Split64(x * 64 + y, z);
    Split64(x, y);
    assert v / 4096 == x by {
      assert v / 4096 == (v / 64) / 64;
    }
    v as char
  }

  /** The character of a well-formed four-byte sequence: no overlong form, nothing above U+10FFFF. */
  function Char4(b0: byte, b1: byte, b2: byte, b3: byte): (c: char)
    requires 0xF0 <= b0 <= 0xF4 && Cont(b1) && Cont(b2) && Cont(b3)
    requires b0 == 0xF0 ==> b1 >= 0x90
    requires b0 == 0xF4 ==> b1 <= 0x8F
    ensures EncodeChar(c) == [b0, b1, b2, b3]
  {
    var w, x, y, z := b0 as int - 0xF0, b1 as int - 0x80, b2 as int - 0x80, b3 as int - 0x80;
    var v := ((w * 64 + x) * 64 + y) * 64 + z;
    Split64((w * 64 + x) * 64 + y, z);
    Split64(w * 64 + x, y);
    Split64(w, x);
    assert v / 4096 == w * 64 + x by {
      assert v / 4096 == (v / 64) / 64;
    }
    assert v / 262144 == w by {
      assert v / 262144 == (v / 4096) / 64;
    }
    v as char
  }

  /**
   * The first character of a strict UTF-8 byte sequence and its length, following
   * the well-formed sequences of the Unicode Standard's table 3-7: no overlong forms,
   * no surrogates, nothing above U+10FFFF. Its bytes are that character's encoding.
   */
  function DecodeFirst(bs: seq<byte>): (r: Option<(char, nat)>)
    requires |bs| > 0
    ensures r.Some? ==> 1 <= r.value.1 <= |bs| && bs[..r.value.1] == EncodeChar(r.value.0)
  {
    var b0 := bs[0];
    if b0 < 0x80 then
      assert bs[..1] == [b0];
      Some((b0 as char, 1))
    else if 0xC2 <= b0 <= 0xDF then
      if |bs| >= 2 && Cont(bs[1]) then
        assert bs[..2] == [b0, bs[1]];
        Some((Char2(b0, bs[1]), 2))
      else None
    else if 0xE0 <= b0 <= 0xEF then
      var lo: byte := if b0 == 0xE0 then 0xA0 else 0x80;
      var hi: byte := if b0 == 0xED then 0x9F else 0xBF;
      if |bs| >= 3 && lo <= bs[1] <= hi && Cont(bs[2]) then
        assert bs[..3] == [b0, bs[1], bs[2]];
        Some((Char3(b0, bs[1], bs[2]), 3))
      else None
    else if 0xF0 <= b0 <= 0xF4 then
      var lo: byte := if b0 == 0xF0 then 0x90 else 0x80;
      var hi: byte := if b0 == 0xF4 then 0x8F else 0xBF;
      if |bs| >= 4 && lo <= bs[1] <= hi && Cont(bs[2]) && Cont(bs[3]) then
        assert bs[..4] == [b0, bs[1], bs[2], bs[3]];
        Some((Char4(b0, bs[1], bs[2], bs[3]), 4))
      else None
    else None
  }

  /** `bytes.decode("utf-8")` in strict mode: None is a `UnicodeDecodeError`. */
  function DecodeUtf8(bs: seq<byte>): (r: Option<string>)
    decreases |bs|
  {
    if |bs| == 0 then Some([])
    else match DecodeFirst(bs)
      case None => None
      case Some(cn) =>
        match DecodeUtf8(bs[cn.1..])
        case None => None
        case Some(rest) => Some([cn.0] + rest)
  }

  /** One step of `DecodeUtf8`: the first character, then the decoding of the rest. */
  lemma DecodeStep(bs: seq<byte>)
    requires |bs| > 0 && DecodeUtf8(bs).Some?
    ensures DecodeFirst(bs).Some?
    ensures var n := DecodeFirst(bs).value.1;
      DecodeUtf8(bs[n..]).Some? && DecodeUtf8(bs).value == [DecodeFirst(bs).value.0] + DecodeUtf8(bs[n..]).value
  {
  }

  /** One step of `EncodeString`: a character's encoding followed by the rest's. */
  lemma EncodeStep(bs: seq<byte>, c: char, n: nat, rest: string)
    requires 1 <= n <= |bs| && bs[..n] == EncodeChar(c) && EncodeString(rest) == bs[n..]
    ensures EncodeString([c] + rest) == bs
  {
    var s := [c] + rest;
    assert s[0] == c && s[1..] == rest;
    assert bs == bs[..n] + bs[n..];
  }

  /** Decoding gives back the exact bytes when re-encoded. */
  lemma {:induction false} DecodeThenEncode(bs: seq<byte>)
    requires DecodeUtf8(bs).Some?
    ensures EncodeString(DecodeUtf8(bs).value) == bs
    decreases |bs|
  {
    if |bs| > 0 {
      DecodeStep(bs);
      var cn := DecodeFirst(bs).value;
      DecodeThenEncode(bs[cn.1..]);
      EncodeStep(bs, cn.0, cn.1, DecodeUtf8(bs[cn.1..]).value);
    }
  }

  lemma DecodeFirstOfEncoding(c: char, rest: seq<byte>)
    ensures var bs := EncodeChar(c) + rest;
      DecodeFirst(bs) == Some((c, |EncodeChar(c)|))
  {
    var v := c as int;
    var bs := EncodeChar(c) + rest;
    if v >= 0x80 {
      Split64(v / 64, v % 64);
      Split64(v / 4096, v / 64 % 64);
      assert v / 4096 == (v / 64) / 64;
      assert v / 262144 == (v / 4096) / 64;
    }
    var r := DecodeFirst(bs);
    assert r.Some?;
    assert bs[..r.value.1] == EncodeChar(r.value.0);
    assert r.value.1 == |EncodeChar(c)| by {
      assert bs[0] == EncodeChar(c)[0];
    }
    CharOfEncoding(r.value.0, c);
  }

  lemma CharOfEncoding(c: char, d: char)
    requires EncodeChar(c) == EncodeChar(d)
    ensures c == d
  {
    var u, v := c as int, d as int;
    Split64(u / 64, u % 64);
    Split64(v / 64, v % 64);
    Split64(u / 4096, u / 64 % 64);
    Split64(v / 4096, v / 64 % 64);
    assert u / 4096 == (u / 64) / 64 && v / 4096 == (v / 64) / 64;
    assert u / 262144 == (u / 4096) / 64 && v / 262144 == (v / 4096) / 64;
  }

  /** Encoding then decoding is the identity on text. */
  lemma {:induction false} EncodeThenDecode(s: string)
    ensures DecodeUtf8(EncodeString(s)) == Some(s)
    decreases |s|
  {
    if |s| > 0 {
      var bs := EncodeString(s);
      DecodeFirstOfEncoding(s[0], EncodeString(s[1..]));
      assert bs[|EncodeChar(s[0])|..] == EncodeString(s[1..]);
      EncodeThenDecode(s[1..]);
      assert [s[0]] + s[1..] == s;
    }
  }

  // ---------------------------------------------------------------- pipeline

  function Pieces(data: string): seq<string> {
    Split(ReplaceNewlines(data), ',')
  }

  /** The text written to the output file, or the error that ends the script. */
  function Decoded(data: string): Result<string> {
    match Values(Pieces(data))
    case Err(e) => Err(e)
    case Ok(vs) =>
      match ToBytes(vs)
      case Err(e) => Err(e)
      case Ok(bs) =>
        match DecodeUtf8(bs)
        case None => Err(BadUtf8)
        case Some(t) => Ok(t)
  }

  /** `hexfile_to_text` on the text read from the input file: the loop that appends
      each non-empty token's value to the byte list, then the conversions. */
  method HexFileToText(data: string) returns (r: Result<string>)
    ensures r == Decoded(data)
  {
    var hexValues := ReplaceNewlines(data);
    var pieces := Split(hexValues, ',');
    var bytesList: seq<int> := [];
    var i := 0;
    while i < |pieces|
      invariant 0 <= i <= |pieces|
      invariant Values(pieces[..i]) == Ok(bytesList)
    {
      assert pieces[..i + 1][..i] == pieces[..i];
      var h := Strip(pieces[i]);
      if |h| > 0 {
        var v := ParseHex(h);
        if v.None? {
          ValuesErrorSticks(pieces, i + 1);
          return Err(BadToken(h));
        }
        bytesList := bytesList + [v.value];
      }
      i := i + 1;
    }
    assert pieces[..i] == pieces;
    var raw := ToBytes(bytesList);
    if raw.Err? {
      return Err(raw.error);
    }
    var text := DecodeUtf8(raw.value);
    if text.None? {
      return Err(BadUtf8);
    }
    r := Ok(text.value);
  }

  /** The output file (written as UTF-8) holds exactly the bytes the tokens name. */
  lemma OutputIsTokenBytes(data: string)
    requires Decoded(data).Ok?
    ensures Values(Pieces(data)).Ok?
    ensures var vs := Values(Pieces(data)).value;
      var out := EncodeString(Decoded(data).value);
      |out| == |vs| && forall k :: 0 <= k < |vs| ==> out[k] as int == vs[k]
  {
    var bs := ToBytes(Values(Pieces(data)).value).value;
    DecodeThenEncode(bs);
  }

  /** A dump in the usual layout: every byte as `0x%02x` followed by a comma, and a
      final line break. */
  function Body(bs: seq<byte>): string {
    if |bs| == 0 then [] else FormatHex(bs[0]) + [','] + Body(bs[1..])
  }

  function Dump(bs: seq<byte>): string {
    Body(bs) + "\n"
  }

  function Formatted(bs: seq<byte>): (r: seq<string>)
    ensures |r| == |bs| && forall k :: 0 <= k < |bs| ==> r[k] == FormatHex(bs[k])
  {
    seq(|bs|, k requires 0 <= k < |bs| => FormatHex(bs[k]))
  }

  lemma FormatHexPlain(b: byte)
    ensures ',' !in FormatHex(b) && '\n' !in FormatHex(b)
  {
    var f := FormatHex(b);
    assert forall i :: 0 <= i < |f| ==> f[i] == '0' || f[i] == 'x' || IsHexDigit(f[i]);
  }

  lemma {:induction false} BodyHasNoNewline(bs: seq<byte>)
    ensures '\n' !in Body(bs)
    decreases |bs|
  {
    if |bs| > 0 {
      BodyHasNoNewline(bs[1..]);
      FormatHexPlain(bs[0]);
    }
  }

  /** The first byte's spelling and comma, then the rest of the dump body. */
  lemma BodyCons(bs: seq<byte>)
    requires |bs| > 0
    ensures Body(bs) + " " == FormatHex(bs[0]) + [','] + (Body(bs[1..]) + " ")
    ensures Formatted(bs) == [FormatHex(bs[0])] + Formatted(bs[1..])
  {
  }

  lemma {:induction false} BodyPieces(bs: seq<byte>)
    ensures Split(Body(bs) + " ", ',') == Formatted(bs) + [" "]
    decreases |bs|
  {
    if |bs| == 0 {
      SplitNoSep(" ", ',');
    } else {
      BodyPieces(bs[1..]);
      FormatHexPlain(bs[0]);
      BodyCons(bs);
      SplitPrefix(FormatHex(bs[0]), ',', Body(bs[1..]) + " ");
    }
  }

  lemma {:induction false} NoNewlineUnchanged(s: string)
    requires '\n' !in s
    ensures ReplaceNewlines(s) == s
  {
  }

  lemma StripFormatted(b: byte)
    ensures Strip(FormatHex(b)) == FormatHex(b)
  {
    var f := FormatHex(b);
    assert !IsSpace(f[0]) && !IsSpace(f[|f| - 1]);
  }

  lemma KeptSnoc(pieces: seq<string>, p: string)
    ensures Kept(pieces + [p]) == Kept(pieces) + (if |Strip(p)| == 0 then [] else [Strip(p)])
  {
    assert (pieces + [p])[..|pieces|] == pieces;
  }

  /** Pieces that are already stripped and non-empty are all kept, unchanged. */
  lemma {:induction false} KeptStripped(pieces: seq<string>)
    requires forall k :: 0 <= k < |pieces| ==> |pieces[k]| > 0 && Strip(pieces[k]) == pieces[k]
    ensures Kept(pieces) == pieces
    decreases |pieces|
  {
    if |pieces| > 0 {
      var n := |pieces|;
      KeptStripped(pieces[..n - 1]);
      KeptSnoc(pieces[..n - 1], pieces[n - 1]);
      assert pieces[..n - 1] + [pieces[n - 1]] == pieces;
    }
  }

  lemma KeptFormatted(bs: seq<byte>)
    ensures Kept(Formatted(bs)) == Formatted(bs)
  {
    var F := Formatted(bs);
    forall k | 0 <= k < |F|
      ensures |F[k]| > 0 && Strip(F[k]) == F[k]
    {
      StripFormatted(bs[k]);
    }
    KeptStripped(F);
  }

  /** The pieces of a dump are the bytes' spellings and a trailing blank piece. */
  lemma DumpPieces(bs: seq<byte>)
    ensures Pieces(Dump(bs)) == Formatted(bs) + [" "]
  {
    BodyPieces(bs);
    BodyHasNoNewline(bs);
    NoNewlineUnchanged(Body(bs));
    var d := Dump(bs);
    assert ReplaceNewlines(d) == Body(bs) + " " by {
      assert forall i :: 0 <= i < |Body(bs)| ==> d[i] == Body(bs)[i];
    }
  }

  /** The values read from a dump are its bytes. */
  lemma DumpValues(bs: seq<byte>)
    ensures var vs := Values(Pieces(Dump(bs)));
      vs.Ok? && |vs.value| == |bs| && forall k :: 0 <= k < |bs| ==> vs.value[k] == bs[k] as int
  {
    DumpPieces(bs);
    var F := Formatted(bs);
    var pieces := F + [" "];
    assert pieces[..|pieces| - 1] == F;
    assert Strip(" ") == "";
    assert Kept(pieces) == Kept(F);
    KeptFormatted(bs);
    ValuesParseKept(pieces);
    forall k | 0 <= k < |F|
      ensures ParseHex(F[k]) == Some(bs[k] as int)
    {
      ParseFormatHex(bs[k]);
    }
    ParseAllOkWhenTokensParse(F);
    ParseAllOnePerToken(F);
  }

  /** Extracting a dump of UTF-8 text gives back that text. */
  lemma DumpRoundTrip(t: string)
    ensures Decoded(Dump(EncodeString(t))) == Ok(t)
  {
    var bs := EncodeString(t);
    DumpValues(bs);
    var vs := Values(Pieces(Dump(bs))).value;
    assert ToBytes(vs).value == bs;
    EncodeThenDecode(t);
  }
}
