/** The browser's `URLSearchParams` as the search form uses it: `set`,
    `get`, `toString` (application/x-www-form-urlencoded serialization) and
    the constructor that parses `window.location.search`. */
module FormUrlEncoded {
  import Text
  import opened Optional

  type Pairs = seq<(string, string)>

  /** Characters the serializer writes as they are. */
  predicate Unescaped(c: char) {
    ('a' <= c <= 'z') || ('A' <= c <= 'Z') || ('0' <= c <= '9') || c == '*' || c == '-' || c == '.' || c == '_'
  }

  predicate IsHex(c: char) {
    ('0' <= c <= '9') || ('A' <= c <= 'F') || ('a' <= c <= 'f')
  }

  predicate IsAscii(c: char) { c as int < 128 }

  predicate AsciiText(s: string) {
    forall c | c in s :: IsAscii(c)
  }

  function HexDigit(d: nat): (c: char)
    requires d < 16
    ensures IsHex(c) && '0' <= c <= 'F'
  {
    if d < 10 then ('0' as int + d) as char else ('A' as int + d - 10) as char
  }

  function HexValue(c: char): (d: nat)
    requires IsHex(c)
    ensures d < 16
  {
    if '0' <= c <= '9' then c as int - '0' as int
    else if 'A' <= c <= 'F' then c as int - 'A' as int + 10
    else c as int - 'a' as int + 10
  }

  /** The UTF-8 bytes of one character. */
  function Utf8(c: char): (bs: seq<nat>)
    ensures 1 <= |bs| <= 4
    ensures forall i :: 0 <= i < |bs| ==> bs[i] < 256
    ensures IsAscii(c) ==> bs == [c as int]
  {
    var v := c as int;
    if v < 0x80 then [v]
    else if v < 0x800 then [0xC0 + v / 64, 0x80 + v % 64]
    else if v < 0x1_0000 then [0xE0 + v / 4096, 0x80 + (v / 64) % 64, 0x80 + v % 64]
    else [0xF0 + v / 262144, 0x80 + (v / 4096) % 64, 0x80 + (v / 64) % 64, 0x80 + v % 64]
  }

  /** `%XY` for each byte, with upper-case hex digits. */
  function EscapeBytes(bs: seq<nat>): (r: string)
    requires forall i :: 0 <= i < |bs| ==> bs[i] < 256
    ensures forall x | x in r :: x == '%' || ('0' <= x <= 'F' && IsHex(x))
  {
    if bs == [] then [] else ['%', HexDigit(bs[0] / 16), HexDigit(bs[0] % 16)] + EscapeBytes(bs[1..])
  }

  /** Characters a serialized component is made of. */
  predicate EncodedChar(x: char) {
    Unescaped(x) || x == '+' || x == '%'
  }

  function EncodeChar(c: char): (r: string)
    ensures forall x | x in r :: EncodedChar(x)
  {
    if Unescaped(c) then [c] else if c == ' ' then "+" else EscapeBytes(Utf8(c))
  }

  /** Serialization of one name or value. */
  function Encode(s: string): (r: string)
    ensures forall x | x in r :: EncodedChar(x)
  {
    if s == [] then [] else EncodeChar(s[0]) + Encode(s[1..])
  }

  function Segment(p: (string, string)): string {
    Encode(p.0) + "=" + Encode(p.1)
  }

  function Segments(pairs: Pairs): (r: seq<string>)
    ensures |r| == |pairs|
    ensures forall i :: 0 <= i < |pairs| ==> r[i] == Segment(pairs[i])
  {
    if pairs == [] then [] else [Segment(pairs[0])] + Segments(pairs[1..])
  }

  /** `params.toString()`: `name=value` pairs joined with `&`. */
  function Serialize(pairs: Pairs): string {
    Text.Join(Segments(pairs), '&')
  }

  /** `+` stands for a space; `%XY` stands for the byte `XY`. This model
      turns each decoded byte into the character with that code, which is the
      standard's result for bytes below 0x80. */
  function PercentDecode(s: string): string
    decreases |s|
  {
    if s == [] then []
    else if s[0] == '%' && |s| >= 3 && IsHex(s[1]) && IsHex(s[2]) then
      [(16 * HexValue(s[1]) + HexValue(s[2])) as char] + PercentDecode(s[3..])
    else [s[0]] + PercentDecode(s[1..])
  }

  function Decode(s: string): string {
    PercentDecode(Text.ReplaceAll(s, '+', ' '))
  }

  /** One `name=value` sequence; without `=` the value is empty. */
  function ParsePair(seg: string): (string, string) {
    var k := Text.FirstIndex(seg, '=');
    (Decode(seg[..k]), Decode(if k < |seg| then seg[k + 1..] else ""))
  }

  function ParseSegments(segs: seq<string>): Pairs {
    if segs == [] then []
    else (if segs[0] == "" then [] else [ParsePair(segs[0])]) + ParseSegments(segs[1..])
  }

  /** `new URLSearchParams(search)`: a leading `?` is dropped, the rest is
      split on `&`, and empty sequences are skipped. */
  function Parse(search: string): Pairs {
    var q := if |search| > 0 && search[0] == '?' then search[1..] else search;
    ParseSegments(Text.Split(q, '&'))
  }

  predicate HasName(pairs: Pairs, name: string) {
    exists i :: 0 <= i < |pairs| && pairs[i].0 == name
  }

  /** `params.get(name)`: the value of the first pair with that name. */
  function Get(pairs: Pairs, name: string): (r: Option<string>)
    ensures r.None? <==> !HasName(pairs, name)
    ensures r.Some? ==> exists i :: 0 <= i < |pairs| && pairs[i] == (name, r.value)
                                   && forall j :: 0 <= j < i ==> pairs[j].0 != name
  {
    if pairs == [] then None
    else if pairs[0].0 == name then Some(pairs[0].1)
    else
      var r := Get(pairs[1..], name);
      assert forall i :: 1 <= i < |pairs| ==> pairs[1..][i - 1] == pairs[i];
      assert r.Some? ==> exists i :: 0 <= i < |pairs| && pairs[i] == (name, r.value)
                                   && forall j :: 0 <= j < i ==> pairs[j].0 != name by {
        if r.Some? {
          var k :| 0 <= k < |pairs[1..]| && pairs[1..][k] == (name, r.value)
                   && forall j :: 0 <= j < k ==> pairs[1..][j].0 != name;
          assert forall j :: 0 <= j < k + 1 ==> pairs[j].0 != name by {
            forall j | 0 <= j < k + 1 ensures pairs[j].0 != name {
              if j > 0 { assert pairs[j] == pairs[1..][j - 1]; }
            }
          }
        }
      }
      r
  }

  function RemoveName(pairs: Pairs, name: string): (r: Pairs)
    ensures !HasName(r, name)
  {
    if pairs == [] then []
    else (if pairs[0].0 == name then [] else [pairs[0]]) + RemoveName(pairs[1..], name)
  }

  /** `params.set(name, value)`: the first pair with that name takes the new
      value and later ones are removed; a new name is appended. */
  function Set(pairs: Pairs, name: string, value: string): (r: Pairs)
    ensures Get(r, name) == Some(value)
    ensures !HasName(pairs, name) ==> r == pairs + [(name, value)]
  {
    if !HasName(pairs, name) then
      AppendedGet(pairs, (name, value));
      pairs + [(name, value)]
    else if pairs[0].0 == name then [(name, value)] + RemoveName(pairs[1..], name)
    else
      assert HasName(pairs[1..], name) by {
        var i :| 0 <= i < |pairs| && pairs[i].0 == name;
        assert pairs[1..][i - 1] == pairs[i];
      }
      [pairs[0]] + Set(pairs[1..], name, value)
  }

  lemma {:induction false} AppendedGet(pairs: Pairs, p: (string, string))
    requires !HasName(pairs, p.0)
    ensures Get(pairs + [p], p.0) == Some(p.1)
  {
    if pairs != [] {
      assert (pairs + [p])[1..] == pairs[1..] + [p];
      assert !HasName(pairs[1..], p.0) by {
        forall i | 0 <= i < |pairs[1..]| ensures pairs[1..][i].0 != p.0 {
          assert pairs[1..][i] == pairs[i + 1];
        }
      }
      AppendedGet(pairs[1..], p);
    }
  }

  lemma {:induction false} ReplaceAllAppend(a: string, b: string, x: char, y: char)
    ensures Text.ReplaceAll(a + b, x, y) == Text.ReplaceAll(a, x, y) + Text.ReplaceAll(b, x, y)
  {
  }

  /** Decoding consumes exactly the encoding of one ASCII character. */
  lemma {:induction false} DecodeChar(c: char, rest: string)
    requires IsAscii(c)
    ensures PercentDecode(Text.ReplaceAll(EncodeChar(c), '+', ' ') + rest) == [c] + PercentDecode(rest)
  {
    var e := EncodeChar(c);
    var t := Text.ReplaceAll(e, '+', ' ');
    if Unescaped(c) {
      assert t == [c];
      assert ([c] + rest)[1..] == rest;
    } else if c == ' ' {
      assert t == [' '];
      assert ([' '] + rest)[1..] == rest;
    } else {
      var v := c as int;
      assert Utf8(c) == [v];
      assert EscapeBytes([v]) == ['%', HexDigit(v / 16), HexDigit(v % 16)] + EscapeBytes([]);
      assert e == ['%', HexDigit(v / 16), HexDigit(v % 16)];
      assert t == e;
      var s := t + rest;
      assert s[0] == '%' && s[1] == HexDigit(v / 16) && s[2] == HexDigit(v % 16);
      assert HexValue(HexDigit(v / 16)) == v / 16;
      assert HexValue(HexDigit(v % 16)) == v % 16;
      assert s[3..] == rest;
    }
  }

  /** Decoding undoes encoding for ASCII text. */
  lemma {:induction false} DecodeEncode(s: string)
    requires AsciiText(s)
    ensures Decode(Encode(s)) == s
  {
    if s != [] {
      assert AsciiText(s[1..]) by {
        assert forall x | x in s[1..] :: x in s;
      }
      DecodeEncode(s[1..]);
      ReplaceAllAppend(EncodeChar(s[0]), Encode(s[1..]), '+', ' ');
      DecodeChar(s[0], Text.ReplaceAll(Encode(s[1..]), '+', ' '));
      assert [s[0]] + s[1..] == s;
    }
  }

  lemma {:induction false} ParseSegment(p: (string, string))
    requires AsciiText(p.0) && AsciiText(p.1)
    ensures Segment(p) != "" && ParsePair(Segment(p)) == p
  {
    var k := Encode(p.0);
    assert '=' !in k;
    ParseJoined(k, Encode(p.1));
    DecodeEncode(p.0);
    DecodeEncode(p.1);
  }

  /** A name without `=`, then `=`, then a value, parses to the decoded
      name and value. */
  lemma {:induction false} ParseJoined(k: string, v: string)
    requires '=' !in k
    ensures ParsePair(k + "=" + v) == (Decode(k), Decode(v))
  {
    var seg := k + "=" + v;
    assert seg[|k|] == '=';
    assert forall i :: 0 <= i < |k| ==> seg[i] == k[i] && k[i] in k;
    Text.FirstIndexIs(seg, '=', |k|);
    assert seg[..|k|] == k;
    assert seg[|k| + 1..] == v;
  }

  lemma {:induction false} ParseAllSegments(pairs: Pairs)
    requires forall i :: 0 <= i < |pairs| ==> AsciiText(pairs[i].0) && AsciiText(pairs[i].1)
    ensures ParseSegments(Segments(pairs)) == pairs
  {
    if pairs != [] {
      ParseSegment(pairs[0]);
      assert Segments(pairs)[1..] == Segments(pairs[1..]);
      ParseAllSegments(pairs[1..]);
      assert [pairs[0]] + pairs[1..] == pairs;
    }
  }

  lemma {:induction false} JoinAvoids(ws: seq<string>, sep: char, c: char)
    requires c != sep
    requires forall i :: 0 <= i < |ws| ==> c !in ws[i]
    ensures c !in Text.Join(ws, sep)
  {
    if |ws| > 1 {
      JoinAvoids(ws[1..], sep, c);
    }
  }

  /** Parsing a serialization gives back the pairs, in order, when names and
      values are ASCII. */
  lemma {:induction false} ParseSerialize(pairs: Pairs)
    requires forall i :: 0 <= i < |pairs| ==> AsciiText(pairs[i].0) && AsciiText(pairs[i].1)
    ensures Parse(Serialize(pairs)) == pairs
    ensures Parse("?" + Serialize(pairs)) == pairs
  {
    var segs := Segments(pairs);
    var q := Serialize(pairs);
    assert forall i :: 0 <= i < |segs| ==> '&' !in segs[i] && '?' !in segs[i];
    JoinAvoids(segs, '&', '?');
    assert ("?" + q)[1..] == q;
    if pairs == [] {
      assert q == "";
      assert Text.Split(q, '&') == [""];
      assert ParseSegments([""]) == [] + ParseSegments([]);
      assert Parse(q) == ParseSegments([""]);
    } else {
      Text.SplitJoin(segs, '&');
      ParseAllSegments(pairs);
    }
  }

  /** A serialization is empty exactly when there are no pairs. */
  lemma {:induction false} SerializeEmpty(pairs: Pairs)
    ensures Serialize(pairs) == "" <==> pairs == []
  {
    if pairs != [] {
      var segs := Segments(pairs);
      assert segs[0] == Encode(pairs[0].0) + "=" + Encode(pairs[0].1);
      if |segs| > 1 {
        assert Serialize(pairs) == segs[0] + ['&'] + Text.Join(segs[1..], '&');
      }
    }
  }
}
