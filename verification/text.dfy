/** The JavaScript string operations the listing components rely on
    (`toLowerCase`, `toUpperCase`, `replace` with a one-character pattern,
    `split`, `join`, `includes`), with case mapping on ASCII letters only. */
module Text {

  predicate IsUpperAscii(c: char) { 'A' <= c <= 'Z' }

  predicate IsLowerAscii(c: char) { 'a' <= c <= 'z' }

  /** `toLowerCase` on one character. */
  function LowerChar(c: char): char {
    if IsUpperAscii(c) then (c as int + 32) as char else c
  }

  /** `toUpperCase` on one character. */
  function UpperChar(c: char): char {
    if IsLowerAscii(c) then (c as int - 32) as char else c
  }

  function ToLower(s: string): (r: string)
    ensures |r| == |s|
    ensures forall i :: 0 <= i < |s| ==> r[i] == LowerChar(s[i])
  {
    if s == [] then [] else [LowerChar(s[0])] + ToLower(s[1..])
  }

  function ToUpper(s: string): (r: string)
    ensures |r| == |s|
    ensures forall i :: 0 <= i < |s| ==> r[i] == UpperChar(s[i])
  {
    if s == [] then [] else [UpperChar(s[0])] + ToUpper(s[1..])
  }

  /** Index of the first `c` in `s`, or `|s|` when there is none. */
  function FirstIndex(s: string, c: char): (k: nat)
    ensures k <= |s|
    ensures forall i :: 0 <= i < k ==> s[i] != c
    ensures k < |s| ==> s[k] == c
    ensures k == |s| <==> c !in s
  {
    if s == [] then 0 else if s[0] == c then 0 else 1 + FirstIndex(s[1..], c)
  }

  /** Number of occurrences of `c` in `s`. */
  function Count(s: string, c: char): nat {
    if s == [] then 0 else (if s[0] == c then 1 else 0) + Count(s[1..], c)
  }

  /** `s.replace(a, b)` for one-character strings `a` and `b`: only the
      first occurrence is replaced. */
  function ReplaceFirst(s: string, a: char, b: char): (r: string)
    ensures |r| == |s|
    ensures forall i :: 0 <= i < |s| ==> r[i] == (if i == FirstIndex(s, a) then b else s[i])
  {
    var k := FirstIndex(s, a);
    if k == |s| then s else s[..k] + [b] + s[k + 1..]
  }

  /** `s.replaceAll(a, b)` for one-character strings. */
  function ReplaceAll(s: string, a: char, b: char): (r: string)
    ensures |r| == |s|
    ensures forall i :: 0 <= i < |s| ==> r[i] == (if s[i] == a then b else s[i])
  {
    if s == [] then [] else [if s[0] == a then b else s[0]] + ReplaceAll(s[1..], a, b)
  }

  /** `s.split(sep)` for a one-character separator: there is always at least
      one piece, one more than there are separators. */
  function Split(s: string, sep: char): (r: seq<string>)
    ensures |r| == Count(s, sep) + 1
    decreases |s|
  {
    var k := FirstIndex(s, sep);
    if k == |s| then
      CountAbsent(s, sep);
      [s]
    else
      CountSplitsAt(s, sep, k);
      [s[..k]] + Split(s[k + 1..], sep)
  }

  /** `ws.join(sep)` for a one-character separator. */
  function Join(ws: seq<string>, sep: char): string {
    if |ws| == 0 then "" else if |ws| == 1 then ws[0] else ws[0] + [sep] + Join(ws[1..], sep)
  }

  /** `s.startsWith(p)`. */
  predicate StartsWith(s: string, p: string) {
    |p| <= |s| && s[..|p|] == p
  }

  /** `s.includes(sub)`: `sub` occurs in `s` at some position. */
  predicate Contains(s: string, sub: string)
    decreases |s|
  {
    StartsWith(s, sub) || (s != [] && Contains(s[1..], sub))
  }

  /** Reference meaning of `Contains`: an occurrence at some offset. */
  ghost predicate OccursAt(s: string, sub: string, i: int) {
    0 <= i && i + |sub| <= |s| && s[i..i + |sub|] == sub
  }

  lemma {:induction false} CountAbsent(s: string, c: char)
    requires c !in s
    ensures Count(s, c) == 0
  {
    if s != [] {
      assert s[0] != c;
      assert forall x | x in s[1..] :: x in s;
      CountAbsent(s[1..], c);
    }
  }

  lemma {:induction false} CountAppend(a: string, b: string, c: char)
    ensures Count(a + b, c) == Count(a, c) + Count(b, c)
  {
    if a == [] {
      assert a + b == b;
    } else {
      assert (a + b)[1..] == a[1..] + b;
      CountAppend(a[1..], b, c);
    }
  }

  lemma {:induction false} CountSplitsAt(s: string, c: char, k: nat)
    requires k < |s| && s[k] == c && c !in s[..k]
    ensures Count(s, c) == 1 + Count(s[k + 1..], c)
  {
    assert s == s[..k] + ([s[k]] + s[k + 1..]);
    CountAppend(s[..k], [s[k]] + s[k + 1..], c);
    CountAbsent(s[..k], c);
    assert ([s[k]] + s[k + 1..])[1..] == s[k + 1..];
  }

  /** A character occurs exactly when it is counted. */
  lemma {:induction false} CountZeroIff(s: string, c: char)
    ensures Count(s, c) == 0 <==> c !in s
  {
    if s != [] {
      CountZeroIff(s[1..], c);
      assert s == [s[0]] + s[1..];
    }
  }

  /** Lower-casing keeps the number of occurrences of a non-letter. */
  lemma {:induction false} CountLower(s: string, c: char)
    requires !IsUpperAscii(c) && !IsLowerAscii(c)
    ensures Count(ToLower(s), c) == Count(s, c)
  {
    if s != [] {
      CountLower(s[1..], c);
      assert ToLower(s)[1..] == ToLower(s[1..]);
    }
  }

  /** Splitting and joining again on the same separator gives back the text. */
  lemma {:induction false} JoinSplit(s: string, sep: char)
    ensures Join(Split(s, sep), sep) == s
    decreases |s|
  {
    var k := FirstIndex(s, sep);
    if k < |s| {
      var head, rest := s[..k], s[k + 1..];
      JoinSplit(rest, sep);
      SplitAt(s, sep, k);
      JoinCons(head, Split(rest, sep), sep);
      Reassemble(s, k);
    }
  }

  lemma {:induction false} SplitAt(s: string, sep: char, k: nat)
    requires k == FirstIndex(s, sep) && k < |s|
    ensures Split(s, sep) == [s[..k]] + Split(s[k + 1..], sep)
  {
    var r := Split(s, sep);
    assert k != |s|;
  }

  /** Splitting at the only separator gives the two sides. */
  lemma {:induction false} SplitOnce(s: string, sep: char, k: nat)
    requires k < |s| && s[k] == sep
    requires forall i :: 0 <= i < |s| && i != k ==> s[i] != sep
    ensures Split(s, sep) == [s[..k], s[k + 1..]]
  {
    FirstIndexIs(s, sep, k);
    SplitAt(s, sep, k);
    var rest := s[k + 1..];
    assert forall i :: 0 <= i < |rest| ==> rest[i] == s[k + 1 + i];
    assert sep !in rest;
  }

  lemma {:induction false} ConcatAssoc(a: string, b: string, c: string)
    ensures a + (b + c) == a + b + c
  {
  }

  lemma {:induction false} Reassemble(s: string, k: nat)
    requires k < |s|
    ensures s[..k] + [s[k]] + s[k + 1..] == s
  {
  }

  /** No piece holds the separator. */
  lemma {:induction false} SplitPiecesLackSeparator(s: string, sep: char)
    ensures forall w | w in Split(s, sep) :: sep !in w
    decreases |s|
  {
    var k := FirstIndex(s, sep);
    if k == |s| {
      assert Split(s, sep) == [s];
    } else {
      SplitAt(s, sep, k);
      NoneBefore(s, sep, k);
      SplitPiecesLackSeparator(s[k + 1..], sep);
    }
  }

  /** A character absent from the text is absent from every piece. */
  lemma {:induction false} SplitKeepsAbsent(s: string, sep: char, c: char)
    requires c !in s
    ensures forall w | w in Split(s, sep) :: c !in w
    decreases |s|
  {
    var k := FirstIndex(s, sep);
    if k == |s| {
      assert Split(s, sep) == [s];
    } else {
      SplitAt(s, sep, k);
      assert forall x | x in s[k + 1..] :: x in s;
      assert forall x | x in s[..k] :: x in s;
      SplitKeepsAbsent(s[k + 1..], sep, c);
    }
  }

  lemma {:induction false} JoinCons(w: string, ws: seq<string>, sep: char)
    requires |ws| >= 1
    ensures Join([w] + ws, sep) == w + [sep] + Join(ws, sep)
  {
    assert ([w] + ws)[1..] == ws;
  }

  /** Pieces free of the separator come back from joining then splitting. */
  lemma {:induction false} SplitJoin(ws: seq<string>, sep: char)
    requires |ws| >= 1
    requires forall i :: 0 <= i < |ws| ==> sep !in ws[i]
    ensures Split(Join(ws, sep), sep) == ws
    decreases |ws|
  {
    if |ws| == 1 {
      assert FirstIndex(ws[0], sep) == |ws[0]|;
    } else {
      var w, rest := ws[0], ws[1..];
      assert Join(ws, sep) == w + [sep] + Join(rest, sep);
      SplitAfterPiece(w, Join(rest, sep), sep);
      assert forall i :: 0 <= i < |rest| ==> rest[i] == ws[i + 1];
      SplitJoin(rest, sep);
      assert [w] + rest == ws;
    }
  }

  /** A piece free of the separator, then the separator, splits off first. */
  lemma {:induction false} SplitAfterPiece(w: string, tail: string, sep: char)
    requires sep !in w
    ensures Split(w + [sep] + tail, sep) == [w] + Split(tail, sep)
  {
    var s := w + [sep] + tail;
    assert forall i :: 0 <= i < |w| ==> s[i] == w[i];
    FirstIndexIs(s, sep, |w|);
    SplitAt(s, sep, |w|);
    assert s[..|w|] == w;
    assert s[|w| + 1..] == tail;
  }

  lemma {:induction false} FirstIndexIs(s: string, c: char, k: nat)
    requires k < |s| && s[k] == c
    requires forall i :: 0 <= i < k ==> s[i] != c
    ensures FirstIndex(s, c) == k
  {
  }

  /** `Contains` holds exactly when `sub` occurs at some offset of `s`. */
  lemma {:induction false} ContainsMeansOccurs(s: string, sub: string)
    ensures Contains(s, sub) <==> exists i :: OccursAt(s, sub, i)
  {
    if Contains(s, sub) {
      var i := ContainsWitness(s, sub);
    }
    forall i | OccursAt(s, sub, i) ensures Contains(s, sub) {
      OccursIsContained(s, sub, i);
    }
  }

  lemma {:induction false} ContainsWitness(s: string, sub: string) returns (i: nat)
    requires Contains(s, sub)
    ensures OccursAt(s, sub, i)
    decreases |s|
  {
    if StartsWith(s, sub) {
      i := 0;
    } else {
      var j := ContainsWitness(s[1..], sub);
      assert s[1..][j..j + |sub|] == s[j + 1..j + 1 + |sub|];
      i := j + 1;
    }
  }

  lemma {:induction false} OccursIsContained(s: string, sub: string, i: int)
    requires OccursAt(s, sub, i)
    ensures Contains(s, sub)
    decreases i
  {
    if i == 0 {
      assert s[..|sub|] == sub;
    } else {
      assert s[1..][i - 1..i - 1 + |sub|] == s[i..i + |sub|];
      OccursIsContained(s[1..], sub, i - 1);
    }
  }

  /** Every text contains the empty text. */
  lemma {:induction false} ContainsEmpty(s: string)
    ensures Contains(s, "")
  {
    assert StartsWith(s, "");
  }

  /** Lower-casing twice is lower-casing once. */
  lemma {:induction false} LowerIdempotent(s: string)
    ensures ToLower(ToLower(s)) == ToLower(s)
  {
  }

  /** Lower-casing an upper-cased text is lower-casing it. */
  lemma {:induction false} LowerOfUpper(s: string)
    ensures ToLower(ToUpper(s)) == ToLower(s)
  {
  }

  /** Upper-casing undoes lower-casing on text without lower-case letters. */
  lemma {:induction false} UpperUndoesLower(s: string)
    requires forall c | c in s :: !IsLowerAscii(c)
    ensures ToUpper(ToLower(s)) == s
  {
    assert forall i :: 0 <= i < |s| ==> s[i] in s;
  }

  /** Lower-casing undoes upper-casing on text without upper-case letters. */
  lemma {:induction false} LowerUndoesUpper(s: string)
    requires forall c | c in s :: !IsUpperAscii(c)
    ensures ToLower(ToUpper(s)) == s
  {
    assert forall i :: 0 <= i < |s| ==> s[i] in s;
  }

  /** Case mapping commutes with replacing a non-letter by a non-letter. */
  lemma {:induction false} LowerReplaceFirst(s: string, a: char, b: char)
    requires !IsUpperAscii(a) && !IsLowerAscii(a) && !IsUpperAscii(b) && !IsLowerAscii(b)
    ensures ToLower(ReplaceFirst(s, a, b)) == ReplaceFirst(ToLower(s), a, b)
  {
    LowerFirstIndex(s, a);
  }

  lemma {:induction false} UpperReplaceFirst(s: string, a: char, b: char)
    requires !IsUpperAscii(a) && !IsLowerAscii(a) && !IsUpperAscii(b) && !IsLowerAscii(b)
    ensures ToUpper(ReplaceFirst(s, a, b)) == ReplaceFirst(ToUpper(s), a, b)
  {
    UpperFirstIndex(s, a);
  }

  lemma {:induction false} LowerFirstIndex(s: string, a: char)
    requires !IsUpperAscii(a) && !IsLowerAscii(a)
    ensures FirstIndex(ToLower(s), a) == FirstIndex(s, a)
  {
    var k := FirstIndex(s, a);
    if k < |s| {
      FirstIndexIs(ToLower(s), a, k);
    } else {
      assert forall i :: 0 <= i < |s| ==> ToLower(s)[i] != a;
      assert a !in ToLower(s);
    }
  }

  lemma {:induction false} UpperFirstIndex(s: string, a: char)
    requires !IsUpperAscii(a) && !IsLowerAscii(a)
    ensures FirstIndex(ToUpper(s), a) == FirstIndex(s, a)
  {
    var k := FirstIndex(s, a);
    if k < |s| {
      FirstIndexIs(ToUpper(s), a, k);
    } else {
      assert forall i :: 0 <= i < |s| ==> ToUpper(s)[i] != a;
      assert a !in ToUpper(s);
    }
  }

  /** Replacing where the first `a` is known to be, `k == |s|` meaning
      nowhere; stated character by character. */
  lemma {:induction false} ReplaceFirstOf(s: string, a: char, b: char, k: nat, r: string)
    requires k <= |s| && (k < |s| ==> s[k] == a) && forall i :: 0 <= i < k ==> s[i] != a
    requires |r| == |s| && forall i :: 0 <= i < |s| ==> r[i] == if i == k then b else s[i]
    ensures ReplaceFirst(s, a, b) == r
  {
    if k < |s| {
      FirstIndexIs(s, a, k);
    } else {
      assert a !in s by {
        assert forall i :: 0 <= i < |s| ==> s[i] != a;
      }
    }
  }

  /** Lower-casing, stated character by character. */
  lemma {:induction false} LowerCaseOf(s: string, t: string)
    requires |s| == |t| && forall i :: 0 <= i < |s| ==> LowerChar(s[i]) == t[i]
    ensures ToLower(s) == t
  {
  }

  /** Upper-casing, stated character by character. */
  lemma {:induction false} UpperCaseOf(s: string, t: string)
    requires |s| == |t| && forall i :: 0 <= i < |s| ==> UpperChar(s[i]) == t[i]
    ensures ToUpper(s) == t
  {
  }

  /** Replacing an absent character changes nothing. */
  lemma {:induction false} ReplaceFirstAbsent(s: string, a: char, b: char)
    requires a !in s
    ensures ReplaceFirst(s, a, b) == s
  {
  }

  /** No `a` is left after replacing the first one exactly when there was
      at most one. */
  lemma {:induction false} ReplaceFirstLeaves(s: string, a: char, b: char)
    requires a != b
    ensures a !in ReplaceFirst(s, a, b) <==> Count(s, a) <= 1
  {
    var k := FirstIndex(s, a);
    if k == |s| {
      CountAbsent(s, a);
    } else {
      var pre, post := s[..k], s[k + 1..];
      assert ReplaceFirst(s, a, b) == pre + [b] + post;
      NoneBefore(s, a, k);
      CountSplitsAt(s, a, k);
      CountZeroIff(post, a);
    }
  }

  lemma {:induction false} NoneBefore(s: string, c: char, k: nat)
    requires k <= |s| && forall i :: 0 <= i < k ==> s[i] != c
    ensures c !in s[..k]
  {
    assert forall i :: 0 <= i < k ==> s[..k][i] == s[i];
  }

  /** Replacing the first `a` changes the text exactly when it holds one. */
  lemma {:induction false} ReplaceFirstFixed(s: string, a: char, b: char)
    requires a != b
    ensures ReplaceFirst(s, a, b) == s <==> a !in s
  {
    var k := FirstIndex(s, a);
    if k < |s| {
      assert ReplaceFirst(s, a, b)[k] != s[k];
    }
  }

  /** With at most one `a`, replacing all is replacing the first. */
  lemma {:induction false} ReplaceAllOnce(s: string, a: char, b: char)
    requires Count(s, a) <= 1
    ensures ReplaceAll(s, a, b) == ReplaceFirst(s, a, b)
  {
    var k := FirstIndex(s, a);
    if k < |s| {
      NoneBefore(s, a, k);
      CountSplitsAt(s, a, k);
      CountZeroIff(s[k + 1..], a);
      assert forall i :: k < i < |s| ==> s[i] == s[k + 1..][i - k - 1];
    }
    assert forall i :: 0 <= i < |s| ==> ReplaceAll(s, a, b)[i] == ReplaceFirst(s, a, b)[i];
  }

  /** Replacing the first `a` by `b` and then the first `b` by `a` restores
      a text that held no `b`. */
  lemma {:induction false} ReplaceFirstBack(s: string, a: char, b: char)
    requires b !in s
    ensures ReplaceFirst(ReplaceFirst(s, a, b), b, a) == s
  {
    var k := FirstIndex(s, a);
    var t := ReplaceFirst(s, a, b);
    if k < |s| {
      assert forall i :: 0 <= i < k ==> t[i] == s[i] && s[i] in s;
      FirstIndexIs(t, b, k);
    } else {
      assert t == s;
      assert FirstIndex(t, b) == |t|;
    }
  }
}
