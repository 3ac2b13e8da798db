/** The labels of the property details card: the status badge text and
    colour, the property type as a caption, and the singular or plural room
    labels. */
module PropertyInfo {
  import Text
  import opened Optional

  // ---- Status text ----

  /** `word.charAt(0).toUpperCase() + word.slice(1)`. */
  function Capitalize(w: string): (r: string)
    ensures |r| == |w|
    ensures w != "" ==> r[0] == Text.UpperChar(w[0]) && r[1..] == w[1..]
  {
    if w == "" then "" else [Text.UpperChar(w[0])] + w[1..]
  }

  function CapitalizeAll(ws: seq<string>): (r: seq<string>)
    ensures |r| == |ws|
    ensures forall i :: 0 <= i < |ws| ==> r[i] == Capitalize(ws[i])
  {
    if ws == [] then [] else [Capitalize(ws[0])] + CapitalizeAll(ws[1..])
  }

  /** The words of a status: its hyphen-separated parts, capitalized. */
  function StatusWords(status: string): seq<string> {
    CapitalizeAll(Text.Split(status, '-'))
  }

  /** `formatStatus`: `Available` for a missing or empty status, otherwise
      the capitalized hyphen-separated parts joined by spaces. */
  function FormatStatus(status: Option<string>): (r: string)
    ensures status.None? || status.value == "" ==> r == "Available"
  {
    if status.None? || status.value == "" then "Available"
    else Text.Join(StatusWords(status.value), ' ')
  }

  /** Reference reading of `formatStatus`, one character at a time: a hyphen
      becomes a space and a letter that starts a word is upper-cased. */
  function TitleCase(s: string, atWordStart: bool): (r: string)
    ensures |r| == |s|
  {
    if s == [] then []
    else if s[0] == '-' then [' '] + TitleCase(s[1..], true)
    else [if atWordStart then Text.UpperChar(s[0]) else s[0]] + TitleCase(s[1..], false)
  }

  /** There is one word more than there are hyphens. */
  lemma {:induction false} StatusWordCount(status: string)
    ensures |StatusWords(status)| == Text.Count(status, '-') + 1
  {
  }

  /** `formatStatus` agrees with the character-by-character reading. */
  lemma {:induction false} FormatStatusIsTitleCase(status: string)
    requires status != ""
    ensures FormatStatus(Some(status)) == TitleCase(status, true)
  {
    JoinCapitalizedSplit(status);
  }

  lemma {:induction false} JoinCapitalizedSplit(s: string)
    ensures Text.Join(StatusWords(s), ' ') == TitleCase(s, true)
    decreases |s|
  {
    var k := Text.FirstIndex(s, '-');
    if k == |s| {
      SingleWordTitleCase(s);
    } else {
      JoinCapitalizedSplit(s[k + 1..]);
      HyphenTitleCase(s, k);
    }
  }

  lemma {:induction false} SingleWordTitleCase(s: string)
    requires '-' !in s
    ensures Text.Join(StatusWords(s), ' ') == TitleCase(s, true)
  {
    assert Text.Split(s, '-') == [s];
    assert StatusWords(s) == [Capitalize(s)];
    TitleCaseWord(s, |s|, true);
    assert s[..|s|] == s;
  }

  lemma {:induction false} HyphenTitleCase(s: string, k: nat)
    requires k == Text.FirstIndex(s, '-') && k < |s|
    requires Text.Join(StatusWords(s[k + 1..]), ' ') == TitleCase(s[k + 1..], true)
    ensures Text.Join(StatusWords(s), ' ') == TitleCase(s, true)
  {
    var head, rest := s[..k], s[k + 1..];
    WordsAtHyphen(s, k);
    TitleCaseAtHyphen(s, k);
    Text.JoinCons(Capitalize(head), StatusWords(rest), ' ');
  }

  lemma {:induction false} WordsAtHyphen(s: string, k: nat)
    requires k == Text.FirstIndex(s, '-') && k < |s|
    ensures StatusWords(s) == [Capitalize(s[..k])] + StatusWords(s[k + 1..])
  {
    Text.SplitAt(s, '-', k);
    var parts := Text.Split(s[k + 1..], '-');
    assert ([s[..k]] + parts)[1..] == parts;
  }

  lemma {:induction false} TitleCaseAtHyphen(s: string, k: nat)
    requires k == Text.FirstIndex(s, '-') && k < |s|
    ensures TitleCase(s, true) == Capitalize(s[..k]) + [' '] + TitleCase(s[k + 1..], true)
  {
    TitleCaseWord(s, k, true);
    TitleCaseAtLeadingHyphen(s[k..], k == 0);
    assert s[k..][1..] == s[k + 1..];
    Text.ConcatAssoc(Capitalize(s[..k]), [' '], TitleCase(s[k + 1..], true));
  }

  lemma {:induction false} TitleCaseAtLeadingHyphen(s: string, atWordStart: bool)
    requires s != [] && s[0] == '-'
    ensures TitleCase(s, atWordStart) == [' '] + TitleCase(s[1..], true)
  {
  }

  /** Over a first word without hyphens the reference reading capitalizes
      only its first letter. */
  lemma {:induction false} TitleCaseWord(s: string, k: nat, atWordStart: bool)
    requires k <= |s| && forall i :: 0 <= i < k ==> s[i] != '-'
    ensures TitleCase(s, atWordStart)
         == (if atWordStart then Capitalize(s[..k]) else s[..k]) + TitleCase(s[k..], atWordStart && k == 0)
    decreases k
  {
    if k > 0 {
      TitleCaseWord(s[1..], k - 1, false);
      var first := if atWordStart then Text.UpperChar(s[0]) else s[0];
      var mid, t := s[1..k], TitleCase(s[k..], false);
      assert s[1..][..k - 1] == mid && s[1..][k - 1..] == s[k..];
      Text.ConcatAssoc([first], mid, t);
      assert (if atWordStart then Capitalize(s[..k]) else s[..k]) == [first] + mid;
    }
  }

  /** No hyphen survives into the shown status. */
  lemma {:induction false} NoHyphenInFormattedStatus(status: string)
    requires status != ""
    ensures '-' !in FormatStatus(Some(status))
  {
    FormatStatusIsTitleCase(status);
    TitleCaseHasNoHyphen(status, true);
  }

  lemma {:induction false} TitleCaseHasNoHyphen(s: string, atWordStart: bool)
    ensures '-' !in TitleCase(s, atWordStart)
    decreases |s|
  {
    if s != [] {
      TitleCaseHasNoHyphen(s[1..], s[0] == '-');
    }
  }

  /** A status without spaces splits back, on spaces, into its words. */
  lemma {:induction false} FormattedStatusSplitsIntoWords(status: string)
    requires status != "" && ' ' !in status
    ensures Text.Split(FormatStatus(Some(status)), ' ') == StatusWords(status)
  {
    var parts := Text.Split(status, '-');
    Text.SplitKeepsAbsent(status, '-', ' ');
    forall i | 0 <= i < |parts| ensures ' ' !in StatusWords(status)[i] {
      assert parts[i] in parts;
      var w := StatusWords(status)[i];
      assert forall j | 0 <= j < |w| :: w[j] != ' ' by {
        forall j | 0 <= j < |w| ensures w[j] != ' ' {
          assert parts[i][j] in parts[i];
        }
      }
    }
    Text.SplitJoin(StatusWords(status), ' ');
  }

  /** `formatStatus("for-sale")` is `For Sale`. */
  lemma {:induction false} ForSaleIsShownAsForSale()
    ensures FormatStatus(Some("for-sale")) == "For Sale"
  {
    FormatStatusIsTitleCase("for-sale");
    ForSaleTitleCase();
  }

  lemma {:induction false} ForSaleTitleCase()
    ensures TitleCase("for-sale", true) == "For Sale"
  {
  }

  // ---- Status colour ----

  predicate IsKnownStatus(status: string) {
    status == "for-sale" || status == "pending" || status == "sold" || status == "off-market"
  }

  /** `getStatusColor`: one badge per known status, `badge-primary` for
      anything else, a missing status included. */
  function StatusColor(status: Option<string>): (r: string)
    ensures r == "badge-primary" <==> status.None? || !IsKnownStatus(status.value)
  {
    if status == Some("for-sale") then "badge-success"
    else if status == Some("pending") then "badge-warning"
    else if status == Some("sold") then "badge-error"
    else if status == Some("off-market") then "badge-neutral"
    else "badge-primary"
  }

  /** Different known statuses get different badges. */
  lemma {:induction false} StatusColorsDistinct(a: string, b: string)
    requires IsKnownStatus(a) && IsKnownStatus(b) && a != b
    ensures StatusColor(Some(a)) != StatusColor(Some(b))
  {
  }

  // ---- Property type caption ----

  /** `formatPropertyType` as written: the first character upper-cased, the
      rest lower-cased, and the first `_` of the rest turned into a space. */
  function FormatPropertyType(t: string): (r: string)
    ensures |r| == |t|
    ensures t != "" ==> r[0] == Text.UpperChar(t[0])
    ensures forall i | 1 <= i < |t| ::
      r[i] == if i == 1 + Text.FirstIndex(t[1..], '_') then ' ' else Text.LowerChar(t[i])
  {
    if t == "" then ""
    else
      var tail := CaptionTail(t[1..]);
      CaptionShift(t, tail);
      [Text.UpperChar(t[0])] + tail
  }

  /** Putting the first letter in front of the rest of the caption shifts
      each position of the rest by one. */
  lemma {:induction false} CaptionShift(t: string, tail: string)
    requires t != "" && |tail| == |t| - 1
    requires forall j | 0 <= j < |tail| ::
      tail[j] == if j == Text.FirstIndex(t[1..], '_') then ' ' else Text.LowerChar(t[1..][j])
    ensures forall i | 1 <= i < |t| ::
      ([Text.UpperChar(t[0])] + tail)[i] == if i == 1 + Text.FirstIndex(t[1..], '_') then ' ' else Text.LowerChar(t[i])
  {
    forall i | 1 <= i < |t|
      ensures ([Text.UpperChar(t[0])] + tail)[i]
        == if i == 1 + Text.FirstIndex(t[1..], '_') then ' ' else Text.LowerChar(t[i])
    {
      assert t[1..][i - 1] == t[i];
    }
  }

  /** The rest of the caption as written: lower-cased, its first `_` a
      space. */
  function CaptionTail(u: string): (c: string)
    ensures |c| == |u|
    ensures forall j | 0 <= j < |u| :: c[j] == if j == Text.FirstIndex(u, '_') then ' ' else Text.LowerChar(u[j])
  {
    Text.LowerFirstIndex(u, '_');
    Text.ReplaceFirst(Text.ToLower(u), '_', ' ')
  }

  /** The caption with every `_` of the rest turned into a space. */
  function FormatPropertyTypeAll(t: string): (r: string)
    ensures |r| == |t|
    ensures t != "" ==> r[0] == Text.UpperChar(t[0]) && '_' !in r[1..]
    ensures forall i | 1 <= i < |t| :: r[i] == if t[i] == '_' then ' ' else Text.LowerChar(t[i])
  {
    if t == "" then "" else [Text.UpperChar(t[0])] + Text.ReplaceAll(Text.ToLower(t[1..]), '_', ' ')
  }

  /** The caption as written is unchanged by a second formatting exactly when
      the text after the first character holds at most one `_`. */
  lemma {:induction false} FormatPropertyTypeStableIff(t: string)
    requires t != ""
    ensures FormatPropertyType(FormatPropertyType(t)) == FormatPropertyType(t) <==> Text.Count(t[1..], '_') <= 1
  {
    var lower := Text.ToLower(t[1..]);
    var once := Text.ReplaceFirst(lower, '_', ' ');
    CaptionTwice(t);
    Text.ReplaceFirstFixed(once, '_', ' ');
    Text.ReplaceFirstLeaves(lower, '_', ' ');
    Text.CountLower(t[1..], '_');
    ConsCancel(Text.UpperChar(t[0]), Text.ReplaceFirst(once, '_', ' '), once);
  }

  /** Formatting a caption again only replaces one more `_`. */
  lemma {:induction false} CaptionTwice(t: string)
    requires t != ""
    ensures var once := Text.ReplaceFirst(Text.ToLower(t[1..]), '_', ' ');
      && FormatPropertyType(t) == [Text.UpperChar(t[0])] + once
      && FormatPropertyType(FormatPropertyType(t)) == [Text.UpperChar(t[0])] + Text.ReplaceFirst(once, '_', ' ')
  {
    var lower := Text.ToLower(t[1..]);
    var once := Text.ReplaceFirst(lower, '_', ' ');
    var r := FormatPropertyType(t);
    assert r[1..] == once;
    Text.LowerReplaceFirst(lower, '_', ' ');
    Text.LowerIdempotent(t[1..]);
  }

  lemma {:induction false} ConsCancel(c: char, x: string, y: string)
    ensures [c] + x == [c] + y <==> x == y
  {
    if [c] + x == [c] + y {
      assert x == ([c] + x)[1..];
    }
  }

  /** The caption as written keeps an `_` exactly when the text after the
      first character held two or more of them. */
  lemma {:induction false} UnderscoreSurvives(t: string)
    requires t != ""
    ensures '_' in FormatPropertyType(t)[1..] <==> Text.Count(t[1..], '_') >= 2
  {
    var lower := Text.ToLower(t[1..]);
    assert FormatPropertyType(t)[1..] == Text.ReplaceFirst(lower, '_', ' ');
    Text.ReplaceFirstLeaves(lower, '_', ' ');
    Text.CountLower(t[1..], '_');
  }

  /** `A_B_C` is captioned `A b_c`, and formatting that again gives `A b c`:
      the as-written caption is neither free of `_` nor stable. */
  lemma {:induction false} TwoUnderscoresNotStable()
    ensures '_' in FormatPropertyType("A_B_C")[1..]
    ensures FormatPropertyType(FormatPropertyType("A_B_C")) != FormatPropertyType("A_B_C")
  {
    assert "A_B_C"[1..] == "_B_C";
    assert Text.Count("_B_C", '_') == 2;
    UnderscoreSurvives("A_B_C");
    FormatPropertyTypeStableIff("A_B_C");
  }

  /** With every underscore replaced the caption is always stable. */
  lemma {:induction false} FormatPropertyTypeAllStable(t: string)
    ensures FormatPropertyTypeAll(FormatPropertyTypeAll(t)) == FormatPropertyTypeAll(t)
  {
    if t != "" {
      var r := FormatPropertyTypeAll(t);
      assert r[1..] == Text.ReplaceAll(Text.ToLower(t[1..]), '_', ' ');
    }
  }

  /** On the values with at most one `_` after the first character the two
      captions agree. */
  lemma {:induction false} FormatPropertyTypeAllAgrees(t: string)
    requires t != "" && Text.Count(t[1..], '_') <= 1
    ensures FormatPropertyTypeAll(t) == FormatPropertyType(t)
  {
    var lower := Text.ToLower(t[1..]);
    Text.CountLower(t[1..], '_');
    Text.ReplaceAllOnce(lower, '_', ' ');
  }

  /** `VILLA` is captioned `Villa`. */
  lemma {:induction false} VillaCaption()
    ensures FormatPropertyType("VILLA") == "Villa"
  {
    assert Text.ToLower("ILLA") == "illa";
    Text.ReplaceFirstAbsent("illa", '_', ' ');
  }

  // ---- Room labels ----

  function BedroomLabel(bedrooms: int): (r: string)
    ensures r == "Bedroom" <==> bedrooms == 1
    ensures r == "Bedrooms" <==> bedrooms != 1
  {
    if bedrooms == 1 then "Bedroom" else "Bedrooms"
  }

  function BathroomLabel(bathrooms: int): (r: string)
    ensures r == "Bathroom" <==> bathrooms == 1
    ensures r == "Bathrooms" <==> bathrooms != 1
  {
    if bathrooms == 1 then "Bathroom" else "Bathrooms"
  }
}
