// The search form above the listings: its filter state, read from and
// written to the page address.

module InteractiveSearch {
  import opened Optional
  import JsNumber
  import FormUrlEncoded
  import Seqs

  /** The eight filters the form edits, in the order its initial state
      lists them. */
  datatype FilterKey =
    | Location | PropertyType | PriceMin | PriceMax
    | Bedrooms | Bathrooms | MinSquareFeet | MaxSquareFeet

  /** The name of a filter in the page address. */
  function KeyName(k: FilterKey): string {
    match k
    case Location => "location"
    case PropertyType => "propertyType"
    case PriceMin => "priceMin"
    case PriceMax => "priceMax"
    case Bedrooms => "bedrooms"
    case Bathrooms => "bathrooms"
    case MinSquareFeet => "minSquareFeet"
    case MaxSquareFeet => "maxSquareFeet"
  }

  /** Location and type are texts; the others are numbers. */
  predicate IsTextKey(k: FilterKey) { k == Location || k == PropertyType }

  /** A value the form stores: a text or a JavaScript number. */
  datatype Value = Text(s: string) | Num(n: JsNumber.Number)

  /** The form's state: the filters as an object's entries, in insertion
      order; a present key may hold `undefined` (`None`). */
  type Entries = seq<(FilterKey, Option<Value>)>

  predicate UniqueKeys(f: Entries) {
    forall i, j | 0 <= i < j < |f| :: f[i].0 != f[j].0
  }

  /** Text keys hold texts and number keys hold numbers. */
  predicate WellTyped(f: Entries) {
    forall i | 0 <= i < |f| && f[i].1.Some? :: f[i].1.value.Text? <==> IsTextKey(f[i].0)
  }

  /** A value that counts as set: not `undefined`, not `''`, not `0`. */
  predicate Active(v: Option<Value>) {
    v.Some? && v.value != Text("") && v.value != Num(JsNumber.Finite(0))
  }

  /** The value a key reads as; absent keys read as `undefined`. */
  function Lookup(f: Entries, k: FilterKey): (r: Option<Value>)
    ensures (forall i | 0 <= i < |f| :: f[i].0 != k) ==> r.None?
    ensures HasKey(f, k) ==> exists i | 0 <= i < |f| :: f[i] == (k, r) && forall j | 0 <= j < i :: f[j].0 != k
  {
    if f == [] then None
    else if f[0].0 == k then f[0].1
    else
      var r := Lookup(f[1..], k);
      assert forall i | 1 <= i < |f| :: f[1..][i - 1] == f[i];
      assert HasKey(f, k) ==> exists i | 0 <= i < |f| :: f[i] == (k, r) && forall j | 0 <= j < i :: f[j].0 != k by {
        if HasKey(f, k) {
          var m :| 0 <= m < |f| && f[m].0 == k;
          assert HasKey(f[1..], k) by { assert f[1..][m - 1] == f[m]; }
          var n :| 0 <= n < |f[1..]| && f[1..][n] == (k, r) && forall j | 0 <= j < n :: f[1..][j].0 != k;
          assert forall j | 0 <= j < n + 1 :: f[j].0 != k by {
            forall j | 0 <= j < n + 1 ensures f[j].0 != k {
              if j > 0 { assert f[j] == f[1..][j - 1]; }
            }
          }
        }
      }
      r
  }

  /** `Object.values(filters).some(...)`: some entry is set. */
  predicate HasActiveFilters(f: Entries) {
    exists i | 0 <= i < |f| :: Active(f[i].1)
  }

  /** Some entry has key `k`. */
  predicate HasKey(f: Entries, k: FilterKey) {
    exists i | 0 <= i < |f| :: f[i].0 == k
  }

  /** `{ ...f, [k]: v }`: a present key keeps its place and takes the new
      value; a new key goes last. */
  function Put(f: Entries, k: FilterKey, v: Option<Value>): (r: Entries)
    ensures |r| == if HasKey(f, k) then |f| else |f| + 1
  {
    if f == [] then [(k, v)]
    else if f[0].0 == k then [(k, v)] + f[1..]
    else
      assert HasKey(f, k) <==> HasKey(f[1..], k) by {
        if HasKey(f[1..], k) {
          var i :| 0 <= i < |f[1..]| && f[1..][i].0 == k;
          assert f[i + 1].0 == k;
        }
      }
      [f[0]] + Put(f[1..], k, v)
  }

  /** After `Put`, the key reads as the new value. */
  lemma {:induction false} PutReads(f: Entries, k: FilterKey, v: Option<Value>)
    ensures Lookup(Put(f, k, v), k) == v
  {
    if f != [] && f[0].0 != k {
      PutReads(f[1..], k, v);
    }
  }

  /** `Put` leaves every other key as it was. */
  lemma {:induction false} PutKeepsOthers(f: Entries, k: FilterKey, v: Option<Value>, other: FilterKey)
    requires other != k
    ensures Lookup(Put(f, k, v), other) == Lookup(f, other)
  {
    if f != [] && f[0].0 != k {
      PutKeepsOthers(f[1..], k, v, other);
    } else if f != [] {
      assert Put(f, k, v)[1..] == f[1..];
    }
  }

  /** `Put` adds at most the key it sets, so keys stay unique. */
  lemma {:induction false} PutUnique(f: Entries, k: FilterKey, v: Option<Value>)
    requires UniqueKeys(f)
    ensures UniqueKeys(Put(f, k, v))
    ensures forall i | 0 <= i < |Put(f, k, v)| :: Put(f, k, v)[i].0 == k || HasKey(f, Put(f, k, v)[i].0)
  {
    var r := Put(f, k, v);
    if f == [] {
    } else if f[0].0 == k {
      forall i | 0 < i < |r| ensures HasKey(f, r[i].0) { assert r[i] == f[i]; }
    } else {
      var rest := Put(f[1..], k, v);
      PutUnique(f[1..], k, v);
      assert r == [f[0]] + rest;
      forall i | 0 < i < |r| ensures r[i].0 != f[0].0 && (r[i].0 == k || HasKey(f, r[i].0)) {
        assert r[i] == rest[i - 1];
        if rest[i - 1].0 != k {
          var j :| 0 <= j < |f[1..]| && f[1..][j].0 == rest[i - 1].0;
          assert f[j + 1].0 == r[i].0;
        }
      }
      assert HasKey(f, f[0].0);
    }
  }

  /** `''` and `0` are stored as `undefined`. */
  function Normalize(v: Option<Value>): (r: Option<Value>)
    ensures r.None? <==> !Active(v)
    ensures Active(v) ==> r == v
  {
    if v == Some(Text("")) || v == Some(Num(JsNumber.Finite(0))) then None else v
  }

  /** `handleFilterChange(k, v)`: the new state. */
  function WithFilter(f: Entries, k: FilterKey, v: Option<Value>): Entries {
    Put(f, k, Normalize(v))
  }

  // ---- Reading the page address ----

  /** A text filter: the parameter, or `''` when it is missing or empty. */
  function TextParam(pairs: FormUrlEncoded.Pairs, k: FilterKey): (r: Option<Value>)
    ensures r.Some? && r.value.Text?
  {
    var g := FormUrlEncoded.Get(pairs, KeyName(k));
    Some(Text(if g.Some? then g.value else ""))
  }

  /** A number filter: `Number(parameter)` when the parameter is present and
      not empty, else `undefined`. */
  function NumberParam(pairs: FormUrlEncoded.Pairs, k: FilterKey): (r: Option<Value>)
    ensures NumOrNone(r)
  {
    var g := FormUrlEncoded.Get(pairs, KeyName(k));
    if g.Some? && g.value != "" then Some(Num(JsNumber.Parse(g.value))) else None
  }

  /** The form's first state: from the address query `search` in a
      browser, empty when rendered without one (`None`). */
  function InitialFilters(search: Option<string>): (r: Entries)
    ensures search.None? ==> r == []
  {
    if search.None? then []
    else
      var pairs := FormUrlEncoded.Parse(search.value);
      Layout(TextParam(pairs, Location), TextParam(pairs, PropertyType),
             NumberParam(pairs, PriceMin), NumberParam(pairs, PriceMax),
             NumberParam(pairs, Bedrooms), NumberParam(pairs, Bathrooms),
             NumberParam(pairs, MinSquareFeet), NumberParam(pairs, MaxSquareFeet))
  }

  /** Undefined, or a number. */
  predicate NumOrNone(v: Option<Value>) { v.None? || v.value.Num? }

  /** The eight filters in the form's order, with the given values. */
  function Layout(loc: Option<Value>, ty: Option<Value>, pmin: Option<Value>, pmax: Option<Value>,
                  beds: Option<Value>, baths: Option<Value>, amin: Option<Value>, amax: Option<Value>): Entries
  {
    [(Location, loc), (PropertyType, ty), (PriceMin, pmin), (PriceMax, pmax),
     (Bedrooms, beds), (Bathrooms, baths), (MinSquareFeet, amin), (MaxSquareFeet, amax)]
  }

  lemma {:induction false} LayoutUnique(loc: Option<Value>, ty: Option<Value>, pmin: Option<Value>, pmax: Option<Value>,
                     beds: Option<Value>, baths: Option<Value>, amin: Option<Value>, amax: Option<Value>)
    ensures UniqueKeys(Layout(loc, ty, pmin, pmax, beds, baths, amin, amax))
  {
  }

  /** The layout names each filter once, and holds texts exactly in the
      text filters when it is given them. */
  lemma {:induction false} LayoutShape(loc: Option<Value>, ty: Option<Value>, pmin: Option<Value>, pmax: Option<Value>,
                    beds: Option<Value>, baths: Option<Value>, amin: Option<Value>, amax: Option<Value>)
    requires loc.Some? && loc.value.Text? && ty.Some? && ty.value.Text?
    requires NumOrNone(pmin) && NumOrNone(pmax) && NumOrNone(beds)
    requires NumOrNone(baths) && NumOrNone(amin) && NumOrNone(amax)
    ensures var f := Layout(loc, ty, pmin, pmax, beds, baths, amin, amax);
      |f| == 8 && UniqueKeys(f) && WellTyped(f) && forall k :: HasKey(f, k)
  {
    var f := Layout(loc, ty, pmin, pmax, beds, baths, amin, amax);
    LayoutUnique(loc, ty, pmin, pmax, beds, baths, amin, amax);
    forall k ensures HasKey(f, k) {
      match k
      case Location => assert f[0].0 == k;
      case PropertyType => assert f[1].0 == k;
      case PriceMin => assert f[2].0 == k;
      case PriceMax => assert f[3].0 == k;
      case Bedrooms => assert f[4].0 == k;
      case Bathrooms => assert f[5].0 == k;
      case MinSquareFeet => assert f[6].0 == k;
      case MaxSquareFeet => assert f[7].0 == k;
    }
  }

  /** In a browser the form starts with all eight filters, each once, texts
      in the text filters and numbers in the others. */
  lemma {:induction false} InitialShape(search: string)
    ensures var f := InitialFilters(Some(search));
      |f| == 8 && UniqueKeys(f) && WellTyped(f) && forall k :: HasKey(f, k)
  {
    var pairs := FormUrlEncoded.Parse(search);
    var loc, ty := TextParam(pairs, Location), TextParam(pairs, PropertyType);
    var pmin, pmax := NumberParam(pairs, PriceMin), NumberParam(pairs, PriceMax);
    var beds, baths := NumberParam(pairs, Bedrooms), NumberParam(pairs, Bathrooms);
    var amin, amax := NumberParam(pairs, MinSquareFeet), NumberParam(pairs, MaxSquareFeet);
    assert InitialFilters(Some(search)) == Layout(loc, ty, pmin, pmax, beds, baths, amin, amax);
    LayoutShape(loc, ty, pmin, pmax, beds, baths, amin, amax);
  }

  /** The state after "Clear All": empty texts and undefined numbers. */
  const Cleared: Entries := Layout(Some(Text("")), Some(Text("")), None, None, None, None, None, None)

  // ---- Writing the page address ----

  /** `String(value)`. */
  function ValueText(v: Value): string {
    match v
    case Text(s) => s
    case Num(x) => JsNumber.ToText(x)
  }

  /** The name/value pairs of the set entries, in entry order. */
  /** The query pair of one entry: none when it is not set. */
  function Piece(e: (FilterKey, Option<Value>)): (r: FormUrlEncoded.Pairs)
    ensures r == [] <==> !Active(e.1)
  {
    if Active(e.1) then [(KeyName(e.0), ValueText(e.1.value))] else []
  }

  /** The name/value pairs of the set entries, in entry order. */
  function QueryPairs(f: Entries): (r: FormUrlEncoded.Pairs)
    ensures |r| <= |f|
  {
    if f == [] then [] else Piece(f[0]) + QueryPairs(f[1..])
  }

  /** The address a search goes to. */
  function ListingsUrl(f: Entries): string {
    var q := FormUrlEncoded.Serialize(QueryPairs(f));
    if q == "" then "/listings" else "/listings?" + q
  }

  // ---- The form ----

  /** The form component's state. */
  class SearchForm {
    var filters: Entries
    var hasFilters: bool
    var showAdvanced: bool

    /** Each key once, and the "Clear All" button shown exactly when some
        filter is set. */
    predicate Valid()
      reads this
    {
      UniqueKeys(filters) && hasFilters == HasActiveFilters(filters)
    }

    /** The form as first rendered, from the address query when there is
        one. */
    constructor(search: Option<string>)
      ensures filters == InitialFilters(search)
      ensures !showAdvanced
      ensures Valid()
    {
      if search.Some? {
        InitialShape(search.value);
      }
      filters := InitialFilters(search);
      hasFilters := HasActiveFilters(InitialFilters(search));
      showAdvanced := false;
    }

    /** One filter input changed. */
    method HandleFilterChange(k: FilterKey, v: Option<Value>)
      requires Valid()
      modifies this
      ensures filters == WithFilter(old(filters), k, v)
      ensures Lookup(filters, k) == Normalize(v)
      ensures forall other | other != k :: Lookup(filters, other) == Lookup(old(filters), other)
      ensures showAdvanced == old(showAdvanced)
      ensures Valid()
    {
      PutUnique(filters, k, Normalize(v));
      filters := WithFilter(filters, k, v);
      hasFilters := HasActiveFilters(filters);
      PutReads(old(filters), k, Normalize(v));
      forall other | other != k ensures Lookup(filters, other) == Lookup(old(filters), other) {
        PutKeepsOthers(old(filters), k, Normalize(v), other);
      }
    }

    /** The "More Filters" toggle. */
    method ToggleAdvanced()
      modifies this
      ensures showAdvanced == !old(showAdvanced)
      ensures filters == old(filters) && hasFilters == old(hasFilters)
    {
      showAdvanced := !showAdvanced;
    }

    /** "Search": the set filters, in entry order, become the query of the
        new address. */
    method HandleSearch() returns (url: string)
      requires Valid()
      ensures url == ListingsUrl(filters)
    {
      var params: FormUrlEncoded.Pairs := [];
      var i := 0;
      while i < |filters|
        invariant 0 <= i <= |filters|
        invariant params == QueryPairs(filters[..i])
      {
        var (key, value) := filters[i];
        SearchStep(filters, i);
        if Active(value) {
          params := FormUrlEncoded.Set(params, KeyName(key), ValueText(value.value));
        }
        i := i + 1;
      }
      assert filters[..i] == filters;
      var q := FormUrlEncoded.Serialize(params);
      url := if q != "" then "/listings?" + q else "/listings";
    }

    /** "Clear All": every filter cleared, and the address without query. */
    method ClearFilters() returns (url: string)
      modifies this
      ensures filters == Cleared && showAdvanced == old(showAdvanced)
      ensures url == "/listings"
      ensures Valid() && !hasFilters
    {
      filters := Cleared;
      ClearedIsInactive();
      hasFilters := false;
      url := "/listings";
    }
  }

  // ---- Properties ----

  /** Different filters have different names. */
  lemma {:induction false} KeyNamesDiffer(a: FilterKey, b: FilterKey)
    requires a != b
    ensures KeyName(a) != KeyName(b)
  {
    assert |KeyName(a)| != |KeyName(b)| || KeyName(a)[1] != KeyName(b)[1] || KeyName(a)[6] != KeyName(b)[6];
  }

  /** A name in the query belongs to an entry of the state. */
  lemma {:induction false} QueryNames(f: Entries, k: FilterKey)
    requires forall i | 0 <= i < |f| :: f[i].0 != k
    ensures !FormUrlEncoded.HasName(QueryPairs(f), KeyName(k))
  {
    if f != [] {
      assert forall i | 0 <= i < |f[1..]| :: f[1..][i] == f[i + 1];
      QueryNames(f[1..], k);
      if Active(f[0].1) {
        KeyNamesDiffer(f[0].0, k);
      }
      var head := Piece(f[0]);
      var r := QueryPairs(f);
      assert r == head + QueryPairs(f[1..]);
      forall i | 0 <= i < |r|
        ensures r[i].0 != KeyName(k)
      {
        if i >= |head| {
          assert r[i] == QueryPairs(f[1..])[i - |head|];
        }
      }
    }
  }

  /** One step of the search loop: setting the parameter of entry `i`
      extends the query of the entries before it. */
  lemma {:induction false} SearchStep(f: Entries, i: nat)
    requires UniqueKeys(f) && i < |f|
    ensures var params := QueryPairs(f[..i]);
      QueryPairs(f[..i + 1])
      == if Active(f[i].1) then FormUrlEncoded.Set(params, KeyName(f[i].0), ValueText(f[i].1.value)) else params
  {
    var params := QueryPairs(f[..i]);
    assert f[..i + 1] == f[..i] + [f[i]];
    QueryPairsSnoc(f[..i], f[i]);
    if Active(f[i].1) {
      QueryNames(f[..i], f[i].0);
    } else {
      Seqs.AppendEmpty(params);
    }
  }

  lemma {:induction false} QueryPairsSnoc(f: Entries, e: (FilterKey, Option<Value>))
    ensures QueryPairs(f + [e]) == QueryPairs(f) + Piece(e)
  {
    if f == [] {
      assert [] + [e] == [e];
    } else {
      assert (f + [e])[1..] == f[1..] + [e];
      QueryPairsSnoc(f[1..], e);
      Seqs.AppendAssoc(Piece(f[0]), QueryPairs(f[1..]), Piece(e));
    }
  }

  lemma {:induction false} QueryEmptyIff(f: Entries)
    ensures QueryPairs(f) == [] <==> !HasActiveFilters(f)
  {
    if f != [] {
      QueryEmptyIff(f[1..]);
      assert forall i | 1 <= i < |f| :: f[i] == f[1..][i - 1];
      if HasActiveFilters(f[1..]) {
        var i :| 0 <= i < |f[1..]| && Active(f[1..][i].1);
        assert Active(f[i + 1].1);
      }
    }
  }

  /** A search goes to the bare listings address exactly when no filter is
      set. */
  lemma {:induction false} BareUrlIffNoFilters(f: Entries)
    ensures ListingsUrl(f) == "/listings" <==> !HasActiveFilters(f)
  {
    QueryEmptyIff(f);
    FormUrlEncoded.SerializeEmpty(QueryPairs(f));
    var q := FormUrlEncoded.Serialize(QueryPairs(f));
    if q != "" {
      assert |"/listings?" + q| > |"/listings"|;
    }
  }

  /** Clearing leaves no filter set. */
  lemma {:induction false} ClearedIsInactive()
    ensures UniqueKeys(Cleared) && WellTyped(Cleared)
    ensures !HasActiveFilters(Cleared)
    ensures ListingsUrl(Cleared) == "/listings"
  {
    var e := Some(Text(""));
    LayoutShape(e, e, None, None, None, None, None, None);
    forall i | 0 <= i < |Cleared| ensures !Active(Cleared[i].1) {
      assert Cleared[i].1 in {e, None};
    }
    BareUrlIffNoFilters(Cleared);
  }

  /** In a state with unique keys, each entry's key reads as its value. */
  lemma {:induction false} LookupAt(f: Entries, i: nat)
    requires UniqueKeys(f) && i < |f|
    ensures Lookup(f, f[i].0) == f[i].1
  {
    if i > 0 {
      assert f[0].0 != f[i].0;
      assert f[1..][i - 1] == f[i];
      LookupAt(f[1..], i - 1);
    }
  }

  /** Some filter is set exactly when some key reads as set. */
  lemma {:induction false} ActiveByKey(f: Entries)
    requires UniqueKeys(f)
    ensures HasActiveFilters(f) <==> exists k :: Active(Lookup(f, k))
  {
    if HasActiveFilters(f) {
      var i :| 0 <= i < |f| && Active(f[i].1);
      LookupAt(f, i);
    }
  }

  /** A state that differs from `f` only at `k`, where it reads `w`, has
      a set filter exactly when `w` is set or another key of `f` is. */
  lemma {:induction false} FlagAfterUpdate(f: Entries, r: Entries, k: FilterKey, w: Option<Value>)
    requires UniqueKeys(f) && UniqueKeys(r)
    requires Lookup(r, k) == w
    requires forall other | other != k :: Lookup(r, other) == Lookup(f, other)
    ensures HasActiveFilters(r) <==> Active(w) || exists other | other != k :: Active(Lookup(f, other))
  {
    ActiveByKey(r);
    var others := exists other | other != k :: Active(Lookup(f, other));
    if HasActiveFilters(r) {
      var o :| Active(Lookup(r, o));
      if o != k {
        assert Active(Lookup(f, o));
        assert others;
      }
    }
    if others {
      var o :| o != k && Active(Lookup(f, o));
      assert Active(Lookup(r, o));
    }
    if Active(w) {
      assert Active(Lookup(r, k));
    }
  }

  /** After one input changes, "Clear All" shows exactly when the new value
      is set or some other filter already was. */
  lemma {:induction false} ChangeSetsFlag(f: Entries, k: FilterKey, v: Option<Value>)
    requires UniqueKeys(f)
    ensures HasActiveFilters(WithFilter(f, k, v))
      <==> Active(v) || exists other | other != k :: Active(Lookup(f, other))
  {
    var w := Normalize(v);
    var r := Put(f, k, w);
    PutUnique(f, k, w);
    PutReads(f, k, w);
    forall other | other != k ensures Lookup(r, other) == Lookup(f, other) {
      PutKeepsOthers(f, k, w, other);
    }
    FlagAfterUpdate(f, r, k, w);
  }

  /** The parameter a set filter contributes to the address. */
  lemma {:induction false} GetQuery(f: Entries, k: FilterKey)
    requires UniqueKeys(f)
    ensures FormUrlEncoded.Get(QueryPairs(f), KeyName(k))
      == if Active(Lookup(f, k)) then Some(ValueText(Lookup(f, k).value)) else None
  {
    if f != [] {
      var rest := f[1..];
      assert forall i | 0 <= i < |rest| :: rest[i] == f[i + 1];
      var r := QueryPairs(f);
      var name := KeyName(k);
      if Active(f[0].1) {
        assert r == [(KeyName(f[0].0), ValueText(f[0].1.value))] + QueryPairs(rest);
        assert r[1..] == QueryPairs(rest);
      } else {
        assert r == QueryPairs(rest);
      }
      if f[0].0 == k {
        if !Active(f[0].1) {
          QueryNames(rest, k);
        }
      } else {
        GetQuery(rest, k);
        if Active(f[0].1) {
          KeyNamesDiffer(f[0].0, k);
        }
      }
    }
  }

  /** Every text value of the state is ASCII. */
  predicate AsciiValues(f: Entries) {
    forall i | 0 <= i < |f| && f[i].1.Some? && f[i].1.value.Text? :: FormUrlEncoded.AsciiText(f[i].1.value.s)
  }

  lemma {:induction false} KeyNameAscii(k: FilterKey)
    ensures FormUrlEncoded.AsciiText(KeyName(k))
  {
  }

  lemma {:induction false} NumberTextAscii(x: JsNumber.Number)
    ensures FormUrlEncoded.AsciiText(JsNumber.ToText(x))
  {
    var t := JsNumber.ToText(x);
    if x.Finite? {
      var d := JsNumber.NatToDecimal(if x.value < 0 then -x.value else x.value);
      assert forall c | c in d :: JsNumber.IsDigit(c);
    }
  }

  lemma {:induction false} QueryAscii(f: Entries)
    requires AsciiValues(f)
    ensures forall i :: 0 <= i < |QueryPairs(f)| ==>
      FormUrlEncoded.AsciiText(QueryPairs(f)[i].0) && FormUrlEncoded.AsciiText(QueryPairs(f)[i].1)
  {
    if f != [] {
      var rest := f[1..];
      assert forall i | 0 <= i < |rest| :: rest[i] == f[i + 1];
      QueryAscii(rest);
      var head := Piece(f[0]);
      if Active(f[0].1) {
        KeyNameAscii(f[0].0);
        if f[0].1.value.Num? {
          NumberTextAscii(f[0].1.value.n);
        }
      }
      var r := QueryPairs(f);
      forall i | 0 <= i < |r|
        ensures FormUrlEncoded.AsciiText(r[i].0) && FormUrlEncoded.AsciiText(r[i].1)
      {
        if i >= |head| {
          assert r[i] == QueryPairs(rest)[i - |head|];
        }
      }
    }
  }

  lemma {:induction false} LayoutLookup(loc: Option<Value>, ty: Option<Value>, pmin: Option<Value>, pmax: Option<Value>,
                     beds: Option<Value>, baths: Option<Value>, amin: Option<Value>, amax: Option<Value>, k: FilterKey)
    ensures Lookup(Layout(loc, ty, pmin, pmax, beds, baths, amin, amax), k) == match k
      case Location => loc case PropertyType => ty case PriceMin => pmin case PriceMax => pmax
      case Bedrooms => beds case Bathrooms => baths case MinSquareFeet => amin case MaxSquareFeet => amax
  {
    LayoutUnique(loc, ty, pmin, pmax, beds, baths, amin, amax);
    var f := Layout(loc, ty, pmin, pmax, beds, baths, amin, amax);
    var i := match k
      case Location => 0 case PropertyType => 1 case PriceMin => 2 case PriceMax => 3
      case Bedrooms => 4 case Bathrooms => 5 case MinSquareFeet => 6 case MaxSquareFeet => 7;
    assert f[i].0 == k;
    LookupAt(f, i);
  }

  /** What the form reads from an address, key by key. */
  lemma {:induction false} InitialLookup(search: string, k: FilterKey)
    ensures var pairs := FormUrlEncoded.Parse(search);
      Lookup(InitialFilters(Some(search)), k)
      == if IsTextKey(k) then TextParam(pairs, k) else NumberParam(pairs, k)
  {
    var pairs := FormUrlEncoded.Parse(search);
    LayoutLookup(TextParam(pairs, Location), TextParam(pairs, PropertyType),
                 NumberParam(pairs, PriceMin), NumberParam(pairs, PriceMax),
                 NumberParam(pairs, Bedrooms), NumberParam(pairs, Bathrooms),
                 NumberParam(pairs, MinSquareFeet), NumberParam(pairs, MaxSquareFeet), k);
  }

  /** What a filter reads as after a reload: a set value itself, otherwise
      `''` for the texts and `undefined` for the numbers. */
  function Restored(k: FilterKey, v: Option<Value>): Option<Value> {
    if Active(v) then v else if IsTextKey(k) then Some(Text("")) else None
  }

  /** A value a well-typed state holds is text exactly for the text keys. */
  lemma {:induction false} LookupTyped(f: Entries, k: FilterKey)
    requires WellTyped(f)
    ensures Lookup(f, k).Some? ==> (Lookup(f, k).value.Text? <==> IsTextKey(k))
  {
  }

  /** The parameter read for a key whose text is that of a typed value `v`
      (or absent when `v` is not set) is `v` restored. */
  lemma {:induction false} ParamRestores(pairs: FormUrlEncoded.Pairs, k: FilterKey, v: Option<Value>)
    requires v.Some? ==> (v.value.Text? <==> IsTextKey(k))
    requires FormUrlEncoded.Get(pairs, KeyName(k)) == if Active(v) then Some(ValueText(v.value)) else None
    ensures (if IsTextKey(k) then TextParam(pairs, k) else NumberParam(pairs, k)) == Restored(k, v)
  {
    if Active(v) && v.value.Num? {
      JsNumber.ParseToText(v.value.n);
    }
  }

  /** A search's address, read back by a freshly loaded form, restores every
      set filter, when texts are ASCII. */
  lemma {:induction false} AddressRoundTrip(f: Entries, k: FilterKey)
    requires UniqueKeys(f) && WellTyped(f) && AsciiValues(f)
    ensures Lookup(InitialFilters(Some("?" + FormUrlEncoded.Serialize(QueryPairs(f)))), k)
      == Restored(k, Lookup(f, k))
  {
    var q := QueryPairs(f);
    var search := "?" + FormUrlEncoded.Serialize(q);
    QueryAscii(f);
    FormUrlEncoded.ParseSerialize(q);
    InitialLookup(search, k);
    GetQuery(f, k);
    LookupTyped(f, k);
    ParamRestores(q, k, Lookup(f, k));
  }
}
