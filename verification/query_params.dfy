/**
 * Query-parameter handling of `src/utils.ts`: dropping empty-valued parameters
 * (`removeEmptyValue`), turning one entry into `key=value` (`stringifyKeyValuePair`) and
 * joining the entries into a query string (`buildQueryString`).
 */
module QueryParams {
  import opened Results
  import opened Strings
  import opened JsValues
  import opened UriComponent

  /** An object's entries in `Object.entries` order. */
  type Params = seq<(string, Value)>

  /** A JavaScript object never holds two entries under one key. */
  predicate DistinctKeys(ps: Params)
  {
    forall i, j :: 0 <= i < j < |ps| ==> ps[i].0 != ps[j].0
  }

  /** `a` is `b` with some elements removed and the rest in their original order. */
  ghost predicate IsSubsequence<T>(a: seq<T>, b: seq<T>)
    decreases |b|
  {
    if |a| == 0 then true
    else if |b| == 0 then false
    else if a[0] == b[0] then IsSubsequence(a[1..], b[1..])
    else IsSubsequence(a, b[1..])
  }

  /** The entries `delete` leaves behind after every empty-valued key is removed. */
  function Strip(ps: Params): (r: Params)
    ensures forall e :: e in r <==> e in ps && !IsEmptyValue(e.1)
    ensures IsSubsequence(r, ps)
  {
    if |ps| == 0 then []
    else if IsEmptyValue(ps[0].1) then
      var rest := Strip(ps[1..]);
      assert |rest| > 0 ==> rest[0] in rest && rest[0] != ps[0];
      rest
    else [ps[0]] + Strip(ps[1..])
  }

  /** The entries of an array: each element under its index written in decimal. */
  function IndexEntries(items: seq<string>): (r: Params)
    ensures |r| == |items|
    ensures forall i :: 0 <= i < |items| ==> r[i] == (NatToString(i), Str(items[i]))
  {
    seq(|items|, i requires 0 <= i < |items| => (NatToString(i), Str(items[i])))
  }

  /** The entries of a string: each character under its index. */
  function CharEntries(s: string): (r: Params)
    ensures |r| == |s|
    ensures forall i :: 0 <= i < |s| ==> r[i] == (NatToString(i), Str([s[i]]))
  {
    seq(|s|, i requires 0 <= i < |s| => (NatToString(i), Str([s[i]])))
  }

  /**
   * `removeEmptyValue(obj)`: a non-object gives a fresh `{}`; an object (an array being
   * one) loses exactly its empty-valued keys in place, the others keeping value and order.
   * An array with holes is represented by its remaining index entries.
   */
  function RemoveEmptyValue(v: Value): (r: Params)
    ensures !IsObject(v) ==> r == []
    ensures forall e :: e in r ==> !IsEmptyValue(e.1)
    ensures v.Obj? ==> IsSubsequence(r, v.entries)
    ensures v.Obj? ==> forall e :: e in r <==> e in v.entries && !IsEmptyValue(e.1)
    ensures v.Arr? ==> IsSubsequence(r, IndexEntries(v.items))
    ensures v.Arr? ==> forall e :: e in r <==> e in IndexEntries(v.items) && !IsEmptyValue(e.1)
  {
    match v
    case Obj(es) => Strip(es)
    case Arr(items) => Strip(IndexEntries(items))
    case _ => []
  }

  lemma {:induction false} StripClean(ps: Params)
    requires forall e :: e in ps ==> !IsEmptyValue(e.1)
    ensures Strip(ps) == ps
  {
    if |ps| > 0 {
      assert ps[0] in ps;
      assert forall e :: e in ps[1..] ==> e in ps;
      StripClean(ps[1..]);
      assert [ps[0]] + ps[1..] == ps;
    }
  }

  /** Stripping what was already stripped removes nothing further. */
  lemma RemoveEmptyValueIdempotent(v: Value)
    ensures RemoveEmptyValue(Obj(RemoveEmptyValue(v))) == RemoveEmptyValue(v)
  {
    StripClean(RemoveEmptyValue(v));
  }

  /** Removing entries cannot make two keys collide. */
  lemma {:induction false} StripKeepsDistinctKeys(ps: Params)
    requires DistinctKeys(ps)
    ensures DistinctKeys(Strip(ps))
  {
    if |ps| > 0 {
      assert DistinctKeys(ps[1..]);
      StripKeepsDistinctKeys(ps[1..]);
      var rest := Strip(ps[1..]);
      if !IsEmptyValue(ps[0].1) {
        forall j | 0 <= j < |rest|
          ensures rest[j].0 != ps[0].0
        {
          assert rest[j] in rest;
          var k :| 0 <= k < |ps[1..]| && ps[1..][k] == rest[j];
          assert ps[k + 1] == rest[j];
        }
      }
    }
  }

  /** The example `{a: "", b: null, c: [], d: {}, e: "x"}` strips to `{e: "x"}`. */
  lemma StripExample()
    ensures RemoveEmptyValue(Obj([("a", Str("")), ("b", Null), ("c", Arr([])), ("d", Obj([])), ("e", Str("x"))]))
            == [("e", Str("x"))]
  {
    assert !IsJsWhitespace("x"[0]);
  }

  /**
   * The text `encodeURIComponent` receives for a value: an array becomes its items, each
   * in double quotes, separated by commas and enclosed in brackets, with no escaping; any
   * other value is its `String` conversion.
   */
  function ValueString(v: Value): (r: string)
    ensures v.Arr? ==> |r| >= 4 && r[..2] == "[\"" && r[|r| - 2..] == "\"]"
    ensures !v.Arr? ==> r == ToString(v)
  {
    if v.Arr? then "[\"" + Join(v.items, "\",\"") + "\"]" else ToString(v)
  }

  // ----- reading the array text back -----

  /** Index of the first `"` in `s`, or `|s|` when there is none. */
  function QuoteEnd(s: string): (r: nat)
    ensures r <= |s|
    ensures forall i :: 0 <= i < r ==> s[i] != '"'
    ensures r < |s| ==> s[r] == '"'
  {
    if |s| == 0 || s[0] == '"' then 0 else 1 + QuoteEnd(s[1..])
  }

  /** Reads `"a","b",...` back into its items, none of which can hold `"`. */
  function ParseQuotedItems(s: string): Option<seq<string>>
    decreases |s|
  {
    if |s| == 0 || s[0] != '"' then None
    else
      var body := s[1..];
      var k := QuoteEnd(body);
      if k == |body| then None
      else
        var rest := body[k + 1..];
        if rest == "" then Some([body[..k]])
        else if rest[0] != ',' then None
        else
          match ParseQuotedItems(rest[1..])
          case None => None
          case Some(more) => Some([body[..k]] + more)
  }

  /** Reads the bracketed array text back into its items. */
  function ParseArrayText(t: string): Option<seq<string>>
  {
    if |t| >= 2 && t[0] == '[' && t[|t| - 1] == ']' then ParseQuotedItems(t[1..|t| - 1]) else None
  }

  lemma QuoteEndAt(a: string, b: string)
    requires '"' !in a
    ensures QuoteEnd(a + "\"" + b) == |a|
  {
    var s := a + "\"" + b;
    assert s[|a|] == '"';
  }

  /** A last quoted item reads back alone. */
  lemma ParseLastItem(a: string)
    requires '"' !in a
    ensures ParseQuotedItems("\"" + a + "\"") == Some([a])
  {
    var s := "\"" + a + "\"";
    var body := s[1..];
    assert body == a + "\"" + "";
    QuoteEndAt(a, "");
    assert body[..|a|] == a;
    assert body[|a| + 1..] == "";
  }

  /** A quoted item followed by a comma reads back before whatever the rest reads back as. */
  lemma {:induction false} ParseItemThenMore(a: string, t: string)
    requires '"' !in a
    ensures ParseQuotedItems("\"" + a + "\"" + "," + t)
            == match ParseQuotedItems(t) case None => None case Some(more) => Some([a] + more)
  {
    var s := "\"" + a + "\"" + "," + t;
    var body := s[1..];
    assert body == a + "\"" + ("," + t);
    QuoteEndAt(a, "," + t);
    assert body[..|a|] == a;
    assert body[|a| + 1..] == "," + t;
    assert ("," + t)[1..] == t;
  }

  lemma {:induction false} QuotedItemsRoundTrip(items: seq<string>)
    requires |items| >= 1
    requires forall i :: 0 <= i < |items| ==> '"' !in items[i]
    ensures ParseQuotedItems("\"" + Join(items, "\",\"") + "\"") == Some(items)
  {
    assert '"' !in items[0];
    if |items| == 1 {
      assert Join(items, "\",\"") == items[0];
      ParseLastItem(items[0]);
      assert items == [items[0]];
    } else {
      var t := "\"" + Join(items[1..], "\",\"") + "\"";
      assert "\"" + Join(items, "\",\"") + "\"" == "\"" + items[0] + "\"" + "," + t;
      ParseItemThenMore(items[0], t);
      QuotedItemsRoundTrip(items[1..]);
      assert [items[0]] + items[1..] == items;
    }
  }

  /**
   * The array text reads back as the array's items whenever the array has an item and no
   * item holds a double quote.
   */
  lemma ArrayTextRoundTrip(items: seq<string>)
    requires |items| >= 1
    requires forall i :: 0 <= i < |items| ==> '"' !in items[i]
    ensures ParseArrayText(ValueString(Arr(items))) == Some(items)
  {
    var t := ValueString(Arr(items));
    assert t[1..|t| - 1] == "\"" + Join(items, "\",\"") + "\"";
    QuotedItemsRoundTrip(items);
  }

  /**
   * The array text does not escape: an empty array reads like one empty item, and an item
   * holding `","` reads like two items.
   */
  lemma ArrayTextAmbiguous()
    ensures ValueString(Arr([])) == ValueString(Arr([""]))
    ensures ValueString(Arr(["a\",\"b"])) == ValueString(Arr(["a", "b"]))
  {
  }

  /**
   * `stringifyKeyValuePair([key, value])`: the key as it is, `=`, then the encoded value
   * text, which decodes back to that text and holds neither `&` nor `=`.
   */
  function StringifyKeyValuePair(key: string, value: Value): (r: string)
    ensures |r| > |key| && r[..|key|] == key && r[|key|] == '='
    ensures '&' !in r[|key| + 1..] && '=' !in r[|key| + 1..]
  {
    var encoded := EncodeURIComponent(ValueString(value));
    EncodedHasNoDelimiter(ValueString(value));
    assert (key + "=" + encoded)[|key| + 1..] == encoded;
    key + "=" + encoded
  }

  /** What follows the key and `=` decodes back to the value's text. */
  lemma StringifyDecodes(key: string, value: Value)
    ensures var r := StringifyKeyValuePair(key, value);
            DecodeURIComponent(r[|key| + 1..]) == Some(ValueString(value))
  {
    var encoded := EncodeURIComponent(ValueString(value));
    EncodeDecodeRoundTrip(ValueString(value));
    assert (key + "=" + encoded)[|key| + 1..] == encoded;
  }

  lemma EncodeAsciiReserved(c: char)
    requires c as int < 0x80 && !IsUnreserved(c)
    ensures EncodeChar(c) == ['%', HexDigit(c as int / 16), HexDigit(c as int % 16)]
  {
    assert Utf8(c) == [c as int];
    assert PercentEncode([c as int]) == ['%', HexDigit(c as int / 16), HexDigit(c as int % 16)] + PercentEncode([]);
  }

  lemma EncodeBrackets()
    ensures EncodeChar('[') == "%5B" && EncodeChar(']') == "%5D"
    ensures EncodeChar('"') == "%22" && EncodeChar(',') == "%2C"
  {
    EncodeAsciiReserved('[');
    EncodeAsciiReserved(']');
    EncodeAsciiReserved('"');
    EncodeAsciiReserved(',');
    assert HexDigit(5) == '5' && HexDigit(11) == 'B' && HexDigit(13) == 'D';
    assert HexDigit(2) == '2' && HexDigit(12) == 'C';
  }

  // The wire-format example below is assembled from three short pieces, each encoded on its own.

  lemma EncodeOpening()
    ensures EncodeURIComponent("[\"a") == "%5B%22a"
  {
    EncodeBrackets();
  }

  lemma EncodeSeparator()
    ensures EncodeURIComponent("\",\"") == "%22%2C%22"
  {
    EncodeBrackets();
  }

  lemma EncodeClosing()
    ensures EncodeURIComponent("b\"]") == "b%22%5D"
  {
    EncodeBrackets();
  }

  lemma EncodePieces(x: string, y: string, z: string)
    requires EncodeURIComponent(x) == "%5B%22a" && EncodeURIComponent(y) == "%22%2C%22"
    requires EncodeURIComponent(z) == "b%22%5D"
    ensures EncodeURIComponent(x + y + z) == "%5B%22a%22%2C%22b%22%5D"
  {
    EncodeAppend(x + y, z);
    EncodeAppend(x, y);
    EncodedPiecesJoin();
  }

  lemma EncodedPiecesJoin()
    ensures "%5B%22a" + "%22%2C%22" + "b%22%5D" == "%5B%22a%22%2C%22b%22%5D"
  {
  }

  lemma ArrayTextPieces()
    ensures ValueString(Arr(["a", "b"])) == "[\"a" + "\",\"" + "b\"]"
  {
  }

  lemma WireJoin()
    ensures "tags" + "=" + "%5B%22a%22%2C%22b%22%5D" == "tags=%5B%22a%22%2C%22b%22%5D"
  {
  }

  /** The array `["a","b"]` under `tags` is sent as `tags=%5B%22a%22%2C%22b%22%5D`. */
  lemma ArrayWireFormat()
    ensures StringifyKeyValuePair("tags", Arr(["a", "b"])) == "tags=%5B%22a%22%2C%22b%22%5D"
  {
    var x, y, z := "[\"a", "\",\"", "b\"]";
    ArrayTextPieces();
    EncodeOpening();
    EncodeSeparator();
    EncodeClosing();
    EncodePieces(x, y, z);
    WireJoin();
  }

  /** `Object.entries(v)` for a truthy value; a number or `true` has none. */
  function Entries(v: Value): (r: Params)
    requires !IsFalsy(v)
    ensures v.Obj? ==> r == v.entries
    ensures v.Arr? ==> r == IndexEntries(v.items)
    ensures v.Str? ==> |r| == |v.s| && forall i :: 0 <= i < |v.s| ==> r[i] == (NatToString(i), Str([v.s[i]]))
    ensures v.Bool? || v.Int? ==> r == []
  {
    match v
    case Obj(es) => es
    case Arr(items) => IndexEntries(items)
    case Str(s) => CharEntries(s)
    case _ => []
  }

  /** The `key=value` segment of each entry, in entry order. */
  function Segments(ps: Params): (r: seq<string>)
    ensures |r| == |ps|
    ensures forall i :: 0 <= i < |ps| ==> r[i] == StringifyKeyValuePair(ps[i].0, ps[i].1)
  {
    seq(|ps|, i requires 0 <= i < |ps| => StringifyKeyValuePair(ps[i].0, ps[i].1))
  }

  /**
   * `buildQueryString(params)`: empty for a falsy argument and for an object without
   * entries; otherwise the entries' segments joined by `&`.
   */
  function BuildQueryString(v: Value): (r: string)
    ensures IsFalsy(v) ==> r == ""
    ensures v.Obj? ==> (r == "" <==> |v.entries| == 0)
  {
    if IsFalsy(v) then "" else Join(Segments(Entries(v)), "&")
  }

  /** Splitting the query string on `&` gives back one segment per entry when no key holds `&`. */
  lemma QuerySplitsIntoSegments(ps: Params)
    requires |ps| >= 1
    requires forall i :: 0 <= i < |ps| ==> '&' !in ps[i].0
    ensures SplitOn(BuildQueryString(Obj(ps)), '&') == Segments(ps)
  {
    var segs := Segments(ps);
    forall i | 0 <= i < |segs|
      ensures '&' !in segs[i]
    {
      var k := ps[i].0;
      assert segs[i] == segs[i][..|k|] + [segs[i][|k|]] + segs[i][|k| + 1..];
    }
    SplitJoin(segs, '&');
  }

  // ----- reading a query string back -----

  /** The part of `s` before the first `c` and the part after it (all of `s` and "" if none). */
  function SplitAtFirst(s: string, c: char): (string, string)
  {
    if |s| == 0 then ("", "")
    else if s[0] == c then ("", s[1..])
    else
      var (a, b) := SplitAtFirst(s[1..], c);
      ([s[0]] + a, b)
  }

  lemma {:induction false} SplitAtFirstPrefix(k: string, c: char, t: string)
    requires c !in k
    ensures SplitAtFirst(k + [c] + t, c) == (k, t)
  {
    var s := k + [c] + t;
    if |k| == 0 {
      assert s[1..] == t;
    } else {
      assert s[1..] == k[1..] + [c] + t;
      assert c !in k[1..];
      SplitAtFirstPrefix(k[1..], c, t);
      assert [k[0]] + k[1..] == k;
    }
  }

  /** A server reading `key=value` segments: key before the first `=`, decoded value after it. */
  function ParseQuery(q: string): seq<(string, Option<string>)>
  {
    if q == "" then []
    else
      var segs := SplitOn(q, '&');
      seq(|segs|, i requires 0 <= i < |segs| =>
        var (k, enc) := SplitAtFirst(segs[i], '=');
        (k, DecodeURIComponent(enc)))
  }

  /**
   * Reading the query string back gives every entry's key with its value text, in entry
   * order, whenever no key holds `&` or `=`.
   */
  lemma {:induction false} QueryRoundTrip(ps: Params)
    requires forall i :: 0 <= i < |ps| ==> '&' !in ps[i].0 && '=' !in ps[i].0
    ensures |ParseQuery(BuildQueryString(Obj(ps)))| == |ps|
    ensures forall i :: 0 <= i < |ps| ==>
      ParseQuery(BuildQueryString(Obj(ps)))[i] == (ps[i].0, Some(ValueString(ps[i].1)))
  {
    if |ps| > 0 {
      QuerySplitsIntoSegments(ps);
      var segs := Segments(ps);
      forall i | 0 <= i < |ps|
        ensures SplitAtFirst(segs[i], '=') == (ps[i].0, segs[i][|ps[i].0| + 1..])
        ensures DecodeURIComponent(segs[i][|ps[i].0| + 1..]) == Some(ValueString(ps[i].1))
      {
        var k := ps[i].0;
        StringifyDecodes(k, ps[i].1);
        assert segs[i] == k + ['='] + segs[i][|k| + 1..];
        SplitAtFirstPrefix(k, '=', segs[i][|k| + 1..]);
      }
    }
  }
}
