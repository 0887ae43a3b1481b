/** The query encoding of `getParams`: thirteen values paired by position
    with fixed labels, `label=value` for each truthy value, joined by `&`.
    Values are concatenated as they are, without percent-encoding. */
module Encoder {
  import opened JsStrings

  /** The parameter names, in the order the values are collected. */
  const FieldLabels: seq<string> := [
    "csv_sep", "index_col", "base_structure", "wrapper", "group_by", "root_node", "child_field",
    "sum_field", "sum_field_name", "avg_field", "avg_field_name", "preview", "file_or_input"]

  /** `label + "=" + value`, with the value converted as `+` converts it. */
  function Pair(key: string, v: JsVal): string {
    key + "=" + ToText(v)
  }

  /** The `label=value` pieces the encoder emits: one per truthy value,
      in field order. */
  function IncludedPairs(labels: seq<string>, values: seq<JsVal>): seq<string>
    requires |labels| == |values|
    decreases |values|
  {
    if values == [] then []
    else
      var n := |values| - 1;
      IncludedPairs(labels[..n], values[..n]) + (if Truthy(values[n]) then [Pair(labels[n], values[n])] else [])
  }

  /** One more position adds its piece exactly when its value is truthy. */
  lemma IncludedPairsStep(labels: seq<string>, values: seq<JsVal>, i: nat)
    requires |labels| == |values| && i < |values|
    ensures IncludedPairs(labels[..i + 1], values[..i + 1])
         == IncludedPairs(labels[..i], values[..i]) + (if Truthy(values[i]) then [Pair(labels[i], values[i])] else [])
  {
    assert labels[..i + 1][..i] == labels[..i];
    assert values[..i + 1][..i] == values[..i];
  }

  /** The query string: the included pieces joined by `&`. */
  function EncodeQuery(labels: seq<string>, values: seq<JsVal>): string
    requires |labels| == |values|
  {
    Join(IncludedPairs(labels, values), "&")
  }

  /** The positions of the truthy values, in increasing order. */
  function TruthyIndices(values: seq<JsVal>): (r: seq<nat>)
    ensures forall k :: 0 <= k < |r| ==> r[k] < |values| && Truthy(values[r[k]])
    ensures forall k, l :: 0 <= k < l < |r| ==> r[k] < r[l]
    ensures forall i :: 0 <= i < |values| && Truthy(values[i]) ==> i in r
    decreases |values|
  {
    if values == [] then []
    else
      var n := |values| - 1;
      var front := TruthyIndices(values[..n]);
      assert forall i :: 0 <= i < n ==> values[..n][i] == values[i];
      front + (if Truthy(values[n]) then [n] else [])
  }

  /** A falsy position is never among the truthy ones. */
  lemma FalsyNotIncluded(values: seq<JsVal>, i: nat)
    requires i < |values| && !Truthy(values[i])
    ensures i !in TruthyIndices(values)
  {
  }

  /** Omission law: the pieces are exactly `label=value` for the truthy
      positions, in increasing position order; a falsy value contributes
      neither its label nor its value. */
  lemma {:induction false} IncludedPairsAreTruthyFields(labels: seq<string>, values: seq<JsVal>)
    requires |labels| == |values|
    ensures var ps, idx := IncludedPairs(labels, values), TruthyIndices(values);
      |ps| == |idx| && forall k :: 0 <= k < |ps| ==> ps[k] == Pair(labels[idx[k]], values[idx[k]])
    decreases |values|
  {
    if values != [] {
      var n := |values| - 1;
      IncludedPairsAreTruthyFields(labels[..n], values[..n]);
      var ps0, idx0 := IncludedPairs(labels[..n], values[..n]), TruthyIndices(values[..n]);
      forall k | 0 <= k < |ps0| ensures ps0[k] == Pair(labels[idx0[k]], values[idx0[k]]) {
        assert idx0[k] < n;
      }
    }
  }

  /** What the loop has accumulated: every piece followed by `&`. */
  function Terminated(ps: seq<string>): string
    decreases |ps|
  {
    if ps == [] then "" else Terminated(ps[..|ps| - 1]) + ps[|ps| - 1] + "&"
  }

  lemma TerminatedStep(ps: seq<string>, p: string)
    ensures Terminated(ps + [p]) == Terminated(ps) + p + "&"
  {
    assert (ps + [p])[..|ps|] == ps;
  }

  lemma {:induction false} TerminatedIsJoin(ps: seq<string>)
    requires ps != []
    ensures Terminated(ps) == Join(ps, "&") + "&"
    decreases |ps|
  {
    var front, last := ps[..|ps| - 1], ps[|ps| - 1];
    assert ps == front + [last];
    JoinAppend(front, last, "&");
    assert Terminated(ps) == Terminated(front) + last + "&";
    if front != [] {
      TerminatedIsJoin(front);
      assert Join(ps, "&") == Join(front, "&") + "&" + last;
      assert Terminated(ps) == (Join(front, "&") + "&") + last + "&";
    } else {
      assert Join(ps, "&") == last;
      assert Terminated(ps) == [] + last + "&";
    }
  }

  /** Chopping the last character of the accumulated text leaves the join;
      when nothing was accumulated, `substring(0, -1)` leaves the empty string. */
  lemma ChopLastIsJoin(ps: seq<string>)
    ensures var t := Terminated(ps); Substring(t, 0, |t| - 1) == Join(ps, "&")
  {
    if ps != [] {
      TerminatedIsJoin(ps);
      var t := Terminated(ps);
      assert t[0..|t| - 1] == Join(ps, "&");
    }
  }

  /** The loop of `getParams`: appends `label=value&` for each truthy value,
      then removes the final character. */
  method EncodeParams(labels: seq<string>, allFields: seq<JsVal>) returns (urlParams: string)
    requires |labels| == |allFields|
    ensures urlParams == EncodeQuery(labels, allFields)
  {
    urlParams := "";
    for i := 0 to |allFields|
      invariant urlParams == Terminated(IncludedPairs(labels[..i], allFields[..i]))
    {
      IncludedPairsStep(labels, allFields, i);
      ghost var before := IncludedPairs(labels[..i], allFields[..i]);
      if Truthy(allFields[i]) {
        ghost var piece := Pair(labels[i], allFields[i]);
        TerminatedStep(before, piece);
        ConcatPiece(urlParams, labels[i], ToText(allFields[i]));
        urlParams := urlParams + labels[i] + "=" + ToText(allFields[i]) + "&";
      } else {
        assert before + [] == before;
      }
    }
    assert labels[..|labels|] == labels && allFields[..|allFields|] == allFields;
    ChopLastIsJoin(IncludedPairs(labels, allFields));
    urlParams := Substring(urlParams, 0, |urlParams| - 1);
  }

  /** Appending the parts of a piece one by one appends the piece. */
  lemma ConcatPiece(acc: string, key: string, text: string)
    ensures acc + key + "=" + text + "&" == acc + (key + "=" + text) + "&"
  {
  }

  predicate EndsWith(s: string, suffix: string) {
    |suffix| <= |s| && s[|s| - |suffix|..] == suffix
  }

  predicate StartsWith(s: string, prefix: string) {
    prefix <= s
  }

  /** The fixed last two values give the last two pieces. */
  lemma FlagsAreLastPieces(values: seq<JsVal>)
    requires |values| == |FieldLabels|
    requires values[11] == Bool(true) && values[12] == Str("input")
    ensures IncludedPairs(FieldLabels, values)
         == IncludedPairs(FieldLabels[..11], values[..11]) + ["preview=true", "file_or_input=input"]
  {
    IncludedPairsStep(FieldLabels, values, 11);
    IncludedPairsStep(FieldLabels, values, 12);
    FlagPieces();
    assert FieldLabels[..13] == FieldLabels && values[..13] == values;
  }

  lemma FlagPieces()
    ensures Pair(FieldLabels[11], Bool(true)) == "preview=true"
    ensures Pair(FieldLabels[12], Str("input")) == "file_or_input=input"
  {
  }

  /** Joining with two final pieces ends with those pieces joined. */
  lemma JoinLastTwo(front: seq<string>, a: string, b: string)
    ensures var head := if front == [] then "" else Join(front, "&") + "&";
      Join(front + [a, b], "&") == head + (a + "&" + b)
  {
    assert front + [a, b] == (front + [a]) + [b];
    JoinAppend(front + [a], b, "&");
    JoinAppend(front, a, "&");
  }

  /** The part of the query before the two fixed flags. */
  function QueryHead(values: seq<JsVal>): string
    requires |values| == |FieldLabels|
  {
    var front := IncludedPairs(FieldLabels[..11], values[..11]);
    if front == [] then "" else Join(front, "&") + "&"
  }

  lemma QueryIsHeadAndFlags(values: seq<JsVal>)
    requires |values| == |FieldLabels|
    requires values[11] == Bool(true) && values[12] == Str("input")
    ensures EncodeQuery(FieldLabels, values) == QueryHead(values) + ("preview=true" + "&" + "file_or_input=input")
  {
    var front := IncludedPairs(FieldLabels[..11], values[..11]);
    FlagsAreLastPieces(values);
    JoinLastTwo(front, "preview=true", "file_or_input=input");
  }

  /** With `preview` true and `file_or_input` set to `input`, the query
      always ends with those two parameters, and so never with `&`. */
  lemma QueryEndsWithFlags(values: seq<JsVal>)
    requires |values| == |FieldLabels|
    requires values[11] == Bool(true) && values[12] == Str("input")
    ensures EndsWith(EncodeQuery(FieldLabels, values), "preview=true&file_or_input=input")
    ensures EncodeQuery(FieldLabels, values)[|EncodeQuery(FieldLabels, values)| - 1] != '&'
  {
    QueryIsHeadAndFlags(values);
    FlagsText();
    EndsWithAppend(QueryHead(values), "preview=true&file_or_input=input");
  }

  lemma FlagsText()
    ensures "preview=true" + "&" + "file_or_input=input" == "preview=true&file_or_input=input"
  {
  }

  lemma EndsWithAppend(head: string, tail: string)
    ensures EndsWith(head + tail, tail)
  {
    assert (head + tail)[|head|..] == tail;
  }

  /** A truthy separator is always the first parameter of the query. */
  lemma QueryStartsWithSeparator(values: seq<JsVal>)
    requires |values| == |FieldLabels|
    requires values[11] == Bool(true) && values[12] == Str("input")
    requires Truthy(values[0])
    ensures StartsWith(EncodeQuery(FieldLabels, values), "csv_sep=" + ToText(values[0]) + "&")
  {
    var front := IncludedPairs(FieldLabels[..11], values[..11]);
    FlagsAreLastPieces(values);
    var ps := IncludedPairs(FieldLabels, values);
    FirstPairLeads(FieldLabels[..11], values[..11], 11);
    assert ps[0] == Pair("csv_sep", values[0]) && |ps| >= 2;
    assert EncodeQuery(FieldLabels, values) == Pair("csv_sep", values[0]) + "&" + Join(ps[1..], "&");
  }

  /** The first included piece comes from position 0 when that value is truthy. */
  lemma {:induction false} FirstPairLeads(labels: seq<string>, values: seq<JsVal>, n: nat)
    requires |labels| == |values| == n >= 1 && Truthy(values[0])
    ensures var ps := IncludedPairs(labels, values); |ps| >= 1 && ps[0] == Pair(labels[0], values[0])
    decreases n
  {
    if n > 1 {
      assert labels[..n - 1][0] == labels[0] && values[..n - 1][0] == values[0];
      FirstPairLeads(labels[..n - 1], values[..n - 1], n - 1);
    } else {
      assert labels[..0] == [] && values[..0] == [];
    }
  }

  /** A server splitting the query at `&` recovers the pieces, provided no
      label or value contains `&`. */
  lemma QueryRoundTrip(labels: seq<string>, values: seq<JsVal>)
    requires |labels| == |values|
    requires exists i :: 0 <= i < |values| && Truthy(values[i])
    requires forall i :: 0 <= i < |values| ==> '&' !in Pair(labels[i], values[i])
    ensures Split(EncodeQuery(labels, values), "&") == IncludedPairs(labels, values)
  {
    IncludedPairsAreTruthyFields(labels, values);
    var ps, idx := IncludedPairs(labels, values), TruthyIndices(values);
    var i :| 0 <= i < |values| && Truthy(values[i]);
    assert i in idx;
    forall k | 0 <= k < |ps| ensures "&"[0] !in ps[k] {
      assert ps[k] == Pair(labels[idx[k]], values[idx[k]]);
    }
    JoinThenSplit(ps, "&");
  }

  /** The fields of the worked example: a separator, a base structure,
      the two fixed flags, and every other field falsy. */
  const ExampleValues: seq<JsVal> := [Str(","), Undef, Str("flat"), Undef, Undef, Str(""), Str(""),
                                      Undef, Str(""), Undef, Str(""), Bool(true), Str("input")]

  /** Positions `a` to `b` holding only falsy values add no piece. */
  lemma {:induction false} FalsyStretch(labels: seq<string>, values: seq<JsVal>, a: nat, b: nat)
    requires |labels| == |values| && a <= b <= |values|
    requires forall i :: a <= i < b ==> !Truthy(values[i])
    ensures IncludedPairs(labels[..b], values[..b]) == IncludedPairs(labels[..a], values[..a])
    decreases b - a
  {
    if a < b {
      IncludedPairsStep(labels, values, b - 1);
      FalsyStretch(labels, values, a, b - 1);
    }
  }

  lemma ExampleLeadingPieces()
    ensures IncludedPairs(FieldLabels[..11], ExampleValues[..11]) == ["csv_sep=,", "base_structure=flat"]
  {
    var l, v := FieldLabels, ExampleValues;
    IncludedPairsStep(l, v, 0);
    IncludedPairsStep(l, v, 1);
    IncludedPairsStep(l, v, 2);
    assert l[..0] == [] && v[..0] == [];
    assert Pair(l[0], v[0]) == "csv_sep=,";
    assert Pair(l[2], v[2]) == "base_structure=flat";
    assert IncludedPairs(l[..3], v[..3]) == ["csv_sep=,", "base_structure=flat"];
    FalsyStretch(l, v, 3, 11);
  }

  /** The query of the worked example omits every falsy field and keeps
      the others in field order. */
  lemma EncodeExample()
    ensures IncludedPairs(FieldLabels, ExampleValues)
         == ["csv_sep=,", "base_structure=flat", "preview=true", "file_or_input=input"]
    ensures EncodeQuery(FieldLabels, ExampleValues)
         == Join(["csv_sep=,", "base_structure=flat", "preview=true", "file_or_input=input"], "&")
    ensures EncodeQuery(FieldLabels, ExampleValues)
         == "csv_sep=,&base_structure=flat&preview=true&file_or_input=input"
  {
    ExampleIncludedPairs();
    ExampleQueryText();
  }

  /** The included pieces of the worked example. */
  lemma ExampleIncludedPairs()
    ensures IncludedPairs(FieldLabels, ExampleValues)
         == ["csv_sep=,", "base_structure=flat", "preview=true", "file_or_input=input"]
  {
    var l, v := FieldLabels, ExampleValues;
    ExampleLeadingPieces();
    IncludedPairsStep(l, v, 11);
    IncludedPairsStep(l, v, 12);
    assert Pair(l[11], v[11]) == "preview=true";
    assert Pair(l[12], v[12]) == "file_or_input=input";
    assert l[..13] == l && v[..13] == v;
  }

  /** The four example pieces joined by `&`, as one text. */
  lemma ExampleQueryText()
    ensures Join(["csv_sep=,", "base_structure=flat", "preview=true", "file_or_input=input"], "&")
         == "csv_sep=,&base_structure=flat&preview=true&file_or_input=input"
  {
    var a, b, c, d := "csv_sep=,", "base_structure=flat", "preview=true", "file_or_input=input";
    var ps := [a, b, c, d];
    assert ps[3..] == [d];
    JoinCons(c, ps[3..], "&");
    assert ps[2..] == [c] + ps[3..];
    JoinCons(b, ps[2..], "&");
    assert ps[1..] == [b] + ps[2..];
    JoinCons(a, ps[1..], "&");
    assert ps == [a] + ps[1..];
    JoinFourFromLeft(a, b, c, d, "&");
    ExampleTextFromLeft();
  }

  lemma JoinFourFromLeft(a: string, b: string, c: string, d: string, sep: string)
    ensures a + sep + (b + sep + (c + sep + d)) == (a + sep) + (b + sep) + (c + sep) + d
  {
  }

  /** The example text, built from the left one piece at a time. */
  lemma ExampleTextFromLeft()
    ensures ("csv_sep=," + "&") + ("base_structure=flat" + "&") + ("preview=true" + "&") + "file_or_input=input"
         == "csv_sep=,&base_structure=flat&preview=true&file_or_input=input"
  {
    assert "csv_sep=," + "&" == "csv_sep=,&";
    assert "base_structure=flat" + "&" == "base_structure=flat&";
    assert "preview=true" + "&" == "preview=true&";
    TwoPiecesText();
    ThreePiecesText();
    FourPiecesText();
  }

  lemma TwoPiecesText()
    ensures "csv_sep=,&" + "base_structure=flat&" == "csv_sep=,&base_structure=flat&"
  {
  }

  lemma ThreePiecesText()
    ensures "csv_sep=,&base_structure=flat&" + "preview=true&" == "csv_sep=,&base_structure=flat&preview=true&"
  {
  }

  lemma FourPiecesText()
    ensures "csv_sep=,&base_structure=flat&preview=true&" + "file_or_input=input"
         == "csv_sep=,&base_structure=flat&preview=true&file_or_input=input"
  {
  }
}
