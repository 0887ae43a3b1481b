/** What the buttons send: the request type, the values `getParams` reads
    from the form, the URL built from them, and what rebuilding the column
    lists does to those values. */
module PageParams {
  import opened JsStrings
  import opened Radios
  import opened Encoder

  /** The pane a request's answer is shown in. */
  datatype Pane = Preview | FinalOutput

  /** A POST to the conversion endpoint: its URL, the CSV text as its
      `data` field, and the pane whose content the answer replaces. */
  datatype Request = Request(url: string, data: string, target: Pane)

  /** Every radio list of the page exists. */
  predicate HasAllGroups(groups: map<Group, seq<Entry>>) {
    && IndexCol in groups && BaseStr in groups && WrapperSel in groups
    && GroupBy in groups && SumField in groups && AvgField in groups
  }

  /** The thirteen values `getParams` collects, in the order of the field
      labels: the separator field, the checked value of each radio list,
      the text fields, and the two fixed flags. */
  function ParamValues(csvSep: string, groups: map<Group, seq<Entry>>, rootNode: string,
                       nestKey: string, sumFieldName: string, avgFieldName: string): seq<JsVal>
    requires HasAllGroups(groups)
  {
    [Str(csvSep), CheckedValue(groups[IndexCol]), CheckedValue(groups[BaseStr]),
     CheckedValue(groups[WrapperSel]), CheckedValue(groups[GroupBy]), Str(rootNode), Str(nestKey),
     CheckedValue(groups[SumField]), Str(sumFieldName), CheckedValue(groups[AvgField]),
     Str(avgFieldName), Bool(true), Str("input")]
  }

  /** The request URL: the page address, `output?`, and the query. */
  function RequestUrl(href: string, values: seq<JsVal>): string
    requires |values| == |FieldLabels|
  {
    href + "output?" + EncodeQuery(FieldLabels, values)
  }

  /** The lists the buttons rebuild all hold the options of `data` under
      separator `sep`; the base-structure and wrapper lists are kept. */
  predicate Refreshed(before: map<Group, seq<Entry>>, after: map<Group, seq<Entry>>, data: string, sep: string)
    requires HasAllGroups(before) && HasAllGroups(after)
  {
    var options := Options(data, sep);
    && after.Keys == before.Keys
    && IsOptionList(after[IndexCol], IndexCol, options)
    && IsOptionList(after[GroupBy], GroupBy, options)
    && IsOptionList(after[SumField], SumField, options)
    && IsOptionList(after[AvgField], AvgField, options)
    && after[BaseStr] == before[BaseStr]
    && after[WrapperSel] == before[WrapperSel]
  }

  /** Rebuilding each list of `ButtonsForRefresh` while keeping the other
      two lists is what `Refreshed` asks for. */
  lemma RefreshedByButtons(before: map<Group, seq<Entry>>, after: map<Group, seq<Entry>>, data: string, sep: string)
    requires HasAllGroups(before) && HasAllGroups(after) && after.Keys == before.Keys
    requires forall j :: 0 <= j < |ButtonsForRefresh| ==>
      IsOptionList(after[ButtonsForRefresh[j]], ButtonsForRefresh[j], Options(data, sep))
    requires after[BaseStr] == before[BaseStr] && after[WrapperSel] == before[WrapperSel]
    ensures Refreshed(before, after, data, sep)
  {
    assert ButtonsForRefresh[0] == IndexCol && ButtonsForRefresh[1] == GroupBy;
    assert ButtonsForRefresh[2] == SumField && ButtonsForRefresh[3] == AvgField;
  }

  /** Every request URL is the page address followed by `output?` and a
      query that ends with the two fixed flags. */
  lemma UrlShape(href: string, csvSep: string, groups: map<Group, seq<Entry>>, rootNode: string,
                 nestKey: string, sumFieldName: string, avgFieldName: string)
    requires HasAllGroups(groups)
    ensures var url := RequestUrl(href, ParamValues(csvSep, groups, rootNode, nestKey, sumFieldName, avgFieldName));
      && StartsWith(url, href + "output?")
      && EndsWith(url, "preview=true&file_or_input=input")
  {
    var values := ParamValues(csvSep, groups, rootNode, nestKey, sumFieldName, avgFieldName);
    ParamValuesReadLists(csvSep, groups, rootNode, nestKey, sumFieldName, avgFieldName);
    QueryEndsWithFlags(values);
    PrefixAndSuffix(href + "output?", EncodeQuery(FieldLabels, values), "preview=true&file_or_input=input");
  }

  /** A text put after a head starts with the head and keeps the text's ending. */
  lemma PrefixAndSuffix(head: string, q: string, tail: string)
    requires EndsWith(q, tail)
    ensures StartsWith(head + q, head) && EndsWith(head + q, tail)
  {
    var url := head + q;
    assert url[..|head|] == head;
    assert url[|url| - |tail|..] == q[|q| - |tail|..];
  }

  /** With a non-empty separator field, the URL continues after `output?`
      with `csv_sep=<sep>&`. */
  lemma UrlLeadsWithSeparator(href: string, csvSep: string, groups: map<Group, seq<Entry>>, rootNode: string,
                              nestKey: string, sumFieldName: string, avgFieldName: string)
    requires HasAllGroups(groups) && csvSep != ""
    ensures StartsWith(RequestUrl(href, ParamValues(csvSep, groups, rootNode, nestKey, sumFieldName, avgFieldName)),
                       href + "output?csv_sep=" + csvSep + "&")
  {
    var values := ParamValues(csvSep, groups, rootNode, nestKey, sumFieldName, avgFieldName);
    var q := EncodeQuery(FieldLabels, values);
    ParamValuesReadLists(csvSep, groups, rootNode, nestKey, sumFieldName, avgFieldName);
    QueryStartsWithSeparator(values);
    assert href + "output?" + q == (href + "output?") + q;
    assert href + "output?csv_sep=" + csvSep + "&" == (href + "output?") + ("csv_sep=" + csvSep + "&");
  }

  /** After the lists are rebuilt, the index, group-by, sum and average
      selections read as the empty string, so the next request carries
      none of those four parameters. */
  lemma RebuiltSelectionsAreFalsy(before: map<Group, seq<Entry>>, after: map<Group, seq<Entry>>, data: string,
                                  sep: string, rootNode: string, nestKey: string, sumFieldName: string,
                                  avgFieldName: string)
    requires HasAllGroups(before) && HasAllGroups(after) && Refreshed(before, after, data, sep)
    ensures var values := ParamValues(sep, after, rootNode, nestKey, sumFieldName, avgFieldName);
      && values[1] == Str("") && values[4] == Str("") && values[7] == Str("") && values[9] == Str("")
  {
    RebuiltListsReadEmpty(before, after, data, sep);
    ParamValuesReadLists(sep, after, rootNode, nestKey, sumFieldName, avgFieldName);
  }

  /** So none of the positions of those four lists is among the positions
      whose `label=value` piece the query carries. */
  lemma RebuiltSelectionsOmitted(before: map<Group, seq<Entry>>, after: map<Group, seq<Entry>>, data: string,
                                 sep: string, rootNode: string, nestKey: string, sumFieldName: string,
                                 avgFieldName: string)
    requires HasAllGroups(before) && HasAllGroups(after) && Refreshed(before, after, data, sep)
    ensures var t := TruthyIndices(ParamValues(sep, after, rootNode, nestKey, sumFieldName, avgFieldName));
      1 !in t && 4 !in t && 7 !in t && 9 !in t
  {
    var values := ParamValues(sep, after, rootNode, nestKey, sumFieldName, avgFieldName);
    RebuiltSelectionsAreFalsy(before, after, data, sep, rootNode, nestKey, sumFieldName, avgFieldName);
    FalsyNotIncluded(values, 1);
    FalsyNotIncluded(values, 4);
    FalsyNotIncluded(values, 7);
    FalsyNotIncluded(values, 9);
  }

  lemma ParamValuesReadLists(csvSep: string, groups: map<Group, seq<Entry>>, rootNode: string,
                             nestKey: string, sumFieldName: string, avgFieldName: string)
    requires HasAllGroups(groups)
    ensures var values := ParamValues(csvSep, groups, rootNode, nestKey, sumFieldName, avgFieldName);
      && values[0] == Str(csvSep) && values[11] == Bool(true) && values[12] == Str("input")
      && values[1] == CheckedValue(groups[IndexCol]) && values[4] == CheckedValue(groups[GroupBy])
      && values[7] == CheckedValue(groups[SumField]) && values[9] == CheckedValue(groups[AvgField])
  {
    ValuesAt(csvSep, CheckedValue(groups[IndexCol]), CheckedValue(groups[BaseStr]),
             CheckedValue(groups[WrapperSel]), CheckedValue(groups[GroupBy]), rootNode, nestKey,
             CheckedValue(groups[SumField]), sumFieldName, CheckedValue(groups[AvgField]), avgFieldName);
  }

  /** The fixed positions of the thirteen values, for any list values. */
  lemma ValuesAt(csvSep: string, indexCol: JsVal, baseStr: JsVal, wrapperSel: JsVal, groupBy: JsVal,
                 rootNode: string, nestKey: string, sumField: JsVal, sumFieldName: string, avgField: JsVal,
                 avgFieldName: string)
    ensures var values := [Str(csvSep), indexCol, baseStr, wrapperSel, groupBy, Str(rootNode), Str(nestKey),
                           sumField, Str(sumFieldName), avgField, Str(avgFieldName), Bool(true), Str("input")];
      && values[0] == Str(csvSep) && values[11] == Bool(true) && values[12] == Str("input")
      && values[1] == indexCol && values[4] == groupBy && values[7] == sumField && values[9] == avgField
  {
  }

  /** The four rebuilt lists each read as the empty string. */
  lemma RebuiltListsReadEmpty(before: map<Group, seq<Entry>>, after: map<Group, seq<Entry>>, data: string,
                              sep: string)
    requires HasAllGroups(before) && HasAllGroups(after) && Refreshed(before, after, data, sep)
    ensures CheckedValue(after[IndexCol]) == Str("") && CheckedValue(after[GroupBy]) == Str("")
    ensures CheckedValue(after[SumField]) == Str("") && CheckedValue(after[AvgField]) == Str("")
  {
    var options := Options(data, sep);
    assert options[0] == "None";
    RebuiltListReadsEmpty(after[IndexCol], IndexCol, options);
    RebuiltListReadsEmpty(after[GroupBy], GroupBy, options);
    RebuiltListReadsEmpty(after[SumField], SumField, options);
    RebuiltListReadsEmpty(after[AvgField], AvgField, options);
  }
}
