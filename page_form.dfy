/** The page script's state and its four buttons. The form is an object
    whose fields are the page elements the script reads and writes: the CSV
    text, the separator field, the six radio lists, the four text fields,
    the two output panes, and the requests posted so far. */
module PageForm {
  import opened JsStrings
  import opened Sniffer
  import opened Radios
  import opened Encoder
  import opened PageParams


  class Form {
    /** `window.location.href`. */
    const href: string
    /** The text of the CSV input area. */
    var csvInput: string
    /** The separator field. */
    var csvSep: string
    /** The radio lists, by list id. */
    var groups: map<Group, seq<Entry>>
    var rootNode: string
    var nestKey: string
    var sumFieldName: string
    var avgFieldName: string
    /** The text shown in the preview and final-output panes. */
    var previewPane: string
    var finalOutputPane: string
    /** The requests posted so far, oldest first. */
    var sent: seq<Request>

    ghost predicate Valid()
      reads this
    {
      HasAllGroups(groups)
    }

    constructor (href: string, csvInput: string, csvSep: string, groups: map<Group, seq<Entry>>,
                 rootNode: string, nestKey: string, sumFieldName: string, avgFieldName: string)
      requires HasAllGroups(groups)
      ensures Valid()
      ensures this.href == href && this.csvInput == csvInput && this.csvSep == csvSep
      ensures this.groups == groups && this.rootNode == rootNode && this.nestKey == nestKey
      ensures this.sumFieldName == sumFieldName && this.avgFieldName == avgFieldName
      ensures previewPane == "" && finalOutputPane == "" && sent == []
    {
      this.href := href;
      this.csvInput := csvInput;
      this.csvSep := csvSep;
      this.groups := groups;
      this.rootNode := rootNode;
      this.nestKey := nestKey;
      this.sumFieldName := sumFieldName;
      this.avgFieldName := avgFieldName;
      previewPane := "";
      finalOutputPane := "";
      sent := [];
    }

    /** `detectSep`: writes the character sniffed from the first row into
        the separator field, or the empty string when none is found. */
    method DetectSep(data: string)
      modifies this`csvSep
      ensures csvSep == Sniff(data)
    {
      var firstRow := FirstLine(data);
      firstRow := StripPlain(firstRow);
      var maxChar := MostFrequent(firstRow);
      csvSep := maxChar;
    }

    /** `getParams`: reads the form and builds the request URL. */
    method GetParams() returns (url: string)
      requires Valid()
      ensures url == RequestUrl(href, ParamValues(csvSep, groups, rootNode, nestKey, sumFieldName, avgFieldName))
    {
      var indexCol := GetRadioVal(groups[IndexCol]);
      var baseStructure := GetRadioVal(groups[BaseStr]);
      var wrapperSel := GetRadioVal(groups[WrapperSel]);
      var groupBy := GetRadioVal(groups[GroupBy]);
      var sumField := GetRadioVal(groups[SumField]);
      var avgField := GetRadioVal(groups[AvgField]);
      var allFields := [Str(csvSep), indexCol, baseStructure, wrapperSel, groupBy, Str(rootNode),
                        Str(nestKey), sumField, Str(sumFieldName), avgField, Str(avgFieldName),
                        Bool(true), Str("input")];
      var urlParams := EncodeParams(FieldLabels, allFields);
      url := href + "output?" + urlParams;
    }

    /** `processData`: empties the target pane and posts the CSV text to
        the URL. */
    method ProcessData(data: string, url: string, postTo: Pane)
      modifies this`previewPane, this`finalOutputPane, this`sent
      ensures sent == old(sent) + [Request(url, data, postTo)]
      ensures postTo == Preview ==> previewPane == "" && finalOutputPane == old(finalOutputPane)
      ensures postTo == FinalOutput ==> finalOutputPane == "" && previewPane == old(previewPane)
    {
      if postTo == Preview {
        previewPane := "";
      } else {
        finalOutputPane := "";
      }
      sent := sent + [Request(url, data, postTo)];
    }

    /** `populateDropdowns`: empties list `button` and fills it with one
        radio per option of the first row, under the current separator. */
    method PopulateDropdowns(data: string, button: Group)
      requires Valid()
      modifies this`groups
      ensures Valid()
      ensures groups == old(groups)[button := groups[button]]
      ensures IsOptionList(groups[button], button, Options(data, csvSep))
    {
      var rows := FirstLine(data);
      var options := ["None"] + Split(rows, csvSep);
      var select := groups[button];
      while select != []
        decreases |select|
      {
        select := select[1..];
      }
      select := AppendOptions(select, button, options);
      groups := groups[button := select];
    }

    /** The refresh loop of the process and reprocess buttons. */
    method RefreshLists(data: string)
      requires Valid()
      modifies this`groups
      ensures Valid()
      ensures Refreshed(old(groups), groups, data, csvSep)
    {
      var options := Options(data, csvSep);
      ButtonsForRefreshDistinct();
      for i := 0 to |ButtonsForRefresh|
        invariant Valid()
        invariant groups.Keys == old(groups).Keys
        invariant forall j :: 0 <= j < i ==>
          IsOptionList(groups[ButtonsForRefresh[j]], ButtonsForRefresh[j], options)
        invariant groups[BaseStr] == old(groups)[BaseStr] && groups[WrapperSel] == old(groups)[WrapperSel]
      {
        PopulateDropdowns(data, ButtonsForRefresh[i]);
      }
      RefreshedByButtons(old(groups), groups, data, csvSep);
    }

    /** The process button: sniffs the separator, posts to the preview
        with the selections made before this click, then rebuilds the
        four column lists from the header. */
    method Process()
      requires Valid()
      modifies this`csvSep, this`groups, this`previewPane, this`finalOutputPane, this`sent
      ensures Valid()
      ensures csvSep == Sniff(csvInput)
      ensures sent == old(sent) + [Request(RequestUrl(href, ParamValues(csvSep, old(groups), rootNode,
                                   nestKey, sumFieldName, avgFieldName)), csvInput, Preview)]
      ensures previewPane == "" && finalOutputPane == old(finalOutputPane)
      ensures Refreshed(old(groups), groups, csvInput, csvSep)
    {
      DetectSep(csvInput);
      Reprocess();
    }

    /** The reprocess button: as the process button, without sniffing. */
    method Reprocess()
      requires Valid()
      modifies this`groups, this`previewPane, this`finalOutputPane, this`sent
      ensures Valid()
      ensures sent == old(sent) + [Request(RequestUrl(href, ParamValues(csvSep, old(groups), rootNode, nestKey, sumFieldName, avgFieldName)), csvInput, Preview)]
      ensures previewPane == "" && finalOutputPane == old(finalOutputPane)
      ensures Refreshed(old(groups), groups, csvInput, csvSep)
    {
      var data := csvInput;
      var url := GetParams();
      ProcessData(data, url, Preview);
      RefreshLists(data);
    }

    /** The update-preview button: posts the current form to the preview. */
    method UpdatePreview()
      requires Valid()
      modifies this`previewPane, this`finalOutputPane, this`sent
      ensures sent == old(sent) + [Request(RequestUrl(href, ParamValues(csvSep, groups, rootNode, nestKey, sumFieldName, avgFieldName)), csvInput, Preview)]
      ensures previewPane == "" && finalOutputPane == old(finalOutputPane)
    {
      var data := csvInput;
      var url := GetParams();
      ProcessData(data, url, Preview);
    }

    /** The convert button: posts the current form to the final-output pane. */
    method Convert()
      requires Valid()
      modifies this`previewPane, this`finalOutputPane, this`sent
      ensures sent == old(sent) + [Request(RequestUrl(href, ParamValues(csvSep, groups, rootNode, nestKey, sumFieldName, avgFieldName)), csvInput, FinalOutput)]
      ensures finalOutputPane == "" && previewPane == old(previewPane)
    {
      var data := csvInput;
      var url := GetParams();
      ProcessData(data, url, FinalOutput);
    }
  }

}
