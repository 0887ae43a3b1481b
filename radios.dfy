/** The page's radio lists: reading the checked value of a group
    (`getRadioVal`) and building the entries `populateDropdowns` appends to
    a column list. */
module Radios {
  import opened JsStrings

  /** One list item of a radio list: its radio input and the text of its label. */
  datatype Entry = Entry(id: string, name: string, value: string, checked: bool, labelText: string)

  /** The radio lists of the form, by the id of their list element. */
  datatype Group = IndexCol | BaseStr | WrapperSel | GroupBy | SumField | AvgField {
    function Id(): string {
      match this
      case IndexCol => "indexCol"
      case BaseStr => "baseStr"
      case WrapperSel => "wrapperSel"
      case GroupBy => "groupBy"
      case SumField => "sumField"
      case AvgField => "avgField"
    }
  }

  /** The lists rebuilt from the CSV header, in the order they are rebuilt. */
  const ButtonsForRefresh: seq<Group> := [IndexCol, GroupBy, SumField, AvgField]

  /** The rebuilt lists are four different lists, none of them the
      base-structure or the wrapper list. */
  lemma ButtonsForRefreshDistinct()
    ensures forall i, j :: 0 <= i < j < |ButtonsForRefresh| ==> ButtonsForRefresh[i] != ButtonsForRefresh[j]
    ensures BaseStr !in ButtonsForRefresh && WrapperSel !in ButtonsForRefresh
  {
  }

  /** Entry `k` is checked and no entry before it is. */
  predicate IsFirstChecked(radios: seq<Entry>, k: int) {
    0 <= k < |radios| && radios[k].checked && forall i :: 0 <= i < k ==> !radios[i].checked
  }

  /** What `getRadioVal` reports for a list: the value of the first checked
      input in document order, `undefined` when none is checked. */
  function CheckedValue(radios: seq<Entry>): (v: JsVal)
    ensures v == Undef <==> forall i :: 0 <= i < |radios| ==> !radios[i].checked
    ensures forall k :: IsFirstChecked(radios, k) ==> v == Str(radios[k].value)
  {
    if radios == [] then Undef
    else if radios[0].checked then Str(radios[0].value)
    else
      assert forall k :: IsFirstChecked(radios, k) ==> k > 0 && IsFirstChecked(radios[1..], k - 1);
      CheckedValue(radios[1..])
  }

  /** `getRadioVal`: scans the inputs and stops at the first checked one. */
  method GetRadioVal(radios: seq<Entry>) returns (val: JsVal)
    ensures val == CheckedValue(radios)
  {
    val := Undef;
    for i := 0 to |radios|
      invariant forall j :: 0 <= j < i ==> !radios[j].checked
      invariant val == Undef
    {
      if radios[i].checked {
        val := Str(radios[i].value);
        assert IsFirstChecked(radios, i);
        return;
      }
    }
  }

  /** The radio group name of a rebuilt list: its id followed by `1`. */
  function GroupName(b: Group): string {
    b.Id() + "1"
  }

  /** The id of the `i`-th radio of a rebuilt list. */
  function RadioId(b: Group, i: nat): string {
    GroupName(b) + "_" + NatToString(i)
  }

  /** The options of a rebuilt list: `None`, then the first row of `data`
      split by the separator. */
  function Options(data: string, sep: string): seq<string> {
    ["None"] + Split(FirstLine(data), sep)
  }

  /** `e` is the entry built at position `i` of list `b` for option `opt`:
      id and group name from the list, the option as label, and either the
      empty value and checked (for an option reading `None`) or the option
      as value and unchecked. */
  predicate IsOptionEntry(e: Entry, b: Group, i: nat, opt: string) {
    && e.id == RadioId(b, i)
    && e.name == GroupName(b)
    && e.labelText == opt
    && e.checked == (opt == "None")
    && e.value == (if opt == "None" then "" else opt)
  }

  /** `list` holds exactly one entry per option, in option order. */
  predicate IsOptionList(list: seq<Entry>, b: Group, options: seq<string>) {
    |list| == |options| && forall i :: 0 <= i < |list| ==> IsOptionEntry(list[i], b, i, options[i])
  }

  /** The appending loop of `populateDropdowns`: one entry per option is
      added after the existing children. */
  method AppendOptions(children: seq<Entry>, b: Group, options: seq<string>) returns (result: seq<Entry>)
    ensures |result| == |children| + |options|
    ensures result[..|children|] == children
    ensures IsOptionList(result[|children|..], b, options)
  {
    result := children;
    var nameText := GroupName(b);
    for i := 0 to |options|
      invariant |result| == |children| + i
      invariant result[..|children|] == children
      invariant IsOptionList(result[|children|..], b, options[..i])
    {
      var opt := options[i];
      var inputId := nameText + "_" + NatToString(i);
      var value, checked := opt, false;
      if opt == "None" {
        value, checked := "", true;
      }
      var entry := Entry(inputId, nameText, value, checked, opt);
      OptionListAppend(result[|children|..], b, options[..i], entry, opt);
      assert (result + [entry])[|children|..] == result[|children|..] + [entry];
      assert options[..i + 1] == options[..i] + [opt];
      result := result + [entry];
    }
    assert options[..|options|] == options;
  }

  lemma OptionListAppend(list: seq<Entry>, b: Group, options: seq<string>, e: Entry, opt: string)
    requires IsOptionList(list, b, options) && IsOptionEntry(e, b, |options|, opt)
    ensures IsOptionList(list + [e], b, options + [opt])
  {
    forall i | 0 <= i < |list| + 1
      ensures IsOptionEntry((list + [e])[i], b, i, (options + [opt])[i])
    {
      if i < |list| {
        assert (list + [e])[i] == list[i] && (options + [opt])[i] == options[i];
      }
    }
  }

  /** A rebuilt list whose first option is the `None` sentinel reads as the
      empty string: the sentinel is the first checked input. */
  lemma RebuiltListReadsEmpty(list: seq<Entry>, b: Group, options: seq<string>)
    requires IsOptionList(list, b, options) && |options| >= 1 && options[0] == "None"
    ensures CheckedValue(list) == Str("")
    ensures !Truthy(CheckedValue(list))
  {
    assert IsFirstChecked(list, 0);
  }

  /** The ids of a rebuilt list are pairwise distinct. */
  lemma RebuiltIdsDistinct(list: seq<Entry>, b: Group, options: seq<string>)
    requires IsOptionList(list, b, options)
    ensures forall i, j :: 0 <= i < j < |list| ==> list[i].id != list[j].id
  {
    forall i, j | 0 <= i < j < |list| ensures list[i].id != list[j].id {
      var p := GroupName(b) + "_";
      if list[i].id == list[j].id {
        assert list[i].id[|p|..] == NatToString(i);
        assert list[j].id[|p|..] == NatToString(j);
        NatToStringInjective(i, j);
      }
    }
  }

  /** A rebuilt list is determined by its group and its options: two lists
      built for the same options are equal. */
  lemma OptionListUnique(l1: seq<Entry>, l2: seq<Entry>, b: Group, options: seq<string>)
    requires IsOptionList(l1, b, options) && IsOptionList(l2, b, options)
    ensures l1 == l2
  {
    forall i | 0 <= i < |l1| ensures l1[i] == l2[i] {
      assert IsOptionEntry(l1[i], b, i, options[i]) && IsOptionEntry(l2[i], b, i, options[i]);
    }
  }

  /** The header `id,name` split on `,`. */
  lemma SplitHeaderExample()
    ensures Split("id,name", ",") == ["id", "name"]
  {
    JoinThenSplit(["id", "name"], ",");
    assert Join(["id", "name"], ",") == "id" + "," + "name";
    assert "id" + "," + "name" == "id,name";
  }

  /** The options for `id,name` then a data row: the `None` sentinel and
      the two column names, in order. */
  lemma OptionsExample()
    ensures Options("id,name\n1,foo", ",") == ["None", "id", "name"]
  {
    assert "id,name\n1,foo" == "id,name" + "\n1,foo";
    FirstLineOf("id,name", "\n1,foo");
    SplitHeaderExample();
  }
}
