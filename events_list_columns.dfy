/**
 * The column model of the events table: for every column, the value it derives from one
 * hit (its accessor), the categorical filter some columns declare, and the filter options.
 * Rendering is not modelled.
 */
module EventsListColumns {
  import opened Wrappers
  import opened Schemas

  datatype ColumnId = VisibilityStatus | Newsvalue | Title | Section | PlanningStatus | EventTime | Action

  /** The `id` the table library knows each column by. */
  function ColumnIdName(c: ColumnId): string {
    match c
    case VisibilityStatus => "visibilityStatus"
    case Newsvalue => "newsvalue"
    case Title => "title"
    case Section => "section"
    case PlanningStatus => "planning_status"
    case EventTime => "event_time"
    case Action => "action"
  }

  /** One entry of a column's filter options. */
  datatype FilterOption = FilterOption(labelText: string, value: string)

  /** A section as the local data store holds it. */
  datatype IDBSection = IDBSection(id: string, title: string)

  /** The option lists of the visibility and news-value columns, fixed elsewhere in the application. */
  datatype Defaults = Defaults(visibilityStatuses: seq<FilterOption>, newsvalues: seq<FilterOption>)

  /** What a column's accessor yields for one hit; undefined is `None`, and an invalid date is `None` too. */
  datatype CellValue = Text(text: Option<string>) | TimeRange(start: Option<int>, end: Option<int>) | NoAccessor

  /** `field?.[0]`: the first value of an optional list field, undefined when the field is absent or empty. */
  function FirstOf(field: Option<seq<string>>): (v: Option<string>)
    ensures v.Some? <==> field.Some? && |field.value| > 0
    ensures v.Some? ==> v.value == field.value[0]
  {
    match field
    case None => None
    case Some(values) => if |values| == 0 then None else Some(values[0])
  }

  /** `list[0]` on a list that is always present: undefined when it is empty. */
  function Head<T>(s: seq<T>): (v: Option<T>)
    ensures v.Some? <==> |s| > 0
    ensures v.Some? ==> v.value == s[0]
  {
    if |s| == 0 then None else Some(s[0])
  }

  /** A hit counts as planned whenever `_relatedPlannings` is an array, even an empty one. */
  function PlanningStatusOf(h: Hit): (status: string)
    ensures status == "planned" <==> h.relatedPlannings.Some?
    ensures status == "unplanned" <==> h.relatedPlannings.None?
  {
    if h.relatedPlannings.Some? then "planned" else "unplanned"
  }

  /** The options of the planning-status column. */
  function PlanningOptions(): seq<FilterOption> {
    [FilterOption("Planerad", "planned"), FilterOption("Ej planerad", "unplanned")]
  }

  /** The planning-status value of every hit is the value of one of that column's options. */
  lemma PlanningStatusIsAnOption(h: Hit)
    ensures exists i :: 0 <= i < |PlanningOptions()| && PlanningOptions()[i].value == PlanningStatusOf(h)
  {
    if h.relatedPlannings.Some? {
      assert PlanningOptions()[0].value == PlanningStatusOf(h);
    } else {
      assert PlanningOptions()[1].value == PlanningStatusOf(h);
    }
  }

  /** The section options: one per section, in order, labelled and valued by its title; none when `sections` is omitted. */
  function SectionOptions(sections: Option<seq<IDBSection>>): (options: seq<FilterOption>)
    ensures sections.None? ==> options == []
    ensures sections.Some? ==> |options| == |sections.value|
    ensures sections.Some? ==> forall i :: 0 <= i < |options| ==>
      options[i].value == sections.value[i].title && options[i].labelText == sections.value[i].title
  {
    var all := if sections.None? then [] else sections.value;
    seq(|all|, i requires 0 <= i < |all| => FilterOption(all[i].title, all[i].title))
  }

  /** The `accessorFn` of each column. */
  function Accessor(c: ColumnId, h: Hit): (v: CellValue)
    ensures c == VisibilityStatus ==> v == Text(FirstOf(h.roles))
    ensures c == Newsvalue ==> v == Text(FirstOf(h.newsvalues))
    ensures c == Title ==> v == Text(Head(h.titles))
    ensures c == Section ==> v == Text(FirstOf(h.sectionTitles))
    ensures c == PlanningStatus ==> v == Text(Some(PlanningStatusOf(h)))
    ensures c == EventTime ==> v == TimeRange(Head(h.starts), Head(h.ends))
    ensures c == Action <==> v.NoAccessor?
  {
    match c
    case VisibilityStatus => Text(FirstOf(h.roles))
    case Newsvalue => Text(FirstOf(h.newsvalues))
    case Title => Text(Head(h.titles))
    case Section => Text(FirstOf(h.sectionTitles))
    case PlanningStatus => Text(Some(PlanningStatusOf(h)))
    case EventTime => TimeRange(Head(h.starts), Head(h.ends))
    case Action => NoAccessor
  }

  /** The columns that declare a `filterFn`. */
  predicate HasFilter(c: ColumnId) {
    c == VisibilityStatus || c == Newsvalue || c == Section || c == PlanningStatus
  }

  /**
   * `filterFn: (row, id, value) => value.includes(row.getValue(id))`: a row passes when its
   * value is among the selected ones; None for a column that declares no `filterFn`.
   */
  function FilterFn(c: ColumnId, h: Hit, selected: seq<string>): (accepts: Option<bool>)
    ensures accepts.Some? <==> HasFilter(c)
    ensures accepts.Some? ==> (accepts.value <==> Accessor(c, h).Text? && Accessor(c, h).text.Some? && Accessor(c, h).text.value in selected)
    ensures selected == [] ==> accepts != Some(true)
  {
    if !HasFilter(c) then None
    else
      var v := Accessor(c, h);
      Some(v.Text? && v.text.Some? && v.text.value in selected)
  }

  /** The planning-status filter passes a hit exactly when the option for its planning state is selected. */
  lemma PlanningFilterByState(h: Hit, selected: seq<string>)
    ensures FilterFn(PlanningStatus, h, selected) ==
      Some(if h.relatedPlannings.Some? then "planned" in selected else "unplanned" in selected)
  {
  }

  /** The values of a list of options. */
  function OptionValues(options: seq<FilterOption>): (values: seq<string>)
    ensures |values| == |options| && forall i :: 0 <= i < |options| ==> values[i] == options[i].value
  {
    if options == [] then [] else [options[0].value] + OptionValues(options[1..])
  }

  /**
   * Selecting every section option passes exactly the hits whose first section title is the
   * title of a known section; a hit without a section never passes.
   */
  lemma SectionFilterWithAllOptions(h: Hit, sections: seq<IDBSection>)
    ensures FilterFn(Section, h, OptionValues(SectionOptions(Some(sections)))) ==
      Some(FirstOf(h.sectionTitles).Some? && exists i :: 0 <= i < |sections| && sections[i].title == FirstOf(h.sectionTitles).value)
  {
    var values := OptionValues(SectionOptions(Some(sections)));
    var first := FirstOf(h.sectionTitles);
    if first.Some? {
      if exists i :: 0 <= i < |sections| && sections[i].title == first.value {
        var i :| 0 <= i < |sections| && sections[i].title == first.value;
        assert values[i] == first.value;
      }
      if first.value in values {
        var i :| 0 <= i < |values| && values[i] == first.value;
        assert sections[i].title == first.value;
      }
    }
  }

  /** A column: its id and, where it has them, its filter options. */
  datatype Column = Column(id: ColumnId, options: Option<seq<FilterOption>>)

  /** `meta.options` of each column; `sections` is None when the caller omits it. */
  function ColumnOptions(c: ColumnId, sections: Option<seq<IDBSection>>, defaults: Defaults): Option<seq<FilterOption>> {
    match c
    case VisibilityStatus => Some(defaults.visibilityStatuses)
    case Newsvalue => Some(defaults.newsvalues)
    case Section => Some(SectionOptions(sections))
    case PlanningStatus => Some(PlanningOptions())
    case _ => None
  }

  /**
   * `eventTableColumns`: seven columns in a fixed order with distinct ids; exactly the
   * columns that filter carry an option list.
   */
  function EventTableColumns(sections: Option<seq<IDBSection>>, defaults: Defaults): (columns: seq<Column>)
    ensures |columns| == 7
    ensures forall i :: 0 <= i < 7 ==>
      ColumnIdName(columns[i].id) == ["visibilityStatus", "newsvalue", "title", "section", "planning_status", "event_time", "action"][i]
    ensures forall i, j :: 0 <= i < j < |columns| ==> columns[i].id != columns[j].id
    ensures forall i :: 0 <= i < |columns| ==> (columns[i].options.Some? <==> HasFilter(columns[i].id))
    ensures forall i :: 0 <= i < |columns| && columns[i].id == VisibilityStatus ==> columns[i].options == Some(defaults.visibilityStatuses)
    ensures forall i :: 0 <= i < |columns| && columns[i].id == Newsvalue ==> columns[i].options == Some(defaults.newsvalues)
    ensures forall i :: 0 <= i < |columns| && columns[i].id == Section ==> columns[i].options == Some(SectionOptions(sections))
    ensures forall i :: 0 <= i < |columns| && columns[i].id == PlanningStatus ==> columns[i].options == Some(PlanningOptions())
  {
    var ids := [VisibilityStatus, Newsvalue, Title, Section, PlanningStatus, EventTime, Action];
    seq(7, i requires 0 <= i < 7 => Column(ids[i], ColumnOptions(ids[i], sections, defaults)))
  }

  /** The planning-status column the table declares offers the planning status of every hit among its options. */
  lemma PlanningColumnOffersStatus(h: Hit, sections: Option<seq<IDBSection>>, defaults: Defaults)
    ensures var columns := EventTableColumns(sections, defaults);
      exists i, j :: 0 <= i < |columns| && columns[i].id == PlanningStatus && columns[i].options.Some?
        && 0 <= j < |columns[i].options.value| && columns[i].options.value[j].value == PlanningStatusOf(h)
  {
    var columns := EventTableColumns(sections, defaults);
    assert ColumnIdName(columns[4].id) == "planning_status";
    assert columns[4].id == PlanningStatus;
    PlanningStatusIsAnOption(h);
    var j :| 0 <= j < |PlanningOptions()| && PlanningOptions()[j].value == PlanningStatusOf(h);
    assert columns[4].options.value[j].value == PlanningStatusOf(h);
  }
}
