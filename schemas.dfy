/**
 * The search-index records the events views read.  A hit's `_source` is a mapping from
 * dotted field paths to lists of values; the fields the views read are named here.
 */
module Schemas {
  import opened Wrappers

  /**
   * One event hit.
   *  - titles: `document.title`
   *  - starts, ends: `document.meta.core_event.data.start` / `.end`, as parsed timestamps
   *  - roles: `document.meta.core_description.role` (None when the field is absent)
   *  - newsvalues: `document.meta.core_newsvalue.value` (None when absent)
   *  - sectionTitles: `document.rel.section.title` (None when absent)
   *  - relatedPlannings: `_relatedPlannings`, None when it is not an array
   */
  datatype Hit = Hit(
    id: string,
    titles: seq<string>,
    starts: seq<int>,
    ends: seq<int>,
    roles: Option<seq<string>>,
    newsvalues: Option<seq<string>>,
    sectionTitles: Option<seq<string>>,
    relatedPlannings: Option<seq<string>>)

  /** The reply of the search endpoint; `hits` is None when the reply carries no hit array. */
  datatype SearchResponse = SearchResponse(ok: bool, hits: Option<seq<Hit>>)
}
