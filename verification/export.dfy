/**
 * The decisions export.Run takes after connecting to Elasticsearch
 * (export/export.go:102-105) and before counting and scrolling
 * (export/export.go:158-243), lifted into one pure "export plan": the field
 * list, the output file path, the date range filter and the query the
 * documents must match.
 */
module Export {

  import opened Wrappers
  import opened Text
  import opened QueryText

  /** The configuration fields export.Run reads to build its plan. */
  datatype Flags = Flags(
    rawQuery: string,
    query: string,
    outFormat: string,
    filename: string,
    outpath: string,
    startDate: string,
    endDate: string,
    timefield: string,
    fieldlist: string,
    fields: Option<seq<string>>)

  /** The range filter on the time field: inclusive bounds (gte / lte), or none. */
  datatype DateRange = NoRange | Range(field: string, gte: Option<string>, lte: Option<string>)

  /** The clause every exported document must match. */
  datatype MustQuery = RawString(source: string) | QueryString(query: string) | MatchAll

  datatype ExportPlan = ExportPlan(
    fields: Option<seq<string>>,
    outFile: string,
    filter: DateRange,
    must: MustQuery)

  /**
   * fullFilePath: `path/name.format`, where the name is the given file name
   * or, when that is empty, `stamp`, the current time in the layout
   * 20060102150405 (the clock is a parameter here).
   */
  function FullFilePath(path: string, format: string, filename: string, stamp: string): (r: string)
    ensures var name := if filename != "" then filename else stamp;
      && |r| == |path| + |name| + |format| + 2
      && r[..|path|] == path && r[|path|] == '/'
      && r[|path| + 1..|path| + 1 + |name|] == name
      && r[|path| + 1 + |name|] == '.' && r[|path| + 2 + |name|..] == format
  {
    if filename != "" then path + "/" + filename + "." + format
    else path + "/" + stamp + "." + format
  }

  /** The lower bound of a range filter, "" when it has none. */
  function RangeStart(r: DateRange): string {
    if r.Range? then r.gte.GetOr("") else ""
  }

  /** The upper bound of a range filter, "" when it has none. */
  function RangeEnd(r: DateRange): string {
    if r.Range? then r.lte.GetOr("") else ""
  }

  /**
   * The date range filter: both bounds when start and end dates are given,
   * one bound when only one is, no filter when neither is.
   */
  function DateFilter(conf: Flags): (r: DateRange)
    ensures r.NoRange? <==> conf.startDate == "" && conf.endDate == ""
    ensures r.Range? ==> r.field == conf.timefield
    ensures r.Range? ==> (r.gte.Some? <==> conf.startDate != "") && (r.lte.Some? <==> conf.endDate != "")
    ensures RangeStart(r) == conf.startDate && RangeEnd(r) == conf.endDate
  {
    if conf.startDate != "" && conf.endDate != "" then
      Range(conf.timefield, Some(conf.startDate), Some(conf.endDate))
    else if conf.startDate != "" then
      Range(conf.timefield, Some(conf.startDate), None)
    else if conf.endDate != "" then
      Range(conf.timefield, None, Some(conf.endDate))
    else NoRange
  }

  /** The must clause: a raw query wins over a query string, which wins over match-all. */
  function MustFor(conf: Flags): (r: MustQuery)
    ensures r.RawString? <==> conf.rawQuery != ""
    ensures r.QueryString? <==> conf.rawQuery == "" && conf.query != ""
    ensures r.MatchAll? <==> conf.rawQuery == "" && conf.query == ""
    ensures r.RawString? ==> r.source == conf.rawQuery
    ensures r.QueryString? ==> r.query == ParsedQuery(conf.query)
  {
    if conf.rawQuery != "" then RawString(conf.rawQuery)
    else if conf.query != "" then QueryString(ParsedQuery(conf.query))
    else MatchAll
  }

  /**
   * The field list: a non-empty comma-separated list replaces the configured
   * fields by its pieces, which contain no comma and join back to the list.
   */
  function FieldsFor(conf: Flags): (r: Option<seq<string>>)
    ensures conf.fieldlist == "" ==> r == conf.fields
    ensures conf.fieldlist != "" ==>
      && r.Some?
      && Join(r.value, ',') == conf.fieldlist
      && |r.value| == CountChar(conf.fieldlist, ',') + 1
      && SeparatorFree(r.value, ',')
  {
    if conf.fieldlist != "" then
      JoinSplit(conf.fieldlist, ',');
      Some(Split(conf.fieldlist, ','))
    else conf.fields
  }

  /**
   * The plan export.Run follows. A range filter always has at least one
   * bound, and a query string keeps the number of space-separated tokens
   * of the configured query.
   */
  function Plan(conf: Flags, stamp: string): (p: ExportPlan)
    ensures p.filter.Range? ==> p.filter.gte.Some? || p.filter.lte.Some?
    ensures p.must.QueryString? ==> |Split(p.must.query, ' ')| == |Split(conf.query, ' ')|
  {
    ParsedQueryTokens(conf.query);
    ExportPlan(
      FieldsFor(conf),
      FullFilePath(conf.outpath, conf.outFormat, conf.filename, stamp),
      DateFilter(conf),
      MustFor(conf))
  }

  /** A query string whose tokens have at most one colon each is passed on unchanged. */
  lemma PlainQueryPassesThrough(conf: Flags, stamp: string)
    requires conf.rawQuery == "" && conf.query != ""
    requires forall k :: 0 <= k < |Split(conf.query, ' ')| ==> CountChar(Split(conf.query, ' ')[k], ':') <= 1
    ensures Plan(conf, stamp).must == QueryString(conf.query)
  {
    ParsedQueryIdentity(conf.query);
  }
}
