/**
 * The tabular (CSV) formatter: how one decoded Elasticsearch document
 * becomes a row of cells, and the "header exactly once, first" protocol of
 * its workers, modelled with a single sequential consumer.
 */
module Csv {

  import opened Wrappers
  import opened Text

  // ---------------------------------------------------------------------
  // removeLBR
  // ---------------------------------------------------------------------

  /** The characters removeLBR deletes: LF, VT, FF, CR, NEL, LINE SEPARATOR, PARAGRAPH SEPARATOR. */
  predicate IsLineBreak(c: char) {
    c == '\n' || c == '\U{000B}' || c == '\U{000C}' || c == '\r' ||
    c == '\U{0085}' || c == '\U{2028}' || c == '\U{2029}'
  }

  predicate NoLineBreaks(s: string) {
    forall k :: 0 <= k < |s| ==> !IsLineBreak(s[k])
  }

  /**
   * removeLBR: replaces every match of `\r\n|[\n\v\f\r\x85\u2028\u2029]`
   * by nothing, scanning left to right and trying the CRLF alternative first.
   */
  function RemoveLBR(s: string): (r: string)
    ensures NoLineBreaks(r) && |r| <= |s|
    decreases |s|
  {
    if s == [] then []
    else if |s| >= 2 && s[0] == '\r' && s[1] == '\n' then RemoveLBR(s[2..])
    else if IsLineBreak(s[0]) then RemoveLBR(s[1..])
    else [s[0]] + RemoveLBR(s[1..])
  }

  /** The reference: the characters of `s` that are not line breaks, in order. */
  function Strip(s: string): string
    decreases |s|
  {
    if s == [] then [] else (if IsLineBreak(s[0]) then [] else [s[0]]) + Strip(s[1..])
  }

  /** Deleting a CRLF pair as one match is the same as deleting both characters. */
  lemma {:induction false} RemoveLBRIsStrip(s: string)
    ensures RemoveLBR(s) == Strip(s)
    decreases |s|
  {
    if s != [] {
      if |s| >= 2 && s[0] == '\r' && s[1] == '\n' {
        RemoveLBRIsStrip(s[2..]);
        assert s[1..][1..] == s[2..];
      } else {
        RemoveLBRIsStrip(s[1..]);
      }
    }
  }

  lemma {:induction false} StripAppend(a: string, b: string)
    ensures Strip(a + b) == Strip(a) + Strip(b)
    decreases |a|
  {
    if a == [] {
      assert a + b == b;
    } else {
      assert (a + b)[1..] == a[1..] + b;
      StripAppend(a[1..], b);
    }
  }

  /** removeLBR leaves a string without line breaks as it is. */
  lemma {:induction false} RemoveLBRIdentity(s: string)
    requires NoLineBreaks(s)
    ensures RemoveLBR(s) == s
    decreases |s|
  {
    if s != [] {
      RemoveLBRIdentity(s[1..]);
      assert [s[0]] + s[1..] == s;
    }
  }

  /** removeLBR is idempotent. */
  lemma RemoveLBRIdempotent(s: string)
    ensures RemoveLBR(RemoveLBR(s)) == RemoveLBR(s)
  {
    RemoveLBRIdentity(RemoveLBR(s));
  }

  /** Every character that is not a line break survives, as often as it occurs. */
  lemma {:induction false} RemoveLBRKeepsOthers(s: string, c: char)
    requires !IsLineBreak(c)
    ensures CountChar(RemoveLBR(s), c) == CountChar(s, c)
  {
    RemoveLBRIsStrip(s);
    StripKeeps(s, c);
  }

  lemma {:induction false} StripKeeps(s: string, c: char)
    requires !IsLineBreak(c)
    ensures CountChar(Strip(s), c) == CountChar(s, c)
    decreases |s|
  {
    if s != [] {
      StripKeeps(s[1..], c);
      CountCharAppend(if IsLineBreak(s[0]) then [] else [s[0]], Strip(s[1..]), c);
    }
  }

  /** removeLBR works piecewise, even when a CRLF pair straddles the cut. */
  lemma RemoveLBRConcat(a: string, b: string)
    ensures RemoveLBR(a + b) == RemoveLBR(a) + RemoveLBR(b)
  {
    RemoveLBRIsStrip(a + b);
    RemoveLBRIsStrip(a);
    RemoveLBRIsStrip(b);
    StripAppend(a, b);
  }

  // ---------------------------------------------------------------------
  // Decoded documents and cell formatting
  // ---------------------------------------------------------------------

  /**
   * A value of a decoded JSON document (Go's interface{}): nil, bool,
   * int64, float64 (any finite double, kept exactly as a real), string,
   * []interface{} or map[string]interface{}.
   */
  datatype Value =
    | Null
    | Bool(b: bool)
    | Int(i: int)
    | Float(x: real)
    | Str(s: string)
    | List(items: seq<Value>)
    | Object(entries: map<string, Value>)

  /**
   * The renderings the formatter takes from Go's libraries: fmt's `%f` of a
   * float64, fmt's `%v` of a []interface{}, and the date helpers isDateValue,
   * convertDate (value, time zone, layout) and formatDate (value, layout).
   * convertDate gives None where it panics: an unknown time zone leaves the
   * location nil, and Time.In(nil) panics.
   */
  datatype Renderers = Renderers(
    fixedPoint: real -> string,
    listText: seq<Value> -> string,
    isDate: string -> bool,
    convertDate: (string, string, string) -> Option<string>,
    formatDate: (string, string) -> string)

  /** The configuration CSV.Run reads: Fields, Convertdate, Timezone, Dateformat. */
  datatype CsvConf = CsvConf(
    fields: Option<seq<string>>,
    convertDate: bool,
    timezone: string,
    dateFormat: string,
    render: Renderers)

  const MinInt64: int := -0x8000_0000_0000_0000
  const MaxInt64: int := 0x7FFF_FFFF_FFFF_FFFF

  /** Go's int(x) for a float64 inside the int64 range: truncation toward zero. */
  function Trunc(x: real): (t: int)
    ensures 0.0 <= x ==> t as real <= x < t as real + 1.0
    ensures x < 0.0 ==> t as real - 1.0 < x <= t as real
  {
    if x >= 0.0 then x.Floor else -((-x).Floor)
  }

  /**
   * A float64 equal to its int conversion is written as that integer
   * (`%d`), any other as `%f`. Out of the int64 range the conversion gives
   * the minimum int64 (the amd64 behaviour), which never equals the value.
   */
  function IntegralFloat(x: real): (b: bool)
    ensures b <==> x == x.Floor as real && MinInt64 <= x.Floor <= MaxInt64
  {
    TruncOfIntegral(x);
    x == Trunc(x) as real && MinInt64 <= Trunc(x) <= MaxInt64
  }

  /** Truncation gives back exactly the integers, and on them it is the floor. */
  lemma TruncOfIntegral(x: real)
    ensures x == Trunc(x) as real <==> x == x.Floor as real
    ensures x == x.Floor as real ==> Trunc(x) == x.Floor
  {
    if x < 0.0 {
      assert (-x).Floor as real <= -x;
      if x == x.Floor as real {
        assert (-x).Floor == -x.Floor;
      }
    }
  }

  /**
   * The cell for `field` of `doc`, or None where formatting panics: a value
   * that is neither nil, a number, a list nor a string fails the
   * `val.(string)` assertion, and converting a date into an unknown time
   * zone fails in Time.In.
   */
  function FormatCell(doc: map<string, Value>, field: string, conf: CsvConf): (r: Option<string>)
    ensures r.None? <==> field in doc && (doc[field].Bool? || doc[field].Object? || DateConversionFails(doc[field], conf))
  {
    if field !in doc then Some("")
    else match doc[field]
      case Null => Some("")
      case Int(i) => Some(DecimalText(i))
      case Float(x) => Some(if IntegralFloat(x) then DecimalText(Trunc(x)) else conf.render.fixedPoint(x))
      case List(items) => Some(conf.render.listText(items))
      case Str(s) =>
        if conf.render.isDate(s) then
          if conf.convertDate then
            match conf.render.convertDate(s, conf.timezone, conf.dateFormat)
            case Some(converted) => Some(RemoveLBR(converted))
            case None => None
          else Some(RemoveLBR(conf.render.formatDate(s, conf.dateFormat)))
        else Some(RemoveLBR(s))
      case Bool(_) => None
      case Object(_) => None
  }

  /** A date-shaped string whose conversion into the configured time zone panics. */
  predicate DateConversionFails(v: Value, conf: CsvConf) {
    v.Str? && conf.render.isDate(v.s) && conf.convertDate &&
    conf.render.convertDate(v.s, conf.timezone, conf.dateFormat).None?
  }

  /**
   * The formatting policy: an absent or null field gives the empty cell;
   * an integer, or a float equal to an integer, gives decimal text that reads
   * back as that integer, and any other float its `%f` text; a list gives
   * its `%v` text as it is; a string gives a cell without line breaks: for
   * a date the converted or reformatted date, for any other string the
   * string minus its line breaks.
   */
  lemma CellPolicy(doc: map<string, Value>, field: string, conf: CsvConf)
    ensures field !in doc || doc[field].Null? ==> FormatCell(doc, field, conf) == Some("")
    ensures field in doc && doc[field].Int? ==>
      ParseDecimal(FormatCell(doc, field, conf).value) == Some(doc[field].i)
    ensures field in doc && doc[field].Float? && IntegralFloat(doc[field].x) ==>
      var cell := FormatCell(doc, field, conf).value;
      ParseDecimal(cell).Some? && ParseDecimal(cell).value as real == doc[field].x
    ensures field in doc && doc[field].Float? && !IntegralFloat(doc[field].x) ==>
      FormatCell(doc, field, conf) == Some(conf.render.fixedPoint(doc[field].x))
    ensures field in doc && doc[field].List? ==>
      FormatCell(doc, field, conf) == Some(conf.render.listText(doc[field].items))
    ensures field in doc && doc[field].Str? && FormatCell(doc, field, conf).Some? ==>
      NoLineBreaks(FormatCell(doc, field, conf).value)
    ensures field in doc && doc[field].Str? && !conf.render.isDate(doc[field].s) ==>
      FormatCell(doc, field, conf) == Some(Strip(doc[field].s))
    ensures field in doc && doc[field].Str? && conf.render.isDate(doc[field].s) && conf.convertDate ==>
      match conf.render.convertDate(doc[field].s, conf.timezone, conf.dateFormat)
      case Some(converted) => FormatCell(doc, field, conf) == Some(Strip(converted))
      case None => FormatCell(doc, field, conf) == None
    ensures field in doc && doc[field].Str? && conf.render.isDate(doc[field].s) && !conf.convertDate ==>
      FormatCell(doc, field, conf) == Some(Strip(conf.render.formatDate(doc[field].s, conf.dateFormat)))
  {
    if field in doc {
      match doc[field]
      case Int(i) => DecimalRoundTrip(i);
      case Float(x) => DecimalRoundTrip(Trunc(x));
      case Str(s) =>
        RemoveLBRIsStrip(s);
        RemoveLBRIsStrip(conf.render.formatDate(s, conf.dateFormat));
        var converted := conf.render.convertDate(s, conf.timezone, conf.dateFormat);
        if converted.Some? {
          RemoveLBRIsStrip(converted.value);
        }
      case _ =>
    }
  }

  /**
   * The row for a document: one cell per entry of `fields`, in that order,
   * or None when some field's value makes the formatter panic.
   */
  function Projection(fields: seq<string>, doc: map<string, Value>, conf: CsvConf): (r: Option<seq<string>>)
    ensures r.Some? <==> forall k :: 0 <= k < |fields| ==> FormatCell(doc, fields[k], conf).Some?
    ensures r.Some? ==> |r.value| == |fields|
    ensures r.Some? ==> forall k :: 0 <= k < |fields| ==> FormatCell(doc, fields[k], conf) == Some(r.value[k])
    decreases |fields|
  {
    if fields == [] then Some([])
    else
      var front := Projection(fields[..|fields| - 1], doc, conf);
      var last := FormatCell(doc, fields[|fields| - 1], conf);
      if front.None? || last.None? then None
      else Some(front.value + [last.value])
  }

  /**
   * The cell loop of a CSV worker: appends one cell per field to the row
   * being built, and stops with None where the formatter would panic.
   */
  method ProjectRow(fields: seq<string>, doc: map<string, Value>, conf: CsvConf) returns (row: Option<seq<string>>)
    ensures row == Projection(fields, doc, conf)
  {
    var csvdata: seq<string> := [];
    var i := 0;
    while i < |fields|
      invariant 0 <= i <= |fields|
      invariant Projection(fields[..i], doc, conf) == Some(csvdata)
    {
      var cell := FormatCell(doc, fields[i], conf);
      assert fields[..i + 1][..i] == fields[..i];
      if cell.None? {
        assert Projection(fields[..i + 1], doc, conf).None?;
        ProjectionPrefixFails(fields, i + 1, doc, conf);
        return None;
      }
      csvdata := csvdata + [cell.value];
      i := i + 1;
    }
    assert fields[..i] == fields;
    row := Some(csvdata);
  }

  /** A row that fails on a prefix of the fields fails on all of them. */
  lemma ProjectionPrefixFails(fields: seq<string>, n: nat, doc: map<string, Value>, conf: CsvConf)
    requires n <= |fields| && Projection(fields[..n], doc, conf).None?
    ensures Projection(fields, doc, conf).None?
  {
    var k :| 0 <= k < n && FormatCell(doc, fields[..n][k], conf).None?;
    assert fields[..n][k] == fields[k];
  }

  /** Each element occurs once. */
  predicate Distinct(s: seq<string>) {
    forall i, j :: 0 <= i < j < |s| ==> s[i] != s[j]
  }

  /**
   * `for key := range document { fields = append(fields, key) }`: the keys
   * of the document, each once, in an order the model leaves open (Go's map
   * iteration order is unspecified).
   */
  method KeysInSomeOrder(document: map<string, Value>) returns (keys: seq<string>)
    ensures forall k :: k in keys <==> k in document
    ensures Distinct(keys)
  {
    keys := [];
    var rest := document.Keys;
    while rest != {}
      invariant rest <= document.Keys
      invariant forall k :: k in keys <==> k in document && k !in rest
      invariant Distinct(keys)
      decreases rest
    {
      var key :| key in rest;
      keys := keys + [key];
      rest := rest - {key};
    }
  }

  // ---------------------------------------------------------------------
  // Decoding into the reused document map
  // ---------------------------------------------------------------------

  /** What json.Unmarshal makes of a hit's source. */
  datatype Decoded =
    | DecodedObject(entries: map<string, Value>)  // a JSON object
    | DecodedNull                                 // the JSON literal null
    | DecodeError                                 // malformed JSON, or not an object

  /**
   * The worker's `document` after json.Unmarshal(hit.Source, &document):
   * an object's pairs are stored into the existing map, which keeps its
   * other entries; null sets the map to nil (no entries); an error leaves it
   * as it was.
   */
  function NextDocument(document: map<string, Value>, d: Decoded): (r: map<string, Value>)
    ensures d.DecodedObject? ==> r.Keys == document.Keys + d.entries.Keys
    ensures d.DecodedObject? ==> forall k :: k in d.entries ==> r[k] == d.entries[k]
    ensures d.DecodedObject? ==> forall k :: k in document && k !in d.entries ==> r[k] == document[k]
    ensures d.DecodedNull? ==> r == map[]
    ensures d.DecodeError? ==> r == document
  {
    match d
    case DecodedObject(entries) => document + entries
    case DecodedNull => map[]
    case DecodeError => document
  }

  /** After a decode error the row of the previous record is produced again. */
  lemma DecodeErrorRepeatsRow(fields: seq<string>, document: map<string, Value>, conf: CsvConf)
    ensures Projection(fields, NextDocument(document, DecodeError), conf) == Projection(fields, document, conf)
  {
  }

  /**
   * A field the new object lacks still shows the value an earlier record
   * stored under it.
   */
  lemma StaleFieldCarriesOver(document: map<string, Value>, entries: map<string, Value>, field: string, conf: CsvConf)
    requires field in document && field !in entries
    ensures FormatCell(NextDocument(document, DecodedObject(entries)), field, conf) == FormatCell(document, field, conf)
  {
  }

  /** Where a worker stands after a run of hits: its document, the rows it pushed, and whether it panicked. */
  datatype Folded = Folded(document: map<string, Value>, rows: seq<seq<string>>, halted: bool)

  /**
   * The worker loop over `hits` once the field list is fixed: each hit is
   * decoded into the reused document and its row pushed, until a row
   * panics; the hits after that one are never looked at. Every hit before
   * the panic, a decode error included, gives exactly one row of one cell
   * per field.
   */
  function Fold(fields: seq<string>, document: map<string, Value>, hits: seq<Decoded>, conf: CsvConf): (r: Folded)
    ensures !r.halted ==> |r.rows| == |hits|
    ensures r.halted ==> |r.rows| < |hits|
    ensures forall k :: 0 <= k < |r.rows| ==> |r.rows[k]| == |fields|
    decreases |hits|
  {
    if hits == [] then Folded(document, [], false)
    else FoldStep(fields, Fold(fields, document, hits[..|hits| - 1], conf), hits[|hits| - 1], conf)
  }

  /** One more hit: decode it into the document and push its row, unless the worker has panicked. */
  function FoldStep(fields: seq<string>, before: Folded, hit: Decoded, conf: CsvConf): Folded {
    if before.halted then before
    else
      var next := NextDocument(before.document, hit);
      match Projection(fields, next, conf)
      case None => Folded(next, before.rows, true)
      case Some(row) => Folded(next, before.rows + [row], false)
  }

  /** The fold over one more hit takes one more step. */
  lemma FoldLast(fields: seq<string>, document: map<string, Value>, hits: seq<Decoded>, i: nat, conf: CsvConf)
    requires i < |hits|
    ensures Fold(fields, document, hits[..i + 1], conf) == FoldStep(fields, Fold(fields, document, hits[..i], conf), hits[i], conf)
  {
    assert hits[..i + 1][..i] == hits[..i];
  }

  /** The worker's fields, as a value. */
  datatype WorkerState = WorkerState(
    headerSent: bool, fields: seq<string>, document: map<string, Value>,
    output: seq<seq<string>>, halted: bool)

  /**
   * Worker state `w`, started from document `d0`, output `out0`, header flag
   * `sent0` and field list `f0`, has consumed `done`: the header is out once
   * a hit has been seen, the field list is `f0` if the header was already
   * out and otherwise the header built from the first hit's document, and
   * the document, halt flag and rows are those of the fold over `done` with
   * that field list.
   */
  ghost predicate Ran(conf: CsvConf, w: WorkerState, d0: map<string, Value>, out0: seq<seq<string>>, sent0: bool, f0: seq<string>, done: seq<Decoded>) {
    var run := Fold(w.fields, d0, done, conf);
    && w.headerSent == (sent0 || |done| > 0)
    && (sent0 ==> w.fields == f0)
    && (!sent0 && |done| > 0 ==> IsHeader(conf, NextDocument(d0, done[0]), w.fields))
    && w.document == run.document && w.halted == run.halted
    && w.output == out0 + (if sent0 || |done| == 0 then [] else [w.fields]) + run.rows
  }

  /**
   * One iteration of the worker loop takes state `w` to state `v` on `hit`.
   * A halted worker changes nothing. Otherwise the hit is decoded into the
   * reused document and the header goes out if it has not yet. After that
   * the field list never changes, and a header sent now is the one built
   * from the new document. Then exactly the projected row is pushed, or the
   * worker panics: it halts and pushes nothing.
   */
  ghost predicate Turn(conf: CsvConf, w: WorkerState, v: WorkerState, hit: Decoded) {
    && (w.halted ==> v == w)
    && (!w.halted ==> v.document == NextDocument(w.document, hit) && v.headerSent)
    && (!w.halted && w.headerSent ==> v.fields == w.fields)
    && (!w.halted && !w.headerSent ==> IsHeader(conf, v.document, v.fields))
    && (!w.halted ==>
      var pushed := w.output + (if w.headerSent then [] else [v.fields]);
      var row := Projection(v.fields, v.document, conf);
      && (row.Some? ==> !v.halted && v.output == pushed + [row.value])
      && (row.None? ==> v.halted && v.output == pushed))
  }

  /**
   * One turn of the worker loop extends the fold by one hit: from `w`, which
   * has consumed `hits[..i]`, a turn on `hits[i]` reaches a state that has
   * consumed `hits[..i + 1]`.
   */
  lemma RanStep(conf: CsvConf, w: WorkerState, v: WorkerState, d0: map<string, Value>, out0: seq<seq<string>>, sent0: bool, f0: seq<string>, hits: seq<Decoded>, i: nat)
    requires i < |hits| && Ran(conf, w, d0, out0, sent0, f0, hits[..i])
    requires Turn(conf, w, v, hits[i])
    ensures Ran(conf, v, d0, out0, sent0, f0, hits[..i + 1])
  {
    FoldLast(v.fields, d0, hits, i, conf);
    if !w.headerSent {
      assert i == 0 && !sent0;
      assert hits[..i + 1][0] == hits[0];
    } else {
      if i > 0 {
        assert hits[..i + 1][0] == hits[..i][0];
      }
    }
  }

  // ---------------------------------------------------------------------
  // The worker with its header-once protocol
  // ---------------------------------------------------------------------

  /**
   * The header CSV.Run pushes: the configured fields, or else the keys of
   * the document current when the header is sent, each once.
   */
  ghost predicate IsHeader(conf: CsvConf, document: map<string, Value>, header: seq<string>) {
    match conf.fields
    case Some(fs) => header == fs
    case None => Distinct(header) && forall k :: k in header <==> k in document
  }

  /**
   * One CSV worker and the state it shares with the others: the header flag
   * (sync.Once plus the headerSent channel), the field list, the worker's
   * reused `document` map, and the rows pushed to the output channel in order.
   * `halted` records that a value made the worker panic, which ends the
   * program: no further rows appear.
   */
  class CsvWorker {
    const conf: CsvConf
    var headerSent: bool
    var fields: seq<string>
    var document: map<string, Value>
    var output: seq<seq<string>>
    var halted: bool

    /**
     * Before the header nothing is pushed and the field list is the
     * configured one (nil when none is); afterwards the header is the first
     * row, it is the field list, and every later row has one cell per field.
     */
    ghost predicate Valid()
      reads this
    {
      && (!headerSent ==> output == [] && !halted && fields == conf.fields.GetOr([]))
      && (headerSent ==> |output| >= 1 && output[0] == fields)
      && (conf.fields.Some? ==> fields == conf.fields.value)
      && (forall k :: 1 <= k < |output| ==> |output[k]| == |fields|)
    }

    constructor (conf: CsvConf)
      ensures Valid() && this.conf == conf
      ensures !headerSent && document == map[] && output == [] && !halted
    {
      this.conf := conf;
      headerSent := false;
      fields := conf.fields.GetOr([]);
      document := map[];
      output := [];
      halted := false;
    }

    /**
     * sendHeader.Do: the first caller fills in the field list from the
     * current document when none is configured, and pushes it as the header;
     * later callers change nothing.
     */
    method SendHeaderOnce()
      requires Valid() && !halted
      modifies this
      ensures Valid() && headerSent && !halted && document == old(document)
      ensures old(headerSent) ==> fields == old(fields) && output == old(output)
      ensures !old(headerSent) ==> IsHeader(conf, document, fields) && output == [fields]
    {
      if !headerSent {
        if conf.fields.None? {
          var keys := KeysInSomeOrder(document);
          fields := fields + keys;
          assert fields == keys;
        }
        output := output + [fields];
        headerSent := true;
      }
    }

    /**
     * The cell loop and `csvout <- csvdata`: the row of the current
     * document is pushed, or the worker panics and nothing is pushed.
     */
    method PushRow()
      requires Valid() && headerSent && !halted
      modifies this
      ensures Valid() && headerSent && fields == old(fields) && document == old(document)
      ensures var row := Projection(fields, document, conf);
        && (row.Some? ==> !halted && output == old(output) + [row.value])
        && (row.None? ==> halted && output == old(output))
    {
      var row := ProjectRow(fields, document, conf);
      if row.None? {
        halted := true;
      } else {
        ghost var pushed := output;
        output := output + [row.value];
        assert forall k :: 1 <= k < |output| ==> output[k] == if k < |pushed| then pushed[k] else row.value;
      }
    }

    /**
     * One iteration of the worker loop for one hit: decode into the reused
     * document, send the header if no one has yet, then push the row.
     */
    method Consume(hit: Decoded)
      requires Valid()
      modifies this
      ensures Valid()
      ensures Turn(conf, old(State()), State(), hit)
    {
      if halted {
        return;
      }
      document := NextDocument(document, hit);
      SendHeaderOnce();
      PushRow();
    }

    /** The worker's fields, as a value. */
    ghost function State(): WorkerState
      reads this
    {
      WorkerState(headerSent, fields, document, output, halted)
    }

    /** One turn of the worker loop, stated against the fold over the hits so far. */
    method ConsumeNext(hits: seq<Decoded>, i: nat, ghost d0: map<string, Value>, ghost out0: seq<seq<string>>, ghost sent0: bool, ghost f0: seq<string>)
      requires Valid() && i < |hits|
      requires Ran(conf, State(), d0, out0, sent0, f0, hits[..i])
      modifies this
      ensures Valid()
      ensures Ran(conf, State(), d0, out0, sent0, f0, hits[..i + 1])
    {
      ghost var w := State();
      Consume(hits[i]);
      RanStep(conf, w, State(), d0, out0, sent0, f0, hits, i);
    }

    /**
     * `for hit := range hits`: consumes the hits in order. The header goes
     * out with the first hit if it has not yet; after it the output holds
     * exactly the rows of the fold over the hits with the final field list,
     * and the document and the halt flag are the fold's. A worker that has
     * panicked does nothing.
     */
    method Run(hits: seq<Decoded>)
      requires Valid()
      modifies this
      ensures Valid()
      ensures old(halted) ==>
        && halted && headerSent == old(headerSent) && fields == old(fields)
        && document == old(document) && output == old(output)
      ensures !old(halted) ==> Ran(conf, State(), old(document), old(output), old(headerSent), old(fields), hits)
    {
      if halted {
        return;
      }
      var i := 0;
      while i < |hits|
        invariant 0 <= i <= |hits|
        invariant Valid()
        invariant Ran(conf, State(), old(document), old(output), old(headerSent), old(fields), hits[..i])
      {
        ConsumeNext(hits, i, old(document), old(output), old(headerSent), old(fields));
        i := i + 1;
      }
      assert hits[..i] == hits;
    }
  }
}
