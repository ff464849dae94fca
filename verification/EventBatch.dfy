/** The columnar builder of the canonical events batch and its schema. */
module EventBatch {
  import opened Wrappers
  import opened EventTime
  import opened Promotion

  // ----- Schema

  const CORE_FIELDS: seq<Field> := [
    Field("timestamp", TimestampMicros, false, 1),
    Field("host", Utf8, false, 2),
    Field("source", Utf8, false, 3),
    Field("sourcetype", Utf8, false, 4),
    Field("index", Utf8, false, 5),
    Field("raw", Utf8, false, 6),
    Field("timestamp_ns", Int64, false, 7),
    Field("attributes", Utf8, true, 8)
  ]

  function EventsSchemaWith(specs: seq<Spec>): (fields: seq<Field>)
    ensures |fields| == 8 + |specs|
  {
    CORE_FIELDS + seq(|specs|, i requires 0 <= i < |specs| => PromotedField(specs[i], i))
  }

  method BuildEventsSchema(specs: seq<Spec>) returns (fields: seq<Field>)
    ensures fields == EventsSchemaWith(specs)
  {
    fields := CORE_FIELDS;
    ghost var all := EventsSchemaWith(specs);
    for i := 0 to |specs|
      invariant fields == all[..8 + i]
    {
      assert all[..8 + i + 1] == all[..8 + i] + [all[8 + i]];
      fields := fields + [PromotedField(specs[i], i)];
    }
    assert all[..8 + |specs|] == all;
  }

  /** Declared ids are the ones a catalog assigns in field order: position plus one. */
  lemma IdsFollowFieldOrder(specs: seq<Spec>, i: nat)
    requires i < 8 + |specs|
    ensures EventsSchemaWith(specs)[i].id == i + 1
  {
  }

  /** The time columns hold micros and nanos and the rest text; only `attributes` and promoted columns are nullable. */
  lemma SchemaTypes(specs: seq<Spec>, i: nat)
    requires i < 8 + |specs|
    ensures var f := EventsSchemaWith(specs)[i];
            && (f.nullable <==> i >= 7)
            && (i == 0 ==> f.name == "timestamp" && f.ty == TimestampMicros)
            && (i == 6 ==> f.name == "timestamp_ns" && f.ty == Int64)
            && (i < 8 && i != 0 && i != 6 ==> f.ty == Utf8)
            && (i < 8 ==> f.name == ["timestamp", "host", "source", "sourcetype", "index", "raw",
                                     "timestamp_ns", "attributes"][i])
            && (i >= 8 ==> f.name == specs[i - 8].name)
            && (i >= 8 ==> match specs[i - 8].ty
                           case PUtf8 => f.ty == Utf8
                           case PInt64 => f.ty == Int64
                           case PFloat64 => f.ty == Float64
                           case PBoolean => f.ty == Boolean)
  {
  }

  function FieldsOf(b: Batch): (fields: seq<Field>) {
    seq(|b.columns|, i requires 0 <= i < |b.columns| => b.columns[i].field)
  }

  /** Promoting a canonical batch gives the declared schema. */
  lemma PromotedSchema(ops: JsonOps, b: Batch, specs: seq<Spec>)
    requires FieldsOf(b) == CORE_FIELDS
    ensures FieldsOf(Promote(ops, b, specs)) == EventsSchemaWith(specs)
  {
  }

  // ----- Builder

  /** An event to append; its time is None when it does not fit 64-bit nanoseconds. */
  datatype Event = Event(nanos: Option<i64>, host: string, source: string, sourcetype: string,
                         index: string, raw: string, attributes: Option<string>)

  /** The cell of core column `c` for one event. */
  function CellOf(e: Event, c: nat): (cell: Cell) {
    if e.nanos.None? then Missing
    else
      match c
      case 0 => Whole(MicrosFromNanos(e.nanos.value))
      case 1 => Text(e.host)
      case 2 => Text(e.source)
      case 3 => Text(e.sourcetype)
      case 4 => Text(e.index)
      case 5 => Text(e.raw)
      case 6 => Whole(e.nanos.value)
      case 7 => if e.attributes.Some? then Text(e.attributes.value) else Missing
      case _ => Missing
  }

  /** The events that are not refused, in order. */
  function Accepted(events: seq<Event>): (es: seq<Event>) {
    if events == [] then []
    else
      var rest, last := Accepted(events[..|events| - 1]), events[|events| - 1];
      if last.nanos.Some? then rest + [last] else rest
  }

  function ColumnOf(es: seq<Event>, c: nat): (cells: seq<Cell>)
    ensures |cells| == |es|
  {
    seq(|es|, i requires 0 <= i < |es| => CellOf(es[i], c))
  }

  /** The columns hold exactly these events. */
  ghost predicate HoldsEvents(cols: seq<seq<Cell>>, n: nat, es: seq<Event>) {
    n == |es| && |cols| == 8 && forall c :: 0 <= c < 8 ==> cols[c] == ColumnOf(es, c)
  }

  lemma HoldsOneMore(cols: seq<seq<Cell>>, cols': seq<seq<Cell>>, n: nat, es: seq<Event>, e: Event)
    requires |cols'| == 8 && HoldsEvents(cols, n, es)
    requires forall c :: 0 <= c < 8 ==> cols'[c] == cols[c] + [CellOf(e, c)]
    ensures HoldsEvents(cols', n + 1, es + [e])
  {
  }

  lemma AcceptedOneMore(before: seq<Event>, e: Event)
    ensures Accepted(before + [e]) == if e.nanos.Some? then Accepted(before) + [e] else Accepted(before)
  {
  }

  class Builder {
    var ts: seq<Cell>
    var host: seq<Cell>
    var source: seq<Cell>
    var sourcetype: seq<Cell>
    var index: seq<Cell>
    var raw: seq<Cell>
    var tsNs: seq<Cell>
    var attributes: seq<Cell>
    var rows: nat

    function Columns(): (cols: seq<seq<Cell>>)
      reads this
      ensures |cols| == 8
    {
      [ts, host, source, sourcetype, index, raw, tsNs, attributes]
    }

    /** The builder holds exactly the accepted ones of the events offered. */
    ghost predicate Holds(events: seq<Event>)
      reads this
    {
      HoldsEvents(Columns(), rows, Accepted(events))
    }

    constructor ()
      ensures Holds([])
    {
      ts, host, source, sourcetype, index, raw, tsNs, attributes := [], [], [], [], [], [], [], [];
      rows := 0;
    }

    /** Append an event to every column, or refuse it and touch none. */
    method Append(e: Event, ghost before: seq<Event>) returns (accepted: bool)
      requires Holds(before)
      modifies this
      ensures accepted <==> e.nanos.Some?
      ensures Holds(before + [e])
      ensures !accepted ==> rows == old(rows) && Columns() == old(Columns())
    {
      hide HoldsEvents, Accepted;
      AcceptedOneMore(before, e);
      if e.nanos.None? {
        return false;
      }
      var nanos := e.nanos.value;
      ts := ts + [Whole(MicrosFromNanos(nanos))];
      tsNs := tsNs + [Whole(nanos)];
      host := host + [Text(e.host)];
      source := source + [Text(e.source)];
      sourcetype := sourcetype + [Text(e.sourcetype)];
      index := index + [Text(e.index)];
      raw := raw + [Text(e.raw)];
      attributes := attributes + [if e.attributes.Some? then Text(e.attributes.value) else Missing];
      rows := rows + 1;
      HoldsOneMore(old(Columns()), Columns(), old(rows), Accepted(before), e);
      return true;
    }

    /** The batch of the appended events, under the canonical schema. */
    method Finish(ghost events: seq<Event>) returns (b: Batch)
      requires Holds(events)
      ensures IsBatchOf(b, Accepted(events))
    {
      var cols := Columns();
      b := Batch(seq(8, c requires 0 <= c < 8 => Column(CORE_FIELDS[c], cols[c])), rows);
    }
  }

  /** A valid batch of the canonical schema with one row for each of these events. */
  ghost predicate IsBatchOf(b: Batch, es: seq<Event>) {
    && b.Valid() && b.rows == |es| && |b.columns| == 8 && FieldsOf(b) == CORE_FIELDS
    && forall c :: 0 <= c < 8 ==> b.columns[c].cells == ColumnOf(es, c)
  }

  lemma AcceptedNext(events: seq<Event>, i: nat)
    requires i < |events| && Accepted(events[..i]) == events[..i] && events[i].nanos.Some?
    ensures events[..i] + [events[i]] == events[..i + 1] == Accepted(events[..i + 1])
  {
    hide Accepted;
    AcceptedOneMore(events[..i], events[i]);
    assert events[..i] + [events[i]] == events[..i + 1];
  }

  /** `events_to_record_batch`: all the events in one batch, or an error at the first refused. */
  method EventsToRecordBatch(events: seq<Event>) returns (r: Option<Batch>)
    ensures r.Some? <==> forall i :: 0 <= i < |events| ==> events[i].nanos.Some?
    ensures r.Some? ==> IsBatchOf(r.value, events)
  {
    assert Accepted([]) == [];
    hide HoldsEvents, IsBatchOf, Accepted;
    var builder := new Builder();
    for i := 0 to |events|
      invariant builder.Holds(events[..i]) && Accepted(events[..i]) == events[..i]
      invariant forall j :: 0 <= j < i ==> events[j].nanos.Some?
    {
      var ok := builder.Append(events[i], events[..i]);
      if !ok {
        return None;
      }
      AcceptedNext(events, i);
    }
    assert events[..|events|] == events;
    var b := builder.Finish(events);
    r := Some(b);
  }

  /** The cell of row `i` in the first column of that name. */
  function CellNamed(b: Batch, name: string, i: nat): (cell: Option<Cell>) {
    var at :- NamedAt(b.columns, name);
    if i < |b.columns[at].cells| then Some(b.columns[at].cells[i]) else None
  }

  lemma CoreColumn(b: Batch, es: seq<Event>, c: nat, i: nat)
    requires IsBatchOf(b, es) && c < 8 && i < b.rows
    ensures CellNamed(b, CORE_FIELDS[c].name, i) == Some(CellOf(es[i], c))
  {
    hide CellOf;
    assert forall k :: 0 <= k < 8 ==> b.columns[k].field == FieldsOf(b)[k] == CORE_FIELDS[k];
    NamedAtIs(b.columns, CORE_FIELDS[c].name, c);
  }

  /** Read by column name, a batch gives back every field of every event it was built from. */
  lemma BatchReadsBack(b: Batch, es: seq<Event>, i: nat)
    requires IsBatchOf(b, es) && i < b.rows && es[i].nanos.Some?
    ensures CellNamed(b, "timestamp", i) == Some(Whole(MicrosFromNanos(es[i].nanos.value)))
    ensures CellNamed(b, "timestamp_ns", i) == Some(Whole(es[i].nanos.value))
    ensures CellNamed(b, "host", i) == Some(Text(es[i].host)) && CellNamed(b, "source", i) == Some(Text(es[i].source))
    ensures CellNamed(b, "sourcetype", i) == Some(Text(es[i].sourcetype))
    ensures CellNamed(b, "index", i) == Some(Text(es[i].index)) && CellNamed(b, "raw", i) == Some(Text(es[i].raw))
    ensures CellNamed(b, "attributes", i)
         == Some(if es[i].attributes.Some? then Text(es[i].attributes.value) else Missing)
  {
    hide CellNamed, IsBatchOf;
    CoreColumn(b, es, 0, i);
    CoreColumn(b, es, 1, i);
    CoreColumn(b, es, 2, i);
    CoreColumn(b, es, 3, i);
    CoreColumn(b, es, 4, i);
    CoreColumn(b, es, 5, i);
    CoreColumn(b, es, 6, i);
    CoreColumn(b, es, 7, i);
  }

  /** In every batch of events, ordering rows by the two time columns is ordering them by time. */
  lemma BatchTimeOrder(b: Batch, events: seq<Event>, i: nat, j: nat)
    requires IsBatchOf(b, Accepted(events)) && i < b.rows && j < b.rows
    ensures var micros, nanos := b.columns[0].cells, b.columns[6].cells;
            && |micros| == |nanos| == b.rows
            && micros[i].Whole? && micros[j].Whole? && nanos[i].Whole? && nanos[j].Whole?
            && (nanos[i].i < nanos[j].i <==>
                micros[i].i < micros[j].i || (micros[i].i == micros[j].i && nanos[i].i < nanos[j].i))
  {
    AcceptedHaveTimes(events, i);
    AcceptedHaveTimes(events, j);
  }

  lemma {:induction false} AcceptedHaveTimes(events: seq<Event>, i: nat)
    requires i < |Accepted(events)|
    ensures Accepted(events)[i].nanos.Some?
  {
    var init := events[..|events| - 1];
    if i < |Accepted(init)| {
      AcceptedHaveTimes(init, i);
    }
  }
}
