/**
 * Promotion of declared attributes from the residual `attributes` JSON column into typed columns,
 * and the backfill that extracts them again.
 */
module Promotion {
  import opened Wrappers
  import opened Sequences
  import opened Attributes

  // ----- Batches

  datatype DataType = Utf8 | Int64 | Float64 | Boolean | TimestampMicros

  datatype Field = Field(name: string, ty: DataType, nullable: bool, id: int)

  datatype Cell = Missing | Text(s: string) | Whole(i: int) | Real(x: real) | Truth(b: bool)

  datatype Column = Column(field: Field, cells: seq<Cell>)

  datatype Batch = Batch(columns: seq<Column>, rows: nat) {
    ghost predicate Valid() {
      forall i :: 0 <= i < |columns| ==> |columns[i].cells| == rows
    }
  }

  datatype PromotedType = PUtf8 | PInt64 | PFloat64 | PBoolean {
    function Arrow(): (ty: DataType) {
      match this
      case PUtf8 => Utf8
      case PInt64 => Int64
      case PFloat64 => Float64
      case PBoolean => Boolean
    }
  }

  /** A declared promotion: an attribute key, a column name and a type. */
  datatype Spec = Spec(attrKey: string, name: string, ty: PromotedType)

  /** JSON parsing, rendering and coercion, kept arbitrary. */
  datatype JsonOps = JsonOps(
    parse: string -> Option<map<string, Json>>,
    render: Json -> string,
    asInt: Json -> Option<int>,
    asFloat: Json -> Option<real>,
    asBool: Json -> Option<bool>)

  // ----- What a promoted cell holds

  /** Index of the first column of that name, as `column_by_name` finds it. */
  function NamedAt(cols: seq<Column>, name: string): (i: Option<nat>)
    ensures i.Some? ==> i.value < |cols| && cols[i.value].field.name == name
    ensures i.None? ==> forall k :: 0 <= k < |cols| ==> cols[k].field.name != name
    ensures i.Some? ==> forall k :: 0 <= k < i.value ==> cols[k].field.name != name
  {
    if cols == [] then None
    else if cols[0].field.name == name then Some(0)
    else
      var rest := NamedAt(cols[1..], name);
      if rest.None? then None else Some(rest.value + 1)
  }

  /** The attributes text of a row: present only in a text column, and only when not null. */
  function AttributesText(b: Batch, row: nat): (text: Option<string>) {
    var at :- NamedAt(b.columns, "attributes");
    var col := b.columns[at];
    if col.field.ty == Utf8 && row < |col.cells| && col.cells[row].Text? then Some(col.cells[row].s) else None
  }

  function Coerced(ops: JsonOps, ty: PromotedType, v: Option<Json>): (cell: Cell) {
    if v.None? then Missing
    else
      match ty
      case PUtf8 =>
        (match v.value
         case String(s) => Text(s)
         case Null => Missing
         case other => Text(ops.render(other)))
      case PInt64 => var i := ops.asInt(v.value); if i.Some? then Whole(i.value) else Missing
      case PFloat64 => var x := ops.asFloat(v.value); if x.Some? then Real(x.value) else Missing
      case PBoolean => var b := ops.asBool(v.value); if b.Some? then Truth(b.value) else Missing
  }

  function ParsedRow(ops: JsonOps, b: Batch, row: nat): (m: Option<map<string, Json>>) {
    var text :- AttributesText(b, row);
    ops.parse(text)
  }

  function PromotedCell(ops: JsonOps, spec: Spec, parsed: Option<map<string, Json>>): (cell: Cell) {
    Coerced(ops, spec.ty, if parsed.Some? then Lookup(parsed.value, spec.attrKey) else None)
  }

  // ----- Promotion

  const FIRST_PROMOTED_ID: int := 9

  function PromotedField(spec: Spec, index: nat): (f: Field) {
    Field(spec.name, spec.ty.Arrow(), true, FIRST_PROMOTED_ID + index)
  }

  function PromotedCells(ops: JsonOps, b: Batch, spec: Spec): (cells: seq<Cell>)
    ensures |cells| == b.rows
  {
    seq(b.rows, row requires 0 <= row < b.rows => PromotedCell(ops, spec, ParsedRow(ops, b, row)))
  }

  function PromotedColumns(ops: JsonOps, b: Batch, specs: seq<Spec>): (cols: seq<Column>)
    ensures |cols| == |specs|
  {
    seq(|specs|, i requires 0 <= i < |specs| =>
      Column(PromotedField(specs[i], i), PromotedCells(ops, b, specs[i])))
  }

  /** `promote_attributes`: the batch widened with the declared columns. */
  function Promote(ops: JsonOps, b: Batch, specs: seq<Spec>): (r: Batch) {
    if specs == [] then b else Batch(b.columns + PromotedColumns(ops, b, specs), b.rows)
  }

  function Names(specs: seq<Spec>): (names: set<string>) {
    set i | 0 <= i < |specs| :: specs[i].name
  }

  /** The columns whose names are not listed, in order. */
  function Strip(cols: seq<Column>, names: set<string>): (kept: seq<Column>) {
    if cols == [] then []
    else (if cols[0].field.name in names then [] else [cols[0]]) + Strip(cols[1..], names)
  }

  /** `repromote_attributes`: the declared columns extracted again, replacing any there. */
  function Repromote(ops: JsonOps, b: Batch, specs: seq<Spec>): (r: Batch) {
    if specs == [] then b else Promote(ops, Batch(Strip(b.columns, Names(specs)), b.rows), specs)
  }

  // ----- Promotion, row by row into one builder a column

  method PromoteAttributes(ops: JsonOps, b: Batch, specs: seq<Spec>) returns (r: Batch)
    ensures r == Promote(ops, b, specs)
  {
    if specs == [] {
      return b;
    }
    var builders: seq<seq<Cell>> := seq(|specs|, _ => []);
    for row := 0 to b.rows
      invariant |builders| == |specs|
      invariant forall i :: 0 <= i < |specs| ==> builders[i] == PromotedCells(ops, b, specs[i])[..row]
    {
      var parsed := ParsedRow(ops, b, row);
      builders := AppendRow(ops, parsed, specs, builders);
      forall i | 0 <= i < |specs|
        ensures builders[i] == PromotedCells(ops, b, specs[i])[..row + 1]
      {
        var cells := PromotedCells(ops, b, specs[i]);
        assert cells[..row + 1] == cells[..row] + [cells[row]];
      }
    }
    var columns := b.columns;
    for i := 0 to |specs|
      invariant columns == b.columns + PromotedColumns(ops, b, specs)[..i]
    {
      var cells := PromotedCells(ops, b, specs[i]);
      assert cells[..b.rows] == cells;
      ghost var all := PromotedColumns(ops, b, specs);
      assert all[..i + 1] == all[..i] + [all[i]];
      columns := columns + [Column(PromotedField(specs[i], i), builders[i])];
    }
    assert PromotedColumns(ops, b, specs)[..|specs|] == PromotedColumns(ops, b, specs);
    r := Batch(columns, b.rows);
  }

  /** One row into every builder. */
  method AppendRow(ops: JsonOps, parsed: Option<map<string, Json>>, specs: seq<Spec>, before: seq<seq<Cell>>)
    returns (builders: seq<seq<Cell>>)
    requires |before| == |specs|
    ensures |builders| == |specs|
    ensures forall i :: 0 <= i < |specs| ==> builders[i] == before[i] + [PromotedCell(ops, specs[i], parsed)]
  {
    builders := before;
    for i := 0 to |specs|
      invariant |builders| == |specs|
      invariant forall j :: 0 <= j < i ==> builders[j] == before[j] + [PromotedCell(ops, specs[j], parsed)]
      invariant forall j :: i <= j < |specs| ==> builders[j] == before[j]
    {
      var v := None;
      if parsed.Some? {
        v := AttrLookup(parsed.value, specs[i].attrKey);
      }
      builders := builders[i := builders[i] + [Coerced(ops, specs[i].ty, v)]];
    }
  }

  // ----- Laws

  /** Promotion leaves the columns that were there, and keeps a valid batch valid. */
  lemma PromoteKeeps(ops: JsonOps, b: Batch, specs: seq<Spec>)
    ensures b.columns <= Promote(ops, b, specs).columns
    ensures b.Valid() ==> Promote(ops, b, specs).Valid()
  {
  }

  /** The column a spec adds: its name, its type, nullable, and its id. */
  lemma PromotedColumnIs(ops: JsonOps, b: Batch, specs: seq<Spec>, i: nat)
    requires i < |specs|
    ensures |Promote(ops, b, specs).columns| == |b.columns| + |specs|
    ensures var col := Promote(ops, b, specs).columns[|b.columns| + i];
            && col.field.name == specs[i].name && col.field.nullable && col.field.id == 9 + i
            && |col.cells| == b.rows == Promote(ops, b, specs).rows
            && match specs[i].ty
               case PUtf8 => col.field.ty == Utf8
               case PInt64 => col.field.ty == Int64
               case PFloat64 => col.field.ty == Float64
               case PBoolean => col.field.ty == Boolean
  {
  }

  /** The `attributes` column is at `at`: the first of that name. */
  ghost predicate AttributesAt(b: Batch, at: nat) {
    && at < |b.columns| && b.columns[at].field.name == "attributes"
    && forall k :: 0 <= k < at ==> b.columns[k].field.name != "attributes"
  }

  /** The attributes of a row are the parsed text `m`. */
  ghost predicate RowHas(ops: JsonOps, b: Batch, row: nat, m: map<string, Json>) {
    exists at: nat ::
      && AttributesAt(b, at) && b.columns[at].field.ty == Utf8
      && row < |b.columns[at].cells| && b.columns[at].cells[row].Text?
      && ops.parse(b.columns[at].cells[row].s) == Some(m)
  }

  lemma ParsedRowIff(ops: JsonOps, b: Batch, row: nat, m: map<string, Json>)
    ensures ParsedRow(ops, b, row) == Some(m) <==> RowHas(ops, b, row, m)
  {
    var at := NamedAt(b.columns, "attributes");
    if at.Some? {
      assert AttributesAt(b, at.value);
    }
    assert forall k: nat :: AttributesAt(b, k) ==> at == Some(k);
  }

  /**
   * In a row whose attributes are readable, a promoted cell is null if the key is absent, and
   * otherwise holds the value coerced to the column's type, null if it does not coerce: text as it
   * is, JSON null as null, and any other value rendered, in a text column.
   */
  lemma CellIs(ops: JsonOps, b: Batch, specs: seq<Spec>, i: nat, row: nat, m: map<string, Json>, v: Json)
    requires i < |specs| && row < b.rows && RowHas(ops, b, row, m)
    ensures |Promote(ops, b, specs).columns| > |b.columns| + i
    ensures |Promote(ops, b, specs).columns[|b.columns| + i].cells| == b.rows
    ensures var cell := Promote(ops, b, specs).columns[|b.columns| + i].cells[row];
            var found, ty := Lookup(m, specs[i].attrKey), specs[i].ty;
            && (found == None ==> cell == Missing)
            && (found == Some(v) && ty == PUtf8 && v.String? ==> cell == Text(v.s))
            && (found == Some(v) && ty == PUtf8 && v.Null? ==> cell == Missing)
            && (found == Some(v) && ty == PUtf8 && !v.String? && !v.Null? ==> cell == Text(ops.render(v)))
            && (found == Some(v) && ty == PInt64 && ops.asInt(v).Some? ==> cell == Whole(ops.asInt(v).value))
            && (found == Some(v) && ty == PInt64 && ops.asInt(v).None? ==> cell == Missing)
            && (found == Some(v) && ty == PFloat64 && ops.asFloat(v).Some? ==> cell == Real(ops.asFloat(v).value))
            && (found == Some(v) && ty == PFloat64 && ops.asFloat(v).None? ==> cell == Missing)
            && (found == Some(v) && ty == PBoolean && ops.asBool(v).Some? ==> cell == Truth(ops.asBool(v).value))
            && (found == Some(v) && ty == PBoolean && ops.asBool(v).None? ==> cell == Missing)
  {
    hide Lookup, RowHas, ParsedRow;
    ParsedRowIff(ops, b, row, m);
    assert Promote(ops, b, specs).columns[|b.columns| + i] == PromotedColumns(ops, b, specs)[i];
  }

  /** So a promoted cell is null exactly when the key is absent or its value does not coerce. */
  lemma CellNullIff(ops: JsonOps, b: Batch, specs: seq<Spec>, i: nat, row: nat, m: map<string, Json>)
    requires i < |specs| && row < b.rows && RowHas(ops, b, row, m)
    ensures |Promote(ops, b, specs).columns| > |b.columns| + i
    ensures |Promote(ops, b, specs).columns[|b.columns| + i].cells| == b.rows
    ensures var v := Lookup(m, specs[i].attrKey);
            Promote(ops, b, specs).columns[|b.columns| + i].cells[row] == Missing <==>
              || v.None?
              || match specs[i].ty
                 case PUtf8 => v.value.Null?
                 case PInt64 => ops.asInt(v.value).None?
                 case PFloat64 => ops.asFloat(v.value).None?
                 case PBoolean => ops.asBool(v.value).None?
  {
    hide Promote, RowHas, Lookup;
    var v := Lookup(m, specs[i].attrKey);
    CellIs(ops, b, specs, i, row, m, if v.Some? then v.value else Null);
  }

  /** In a row without readable attributes every promoted cell is null. */
  lemma CellWithout(ops: JsonOps, b: Batch, specs: seq<Spec>, i: nat, row: nat)
    requires i < |specs| && row < b.rows && forall m :: !RowHas(ops, b, row, m)
    ensures |Promote(ops, b, specs).columns| > |b.columns| + i
    ensures |Promote(ops, b, specs).columns[|b.columns| + i].cells| == b.rows
    ensures Promote(ops, b, specs).columns[|b.columns| + i].cells[row] == Missing
  {
    hide Lookup, RowHas, ParsedRow;
    if ParsedRow(ops, b, row).Some? {
      ParsedRowIff(ops, b, row, ParsedRow(ops, b, row).value);
    }
    assert Promote(ops, b, specs).columns[|b.columns| + i] == PromotedColumns(ops, b, specs)[i];
  }

  lemma {:induction false} StripConcat(a: seq<Column>, b: seq<Column>, names: set<string>)
    ensures Strip(a + b, names) == Strip(a, names) + Strip(b, names)
  {
    if a == [] {
      assert a + b == b && Strip(a, names) + Strip(b, names) == Strip(b, names);
    } else {
      StripConcat(a[1..], b, names);
      assert (a + b)[1..] == a[1..] + b;
      var head := if a[0].field.name in names then [] else [a[0]];
      Concat3(head, Strip(a[1..], names), Strip(b, names));
    }
  }

  lemma {:induction false} StripAll(cols: seq<Column>, names: set<string>)
    requires forall i :: 0 <= i < |cols| ==> cols[i].field.name in names
    ensures Strip(cols, names) == []
  {
    if cols != [] {
      StripAll(cols[1..], names);
    }
  }

  /** Nothing is stripped exactly when no name is listed, and otherwise columns are lost. */
  lemma {:induction false} StripNone(cols: seq<Column>, names: set<string>)
    ensures |Strip(cols, names)| <= |cols|
    ensures (forall i :: 0 <= i < |cols| ==> cols[i].field.name !in names) ==> Strip(cols, names) == cols
    ensures |Strip(cols, names)| == |cols| ==> forall i :: 0 <= i < |cols| ==> cols[i].field.name !in names
  {
    if cols != [] {
      StripNone(cols[1..], names);
      assert cols == [cols[0]] + cols[1..];
    }
  }

  lemma {:induction false} StripTwice(cols: seq<Column>, names: set<string>)
    ensures Strip(Strip(cols, names), names) == Strip(cols, names)
  {
    if cols != [] {
      StripTwice(cols[1..], names);
      var head := if cols[0].field.name in names then [] else [cols[0]];
      StripConcat(head, Strip(cols[1..], names), names);
    }
  }

  ghost predicate HasNone(b: Batch, names: set<string>) {
    forall i :: 0 <= i < |b.columns| ==> b.columns[i].field.name !in names
  }

  /** Stripping a promoted batch of at least the promoted names takes away what promotion added. */
  lemma StripPromoted(ops: JsonOps, b: Batch, specs: seq<Spec>, names: set<string>)
    requires specs != [] && Names(specs) <= names
    ensures Strip(Promote(ops, b, specs).columns, names) == Strip(b.columns, names)
  {
    hide PromotedCells;
    var added := PromotedColumns(ops, b, specs);
    StripConcat(b.columns, added, names);
    StripAll(added, names);
  }

  /** Re-extraction is idempotent, whatever the names. */
  lemma RepromoteIdempotent(ops: JsonOps, b: Batch, specs: seq<Spec>)
    ensures Repromote(ops, Repromote(ops, b, specs), specs) == Repromote(ops, b, specs)
  {
    if specs != [] {
      hide Promote, Strip;
      var names := Names(specs);
      var s := Batch(Strip(b.columns, names), b.rows);
      StripPromoted(ops, s, specs, names);
      StripTwice(b.columns, names);
      assert Promote(ops, s, specs).rows == b.rows;
    }
  }

  /** The batch as a reader aligns it to a widened schema: the promoted columns are there, all null. */
  function Padded(b: Batch, specs: seq<Spec>): (r: Batch)
    ensures r.rows == b.rows && b.columns <= r.columns && |r.columns| == |b.columns| + |specs|
    ensures forall i :: 0 <= i < |specs| ==>
              && r.columns[|b.columns| + i].field.name == specs[i].name
              && r.columns[|b.columns| + i].cells == seq(b.rows, _ => Missing)
  {
    Batch(b.columns + seq(|specs|, i requires 0 <= i < |specs| =>
      Column(PromotedField(specs[i], i), seq(b.rows, _ => Missing))), b.rows)
  }

  /** A batch that strips to `b` re-extracts to what promoting `b` gives, wherever its extra columns stand. */
  lemma BackfillFrom(ops: JsonOps, padded: Batch, b: Batch, specs: seq<Spec>)
    requires specs != [] && padded.rows == b.rows && Strip(padded.columns, Names(specs)) == b.columns
    ensures Repromote(ops, padded, specs) == Promote(ops, b, specs)
  {
  }

  /** Backfill of a padded batch equals direct promotion if and only if the batch had none of the names. */
  lemma BackfillIffFresh(ops: JsonOps, b: Batch, specs: seq<Spec>)
    ensures Repromote(ops, Padded(b, specs), specs) == Promote(ops, b, specs) <==> HasNone(b, Names(specs))
  {
    hide PromotedCells;
    var names, p := Names(specs), Padded(b, specs);
    var pads := p.columns[|b.columns|..];
    assert p.columns == b.columns + pads;
    if specs == [] {
      assert p.columns == b.columns;
    } else {
      StripConcat(b.columns, pads, names);
      StripAll(pads, names);
      assert Strip(p.columns, names) == Strip(b.columns, names);
      StripNone(b.columns, names);
      assert |Repromote(ops, p, specs).columns| == |Strip(b.columns, names)| + |specs|;
      assert |Promote(ops, b, specs).columns| == |b.columns| + |specs|;
      if HasNone(b, names) {
        BackfillFrom(ops, p, b, specs);
      }
    }
  }

  /**
   * Widening the declaration: a batch promoted with `p`, re-extracted under `p` then `q`, is the
   * batch promoted with both, if and only if it had none of the names.
   */
  lemma WideningIffFresh(ops: JsonOps, b: Batch, p: seq<Spec>, q: seq<Spec>)
    ensures Repromote(ops, Promote(ops, b, p), p + q) == Promote(ops, b, p + q) <==> HasNone(b, Names(p + q))
  {
    hide PromotedCells;
    var names := Names(p + q);
    StripNone(b.columns, names);
    if p + q != [] {
      if p != [] {
        assert Names(p) <= names by {
          assert forall i :: 0 <= i < |p| ==> (p + q)[i] == p[i];
        }
        StripPromoted(ops, b, p, names);
      } else {
        assert Strip(Promote(ops, b, p).columns, names) == Strip(b.columns, names);
      }
      assert |Repromote(ops, Promote(ops, b, p), p + q).columns| == |Strip(b.columns, names)| + |p + q|;
      assert |Promote(ops, b, p + q).columns| == |b.columns| + |p + q|;
      if HasNone(b, names) {
        BackfillFrom(ops, Promote(ops, b, p), b, p + q);
      }
    } else {
      assert names == {};
    }
  }

  /** Widening keeps the fields, ids and all, that the narrower declaration gave. */
  lemma WideningKeepsFields(ops: JsonOps, b: Batch, p: seq<Spec>, q: seq<Spec>, i: nat)
    requires i < |b.columns| + |p|
    ensures i < |Promote(ops, b, p).columns| <= |Promote(ops, b, p + q).columns|
    ensures Promote(ops, b, p + q).columns[i] == Promote(ops, b, p).columns[i]
  {
  }

  // ----- Promotion works row by row

  /** Two batches of one schema, one after the other. */
  function Stacked(a: Batch, b: Batch): (r: Batch)
    requires |a.columns| == |b.columns|
  {
    Batch(seq(|a.columns|, i requires 0 <= i < |a.columns| =>
      Column(a.columns[i].field, a.columns[i].cells + b.columns[i].cells)), a.rows + b.rows)
  }

  ghost predicate SameSchema(a: Batch, b: Batch) {
    |a.columns| == |b.columns| && forall i :: 0 <= i < |a.columns| ==> a.columns[i].field == b.columns[i].field
  }

  lemma NamedAtIs(cols: seq<Column>, name: string, i: nat)
    requires i < |cols| && cols[i].field.name == name
    requires forall k :: 0 <= k < i ==> cols[k].field.name != name
    ensures NamedAt(cols, name) == Some(i)
  {
  }

  lemma SameSchemaSameName(a: seq<Column>, b: seq<Column>, name: string)
    requires |a| == |b| && forall i :: 0 <= i < |a| ==> a[i].field == b[i].field
    ensures NamedAt(a, name) == NamedAt(b, name)
  {
  }

  lemma StackedText(a: Batch, b: Batch, row: nat)
    requires a.Valid() && b.Valid() && SameSchema(a, b) && row < a.rows + b.rows
    ensures AttributesText(Stacked(a, b), row)
         == if row < a.rows then AttributesText(a, row) else AttributesText(b, row - a.rows)
  {
    hide NamedAt;
    var s := Stacked(a, b);
    SameSchemaSameName(a.columns, b.columns, "attributes");
    SameSchemaSameName(a.columns, s.columns, "attributes");
  }

  /** Promoting a stack of batches is stacking the promoted batches. */
  lemma PromoteStacks(ops: JsonOps, a: Batch, b: Batch, specs: seq<Spec>)
    requires a.Valid() && b.Valid() && SameSchema(a, b)
    ensures |Promote(ops, a, specs).columns| == |Promote(ops, b, specs).columns|
    ensures Promote(ops, Stacked(a, b), specs) == Stacked(Promote(ops, a, specs), Promote(ops, b, specs))
  {
    hide AttributesText, PromotedCell;
    if specs != [] {
      var s := Stacked(a, b);
      var pa, pb := Promote(ops, a, specs), Promote(ops, b, specs);
      forall i | 0 <= i < |specs|
        ensures PromotedCells(ops, s, specs[i]) == PromotedCells(ops, a, specs[i]) + PromotedCells(ops, b, specs[i])
      {
        StackedCells(ops, a, b, specs[i]);
      }
      assert Promote(ops, s, specs).columns == Stacked(pa, pb).columns;
    }
  }

  lemma StackedCells(ops: JsonOps, a: Batch, b: Batch, spec: Spec)
    requires a.Valid() && b.Valid() && SameSchema(a, b)
    ensures PromotedCells(ops, Stacked(a, b), spec) == PromotedCells(ops, a, spec) + PromotedCells(ops, b, spec)
  {
    hide AttributesText, PromotedCell;
    var s := Stacked(a, b);
    var both := PromotedCells(ops, a, spec) + PromotedCells(ops, b, spec);
    forall row | 0 <= row < s.rows
      ensures PromotedCells(ops, s, spec)[row] == both[row]
    {
      StackedText(a, b, row);
    }
  }
}
