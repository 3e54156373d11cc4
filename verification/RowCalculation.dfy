/**
 From the rows a collector returned, in terms of alias fields, to rows in terms of the configured fields.
 Evaluation of expressions, printing, parsing and formatting of numbers and unit conversion are arbitrary
 functions here.
 */
module RowCalculation {
  import opened Collections

  const NULL_VALUE: string := "&nbsp;"
  const TYPE_NUMBER: int := 0
  const TYPE_STRING: int := 1

  datatype Value = Nil | Num(number: real) | Text(text: string)

  datatype Quantity = Quantity(number: real, unit: string)

  datatype Run = Failed | Output(value: Value)

  type Bindings = map<string, Value>

  datatype Library = Library(
    run: (nat, Bindings) -> Run,
    show: Value -> string,
    extract: string -> Option<Quantity>,
    convert: (real, string, string) -> Option<real>,
    formatFloat: (real, int) -> string)

  datatype Field = Field(name: string, kind: int)

  datatype Conversion = Conversion(origin: string, target: string)

  /** The parsed calculations and unit conversions of a metric, by field name. */
  datatype Config = Config(programs: map<string, nat>, aliases: map<string, string>, units: map<string, Conversion>)

  /** What is known while a row is calculated: the texts that were collected, and what expressions can see. */
  datatype Scope = Scope(raw: map<string, string>, values: Bindings, texts: Bindings)

  // ---------------------------------------------------------------- one column

  function Cell(lib: Library, column: string): Value {
    match lib.extract(column)
    case Some(q) => Num(q.number)
    case None => Text(column)
  }

  /** Binds a name for later expressions. */
  function Bind(lib: Library, scope: Scope, name: string, column: string): Scope {
    if column == NULL_VALUE then scope.(values := scope.values[name := Nil], texts := scope.texts[name := Nil])
    else scope.(values := scope.values[name := Cell(lib, column)], texts := scope.texts[name := Text(column)])
  }

  function Lookup(m: map<string, string>, key: string): string {
    if key in m then m[key] else ""
  }

  /** The collected text of the field, by its alias if it has one. */
  function Mapped(config: Config, raw: map<string, string>, name: string): string {
    var other := Lookup(config.aliases, name);
    Lookup(raw, if other != "" then other else name)
  }

  function Evaluated(lib: Library, config: Config, scope: Scope, field: Field): string {
    if field.name !in config.programs then Mapped(config, scope.raw, field.name)
    else
      match lib.run(config.programs[field.name], if field.kind == TYPE_STRING then scope.texts else scope.values)
      case Failed => Mapped(config, scope.raw, field.name)
      case Output(value) => if value == Nil then "" else lib.show(value)
  }

  /** Up to four decimals; more precisely printed when those end in a zero. */
  function FormatNumber(lib: Library, x: real): string {
    var short := lib.formatFloat(x, 4);
    if short != "" && (short[|short| - 1] == '0' || short[|short| - 1] == '.') then lib.formatFloat(x, -1) else short
  }

  function Converted(lib: Library, config: Config, name: string, q: Quantity): real {
    if name !in config.units then q.number
    else
      var c := config.units[name];
      match lib.convert(q.number, if q.unit == "" then c.origin else q.unit, c.target)
      case Some(x) => x
      case None => q.number
  }

  function Typed(lib: Library, config: Config, field: Field, value: string): string {
    if value == "" || value == NULL_VALUE || field.kind != TYPE_NUMBER then value
    else
      match lib.extract(value)
      case Some(q) => FormatNumber(lib, Converted(lib, config, field.name, q))
      case None => NULL_VALUE
  }

  function Finished(lib: Library, config: Config, field: Field, value: string): string {
    var typed := Typed(lib, config, field, value);
    if typed == "" then NULL_VALUE else typed
  }

  function Column(lib: Library, config: Config, scope: Scope, field: Field): string {
    Finished(lib, config, field, Evaluated(lib, config, scope, field))
  }

  // ---------------------------------------------------------------- one row

  /** The scope after the given number of alias fields has been read from the row. */
  function Loaded(lib: Library, aliasFields: seq<string>, columns: seq<string>, n: nat): Scope
    requires n <= |aliasFields| && n <= |columns|
  {
    if n == 0 then Scope(map[], map[], map[]) else
      var scope, name, column := Loaded(lib, aliasFields, columns, n - 1), aliasFields[n - 1], columns[n - 1];
      var bound := Bind(lib, scope, name, column);
      if column == NULL_VALUE then bound else bound.(raw := scope.raw[name := column])
  }

  function Start(lib: Library, aliasFields: seq<string>, columns: seq<string>): Scope {
    Loaded(lib, aliasFields, columns, if |aliasFields| <= |columns| then |aliasFields| else |columns|)
  }

  /** One field: its column, and the scope in which it is bound for the fields after it. */
  function Calculator(lib: Library, config: Config): (Scope, Field) -> (string, Scope) {
    (scope: Scope, field: Field) =>
      var column := Column(lib, config, scope, field); (column, Bind(lib, scope, field.name, column))
  }

  /** The columns of the fields in order, and the scope after them. */
  function Row(lib: Library, config: Config, start: Scope, fields: seq<Field>): (seq<string>, Scope) {
    Scan(Calculator(lib, config), start, fields)
  }

  ghost predicate IsFormatted(lib: Library, column: string) {
    exists x :: column == FormatNumber(lib, x)
  }

  /** One column per field, none of them empty, and a number column holds a formatted number or the null marker. */
  lemma {:induction false} RowShape(lib: Library, config: Config, start: Scope, fields: seq<Field>)
    ensures var columns := Row(lib, config, start, fields).0;
      && |columns| == |fields|
      && forall i :: 0 <= i < |fields| ==>
           columns[i] != "" && (fields[i].kind == TYPE_NUMBER ==> columns[i] == NULL_VALUE || IsFormatted(lib, columns[i]))
  {
    if fields != [] {
      RowShape(lib, config, start, fields[..|fields| - 1]);
    }
  }

  /** Appending fields changes neither the columns before them nor what those columns were calculated from. */
  lemma RowIsCausal(lib: Library, config: Config, start: Scope, fields: seq<Field>, more: seq<Field>)
    ensures |Row(lib, config, start, fields).0| == |fields|
    ensures Row(lib, config, start, fields).0 <= Row(lib, config, start, fields + more).0
    ensures Row(lib, config, start, fields + more) ==
      var (columns, scope) := Row(lib, config, start, fields);
      var (others, end) := Row(lib, config, scope, more);
      (columns + others, end)
  {
    RowShape(lib, config, start, fields);
    ScanInTwo(Calculator(lib, config), start, fields, more);
  }

  // ---------------------------------------------------------------- what an expression sees

  /** The last field with the name, or -1. */
  function LastNamed(fields: seq<Field>, name: string): (i: int)
    ensures -1 <= i < |fields|
  {
    if fields == [] then -1
    else if fields[|fields| - 1].name == name then |fields| - 1
    else LastNamed(fields[..|fields| - 1], name)
  }

  function Seen(lib: Library, column: string): Value {
    if column == NULL_VALUE then Nil else Cell(lib, column)
  }

  function SeenText(column: string): Value {
    if column == NULL_VALUE then Nil else Text(column)
  }

  /** A name stands for the last calculated column of that name, or else for what was collected; collected
      texts themselves never change. */
  lemma {:induction false} ScopeIsDetermined(lib: Library, config: Config, start: Scope, fields: seq<Field>, name: string)
    ensures var (columns, scope) := Row(lib, config, start, fields); var i := LastNamed(fields, name);
      && |columns| == |fields| && scope.raw == start.raw
      && (i >= 0 ==> name in scope.values && name in scope.texts
                     && scope.values[name] == Seen(lib, columns[i]) && scope.texts[name] == SeenText(columns[i]))
      && (i < 0 ==> (name in scope.values <==> name in start.values) && (name in scope.texts <==> name in start.texts))
      && (i < 0 && name in start.values ==> scope.values[name] == start.values[name])
      && (i < 0 && name in start.texts ==> scope.texts[name] == start.texts[name])
  {
    if fields != [] {
      ScopeIsDetermined(lib, config, start, fields[..|fields| - 1], name);
    }
  }

  lemma ColumnAt(lib: Library, config: Config, start: Scope, fields: seq<Field>, i: nat)
    requires i < |fields|
    ensures var row := Row(lib, config, start, fields).0; var (front, scope) := Row(lib, config, start, fields[..i]);
      |row| == |fields| && row[..i] == front && row[i] == Column(lib, config, scope, fields[i])
  {
    var upTo, rest := fields[..i] + [fields[i]], fields[i + 1..];
    assert fields == upTo + rest;
    RowShape(lib, config, start, fields);
    RowShape(lib, config, start, fields[..i]);
    RowIsCausal(lib, config, start, upTo, rest);
    ScanNext(Calculator(lib, config), start, fields[..i], fields[i]);
  }

  /** A field without an expression depends on the collected row only, wherever it stands. */
  lemma MappedColumn(lib: Library, config: Config, start: Scope, fields: seq<Field>, i: nat)
    requires i < |fields| && fields[i].name !in config.programs
    ensures |Row(lib, config, start, fields).0| == |fields|
    ensures Row(lib, config, start, fields).0[i]
         == Finished(lib, config, fields[i], Mapped(config, start.raw, fields[i].name))
  {
    ColumnAt(lib, config, start, fields, i);
    ScopeIsDetermined(lib, config, start, fields[..i], fields[i].name);
  }

  // ---------------------------------------------------------------- what a change of the configuration reaches

  /** Under the two configurations every column of the name comes out the same. */
  ghost predicate SameColumns(lib: Library, c1: Config, c2: Config, name: string) {
    forall scope, field: Field :: field.name == name ==> Column(lib, c1, scope, field) == Column(lib, c2, scope, field)
  }

  lemma {:induction false} SameColumnsSameRow(lib: Library, c1: Config, c2: Config, start: Scope, fields: seq<Field>)
    requires forall i :: 0 <= i < |fields| ==> SameColumns(lib, c1, c2, fields[i].name)
    ensures Row(lib, c1, start, fields) == Row(lib, c2, start, fields)
  {
    if fields != [] {
      SameColumnsSameRow(lib, c1, c2, start, fields[..|fields| - 1]);
      assert SameColumns(lib, c1, c2, fields[|fields| - 1].name);
    }
  }

  lemma EvaluatedWithout(lib: Library, config: Config, scope: Scope, field: Field, name: string)
    requires name in config.programs && forall b :: lib.run(config.programs[name], b) == Failed
    ensures Evaluated(lib, config, scope, field)
         == Evaluated(lib, config.(programs := config.programs - {name}), scope, field)
  {
  }

  /** An expression that never succeeds counts for nothing: the whole row is that of the metric without it. */
  lemma FailingExpressionIsNone(lib: Library, config: Config, start: Scope, fields: seq<Field>, name: string)
    requires name in config.programs && forall b :: lib.run(config.programs[name], b) == Failed
    ensures Row(lib, config, start, fields) == Row(lib, config.(programs := config.programs - {name}), start, fields)
  {
    var without := config.(programs := config.programs - {name});
    forall scope, field: Field ensures Evaluated(lib, config, scope, field) == Evaluated(lib, without, scope, field) {
      EvaluatedWithout(lib, config, scope, field, name);
    }
    forall value, field: Field ensures Finished(lib, config, field, value) == Finished(lib, without, field, value) {
    }
    SameColumnsSameRow(lib, config, without, start, fields);
  }

  /** A conversion that never succeeds counts for nothing either. */
  lemma FailingConversionIsNone(lib: Library, config: Config, start: Scope, fields: seq<Field>, name: string)
    requires name in config.units && forall x, origin :: lib.convert(x, origin, config.units[name].target) == None
    ensures Row(lib, config, start, fields) == Row(lib, config.(units := config.units - {name}), start, fields)
  {
    var without := config.(units := config.units - {name});
    forall i | 0 <= i < |fields| ensures SameColumns(lib, config, without, fields[i].name) {
      forall other, q ensures Converted(lib, config, other, q) == Converted(lib, without, other, q) {
      }
    }
    SameColumnsSameRow(lib, config, without, start, fields);
  }

  /** Exchanging one field for another reaches only later columns that have an expression. */
  lemma ChangedFieldReaches(lib: Library, config: Config, start: Scope, fields: seq<Field>, i: nat, other: Field, j: nat)
    requires i < |fields| && j < |fields| && j != i && (j < i || fields[j].name !in config.programs)
    ensures var changed := fields[i := other];
      && |Row(lib, config, start, fields).0| == |Row(lib, config, start, changed).0| == |fields|
      && Row(lib, config, start, fields).0[j] == Row(lib, config, start, changed).0[j]
  {
    var changed := fields[i := other];
    RowShape(lib, config, start, fields);
    RowShape(lib, config, start, changed);
    if j < i {
      assert fields == fields[..i] + fields[i..] && changed == fields[..i] + changed[i..];
      RowIsCausal(lib, config, start, fields[..i], fields[i..]);
      RowIsCausal(lib, config, start, fields[..i], changed[i..]);
    } else {
      MappedColumn(lib, config, start, fields, j);
      MappedColumn(lib, config, start, changed, j);
    }
  }

  // ---------------------------------------------------------------- what a row is, in terms of what was collected

  datatype Metrics = Metrics(priority: int, fields: seq<Field>, aliasFields: seq<string>, config: Config)

  /** The position lies within the alias fields and within the collected row, and has that name. */
  predicate Carries(aliasFields: seq<string>, collected: seq<string>, name: string, j: int) {
    0 <= j < |aliasFields| && j < |collected| && aliasFields[j] == name
  }

  ghost predicate IsLast(aliasFields: seq<string>, collected: seq<string>, name: string, j: int) {
    Carries(aliasFields, collected, name, j) && forall l :: j < l ==> !Carries(aliasFields, collected, name, l)
  }

  /** The last text collected under the name that is not the null marker, or the empty text. */
  ghost predicate IsCollected(aliasFields: seq<string>, collected: seq<string>, name: string, text: string) {
    || (exists j :: && Carries(aliasFields, collected, name, j) && text == collected[j] != "&nbsp;"
                    && forall k :: j < k && Carries(aliasFields, collected, name, k) ==> collected[k] == "&nbsp;")
    || (text == "" && forall k :: Carries(aliasFields, collected, name, k) ==> collected[k] == "&nbsp;")
  }

  /** The collected text of a field: by its alias if it has one, by its own name otherwise. */
  ghost predicate IsSource(m: Metrics, collected: seq<string>, name: string, text: string) {
    if name in m.config.aliases && m.config.aliases[name] != ""
    then IsCollected(m.aliasFields, collected, m.config.aliases[name], text)
    else IsCollected(m.aliasFields, collected, name, text)
  }

  /** What an expression of a field of that kind makes of a text: string fields see texts, others see numbers. */
  function Reading(lib: Library, kind: int, text: string): Value {
    if text == "&nbsp;" then Nil
    else if kind == 1 || lib.extract(text).None? then Text(text)
    else Num(lib.extract(text).value.number)
  }

  /** The name stands for the last earlier column of that name, or else for what was collected last under it. */
  ghost predicate StandsFor(lib: Library, m: Metrics, collected: seq<string>, row: seq<string>, i: nat, name: string, v: Value)
    requires i < |m.fields| && i <= |row|
  {
    var kind := m.fields[i].kind;
    || (exists k :: && 0 <= k < i && m.fields[k].name == name && v == Reading(lib, kind, row[k])
                    && forall l :: k < l < i ==> m.fields[l].name != name)
    || ((forall k :: 0 <= k < i ==> m.fields[k].name != name)
        && exists j :: IsLast(m.aliasFields, collected, name, j) && v == Reading(lib, kind, collected[j]))
  }

  ghost predicate AreBindings(lib: Library, m: Metrics, collected: seq<string>, row: seq<string>, i: nat, b: Bindings)
    requires i < |m.fields| && i <= |row|
  {
    forall name, v :: name in b && b[name] == v <==> StandsFor(lib, m, collected, row, i, name, v)
  }

  /** The text of the field: what its expression gives, or the collected text without one or when it fails. */
  ghost predicate IsText(lib: Library, m: Metrics, collected: seq<string>, row: seq<string>, i: nat, text: string)
    requires i < |m.fields| && i <= |row|
  {
    var name := m.fields[i].name;
    if name !in m.config.programs then IsSource(m, collected, name, text)
    else exists b ::
      && AreBindings(lib, m, collected, row, i, b)
      && match lib.run(m.config.programs[name], b)
         case Failed => IsSource(m, collected, name, text)
         case Output(value) => text == if value == Nil then "" else lib.show(value)
  }

  /** A number in the unit that the field asks for; the unit in the text comes before the configured one. */
  function InUnit(lib: Library, config: Config, name: string, q: Quantity): real {
    if name !in config.units then q.number
    else
      var unit := if q.unit != "" then q.unit else config.units[name].origin;
      var converted := lib.convert(q.number, unit, config.units[name].target);
      if converted.Some? then converted.value else q.number
  }

  /** Printed with four decimals, unless the last of them is a zero. */
  ghost predicate IsPrinted(lib: Library, x: real, text: string) {
    var four := lib.formatFloat(x, 4);
    text == if four != "" && four[|four| - 1] in "0." then lib.formatFloat(x, -1) else four
  }

  /** The column for a text: the text itself, a printed number in number fields, or the null marker for want of either. */
  ghost predicate Shows(lib: Library, config: Config, field: Field, text: string, column: string) {
    if text == "" || text == "&nbsp;" then column == "&nbsp;"
    else if field.kind != 0 then column == text
    else if lib.extract(text).None? then column == "&nbsp;"
    else exists printed ::
      && IsPrinted(lib, InUnit(lib, config, field.name, lib.extract(text).value), printed)
      && column == if printed == "" then "&nbsp;" else printed
  }

  ghost predicate IsColumn(lib: Library, m: Metrics, collected: seq<string>, row: seq<string>, i: nat)
    requires i < |m.fields| && i < |row|
  {
    exists text :: IsText(lib, m, collected, row, i, text) && Shows(lib, m.config, m.fields[i], text, row[i])
  }

  /** One column for each field. */
  ghost predicate IsRow(lib: Library, m: Metrics, collected: seq<string>, row: seq<string>) {
    |row| == |m.fields| && forall i :: 0 <= i < |row| ==> IsColumn(lib, m, collected, row, i)
  }

  lemma FinishedShows(lib: Library, config: Config, field: Field, text: string)
    ensures Shows(lib, config, field, text, Finished(lib, config, field, text))
  {
    if lib.extract(text).Some? {
      var q := lib.extract(text).value;
      assert InUnit(lib, config, field.name, q) == Converted(lib, config, field.name, q);
      assert IsPrinted(lib, Converted(lib, config, field.name, q), FormatNumber(lib, Converted(lib, config, field.name, q)));
    }
  }

  function Reach(aliasFields: seq<string>, collected: seq<string>): nat {
    if |aliasFields| <= |collected| then |aliasFields| else |collected|
  }

  /** What has been read after n positions. */
  lemma {:induction false} RawIsCollected(lib: Library, aliasFields: seq<string>, collected: seq<string>, n: nat, name: string)
    requires n <= Reach(aliasFields, collected)
    ensures IsCollected(aliasFields[..n], collected, name, Lookup(Loaded(lib, aliasFields, collected, n).raw, name))
  {
    if n > 0 {
      RawIsCollected(lib, aliasFields, collected, n - 1, name);
      var before, now := Loaded(lib, aliasFields, collected, n - 1).raw, Loaded(lib, aliasFields, collected, n).raw;
      CollectedNext(aliasFields, collected, n, name, Lookup(before, name));
    }
  }

  lemma CollectedNext(aliasFields: seq<string>, collected: seq<string>, n: nat, name: string, text: string)
    requires 0 < n <= Reach(aliasFields, collected) && IsCollected(aliasFields[..n - 1], collected, name, text)
    ensures var j := n - 1;
      IsCollected(aliasFields[..n], collected, name,
                  if aliasFields[j] == name && collected[j] != "&nbsp;" then collected[j] else text)
  {
    if aliasFields[n - 1] == name && collected[n - 1] != "&nbsp;" {
      assert Carries(aliasFields[..n], collected, name, n - 1);
    } else {
      CollectedStays(aliasFields, collected, n, name, text);
    }
  }

  lemma CarriesNext(aliasFields: seq<string>, collected: seq<string>, n: nat, name: string, k: int)
    requires 0 < n <= Reach(aliasFields, collected)
    ensures Carries(aliasFields[..n], collected, name, k)
       <==> Carries(aliasFields[..n - 1], collected, name, k) || (k == n - 1 && aliasFields[n - 1] == name)
  {
  }

  lemma CollectedStays(aliasFields: seq<string>, collected: seq<string>, n: nat, name: string, text: string)
    requires 0 < n <= Reach(aliasFields, collected) && IsCollected(aliasFields[..n - 1], collected, name, text)
    requires aliasFields[n - 1] != name || collected[n - 1] == "&nbsp;"
    ensures IsCollected(aliasFields[..n], collected, name, text)
  {
    var a, b := aliasFields[..n - 1], aliasFields[..n];
    forall k | Carries(b, collected, name, k) ensures Carries(a, collected, name, k) || collected[k] == "&nbsp;" {
      CarriesNext(aliasFields, collected, n, name, k);
    }
    if j :| Carries(a, collected, name, j) && text == collected[j] != "&nbsp;"
            && forall k :: j < k && Carries(a, collected, name, k) ==> collected[k] == "&nbsp;" {
      CarriesNext(aliasFields, collected, n, name, j);
      assert Carries(b, collected, name, j);
    }
  }

  /** The last position of the name decides what expressions see before any column is calculated. */
  ghost predicate Sees(lib: Library, aliasFields: seq<string>, collected: seq<string>, name: string, scope: Scope) {
    && ((forall j :: !Carries(aliasFields, collected, name, j)) ==> name !in scope.values && name !in scope.texts)
    && (forall j :: IsLast(aliasFields, collected, name, j) ==>
          && name in scope.values && scope.values[name] == Reading(lib, 0, collected[j])
          && name in scope.texts && scope.texts[name] == Reading(lib, 1, collected[j]))
  }

  /** One more position carries its own name, and then it is the last one. */
  lemma LastNext(aliasFields: seq<string>, collected: seq<string>, n: nat, name: string, j: int)
    requires 0 < n <= Reach(aliasFields, collected)
    ensures var a, b := aliasFields[..n - 1], aliasFields[..n];
      && (aliasFields[n - 1] == name ==> Carries(b, collected, name, n - 1) && (IsLast(b, collected, name, j) ==> j == n - 1))
      && (aliasFields[n - 1] != name ==> (Carries(b, collected, name, j) <==> Carries(a, collected, name, j))
                                         && (IsLast(b, collected, name, j) ==> IsLast(a, collected, name, j)))
  {
    var a, b := aliasFields[..n - 1], aliasFields[..n];
    if aliasFields[n - 1] == name {
      assert Carries(b, collected, name, n - 1);
    } else {
      forall k ensures Carries(b, collected, name, k) <==> Carries(a, collected, name, k) {
      }
    }
  }

  lemma {:induction false} LoadedSees(lib: Library, aliasFields: seq<string>, collected: seq<string>, n: nat, name: string)
    requires n <= Reach(aliasFields, collected)
    ensures Sees(lib, aliasFields[..n], collected, name, Loaded(lib, aliasFields, collected, n))
  {
    if n > 0 {
      LoadedSees(lib, aliasFields, collected, n - 1, name);
      LoadedNext(lib, aliasFields, collected, n, name);
      var a, b := aliasFields[..n - 1], aliasFields[..n];
      forall j | IsLast(b, collected, name, j) ensures if aliasFields[n - 1] == name then j == n - 1 else IsLast(a, collected, name, j) {
        LastNext(aliasFields, collected, n, name, j);
      }
      LastNext(aliasFields, collected, n, name, n - 1);
      if forall j :: !Carries(b, collected, name, j) {
        forall j ensures !Carries(a, collected, name, j) {
          LastNext(aliasFields, collected, n, name, j);
        }
      }
    }
  }

  lemma LoadedNext(lib: Library, aliasFields: seq<string>, collected: seq<string>, n: nat, name: string)
    requires 0 < n <= Reach(aliasFields, collected)
    ensures var before, now := Loaded(lib, aliasFields, collected, n - 1), Loaded(lib, aliasFields, collected, n);
      if aliasFields[n - 1] == name then
        && name in now.values && now.values[name] == Reading(lib, 0, collected[n - 1])
        && name in now.texts && now.texts[name] == Reading(lib, 1, collected[n - 1])
      else
        && (name in now.values <==> name in before.values) && (name in now.values ==> now.values[name] == before.values[name])
        && (name in now.texts <==> name in before.texts) && (name in now.texts ==> now.texts[name] == before.texts[name])
  {
  }

  lemma CarriesWithin(aliasFields: seq<string>, collected: seq<string>, name: string)
    ensures var a := aliasFields[..Reach(aliasFields, collected)];
      && (forall k :: Carries(a, collected, name, k) <==> Carries(aliasFields, collected, name, k))
      && (forall k :: IsLast(a, collected, name, k) <==> IsLast(aliasFields, collected, name, k))
  {
    var a := aliasFields[..Reach(aliasFields, collected)];
    forall k ensures Carries(a, collected, name, k) <==> Carries(aliasFields, collected, name, k) {
    }
  }

  lemma CollectedWithin(aliasFields: seq<string>, collected: seq<string>, name: string, text: string)
    requires IsCollected(aliasFields[..Reach(aliasFields, collected)], collected, name, text)
    ensures IsCollected(aliasFields, collected, name, text)
  {
    var a := aliasFields[..Reach(aliasFields, collected)];
    CarriesWithin(aliasFields, collected, name);
    if j :| Carries(a, collected, name, j) && text == collected[j] != "&nbsp;"
            && forall k :: j < k && Carries(a, collected, name, k) ==> collected[k] == "&nbsp;" {
      assert Carries(aliasFields, collected, name, j);
    }
  }

  lemma StartSees(lib: Library, aliasFields: seq<string>, collected: seq<string>, name: string)
    ensures Sees(lib, aliasFields, collected, name, Start(lib, aliasFields, collected))
  {
    LoadedSees(lib, aliasFields, collected, Reach(aliasFields, collected), name);
    CarriesWithin(aliasFields, collected, name);
  }

  lemma SourceIs(lib: Library, m: Metrics, collected: seq<string>, name: string)
    ensures IsSource(m, collected, name, Mapped(m.config, Start(lib, m.aliasFields, collected).raw, name))
  {
    var other := Lookup(m.config.aliases, name);
    var key := if other != "" then other else name;
    RawIsCollected(lib, m.aliasFields, collected, Reach(m.aliasFields, collected), key);
    CollectedWithin(m.aliasFields, collected, key, Lookup(Start(lib, m.aliasFields, collected).raw, key));
  }

  lemma {:induction false} LastNamedIs(fields: seq<Field>, name: string)
    ensures var i := LastNamed(fields, name);
      && (i >= 0 ==> fields[i].name == name) && forall k :: 0 <= k < |fields| && k > i ==> fields[k].name != name
  {
    if fields != [] && fields[|fields| - 1].name != name {
      LastNamedIs(fields[..|fields| - 1], name);
    }
  }

  /** The scope before a field holds what the names stand for there. */
  lemma ScopeHolds(lib: Library, m: Metrics, collected: seq<string>, row: seq<string>, i: nat, scope: Scope, name: string, v: Value)
    requires i < |m.fields| && i <= |row|
    requires (row[..i], scope) == Row(lib, m.config, Start(lib, m.aliasFields, collected), m.fields[..i])
    ensures var b := if m.fields[i].kind == 1 then scope.texts else scope.values;
      name in b && b[name] == v <==> StandsFor(lib, m, collected, row, i, name, v)
  {
    var start, front := Start(lib, m.aliasFields, collected), m.fields[..i];
    ScopeIsDetermined(lib, m.config, start, front, name);
    LastNamedIs(front, name);
    var at := LastNamed(front, name);
    forall k | 0 <= k < i ensures front[k] == m.fields[k] && row[..i][k] == row[k] {
    }
    if at >= 0 {
      assert StandsFor(lib, m, collected, row, i, name, Reading(lib, m.fields[i].kind, row[at]));
    } else {
      StartHolds(lib, m, collected, row, i, start, name, v);
    }
  }

  lemma StartHolds(lib: Library, m: Metrics, collected: seq<string>, row: seq<string>, i: nat, start: Scope, name: string, v: Value)
    requires i < |m.fields| && i <= |row| && start == Start(lib, m.aliasFields, collected)
    requires forall k :: 0 <= k < i ==> m.fields[k].name != name
    ensures var b := if m.fields[i].kind == 1 then start.texts else start.values;
      name in b && b[name] == v <==> StandsFor(lib, m, collected, row, i, name, v)
  {
    StartSees(lib, m.aliasFields, collected, name);
    LastCarried(m.aliasFields, collected, name, |m.aliasFields|);
  }

  /** A name that is carried somewhere has a last position. */
  lemma {:induction false} LastCarried(aliasFields: seq<string>, collected: seq<string>, name: string, n: nat)
    requires forall l :: l >= n ==> !Carries(aliasFields, collected, name, l)
    ensures (exists j :: IsLast(aliasFields, collected, name, j)) || forall j :: !Carries(aliasFields, collected, name, j)
  {
    if n > 0 {
      if Carries(aliasFields, collected, name, n - 1) {
        assert IsLast(aliasFields, collected, name, n - 1);
      } else {
        LastCarried(aliasFields, collected, name, n - 1);
      }
    }
  }

  /** Every calculated row is the row of what was collected. */
  lemma RowIsRow(lib: Library, m: Metrics, collected: seq<string>)
    ensures IsRow(lib, m, collected, Row(lib, m.config, Start(lib, m.aliasFields, collected), m.fields).0)
  {
    var start := Start(lib, m.aliasFields, collected);
    var row := Row(lib, m.config, start, m.fields).0;
    RowShape(lib, m.config, start, m.fields);
    forall i | 0 <= i < |row| ensures IsColumn(lib, m, collected, row, i) {
      ColumnAt(lib, m.config, start, m.fields, i);
      ColumnIsColumn(lib, m, collected, row, i, Row(lib, m.config, start, m.fields[..i]).1);
    }
  }

  lemma ColumnIsColumn(lib: Library, m: Metrics, collected: seq<string>, row: seq<string>, i: nat, scope: Scope)
    requires i < |m.fields| == |row| && row[i] == Column(lib, m.config, scope, m.fields[i])
    requires (row[..i], scope) == Row(lib, m.config, Start(lib, m.aliasFields, collected), m.fields[..i])
    ensures IsColumn(lib, m, collected, row, i)
  {
    var field, b := m.fields[i], if m.fields[i].kind == 1 then scope.texts else scope.values;
    forall name, v ensures name in b && b[name] == v <==> StandsFor(lib, m, collected, row, i, name, v) {
      ScopeHolds(lib, m, collected, row, i, scope, name, v);
    }
    assert AreBindings(lib, m, collected, row, i, b);
    ScopeIsDetermined(lib, m.config, Start(lib, m.aliasFields, collected), m.fields[..i], "");
    SourceIs(lib, m, collected, field.name);
    var text := Evaluated(lib, m.config, scope, field);
    assert IsText(lib, m, collected, row, i, text);
    FinishedShows(lib, m.config, field, text);
  }

  lemma CollectedUnique(aliasFields: seq<string>, collected: seq<string>, name: string, x: string, y: string)
    requires IsCollected(aliasFields, collected, name, x) && IsCollected(aliasFields, collected, name, y)
    ensures x == y
  {
  }

  lemma StandsForUnique(lib: Library, m: Metrics, collected: seq<string>, row: seq<string>, i: nat, name: string, v: Value, w: Value)
    requires i < |m.fields| && i <= |row|
    requires StandsFor(lib, m, collected, row, i, name, v) && StandsFor(lib, m, collected, row, i, name, w)
    ensures v == w
  {
  }

  lemma StandsForSame(lib: Library, m: Metrics, collected: seq<string>, r1: seq<string>, r2: seq<string>, i: nat, name: string, v: Value)
    requires i < |m.fields| && i <= |r1| && i <= |r2| && r1[..i] == r2[..i]
    ensures StandsFor(lib, m, collected, r1, i, name, v) <==> StandsFor(lib, m, collected, r2, i, name, v)
  {
    forall k | 0 <= k < i ensures r1[k] == r2[k] {
      assert r1[..i][k] == r2[..i][k];
    }
  }

  lemma BindingsUnique(lib: Library, m: Metrics, collected: seq<string>, r1: seq<string>, r2: seq<string>, i: nat, b1: Bindings, b2: Bindings)
    requires i < |m.fields| && i <= |r1| && i <= |r2| && r1[..i] == r2[..i]
    requires AreBindings(lib, m, collected, r1, i, b1) && AreBindings(lib, m, collected, r2, i, b2)
    ensures b1 == b2
  {
    forall name ensures name in b1 <==> name in b2 ensures name in b1 ==> b1[name] == b2[name] {
      if name in b1 {
        StandsForSame(lib, m, collected, r1, r2, i, name, b1[name]);
        assert StandsFor(lib, m, collected, r1, i, name, b1[name]);
      }
      if name in b2 {
        StandsForSame(lib, m, collected, r1, r2, i, name, b2[name]);
        assert StandsFor(lib, m, collected, r2, i, name, b2[name]);
      }
    }
  }

  lemma TextUnique(lib: Library, m: Metrics, collected: seq<string>, r1: seq<string>, r2: seq<string>, i: nat, x: string, y: string)
    requires i < |m.fields| && i <= |r1| && i <= |r2| && r1[..i] == r2[..i]
    requires IsText(lib, m, collected, r1, i, x) && IsText(lib, m, collected, r2, i, y)
    ensures x == y
  {
    var name := m.fields[i].name;
    if name in m.config.programs {
      var b1 :| AreBindings(lib, m, collected, r1, i, b1)
        && match lib.run(m.config.programs[name], b1)
           case Failed => IsSource(m, collected, name, x)
           case Output(value) => x == if value == Nil then "" else lib.show(value);
      var b2 :| AreBindings(lib, m, collected, r2, i, b2)
        && match lib.run(m.config.programs[name], b2)
           case Failed => IsSource(m, collected, name, y)
           case Output(value) => y == if value == Nil then "" else lib.show(value);
      BindingsUnique(lib, m, collected, r1, r2, i, b1, b2);
    }
  }

  /** What was collected determines the row. */
  lemma {:induction false} RowUnique(lib: Library, m: Metrics, collected: seq<string>, r1: seq<string>, r2: seq<string>, n: nat)
    requires IsRow(lib, m, collected, r1) && IsRow(lib, m, collected, r2) && n <= |m.fields|
    ensures r1[..n] == r2[..n] && (n == |m.fields| ==> r1 == r2)
  {
    if n > 0 {
      var i := n - 1;
      RowUnique(lib, m, collected, r1, r2, i);
      assert IsColumn(lib, m, collected, r1, i) && IsColumn(lib, m, collected, r2, i);
      var x :| IsText(lib, m, collected, r1, i, x) && Shows(lib, m.config, m.fields[i], x, r1[i]);
      var y :| IsText(lib, m, collected, r2, i, y) && Shows(lib, m.config, m.fields[i], y, r2[i]);
      TextUnique(lib, m, collected, r1, r2, i, x, y);
      assert r1[..n] == r1[..i] + [r1[i]] && r2[..n] == r2[..i] + [r2[i]];
    }
  }

  // ---------------------------------------------------------------- the code

  /** Reads the alias fields of a row, as far as both reach. */
  method LoadRow(lib: Library, aliasFields: seq<string>, columns: seq<string>) returns (scope: Scope)
    ensures scope == Start(lib, aliasFields, columns)
  {
    var raw: map<string, string>, values: Bindings, texts: Bindings := map[], map[], map[];
    var i := 0;
    while i < |aliasFields| && i < |columns|
      invariant 0 <= i <= |aliasFields| && i <= |columns|
      invariant Scope(raw, values, texts) == Loaded(lib, aliasFields, columns, i)
    {
      var name, column := aliasFields[i], columns[i];
      if column == NULL_VALUE {
        values, texts := values[name := Nil], texts[name := Nil];
      } else {
        raw := raw[name := column];
        var q := lib.extract(column);
        values := values[name := if q.Some? then Num(q.value.number) else Text(column)];
        texts := texts[name := Text(column)];
      }
      i := i + 1;
    }
    scope := Scope(raw, values, texts);
  }

  /** The collected text of a field. */
  method MapField(config: Config, raw: map<string, string>, name: string) returns (value: string)
    ensures value == Mapped(config, raw, name)
  {
    var aliasField := if name in config.aliases then config.aliases[name] else "";
    if aliasField != "" {
      value := if aliasField in raw then raw[aliasField] else "";
    } else {
      value := if name in raw then raw[name] else "";
    }
  }

  /** The text of a field, from its expression or from its mapping. */
  method EvaluateField(lib: Library, config: Config, scope: Scope, field: Field) returns (value: string)
    ensures value == Evaluated(lib, config, scope, field)
  {
    value := "";
    if field.name in config.programs {
      var context := if field.kind == TYPE_STRING then scope.texts else scope.values;
      match lib.run(config.programs[field.name], context)
      case Failed =>
        value := MapField(config, scope.raw, field.name);
      case Output(output) =>
        if output != Nil {
          value := lib.show(output);
        }
    } else {
      value := MapField(config, scope.raw, field.name);
    }
  }

  /** The column of a field from its text: numbers are converted and formatted, and nothing is left empty. */
  method FinishField(lib: Library, config: Config, field: Field, text: string) returns (value: string)
    ensures value == Finished(lib, config, field, text)
  {
    value := text;
    if value != "" && value != NULL_VALUE && field.kind == TYPE_NUMBER {
      match lib.extract(value)
      case Some(quantity) =>
        var number := quantity.number;
        if field.name in config.units {
          var conversion := config.units[field.name];
          var originUnit := if quantity.unit == "" then conversion.origin else quantity.unit;
          var converted := lib.convert(number, originUnit, conversion.target);
          if converted.Some? {
            number := converted.value;
          }
        }
        value := FormatNumber(lib, number);
      case None =>
        value := NULL_VALUE;
    }
    if value == "" {
      value := NULL_VALUE;
    }
  }

  /** Calculates the configured fields of one row. */
  method CalculateRow(lib: Library, config: Config, start: Scope, fields: seq<Field>) returns (columns: seq<string>)
    ensures columns == Row(lib, config, start, fields).0
  {
    var raw, values, texts := start.raw, start.values, start.texts;
    columns := [];
    for i := 0 to |fields|
      invariant (columns, Scope(raw, values, texts)) == Row(lib, config, start, fields[..i])
    {
      assert fields[..i + 1][..i] == fields[..i];
      var field := fields[i];
      var text := EvaluateField(lib, config, Scope(raw, values, texts), field);
      var column := FinishField(lib, config, field, text);
      columns := columns + [column];
      if column != NULL_VALUE {
        values, texts := values[field.name := Cell(lib, column)], texts[field.name := Text(column)];
      } else {
        values, texts := values[field.name := Nil], texts[field.name := Nil];
      }
    }
    assert fields[..|fields|] == fields;
  }

  class Response {
    var priority: int
    var fields: seq<Field>
    var rows: seq<seq<string>>
  }

  /** Replaces the collected rows by calculated ones, row by row.  Without alias fields every row is lost. */
  method CalculateFields(lib: Library, metrics: Option<Metrics>, response: Response?)
    modifies response
    ensures response != null && metrics.None? ==>
      response.priority == old(response.priority) && response.fields == old(response.fields) && response.rows == old(response.rows)
    ensures response != null && metrics.Some? ==>
      response.priority == metrics.value.priority && response.fields == metrics.value.fields
    ensures response != null && metrics.Some? && metrics.value.aliasFields == [] ==> response.rows == []
    ensures response != null && metrics.Some? && metrics.value.aliasFields != [] ==>
      var m := metrics.value;
      && |response.rows| == |old(response.rows)|
      && forall r :: 0 <= r < |response.rows| ==>
           && response.rows[r] == Row(lib, m.config, Start(lib, m.aliasFields, old(response.rows)[r]), m.fields).0
           && IsRow(lib, m, old(response.rows)[r], response.rows[r])
  {
    if response == null || metrics.None? {
      return;
    }
    var m := metrics.value;
    response.priority, response.fields := m.priority, m.fields;
    var collected := response.rows;
    if collected == [] {
      return;
    }
    response.rows := [];
    if m.aliasFields == [] {
      return;
    }
    for r := 0 to |collected|
      invariant |response.rows| == r && response.priority == m.priority && response.fields == m.fields
      invariant forall k :: 0 <= k < r ==>
        && response.rows[k] == Row(lib, m.config, Start(lib, m.aliasFields, collected[k]), m.fields).0
        && IsRow(lib, m, collected[k], response.rows[k])
    {
      var start := LoadRow(lib, m.aliasFields, collected[r]);
      var columns := CalculateRow(lib, m.config, start, m.fields);
      RowIsRow(lib, m, collected[r]);
      response.rows := response.rows + [columns];
    }
  }
}
