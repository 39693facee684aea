/**
 The public performance tables' transport: rows that repeat the previous row's values by one
 bit mask, mark nulls by another, list the remaining values, and refer to dictionaries.
 */
module TableDecoder {
  import opened Wrappers

  datatype Value = Null | Text(text: string) | Int(number: int) | Bool(flag: bool) | Number(amount: real)

  datatype Mask = Malformed | Bits(value: int)

  datatype Field = Field(name: string, dictionary: Option<string>)

  /** A missing mask is Bits(0) and a missing list of values is empty. */
  datatype Row = Row(otherKeys: bool, schema: Option<seq<Field>>, values: seq<Value>, repeat: Mask, nulls: Mask)

  datatype Column = Column(name: string, value: string)

  datatype Page = Page(descriptor: seq<Column>, dictionaries: map<string, seq<Value>>, complete: bool, rows: seq<Row>)

  datatype Error =
    | ColumnsChanged | Truncated | RowLimit | UnexpectedLayout | SchemaChanged | SchemaMissing
    | InvalidMask | OverlappingMasks | NothingToRepeat | MissingValues | ExtraValues
    | InvalidReference | UnknownField

  const MAX_ROWS := 30000

  type Raw = seq<Value>

  // ---- Masks ----

  function Power(n: nat): nat {
    if n == 0 then 1 else 2 * Power(n - 1)
  }

  function Bit(mask: nat, i: nat): bool {
    if i == 0 then mask % 2 == 1 else Bit(mask / 2, i - 1)
  }

  /** Bit i of a mask is its binary digit of weight two to the i. */
  lemma {:induction false} BitIsDigit(mask: nat, i: nat) returns (high: nat, low: nat)
    ensures low < Power(i) && mask == high * Power(i + 1) + (if Bit(mask, i) then Power(i) else 0) + low
    decreases i
  {
    if i == 0 {
      high, low := mask / 2, 0;
      assert Power(1) == 2 * Power(0);
    } else {
      high, low := BitIsDigit(mask / 2, i - 1);
      assert 2 * (high * Power(i)) == high * Power(i + 1);
      low := 2 * low + mask % 2;
    }
  }

  /** The two masks mark disjoint sets of the first n fields. */
  predicate AreMasks(repeat: int, nulls: int, n: nat) {
    && 0 <= repeat < Power(n) && 0 <= nulls < Power(n)
    && forall i | 0 <= i < n :: !(Bit(repeat, i) && Bit(nulls, i))
  }

  // ---- One row ----

  function Prepend(v: Value, rest: Result<Raw, Error>): Result<Raw, Error> {
    if rest.Success? then Success([v] + rest.value) else rest
  }

  /** Decode the fields i .. n from the values that are left. */
  function DecodeFields(i: nat, n: nat, previous: Option<Raw>, repeat: nat, nulls: nat, values: Raw): Result<Raw, Error>
    requires i <= n && (previous.Some? ==> |previous.value| == n)
    decreases n - i
  {
    if i == n then if values == [] then Success([]) else Failure(ExtraValues)
    else if Bit(repeat, i) then
      if previous.None? then Failure(NothingToRepeat)
      else Prepend(previous.value[i], DecodeFields(i + 1, n, previous, repeat, nulls, values))
    else if Bit(nulls, i) then Prepend(Null, DecodeFields(i + 1, n, previous, repeat, nulls, values))
    else if values == [] then Failure(MissingValues)
    else Prepend(values[0], DecodeFields(i + 1, n, previous, repeat, nulls, values[1..]))
  }

  /** The values that neither mask covers, in order. */
  function Remaining(rest: Raw, i: nat, repeat: nat, nulls: nat): Raw
    decreases |rest|
  {
    if rest == [] then []
    else (if Bit(repeat, i) || Bit(nulls, i) then [] else [rest[0]]) + Remaining(rest[1..], i + 1, repeat, nulls)
  }

  /** A masked field holds what its mask says. */
  predicate FitsMasks(v: Value, k: nat, previous: Option<Raw>, repeat: nat, nulls: nat)
    requires previous.Some? ==> k < |previous.value|
  {
    if Bit(repeat, k) then previous.Some? && v == previous.value[k]
    else Bit(nulls, k) ==> v == Null
  }

  predicate AllFit(rest: Raw, i: nat, previous: Option<Raw>, repeat: nat, nulls: nat)
    requires previous.Some? ==> i + |rest| <= |previous.value|
  {
    forall k | 0 <= k < |rest| :: FitsMasks(rest[k], i + k, previous, repeat, nulls)
  }

  lemma AllFitTail(rest: Raw, i: nat, previous: Option<Raw>, repeat: nat, nulls: nat)
    requires rest != [] && (previous.Some? ==> i + |rest| <= |previous.value|)
    ensures AllFit(rest, i, previous, repeat, nulls) <==>
            FitsMasks(rest[0], i, previous, repeat, nulls) && AllFit(rest[1..], i + 1, previous, repeat, nulls)
  {
    if FitsMasks(rest[0], i, previous, repeat, nulls) && AllFit(rest[1..], i + 1, previous, repeat, nulls) {
      forall k | 0 <= k < |rest|
        ensures FitsMasks(rest[k], i + k, previous, repeat, nulls)
      {
        if k > 0 {
          assert FitsMasks(rest[1..][k - 1], i + 1 + (k - 1), previous, repeat, nulls);
        }
      }
    }
    if AllFit(rest, i, previous, repeat, nulls) {
      forall k | 0 <= k < |rest[1..]|
        ensures FitsMasks(rest[1..][k], i + 1 + k, previous, repeat, nulls)
      {
        assert FitsMasks(rest[k + 1], i + (k + 1), previous, repeat, nulls);
      }
    }
  }

  /** Fields i .. n of a row are written down legally. */
  ghost predicate IsWritten(rest: Raw, i: nat, n: nat, previous: Option<Raw>, repeat: nat, nulls: nat, values: Raw)
    requires i <= n && (previous.Some? ==> |previous.value| == n)
  {
    && |rest| == n - i
    && AllFit(rest, i, previous, repeat, nulls)
    && values == Remaining(rest, i, repeat, nulls)
  }

  /** Decoding gives back exactly what was written, and accepts nothing else. */
  lemma {:induction false} DecodesExactly(rest: Raw, i: nat, n: nat, previous: Option<Raw>, repeat: nat, nulls: nat,
                                          values: Raw)
    requires i <= n && (previous.Some? ==> |previous.value| == n)
    ensures DecodeFields(i, n, previous, repeat, nulls, values) == Success(rest) <==>
            IsWritten(rest, i, n, previous, repeat, nulls, values)
    decreases n - i
  {
    if i >= n || rest == [] {
    } else {
      var tail := rest[1..];
      assert rest == [rest[0]] + tail;
      WrittenTail(rest, i, n, previous, repeat, nulls, values);
      if Bit(repeat, i) || Bit(nulls, i) {
        DecodesExactly(tail, i + 1, n, previous, repeat, nulls, values);
      } else if values != [] {
        DecodesExactly(tail, i + 1, n, previous, repeat, nulls, values[1..]);
      }
    }
  }

  lemma WrittenTail(rest: Raw, i: nat, n: nat, previous: Option<Raw>, repeat: nat, nulls: nat, values: Raw)
    requires i < n && (previous.Some? ==> |previous.value| == n) && rest != []
    ensures IsWritten(rest, i, n, previous, repeat, nulls, values) <==>
            && FitsMasks(rest[0], i, previous, repeat, nulls)
            && if Bit(repeat, i) || Bit(nulls, i) then IsWritten(rest[1..], i + 1, n, previous, repeat, nulls, values)
               else
                 && values != [] && values[0] == rest[0]
                 && IsWritten(rest[1..], i + 1, n, previous, repeat, nulls, values[1..])
  {
    if |rest| == n - i {
      AllFitTail(rest, i, previous, repeat, nulls);
    }
    if !(Bit(repeat, i) || Bit(nulls, i)) && values != [] {
      assert values == [values[0]] + values[1..];
    }
  }

  function Unmasked(i: nat, n: nat, repeat: nat, nulls: nat): nat
    decreases n - i
  {
    if i >= n then 0 else (if Bit(repeat, i) || Bit(nulls, i) then 0 else 1) + Unmasked(i + 1, n, repeat, nulls)
  }

  /** An accepted row supplies exactly as many values as it has unmasked fields. */
  lemma {:induction false} ValuesAreCounted(rest: Raw, i: nat, repeat: nat, nulls: nat)
    ensures |Remaining(rest, i, repeat, nulls)| == Unmasked(i, i + |rest|, repeat, nulls)
    decreases |rest|
  {
    if rest == [] {
    } else {
      ValuesAreCounted(rest[1..], i + 1, repeat, nulls);
    }
  }

  function MaskOf(bits: seq<bool>): nat {
    if bits == [] then 0 else (if bits[0] then 1 else 0) + 2 * MaskOf(bits[1..])
  }

  lemma {:induction false} MaskHasBits(bits: seq<bool>, i: nat)
    ensures MaskOf(bits) < Power(|bits|)
    ensures i < |bits| ==> Bit(MaskOf(bits), i) == bits[i]
    decreases |bits|
  {
    if bits == [] {
    } else {
      MaskHasBits(bits[1..], if i > 0 then i - 1 else 0);
    }
  }

  /** Whichever equal fields are marked as repeated and whichever nulls as null, the row decodes to itself. */
  lemma EveryChoiceRoundTrips(raw: Raw, previous: Option<Raw>, repeats: seq<bool>, nulls: seq<bool>)
    requires |repeats| == |nulls| == |raw| && (previous.Some? ==> |previous.value| == |raw|)
    requires forall i | 0 <= i < |raw| && repeats[i] :: !nulls[i] && previous.Some? && raw[i] == previous.value[i]
    requires forall i | 0 <= i < |raw| && nulls[i] :: raw[i] == Null
    ensures AreMasks(MaskOf(repeats), MaskOf(nulls), |raw|)
    ensures DecodeFields(0, |raw|, previous, MaskOf(repeats), MaskOf(nulls),
                         Remaining(raw, 0, MaskOf(repeats), MaskOf(nulls))) == Success(raw)
  {
    forall i | 0 <= i < |raw|
      ensures Bit(MaskOf(repeats), i) == repeats[i] && Bit(MaskOf(nulls), i) == nulls[i]
    {
      MaskHasBits(repeats, i);
      MaskHasBits(nulls, i);
    }
    MaskHasBits(repeats, 0);
    MaskHasBits(nulls, 0);
    DecodesExactly(raw, 0, |raw|, previous, MaskOf(repeats), MaskOf(nulls),
                   Remaining(raw, 0, MaskOf(repeats), MaskOf(nulls)));
  }

  // ---- Dictionaries and columns ----

  /** A number in a dictionary column stands for an entry; text is stored as it is. */
  function Resolve(field: Field, dictionaries: map<string, seq<Value>>, v: Value): Result<Value, Error> {
    if v.Null? || v.Text? || field.dictionary.None? then Success(v)
    else if field.dictionary.value !in dictionaries then Failure(UnknownField)
    else
      var dictionary := dictionaries[field.dictionary.value];
      if v.Int? && 0 <= v.number < |dictionary| then Success(dictionary[v.number]) else Failure(InvalidReference)
  }

  function ResolveAll(schema: seq<Field>, dictionaries: map<string, seq<Value>>, raw: Raw): Result<Raw, Error>
    requires |schema| == |raw|
  {
    if raw == [] then Success([])
    else
      match ResolveAll(schema[..|raw| - 1], dictionaries, raw[..|raw| - 1])
      case Failure(error) => Failure(error)
      case Success(shown) =>
        match Resolve(schema[|raw| - 1], dictionaries, raw[|raw| - 1])
        case Failure(error) => Failure(error)
        case Success(v) => Success(shown + [v])
  }

  lemma {:induction false} ResolveAllKeepsLength(schema: seq<Field>, dictionaries: map<string, seq<Value>>, raw: Raw)
    requires |schema| == |raw|
    ensures ResolveAll(schema, dictionaries, raw).Success? ==> |ResolveAll(schema, dictionaries, raw).value| == |raw|
    decreases |raw|
  {
    if raw == [] {
    } else {
      ResolveAllKeepsLength(schema[..|raw| - 1], dictionaries, raw[..|raw| - 1]);
    }
  }

  /** Each of the first n fields resolves to what is shown. */
  predicate ResolvesUpTo(schema: seq<Field>, dictionaries: map<string, seq<Value>>, raw: Raw, shown: Raw, n: nat)
    requires n <= |schema| && n <= |raw| && n <= |shown|
  {
    forall i | 0 <= i < n :: Resolve(schema[i], dictionaries, raw[i]) == Success(shown[i])
  }

  lemma ResolvesPrefix(schema: seq<Field>, dictionaries: map<string, seq<Value>>, raw: Raw, shown: Raw, n: nat)
    requires n <= |schema| && n <= |raw| && n <= |shown|
    ensures ResolvesUpTo(schema[..n], dictionaries, raw[..n], shown[..n], n) ==
              ResolvesUpTo(schema, dictionaries, raw, shown, n)
  {
    assert forall i | 0 <= i < n :: schema[..n][i] == schema[i] && raw[..n][i] == raw[i] && shown[..n][i] == shown[i];
  }

  lemma {:induction false} ResolveAllIsPointwise(schema: seq<Field>, dictionaries: map<string, seq<Value>>, raw: Raw,
                                                 shown: Raw)
    requires |schema| == |raw|
    ensures ResolveAll(schema, dictionaries, raw) == Success(shown) <==>
            |shown| == |raw| && ResolvesUpTo(schema, dictionaries, raw, shown, |raw|)
    decreases |raw|
  {
    if raw == [] {
    } else {
      var n := |raw| - 1;
      ResolveAllKeepsLength(schema[..n], dictionaries, raw[..n]);
      if |shown| == |raw| {
        ResolveAllIsPointwise(schema[..n], dictionaries, raw[..n], shown[..n]);
        ResolvesPrefix(schema, dictionaries, raw, shown, n);
        assert shown == shown[..n] + [shown[n]];
      }
    }
  }

  /** The last field of a name; later fields overwrite earlier ones. */
  function Position(schema: seq<Field>, name: string): Option<nat> {
    if schema == [] then None
    else if schema[|schema| - 1].name == name then Some(|schema| - 1)
    else Position(schema[..|schema| - 1], name)
  }

  lemma {:induction false} PositionIsLast(schema: seq<Field>, name: string)
    ensures match Position(schema, name)
            case None => forall i | 0 <= i < |schema| :: schema[i].name != name
            case Some(last) =>
              && last < |schema| && schema[last].name == name
              && forall i | last < i < |schema| :: schema[i].name != name
    decreases |schema|
  {
    if schema == [] {
    } else {
      PositionIsLast(schema[..|schema| - 1], name);
    }
  }

  predicate HasColumns(descriptor: seq<Column>, schema: seq<Field>) {
    forall c | c in descriptor :: Position(schema, c.value).Some?
  }

  function Project(descriptor: seq<Column>, schema: seq<Field>, shown: Raw): Raw
    requires |shown| == |schema| && HasColumns(descriptor, schema)
  {
    seq(|descriptor|, j requires 0 <= j < |descriptor| =>
      PositionIsLast(schema, descriptor[j].value);
      shown[Position(schema, descriptor[j].value).value])
  }

  // ---- The table ----

  /** What the rows so far have established. */
  datatype State = State(schema: Option<seq<Field>>, previous: Option<Raw>, table: seq<Raw>)

  predicate IsState(page: Page, s: State) {
    s.previous.Some? ==> s.schema.Some? && |s.schema.value| == |page.descriptor| == |s.previous.value|
  }

  function DecodeRow(page: Page, s: State, row: Row): (r: Result<State, Error>)
    requires IsState(page, s)
    ensures r.Success? ==> IsState(page, r.value)
  {
    if row.otherKeys then Failure(UnexpectedLayout)
    else if row.schema.Some? && s.schema.Some? && s.schema != row.schema then Failure(SchemaChanged)
    else
      var schema := if row.schema.Some? then row.schema else s.schema;
      if schema.None? || |schema.value| != |page.descriptor| then Failure(SchemaMissing)
      else DecodeValues(page, s, schema.value, row)
  }

  function DecodeValues(page: Page, s: State, schema: seq<Field>, row: Row): (r: Result<State, Error>)
    requires |schema| == |page.descriptor| && (s.previous.Some? ==> |s.previous.value| == |schema|)
    ensures r.Success? ==> IsState(page, r.value)
  {
    var n := |schema|;
    if row.repeat.Malformed? || row.nulls.Malformed? || row.repeat.value < 0 || row.nulls.value < 0
      then Failure(InvalidMask)
    else if !AreMasks(row.repeat.value, row.nulls.value, n) then Failure(OverlappingMasks)
    else
      match DecodeFields(0, n, s.previous, row.repeat.value, row.nulls.value, row.values)
      case Failure(error) => Failure(error)
      case Success(raw) =>
        DecodesExactly(raw, 0, n, s.previous, row.repeat.value, row.nulls.value, row.values);
        match ResolveAll(schema, page.dictionaries, raw)
        case Failure(error) => Failure(error)
        case Success(shown) =>
          ResolveAllIsPointwise(schema, page.dictionaries, raw, shown);
          if !HasColumns(page.descriptor, schema) then Failure(UnknownField)
          else Success(State(Some(schema), Some(raw), s.table + [Project(page.descriptor, schema, shown)]))
  }

  const START := State(None, None, [])

  function DecodeAll(page: Page, rows: seq<Row>): (r: Result<State, Error>)
    ensures r.Success? ==> IsState(page, r.value)
  {
    if rows == [] then Success(START)
    else
      match DecodeAll(page, rows[..|rows| - 1])
      case Failure(error) => Failure(error)
      case Success(s) => DecodeRow(page, s, rows[|rows| - 1])
  }

  function Decode(page: Page, expected: seq<string>): Result<seq<Raw>, Error> {
    if NamesOf(page.descriptor) != expected then Failure(ColumnsChanged)
    else if !page.complete then Failure(Truncated)
    else if |page.rows| >= MAX_ROWS then Failure(RowLimit)
    else
      match DecodeAll(page, page.rows)
      case Failure(error) => Failure(error)
      case Success(s) => Success(s.table)
  }

  function NamesOf(descriptor: seq<Column>): seq<string> {
    seq(|descriptor|, j requires 0 <= j < |descriptor| => descriptor[j].name)
  }

  // ---- What a legal page is ----

  /** A row that writes down raw after previous. */
  ghost predicate IsRowFor(row: Row, schema: seq<Field>, previous: Option<Raw>, raw: Raw) {
    && (previous.Some? ==> |previous.value| == |schema|)
    && !row.otherKeys && (row.schema.Some? ==> row.schema.value == schema)
    && row.repeat.Bits? && row.nulls.Bits? && AreMasks(row.repeat.value, row.nulls.value, |schema|)
    && IsWritten(raw, 0, |schema|, previous, row.repeat.value, row.nulls.value, row.values)
  }

  /** A null, a text or a value of a field without a dictionary stands for itself. */
  predicate IsPlain(field: Field, v: Value) {
    v.Null? || v.Text? || field.dictionary.None?
  }

  /** Any other value must be the number of an entry of the field's dictionary, and stands for it. */
  predicate IsReference(field: Field, dictionaries: map<string, seq<Value>>, v: Value) {
    && !IsPlain(field, v) && field.dictionary.value in dictionaries
    && v.Int? && 0 <= v.number < |dictionaries[field.dictionary.value]|
  }

  predicate StandsFor(field: Field, dictionaries: map<string, seq<Value>>, v: Value, shown: Value) {
    || (IsPlain(field, v) && shown == v)
    || (IsReference(field, dictionaries, v) && shown == dictionaries[field.dictionary.value][v.number])
  }

  lemma ResolvesToWhatItStandsFor(field: Field, dictionaries: map<string, seq<Value>>, v: Value, shown: Value)
    ensures Resolve(field, dictionaries, v) == Success(shown) <==> StandsFor(field, dictionaries, v, shown)
    ensures Resolve(field, dictionaries, v).Success? <==> IsPlain(field, v) || IsReference(field, dictionaries, v)
  {}

  /** The raw row shows as the table row. */
  ghost predicate Shows(page: Page, schema: seq<Field>, raw: Raw, cells: Raw) {
    && |raw| == |schema| && |cells| == |page.descriptor|
    && (forall i | 0 <= i < |raw| :: IsPlain(schema[i], raw[i]) || IsReference(schema[i], page.dictionaries, raw[i]))
    && forall j | 0 <= j < |cells| :: ShowsCell(page, schema, raw, page.descriptor[j].value, cells[j])
  }

  /** The cell is what the last field of this name stands for. */
  predicate ShowsCell(page: Page, schema: seq<Field>, raw: Raw, name: string, cell: Value)
    requires |raw| == |schema|
  {
    exists p | 0 <= p < |schema| :: schema[p].name == name && StandsFor(schema[p], page.dictionaries, raw[p], cell) &&
      forall i | p < i < |schema| :: schema[i].name != name
  }

  lemma CellIsResolved(page: Page, schema: seq<Field>, raw: Raw, name: string, cell: Value)
    requires |raw| == |schema|
    ensures Position(schema, name).Some? ==> Position(schema, name).value < |schema|
    ensures ShowsCell(page, schema, raw, name, cell) <==>
            var p := Position(schema, name);
            p.Some? && Resolve(schema[p.value], page.dictionaries, raw[p.value]) == Success(cell)
  {
    PositionIsLast(schema, name);
    var p := Position(schema, name);
    if p.Some? {
      ResolvesToWhatItStandsFor(schema[p.value], page.dictionaries, raw[p.value], cell);
      assert forall q | 0 <= q < |schema| && schema[q].name == name &&
               (forall i | q < i < |schema| :: schema[i].name != name) :: q == p.value;
    }
  }

  /** Rows that legally write down the raw rows, which show as the table. */
  ghost predicate Encodes(page: Page, rows: seq<Row>, schema: seq<Field>, raws: seq<Raw>, table: seq<Raw>)
    decreases |rows|
  {
    && |raws| == |table| == |rows| && |schema| == |page.descriptor|
    && (rows != [] ==>
          var n := |rows| - 1;
          && Encodes(page, rows[..n], schema, raws[..n], table[..n])
          && (n == 0 ==> rows[0].schema == Some(schema))
          && IsRowFor(rows[n], schema, if n == 0 then None else Some(raws[n - 1]), raws[n])
          && Shows(page, schema, raws[n], table[n]))
  }

  lemma ShowsExactly(page: Page, schema: seq<Field>, raw: Raw, cells: Raw)
    requires |raw| == |schema|
    ensures Shows(page, schema, raw, cells) <==>
            var all := ResolveAll(schema, page.dictionaries, raw);
            && all.Success? && |all.value| == |schema|
            && HasColumns(page.descriptor, schema) && cells == Project(page.descriptor, schema, all.value)
  {
    var all := ResolveAll(schema, page.dictionaries, raw);
    if all.Success? {
      ResolveAllIsPointwise(schema, page.dictionaries, raw, all.value);
    }
    forall i | 0 <= i < |raw| {
      ResolvesToWhatItStandsFor(schema[i], page.dictionaries, raw[i], raw[i]);
    }
    forall j | 0 <= j < |cells| && |cells| == |page.descriptor| {
      CellIsResolved(page, schema, raw, page.descriptor[j].value, cells[j]);
    }
    if Shows(page, schema, raw, cells) {
      var shown := seq(|raw|, i requires 0 <= i < |raw| => Resolve(schema[i], page.dictionaries, raw[i]).value);
      ResolveAllIsPointwise(schema, page.dictionaries, raw, shown);
      forall c | c in page.descriptor
        ensures Position(schema, c.value).Some?
      {
        var j :| 0 <= j < |page.descriptor| && page.descriptor[j] == c;
        assert ShowsCell(page, schema, raw, page.descriptor[j].value, cells[j]);
      }
      forall j | 0 <= j < |cells|
        ensures cells[j] == Project(page.descriptor, schema, shown)[j]
      {
        assert ShowsCell(page, schema, raw, page.descriptor[j].value, cells[j]);
      }
    } else if all.Success? && HasColumns(page.descriptor, schema) &&
      cells == Project(page.descriptor, schema, all.value) {
      forall j | 0 <= j < |cells|
        ensures ShowsCell(page, schema, raw, page.descriptor[j].value, cells[j])
      {
        assert page.descriptor[j] in page.descriptor;
      }
    }
  }

  lemma ValuesOfWritten(page: Page, s: State, schema: seq<Field>, row: Row, raw: Raw)
    requires |schema| == |page.descriptor| && IsRowFor(row, schema, s.previous, raw)
    ensures var all, r := ResolveAll(schema, page.dictionaries, raw), DecodeValues(page, s, schema, row);
            && (all.Failure? || !HasColumns(page.descriptor, schema) ==> r.Failure?)
            && (all.Success? && HasColumns(page.descriptor, schema) ==>
                  && |all.value| == |schema|
                  && r == Success(State(Some(schema), Some(raw),
                                        s.table + [Project(page.descriptor, schema, all.value)])))
  {
    DecodesExactly(raw, 0, |schema|, s.previous, row.repeat.value, row.nulls.value, row.values);
    var all := ResolveAll(schema, page.dictionaries, raw);
    if all.Success? {
      ResolveAllIsPointwise(schema, page.dictionaries, raw, all.value);
    }
  }

  lemma ValuesExactly(page: Page, s: State, schema: seq<Field>, row: Row, raw: Raw, cells: Raw)
    requires |schema| == |page.descriptor| && (s.previous.Some? ==> |s.previous.value| == |schema|)
    requires !row.otherKeys && (row.schema.Some? ==> row.schema.value == schema)
    ensures DecodeValues(page, s, schema, row) == Success(State(Some(schema), Some(raw), s.table + [cells])) <==>
            IsRowFor(row, schema, s.previous, raw) && Shows(page, schema, raw, cells)
  {
    if IsRowFor(row, schema, s.previous, raw) {
      ValuesOfWritten(page, s, schema, row, raw);
      ShowsExactly(page, schema, raw, cells);
      var all := ResolveAll(schema, page.dictionaries, raw);
      if all.Success? && HasColumns(page.descriptor, schema) {
        SameLast(s.table, Project(page.descriptor, schema, all.value), cells);
      }
    } else if row.repeat.Bits? && row.nulls.Bits? && AreMasks(row.repeat.value, row.nulls.value, |schema|) {
      DecodesExactly(raw, 0, |schema|, s.previous, row.repeat.value, row.nulls.value, row.values);
    }
  }

  lemma SameLast(table: seq<Raw>, a: Raw, b: Raw)
    ensures table + [a] == table + [b] <==> a == b
  {
    assert (table + [a])[|table|] == a && (table + [b])[|table|] == b;
  }

  lemma RowExactly(page: Page, s: State, row: Row, schema: seq<Field>, raw: Raw, cells: Raw)
    requires IsState(page, s) && (s.schema.Some? ==> s.schema.value == schema)
    requires s.previous.Some? ==> |s.previous.value| == |schema|
    ensures DecodeRow(page, s, row) == Success(State(Some(schema), Some(raw), s.table + [cells])) <==>
            && |schema| == |page.descriptor| && (s.schema.None? ==> row.schema == Some(schema))
            && IsRowFor(row, schema, s.previous, raw) && Shows(page, schema, raw, cells)
  {
    if !row.otherKeys && (row.schema.Some? ==> row.schema.value == schema) && |schema| == |page.descriptor| {
      ValuesExactly(page, s, schema, row, raw, cells);
    }
  }

  lemma DecodedShape(page: Page, s: State, row: Row)
    requires IsState(page, s) && DecodeRow(page, s, row).Success?
    ensures var t := DecodeRow(page, s, row).value;
            && t.schema.Some? && t.previous.Some? && (s.schema.Some? ==> t.schema == s.schema)
            && |t.table| == |s.table| + 1 && t == State(t.schema, t.previous, s.table + [t.table[|s.table|]])
  {}

  /** What the decoder knows after the rows. */
  function StateAfter(schema: seq<Field>, raws: seq<Raw>, table: seq<Raw>): State {
    if raws == [] then START else State(Some(schema), Some(raws[|raws| - 1]), table)
  }

  lemma LastRowIsDecoded(page: Page, rows: seq<Row>, schema: seq<Field>, raws: seq<Raw>, table: seq<Raw>)
    requires Encodes(page, rows, schema, raws, table) && rows != []
    requires var n := |rows| - 1; DecodeAll(page, rows[..n]) == Success(StateAfter(schema, raws[..n], table[..n]))
    ensures DecodeAll(page, rows) == Success(StateAfter(schema, raws, table))
  {
    var n := |rows| - 1;
    assert table == table[..n] + [table[n]];
    RowExactly(page, StateAfter(schema, raws[..n], table[..n]), rows[n], schema, raws[n], table[n]);
  }

  /** No rows encode the empty table under any schema of the right width. */
  lemma EmptyEncodes(page: Page, rows: seq<Row>, earlier: seq<Field>, schema: seq<Field>, raws: seq<Raw>,
                     table: seq<Raw>)
    requires Encodes(page, rows, earlier, raws, table) && (rows != [] ==> earlier == schema) &&
             |schema| == |page.descriptor|
    ensures Encodes(page, rows, schema, raws, table)
  {}

  lemma EncodesMore(page: Page, rows: seq<Row>, schema: seq<Field>, raws: seq<Raw>, table: seq<Raw>, raw: Raw,
                    cells: Raw)
    requires rows != [] && Encodes(page, rows[..|rows| - 1], schema, raws, table)
    requires |rows| == 1 ==> rows[0].schema == Some(schema)
    requires IsRowFor(rows[|rows| - 1], schema, if |rows| == 1 then None else Some(raws[|rows| - 2]), raw)
    requires Shows(page, schema, raw, cells)
    ensures Encodes(page, rows, schema, raws + [raw], table + [cells])
  {
    var n := |rows| - 1;
    assert (raws + [raw])[..n] == raws && (table + [cells])[..n] == table;
    assert n > 0 ==> (raws + [raw])[n - 1] == raws[n - 1];
  }

  lemma DecodedIsMore(page: Page, rows: seq<Row>, schema: seq<Field>, raws: seq<Raw>, table: seq<Raw>, raw: Raw,
                      cells: Raw)
    requires rows != [] && Encodes(page, rows[..|rows| - 1], schema, raws, table)
    requires var s := StateAfter(schema, raws, table);
             && IsState(page, s)
             && DecodeRow(page, s, rows[|rows| - 1]) == Success(State(Some(schema), Some(raw), table + [cells]))
    ensures Encodes(page, rows, schema, raws + [raw], table + [cells])
  {
    RowExactly(page, StateAfter(schema, raws, table), rows[|rows| - 1], schema, raw, cells);
    EncodesMore(page, rows, schema, raws, table, raw, cells);
  }

  lemma LastRowIsEncoded(page: Page, rows: seq<Row>, earlier: seq<Field>, raws: seq<Raw>, table: seq<Raw>)
    returns (schema: seq<Field>, raw: Raw, cells: Raw)
    requires rows != [] && Encodes(page, rows[..|rows| - 1], earlier, raws, table)
    requires DecodeAll(page, rows[..|rows| - 1]) == Success(StateAfter(earlier, raws, table)) &&
             DecodeAll(page, rows).Success?
    ensures Encodes(page, rows, schema, raws + [raw], table + [cells])
    ensures DecodeAll(page, rows) == Success(StateAfter(schema, raws + [raw], table + [cells]))
  {
    var s := StateAfter(earlier, raws, table);
    var last := DecodeRow(page, s, rows[|rows| - 1]);
    DecodedShape(page, s, rows[|rows| - 1]);
    schema, raw, cells := last.value.schema.value, last.value.previous.value, last.value.table[|s.table|];
    assert s.table == table;
    EmptyEncodes(page, rows[..|rows| - 1], earlier, schema, raws, table);
    DecodedIsMore(page, rows, schema, raws, table, raw, cells);
  }

  /** Every legally encoded table is decoded to itself. */
  lemma {:induction false} EncodedIsDecoded(page: Page, rows: seq<Row>, schema: seq<Field>, raws: seq<Raw>,
                                            table: seq<Raw>)
    requires Encodes(page, rows, schema, raws, table)
    ensures DecodeAll(page, rows) == Success(StateAfter(schema, raws, table))
    decreases |rows|
  {
    if rows == [] {
    } else {
      var n := |rows| - 1;
      EncodedIsDecoded(page, rows[..n], schema, raws[..n], table[..n]);
      LastRowIsDecoded(page, rows, schema, raws, table);
    }
  }

  /** Everything that is decoded was legally encoded. */
  lemma {:induction false} DecodedIsEncoded(page: Page, rows: seq<Row>)
    returns (schema: seq<Field>, raws: seq<Raw>, table: seq<Raw>)
    requires DecodeAll(page, rows).Success?
    ensures Encodes(page, rows, schema, raws, table) &&
            DecodeAll(page, rows) == Success(StateAfter(schema, raws, table))
    decreases |rows|
  {
    if rows == [] {
      schema, raws, table := seq(|page.descriptor|, j => Field("", None)), [], [];
    } else {
      schema, raws, table := DecodedIsEncoded(page, rows[..|rows| - 1]);
      var raw, cells;
      schema, raw, cells := LastRowIsEncoded(page, rows, schema, raws, table);
      raws, table := raws + [raw], table + [cells];
    }
  }

  lemma EncodedTable(page: Page, rows: seq<Row>, schema: seq<Field>, raws: seq<Raw>, table: seq<Raw>)
    requires Encodes(page, rows, schema, raws, table)
    ensures DecodeAll(page, rows).Success? && DecodeAll(page, rows).value.table == table
  {
    EncodedIsDecoded(page, rows, schema, raws, table);
    if rows == [] {
      assert |table| == 0;
      assert START.table == table;
    }
  }

  /** The page's rows legally write down the table. */
  ghost predicate IsEncodingOf(page: Page, rows: seq<Row>, table: seq<Raw>) {
    exists schema, raws :: Encodes(page, rows, schema, raws, table)
  }

  lemma DecodedHasEncoding(page: Page, rows: seq<Row>)
    requires DecodeAll(page, rows).Success?
    ensures IsEncodingOf(page, rows, DecodeAll(page, rows).value.table)
  {
    var schema, raws, table := DecodedIsEncoded(page, rows);
  }

  lemma EncodingIsDecoded(page: Page, rows: seq<Row>, table: seq<Raw>)
    requires IsEncodingOf(page, rows, table)
    ensures DecodeAll(page, rows).Success? && DecodeAll(page, rows).value.table == table
  {
    var schema, raws :| Encodes(page, rows, schema, raws, table);
    EncodedTable(page, rows, schema, raws, table);
  }

  /** A complete page with the expected columns decodes to a table exactly when it legally encodes that table. */
  lemma DecodeInvertsEncoding(page: Page, expected: seq<string>, table: seq<Raw>)
    ensures Decode(page, expected) == Success(table) <==>
            && |page.descriptor| == |expected|
            && (forall j | 0 <= j < |expected| :: page.descriptor[j].name == expected[j])
            && page.complete && |page.rows| < 30_000
            && IsEncodingOf(page, page.rows, table)
  {
    if Decode(page, expected) == Success(table) {
      DecodedHasEncoding(page, page.rows);
    }
    if IsEncodingOf(page, page.rows, table) {
      EncodingIsDecoded(page, page.rows, table);
    }
  }

  // ---- The decoder ----

  method DecodeRows(page: Page, expected: seq<string>) returns (r: Result<seq<Raw>, Error>)
    ensures r == Decode(page, expected)
  {
    if NamesOf(page.descriptor) != expected {
      return Failure(ColumnsChanged);
    }
    if !page.complete {
      return Failure(Truncated);
    }
    if |page.rows| >= MAX_ROWS {
      return Failure(RowLimit);
    }
    var s := START;
    for i := 0 to |page.rows|
      invariant DecodeAll(page, page.rows[..i]) == Success(s)
    {
      assert page.rows[..i + 1][..i] == page.rows[..i];
      var next := NextRow(page, s, page.rows[i]);
      if next.Failure? {
        FirstErrorDecides(page, page.rows, i + 1);
        return Failure(next.error);
      }
      s := next.value;
    }
    assert page.rows[..|page.rows|] == page.rows;
    return Success(s.table);
  }

  lemma {:induction false} FirstErrorDecides(page: Page, rows: seq<Row>, i: nat)
    requires i <= |rows| && DecodeAll(page, rows[..i]).Failure?
    ensures DecodeAll(page, rows) == DecodeAll(page, rows[..i])
    decreases |rows|
  {
    if i < |rows| {
      assert rows[..|rows| - 1][..i] == rows[..i];
      FirstErrorDecides(page, rows[..|rows| - 1], i);
    } else {
      assert rows[..i] == rows;
    }
  }

  method NextRow(page: Page, s: State, row: Row) returns (r: Result<State, Error>)
    requires IsState(page, s)
    ensures r == DecodeRow(page, s, row)
  {
    if row.otherKeys {
      return Failure(UnexpectedLayout);
    }
    var schema := s.schema;
    if row.schema.Some? {
      if schema.Some? && schema != row.schema {
        return Failure(SchemaChanged);
      }
      schema := row.schema;
    }
    if schema.None? || |schema.value| != |page.descriptor| {
      return Failure(SchemaMissing);
    }
    var n := |schema.value|;
    if row.repeat.Malformed? || row.nulls.Malformed? || row.repeat.value < 0 || row.nulls.value < 0 {
      return Failure(InvalidMask);
    }
    if !AreMasks(row.repeat.value, row.nulls.value, n) {
      return Failure(OverlappingMasks);
    }
    var raw := ReadFields(n, s.previous, row.repeat.value, row.nulls.value, row.values);
    if raw.Failure? {
      return Failure(raw.error);
    }
    DecodesExactly(raw.value, 0, n, s.previous, row.repeat.value, row.nulls.value, row.values);
    var shown := ReadDictionaries(schema.value, page.dictionaries, raw.value);
    if shown.Failure? {
      return Failure(shown.error);
    }
    ResolveAllIsPointwise(schema.value, page.dictionaries, raw.value, shown.value);
    if !HasColumns(page.descriptor, schema.value) {
      return Failure(UnknownField);
    }
    return Success(State(schema, Some(raw.value), s.table + [Project(page.descriptor, schema.value, shown.value)]));
  }

  method ReadFields(n: nat, previous: Option<Raw>, repeat: nat, nulls: nat, values: Raw) returns (r: Result<Raw, Error>)
    requires previous.Some? ==> |previous.value| == n
    ensures r == DecodeFields(0, n, previous, repeat, nulls, values)
  {
    var raw, used := [], 0;
    ghost var all := DecodeFields(0, n, previous, repeat, nulls, values);
    assert values[0..] == values && (all.Success? ==> [] + all.value == all.value);
    for i := 0 to n
      invariant used <= |values|
      invariant DecodeFields(0, n, previous, repeat, nulls, values) ==
                  After(raw, DecodeFields(i, n, previous, repeat, nulls, values[used..]))
    {
      if Bit(repeat, i) {
        if previous.None? {
          return Failure(NothingToRepeat);
        }
        AfterOneMore(raw, previous.value[i], DecodeFields(i + 1, n, previous, repeat, nulls, values[used..]));
        raw := raw + [previous.value[i]];
      } else if Bit(nulls, i) {
        AfterOneMore(raw, Null, DecodeFields(i + 1, n, previous, repeat, nulls, values[used..]));
        raw := raw + [Null];
      } else {
        if used == |values| {
          return Failure(MissingValues);
        }
        assert values[used..][1..] == values[used + 1..];
        AfterOneMore(raw, values[used], DecodeFields(i + 1, n, previous, repeat, nulls, values[used + 1..]));
        raw := raw + [values[used]];
        used := used + 1;
      }
    }
    if used < |values| {
      return Failure(ExtraValues);
    }
    assert values[used..] == [] && raw + [] == raw;
    return Success(raw);
  }

  function After(raw: Raw, rest: Result<Raw, Error>): Result<Raw, Error> {
    if rest.Success? then Success(raw + rest.value) else rest
  }

  lemma AfterOneMore(raw: Raw, v: Value, rest: Result<Raw, Error>)
    ensures After(raw, Prepend(v, rest)) == After(raw + [v], rest)
  {
    if rest.Success? {
      assert raw + ([v] + rest.value) == raw + [v] + rest.value;
    }
  }

  method ReadDictionaries(schema: seq<Field>, dictionaries: map<string, seq<Value>>, raw: Raw)
    returns (r: Result<Raw, Error>)
    requires |schema| == |raw|
    ensures r == ResolveAll(schema, dictionaries, raw)
  {
    var shown := [];
    for i := 0 to |raw|
      invariant ResolveAll(schema[..i], dictionaries, raw[..i]) == Success(shown)
    {
      assert schema[..i + 1][..i] == schema[..i] && raw[..i + 1][..i] == raw[..i];
      var v := Resolve(schema[i], dictionaries, raw[i]);
      if v.Failure? {
        ResolveErrorDecides(schema, dictionaries, raw, i + 1);
        return Failure(v.error);
      }
      shown := shown + [v.value];
    }
    assert schema[..|raw|] == schema && raw[..|raw|] == raw;
    return Success(shown);
  }

  lemma {:induction false} ResolveErrorDecides(schema: seq<Field>, dictionaries: map<string, seq<Value>>, raw: Raw,
                                               i: nat)
    requires |schema| == |raw| && i <= |raw| && ResolveAll(schema[..i], dictionaries, raw[..i]).Failure?
    ensures ResolveAll(schema, dictionaries, raw) == ResolveAll(schema[..i], dictionaries, raw[..i])
    decreases |raw|
  {
    var n := |raw| - 1;
    if i < |raw| {
      assert schema[..n][..i] == schema[..i] && raw[..n][..i] == raw[..i];
      ResolveErrorDecides(schema[..n], dictionaries, raw[..n], i);
    } else {
      assert schema[..i] == schema && raw[..i] == raw;
    }
  }
}
