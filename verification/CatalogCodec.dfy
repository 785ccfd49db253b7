/** The bytes of a catalog: definitions in id order, read back one by one and validated
    against what has been read before them. */
module CatalogCodec {
  import opened Common
  import opened Bytes
  import opened Values
  import opened Catalogs
  import CatalogLaws

  const CATALOG_HEADER: ByteString := [0x44, 0x42, 0x43, 0x54, 6, 0] // "DBCT", version 6
  const U32_BOUND: nat := 0x1_0000_0000
  const U64_BOUND: nat := 0x1_0000_0000_0000_0000

  // ---- reading and writing in general --------------------------------------

  type Reader<T> = ByteString -> Result<(T, ByteString)>

  /** What is written is read back if it fits, and refused if it does not, whatever follows. */
  ghost predicate ReadsBack<T(!new)>(read: Reader<T>, write: T -> ByteString, fits: T -> bool, x: T) {
    forall tail :: read(write(x) + tail) == if fits(x) then Ok((x, tail)) else Err(Corruption)
  }

  function WriteMany<T>(write: T -> ByteString, xs: seq<T>): ByteString {
    if xs == [] then [] else write(xs[0]) + WriteMany(write, xs[1..])
  }

  function ReadMany<T>(read: Reader<T>, count: nat, b: ByteString): (r: Result<(seq<T>, ByteString)>)
    ensures r.Ok? ==> |r.value.0| == count
  {
    if count == 0 then Ok(([], b))
    else
      var first :- read(b);
      var others :- ReadMany(read, count - 1, first.1);
      Ok(([first.0] + others.0, others.1))
  }

  lemma {:induction false} ReadManyWritten<T(!new)>(read: Reader<T>, write: T -> ByteString, fits: T -> bool, xs: seq<T>, rest: ByteString)
    requires forall x :: x in xs ==> ReadsBack(read, write, fits, x)
    ensures ReadMany(read, |xs|, WriteMany(write, xs) + rest)
            == if forall x :: x in xs ==> fits(x) then Ok((xs, rest)) else Err(Corruption)
  {
    if xs == [] {
      assert WriteMany(write, xs) + rest == rest;
    } else {
      var tail := WriteMany(write, xs[1..]) + rest;
      assert WriteMany(write, xs) + rest == write(xs[0]) + tail;
      assert ReadsBack(read, write, fits, xs[0]);
      ReadManyWritten(read, write, fits, xs[1..], rest);
      assert [xs[0]] + xs[1..] == xs;
      assert (forall x :: x in xs ==> fits(x)) <==> fits(xs[0]) && forall x :: x in xs[1..] ==> fits(x);
    }
  }

  function ReadByte(b: ByteString): Result<(byte, ByteString)> {
    if b == [] then Err(Corruption) else Ok((b[0], b[1..]))
  }

  function ReadUint(b: ByteString, width: nat): (r: Result<(nat, ByteString)>)
    ensures r.Ok? ==> r.value.0 < Bound(width) && |r.value.1| == |b| - width
  {
    match ReadLE(b, width)
    case None => Err(Corruption)
    case Some(x) => Ok(x)
  }

  lemma ReadUintWritten(n: nat, width: nat, rest: ByteString)
    requires n < Bound(width)
    ensures ReadUint(ToLE(n, width) + rest, width) == Ok((n, rest))
  {
    ReadLEWritten(n, width, rest);
  }

  function Count(n: nat): ByteString {
    Bounds();
    ToLE(n % U32_BOUND, 4)
  }

  function ReadCount(b: ByteString): Result<(nat, ByteString)> {
    ReadUint(b, 4)
  }

  lemma ReadCountWritten(n: nat, rest: ByteString)
    requires n < U32_BOUND
    ensures ReadCount(Count(n) + rest) == Ok((n, rest))
  {
    hide ToLE, FromLE, ReadUint;
    Bounds();
    ReadUintWritten(n, 4, rest);
  }

  function WriteName(name: Name): ByteString {
    Count(|name|) + name
  }

  function ReadName(b: ByteString): (r: Result<(Name, ByteString)>) {
    match ReadBlob(b)
    case None => Err(Corruption)
    case Some((x, rest)) => if ValidUtf8(x) then Ok((x, rest)) else Err(Corruption)
  }

  lemma ReadNameWritten(name: Name, rest: ByteString)
    requires |name| < U32_BOUND
    ensures ReadName(WriteName(name) + rest) == Ok((name, rest))
  {
    hide ToLE, FromLE, ReadLE, ReadBlob, ValidUtf8;
    Bounds();
    ReadBlobWritten(name, rest);
    assert WriteName(name) == LengthPrefixed(name);
  }

  function WriteColumnId(id: ColumnId): ByteString {
    Bounds();
    ToLE(id, 2)
  }

  function ReadColumnId(b: ByteString): Result<(ColumnId, ByteString)> {
    Bounds();
    var x :- ReadUint(b, 2);
    Ok((x.0, x.1))
  }

  lemma ReadColumnIdWritten(id: ColumnId, rest: ByteString)
    ensures ReadColumnId(WriteColumnId(id) + rest) == Ok((id, rest))
  {
    Bounds();
    ReadUintWritten(id, 2, rest);
  }

  lemma ColumnIdsReadBack(ids: seq<ColumnId>, rest: ByteString)
    ensures ReadMany(ReadColumnId, |ids|, WriteMany(WriteColumnId, ids) + rest) == Ok((ids, rest))
  {
    forall id | id in ids ensures ReadsBack(ReadColumnId, WriteColumnId, _ => true, id) {
      forall tail ensures ReadColumnId(WriteColumnId(id) + tail) == Ok((id, tail)) {
        ReadColumnIdWritten(id, tail);
      }
    }
    ReadManyWritten(ReadColumnId, WriteColumnId, _ => true, ids, rest);
  }

  function WriteId(id: u64): ByteString {
    Bounds();
    ToLE(id, 8)
  }

  function ReadId(b: ByteString): Result<(u64, ByteString)> {
    Bounds();
    var x :- ReadUint(b, 8);
    Ok((x.0, x.1))
  }

  lemma ReadIdWritten(id: u64, rest: ByteString)
    ensures ReadId(WriteId(id) + rest) == Ok((id, rest))
  {
    Bounds();
    ReadUintWritten(id, 8, rest);
  }

  // ---- tables --------------------------------------------------------------

  function TypeTag(t: ColumnType): byte {
    match t
    case BytesType => 1
    case BoolType => 2
    case I64Type => 3
    case U64Type => 4
    case TextType => 5
    case FloatType => 6
    case DateType => 7
    case TimestampType => 8
    case DecimalType => 9
    case UuidType => 10
  }

  function TypeFromTag(tag: byte): Result<ColumnType> {
    match tag
    case 1 => Ok(BytesType)
    case 2 => Ok(BoolType)
    case 3 => Ok(I64Type)
    case 4 => Ok(U64Type)
    case 5 => Ok(TextType)
    case 6 => Ok(FloatType)
    case 7 => Ok(DateType)
    case 8 => Ok(TimestampType)
    case 9 => Ok(DecimalType)
    case 10 => Ok(UuidType)
    case _ => Err(Corruption)
  }

  function Flag(f: bool): byte {
    if f then 1 else 0
  }

  function WriteColumn(c: Column): ByteString {
    WriteColumnId(c.id) + [TypeTag(c.kind), Flag(c.nullable)] + WriteName(c.name)
  }

  function ReadColumn(b: ByteString): Result<(Column, ByteString)> {
    var id :- ReadColumnId(b);
    var tag :- ReadByte(id.1);
    var kind :- TypeFromTag(tag.0);
    var nullable :- ReadByte(tag.1);
    var name :- ReadName(nullable.1);
    Ok((Column(id.0, name.0, kind, nullable.0 != 0), name.1))
  }

  lemma ReadColumnWritten(c: Column, rest: ByteString)
    requires |c.name| < U32_BOUND
    ensures ReadColumn(WriteColumn(c) + rest) == Ok((c, rest))
  {
    hide ReadColumnId, WriteColumnId, ReadName, WriteName;
    var tail := WriteName(c.name) + rest;
    assert WriteColumn(c) + rest == WriteColumnId(c.id) + ([TypeTag(c.kind), Flag(c.nullable)] + tail);
    ReadColumnIdWritten(c.id, [TypeTag(c.kind), Flag(c.nullable)] + tail);
    ReadNameWritten(c.name, rest);
    assert ([TypeTag(c.kind), Flag(c.nullable)] + tail)[1..] == [Flag(c.nullable)] + tail;
    assert ([Flag(c.nullable)] + tail)[1..] == tail;
  }

  /** A table as it is written, with its primary key, empty when it has none. */
  datatype TableEntry = TableEntry(table: Table, key: seq<ColumnId>)

  predicate TableSizes(e: TableEntry) {
    && |e.table.name| < U32_BOUND && |e.table.columns| < U32_BOUND && |e.key| < U32_BOUND
    && forall c :: c in e.table.columns ==> |c.name| < U32_BOUND
  }

  /** The decoder bounds the number of key columns. */
  predicate TableReadable(e: TableEntry) {
    |e.key| <= 256
  }

  function WriteTable(e: TableEntry): ByteString {
    WriteId(e.table.id) + (WriteName(e.table.name) + (Count(|e.table.columns|) + (WriteMany(WriteColumn, e.table.columns)
    + (Count(|e.key|) + WriteMany(WriteColumnId, e.key)))))
  }

  function ReadTable(b: ByteString): Result<(TableEntry, ByteString)> {
    var id :- ReadId(b);
    var name :- ReadName(id.1);
    var width :- ReadCount(name.1);
    var columns :- ReadMany(ReadColumn, width.0, width.1);
    var parts :- ReadCount(columns.1);
    if parts.0 > 256 then Err(Corruption)
    else
      var key :- ReadMany(ReadColumnId, parts.0, parts.1);
      Ok((TableEntry(Table(id.0, name.0, columns.0), key.0), key.1))
  }

  lemma ColumnsReadBack(columns: seq<Column>, rest: ByteString)
    requires forall c :: c in columns ==> |c.name| < U32_BOUND
    ensures ReadMany(ReadColumn, |columns|, WriteMany(WriteColumn, columns) + rest) == Ok((columns, rest))
  {
    forall c | c in columns ensures ReadsBack(ReadColumn, WriteColumn, _ => true, c) {
      forall tail ensures ReadColumn(WriteColumn(c) + tail) == Ok((c, tail)) {
        ReadColumnWritten(c, tail);
      }
    }
    ReadManyWritten(ReadColumn, WriteColumn, _ => true, columns, rest);
  }

  lemma ReadTableWritten(e: TableEntry, rest: ByteString)
    requires TableSizes(e)
    ensures ReadTable(WriteTable(e) + rest) == if TableReadable(e) then Ok((e, rest)) else Err(Corruption)
  {
    hide ReadId, WriteId, ReadName, WriteName, ReadCount, Count, ReadMany, WriteMany;
    var keys := WriteMany(WriteColumnId, e.key) + rest;
    var counted := Count(|e.key|) + keys;
    var columns := WriteMany(WriteColumn, e.table.columns) + counted;
    var wide := Count(|e.table.columns|) + columns;
    var named := WriteName(e.table.name) + wide;
    assert WriteTable(e) + rest == WriteId(e.table.id) + named by {
      Regroup5(WriteId(e.table.id), WriteName(e.table.name), Count(|e.table.columns|), WriteMany(WriteColumn, e.table.columns),
               Count(|e.key|), WriteMany(WriteColumnId, e.key), rest);
    }
    ReadIdWritten(e.table.id, named);
    ReadNameWritten(e.table.name, wide);
    ReadCountWritten(|e.table.columns|, columns);
    ColumnsReadBack(e.table.columns, counted);
    ReadCountWritten(|e.key|, keys);
    ColumnIdsReadBack(e.key, rest);
  }

  lemma Regroup5(a: ByteString, b: ByteString, c: ByteString, d: ByteString, e: ByteString, f: ByteString, rest: ByteString)
    ensures (a + (b + (c + (d + (e + f))))) + rest == a + (b + (c + (d + (e + (f + rest)))))
  {
    assert (e + f) + rest == e + (f + rest);
    assert (d + (e + f)) + rest == d + (e + (f + rest));
    assert (c + (d + (e + f))) + rest == c + (d + (e + (f + rest)));
    assert (b + (c + (d + (e + f)))) + rest == b + (c + (d + (e + (f + rest))));
  }

  // ---- indexes -------------------------------------------------------------

  function OperatorTag(op: KeyOperator): byte {
    match op
    case Plus => 0
    case Minus => 1
    case Times => 2
    case Over => 3
  }

  function OperatorFromTag(tag: byte): Result<KeyOperator> {
    match tag
    case 0 => Ok(Plus)
    case 1 => Ok(Minus)
    case 2 => Ok(Times)
    case 3 => Ok(Over)
    case _ => Err(Corruption)
  }

  function WriteExpression(e: Expression): (b: ByteString)
    ensures b != []
  {
    match e
    case Reference(id) => [0] + WriteColumnId(id)
    case Combine(left, op, right) => [1] + (WriteExpression(left) + (WriteExpression(right) + [OperatorTag(op)]))
  }

  function ReadExpression(b: ByteString): (r: Result<(Expression, ByteString)>)
    ensures r.Ok? ==> |r.value.1| < |b|
    decreases |b|
  {
    if b == [] then Err(Corruption)
    else if b[0] == 0 then
      var id :- ReadColumnId(b[1..]);
      Ok((Reference(id.0), id.1))
    else if b[0] == 1 then
      var left :- ReadExpression(b[1..]);
      var right :- ReadExpression(left.1);
      var tag :- ReadByte(right.1);
      var op :- OperatorFromTag(tag.0);
      Ok((Combine(left.0, op, right.0), tag.1))
    else Err(Corruption)
  }

  lemma {:induction false} ReadExpressionWritten(e: Expression, rest: ByteString)
    ensures ReadExpression(WriteExpression(e) + rest) == Ok((e, rest))
    decreases e
  {
    hide ReadColumnId, WriteColumnId;
    var b := WriteExpression(e) + rest;
    match e
    case Reference(id) =>
      assert b[1..] == WriteColumnId(id) + rest;
      ReadColumnIdWritten(id, rest);
    case Combine(left, op, right) =>
      var operator := [OperatorTag(op)] + rest;
      var second := WriteExpression(right) + operator;
      assert b[1..] == WriteExpression(left) + second;
      ReadExpressionWritten(left, second);
      ReadExpressionWritten(right, operator);
      assert operator[1..] == rest;
  }

  function WritePart(p: KeyPart): ByteString {
    match p
    case Plain(id) => [0] + WriteColumnId(id)
    case Computed(e) => [1] + WriteExpression(e)
  }

  function ReadPart(b: ByteString): Result<(KeyPart, ByteString)> {
    var tag :- ReadByte(b);
    if tag.0 == 0 then
      var id :- ReadColumnId(tag.1);
      Ok((Plain(id.0), id.1))
    else if tag.0 == 1 then
      var e :- ReadExpression(tag.1);
      Ok((Computed(e.0), e.1))
    else Err(Corruption)
  }

  lemma ReadPartWritten(p: KeyPart, rest: ByteString)
    ensures ReadPart(WritePart(p) + rest) == Ok((p, rest))
  {
    hide ReadColumnId, WriteColumnId, ReadExpression, WriteExpression;
    var b := WritePart(p) + rest;
    match p
    case Plain(id) =>
      assert b[1..] == WriteColumnId(id) + rest;
      ReadColumnIdWritten(id, rest);
    case Computed(e) =>
      assert b[1..] == WriteExpression(e) + rest;
      ReadExpressionWritten(e, rest);
  }

  type Term = (ColumnId, Value)

  /** The value tags the catalog decoder knows. */
  predicate TermReadable(t: Term) {
    t.1.Null? || t.1.Boolean? || t.1.Int? || t.1.UInt? || t.1.Text? || t.1.Float?
  }

  function WriteTerm(t: Term): ByteString {
    WriteColumnId(t.0) + if Storable(t.1) then Encode(t.1) else []
  }

  /** Text that is not UTF-8 is repaired by substitution, which `repair` stands for. */
  function ReadTermValue(repair: ByteString -> Utf8, b: ByteString): Result<(Value, ByteString)> {
    Bounds();
    var tag :- ReadByte(b);
    match tag.0
    case 0 => Ok((Null, tag.1))
    case 2 => var x :- ReadByte(tag.1); Ok((Boolean(x.0 != 0), x.1))
    case 3 => var x :- ReadUint(tag.1, 8); Ok((Int(Signed(x.0, 8)), x.1))
    case 4 => var x :- ReadUint(tag.1, 8); Ok((UInt(x.0), x.1))
    case 5 =>
      (match ReadBlob(tag.1)
       case None => Err(Corruption)
       case Some((x, rest)) => Ok((Text(if ValidUtf8(x) then x else repair(x)), rest)))
    case 6 => var x :- ReadUint(tag.1, 8); Ok((Float(x.0), x.1))
    case _ => Err(Corruption)
  }

  function ReadTerm(repair: ByteString -> Utf8): Reader<Term> {
    b =>
      var id :- ReadColumnId(b);
      var v :- ReadTermValue(repair, id.1);
      Ok(((id.0, v.0), v.1))
  }

  lemma ReadTermValueWritten(repair: ByteString -> Utf8, v: Value, rest: ByteString)
    requires Storable(v)
    ensures ReadTermValue(repair, Encode(v) + rest) == if TermReadable((0, v)) then Ok((v, rest)) else Err(Corruption)
  {
    hide ToLE, ReadLE;
    Bounds();
    var b := Encode(v) + rest;
    assert b[1..] == Payload(v) + rest;
    match v
    case Null => assert b[1..] == rest;
    case Boolean(_) => assert b[1..][1..] == rest;
    case Int(i) => ReadUintWritten(Unsigned(i, 8), 8, rest);
    case UInt(n) => ReadUintWritten(n, 8, rest);
    case Float(n) => ReadUintWritten(n, 8, rest);
    case Text(utf8) => ReadBlobWritten(utf8, rest);
    case _ =>
  }

  lemma ReadTermWritten(repair: ByteString -> Utf8, t: Term, rest: ByteString)
    requires Storable(t.1)
    ensures ReadTerm(repair)(WriteTerm(t) + rest) == if TermReadable(t) then Ok((t, rest)) else Err(Corruption)
  {
    hide ReadColumnId, WriteColumnId, ReadTermValue, Encode;
    assert WriteTerm(t) + rest == WriteColumnId(t.0) + (Encode(t.1) + rest);
    ReadColumnIdWritten(t.0, Encode(t.1) + rest);
    ReadTermValueWritten(repair, t.1, rest);
  }

  function WriteFilter(filter: Option<seq<Term>>): ByteString {
    match filter
    case None => [0]
    case Some(terms) => [1] + (Count(|terms|) + WriteMany(WriteTerm, terms))
  }

  function ReadFilter(repair: ByteString -> Utf8, b: ByteString): Result<(Option<seq<Term>>, ByteString)> {
    var marker :- ReadByte(b);
    if marker.0 == 0 then Ok((None, marker.1))
    else
      var count :- ReadCount(marker.1);
      if count.0 == 0 || count.0 > 256 then Err(Corruption)
      else
        var terms :- ReadMany(ReadTerm(repair), count.0, count.1);
        Ok((Some(terms.0), terms.1))
  }

  predicate FilterSizes(filter: Option<seq<Term>>) {
    filter.Some? ==> |filter.value| < U32_BOUND && forall t :: t in filter.value ==> Storable(t.1)
  }

  /** A predicate has at least one term, at most 256, and only values of known tags. */
  predicate FilterReadable(filter: Option<seq<Term>>) {
    filter.Some? ==> 0 < |filter.value| <= 256 && forall t :: t in filter.value ==> TermReadable(t)
  }

  lemma ReadFilterWritten(repair: ByteString -> Utf8, filter: Option<seq<Term>>, rest: ByteString)
    requires FilterSizes(filter)
    ensures ReadFilter(repair, WriteFilter(filter) + rest) == if FilterReadable(filter) then Ok((filter, rest)) else Err(Corruption)
  {
    hide ReadCount, Count, ReadMany, WriteMany, ReadTerm, WriteTerm, TermReadable;
    var b := WriteFilter(filter) + rest;
    if filter.None? {
      assert b[1..] == rest;
    } else {
      var terms := filter.value;
      var written := WriteMany(WriteTerm, terms) + rest;
      assert b[1..] == Count(|terms|) + written;
      ReadCountWritten(|terms|, written);
      TermsReadBack(repair, terms, rest);
    }
  }

  lemma TermsReadBack(repair: ByteString -> Utf8, terms: seq<Term>, rest: ByteString)
    requires forall t :: t in terms ==> Storable(t.1)
    ensures ReadMany(ReadTerm(repair), |terms|, WriteMany(WriteTerm, terms) + rest)
            == if forall t :: t in terms ==> TermReadable(t) then Ok((terms, rest)) else Err(Corruption)
  {
    hide ReadMany, WriteMany, ReadTerm, WriteTerm, TermReadable;
    forall t | t in terms ensures ReadsBack(ReadTerm(repair), WriteTerm, TermReadable, t) {
      forall tail ensures ReadTerm(repair)(WriteTerm(t) + tail) == if TermReadable(t) then Ok((t, tail)) else Err(Corruption) {
        ReadTermWritten(repair, t, tail);
      }
    }
    ReadManyWritten(ReadTerm(repair), WriteTerm, TermReadable, terms, rest);
  }

  function WriteOptionalName(name: Option<Name>): ByteString {
    match name
    case None => [0]
    case Some(n) => [1] + WriteName(n)
  }

  function ReadOptionalName(b: ByteString): Result<(Option<Name>, ByteString)> {
    var marker :- ReadByte(b);
    if marker.0 == 0 then Ok((None, marker.1))
    else if marker.0 == 1 then
      var name :- ReadName(marker.1);
      Ok((Some(name.0), name.1))
    else Err(Corruption)
  }

  lemma ReadOptionalNameWritten(name: Option<Name>, rest: ByteString)
    requires name.Some? ==> |name.value| < U32_BOUND
    ensures ReadOptionalName(WriteOptionalName(name) + rest) == Ok((name, rest))
  {
    hide ReadName, WriteName;
    var b := WriteOptionalName(name) + rest;
    if name.Some? {
      assert b[1..] == WriteName(name.value) + rest;
      ReadNameWritten(name.value, rest);
    } else {
      assert b[1..] == rest;
    }
  }

  datatype IndexEntry = IndexEntry(index: Index, name: Option<Name>)

  predicate IndexSizes(e: IndexEntry) {
    |e.index.parts| < U32_BOUND && FilterSizes(e.index.filter) && (e.name.Some? ==> |e.name.value| < U32_BOUND)
  }

  predicate IndexReadable(e: IndexEntry) {
    0 < |e.index.parts| <= 4096 && FilterReadable(e.index.filter)
  }

  function WriteIndex(e: IndexEntry): ByteString {
    WriteId(e.index.id) + (WriteId(e.index.table) + (Count(|e.index.parts|) + (WriteMany(WritePart, e.index.parts)
    + ([Flag(e.index.unique)] + (WriteFilter(e.index.filter) + WriteOptionalName(e.name))))))
  }

  function ReadIndex(repair: ByteString -> Utf8): Reader<IndexEntry> {
    b =>
      var id :- ReadId(b);
      var table :- ReadId(id.1);
      var count :- ReadCount(table.1);
      if count.0 == 0 || count.0 > 4096 then Err(Corruption)
      else
        var parts :- ReadMany(ReadPart, count.0, count.1);
        var unique :- ReadByte(parts.1);
        var filter :- ReadFilter(repair, unique.1);
        var name :- ReadOptionalName(filter.1);
        Ok((IndexEntry(Index(id.0, table.0, parts.0, unique.0 != 0, filter.0), name.0), name.1))
  }

  lemma PartsReadBack(parts: seq<KeyPart>, rest: ByteString)
    ensures ReadMany(ReadPart, |parts|, WriteMany(WritePart, parts) + rest) == Ok((parts, rest))
  {
    forall p | p in parts ensures ReadsBack(ReadPart, WritePart, _ => true, p) {
      forall tail ensures ReadPart(WritePart(p) + tail) == Ok((p, tail)) {
        ReadPartWritten(p, tail);
      }
    }
    ReadManyWritten(ReadPart, WritePart, _ => true, parts, rest);
  }

  lemma ReadIndexWritten(repair: ByteString -> Utf8, e: IndexEntry, rest: ByteString)
    requires IndexSizes(e)
    ensures ReadIndex(repair)(WriteIndex(e) + rest) == if IndexReadable(e) then Ok((e, rest)) else Err(Corruption)
  {
    hide ReadId, WriteId, ReadCount, Count, ReadMany, WriteMany, ReadFilter, WriteFilter, ReadOptionalName, WriteOptionalName,
         FilterSizes, FilterReadable;
    var named := WriteOptionalName(e.name) + rest;
    var filtered := WriteFilter(e.index.filter) + named;
    var flagged := [Flag(e.index.unique)] + filtered;
    var parts := WriteMany(WritePart, e.index.parts) + flagged;
    var counted := Count(|e.index.parts|) + parts;
    var owned := WriteId(e.index.table) + counted;
    assert WriteIndex(e) + rest == WriteId(e.index.id) + owned by {
      Regroup6(WriteId(e.index.id), WriteId(e.index.table), Count(|e.index.parts|), WriteMany(WritePart, e.index.parts),
               [Flag(e.index.unique)], WriteFilter(e.index.filter), WriteOptionalName(e.name), rest);
    }
    ReadIdWritten(e.index.id, owned);
    ReadIdWritten(e.index.table, counted);
    ReadCountWritten(|e.index.parts|, parts);
    PartsReadBack(e.index.parts, flagged);
    assert flagged[1..] == filtered;
    ReadFilterWritten(repair, e.index.filter, named);
    ReadOptionalNameWritten(e.name, rest);
  }

  lemma Regroup6(a: ByteString, b: ByteString, c: ByteString, d: ByteString, e: ByteString, f: ByteString, g: ByteString, rest: ByteString)
    ensures (a + (b + (c + (d + (e + (f + g)))))) + rest == a + (b + (c + (d + (e + (f + (g + rest))))))
  {
    Regroup5(b, c, d, e, f, g, rest);
    assert (a + (b + (c + (d + (e + (f + g)))))) + rest == a + ((b + (c + (d + (e + (f + g))))) + rest);
  }

  // ---- foreign keys --------------------------------------------------------

  function ActionTag(a: Action): byte {
    match a
    case Restrict => 0
    case Cascade => 1
    case SetNull => 2
  }

  function ActionFromTag(tag: byte): Result<Action> {
    match tag
    case 0 => Ok(Restrict)
    case 1 => Ok(Cascade)
    case 2 => Ok(SetNull)
    case _ => Err(Corruption)
  }

  function TimingTag(t: Timing): byte {
    if t == Immediate then 0 else 1
  }

  function TimingFromTag(tag: byte): Result<Timing> {
    match tag
    case 0 => Ok(Immediate)
    case 1 => Ok(Deferred)
    case _ => Err(Corruption)
  }

  datatype KeyEntry = KeyEntry(key: ForeignKey, name: Option<Name>)

  predicate KeySizes(e: KeyEntry) {
    |e.key.columns| < U32_BOUND && |e.key.referencedColumns| < U32_BOUND && (e.name.Some? ==> |e.name.value| < U32_BOUND)
  }

  predicate KeyReadable(e: KeyEntry) {
    0 < |e.key.columns| <= 4096 && |e.key.referencedColumns| == |e.key.columns|
  }

  function WriteKey(e: KeyEntry): ByteString {
    WriteId(e.key.id) + (WriteId(e.key.table) + (Count(|e.key.columns|) + (WriteMany(WriteColumnId, e.key.columns)
    + WriteKeyTail(e))))
  }

  function WriteKeyTail(e: KeyEntry): ByteString {
    WriteId(e.key.referencedTable) + (Count(|e.key.referencedColumns|) + (WriteMany(WriteColumnId, e.key.referencedColumns)
    + ([ActionTag(e.key.onDelete), TimingTag(e.key.timing)] + WriteOptionalName(e.name))))
  }

  function ReadKey(b: ByteString): Result<(KeyEntry, ByteString)> {
    var id :- ReadId(b);
    var table :- ReadId(id.1);
    var count :- ReadCount(table.1);
    if count.0 == 0 || count.0 > 4096 then Err(Corruption)
    else
      var columns :- ReadMany(ReadColumnId, count.0, count.1);
      ReadKeyTail(id.0, table.0, columns.0, columns.1)
  }

  function ReadKeyTail(id: ConstraintId, table: TableId, columns: seq<ColumnId>, b: ByteString): Result<(KeyEntry, ByteString)> {
    var referenced :- ReadId(b);
    var count :- ReadCount(referenced.1);
    if count.0 != |columns| || count.0 > 4096 then Err(Corruption)
    else
      var parents :- ReadMany(ReadColumnId, count.0, count.1);
      var tag :- ReadByte(parents.1);
      var action :- ActionFromTag(tag.0);
      var when :- ReadByte(tag.1);
      var timing :- TimingFromTag(when.0);
      var name :- ReadOptionalName(when.1);
      Ok((KeyEntry(ForeignKey(id, table, columns, referenced.0, parents.0, action, timing), name.0), name.1))
  }

  lemma ReadKeyTailWritten(e: KeyEntry, rest: ByteString)
    requires KeySizes(e) && |e.key.columns| <= 4096
    ensures ReadKeyTail(e.key.id, e.key.table, e.key.columns, WriteKeyTail(e) + rest)
            == if |e.key.referencedColumns| == |e.key.columns| then Ok((e, rest)) else Err(Corruption)
  {
    hide ReadId, WriteId, ReadCount, Count, ReadMany, WriteMany, ReadOptionalName, WriteOptionalName;
    var tags := [ActionTag(e.key.onDelete), TimingTag(e.key.timing)];
    var named := WriteOptionalName(e.name) + rest;
    var flagged := tags + named;
    var parents := WriteMany(WriteColumnId, e.key.referencedColumns) + flagged;
    var counted := Count(|e.key.referencedColumns|) + parents;
    assert WriteKeyTail(e) + rest == WriteId(e.key.referencedTable) + counted by {
      Regroup4(WriteId(e.key.referencedTable), Count(|e.key.referencedColumns|), WriteMany(WriteColumnId, e.key.referencedColumns),
               tags, WriteOptionalName(e.name), rest);
    }
    ReadIdWritten(e.key.referencedTable, counted);
    ReadCountWritten(|e.key.referencedColumns|, parents);
    ColumnIdsReadBack(e.key.referencedColumns, flagged);
    assert flagged[1..] == [TimingTag(e.key.timing)] + named;
    assert flagged[1..][1..] == named;
    ReadOptionalNameWritten(e.name, rest);
  }

  lemma Regroup4(a: ByteString, b: ByteString, c: ByteString, d: ByteString, e: ByteString, rest: ByteString)
    ensures (a + (b + (c + (d + e)))) + rest == a + (b + (c + (d + (e + rest))))
  {
    assert (d + e) + rest == d + (e + rest);
    assert (c + (d + e)) + rest == c + (d + (e + rest));
    assert (b + (c + (d + e))) + rest == b + (c + (d + (e + rest)));
  }

  lemma ReadKeyWritten(e: KeyEntry, rest: ByteString)
    requires KeySizes(e)
    ensures ReadKey(WriteKey(e) + rest) == if KeyReadable(e) then Ok((e, rest)) else Err(Corruption)
  {
    hide ReadId, WriteId, ReadCount, Count, ReadMany, WriteMany, ReadKeyTail, WriteKeyTail;
    var tail := WriteKeyTail(e) + rest;
    var columns := WriteMany(WriteColumnId, e.key.columns) + tail;
    var counted := Count(|e.key.columns|) + columns;
    var owned := WriteId(e.key.table) + counted;
    assert WriteKey(e) + rest == WriteId(e.key.id) + owned by {
      Regroup4(WriteId(e.key.id), WriteId(e.key.table), Count(|e.key.columns|), WriteMany(WriteColumnId, e.key.columns), WriteKeyTail(e), rest);
    }
    ReadIdWritten(e.key.id, owned);
    ReadIdWritten(e.key.table, counted);
    ReadCountWritten(|e.key.columns|, columns);
    ColumnIdsReadBack(e.key.columns, tail);
    if |e.key.columns| <= 4096 {
      ReadKeyTailWritten(e, rest);
    }
  }

  // ---- the catalog ---------------------------------------------------------

  function Least(ids: set<u64>): (m: u64)
    requires ids != {}
    ensures m in ids && forall x :: x in ids ==> m <= x
  {
    assert exists x :: x in ids && 0 <= x by {
      var x :| x in ids;
      assert x in ids && 0 <= x;
    }
    LeastFrom(ids, 0)
  }

  /** A set of ids in ascending order. */
  function Ascending(ids: set<u64>): (r: seq<u64>)
    ensures |r| == |ids|
    decreases |ids|
  {
    if ids == {} then [] else [Least(ids)] + Ascending(ids - {Least(ids)})
  }

  function Ids(s: seq<u64>): set<u64> {
    set x | x in s
  }

  lemma {:induction false} AscendingMembers(ids: set<u64>)
    ensures Ids(Ascending(ids)) == ids
    decreases |ids|
  {
    hide Least;
    if ids != {} {
      var least := Least(ids);
      AscendingMembers(ids - {least});
      IdsPrepend(least, Ascending(ids - {least}));
    }
  }

  lemma IdsPrepend(x: u64, s: seq<u64>)
    ensures Ids([x] + s) == {x} + Ids(s)
  {
  }

  predicate IsAscending(r: seq<u64>) {
    forall i, j :: 0 <= i < j < |r| ==> r[i] < r[j]
  }

  lemma {:induction false} AscendingIsSorted(ids: set<u64>)
    ensures IsAscending(Ascending(ids))
    decreases |ids|
  {
    hide Least, IsAscending, Ids;
    if ids == {} {
      SortedNothing();
    } else {
      var least := Least(ids);
      AscendingIsSorted(ids - {least});
      AscendingMembers(ids - {least});
      Prepended(least, Ascending(ids - {least}), ids - {least});
    }
  }

  lemma SortedNothing()
    ensures IsAscending([])
  {
  }

  lemma Prepended(least: u64, rest: seq<u64>, ids: set<u64>)
    requires IsAscending(rest) && Ids(rest) == ids && least !in ids && forall x :: x in ids ==> least <= x
    ensures IsAscending([least] + rest)
  {
    var all := [least] + rest;
    forall i, j | 0 <= i < j < |all| ensures all[i] < all[j] {
      assert all[j] == rest[j - 1] && rest[j - 1] in Ids(rest);
      if i > 0 {
        assert all[i] == rest[i - 1];
      }
    }
  }

  lemma AscendingIds(ids: set<u64>)
    ensures Distinct(Ascending(ids)) && Ids(Ascending(ids)) == ids
    ensures forall i :: 0 <= i < |ids| ==> Ascending(ids)[i] in ids
  {
    hide Ascending;
    AscendingIsSorted(ids);
    AscendingMembers(ids);
    forall i | 0 <= i < |ids| ensures Ascending(ids)[i] in ids {
      assert Ascending(ids)[i] in Ids(Ascending(ids));
    }
  }

  lemma PlaceOf(ids: set<u64>, x: u64) returns (i: nat)
    requires x in ids
    ensures i < |ids| && Ascending(ids)[i] == x
  {
    hide Ascending;
    AscendingMembers(ids);
    assert x in Ids(Ascending(ids));
    i :| 0 <= i < |ids| && Ascending(ids)[i] == x;
  }

  function TableEntries(c: Catalog): (es: seq<TableEntry>)
    ensures |es| == |c.tables|
  {
    AscendingIds(c.tables.Keys);
    var ids := Ascending(c.tables.Keys);
    seq(|ids|, i requires 0 <= i < |ids| =>
      TableEntry(c.tables[ids[i]], if ids[i] in c.primaryKeys then c.primaryKeys[ids[i]] else []))
  }

  function NameOf(names: map<u64, Name>, id: u64): Option<Name> {
    if id in names then Some(names[id]) else None
  }

  function IndexEntries(c: Catalog): (es: seq<IndexEntry>)
    ensures |es| == |c.indexes|
  {
    AscendingIds(c.indexes.Keys);
    var ids := Ascending(c.indexes.Keys);
    seq(|ids|, i requires 0 <= i < |ids| => IndexEntry(c.indexes[ids[i]], NameOf(c.indexNames, ids[i])))
  }

  function KeyEntries(c: Catalog): (es: seq<KeyEntry>)
    ensures |es| == |c.foreignKeys|
  {
    AscendingIds(c.foreignKeys.Keys);
    var ids := Ascending(c.foreignKeys.Keys);
    seq(|ids|, i requires 0 <= i < |ids| => KeyEntry(c.foreignKeys[ids[i]], NameOf(c.foreignKeyNames, ids[i])))
  }

  /** Every count and every length fits the four bytes it is written in. */
  predicate Encodable(c: Catalog) {
    && |c.tables| < U32_BOUND && |c.indexes| < U32_BOUND && |c.foreignKeys| < U32_BOUND
    && (forall e :: e in TableEntries(c) ==> TableSizes(e))
    && (forall e :: e in IndexEntries(c) ==> IndexSizes(e))
    && (forall e :: e in KeyEntries(c) ==> KeySizes(e))
  }

  function WriteTables(c: Catalog): ByteString {
    Count(|c.tables|) + WriteMany(WriteTable, TableEntries(c))
  }

  function WriteIndexes(c: Catalog): ByteString {
    Count(|c.indexes|) + WriteMany(WriteIndex, IndexEntries(c))
  }

  function WriteKeys(c: Catalog): ByteString {
    Count(|c.foreignKeys|) + WriteMany(WriteKey, KeyEntries(c))
  }

  function EncodeCatalog(c: Catalog): Result<ByteString> {
    Bounds();
    if !Encodable(c) then Err(ValueTooLarge)
    else Ok(CATALOG_HEADER + (ToLE(c.generation % U64_BOUND, 8) + (WriteTables(c) + (WriteIndexes(c) + WriteKeys(c)))))
  }

  // ---- accepting definitions one by one ------------------------------------

  function AcceptTable(c: Catalog, e: TableEntry): Result<Catalog> {
    if !ValidTable(e.table) then Err(InvalidState)
    else if e.key != [] && !ValidPrimaryKey(e.table, e.key) then Err(Corruption)
    else if e.table.id in c.tables then Err(Corruption)
    else Ok(c.(tables := c.tables[e.table.id := e.table],
               primaryKeys := if e.key != [] then c.primaryKeys[e.table.id := e.key] else c.primaryKeys))
  }

  function AcceptIndex(c: Catalog, e: IndexEntry): Result<Catalog> {
    if !ValidIndex(c, e.index) then Err(InvalidState)
    else if e.index.id in c.indexes then Err(Corruption)
    else if e.name.Some? && (e.name.value == [] || e.name.value in c.indexNames.Values) then Err(Corruption)
    else Ok(c.(indexes := c.indexes[e.index.id := e.index], indexNames := Named(c.indexNames, e.index.id, e.name)))
  }

  function AcceptKey(c: Catalog, e: KeyEntry): Result<Catalog> {
    if !ValidForeignKey(c, e.key) then Err(InvalidState)
    else if e.key.id in c.foreignKeys then Err(Corruption)
    else if e.name.Some? && (e.name.value == [] || e.name.value in c.indexNames.Values || e.name.value in c.foreignKeyNames.Values)
    then Err(Corruption)
    else Ok(c.(foreignKeys := c.foreignKeys[e.key.id := e.key], foreignKeyNames := Named(c.foreignKeyNames, e.key.id, e.name)))
  }

  /** Read a number of definitions, accepting each into the catalog read so far. */
  function DecodeAll<E>(read: Reader<E>, accept: (Catalog, E) -> Result<Catalog>, count: nat, b: ByteString, c: Catalog): Result<(Catalog, ByteString)>
    decreases count
  {
    if count == 0 then Ok((c, b))
    else
      var e :- read(b);
      var next :- accept(c, e.0);
      DecodeAll(read, accept, count - 1, e.1, next)
  }

  function AcceptAll<E>(accept: (Catalog, E) -> Result<Catalog>, c: Catalog, es: seq<E>): Result<Catalog>
    decreases |es|
  {
    if es == [] then Ok(c)
    else
      var next :- accept(c, es[0]);
      AcceptAll(accept, next, es[1..])
  }

  function DecodeCounted<E>(read: Reader<E>, accept: (Catalog, E) -> Result<Catalog>, b: ByteString, c: Catalog): Result<(Catalog, ByteString)> {
    var count :- ReadCount(b);
    DecodeAll(read, accept, count.0, count.1, c)
  }

  function DecodeCatalog(repair: ByteString -> Utf8, b: ByteString): Result<Catalog> {
    Bounds();
    if |b| < 6 || b[..6] != CATALOG_HEADER then Err(Corruption)
    else
      var generation :- ReadUint(b[6..], 8);
      var tables :- DecodeCounted(ReadTable, AcceptTable, generation.1, EMPTY.(generation := generation.0));
      var indexes :- DecodeCounted(ReadIndex(repair), AcceptIndex, tables.1, tables.0);
      var keys :- DecodeCounted(ReadKey, AcceptKey, indexes.1, indexes.0);
      if keys.1 == [] then Ok(keys.0) else Err(Corruption)
  }

  /** The decoding loop for one kind of definition. */
  method DecodeDefinitions<E>(read: Reader<E>, accept: (Catalog, E) -> Result<Catalog>, b: ByteString, start: Catalog)
      returns (r: Result<(Catalog, ByteString)>)
    ensures r == DecodeCounted(read, accept, b, start)
  {
    var count :- ReadCount(b);
    var catalog, rest, n := start, count.1, 0;
    while n < count.0
      invariant n <= count.0
      invariant DecodeAll(read, accept, count.0, count.1, start) == DecodeAll(read, accept, count.0 - n, rest, catalog)
    {
      var e :- read(rest);
      catalog :- accept(catalog, e.0);
      rest := e.1;
      n := n + 1;
    }
    r := Ok((catalog, rest));
  }

  // ---- the round trip ------------------------------------------------------

  lemma {:induction false} DecodeAllWritten<E(!new)>(read: Reader<E>, write: E -> ByteString, fits: E -> bool,
                                                     accept: (Catalog, E) -> Result<Catalog>, es: seq<E>, rest: ByteString, c: Catalog)
    requires forall e :: e in es ==> ReadsBack(read, write, fits, e)
    ensures (forall e :: e in es ==> fits(e)) ==>
              DecodeAll(read, accept, |es|, WriteMany(write, es) + rest, c) ==
              (match AcceptAll(accept, c, es) case Ok(d) => Ok((d, rest)) case Err(x) => Err(x))
    ensures !(forall e :: e in es ==> fits(e)) && AcceptAll(accept, c, es).Ok? ==>
              DecodeAll(read, accept, |es|, WriteMany(write, es) + rest, c) == Err(Corruption)
    decreases |es|
  {
    if es == [] {
      assert WriteMany(write, es) + rest == rest;
    } else {
      var tail := WriteMany(write, es[1..]) + rest;
      assert WriteMany(write, es) + rest == write(es[0]) + tail;
      assert ReadsBack(read, write, fits, es[0]);
      assert (forall e :: e in es ==> fits(e)) <==> fits(es[0]) && forall e :: e in es[1..] ==> fits(e);
      if fits(es[0]) && accept(c, es[0]).Ok? {
        DecodeAllWritten(read, write, fits, accept, es[1..], rest, accept(c, es[0]).value);
      }
    }
  }

  /** The part of a catalog that has been read when some of its ids have. */
  function Part(c: Catalog, tables: set<TableId>, indexes: set<IndexId>, keys: set<ConstraintId>): Catalog {
    Catalog(c.generation % U64_BOUND,
            map t | t in c.tables && t in tables :: c.tables[t],
            map t | t in c.primaryKeys && t in tables :: c.primaryKeys[t],
            map i | i in c.indexes && i in indexes :: c.indexes[i],
            map i | i in c.indexNames && i in indexes :: c.indexNames[i],
            map k | k in c.foreignKeys && k in keys :: c.foreignKeys[k],
            map k | k in c.foreignKeyNames && k in keys :: c.foreignKeyNames[k])
  }

  lemma TableFacts(c: Catalog, t: TableId)
    requires Valid(c) && t in c.tables
    ensures c.tables[t].id == t && ValidTable(c.tables[t])
    ensures t in c.primaryKeys ==> c.primaryKeys[t] != [] && ValidPrimaryKey(c.tables[t], c.primaryKeys[t])
  {
    hide ValidNames, ValidIndex, ValidForeignKey, ValidTable, ColumnAt;
  }

  lemma TableAccepted(c: Catalog, done: set<TableId>, t: TableId, e: TableEntry)
    requires Valid(c) && t in c.tables && t !in done
    requires e == TableEntry(c.tables[t], if t in c.primaryKeys then c.primaryKeys[t] else [])
    ensures AcceptTable(Part(c, done, {}, {}), e) == Ok(Part(c, done + {t}, {}, {}))
  {
    hide Valid, ValidTable, ValidPrimaryKey;
    TableFacts(c, t);
    var c0, c1 := Part(c, done, {}, {}), Part(c, done + {t}, {}, {});
    assert c1.tables == c0.tables[t := e.table];
    assert c1.primaryKeys == if e.key != [] then c0.primaryKeys[t := e.key] else c0.primaryKeys;
    assert c1.indexes == c0.indexes && c1.indexNames == c0.indexNames;
  }

  lemma {:induction false} TablesAccepted(c: Catalog, done: set<TableId>, ids: seq<TableId>, es: seq<TableEntry>)
    requires Valid(c) && Distinct(ids) && |es| == |ids|
    requires forall i :: 0 <= i < |ids| ==> ids[i] in c.tables && ids[i] !in done
    requires forall i :: 0 <= i < |ids| ==>
               es[i] == TableEntry(c.tables[ids[i]], if ids[i] in c.primaryKeys then c.primaryKeys[ids[i]] else [])
    ensures AcceptAll(AcceptTable, Part(c, done, {}, {}), es) == Ok(Part(c, done + Ids(ids), {}, {}))
    decreases |ids|
  {
    hide Valid, AcceptTable, Part;
    if ids == [] {
      assert done + Ids(ids) == done;
    } else {
      TableAccepted(c, done, ids[0], es[0]);
      TablesAccepted(c, done + {ids[0]}, ids[1..], es[1..]);
      assert done + {ids[0]} + Ids(ids[1..]) == done + Ids(ids);
    }
  }

  lemma IndexNameFree(c: Catalog, done: set<IndexId>, i: IndexId)
    requires ValidNames(c) && i in c.indexNames && i !in done
    ensures var p, name := Part(c, c.tables.Keys, done, {}), c.indexNames[i];
            name != [] && name !in p.indexNames.Values
  {
  }

  lemma IndexFacts(c: Catalog, i: IndexId)
    requires Valid(c) && i in c.indexes
    ensures c.indexes[i].id == i && ValidIndex(c, c.indexes[i]) && ValidNames(c)
  {
    hide ValidNames, ValidTables, ValidForeignKey, ValidIndex;
  }

  lemma IndexAccepted(c: Catalog, done: set<IndexId>, i: IndexId, e: IndexEntry)
    requires Valid(c) && i in c.indexes && i !in done && e == IndexEntry(c.indexes[i], NameOf(c.indexNames, i))
    ensures AcceptIndex(Part(c, c.tables.Keys, done, {}), e) == Ok(Part(c, c.tables.Keys, done + {i}, {}))
  {
    hide Valid, ValidIndex, ValidNames;
    var c0, c1 := Part(c, c.tables.Keys, done, {}), Part(c, c.tables.Keys, done + {i}, {});
    assert c0.tables == c.tables;
    IndexFacts(c, i);
    CatalogLaws.TableOfIndex(c, c.indexes[i]);
    CatalogLaws.IndexFrame(c, c0, c.indexes[i]);
    if i in c.indexNames {
      IndexNameFree(c, done, i);
    }
    assert c1.indexes == c0.indexes[i := e.index];
    assert c1.indexNames == Named(c0.indexNames, i, e.name);
  }

  lemma {:induction false} IndexesAccepted(c: Catalog, done: set<IndexId>, ids: seq<IndexId>, es: seq<IndexEntry>)
    requires Valid(c) && Distinct(ids) && |es| == |ids|
    requires forall i :: 0 <= i < |ids| ==> ids[i] in c.indexes && ids[i] !in done
    requires forall i :: 0 <= i < |ids| ==> es[i] == IndexEntry(c.indexes[ids[i]], NameOf(c.indexNames, ids[i]))
    ensures AcceptAll(AcceptIndex, Part(c, c.tables.Keys, done, {}), es) == Ok(Part(c, c.tables.Keys, done + Ids(ids), {}))
    decreases |ids|
  {
    hide Valid, AcceptIndex, Part;
    if ids == [] {
      assert done + Ids(ids) == done;
    } else {
      IndexAccepted(c, done, ids[0], es[0]);
      IndexesAccepted(c, done + {ids[0]}, ids[1..], es[1..]);
      assert done + {ids[0]} + Ids(ids[1..]) == done + Ids(ids);
    }
  }

  lemma KeyNameFree(c: Catalog, done: set<ConstraintId>, k: ConstraintId)
    requires ValidNames(c) && k in c.foreignKeyNames && k !in done
    ensures var p, name := Part(c, c.tables.Keys, c.indexes.Keys, done), c.foreignKeyNames[k];
            name != [] && name !in p.indexNames.Values && name !in p.foreignKeyNames.Values
  {
  }

  lemma KeyAccepted(c: Catalog, done: set<ConstraintId>, k: ConstraintId, e: KeyEntry)
    requires Valid(c) && k in c.foreignKeys && k !in done && e == KeyEntry(c.foreignKeys[k], NameOf(c.foreignKeyNames, k))
    ensures AcceptKey(Part(c, c.tables.Keys, c.indexes.Keys, done), e) == Ok(Part(c, c.tables.Keys, c.indexes.Keys, done + {k}))
  {
    hide ValidTables, ValidForeignKey, ValidIndex, ValidNames, Supporting;
    var c0, c1 := Part(c, c.tables.Keys, c.indexes.Keys, done), Part(c, c.tables.Keys, c.indexes.Keys, done + {k});
    assert c0.tables == c.tables && c0.indexes == c.indexes;
    CatalogLaws.TablesOfKey(c, c.foreignKeys[k]);
    CatalogLaws.SupportFrame(c, c0, c.foreignKeys[k]);
    CatalogLaws.ForeignKeyFrame(c, c0, c.foreignKeys[k]);
    if k in c.foreignKeyNames {
      KeyNameFree(c, done, k);
    }
    assert c1.foreignKeys == c0.foreignKeys[k := e.key];
    assert c1.foreignKeyNames == Named(c0.foreignKeyNames, k, e.name);
    assert c1.indexNames == c0.indexNames;
  }

  lemma {:induction false} KeysAccepted(c: Catalog, done: set<ConstraintId>, ids: seq<ConstraintId>, es: seq<KeyEntry>)
    requires Valid(c) && Distinct(ids) && |es| == |ids|
    requires forall i :: 0 <= i < |ids| ==> ids[i] in c.foreignKeys && ids[i] !in done
    requires forall i :: 0 <= i < |ids| ==> es[i] == KeyEntry(c.foreignKeys[ids[i]], NameOf(c.foreignKeyNames, ids[i]))
    ensures AcceptAll(AcceptKey, Part(c, c.tables.Keys, c.indexes.Keys, done), es)
            == Ok(Part(c, c.tables.Keys, c.indexes.Keys, done + Ids(ids)))
    decreases |ids|
  {
    hide Valid, AcceptKey, Part;
    if ids == [] {
      assert done + Ids(ids) == done;
    } else {
      KeyAccepted(c, done, ids[0], es[0]);
      KeysAccepted(c, done + {ids[0]}, ids[1..], es[1..]);
      assert done + {ids[0]} + Ids(ids[1..]) == done + Ids(ids);
    }
  }

  // ---- what the decoder refuses --------------------------------------------

  /** The bounds and value tags the decoder insists on. */
  predicate TablesReadable(c: Catalog) {
    forall t :: t in c.primaryKeys ==> |c.primaryKeys[t]| <= 256
  }

  predicate IndexesReadable(c: Catalog) {
    forall i :: i in c.indexes ==> |c.indexes[i].parts| <= 4096 && FilterReadable(c.indexes[i].filter)
  }

  predicate KeysReadable(c: Catalog) {
    forall k :: k in c.foreignKeys ==> |c.foreignKeys[k].columns| <= 4096
  }

  /** A counted list of definitions is read and accepted one by one, unless one of them
      is beyond what the decoder reads. */
  lemma CountedWritten<E(!new)>(read: Reader<E>, write: E -> ByteString, fits: E -> bool,
                                accept: (Catalog, E) -> Result<Catalog>, es: seq<E>, rest: ByteString, c: Catalog, d: Catalog)
    requires |es| < U32_BOUND && forall e :: e in es ==> ReadsBack(read, write, fits, e)
    requires AcceptAll(accept, c, es) == Ok(d)
    ensures var r := DecodeCounted(read, accept, (Count(|es|) + WriteMany(write, es)) + rest, c);
            if forall e :: e in es ==> fits(e) then r == Ok((d, rest)) else r == Err(Corruption)
  {
    hide ReadCount, Count, ReadMany, WriteMany, ReadsBack, AcceptAll, DecodeAll;
    var written := WriteMany(write, es) + rest;
    assert (Count(|es|) + WriteMany(write, es)) + rest == Count(|es|) + written;
    ReadCountWritten(|es|, written);
    DecodeAllWritten(read, write, fits, accept, es, rest, c);
  }

  lemma TablesRead(c: Catalog, rest: ByteString)
    requires Valid(c) && Encodable(c)
    ensures var r := DecodeCounted(ReadTable, AcceptTable, WriteTables(c) + rest, EMPTY.(generation := c.generation % U64_BOUND));
            if TablesReadable(c) then r == Ok((Part(c, c.tables.Keys, {}, {}), rest)) else r == Err(Corruption)
  {
    hide Valid, ReadTable, WriteTable, AcceptTable, AcceptAll, DecodeCounted, WriteMany, TablesReadable, TableReadable, TableSizes, Ascending, Part;
    var ids, es := Ascending(c.tables.Keys), TableEntries(c);
    AscendingIds(c.tables.Keys);
    forall e | e in es ensures ReadsBack(ReadTable, WriteTable, TableReadable, e) {
      TableReadsBack(e);
    }
    TablesAccepted(c, {}, ids, es);
    NothingRead(c);
    assert {} + Ids(ids) == c.tables.Keys;
    TablesFit(c);
    CountedWritten(ReadTable, WriteTable, TableReadable, AcceptTable, es, rest, Part(c, {}, {}, {}), Part(c, c.tables.Keys, {}, {}));
  }

  lemma NothingRead(c: Catalog)
    ensures Part(c, {}, {}, {}) == EMPTY.(generation := c.generation % U64_BOUND)
  {
  }

  lemma TableReadsBack(e: TableEntry)
    requires TableSizes(e)
    ensures ReadsBack(ReadTable, WriteTable, TableReadable, e)
  {
    hide ReadTable, WriteTable;
    forall tail ensures ReadTable(WriteTable(e) + tail) == if TableReadable(e) then Ok((e, tail)) else Err(Corruption) {
      ReadTableWritten(e, tail);
    }
  }

  lemma TablesFit(c: Catalog)
    requires Valid(c)
    ensures (forall e :: e in TableEntries(c) ==> TableReadable(e)) <==> TablesReadable(c)
  {
    hide Valid, Ascending;
    var es := TableEntries(c);
    AscendingIds(c.tables.Keys);
    if forall e :: e in es ==> TableReadable(e) {
      forall t | t in c.primaryKeys ensures |c.primaryKeys[t]| <= 256 {
        KeyedTableExists(c, t);
        var i := PlaceOf(c.tables.Keys, t);
        assert es[i] in es;
      }
    }
  }

  lemma KeyedTableExists(c: Catalog, t: TableId)
    requires Valid(c) && t in c.primaryKeys
    ensures t in c.tables
  {
  }

  lemma IndexesRead(repair: ByteString -> Utf8, c: Catalog, rest: ByteString)
    requires Valid(c) && Encodable(c)
    ensures var r := DecodeCounted(ReadIndex(repair), AcceptIndex, WriteIndexes(c) + rest, Part(c, c.tables.Keys, {}, {}));
            if IndexesReadable(c) then r == Ok((Part(c, c.tables.Keys, c.indexes.Keys, {}), rest)) else r == Err(Corruption)
  {
    hide Valid, ReadIndex, WriteIndex, AcceptIndex, AcceptAll, DecodeCounted, WriteMany, IndexesReadable, IndexReadable, IndexSizes, Part, Ascending;
    var ids, es := Ascending(c.indexes.Keys), IndexEntries(c);
    AscendingIds(c.indexes.Keys);
    forall e | e in es ensures ReadsBack(ReadIndex(repair), WriteIndex, IndexReadable, e) {
      IndexReadsBack(repair, e);
    }
    IndexesAccepted(c, {}, ids, es);
    assert {} + Ids(ids) == c.indexes.Keys;
    IndexesFit(c);
    CountedWritten(ReadIndex(repair), WriteIndex, IndexReadable, AcceptIndex, es, rest,
                   Part(c, c.tables.Keys, {}, {}), Part(c, c.tables.Keys, c.indexes.Keys, {}));
  }

  lemma IndexReadsBack(repair: ByteString -> Utf8, e: IndexEntry)
    requires IndexSizes(e)
    ensures ReadsBack(ReadIndex(repair), WriteIndex, IndexReadable, e)
  {
    hide ReadIndex, WriteIndex;
    forall tail ensures ReadIndex(repair)(WriteIndex(e) + tail) == if IndexReadable(e) then Ok((e, tail)) else Err(Corruption) {
      ReadIndexWritten(repair, e, tail);
    }
  }

  lemma IndexesFit(c: Catalog)
    requires Valid(c)
    ensures (forall e :: e in IndexEntries(c) ==> IndexReadable(e)) <==> IndexesReadable(c)
  {
    hide Valid, FilterReadable, Ascending;
    var ids, es := Ascending(c.indexes.Keys), IndexEntries(c);
    AscendingIds(c.indexes.Keys);
    IndexesHaveParts(c);
    if forall e :: e in es ==> IndexReadable(e) {
      forall i | i in c.indexes ensures |c.indexes[i].parts| <= 4096 && FilterReadable(c.indexes[i].filter) {
        var n := PlaceOf(c.indexes.Keys, i);
        assert es[n] in es;
      }
    }
  }

  lemma IndexesHaveParts(c: Catalog)
    requires Valid(c)
    ensures forall i :: i in c.indexes ==> c.indexes[i].parts != []
  {
    hide ValidNames, ValidTables, ValidForeignKey, ColumnAt, KeyColumns;
  }

  lemma KeysRead(c: Catalog, rest: ByteString)
    requires Valid(c) && Encodable(c)
    ensures var r := DecodeCounted(ReadKey, AcceptKey, WriteKeys(c) + rest, Part(c, c.tables.Keys, c.indexes.Keys, {}));
            if KeysReadable(c) then r == Ok((Part(c, c.tables.Keys, c.indexes.Keys, c.foreignKeys.Keys), rest)) else r == Err(Corruption)
  {
    hide Valid, ReadKey, WriteKey, AcceptKey, AcceptAll, DecodeCounted, WriteMany, KeysReadable, KeyReadable, KeySizes, Part, Ascending;
    var ids, es := Ascending(c.foreignKeys.Keys), KeyEntries(c);
    AscendingIds(c.foreignKeys.Keys);
    forall e | e in es ensures ReadsBack(ReadKey, WriteKey, KeyReadable, e) {
      KeyReadsBack(e);
    }
    KeysAccepted(c, {}, ids, es);
    assert {} + Ids(ids) == c.foreignKeys.Keys;
    KeysFit(c);
    CountedWritten(ReadKey, WriteKey, KeyReadable, AcceptKey, es, rest,
                   Part(c, c.tables.Keys, c.indexes.Keys, {}), Part(c, c.tables.Keys, c.indexes.Keys, c.foreignKeys.Keys));
  }

  lemma KeyReadsBack(e: KeyEntry)
    requires KeySizes(e)
    ensures ReadsBack(ReadKey, WriteKey, KeyReadable, e)
  {
    hide ReadKey, WriteKey;
    forall tail ensures ReadKey(WriteKey(e) + tail) == if KeyReadable(e) then Ok((e, tail)) else Err(Corruption) {
      ReadKeyWritten(e, tail);
    }
  }

  lemma KeysFit(c: Catalog)
    requires Valid(c)
    ensures (forall e :: e in KeyEntries(c) ==> KeyReadable(e)) <==> KeysReadable(c)
  {
    hide Valid, Ascending;
    var es := KeyEntries(c);
    AscendingIds(c.foreignKeys.Keys);
    KeyWidths(c);
    if forall e :: e in es ==> KeyReadable(e) {
      forall k | k in c.foreignKeys ensures |c.foreignKeys[k].columns| <= 4096 {
        var n := PlaceOf(c.foreignKeys.Keys, k);
        assert es[n] in es;
      }
    }
  }

  lemma KeyWidths(c: Catalog)
    requires Valid(c)
    ensures forall k :: k in c.foreignKeys ==> 0 < |c.foreignKeys[k].columns| == |c.foreignKeys[k].referencedColumns|
  {
    hide ValidNames, ValidTables, ValidIndex, ColumnAt, Supporting;
  }

  lemma WholeCatalog(c: Catalog)
    requires Valid(c)
    ensures Part(c, c.tables.Keys, c.indexes.Keys, c.foreignKeys.Keys) == c.(generation := c.generation % U64_BOUND)
  {
    hide ValidTable, ValidIndex, ValidForeignKey, ValidPrimaryKey, NamesDistinct;
    var p := Part(c, c.tables.Keys, c.indexes.Keys, c.foreignKeys.Keys);
    assert p.tables == c.tables && p.primaryKeys == c.primaryKeys && p.indexes == c.indexes && p.indexNames == c.indexNames;
    assert p.foreignKeys == c.foreignKeys && p.foreignKeyNames == c.foreignKeyNames;
  }

  /** What the decoder makes of an encoded catalog: the generation is kept modulo its width,
      and a definition beyond the decoder's bounds is refused. */
  lemma CatalogDecodes(repair: ByteString -> Utf8, c: Catalog)
    requires Valid(c) && EncodeCatalog(c).Ok?
    ensures DecodeCatalog(repair, EncodeCatalog(c).value)
            == if TablesReadable(c) && IndexesReadable(c) && KeysReadable(c) then Ok(c.(generation := c.generation % U64_BOUND)) else Err(Corruption)
  {
    hide Valid, Encodable, WriteTables, WriteIndexes, WriteKeys, DecodeCounted, TablesReadable, IndexesReadable, KeysReadable, Part, ReadUint,
         ToLE;
    Bounds();
    assert Encodable(c);
    var keys := WriteKeys(c) + [];
    var indexes := WriteIndexes(c) + keys;
    var tables := WriteTables(c) + indexes;
    var generation := c.generation % U64_BOUND;
    EncodedParts(c, tables);
    ReadUintWritten(generation, 8, tables);
    TablesRead(c, indexes);
    IndexesRead(repair, c, keys);
    KeysRead(c, []);
    WholeCatalog(c);
  }

  lemma EncodedParts(c: Catalog, tables: ByteString)
    requires EncodeCatalog(c).Ok? && Encodable(c) && tables == WriteTables(c) + (WriteIndexes(c) + (WriteKeys(c) + []))
    ensures var b := EncodeCatalog(c).value;
            c.generation % U64_BOUND < Bound(8) && |b| >= 6 && b[..6] == CATALOG_HEADER && b[6..] == ToLE(c.generation % U64_BOUND, 8) + tables
  {
    hide WriteTables, WriteIndexes, WriteKeys, ToLE, Encodable;
    Bounds();
    var b := EncodeCatalog(c).value;
    assert WriteKeys(c) + [] == WriteKeys(c);
    assert b[6..] == ToLE(c.generation % U64_BOUND, 8) + tables;
  }

  /** A valid catalog whose encoding exists is decoded to itself exactly when it respects the
      decoder's bounds: primary keys of at most 256 columns, indexes of at most 4096 parts,
      predicates of 1 to 256 terms with values of the known tags, foreign keys of at most
      4096 columns. Every validation the decoder makes passes because the catalog is valid. */
  lemma CatalogRoundTrip(repair: ByteString -> Utf8, c: Catalog)
    requires Valid(c) && EncodeCatalog(c).Ok?
    ensures DecodeCatalog(repair, EncodeCatalog(c).value) == Ok(c)
            <==> c.generation < U64_BOUND && TablesReadable(c) && IndexesReadable(c) && KeysReadable(c)
    ensures !(TablesReadable(c) && IndexesReadable(c) && KeysReadable(c)) ==>
              DecodeCatalog(repair, EncodeCatalog(c).value) == Err(Corruption)
  {
    hide Valid, Encodable, DecodeCatalog, TablesReadable, IndexesReadable, KeysReadable;
    CatalogDecodes(repair, c);
    assert c.(generation := c.generation % U64_BOUND) == c <==> c.generation % U64_BOUND == c.generation;
  }

  /** An empty predicate list is accepted by the catalog but not by the decoder. */
  lemma EmptyPredicateIsLost(repair: ByteString -> Utf8)
    ensures exists ms ::
              var c := CatalogLaws.Run(EMPTY, ms);
              EncodeCatalog(c).Ok? && DecodeCatalog(repair, EncodeCatalog(c).value) == Err(Corruption)
  {
    hide Encodable, DecodeCatalog, IndexesReadable, Valid, CatalogLaws.Run, EncodeCatalog;
    var ms, c := ReachedEmptyPredicate();
    CatalogRoundTrip(repair, c);
  }

  lemma ReachedEmptyPredicate() returns (ms: seq<Mutation>, c: Catalog)
    ensures c == CatalogLaws.Run(EMPTY, ms) && Valid(c) && EncodeCatalog(c).Ok? && !IndexesReadable(c)
  {
    hide Encodable, ValidForeignKey;
    var table := Table(1, [], [Column(1, [], BoolType, true)]);
    var index := Index(1, 1, [Plain(1)], false, Some([]));
    ms := [CreateTable(table, None), AddIndex(index, None)];
    var c1 := WithTable(EMPTY, table);
    assert Mutate(EMPTY, ms[0]) == Ok(c1);
    CatalogLaws.MutationKeepsValid(EMPTY, ms[0]);
    assert KeyColumns(index.parts) == [1] by { assert index.parts[1..] == []; }
    assert ColumnAt(table, 1).Some?;
    assert ValidIndex(c1, index);
    c := Mutate(c1, ms[1]).value;
    CatalogLaws.MutationKeepsValid(c1, ms[1]);
    assert c.indexes[1].filter == Some([]);
    SmallEncodes(c, table, index);
    RunTwo(ms, c1, c);
  }

  lemma RunTwo(ms: seq<Mutation>, c1: Catalog, c: Catalog)
    requires |ms| == 2 && Mutate(EMPTY, ms[0]) == Ok(c1) && Mutate(c1, ms[1]) == Ok(c)
    ensures CatalogLaws.Run(EMPTY, ms) == c
  {
    hide Mutate;
    assert ms[1..][1..] == [];
    assert CatalogLaws.Run(c1, ms[1..]) == CatalogLaws.Run(c, ms[1..][1..]);
  }

  lemma SmallEncodes(c: Catalog, table: Table, index: Index)
    requires c.tables == map[1 := table] && table == Table(1, [], [Column(1, [], BoolType, true)])
    requires c.indexes == map[1 := index] && index == Index(1, 1, [Plain(1)], false, Some([]))
    requires c.primaryKeys == map[] && c.indexNames == map[] && c.foreignKeys == map[]
    ensures Encodable(c)
  {
    assert c.tables.Keys == {1} && c.indexes.Keys == {1};
    AscendingIds(c.tables.Keys);
    AscendingIds(c.indexes.Keys);
    forall e | e in TableEntries(c) ensures e == TableEntry(table, []) {
      assert forall x :: x in Ascending(c.tables.Keys) ==> x == 1;
    }
    forall e | e in IndexEntries(c) ensures e == IndexEntry(index, None) {
      assert forall x :: x in Ascending(c.indexes.Keys) ==> x == 1;
    }
    assert |c.foreignKeys| == 0;
  }
}
