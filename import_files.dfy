/**
 * The validation and record building of `importAndSaveFiles`
 * (js/reconciler.js:61-73, 92-94): the early returns on an empty name or a
 * missing column, and the rows to insert, each tagged `Pendiente` and with
 * `__originalIndex` set to its position among its side's kept rows.
 */
module ImportFiles {
  import opened Wrappers
  import opened AppState
  import Strings

  /** A spreadsheet cell as sheet_to_json gives it. */
  datatype Cell = Text(text: string) | Number(value: real)

  /** One element of the parsed sheet; only objects survive `r && typeof r === 'object'`. */
  datatype SheetRow = ObjectRow(cells: map<string, Cell>) | OtherRow

  /** The four selected column names. */
  datatype ColumnMapping = ColumnMapping(cuitArca: string, montoArca: string, cuitCont: string, montoCont: string)

  /** The row inserted into `conciliaciones`; `columnConfig` is `configuracion_columnas`, stored empty. */
  datatype Conciliation = Conciliation(
    nombre: string, status: string, estadoProceso: ProcessState, mapping: ColumnMapping,
    columnConfig: map<string, string>)

  /** A row inserted into `registros`. */
  datatype StoredRecord = StoredRecord(
    conciliacionId: int,
    fuente: SourceType,
    datosOriginales: map<string, Cell>,
    estado: Status)

  datatype ImportError = MissingName | MissingColumns

  datatype ImportBatch = ImportBatch(conciliation: Conciliation, records: seq<StoredRecord>)

  const OriginalIndexKey: string := "__originalIndex"

  predicate MappingComplete(m: ColumnMapping)
  {
    m.cuitArca != "" && m.montoArca != "" && m.cuitCont != "" && m.montoCont != ""
  }

  /** `.filter(r => r && typeof r === 'object')`, keeping each row's cells. */
  function KeptRows(rows: seq<SheetRow>): (r: seq<map<string, Cell>>)
    ensures |r| <= |rows|
  {
    if rows == [] then []
    else (if rows[0].ObjectRow? then [rows[0].cells] else []) + KeptRows(rows[1..])
  }

  /** `.map((rec, i) => ({ conciliacion_id, fuente, datos_originales: {...rec, __originalIndex: i}, estado: PENDING }))` */
  function Tagged(kept: seq<map<string, Cell>>, conciliacionId: int, fuente: SourceType): (r: seq<StoredRecord>)
    ensures |r| == |kept|
    ensures forall k :: 0 <= k < |r| ==> r[k].estado == Pending && OriginalIndexKey in r[k].datosOriginales
  {
    seq(|kept|, i requires 0 <= i < |kept| =>
      StoredRecord(conciliacionId, fuente, kept[i][OriginalIndexKey := Number(i as real)], Pending))
  }

  /**
   * importAndSaveFiles up to the insert of the records. `conciliacionId` is
   * the id the store gives the new `conciliaciones` row.
   */
  function ImportAndSave(
    nameInput: string, mapping: ColumnMapping, conciliacionId: int,
    dataArca: seq<SheetRow>, dataContabilidad: seq<SheetRow>): (r: Result<ImportBatch, ImportError>)
    ensures r.Success? ==> r.value.conciliation.nombre != "" && MappingComplete(mapping)
    ensures r.Success? ==> |r.value.records| <= |dataArca| + |dataContabilidad|
  {
    var name := Strings.Trim(nameInput);
    if name == "" then Failure(MissingName)
    else if !MappingComplete(mapping) then Failure(MissingColumns)
    else
      var conciliation := Conciliation(name, "Borrador", Imported, mapping, map[]);
      var arcaRecords := Tagged(KeptRows(dataArca), conciliacionId, Arca);
      var contRecords := Tagged(KeptRows(dataContabilidad), conciliacionId, Contabilidad);
      Success(ImportBatch(conciliation, arcaRecords + contRecords))
  }

  lemma {:induction false} KeptRowsAppend(a: seq<SheetRow>, b: seq<SheetRow>)
    ensures KeptRows(a + b) == KeptRows(a) + KeptRows(b)
  {
    if a == [] {
      assert a + b == b;
    } else {
      assert (a + b)[0] == a[0];
      assert (a + b)[1..] == a[1..] + b;
      KeptRowsAppend(a[1..], b);
    }
  }

  /**
   * The object row at position i of the sheet is kept at position
   * |KeptRows(rows[..i])|, the number of object rows before it.
   */
  lemma KeptRowPosition(rows: seq<SheetRow>, i: nat)
    requires i < |rows| && rows[i].ObjectRow?
    ensures |KeptRows(rows[..i])| < |KeptRows(rows)|
    ensures KeptRows(rows)[|KeptRows(rows[..i])|] == rows[i].cells
  {
    assert rows == rows[..i] + ([rows[i]] + rows[i + 1..]);
    KeptRowsAppend(rows[..i], [rows[i]] + rows[i + 1..]);
    assert KeptRows([rows[i]] + rows[i + 1..]) == [rows[i].cells] + KeptRows(rows[i + 1..]) by {
      assert ([rows[i]] + rows[i + 1..])[1..] == rows[i + 1..];
    }
  }

  /** The kept rows are exactly the object rows. */
  lemma {:induction false} KeptRowsAreObjectRows(rows: seq<SheetRow>)
    ensures forall c :: c in KeptRows(rows) <==> ObjectRow(c) in rows
  {
    if rows != [] {
      KeptRowsAreObjectRows(rows[1..]);
      assert rows == [rows[0]] + rows[1..];
    }
  }

  /**
   * The import guard: an all-white-space name aborts with MissingName, a
   * named import with any empty column name aborts with MissingColumns, and
   * only a named import with all four columns builds anything.
   */
  lemma ImportGuard(
    nameInput: string, mapping: ColumnMapping, conciliacionId: int,
    dataArca: seq<SheetRow>, dataContabilidad: seq<SheetRow>)
    ensures var r := ImportAndSave(nameInput, mapping, conciliacionId, dataArca, dataContabilidad);
      && (r == Failure(MissingName) <==> Strings.AllWhitespace(nameInput))
      && (r == Failure(MissingColumns) <==> !Strings.AllWhitespace(nameInput) && !MappingComplete(mapping))
      && (r.Success? <==> !Strings.AllWhitespace(nameInput) && MappingComplete(mapping))
  {
    Strings.TrimEmptyIffAllWhitespace(nameInput);
  }

  /**
   * A successful import stores the trimmed name as a `Borrador` with state
   * `Archivos Importados`, then one record per object row: the ARCA rows
   * first, then the contabilidad rows; every record is `Pendiente`, and the
   * object row at sheet position i becomes the record whose
   * `__originalIndex` is the number of object rows before it on its side,
   * its other cells unchanged.
   */
  lemma ImportBuildsRecords(
    nameInput: string, mapping: ColumnMapping, conciliacionId: int,
    dataArca: seq<SheetRow>, dataContabilidad: seq<SheetRow>)
    requires ImportAndSave(nameInput, mapping, conciliacionId, dataArca, dataContabilidad).Success?
    ensures var b := ImportAndSave(nameInput, mapping, conciliacionId, dataArca, dataContabilidad).value;
      var nArca := |KeptRows(dataArca)|;
      && b.conciliation == Conciliation(Strings.Trim(nameInput), "Borrador", Imported, mapping, map[])
      && |b.records| == nArca + |KeptRows(dataContabilidad)|
      && (forall k :: 0 <= k < |b.records| ==>
            b.records[k].estado == Pending && b.records[k].conciliacionId == conciliacionId
            && b.records[k].fuente == (if k < nArca then Arca else Contabilidad))
      && (forall i :: 0 <= i < |dataArca| && dataArca[i].ObjectRow? ==>
            var k := |KeptRows(dataArca[..i])|;
            k < nArca
            && b.records[k].datosOriginales == dataArca[i].cells[OriginalIndexKey := Number(k as real)])
      && (forall i :: 0 <= i < |dataContabilidad| && dataContabilidad[i].ObjectRow? ==>
            var k := |KeptRows(dataContabilidad[..i])|;
            nArca + k < |b.records|
            && b.records[nArca + k].datosOriginales
               == dataContabilidad[i].cells[OriginalIndexKey := Number(k as real)])
  {
    forall i | 0 <= i < |dataArca| && dataArca[i].ObjectRow?
      ensures |KeptRows(dataArca[..i])| < |KeptRows(dataArca)|
      ensures KeptRows(dataArca)[|KeptRows(dataArca[..i])|] == dataArca[i].cells
    {
      KeptRowPosition(dataArca, i);
    }
    forall i | 0 <= i < |dataContabilidad| && dataContabilidad[i].ObjectRow?
      ensures |KeptRows(dataContabilidad[..i])| < |KeptRows(dataContabilidad)|
      ensures KeptRows(dataContabilidad)[|KeptRows(dataContabilidad[..i])|] == dataContabilidad[i].cells
    {
      KeptRowPosition(dataContabilidad, i);
    }
  }
}
