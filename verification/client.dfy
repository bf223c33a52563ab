/** The page state of the client (the globals of `script.js` that the core updates) and the
    handlers that change it: file selection, schema loading, verification, the default
    mapping, row selection, pagination, upload preparation and the job-card order. */
module Client {
  import opened Wrappers
  import opened Seqs
  import opened Text
  import opened JsonValue
  import opened Loader
  import opened Mapping
  import opened Payload
  import Jobs

  /** Rows shown per preview page. */
  const PageSize: nat := 10

  /** The largest offset the pager allows: `Math.max(len - 1, 0)`. */
  function MaxOffset(n: nat): nat
  {
    if n == 0 then 0 else n - 1
  }

  /** `Math.min(offset + 10, Math.max(len - 1, 0))`. */
  function NextOffset(offset: nat, n: nat): (r: nat)
    ensures r <= MaxOffset(n)
    ensures offset <= MaxOffset(n) ==> offset <= r
    ensures offset + PageSize <= MaxOffset(n) ==> r == offset + PageSize
    ensures offset + PageSize >= MaxOffset(n) ==> r == MaxOffset(n)
  {
    if offset + PageSize < MaxOffset(n) then offset + PageSize else MaxOffset(n)
  }

  /** `Math.max(offset - 10, 0)`. */
  function PrevOffset(offset: nat): (r: nat)
    ensures r <= offset
    ensures offset >= PageSize ==> r == offset - PageSize
    ensures offset < PageSize ==> r == 0
  {
    if offset >= PageSize then offset - PageSize else 0
  }

  /** Stepping back from an offset reached by a full step forward returns to it. */
  lemma PrevUndoesFullNext(offset: nat, n: nat)
    requires offset + PageSize <= MaxOffset(n)
    ensures PrevOffset(NextOffset(offset, n)) == offset
  {
  }

  /** The indices `lo, lo+1, …, hi-1`. */
  function Interval(lo: nat, hi: nat): (r: set<nat>)
    ensures forall i :: i in r <==> lo <= i < hi
    decreases hi
  {
    if hi <= lo then {} else Interval(lo, hi - 1) + {hi - 1}
  }

  /** The indices of the rows on the current page, `offset` up to
      `Math.min(offset + 10, len)`. */
  function PageIndices(offset: nat, n: nat): (r: set<nat>)
    ensures forall i :: i in r <==> offset <= i < n && i < offset + PageSize
  {
    Interval(offset, if offset + PageSize < n then offset + PageSize else n)
  }

  /** `selectedRows.has(i) ? delete : add`. */
  function Toggle(s: set<nat>, i: nat): (r: set<nat>)
    ensures i in r <==> i !in s
    ensures forall j :: j != i ==> (j in r <==> j in s)
  {
    if i in s then s - {i} else s + {i}
  }

  lemma ToggleTwice(s: set<nat>, i: nat)
    ensures Toggle(Toggle(s, i), i) == s
  {
  }

  /** The selection after `toggleSelectAll`: the page is cleared when all of it was
      selected, and added otherwise. */
  function TogglePage(s: set<nat>, page: set<nat>): (r: set<nat>)
    ensures page <= s ==> r !! page
    ensures !(page <= s) ==> page <= r
    ensures forall j :: j !in page ==> (j in r <==> j in s)
  {
    if page <= s then s - page else s + page
  }

  /** `jobCardOrder = [jobId, ...jobCardOrder.filter(id => id !== jobId)]`: the filter is
      the same removal the job table uses, here of the one id. */
  function MoveToFront(order: seq<string>, id: string): (r: seq<string>)
    ensures |r| >= 1 && r[0] == id
    ensures id !in r[1..]
    ensures forall x :: x in r <==> x == id || x in order
    ensures r[1..] == Jobs.Without(order, {id})
  {
    [id] + Jobs.Without(order, {id})
  }

  /** Bringing the same card to the front twice changes nothing the second time. */
  lemma MoveToFrontIdempotent(order: seq<string>, id: string)
    ensures MoveToFront(MoveToFront(order, id), id) == MoveToFront(order, id)
  {
    var rest := Jobs.Without(order, {id});
    var once := MoveToFront(order, id);
    assert once == [id] + rest;
    assert Jobs.Without(once, {id}) == rest by {
      Jobs.WithoutAppend([id], rest, {id});
      assert Jobs.Without([id], {id}) == [];
      Jobs.WithoutTwice(order, {id}, {id});
      assert {id} + {id} == {id};
    }
  }

  /** The card order never lists an id twice. */
  lemma MoveToFrontDistinct(order: seq<string>, id: string)
    requires Distinct(order)
    ensures Distinct(MoveToFront(order, id))
  {
    Jobs.WithoutDistinct(order, {id});
  }

  /** The load step of `verifyFile` for the file's kind. */
  function LoadFile(f: FileData, parse: string -> Option<Json>): (r: Result<Loaded, LoadError>)
    ensures r.Err? && r.error == Unsupported <==> KindOf(f.name) == OtherKind
    ensures KindOf(f.name) == CsvKind ==> r == LoadCsv(f.text)
    ensures KindOf(f.name) == JsonKind ==> r == LoadJson(parse(f.text))
  {
    match KindOf(f.name)
    case CsvKind => LoadCsv(f.text)
    case JsonKind => LoadJson(parse(f.text))
    case OtherKind => Err(Unsupported)
  }

  /** The page state kept in the globals of `script.js`. */
  class Session {
    var file: Option<FileData>                // selectedFile
    var schema: Option<Schema>                // tableSchema
    var header: seq<string>                   // csvHeader
    var rows: seq<seq<Json>>                  // csvRows
    var jsonObjects: Option<seq<Json>>        // jsonObjects
    var offset: nat                           // previewOffset
    var selected: set<nat>                    // selectedRows
    var mapping: ColumnMapping                // columnMapping
    var cardOrder: seq<string>                // jobCardOrder

    /** What the page keeps true between events: the pager stays on a row that exists, once
        a file is verified the selection holds only row indices, and no card is listed twice.
        The selection clause is why `Payload.ExportIndices` dropping indices past the last
        row never loses a selected row (`Payload.ExportIndicesProperties`). */
    ghost predicate Valid()
      reads this
    {
      && offset <= MaxOffset(|rows|)
      && (header != [] ==> forall i :: i in selected ==> i < |rows|)
      && Distinct(cardOrder)
    }

    constructor ()
      ensures Valid()
      ensures file == None && schema == None && header == [] && rows == [] && jsonObjects == None
      ensures offset == 0 && selected == {} && mapping == map[] && cardOrder == []
    {
      file := None;
      schema := None;
      header := [];
      rows := [];
      jsonObjects := None;
      offset := 0;
      selected := {};
      mapping := map[];
      cardOrder := [];
    }

    /** `handleFile`: only names ending in `.csv` or `.json` are taken; the preview and the
        mapping are reset, the selection is left as it was. */
    method SelectFile(f: FileData)
      requires Valid()
      modifies this
      ensures Valid()
      ensures !EndsWith(f.name, ".csv") && !EndsWith(f.name, ".json") ==>
        file == old(file) && header == old(header) && rows == old(rows) && jsonObjects == old(jsonObjects)
        && offset == old(offset) && mapping == old(mapping)
      ensures EndsWith(f.name, ".csv") || EndsWith(f.name, ".json") ==>
        file == Some(f) && header == [] && rows == [] && jsonObjects == None && offset == 0 && mapping == map[]
      ensures schema == old(schema) && selected == old(selected) && cardOrder == old(cardOrder)
    {
      if !EndsWith(f.name, ".csv") && !EndsWith(f.name, ".json") {
        return;
      }
      file := Some(f);
      header := [];
      rows := [];
      jsonObjects := None;
      offset := 0;
      mapping := map[];
    }

    /** `fetchTableSchema` once the response is in: a schema resets the file, the preview and
        the mapping; an error clears the schema. */
    method LoadSchema(response: Option<Schema>)
      requires Valid()
      modifies this
      ensures Valid()
      ensures schema == response
      ensures response.Some? ==> file == None && header == [] && rows == [] && offset == 0 && mapping == map[]
      ensures response.None? ==> (file == old(file) && header == old(header) && rows == old(rows)
        && offset == old(offset) && mapping == old(mapping))
      ensures jsonObjects == old(jsonObjects) && selected == old(selected) && cardOrder == old(cardOrder)
    {
      schema := response;
      if response.Some? {
        file := None;
        header := [];
        rows := [];
        offset := 0;
        mapping := map[];
      }
    }

    /** The default-mapping loop of `buildMappingUI`, which returns early when the schema has
        no attributes or the preview has no header. */
    method SeedMapping()
      requires Valid()
      modifies this
      ensures Valid()
      ensures schema.Some? && schema.value.attributes != [] && header != [] ==>
        mapping == Seeded(old(mapping), schema.value.attributes, header)
      ensures !(schema.Some? && schema.value.attributes != [] && header != []) ==> mapping == old(mapping)
      ensures file == old(file) && schema == old(schema) && header == old(header) && rows == old(rows)
      ensures jsonObjects == old(jsonObjects) && offset == old(offset) && selected == old(selected)
      ensures cardOrder == old(cardOrder)
    {
      if schema.None? || schema.value.attributes == [] || header == [] {
        return;
      }
      var attrs := schema.value.attributes;
      var i := 0;
      while i < |attrs|
        invariant 0 <= i <= |attrs|
        invariant mapping == Seeded(old(mapping), attrs[..i], header)
        invariant file == old(file) && schema == old(schema) && header == old(header) && rows == old(rows)
        invariant jsonObjects == old(jsonObjects) && offset == old(offset) && selected == old(selected)
        invariant cardOrder == old(cardOrder)
      {
        assert attrs[..i + 1][..i] == attrs[..i];
        var attr := attrs[i];
        if attr !in mapping {
          mapping := mapping[attr := if attr in header then attr else ""];
        }
        i := i + 1;
      }
      assert attrs[..i] == attrs;
    }

    /** The change handler of a mapping select: record the choice, then rebuild (and reseed)
        the mapping. */
    method SetMapping(attr: string, value: string)
      requires Valid()
      modifies this
      ensures Valid()
      ensures attr in mapping && mapping[attr] == value
      ensures schema.Some? && schema.value.attributes != [] && header != [] ==>
        mapping == Seeded(old(mapping)[attr := value], schema.value.attributes, header)
      ensures !(schema.Some? && schema.value.attributes != [] && header != []) ==>
        mapping == old(mapping)[attr := value]
      ensures header == old(header) && rows == old(rows) && selected == old(selected)
      ensures file == old(file) && schema == old(schema) && jsonObjects == old(jsonObjects)
        && offset == old(offset) && cardOrder == old(cardOrder)
    {
      mapping := mapping[attr := value];
      ghost var chosen := mapping;
      SeedMapping();
      if schema.Some? && schema.value.attributes != [] && header != [] {
        SeededProperties(chosen, schema.value.attributes, header);
      }
    }

    /** The success path of `verifyFile`: the preview is replaced, the pager and the
        selection are reset and `buildMappingUI` seeds the mapping. */
    method ShowLoaded(l: Loaded)
      requires Valid()
      modifies this
      ensures Valid()
      ensures header == l.header && rows == l.rows && jsonObjects == l.jsonObjects
      ensures offset == 0 && selected == {}
      ensures schema.Some? && schema.value.attributes != [] && header != [] ==>
        mapping == Seeded(old(mapping), schema.value.attributes, header)
      ensures !(schema.Some? && schema.value.attributes != [] && header != []) ==> mapping == old(mapping)
      ensures file == old(file) && schema == old(schema) && cardOrder == old(cardOrder)
    {
      header := l.header;
      rows := l.rows;
      jsonObjects := l.jsonObjects;
      offset := 0;
      selected := {};
      SeedMapping();
    }

    /** `verifyFile`; `parse` stands for `JSON.parse`, `None` for a text it rejects. On
        success the preview is replaced, the pager and the selection are reset and the mapping
        is seeded. When the JSON objects have no keys, the objects are kept and the header is
        emptied before the error is reported. */
    method Verify(parse: string -> Option<Json>) returns (r: Result<Loaded, LoadError>)
      requires Valid()
      modifies this
      ensures Valid()
      ensures file.None? ==> r == Err(NoFileSelected)
      ensures file.Some? && schema.None? ==> r == Err(NoSchemaSet)
      ensures file.Some? && schema.Some? ==> r == LoadFile(file.value, parse)
      ensures r.Ok? ==>
        && schema.Some?
        && header == r.value.header && rows == r.value.rows && jsonObjects == r.value.jsonObjects
        && offset == 0 && selected == {}
        && (schema.value.attributes != [] && header != [] ==>
              mapping == Seeded(old(mapping), schema.value.attributes, header))
        && (schema.value.attributes == [] || header == [] ==> mapping == old(mapping))
      ensures r.Err? ==> mapping == old(mapping) && offset == old(offset) && selected == old(selected)
      ensures r.Err? && r.error.NoKeys? ==>
        jsonObjects == Some(r.error.objects) && header == [] && rows == old(rows)
      ensures r.Err? && !r.error.NoKeys? ==>
        header == old(header) && rows == old(rows) && jsonObjects == old(jsonObjects) && selected == old(selected)
      ensures file == old(file) && schema == old(schema) && cardOrder == old(cardOrder)
    {
      if file.None? {
        return Err(NoFileSelected);
      }
      if schema.None? {
        return Err(NoSchemaSet);
      }
      r := LoadFile(file.value, parse);
      if r.Err? {
        if r.error.NoKeys? {
          jsonObjects := Some(r.error.objects);
          header := [];
        }
        return;
      }
      ShowLoaded(r.value);
    }

    /** `toggleRowSelection(i)` for a row shown in the preview. */
    method ToggleRow(i: nat)
      requires Valid()
      requires i < |rows|
      modifies this
      ensures Valid()
      ensures selected == Toggle(old(selected), i)
      ensures header == old(header) && rows == old(rows) && offset == old(offset)
      ensures file == old(file) && schema == old(schema) && jsonObjects == old(jsonObjects)
        && mapping == old(mapping) && cardOrder == old(cardOrder)
    {
      if i in selected {
        selected := selected - {i};
      } else {
        selected := selected + {i};
      }
    }

    /** `toggleSelectAll`: select the rows of the current page, or clear them when all of them
        are already selected. */
    method ToggleSelectAll()
      requires Valid()
      modifies this
      ensures Valid()
      ensures selected == TogglePage(old(selected), PageIndices(offset, |rows|))
      ensures header == old(header) && rows == old(rows) && offset == old(offset)
      ensures file == old(file) && schema == old(schema) && jsonObjects == old(jsonObjects)
        && mapping == old(mapping) && cardOrder == old(cardOrder)
    {
      var start := offset;
      var end := if offset + PageSize < |rows| then offset + PageSize else |rows|;
      var allSelected := PageIndices(offset, |rows|) <= selected;
      var i := start;
      while i < end
        invariant start <= i && (i <= end || end <= start)
        invariant end <= start ==> i == start
        invariant allSelected ==> selected == old(selected) - Interval(start, i)
        invariant !allSelected ==> selected == old(selected) + Interval(start, i)
        invariant header == old(header) && rows == old(rows) && offset == old(offset)
        invariant file == old(file) && schema == old(schema) && jsonObjects == old(jsonObjects)
        invariant mapping == old(mapping) && cardOrder == old(cardOrder)
        decreases end - i
      {
        if allSelected {
          selected := selected - {i};
        } else {
          selected := selected + {i};
        }
        i := i + 1;
      }
      assert forall x :: x in Interval(start, i) <==> x in PageIndices(offset, |rows|);
    }

    /** `selectAllRows`: every row index is selected. */
    method SelectAllRows()
      requires Valid()
      modifies this
      ensures Valid()
      ensures selected == old(selected) + Interval(0, |rows|)
      ensures header == old(header) && rows == old(rows) && offset == old(offset)
      ensures file == old(file) && schema == old(schema) && jsonObjects == old(jsonObjects)
        && mapping == old(mapping) && cardOrder == old(cardOrder)
    {
      var i := 0;
      while i < |rows|
        invariant 0 <= i <= |rows|
        invariant selected == old(selected) + Interval(0, i)
        invariant header == old(header) && rows == old(rows) && offset == old(offset)
        invariant file == old(file) && schema == old(schema) && jsonObjects == old(jsonObjects)
        invariant mapping == old(mapping) && cardOrder == old(cardOrder)
      {
        selected := selected + {i};
        i := i + 1;
      }
    }

    /** `clearSelection`. */
    method ClearSelection()
      requires Valid()
      modifies this
      ensures Valid()
      ensures selected == {}
      ensures header == old(header) && rows == old(rows) && offset == old(offset)
      ensures file == old(file) && schema == old(schema) && jsonObjects == old(jsonObjects)
        && mapping == old(mapping) && cardOrder == old(cardOrder)
    {
      selected := {};
    }

    /** `previewNext`: nothing happens without rows. */
    method PreviewNext()
      requires Valid()
      modifies this
      ensures Valid()
      ensures rows == [] ==> offset == old(offset)
      ensures rows != [] ==> offset == NextOffset(old(offset), |rows|)
      ensures header == old(header) && rows == old(rows) && selected == old(selected)
      ensures file == old(file) && schema == old(schema) && jsonObjects == old(jsonObjects)
        && mapping == old(mapping) && cardOrder == old(cardOrder)
    {
      if |rows| == 0 {
        return;
      }
      offset := NextOffset(offset, |rows|);
    }

    /** `previewPrev`: nothing happens without rows. */
    method PreviewPrev()
      requires Valid()
      modifies this
      ensures Valid()
      ensures rows == [] ==> offset == old(offset)
      ensures rows != [] ==> offset == PrevOffset(old(offset))
      ensures header == old(header) && rows == old(rows) && selected == old(selected)
      ensures file == old(file) && schema == old(schema) && jsonObjects == old(jsonObjects)
        && mapping == old(mapping) && cardOrder == old(cardOrder)
    {
      if |rows| == 0 {
        return;
      }
      offset := PrevOffset(offset);
    }

    /** `uploadFile` up to the request: on success the selected file is replaced by the
        rebuilt payload file. */
    method Upload(stringify: Json -> string) returns (r: Result<Form, UploadError>)
      requires Valid()
      modifies this
      ensures Valid()
      ensures r == PrepareUpload(old(file), old(schema), old(header), old(rows), old(jsonObjects),
                                 old(mapping), old(selected), stringify)
      ensures r.Ok? ==> file == Some(r.value.file)
      ensures r.Err? ==> file == old(file)
      ensures schema == old(schema) && header == old(header) && rows == old(rows) && selected == old(selected)
      ensures mapping == old(mapping) && jsonObjects == old(jsonObjects) && offset == old(offset)
        && cardOrder == old(cardOrder)
    {
      r := PrepareUpload(file, schema, header, rows, jsonObjects, mapping, selected, stringify);
      if r.Ok? {
        file := Some(r.value.file);
      }
    }

    /** `createJobCard`: the new card goes to the front of the stack order. */
    method AddJobCard(id: string)
      requires Valid()
      modifies this
      ensures Valid()
      ensures cardOrder == MoveToFront(old(cardOrder), id)
      ensures header == old(header) && rows == old(rows) && selected == old(selected)
      ensures file == old(file) && schema == old(schema) && jsonObjects == old(jsonObjects)
        && mapping == old(mapping) && offset == old(offset)
    {
      MoveToFrontDistinct(cardOrder, id);
      cardOrder := MoveToFront(cardOrder, id);
    }
  }
}
