/** The column mapping of the client: for each table attribute, the source field it is
    filled from, `''` ("keep empty") or `'__AUTO__'` ("auto-generate"). */
module Mapping {
  import opened Seqs

  /** The option value of "auto-generate". */
  const AUTO: string := "__AUTO__"

  type ColumnMapping = map<string, string>

  /** `columnMapping[a] && columnMapping[a] !== '__AUTO__'`: the attribute is mapped to a field. */
  predicate Included(m: ColumnMapping, a: string)
  {
    a in m && m[a] != "" && m[a] != AUTO
  }

  /** The attributes, in their order, that pass `Included`: `includedTableAttrs` when applied
      to the table attributes, `mappedPk` when applied to the primary key. */
  function IncludedOf(attrs: seq<string>, m: ColumnMapping): (r: seq<string>)
    ensures |r| <= |attrs|
    ensures forall i :: 0 <= i < |r| ==> r[i] in attrs && Included(m, r[i])
    ensures forall i :: 0 <= i < |attrs| && Included(m, attrs[i]) ==> attrs[i] in r
  {
    Filter(attrs, a => Included(m, a))
  }

  /** The filter keeps the schema order: filtering a concatenation filters each part. */
  lemma IncludedOfAppend(a: seq<string>, b: seq<string>, m: ColumnMapping)
    ensures IncludedOf(a + b, m) == IncludedOf(a, m) + IncludedOf(b, m)
  {
    FilterAppend(a, b, a => Included(m, a));
  }

  /** When the primary key columns are table attributes, the `primary_key` sent is a
      subset of the `columns` sent. */
  lemma MappedPrimaryKeyIncluded(attrs: seq<string>, pk: seq<string>, m: ColumnMapping)
    requires forall i :: 0 <= i < |pk| ==> pk[i] in attrs
    ensures forall i :: 0 <= i < |IncludedOf(pk, m)| ==> IncludedOf(pk, m)[i] in IncludedOf(attrs, m)
  {
    var r := IncludedOf(pk, m);
    forall i | 0 <= i < |r| ensures r[i] in IncludedOf(attrs, m) {
      var j :| 0 <= j < |attrs| && attrs[j] == r[i];
    }
  }

  /** One step of the default-mapping loop: an attribute without an entry gets the
      same-named header field if there is one, else `''`. */
  function SeedStep(m: ColumnMapping, attr: string, header: seq<string>): ColumnMapping
  {
    if attr in m then m else m[attr := if attr in header then attr else ""]
  }

  /** The default-mapping loop over the table attributes, in order. */
  function Seeded(m: ColumnMapping, attrs: seq<string>, header: seq<string>): ColumnMapping
    decreases |attrs|
  {
    if attrs == [] then m
    else SeedStep(Seeded(m, attrs[..|attrs| - 1], header), attrs[|attrs| - 1], header)
  }

  /** Seeding never overwrites an existing entry, gives every attribute without one its
      same-named header field or `''`, and adds no other key. */
  lemma {:induction false} SeededProperties(m: ColumnMapping, attrs: seq<string>, header: seq<string>)
    ensures Seeded(m, attrs, header).Keys == m.Keys + set a | a in attrs
    ensures forall k :: k in m ==> Seeded(m, attrs, header)[k] == m[k]
    ensures forall a :: a in attrs && a !in m ==> Seeded(m, attrs, header)[a] == if a in header then a else ""
    decreases |attrs|
  {
    if attrs != [] {
      var p := attrs[..|attrs| - 1];
      SeededProperties(m, p, header);
      assert attrs == p + [attrs[|attrs| - 1]];
      assert (set a | a in attrs) == (set a | a in p) + {attrs[|attrs| - 1]};
    }
  }

  /** Seeding twice is the same as seeding once. */
  lemma SeededIdempotent(m: ColumnMapping, attrs: seq<string>, header: seq<string>)
    ensures Seeded(Seeded(m, attrs, header), attrs, header) == Seeded(m, attrs, header)
  {
    var s := Seeded(m, attrs, header);
    SeededProperties(m, attrs, header);
    SeededProperties(s, attrs, header);
  }

  /** From an empty mapping, the seeded attributes that are included are exactly the ones
      named in the header (other than the name `'__AUTO__'` itself). */
  lemma SeededFromEmpty(attrs: seq<string>, header: seq<string>)
    ensures forall a :: a in IncludedOf(attrs, Seeded(map[], attrs, header)) <==>
      a in attrs && a in header && a != "" && a != AUTO
  {
    var s := Seeded(map[], attrs, header);
    SeededProperties(map[], attrs, header);
    var r := IncludedOf(attrs, s);
    forall a ensures a in r <==> a in attrs && a in header && a != "" && a != AUTO {
      if a in attrs && a in header && a != "" && a != AUTO {
        var j :| 0 <= j < |attrs| && attrs[j] == a;
        assert Included(s, attrs[j]);
      }
    }
  }
}
