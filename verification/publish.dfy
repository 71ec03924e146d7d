/** The final callback of `parse` (tasks/jsdelivr.js:91-111): every record, with its
    `version -> files` map converted to the v1 list of `{version, files}` pairs.
    Key iteration order is not specified, so both loops pick keys in any order. */
module Publish {
  import opened Wrappers
  import opened Errors
  import opened CatalogBuilder

  datatype AssetGroup = AssetGroup(version: string, files: seq<string>)

  /** A record as handed to the callback. */
  datatype Published = Published(fields: map<string, Value>, versions: seq<string>, assets: seq<AssetGroup>)

  function GroupVersions(groups: seq<AssetGroup>): (vs: seq<string>)
    ensures |vs| == |groups| && forall i :: 0 <= i < |groups| ==> vs[i] == groups[i].version
  {
    seq(|groups|, i requires 0 <= i < |groups| => groups[i].version)
  }

  /** `groups` lists every version of `assets` exactly once, with its files unchanged. */
  ghost predicate IsV1Assets(groups: seq<AssetGroup>, assets: map<string, seq<string>>)
  {
    && |groups| == |assets|
    && (forall i :: 0 <= i < |groups| ==> groups[i].version in assets && groups[i].files == assets[groups[i].version])
    && (forall i, j :: 0 <= i < j < |groups| ==> groups[i].version != groups[j].version)
    && (forall v :: v in assets ==> v in GroupVersions(groups))
  }

  /** Lists every element of `s` exactly once, in an order chosen freely. */
  method Enumerate<K>(s: set<K>) returns (ks: seq<K>)
    ensures |ks| == |s|
    ensures forall i :: 0 <= i < |ks| ==> ks[i] in s
    ensures forall i, j :: 0 <= i < j < |ks| ==> ks[i] != ks[j]
    ensures forall k :: k in s ==> k in ks
  {
    ks := [];
    var rest := s;
    while rest != {}
      invariant rest <= s
      invariant |ks| + |rest| == |s|
      invariant forall i :: 0 <= i < |ks| ==> ks[i] in s && ks[i] !in rest
      invariant forall i, j :: 0 <= i < j < |ks| ==> ks[i] != ks[j]
      invariant forall k :: k in s && k !in rest ==> k in ks
      decreases rest
    {
      var k :| k in rest;
      ks := ks + [k];
      rest := rest - {k};
    }
  }

  /** `fp.each` over `v.assets`, lines 98-107. */
  method ToV1Assets(assets: map<string, seq<string>>) returns (groups: seq<AssetGroup>)
    ensures IsV1Assets(groups, assets)
  {
    var versions := Enumerate(assets.Keys);
    groups := seq(|versions|, i requires 0 <= i < |versions| => AssetGroup(versions[i], assets[versions[i]]));
    assert GroupVersions(groups) == versions;
  }

  /** `records[i]` is the conversion of the record keyed `order[i]`, and `order`
      lists every key of `cat` exactly once. */
  ghost predicate PublishedAs(records: seq<Published>, cat: Catalog, order: seq<string>)
  {
    && |records| == |order| == |cat|
    && (forall i, j :: 0 <= i < j < |order| ==> order[i] != order[j])
    && (forall i :: 0 <= i < |order| ==> order[i] in cat)
    && (forall lib :: lib in cat ==> lib in order)
    && forall i :: 0 <= i < |records| ==> Converts(records[i], cat[order[i]])
  }

  /** `record` is `l` with its fields and versions kept and its assets in v1 form. */
  ghost predicate Converts(record: Published, l: Library)
  {
    && record.fields == l.fields
    && record.versions == l.versions
    && IsV1Assets(record.assets, l.assets)
  }

  /** The body of the `map` callback, lines 97-109: the record with v1 assets. */
  method Convert(l: Library) returns (record: Published)
    ensures Converts(record, l)
  {
    var groups := ToV1Assets(l.assets);
    record := Published(l.fields, l.versions, groups);
  }

  /** `values(ret).map(...)`, lines 96-110: one published record per library key. */
  method PublishAll(cat: Catalog) returns (records: seq<Published>, order: seq<string>)
    ensures PublishedAs(records, cat, order)
  {
    order := Enumerate(cat.Keys);
    records := [];
    for i := 0 to |order|
      invariant |records| == i
      invariant forall j :: 0 <= j < i ==> Converts(records[j], cat[order[j]])
    {
      var record := Convert(cat[order[i]]);
      ConvertedSnoc(records, record, cat, order);
      records := records + [record];
    }
  }

  /** Appending a converted record keeps the prefix of `keys` converted. */
  lemma ConvertedSnoc(records: seq<Published>, record: Published, cat: Catalog, keys: seq<string>)
    requires |records| < |keys|
    requires forall i :: 0 <= i < |keys| ==> keys[i] in cat
    requires forall j :: 0 <= j < |records| ==> Converts(records[j], cat[keys[j]])
    requires Converts(record, cat[keys[|records|]])
    ensures forall j :: 0 <= j < |records| + 1 ==> Converts((records + [record])[j], cat[keys[j]])
  {
  }

  /** The whole of `parse`: the fold, then either the error or the converted records. */
  method ParseAndPublish(events: seq<Event>) returns (r: Result<seq<Published>, Error>)
    requires WellFormed(events)
    ensures Parse(events).Err? ==> r == Err(Parse(events).error)
    ensures Parse(events).Ok? ==> r.Ok? && exists order :: PublishedAs(r.value, Parse(events).value, order)
  {
    match Parse(events)
    case Err(e) =>
      r := Err(e);
    case Ok(cat) =>
      var records, order := PublishAll(cat);
      r := Ok(records);
  }
}
