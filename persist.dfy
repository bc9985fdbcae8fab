/** The version/data split of `load` and `dump`, over the decoded JSON document
    (a map from keys to values): `dump` writes a copy of the dictionary with the
    version stored under the key `"version"`, and `load` takes that key out again
    (the version is `None` when the document has none) and keeps the rest. */
module Persist {
  import opened Wrappers
  import opened CtyData

  /** One value of the document: the version (a string, or JSON null) or a record. */
  datatype Entry = Stamp(version: Option<string>) | Data(record: Record)

  const VersionKey := "version"

  /** A document of the shape `dump` writes: the version under its key, records
      under every other key. */
  predicate Loadable(doc: map<string, Entry>)
  {
    forall k :: k in doc ==> (doc[k].Stamp? <==> k == VersionKey)
  }

  /** `datadump = data.copy(); datadump["version"] = version`. */
  function Dump(data: map<string, Record>, version: Option<string>): (doc: map<string, Entry>)
    ensures Loadable(doc)
    ensures doc.Keys == data.Keys + {VersionKey}
    ensures doc[VersionKey] == Stamp(version)
    ensures forall k :: k in data && k != VersionKey ==> doc[k] == Data(data[k])
  {
    (map k | k in data && k != VersionKey :: Data(data[k]))[VersionKey := Stamp(version)]
  }

  /** `version = doc.pop("version", None)`, and the rest is the data. */
  function Load(doc: map<string, Entry>): (r: (map<string, Record>, Option<string>))
    requires Loadable(doc)
    ensures r.0.Keys == doc.Keys - {VersionKey}
    ensures forall k :: k in r.0 ==> doc[k] == Data(r.0[k])
    ensures VersionKey in doc ==> doc[VersionKey] == Stamp(r.1)
    ensures VersionKey !in doc ==> r.1 == None
  {
    (map k | k in doc && k != VersionKey :: doc[k].record,
     if VersionKey in doc then doc[VersionKey].version else None)
  }

  /** Loading what was dumped gives back the version and the data, except for a
      record stored under the key `"version"` itself, which the version overwrote. */
  lemma LoadDump(data: map<string, Record>, version: Option<string>)
    ensures Load(Dump(data, version)) == (data - {VersionKey}, version)
  {
    var r := Load(Dump(data, version));
    assert r.0 == data - {VersionKey};
  }

  /** So the round trip is exact for data without a `"version"` key. */
  lemma LoadDumpExact(data: map<string, Record>, version: Option<string>)
    requires VersionKey !in data
    ensures Load(Dump(data, version)) == (data, version)
  {
    LoadDump(data, version);
    assert data - {VersionKey} == data;
  }

  /** Dumping what was loaded gives back a document that has a version. */
  lemma DumpLoad(doc: map<string, Entry>)
    requires Loadable(doc) && VersionKey in doc
    ensures Dump(Load(doc).0, Load(doc).1) == doc
  {
    var (data, version) := Load(doc);
    var d := Dump(data, version);
    assert d.Keys == doc.Keys;
    forall k | k in doc ensures d[k] == doc[k] {
      if k != VersionKey {
        assert doc[k] == Data(data[k]);
      }
    }
  }
}
