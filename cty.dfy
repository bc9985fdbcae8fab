/** The `BigCty` object: a dictionary of records keyed by prefix, and the version
    of the data it holds. `ImportDat` reads a CTY.DAT text line by line and is
    proved to build exactly what `CtyData.Import` describes; `Load` and `Dump`
    move the data to and from a decoded JSON document; the rest are the read-only
    mapping wrappers. */
module Cty {
  import opened Wrappers
  import opened Strings
  import opened Numbers
  import opened Grammar
  import opened CtyData
  import Dates
  import Persist

  class BigCty {
    /** `_data`: the records, keyed by prefix. */
    var data: map<string, Record>
    /** `_version`: `YYYYMMDD`, `""` when unknown, `None` after loading a
        document without one. */
    var version: Option<string>

    /** `BigCty()`: no records and the empty version. */
    constructor ()
      ensures data == map[] && version == Some("")
    {
      data := map[];
      version := Some("");
    }

    /** `BigCty(file_path)`: the empty object, then `load` of the document. */
    constructor FromDocument(doc: map<string, Persist.Entry>)
      requires Persist.Loadable(doc)
      ensures (data, version) == Persist.Load(doc)
    {
      data := map[];
      version := Some("");
      new;
      Load(doc);
    }

    /** `load`: the document's version, or `None`, and every other entry. */
    method Load(doc: map<string, Persist.Entry>)
      requires Persist.Loadable(doc)
      modifies this
      ensures (data, version) == Persist.Load(doc)
    {
      var (d, v) := Persist.Load(doc);
      data := d;
      version := v;
    }

    /** `dump`: the document written for the current data and version; the
        object itself is left alone. */
    method Dump() returns (doc: map<string, Persist.Entry>)
      ensures Persist.Loadable(doc)
      ensures doc == Persist.Dump(data, version)
      ensures Persist.VersionKey !in data ==> Persist.Load(doc) == (data, version)
    {
      doc := Persist.Dump(data, version);
      if Persist.VersionKey !in data {
        Persist.LoadDumpExact(data, version);
      }
    }

    /** `import_dat` on a file with contents `text`. The version is stored
        first; the dictionary is built in a local map and stored only when every
        line went through, so an exception leaves the old data in place. */
    method ImportDat(text: string) returns (err: Option<PyError>)
      modifies this
      ensures version == Some(ExtractVersion(text))
      ensures err.None? <==> Import(text).Success?
      ensures err.None? ==> data == Import(text).value
      ensures err.Some? ==> err.value == Import(text).error && data == old(data)
    {
      var dict: map<string, Record> := map[];
      version := Some(ExtractVersion(text));
      var last := "";
      var pos := 0;
      while true
        invariant pos <= |text|
        invariant ImportFrom(text, pos, Scan(dict, last)) == Import(text)
        invariant data == old(data) && version == Some(ExtractVersion(text))
        decreases |text| - pos
      {
        var end := LineEnd(text, pos);
        var line := CleanLine(text[pos..end]);
        if line == "" {
          ImportFromEnd(text, pos, Scan(dict, last));
          break;
        }
        var step := ImportLine(line, dict, last);
        ImportFromStep(text, pos, Scan(dict, last));
        if step.Failure? {
          return Some(step.error);
        }
        dict, last := step.value.dict, step.value.last;
        pos := end;
      }
      data := dict;
      return None;
    }

    /** The body of the outer loop of `import_dat` for one non-empty cleaned
        line: a header stores its record and becomes the primary, a continuation
        line goes through its tokens, and any other line is skipped. */
    static method ImportLine(line: string, dict: map<string, Record>, last: string)
      returns (r: Result<Scan, PyError>)
      requires line != ""
      ensures r == LineStep(line, Scan(dict, last))
    {
      if IsAlpha(line[0]) {
        var header := HeaderRecord(line);
        if header.Failure? {
          return Failure(header.error);
        }
        var (key, rec) := header.value;
        return Success(Scan(dict[key := rec], key));
      } else if IsSpace(line[0]) {
        var overrides := OverrideTokens(line);
        var e := ImportTokens(overrides, dict, last);
        if e.Failure? {
          return Failure(e.error);
        }
        return Success(Scan(e.value, last));
      }
      return Success(Scan(dict, last));
    }

    /** The inner loop of `import_dat` over the tokens of one continuation line:
        the dictionary after them, or the exception that ends the import. */
    static method ImportTokens(overrides: seq<string>, dict0: map<string, Record>, last: string)
      returns (r: Result<map<string, Record>, PyError>)
      ensures r.Success? <==> TokensStep(overrides, Scan(dict0, last)).Success?
      ensures r.Success? ==> Scan(r.value, last) == TokensStep(overrides, Scan(dict0, last)).value
      ensures r.Failure? ==> r.error == TokensStep(overrides, Scan(dict0, last)).error
    {
      var dict := dict0;
      for i := 0 to |overrides|
        invariant TokensStep(overrides[i..], Scan(dict, last)) == TokensStep(overrides, Scan(dict0, last))
      {
        var item := overrides[i];
        assert overrides[i..][1..] == overrides[i + 1..];
        if item !in dict {
          var step := ApplyToken(item, dict, last);
          if step.Failure? {
            return Failure(step.error);
          }
          dict := step.value;
        }
      }
      return Success(dict);
    }

    /** One token not yet in the dictionary: copy the primary's record, match
        the token, and overwrite the fields whose groups matched. */
    static method ApplyToken(item: string, dict0: map<string, Record>, last: string)
      returns (r: Result<map<string, Record>, PyError>)
      requires item !in dict0
      ensures r.Success? <==> TokenStep(item, Scan(dict0, last)).Success?
      ensures r.Success? ==> Scan(r.value, last) == TokenStep(item, Scan(dict0, last)).value
      ensures r.Failure? ==> r.error == TokenStep(item, Scan(dict0, last)).error
    {
      if last !in dict0 {
        return Failure(KeyError);
      }
      var data := dict0[last];
      var found := Search(item);
      if found.None? {
        return Success(dict0);
      }
      var m := found.value;
      var rec := Overwrite(data, m, StartsWith(item, "="));
      if rec.Failure? {
        return Failure(rec.error);
      }
      return Success(dict0[m.prefix := rec.value]);
    }

    /** The field updates of one matched token on the copied record `data`, in
        the source's order; a refused conversion raises ValueError. */
    static method Overwrite(data0: Record, m: Match, exact: bool) returns (r: Result<Record, PyError>)
      ensures r == ApplyMatch(data0, m, exact)
    {
      // Naming the conversions first keeps the proof within the resource limit.
      ghost var itu' := IntField(m.itu, data0.itu);
      ghost var cq' := IntField(m.cq, data0.cq);
      ghost var lat' := FloatField(LatText(m), data0.lat);
      ghost var long' := FloatField(LongText(m), data0.long);
      ghost var tz' := if m.tz.Some? then NegField(ParseFloat(m.tz.value)) else Some(data0.tz);
      assert ApplyMatch(data0, m, exact) ==
             if itu'.None? || cq'.None? || lat'.None? || long'.None? || tz'.None? then Failure(ValueError)
             else Success(data0.(itu := itu'.value, cq := cq'.value, lat := lat'.value, long := long'.value,
                                 continent := if m.continent.Some? then m.continent.value else data0.continent,
                                 tz := tz'.value, exactMatch := if exact then true else data0.exactMatch));
      var data := data0;
      if m.itu.Some? {
        var itu := ParseInt(m.itu.value);
        if itu.None? {
          return Failure(ValueError);
        }
        data := data.(itu := itu.value);
      }
      if m.cq.Some? {
        var cq := ParseInt(m.cq.value);
        if cq.None? {
          return Failure(ValueError);
        }
        data := data.(cq := cq.value);
      }
      if m.latLong.Some? {
        var lat := ParseFloat(m.latLong.value.0);
        var long := ParseFloat(m.latLong.value.1);
        if lat.None? || long.None? {
          return Failure(ValueError);
        }
        data := data.(lat := lat.value, long := long.value);
      }
      if m.continent.Some? {
        data := data.(continent := m.continent.value);
      }
      if m.tz.Some? {
        var tz := ParseFloat(m.tz.value);
        if tz.None? {
          return Failure(ValueError);
        }
        data := data.(tz := Neg(tz.value));
      }
      if exact {
        data := data.(exactMatch := true);
      }
      return Success(data);
    }

    /** The `version` property. */
    function Version(): (v: Option<string>)
      reads this
      ensures v == version
    {
      version
    }

    /** The `formatted_version` property. */
    function FormattedVersion(): (r: Result<string, PyError>)
      reads this
      ensures r.Failure? <==> version.None?
      ensures version.Some? && |version.value| == 8 && AllDigits(version.value) ==>
                r == Success(if Dates.ValidDate(Dates.Split422(version.value))
                             then version.value[..4] + "-" + version.value[4..6] + "-" + version.value[6..]
                             else "0000-00-00")
    {
      if version.Some? && |version.value| == 8 && AllDigits(version.value) then
        Dates.FormattedEightDigits(version.value);
        Dates.FormattedVersion(version)
      else
        Dates.FormattedVersion(version)
    }

    /** `len(cty)`: the number of prefixes. */
    function Len(): (n: nat)
      reads this
      ensures n == |data.Keys|
    {
      |data|
    }

    /** `cty[key]`: the record of a prefix, KeyError for an unknown one. */
    function Get(key: string): (r: Result<Record, PyError>)
      reads this
      ensures r.Success? <==> key in data
      ensures r.Success? ==> r.value == data[key]
      ensures r.Failure? ==> r.error == KeyError
    {
      if key in data then Success(data[key]) else Failure(KeyError)
    }

    /** `iter(cty)`: the prefixes (in no particular order). */
    function Keys(): (ks: set<string>)
      reads this
      ensures forall k :: k in ks <==> Get(k).Success?
    {
      data.Keys
    }
  }
}
