/** What `import_dat` computes, as functions of the file text: the record a header
    line makes, what each override token does to the dictionary, and the whole
    line-by-line import with its outcome. The `BigCty` class runs the same steps
    as a loop and is proved to agree with `Import`. */
module CtyData {
  import opened Wrappers
  import opened Strings
  import opened Numbers
  import opened Grammar

  /** One entry of the dictionary: the keys `entity`, `cq`, `itu`, `continent`,
      `lat`, `long`, `tz`, `len`, `primary_pfx` and `exact_match`. */
  datatype Record = Record(
    entity: string,
    cq: int,
    itu: int,
    continent: string,
    lat: Float,
    long: Float,
    tz: Float,
    len: nat,
    primaryPfx: string,
    exactMatch: bool)

  /** Appended to the entity name of a header whose prefix carries the `*` marker. */
  const NotDxccSuffix := " (not DXCC)"

  /** The loop's state: the dictionary built so far and the primary prefix of
      the latest header (`last`, `""` before any). */
  datatype Scan = Scan(dict: map<string, Record>, last: string)

  // ---------------------------------------------------------------------------
  // Lines

  /** `line.rstrip("\r").strip(":")`. */
  function CleanLine(line: string): (r: string)
    ensures |r| <= |line|
    ensures r == [] || (r[0] != ':' && r[|r| - 1] != ':')
  {
    Strip(RStrip(line, Only('\r')), Only(':'))
  }

  /** The cleaned line is the line less a trailing run of `\r` (giving `t`), and
      then less a run of `:` at either end of `t`. */
  lemma CleanLineCuts(line: string)
    ensures RStripped(line, Only('\r'), RStrip(line, Only('\r')))
    ensures Stripped(RStrip(line, Only('\r')), Only(':'), LStrip(RStrip(line, Only('\r')), Only(':')), CleanLine(line))
  {
    RStripShape(line, Only('\r'), RStrip(line, Only('\r')));
    StripCuts(RStrip(line, Only('\r')), Only(':'));
  }

  /** `x.strip()` of every part. */
  function StripAll(parts: seq<string>): (r: seq<string>)
    ensures |r| == |parts|
    ensures forall i :: 0 <= i < |parts| ==> r[i] == Strip(parts[i], Space)
  {
    if parts == [] then [] else [Strip(parts[0], Space)] + StripAll(parts[1..])
  }

  /** The fields of a header line: split at `:` and stripped of whitespace. */
  function Segments(line: string): (r: seq<string>)
    ensures |r| == |Split(line, ':')| >= 1
  {
    StripAll(Split(line, ':'))
  }

  /** The key and the record a header line makes. A line with fewer than eight
      fields or an empty eighth field raises IndexError; a zone, a latitude, a
      longitude or an offset that `int`/`float` refuse raises ValueError. */
  function HeaderRecord(line: string): (r: Result<(string, Record), PyError>)
    ensures r.Failure? ==> (r.error == IndexError <==> |Segments(line)| < 8 || Segments(line)[7] == "")
    ensures r.Failure? ==> r.error == IndexError || r.error == ValueError
    ensures r.Success? ==>
              var s, key, rec := Segments(line), r.value.0, r.value.1;
              |s| >= 8 && s[7] != "" &&
              rec.primaryPfx == key && rec.len == |key| && !rec.exactMatch &&
              (if s[7][0] == '*' then key == s[7][1..] && rec.entity == s[0] + NotDxccSuffix
               else key == s[7] && rec.entity == s[0]) &&
              ParseInt(s[1]) == Some(rec.cq) && ParseInt(s[2]) == Some(rec.itu) &&
              rec.continent == s[3] &&
              ParseFloat(s[4]) == Some(rec.lat) && ParseFloat(s[5]) == Some(rec.long) &&
              ParseFloat(s[6]) == Some(Neg(rec.tz))
  {
    var segs := Segments(line);
    if |segs| < 8 || segs[7] == "" then Failure(IndexError)
    else
      var star := segs[7][0] == '*';
      var key := if star then segs[7][1..] else segs[7];
      var entity := if star then segs[0] + NotDxccSuffix else segs[0];
      var cq := ParseInt(segs[1]);
      var itu := ParseInt(segs[2]);
      var lat := ParseFloat(segs[4]);
      var long := ParseFloat(segs[5]);
      var tz := ParseFloat(segs[6]);
      if cq.None? || itu.None? || lat.None? || long.None? || tz.None? then Failure(ValueError)
      else
        NegNeg(tz.value);
        Success((key, Record(entity, cq.value, itu.value, segs[3], lat.value, long.value,
                             Neg(tz.value), |key|, key, false)))
  }

  /** A header with all eight fields raises `ValueError` exactly when `int`
      refuses a zone or `float` refuses a coordinate or the offset. */
  lemma HeaderValueError(line: string)
    requires |Segments(line)| >= 8 && Segments(line)[7] != ""
    ensures HeaderRecord(line) == Failure(ValueError) <==>
            ParseInt(Segments(line)[1]) == None || ParseInt(Segments(line)[2]) == None ||
            ParseFloat(Segments(line)[4]) == None || ParseFloat(Segments(line)[5]) == None ||
            ParseFloat(Segments(line)[6]) == None
  {
  }

  /** A header whose zones hold a letter, or whose coordinates or time offset
      hold a digit and a letter other than an exponent letter, raises `ValueError`. */
  lemma HeaderNonNumeric(line: string, i: nat, j: nat, k: nat)
    requires |Segments(line)| >= 8 && Segments(line)[7] != ""
    requires 1 <= i <= 6 && i != 3 && k < |Segments(line)[i]| && IsAlpha(Segments(line)[i][k])
    requires i >= 4 ==> j < |Segments(line)[i]| && IsDigit(Segments(line)[i][j]) &&
                        Segments(line)[i][k] != 'e' && Segments(line)[i][k] != 'E'
    ensures HeaderRecord(line) == Failure(ValueError)
  {
    var segs := Segments(line);
    HeaderValueError(line);
    if i == 1 {
      ParseIntLetter(segs[1], k);
    } else if i == 2 {
      ParseIntLetter(segs[2], k);
    } else if i == 4 {
      ParseFloatLetter(segs[4], j, k);
    } else if i == 5 {
      ParseFloatLetter(segs[5], j, k);
    } else {
      assert i == 6;
      ParseFloatLetter(segs[6], j, k);
    }
  }

  /** `-1 * (-1 * x) == x`. */
  lemma NegNeg(x: Float)
    ensures Neg(Neg(x)) == x
  {
  }

  /** The tokens of a continuation line:
      `line.strip().rstrip(";").rstrip(",").split(",")`. */
  function OverrideTokens(line: string): (items: seq<string>)
    ensures |items| >= 1
    ensures forall i :: 0 <= i < |items| ==> ',' !in items[i]
    ensures Join(items, ',') == RStrip(RStrip(Strip(line, Space), Only(';')), Only(','))
  {
    Split(RStrip(RStrip(Strip(line, Space), Only(';')), Only(',')), ',')
  }

  // ---------------------------------------------------------------------------
  // Override tokens

  /** `int(group)` when the group matched, the copied value otherwise. */
  function IntField(group: Option<string>, copied: int): Option<int>
  {
    if group.Some? then ParseInt(group.value) else Some(copied)
  }

  /** `float(group)` when the group matched, the copied value otherwise. */
  function FloatField(group: Option<string>, copied: Float): Option<Float>
  {
    if group.Some? then ParseFloat(group.value) else Some(copied)
  }

  /** `-1 * x` of a conversion that succeeded. */
  function NegField(x: Option<Float>): Option<Float>
  {
    if x.Some? then Some(Neg(x.value)) else None
  }

  function LatText(m: Match): Option<string>
  {
    if m.latLong.Some? then Some(m.latLong.value.0) else None
  }

  function LongText(m: Match): Option<string>
  {
    if m.latLong.Some? then Some(m.latLong.value.1) else None
  }

  /** The copy of the primary's record `base` with the fields whose groups
      matched replaced, in the order `itu`, `cq`, `lat`/`long`, `continent`, `tz`,
      and `exact_match` set for a token starting with `=`. A conversion that
      `int`/`float` refuse raises ValueError. */
  function ApplyMatch(base: Record, m: Match, exact: bool): (r: Result<Record, PyError>)
    ensures r.Failure? ==> r.error == ValueError
    ensures r.Success? ==> r.value.entity == base.entity && r.value.len == base.len &&
                           r.value.primaryPfx == base.primaryPfx
    ensures r.Success? && exact ==> r.value.exactMatch
  {
    var itu := IntField(m.itu, base.itu);
    var cq := IntField(m.cq, base.cq);
    var lat := FloatField(LatText(m), base.lat);
    var long := FloatField(LongText(m), base.long);
    var tz := if m.tz.Some? then NegField(ParseFloat(m.tz.value)) else Some(base.tz);
    if itu.None? || cq.None? || lat.None? || long.None? || tz.None? then Failure(ValueError)
    else
      Success(base.(itu := itu.value, cq := cq.value, lat := lat.value, long := long.value,
                    continent := if m.continent.Some? then m.continent.value else base.continent,
                    tz := tz.value,
                    exactMatch := if exact then true else base.exactMatch))
  }

  /** The number a grammar number text stands for: its sign and its digits. */
  function FloatOfText(t: string): Float
  {
    Float(SplitSign(t).0, SplitSign(t).1)
  }

  /** The record an override token stores, described field by field: the copied
      record `base`, except for the fields whose groups matched. */
  predicate Overrides(base: Record, m: Match, exact: bool, r: Record)
  {
    r.entity == base.entity && r.len == base.len && r.primaryPfx == base.primaryPfx &&
    r.cq == (if m.cq.Some? then DigitsValue(m.cq.value) else base.cq) &&
    r.itu == (if m.itu.Some? then DigitsValue(m.itu.value) else base.itu) &&
    (if m.latLong.Some? then r.lat == FloatOfText(m.latLong.value.0) && r.long == FloatOfText(m.latLong.value.1)
     else r.lat == base.lat && r.long == base.long) &&
    r.continent == (if m.continent.Some? then m.continent.value else base.continent) &&
    r.tz == (if m.tz.Some? then Neg(FloatOfText(m.tz.value)) else base.tz) &&
    r.exactMatch == (exact || base.exactMatch)
  }

  /** Applying a match fails only on a `long` text whose separator `float` does not
      accept, and otherwise gives the copied record with exactly the matched
      fields replaced (latitude and longitude together, the offset negated). */
  lemma ApplyMatchSpec(base: Record, m: Match, exact: bool)
    requires WellFormed(m)
    ensures ApplyMatch(base, m, exact).Failure? <==> m.latLong.Some? && !WildSeparatorOk(m.latLong.value.1)
    ensures ApplyMatch(base, m, exact).Failure? ==> ApplyMatch(base, m, exact).error == ValueError
    ensures ApplyMatch(base, m, exact).Success? ==> Overrides(base, m, exact, ApplyMatch(base, m, exact).value)
  {
    IntFieldOf(m.cq, base.cq);
    IntFieldOf(m.itu, base.itu);
    LatFieldOf(m, base.lat);
    LongFieldOf(m, base.long);
    TzFieldOf(m, base.tz);
  }

  /** A matched `\d+` group always converts. */
  lemma IntFieldOf(group: Option<string>, copied: int)
    requires group.Some? ==> group.value != [] && AllDigits(group.value)
    ensures IntField(group, copied) == Some(if group.Some? then DigitsValue(group.value) else copied)
  {
    if group.Some? { ParseDigits(group.value); }
  }

  /** A matched `lat` group always converts. */
  lemma LatFieldOf(m: Match, copied: Float)
    requires m.latLong.Some? ==> IsNumberText(m.latLong.value.0)
    ensures FloatField(LatText(m), copied) == Some(if m.latLong.Some? then FloatOfText(m.latLong.value.0) else copied)
  {
    if m.latLong.Some? { NumberTextParses(m.latLong.value.0); }
  }

  /** A matched `long` group converts exactly when its separator is a `.`-like one. */
  lemma LongFieldOf(m: Match, copied: Float)
    requires m.latLong.Some? ==> IsWildNumberText(m.latLong.value.1)
    ensures FloatField(LongText(m), copied).Some? <==> m.latLong.None? || WildSeparatorOk(m.latLong.value.1)
    ensures FloatField(LongText(m), copied).Some? ==>
            FloatField(LongText(m), copied).value == if m.latLong.Some? then FloatOfText(m.latLong.value.1) else copied
  {
    if m.latLong.Some? { WildNumberParses(m.latLong.value.1); }
  }

  /** A matched `tz` group always converts, and is negated. */
  lemma TzFieldOf(m: Match, copied: Float)
    requires m.tz.Some? ==> IsNumberText(m.tz.value)
    ensures (if m.tz.Some? then NegField(ParseFloat(m.tz.value)) else Some(copied)) ==
            Some(if m.tz.Some? then Neg(FloatOfText(m.tz.value)) else copied)
  {
    if m.tz.Some? { NumberTextParses(m.tz.value); }
  }

  /** One token of a continuation line (the body of the inner loop). A token that
      is already a key, as written, leaves the dictionary alone. Otherwise the
      primary's record is copied first, which raises KeyError before any header;
      a token the grammar does not match is then dropped, and a matched one
      stores the overridden copy under the prefix the grammar extracted. */
  function TokenStep(item: string, sc: Scan): (r: Result<Scan, PyError>)
    ensures r.Failure? ==> r.error == (if sc.last in sc.dict then ValueError else KeyError)
    ensures r.Success? ==> r.value.last == sc.last && sc.dict.Keys <= r.value.dict.Keys
  {
    if item in sc.dict then Success(sc)
    else if sc.last !in sc.dict then Failure(KeyError)
    else
      match Search(item)
      case None => Success(sc)
      case Some(m) =>
        match ApplyMatch(sc.dict[sc.last], m, StartsWith(item, "="))
        case Failure(e) => Failure(e)
        case Success(rec) => Success(Scan(sc.dict[m.prefix := rec], sc.last))
  }

  /** The tokens of one line in order; the first failure ends the import. */
  function TokensStep(items: seq<string>, sc: Scan): (r: Result<Scan, PyError>)
    ensures r.Failure? ==> r.error == (if sc.last in sc.dict then ValueError else KeyError)
    ensures r.Success? ==> r.value.last == sc.last && sc.dict.Keys <= r.value.dict.Keys
  {
    if items == [] then Success(sc)
    else
      match TokenStep(items[0], sc)
      case Failure(e) => Failure(e)
      case Success(sc1) => TokensStep(items[1..], sc1)
  }

  /** One non-empty cleaned line: a header if it starts with a letter, a
      continuation if it starts with whitespace, and otherwise nothing. */
  function LineStep(line: string, sc: Scan): (r: Result<Scan, PyError>)
    requires line != ""
    ensures r.Failure? && IsAlpha(line[0]) ==> r.error == IndexError || r.error == ValueError
    ensures r.Failure? && !IsAlpha(line[0]) ==> r.error == (if sc.last in sc.dict then ValueError else KeyError)
    ensures r.Success? ==> sc.dict.Keys <= r.value.dict.Keys
    ensures r.Success? ==> if IsAlpha(line[0]) then r.value.last in r.value.dict else r.value.last == sc.last
  {
    if IsAlpha(line[0]) then
      match HeaderRecord(line)
      case Failure(e) => Failure(e)
      case Success((key, rec)) => Success(Scan(sc.dict[key := rec], key))
    else if IsSpace(line[0]) then TokensStep(OverrideTokens(line), sc)
    else Success(sc)
  }

  /** The import from the line starting at `pos` on, in state `sc`: lines are
      read until one is empty once cleaned. */
  function ImportFrom(text: string, pos: nat, sc: Scan): (r: Result<map<string, Record>, PyError>)
    requires pos <= |text|
    ensures r.Failure? ==> r.error == IndexError || r.error == ValueError || r.error == KeyError
    ensures r.Success? ==> sc.dict.Keys <= r.value.Keys
    decreases |text| - pos
  {
    var end := LineEnd(text, pos);
    var line := CleanLine(text[pos..end]);
    if line == "" then Success(sc.dict)
    else
      match LineStep(line, sc)
      case Failure(e) => Failure(e)
      case Success(sc1) => ImportFrom(text, end, sc1)
  }

  /** The import ends at a line that is empty once cleaned. */
  lemma ImportFromEnd(text: string, pos: nat, sc: Scan)
    requires pos <= |text| && CleanLine(text[pos..LineEnd(text, pos)]) == ""
    ensures ImportFrom(text, pos, sc) == Success(sc.dict)
  {
  }

  /** Any other line is one step, after which the import goes on at the next line. */
  lemma ImportFromStep(text: string, pos: nat, sc: Scan)
    requires pos <= |text| && CleanLine(text[pos..LineEnd(text, pos)]) != ""
    ensures var step := LineStep(CleanLine(text[pos..LineEnd(text, pos)]), sc);
            ImportFrom(text, pos, sc) ==
            if step.Failure? then Failure(step.error) else ImportFrom(text, LineEnd(text, pos), step.value)
  {
  }

  /** `import_dat` on a file with contents `text`: the dictionary it builds, or
      the exception it raises. */
  function Import(text: string): (r: Result<map<string, Record>, PyError>)
    ensures r.Failure? ==> r.error == IndexError || r.error == ValueError || r.error == KeyError
    ensures text == "" ==> r == Success(map[])
  {
    ImportFrom(text, 0, Scan(map[], ""))
  }

  // ---------------------------------------------------------------------------
  // Header lines

  /** A field as a header line writes it: no `:` and no whitespace at either end. */
  predicate IsField(f: string)
  {
    ':' !in f && (f == [] || (!IsSpace(f[0]) && !IsSpace(f[|f| - 1])))
  }

  lemma ShowIntField(n: int)
    ensures IsField(ShowInt(n))
  {
    if n < 0 {
      SignedDigitsField("-", ShowNat(-n));
    } else {
      SignedDigitsField("", ShowNat(n));
      assert "" + ShowNat(n) == ShowNat(n);
    }
  }

  /** An optional `-` followed by digits is a field. */
  lemma SignedDigitsField(sign: string, d: string)
    requires sign == "" || sign == "-"
    requires d != [] && AllDigits(d)
    ensures IsField(sign + d)
  {
    var s := sign + d;
    assert ':' !in d;
    assert IsDigit(d[0]) && IsDigit(d[|d| - 1]);
    assert s[|s| - 1] == d[|d| - 1];
    assert s[0] == '-' || s[0] == d[0];
  }

  /** The fields of a line joined from fields (and any further `:`-free text). */
  lemma SegmentsOfFields(fields: seq<string>, more: seq<string>)
    requires forall i :: 0 <= i < |fields| ==> IsField(fields[i])
    requires forall i :: 0 <= i < |more| ==> ':' !in more[i]
    requires |fields| >= 1
    ensures |Segments(Join(fields + more, ':'))| >= |fields|
    ensures forall i :: 0 <= i < |fields| ==> Segments(Join(fields + more, ':'))[i] == fields[i]
  {
    var parts := fields + more;
    assert forall i :: 0 <= i < |parts| ==> ':' !in parts[i] by {
      forall i | 0 <= i < |parts| ensures ':' !in parts[i] {
        if i < |fields| { assert parts[i] == fields[i]; } else { assert parts[i] == more[i - |fields|]; }
      }
    }
    SplitJoin(parts, ':');
    var segs := Segments(Join(parts, ':'));
    forall i | 0 <= i < |fields| ensures segs[i] == fields[i] {
      assert parts[i] == fields[i];
    }
  }

  /** Reading back a header line written from its fields (and any further
      `:`-free text after the eighth) gives the key and the record those fields
      describe, with a leading `*` turned into the "not DXCC" mark. */
  lemma HeaderRoundTrip(entity: string, cq: int, itu: int, continent: string,
                        lat: string, long: string, tz: string, pfx: string, more: seq<string>)
    requires IsField(entity) && IsField(continent) && IsField(pfx)
    requires IsField(lat) && IsField(long) && IsField(tz)
    requires pfx != []
    requires ParseFloat(lat).Some? && ParseFloat(long).Some? && ParseFloat(tz).Some?
    requires forall i :: 0 <= i < |more| ==> ':' !in more[i]
    ensures var star := pfx[0] == '*';
            var key := if star then pfx[1..] else pfx;
            HeaderRecord(Join([entity, ShowInt(cq), ShowInt(itu), continent, lat, long, tz, pfx] + more, ':')) ==
            Success((key, Record(if star then entity + NotDxccSuffix else entity, cq, itu, continent,
                                 ParseFloat(lat).value, ParseFloat(long).value, Neg(ParseFloat(tz).value),
                                 |key|, key, false)))
  {
    var line := Join([entity, ShowInt(cq), ShowInt(itu), continent, lat, long, tz, pfx] + more, ':');
    HeaderFields(entity, cq, itu, continent, lat, long, tz, pfx, more);
    IntRoundTrip(cq);
    IntRoundTrip(itu);
    HeaderOfSegments(line, entity, ShowInt(cq), cq, ShowInt(itu), itu, continent, lat, long, tz, pfx);
  }

  lemma HeaderFields(entity: string, cq: int, itu: int, continent: string,
                     lat: string, long: string, tz: string, pfx: string, more: seq<string>)
    requires IsField(entity) && IsField(continent) && IsField(pfx)
    requires IsField(lat) && IsField(long) && IsField(tz)
    requires forall i :: 0 <= i < |more| ==> ':' !in more[i]
    ensures var s := Segments(Join([entity, ShowInt(cq), ShowInt(itu), continent, lat, long, tz, pfx] + more, ':'));
            |s| >= 8 && s[0] == entity && s[1] == ShowInt(cq) && s[2] == ShowInt(itu) && s[3] == continent &&
            s[4] == lat && s[5] == long && s[6] == tz && s[7] == pfx
  {
    var fields := [entity, ShowInt(cq), ShowInt(itu), continent, lat, long, tz, pfx];
    ShowIntField(cq);
    ShowIntField(itu);
    SegmentsOfFields(fields, more);
    var s := Segments(Join(fields + more, ':'));
    assert s[0] == fields[0] && s[1] == fields[1] && s[2] == fields[2] && s[3] == fields[3];
    assert s[4] == fields[4] && s[5] == fields[5] && s[6] == fields[6] && s[7] == fields[7];
  }

  lemma HeaderOfSegments(line: string, entity: string, cqText: string, cq: int, ituText: string, itu: int,
                         continent: string, lat: string, long: string, tz: string, pfx: string)
    requires var s := Segments(line);
             |s| >= 8 && s[0] == entity && s[1] == cqText && s[2] == ituText && s[3] == continent &&
             s[4] == lat && s[5] == long && s[6] == tz && s[7] == pfx
    requires pfx != [] && ParseInt(cqText) == Some(cq) && ParseInt(ituText) == Some(itu)
    requires ParseFloat(lat).Some? && ParseFloat(long).Some? && ParseFloat(tz).Some?
    ensures var star := pfx[0] == '*';
            var key := if star then pfx[1..] else pfx;
            HeaderRecord(line) ==
            Success((key, Record(if star then entity + NotDxccSuffix else entity, cq, itu, continent,
                                 ParseFloat(lat).value, ParseFloat(long).value, Neg(ParseFloat(tz).value),
                                 |key|, key, false)))
  {
  }

  // ---------------------------------------------------------------------------
  // Properties of the line loop

  /** A header line whose fields are refused raises what `HeaderRecord` raises. */
  lemma HeaderLineFails(line: string, sc: Scan)
    requires line != "" && IsAlpha(line[0]) && HeaderRecord(line).Failure?
    ensures LineStep(line, sc) == Failure(HeaderRecord(line).error)
  {
  }

  /** A header line stores exactly one record, under its key, which becomes the
      primary for the lines after it; every other key keeps its record. */
  lemma HeaderLineStores(line: string, sc: Scan)
    requires line != "" && IsAlpha(line[0]) && HeaderRecord(line).Success?
    ensures LineStep(line, sc).Success?
    ensures var sc1, key := LineStep(line, sc).value, HeaderRecord(line).value.0;
            sc1.last == key && sc1.dict.Keys == sc.dict.Keys + {key} &&
            sc1.dict[key] == HeaderRecord(line).value.1 &&
            forall k :: k in sc.dict && k != key ==> sc1.dict[k] == sc.dict[k]
  {
    var h := HeaderRecord(line).value;
    assert LineStep(line, sc) == Success(Scan(sc.dict[h.0 := h.1], h.0));
    StoreOne(sc.dict, h.0, h.1);
  }

  /** Storing under one key adds that key and changes no other entry. */
  lemma StoreOne(dict: map<string, Record>, key: string, rec: Record)
    ensures var d := dict[key := rec];
            d.Keys == dict.Keys + {key} && d[key] == rec &&
            forall k :: k in dict && k != key ==> d[k] == dict[k]
  {
  }

  /** A line that ends in a newline keeps it through the cleaning. */
  lemma NewlineSurvives(line: string)
    requires line != [] && line[|line| - 1] == '\n'
    ensures CleanLine(line) != ""
  {
    var a := RStrip(line, Only('\r'));
    assert a == line;
    var b := LStrip(a, Only(':'));
    assert b != [];
    assert b[|b| - 1] == '\n';
  }

  /** The loop stops only at the end of the text: the cleaned line is empty only
      when it is the last one, since an inner line keeps its newline (so a blank
      inner line is read as a continuation line). */
  lemma EmptyOnlyAtEnd(text: string, pos: nat)
    requires pos <= |text|
    requires CleanLine(text[pos..LineEnd(text, pos)]) == ""
    ensures LineEnd(text, pos) == |text|
  {
    var end := LineEnd(text, pos);
    if end < |text| {
      NewlineSurvives(text[pos..end]);
    }
  }

  /** A blank line after a header changes nothing: its one token, the empty
      string, is either a key already or matches no prefix. */
  lemma BlankLineSkipped(text: string, pos: nat, sc: Scan)
    requires pos < |text| && text[pos] == '\n'
    requires sc.last in sc.dict
    ensures ImportFrom(text, pos, sc) == ImportFrom(text, pos + 1, sc)
  {
    var line := text[pos..pos + 1];
    assert LineEnd(text, pos) == pos + 1;
    BlankLineClean(line);
    BlankLineStep(line, sc);
    LineWithoutEffect(text, pos, sc);
  }

  /** A lone newline survives cleaning. */
  lemma BlankLineClean(line: string)
    requires |line| == 1 && line[0] == '\n'
    ensures CleanLine(line) == line
  {
    assert RStrip(line, Only('\r')) == line;
    assert LStrip(line, Only(':')) == line;
  }

  /** A lone newline is a continuation line with the one token `""`, which
      leaves the state alone. */
  lemma BlankLineStep(line: string, sc: Scan)
    requires |line| == 1 && line[0] == '\n'
    requires sc.last in sc.dict
    ensures LineStep(line, sc) == Success(sc)
  {
    BlankTokens(line);
    EmptyTokenStep(sc);
  }

  /** Stripping a lone newline leaves the one empty token. */
  lemma BlankTokens(line: string)
    requires |line| == 1 && line[0] == '\n'
    ensures OverrideTokens(line) == [""]
  {
    assert LStrip(line, Space) == [];
  }

  /** The empty token is a key already, or matches no prefix. */
  lemma EmptyTokenStep(sc: Scan)
    requires sc.last in sc.dict
    ensures TokenStep("", sc) == Success(sc)
    ensures TokensStep([""], sc) == Success(sc)
  {
    assert Search("") == None;
    OneToken("", sc);
  }

  /** A line with one token does what that token does. */
  lemma OneToken(item: string, sc: Scan)
    ensures TokensStep([item], sc) == TokenStep(item, sc)
  {
    assert [item][1..] == [];
  }

  /** A line that leaves the state alone is passed over. */
  lemma LineWithoutEffect(text: string, pos: nat, sc: Scan)
    requires pos <= |text|
    requires var line := CleanLine(text[pos..LineEnd(text, pos)]);
             line != "" && LineStep(line, sc) == Success(sc)
    ensures ImportFrom(text, pos, sc) == ImportFrom(text, LineEnd(text, pos), sc)
  {
  }

  /** A line that starts with neither a letter nor whitespace is skipped. */
  lemma UnclassifiedSkipped(text: string, pos: nat, sc: Scan)
    requires pos <= |text|
    requires var line := CleanLine(text[pos..LineEnd(text, pos)]);
             line != "" && !IsAlpha(line[0]) && !IsSpace(line[0])
    ensures ImportFrom(text, pos, sc) == ImportFrom(text, LineEnd(text, pos), sc)
  {
  }

  /** A continuation line before any header raises KeyError: the primary's record
      is copied before the token is looked at. */
  lemma ContinuationBeforeHeader(text: string, pos: nat)
    requires pos <= |text|
    requires var line := CleanLine(text[pos..LineEnd(text, pos)]);
             line != "" && IsSpace(line[0])
    ensures ImportFrom(text, pos, Scan(map[], "")) == Failure(KeyError)
  {
    var line := CleanLine(text[pos..LineEnd(text, pos)]);
    assert LineStep(line, Scan(map[], "")) == Failure(KeyError) by {
      var items := OverrideTokens(line);
      assert TokenStep(items[0], Scan(map[], "")) == Failure(KeyError);
    }
  }

  /** A token leaves the dictionary alone when it is already a key, as written,
      or when it holds no prefix character, so the grammar finds no match. */
  lemma TokenLeavesDict(item: string, sc: Scan)
    requires item in sc.dict || (sc.last in sc.dict && forall i :: 0 <= i < |item| ==> !IsPrefixChar(item[i]))
    ensures TokenStep(item, sc) == Success(sc)
  {
  }

  /** The token written from a match, when it is not already a key, stores under
      the match's prefix the primary's record with the token's fields replaced,
      and nothing else changes. That prefix may already be a key, even the
      primary's own. */
  lemma RenderedToken(m: Match, exact: bool, sc: Scan)
    requires WellFormed(m) && (m.latLong.Some? ==> WildSeparatorOk(m.latLong.value.1))
    requires Render(m, exact) !in sc.dict && sc.last in sc.dict
    ensures TokenStep(Render(m, exact), sc).Success?
    ensures var sc1 := TokenStep(Render(m, exact), sc).value;
            sc1.last == sc.last && m.prefix in sc1.dict &&
            sc1.dict == sc.dict[m.prefix := sc1.dict[m.prefix]] &&
            Overrides(sc.dict[sc.last], m, exact, sc1.dict[m.prefix])
  {
    SearchRender(m, exact);
    ApplyMatchSpec(sc.dict[sc.last], m, exact);
  }

  /** The `.` of the `long` group is not escaped, so a token such as `A<1/2x3>`,
      whose longitude has any separator other than a point, an underscore or an
      exponent letter, is matched; `float` then refuses the longitude, which
      aborts the import with ValueError. */
  lemma LongSeparatorAborts(pfx: string, lat: string, a: string, c: char, b: string, sc: Scan)
    requires pfx != [] && AllOf(pfx, PrefixChars)
    requires lat != [] && AllDigits(lat) && a != [] && AllDigits(a) && b != [] && AllDigits(b)
    requires !IsDigit(c) && c != '\n' && c !in "._eE"
    requires sc.last in sc.dict && pfx + "<" + lat + "/" + (a + [c] + b) + ">" !in sc.dict
    ensures TokenStep(pfx + "<" + lat + "/" + (a + [c] + b) + ">", sc) == Failure(ValueError)
  {
    var long := a + [c] + b;
    var m := Match(pfx, None, None, Some((lat, long)), None, None);
    var item := pfx + "<" + lat + "/" + long + ">";
    DigitsNumberText(lat);
    SeparatorShape(a, c, b);
    RenderLatLong(pfx, lat, long);
    SearchRender(m, false);
    ApplyMatchSpec(sc.dict[sc.last], m, false);
    TokenMatched(item, sc, m);
  }

  /** The token that states a prefix and a `<lat/long>` group. */
  lemma RenderLatLong(pfx: string, lat: string, long: string)
    ensures var m := Match(pfx, None, None, Some((lat, long)), None, None);
            Render(m, false) == pfx + "<" + lat + "/" + long + ">"
  {
    var ll := "<" + lat + "/" + long + ">";
    var m := Match(pfx, None, None, Some((lat, long)), None, None);
    assert Groups(m) == ll;
    assert (if false then "=" else "") + pfx == pfx;
    PrependFive(pfx, "<", lat, "/", long, ">");
  }


  lemma DigitsNumberText(t: string)
    requires t != [] && AllDigits(t)
    ensures IsNumberText(t)
  {
    assert SplitSign(t).1 == t;
    DigitRunOf(t, "");
    assert t + "" == t;
  }

  /** Digits, one character that is neither a digit nor a newline, and digits:
      a `long` text, which `float` refuses unless that character is a point, an
      underscore or an exponent letter. */
  lemma SeparatorShape(a: string, c: char, b: string)
    requires a != [] && AllDigits(a) && b != [] && AllDigits(b) && !IsDigit(c) && c != '\n'
    ensures IsWildNumberText(a + [c] + b)
    ensures WildSeparatorOk(a + [c] + b) <==> c in "._eE"
  {
    var long := a + [c] + b;
    assert SplitSign(long).1 == long;
    assert DigitRun(long) == |a| by {
      DigitRunOf(a, [c] + b);
      assert a + ([c] + b) == long;
    }
    assert long[|a| + 1..] == b && long[|a|] == c;
  }

  /** A token that is not a key and that the grammar matches, after a header. */
  lemma TokenMatched(item: string, sc: Scan, m: Match)
    requires item !in sc.dict && sc.last in sc.dict && Search(item) == Some(m)
    ensures var r := ApplyMatch(sc.dict[sc.last], m, StartsWith(item, "="));
            TokenStep(item, sc) == if r.Failure? then Failure(r.error) else Success(Scan(sc.dict[m.prefix := r.value], sc.last))
  {
  }

  /** A new matched token, after a header, fails exactly on a `long` whose
      separator `float` refuses. Otherwise it stores under the extracted prefix
      the primary's record with the matched fields replaced, and no other key
      changes; that prefix may already be a key, even the primary's own. */
  lemma TokenOverrides(item: string, sc: Scan, m: Match)
    requires item !in sc.dict && sc.last in sc.dict && Search(item) == Some(m)
    ensures TokenStep(item, sc).Failure? <==> m.latLong.Some? && !WildSeparatorOk(m.latLong.value.1)
    ensures TokenStep(item, sc).Failure? ==> TokenStep(item, sc).error == ValueError
    ensures TokenStep(item, sc).Success? ==>
              var sc1 := TokenStep(item, sc).value;
              sc1.last == sc.last && m.prefix in sc1.dict &&
              sc1.dict == sc.dict[m.prefix := sc1.dict[m.prefix]] &&
              Overrides(sc.dict[sc.last], m, StartsWith(item, "="), sc1.dict[m.prefix])
  {
    ApplyMatchSpec(sc.dict[sc.last], m, StartsWith(item, "="));
    TokenMatched(item, sc, m);
  }

  /** The duplicate check looks at the raw token, so a token `P(n)` under the
      primary `P` overwrites `P` itself, and a later token `Q` of the same line
      copies the overwritten record. */
  lemma PrimaryOverwritten(p: string, n: string, q: string, sc: Scan)
    requires p != [] && AllOf(p, PrefixChars) && q != [] && AllOf(q, PrefixChars)
    requires n != [] && AllDigits(n)
    requires sc.last == p && p in sc.dict && p + "(" + n + ")" !in sc.dict && q !in sc.dict
    ensures var r := sc.dict[p].(cq := DigitsValue(n));
            TokensStep([p + "(" + n + ")", q], sc) == Success(Scan(sc.dict[p := r][q := r], p))
  {
    var item := p + "(" + n + ")";
    var r := sc.dict[p].(cq := DigitsValue(n));
    var sc1 := Scan(sc.dict[p := r], p);
    CqTokenStep(p, n, sc);
    PlainTokenStep(q, sc1);
    assert [item, q][1..] == [q];
    assert TokensStep([q], sc1) == TokensStep([], Scan(sc1.dict[q := r], p));
  }

  /** A `prefix(cq)` token for the primary itself sets its CQ zone. */
  lemma CqTokenStep(p: string, n: string, sc: Scan)
    requires p != [] && AllOf(p, PrefixChars) && n != [] && AllDigits(n)
    requires sc.last == p && p in sc.dict && p + "(" + n + ")" !in sc.dict
    ensures TokenStep(p + "(" + n + ")", sc) == Success(Scan(sc.dict[p := sc.dict[p].(cq := DigitsValue(n))], p))
  {
    var m := Match(p, Some(n), None, None, None, None);
    assert Groups(m) == "(" + n + ")";
    assert Render(m, false) == p + "(" + n + ")" by {
      assert p + ("(" + n + ")") == p + "(" + n + ")";
    }
    RenderedToken(m, false, sc);
  }

  /** A bare prefix token copies the primary's record under that prefix. */
  lemma PlainTokenStep(q: string, sc: Scan)
    requires q != [] && AllOf(q, PrefixChars) && q !in sc.dict && sc.last in sc.dict
    ensures TokenStep(q, sc) == Success(Scan(sc.dict[q := sc.dict[sc.last]], sc.last))
  {
    var m := Match(q, None, None, None, None, None);
    assert Groups(m) == "";
    assert Render(m, false) == q;
    RenderedToken(m, false, sc);
  }


  // ---------------------------------------------------------------------------
  // The dictionary's invariant

  /** Every record names a primary prefix that is a key, and `len` is that
      prefix's length. */
  predicate WellLinked(dict: map<string, Record>)
  {
    forall k :: k in dict ==> dict[k].primaryPfx in dict && dict[k].len == |dict[k].primaryPfx|
  }

  /** The loop's state: `last` is a key once there is any key at all. */
  predicate Consistent(sc: Scan)
  {
    (sc.dict == map[] || sc.last in sc.dict) && WellLinked(sc.dict)
  }

  /** A step from `sc` to `sc1` keeps the state consistent and removes no key. */
  predicate Grows(sc: Scan, sc1: Scan)
  {
    Consistent(sc1) && sc.dict.Keys <= sc1.dict.Keys
  }

  lemma TokenStepConsistent(item: string, sc: Scan)
    requires Consistent(sc) && TokenStep(item, sc).Success?
    ensures Grows(sc, TokenStep(item, sc).value)
  {
    if item !in sc.dict && sc.last in sc.dict && Search(item).Some? {
      var m := Search(item).value;
      var base := sc.dict[sc.last];
      var exact := StartsWith(item, "=");
      ApplyMatchSpec(base, m, exact);
      TokenMatched(item, sc, m);
      var rec := ApplyMatch(base, m, exact).value;
      StoreConsistent(m.prefix, rec, sc, sc.last);
    }
  }

  lemma {:induction false} TokensStepConsistent(items: seq<string>, sc: Scan)
    requires Consistent(sc) && TokensStep(items, sc).Success?
    ensures Grows(sc, TokensStep(items, sc).value)
    decreases |items|
  {
    if items != [] {
      var sc1 := TokensStepHead(items, sc);
      TokensStepConsistent(items[1..], sc1);
    }
  }

  /** A run of tokens that went through began with a token that went through,
      from which the rest of the run goes on. */
  lemma TokensStepHead(items: seq<string>, sc: Scan) returns (sc1: Scan)
    requires items != [] && Consistent(sc) && TokensStep(items, sc).Success?
    ensures Grows(sc, sc1)
    ensures TokensStep(items[1..], sc1) == TokensStep(items, sc)
  {
    sc1 := TokenStep(items[0], sc).value;
    TokenStepConsistent(items[0], sc);
  }

  lemma LineStepConsistent(line: string, sc: Scan)
    requires line != "" && Consistent(sc) && LineStep(line, sc).Success?
    ensures Grows(sc, LineStep(line, sc).value)
  {
    if IsAlpha(line[0]) {
      var h := HeaderRecord(line).value;
      StoreConsistent(h.0, h.1, sc, h.0);
      assert LineStep(line, sc).value == Scan(sc.dict[h.0 := h.1], h.0);
    } else if IsSpace(line[0]) {
      TokensStepConsistent(OverrideTokens(line), sc);
    }
  }

  /** Storing a record whose primary prefix is a key, or the new key itself,
      keeps the state consistent. */
  lemma StoreConsistent(key: string, rec: Record, sc: Scan, last: string)
    requires Consistent(sc)
    requires (rec.primaryPfx in sc.dict || rec.primaryPfx == key) && rec.len == |rec.primaryPfx|
    requires last == key || last in sc.dict
    ensures Grows(sc, Scan(sc.dict[key := rec], last))
  {
    StoreLinked(sc.dict, key, rec);
  }

  /** Storing a record whose primary is present (or is its own key) keeps every
      record linked to its primary. */
  lemma StoreLinked(dict: map<string, Record>, key: string, rec: Record)
    requires WellLinked(dict)
    requires (rec.primaryPfx in dict || rec.primaryPfx == key) && rec.len == |rec.primaryPfx|
    ensures WellLinked(dict[key := rec])
  {
  }

  /** Keys are never removed, and every record of the imported dictionary names
      a primary prefix that is itself a key, with `len` its length. */
  lemma {:induction false} ImportConsistent(text: string, pos: nat, sc: Scan)
    requires pos <= |text| && Consistent(sc) && ImportFrom(text, pos, sc).Success?
    ensures WellLinked(ImportFrom(text, pos, sc).value)
    ensures sc.dict.Keys <= ImportFrom(text, pos, sc).value.Keys
    decreases |text| - pos
  {
    var end := LineEnd(text, pos);
    var line := CleanLine(text[pos..end]);
    if line != "" {
      LineStepConsistent(line, sc);
      ImportConsistent(text, end, LineStep(line, sc).value);
    }
  }

  /** The dictionary a successful import builds is consistent. */
  lemma ImportWellLinked(text: string)
    requires Import(text).Success?
    ensures WellLinked(Import(text).value)
  {
    ImportConsistent(text, 0, Scan(map[], ""));
  }
}
