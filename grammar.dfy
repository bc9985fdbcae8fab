/** The two regular expressions of the importer, written as hand-made matchers:
    the version marker `VER(\d{8})` and the override-token grammar

      =?(?P<prefix>[a-zA-Z0-9/]+)
      (?:\((?P<cq>\d+)\))?
      (?:\[(?P<itu>\d+)\])?
      (?P<latlong><(?P<lat>[+-]?\d+(?:\.\d+)?)/(?P<long>[+-]?\d+(?:.\d+)?)>)?
      (?:\{(?P<continent>\w+)\})?
      (?:~(?P<tz>[+-]?\d+(?:\.\d+)?)~)?

    applied with `re.search`: the leftmost position where a match starts, and no
    end anchor. Everything after the prefix is optional and the rest of the
    pattern can always match the empty string, so the backtracking engine keeps
    the first way each group matches; only the `long` group, whose `.` is not
    escaped and so matches any character but a newline, needs to look ahead for
    its closing `>`. */
module Grammar {
  import opened Wrappers
  import opened Strings
  import opened Numbers

  // ---------------------------------------------------------------------------
  // The version marker

  /** `VER` followed by eight digits starts at position `i`. */
  predicate VersionAt(text: string, i: nat)
  {
    i + 11 <= |text| && text[i..i + 3] == "VER" && AllDigits(text[i + 3..i + 11])
  }

  /** The first position at or after `i` where the version marker starts. */
  function VersionFrom(text: string, i: nat): (r: Option<nat>)
    requires i <= |text|
    ensures r.Some? ==> i <= r.value && VersionAt(text, r.value)
    ensures r.Some? ==> forall j :: i <= j < r.value ==> !VersionAt(text, j)
    ensures r.None? ==> forall j :: i <= j ==> !VersionAt(text, j)
    decreases |text| - i
  {
    if i + 11 > |text| then None
    else if VersionAt(text, i) then Some(i)
    else VersionFrom(text, i + 1)
  }

  /** `re.search(r"VER(\d{8})", text)`: group 1 of the leftmost match, or `""`. */
  function ExtractVersion(text: string): (v: string)
    ensures v == "" <==> forall i :: !VersionAt(text, i)
    ensures v != "" ==> |v| == 8 && AllDigits(v)
    ensures v != "" ==> exists i: nat :: VersionAt(text, i) && v == text[i + 3..i + 11] &&
                                         forall j: nat :: j < i ==> !VersionAt(text, j)
  {
    match VersionFrom(text, 0)
    case None => ""
    case Some(i) =>
      var v := text[i + 3..i + 11];
      assert v[0] == text[i + 3];
      assert VersionAt(text, i) && v == text[i + 3..i + 11] && forall j: nat :: j < i ==> !VersionAt(text, j);
      v
  }

  // ---------------------------------------------------------------------------
  // Scanning helpers

  /** The character classes the grammar scans runs of: `\d`, `\w` and the
      prefix characters `[a-zA-Z0-9/]`. These are the regular expression's
      classes; `Strings.CharClass` is the other vocabulary, the set of
      characters a `strip` call removes, and the two are never mixed. */
  datatype Class = Digits | WordChars | PrefixChars

  predicate Is(c: char, k: Class)
  {
    match k
    case Digits => IsDigit(c)
    case WordChars => IsWordChar(c)
    case PrefixChars => IsPrefixChar(c)
  }

  /** The longest prefix of `s` whose characters are all of class `k`, and the rest. */
  function Span(s: string, k: Class): (r: (string, string))
    ensures r.0 + r.1 == s
    ensures forall i :: 0 <= i < |r.0| ==> Is(r.0[i], k)
    ensures r.1 == [] || !Is(r.1[0], k)
    decreases |s|
  {
    if s != [] && Is(s[0], k) then
      var t := Span(s[1..], k);
      ConsRun(s, t.0, t.1, k);
      ([s[0]] + t.0, t.1)
    else ("", s)
  }

  /** Putting the first character back in front of a run of class `k`. */
  lemma ConsRun(s: string, a: string, b: string, k: Class)
    requires s != [] && Is(s[0], k) && a + b == s[1..]
    requires forall i :: 0 <= i < |a| ==> Is(a[i], k)
    ensures [s[0]] + a + b == s
    ensures forall i :: 0 <= i < |[s[0]] + a| ==> Is(([s[0]] + a)[i], k)
  {
    assert [s[0]] + a + b == [s[0]] + (a + b);
  }

  /** `Span` is determined by where the run of `k` characters stops. */
  lemma {:induction false} SpanOf(t: string, u: string, k: Class)
    requires forall i :: 0 <= i < |t| ==> Is(t[i], k)
    requires u == [] || !Is(u[0], k)
    ensures Span(t + u, k) == (t, u)
    decreases |t|
  {
    if t == [] {
      assert t + u == u;
    } else {
      assert (t + u)[0] == t[0];
      assert (t + u)[1..] == t[1..] + u;
      SpanOf(t[1..], u, k);
      assert [t[0]] + t[1..] == t;
    }
  }

  /** An optional leading sign of `s`, as text. */
  function SignText(s: string): (sg: string)
    ensures sg == "" || (s != [] && sg == s[..1] && (s[0] == '+' || s[0] == '-'))
    ensures sg == "" ==> s == [] || (s[0] != '+' && s[0] != '-')
    ensures |sg| <= |s| && s[|sg|..] == SplitSign(s).1
  {
    s[..|s| - |SplitSign(s).1|]
  }

  /** Cutting a string `n` characters after its sign keeps that sign, and the
      two pieces are the first `n` and the rest of the unsigned text. */
  lemma SignedCut(s: string, m: nat, n: nat)
    requires m == |SignText(s)| && 0 < n <= |s| - m
    ensures SplitSign(s[..m + n]).1 == s[m..][..n]
    ensures s[m + n..] == s[m..][n..]
    ensures s[..m + n] + s[m + n..] == s
  {
    assert s[m..m + n] == s[m..][..n];
  }

  /** `body[..n]` is a run of `k` digits, then optionally one more character
      and more digits. */
  lemma DigitsShape(body: string, k: nat, n: nat)
    requires 0 < k <= n <= |body| && k == DigitRun(body)
    requires n == k || (k + 1 < n && AllDigits(body[k + 1..n]))
    ensures DigitRun(body[..n]) == k
    ensures n > k ==> body[..n][k] == body[k] && body[..n][k + 1..] == body[k + 1..n]
  {
    RunOfCut(body, k, n);
    if n > k {
      assert body[..n][k + 1..] == body[k + 1..n];
    }
  }

  /** Cutting a string at or after the end of its digit run keeps the run. */
  lemma RunOfCut(body: string, k: nat, n: nat)
    requires k <= n <= |body| && k == DigitRun(body)
    ensures DigitRun(body[..n]) == k
  {
    var b := body[..n];
    assert b[..k] == body[..k];
    assert b[..k] + b[k..] == b;
    DigitRunOf(b[..k], b[k..]);
  }

  /** The length of the unsigned number `\d+(?:\.\d+)?` at the start of `body`,
      0 when there is none. */
  function NumberLength(body: string): (n: nat)
    ensures n <= |body|
    ensures n > 0 ==> IsUnsignedNumber(body[..n])
  {
    var k := DigitRun(body);
    if k == 0 then 0
    else
      var n := if k + 1 < |body| && body[k] == '.' && IsDigit(body[k + 1])
               then k + 1 + DigitRun(body[k + 1..]) else k;
      assert n > k ==> body[k + 1..n] == body[k + 1..][..n - k - 1];
      DigitsShape(body, k, n);
      n
  }

  /** The length of the unsigned wildcard number `\d+(?:.\d+)?` at the start of
      `body` that is followed by `>`, 0 when there is none. The engine tries the
      wildcard alternative first (any character but a newline, digits, then `>`);
      failing that, the digits must be followed by `>` directly. */
  function WildLength(body: string): (n: nat)
    ensures n < |body| || n == 0
    ensures n > 0 ==> IsUnsignedWild(body[..n]) && body[n] == '>'
  {
    var k := DigitRun(body);
    if k == 0 then 0
    else
      var e := if k + 1 < |body| && body[k] != '\n' then DigitRun(body[k + 1..]) else 0;
      if e > 0 && k + 1 + e < |body| && body[k + 1 + e] == '>' then
        assert body[k + 1..k + 1 + e] == body[k + 1..][..e];
        DigitsShape(body, k, k + 1 + e);
        k + 1 + e
      else if k < |body| && body[k] == '>' then
        DigitsShape(body, k, k);
        k
      else 0
  }

  /** `[+-]?\d+(?:\.\d+)?` at the start of `s`: the matched text and the rest. */
  function Number(s: string): (r: Option<(string, string)>)
    ensures r.Some? ==> IsNumberText(r.value.0) && r.value.0 + r.value.1 == s
  {
    var sg := SignText(s);
    var n := NumberLength(s[|sg|..]);
    if n == 0 then None
    else
      SignedCut(s, |sg|, n);
      Some((s[..|sg| + n], s[|sg| + n..]))
  }

  /** `[+-]?\d+(?:.\d+)?` followed by `>`, at the start of `s`: the matched text
      and the rest, which starts with that `>`. */
  function LongNumber(s: string): (r: Option<(string, string)>)
    ensures r.Some? ==> IsWildNumberText(r.value.0) && r.value.0 + r.value.1 == s
    ensures r.Some? ==> r.value.1 != [] && r.value.1[0] == '>'
  {
    var sg := SignText(s);
    var n := WildLength(s[|sg|..]);
    if n == 0 then None
    else
      WildCut(s, |sg|, n);
      Some((s[..|sg| + n], s[|sg| + n..]))
  }

  /** The two pieces `LongNumber` cuts `s` into. */
  lemma WildCut(s: string, m: nat, n: nat)
    requires m == |SignText(s)| && n == WildLength(s[m..]) && n > 0
    ensures IsWildNumberText(s[..m + n]) && s[..m + n] + s[m + n..] == s
    ensures s[m + n..] != [] && s[m + n..][0] == '>'
  {
    SignedCut(s, m, n);
  }

  /** `open`, one or more characters of class `k`, then `close`: the inner text
      and what follows the closing character. */
  function Enclosed(s: string, open: char, close: char, k: Class): (r: Option<(string, string)>)
    ensures r.Some? ==> r.value.0 != [] && (forall i :: 0 <= i < |r.value.0| ==> Is(r.value.0[i], k))
    ensures r.Some? ==> s == [open] + r.value.0 + [close] + r.value.1
  {
    if s != [] && s[0] == open then
      var (t, rest) := Span(s[1..], k);
      if t != [] && rest != [] && rest[0] == close then
        assert s == [open] + t + [close] + rest[1..];
        Some((t, rest[1..]))
      else None
    else None
  }

  /** `<lat/long>`: the two texts and the rest. */
  function LatLong(s: string): (r: Option<((string, string), string)>)
    ensures r.Some? ==> IsNumberText(r.value.0.0) && IsWildNumberText(r.value.0.1)
    ensures r.Some? ==> s == "<" + r.value.0.0 + "/" + r.value.0.1 + ">" + r.value.1
  {
    if s != [] && s[0] == '<' then
      match Number(s[1..])
      case None => None
      case Some((lat, r1)) =>
        if r1 != [] && r1[0] == '/' then
          match LongNumber(r1[1..])
          case None => None
          case Some((lon, r2)) =>
            LatLongPieces(s, lat, r1, lon, r2);
            Some(((lat, lon), r2[1..]))
        else None
    else None
  }

  lemma LatLongPieces(s: string, lat: string, r1: string, lon: string, r2: string)
    requires s != [] && s[0] == '<' && lat + r1 == s[1..]
    requires r1 != [] && r1[0] == '/' && lon + r2 == r1[1..]
    requires r2 != [] && r2[0] == '>'
    ensures s == "<" + lat + "/" + lon + ">" + r2[1..]
  {
    assert r2 == ">" + r2[1..];
    assert r1 == "/" + r1[1..];
    assert s == "<" + s[1..];
  }

  /** `~tz~`: the text and the rest. */
  function TzGroup(s: string): (r: Option<(string, string)>)
    ensures r.Some? ==> IsNumberText(r.value.0) && s == "~" + r.value.0 + "~" + r.value.1
  {
    if s != [] && s[0] == '~' then
      match Number(s[1..])
      case None => None
      case Some((tz, r1)) =>
        if r1 != [] && r1[0] == '~' then
          TzPieces(s, tz, r1);
          Some((tz, r1[1..]))
        else None
    else None
  }

  lemma TzPieces(s: string, tz: string, r1: string)
    requires s != [] && s[0] == '~' && tz + r1 == s[1..]
    requires r1 != [] && r1[0] == '~'
    ensures s == "~" + tz + "~" + r1[1..]
  {
    assert r1 == "~" + r1[1..];
    assert s == "~" + s[1..];
  }

  /** An optional group: the group's value if it matched, and where matching goes on. */
  function Opt<T>(r: Option<(T, string)>, s: string): (Option<T>, string)
  {
    match r
    case Some((v, rest)) => (Some(v), rest)
    case None => (None, s)
  }

  // ---------------------------------------------------------------------------
  // The override grammar

  predicate IsPrefixChar(c: char) { IsAlpha(c) || IsDigit(c) || c == '/' }

  /** The named groups of one match; a group that did not take part is `None`. */
  datatype Match = Match(
    prefix: string,
    cq: Option<string>,
    itu: Option<string>,
    latLong: Option<(string, string)>,
    continent: Option<string>,
    tz: Option<string>)

  predicate AllOf(s: string, k: Class) { forall i :: 0 <= i < |s| ==> Is(s[i], k) }

  /** What every group's text looks like in a match the grammar produces. */
  predicate WellFormed(m: Match)
  {
    m.prefix != [] && AllOf(m.prefix, PrefixChars) &&
    (m.cq.Some? ==> m.cq.value != [] && AllDigits(m.cq.value)) &&
    (m.itu.Some? ==> m.itu.value != [] && AllDigits(m.itu.value)) &&
    (m.latLong.Some? ==> IsNumberText(m.latLong.value.0) && IsWildNumberText(m.latLong.value.1)) &&
    (m.continent.Some? ==> m.continent.value != [] && AllOf(m.continent.value, WordChars)) &&
    (m.tz.Some? ==> IsNumberText(m.tz.value))
  }

  /** The prefix `pfx` sits at position `i` of `s` as a maximal run of prefix characters. */
  predicate PrefixAt(s: string, i: nat, pfx: string)
  {
    i + |pfx| <= |s| && s[i..i + |pfx|] == pfx &&
    (i + |pfx| == |s| || !IsPrefixChar(s[i + |pfx|]))
  }

  /** The grammar matched at the very start of `s`. */
  function MatchHere(s: string): (r: Option<Match>)
    ensures r.Some? <==> s != [] && (IsPrefixChar(s[0]) || (s[0] == '=' && |s| >= 2 && IsPrefixChar(s[1])))
    ensures r.Some? ==> WellFormed(r.value) && PrefixAt(s, if s[0] == '=' then 1 else 0, r.value.prefix)
  {
    var start := if s != [] && s[0] == '=' then 1 else 0;
    var (pfx, r0) := Span(s[start..], PrefixChars);
    if pfx == [] then None
    else
      SpanAt(s, start, pfx, r0);
      Some(MatchGroups(pfx, r0))
  }

  /** A run of prefix characters that `Span` cut from `s[start..]` sits at `start`. */
  lemma SpanAt(s: string, start: nat, pfx: string, r0: string)
    requires start <= |s| && Span(s[start..], PrefixChars) == (pfx, r0)
    ensures PrefixAt(s, start, pfx)
  {
    ConcatAt(pfx, r0, |pfx|);
    assert s[start..start + |pfx|] == s[start..][..|pfx|];
  }

  /** The optional groups that follow the prefix `pfx`, matched in order. */
  function MatchGroups(pfx: string, r0: string): (m: Match)
    requires pfx != [] && AllOf(pfx, PrefixChars)
    ensures WellFormed(m) && m.prefix == pfx
  {
    var (cq, r1) := Opt(Enclosed(r0, '(', ')', Digits), r0);
    var (itu, r2) := Opt(Enclosed(r1, '[', ']', Digits), r1);
    var (ll, r3) := Opt(LatLong(r2), r2);
    var (cont, r4) := Opt(Enclosed(r3, '{', '}', WordChars), r3);
    var (tz, _) := Opt(TzGroup(r4), r4);
    Match(pfx, cq, itu, ll, cont, tz)
  }

  /** `re.search(regex_dat, item)`: the match at the leftmost position where one
      starts. There is one exactly when the token holds a prefix character, and
      the prefix found is the first maximal run of them. */
  function Search(s: string): (r: Option<Match>)
    ensures r.None? <==> forall i :: 0 <= i < |s| ==> !IsPrefixChar(s[i])
    ensures r.Some? ==> WellFormed(r.value)
    ensures r.Some? ==> exists i: nat :: PrefixAt(s, i, r.value.prefix) &&
                                    forall j :: 0 <= j < i ==> !IsPrefixChar(s[j])
    decreases |s|
  {
    if s == [] then None
    else
      var h := MatchHere(s);
      if h.Some? then
        HereFound(s, h.value);
        h
      else
        var r := Search(s[1..]);
        ShiftNone(s);
        if r.Some? then ShiftFound(s, r.value.prefix); r else r
  }

  /** A match at the start of the string is the leftmost one. */
  lemma HereFound(s: string, m: Match)
    requires MatchHere(s) == Some(m)
    ensures exists i :: 0 <= i < |s| && IsPrefixChar(s[i])
    ensures exists i: nat :: PrefixAt(s, i, m.prefix) && forall j :: 0 <= j < i ==> !IsPrefixChar(s[j])
  {
    var i := if s[0] == '=' then 1 else 0;
    assert PrefixAt(s, i, m.prefix);
    assert IsPrefixChar(s[i]);
  }

  /** Past a first character that is not a prefix character, the string holds
      one exactly when its tail does. */
  lemma ShiftNone(s: string)
    requires s != [] && !IsPrefixChar(s[0])
    ensures (forall i :: 0 <= i < |s| ==> !IsPrefixChar(s[i])) <==>
            (forall i :: 0 <= i < |s[1..]| ==> !IsPrefixChar(s[1..][i]))
  {
    assert forall i :: 1 <= i < |s| ==> s[i] == s[1..][i - 1];
  }

  /** A prefix found after the first character, which is not a prefix character,
      is the first one of the whole string too. */
  lemma ShiftFound(s: string, pfx: string)
    requires s != [] && !IsPrefixChar(s[0])
    requires exists i: nat :: PrefixAt(s[1..], i, pfx) && forall j :: 0 <= j < i ==> !IsPrefixChar(s[1..][j])
    ensures exists i: nat :: PrefixAt(s, i, pfx) && forall j :: 0 <= j < i ==> !IsPrefixChar(s[j])
  {
    var i: nat :| PrefixAt(s[1..], i, pfx) && forall j :: 0 <= j < i ==> !IsPrefixChar(s[1..][j]);
    assert s[1..][i..i + |pfx|] == s[i + 1..i + 1 + |pfx|];
    assert PrefixAt(s, i + 1, pfx);
    forall j | 0 <= j < i + 1 ensures !IsPrefixChar(s[j]) {
      if j > 0 { assert s[j] == s[1..][j - 1]; }
    }
  }

  // ---------------------------------------------------------------------------
  // Writing a token back

  function Wrap(open: char, t: Option<string>, close: char): string
  {
    if t.Some? then [open] + t.value + [close] else ""
  }

  function LatLongText(ll: Option<(string, string)>): string
  {
    if ll.Some? then "<" + ll.value.0 + "/" + ll.value.1 + ">" else ""
  }

  /** The token that states exactly the groups of `m`, with a leading `=` when
      `exact` is set. */
  function Render(m: Match, exact: bool): string
  {
    (if exact then "=" else "") + m.prefix + Groups(m)
  }

  function Groups(m: Match): string
  {
    Wrap('(', m.cq, ')') + (Wrap('[', m.itu, ']') + (LatLongText(m.latLong) +
      (Wrap('{', m.continent, '}') + Wrap('~', m.tz, '~'))))
  }

  lemma EnclosedWrap(open: char, close: char, k: Class, t: Option<string>, rest: string)
    requires t.Some? ==> t.value != [] && AllOf(t.value, k) && !Is(close, k)
    requires rest == [] || rest[0] != open
    ensures Opt(Enclosed(Wrap(open, t, close) + rest, open, close, k), Wrap(open, t, close) + rest) == (t, rest)
  {
    if t.Some? {
      WrapPieces(open, t.value, close, rest);
      SpanOf(t.value, [close] + rest, k);
    } else {
      assert Wrap(open, t, close) + rest == rest;
    }
  }

  /** A written group followed by `rest`, taken apart from the left. */
  lemma WrapPieces(open: char, v: string, close: char, rest: string)
    ensures var s := Wrap(open, Some(v), close) + rest;
            s != [] && s[0] == open && s[1..] == v + ([close] + rest)
    ensures ([close] + rest)[1..] == rest
  {
    assert Wrap(open, Some(v), close) + rest == [open] + (v + ([close] + rest));
  }

  lemma NumberLengthOf(tb: string, rest: string)
    requires IsUnsignedNumber(tb)
    requires rest != [] && !IsDigit(rest[0]) && rest[0] != '.'
    ensures NumberLength(tb + rest) == |tb|
  {
    var k0 := DigitRun(tb);
    if k0 == |tb| {
      WholeRun(tb, rest);
    } else {
      SplitRun(tb, k0, rest);
    }
  }

  /** The `long` number's length, when a `>` follows it and no digit follows that. */
  lemma WildLengthOf(tb: string, tail: string)
    requires IsUnsignedWild(tb)
    requires tail != [] && tail[0] == '>' && (|tail| == 1 || !IsDigit(tail[1]))
    ensures WildLength(tb + tail) == |tb|
  {
    var k0 := DigitRun(tb);
    if k0 == |tb| {
      WholeRun(tb, tail);
      ConcatAt(tb, tail, |tb|);
      assert tail[1..] == [] || !IsDigit(tail[1..][0]);
    } else {
      SplitRun(tb, k0, tail);
    }
  }

  /** A digit run that is the whole text stops at the text's end. */
  lemma WholeRun(tb: string, tail: string)
    requires DigitRun(tb) == |tb|
    requires tail != [] && !IsDigit(tail[0])
    ensures DigitRun(tb + tail) == |tb|
  {
    assert tb[..|tb|] == tb;
    DigitRunOf(tb, tail);
  }

  /** A digit run cut at a separator: both runs stop where they stop in the text. */
  lemma SplitRun(tb: string, k0: nat, tail: string)
    requires k0 == DigitRun(tb) < |tb| && k0 + 1 < |tb| && AllDigits(tb[k0 + 1..])
    requires tail != [] && !IsDigit(tail[0])
    ensures DigitRun(tb + tail) == k0
    ensures (tb + tail)[k0] == tb[k0]
    ensures DigitRun((tb + tail)[k0 + 1..]) == |tb| - k0 - 1
  {
    ConcatAt(tb, tail, k0);
    DigitRunOf(tb[..k0], tb[k0..] + tail);
    ConcatAt(tb, tail, k0 + 1);
    DigitRunOf(tb[k0 + 1..], tail);
  }

  /** Cutting the sign off a signed text followed by more text. */
  lemma SignOfConcat(t: string, rest: string)
    requires SplitSign(t).1 != [] && IsDigit(SplitSign(t).1[0])
    ensures SignText(t + rest) == SignText(t)
    ensures (t + rest)[|SignText(t)|..] == SplitSign(t).1 + rest
    ensures |SignText(t)| + |SplitSign(t).1| == |t|
  {
  }

  /** The number parser gives back a number text followed by a delimiter. */
  lemma NumberOf(t: string, rest: string)
    requires IsNumberText(t)
    requires rest != [] && !IsDigit(rest[0]) && rest[0] != '.'
    ensures Number(t + rest) == Some((t, rest))
  {
    SignOfConcat(t, rest);
    NumberLengthOf(SplitSign(t).1, rest);
    ConcatAt(t, rest, |t|);
  }

  /** The `long` parser gives back a wildcard number followed by `>` and then
      something that does not start with a digit. */
  lemma LongNumberOf(t: string, tail: string)
    requires IsWildNumberText(t)
    requires tail != [] && tail[0] == '>' && (|tail| == 1 || !IsDigit(tail[1]))
    ensures LongNumber(t + tail) == Some((t, tail))
  {
    SignOfConcat(t, tail);
    WildLengthOf(SplitSign(t).1, tail);
    ConcatAt(t, tail, |t|);
  }

  /** The `<lat/long>` parser gives back the two texts. */
  lemma LatLongOf(lat: string, lon: string, rest: string)
    requires IsNumberText(lat) && IsWildNumberText(lon)
    requires rest == [] || !IsDigit(rest[0])
    ensures LatLong(LatLongText(Some((lat, lon))) + rest) == Some(((lat, lon), rest))
  {
    var tail := ">" + rest;
    var r1 := "/" + (lon + tail);
    var s := LatLongText(Some((lat, lon))) + rest;
    LatLongNest(lat, lon, rest);
    NumberOf(lat, r1);
    LongNumberOf(lon, tail);
    LatLongSteps(s, lat, r1, lon, tail);
  }

  /** The written `<lat/long>` followed by `rest`, taken apart from the left. */
  lemma LatLongNest(lat: string, lon: string, rest: string)
    ensures var s := LatLongText(Some((lat, lon))) + rest;
            s != [] && s[0] == '<' && s[1..] == lat + ("/" + (lon + (">" + rest)))
    ensures ("/" + (lon + (">" + rest)))[1..] == lon + (">" + rest)
    ensures (">" + rest)[1..] == rest
  {
    var r1 := "/" + (lon + (">" + rest));
    assert LatLongText(Some((lat, lon))) + rest == "<" + (lat + r1);
  }

  /** `LatLong` put together from its two number matches. */
  lemma LatLongSteps(s: string, lat: string, r1: string, lon: string, r2: string)
    requires s != [] && s[0] == '<' && Number(s[1..]) == Some((lat, r1))
    requires r1 != [] && r1[0] == '/' && LongNumber(r1[1..]) == Some((lon, r2))
    ensures LatLong(s) == Some(((lat, lon), r2[1..]))
  {
  }

  lemma LatLongWrap(ll: Option<(string, string)>, rest: string)
    requires ll.Some? ==> IsNumberText(ll.value.0) && IsWildNumberText(ll.value.1)
    requires rest == [] || (rest[0] != '<' && !IsDigit(rest[0]))
    ensures Opt(LatLong(LatLongText(ll) + rest), LatLongText(ll) + rest) == (ll, rest)
  {
    if ll.Some? {
      LatLongOf(ll.value.0, ll.value.1, rest);
    } else {
      assert LatLongText(ll) + rest == rest;
    }
  }

  lemma TzWrap(tz: Option<string>)
    requires tz.Some? ==> IsNumberText(tz.value)
    ensures Opt(TzGroup(Wrap('~', tz, '~')), Wrap('~', tz, '~')).0 == tz
  {
    if tz.Some? {
      var s := Wrap('~', tz, '~');
      TzNest(tz.value);
      NumberOf(tz.value, "~");
      TzSteps(s, tz.value, "~");
    }
  }

  /** The written `~tz~`, taken apart from the left. */
  lemma TzNest(v: string)
    ensures var s := Wrap('~', Some(v), '~');
            s != [] && s[0] == '~' && s[1..] == v + "~"
  {
  }

  /** `TzGroup` put together from its number match. */
  lemma TzSteps(s: string, tz: string, r1: string)
    requires s != [] && s[0] == '~' && Number(s[1..]) == Some((tz, r1))
    requires r1 != [] && r1[0] == '~'
    ensures TzGroup(s) == Some((tz, r1[1..]))
  {
  }

  /** The groups written by `Groups` are matched back. */
  lemma MatchGroupsOf(m: Match)
    requires WellFormed(m)
    ensures MatchGroups(m.prefix, Groups(m)) == m
  {
    var t5 := Wrap('~', m.tz, '~');
    var t4 := Wrap('{', m.continent, '}') + t5;
    var t3 := LatLongText(m.latLong) + t4;
    var t2 := Wrap('[', m.itu, ']') + t3;
    var t1 := Wrap('(', m.cq, ')') + t2;
    assert Groups(m) == t1;
    EnclosedWrap('(', ')', Digits, m.cq, t2);
    EnclosedWrap('[', ']', Digits, m.itu, t3);
    LatLongWrap(m.latLong, t4);
    EnclosedWrap('{', '}', WordChars, m.continent, t5);
    TzWrap(m.tz);
  }

  /** Round trip: matching a rendered token gives back its groups, and the token
      starts with `=` exactly when it was rendered as an exact match. */
  lemma SearchRender(m: Match, exact: bool)
    requires WellFormed(m)
    ensures Search(Render(m, exact)) == Some(m)
    ensures StartsWith(Render(m, exact), "=") <==> exact
  {
    var s := Render(m, exact);
    var start := if exact then 1 else 0;
    RenderShape(m, exact);
    GroupsStart(m);
    MatchHereAt(s, start, m.prefix, Groups(m));
    MatchGroupsOf(m);
    SearchHere(s);
  }

  /** Where the prefix and the groups sit in a rendered token. */
  lemma RenderShape(m: Match, exact: bool)
    requires m.prefix != [] && IsPrefixChar(m.prefix[0])
    ensures var s := Render(m, exact);
            var start := if exact then 1 else 0;
            |s| > start && s[start..] == m.prefix + Groups(m) &&
            (exact ==> s[0] == '=') && (!exact ==> s[0] == m.prefix[0]) &&
            (StartsWith(s, "=") <==> exact)
  {
    var s := Render(m, exact);
    var g := Groups(m);
    if exact {
      assert s == "=" + (m.prefix + g);
      assert s[..1] == "=";
    } else {
      assert s == m.prefix + g;
      assert s[..1] != "=" by { assert s[0] != '='; }
    }
  }

  /** The groups start with an opening bracket, never with a prefix character. */
  lemma GroupsStart(m: Match)
    ensures Groups(m) == [] || !IsPrefixChar(Groups(m)[0])
  {
  }

  /** The grammar at the start of `s` finds the prefix `pfx` after an optional
      `=`, and matches its groups in the text `g` that follows. */
  lemma MatchHereAt(s: string, start: nat, pfx: string, g: string)
    requires start <= 1 && |s| > start && s[start..] == pfx + g
    requires pfx != [] && AllOf(pfx, PrefixChars)
    requires start == 1 ==> s[0] == '='
    requires start == 0 ==> s[0] == pfx[0]
    requires g == [] || !IsPrefixChar(g[0])
    ensures MatchHere(s) == Some(MatchGroups(pfx, g))
  {
    assert start == 0 ==> s[0] != '=' by {
      if start == 0 { assert IsPrefixChar(pfx[0]); }
    }
    SpanOf(pfx, g, PrefixChars);
  }

  /** A match at the start of a string is what `Search` returns. */
  lemma SearchHere(s: string)
    requires MatchHere(s).Some?
    ensures Search(s) == MatchHere(s)
  {
  }
}
