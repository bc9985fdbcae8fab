/** The parts of Python's `str` that the importer relies on: character classes,
    `strip`/`rstrip` with a class of characters, `split` on one separator, `startswith`
    and the line boundaries `readline` returns. */
module Strings {

  /** `str.isspace()`: the characters Python counts as whitespace (U+0009 to
      U+000D, U+001C to U+0020, U+0085, U+00A0, U+1680, U+2000 to U+200A,
      U+2028, U+2029, U+202F, U+205F and U+3000). These are also what `strip()`
      with no argument removes. */
  predicate IsSpace(c: char)
    ensures IsSpace(c) ==> !IsDigit(c) && c != ':' && c != ',' && c != ';'
  {
    '\t' <= c <= '\r' || '\U{001C}' <= c <= ' ' || c == '\U{0085}' || c == '\U{00A0}' ||
    c == '\U{1680}' || '\U{2000}' <= c <= '\U{200A}' || c == '\U{2028}' || c == '\U{2029}' ||
    c == '\U{202F}' || c == '\U{205F}' || c == '\U{3000}'
  }

  /** The characters a call of `strip`/`lstrip`/`rstrip` removes: whitespace
      (no argument), or one given character. The regular expression's classes
      (`\d`, `\w`, prefix characters) are `Grammar.Class`, not these. */
  datatype CharClass = Space | Only(c: char)

  predicate In(c: char, cs: CharClass)
  {
    match cs
    case Space => IsSpace(c)
    case Only(d) => c == d
  }

  /** `str.isalpha()`, restricted to ASCII letters; no letter is whitespace. */
  predicate IsAlpha(c: char)
    ensures IsAlpha(c) ==> !IsSpace(c)
  {
    'a' <= c <= 'z' || 'A' <= c <= 'Z'
  }

  /** The regular-expression class `\d`, restricted to ASCII digits. */
  predicate IsDigit(c: char) { '0' <= c <= '9' }

  /** The regular-expression class `\w`, restricted to ASCII. */
  predicate IsWordChar(c: char) { IsAlpha(c) || IsDigit(c) || c == '_' }

  predicate AllDigits(s: string) { forall i :: 0 <= i < |s| ==> IsDigit(s[i]) }

  /** Cutting a concatenation inside its first part. */
  lemma ConcatAt<T>(a: seq<T>, b: seq<T>, i: nat)
    requires i <= |a|
    ensures (a + b)[i..] == a[i..] + b
    ensures a + b == a[..i] + (a[i..] + b)
  {
  }

  /** Regrouping `a + b + c + d` to the right, after `a`. */
  lemma Regroup<T>(a: seq<T>, b: seq<T>, c: seq<T>, d: seq<T>)
    ensures a + b + c == a + (b + c)
    ensures a + b + c + d == a + ((b + c) + d)
  {
    assert a + b + c + d == a + (b + c) + d;
  }

  /** Putting `x` in front of a five-part concatenation. */
  lemma PrependFive<T>(x: seq<T>, a: seq<T>, b: seq<T>, c: seq<T>, d: seq<T>, e: seq<T>)
    ensures x + (a + b + c + d + e) == x + a + b + c + d + e
  {
  }

  /** Putting the first `n` elements back in front of a split of the rest. */
  lemma Rejoin<T>(s: seq<T>, n: nat, a: seq<T>, b: seq<T>)
    requires 1 <= n <= |s| && a + b == s[n..]
    ensures s[..n] + a + b == s
    ensures n == 1 ==> [s[0]] + a + b == s
  {
    assert s[..n] + a + b == s[..n] + (a + b);
  }

  /** The length of the run of digits at the start of `s`. */
  function DigitRun(s: string): (k: nat)
    ensures k <= |s| && AllDigits(s[..k]) && (k == |s| || !IsDigit(s[k]))
    decreases |s|
  {
    if s != [] && IsDigit(s[0]) then
      var k := 1 + DigitRun(s[1..]);
      assert s[..k] == [s[0]] + s[1..][..k - 1];
      k
    else 0
  }

  /** `DigitRun` is determined by where the digits stop. */
  lemma {:induction false} DigitRunOf(a: string, rest: string)
    requires AllDigits(a)
    requires rest == [] || !IsDigit(rest[0])
    ensures DigitRun(a + rest) == |a|
    decreases |a|
  {
    if a == [] {
      assert a + rest == rest;
    } else {
      assert (a + rest)[0] == a[0];
      assert (a + rest)[1..] == a[1..] + rest;
      DigitRunOf(a[1..], rest);
    }
  }

  /** `s.lstrip(cs)`: drops the longest prefix of characters of `cs`. */
  function LStrip(s: string, cs: CharClass): (r: string)
    ensures |r| <= |s| && r == s[|s| - |r|..]
    ensures r == [] || !In(r[0], cs)
    ensures forall i :: 0 <= i < |s| - |r| ==> In(s[i], cs)
    decreases |s|
  {
    if |s| > 0 && In(s[0], cs) then LStrip(s[1..], cs) else s
  }

  /** `s.rstrip(cs)`: drops the longest suffix of characters of `cs`. */
  function RStrip(s: string, cs: CharClass): (r: string)
    ensures |r| <= |s| && r == s[..|r|]
    ensures r == [] || !In(r[|r| - 1], cs)
    ensures forall i :: |r| <= i < |s| ==> In(s[i], cs)
    decreases |s|
  {
    if |s| > 0 && In(s[|s| - 1], cs) then RStrip(s[..|s| - 1], cs) else s
  }

  /** Every character of `t` is of the class `cs`. */
  predicate AllIn(t: string, cs: CharClass)
  {
    forall k :: 0 <= k < |t| ==> In(t[k], cs)
  }

  /** `r` sits in `s` between the run of the class that `lstrip` drops (`l`
      being what `lstrip` keeps) and another run of the class: `s` is the first
      run, then `r`, then the second run. */
  predicate Stripped(s: string, cs: CharClass, l: string, r: string)
  {
    |l| <= |s| && |s| - |l| + |r| <= |s| && s == s[..|s| - |l|] + r + s[|s| - |l| + |r|..] &&
    AllIn(s[..|s| - |l|], cs) && AllIn(s[|s| - |l| + |r|..], cs)
  }

  /** `t` is `s` less a trailing run of the class. */
  predicate RStripped(s: string, cs: CharClass, t: string)
  {
    |t| <= |s| && s == t + s[|t|..] && AllIn(s[|t|..], cs)
  }

  /** `rstrip` keeps `s` less the longest trailing run of the class. */
  lemma RStripShape(s: string, cs: CharClass, t: string)
    requires t == RStrip(s, cs)
    ensures RStripped(s, cs, t)
  {
    assert s == t + s[|t|..];
    forall k | 0 <= k < |s| - |t| ensures In(s[|t|..][k], cs) {
      assert s[|t|..][k] == s[|t| + k];
    }
  }

  /** `s.strip(cs)`: both ends. */
  function Strip(s: string, cs: CharClass): (r: string)
    ensures |r| <= |s|
    ensures r == [] || (!In(r[0], cs) && !In(r[|r| - 1], cs))
    ensures (s == [] || (!In(s[0], cs) && !In(s[|s| - 1], cs))) ==> r == s
  {
    RStrip(LStrip(s, cs), cs)
  }

  /** What `strip` keeps sits in `s` between two runs of the class, the first
      being the one `lstrip` drops. */
  lemma StripCuts(s: string, cs: CharClass)
    ensures Stripped(s, cs, LStrip(s, cs), Strip(s, cs))
  {
    StripShape(s, cs, LStrip(s, cs), Strip(s, cs));
  }

  /** Where `strip` cuts, from what `lstrip` and `rstrip` promise about `l` and `r`. */
  lemma StripShape(s: string, cs: CharClass, l: string, r: string)
    requires |l| <= |s| && l == s[|s| - |l|..] && forall k :: 0 <= k < |s| - |l| ==> In(s[k], cs)
    requires |r| <= |l| && r == l[..|r|] && forall k :: |r| <= k < |l| ==> In(l[k], cs)
    ensures Stripped(s, cs, l, r)
  {
    var i := |s| - |l|;
    StripPieces(s, i, l, r);
    forall k | 0 <= k < i ensures In(s[..i][k], cs) {
      assert s[..i][k] == s[k];
    }
    forall k | 0 <= k < |l| - |r| ensures In(l[|r|..][k], cs) {
      assert l[|r|..][k] == l[|r| + k];
    }
  }

  /** A prefix `r` of the suffix `l == s[i..]`, cut out of `s`. */
  lemma StripPieces<T>(s: seq<T>, i: nat, l: seq<T>, r: seq<T>)
    requires i <= |s| && l == s[i..] && |r| <= |l| && r == l[..|r|]
    ensures i + |r| <= |s| && s[i + |r|..] == l[|r|..] && s == s[..i] + r + s[i + |r|..]
  {
    assert s == s[..i] + l;
    assert l == r + l[|r|..];
  }

  /** `s.startswith(p)`: `s` is `p` followed by the rest of `s`. */
  predicate StartsWith(s: string, p: string)
    ensures StartsWith(s, p) <==> |p| <= |s| && s == p + s[|p|..]
  {
    |p| <= |s| && s[..|p|] == p
  }

  /** The inverse of `Split`: `sep.join(parts)`. */
  function Join(parts: seq<string>, sep: char): string
  {
    if |parts| == 0 then ""
    else if |parts| == 1 then parts[0]
    else parts[0] + [sep] + Join(parts[1..], sep)
  }

  /** `s.split(sep)` for a one-character separator: never empty, and the empty
      string gives `[""]`. */
  function Split(s: string, sep: char): (parts: seq<string>)
    ensures |parts| >= 1
    ensures forall i :: 0 <= i < |parts| ==> sep !in parts[i]
    ensures Join(parts, sep) == s
    decreases |s|
  {
    if s == [] then [""]
    else
      var rest := Split(s[1..], sep);
      if s[0] == sep then
        assert ([""] + rest)[1..] == rest;
        [""] + rest
      else
        var parts := [[s[0]] + rest[0]] + rest[1..];
        assert parts[1..] == rest[1..];
        assert |rest| > 1 ==> Join(rest, sep) == rest[0] + [sep] + Join(rest[1..], sep);
        parts
  }

  /** Splitting a join gives the parts back, as long as no part holds the separator. */
  lemma {:induction false} SplitJoin(parts: seq<string>, sep: char)
    requires |parts| >= 1
    requires forall i :: 0 <= i < |parts| ==> sep !in parts[i]
    ensures Split(Join(parts, sep), sep) == parts
    decreases |parts|, |parts[0]|
  {
    var p := parts[0];
    if |parts| == 1 {
      SplitNoSep(p, sep);
    } else if p == [] {
      var tail := Join(parts[1..], sep);
      assert Join(parts, sep) == [sep] + tail;
      SplitJoin(parts[1..], sep);
      assert ([sep] + tail)[1..] == tail;
      assert [""] + parts[1..] == parts;
    } else {
      var shorter := [p[1..]] + parts[1..];
      assert shorter[1..] == parts[1..];
      assert Join(parts, sep) == [p[0]] + Join(shorter, sep);
      SplitJoin(shorter, sep);
      assert ([p[0]] + Join(shorter, sep))[1..] == Join(shorter, sep);
      assert [p[0]] + p[1..] == p;
      assert [p] + parts[1..] == parts;
    }
  }

  lemma {:induction false} SplitNoSep(s: string, sep: char)
    requires sep !in s
    ensures Split(s, sep) == [s]
    decreases |s|
  {
    if s != [] {
      SplitNoSep(s[1..], sep);
      assert [s[0]] + s[1..] == s;
    }
  }

  /** Where the line that `readline` returns from position `pos` ends: just after
      the first newline at or after `pos`, or at the end of the text. */
  function LineEnd(text: string, pos: nat): (end: nat)
    requires pos <= |text|
    ensures pos <= end <= |text|
    ensures pos < |text| ==> pos < end
    ensures forall i :: pos <= i < end - 1 ==> text[i] != '\n'
    ensures end == |text| || text[end - 1] == '\n'
    decreases |text| - pos
  {
    if pos == |text| then pos
    else if text[pos] == '\n' then pos + 1
    else LineEnd(text, pos + 1)
  }
}
