/** Python's `int(str)` and `float(str)` as far as the importer needs them: which
    texts they accept (a refused text raises ValueError) and, for `int`, the value.
    Floating-point values are kept opaque: a `Float` is its sign and the literal
    text of its magnitude, and the only arithmetic modelled is `-1 * x`. */
module Numbers {
  import opened Wrappers
  import opened Strings

  function DigitValue(c: char): nat
    requires IsDigit(c)
  {
    c as int - '0' as int
  }

  function DigitChar(d: nat): (c: char)
    requires d < 10
    ensures IsDigit(c) && DigitValue(c) == d
  {
    ('0' as int + d) as char
  }

  /** The decimal value of the digits of `s`, read left to right; any other
      character (the `_` Python allows between digits) is skipped. */
  function DigitsValue(s: string): nat
  {
    if s == [] then 0
    else
      var v := DigitsValue(s[..|s| - 1]);
      if IsDigit(s[|s| - 1]) then 10 * v + DigitValue(s[|s| - 1]) else v
  }

  /** The decimal digits of `n`, without leading zeros. */
  function ShowNat(n: nat): (s: string)
    ensures s != [] && AllDigits(s)
    ensures DigitsValue(s) == n
    decreases n
  {
    if n < 10 then [DigitChar(n)]
    else
      var s := ShowNat(n / 10) + [DigitChar(n % 10)];
      assert s[..|s| - 1] == ShowNat(n / 10);
      s
  }

  /** `str(n)` for an int. */
  function ShowInt(n: int): string
  {
    if n < 0 then "-" + ShowNat(-n) else ShowNat(n)
  }

  /** `n` written with exactly `w` digits, zero-padded (`"%0*d"` for n < 10^w). */
  function Pad(n: nat, w: nat): (s: string)
    ensures |s| == w && AllDigits(s)
    decreases w
  {
    if w == 0 then "" else Pad(n / 10, w - 1) + [DigitChar(n % 10)]
  }

  /** Padding the value of a digit string to its own width gives the string back. */
  lemma {:induction false} PadDigitsValue(t: string)
    requires AllDigits(t)
    ensures Pad(DigitsValue(t), |t|) == t
    decreases |t|
  {
    if t != [] {
      var init := t[..|t| - 1];
      PadDigitsValue(init);
      var v := DigitsValue(t);
      assert v == 10 * DigitsValue(init) + DigitValue(t[|t| - 1]);
      assert v / 10 == DigitsValue(init) && v % 10 == DigitValue(t[|t| - 1]);
      assert DigitChar(v % 10) == t[|t| - 1];
      assert init + [t[|t| - 1]] == t;
    }
  }

  /** The rest of a Python digit group after its first digit: the longest prefix
      of `s` of the form `(_? digit)*`. */
  function DigitTail(s: string): (r: (string, string))
    ensures r.0 + r.1 == s
    ensures r.1 == [] || (!IsDigit(r.1[0]) && !(|r.1| >= 2 && r.1[0] == '_' && IsDigit(r.1[1])))
    decreases |s|
  {
    if |s| >= 1 && IsDigit(s[0]) then
      var t := DigitTail(s[1..]);
      Rejoin(s, 1, t.0, t.1);
      ([s[0]] + t.0, t.1)
    else if |s| >= 2 && s[0] == '_' && IsDigit(s[1]) then
      var t := DigitTail(s[2..]);
      Rejoin(s, 2, t.0, t.1);
      (s[..2] + t.0, t.1)
    else ("", s)
  }

  /** `digitpart ::= digit (["_"] digit)*`, the longest one at the start of `s`
      (empty when `s` does not start with a digit), and what follows it. */
  function DigitPart(s: string): (r: (string, string))
    ensures r.0 + r.1 == s
    ensures r.0 == "" <==> (s == [] || !IsDigit(s[0]))
    ensures r.0 != "" ==> r.1 == [] || (!IsDigit(r.1[0]) && !(|r.1| >= 2 && r.1[0] == '_' && IsDigit(r.1[1])))
  {
    if s != [] && IsDigit(s[0]) then
      var t := DigitTail(s[1..]);
      ([s[0]] + t.0, t.1)
    else ("", s)
  }

  lemma {:induction false} DigitTailOfDigits(t: string, rest: string)
    requires AllDigits(t)
    requires rest == [] || (!IsDigit(rest[0]) && rest[0] != '_')
    ensures DigitTail(t + rest) == (t, rest)
    decreases |t|
  {
    if t == [] {
      assert t + rest == rest;
    } else {
      assert (t + rest)[0] == t[0];
      assert (t + rest)[1..] == t[1..] + rest;
      DigitTailOfDigits(t[1..], rest);
      assert [t[0]] + t[1..] == t;
    }
  }

  /** A string that starts with a sign or a digit and ends with a digit has no
      surrounding whitespace. */
  lemma StripNumber(t: string)
    requires t != [] && (IsDigit(t[0]) || t[0] == '+' || t[0] == '-') && IsDigit(t[|t| - 1])
    ensures Strip(t, Space) == t
  {
    assert !In(t[0], Space) by { assert !IsSpace(t[0]); }
    assert !In(t[|t| - 1], Space) by { assert !IsSpace(t[|t| - 1]); }
  }

  lemma DigitPartOfDigits(t: string, rest: string)
    requires t != [] && AllDigits(t)
    requires rest == [] || (!IsDigit(rest[0]) && rest[0] != '_')
    ensures DigitPart(t + rest) == (t, rest)
  {
    assert (t + rest)[1..] == t[1..] + rest;
    DigitTailOfDigits(t[1..], rest);
    assert [t[0]] + t[1..] == t;
  }

  /** A digit group with one `_` inside is read as one group. */
  lemma DigitTailUnderscore(a: string, b: string, rest: string)
    requires AllDigits(a) && AllDigits(b) && b != []
    requires rest == [] || (!IsDigit(rest[0]) && rest[0] != '_')
    ensures DigitTail(a + "_" + b + rest) == (a + "_" + b, rest)
  {
    var w := "_" + b;
    assert w[1..] == b;
    DigitTailJoined(a, w, rest);
    Regroup(a, "_", b, rest);
    assert w + rest == "_" + b + rest;
  }

  /** `DigitTail` over digits, then `_` and digits, then a delimiter. */
  lemma {:induction false} DigitTailJoined(a: string, w: string, rest: string)
    requires AllDigits(a) && |w| >= 2 && w[0] == '_' && AllDigits(w[1..])
    requires rest == [] || (!IsDigit(rest[0]) && rest[0] != '_')
    ensures DigitTail(a + (w + rest)) == (a + w, rest)
    decreases |a|
  {
    var s := a + (w + rest);
    if a == [] {
      assert s == w + rest;
      assert IsDigit(w[1]) by { assert w[1] == w[1..][0]; }
      assert AllDigits(w[2..]) by { assert w[2..] == w[1..][1..]; }
      ConcatAt(w, rest, 2);
      assert s[..2] == w[..2];
      DigitTailOfDigits(w[2..], rest);
      assert DigitTail(s) == (s[..2] + w[2..], rest);
      assert w[..2] + w[2..] == w && a + w == w;
    } else {
      assert IsDigit(s[0]) by { assert s[0] == a[0]; }
      assert AllDigits(a[1..]) by { assert forall i :: 0 <= i < |a[1..]| ==> a[1..][i] == a[i + 1]; }
      ConcatAt(a, w + rest, 1);
      DigitTailJoined(a[1..], w, rest);
      assert DigitTail(s) == ([a[0]] + (a[1..] + w), rest);
      ConcatAt(a, w, 1);
      assert a[..1] == [a[0]];
    }
  }

  /** Splits an optional leading `+` or `-` off `t`: (is it negative, the rest). */
  function SplitSign(t: string): (r: (bool, string))
    ensures r.1 == t || (t != [] && (t[0] == '+' || t[0] == '-') && r.1 == t[1..] && r.0 == (t[0] == '-'))
    ensures r.1 == t ==> !r.0 && (t == [] || (t[0] != '+' && t[0] != '-'))
  {
    if t != [] && (t[0] == '+' || t[0] == '-') then (t[0] == '-', t[1..]) else (false, t)
  }

  /** `int(s)` in base 10: surrounding whitespace, an optional sign, then one
      digit group (single underscores allowed between digits). */
  function ParseInt(s: string): (r: Option<int>)
    ensures r.Some? ==> var t := Strip(s, Space); t != [] && (r.value < 0 ==> t[0] == '-')
  {
    var (neg, body) := SplitSign(Strip(s, Space));
    var (part, rest) := DigitPart(body);
    if part != "" && rest == "" then
      Some(if neg then -(DigitsValue(part) as int) else DigitsValue(part) as int)
    else None
  }

  /** `int` reads back what `str` writes. */
  lemma IntRoundTrip(n: int)
    ensures ParseInt(ShowInt(n)) == Some(n)
  {
    var s := ShowInt(n);
    var digits := ShowNat(if n < 0 then -n else n);
    assert s == (if n < 0 then "-" else "") + digits;
    StripNumber(s);
    if n < 0 {
      assert SplitSign(s).1 == digits by { assert s[1..] == digits; }
    }
    DigitPartOfDigits(digits, "");
    assert digits + "" == digits;
  }

  /** `int` of a plain run of ASCII digits is its decimal value. */
  lemma ParseDigits(t: string)
    requires t != [] && AllDigits(t)
    ensures ParseInt(t) == Some(DigitsValue(t) as int)
  {
    StripNumber(t);
    DigitPartOfDigits(t, "");
    assert t + "" == t;
  }

  /** An opaque float: its sign and the literal text of its magnitude. */
  datatype Float = Float(negative: bool, magnitude: string)

  /** `-1 * x`. */
  function Neg(x: Float): (r: Float)
    ensures r.negative != x.negative && r.magnitude == x.magnitude
  {
    x.(negative := !x.negative)
  }

  function Lower(s: string): (r: string)
    ensures |r| == |s|
  {
    if s == [] then ""
    else [if 'A' <= s[0] <= 'Z' then (s[0] as int + 32) as char else s[0]] + Lower(s[1..])
  }

  /** `inf`, `infinity` and `nan`, in any letter case. */
  predicate IsSpecialFloat(body: string)
  {
    var l := Lower(body);
    l == "inf" || l == "infinity" || l == "nan"
  }

  /** `exponent ::= ("e" | "E") ["+" | "-"] digitpart`, or nothing at all. */
  predicate IsExponentOrEmpty(r: string)
  {
    r == [] ||
    (r[0] in "eE" &&
     var exp := DigitPart(SplitSign(r[1..]).1);
     exp.0 != "" && exp.1 == [])
  }

  /** `digitpart "." [digitpart] | "." digitpart | digitpart`, then an optional exponent. */
  predicate IsDecimal(body: string)
  {
    var (ip, r1) := DigitPart(body);
    var hasDot := r1 != [] && r1[0] == '.';
    var (fp, r2) := if hasDot then DigitPart(r1[1..]) else ("", r1);
    (ip != "" || fp != "") && IsExponentOrEmpty(r2)
  }

  /** `float(s)`: surrounding whitespace, an optional sign, then a decimal
      literal or one of the special names. */
  function ParseFloat(s: string): (r: Option<Float>)
    ensures r.Some? ==> r.value.magnitude != []
    ensures r.Some? ==> var t := Strip(s, Space); t != [] && r.value.negative == (t[0] == '-')
  {
    var (neg, body) := SplitSign(Strip(s, Space));
    if IsSpecialFloat(body) || IsDecimal(body) then Some(Float(neg, body)) else None
  }

  /** `\d+(\.\d+)?`. */
  predicate IsUnsignedNumber(body: string)
  {
    var k := DigitRun(body);
    k > 0 && (k == |body| || (body[k] == '.' && k + 1 < |body| && AllDigits(body[k + 1..])))
  }

  /** `\d+(?:.\d+)?` with the `.` unescaped: some digits, optionally followed by
      one character other than a newline and more digits. */
  predicate IsUnsignedWild(body: string)
  {
    var k := DigitRun(body);
    k > 0 && (k == |body| || (body[k] != '\n' && k + 1 < |body| && AllDigits(body[k + 1..])))
  }

  /** The number shape of the override grammar, `[+-]?\d+(\.\d+)?`. */
  predicate IsNumberText(t: string) { IsUnsignedNumber(SplitSign(t).1) }

  /** The number shape of the grammar's `long` group, `[+-]?\d+(?:.\d+)?`. */
  predicate IsWildNumberText(t: string) { IsUnsignedWild(SplitSign(t).1) }

  /** The separator of a wildcard number, if any, is one Python's float literal
      allows there: a point, an exponent letter or an underscore. */
  predicate WildSeparatorOk(t: string)
  {
    var body := SplitSign(t).1;
    var k := DigitRun(body);
    k == |body| || body[k] in "._eE"
  }

  lemma NotSpecial(body: string)
    requires body != [] && IsDigit(body[0])
    ensures !IsSpecialFloat(body)
  {
    var l := Lower(body);
    assert l[0] == body[0];
  }

  /** For a text that is an optional sign and then something starting and ending
      with a digit, `float` accepts it exactly when that something is a decimal literal. */
  lemma FloatOfSignedDigits(t: string)
    requires var body := SplitSign(t).1; body != [] && IsDigit(body[0]) && IsDigit(body[|body| - 1])
    ensures ParseFloat(t).Some? <==> IsDecimal(SplitSign(t).1)
    ensures ParseFloat(t).Some? ==> ParseFloat(t).value == Float(SplitSign(t).0, SplitSign(t).1)
  {
    var body := SplitSign(t).1;
    assert t[|t| - 1] == body[|body| - 1];
    StripNumber(t);
    NotSpecial(body);
  }

  lemma DecimalDigits(body: string)
    requires body != [] && AllDigits(body)
    ensures IsDecimal(body)
  {
    DigitPartOfDigits(body, "");
    assert body + "" == body;
  }

  /** Two digit runs around one non-digit form a decimal literal exactly when the
      separator is a point, an exponent letter or an underscore. */
  lemma DecimalWithSeparator(a: string, c: char, b: string)
    requires a != [] && AllDigits(a) && b != [] && AllDigits(b) && !IsDigit(c)
    ensures IsDecimal(a + [c] + b) <==> c in "._eE"
  {
    var body := a + [c] + b;
    if c == '_' {
      assert body[1..] == a[1..] + "_" + b + "";
      DigitTailUnderscore(a[1..], b, "");
      assert [a[0]] + (a[1..] + "_" + b) == body;
      assert DigitPart(body) == (body, "");
    } else {
      DigitPartOfDigits(a, [c] + b);
      assert a + ([c] + b) == body;
      assert ([c] + b)[1..] == b;
      if c == '.' {
        DigitPartOfDigits(b, "");
        assert b + "" == b;
      } else if c == 'e' || c == 'E' {
        assert SplitSign(b).1 == b;
        DigitPartOfDigits(b, "");
        assert b + "" == b;
      } else {
        assert !IsExponentOrEmpty([c] + b);
      }
    }
  }

  /** Every text of the grammar's number shape is accepted by `float`, which keeps
      its sign and its digits. */
  lemma NumberTextParses(t: string)
    requires IsNumberText(t)
    ensures ParseFloat(t) == Some(Float(SplitSign(t).0, SplitSign(t).1))
  {
    var body := SplitSign(t).1;
    var k := DigitRun(body);
    if k == |body| {
      assert body[..k] == body;
      DecimalDigits(body);
    } else {
      assert body == body[..k] + [body[k]] + body[k + 1..];
      DecimalWithSeparator(body[..k], body[k], body[k + 1..]);
    }
    FloatOfSignedDigits(t);
  }

  /** `float` accepts a wildcard number exactly when its separator, if any, is a
      point, an exponent letter or an underscore. */
  lemma WildNumberParses(t: string)
    requires IsWildNumberText(t)
    ensures ParseFloat(t).Some? <==> WildSeparatorOk(t)
    ensures ParseFloat(t).Some? ==> ParseFloat(t).value == Float(SplitSign(t).0, SplitSign(t).1)
  {
    var body := SplitSign(t).1;
    var k := DigitRun(body);
    if k == |body| {
      assert body[..k] == body;
      DecimalDigits(body);
    } else {
      assert body == body[..k] + [body[k]] + body[k + 1..];
      DecimalWithSeparator(body[..k], body[k], body[k + 1..]);
    }
    FloatOfSignedDigits(t);
  }

  // What `int` and `float` refuse.

  /** Digits and underscores, each `_` followed by a digit: `(_?digit)*`. */
  predicate IsGroupTail(t: string)
  {
    (forall i :: 0 <= i < |t| ==> IsDigit(t[i]) || t[i] == '_') &&
    (forall i :: 0 <= i < |t| - 1 ==> t[i] == '_' ==> IsDigit(t[i + 1])) &&
    (t == [] || IsDigit(t[|t| - 1]))
  }

  /** Python's `digitpart` as a whole text: a digit first, then only digits and
      underscores, no `_` doubled or last. */
  predicate IsDigitGroup(b: string) { b != [] && IsDigit(b[0]) && IsGroupTail(b) }

  /** Dropping the first `d` characters keeps the shape, and undoes it when
      those were a digit, or a `_` and a digit. */
  lemma GroupTailDrop(t: string, d: nat)
    requires (d == 1 && |t| >= 1 && IsDigit(t[0])) || (d == 2 && |t| >= 2 && t[0] == '_' && IsDigit(t[1]))
    ensures IsGroupTail(t) <==> IsGroupTail(t[d..])
  {
    var u := t[d..];
    assert forall i :: 0 <= i < |u| ==> u[i] == t[i + d];
    if IsGroupTail(u) {
      forall i | 0 <= i < |t| ensures IsDigit(t[i]) || t[i] == '_' {
        if i >= d { assert t[i] == u[i - d]; }
      }
      forall i | 0 <= i < |t| - 1 && t[i] == '_' ensures IsDigit(t[i + 1]) {
        if i >= d { assert t[i] == u[i - d] && t[i + 1] == u[i - d + 1]; }
      }
      if u == [] { assert |t| == d; }
    }
    if IsGroupTail(t) {
      forall i | 0 <= i < |u| - 1 && u[i] == '_' ensures IsDigit(u[i + 1]) {
        assert t[i + d] == '_' && t[i + d + 1] == u[i + 1];
      }
    }
  }

  /** `DigitTail` consumes all of `t` exactly when `t` has the digit-group shape. */
  lemma {:induction false} DigitTailWhole(t: string)
    ensures DigitTail(t).1 == [] <==> IsGroupTail(t)
    decreases |t|
  {
    if |t| >= 1 && IsDigit(t[0]) {
      DigitTailWhole(t[1..]);
      GroupTailDrop(t, 1);
    } else if |t| >= 2 && t[0] == '_' && IsDigit(t[1]) {
      DigitTailWhole(t[2..]);
      GroupTailDrop(t, 2);
    } else if t != [] {
      assert DigitTail(t) == ("", t);
      if |t| >= 2 && t[0] == '_' { assert !IsDigit(t[0 + 1]); }
    }
  }

  /** `DigitPart` reads a whole text exactly when it is a digit group. */
  lemma DigitPartWhole(b: string)
    ensures (DigitPart(b).0 != "" && DigitPart(b).1 == "") <==> IsDigitGroup(b)
  {
    if b != [] && IsDigit(b[0]) {
      DigitTailWhole(b[1..]);
      GroupTailDrop(b, 1);
    }
  }

  /** `int` accepts a text exactly when, with surrounding whitespace and one
      sign removed, what is left is a digit group: no other character, no
      leading, trailing or doubled `_`, no empty number. */
  lemma ParseIntAccepts(s: string)
    ensures ParseInt(s).Some? <==> IsDigitGroup(SplitSign(Strip(s, Space)).1)
  {
    DigitPartWhole(SplitSign(Strip(s, Space)).1);
  }

  /** Every character of `s` is whitespace, a sign, or a character of the text
      `int` and `float` read after stripping and splitting off the sign. */
  lemma BodyChars(s: string)
    ensures forall k :: 0 <= k < |s| ==> IsSpace(s[k]) || s[k] == '+' || s[k] == '-' || s[k] in SplitSign(Strip(s, Space)).1
  {
    var l, t := LStrip(s, Space), Strip(s, Space);
    StripCuts(s, Space);
    var i := |s| - |l|;
    var rest := s[i + |t|..];
    var b := SplitSign(t).1;
    assert s == s[..i] + t + rest;
    forall k | 0 <= k < |s| ensures IsSpace(s[k]) || s[k] == '+' || s[k] == '-' || s[k] in b {
      if k < i {
        assert s[..i][k] == s[k];
        assert In(s[..i][k], Space);
      } else if k < i + |t| {
        assert s[k] == t[k - i];
        if b == t {
          assert b[k - i] == s[k];
        } else if k > i {
          assert b[k - i - 1] == s[k];
        }
      } else {
        assert rest[k - i - |t|] == s[k];
        assert In(rest[k - i - |t|], Space);
      }
    }
  }

  /** A letter anywhere in the text makes `int` refuse it. */
  lemma ParseIntLetter(s: string, k: nat)
    requires k < |s| && IsAlpha(s[k])
    ensures ParseInt(s) == None
  {
    var b := SplitSign(Strip(s, Space)).1;
    BodyChars(s);
    var m :| 0 <= m < |b| && b[m] == s[k];
    assert !(IsDigit(b[m]) || b[m] == '_');
    ParseIntAccepts(s);
  }

  /** The characters a decimal literal is made of. */
  predicate IsFloatChar(c: char) { IsDigit(c) || c in "._eE+-" }

  predicate FloatChars(t: string) { forall i :: 0 <= i < |t| ==> IsFloatChar(t[i]) }

  predicate HasDigit(t: string) { exists i :: 0 <= i < |t| && IsDigit(t[i]) }

  predicate AllAlpha(t: string) { forall i :: 0 <= i < |t| ==> IsAlpha(t[i]) }

  /** What `float` can accept once whitespace and sign are gone: letters
      spelling a special value, or a text with a digit and only decimal characters. */
  predicate FloatShaped(b: string)
  {
    (IsSpecialFloat(b) && AllAlpha(b)) || (HasDigit(b) && FloatChars(b))
  }

  lemma FloatCharsConcat(a: string, b: string)
    requires FloatChars(a) && FloatChars(b)
    ensures FloatChars(a + b)
  {
    forall i | 0 <= i < |a + b| ensures IsFloatChar((a + b)[i]) {
      if i >= |a| { assert (a + b)[i] == b[i - |a|]; }
    }
  }

  lemma {:induction false} DigitTailChars(s: string)
    ensures FloatChars(DigitTail(s).0)
    decreases |s|
  {
    if |s| >= 1 && IsDigit(s[0]) {
      DigitTailChars(s[1..]);
      FloatCharsConcat([s[0]], DigitTail(s[1..]).0);
    } else if |s| >= 2 && s[0] == '_' && IsDigit(s[1]) {
      DigitTailChars(s[2..]);
      FloatCharsConcat(s[..2], DigitTail(s[2..]).0);
    }
  }

  lemma DigitPartChars(s: string)
    ensures FloatChars(DigitPart(s).0)
  {
    if s != [] && IsDigit(s[0]) {
      DigitTailChars(s[1..]);
      FloatCharsConcat([s[0]], DigitTail(s[1..]).0);
    }
  }

  lemma ExponentChars(r: string)
    requires IsExponentOrEmpty(r)
    ensures FloatChars(r)
  {
    if r != [] {
      var t := SplitSign(r[1..]).1;
      DigitPartChars(t);
      assert DigitPart(t).0 == t by { assert DigitPart(t).0 + [] == t; }
      assert FloatChars(r[1..]) by {
        if t != r[1..] { FloatCharsConcat(r[1..2], t); assert r[1..] == r[1..2] + t; }
      }
      FloatCharsConcat(r[..1], r[1..]);
      assert r == r[..1] + r[1..];
    }
  }

  /** A decimal literal has a digit and only decimal characters. */
  lemma DecimalChars(b: string)
    requires IsDecimal(b)
    ensures HasDigit(b) && FloatChars(b)
  {
    var (ip, r1) := DigitPart(b);
    DigitPartChars(b);
    var hasDot := r1 != [] && r1[0] == '.';
    if hasDot {
      var (fp, r2) := DigitPart(r1[1..]);
      DigitPartChars(r1[1..]);
      ExponentChars(r2);
      FloatCharsConcat(fp, r2);
      FloatCharsConcat(r1[..1], r1[1..]);
      assert r1 == r1[..1] + r1[1..];
      FloatCharsConcat(ip, r1);
      if ip == "" {
        assert b[1] == r1[1..][0];
      }
    } else {
      ExponentChars(r1);
      FloatCharsConcat(ip, r1);
    }
    assert IsDigit(b[0]) || IsDigit(b[1]);
  }

  /** Letter case folding keeps everything but capital letters. */
  lemma {:induction false} LowerAt(s: string, i: nat)
    requires i < |s|
    ensures Lower(s)[i] == if 'A' <= s[i] <= 'Z' then (s[i] as int + 32) as char else s[i]
    decreases |s|
  {
    if i > 0 { LowerAt(s[1..], i - 1); }
  }

  /** The special values are spelt with letters only. */
  lemma SpecialAlpha(b: string)
    requires IsSpecialFloat(b)
    ensures AllAlpha(b)
  {
    forall i | 0 <= i < |b| ensures IsAlpha(b[i]) {
      LowerAt(b, i);
      assert |Lower(b)| == |b|;
    }
  }

  /** What `float` accepts is a special value spelt in letters, or a text with
      a digit and only digits, `.`, `_`, exponent letters and signs. */
  lemma ParseFloatShape(s: string)
    ensures ParseFloat(s).Some? ==> FloatShaped(SplitSign(Strip(s, Space)).1)
  {
    var b := SplitSign(Strip(s, Space)).1;
    if IsSpecialFloat(b) {
      SpecialAlpha(b);
    } else if IsDecimal(b) {
      DecimalChars(b);
    }
  }

  /** A text with a digit and a letter other than an exponent letter has
      neither shape. */
  lemma NotFloatShaped(b: string, x: char, y: char)
    requires x in b && IsDigit(x) && y in b && IsAlpha(y) && y != 'e' && y != 'E'
    ensures !FloatShaped(b)
  {
    var m :| 0 <= m < |b| && b[m] == x;
    var n :| 0 <= n < |b| && b[n] == y;
    assert !IsAlpha(b[m]) && !IsFloatChar(b[n]);
  }

  /** A text with a digit and a letter other than an exponent letter is refused
      by `float`. */
  lemma ParseFloatLetter(s: string, j: nat, k: nat)
    requires j < |s| && IsDigit(s[j]) && k < |s| && IsAlpha(s[k]) && s[k] != 'e' && s[k] != 'E'
    ensures ParseFloat(s) == None
  {
    BodyChars(s);
    NotFloatShaped(SplitSign(Strip(s, Space)).1, s[j], s[k]);
    ParseFloatShape(s);
  }
}
