/** The few Python string operations the reconstruction relies on, with their
    Python semantics: `str.startswith`, `str.split(sep)` with an explicit
    one-character separator, `str.replace("ms", "")`, and `int(str)` in base 10.
    Decimal rendering of naturals is included as the partner of `int()`. */
module Text {

  datatype Option<+T> = None | Some(value: T)

  /** `s.startswith(prefix)`. */
  predicate StartsWith(s: string, prefix: string): (b: bool)
    ensures b ==> |prefix| <= |s|
  {
    |prefix| <= |s| && s[..|prefix|] == prefix
  }

  /** `s` starts with `prefix` exactly when every character of `prefix` is the
      character of `s` at the same position. */
  lemma StartsWithPointwise(s: string, prefix: string)
    ensures StartsWith(s, prefix) <==> |prefix| <= |s| && forall k :: 0 <= k < |prefix| ==> s[k] == prefix[k]
  {
    if |prefix| <= |s| && forall k :: 0 <= k < |prefix| ==> s[k] == prefix[k] {
      assert s[..|prefix|] == prefix;
    }
  }

  /** A text starts with whatever it was built from. */
  lemma StartsWithConcat(prefix: string, rest: string)
    ensures StartsWith(prefix + rest, prefix)
  {
    assert (prefix + rest)[..|prefix|] == prefix;
  }

  /** Number of occurrences of `x` in `s`. */
  function Count<T(==)>(s: seq<T>, x: T): nat {
    if |s| == 0 then 0 else (if s[0] == x then 1 else 0) + Count(s[1..], x)
  }

  /** An absent element occurs zero times. */
  lemma {:induction false} CountAbsent<T>(s: seq<T>, x: T)
    requires x !in s
    ensures Count(s, x) == 0
  {
    if |s| > 0 {
      assert x !in s[1..];
      CountAbsent(s[1..], x);
    }
  }

  /** `sep.join(fields)`, the inverse of `Split`. */
  function Join(fields: seq<string>, sep: char): string
    requires |fields| > 0
  {
    if |fields| == 1 then fields[0] else fields[0] + [sep] + Join(fields[1..], sep)
  }

  /** `s.split(sep)`: every occurrence of `sep` ends a field, so there is
      always one field more than there are separators, and empty fields are kept. */
  function Split(s: string, sep: char): (fields: seq<string>)
    ensures |fields| == Count(s, sep) + 1
    ensures forall i :: 0 <= i < |fields| ==> sep !in fields[i]
  {
    if |s| == 0 then [""]
    else
      var rest := Split(s[1..], sep);
      if s[0] == sep then [""] + rest
      else [[s[0]] + rest[0]] + rest[1..]
  }

  /** Joining the fields of a split gives back the string. */
  lemma {:induction false} SplitThenJoin(s: string, sep: char)
    ensures Join(Split(s, sep), sep) == s
  {
    if |s| > 0 {
      var rest := Split(s[1..], sep);
      SplitThenJoin(s[1..], sep);
      if s[0] != sep && |rest| > 1 {
        assert Join(rest, sep) == rest[0] + [sep] + Join(rest[1..], sep);
        assert [s[0]] + rest[0] + [sep] + Join(rest[1..], sep) == [s[0]] + Join(rest, sep);
      }
      assert s == [s[0]] + s[1..];
    }
  }

  /** Splitting a string whose first field is `a` yields `a` glued to the
      first field of the remainder. */
  lemma {:induction false} SplitPrefix(a: string, t: string, sep: char)
    requires sep !in a
    ensures Split(a + t, sep) == [a + Split(t, sep)[0]] + Split(t, sep)[1..]
  {
    var rest := Split(t, sep);
    if |a| == 0 {
      assert a + t == t;
      assert a + rest[0] == rest[0];
      assert rest == [rest[0]] + rest[1..];
    } else {
      SplitPrefix(a[1..], t, sep);
      assert (a + t)[0] == a[0] && a[0] != sep;
      assert (a + t)[1..] == a[1..] + t;
      assert [a[0]] + (a[1..] + Split(t, sep)[0]) == a + Split(t, sep)[0];
    }
  }

  /** A field followed by the separator is split off as one field. */
  lemma SplitField(a: string, b: string, sep: char)
    requires sep !in a
    ensures Split(a + [sep] + b, sep) == [a] + Split(b, sep)
  {
    SplitPrefix(a, [sep] + b, sep);
    assert a + [sep] + b == a + ([sep] + b);
    assert ([sep] + b)[0] == sep && ([sep] + b)[1..] == b;
    assert Split([sep] + b, sep) == [""] + Split(b, sep);
    assert a + "" == a;
  }

  /** Three leading separator-free fields come off one after another. */
  lemma SplitThreeFields(a: string, b: string, c: string, rest: string, sep: char)
    requires sep !in a && sep !in b && sep !in c
    ensures Split(a + [sep] + (b + [sep] + (c + [sep] + rest)), sep) == [a, b, c] + Split(rest, sep)
  {
    SplitField(c, rest, sep);
    SplitField(b, c + [sep] + rest, sep);
    SplitField(a, b + [sep] + (c + [sep] + rest), sep);
  }

  /** Splitting joined separator-free fields gives back the fields. */
  lemma {:induction false} JoinThenSplit(fields: seq<string>, sep: char)
    requires |fields| > 0
    requires forall i :: 0 <= i < |fields| ==> sep !in fields[i]
    ensures Split(Join(fields, sep), sep) == fields
  {
    if |fields| == 1 {
      SplitPrefix(fields[0], "", sep);
      assert fields[0] + "" == fields[0];
    } else {
      JoinThenSplit(fields[1..], sep);
      SplitField(fields[0], Join(fields[1..], sep), sep);
      assert fields == [fields[0]] + fields[1..];
    }
  }

  /** The literal that the latency field carries as a unit suffix. */
  const Ms: string := "ms"

  /** Number of positions of `s` where "ms" starts. Two occurrences of "ms"
      can never overlap, since its last letter is not its first. */
  function MsPositions(s: string): nat {
    if |s| < 2 then 0
    else (if s[0] == 'm' && s[1] == 's' then 1 else 0) + MsPositions(s[1..])
  }

  /** `s.replace("ms", "")`: scans left to right and deletes every
      non-overlapping occurrence of "ms". Since occurrences never overlap,
      every one of them is deleted: exactly two characters per position
      where "ms" starts. */
  function RemoveMs(s: string): (r: string)
    ensures |r| == |s| - 2 * MsPositions(s)
    ensures 'm' !in s ==> r == s
  {
    if |s| == 0 then ""
    else if StartsWith(s, Ms) then
      assert s[0] == Ms[0] && s[1] == Ms[1];
      assert MsPositions(s) == 1 + MsPositions(s[2..]) by {
        assert s[1..][1..] == s[2..];
      }
      RemoveMs(s[2..])
    else
      assert MsPositions(s) == MsPositions(s[1..]) by {
        if |s| >= 2 {
          assert s[..2] == [s[0], s[1]];
        }
      }
      [s[0]] + RemoveMs(s[1..])
  }

  /** The unit is deleted: "ms" after a prefix without 'm' disappears, and
      the rest is processed in turn. */
  lemma RemoveMsDeletesUnit(a: string, b: string)
    requires 'm' !in a
    ensures RemoveMs(a + Ms + b) == a + RemoveMs(b)
  {
    RemoveMsKeepsPrefix(a, Ms + b);
    assert a + Ms + b == a + (Ms + b);
    assert (Ms + b)[2..] == b;
    assert StartsWith(Ms + b, Ms);
  }

  /** The deletion is a single pass: letters that come together only once
      an inner "ms" is gone are not deleted again. */
  lemma RemoveMsSinglePass()
    ensures RemoveMs("mmss") == "ms"
  {
    assert !StartsWith("mmss", Ms);
    assert "mmss"[1..] == "mss" && StartsWith("mss", Ms) && "mss"[2..] == "s";
    assert !StartsWith("s", Ms) && "s"[1..] == "";
  }

  /** A prefix without any 'm' is kept verbatim. */
  lemma {:induction false} RemoveMsKeepsPrefix(a: string, b: string)
    requires 'm' !in a
    ensures RemoveMs(a + b) == a + RemoveMs(b)
  {
    if |a| > 0 {
      var s := a + b;
      assert s[0] == a[0] != Ms[0];
      assert s[1..] == a[1..] + b;
      RemoveMsKeepsPrefix(a[1..], b);
      assert RemoveMs(s) == [s[0]] + RemoveMs(s[1..]);
      assert a == [a[0]] + a[1..];
    } else {
      assert a + b == b;
    }
  }

  /** Deleting "ms" introduces no character the input lacks. */
  lemma {:induction false} RemoveMsChars(s: string)
    ensures forall k :: 0 <= k < |RemoveMs(s)| ==> RemoveMs(s)[k] in s
  {
    if |s| > 0 {
      RemoveMsChars(s[1..]);
      if StartsWith(s, Ms) {
        RemoveMsChars(s[2..]);
        assert forall c :: c in s[2..] ==> c in s;
      } else {
        assert forall c :: c in s[1..] ==> c in s;
      }
    }
  }

  /** The characters Python's `int()` skips around its argument: the ASCII
      white space `\t \n \v \f \r` and space, and the non-ASCII white space
      it first turns into a space. The ASCII separators U+001C to U+001F,
      which `str.strip()` would drop, are not skipped. */
  predicate IsSpace(c: char) {
    || ('\t' <= c <= '\r')
    || c == ' ' || c == '\U{85}' || c == '\U{A0}' || c == '\U{1680}'
    || ('\U{2000}' <= c <= '\U{200A}')
    || c == '\U{2028}' || c == '\U{2029}' || c == '\U{202F}' || c == '\U{205F}' || c == '\U{3000}'
  }

  /** `t` is white space only. */
  predicate AllSpace(t: string) {
    forall k :: 0 <= k < |t| ==> IsSpace(t[k])
  }

  /** Everything of `s` before `i` and from `j` on is white space. */
  predicate SpaceOutside(s: string, i: int, j: int) {
    0 <= i <= j <= |s| && AllSpace(s[..i]) && AllSpace(s[j..])
  }

  /** `t` neither starts nor ends with white space. */
  predicate Trimmed(t: string) {
    |t| == 0 || (!IsSpace(t[0]) && !IsSpace(t[|t| - 1]))
  }

  /** The trimming `int()` applies to its argument: drops leading and
      trailing white space in the sense of `IsSpace`. The result is a
      slice of `s` with only white space around it, and it neither starts
      nor ends with white space: the outer white space, and only it, is gone. */
  function Strip(s: string): (r: string)
    ensures exists i, j :: SpaceOutside(s, i, j) && r == s[i..j]
    ensures Trimmed(r)
  {
    if |s| == 0 then
      SpaceOutsideWhole(s);
      s
    else if IsSpace(s[0]) then
      var r := Strip(s[1..]);
      assert exists i, j :: SpaceOutside(s, i, j) && r == s[i..j] by {
        var i, j :| SpaceOutside(s[1..], i, j) && r == s[1..][i..j];
        SpaceOutsideFront(s, i, j);
      }
      r
    else if IsSpace(s[|s| - 1]) then
      var r := Strip(s[..|s| - 1]);
      assert exists i, j :: SpaceOutside(s, i, j) && r == s[i..j] by {
        var i, j :| SpaceOutside(s[..|s| - 1], i, j) && r == s[..|s| - 1][i..j];
        SpaceOutsideBack(s, i, j);
      }
      r
    else
      SpaceOutsideWhole(s);
      s
  }

  /** Nothing lies outside the whole of `s`. */
  lemma SpaceOutsideWhole(s: string)
    ensures SpaceOutside(s, 0, |s|) && s[0..|s|] == s
  {
    assert s[..0] == [] && s[|s|..] == [];
  }

  /** One more white space character in front. */
  lemma SpaceOutsideFront(s: string, i: int, j: int)
    requires |s| > 0 && IsSpace(s[0]) && SpaceOutside(s[1..], i, j)
    ensures SpaceOutside(s, i + 1, j + 1) && s[1..][i..j] == s[i + 1..j + 1]
  {
    assert s[..i + 1] == [s[0]] + s[1..][..i];
    assert s[j + 1..] == s[1..][j..];
  }

  /** One more white space character at the back. */
  lemma SpaceOutsideBack(s: string, i: int, j: int)
    requires |s| > 0 && IsSpace(s[|s| - 1]) && SpaceOutside(s[..|s| - 1], i, j)
    ensures SpaceOutside(s, i, j) && s[..|s| - 1][i..j] == s[i..j]
  {
    assert s[..i] == s[..|s| - 1][..i];
    assert s[j..] == s[..|s| - 1][j..] + [s[|s| - 1]];
  }

  predicate IsDigit(c: char) {
    '0' <= c <= '9'
  }

  /** The body of a base-10 integer literal as `int()` accepts it: ASCII
      digits, where single underscores may separate two digits. */
  predicate IsDigitGroup(s: string) {
    && |s| > 0
    && IsDigit(s[0])
    && IsDigit(s[|s| - 1])
    && forall i :: 0 <= i < |s| ==> IsDigit(s[i]) || (s[i] == '_' && i + 1 < |s| && IsDigit(s[i + 1]))
  }

  /** The value of a digit group, underscores ignored. */
  function DigitsValue(s: string): nat {
    if |s| == 0 then 0
    else if IsDigit(s[|s| - 1]) then DigitsValue(s[..|s| - 1]) * 10 + (s[|s| - 1] as int - '0' as int)
    else DigitsValue(s[..|s| - 1])
  }

  /** `t` is a base-10 literal of value `v`: a digit group, optionally
      after a sign. */
  predicate SignedLiteral(t: string, v: int) {
    || (IsDigitGroup(t) && v == DigitsValue(t))
    || (|t| > 0 && t[0] == '+' && IsDigitGroup(t[1..]) && v == DigitsValue(t[1..]))
    || (|t| > 0 && t[0] == '-' && IsDigitGroup(t[1..]) && v == -(DigitsValue(t[1..]) as int))
  }

  /** An already stripped literal: an optional sign and a digit group. */
  function ParseLiteral(t: string): (r: Option<int>)
    ensures r.Some? ==> SignedLiteral(t, r.value)
    ensures r.Some? ==> |t| > 0 && IsDigit(t[|t| - 1])
  {
    if |t| > 0 && (t[0] == '-' || t[0] == '+') then
      if IsDigitGroup(t[1..]) then
        var v: int := DigitsValue(t[1..]);
        Some(if t[0] == '-' then -v else v)
      else None
    else if IsDigitGroup(t) then Some(DigitsValue(t))
    else None
  }

  /** `int(s)` in base 10: white space around an optional sign and a digit
      group; anything else is rejected (`None`, where Python raises). A
      success is the value of the stripped literal (`ParseIntSound` places
      it in `s`); `ParseIntAccepts` gives the converse. */
  function ParseInt(s: string): (r: Option<int>)
    ensures (forall k :: 0 <= k < |s| ==> !IsDigit(s[k])) ==> r.None?
    ensures r.Some? ==> SignedLiteral(Strip(s), r.value)
  {
    var t := Strip(s);
    var r := ParseLiteral(t);
    assert r.Some? ==> exists k :: 0 <= k < |s| && IsDigit(s[k]) by {
      if r.Some? {
        var i, j :| SpaceOutside(s, i, j) && t == s[i..j];
        assert IsDigit(s[j - 1]);
      }
    }
    r
  }

  function DigitChar(d: nat): (c: char)
    requires d < 10
    ensures IsDigit(c) && c as int - '0' as int == d
  {
    (d + '0' as int) as char
  }

  /** Decimal rendering of a natural, without leading zeros (`str(n)`). */
  function NatToString(n: nat): (s: string)
    ensures |s| > 0
    ensures forall k :: 0 <= k < |s| ==> IsDigit(s[k])
    ensures s[0] == '0' ==> n == 0
  {
    if n < 10 then [DigitChar(n)] else NatToString(n / 10) + [DigitChar(n % 10)]
  }

  /** Decimal rendering of an integer (`str(n)`). */
  function IntToString(n: int): (s: string)
    ensures |s| > 0
    ensures n >= 0 <==> IsDigit(s[0])
    ensures forall k :: 0 <= k < |s| ==> IsDigit(s[k]) || (k == 0 && s[k] == '-')
  {
    if n < 0 then "-" + NatToString(-n) else NatToString(n)
  }

  /** Reading back a rendered natural gives the natural. */
  lemma {:induction false} NatToStringValue(n: nat)
    ensures IsDigitGroup(NatToString(n))
    ensures DigitsValue(NatToString(n)) == n
  {
    var s := NatToString(n);
    if n >= 10 {
      NatToStringValue(n / 10);
      assert s[..|s| - 1] == NatToString(n / 10);
    }
  }

  lemma StripNoSpace(s: string)
    requires |s| > 0 && !IsSpace(s[0]) && !IsSpace(s[|s| - 1])
    ensures Strip(s) == s
  {
  }

  /** A signed literal neither starts nor ends with white space. */
  lemma SignedLiteralEnds(t: string, v: int)
    requires SignedLiteral(t, v)
    ensures |t| > 0 && !IsSpace(t[0]) && !IsSpace(t[|t| - 1])
  {
    if !IsDigitGroup(t) {
      assert t[|t| - 1] == t[1..][|t| - 2];
    }
  }

  /** Every signed literal is read as its value. */
  lemma ParseLiteralOf(t: string, v: int)
    requires SignedLiteral(t, v)
    ensures ParseLiteral(t) == Some(v)
  {
    if IsDigitGroup(t) {
      assert t[0] != '-' && t[0] != '+';
    }
  }

  /** A bare digit group parses to its value. */
  lemma ParseDigitGroup(d: string)
    requires IsDigitGroup(d)
    ensures ParseInt(d) == Some(DigitsValue(d))
  {
    StripNoSpace(d);
    ParseLiteralOf(d, DigitsValue(d));
  }

  /** A minus sign followed by a digit group parses to the negated value. */
  lemma ParseNegatedDigitGroup(d: string)
    requires IsDigitGroup(d)
    ensures ParseInt("-" + d) == Some(-(DigitsValue(d) as int))
  {
    var s := "-" + d;
    assert s[0] == '-' && s[|s| - 1] == d[|d| - 1];
    StripNoSpace(s);
    assert s[1..] == d;
    ParseLiteralOf(s, -(DigitsValue(d) as int));
  }

  /** Leading white space is dropped one character at a time. */
  lemma StripDropFront(s: string)
    requires |s| > 0 && IsSpace(s[0])
    ensures Strip(s) == Strip(s[1..])
  {
  }

  /** Trailing white space after a nonblank start is dropped one character
      at a time. */
  lemma StripDropBack(s: string)
    requires |s| > 0 && !IsSpace(s[0]) && IsSpace(s[|s| - 1])
    ensures Strip(s) == Strip(s[..|s| - 1])
  {
  }

  /** White space is stripped from around a nonblank core. */
  lemma {:induction false} StripAround(lead: string, core: string, trail: string)
    requires AllSpace(lead) && AllSpace(trail)
    requires |core| > 0 && !IsSpace(core[0]) && !IsSpace(core[|core| - 1])
    ensures Strip(lead + core + trail) == core
    decreases |lead| + |trail|
  {
    var s := lead + core + trail;
    if |lead| > 0 {
      assert s[0] == lead[0];
      assert s[1..] == lead[1..] + core + trail;
      assert AllSpace(lead[1..]);
      StripDropFront(s);
      StripAround(lead[1..], core, trail);
    } else if |trail| > 0 {
      assert s[0] == core[0];
      assert s[|s| - 1] == trail[|trail| - 1];
      assert s[..|s| - 1] == lead + core + trail[..|trail| - 1];
      assert AllSpace(trail[..|trail| - 1]);
      StripDropBack(s);
      StripAround(lead, core, trail[..|trail| - 1]);
    } else {
      assert s == core;
      StripNoSpace(core);
    }
  }

  /** Whatever `int()` accepts is white space, a signed literal of the
      parsed value, and white space. */
  lemma ParseIntSound(s: string)
    requires ParseInt(s).Some?
    ensures exists i, j :: SpaceOutside(s, i, j) && SignedLiteral(s[i..j], ParseInt(s).value)
  {
    var i, j :| SpaceOutside(s, i, j) && Strip(s) == s[i..j];
  }

  /** `int()` does not skip the ASCII information separators U+001C to
      U+001F, although `str.strip()` does: a digit group behind one is
      rejected. */
  lemma SeparatorNotSkipped(c: char, d: string)
    requires '\U{1C}' <= c <= '\U{1F}' && IsDigitGroup(d)
    ensures ParseInt([c] + d) == None
  {
    var s := [c] + d;
    StripNoSpace(s);
    assert s[0] == c && !IsDigit(s[0]);
  }

  /** Every literal `int()` accepts parses to its value: white space, an
      optional sign, a digit group, white space. */
  lemma ParseIntAccepts(lead: string, t: string, trail: string, v: int)
    requires AllSpace(lead) && AllSpace(trail)
    requires SignedLiteral(t, v)
    ensures ParseInt(lead + t + trail) == Some(v)
  {
    SignedLiteralEnds(t, v);
    StripAround(lead, t, trail);
    ParseLiteralOf(t, v);
  }

  /** `int(str(n)) == n` for every integer. */
  lemma IntToStringRoundTrip(n: int)
    ensures ParseInt(IntToString(n)) == Some(n)
  {
    if n < 0 {
      var m: nat := -n;
      var d := NatToString(m);
      assert IntToString(n) == "-" + d;
      NatToStringValue(m);
      ParseNegatedDigitGroup(d);
    } else {
      NatToStringValue(n);
      ParseDigitGroup(NatToString(n));
      assert IntToString(n) == NatToString(n);
    }
  }

  /** Distinct naturals render to distinct strings. */
  lemma NatToStringInjective(i: nat, j: nat)
    requires NatToString(i) == NatToString(j)
    ensures i == j
  {
    NatToStringValue(i);
    NatToStringValue(j);
  }
}
