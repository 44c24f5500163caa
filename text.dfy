/** The handful of Python string operations the three scripts rely on:
    `str.strip`, `str.split`, `str.join`, `str.isdigit`, `int`, `str`,
    `str.lower` and the `in` substring test, restricted to ASCII. */
module Text {
  import opened Options

  /** The ASCII characters Python's `str.strip()` removes: space, the
      controls from tab to carriage return, and the four separators from
      U+001C to U+001F. */
  predicate IsSpace(c: char) {
    c == ' ' || '\t' <= c <= '\r' || '\U{001C}' <= c <= '\U{001F}'
  }

  /** A string with no whitespace at either end. */
  predicate IsStripped(s: string) {
    s == [] || (!IsSpace(s[0]) && !IsSpace(s[|s| - 1]))
  }

  /** Removes leading whitespace: the result is a suffix that does not start
      with whitespace. */
  function TrimStart(s: string): (r: string)
    ensures |r| <= |s| && r == s[|s| - |r|..]
    ensures r == [] || !IsSpace(r[0])
  {
    if |s| > 0 && IsSpace(s[0]) then TrimStart(s[1..]) else s
  }

  /** Everything `TrimStart` cuts off is whitespace. */
  lemma {:induction false} TrimStartCut(s: string)
    ensures forall m :: 0 <= m < |s| - |TrimStart(s)| ==> IsSpace(s[m])
  {
    if |s| > 0 && IsSpace(s[0]) {
      var rest := s[1..];
      TrimStartCut(rest);
      assert TrimStart(s) == TrimStart(rest);
      forall m | 1 <= m < |s| - |TrimStart(s)| ensures IsSpace(s[m]) {
        assert s[m] == rest[m - 1];
      }
    }
  }

  /** Removes trailing whitespace: the result is a prefix that does not end
      with whitespace. */
  function TrimEnd(s: string): (r: string)
    ensures |r| <= |s| && r == s[..|r|]
    ensures r == [] || !IsSpace(r[|r| - 1])
  {
    if |s| > 0 && IsSpace(s[|s| - 1]) then TrimEnd(s[..|s| - 1]) else s
  }

  /** Everything `TrimEnd` cuts off is whitespace. */
  lemma {:induction false} TrimEndCut(s: string)
    ensures forall m :: |TrimEnd(s)| <= m < |s| ==> IsSpace(s[m])
  {
    if |s| > 0 && IsSpace(s[|s| - 1]) {
      var init := s[..|s| - 1];
      TrimEndCut(init);
      assert TrimEnd(s) == TrimEnd(init);
      forall m | |TrimEnd(s)| <= m < |s| - 1 ensures IsSpace(s[m]) {
        assert s[m] == init[m];
      }
    }
  }

  /** Python's `s.strip()`. */
  function Strip(s: string): (r: string)
    ensures IsStripped(r)
  {
    var t := TrimStart(s);
    var r := TrimEnd(t);
    assert r != [] ==> r[0] == t[0];
    r
  }

  /** A line strips down to nothing exactly when it is blank. */
  lemma StripBlank(s: string)
    ensures Strip(s) == [] <==> forall m :: 0 <= m < |s| ==> IsSpace(s[m])
  {
    var t := TrimStart(s);
    TrimStartCut(s);
    TrimEndCut(t);
    if Strip(s) == [] {
      assert |t| == 0;
    }
  }

  /** Stripping only cuts characters off the ends: the stripped string is
      the slice of the original after its leading whitespace. */
  lemma StripSlice(s: string)
    ensures |s| - |TrimStart(s)| + |Strip(s)| <= |s|
    ensures forall i :: 0 <= i < |Strip(s)| ==> Strip(s)[i] == s[|s| - |TrimStart(s)| + i]
  {
  }

  /** A character absent from a string is absent from its stripped form. */
  lemma StripKeepsOut(s: string, c: char)
    requires c !in s
    ensures c !in Strip(s)
  {
    StripSlice(s);
    forall i | 0 <= i < |Strip(s)| ensures Strip(s)[i] != c {
      assert s[|s| - |TrimStart(s)| + i] in s;
    }
  }

  /** Leading whitespace of `a + b` lies in `a` when `b` starts with a
      non-space. */
  lemma {:induction false} TrimStartAppend(a: string, b: string)
    requires b != [] && !IsSpace(b[0])
    ensures TrimStart(a + b) == TrimStart(a) + b
  {
    if a != [] {
      assert (a + b)[0] == a[0];
      if IsSpace(a[0]) {
        assert (a + b)[1..] == a[1..] + b;
        TrimStartAppend(a[1..], b);
      }
    } else {
      assert a + b == b;
    }
  }

  /** Trailing whitespace of `a + b` lies in `b` when `a` ends with a
      non-space. */
  lemma {:induction false} TrimEndPrepend(a: string, b: string)
    requires a != [] && !IsSpace(a[|a| - 1])
    ensures TrimEnd(a + b) == a + TrimEnd(b)
    decreases |b|
  {
    if b != [] {
      assert (a + b)[|a + b| - 1] == b[|b| - 1];
      if IsSpace(b[|b| - 1]) {
        assert (a + b)[..|a + b| - 1] == a + b[..|b| - 1];
        TrimEndPrepend(a, b[..|b| - 1]);
      }
    } else {
      assert a + b == a;
    }
  }

  /** Trimming the end of a string that starts with `c`: `c` stays unless
      everything after it is whitespace. */
  lemma {:induction false} TrimEndCons(c: char, w: string)
    ensures TrimEnd([c] + w) == if TrimEnd(w) == [] then TrimEnd([c]) else [c] + TrimEnd(w)
    decreases |w|
  {
    if w != [] {
      var v := [c] + w;
      assert v[|v| - 1] == w[|w| - 1];
      if IsSpace(w[|w| - 1]) {
        assert v[..|v| - 1] == [c] + w[..|w| - 1];
        TrimEndCons(c, w[..|w| - 1]);
      }
    } else {
      assert [c] + w == [c];
    }
  }

  /** Trimming the two ends is independent of the order. */
  lemma {:induction false} TrimCommute(v: string)
    ensures TrimStart(TrimEnd(v)) == TrimEnd(TrimStart(v))
    decreases |v|
  {
    if v != [] {
      var w := v[1..];
      assert v == [v[0]] + w;
      TrimEndCons(v[0], w);
      if IsSpace(v[0]) {
        TrimCommute(w);
      } else {
        TrimEndCut(v);
      }
    }
  }

  /** Stripping a string whose end is already trimmed is stripping it. */
  lemma StripTrimEnd(v: string)
    ensures Strip(TrimEnd(v)) == Strip(v)
  {
    TrimCommute(v);
    var t := TrimStart(TrimEnd(v));
    assert TrimEnd(t) == t;
  }

  lemma AppendAssoc<T>(a: seq<T>, b: seq<T>, c: seq<T>)
    ensures a + (b + c) == a + b + c
  {
  }

  /** Stripping a string with a non-space character in it trims only the
      part before it from the start and the part after it from the end. */
  lemma StripAround(u: string, c: char, v: string)
    requires !IsSpace(c)
    ensures Strip(u + [c] + v) == TrimStart(u) + [c] + TrimEnd(v)
  {
    AppendAssoc(u, [c], v);
    TrimStartAppend(u, [c] + v);
    AppendAssoc(TrimStart(u), [c], v);
    TrimEndPrepend(TrimStart(u) + [c], v);
  }

  /** A character absent from a string is absent from its trimmed start. */
  lemma TrimStartKeepsOut(s: string, c: char)
    requires c !in s
    ensures c !in TrimStart(s)
  {
    var r := TrimStart(s);
    forall k | 0 <= k < |r| ensures r[k] != c {
      assert r[k] == s[|s| - |r| + k];
    }
  }

  lemma StripStripped(s: string)
    requires IsStripped(s)
    ensures Strip(s) == s
  {
  }

  /** Python's list comprehension `[x.strip() for x in parts]`. */
  function StripAll(parts: seq<string>): (r: seq<string>)
    ensures |r| == |parts|
    ensures forall i :: 0 <= i < |parts| ==> r[i] == Strip(parts[i])
  {
    seq(|parts|, i requires 0 <= i < |parts| => Strip(parts[i]))
  }

  /** Stripping every piece of a list of stripped pieces changes nothing. */
  lemma StripAllStripped(parts: seq<string>)
    requires forall i :: 0 <= i < |parts| ==> IsStripped(parts[i])
    ensures StripAll(parts) == parts
  {
    forall i | 0 <= i < |parts| ensures StripAll(parts)[i] == parts[i] {
      StripStripped(parts[i]);
    }
  }

  /** The position of the first occurrence of `c` in `s`. */
  function FirstIndex(s: string, c: char): (i: nat)
    requires c in s
    ensures i < |s| && s[i] == c && c !in s[..i]
  {
    if s[0] == c then 0 else 1 + FirstIndex(s[1..], c)
  }

  /** In `a + [c] + b` with no `c` in `a`, the first `c` is the one after
      `a`, and cutting there gives back `a` and `b`. */
  lemma {:induction false} FirstIndexAfter(a: string, c: char, b: string)
    requires c !in a
    ensures c in a + [c] + b && FirstIndex(a + [c] + b, c) == |a|
    ensures (a + [c] + b)[..|a|] == a && (a + [c] + b)[|a| + 1..] == b
  {
    var s := a + [c] + b;
    assert s[|a|] == c;
    if a != [] {
      assert s[0] == a[0];
      assert s[1..] == a[1..] + [c] + b;
      FirstIndexAfter(a[1..], c, b);
    }
  }

  /** Python's `d.join(parts)` for a one-character separator. */
  function Join(parts: seq<string>, d: char): (r: string)
  {
    if |parts| == 0 then ""
    else if |parts| == 1 then parts[0]
    else parts[0] + [d] + Join(parts[1..], d)
  }

  /** A join starts with its first piece and ends with its last. */
  lemma {:induction false} JoinEnds(parts: seq<string>, d: char)
    requires |parts| >= 1
    ensures parts[0] <= Join(parts, d)
    ensures |parts[|parts| - 1]| <= |Join(parts, d)|
    ensures Join(parts, d)[|Join(parts, d)| - |parts[|parts| - 1]|..] == parts[|parts| - 1]
  {
    if |parts| > 1 {
      JoinEnds(parts[1..], d);
    }
  }

  /** Python's `s.split(d)` for a one-character separator: the pieces contain
      no separator and joining them back gives the input. */
  function Split(s: string, d: char): (parts: seq<string>)
    ensures |parts| >= 1
    ensures forall i :: 0 <= i < |parts| ==> d !in parts[i]
    ensures Join(parts, d) == s
    decreases |s|
  {
    if d in s then
      var i := FirstIndex(s, d);
      var rest := Split(s[i + 1..], d);
      assert s == s[..i] + [d] + s[i + 1..];
      [s[..i]] + rest
    else
      [s]
  }

  /** Splitting undoes joining whenever no piece contains the separator. */
  lemma {:induction false} SplitJoin(parts: seq<string>, d: char)
    requires |parts| >= 1
    requires forall i :: 0 <= i < |parts| ==> d !in parts[i]
    ensures Split(Join(parts, d), d) == parts
  {
    if |parts| > 1 {
      var rest := Join(parts[1..], d);
      assert Join(parts, d) == parts[0] + [d] + rest;
      FirstIndexAfter(parts[0], d, rest);
      SplitJoin(parts[1..], d);
    }
  }

  predicate IsDigit(c: char) {
    '0' <= c <= '9'
  }

  /** Python's `s.isdigit()` on ASCII: non-empty and decimal digits only. */
  predicate IsDigits(s: string) {
    |s| > 0 && forall i :: 0 <= i < |s| ==> IsDigit(s[i])
  }

  /** The value of a string of decimal digits, most significant first. */
  function DigitsValue(s: string): (n: nat)
    requires forall i :: 0 <= i < |s| ==> IsDigit(s[i])
    ensures |s| == 0 ==> n == 0
  {
    if |s| == 0 then 0
    else
      var last := s[|s| - 1];
      assert IsDigit(last);
      10 * DigitsValue(s[..|s| - 1]) + (last as int - '0' as int)
  }

  /** Python's `str(n)` for a natural number. */
  function NatToString(n: nat): (s: string)
    ensures IsDigits(s)
  {
    var d := ['0' + ((n % 10) as char)];
    if n < 10 then d else NatToString(n / 10) + d
  }

  /** Python's `str(n)` for any integer: a minus sign exactly for a
      negative number, then the digits. */
  function IntToString(n: int): (s: string)
    ensures n >= 0 ==> IsDigits(s)
    ensures n < 0 ==> |s| > 1 && s[0] == '-' && IsDigits(s[1..])
  {
    if n < 0 then
      var digits := NatToString(-n);
      assert ("-" + digits)[1..] == digits;
      "-" + digits
    else NatToString(n)
  }

  /** Python's `int(s)` on an already stripped string, restricted to an
      optional sign followed by ASCII digits: the string parses exactly
      when it has that form, to the signed decimal value. */
  function ParseInt(s: string): (r: Option<int>)
    ensures r.Some? <==> IsDigits(s) || (|s| > 0 && (s[0] == '-' || s[0] == '+') && IsDigits(s[1..]))
    ensures IsDigits(s) ==> r == Some(DigitsValue(s))
    ensures |s| > 0 && s[0] == '-' && IsDigits(s[1..]) ==> r == Some(0 - DigitsValue(s[1..]))
    ensures |s| > 0 && s[0] == '+' && IsDigits(s[1..]) ==> r == Some(DigitsValue(s[1..]))
  {
    if |s| > 0 && (s[0] == '-' || s[0] == '+') then
      if !IsDigits(s[1..]) then None
      else if s[0] == '-' then Some(0 - DigitsValue(s[1..]))
      else Some(DigitsValue(s[1..]))
    else if IsDigits(s) then Some(DigitsValue(s))
    else None
  }

  lemma {:induction false} DigitsValueOfNat(n: nat)
    ensures DigitsValue(NatToString(n)) == n
  {
    var s := NatToString(n);
    if n >= 10 {
      DigitsValueOfNat(n / 10);
      assert s[..|s| - 1] == NatToString(n / 10);
    }
  }

  /** `int(str(n)) == n` for every integer. */
  lemma ParseIntToString(n: int)
    ensures ParseInt(IntToString(n)) == Some(n)
  {
    var s := IntToString(n);
    if n < 0 {
      assert s[1..] == NatToString(-n);
      DigitsValueOfNat(-n);
    } else {
      DigitsValueOfNat(n);
    }
  }

  /** The rendering of a number has no whitespace at its ends and no
      comma. */
  lemma IntToStringChars(n: int)
    ensures IsStripped(IntToString(n))
    ensures ',' !in IntToString(n)
  {
    var s := IntToString(n);
    if n < 0 {
      var digits := NatToString(-n);
      assert s == "-" + digits;
      assert forall i :: 0 <= i < |digits| ==> s[i + 1] == digits[i];
    }
  }

  function LowerChar(c: char): (r: char)
    ensures 'A' <= c <= 'Z' ==> 'a' <= r <= 'z'
    ensures !('A' <= c <= 'Z') ==> r == c
  {
    if 'A' <= c <= 'Z' then (c as int - 'A' as int + 'a' as int) as char else c
  }

  /** Python's `s.lower()` on ASCII letters. */
  function Lower(s: string): (r: string)
    ensures |r| == |s|
  {
    if s == [] then [] else [LowerChar(s[0])] + Lower(s[1..])
  }

  /** Python's `needle in hay` on strings: `needle` is a prefix of `hay` or
      of one of its suffixes. */
  predicate Contains(hay: string, needle: string)
    decreases |hay|
  {
    |needle| <= |hay| && (hay[..|needle|] == needle || (hay != [] && Contains(hay[1..], needle)))
  }

  /** `needle` occurs in `hay` starting at position `k`. */
  predicate OccursAt(hay: string, needle: string, k: int) {
    0 <= k && k + |needle| <= |hay| && hay[k..k + |needle|] == needle
  }

  /** The substring test holds exactly when `needle` occurs in `hay` at
      some position. */
  lemma {:induction false} ContainsAt(hay: string, needle: string)
    ensures Contains(hay, needle) <==> exists k :: OccursAt(hay, needle, k)
    decreases |hay|
  {
    if |needle| <= |hay| && hay != [] {
      var tail := hay[1..];
      ContainsAt(tail, needle);
      assert OccursAt(hay, needle, 0) <==> hay[..|needle|] == needle;
      if k :| OccursAt(hay, needle, k) {
        if k > 0 {
          assert OccursAt(tail, needle, k - 1) by {
            assert tail[k - 1..k - 1 + |needle|] == hay[k..k + |needle|];
          }
        }
      }
      if k :| OccursAt(tail, needle, k) {
        assert OccursAt(hay, needle, k + 1) by {
          assert hay[k + 1..k + 1 + |needle|] == tail[k..k + |needle|];
        }
      }
    } else if |needle| <= |hay| {
      assert OccursAt(hay, needle, 0);
    }
  }

  /** The characters at which Python's `str.splitlines` breaks a line. */
  predicate IsLineBreak(c: char) {
    '\n' <= c <= '\r' || '\U{001C}' <= c <= '\U{001E}' || c == '\U{0085}' || c == '\U{2028}' || c == '\U{2029}'
  }
}
