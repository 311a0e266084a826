/** Python's string operations as the toolkit uses them: `str.strip()`,
    `str.split(sep)` with a one-character separator, and decimal rendering of integers. */
module Text {

  /** `c.isspace()`: the characters Python treats as whitespace. */
  predicate IsSpace(c: char) {
    || ('\U{9}' <= c <= '\U{D}')
    || ('\U{1C}' <= c <= '\U{20}')
    || c == '\U{85}' || c == '\U{A0}' || c == '\U{1680}'
    || ('\U{2000}' <= c <= '\U{200A}')
    || c == '\U{2028}' || c == '\U{2029}' || c == '\U{202F}' || c == '\U{205F}' || c == '\U{3000}'
  }

  /** Neither end of `s` is whitespace. */
  predicate IsStripped(s: string) {
    s == "" || (!IsSpace(s[0]) && !IsSpace(s[|s| - 1]))
  }

  /** `s.lstrip()`: what is removed is a whitespace prefix, and what remains does not start with whitespace. */
  function LStrip(s: string): (r: string)
    ensures |r| <= |s| && r == s[|s| - |r|..]
    ensures r == "" || !IsSpace(r[0])
    ensures forall i :: 0 <= i < |s| - |r| ==> IsSpace(s[i])
  {
    if s != "" && IsSpace(s[0]) then LStrip(s[1..]) else s
  }

  /** `s.rstrip()`: what is removed is a whitespace suffix, and what remains does not end with whitespace. */
  function RStrip(s: string): (r: string)
    ensures |r| <= |s| && r == s[..|r|]
    ensures r == "" || !IsSpace(r[|r| - 1])
    ensures forall i :: |r| <= i < |s| ==> IsSpace(s[i])
  {
    if s != "" && IsSpace(s[|s| - 1]) then RStrip(s[..|s| - 1]) else s
  }

  /** `s.strip()`: the result has whitespace at neither end. */
  function Strip(s: string): (r: string)
    ensures IsStripped(r)
  {
    var l := LStrip(s);
    var r := RStrip(l);
    assert r != "" ==> r[0] == l[0];
    r
  }

  /** `s.strip()` keeps a contiguous run of `s`: the slice after the stripped prefix. */
  lemma StripSlice(s: string)
    ensures var a := |s| - |LStrip(s)|;
      && a + |Strip(s)| <= |s|
      && Strip(s) == s[a..a + |Strip(s)|]
  {
    var l := LStrip(s);
    var r := RStrip(l);
    var a := |s| - |l|;
    assert l == s[a..];
    assert r == l[..|r|];
    SliceOfSuffix(s, a, |r|);
  }

  /** What `s.strip()` removes, before and after the slice it keeps, is all whitespace. */
  lemma StripRemovesSpace(s: string)
    ensures var a := |s| - |LStrip(s)|;
      && a + |Strip(s)| <= |s|
      && (forall i :: 0 <= i < a ==> IsSpace(s[i]))
      && (forall i :: a + |Strip(s)| <= i < |s| ==> IsSpace(s[i]))
  {
    SuffixSpaces(s, LStrip(s), RStrip(LStrip(s)));
  }

  lemma SuffixSpaces(s: string, l: string, r: string)
    requires |l| <= |s| && l == s[|s| - |l|..]
    requires |r| <= |l| && forall j :: |r| <= j < |l| ==> IsSpace(l[j])
    ensures forall i :: |s| - |l| + |r| <= i < |s| ==> IsSpace(s[i])
  {
    forall i | |s| - |l| + |r| <= i < |s| ensures IsSpace(s[i]) {
      assert s[i] == l[i - (|s| - |l|)];
    }
  }

  lemma SliceOfSuffix(s: string, a: nat, n: nat)
    requires a + n <= |s|
    ensures s[a..][..n] == s[a..a + n]
  {
  }

  /** Stripping adds no character. */
  lemma StripWithin(s: string)
    ensures forall c :: c in Strip(s) ==> c in s
  {
    var l := LStrip(s);
    var r := RStrip(l);
    forall c | c in r ensures c in s {
      var i :| 0 <= i < |r| && r[i] == c;
      assert l[i] == c;
      assert s[|s| - |l| + i] == c;
    }
  }

  predicate AllSpace(s: string) {
    forall i :: 0 <= i < |s| ==> IsSpace(s[i])
  }

  /** `s.strip()` is empty exactly when `s` is all whitespace. */
  lemma StripEmpty(s: string)
    ensures Strip(s) == "" <==> AllSpace(s)
  {
    StripRemovesSpace(s);
  }

  /** A string with no whitespace at either end is left unchanged by `strip()`. */
  lemma StripStripped(s: string)
    requires IsStripped(s)
    ensures Strip(s) == s
  {
  }

  /** `s.split(sep)`: the pieces between occurrences of `sep`; never empty. */
  function Split(s: string, sep: char): (parts: seq<string>)
    ensures |parts| >= 1
    ensures forall i :: 0 <= i < |parts| ==> sep !in parts[i]
  {
    if s == "" then [""]
    else if s[0] == sep then [""] + Split(s[1..], sep)
    else
      var rest := Split(s[1..], sep);
      [[s[0]] + rest[0]] + rest[1..]
  }

  /** `sep.join(parts)` */
  function Join(parts: seq<string>, sep: char): string {
    if parts == [] then ""
    else if |parts| == 1 then parts[0]
    else parts[0] + [sep] + Join(parts[1..], sep)
  }

  /** Joining the pieces of a split gives back the string. */
  lemma {:induction false} JoinSplit(s: string, sep: char)
    ensures Join(Split(s, sep), sep) == s
  {
    if s == "" {
    } else if s[0] == sep {
      JoinSplit(s[1..], sep);
      assert Split(s, sep) == [""] + Split(s[1..], sep);
    } else {
      JoinSplit(s[1..], sep);
      var rest := Split(s[1..], sep);
      if |rest| == 1 {
        assert Join(rest, sep) == rest[0];
      } else {
        assert Join(rest, sep) == rest[0] + [sep] + Join(rest[1..], sep);
        assert Split(s, sep)[1..] == rest[1..];
      }
    }
  }

  lemma {:induction false} SplitPrefix(p: string, t: string, sep: char)
    requires sep !in p
    ensures Split(p + [sep] + t, sep) == [p] + Split(t, sep)
  {
    if p == "" {
      assert p + [sep] + t == [sep] + t;
      assert ([sep] + t)[1..] == t;
    } else {
      assert (p + [sep] + t)[1..] == p[1..] + [sep] + t;
      SplitPrefix(p[1..], t, sep);
      assert [p[0]] + p[1..] == p;
    }
  }

  lemma {:induction false} SplitOnly(p: string, sep: char)
    requires sep !in p
    ensures Split(p, sep) == [p]
  {
    if p != "" {
      SplitOnly(p[1..], sep);
      assert [p[0]] + p[1..] == p;
    }
  }

  /** Splitting a join gives back the pieces, when no piece holds the separator. */
  lemma {:induction false} SplitJoin(parts: seq<string>, sep: char)
    requires |parts| >= 1
    requires forall i :: 0 <= i < |parts| ==> sep !in parts[i]
    ensures Split(Join(parts, sep), sep) == parts
  {
    if |parts| == 1 {
      SplitOnly(parts[0], sep);
    } else {
      SplitJoin(parts[1..], sep);
      SplitPrefix(parts[0], Join(parts[1..], sep), sep);
    }
  }

  /** The decimal digit for `d`. */
  function DigitChar(d: nat): char
    requires d < 10
  {
    ('0' as int + d) as char
  }

  /** Decimal rendering of a natural number, as `str(n)` gives it. */
  function NatToString(n: nat): (r: string)
    ensures |r| >= 1
    ensures forall i :: 0 <= i < |r| ==> '0' <= r[i] <= '9'
    ensures |r| > 1 ==> r[0] != '0'
  {
    if n < 10 then [DigitChar(n)] else NatToString(n / 10) + [DigitChar(n % 10)]
  }

  /** Decimal rendering of an integer, with a leading '-' when negative. */
  function IntToString(n: int): string {
    if n < 0 then "-" + NatToString(-n) else NatToString(n)
  }
}
