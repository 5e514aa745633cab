/** The JavaScript string built-ins the core relies on: `includes`, `trim`,
    `toLowerCase`, `Array.prototype.join`, the relational `<` on strings and the
    decimal rendering of integers inside template literals. */
module Text {
  import opened Wrappers

  // ---------------------------------------------------------------------------
  // includes
  // ---------------------------------------------------------------------------

  predicate StartsWith(s: string, p: string) {
    |p| <= |s| && s[..|p|] == p
  }

  predicate EndsWith(s: string, p: string) {
    |p| <= |s| && s[|s| - |p|..] == p
  }

  /** `s.includes(t)`: some start position of `s` begins a copy of `t`. */
  predicate Contains(s: string, t: string)
    decreases |s|
  {
    StartsWith(s, t) || (|s| > 0 && Contains(s[1..], t))
  }

  /** `t` occurs in `s` starting at index `i`. */
  ghost predicate OccursAt(s: string, t: string, i: int) {
    0 <= i && i + |t| <= |s| && s[i..i + |t|] == t
  }

  /** `Contains` agrees with the positional definition of a substring. */
  lemma {:induction false} ContainsIff(s: string, t: string)
    ensures Contains(s, t) <==> exists i :: OccursAt(s, t, i)
    decreases |s|
  {
    if |s| > 0 {
      ContainsIff(s[1..], t);
    }
    if StartsWith(s, t) {
      assert OccursAt(s, t, 0);
    } else if |s| > 0 && Contains(s[1..], t) {
      var i :| OccursAt(s[1..], t, i);
      assert s[1..][i..i + |t|] == s[i + 1..i + 1 + |t|];
      assert OccursAt(s, t, i + 1);
    } else {
      assert !OccursAt(s, t, 0);
      forall i | 0 < i ensures !OccursAt(s, t, i) {
        if i + |t| <= |s| {
          assert s[1..][i - 1..i - 1 + |t|] == s[i..i + |t|];
          assert !OccursAt(s[1..], t, i - 1);
        }
      }
    }
  }

  /** A string containing `t` contains every suffix of `t`. */
  lemma ContainsSuffix(s: string, t: string, k: nat)
    requires k <= |t| && Contains(s, t)
    ensures Contains(s, t[k..])
  {
    ContainsIff(s, t);
    var i :| OccursAt(s, t, i);
    assert s[i + k..i + k + |t[k..]|] == s[i..i + |t|][k..];
    assert OccursAt(s, t[k..], i + k);
    ContainsIff(s, t[k..]);
  }

  /** Some character of `t` never occurs in `s`, so `t` does not either. */
  lemma {:induction false} MissingCharNotContained(s: string, t: string, k: nat)
    requires k < |t| && t[k] !in s
    ensures !Contains(s, t)
  {
    ContainsIff(s, t);
    forall i | 0 <= i ensures !OccursAt(s, t, i) {
      if i + |t| <= |s| {
        assert s[i..i + |t|][k] == s[i + k];
        assert s[i + k] in s;
      }
    }
  }

  /** No index of `s` holds `a` followed by `b`. */
  predicate NoPair(s: string, a: char, b: char) {
    forall i | 0 <= i < |s| - 1 :: s[i] != a || s[i + 1] != b
  }

  /** Two adjacent characters of `t` never occur side by side in `s`. */
  lemma {:induction false} MissingPairNotContained(s: string, t: string, k: nat)
    requires k + 1 < |t| && NoPair(s, t[k], t[k + 1])
    ensures !Contains(s, t)
  {
    ContainsIff(s, t);
    forall i | 0 <= i ensures !OccursAt(s, t, i) {
      if i + |t| <= |s| {
        assert s[i..i + |t|][k] == s[i + k];
        assert s[i..i + |t|][k + 1] == s[i + k + 1];
      }
    }
  }

  /** No index of `s` holds `a` with `b` exactly `d` places further on. */
  predicate NoGapPair(s: string, a: char, b: char, d: nat) {
    forall i | 0 <= i < |s| - d :: s[i] != a || s[i + d] != b
  }

  /** Two characters `d` apart in `t` never stand `d` apart in `s`. */
  lemma {:induction false} MissingGapPairNotContained(s: string, t: string, k: nat, d: nat)
    requires k + d < |t| && NoGapPair(s, t[k], t[k + d], d)
    ensures !Contains(s, t)
  {
    ContainsIff(s, t);
    forall i | 0 <= i ensures !OccursAt(s, t, i) {
      if i + |t| <= |s| {
        assert s[i..i + |t|][k] == s[i + k] && s[i..i + |t|][k + d] == s[i + k + d];
      }
    }
  }

  /** `NoPair` of a concatenation follows from its parts and the seam. */
  lemma NoPairConcat(a: string, b: string, x: char, y: char)
    requires NoPair(a, x, y) && NoPair(b, x, y)
    requires a == [] || b == [] || a[|a| - 1] != x || b[0] != y
    ensures NoPair(a + b, x, y)
  {
    forall i | 0 <= i < |a + b| - 1 ensures (a + b)[i] != x || (a + b)[i + 1] != y {
      if i < |a| - 1 {
        assert (a + b)[i] == a[i] && (a + b)[i + 1] == a[i + 1];
      } else if i == |a| - 1 {
        assert (a + b)[i] == a[|a| - 1] && (a + b)[i + 1] == b[0];
      } else {
        assert (a + b)[i] == b[i - |a|] && (a + b)[i + 1] == b[i - |a| + 1];
      }
    }
  }

  // ---------------------------------------------------------------------------
  // indexOf, join and a splitting inverse
  // ---------------------------------------------------------------------------

  /** Index of the first `c` in `s`, or `|s|` when there is none. */
  function IndexOf(s: string, c: char): (r: nat)
    ensures r <= |s|
    ensures r < |s| ==> s[r] == c
    ensures forall j | 0 <= j < r :: s[j] != c
    decreases |s|
  {
    if s == [] then 0 else if s[0] == c then 0 else 1 + IndexOf(s[1..], c)
  }

  /** The first `c` sits right after a `c`-free prefix `a`. */
  lemma IndexOfAfter(a: string, c: char, b: string)
    requires c !in a
    ensures IndexOf(a + [c] + b, c) == |a|
  {
    var s := a + [c] + b;
    assert s[|a|] == c;
    forall j | 0 <= j < |a| ensures s[j] != c {
      assert s[j] == a[j];
      assert a[j] in a;
    }
  }

  /** A string without `c` has no index of `c`. */
  lemma IndexOfAbsent(a: string, c: char)
    requires c !in a
    ensures IndexOf(a, c) == |a|
  {
    forall j | 0 <= j < |a| ensures a[j] != c {
      assert a[j] in a;
    }
  }

  /** The middle of `s` once the prefix `pre` and the suffix `suf` are cut off. */
  function StripAffixes(s: string, pre: string, suf: string): Option<string> {
    if |pre| + |suf| <= |s| && StartsWith(s, pre) && EndsWith(s, suf) then Some(s[|pre|..|s| - |suf|])
    else None
  }

  lemma StripAffixesOf(pre: string, m: string, suf: string)
    ensures StripAffixes(pre + m + suf, pre, suf) == Some(m)
  {
    var s := pre + m + suf;
    assert s[..|pre|] == pre && s[|s| - |suf|..] == suf && s[|pre|..|s| - |suf|] == m;
  }

  /** The parts of `s` before and after its first `c`. */
  function SplitAtChar(s: string, c: char): Option<(string, string)> {
    var i := IndexOf(s, c);
    if i == |s| then None else Some((s[..i], s[i + 1..]))
  }

  lemma SplitAtCharOf(a: string, c: char, b: string)
    requires c !in a
    ensures SplitAtChar(a + [c] + b, c) == Some((a, b))
  {
    IndexOfAfter(a, c, b);
    var s := a + [c] + b;
    assert s[..|a|] == a && s[|a| + 1..] == b;
  }

  /** `s.split(c)` for a one-character separator. */
  function SplitOn(s: string, c: char): (r: seq<string>)
    ensures |r| > 0
    decreases |s|
  {
    var i := IndexOf(s, c);
    if i == |s| then [s] else [s[..i]] + SplitOn(s[i + 1..], c)
  }

  /** A piece free of the separator comes off whole. */
  lemma SplitOnCons(a: string, c: char, b: string)
    requires c !in a
    ensures SplitOn(a + [c] + b, c) == [a] + SplitOn(b, c)
  {
    IndexOfAfter(a, c, b);
    var s := a + [c] + b;
    assert s[..|a|] == a && s[|a| + 1..] == b;
  }

  lemma SplitOnAbsent(a: string, c: char)
    requires c !in a
    ensures SplitOn(a, c) == [a]
  {
    IndexOfAbsent(a, c);
  }

  /** `xs.join(sep)`. */
  function Join(xs: seq<string>, sep: string): string
    decreases |xs|
  {
    if xs == [] then "" else if |xs| == 1 then xs[0] else xs[0] + sep + Join(xs[1..], sep)
  }

  /** Cuts a `", "`-joined list back into its items (the inverse of joining). */
  function SplitCommaSpace(s: string): seq<string>
    decreases |s|
  {
    var i := IndexOf(s, ',');
    if i + 1 < |s| && s[i + 1] == ' ' then [s[..i]] + SplitCommaSpace(s[i + 2..]) else [s]
  }

  /** Joining with `", "` loses nothing when no item holds a comma. */
  lemma {:induction false} SplitJoin(xs: seq<string>)
    requires |xs| > 0
    requires forall k | 0 <= k < |xs| :: ',' !in xs[k]
    ensures SplitCommaSpace(Join(xs, ", ")) == xs
    decreases |xs|
  {
    if |xs| == 1 {
      IndexOfAbsent(xs[0], ',');
    } else {
      var rest := Join(xs[1..], ", ");
      var s := xs[0] + ", " + rest;
      assert s == xs[0] + [','] + (" " + rest);
      IndexOfAfter(xs[0], ',', " " + rest);
      assert s[..|xs[0]|] == xs[0];
      assert s[|xs[0]| + 2..] == rest;
      SplitJoin(xs[1..]);
      assert xs == [xs[0]] + xs[1..];
    }
  }

  // ---------------------------------------------------------------------------
  // toLowerCase (ASCII letters only)
  // ---------------------------------------------------------------------------

  predicate IsAsciiUpper(c: char) {
    'A' <= c <= 'Z'
  }

  function LowerChar(c: char): (r: char)
    ensures !IsAsciiUpper(r)
  {
    if IsAsciiUpper(c) then (c as int + 32) as char else c
  }

  /** `s.toLowerCase()` restricted to the ASCII letters. */
  function ToLower(s: string): (r: string)
    ensures |r| == |s|
    ensures forall i | 0 <= i < |s| :: r[i] == LowerChar(s[i])
    decreases |s|
  {
    if s == [] then [] else [LowerChar(s[0])] + ToLower(s[1..])
  }

  /** Lower-casing twice is lower-casing once. */
  lemma ToLowerIdempotent(s: string)
    ensures ToLower(ToLower(s)) == ToLower(s)
  {
    var once := ToLower(s);
    var twice := ToLower(once);
    forall i | 0 <= i < |s| ensures twice[i] == once[i] {
      assert !IsAsciiUpper(once[i]);
    }
  }

  // ---------------------------------------------------------------------------
  // trim
  // ---------------------------------------------------------------------------

  /** ECMAScript WhiteSpace and LineTerminator code points (what `trim` strips):
      TAB, VT, FF, SPACE, NBSP, ZWNBSP, the Unicode "Zs" separators, LF, CR,
      LINE SEPARATOR and PARAGRAPH SEPARATOR. */
  predicate IsJsWhitespace(c: char) {
    || c == '\t' || c == '\U{000B}' || c == '\U{000C}' || c == ' '
    || c == '\U{00A0}' || c == '\U{FEFF}'
    || c == '\U{1680}' || ('\U{2000}' <= c <= '\U{200A}')
    || c == '\U{202F}' || c == '\U{205F}' || c == '\U{3000}'
    || c == '\n' || c == '\r' || c == '\U{2028}' || c == '\U{2029}'
  }

  predicate AllWhitespace(s: string) {
    forall i | 0 <= i < |s| :: IsJsWhitespace(s[i])
  }

  /** `s.trimStart()`: drops the leading white space and nothing else. */
  function TrimStart(s: string): (r: string)
    ensures |r| <= |s| && r == s[|s| - |r|..]
    ensures AllWhitespace(s[..|s| - |r|])
    ensures r != [] ==> !IsJsWhitespace(r[0])
    decreases |s|
  {
    if s != [] && IsJsWhitespace(s[0]) then TrimStart(s[1..]) else s
  }

  /** `s.trimEnd()`: drops the trailing white space and nothing else. */
  function TrimEnd(s: string): (r: string)
    ensures |r| <= |s| && r == s[..|r|]
    ensures AllWhitespace(s[|r|..])
    ensures r != [] ==> !IsJsWhitespace(r[|r| - 1])
    decreases |s|
  {
    if s != [] && IsJsWhitespace(s[|s| - 1]) then
      var r := TrimEnd(s[..|s| - 1]);
      assert s[|r|..] == s[..|s| - 1][|r|..] + [s[|s| - 1]];
      r
    else
      s
  }

  /** `s.trim()`. */
  function Trim(s: string): string {
    TrimEnd(TrimStart(s))
  }

  /** A middle part `r` of `s`, cut out as a prefix of the suffix `a`, is a
      slice of `s` with white space on either side. */
  lemma MiddleSlice(s: string, a: string, r: string) returns (i: nat, j: nat)
    requires |a| <= |s| && a == s[|s| - |a|..] && AllWhitespace(s[..|s| - |a|])
    requires a != [] ==> !IsJsWhitespace(a[0])
    requires |r| <= |a| && r == a[..|r|] && AllWhitespace(a[|r|..])
    requires r != [] ==> !IsJsWhitespace(r[|r| - 1])
    ensures i <= j <= |s| && r == s[i..j]
    ensures AllWhitespace(s[..i]) && AllWhitespace(s[j..])
    ensures r != [] ==> !IsJsWhitespace(r[0]) && !IsJsWhitespace(r[|r| - 1])
  {
    i := |s| - |a|;
    j := i + |r|;
    assert a[|r|..] == s[j..];
    if r != [] {
      assert r[0] == a[0];
    }
  }

  /** `trim` keeps a contiguous slice of `s` with only white space cut away on
      either side, and the slice starts and ends with non-white space. */
  lemma TrimSlice(s: string) returns (i: nat, j: nat)
    ensures i <= j <= |s| && Trim(s) == s[i..j]
    ensures AllWhitespace(s[..i]) && AllWhitespace(s[j..])
    ensures Trim(s) != [] ==> !IsJsWhitespace(Trim(s)[0]) && !IsJsWhitespace(Trim(s)[|Trim(s)| - 1])
  {
    var a := TrimStart(s);
    var r := TrimEnd(a);
    i, j := MiddleSlice(s, a, r);
  }

  /** `TrimSlice` without its witnesses, for use inside expressions. */
  lemma TrimIsSlice(s: string)
    ensures exists i, j | 0 <= i <= j <= |s| ::
      Trim(s) == s[i..j] && AllWhitespace(s[..i]) && AllWhitespace(s[j..])
  {
    var i, j := TrimSlice(s);
  }

  /** The trimmed text is empty exactly when the input is all white space. */
  lemma TrimEmptyIff(s: string)
    ensures Trim(s) == "" <==> AllWhitespace(s)
  {
    var a := TrimStart(s);
    if a != [] {
      assert a[0] == s[|s| - |a|];
    }
    if Trim(s) == "" {
      assert AllWhitespace(a[0..]);
      assert a == [];
      assert s[..|s| - |a|] == s;
    }
  }

  /** Trimming twice is trimming once. */
  lemma TrimIdempotent(s: string)
    ensures Trim(Trim(s)) == Trim(s)
  {
    var r := Trim(s);
    var _, _ := TrimSlice(s);
    if r != [] {
      assert TrimStart(r) == r;
      assert TrimEnd(r) == r;
    }
  }

  // ---------------------------------------------------------------------------
  // Number to string (as in a template literal) and its inverse
  // ---------------------------------------------------------------------------

  predicate IsDigit(c: char) {
    '0' <= c <= '9'
  }

  predicate AllDigits(s: string) {
    forall i | 0 <= i < |s| :: IsDigit(s[i])
  }

  function DigitChar(d: nat): (c: char)
    requires d < 10
    ensures IsDigit(c)
  {
    ('0' as int + d) as char
  }

  /** Decimal digits of `n`, most significant first, without leading zeros. */
  function NatToString(n: nat): (r: string)
    ensures |r| > 0 && AllDigits(r)
    ensures r[0] == '0' ==> n == 0
    decreases n
  {
    if n < 10 then [DigitChar(n)] else NatToString(n / 10) + [DigitChar(n % 10)]
  }

  /** `${n}` for an integer-valued number. */
  function IntToString(n: int): (r: string)
    ensures |r| > 0 && (r[0] == '-' <==> n < 0)
  {
    if n < 0 then "-" + NatToString(-n) else NatToString(n)
  }

  /** The number a digit string denotes. */
  function DigitsValue(s: string): nat
    requires AllDigits(s)
    decreases |s|
  {
    if s == [] then 0 else DigitsValue(s[..|s| - 1]) * 10 + (s[|s| - 1] as int - '0' as int)
  }

  /** Reading the digits back gives the number. */
  lemma {:induction false} NatToStringValue(n: nat)
    ensures DigitsValue(NatToString(n)) == n
    decreases n
  {
    if n >= 10 {
      NatToStringValue(n / 10);
      var s := NatToString(n);
      assert s[..|s| - 1] == NatToString(n / 10);
    }
  }

  /** Distinct integers render to distinct strings. */
  lemma IntToStringInjective(m: int, n: int)
    requires IntToString(m) == IntToString(n)
    ensures m == n
  {
    if m < 0 {
      assert n < 0;
      assert NatToString(-m) == IntToString(m)[1..] == IntToString(n)[1..] == NatToString(-n);
      NatToStringValue(-m);
      NatToStringValue(-n);
    } else {
      assert n >= 0;
      NatToStringValue(m);
      NatToStringValue(n);
    }
  }

  // ---------------------------------------------------------------------------
  // Relational comparison of strings
  // ---------------------------------------------------------------------------

  /** `a < b` on strings: a proper prefix is smaller, otherwise the first
      differing character decides. */
  predicate LexLess(a: string, b: string)
    decreases |a|
  {
    if a == [] then b != []
    else b != [] && (if a[0] == b[0] then LexLess(a[1..], b[1..]) else a[0] < b[0])
  }

  /** The defining cases of the relational comparison, stated positionally. */
  lemma {:induction false} LexLessIff(a: string, b: string)
    ensures LexLess(a, b) <==>
      (|a| < |b| && b[..|a|] == a)
      || (exists k :: 0 <= k < |a| && k < |b| && a[..k] == b[..k] && a[k] < b[k])
    decreases |a|
  {
    if a != [] && b != [] {
      LexLessIff(a[1..], b[1..]);
      if a[0] == b[0] {
        if LexLess(a[1..], b[1..]) {
          if |a| - 1 < |b| - 1 && b[1..][..|a| - 1] == a[1..] {
            assert b[..|a|] == [b[0]] + b[1..][..|a| - 1];
            assert a == [a[0]] + a[1..];
          } else {
            var k :| 0 <= k < |a| - 1 && k < |b| - 1 && a[1..][..k] == b[1..][..k] && a[1..][k] < b[1..][k];
            assert a[..k + 1] == [a[0]] + a[1..][..k];
            assert b[..k + 1] == [b[0]] + b[1..][..k];
          }
        } else {
          if |a| < |b| {
            assert b[..|a|][1..] == b[1..][..|a| - 1];
          }
          forall k | 0 < k < |a| && k < |b| && a[..k] == b[..k] ensures a[k] >= b[k] {
            assert a[1..][..k - 1] == a[..k][1..] == b[..k][1..] == b[1..][..k - 1];
            assert a[1..][k - 1] == a[k] && b[1..][k - 1] == b[k];
          }
        }
      } else {
        if a[0] < b[0] {
          assert a[..0] == b[..0];
        } else {
          forall k | 0 < k < |a| && k < |b| ensures a[..k] != b[..k] {
            assert a[..k][0] == a[0] && b[..k][0] == b[0];
          }
        }
      }
    }
  }

  lemma {:induction false} LexIrreflexive(a: string)
    ensures !LexLess(a, a)
    decreases |a|
  {
    if a != [] {
      LexIrreflexive(a[1..]);
    }
  }

  lemma {:induction false} LexTransitive(a: string, b: string, c: string)
    requires LexLess(a, b) && LexLess(b, c)
    ensures LexLess(a, c)
    decreases |a|
  {
    if a != [] && a[0] == b[0] && b[0] == c[0] {
      LexTransitive(a[1..], b[1..], c[1..]);
    }
  }

  /** Any two different strings are ordered one way or the other. */
  lemma {:induction false} LexTotal(a: string, b: string)
    ensures a == b || LexLess(a, b) || LexLess(b, a)
    decreases |a|
  {
    if a != [] && b != [] && a[0] == b[0] {
      LexTotal(a[1..], b[1..]);
      if a[1..] == b[1..] {
        assert a == [a[0]] + a[1..] && b == [b[0]] + b[1..];
      }
    }
  }

  lemma {:induction false} LexAsymmetric(a: string, b: string)
    ensures !(LexLess(a, b) && LexLess(b, a))
    decreases |a|
  {
    if a != [] && b != [] && a[0] == b[0] {
      LexAsymmetric(a[1..], b[1..]);
    }
  }
}
