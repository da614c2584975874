/** The small pieces of Go's standard library that the server's string work uses:
    `strings.TrimLeft` / `strings.TrimRight` with a one-character cutset, the
    order on strings, and
    `strconv.FormatInt(n, 10)` for a non-negative `n`. */
module Text {

  /** `strings.TrimLeft(s, string(c))`: every leading `c` removed. The result is
      the suffix of `s` that remains once the maximal run of leading `c` is cut. */
  function TrimLeft(s: string, c: char): (r: string)
    ensures |r| <= |s|
  {
    if s != [] && s[0] == c then TrimLeft(s[1..], c) else s
  }

  /** `strings.TrimRight(s, string(c))`: every trailing `c` removed. */
  function TrimRight(s: string, c: char): (r: string)
    ensures |r| <= |s|
  {
    if s != [] && s[|s| - 1] == c then TrimRight(s[..|s| - 1], c) else s
  }

  /** What TrimLeft leaves: a suffix of `s`, everything cut before it is `c`, and
      it does not itself start with `c`. */
  lemma {:induction false} TrimLeftSpec(s: string, c: char)
    ensures var r := TrimLeft(s, c);
      |r| <= |s| && r == s[|s| - |r|..]
      && (forall i :: 0 <= i < |s| - |r| ==> s[i] == c)
      && (r == [] || r[0] != c)
  {
    if s != [] && s[0] == c {
      TrimLeftSpec(s[1..], c);
    }
  }

  /** What TrimRight leaves: a prefix of `s`, everything cut after it is `c`,
      and it does not itself end with `c`. */
  lemma {:induction false} TrimRightSpec(s: string, c: char)
    ensures var r := TrimRight(s, c);
      |r| <= |s| && r == s[..|r|]
      && (forall i :: |r| <= i < |s| ==> s[i] == c)
      && (r == [] || r[|r| - 1] != c)
  {
    if s != [] && s[|s| - 1] == c {
      TrimRightSpec(s[..|s| - 1], c);
    }
  }

  /** A string made of `n` copies of `c`. */
  function Repeat(c: char, n: nat): (r: string)
    ensures |r| == n && forall i :: 0 <= i < n ==> r[i] == c
  {
    if n == 0 then [] else [c] + Repeat(c, n - 1)
  }

  /** TrimLeft is the only way to split `s` into a run of `c` and a rest that does
      not start with `c`. */
  lemma TrimLeftUnique(run: nat, rest: string, c: char)
    requires rest == [] || rest[0] != c
    ensures TrimLeft(Repeat(c, run) + rest, c) == rest
  {
    var s := Repeat(c, run) + rest;
    TrimLeftSpec(s, c);
    assert forall i :: 0 <= i < run ==> s[i] == c;
    assert forall i :: 0 <= i < |rest| ==> s[run + i] == rest[i];
  }

  /** TrimRight is the only way to split `s` into a rest that does not end with `c`
      and a run of `c`. */
  lemma TrimRightUnique(rest: string, run: nat, c: char)
    requires rest == [] || rest[|rest| - 1] != c
    ensures TrimRight(rest + Repeat(c, run), c) == rest
  {
    var s := rest + Repeat(c, run);
    TrimRightSpec(s, c);
    assert forall i :: |rest| <= i < |s| ==> s[i] == c;
    assert forall i :: 0 <= i < |rest| ==> s[i] == rest[i];
  }

  /** Every string is a run of leading `c` followed by its TrimLeft. */
  lemma TrimLeftSplits(s: string, c: char)
    ensures s == Repeat(c, |s| - |TrimLeft(s, c)|) + TrimLeft(s, c)
  {
    TrimLeftSpec(s, c);
    var r := TrimLeft(s, c);
    var k := |s| - |r|;
    assert s[..k] == Repeat(c, k);
    assert s == s[..k] + s[k..];
  }

  /** Every string is its TrimRight followed by a run of trailing `c`. */
  lemma TrimRightSplits(s: string, c: char)
    ensures s == TrimRight(s, c) + Repeat(c, |s| - |TrimRight(s, c)|)
  {
    TrimRightSpec(s, c);
    var r := TrimRight(s, c);
    var k := |r|;
    assert s[k..] == Repeat(c, |s| - k);
    assert s == s[..k] + s[k..];
  }

  /** Trimming leading `c` from `a + b`: if `a` has a character other than `c`,
      only `a`'s run is cut and `b` stays whole; otherwise all of `a` goes and
      `b` is trimmed in turn. */
  lemma {:induction false} TrimLeftConcat(a: string, b: string, c: char)
    ensures TrimLeft(a, c) != [] ==> TrimLeft(a + b, c) == TrimLeft(a, c) + b
    ensures TrimLeft(a, c) == [] ==> TrimLeft(a + b, c) == TrimLeft(b, c)
  {
    if a == [] {
      assert a + b == b;
    } else if a[0] == c {
      assert (a + b)[1..] == a[1..] + b;
      TrimLeftConcat(a[1..], b, c);
    }
  }

  /** Go's `<` on strings: lexicographic, a proper prefix first. Comparing
      characters by code point agrees with Go's byte-wise comparison of the
      UTF-8 encodings. */
  predicate NameLess(a: string, b: string)
  {
    if a == [] then b != []
    else if b == [] then false
    else if a[0] != b[0] then a[0] < b[0]
    else NameLess(a[1..], b[1..])
  }

  /** `a` is a proper prefix of `b`. */
  predicate ProperPrefix(a: string, b: string)
  {
    |a| < |b| && a == b[..|a|]
  }

  /** `a` and `b` agree before position `k`, where `a` has the smaller character. */
  predicate SmallerAt(a: string, b: string, k: int)
  {
    0 <= k < |a| && k < |b| && a[..k] == b[..k] && a[k] < b[k]
  }

  /** `a` sorts before `b` exactly when it is a proper prefix of `b`, or the
      two agree up to a first position where `a`'s character is smaller. */
  lemma {:induction false} NameLessSpec(a: string, b: string)
    ensures NameLess(a, b) <==> ProperPrefix(a, b) || exists k :: SmallerAt(a, b, k)
  {
    if a != [] && b != [] {
      if a[0] != b[0] {
        SmallerAtHead(a, b);
      } else {
        var a', b' := a[1..], b[1..];
        NameLessSpec(a', b');
        ProperPrefixTail(a, b);
        if exists k :: SmallerAt(a', b', k) {
          var k :| SmallerAt(a', b', k);
          SmallerAtTail(a, b, k + 1);
        }
        if exists k :: SmallerAt(a, b, k) {
          var k :| SmallerAt(a, b, k);
          SmallerAtTail(a, b, k);
        }
      }
    }
  }

  /** When the first characters differ, only position 0 can be the first
      difference, and neither string is a prefix of the other. */
  lemma SmallerAtHead(a: string, b: string)
    requires a != [] && b != [] && a[0] != b[0]
    ensures !ProperPrefix(a, b)
    ensures (exists k :: SmallerAt(a, b, k)) <==> a[0] < b[0]
  {
    assert a[..0] == b[..0];
    assert SmallerAt(a, b, 0) <==> a[0] < b[0];
    forall k | 0 < k
      ensures !SmallerAt(a, b, k)
    {
      if 0 < k < |a| && k < |b| {
        assert a[..k][0] == a[0] && b[..k][0] == b[0];
      }
    }
    if |a| < |b| {
      assert b[..|a|][0] == b[0];
    }
  }

  /** A common first character can be dropped from both strings. */
  lemma ProperPrefixTail(a: string, b: string)
    requires a != [] && b != [] && a[0] == b[0]
    ensures ProperPrefix(a, b) <==> ProperPrefix(a[1..], b[1..])
  {
    if |a| < |b| {
      assert b[..|a|] == [b[0]] + b[1..][..|a| - 1];
      assert a == [a[0]] + a[1..];
    }
  }

  lemma SmallerAtTail(a: string, b: string, k: int)
    requires a != [] && b != [] && a[0] == b[0] && 0 < k
    ensures SmallerAt(a, b, k) <==> SmallerAt(a[1..], b[1..], k - 1)
  {
    if k < |a| && k < |b| {
      assert a[..k] == [a[0]] + a[1..][..k - 1];
      assert b[..k] == [b[0]] + b[1..][..k - 1];
      assert a[1..][..k - 1] == a[..k][1..] && b[1..][..k - 1] == b[..k][1..];
    }
  }

  predicate IsDigit(ch: char) { '0' <= ch <= '9' }

  predicate AllDigits(s: string) { forall i :: 0 <= i < |s| ==> IsDigit(s[i]) }

  function DigitChar(d: nat): (ch: char)
    requires d < 10
    ensures IsDigit(ch) && ch as int - '0' as int == d
  {
    ('0' as int + d) as char
  }

  /** The value of a string of decimal digits (reference reading of a decimal numeral). */
  function ParseDecimal(s: string): nat
    requires AllDigits(s)
  {
    if s == [] then 0
    else ParseDecimal(s[..|s| - 1]) * 10 + (s[|s| - 1] as int - '0' as int)
  }

  /** `strconv.FormatInt(n, 10)` for `n >= 0`: the canonical decimal numeral —
      non-empty, digits only, no leading zero. */
  function FormatDecimal(n: nat): (s: string)
    ensures |s| >= 1 && AllDigits(s)
    ensures |s| > 1 ==> s[0] != '0'
  {
    if n < 10 then [DigitChar(n)] else FormatDecimal(n / 10) + [DigitChar(n % 10)]
  }

  /** Reading back the numeral gives the number. */
  lemma {:induction false} ParseFormatDecimal(n: nat)
    ensures ParseDecimal(FormatDecimal(n)) == n
  {
    var s := FormatDecimal(n);
    if n >= 10 {
      ParseFormatDecimal(n / 10);
      assert s[..|s| - 1] == FormatDecimal(n / 10);
    }
  }

  /** So the numeral is determined by the number and vice versa. */
  lemma FormatDecimalInjective(m: nat, n: nat)
    requires FormatDecimal(m) == FormatDecimal(n)
    ensures m == n
  {
    ParseFormatDecimal(m);
    ParseFormatDecimal(n);
  }
}
