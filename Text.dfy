/** The string operations the application relies on: ASCII lower-casing,
    whitespace splitting as Python's `str.split()` does it, substring search
    (Python's `in` on strings) and SQLite's LIKE pattern matching. */
module Text {

  /** ASCII lower-casing of one character (SQLite's `lower()` without ICU). */
  function LowerChar(c: char): char
  {
    if 'A' <= c <= 'Z' then (c as int + 32) as char else c
  }

  function Lower(s: string): (r: string)
    ensures |r| == |s|
    ensures forall i :: 0 <= i < |s| ==> r[i] == LowerChar(s[i])
  {
    if s == [] then [] else [LowerChar(s[0])] + Lower(s[1..])
  }

  /** The characters Python's `str.split()` without arguments splits on. */
  predicate IsSpace(c: char)
  {
    var n := c as int;
    (9 <= n <= 13) || (28 <= n <= 32) || n == 0x85 || n == 0xA0 || n == 0x1680
    || (0x2000 <= n <= 0x200A) || n == 0x2028 || n == 0x2029 || n == 0x202F
    || n == 0x205F || n == 0x3000
  }

  predicate NoSpace(w: string)
  {
    forall i :: 0 <= i < |w| ==> !IsSpace(w[i])
  }

  /** The end of the word that starts before position `i`: the first
      whitespace at or after `i`, or the end of `s`. */
  function WordEnd(s: string, i: nat): (n: nat)
    requires i <= |s|
    ensures i <= n <= |s|
    ensures n < |s| ==> IsSpace(s[n])
    ensures forall j :: i <= j < n ==> !IsSpace(s[j])
    decreases |s| - i
  {
    if i == |s| || IsSpace(s[i]) then i else WordEnd(s, i + 1)
  }

  /** Python's `s.split()`: the maximal runs of non-whitespace, in order. */
  function Words(s: string): (ws: seq<string>)
    ensures forall k :: 0 <= k < |ws| ==> ws[k] != [] && NoSpace(ws[k])
    decreases |s|
  {
    if s == [] then []
    else if IsSpace(s[0]) then Words(s[1..])
    else
      var n := WordEnd(s, 1);
      [s[..n]] + Words(s[n..])
  }

  /** A whitespace character after `a` ends the word running in `a`. */
  lemma {:induction false} WordEndBeforeSpace(a: string, c: char, b: string, i: nat)
    requires IsSpace(c) && i <= |a|
    ensures WordEnd(a + [c] + b, i) == WordEnd(a, i)
    decreases |a| - i
  {
    var s := a + [c] + b;
    if i < |a| {
      assert s[i] == a[i];
      if !IsSpace(a[i]) {
        WordEndBeforeSpace(a, c, b, i + 1);
      }
    } else {
      assert s[i] == c;
    }
  }

  /** Whitespace separates words: splitting `a`, a whitespace character and
      `b` gives the words of `a` followed by the words of `b`. */
  lemma {:induction false} WordsAroundSpace(a: string, c: char, b: string)
    requires IsSpace(c)
    ensures Words(a + [c] + b) == Words(a) + Words(b)
    decreases |a|
  {
    var s := a + [c] + b;
    if a == [] {
      assert s[1..] == b;
    } else if IsSpace(a[0]) {
      assert s[1..] == a[1..] + [c] + b;
      WordsAroundSpace(a[1..], c, b);
    } else {
      var m := WordEnd(a, 1);
      WordEndBeforeSpace(a, c, b, 1);
      assert s[..m] == a[..m];
      assert s[m..] == a[m..] + [c] + b;
      WordsAroundSpace(a[m..], c, b);
    }
  }

  /** A non-empty run without whitespace is a single word. */
  lemma WordsOfWord(w: string)
    requires w != [] && NoSpace(w)
    ensures Words(w) == [w]
  {
    var n := WordEnd(w, 1);
    assert n == |w|;
    assert w[..n] == w && w[n..] == [];
  }

  function Concat(ws: seq<string>): string
  {
    if ws == [] then [] else ws[0] + Concat(ws[1..])
  }

  /** `s` with every whitespace character taken out. */
  function RemoveSpace(s: string): string
  {
    if s == [] then [] else (if IsSpace(s[0]) then [] else [s[0]]) + RemoveSpace(s[1..])
  }

  lemma {:induction false} RemoveSpaceOfWord(s: string, n: nat)
    requires n <= |s|
    requires forall j :: 0 <= j < n ==> !IsSpace(s[j])
    ensures RemoveSpace(s) == s[..n] + RemoveSpace(s[n..])
  {
    if n > 0 {
      RemoveSpaceOfWord(s[1..], n - 1);
      assert s[1..][n - 1..] == s[n..];
      assert [s[0]] + s[1..][..n - 1] == s[..n];
    }
  }

  /** Splitting loses exactly the whitespace: the words put back together
      are the input without its whitespace characters. */
  lemma {:induction false} WordsConcat(s: string)
    ensures Concat(Words(s)) == RemoveSpace(s)
    decreases |s|
  {
    if s == [] {
    } else if IsSpace(s[0]) {
      WordsConcat(s[1..]);
    } else {
      var n := WordEnd(s, 1);
      WordsConcat(s[n..]);
      RemoveSpaceOfWord(s, n);
      assert Words(s) == [s[..n]] + Words(s[n..]);
      assert Concat(Words(s)) == s[..n] + Concat(Words(s[n..]));
    }
  }

  /** `w` occurs in `s` starting at position `i`. */
  predicate OccursAt(s: string, w: string, i: int)
  {
    0 <= i && i + |w| <= |s| && s[i..i + |w|] == w
  }

  /** Python's `w in s` on strings. */
  predicate Contains(s: string, w: string)
    decreases |s|
  {
    |w| <= |s| && (s[..|w|] == w || Contains(s[1..], w))
  }

  lemma ContainsSelf(s: string)
    ensures Contains(s, s)
  {
    assert s[..|s|] == s;
  }

  lemma {:induction false} ContainsIffOccurs(s: string, w: string)
    ensures Contains(s, w) <==> exists i :: OccursAt(s, w, i)
    decreases |s|
  {
    if |w| <= |s| {
      if s[..|w|] == w {
        assert OccursAt(s, w, 0);
      } else {
        ContainsIffOccurs(s[1..], w);
        if Contains(s[1..], w) {
          var i :| OccursAt(s[1..], w, i);
          assert s[1..][i..i + |w|] == s[i + 1..i + 1 + |w|];
          assert OccursAt(s, w, i + 1);
        }
        if i :| OccursAt(s, w, i) {
          assert i != 0;
          assert s[1..][i - 1..i - 1 + |w|] == s[i..i + |w|];
          assert OccursAt(s[1..], w, i - 1);
        }
      }
    } else {
      if i :| OccursAt(s, w, i) {
        assert false;
      }
    }
  }

  lemma ContainsTransitive(s: string, m: string, w: string)
    requires Contains(s, m) && Contains(m, w)
    ensures Contains(s, w)
  {
    ContainsIffOccurs(s, m);
    ContainsIffOccurs(m, w);
    var i :| OccursAt(s, m, i);
    var j :| OccursAt(m, w, j);
    assert forall k :: 0 <= k < |w| ==> s[i + j + k] == m[j + k] == w[k];
    assert s[i + j..i + j + |w|] == w;
    assert OccursAt(s, w, i + j);
    ContainsIffOccurs(s, w);
  }

  /** A substring of a suffix is a substring of the whole. */
  lemma ContainsInSuffix(s: string, n: nat, w: string)
    requires n <= |s|
    requires Contains(s[n..], w)
    ensures Contains(s, w)
  {
    ContainsIffOccurs(s[n..], w);
    var i :| OccursAt(s[n..], w, i);
    assert s[i + n..i + n + |w|] == s[n..][i..i + |w|];
    assert OccursAt(s, w, i + n);
    ContainsIffOccurs(s, w);
  }

  /** Every word of a split is a substring of the split text. */
  lemma {:induction false} WordsAreSubstrings(s: string)
    ensures forall k :: 0 <= k < |Words(s)| ==> Contains(s, Words(s)[k])
    decreases |s|
  {
    if s == [] {
    } else if IsSpace(s[0]) {
      WordsAreSubstrings(s[1..]);
      forall k | 0 <= k < |Words(s)| ensures Contains(s, Words(s)[k]) {
        assert Words(s)[k] == Words(s[1..])[k];
        ContainsInSuffix(s, 1, Words(s)[k]);
      }
    } else {
      var n := WordEnd(s, 1);
      WordsAreSubstrings(s[n..]);
      forall k | 0 <= k < |Words(s)| ensures Contains(s, Words(s)[k]) {
        if k == 0 {
          assert Words(s)[0] == s[..n];
        } else {
          assert Words(s)[k] == Words(s[n..])[k - 1];
          ContainsInSuffix(s, n, Words(s)[k]);
        }
      }
    }
  }

  /** SQLite's LIKE on already lower-cased operands: `%` matches any run of
      characters, `_` any one character, every other character itself. */
  predicate Like(s: string, p: string)
    decreases |s| + |p|
  {
    if p == [] then s == []
    else if p[0] == '%' then Like(s, p[1..]) || (s != [] && Like(s[1..], p))
    else s != [] && (p[0] == '_' || p[0] == s[0]) && Like(s[1..], p[1..])
  }

  predicate NoWildcards(q: string)
  {
    forall i :: 0 <= i < |q| ==> q[i] != '%' && q[i] != '_'
  }

  /** Lower-casing introduces no LIKE wildcards. */
  lemma LowerNoWildcards(q: string)
    requires NoWildcards(q)
    ensures NoWildcards(Lower(q))
  {
  }

  lemma {:induction false} LikeAnything(s: string)
    ensures Like(s, "%")
    decreases |s|
  {
    if s != [] {
      LikeAnything(s[1..]);
    }
  }

  lemma {:induction false} LikeLiteralPrefix(s: string, q: string, t: string)
    requires NoWildcards(q)
    ensures Like(s, q + t) <==> |q| <= |s| && s[..|q|] == q && Like(s[|q|..], t)
    decreases |q|
  {
    if q != [] && s != [] {
      assert (q + t)[0] == q[0] && (q + t)[1..] == q[1..] + t;
      LikeLiteralPrefix(s[1..], q[1..], t) by {
        assert forall i :: 0 <= i < |q[1..]| ==> q[1..][i] == q[i + 1];
      }
      if s != [] && |q| <= |s| {
        assert s[1..][|q| - 1..] == s[|q|..];
        assert s[..|q|] == [s[0]] + s[1..][..|q| - 1];
        assert q == [q[0]] + q[1..];
      }
    } else if q == [] {
      assert q + t == t;
    } else {
      assert (q + t)[0] == q[0];
    }
  }

  /** The pattern `%q%` of SQL `ilike` is a substring test as long as the
      query holds no wildcard character. */
  lemma {:induction false} LikeIsContains(s: string, q: string)
    requires NoWildcards(q)
    ensures Like(s, "%" + q + "%") <==> Contains(s, q)
    decreases |s|
  {
    var p := "%" + q + "%";
    assert p[0] == '%' && p[1..] == q + "%";
    LikeLiteralPrefix(s, q, "%");
    if |q| <= |s| {
      LikeAnything(s[|q|..]);
    }
    if s != [] {
      LikeIsContains(s[1..], q);
    }
  }

  // ---- Python's "%.2f" formatting -------------------------------------

  function DigitChar(d: nat): char
    requires d < 10
  {
    ('0' as int + d) as char
  }

  /** The decimal text of `n` without leading zeros (Python's `str(n)`). */
  function DecimalText(n: nat): (s: string)
    ensures s != []
    ensures forall i :: 0 <= i < |s| ==> '0' <= s[i] <= '9'
    ensures |s| == 1 <==> n < 10
    ensures s[0] == '0' <==> n == 0
  {
    if n < 10 then [DigitChar(n)] else DecimalText(n / 10) + [DigitChar(n % 10)]
  }

  /** The number a string of decimal digits denotes. */
  function DecimalValue(s: string): nat
    requires forall i :: 0 <= i < |s| ==> '0' <= s[i] <= '9'
  {
    if s == [] then 0
    else DecimalValue(s[..|s| - 1]) * 10 + (s[|s| - 1] as int - '0' as int)
  }

  lemma {:induction false} DecimalRoundTrip(n: nat)
    ensures DecimalValue(DecimalText(n)) == n
  {
    if n >= 10 {
      DecimalRoundTrip(n / 10);
      var s := DecimalText(n);
      assert s[..|s| - 1] == DecimalText(n / 10);
    }
  }

  /** Rounding of a non-negative real to the nearest integer, ties to even. */
  function RoundHalfEven(x: real): (n: nat)
    requires x >= 0.0
    ensures -0.5 <= n as real - x <= 0.5
  {
    var f := x.Floor;
    var d := x - f as real;
    if d > 0.5 || (d == 0.5 && f % 2 == 1) then f + 1 else f
  }

  /** Python's `f"{p:.2f}"` for an exact amount `p`: a minus sign for
      negative amounts, the whole part, a dot, and two decimals. */
  function Fixed2(p: real): (s: string)
  {
    var c := RoundHalfEven(if p < 0.0 then -p * 100.0 else p * 100.0);
    (if p < 0.0 then "-" else "") + DecimalText(c / 100) + "." + [DigitChar(c / 10 % 10), DigitChar(c % 10)]
  }

  /** The tens and units digits of `c` make up `c` modulo 100. */
  lemma TensAndUnits(c: nat)
    ensures (c / 10 % 10) * 10 + c % 10 == c % 100
  {
    var q, r := c / 100, c % 100;
    assert c == 100 * q + r;
    assert c / 10 == 10 * q + r / 10;
    assert c / 10 % 10 == r / 10;
    assert c % 10 == r % 10;
  }

  lemma TwoDigitValue(c: nat)
    ensures DecimalValue([DigitChar(c / 10 % 10), DigitChar(c % 10)]) == c % 100
  {
    var hi, lo := c / 10 % 10, c % 10;
    var cs := [DigitChar(hi), DigitChar(lo)];
    assert cs[..1] == [DigitChar(hi)];
    assert [DigitChar(hi)][..0] == [];
    assert DecimalValue(cs[..1]) == hi;
    assert DecimalValue(cs) == hi * 10 + lo;
    TensAndUnits(c);
  }

  lemma CentsWithinHalf(p: real, c: nat)
    requires p >= 0.0
    requires -0.5 <= c as real - p * 100.0 <= 0.5
    ensures -0.005 <= ((c / 100) * 100 + c % 100) as real / 100.0 - p <= 0.005
  {
    assert (c / 100) * 100 + c % 100 == c;
  }

  /** Cutting `w + [m] + t`, with `t` two long, back into its parts. */
  lemma CutBeforeLastThree<T>(w: seq<T>, m: T, t: seq<T>)
    requires |t| == 2
    ensures var s := w + [m] + t;
      && |s| == |w| + 3 && s[..|s| - 3] == w && s[|s| - 3] == m && s[|s| - 2..] == t
      && (forall i :: 0 <= i < |s| - 3 ==> s[i] == w[i])
      && s[|s| - 2] == t[0] && s[|s| - 1] == t[1]
  {
  }

  /** The text "%.2f" produces for a non-negative amount reads back as that
      amount rounded to the cent, off by at most half a cent. */
  lemma Fixed2Denotes(p: real)
    requires p >= 0.0
    ensures var s := Fixed2(p);
      && |s| >= 4 && s[|s| - 3] == '.'
      && (forall i :: 0 <= i < |s| && i != |s| - 3 ==> '0' <= s[i] <= '9')
      && (s[0] != '0' || s[1] == '.')
      && -0.005 <= (DecimalValue(s[..|s| - 3]) * 100 + DecimalValue(s[|s| - 2..])) as real / 100.0 - p <= 0.005
  {
    var c := RoundHalfEven(p * 100.0);
    var w := DecimalText(c / 100);
    var tail := [DigitChar(c / 10 % 10), DigitChar(c % 10)];
    assert Fixed2(p) == w + ['.'] + tail;
    CutBeforeLastThree(w, '.', tail);
    Fixed2Value(p);
  }

  /** The whole part and the two decimals "%.2f" prints make up the amount
      rounded to the cent. */
  lemma Fixed2Value(p: real)
    requires p >= 0.0
    ensures var c := RoundHalfEven(p * 100.0);
      -0.005 <= (DecimalValue(DecimalText(c / 100)) * 100 + DecimalValue([DigitChar(c / 10 % 10), DigitChar(c % 10)])) as real / 100.0 - p <= 0.005
  {
    var c := RoundHalfEven(p * 100.0);
    DecimalRoundTrip(c / 100);
    TwoDigitValue(c);
    CentsWithinHalf(p, c);
  }
}
