/** The JavaScript string operations the service relies on, stated over
    `seq<char>`: `trim`, `includes`, `split` on one character, `join`,
    `replace(/literal/g, '')` and the decimal rendering of a non-negative
    integer in a template literal. */
module Strings {

  /** ECMAScript WhiteSpace and LineTerminator code points: the characters
      that `\s` matches and that `trim` removes. */
  predicate IsWhite(c: char) {
    var n := c as int;
    n == 0x09 || n == 0x0A || n == 0x0B || n == 0x0C || n == 0x0D || n == 0x20
    || n == 0xA0 || n == 0x1680 || (0x2000 <= n <= 0x200A) || n == 0x2028
    || n == 0x2029 || n == 0x202F || n == 0x205F || n == 0x3000 || n == 0xFEFF
  }

  /** ECMAScript LineTerminator: the characters the regular-expression `.`
      does not match. */
  predicate IsLineTerminator(c: char) {
    var n := c as int;
    n == 0x0A || n == 0x0D || n == 0x2028 || n == 0x2029
  }

  predicate IsDigit(c: char) {
    '0' <= c <= '9'
  }

  predicate AllWhite(s: string) {
    forall i :: 0 <= i < |s| ==> IsWhite(s[i])
  }

  predicate AllDigits(s: string) {
    forall i :: 0 <= i < |s| ==> IsDigit(s[i])
  }

  // ---------------------------------------------------------------- trim

  /** Removes the leading white space: the result is a suffix of `s`, and
      what was cut off is all white. */
  function TrimStart(s: string): (r: string)
    ensures |r| <= |s| && r == s[|s| - |r|..]
    ensures forall i :: 0 <= i < |s| - |r| ==> IsWhite(s[i])
    ensures |r| > 0 ==> !IsWhite(r[0])
  {
    if |s| > 0 && IsWhite(s[0]) then
      var r := TrimStart(s[1..]);
      assert forall i :: 1 <= i < |s| ==> s[1..][i - 1] == s[i];
      r
    else s
  }

  /** Removes the trailing white space: the result is a prefix of `s`, and
      what was cut off is all white. */
  function TrimEnd(s: string): (r: string)
    ensures |r| <= |s| && r == s[..|r|]
    ensures forall i :: |r| <= i < |s| ==> IsWhite(s[i])
    ensures |r| > 0 ==> !IsWhite(r[|r| - 1])
  {
    if |s| > 0 && IsWhite(s[|s| - 1]) then
      var r := TrimEnd(s[..|s| - 1]);
      assert forall i :: 0 <= i < |s| - 1 ==> s[..|s| - 1][i] == s[i];
      r
    else s
  }

  /** `s.trim()`: neither end of the result is white, and the result is
      empty exactly when `s` is all white. */
  function Trim(s: string): (r: string)
    ensures |r| <= |s|
    ensures |r| > 0 ==> !IsWhite(r[0]) && !IsWhite(r[|r| - 1])
    ensures r == "" <==> AllWhite(s)
  {
    var t := TrimStart(s);
    var r := TrimEnd(t);
    assert |r| > 0 ==> r[0] == t[0];
    assert forall i :: 0 <= i < |t| ==> t[i] == s[|s| - |t| + i];
    r
  }

  /** The trim of `s` is a slice of `s` whose cut-off ends are all white:
      `trim` removes exactly the white prefix and the white suffix. */
  lemma TrimIsMiddle(s: string)
    ensures exists i, j :: 0 <= i <= j <= |s| && Trim(s) == s[i..j] && AllWhite(s[..i]) && AllWhite(s[j..])
  {
    var t := TrimStart(s);
    var r := TrimEnd(t);
    var i, j := |s| - |t|, |s| - |t| + |r|;
    assert Trim(s) == r;
    AllWhiteUpTo(s, i);
    forall k | j <= k < |s|
      ensures IsWhite(s[k])
    {
      assert s[k] == t[k - i];
    }
    AllWhiteFrom(s, j);
    assert r == s[i..j];
  }

  /** A prefix of white characters is all white. */
  lemma AllWhiteUpTo(s: string, k: nat)
    requires k <= |s| && forall i :: 0 <= i < k ==> IsWhite(s[i])
    ensures AllWhite(s[..k])
  {
    assert forall i :: 0 <= i < k ==> s[..k][i] == s[i];
  }

  /** A suffix of white characters is all white. */
  lemma AllWhiteFrom(s: string, k: nat)
    requires k <= |s| && forall i :: k <= i < |s| ==> IsWhite(s[i])
    ensures AllWhite(s[k..])
  {
    assert forall i :: 0 <= i < |s| - k ==> s[k..][i] == s[k + i];
  }

  /** `e.trim().length == 0`. */
  predicate IsBlank(s: string) {
    Trim(s) == ""
  }

  /** A string whose ends are not white is its own trim. */
  lemma TrimUnchanged(s: string)
    requires |s| > 0 ==> !IsWhite(s[0]) && !IsWhite(s[|s| - 1])
    ensures Trim(s) == s
  {
  }

  /** Trimming twice is trimming once. */
  lemma TrimIdempotent(s: string)
    ensures Trim(Trim(s)) == Trim(s)
  {
    TrimUnchanged(Trim(s));
  }

  /** Leading white space does not survive a trim. */
  lemma TrimLeadingWhite(c: char, s: string)
    requires IsWhite(c)
    ensures Trim([c] + s) == Trim(s)
  {
    assert ([c] + s)[1..] == s;
  }

  // ------------------------------------------------------------- includes

  /** `sub` occurs in `s` starting at index `p`. */
  predicate OccursAt(s: string, sub: string, p: int) {
    0 <= p && p + |sub| <= |s| && s[p..p + |sub|] == sub
  }

  /** `s.includes(sub)`: some occurrence of `sub` in `s`. */
  function Contains(s: string, sub: string): (r: bool)
    ensures r <==> exists p :: OccursAt(s, sub, p)
  {
    if |sub| <= |s| && s[..|sub|] == sub then
      assert OccursAt(s, sub, 0);
      true
    else if |s| == 0 then
      false
    else
      var r := Contains(s[1..], sub);
      assert forall p :: OccursAt(s[1..], sub, p) <==> OccursAt(s, sub, p + 1) by {
        forall p ensures OccursAt(s[1..], sub, p) <==> OccursAt(s, sub, p + 1) {
          if 0 <= p && p + |sub| <= |s| - 1 {
            assert s[1..][p..p + |sub|] == s[p + 1..p + 1 + |sub|];
          }
        }
      }
      assert !OccursAt(s, sub, 0);
      assert forall p :: OccursAt(s, sub, p) ==> p == 0 || OccursAt(s[1..], sub, p - 1);
      r
  }

  /** An occurrence of a string is an occurrence of each of its prefixes. */
  lemma ContainsPrefix(s: string, sub: string, k: nat)
    requires k <= |sub|
    ensures Contains(s, sub) ==> Contains(s, sub[..k])
  {
    if Contains(s, sub) {
      var p :| OccursAt(s, sub, p);
      assert s[p..p + k] == s[p..p + |sub|][..k];
      assert OccursAt(s, sub[..k], p);
    }
  }

  // ------------------------------------------------------------- numbers

  function DigitChar(d: nat): (c: char)
    requires d < 10
    ensures IsDigit(c) && c as int - '0' as int == d
  {
    (('0' as int) + d) as char
  }

  /** `${n}` for a non-negative integer: its decimal digits, most significant
      first, with no leading zeros. */
  function NatToString(n: nat): (r: string)
    ensures |r| > 0 && AllDigits(r)
    ensures |r| > 1 ==> r[0] != '0'
  {
    if n < 10 then [DigitChar(n)] else NatToString(n / 10) + [DigitChar(n % 10)]
  }

  /** The number a string of decimal digits denotes. */
  function DecimalValue(s: string): nat
    requires AllDigits(s)
  {
    if s == [] then 0
    else DecimalValue(s[..|s| - 1]) * 10 + (s[|s| - 1] as int - '0' as int)
  }

  /** Reading back a rendered number gives the number. */
  lemma {:induction false} DecimalRoundTrip(n: nat)
    ensures DecimalValue(NatToString(n)) == n
  {
    if n >= 10 {
      DecimalRoundTrip(n / 10);
      var s := NatToString(n);
      assert s[..|s| - 1] == NatToString(n / 10);
    }
  }

  /** Different numbers render differently. */
  lemma NatToStringInjective(m: nat, n: nat)
    ensures NatToString(m) == NatToString(n) ==> m == n
  {
    DecimalRoundTrip(m);
    DecimalRoundTrip(n);
  }

  // ------------------------------------------------------ split and join

  /** Number of occurrences of `c` in `s`. */
  function Count(s: string, c: char): nat {
    if |s| == 0 then 0 else (if s[0] == c then 1 else 0) + Count(s[1..], c)
  }

  /** `s.split(c)` for a one-character separator: one piece more than there
      are separators, no piece holding the separator. Empty pieces are kept. */
  function Split(s: string, c: char): (r: seq<string>)
    ensures |r| == Count(s, c) + 1
    ensures forall i :: 0 <= i < |r| ==> c !in r[i]
  {
    if |s| == 0 then [""]
    else
      var rest := Split(s[1..], c);
      if s[0] == c then [""] + rest
      else [[s[0]] + rest[0]] + rest[1..]
  }

  /** `xs.join(sep)`. */
  function Join(xs: seq<string>, sep: string): string {
    if |xs| == 0 then ""
    else if |xs| == 1 then xs[0]
    else xs[0] + sep + Join(xs[1..], sep)
  }

  /** Joining the pieces of a split with the separator gives the string back. */
  lemma {:induction false} JoinSplit(s: string, c: char)
    ensures Join(Split(s, c), [c]) == s
  {
    if |s| > 0 {
      JoinSplit(s[1..], c);
      var rest := Split(s[1..], c);
      if s[0] != c && |rest| > 1 {
        assert rest == [rest[0]] + rest[1..];
        assert Join(rest, [c]) == rest[0] + [c] + Join(rest[1..], [c]);
      }
    }
  }

  /** A string without the separator splits into itself. */
  lemma {:induction false} SplitWithoutSeparator(s: string, c: char)
    requires c !in s
    ensures Split(s, c) == [s]
  {
    if |s| > 0 {
      assert c !in s[1..] && s[0] != c;
      SplitWithoutSeparator(s[1..], c);
      assert [s[0]] + s[1..] == s;
    }
  }

  /** The first separator ends the first piece. */
  lemma {:induction false} SplitAtFirst(a: string, b: string, c: char)
    requires c !in a
    ensures Split(a + [c] + b, c) == [a] + Split(b, c)
  {
    if |a| == 0 {
      assert (a + [c] + b)[1..] == b;
    } else {
      assert (a + [c] + b)[0] == a[0] && (a + [c] + b)[1..] == a[1..] + [c] + b;
      assert a[0] != c && c !in a[1..];
      SplitAtFirst(a[1..], b, c);
      assert [a[0]] + a[1..] == a;
    }
  }

  /** Splitting a join of separator-free pieces recovers the pieces. */
  lemma {:induction false} SplitJoin(xs: seq<string>, c: char)
    requires |xs| > 0 && forall i :: 0 <= i < |xs| ==> c !in xs[i]
    ensures Split(Join(xs, [c]), c) == xs
  {
    if |xs| == 1 {
      SplitWithoutSeparator(xs[0], c);
    } else {
      SplitJoin(xs[1..], c);
      SplitAtFirst(xs[0], Join(xs[1..], [c]), c);
    }
  }

  /** `xs.map(t => t.trim())`. */
  function TrimEach(xs: seq<string>): (r: seq<string>)
    ensures |r| == |xs| && forall i :: 0 <= i < |xs| ==> r[i] == Trim(xs[i])
  {
    seq(|xs|, i requires 0 <= i < |xs| => Trim(xs[i]))
  }

  /** White space ahead of the first piece disappears once the pieces are trimmed. */
  lemma SplitLeadingWhite(c: char, s: string, sep: char)
    requires IsWhite(c) && c != sep
    ensures TrimEach(Split([c] + s, sep)) == TrimEach(Split(s, sep))
  {
    var rest := Split(s, sep);
    SplitNonSeparator(c, s, sep);
    TrimLeadingWhite(c, rest[0]);
    TrimEachSameHead([c] + rest[0], rest[0], rest[1..]);
    HeadTail(rest);
  }

  lemma HeadTail<T>(xs: seq<T>)
    requires |xs| > 0
    ensures [xs[0]] + xs[1..] == xs
  {
  }

  /** A character other than the separator joins the first piece. */
  lemma SplitNonSeparator(c: char, s: string, sep: char)
    requires c != sep
    ensures Split([c] + s, sep) == [[c] + Split(s, sep)[0]] + Split(s, sep)[1..]
  {
    assert ([c] + s)[1..] == s;
  }

  lemma TrimEachSameHead(x: string, y: string, zs: seq<string>)
    requires Trim(x) == Trim(y)
    ensures TrimEach([x] + zs) == TrimEach([y] + zs)
  {
    assert forall i :: 0 < i <= |zs| ==> ([x] + zs)[i] == ([y] + zs)[i];
  }

  lemma TrimEachCons(x: string, ys: seq<string>, zs: seq<string>)
    requires TrimEach(ys) == TrimEach(zs)
    ensures TrimEach([x] + ys) == TrimEach([x] + zs)
  {
    forall i | 0 <= i < |ys| ensures Trim(ys[i]) == Trim(zs[i]) {
      assert TrimEach(ys)[i] == TrimEach(zs)[i];
    }
  }

  lemma SplitAfterComma(x: string, j: string)
    requires ',' !in x
    ensures Split(x + ", " + j, ',') == [x] + Split([' '] + j, ',')
  {
    assert x + ", " + j == x + [','] + ([' '] + j);
    SplitAtFirst(x, [' '] + j, ',');
  }

  /** Splitting `xs.join(", ")` on "," and trimming the pieces gives the
      trimmed items back when no item holds a comma. */
  lemma {:induction false} SplitCommaSpaceJoin(xs: seq<string>)
    requires |xs| > 0 && forall i :: 0 <= i < |xs| ==> ',' !in xs[i]
    ensures TrimEach(Split(Join(xs, ", "), ',')) == TrimEach(xs)
  {
    if |xs| == 1 {
      SplitWithoutSeparator(xs[0], ',');
    } else {
      var j := Join(xs[1..], ", ");
      SplitCommaSpaceJoin(xs[1..]);
      SplitAfterComma(xs[0], j);
      SplitLeadingWhite(' ', j, ',');
      TrimEachCons(xs[0], Split([' '] + j, ','), xs[1..]);
      assert [xs[0]] + xs[1..] == xs;
    }
  }

  // ------------------------------------------------------------- replace

  /** `s.replace(/pat/g, '')` for a literal pattern: the occurrences found
      scanning left to right, each after the end of the previous one, are
      deleted. */
  function RemoveAll(s: string, pat: string): (r: string)
    requires |pat| > 0
    ensures |r| <= |s|
  {
    if |s| < |pat| then s
    else if s[..|pat|] == pat then RemoveAll(s[|pat|..], pat)
    else [s[0]] + RemoveAll(s[1..], pat)
  }

  /** Where the pattern does not occur, nothing is removed. */
  lemma {:induction false} RemoveAllAbsent(s: string, pat: string)
    requires |pat| > 0 && !Contains(s, pat)
    ensures RemoveAll(s, pat) == s
  {
    if |pat| <= |s| {
      assert !OccursAt(s, pat, 0);
      assert !Contains(s[1..], pat);
      RemoveAllAbsent(s[1..], pat);
    }
  }

  /** Characters that cannot start the pattern pass through one by one. */
  lemma {:induction false} RemoveAllSkips(x: string, y: string, pat: string)
    requires |pat| > 0 && pat[0] !in x
    ensures RemoveAll(x + y, pat) == x + RemoveAll(y, pat)
  {
    if |x| > 0 {
      assert (x + y)[0] == x[0] && (x + y)[1..] == x[1..] + y;
      assert pat[0] !in x[1..];
      RemoveAllSkips(x[1..], y, pat);
      assert [x[0]] + x[1..] == x;
      if |x + y| >= |pat| {
        assert (x + y)[..|pat|][0] == x[0] != pat[0];
      }
    } else {
      assert x + y == y;
    }
  }

  /** Deleting every "```" leaves no "```": deletions cannot splice a new one
      together, because a run of backticks loses its triples from the left. */
  lemma {:induction false} RemoveAllBackticks(s: string)
    ensures !Contains(RemoveAll(s, "```"), "```")
  {
    var f := "```";
    if |s| < 3 {
      assert !Contains(s, f);
    } else if s[..3] == f {
      RemoveAllBackticks(s[3..]);
    } else {
      var t := s[1..];
      var rt := RemoveAll(t, f);
      RemoveAllBackticks(t);
      assert RemoveAll(s, f) == [s[0]] + rt;
      assert ([s[0]] + rt)[1..] == rt;
      if s[0] == '`' {
        // t does not start with two backticks, so neither does rt
        if t[0] != '`' {
          RemoveAllSkips([t[0]], t[1..], f);
          assert t == [t[0]] + t[1..];
        } else if |t| >= 3 {
          assert t[1] != '`';
          assert t[..3] != f;
          assert rt == [t[0]] + RemoveAll(t[1..], f);
          RemoveAllSkips([t[1]], t[2..], f);
          assert t[1..] == [t[1]] + t[2..];
        } else {
          assert rt == t;
        }
        assert !(|rt| >= 2 && rt[0] == '`' && rt[1] == '`');
      }
      assert !OccursAt([s[0]] + rt, f, 0);
    }
  }
}
