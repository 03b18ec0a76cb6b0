/** The Python string operations the scrapers rely on, over `seq<char>`:
    `str.replace` of one character, ASCII `str.lower`, `str.strip` /
    `str.rstrip` with an explicit character set, `str.split(c)[0]`,
    `sep.join(parts)` and `filter(str.isdigit, s)`. */
module Text {

  /** The characters for which Python's `str.isspace` holds; `str.strip()`
      with no argument removes exactly these. */
  const Whitespace: set<char> := {
    '\U{20}', '\U{9}', '\U{a}', '\U{b}', '\U{c}', '\U{d}', '\U{1c}',
    '\U{1d}', '\U{1e}', '\U{1f}', '\U{85}', '\U{a0}', '\U{1680}', '\U{2000}',
    '\U{2001}', '\U{2002}', '\U{2003}', '\U{2004}', '\U{2005}', '\U{2006}', '\U{2007}',
    '\U{2008}', '\U{2009}', '\U{200a}', '\U{2028}', '\U{2029}', '\U{202f}', '\U{205f}',
    '\U{3000}'
  }

  predicate IsDigit(c: char) {
    '0' <= c <= '9'
  }

  predicate IsUpper(c: char) {
    'A' <= c <= 'Z'
  }

  function LowerChar(c: char): char {
    if IsUpper(c) then (c as int - 'A' as int + 'a' as int) as char else c
  }

  /** `s.replace(a, b)` for single characters `a` and `b`. */
  function ReplaceChar(s: string, a: char, b: char): (r: string)
    ensures |r| == |s|
    ensures forall i :: 0 <= i < |s| ==> r[i] == (if s[i] == a then b else s[i])
  {
    if s == [] then []
    else ReplaceChar(s[..|s| - 1], a, b) + [if s[|s| - 1] == a then b else s[|s| - 1]]
  }

  /** `s.lower()` restricted to the ASCII letters. */
  function Lower(s: string): (r: string)
    ensures |r| == |s|
    ensures forall i :: 0 <= i < |s| ==> r[i] == LowerChar(s[i])
  {
    if s == [] then [] else Lower(s[..|s| - 1]) + [LowerChar(s[|s| - 1])]
  }

  lemma LowerHasNoUpper(s: string)
    ensures forall i :: 0 <= i < |s| ==> !IsUpper(Lower(s)[i])
  {
  }

  /** `c.lower() in s.lower()` for a lower-case letter `c` is the same as
      finding `c` or its upper-case form in `s`. */
  lemma {:induction false} InLowerIffEitherCase(s: string, c: char)
    requires 'a' <= c <= 'z'
    ensures c in Lower(s) <==> (c in s || (c as int - 'a' as int + 'A' as int) as char in s)
  {
    var u := (c as int - 'a' as int + 'A' as int) as char;
    var l := Lower(s);
    if c in l {
      var i :| 0 <= i < |l| && l[i] == c;
      assert s[i] == c || s[i] == u;
    }
    if c in s {
      var i :| 0 <= i < |s| && s[i] == c;
      assert l[i] == c;
    }
    if u in s {
      var i :| 0 <= i < |s| && s[i] == u;
      assert l[i] == c;
    }
  }

  /** The scan `lstrip` makes: from index `i`, the first index that is not
      a member of `cs` (or the end of `s`). */
  function LeadingEnd(s: string, cs: set<char>, i: nat): (n: nat)
    requires i <= |s|
    ensures i <= n <= |s|
    ensures forall j :: i <= j < n ==> s[j] in cs
    ensures n == |s| || s[n] !in cs
    decreases |s| - i
  {
    if i < |s| && s[i] in cs then LeadingEnd(s, cs, i + 1) else i
  }

  /** The scan `rstrip` makes: going down from index `j`, the start of the
      run of members of `cs` that ends there. */
  function TrailingStart(s: string, cs: set<char>, j: nat): (n: nat)
    requires j <= |s|
    ensures n <= j
    ensures forall k :: n <= k < j ==> s[k] in cs
    ensures n == 0 || s[n - 1] !in cs
  {
    if j > 0 && s[j - 1] in cs then TrailingStart(s, cs, j - 1) else j
  }

  /** Any index meeting `LeadingEnd`'s contract is the one it returns. */
  lemma {:induction false} LeadingEndAt(s: string, cs: set<char>, i: nat, n: nat)
    requires i <= n <= |s|
    requires forall j :: i <= j < n ==> s[j] in cs
    requires n == |s| || s[n] !in cs
    ensures LeadingEnd(s, cs, i) == n
    decreases n - i
  {
    if i < n {
      LeadingEndAt(s, cs, i + 1, n);
    }
  }

  /** Any index meeting `TrailingStart`'s contract is the one it returns. */
  lemma {:induction false} TrailingStartAt(s: string, cs: set<char>, j: nat, n: nat)
    requires n <= j <= |s|
    requires forall k :: n <= k < j ==> s[k] in cs
    requires n == 0 || s[n - 1] !in cs
    ensures TrailingStart(s, cs, j) == n
    decreases j
  {
    if n < j {
      TrailingStartAt(s, cs, j - 1, n);
    }
  }

  /** `s.lstrip(chars)`: drops the longest prefix made only of `cs`. */
  function StripLeft(s: string, cs: set<char>): (r: string)
    ensures |r| <= |s| && r == s[|s| - |r|..]
    ensures |r| == 0 || r[0] !in cs
    ensures forall i :: 0 <= i < |s| - |r| ==> s[i] in cs
  {
    s[LeadingEnd(s, cs, 0)..]
  }

  /** `s.rstrip(chars)`: drops the longest suffix made only of `cs`. */
  function StripRight(s: string, cs: set<char>): (r: string)
    ensures |r| <= |s| && r == s[..|r|]
    ensures |r| == 0 || r[|r| - 1] !in cs
    ensures forall i :: |r| <= i < |s| ==> s[i] in cs
  {
    s[..TrailingStart(s, cs, |s|)]
  }

  /** `s.strip(chars)`: both ends. */
  function Strip(s: string, cs: set<char>): (r: string)
    ensures |r| <= |s|
  {
    StripRight(StripLeft(s, cs), cs)
  }

  /** The result of `strip` is a slice `s[k..k+|r|]` whose two ends are not
      in `cs`, and everything cut away on either side is in `cs`. */
  lemma StripShape(s: string, cs: set<char>)
    ensures var r := Strip(s, cs); var k := |s| - |StripLeft(s, cs)|;
      && k + |r| <= |s|
      && r == s[k..k + |r|]
      && (forall i :: 0 <= i < k ==> s[i] in cs)
      && (forall i :: k + |r| <= i < |s| ==> s[i] in cs)
      && (|r| == 0 || (r[0] !in cs && r[|r| - 1] !in cs))
  {
    var l := StripLeft(s, cs);
    var r := StripRight(l, cs);
    assert Strip(s, cs) == r;
    StripSlice(s, l, r, cs);
  }

  /** Stripping a suffix `l` of `s` (whose cut-away prefix is in `cs`) down
      to a prefix `r` (whose cut-away suffix is in `cs`) leaves a slice of
      `s` with everything outside it in `cs`. */
  lemma StripSlice(s: string, l: string, r: string, cs: set<char>)
    requires |l| <= |s| && l == s[|s| - |l|..]
    requires forall i :: 0 <= i < |s| - |l| ==> s[i] in cs
    requires |r| <= |l| && r == l[..|r|]
    requires forall i :: |r| <= i < |l| ==> l[i] in cs
    requires |l| == 0 || l[0] !in cs
    requires |r| == 0 || r[|r| - 1] !in cs
    ensures var k := |s| - |l|;
      && r == s[k..k + |r|]
      && (forall i :: 0 <= i < k ==> s[i] in cs)
      && (forall i :: k + |r| <= i < |s| ==> s[i] in cs)
    ensures |r| == 0 || (r[0] !in cs && r[|r| - 1] !in cs)
  {
    var k := |s| - |l|;
    assert l[..|r|] == s[k..k + |r|];
    forall i | k + |r| <= i < |s| ensures s[i] in cs {
      assert s[i] == l[i - k];
    }
  }

  lemma StripLeftSkips(pre: string, rest: string, cs: set<char>)
    requires forall i :: 0 <= i < |pre| ==> pre[i] in cs
    requires |rest| == 0 || rest[0] !in cs
    ensures StripLeft(pre + rest, cs) == rest
  {
    var s := pre + rest;
    LeadingEndAt(s, cs, 0, |pre|);
    assert s[|pre|..] == rest;
  }

  lemma StripRightSkips(rest: string, suf: string, cs: set<char>)
    requires forall i :: 0 <= i < |suf| ==> suf[i] in cs
    requires |rest| == 0 || rest[|rest| - 1] !in cs
    ensures StripRight(rest + suf, cs) == rest
  {
    var s := rest + suf;
    TrailingStartAt(s, cs, |s|, |rest|);
    assert s[..|rest|] == rest;
  }

  /** `strip` is characterised by its result: whenever `s` splits into a run
      of `cs`, a middle whose ends are not in `cs`, and another run of `cs`,
      that middle is exactly what `strip` returns. */
  lemma StripCharacterised(pre: string, mid: string, suf: string, cs: set<char>)
    requires forall i :: 0 <= i < |pre| ==> pre[i] in cs
    requires forall i :: 0 <= i < |suf| ==> suf[i] in cs
    requires |mid| == 0 || (mid[0] !in cs && mid[|mid| - 1] !in cs)
    ensures Strip(pre + mid + suf, cs) == mid
  {
    if mid == [] {
      var all := pre + suf;
      assert pre + mid + suf == all + [];
      StripLeftSkips(all, [], cs);
    } else {
      assert pre + mid + suf == pre + (mid + suf);
      StripLeftSkips(pre, mid + suf, cs);
      StripRightSkips(mid, suf, cs);
    }
  }

  lemma StripIdempotent(s: string, cs: set<char>)
    ensures Strip(Strip(s, cs), cs) == Strip(s, cs)
  {
    var r := Strip(s, cs);
    assert r == [] + r + [];
    StripCharacterised([], r, [], cs);
  }

  /** `s.split(c)[0]`: everything before the first `c`, or all of `s`. */
  function BeforeFirst(s: string, c: char): (r: string)
    ensures |r| <= |s| && r == s[..|r|]
    ensures c !in r
    ensures |r| < |s| ==> s[|r|] == c
  {
    if s == [] || s[0] == c then [] else [s[0]] + BeforeFirst(s[1..], c)
  }

  /** Cutting at the first `c` only looks into the part after a prefix
      that has no `c`. */
  lemma {:induction false} BeforeFirstAfterPrefix(p: string, s: string, c: char)
    requires c !in p
    ensures BeforeFirst(p + s, c) == p + BeforeFirst(s, c)
  {
    if p != [] {
      var t := p[1..];
      ConsAppend(p, s);
      BeforeFirstCons(p[0], t + s, c);
      BeforeFirstAfterPrefix(t, s, c);
      ConsAppend(p, BeforeFirst(s, c));
    } else {
      assert p + s == s;
    }
  }

  /** A non-empty `p` followed by `s` is its head followed by the rest. */
  lemma ConsAppend(p: string, s: string)
    requires p != []
    ensures p + s == [p[0]] + (p[1..] + s)
  {
  }

  /** A leading character other than `c` is kept by `BeforeFirst`. */
  lemma BeforeFirstCons(x: char, t: string, c: char)
    requires x != c
    ensures BeforeFirst([x] + t, c) == [x] + BeforeFirst(t, c)
  {
    assert ([x] + t)[1..] == t;
  }

  lemma BeforeFirstNoOccurrence(s: string, c: char)
    ensures BeforeFirst(s, c) == s <==> c !in s
  {
    if c !in s {
      assert s + [] == s;
      BeforeFirstAfterPrefix(s, [], c);
    }
  }

  /** `sep.join(parts)`. */
  function Join(parts: seq<string>, sep: string): (r: string)
    ensures parts == [] ==> r == ""
    ensures |parts| == 1 ==> r == parts[0]
  {
    if |parts| == 0 then ""
    else if |parts| == 1 then parts[0]
    else Join(parts[..|parts| - 1], sep) + sep + parts[|parts| - 1]
  }

  /** A join splits at any separator between two parts: joining is the
      same as joining the two halves and putting `sep` between them. */
  lemma {:induction false} JoinSplit(parts: seq<string>, sep: string, k: nat)
    requires 0 < k < |parts|
    ensures Join(parts, sep) == Join(parts[..k], sep) + sep + Join(parts[k..], sep)
  {
    var n := |parts|;
    var init := parts[..n - 1];
    if k < n - 1 {
      JoinSplit(init, sep, k);
      assert init[..k] == parts[..k];
      assert parts[k..][..n - k - 1] == init[k..];
      assert parts[k..][n - k - 1] == parts[n - 1];
    } else {
      assert parts[k..] == [parts[n - 1]];
    }
  }

  lemma JoinEmpty(parts: seq<string>, sep: string)
    requires sep != ""
    ensures Join(parts, sep) == "" <==> (parts == [] || parts == [""])
  {
    if |parts| >= 2 {
      JoinSplit(parts, sep, 1);
    }
  }

  /** `''.join(filter(str.isdigit, s))` for ASCII digits: the digits of `s`
      in their order, nothing else. */
  function DigitChars(s: string): (r: string)
    ensures |r| <= |s|
    ensures forall i :: 0 <= i < |r| ==> IsDigit(r[i])
    ensures forall c :: c in r <==> c in s && IsDigit(c)
  {
    if s == [] then []
    else DigitChars(s[..|s| - 1]) + (if IsDigit(s[|s| - 1]) then [s[|s| - 1]] else [])
  }

  lemma DigitCharsEmpty(s: string)
    ensures DigitChars(s) == "" <==> forall i :: 0 <= i < |s| ==> !IsDigit(s[i])
  {
    var r := DigitChars(s);
    if r != "" {
      assert r[0] in r;
    }
    if exists i :: 0 <= i < |s| && IsDigit(s[i]) {
      var i :| 0 <= i < |s| && IsDigit(s[i]);
      assert s[i] in r;
    }
  }

  lemma {:induction false} DigitCharsConcat(a: string, b: string)
    ensures DigitChars(a + b) == DigitChars(a) + DigitChars(b)
  {
    if b != [] {
      var b' := b[..|b| - 1];
      assert (a + b)[..|a + b| - 1] == a + b';
      DigitCharsConcat(a, b');
    } else {
      assert a + b == a;
    }
  }
}
