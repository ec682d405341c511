/**
 * The JavaScript string operations the memo code relies on, written out over `seq<char>`:
 * `includes`/`indexOf`, `replace` with a string pattern (first occurrence), `replace` with a
 * global literal regular expression (every non-overlapping occurrence, left to right),
 * `split`/`join` on one separator character, `trim`, `String(n)` and `parseInt`.
 */
module Strings {
  import opened Wrappers

  /** The characters of JavaScript's `\s` class (WhiteSpace and LineTerminator); `trim` and `parseInt` strip the same set. */
  predicate IsWhitespace(c: char) {
    c == ' ' || c == '\t' || c == '\n' || c == '\r' || c == '\U{000B}' || c == '\U{000C}'
    || c == '\U{00A0}' || c == '\U{1680}' || ('\U{2000}' <= c <= '\U{200A}')
    || c == '\U{2028}' || c == '\U{2029}' || c == '\U{202F}' || c == '\U{205F}'
    || c == '\U{3000}' || c == '\U{FEFF}'
  }

  predicate IsDigit(c: char) {
    '0' <= c <= '9'
  }

  predicate AllDigits(s: string) {
    forall k :: 0 <= k < |s| ==> IsDigit(s[k])
  }

  // ---------------------------------------------------------------------------
  // Searching

  /** `t` occurs in `s` starting at index `i`. */
  predicate OccursAt(s: string, t: string, i: nat) {
    i + |t| <= |s| && s[i..i + |t|] == t
  }

  /** Occurrences in `s[1..]` are the occurrences in `s` after index 0, shifted by one. */
  lemma OccursShift(s: string, t: string, j: nat)
    requires s != []
    ensures OccursAt(s, t, j + 1) <==> OccursAt(s[1..], t, j)
  {
    if j + 1 + |t| <= |s| {
      assert s[j + 1..j + 1 + |t|] == s[1..][j..j + |t|];
    }
  }

  /** The first index from `k` on at which `t` occurs in `s`, or -1. */
  function IndexOfFrom(s: string, t: string, k: nat): (i: int)
    requires k <= |s|
    ensures i == -1 || (k <= i && i + |t| <= |s|)
    decreases |s| - k
  {
    if OccursAt(s, t, k) then k
    else if k == |s| then -1
    else IndexOfFrom(s, t, k + 1)
  }

  /** `s.indexOf(t)`: the first index at which `t` occurs in `s`, or -1. */
  function IndexOf(s: string, t: string): (i: int)
    ensures -1 <= i <= |s|
  {
    IndexOfFrom(s, t, 0)
  }

  lemma {:induction false} IndexOfFromSpec(s: string, t: string, k: nat)
    requires k <= |s|
    ensures var i := IndexOfFrom(s, t, k);
      (i >= 0 ==> OccursAt(s, t, i) && forall j: nat :: k <= j < i ==> !OccursAt(s, t, j))
      && (i == -1 ==> forall j: nat :: k <= j ==> !OccursAt(s, t, j))
    decreases |s| - k
  {
    if !OccursAt(s, t, k) && k < |s| {
      IndexOfFromSpec(s, t, k + 1);
    }
  }

  /** The index found holds an occurrence and none comes before it; -1 means there is none. */
  lemma IndexOfSpec(s: string, t: string)
    ensures var i := IndexOf(s, t);
      (i >= 0 ==> OccursAt(s, t, i) && forall j: nat :: j < i ==> !OccursAt(s, t, j))
      && (i == -1 ==> forall j: nat :: !OccursAt(s, t, j))
  {
    IndexOfFromSpec(s, t, 0);
  }

  /** `s.includes(t)` (also Obsidian's `String.prototype.contains`): `indexOf` finds `t` in `s`. */
  predicate Contains(s: string, t: string) {
    IndexOf(s, t) >= 0
  }

  /** Containment means an occurrence somewhere. */
  lemma ContainsOccurs(s: string, t: string)
    ensures Contains(s, t) <==> exists i: nat :: OccursAt(s, t, i)
  {
    IndexOfSpec(s, t);
  }

  lemma ContainsAt(s: string, t: string, i: nat)
    requires OccursAt(s, t, i)
    ensures Contains(s, t) && IndexOf(s, t) <= i
  {
    IndexOfSpec(s, t);
  }

  /** A string contains the one-character string `[c]` exactly when `c` is one of its characters. */
  lemma ContainsChar(s: string, c: char)
    ensures Contains(s, [c]) <==> c in s
  {
    if c in s {
      var i :| 0 <= i < |s| && s[i] == c;
      assert s[i..i + 1] == [c];
      ContainsAt(s, [c], i);
    }
    if Contains(s, [c]) {
      IndexOfSpec(s, [c]);
      var i := IndexOf(s, [c]);
      assert s[i..i + 1] == [c];
      assert s[i] == c;
    }
  }

  /** `s.indexOf(c)` for one character: the first position of `c`. */
  lemma IndexOfChar(s: string, c: char)
    requires Contains(s, [c])
    ensures var i := IndexOf(s, [c]); 0 <= i < |s| && s[i] == c && c !in s[..i]
  {
    IndexOfSpec(s, [c]);
    var i := IndexOf(s, [c]);
    assert s[i..i + 1] == [c];
    forall j | 0 <= j < i ensures s[j] != c {
      assert !OccursAt(s, [c], j);
      assert s[j..j + 1] == [s[j]];
    }
  }

  /** A prefix of `s` is contained in `s`; text contained in a part of `s` is contained in `s`. */
  lemma ContainsInfix(s: string, t: string, i: nat, j: nat)
    requires i <= j <= |s| && Contains(s[i..j], t)
    ensures Contains(s, t)
  {
    IndexOfSpec(s[i..j], t);
    var k: nat := IndexOf(s[i..j], t);
    forall m | 0 <= m < |t| ensures s[i + k + m] == t[m] {
      assert s[i..j][k..k + |t|][m] == t[m];
    }
    assert s[i + k..i + k + |t|] == t;
    ContainsAt(s, t, i + k);
  }

  // ---------------------------------------------------------------------------
  // Replacing

  /** `s.replace(pat, rep)` with a string pattern: only the first occurrence is replaced (the empty pattern occurs at 0). */
  function ReplaceFirst(s: string, pat: string, rep: string): (r: string)
    ensures !Contains(s, pat) ==> r == s
    ensures Contains(s, pat) ==> |r| == |s| - |pat| + |rep|
  {
    var i := IndexOf(s, pat);
    if i < 0 then s else s[..i] + rep + s[i + |pat|..]
  }

  /** Where the first occurrence is known, the replacement splices the new text in there. */
  lemma ReplaceFirstAt(s: string, pat: string, rep: string, before: string, after: string)
    requires s == before + pat + after && IndexOf(s, pat) == |before|
    ensures ReplaceFirst(s, pat, rep) == before + rep + after
  {
    assert s[..|before|] == before && s[|before| + |pat|..] == after;
  }

  /** Text that starts with the pattern has its start replaced. */
  lemma ReplaceFirstAtStart(s: string, pat: string, rep: string)
    requires pat <= s
    ensures ReplaceFirst(s, pat, rep) == rep + s[|pat|..]
  {
    assert s == [] + pat + s[|pat|..];
    assert OccursAt(s, pat, 0);
    ContainsAt(s, pat, 0);
    ReplaceFirstAt(s, pat, rep, [], s[|pat|..]);
  }

  /** Every character of a first-occurrence replacement comes from `s` or from `rep`. */
  lemma ReplaceFirstChars(s: string, pat: string, rep: string, x: char)
    requires x in ReplaceFirst(s, pat, rep)
    ensures x in s || x in rep
  {
    var i := IndexOf(s, pat);
    if i >= 0 {
      var r := ReplaceFirst(s, pat, rep);
      assert r == s[..i] + rep + s[i + |pat|..];
      if x !in rep {
        assert x in s[..i] || x in s[i + |pat|..];
      }
    }
  }

  /**
   * `s.replace(/pat/g, rep)` for a literal, non-empty `pat`: scanning left to right, every
   * occurrence that does not overlap an earlier replaced one is replaced.
   */
  function ReplaceAll(s: string, pat: string, rep: string): (r: string)
    requires pat != []
    decreases |s|
  {
    if s == [] then []
    else if pat <= s then rep + ReplaceAll(s[|pat|..], pat, rep)
    else [s[0]] + ReplaceAll(s[1..], pat, rep)
  }

  /** Every character of a global replacement comes from `rep` or from `s`; a one-character pattern is gone. */
  lemma {:induction false} ReplaceAllChars(s: string, pat: string, rep: string, x: char)
    requires pat != []
    requires x in ReplaceAll(s, pat, rep)
    ensures x in rep || (x in s && (|pat| == 1 ==> x != pat[0]))
    decreases |s|
  {
    if s == [] {
    } else if pat <= s {
      if x !in rep {
        ReplaceAllChars(s[|pat|..], pat, rep, x);
      }
    } else if x != s[0] {
      ReplaceAllChars(s[1..], pat, rep, x);
    } else if |pat| == 1 {
      assert pat != s[..1];
    }
  }

  /** A global replacement leaves a string that does not contain the pattern unchanged. */
  lemma {:induction false} ReplaceAllAbsent(s: string, pat: string, rep: string)
    requires pat != [] && !Contains(s, pat)
    ensures ReplaceAll(s, pat, rep) == s
    decreases |s|
  {
    if s != [] {
      IndexOfSpec(s, pat);
      assert !OccursAt(s, pat, 0);
      assert |pat| > |s| || s[0..|pat|] == s[..|pat|];
      assert !(pat <= s);
      assert !Contains(s[1..], pat) by {
        IndexOfSpec(s[1..], pat);
        var j := IndexOf(s[1..], pat);
        if j >= 0 {
          OccursShift(s, pat, j);
        }
      }
      ReplaceAllAbsent(s[1..], pat, rep);
    }
  }

  // ---------------------------------------------------------------------------
  // Splitting and joining

  /** `s.split(c)`: the pieces between occurrences of `c`; `c` at either end gives an empty piece there. */
  function Split(s: string, c: char): (r: seq<string>)
    ensures |r| >= 1
    decreases |s|
  {
    if s == [] then [[]]
    else
      var rest := Split(s[1..], c);
      if s[0] == c then [[]] + rest else [[s[0]] + rest[0]] + rest[1..]
  }

  /** No piece contains the separator. */
  lemma {:induction false} SplitPieces(s: string, c: char)
    ensures forall k :: 0 <= k < |Split(s, c)| ==> c !in Split(s, c)[k]
    decreases |s|
  {
    if s != [] {
      SplitPieces(s[1..], c);
      var rest := Split(s[1..], c);
      if s[0] != c {
        assert c !in [s[0]] + rest[0];
      }
    }
  }

  /** Every character of a piece is a character of the string. */
  lemma {:induction false} SplitChars(s: string, c: char, k: nat, x: char)
    requires k < |Split(s, c)| && x in Split(s, c)[k]
    ensures x in s
    decreases |s|
  {
    if s != [] {
      var rest := Split(s[1..], c);
      if s[0] == c {
        assert k > 0;
        SplitChars(s[1..], c, k - 1, x);
      } else if k == 0 {
        if x != s[0] {
          assert x in rest[0];
          SplitChars(s[1..], c, 0, x);
        }
      } else {
        SplitChars(s[1..], c, k, x);
      }
    }
  }

  /** There is one piece more than there are separators. */
  lemma {:induction false} SplitCount(s: string, c: char)
    ensures |Split(s, c)| == multiset(s)[c] + 1
    decreases |s|
  {
    if s != [] {
      SplitCount(s[1..], c);
      assert s == [s[0]] + s[1..];
    }
  }

  /** `xs.join(c)`. */
  function Join(xs: seq<string>, c: char): string
    decreases |xs|
  {
    if |xs| == 0 then []
    else if |xs| == 1 then xs[0]
    else xs[0] + [c] + Join(xs[1..], c)
  }

  /** Joining the pieces with the separator gives back the string. */
  lemma {:induction false} JoinSplit(s: string, c: char)
    ensures Join(Split(s, c), c) == s
    decreases |s|
  {
    if s != [] {
      var rest := Split(s[1..], c);
      JoinSplit(s[1..], c);
      if s[0] != c && |rest| > 1 {
        assert Join(rest, c) == rest[0] + [c] + Join(rest[1..], c);
      }
    }
  }

  /** A string without the separator is a single piece. */
  lemma SplitWithoutSeparator(s: string, c: char)
    requires c !in s
    ensures Split(s, c) == [s]
  {
    JoinSplit(s, c);
  }

  /** Splitting at one separator splits the two sides independently. */
  lemma {:induction false} SplitConcat(a: string, b: string, c: char)
    ensures Split(a + [c] + b, c) == Split(a, c) + Split(b, c)
    decreases |a|
  {
    var s := a + [c] + b;
    if a == [] {
      assert s[1..] == b;
    } else {
      assert s[1..] == a[1..] + [c] + b;
      SplitConcat(a[1..], b, c);
    }
  }

  /** The pieces before the first separator and after it. */
  lemma SplitAtFirst(s: string, c: char, i: nat)
    requires i < |s| && s[i] == c && c !in s[..i]
    ensures Split(s, c) == [s[..i]] + Split(s[i + 1..], c)
  {
    assert s == s[..i] + [c] + s[i + 1..];
    SplitConcat(s[..i], s[i + 1..], c);
    SplitWithoutSeparator(s[..i], c);
  }

  /** Joining two non-empty lists puts one separator between their joins. */
  lemma {:induction false} JoinAppend(a: seq<string>, b: seq<string>, c: char)
    requires a != [] && b != []
    ensures Join(a + b, c) == Join(a, c) + [c] + Join(b, c)
    decreases |a|
  {
    if |a| > 1 {
      assert (a + b)[1..] == a[1..] + b;
      JoinAppend(a[1..], b, c);
    }
  }

  /** Joining a list cut at `i` puts one separator between the joins of the two parts. */
  lemma JoinSplitAt(xs: seq<string>, i: nat, c: char)
    requires 0 < i < |xs|
    ensures Join(xs, c) == Join(xs[..i], c) + [c] + Join(xs[i..], c)
  {
    assert xs[..i] + xs[i..] == xs;
    JoinAppend(xs[..i], xs[i..], c);
  }

  /** Pieces without the separator are recovered from their join. */
  lemma {:induction false} SplitJoin(xs: seq<string>, c: char)
    requires xs != [] && forall k :: 0 <= k < |xs| ==> c !in xs[k]
    ensures Split(Join(xs, c), c) == xs
    decreases |xs|
  {
    if |xs| == 1 {
      SplitWithoutSeparator(xs[0], c);
    } else {
      var rest := Join(xs[1..], c);
      assert Join(xs, c) == xs[0] + [c] + rest;
      SplitJoin(xs[1..], c);
      SplitConcat(xs[0], rest, c);
      SplitWithoutSeparator(xs[0], c);
      assert [xs[0]] + xs[1..] == xs;
    }
  }

  // ---------------------------------------------------------------------------
  // Trimming

  /** `s.trimStart()`. */
  function TrimStart(s: string): (r: string)
    ensures |r| <= |s| && r == s[|s| - |r|..]
    ensures r == [] || !IsWhitespace(r[0])
    decreases |s|
  {
    if s != [] && IsWhitespace(s[0]) then TrimStart(s[1..]) else s
  }

  /** `s.trimEnd()`. */
  function TrimEnd(s: string): (r: string)
    ensures r <= s
    ensures r == [] || !IsWhitespace(r[|r| - 1])
    decreases |s|
  {
    if s != [] && IsWhitespace(s[|s| - 1]) then TrimEnd(s[..|s| - 1]) else s
  }

  /** Only whitespace is cut from the start. */
  lemma {:induction false} TrimStartCutsWhitespace(s: string)
    ensures forall k :: 0 <= k < |s| - |TrimStart(s)| ==> IsWhitespace(s[k])
    decreases |s|
  {
    if s != [] && IsWhitespace(s[0]) {
      TrimStartCutsWhitespace(s[1..]);
      forall k | 1 <= k < |s| - |TrimStart(s)|
        ensures IsWhitespace(s[k])
      {
        assert s[k] == s[1..][k - 1];
      }
    }
  }

  /** Only whitespace is cut from the end. */
  lemma {:induction false} TrimEndCutsWhitespace(s: string)
    ensures forall k :: |TrimEnd(s)| <= k < |s| ==> IsWhitespace(s[k])
    decreases |s|
  {
    if s != [] && IsWhitespace(s[|s| - 1]) {
      TrimEndCutsWhitespace(s[..|s| - 1]);
    }
  }

  /** `s.trim()`. */
  function Trim(s: string): string {
    TrimEnd(TrimStart(s))
  }

  /** Neither starting nor ending with whitespace, as what `trim()` returns. */
  predicate IsTrimmed(s: string) {
    s == [] || (!IsWhitespace(s[0]) && !IsWhitespace(s[|s| - 1]))
  }

  /** A trimmed string neither starts nor ends with whitespace. */
  lemma TrimmedEnds(s: string)
    ensures var r := Trim(s);
      r == [] || (!IsWhitespace(r[0]) && !IsWhitespace(r[|r| - 1]))
  {
    var t := TrimStart(s);
    var r := TrimEnd(t);
    if r != [] {
      assert r[0] == t[0];
    }
  }

  /** A trimmed string is a piece of the original. */
  lemma TrimmedInfix(s: string)
    ensures Contains(s, Trim(s))
  {
    var t := TrimStart(s);
    PrefixOfSuffixOccurs(s, t, TrimEnd(t));
    ContainsAt(s, TrimEnd(t), |s| - |t|);
  }

  /** A prefix of a suffix of `s` occurs in `s` where the suffix starts. */
  lemma PrefixOfSuffixOccurs(s: string, t: string, r: string)
    requires |t| <= |s| && t == s[|s| - |t|..] && r <= t
    ensures OccursAt(s, r, |s| - |t|)
  {
    var i := |s| - |t|;
    assert r == t[..|r|];
    assert s[i..][..|r|] == s[i..i + |r|];
  }

  // ---------------------------------------------------------------------------
  // Numbers as text

  function DigitChar(d: nat): (c: char)
    requires d < 10
    ensures IsDigit(c)
  {
    ['0', '1', '2', '3', '4', '5', '6', '7', '8', '9'][d]
  }

  function DigitValue(c: char): (d: nat)
    requires IsDigit(c)
    ensures d < 10
  {
    (c as int - '0' as int) as nat
  }

  /** `String(n)` for a natural number: its decimal digits, without leading zeros. */
  function NatToString(n: nat): (r: string)
    ensures r != [] && AllDigits(r)
    ensures |r| > 1 ==> r[0] != '0'
    decreases n
  {
    if n < 10 then [DigitChar(n)] else NatToString(n / 10) + [DigitChar(n % 10)]
  }

  /** `n` zero-padded on the left to `width` digits (moment's `YYYY`, `MM`, `SSS` ...), for `n < 10^width`. */
  function Pad(n: nat, width: nat): (r: string)
    requires n < Pow10(width)
    ensures |r| == width && AllDigits(r)
    decreases width
  {
    if width == 0 then [] else Pad(n / 10, width - 1) + [DigitChar(n % 10)]
  }

  lemma Pow10Small()
    ensures Pow10(2) == 100 && Pow10(3) == 1000 && Pow10(4) == 10000
  {
  }

  lemma AllDigitsAppend(a: string, b: string)
    requires AllDigits(a) && AllDigits(b)
    ensures AllDigits(a + b)
  {
  }

  function Pow10(k: nat): (p: nat)
    ensures p >= 1
  {
    if k == 0 then 1 else 10 * Pow10(k - 1)
  }

  /** The value of a string of decimal digits. */
  function DecimalValue(ds: string): nat
    requires AllDigits(ds)
    decreases |ds|
  {
    if ds == [] then 0 else DecimalValue(ds[..|ds| - 1]) * 10 + DigitValue(ds[|ds| - 1])
  }

  predicate IsHexDigit(c: char) {
    IsDigit(c) || 'a' <= c <= 'f' || 'A' <= c <= 'F'
  }

  function HexValue(ds: string): nat
    requires forall k :: 0 <= k < |ds| ==> IsHexDigit(ds[k])
    decreases |ds|
  {
    if ds == [] then 0
    else
      var c := ds[|ds| - 1];
      assert IsHexDigit(c);
      var d := if IsDigit(c) then DigitValue(c)
               else if 'a' <= c <= 'f' then c as int - 'a' as int + 10
               else c as int - 'A' as int + 10;
      assert d >= 0;
      HexValue(ds[..|ds| - 1]) * 16 + d
  }

  /** The longest prefix of `s` whose characters satisfy `p`. */
  function PrefixWhile(s: string, p: char -> bool): (r: string)
    ensures r <= s && (forall k :: 0 <= k < |r| ==> p(r[k]))
    ensures |r| < |s| ==> !p(s[|r|])
    decreases |s|
  {
    if s != [] && p(s[0]) then [s[0]] + PrefixWhile(s[1..], p) else []
  }

  /**
   * `parseInt(s)` without a radix: leading whitespace is skipped, then an optional sign, then
   * a `0x`/`0X` prefix selects hexadecimal; the longest run of digits that follows is the
   * value, and `None` stands for `NaN` (no digit at all). A sign on zero gives 0 (-0 indexes like 0).
   */
  function ParseInt(s: string): Option<int> {
    var t := TrimStart(s);
    var negative := t != [] && t[0] == '-';
    var u := if t != [] && (t[0] == '-' || t[0] == '+') then t[1..] else t;
    match Magnitude(u)
    case None => None
    case Some(v) =>
      var n: int := v;
      Some(if negative then -n else n)
  }

  /** The unsigned part of `parseInt`: hexadecimal after `0x`/`0X`, decimal otherwise. */
  function Magnitude(u: string): Option<nat> {
    if |u| >= 2 && u[0] == '0' && (u[1] == 'x' || u[1] == 'X') then
      var ds := PrefixWhile(u[2..], IsHexDigit);
      if ds == [] then None else Some(HexValue(ds))
    else
      var ds := PrefixWhile(u, IsDigit);
      if ds == [] then None else Some(DecimalValue(ds))
  }

  lemma ShiftDigit(va: int, vb: int, p: int, d: int)
    ensures (va * p + vb) * 10 + d == va * (10 * p) + (vb * 10 + d)
  {
  }

  /** The value of digits followed by more digits. */
  lemma {:induction false} DecimalValueAppend(a: string, b: string)
    requires AllDigits(a) && AllDigits(b)
    ensures AllDigits(a + b)
    ensures DecimalValue(a + b) == DecimalValue(a) * Pow10(|b|) + DecimalValue(b)
    decreases |b|
  {
    var ab := a + b;
    if b == [] {
      assert ab == a;
    } else {
      var b' := b[..|b| - 1];
      assert ab[..|ab| - 1] == a + b';
      DecimalValueAppend(a, b');
      assert b[..|b| - 1] == b';
      var va, vb', p, d := DecimalValue(a), DecimalValue(b'), Pow10(|b'|), DigitValue(b[|b| - 1]);
      assert DecimalValue(ab) == (va * p + vb') * 10 + d;
      assert DecimalValue(b) == vb' * 10 + d;
      assert Pow10(|b|) == 10 * p;
      ShiftDigit(va, vb', p, d);
    }
  }

  /** `String(n)` is read back by `DecimalValue`. */
  lemma {:induction false} DecimalValueOfNat(n: nat)
    ensures DecimalValue(NatToString(n)) == n
    decreases n
  {
    var r := NatToString(n);
    if n >= 10 {
      DecimalValueOfNat(n / 10);
      assert r[..|r| - 1] == NatToString(n / 10);
    }
  }

  /** `parseInt` of a non-empty run of decimal digits is its decimal value. */
  lemma ParseIntDigits(ds: string)
    requires ds != [] && AllDigits(ds)
    ensures ParseInt(ds) == Some(DecimalValue(ds))
  {
    assert !IsWhitespace(ds[0]);
    assert TrimStart(ds) == ds;
    assert PrefixWhile(ds, IsDigit) == ds by {
      var p := PrefixWhile(ds, IsDigit);
      assert |p| == |ds|;
    }
    if |ds| >= 2 {
      assert IsDigit(ds[1]);
    }
    assert Magnitude(ds) == Some(DecimalValue(ds));
  }

  /** `parseInt(String(n)) == n`: the decimal round trip the memo ids rely on. */
  lemma ParseIntNatToString(n: nat)
    ensures ParseInt(NatToString(n)) == Some(n)
  {
    ParseIntDigits(NatToString(n));
    DecimalValueOfNat(n);
  }
}
