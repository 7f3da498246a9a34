/** Character classes and the few Python `str` operations the bot relies on:
    `str.isspace`, `str.strip()`, `str.count`, `str.split(sep)`,
    `str.split(sep, 1)` and `sep.join(parts)`. */
module Text {

  /** Python's `str.isspace`, which is also the set `\s` matches in a `str`
      regular expression: the control characters 0x09-0x0D and 0x1C-0x1F, the
      space, NEL, NO-BREAK SPACE and the Unicode space separators. */
  predicate IsSpace(c: char) {
    ('\t' <= c <= '\r') || ('\U{1C}' <= c <= '\U{1F}') || c == ' '
    || c == '\U{85}' || c == '\U{A0}' || c == '\U{1680}'
    || ('\U{2000}' <= c <= '\U{200A}') || c == '\U{2028}' || c == '\U{2029}'
    || c == '\U{202F}' || c == '\U{205F}' || c == '\U{3000}'
  }

  /** An ASCII decimal digit (the model's reading of `\d`). */
  predicate IsDigit(c: char) {
    '0' <= c <= '9'
  }

  /** The regular-expression class `[a-zA-Z]`. */
  predicate IsAsciiLetter(c: char) {
    ('a' <= c <= 'z') || ('A' <= c <= 'Z')
  }

  predicate AllSpace(s: string) {
    forall i :: 0 <= i < |s| ==> IsSpace(s[i])
  }

  /** Number of whitespace characters at the start of `s`. */
  function LeadingSpaces(s: string): (n: nat)
    ensures n <= |s|
    ensures AllSpace(s[..n])
    ensures n < |s| ==> !IsSpace(s[n])
  {
    if s != [] && IsSpace(s[0]) then 1 + LeadingSpaces(s[1..]) else 0
  }

  /** Number of whitespace characters at the end of `s`. */
  function TrailingSpaces(s: string): (n: nat)
    ensures n <= |s|
    ensures AllSpace(s[|s| - n..])
    ensures n < |s| ==> !IsSpace(s[|s| - 1 - n])
  {
    if s != [] && IsSpace(s[|s| - 1]) then 1 + TrailingSpaces(s[..|s| - 1]) else 0
  }

  /** Python's `s.strip()`: the text between the leading and the trailing
      whitespace. Nothing but whitespace is removed, and the result neither
      starts nor ends with whitespace. */
  function Strip(s: string): (r: string)
    ensures r == [] || (!IsSpace(r[0]) && !IsSpace(r[|r| - 1]))
    ensures LeadingSpaces(s) + |r| <= |s|
    ensures r == s[LeadingSpaces(s)..LeadingSpaces(s) + |r|]
    ensures AllSpace(s[LeadingSpaces(s) + |r|..])
  {
    var k := LeadingSpaces(s);
    var m := TrailingSpaces(s[k..]);
    TrimmedEnds(s, k, m);
    s[k..|s| - m]
  }

  /** Cutting `k` characters from the front of `s` and `m` from the back of
      what is left, when the first kept character is not whitespace and
      the `m` cut at the back are all whitespace with a non-whitespace
      character before them. */
  lemma TrimmedEnds(s: string, k: nat, m: nat)
    requires k + m <= |s|
    requires k < |s| ==> !IsSpace(s[k])
    requires AllSpace(s[k..][|s| - k - m..])
    requires m < |s| - k ==> !IsSpace(s[k..][|s| - k - 1 - m])
    ensures s[k..|s| - m] == [] || (!IsSpace(s[k..|s| - m][0]) && !IsSpace(s[k..|s| - m][|s| - m - k - 1]))
    ensures AllSpace(s[|s| - m..])
  {
    assert s[k..][|s| - k - m..] == s[|s| - m..];
  }

  /** A sequence is the concatenation of its pieces around two cut points. */
  lemma Slices<T>(s: seq<T>, i: nat, j: nat)
    requires i <= j <= |s|
    ensures s == s[..i] + s[i..j] + s[j..]
  {
  }

  /** Cutting `[c] + x` after `1 + n` elements cuts `x` after `n`. */
  lemma ConsSlices<T>(c: T, x: seq<T>, n: nat)
    requires n <= |x|
    ensures ([c] + x)[..1 + n] == [c] + x[..n]
    ensures ([c] + x)[1 + n..] == x[n..]
  {
  }

  /** The three facts `LeadingSpaces` ensures determine its value. */
  lemma LeadingSpacesUnique(s: string, n: nat)
    requires n <= |s| && AllSpace(s[..n]) && (n < |s| ==> !IsSpace(s[n]))
    ensures LeadingSpaces(s) == n
  {
    var k := LeadingSpaces(s);
    PrefixSpaces(s, n);
    PrefixSpaces(s, k);
  }

  lemma PrefixSpaces(s: string, n: nat)
    requires n <= |s| && AllSpace(s[..n])
    ensures forall i | 0 <= i < n :: IsSpace(s[i])
  {
    forall i | 0 <= i < n ensures IsSpace(s[i]) {
      assert s[..n][i] == s[i];
    }
  }

  /** The three facts `TrailingSpaces` ensures determine its value. */
  lemma TrailingSpacesUnique(s: string, n: nat)
    requires n <= |s| && AllSpace(s[|s| - n..]) && (n < |s| ==> !IsSpace(s[|s| - 1 - n]))
    ensures TrailingSpaces(s) == n
  {
    var k := TrailingSpaces(s);
    SuffixSpaces(s, n);
    SuffixSpaces(s, k);
  }

  lemma SuffixSpaces(s: string, n: nat)
    requires n <= |s| && AllSpace(s[|s| - n..])
    ensures forall i | |s| - n <= i < |s| :: IsSpace(s[i])
  {
    forall i | |s| - n <= i < |s| ensures IsSpace(s[i]) {
      assert s[|s| - n..][i - (|s| - n)] == s[i];
    }
  }

  /** `s` is its leading whitespace, its stripped text and its trailing
      whitespace, in that order. */
  lemma StripParts(s: string)
    ensures s == s[..LeadingSpaces(s)] + Strip(s) + s[LeadingSpaces(s) + |Strip(s)|..]
  {
    Slices(s, LeadingSpaces(s), LeadingSpaces(s) + |Strip(s)|);
  }

  lemma SpacesFrom(s: string, j: nat)
    requires j <= |s| && AllSpace(s[j..])
    ensures forall i | j <= i < |s| :: IsSpace(s[i])
  {
    forall i | j <= i < |s| ensures IsSpace(s[i]) {
      assert s[j..][i - j] == s[i];
    }
  }

  /** `strip()` is determined by its three parts: a text that is whitespace,
      then a text with no whitespace at either end, then whitespace strips
      to the middle part. */
  lemma StripUnique(s: string, l: string, r: string, t: string)
    requires s == l + r + t && AllSpace(l) && AllSpace(t)
    requires r == [] || (!IsSpace(r[0]) && !IsSpace(r[|r| - 1]))
    ensures Strip(s) == r
  {
    if r == [] {
      AllSpaceConcat(l, t);
      assert s == l + t;
      LeadingSpacesUnique(s, |s|);
    } else {
      assert s[..|l|] == l && s[|l|] == r[0];
      LeadingSpacesUnique(s, |l|);
      var rest := s[|l|..];
      assert rest == r + t;
      assert rest[|rest| - |t|..] == t && rest[|rest| - 1 - |t|] == r[|r| - 1];
      TrailingSpacesUnique(rest, |t|);
      assert s[|l|..|s| - |t|] == r;
    }
  }

  /** Whitespace around a text does not change what it strips to. */
  lemma StripAmongSpaces(l: string, m: string, t: string)
    requires AllSpace(l) && AllSpace(t)
    ensures Strip(l + m + t) == Strip(m)
  {
    var k := LeadingSpaces(m);
    var r := Strip(m);
    var e := k + |r|;
    Regroup(l, m, t, k, e);
    AllSpaceConcat(l, m[..k]);
    AllSpaceConcat(m[e..], t);
    StripUnique(l + m + t, l + m[..k], r, m[e..] + t);
  }

  /** Whitespace in front of a text does not change what it strips to. */
  lemma StripAfterSpaces(l: string, m: string)
    requires AllSpace(l)
    ensures Strip(l + m) == Strip(m)
  {
    var k := LeadingSpaces(m);
    var r := Strip(m);
    var e := k + |r|;
    RegroupFront(l, m, k, e);
    AllSpaceConcat(l, m[..k]);
    StripUnique(l + m, l + m[..k], r, m[e..]);
  }

  /** Whitespace after a text does not change what it strips to. */
  lemma StripBeforeSpaces(m: string, t: string)
    requires AllSpace(t)
    ensures Strip(m + t) == Strip(m)
  {
    var k := LeadingSpaces(m);
    var r := Strip(m);
    var e := k + |r|;
    RegroupBack(m, t, k, e);
    AllSpaceConcat(m[e..], t);
    StripUnique(m + t, m[..k], r, m[e..] + t);
  }

  lemma RegroupBack<T>(m: seq<T>, t: seq<T>, k: nat, e: nat)
    requires k <= e <= |m|
    ensures m + t == m[..k] + m[k..e] + (m[e..] + t)
  {
    Slices(m, k, e);
  }

  lemma RegroupFront<T>(l: seq<T>, m: seq<T>, k: nat, e: nat)
    requires k <= e <= |m|
    ensures l + m == (l + m[..k]) + m[k..e] + m[e..]
  {
    Slices(m, k, e);
  }

  /** Cutting the middle text at `k` and `e` and regrouping the pieces. */
  lemma Regroup<T>(l: seq<T>, m: seq<T>, t: seq<T>, k: nat, e: nat)
    requires k <= e <= |m|
    ensures l + m + t == (l + m[..k]) + m[k..e] + (m[e..] + t)
  {
    Slices(m, k, e);
  }

  lemma AllSpaceConcat(x: string, y: string)
    requires AllSpace(x) && AllSpace(y)
    ensures AllSpace(x + y)
  {
    assert forall i | |x| <= i < |x + y| :: (x + y)[i] == y[i - |x|];
  }

  /** Python's `s.count(c)` for a one-character `c`. */
  function Count(s: string, c: char): (n: nat)
    ensures n <= |s|
    ensures n == 0 <==> c !in s
  {
    if s == [] then 0
    else (if s[0] == c then 1 else 0) + Count(s[1..], c)
  }

  lemma {:induction false} CountConcat(a: string, b: string, c: char)
    ensures Count(a + b, c) == Count(a, c) + Count(b, c)
  {
    if a == [] {
      assert a + b == b;
    } else {
      assert (a + b)[1..] == a[1..] + b;
      CountConcat(a[1..], b, c);
    }
  }

  /** Whitespace holds no occurrence of a non-whitespace character. */
  lemma {:induction false} CountAllSpace(s: string, c: char)
    requires AllSpace(s) && !IsSpace(c)
    ensures Count(s, c) == 0
  {
    if s != [] {
      assert IsSpace(s[0]);
      CountAllSpace(s[1..], c);
    }
  }

  /** A sequence is the concatenation of its pieces around three cut points. */
  lemma Slices3<T>(s: seq<T>, i: nat, j: nat, e: nat)
    requires i <= j <= e <= |s|
    ensures s == s[..i] + s[i..j] + s[j..e] + s[e..]
  {
  }

  lemma CountConcat4(a: string, b: string, d: string, f: string, c: char)
    ensures Count(a + b + d + f, c) == Count(a, c) + Count(b, c) + Count(d, c) + Count(f, c)
  {
    CountConcat(a + b + d, f, c);
    CountConcat(a + b, d, c);
    CountConcat(a, b, c);
  }

  /** Whitespace around a middle piece holds no occurrence of a
      non-whitespace character. */
  lemma {:induction false} CountBetweenSpaces(s: string, i: nat, j: nat, e: nat, c: char)
    requires i <= j <= e <= |s| && AllSpace(s[..i]) && AllSpace(s[j..e]) && !IsSpace(c)
    ensures Count(s, c) == Count(s[i..j], c) + Count(s[e..], c)
  {
    Slices3(s, i, j, e);
    CountConcat4(s[..i], s[i..j], s[j..e], s[e..], c);
    CountAllSpace(s[..i], c);
    CountAllSpace(s[j..e], c);
  }

  /** Index of the first occurrence of `c` in `s`. */
  function IndexOf(s: string, c: char): (i: nat)
    requires c in s
    ensures i < |s| && s[i] == c && c !in s[..i]
  {
    if s[0] == c then 0 else 1 + IndexOf(s[1..], c)
  }

  /** Python's `s.split(c)` for a one-character separator: the maximal pieces
      between occurrences of `c`, one more piece than there are separators;
      joining the pieces with `c` gives back `s`. */
  function Split(s: string, c: char): (parts: seq<string>)
    ensures |parts| == Count(s, c) + 1
    ensures forall k :: 0 <= k < |parts| ==> c !in parts[k]
    ensures JoinWith(parts, [c]) == s
    decreases |s|
  {
    if c !in s then [s]
    else
      var i := IndexOf(s, c);
      var rest := Split(s[i + 1..], c);
      SplitStep(s, c, i, rest);
      [s[..i]] + rest
  }

  /** One step of `Split`: the piece before the first separator, then the
      pieces of the remainder. */
  lemma SplitStep(s: string, c: char, i: nat, rest: seq<string>)
    requires i < |s| && s[i] == c && c !in s[..i]
    requires |rest| == Count(s[i + 1..], c) + 1
    requires forall k :: 0 <= k < |rest| ==> c !in rest[k]
    requires JoinWith(rest, [c]) == s[i + 1..]
    ensures |[s[..i]] + rest| == Count(s, c) + 1
    ensures forall k :: 0 <= k < |[s[..i]] + rest| ==> c !in ([s[..i]] + rest)[k]
    ensures JoinWith([s[..i]] + rest, [c]) == s
  {
    Slices(s, i, i + 1);
    assert s[i..i + 1] == [c];
    CountConcat(s[..i] + [c], s[i + 1..], c);
    CountConcat(s[..i], [c], c);
    assert Count([c], c) == 1;
    JoinWithCons(s[..i], rest, [c]);
  }

  /** Python's `s.split(c, 1)` when `c` occurs in `s`: the text before the
      first `c` and everything after it. */
  function SplitFirst(s: string, c: char): (halves: (string, string))
    requires c in s
    ensures s == halves.0 + [c] + halves.1
    ensures c !in halves.0
  {
    var i := IndexOf(s, c);
    assert s == s[..i] + [c] + s[i + 1..];
    (s[..i], s[i + 1..])
  }

  /** The first `c` in `a + rest` is the head of `rest` when `a` has none. */
  lemma {:induction false} IndexOfAfterPrefix(a: string, rest: string, c: char)
    requires c !in a && rest != [] && rest[0] == c
    ensures IndexOf(a + rest, c) == |a|
  {
    if a != [] {
      assert (a + rest)[1..] == a[1..] + rest;
      IndexOfAfterPrefix(a[1..], rest, c);
    }
  }

  /** A text with a single occurrence of `c` is cut at that occurrence in
      one way only. */
  lemma SeparatorUnique(a: string, b: string, x: string, y: string, c: char)
    requires a + [c] + b == x + [c] + y
    requires c !in a && c !in x
    ensures a == x && b == y
  {
    var s := a + [c] + b;
    IndexOfAfterPrefix(a, [c] + b, c);
    IndexOfAfterPrefix(x, [c] + y, c);
    assert a + [c] + b == a + ([c] + b) && x + [c] + y == x + ([c] + y);
    assert a == s[..|a|] && x == s[..|x|];
    assert b == s[|a| + 1..] && y == s[|x| + 1..];
  }

  /** Splitting a text with exactly one separator gives the two sides. */
  lemma SplitOnce(a: string, b: string, c: char)
    requires c !in a && c !in b
    ensures Split(a + [c] + b, c) == [a, b]
    ensures SplitFirst(a + [c] + b, c) == (a, b)
    ensures Count(a + [c] + b, c) == 1
  {
    var s := a + [c] + b;
    CountConcat(a + [c], b, c);
    CountConcat(a, [c], c);
    assert Count([c], c) == 1;
    var halves := SplitFirst(s, c);
    SeparatorUnique(a, b, halves.0, halves.1, c);
    var parts := Split(s, c);
    assert |parts| == 2;
    assert JoinWith(parts, [c]) == parts[0] + [c] + JoinWith(parts[1..], [c]);
    assert parts[1..] == [parts[1]];
    SeparatorUnique(a, b, parts[0], parts[1], c);
    assert parts == [parts[0], parts[1]];
  }

  /** Python's `sep.join(parts)`. */
  function JoinWith(parts: seq<string>, sep: string): string {
    if parts == [] then []
    else if |parts| == 1 then parts[0]
    else parts[0] + sep + JoinWith(parts[1..], sep)
  }

  /** Joining puts the separator between the first part and the join of the
      rest. */
  lemma JoinWithCons(first: string, rest: seq<string>, sep: string)
    requires rest != []
    ensures JoinWith([first] + rest, sep) == first + sep + JoinWith(rest, sep)
  {
    assert ([first] + rest)[1..] == rest;
  }

  /** Splitting undoes joining: pieces without the separator, joined with
      it, split back into exactly those pieces. */
  lemma {:induction false} SplitJoin(parts: seq<string>, c: char)
    requires parts != [] && forall k :: 0 <= k < |parts| ==> c !in parts[k]
    ensures Split(JoinWith(parts, [c]), c) == parts
    decreases |parts|
  {
    if |parts| > 1 {
      var rest := JoinWith(parts[1..], [c]);
      assert JoinWith(parts, [c]) == parts[0] + [c] + rest;
      SplitCons(parts[0], rest, c);
      SplitJoin(parts[1..], c);
      assert [parts[0]] + parts[1..] == parts;
    }
  }

  /** A piece without the separator, then the separator: `split` cuts there
      first. */
  lemma SplitCons(a: string, rest: string, c: char)
    requires c !in a
    ensures Split(a + [c] + rest, c) == [a] + Split(rest, c)
  {
    var s := a + [c] + rest;
    assert s == a + ([c] + rest);
    IndexOfAfterPrefix(a, [c] + rest, c);
    assert s[|a| + 1..] == rest;
    assert s[..|a|] == a;
  }

  /** The number a string of decimal digits stands for. */
  function DigitsValue(r: string): nat {
    if r == [] then 0
    else if IsDigit(r[|r| - 1]) then DigitsValue(r[..|r| - 1]) * 10 + (r[|r| - 1] as int - '0' as int)
    else DigitsValue(r[..|r| - 1]) * 10
  }

  /** The decimal digits of `n`, as Python's `str(n)` writes them: digits
      only, no leading zero, and standing for `n`. */
  function Decimal(n: nat): (r: string)
    ensures r != [] && forall k :: 0 <= k < |r| ==> IsDigit(r[k])
    ensures r[0] != '0' || r == "0"
    ensures DigitsValue(r) == n
  {
    var d := ['0' + (n % 10) as char];
    if n < 10 then d
    else
      var r := Decimal(n / 10) + d;
      assert r[..|r| - 1] == Decimal(n / 10);
      r
  }
}
