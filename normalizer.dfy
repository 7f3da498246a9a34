/** The input normaliser `preprocess_input`: a fixed pipeline of four
    rewrites applied to the raw chat or OCR text.

      1. every `and` (in any letter case) or `&`, together with the
         whitespace around it, becomes ` & `;
      2. whitespace runs become one space and the ends are trimmed;
      3. the glyphs of a replacement table become ASCII operators and
         parentheses are padded with spaces;
      4. a `*` is inserted wherever a digit is directly followed by a letter.

    Each regular-expression substitution and `str.replace` call is a
    function here; `PreprocessInput` reassigns the text step by step as
    `preprocess_input` does, with a loop over the replacement table. */
module Normalizer {
  import opened Text

  // ---------------------------------------------------------------------
  // Step 1: re.sub(r'\s*(and|&)\s*', ' & ', text, flags=re.IGNORECASE)
  // ---------------------------------------------------------------------

  /** `and`, in any letter case, starts at index `i` of `s`. */
  predicate AndAt(s: string, i: int) {
    0 <= i && i + 3 <= |s|
    && (s[i] == 'a' || s[i] == 'A')
    && (s[i + 1] == 'n' || s[i + 1] == 'N')
    && (s[i + 2] == 'd' || s[i + 2] == 'D')
  }

  /** `s` holds no `and` in any letter case, not even inside a longer word. */
  predicate HasNoAnd(s: string) {
    forall i | 0 <= i < |s| :: !AndAt(s, i)
  }

  /** Length of the connector (`and` in any case, or `&`) at the start of
      `s`, or 0 when `s` does not start with one. */
  function ConnectorLength(s: string): nat {
    if AndAt(s, 0) then 3 else if s != [] && s[0] == '&' then 1 else 0
  }

  /** The pattern `\s*(and|&)\s*` matches at the start of `s`: after the
      leading whitespace comes a connector. */
  predicate ConnectorAhead(s: string) {
    ConnectorLength(s[LeadingSpaces(s)..]) > 0
  }

  /** Where a match at the start of `s` ends: after the leading whitespace,
      the connector and the whitespace that follows it. */
  function MatchEnd(s: string): (e: nat)
    requires ConnectorAhead(s)
    ensures 0 < e <= |s|
  {
    var q := LeadingSpaces(s);
    var rest := s[q + ConnectorLength(s[q..])..];
    q + ConnectorLength(s[q..]) + LeadingSpaces(rest)
  }

  /** The input that follows a match at the start of `s`. */
  function AfterConnector(s: string): (tail: string)
    requires ConnectorAhead(s)
    ensures |tail| < |s|
  {
    s[MatchEnd(s)..]
  }

  /** The substitution scans left to right. Where the pattern matches, the
      leading whitespace, the connector and all whitespace after it are
      replaced by ` & ` and the scan resumes after them; elsewhere one
      character is copied and the scan moves on by one. */
  function ReplaceConnectors(s: string): string
    decreases |s|
  {
    if s == [] then []
    else if ConnectorAhead(s) then " & " + ReplaceConnectors(AfterConnector(s))
    else [s[0]] + ReplaceConnectors(s[1..])
  }

  /** The first two characters of the output are spaces or copies of the
      first two input characters. */
  lemma ReplaceConnectorsHead(t: string)
    ensures ReplaceConnectors(t) == [] <==> t == []
    ensures ReplaceConnectors(t) != [] && ReplaceConnectors(t)[0] != ' ' ==>
      !ConnectorAhead(t) && ReplaceConnectors(t)[0] == t[0]
      && ReplaceConnectors(t) == [t[0]] + ReplaceConnectors(t[1..])
  {
  }

  lemma ReplaceConnectorsHead2(t: string)
    ensures |ReplaceConnectors(t)| >= 2 && ReplaceConnectors(t)[0] != ' ' && ReplaceConnectors(t)[1] != ' ' ==>
      |t| >= 2 && ReplaceConnectors(t)[0] == t[0] && ReplaceConnectors(t)[1] == t[1]
  {
    ReplaceConnectorsHead(t);
    if t != [] {
      ReplaceConnectorsHead(t[1..]);
    }
  }

  lemma HasNoAndAfterSeparator(x: string)
    requires HasNoAnd(x)
    ensures HasNoAnd(" & " + x)
  {
    var out := " & " + x;
    forall i | 0 <= i < |out| ensures !AndAt(out, i) {
      if i >= 3 {
        assert !AndAt(x, i - 3);
      }
    }
  }

  lemma HasNoAndAfterChar(c: char, x: string)
    requires HasNoAnd(x) && !AndAt([c] + x, 0)
    ensures HasNoAnd([c] + x)
  {
    var out := [c] + x;
    forall i | 1 <= i < |out| ensures !AndAt(out, i) {
      assert !AndAt(x, i - 1);
    }
  }

  /** After step 1 no `and` is left in any letter case, even inside a
      longer word such as `random`. */
  lemma {:induction false} ReplaceConnectorsLeavesNoAnd(s: string)
    ensures HasNoAnd(ReplaceConnectors(s))
    decreases |s|
  {
    if s == [] {
    } else if ConnectorAhead(s) {
      var tail := AfterConnector(s);
      ReplaceConnectorsLeavesNoAnd(tail);
      HasNoAndAfterSeparator(ReplaceConnectors(tail));
    } else {
      var t := s[1..];
      ReplaceConnectorsLeavesNoAnd(t);
      var out := [s[0]] + ReplaceConnectors(t);
      assert AndAt(out, 0) ==> AndAt(s, 0) by {
        ReplaceConnectorsHead2(t);
      }
      assert AndAt(s, 0) ==> ConnectorAhead(s);
      HasNoAndAfterChar(s[0], ReplaceConnectors(t));
    }
  }

  /** Every `&` has a space immediately before and after it. */
  predicate AmpersandsPadded(s: string) {
    forall i :: 0 <= i < |s| && s[i] == '&' ==> 0 < i < |s| - 1 && s[i - 1] == ' ' && s[i + 1] == ' '
  }

  lemma AmpersandsPaddedAfterSeparator(x: string)
    requires AmpersandsPadded(x)
    ensures AmpersandsPadded(" & " + x)
  {
    var out := " & " + x;
    forall i | 3 <= i < |out| && out[i] == '&'
      ensures 0 < i < |out| - 1 && out[i - 1] == ' ' && out[i + 1] == ' '
    {
      assert x[i - 3] == '&';
    }
  }

  lemma AmpersandsPaddedAfterChar(c: char, x: string)
    requires c != '&' && AmpersandsPadded(x)
    ensures AmpersandsPadded([c] + x)
  {
    var out := [c] + x;
    forall i | 1 <= i < |out| && out[i] == '&'
      ensures 0 < i < |out| - 1 && out[i - 1] == ' ' && out[i + 1] == ' '
    {
      assert x[i - 1] == '&';
    }
  }

  /** After step 1 every `&` stands inside a ` & ` emitted for a connector. */
  lemma {:induction false} ReplaceConnectorsPadsAmpersands(s: string)
    ensures AmpersandsPadded(ReplaceConnectors(s))
    decreases |s|
  {
    if s == [] {
    } else if ConnectorAhead(s) {
      var tail := AfterConnector(s);
      ReplaceConnectorsPadsAmpersands(tail);
      AmpersandsPaddedAfterSeparator(ReplaceConnectors(tail));
    } else {
      ReplaceConnectorsPadsAmpersands(s[1..]);
      assert s[0] == '&' ==> ConnectorAhead(s);
      AmpersandsPaddedAfterChar(s[0], ReplaceConnectors(s[1..]));
    }
  }

  /** Text without any connector passes through step 1 unchanged. */
  lemma {:induction false} ReplaceConnectorsIdentity(s: string)
    requires HasNoAnd(s) && '&' !in s
    ensures ReplaceConnectors(s) == s
    decreases |s|
  {
    if s != [] {
      var q := LeadingSpaces(s);
      assert AndAt(s[q..], 0) ==> AndAt(s, q);
      assert !ConnectorAhead(s);
      forall i ensures !AndAt(s[1..], i) {
        assert AndAt(s[1..], i) ==> AndAt(s, i + 1);
      }
      ReplaceConnectorsIdentity(s[1..]);
    }
  }

  /** A connector as the pattern matches it: `and` in any letter case, or
      `&`. */
  predicate IsConnector(w: string) {
    (|w| == 3 && AndAt(w, 0)) || w == "&"
  }

  /** A connector standing between two connector-free texts is one match:
      it becomes ` & `, and the whitespace before it and after it goes
      with it. No space is needed around it, since the pattern also matches
      an `and` inside a word. */
  lemma {:induction false} ReplaceJoined(a: string, w: string, b: string)
    requires HasNoAnd(a) && '&' !in a && HasNoAnd(b) && '&' !in b && IsConnector(w)
    ensures ReplaceConnectors(a + w + b)
            == a[..|a| - TrailingSpaces(a)] + " & " + b[LeadingSpaces(b)..]
    decreases |a|
  {
    if AllSpace(a) {
      MatchAtConnector(a, w, b);
    } else {
      TrailingSpacesOfTail(a);
      var k := |a| - TrailingSpaces(a);
      var right := b[LeadingSpaces(b)..];
      assert ReplaceConnectors(a[1..] + w + b) == a[1..][..k - 1] + " & " + right by {
        HasNoAndSuffix(a, 1);
        assert '&' !in a[1..];
        ReplaceJoined(a[1..], w, b);
      }
      assert !ConnectorAhead(a + w + b) by {
        NoMatchBeforeConnector(a, w, b);
      }
      CopyBeforeConnector(a, w, b, k, right);
    }
  }

  /** Only whitespace before the connector: the match starts the text. */
  lemma MatchAtConnector(a: string, w: string, b: string)
    requires AllSpace(a) && HasNoAnd(b) && '&' !in b && IsConnector(w)
    ensures ReplaceConnectors(a + w + b)
            == a[..|a| - TrailingSpaces(a)] + " & " + b[LeadingSpaces(b)..]
  {
    var right := b[LeadingSpaces(b)..];
    assert ReplaceConnectors(a + w + b) == " & " + right by {
      ConnectorMatch(a, w, b);
      HasNoAndSuffix(b, LeadingSpaces(b));
      ReplaceConnectorsIdentity(right);
      MatchStep(a + w + b, right);
    }
    assert a[..|a| - TrailingSpaces(a)] == [] by {
      TrailingSpacesUnique(a, |a|);
    }
    EmptyBeforeMatch(a[..|a| - TrailingSpaces(a)], " & " + right);
  }

  /** Something other than whitespace before the connector: the scan copies
      the first character of `a` and goes on with the rest. */
  lemma CopyBeforeConnector(a: string, w: string, b: string, k: nat, right: string)
    requires 1 <= k <= |a| && !ConnectorAhead(a + w + b)
    requires ReplaceConnectors(a[1..] + w + b) == a[1..][..k - 1] + " & " + right
    ensures ReplaceConnectors(a + w + b) == a[..k] + " & " + right
  {
    ConsAround(a, w, b, k);
    CopyStep(a + w + b, a[0], a[1..] + w + b);
    ConsJoin(a[0], a[1..][..k - 1], " & ", right);
  }

  /** Where the pattern matches, the scan emits ` & ` and resumes after the
      match. */
  lemma MatchStep(s: string, r: string)
    requires ConnectorAhead(s) && ReplaceConnectors(AfterConnector(s)) == r
    ensures ReplaceConnectors(s) == " & " + r
  {
  }

  /** Where the pattern does not match, the scan copies one character. */
  lemma CopyStep(s: string, c: char, t: string)
    requires s == [c] + t && !ConnectorAhead(s)
    ensures ReplaceConnectors(s) == [c] + ReplaceConnectors(t)
  {
    assert s[1..] == t;
  }

  lemma ConsJoin(c: char, left: string, mid: string, right: string)
    ensures [c] + (left + mid + right) == [c] + left + mid + right
  {
  }

  lemma EmptyBeforeMatch(e: string, r: string)
    requires e == []
    ensures e + r == r
  {
  }

  /** The text around the connector is the first character of `a`, then
      the rest. */
  lemma ConsAround(a: string, w: string, b: string, k: nat)
    requires 1 <= k <= |a|
    ensures a + w + b == [a[0]] + (a[1..] + w + b)
    ensures a[..k] == [a[0]] + a[1..][..k - 1]
  {
    ConsSlices(a[0], a[1..], k - 1);
    assert [a[0]] + a[1..] == a;
  }

  /** Whitespace, then the connector: the match covers them and the
      whitespace after the connector, and the scan resumes at the first
      non-whitespace character of `b`. */
  lemma ConnectorMatch(a: string, w: string, b: string)
    requires AllSpace(a) && IsConnector(w)
    ensures ConnectorAhead(a + w + b)
    ensures AfterConnector(a + w + b) == b[LeadingSpaces(b)..]
  {
    var s := a + w + b;
    var m := LeadingSpaces(b);
    ConnectorParts(s, a, w, b, m);
    MatchAt(s, |a|, |w|, m, b[m..]);
  }

  /** The pieces of the match in `a + w + b`: the whitespace `a`, the
      connector `w` and the leading whitespace of `b`. */
  lemma ConnectorParts(s: string, a: string, w: string, b: string, m: nat)
    requires AllSpace(a) && IsConnector(w) && s == a + w + b && m == LeadingSpaces(b)
    ensures MatchShape(s, |a|, |w|, m, b[m..])
  {
    var t := w + b;
    assert LeadingSpaces(s) == |a| && s[|a|..] == t && ConnectorLength(t) == |w| by {
      assert s == a + t;
      ConnectorLeads(t, w, b);
      SpacesBeforeConnector(s, a, t);
    }
    assert s[|a| + |w|..] == b by {
      DropAfter(s, |a|, t, |w|);
      ConnectorLeads(t, w, b);
    }
    assert s[|a| + |w| + m..] == b[m..] by {
      DropAfter(s, |a| + |w|, b, m);
    }
  }

  /** The text is whitespace `a` followed by `t`, which does not start with
      whitespace. */
  lemma SpacesBeforeConnector(s: string, a: string, t: string)
    requires AllSpace(a) && t != [] && !IsSpace(t[0]) && s == a + t
    ensures LeadingSpaces(s) == |a| && s[|a|..] == t
  {
    assert s[..|a|] == a;
    assert s[|a|] == t[0];
    LeadingSpacesUnique(s, |a|);
  }

  /** A connector of length `n` after the leading whitespace, and `m`
      whitespace characters after it: the scan resumes after all three. */
  predicate MatchShape(s: string, q: nat, n: nat, m: nat, r: string) {
    q <= |s| && LeadingSpaces(s) == q && ConnectorLength(s[q..]) == n > 0
    && q + n <= |s| && LeadingSpaces(s[q + n..]) == m && r == s[q + n + m..]
  }

  lemma MatchAt(s: string, q: nat, n: nat, m: nat, r: string)
    requires MatchShape(s, q, n, m, r)
    ensures ConnectorAhead(s) && AfterConnector(s) == r
  {
    MatchEndAt(s, q, n, m);
  }

  lemma MatchEndAt(s: string, q: nat, n: nat, m: nat)
    requires q <= |s| && LeadingSpaces(s) == q && ConnectorLength(s[q..]) == n > 0
    requires q + n <= |s| && LeadingSpaces(s[q + n..]) == m
    ensures ConnectorAhead(s) && MatchEnd(s) == q + n + m
  {
    var k := LeadingSpaces(s);
    assert ConnectorLength(s[k..]) == n;
    MatchEndUnfold(s, k, n);
    assert s[k + n..] == s[q + n..];
  }

  lemma MatchEndUnfold(s: string, k: nat, n: nat)
    requires k == LeadingSpaces(s) && ConnectorLength(s[k..]) == n > 0
    ensures ConnectorAhead(s) && MatchEnd(s) == k + n + LeadingSpaces(s[k + n..])
  {
  }

  lemma DropAfter(s: string, q: nat, t: string, n: nat)
    requires q <= |s| && s[q..] == t && n <= |t|
    ensures s[q + n..] == t[n..]
  {
  }

  /** The connector followed by `b`: the connector is the whole of `w`. */
  lemma ConnectorLeads(t: string, w: string, b: string)
    requires IsConnector(w) && t == w + b
    ensures t != [] && !IsSpace(t[0])
    ensures ConnectorLength(t) == |w| && t[|w|..] == b
  {
    if |w| == 3 {
      assert AndAt(t, 0);
    }
  }

  /** When `a` holds a character other than whitespace, the pattern does not
      match at the start of `a + w + b`: an `and` starting in `a` would have
      to end in it, since the connector's first character is neither `n`
      nor `d`, and `a` holds none. */
  lemma NoMatchBeforeConnector(a: string, w: string, b: string)
    requires HasNoAnd(a) && '&' !in a && !AllSpace(a) && IsConnector(w)
    ensures a != [] && !ConnectorAhead(a + w + b)
  {
    var s := a + w + b;
    var m :| 0 <= m < |a| && !IsSpace(a[m]);
    var j := LeadingSpaces(s);
    PrefixSpaces(s, j);
    assert s[m] == a[m];
    assert j <= m;
    assert s[j] == a[j];
    assert s[|a|] == w[0];
    assert !AndAt(s, j) by {
      if j + 2 < |a| {
        assert !AndAt(a, j);
      }
    }
    assert AndAt(s[j..], 0) ==> AndAt(s, j);
  }

  /** Dropping the first character of a text that is not all whitespace
      keeps its trailing whitespace. */
  lemma TrailingSpacesOfTail(a: string)
    requires !AllSpace(a)
    ensures a != [] && TrailingSpaces(a) < |a|
    ensures TrailingSpaces(a[1..]) == TrailingSpaces(a)
  {
    var m := TrailingSpaces(a);
    assert m < |a|;
    TailTrailing(a, a[1..], m);
  }

  lemma {:induction false} TailTrailing(a: string, t: string, m: nat)
    requires m < |a| && t == a[1..] && m == TrailingSpaces(a)
    ensures TrailingSpaces(t) == m
    decreases m
  {
    if m > 0 {
      var a' := a[..|a| - 1];
      var t' := a'[1..];
      assert t[|t| - 1] == a[|a| - 1];
      assert t[..|t| - 1] == t';
      TailTrailing(a', t', m - 1);
    } else if t != [] {
      assert t[|t| - 1] == a[|a| - 1];
    }
  }

  /** Step 1 turns a connector between two connector-free texts into
      exactly one `&`. */
  lemma ReplaceJoinedCount(a: string, w: string, b: string)
    requires HasNoAnd(a) && '&' !in a && HasNoAnd(b) && '&' !in b && IsConnector(w)
    ensures Count(ReplaceConnectors(a + w + b), '&') == 1
  {
    ReplaceJoined(a, w, b);
    var left := a[..|a| - TrailingSpaces(a)];
    var right := b[LeadingSpaces(b)..];
    assert '&' !in left by {
      assert forall i | 0 <= i < |left| :: left[i] == a[i];
    }
    assert '&' !in right by {
      assert forall i | 0 <= i < |right| :: right[i] == b[LeadingSpaces(b) + i];
    }
    CountOneAmpersand(left, right);
  }

  /** One ` & ` between two texts without `&` holds exactly one `&`. */
  lemma CountOneAmpersand(left: string, right: string)
    requires '&' !in left && '&' !in right
    ensures Count(left + " & " + right, '&') == 1
  {
    CountConcat(left + " & ", right, '&');
    CountConcat(left, " & ", '&');
    assert Count(" & ", '&') == 1;
  }

  // ---------------------------------------------------------------------
  // Step 2: re.sub(r'\s+', ' ', text).strip()
  // ---------------------------------------------------------------------

  /** `re.sub(r'\s+', ' ', s)`: each maximal whitespace run becomes one space. */
  function SquashSpaces(s: string): string
    decreases |s|
  {
    if s == [] then []
    else if IsSpace(s[0]) then " " + SquashSpaces(s[LeadingSpaces(s)..])
    else [s[0]] + SquashSpaces(s[1..])
  }

  function CollapseWhitespace(s: string): string {
    Strip(SquashSpaces(s))
  }

  /** Number of non-whitespace characters at the start of `s`. */
  function WordLength(s: string): (n: nat)
    ensures n <= |s|
    ensures n < |s| ==> IsSpace(s[n])
  {
    if s != [] && !IsSpace(s[0]) then 1 + WordLength(s[1..]) else 0
  }

  /** Python's `s.split()`: the maximal runs of non-whitespace, in order. */
  function Words(s: string): seq<string>
    decreases |s|
  {
    var t := s[LeadingSpaces(s)..];
    if t == [] then []
    else
      assert !IsSpace(t[0]) by {
        assert t[0] == s[LeadingSpaces(s)];
      }
      [t[..WordLength(t)]] + Words(t[WordLength(t)..])
  }

  /** Whitespace is in normal form: none at either end, every whitespace
      character is a plain space, and no two of them are adjacent. */
  predicate SpacesNormal(s: string) {
    (s == [] || (!IsSpace(s[0]) && !IsSpace(s[|s| - 1]))) && SingleSpaces(s)
  }

  /** Every whitespace character is a plain space and stands alone. */
  predicate SingleSpaces(s: string) {
    (forall i :: 0 <= i < |s| && IsSpace(s[i]) ==> s[i] == ' ')
    && (forall i :: 0 < i < |s| && IsSpace(s[i]) ==> !IsSpace(s[i - 1]))
  }

  lemma SingleSpacesInfix(s: string, k: nat, r: string)
    requires k + |r| <= |s| && r == s[k..k + |r|]
    requires SingleSpaces(s)
    ensures SingleSpaces(r)
  {
    forall i | 0 < i < |r| && IsSpace(r[i]) ensures !IsSpace(r[i - 1]) {
      assert r[i] == s[k + i] && r[i - 1] == s[k + i - 1];
    }
  }

  lemma SingleSpacesAfterSpace(x: string)
    requires SingleSpaces(x) && (x == [] || !IsSpace(x[0]))
    ensures SingleSpaces(" " + x)
  {
    var out := " " + x;
    forall i | 1 <= i < |out| ensures out[i] == x[i - 1] { }
  }

  lemma SingleSpacesAfterChar(c: char, x: string)
    requires SingleSpaces(x) && !IsSpace(c)
    ensures SingleSpaces([c] + x)
  {
    var out := [c] + x;
    forall i | 1 <= i < |out| ensures out[i] == x[i - 1] { }
  }

  lemma SquashSpacesHead(u: string)
    ensures SquashSpaces(u) == [] <==> u == []
    ensures u != [] && IsSpace(u[0]) ==> SquashSpaces(u)[0] == ' '
    ensures u != [] && !IsSpace(u[0]) ==> SquashSpaces(u)[0] == u[0]
  {
  }

  /** Inside the squashed text every whitespace character is a single space
      standing alone. */
  lemma {:induction false} SquashSpacesRuns(s: string)
    ensures SingleSpaces(SquashSpaces(s))
    decreases |s|
  {
    if s != [] {
      if IsSpace(s[0]) {
        var t := s[LeadingSpaces(s)..];
        SquashSpacesRuns(t);
        SquashSpacesHead(t);
        SingleSpacesAfterSpace(SquashSpaces(t));
      } else {
        SquashSpacesRuns(s[1..]);
        SingleSpacesAfterChar(s[0], SquashSpaces(s[1..]));
      }
    }
  }

  lemma WordsSkipSpace(c: char, x: string)
    requires IsSpace(c)
    ensures Words([c] + x) == Words(x)
  {
    assert ([c] + x)[1..] == x;
    assert ([c] + x)[LeadingSpaces([c] + x)..] == x[LeadingSpaces(x)..];
  }

  lemma WordsAfterLeadingSpace(s: string)
    ensures Words(s) == Words(s[LeadingSpaces(s)..])
  {
    var t := s[LeadingSpaces(s)..];
    assert LeadingSpaces(t) == 0;
    assert t[LeadingSpaces(t)..] == t;
  }

  lemma WordLengthCons(c: char, x: string)
    requires !IsSpace(c)
    ensures WordLength([c] + x) == 1 + WordLength(x)
  {
    assert ([c] + x)[1..] == x;
  }

  /** Text that starts with a word: that word, then the words after it. */
  lemma WordsHead(t: string)
    requires t != [] && !IsSpace(t[0])
    ensures Words(t) == [t[..WordLength(t)]] + Words(t[WordLength(t)..])
  {
    assert LeadingSpaces(t) == 0;
    assert t[0..] == t;
  }

  /** A non-whitespace character in front either starts a new first word or
      extends the first word of `x`. */
  lemma WordsCons(c: char, x: string)
    requires !IsSpace(c)
    ensures Words([c] + x) ==
      if x != [] && !IsSpace(x[0]) then [[c] + Words(x)[0]] + Words(x)[1..]
      else [[c]] + Words(x)
  {
    WordsFirst(c, x);
    if x != [] && !IsSpace(x[0]) {
      WordsHead(x);
    } else {
      assert x[..WordLength(x)] == [] && x[WordLength(x)..] == x;
    }
  }

  /** The first word of `[c] + x` is `c` followed by the word `x` starts with. */
  lemma WordsFirst(c: char, x: string)
    requires !IsSpace(c)
    ensures Words([c] + x) == [[c] + x[..WordLength(x)]] + Words(x[WordLength(x)..])
  {
    WordsHead([c] + x);
    WordLengthCons(c, x);
    ConsSlices(c, x, WordLength(x));
  }

  /** Squashing whitespace runs keeps every word and the separation between
      words. */
  lemma {:induction false} SquashSpacesKeepsWords(s: string)
    ensures Words(SquashSpaces(s)) == Words(s)
    decreases |s|
  {
    if s != [] {
      if IsSpace(s[0]) {
        SquashSpacesKeepsWords(s[LeadingSpaces(s)..]);
        SquashRunKeepsWords(s);
      } else {
        SquashSpacesKeepsWords(s[1..]);
        SquashCharKeepsWords(s[0], s[1..]);
        assert s == [s[0]] + s[1..];
      }
    }
  }

  /** A whitespace run in front becomes one space, which separates nothing. */
  lemma SquashRunKeepsWords(s: string)
    requires s != [] && IsSpace(s[0])
    requires Words(SquashSpaces(s[LeadingSpaces(s)..])) == Words(s[LeadingSpaces(s)..])
    ensures Words(SquashSpaces(s)) == Words(s)
  {
    var t := s[LeadingSpaces(s)..];
    assert SquashSpaces(s) == [' '] + SquashSpaces(t);
    WordsSkipSpace(' ', SquashSpaces(t));
    WordsAfterLeadingSpace(s);
  }

  /** A character other than whitespace in front is kept, and so is the way
      it joins the first word after it. */
  lemma SquashCharKeepsWords(c: char, t: string)
    requires !IsSpace(c)
    requires Words(SquashSpaces(t)) == Words(t)
    ensures Words(SquashSpaces([c] + t)) == Words([c] + t)
  {
    var u := SquashSpaces(t);
    assert ([c] + t)[1..] == t;
    assert SquashSpaces([c] + t) == [c] + u;
    SquashSpacesHead(t);
    WordsCons(c, u);
    WordsCons(c, t);
  }

  /** Whitespace at the end separates no words. */
  lemma {:induction false} WordsTrailingSpace(x: string, sp: string)
    requires AllSpace(sp)
    ensures Words(x + sp) == Words(x)
    decreases |x|
  {
    if x == [] {
      assert x + sp == sp;
      assert LeadingSpaces(sp) == |sp|;
    } else {
      assert x + sp == [x[0]] + (x[1..] + sp);
      assert x == [x[0]] + x[1..];
      WordsTrailingSpace(x[1..], sp);
      if IsSpace(x[0]) {
        WordsSkipSpace(x[0], x[1..] + sp);
        WordsSkipSpace(x[0], x[1..]);
      } else {
        WordsCons(x[0], x[1..] + sp);
        WordsCons(x[0], x[1..]);
      }
    }
  }

  /** Whitespace at the start separates no words. */
  lemma {:induction false} WordsLeadingSpace(sp: string, x: string)
    requires AllSpace(sp)
    ensures Words(sp + x) == Words(x)
    decreases |sp|
  {
    if sp != [] {
      var rest := sp[1..];
      assert IsSpace(sp[0]);
      assert AllSpace(rest) by {
        forall i | 0 <= i < |rest| ensures IsSpace(rest[i]) {
          assert rest[i] == sp[i + 1];
        }
      }
      assert sp + x == [sp[0]] + (rest + x);
      WordsSkipSpace(sp[0], rest + x);
      WordsLeadingSpace(rest, x);
    } else {
      assert sp + x == x;
    }
  }

  /** Whitespace around a text separates no words. */
  lemma WordsBetweenSpaces(lead: string, x: string, trail: string)
    requires AllSpace(lead) && AllSpace(trail)
    ensures Words(lead + x + trail) == Words(x)
  {
    assert lead + x + trail == lead + (x + trail);
    WordsLeadingSpace(lead, x + trail);
    WordsTrailingSpace(x, trail);
  }

  lemma StripKeepsWords(s: string)
    ensures Words(Strip(s)) == Words(s)
  {
    StripParts(s);
    WordsBetweenSpaces(s[..LeadingSpaces(s)], Strip(s), s[LeadingSpaces(s) + |Strip(s)|..]);
  }

  /** The result of step 2: whitespace in normal form (no leading or trailing
      whitespace, no two adjacent whitespace characters, only plain spaces)
      and exactly the same words as its input, in the same order. */
  lemma CollapseWhitespaceNormalises(s: string)
    ensures SpacesNormal(CollapseWhitespace(s))
    ensures Words(CollapseWhitespace(s)) == Words(s)
  {
    var sq := SquashSpaces(s);
    var r := Strip(sq);
    var k := LeadingSpaces(sq);
    SquashSpacesRuns(s);
    assert r == sq[k..k + |r|];
    SingleSpacesInfix(sq, k, r);
    SquashSpacesKeepsWords(s);
    StripKeepsWords(sq);
  }

  /** Text whose whitespace is already single plain spaces passes through
      the squashing unchanged. */
  lemma {:induction false} SquashSpacesIdentity(s: string)
    requires SingleSpaces(s)
    ensures SquashSpaces(s) == s
    decreases |s|
  {
    if s != [] {
      SingleSpacesInfix(s, 1, s[1..]);
      if IsSpace(s[0]) {
        assert |s| > 1 ==> !IsSpace(s[1]);
        assert LeadingSpaces(s) == 1;
      }
      SquashSpacesIdentity(s[1..]);
    }
  }

  // ---------------------------------------------------------------------
  // Step 3: for old, new in replacements.items(): text = text.replace(old, new)
  // ---------------------------------------------------------------------

  /** The replacement dict, in its iteration (insertion) order: the
      multiplication sign, the division sign, the caret, the minus sign
      U+2212, the em dash U+2014 and the two parentheses. */
  const Replacements: seq<(char, string)> := [
    ('\U{D7}', "*"), ('\U{F7}', "/"), ('^', "**"),
    ('\U{2212}', "-"), ('\U{2014}', "-"), ('(', " ( "), (')', " ) ")]

  /** `s.replace(key, repl)` for a one-character `key`: every occurrence of
      `key` becomes `repl`, and the inserted text is not scanned again. */
  function ReplaceChar(s: string, key: char, repl: string): string {
    if s == [] then [] else (if s[0] == key then repl else [s[0]]) + ReplaceChar(s[1..], key, repl)
  }

  /** The loop over the table: each entry's `replace` applied, in order, to
      the result of the previous ones. */
  function ApplyReplacements(table: seq<(char, string)>, s: string): string {
    if table == [] then s
    else ReplaceChar(ApplyReplacements(table[..|table| - 1], s), table[|table| - 1].0, table[|table| - 1].1)
  }

  /** What a single character becomes under the table read as a dictionary:
      the replacement of the first entry with that key, or the character
      itself. */
  function Lookup(table: seq<(char, string)>, c: char): string {
    if table == [] then [c]
    else if table[0].0 == c then table[0].1
    else Lookup(table[1..], c)
  }

  /** Every character replaced at once by its dictionary entry. */
  function Translate(table: seq<(char, string)>, s: string): string {
    if s == [] then [] else Lookup(table, s[0]) + Translate(table, s[1..])
  }

  /** No replacement text contains the key of a later entry, so a later
      `replace` never touches what an earlier one produced. */
  predicate NonInterfering(table: seq<(char, string)>) {
    forall j, k :: 0 <= j < k < |table| ==> table[k].0 !in table[j].1
  }

  lemma {:induction false} ReplaceCharConcat(a: string, b: string, key: char, repl: string)
    ensures ReplaceChar(a + b, key, repl) == ReplaceChar(a, key, repl) + ReplaceChar(b, key, repl)
    decreases |a|
  {
    if a == [] {
      assert a + b == b;
    } else {
      assert (a + b)[1..] == a[1..] + b;
      ReplaceCharConcat(a[1..], b, key, repl);
    }
  }

  lemma {:induction false} ReplaceCharAbsent(s: string, key: char, repl: string)
    requires key !in s
    ensures ReplaceChar(s, key, repl) == s
    decreases |s|
  {
    if s != [] {
      ReplaceCharAbsent(s[1..], key, repl);
    }
  }

  lemma {:induction false} ApplyReplacementsConcat(table: seq<(char, string)>, a: string, b: string)
    ensures ApplyReplacements(table, a + b) == ApplyReplacements(table, a) + ApplyReplacements(table, b)
    decreases |table|
  {
    if table != [] {
      var init := table[..|table| - 1];
      ApplyReplacementsConcat(init, a, b);
      ReplaceCharConcat(ApplyReplacements(init, a), ApplyReplacements(init, b), table[|table| - 1].0, table[|table| - 1].1);
    }
  }

  lemma {:induction false} LookupSnoc(init: seq<(char, string)>, key: char, repl: string, c: char)
    ensures Lookup(init + [(key, repl)], c) ==
      if exists j :: 0 <= j < |init| && init[j].0 == c then Lookup(init, c)
      else if c == key then repl else [c]
    decreases |init|
  {
    if init != [] {
      assert (init + [(key, repl)])[1..] == init[1..] + [(key, repl)];
      LookupSnoc(init[1..], key, repl, c);
      if init[0].0 != c {
        assert (exists j :: 0 <= j < |init| && init[j].0 == c) <==>
               (exists j :: 0 <= j < |init[1..]| && init[1..][j].0 == c) by {
          forall j | 0 <= j < |init| && init[j].0 == c ensures 0 <= j - 1 < |init[1..]| && init[1..][j - 1].0 == c { }
        }
      }
    }
  }

  /** The dictionary value of `c` comes from an entry with key `c`, or is
      `c` itself when there is none. */
  lemma {:induction false} LookupFrom(table: seq<(char, string)>, c: char)
    ensures (exists j :: 0 <= j < |table| && table[j].0 == c) ==>
      exists j :: 0 <= j < |table| && table[j].0 == c && Lookup(table, c) == table[j].1
    ensures (forall j :: 0 <= j < |table| ==> table[j].0 != c) ==> Lookup(table, c) == [c]
    decreases |table|
  {
    if table != [] {
      LookupFrom(table[1..], c);
      if table[0].0 != c && exists j :: 0 <= j < |table| && table[j].0 == c {
        var j :| 0 <= j < |table| && table[j].0 == c;
        assert table[1..][j - 1].0 == c;
        var j' :| 0 <= j' < |table[1..]| && table[1..][j'].0 == c && Lookup(table[1..], c) == table[1..][j'].1;
        assert table[j' + 1].0 == c;
      }
      if forall j :: 0 <= j < |table| ==> table[j].0 != c {
        assert table[0].0 != c;
        forall j | 0 <= j < |table[1..]| ensures table[1..][j].0 != c {
          assert table[1..][j] == table[j + 1];
        }
      }
    }
  }

  /** On a single character, the sequential loop gives the dictionary entry. */
  lemma {:induction false} ApplyReplacementsChar(table: seq<(char, string)>, c: char)
    requires NonInterfering(table)
    ensures ApplyReplacements(table, [c]) == Lookup(table, c)
    decreases |table|
  {
    if table != [] {
      var init := table[..|table| - 1];
      var (key, repl) := table[|table| - 1];
      assert table == init + [(key, repl)];
      assert NonInterfering(init);
      ApplyReplacementsChar(init, c);
      LookupSnoc(init, key, repl, c);
      LookupFrom(init, c);
      if exists j :: 0 <= j < |init| && init[j].0 == c {
        var j :| 0 <= j < |init| && init[j].0 == c && Lookup(init, c) == init[j].1;
        assert key !in table[j].1;
        ReplaceCharAbsent(Lookup(init, c), key, repl);
      } else {
        assert ReplaceChar([c], key, repl) == (if c == key then repl else [c]) + ReplaceChar([], key, repl);
      }
    }
  }

  /** Applying a non-interfering table entry by entry, as the loop does, is
      the same as replacing every character at once by its dictionary entry. */
  lemma {:induction false} SequentialIsTranslate(table: seq<(char, string)>, s: string)
    requires NonInterfering(table)
    ensures ApplyReplacements(table, s) == Translate(table, s)
    decreases |s|
  {
    if s == [] {
      ApplyReplacementsEmpty(table);
    } else {
      assert s == [s[0]] + s[1..];
      ApplyReplacementsConcat(table, [s[0]], s[1..]);
      ApplyReplacementsChar(table, s[0]);
      SequentialIsTranslate(table, s[1..]);
    }
  }

  lemma {:induction false} ApplyReplacementsEmpty(table: seq<(char, string)>)
    ensures ApplyReplacements(table, []) == []
    decreases |table|
  {
    if table != [] {
      ApplyReplacementsEmpty(table[..|table| - 1]);
    }
  }

  lemma ReplacementsNonInterfering()
    ensures NonInterfering(Replacements)
  {
  }

  /** The replacement table as a per-character map. */
  lemma GlyphOf(c: char)
    ensures Lookup(Replacements, c) ==
      if c == '\U{D7}' then "*"
      else if c == '\U{F7}' then "/"
      else if c == '^' then "**"
      else if c == '\U{2212}' || c == '\U{2014}' then "-"
      else if c == '(' then " ( "
      else if c == ')' then " ) "
      else [c]
  {
    var t0 := Replacements;
    var t1 := t0[1..];
    var t2 := t1[1..];
    var t3 := t2[1..];
    var t4 := t3[1..];
    var t5 := t4[1..];
    var t6 := t5[1..];
    var t7 := t6[1..];
    assert t7 == [];
    assert Lookup(t6, c) == if c == ')' then " ) " else Lookup(t7, c);
    assert Lookup(t5, c) == if c == '(' then " ( " else Lookup(t6, c);
    assert Lookup(t4, c) == if c == '\U{2014}' then "-" else Lookup(t5, c);
    assert Lookup(t3, c) == if c == '\U{2212}' then "-" else Lookup(t4, c);
    assert Lookup(t2, c) == if c == '^' then "**" else Lookup(t3, c);
    assert Lookup(t1, c) == if c == '\U{F7}' then "/" else Lookup(t2, c);
    assert Lookup(t0, c) == if c == '\U{D7}' then "*" else Lookup(t1, c);
  }

  lemma {:induction false} TranslateConcat(table: seq<(char, string)>, a: string, b: string)
    ensures Translate(table, a + b) == Translate(table, a) + Translate(table, b)
    decreases |a|
  {
    if a == [] {
      assert a + b == b;
    } else {
      assert (a + b)[1..] == a[1..] + b;
      TranslateConcat(table, a[1..], b);
    }
  }

  /** One of the five glyphs step 3 removes. */
  predicate IsGlyph(c: char) {
    c == '\U{D7}' || c == '\U{F7}' || c == '^' || c == '\U{2212}' || c == '\U{2014}'
  }

  predicate IsParen(c: char) {
    c == '(' || c == ')'
  }

  /** Every parenthesis has a space immediately before and after it. */
  predicate ParensPadded(s: string) {
    forall i :: 0 <= i < |s| && IsParen(s[i]) ==> 0 < i < |s| - 1 && s[i - 1] == ' ' && s[i + 1] == ' '
  }

  lemma ParensPaddedConcat(a: string, b: string)
    requires ParensPadded(a) && ParensPadded(b)
    ensures ParensPadded(a + b)
  {
    forall i | 0 <= i < |a + b| && IsParen((a + b)[i])
      ensures 0 < i < |a + b| - 1 && (a + b)[i - 1] == ' ' && (a + b)[i + 1] == ' '
    {
      if i < |a| {
        assert IsParen(a[i]);
      } else {
        assert IsParen(b[i - |a|]);
      }
    }
  }

  /** After step 3 none of the five glyphs is left, and every parenthesis is
      padded with a space on each side. */
  lemma {:induction false} TranslateShape(s: string)
    ensures forall i :: 0 <= i < |Translate(Replacements, s)| ==> !IsGlyph(Translate(Replacements, s)[i])
    ensures ParensPadded(Translate(Replacements, s))
    decreases |s|
  {
    if s != [] {
      TranslateShape(s[1..]);
      GlyphOf(s[0]);
      var g := Lookup(Replacements, s[0]);
      assert ParensPadded(g);
      ParensPaddedConcat(g, Translate(Replacements, s[1..]));
      var out := Translate(Replacements, s);
      assert out == g + Translate(Replacements, s[1..]);
      forall i | 0 <= i < |out| ensures !IsGlyph(out[i]) {
        if i >= |g| {
          assert out[i] == Translate(Replacements, s[1..])[i - |g|];
        }
      }
    }
  }

  /** Every `^` becomes `**`, and the text around it is translated on its own. */
  lemma CaretBecomesPower(a: string, b: string)
    ensures Translate(Replacements, a + "^" + b) == Translate(Replacements, a) + "**" + Translate(Replacements, b)
  {
    TranslateConcat(Replacements, a + "^", b);
    TranslateConcat(Replacements, a, "^");
    GlyphOf('^');
    assert Translate(Replacements, "^") == Lookup(Replacements, '^') + Translate(Replacements, []);
  }

  /** Characters that are not keys of the table are kept as they are. */
  lemma {:induction false} TranslateKeepsOthers(s: string)
    requires forall i :: 0 <= i < |s| ==> !IsGlyph(s[i]) && !IsParen(s[i])
    ensures Translate(Replacements, s) == s
    decreases |s|
  {
    if s != [] {
      GlyphOf(s[0]);
      TranslateKeepsOthers(s[1..]);
    }
  }

  // ---------------------------------------------------------------------
  // Step 4: re.sub(r'(?<=\d)(?=[a-zA-Z])', '*', text)
  // ---------------------------------------------------------------------

  /** A digit sits at index `i - 1` and an ASCII letter at index `i`. */
  predicate DigitLetterAt(s: string, i: int) {
    0 < i < |s| && IsDigit(s[i - 1]) && IsAsciiLetter(s[i])
  }

  /** The zero-width pattern matches at every digit-to-letter boundary, and
      a `*` is inserted at each one. */
  function InsertStars(s: string): string
    decreases |s|
  {
    if |s| < 2 then s
    else [s[0]] + (if IsDigit(s[0]) && IsAsciiLetter(s[1]) then "*" else "") + InsertStars(s[1..])
  }

  /** Number of digit-to-letter boundaries in `s`. */
  function Boundaries(s: string): nat
    decreases |s|
  {
    if |s| < 2 then 0
    else (if IsDigit(s[0]) && IsAsciiLetter(s[1]) then 1 else 0) + Boundaries(s[1..])
  }

  /** `s` with every `*` deleted. */
  function RemoveStars(s: string): string {
    if s == [] then [] else (if s[0] == '*' then [] else [s[0]]) + RemoveStars(s[1..])
  }

  lemma {:induction false} RemoveStarsConcat(a: string, b: string)
    ensures RemoveStars(a + b) == RemoveStars(a) + RemoveStars(b)
    decreases |a|
  {
    if a == [] {
      assert a + b == b;
    } else {
      assert (a + b)[1..] == a[1..] + b;
      RemoveStarsConcat(a[1..], b);
    }
  }

  lemma InsertStarsHead(s: string)
    ensures |InsertStars(s)| >= |s|
    ensures s != [] ==> InsertStars(s)[0] == s[0]
  {
  }

  lemma {:induction false} InsertStarsLast(s: string)
    ensures s != [] ==> |InsertStars(s)| >= 1 && InsertStars(s)[|InsertStars(s)| - 1] == s[|s| - 1]
    decreases |s|
  {
    if |s| >= 2 {
      InsertStarsLast(s[1..]);
    }
  }

  /** What step 4 puts between the first character and the rest. */
  function StarAfterFirst(s: string): string
    requires |s| >= 2
  {
    if IsDigit(s[0]) && IsAsciiLetter(s[1]) then "*" else ""
  }

  lemma InsertStarsUnfold(s: string)
    requires |s| >= 2
    ensures InsertStars(s) == [s[0]] + (StarAfterFirst(s) + InsertStars(s[1..]))
  {
    var mid := StarAfterFirst(s);
    var rest := InsertStars(s[1..]);
    assert [s[0]] + mid + rest == [s[0]] + (mid + rest);
  }

  lemma BoundariesUnfold(s: string)
    requires |s| >= 2
    ensures Boundaries(s) == Count(StarAfterFirst(s), '*') + Boundaries(s[1..])
  {
    if IsDigit(s[0]) && IsAsciiLetter(s[1]) {
      assert StarAfterFirst(s)[1..] == [];
    }
  }

  /** Step 4 only inserts `*`: deleting all stars from its output gives the
      same text as deleting them from its input. */
  lemma {:induction false} InsertStarsOnlyInserts(s: string)
    ensures RemoveStars(InsertStars(s)) == RemoveStars(s)
    decreases |s|
  {
    if |s| >= 2 {
      var mid := StarAfterFirst(s);
      InsertStarsOnlyInserts(s[1..]);
      InsertStarsUnfold(s);
      RemoveStarsConcat([s[0]], mid + InsertStars(s[1..]));
      RemoveStarsConcat(mid, InsertStars(s[1..]));
      assert RemoveStars(mid) == [];
      assert s == [s[0]] + s[1..];
      RemoveStarsConcat([s[0]], s[1..]);
    }
  }

  /** The output of step 4 holds one more star per digit-to-letter boundary
      of its input. */
  lemma {:induction false} InsertStarsCount(s: string)
    ensures Count(InsertStars(s), '*') == Count(s, '*') + Boundaries(s)
    decreases |s|
  {
    if |s| >= 2 {
      var mid := StarAfterFirst(s);
      InsertStarsCount(s[1..]);
      InsertStarsUnfold(s);
      BoundariesUnfold(s);
      CountConcat([s[0]], mid + InsertStars(s[1..]), '*');
      CountConcat(mid, InsertStars(s[1..]), '*');
      assert s == [s[0]] + s[1..];
      CountConcat([s[0]], s[1..], '*');
    }
  }

  /** After step 4 no digit is directly followed by an ASCII letter. */
  lemma {:induction false} InsertStarsSeparates(s: string)
    ensures forall i :: !DigitLetterAt(InsertStars(s), i)
    decreases |s|
  {
    if |s| >= 2 {
      var t := s[1..];
      var mid := if IsDigit(s[0]) && IsAsciiLetter(s[1]) then "*" else "";
      InsertStarsSeparates(t);
      InsertStarsHead(t);
      var out := InsertStars(s);
      assert out == [s[0]] + mid + InsertStars(t);
      forall i ensures !DigitLetterAt(out, i) {
        if i > 1 + |mid| {
          assert DigitLetterAt(out, i) ==> DigitLetterAt(InsertStars(t), i - 1 - |mid|);
        }
      }
    }
  }

  /** Text without a digit-to-letter boundary (letter-to-digit and
      letter-to-letter pairs included) passes through step 4 unchanged. */
  lemma {:induction false} InsertStarsIdentity(s: string)
    requires forall i :: !DigitLetterAt(s, i)
    ensures InsertStars(s) == s
    decreases |s|
  {
    if |s| >= 2 {
      assert !DigitLetterAt(s, 1);
      forall i ensures !DigitLetterAt(s[1..], i) {
        assert DigitLetterAt(s[1..], i) ==> DigitLetterAt(s, i + 1);
      }
      InsertStarsIdentity(s[1..]);
    }
  }

  /** No character other than `*` appears in the output of step 4 that was
      not already in its input. */
  lemma {:induction false} InsertStarsChars(s: string)
    ensures forall c :: c in InsertStars(s) ==> c in s || c == '*'
    decreases |s|
  {
    if |s| >= 2 {
      InsertStarsChars(s[1..]);
    }
  }

  /** Parentheses stay padded through step 4: it never inserts next to a
      parenthesis, and it keeps the first and the last character. */
  lemma {:induction false} InsertStarsKeepsPadding(s: string)
    requires ParensPadded(s)
    ensures ParensPadded(InsertStars(s))
  {
    PaddedLocally(s);
    InsertStarsLocal(s);
    InsertStarsHead(s);
    InsertStarsLast(s);
    LocallyPadded(InsertStars(s));
  }

  /** Neighbours of parentheses are spaces, looking at adjacent pairs only. */
  predicate PairsPadded(s: string) {
    forall i :: 0 <= i < |s| - 1 ==>
      (IsParen(s[i]) ==> s[i + 1] == ' ') && (IsParen(s[i + 1]) ==> s[i] == ' ')
  }

  lemma PaddedLocally(s: string)
    requires ParensPadded(s)
    ensures PairsPadded(s)
    ensures s == [] || (!IsParen(s[0]) && !IsParen(s[|s| - 1]))
  {
    if s != [] {
    }
  }

  lemma LocallyPadded(s: string)
    requires PairsPadded(s)
    requires s == [] || (!IsParen(s[0]) && !IsParen(s[|s| - 1]))
    ensures ParensPadded(s)
  {
    forall i | 0 <= i < |s| && IsParen(s[i])
      ensures 0 < i < |s| - 1 && s[i - 1] == ' ' && s[i + 1] == ' '
    {
      assert i != 0 && i != |s| - 1;
      assert IsParen(s[(i - 1) + 1]);
    }
  }

  lemma {:induction false} InsertStarsLocal(s: string)
    requires PairsPadded(s)
    ensures PairsPadded(InsertStars(s))
    decreases |s|
  {
    if |s| >= 2 {
      var t := s[1..];
      var mid := if IsDigit(s[0]) && IsAsciiLetter(s[1]) then "*" else "";
      assert PairsPadded(t) by {
        forall i | 0 <= i < |t| - 1
          ensures (IsParen(t[i]) ==> t[i + 1] == ' ') && (IsParen(t[i + 1]) ==> t[i] == ' ')
        {
          assert t[i] == s[i + 1] && t[i + 1] == s[i + 2];
        }
      }
      InsertStarsLocal(t);
      InsertStarsHead(t);
      var rest := InsertStars(t);
      var out := InsertStars(s);
      assert out == [s[0]] + mid + rest;
      forall i | 0 <= i < |out| - 1
        ensures (IsParen(out[i]) ==> out[i + 1] == ' ') && (IsParen(out[i + 1]) ==> out[i] == ' ')
      {
        if i >= 1 + |mid| {
          assert out[i] == rest[i - 1 - |mid|] && out[i + 1] == rest[i - |mid|];
        } else if mid == [] {
          assert out[0] == s[0] && out[1] == s[1];
        }
      }
    }
  }

  // ---------------------------------------------------------------------
  // The whole pipeline
  // ---------------------------------------------------------------------

  /** What `preprocess_input` returns for `s`. */
  function Normalize(s: string): string {
    InsertStars(Translate(Replacements, CollapseWhitespace(ReplaceConnectors(s))))
  }

  /** One more round of the replacement loop: the entry at index `i` is
      applied to what the first `i` entries made of the text. */
  lemma ApplyReplacementsStep(table: seq<(char, string)>, i: nat, s: string)
    requires i < |table|
    ensures ApplyReplacements(table[..i + 1], s) == ReplaceChar(ApplyReplacements(table[..i], s), table[i].0, table[i].1)
  {
    assert table[..i + 1][..i] == table[..i];
  }

  /** The loop of `preprocess_input` over the replacement dict, each entry's
      `replace` applied in turn to the running text. */
  method ReplaceAll(table: seq<(char, string)>, s: string) returns (text: string)
    ensures text == ApplyReplacements(table, s)
  {
    text := s;
    for i := 0 to |table|
      invariant text == ApplyReplacements(table[..i], s)
    {
      var (key, repl) := table[i];
      ApplyReplacementsStep(table, i, s);
      text := ReplaceChar(text, key, repl);
    }
    assert table[..|table|] == table;
  }

  /** `preprocess_input`: reassigns the text step by step. */
  method PreprocessInput(input: string) returns (text: string)
    ensures text == Normalize(input)
  {
    text := ReplaceConnectors(input);
    text := CollapseWhitespace(text);
    ghost var collapsed := text;
    text := ReplaceAll(Replacements, text);
    ReplacementsNonInterfering();
    SequentialIsTranslate(Replacements, collapsed);
    text := InsertStars(text);
  }

  /** The normalised text contains none of the five glyphs, every
      parenthesis in it is padded with spaces, and no digit in it is
      directly followed by an ASCII letter. */
  lemma NormalizeShape(s: string)
    ensures forall i :: 0 <= i < |Normalize(s)| ==> !IsGlyph(Normalize(s)[i])
    ensures ParensPadded(Normalize(s))
    ensures forall i :: !DigitLetterAt(Normalize(s), i)
  {
    var translated := Translate(Replacements, CollapseWhitespace(ReplaceConnectors(s)));
    TranslateShape(CollapseWhitespace(ReplaceConnectors(s)));
    InsertStarsChars(translated);
    InsertStarsKeepsPadding(translated);
    InsertStarsSeparates(translated);
    forall i | 0 <= i < |Normalize(s)| ensures !IsGlyph(Normalize(s)[i]) {
      var c := Normalize(s)[i];
      assert c in InsertStars(translated);
      if c != '*' {
        var j :| 0 <= j < |translated| && translated[j] == c;
      }
    }
  }

  // ---------------------------------------------------------------------
  // Characters the pipeline leaves alone
  // ---------------------------------------------------------------------

  /** A character steps 2-4 neither remove, insert nor rewrite: it is not
      whitespace, not a key of the table, and not in any text the table or
      step 4 inserts. */
  predicate KeptAfterConnectors(c: char) {
    !IsSpace(c) && !IsGlyph(c) && !IsParen(c) && c != '*' && c != '/' && c != '-'
  }

  /** A letter of `and`, in either case. */
  predicate IsConnectorLetter(c: char) {
    c == 'a' || c == 'A' || c == 'n' || c == 'N' || c == 'd' || c == 'D'
  }

  /** A character no step touches: besides, it is neither `&` nor a letter
      of `and`. `=` is one. */
  predicate Kept(c: char) {
    KeptAfterConnectors(c) && c != '&' && !IsConnectorLetter(c)
  }

  lemma EqualsSignKept()
    ensures Kept('=')
  {
  }

  /** The normaliser neither adds nor removes an `=`. */
  lemma NormalizeKeepsEquals(s: string)
    ensures Count(Normalize(s), '=') == Count(s, '=')
  {
    EqualsSignKept();
    NormalizeKeepsCount(s, '=');
  }

  /** The connector at the start of `t`. */
  function Connector(t: string): string
    requires ConnectorLength(t) <= |t|
  {
    t[..ConnectorLength(t)]
  }

  /** A match at the start of `s` consumes whitespace, a connector and
      whitespace: every non-whitespace character it consumes belongs to the
      connector. */
  lemma {:induction false} MatchCount(s: string, c: char)
    requires ConnectorAhead(s) && !IsSpace(c)
    ensures ConnectorLength(s[LeadingSpaces(s)..]) <= |s[LeadingSpaces(s)..]|
    ensures Count(s, c) == Count(Connector(s[LeadingSpaces(s)..]), c) + Count(s[MatchEnd(s)..], c)
  {
    var q := LeadingSpaces(s);
    var len := ConnectorLength(s[q..]);
    var rest := s[q..][len..];
    assert rest == s[q + len..];
    assert s[q + len..][..LeadingSpaces(rest)] == s[q + len..MatchEnd(s)];
    assert s[q..][..len] == s[q..q + len];
    CountBetweenSpaces(s, q, q + len, MatchEnd(s), c);
  }

  /** A connector is `&` or the three letters of `and`. */
  lemma {:induction false} ConnectorLetters(t: string, c: char)
    requires 0 < ConnectorLength(t) <= |t|
    ensures Kept(c) ==> Count(Connector(t), c) == 0
    ensures !AndAt(t, 0) ==> Connector(t) == "&"
  {
    var w := Connector(t);
    if Kept(c) {
      assert forall i | 0 <= i < |w| :: w[i] != c;
    }
  }

  lemma {:induction false} ReplaceConnectorsKeepsCount(s: string, c: char)
    requires Kept(c)
    ensures Count(ReplaceConnectors(s), c) == Count(s, c)
    decreases |s|
  {
    if s != [] {
      if ConnectorAhead(s) {
        var tail := AfterConnector(s);
        ReplaceConnectorsKeepsCount(tail, c);
        MatchCount(s, c);
        ConnectorLetters(s[LeadingSpaces(s)..], c);
        CountConcat(" & ", ReplaceConnectors(tail), c);
        assert Count(" & ", c) == 0;
      } else {
        ReplaceConnectorsKeepsCount(s[1..], c);
        CountConcat([s[0]], ReplaceConnectors(s[1..]), c);
      }
    }
  }

  /** `s[k..]` holds no `and` when `s` holds none. */
  lemma {:induction false} HasNoAndSuffix(s: string, k: nat)
    requires HasNoAnd(s) && k <= |s|
    ensures HasNoAnd(s[k..])
  {
    forall i | 0 <= i < |s[k..]| ensures !AndAt(s[k..], i) {
      assert !AndAt(s, k + i);
    }
  }

  /** Without any `and`, the matches of step 1 are exactly the `&`
      characters, so step 1 leaves their number unchanged. */
  lemma {:induction false} ReplaceConnectorsKeepsAmpersands(s: string)
    requires HasNoAnd(s)
    ensures Count(ReplaceConnectors(s), '&') == Count(s, '&')
    decreases |s|
  {
    if s != [] {
      if ConnectorAhead(s) {
        var t := s[LeadingSpaces(s)..];
        assert !AndAt(t, 0) by {
          assert !AndAt(s, LeadingSpaces(s));
        }
        var tail := AfterConnector(s);
        HasNoAndSuffix(s, MatchEnd(s));
        ReplaceConnectorsKeepsAmpersands(tail);
        MatchCount(s, '&');
        ConnectorLetters(t, '&');
        CountConcat(" & ", ReplaceConnectors(tail), '&');
        assert Count(" & ", '&') == 1;
        assert Count("&", '&') == 1;
      } else {
        HasNoAndSuffix(s, 1);
        ReplaceConnectorsKeepsAmpersands(s[1..]);
        CountConcat([s[0]], ReplaceConnectors(s[1..]), '&');
      }
    }
  }

  lemma {:induction false} SquashSpacesKeepsCount(s: string, c: char)
    requires !IsSpace(c)
    ensures Count(SquashSpaces(s), c) == Count(s, c)
    decreases |s|
  {
    if s != [] {
      if IsSpace(s[0]) {
        var k := LeadingSpaces(s);
        SquashSpacesKeepsCount(s[k..], c);
        assert s == s[..k] + s[k..];
        CountConcat(s[..k], s[k..], c);
        CountAllSpace(s[..k], c);
        CountConcat(" ", SquashSpaces(s[k..]), c);
        assert Count(" ", c) == 0;
      } else {
        SquashSpacesKeepsCount(s[1..], c);
        CountConcat([s[0]], SquashSpaces(s[1..]), c);
        CountConcat([s[0]], s[1..], c);
        assert s == [s[0]] + s[1..];
      }
    }
  }

  lemma StripKeepsCount(s: string, c: char)
    requires !IsSpace(c)
    ensures Count(Strip(s), c) == Count(s, c)
  {
    var k := LeadingSpaces(s);
    var r := Strip(s);
    StripParts(s);
    CountConcat(s[..k] + r, s[k + |r|..], c);
    CountConcat(s[..k], r, c);
    CountAllSpace(s[..k], c);
    CountAllSpace(s[k + |r|..], c);
  }

  lemma {:induction false} TranslateKeepsCount(s: string, c: char)
    requires KeptAfterConnectors(c)
    ensures Count(Translate(Replacements, s), c) == Count(s, c)
    decreases |s|
  {
    if s != [] {
      GlyphOf(s[0]);
      var g := Lookup(Replacements, s[0]);
      assert Count(g, c) == (if s[0] == c then 1 else 0);
      TranslateKeepsCount(s[1..], c);
      CountConcat(g, Translate(Replacements, s[1..]), c);
    }
  }

  lemma {:induction false} RemoveStarsKeepsCount(s: string, c: char)
    requires c != '*'
    ensures Count(RemoveStars(s), c) == Count(s, c)
    decreases |s|
  {
    if s != [] {
      RemoveStarsKeepsCount(s[1..], c);
      CountConcat(if s[0] == '*' then [] else [s[0]], RemoveStars(s[1..]), c);
    }
  }

  /** Steps 2-4 keep the number of occurrences of every character they
      neither rewrite nor insert, `&` among them. */
  lemma NormalizeKeepsCountAfterConnectors(s: string, c: char)
    requires KeptAfterConnectors(c)
    ensures Count(Normalize(s), c) == Count(ReplaceConnectors(s), c)
  {
    var connected := ReplaceConnectors(s);
    SquashSpacesKeepsCount(connected, c);
    StripKeepsCount(SquashSpaces(connected), c);
    var translated := Translate(Replacements, CollapseWhitespace(connected));
    TranslateKeepsCount(CollapseWhitespace(connected), c);
    InsertStarsOnlyInserts(translated);
    RemoveStarsKeepsCount(InsertStars(translated), c);
    RemoveStarsKeepsCount(translated, c);
  }

  /** The whole pipeline keeps the number of `=` signs, and of every other
      character it does not rewrite. */
  lemma NormalizeKeepsCount(s: string, c: char)
    requires Kept(c)
    ensures Count(Normalize(s), c) == Count(s, c)
  {
    NormalizeKeepsCountAfterConnectors(s, c);
    ReplaceConnectorsKeepsCount(s, c);
  }

  /** Two connector-free texts joined by a connector normalise to a text
      with exactly one `&`. */
  lemma NormalizeJoinedCount(a: string, w: string, b: string)
    requires HasNoAnd(a) && '&' !in a && HasNoAnd(b) && '&' !in b && IsConnector(w)
    ensures Count(Normalize(a + w + b), '&') == 1
  {
    ReplaceJoinedCount(a, w, b);
    NormalizeKeepsCountAfterConnectors(a + w + b, '&');
  }

  /** In a text without any `and`, the normalised text holds as many `&` as
      the input. */
  lemma NormalizeKeepsAmpersands(s: string)
    requires HasNoAnd(s)
    ensures Count(Normalize(s), '&') == Count(s, '&')
  {
    NormalizeKeepsCountAfterConnectors(s, '&');
    ReplaceConnectorsKeepsAmpersands(s);
  }

  // ---------------------------------------------------------------------
  // Two texts joined by a connector
  // ---------------------------------------------------------------------

  /** Steps 3 and 4, which work on the collapsed text. */
  function Finish(s: string): string {
    InsertStars(Translate(Replacements, s))
  }

  /** A text that is empty or ends in a character other than whitespace. */
  predicate EndsSolid(x: string) {
    x == [] || !IsSpace(x[|x| - 1])
  }

  /** A text that is empty or starts with a character other than whitespace. */
  predicate StartsSolid(y: string) {
    y == [] || !IsSpace(y[0])
  }

  /** A whitespace run cannot reach past the end of `x` when `x` ends in
      something else, so squashing treats `x` and what follows apart. */
  lemma {:induction false} SquashJoin(x: string, y: string)
    requires EndsSolid(x)
    ensures SquashSpaces(x + y) == SquashSpaces(x) + SquashSpaces(y)
    decreases |x|
  {
    if x != [] {
      if IsSpace(x[0]) {
        var k := LeadingSpaces(x);
        RunInsidePrefix(x, y);
        assert EndsSolid(x[k..]);
        SquashJoin(x[k..], y);
        assert (x + y)[0] == x[0];
        assert SquashSpaces(x + y) == " " + SquashSpaces(x[k..] + y);
        assert SquashSpaces(x) == " " + SquashSpaces(x[k..]);
      } else {
        assert (x + y)[0] == x[0];
        assert (x + y)[1..] == x[1..] + y;
        assert EndsSolid(x[1..]);
        SquashJoin(x[1..], y);
        assert SquashSpaces(x + y) == [x[0]] + SquashSpaces(x[1..] + y);
      }
    } else {
      assert x + y == y;
    }
  }

  /** The leading whitespace of `x + y` is that of `x`, when `x` ends in
      something other than whitespace. */
  lemma RunInsidePrefix(x: string, y: string)
    requires x != [] && !IsSpace(x[|x| - 1])
    ensures LeadingSpaces(x) < |x|
    ensures LeadingSpaces(x + y) == LeadingSpaces(x)
    ensures (x + y)[LeadingSpaces(x)..] == x[LeadingSpaces(x)..] + y
  {
    var k := LeadingSpaces(x);
    PrefixSpaces(x, k);
    assert k < |x|;
    assert (x + y)[..k] == x[..k];
    assert (x + y)[k] == x[k];
    LeadingSpacesUnique(x + y, k);
  }

  /** Whitespace squashes to one space, or to nothing when there is none. */
  lemma SquashAllSpace(z: string)
    requires AllSpace(z)
    ensures SquashSpaces(z) == if z == [] then [] else " "
  {
    if z != [] {
      assert z[..|z|] == z;
      LeadingSpacesUnique(z, |z|);
      assert z[|z|..] == [];
    }
  }

  /** Whitespace in front of a text that starts with something else
      squashes on its own. */
  lemma SquashAfterSpaces(sp: string, y: string)
    requires AllSpace(sp) && StartsSolid(y)
    ensures SquashSpaces(sp + y) == SquashSpaces(sp) + SquashSpaces(y)
  {
    SquashAllSpace(sp);
    if sp == [] {
      assert sp + y == y;
    } else {
      assert (sp + y)[..|sp|] == sp;
      assert |sp| < |sp + y| ==> (sp + y)[|sp|] == y[0];
      LeadingSpacesUnique(sp + y, |sp|);
      assert (sp + y)[|sp|..] == y;
    }
  }

  /** ` & ` between two texts that do not touch it with whitespace is kept
      as it is by squashing. */
  lemma SquashAroundAmpersand(x: string, y: string)
    requires EndsSolid(x) && StartsSolid(y)
    ensures SquashSpaces(x + " & " + y) == SquashSpaces(x) + " & " + SquashSpaces(y)
  {
    assert x + " & " + y == x + (" & " + y);
    SquashJoin(x, " & " + y);
    SquashAmpersand(" & " + y, y);
  }

  lemma SquashAmpersand(s: string, y: string)
    requires s == " & " + y && StartsSolid(y)
    ensures SquashSpaces(s) == " & " + SquashSpaces(y)
  {
    SquashPadded('&', y);
  }

  /** A character other than whitespace with one space on either side is
      kept as it is by squashing. */
  lemma SquashPadded(c: char, y: string)
    requires !IsSpace(c) && StartsSolid(y)
    ensures SquashSpaces([' ', c, ' '] + y) == [' ', c, ' '] + SquashSpaces(y)
  {
    var u := " " + y;
    var v := [c] + u;
    assert SquashSpaces(u) == " " + SquashSpaces(y) by {
      SquashSpaceHead(y);
    }
    assert SquashSpaces(v) == [c] + SquashSpaces(u) by {
      SquashSolidHead(c, u);
    }
    assert SquashSpaces(" " + v) == " " + SquashSpaces(v) by {
      SquashSpaceHead(v);
    }
    ConsThree(' ', c, ' ', y);
    ConsThree(' ', c, ' ', SquashSpaces(y));
  }

  lemma ConsThree<T>(a: T, b: T, c: T, z: seq<T>)
    ensures [a] + ([b] + ([c] + z)) == [a, b, c] + z
  {
  }

  /** One space in front of a text that starts with something else stays
      one space. */
  lemma SquashSpaceHead(u: string)
    requires StartsSolid(u)
    ensures SquashSpaces(" " + u) == " " + SquashSpaces(u)
  {
    OneSpace(" ");
    SquashAfterSpaces(" ", u);
    SquashAllSpace(" ");
  }

  /** A character other than whitespace is copied by squashing. */
  lemma SquashSolidHead(c: char, u: string)
    requires !IsSpace(c)
    ensures SquashSpaces([c] + u) == [c] + SquashSpaces(u)
  {
    assert ([c] + u)[1..] == u;
  }

  /** A zero-width match cannot fall between `u` and `v` unless `u` ends in
      a digit and `v` starts with a letter, so step 4 treats them apart. */
  lemma {:induction false} InsertStarsJoin(u: string, v: string)
    requires u == [] || v == [] || !IsDigit(u[|u| - 1]) || !IsAsciiLetter(v[0])
    ensures InsertStars(u + v) == InsertStars(u) + InsertStars(v)
    decreases |u|
  {
    if |u| >= 2 {
      assert (u + v)[1..] == u[1..] + v;
      InsertStarsJoin(u[1..], v);
    } else if |u| == 1 && v != [] {
      assert (u + v)[1..] == v;
    } else if u == [] {
      assert u + v == v;
    }
  }

  /** Steps 3 and 4 leave whitespace as it is. */
  lemma FinishAllSpace(sp: string)
    requires AllSpace(sp)
    ensures Translate(Replacements, sp) == sp
    ensures InsertStars(sp) == sp
  {
    TranslateKeepsOthers(sp);
    InsertStarsIdentity(sp);
  }

  /** Whitespace around a text passes steps 3 and 4 unchanged. */
  lemma FinishAmongSpaces(l: string, m: string, t: string)
    requires AllSpace(l) && AllSpace(t)
    ensures Finish(l + m + t) == l + Finish(m) + t
  {
    var mid := Translate(Replacements, m);
    TranslateConcat(Replacements, l + m, t);
    TranslateConcat(Replacements, l, m);
    FinishAllSpace(l);
    FinishAllSpace(t);
    InsertStarsJoin(l + mid, t);
    InsertStarsJoin(l, mid);
  }

  /** ` & ` passes steps 3 and 4 unchanged, and keeps the texts on either
      side of it apart. */
  lemma FinishAroundAmpersand(x: string, y: string)
    ensures Finish(x + " & " + y) == Finish(x) + " & " + Finish(y)
  {
    var sep := " & ";
    var tx := Translate(Replacements, x);
    var ty := Translate(Replacements, y);
    TranslateConcat(Replacements, x + sep, y);
    TranslateConcat(Replacements, x, sep);
    AmpersandUntouched(sep);
    InsertStarsJoin(tx + sep, ty);
    InsertStarsJoin(tx, sep);
  }

  lemma AmpersandUntouched(sep: string)
    requires sep == " & "
    ensures Translate(Replacements, sep) == sep && InsertStars(sep) == sep
  {
    TranslateKeepsOthers(sep);
    InsertStarsIdentity(sep);
  }

  /** Steps 3 and 4 bring in no `&`. */
  lemma FinishNoAmpersand(x: string)
    requires '&' !in x
    ensures '&' !in Finish(x)
  {
    TranslateKeepsCount(x, '&');
    InsertStarsChars(Translate(Replacements, x));
  }

  /** Steps 3 and 4 commute with `strip()` up to the whitespace they leave
      at the ends. */
  lemma StripFinish(x: string)
    ensures Strip(Finish(x)) == Strip(Finish(Strip(x)))
  {
    var k := LeadingSpaces(x);
    var r := Strip(x);
    StripParts(x);
    FinishAmongSpaces(x[..k], r, x[k + |r|..]);
    StripAmongSpaces(x[..k], Finish(r), x[k + |r|..]);
  }

  /** A connector-free text whose squashed form is `x` surrounded by
      whitespace normalises, up to the ends, to what steps 3 and 4 make of
      `x`. */
  lemma NormalizedSide(s: string, x: string)
    requires HasNoAnd(s) && '&' !in s && CollapseWhitespace(s) == Strip(x)
    ensures Strip(Normalize(s)) == Strip(Finish(x))
  {
    assert Normalize(s) == Finish(Strip(x)) by {
      ReplaceConnectorsIdentity(s);
    }
    StripFinish(x);
  }

  /** Whitespace squashes to whitespace. */
  lemma SquashedSpaces(z: string)
    requires AllSpace(z)
    ensures AllSpace(SquashSpaces(z))
  {
    SquashAllSpace(z);
    if z != [] {
      OneSpace(" ");
    }
  }

  /** What step 1 keeps of the left side: `a` without its trailing
      whitespace. */
  lemma LeftPart(a: string, x: string, t: string)
    requires '&' !in a && x == a[..|a| - TrailingSpaces(a)] && t == a[|a| - TrailingSpaces(a)..]
    ensures a == x + t && AllSpace(t) && EndsSolid(x) && '&' !in x
  {
    var k := |a| - TrailingSpaces(a);
    assert k > 0 ==> !IsSpace(a[k - 1]);
    TakeDrop(a, k, x, t);
  }

  /** Cutting `a` at `k`: the parts make up `a`, the first is made of
      characters of `a`, and its last character is that of `a` before `k`. */
  lemma TakeDrop(a: string, k: nat, x: string, t: string)
    requires k <= |a| && x == a[..k] && t == a[k..]
    ensures a == x + t && |x| == k
    ensures forall c :: c in x ==> c in a
    ensures k > 0 ==> x[k - 1] == a[k - 1]
  {
    assert forall i | 0 <= i < k :: x[i] == a[i];
  }

  /** What step 1 keeps of the right side: `b` without its leading
      whitespace. */
  lemma RightPart(b: string, l: string, y: string)
    requires '&' !in b && l == b[..LeadingSpaces(b)] && y == b[LeadingSpaces(b)..]
    ensures b == l + y && AllSpace(l) && StartsSolid(y) && '&' !in y
  {
    var j := LeadingSpaces(b);
    assert j < |b| ==> y[0] == b[j];
    assert forall i | 0 <= i < |b| - j :: y[i] == b[j + i];
  }

  /** The left side normalises, up to the ends, as its part before the
      trailing whitespace does. */
  lemma LeftSide(a: string, x: string, t: string)
    requires HasNoAnd(a) && '&' !in a
    requires a == x + t && AllSpace(t) && EndsSolid(x)
    ensures Strip(Normalize(a)) == Strip(Finish(SquashSpaces(x)))
  {
    var sx := SquashSpaces(x);
    var st := SquashSpaces(t);
    assert SquashSpaces(a) == sx + st by {
      SquashJoin(x, t);
    }
    assert CollapseWhitespace(a) == Strip(sx) by {
      SquashedSpaces(t);
      StripBeforeSpaces(sx, st);
    }
    NormalizedSide(a, sx);
  }

  /** The right side normalises, up to the ends, as its part after the
      leading whitespace does. */
  lemma RightSide(b: string, l: string, y: string)
    requires HasNoAnd(b) && '&' !in b
    requires b == l + y && AllSpace(l) && StartsSolid(y)
    ensures Strip(Normalize(b)) == Strip(Finish(SquashSpaces(y)))
  {
    var sl := SquashSpaces(l);
    var sy := SquashSpaces(y);
    assert SquashSpaces(b) == sl + sy by {
      SquashAfterSpaces(l, y);
    }
    assert CollapseWhitespace(b) == Strip(sy) by {
      SquashedSpaces(l);
      StripAfterSpaces(sl, sy);
    }
    NormalizedSide(b, sy);
  }

  /** A text with one `&` that, padded with whitespace, reads
      `fx + " & " + fy` splits into two pieces stripping to `fx` and `fy`
      stripped. */
  lemma CutAtAmpersand(n: string, lead: string, trail: string, fx: string, fy: string)
    requires AllSpace(lead) && AllSpace(trail) && '&' !in fx && '&' !in fy
    requires Count(n, '&') == 1 && lead + n + trail == fx + " & " + fy
    ensures |Split(n, '&')| == 2
    ensures Strip(Split(n, '&')[0]) == Strip(fx) && Strip(Split(n, '&')[1]) == Strip(fy)
  {
    SplitInTwo(n, '&');
    var parts := Split(n, '&');
    CutPieces(lead, parts[0], parts[1], trail, fx, fy);
  }

  lemma SplitInTwo(n: string, c: char)
    requires Count(n, c) == 1
    ensures |Split(n, c)| == 2 && n == Split(n, c)[0] + [c] + Split(n, c)[1]
  {
    var parts := Split(n, c);
    assert JoinWith(parts, [c]) == parts[0] + [c] + JoinWith(parts[1..], [c]);
  }

  lemma CutPieces(lead: string, p: string, q: string, trail: string, fx: string, fy: string)
    requires AllSpace(lead) && AllSpace(trail) && '&' !in fx && '&' !in p
    requires lead + (p + "&" + q) + trail == fx + " & " + fy
    ensures Strip(p) == Strip(fx) && Strip(q) == Strip(fy)
  {
    SameSides(lead, p, q, trail, fx, fy);
    StripSides(lead, p, q, trail, fx, fy);
  }

  lemma StripSides(lead: string, p: string, q: string, trail: string, fx: string, fy: string)
    requires AllSpace(lead) && AllSpace(trail)
    requires lead + p == fx + " " && q + trail == " " + fy
    ensures Strip(p) == Strip(fx) && Strip(q) == Strip(fy)
  {
    OneSpace(" ");
    StripEither(lead, p, fx, " ");
    StripEither(" ", fy, q, trail);
  }

  lemma OneSpace(sp: string)
    requires sp == " "
    ensures AllSpace(sp)
  {
    assert IsSpace(sp[0]);
  }

  /** Two texts that agree once each is padded with whitespace, on the left
      for the one and on the right for the other, strip alike. */
  lemma StripEither(l: string, m: string, n: string, t: string)
    requires AllSpace(l) && AllSpace(t) && l + m == n + t
    ensures Strip(m) == Strip(n)
  {
    StripAfterSpaces(l, m);
    StripBeforeSpaces(n, t);
  }

  /** Both texts have one `&`, so the parts before it agree, and so do the
      parts after it. */
  lemma SameSides(lead: string, p: string, q: string, trail: string, fx: string, fy: string)
    requires AllSpace(lead) && '&' !in fx && '&' !in p
    requires lead + (p + "&" + q) + trail == fx + " & " + fy
    ensures lead + p == fx + " " && q + trail == " " + fy
  {
    Regroup3(lead, p, q, trail, '&');
    Regroup3(fx, " ", " ", fy, '&');
    ConsThree(' ', '&', ' ', fy);
    assert '&' !in lead + p by {
      assert !IsSpace('&');
    }
    SeparatorUnique(lead + p, q + trail, fx + " ", " " + fy, '&');
  }

  lemma Regroup3(l: string, p: string, q: string, t: string, c: char)
    ensures l + (p + [c] + q) + t == (l + p) + [c] + (q + t)
    ensures (l + p) + [c] + (q + t) == l + p + [c] + q + t
  {
  }

  /** Steps 2-4 on the output of step 1, padded back with the whitespace
      step 2 strips, read as the two sides around ` & `. */
  lemma JoinedShape(x: string, y: string) returns (lead: string, trail: string)
    requires EndsSolid(x) && StartsSolid(y)
    ensures AllSpace(lead) && AllSpace(trail)
    ensures lead + Finish(CollapseWhitespace(x + " & " + y)) + trail
            == Finish(SquashSpaces(x)) + " & " + Finish(SquashSpaces(y))
  {
    var sq := SquashSpaces(x + " & " + y);
    var c := Strip(sq);
    var k := LeadingSpaces(sq);
    lead, trail := sq[..k], sq[k + |c|..];
    SquashAroundAmpersand(x, y);
    StripParts(sq);
    FinishAmongSpaces(lead, c, trail);
    FinishAroundAmpersand(SquashSpaces(x), SquashSpaces(y));
  }

  /** Steps 2-4 on a text without `&` bring in none. */
  lemma FinishedSideNoAmpersand(x: string)
    requires '&' !in x
    ensures '&' !in Finish(SquashSpaces(x))
  {
    SquashSpacesKeepsCount(x, '&');
    FinishNoAmpersand(SquashSpaces(x));
  }

  /** Two connector-free texts joined by a connector: the normalised text
      splits on its one `&` into two pieces, and each piece strips to what
      its own side normalises and strips to. */
  lemma NormalizeJoinedSides(a: string, w: string, b: string)
    requires HasNoAnd(a) && '&' !in a && HasNoAnd(b) && '&' !in b && IsConnector(w)
    ensures |Split(Normalize(a + w + b), '&')| == 2
    ensures Strip(Split(Normalize(a + w + b), '&')[0]) == Strip(Normalize(a))
    ensures Strip(Split(Normalize(a + w + b), '&')[1]) == Strip(Normalize(b))
  {
    var x, t := a[..|a| - TrailingSpaces(a)], a[|a| - TrailingSpaces(a)..];
    var l, y := b[..LeadingSpaces(b)], b[LeadingSpaces(b)..];
    LeftPart(a, x, t);
    RightPart(b, l, y);
    LeftSide(a, x, t);
    RightSide(b, l, y);
    NormalizeJoinedCount(a, w, b);
    JoinedPieces(a, w, b, x, y);
  }

  lemma JoinedPieces(a: string, w: string, b: string, x: string, y: string)
    requires HasNoAnd(a) && '&' !in a && HasNoAnd(b) && '&' !in b && IsConnector(w)
    requires x == a[..|a| - TrailingSpaces(a)] && y == b[LeadingSpaces(b)..]
    requires EndsSolid(x) && StartsSolid(y) && '&' !in x && '&' !in y
    requires Count(Normalize(a + w + b), '&') == 1
    ensures |Split(Normalize(a + w + b), '&')| == 2
    ensures Strip(Split(Normalize(a + w + b), '&')[0]) == Strip(Finish(SquashSpaces(x)))
    ensures Strip(Split(Normalize(a + w + b), '&')[1]) == Strip(Finish(SquashSpaces(y)))
  {
    ReplaceJoined(a, w, b);
    CutFinished(Normalize(a + w + b), x, y);
  }

  /** Steps 2-4 on `x + " & " + y` leave one `&` with the two sides around
      it. */
  lemma CutFinished(n: string, x: string, y: string)
    requires EndsSolid(x) && StartsSolid(y) && '&' !in x && '&' !in y
    requires n == Finish(CollapseWhitespace(x + " & " + y)) && Count(n, '&') == 1
    ensures |Split(n, '&')| == 2
    ensures Strip(Split(n, '&')[0]) == Strip(Finish(SquashSpaces(x)))
    ensures Strip(Split(n, '&')[1]) == Strip(Finish(SquashSpaces(y)))
  {
    var lead, trail := JoinedShape(x, y);
    FinishedSideNoAmpersand(x);
    FinishedSideNoAmpersand(y);
    CutAtAmpersand(n, lead, trail, Finish(SquashSpaces(x)), Finish(SquashSpaces(y)));
  }

  // ---------------------------------------------------------------------
  // Worked examples
  // ---------------------------------------------------------------------

  /** A digit-to-letter boundary gets a star; a letter-to-digit one does not. */
  lemma InsertStarsExample()
    ensures InsertStars("x2y") == "x2*y"
  {
  }

  lemma StripTrimmed(s: string)
    requires s == [] || (!IsSpace(s[0]) && !IsSpace(s[|s| - 1]))
    ensures Strip(s) == s
  {
    assert LeadingSpaces(s) == 0;
    assert TrailingSpaces(s) == 0;
    assert s[0..] == s && s[..|s|] == s;
  }

  lemma {:induction false} NoDigitNoStars(s: string)
    requires forall i :: 0 <= i < |s| ==> !IsDigit(s[i])
    ensures InsertStars(s) == s
    decreases |s|
  {
    if |s| >= 2 {
      NoDigitNoStars(s[1..]);
    }
  }

  /** Text with no connector and only single plain spaces passes steps 1
      and the squashing of step 2 unchanged. */
  lemma ConnectorFreeSingleSpaced(s: string)
    requires HasNoAnd(s) && '&' !in s && SingleSpaces(s)
    ensures ReplaceConnectors(s) == s
    ensures SquashSpaces(s) == s
  {
    ReplaceConnectorsIdentity(s);
    SquashSpacesIdentity(s);
  }

  lemma CollapseParenthesised(s: string)
    requires s == "(x)"
    ensures CollapseWhitespace(ReplaceConnectors(s)) == s
  {
    assert HasNoAnd(s) && SingleSpaces(s);
    ConnectorFreeSingleSpaced(s);
    StripTrimmed(s);
  }

  lemma TranslateParenthesised(s: string)
    requires s == "(x)"
    ensures Translate(Replacements, s) == " ( x ) "
  {
    var t1 := s[1..];
    var t2 := t1[1..];
    assert t2[1..] == [];
    GlyphOf(s[0]); GlyphOf(t1[0]); GlyphOf(t2[0]);
    assert Translate(Replacements, t2) == " ) ";
    assert Translate(Replacements, t1) == "x" + " ) ";
  }

  lemma NormalizeParenthesised(s: string)
    requires s == "(x)"
    ensures Normalize(s) == " ( x ) "
  {
    CollapseParenthesised(s);
    var collapsed := CollapseWhitespace(ReplaceConnectors(s));
    TranslateParenthesised(collapsed);
    ParenthesisedHasNoDigit(Translate(Replacements, collapsed));
  }

  lemma CollapsePadded(s: string)
    requires s == " ( x ) "
    ensures CollapseWhitespace(ReplaceConnectors(s)) == "( x )"
  {
    assert HasNoAnd(s) && SingleSpaces(s);
    ConnectorFreeSingleSpaced(s);
    StripPadded(s);
  }

  lemma StripPadded(s: string)
    requires s == " ( x ) "
    ensures Strip(s) == "( x )"
  {
    StripSinglePadding(s);
    assert s[1..|s| - 1] == "( x )";
  }

  /** Stripping a text padded with exactly one space at each end removes
      those two spaces. */
  lemma StripSinglePadding(s: string)
    requires |s| >= 3 && s[0] == ' ' && s[|s| - 1] == ' '
    requires !IsSpace(s[1]) && !IsSpace(s[|s| - 2])
    ensures Strip(s) == s[1..|s| - 1]
  {
    assert LeadingSpaces(s) == 1;
    var t := s[1..];
    assert t[|t| - 1] == ' ' && t[|t| - 2] == s[|s| - 2];
    assert TrailingSpaces(t) == 1;
  }

  lemma TranslatePadded(s: string)
    requires s == "( x )"
    ensures Translate(Replacements, s) == " (  x  ) "
  {
    var t1 := s[1..];
    var t2 := t1[1..];
    var t3 := t2[1..];
    var t4 := t3[1..];
    assert t4[1..] == [];
    GlyphOf(s[0]); GlyphOf(t1[0]); GlyphOf(t2[0]); GlyphOf(t3[0]); GlyphOf(t4[0]);
    assert Translate(Replacements, t4) == " ) ";
    assert Translate(Replacements, t3) == " " + " ) ";
    assert Translate(Replacements, t2) == "x" + "  ) ";
    assert Translate(Replacements, t1) == " " + "x  ) ";
  }

  lemma ParenthesisedHasNoDigit(s: string)
    requires s == " ( x ) "
    ensures InsertStars(s) == s
  {
    assert !IsDigit(s[0]) && !IsDigit(s[1]) && !IsDigit(s[2]) && !IsDigit(s[3]);
    assert !IsDigit(s[4]) && !IsDigit(s[5]) && !IsDigit(s[6]);
    NoDigitNoStars(s);
  }

  lemma PaddedHasNoDigit(s: string)
    requires s == " (  x  ) "
    ensures InsertStars(s) == s
  {
    assert !IsDigit(s[0]) && !IsDigit(s[1]) && !IsDigit(s[2]) && !IsDigit(s[3]) && !IsDigit(s[4]);
    assert !IsDigit(s[5]) && !IsDigit(s[6]) && !IsDigit(s[7]) && !IsDigit(s[8]);
    NoDigitNoStars(s);
  }

  lemma NormalizePadded(s: string)
    requires s == " ( x ) "
    ensures Normalize(s) == " (  x  ) "
  {
    CollapsePadded(s);
    var collapsed := CollapseWhitespace(ReplaceConnectors(s));
    TranslatePadded(collapsed);
    PaddedHasNoDigit(Translate(Replacements, collapsed));
  }

  /** Step 1 of the bare word `and`. */
  lemma ReplaceLoneConnector(s: string)
    requires s == "and"
    ensures ReplaceConnectors(s) == " & "
  {
    assert LeadingSpaces(s) == 0;
    assert AndAt(s, 0);
    assert ConnectorAhead(s);
    assert MatchEnd(s) == 3;
    assert AfterConnector(s) == [];
  }

  /** The bare word `and` normalises to a lone `&`. */
  lemma NormalizeLoneConnector(s: string)
    requires s == "and"
    ensures Normalize(s) == "&"
  {
    ReplaceLoneConnector(s);
    var padded := ReplaceConnectors(s);
    assert SingleSpaces(padded);
    SquashSpacesIdentity(padded);
    StripSinglePadding(padded);
    assert padded[1..|padded| - 1] == "&";
    var amp := CollapseWhitespace(padded);
    GlyphOf(amp[0]);
    assert amp[1..] == [];
    assert Translate(Replacements, amp) == amp;
    assert InsertStars(amp) == amp;
  }

  /** Normalising twice is not the same as normalising once: the padding
      around a parenthesis is padded again. */
  lemma NormalizeNotIdempotent(s: string)
    requires s == "(x)"
    ensures Normalize(Normalize(s)) != Normalize(s)
  {
    NormalizeParenthesised(s);
    NormalizePadded(Normalize(s));
  }

  /** The left side of the bot's example system, `2x+y=7 `, normalises to
      `2*x+y=7` once stripped. */
  lemma ExampleLeftSide(a: string)
    requires a == "2x+y=7 "
    ensures Strip(Normalize(a)) == "2*x+y=7"
  {
    var x, t := "2x+y=7", " ";
    assert Strip(Normalize(a)) == Strip(Finish(SquashSpaces(x))) by {
      assert a == x + t;
      assert HasNoAnd(a);
      LeftSide(a, x, t);
    }
    ExampleLeftText(x);
  }

  /** The text of that left side gets one star, between `2` and `x`. */
  lemma ExampleLeftText(x: string)
    requires x == "2x+y=7"
    ensures Strip(Finish(SquashSpaces(x))) == "2*x+y=7"
  {
    assert Finish(SquashSpaces(x)) == "2*x+y=7" by {
      ExampleUnchanged(x);
      InsertStarsUnfold(x);
      assert x[1..] == "x+y=7";
      ExampleNoBoundary(x[1..]);
    }
    ExampleTrimmed("2*x+y=7");
  }

  /** The right side of the bot's example system, ` x-y=2`, normalises to
      `x-y=2` once stripped: the trailing digit has no letter after it. */
  lemma ExampleRightSide(b: string)
    requires b == " x-y=2"
    ensures Strip(Normalize(b)) == "x-y=2"
  {
    var l, y := " ", "x-y=2";
    assert Strip(Normalize(b)) == Strip(Finish(SquashSpaces(y))) by {
      assert b == l + y;
      assert HasNoAnd(b);
      RightSide(b, l, y);
    }
    ExampleRightText(y);
  }

  /** The text of that right side is left as it is. */
  lemma ExampleRightText(y: string)
    requires y == "x-y=2"
    ensures Strip(Finish(SquashSpaces(y))) == y
  {
    assert Finish(SquashSpaces(y)) == y by {
      ExampleUnchanged(y);
      ExampleNoBoundary(y);
    }
    ExampleTrimmed(y);
  }

  /** Neither end of the two normalised sides is whitespace. */
  lemma ExampleTrimmed(r: string)
    requires r == "2*x+y=7" || r == "x-y=2"
    ensures Strip(r) == r
  {
    assert !IsSpace(r[0]) && !IsSpace(r[|r| - 1]);
    StripTrimmed(r);
  }

  /** The two texts of the example past their first character have no
      digit followed by a letter, so no star is inserted in them. */
  lemma ExampleNoBoundary(x: string)
    requires x == "x+y=7" || x == "x-y=2"
    ensures InsertStars(x) == x
  {
    assert forall i :: !DigitLetterAt(x, i);
    InsertStarsIdentity(x);
  }

  /** A text without whitespace, glyphs or parentheses is left alone by
      the squashing of whitespace and by the glyph table. */
  lemma ExampleUnchanged(x: string)
    requires x == "2x+y=7" || x == "x-y=2"
    ensures SquashSpaces(x) == x && Translate(Replacements, x) == x
  {
    assert forall i :: 0 <= i < |x| ==> !IsSpace(x[i]) && !IsGlyph(x[i]) && !IsParen(x[i]);
    SquashSpacesIdentity(x);
    TranslateKeepsOthers(x);
  }
}
