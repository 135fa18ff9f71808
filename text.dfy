/** String helpers shared by every variant of the crawler: Python's `startswith`,
    `split`, `replace`, `strip`, `str(int)` and character-class filters, written out
    over `string` (`seq<char>`). */
module Text {

  datatype Option<T> = None | Some(value: T)

  // ---------------------------------------------------------------------------
  // Prefixes

  /** Python's `s.startswith(prefix)`. */
  predicate StartsWith(s: string, prefix: string) {
    |prefix| <= |s| && s[..|prefix|] == prefix
  }

  /** `value if value.startswith(stem) else stem + value`: make sure `value` starts
      with `stem` by adding it only when it is missing. */
  function EnsurePrefix(stem: string, value: string): (r: string)
    ensures StartsWith(r, stem)
    ensures StartsWith(value, stem) ==> r == value
    ensures !StartsWith(value, stem) ==> r == stem + value
  {
    if StartsWith(value, stem) then value else stem + value
  }

  /** Adding a prefix twice is the same as adding it once. */
  lemma EnsurePrefixIdempotent(stem: string, value: string)
    ensures EnsurePrefix(stem, EnsurePrefix(stem, value)) == EnsurePrefix(stem, value)
  {
  }

  /** The prefix rule keeps what it was given as the tail of its result: the value is
      either returned whole or appended to the stem. */
  lemma EnsurePrefixKeepsValue(stem: string, value: string)
    ensures var r := EnsurePrefix(stem, value);
            r == value || (|r| == |stem| + |value| && r[|stem|..] == value)
  {
  }

  // ---------------------------------------------------------------------------
  // Character classes

  predicate IsAsciiLetter(c: char) { 'a' <= c <= 'z' || 'A' <= c <= 'Z' }

  predicate IsAsciiDigit(c: char) { '0' <= c <= '9' }

  /** Python's `str.isspace()`, which is also what the regular-expression class `\s`
      matches in a `str` pattern: the ASCII range 0x09-0x0D, 0x1C-0x20, and the
      non-ASCII whitespace of the Unicode database. */
  predicate IsSpace(c: char) {
    || '\t' <= c <= '\r'
    || '\U{1C}' <= c <= ' '
    || c == '\U{85}' || c == '\U{A0}' || c == '\U{1680}'
    || '\U{2000}' <= c <= '\U{200A}'
    || c == '\U{2028}' || c == '\U{2029}' || c == '\U{202F}' || c == '\U{205F}'
    || c == '\U{3000}'
  }

  /** The regular-expression class `\w`, restricted to ASCII: letters, digits and `_`. */
  predicate IsWordChar(c: char) { IsAsciiLetter(c) || IsAsciiDigit(c) || c == '_' }

  /** `ascii_letters + digits + "_-.() "`: the characters a file name may keep. */
  predicate IsFilenameChar(c: char) {
    IsAsciiLetter(c) || IsAsciiDigit(c) || c in "_-.() "
  }

  // ---------------------------------------------------------------------------
  // Filtering

  /** `"".join(c for c in s if keep(c))`, and the generator expression
      `(x for x in s if keep(x))` over any sequence. */
  function Keep<T>(s: seq<T>, keep: T -> bool): (r: seq<T>)
    ensures |r| <= |s|
    ensures forall i :: 0 <= i < |r| ==> keep(r[i])
  {
    if s == [] then []
    else (if keep(s[0]) then [s[0]] else []) + Keep(s[1..], keep)
  }

  /** `a` can be obtained from `b` by deleting elements, order preserved. */
  predicate IsSubsequence<T(==)>(a: seq<T>, b: seq<T>)
    decreases |b|
  {
    a == [] || (b != [] && ((a[0] == b[0] && IsSubsequence(a[1..], b[1..])) || IsSubsequence(a, b[1..])))
  }

  /** Filtering keeps exactly the elements satisfying the predicate, in order. */
  lemma {:induction false} KeepMembers<T>(xs: seq<T>, p: T -> bool)
    ensures forall x :: x in Keep(xs, p) <==> x in xs && p(x)
    ensures IsSubsequence(Keep(xs, p), xs)
  {
    if xs != [] {
      KeepMembers(xs[1..], p);
      assert xs == [xs[0]] + xs[1..];
      var r := Keep(xs, p);
      if p(xs[0]) {
        assert r == [xs[0]] + Keep(xs[1..], p);
        assert r[0] == xs[0] && r[1..] == Keep(xs[1..], p);
      } else {
        assert r == Keep(xs[1..], p);
      }
    }
  }

  /** Keep drops exactly the rejected characters: every kept character occurs as often
      as in the input, every rejected one not at all. */
  lemma {:induction false} KeepCounts<T>(s: seq<T>, keep: T -> bool)
    ensures forall c :: multiset(Keep(s, keep))[c] == if keep(c) then multiset(s)[c] else 0
  {
    if s != [] {
      KeepCounts(s[1..], keep);
      assert s == [s[0]] + s[1..];
      assert multiset(s) == multiset{s[0]} + multiset(s[1..]);
    }
  }

  /** A sequence made only of kept elements comes back unchanged. */
  lemma {:induction false} KeepAllKept<T>(s: seq<T>, keep: T -> bool)
    requires forall i :: 0 <= i < |s| ==> keep(s[i])
    ensures Keep(s, keep) == s
  {
    if s != [] {
      KeepAllKept(s[1..], keep);
    }
  }

  lemma KeepIdempotent<T>(s: seq<T>, keep: T -> bool)
    ensures Keep(Keep(s, keep), keep) == Keep(s, keep)
  {
    KeepAllKept(Keep(s, keep), keep);
  }

  /** Two filters in a row are one filter by both tests. */
  lemma {:induction false} KeepBoth<T>(s: seq<T>, p: T -> bool, q: T -> bool, both: T -> bool)
    requires forall x :: both(x) == (p(x) && q(x))
    ensures Keep(Keep(s, p), q) == Keep(s, both)
  {
    if s != [] {
      KeepBoth(s[1..], p, q, both);
      KeepConcat(if p(s[0]) then [s[0]] else [], Keep(s[1..], p), q);
      if p(s[0]) {
        assert Keep([s[0]], q) == if q(s[0]) then [s[0]] else [] by {
          assert [s[0]][1..] == [];
        }
      }
    }
  }

  lemma {:induction false} KeepConcat<T>(a: seq<T>, b: seq<T>, keep: T -> bool)
    ensures Keep(a + b, keep) == Keep(a, keep) + Keep(b, keep)
  {
    if a != [] {
      assert (a + b)[1..] == a[1..] + b;
      KeepConcat(a[1..], b, keep);
    } else {
      assert a + b == b;
    }
  }

  // ---------------------------------------------------------------------------
  // Splitting on a separator

  function IndexOf(s: string, c: char): (i: nat)
    requires c in s
    ensures i < |s| && s[i] == c && c !in s[..i]
  {
    if s[0] == c then 0 else 1 + IndexOf(s[1..], c)
  }

  /** Python's `s.split(sep)` for a one-character separator. */
  function Split(s: string, sep: char): (parts: seq<string>)
    ensures |parts| >= 1
    decreases |s|
  {
    if sep !in s then [s]
    else [s[..IndexOf(s, sep)]] + Split(s[IndexOf(s, sep) + 1..], sep)
  }

  /** One step of splitting: the piece before the first separator, then the rest split. */
  lemma SplitUnfold(s: string, sep: char)
    requires sep in s
    ensures Split(s, sep) == [s[..IndexOf(s, sep)]] + Split(s[IndexOf(s, sep) + 1..], sep)
  {
  }

  /** No piece holds the separator, and there are two pieces or more exactly when the
      separator occurs. */
  lemma {:induction false} SplitPieces(s: string, sep: char)
    ensures forall i :: 0 <= i < |Split(s, sep)| ==> sep !in Split(s, sep)[i]
    ensures (sep in s) <==> |Split(s, sep)| >= 2
    decreases |s|
  {
    if sep in s {
      SplitPieces(s[IndexOf(s, sep) + 1..], sep);
      SplitUnfold(s, sep);
      ConsPieces(s[..IndexOf(s, sep)], Split(s[IndexOf(s, sep) + 1..], sep), sep);
    }
  }

  lemma ConsPieces(x: string, ys: seq<string>, sep: char)
    requires sep !in x && forall i :: 0 <= i < |ys| ==> sep !in ys[i]
    ensures forall i :: 0 <= i < |[x] + ys| ==> sep !in ([x] + ys)[i]
  {
    forall i | 0 <= i < |[x] + ys| ensures sep !in ([x] + ys)[i] {
      if i > 0 {
        assert ([x] + ys)[i] == ys[i - 1];
      }
    }
  }

  /** Python's `sep.join(parts)`. */
  function Join(parts: seq<string>, sep: char): string
    requires |parts| >= 1
  {
    if |parts| == 1 then parts[0] else parts[0] + [sep] + Join(parts[1..], sep)
  }

  lemma JoinCons(x: string, ys: seq<string>, sep: char)
    requires |ys| >= 1
    ensures Join([x] + ys, sep) == x + [sep] + Join(ys, sep)
  {
    assert ([x] + ys)[1..] == ys;
  }

  /** Splitting loses nothing: joining the pieces gives the input back. */
  lemma {:induction false} JoinSplit(s: string, sep: char)
    ensures Join(Split(s, sep), sep) == s
    decreases |s|
  {
    if sep in s {
      JoinSplit(s[IndexOf(s, sep) + 1..], sep);
      SplitUnfold(s, sep);
      JoinCons(s[..IndexOf(s, sep)], Split(s[IndexOf(s, sep) + 1..], sep), sep);
      TakeSepDrop(s, IndexOf(s, sep));
    }
  }

  lemma TakeSepDrop(s: string, i: nat)
    requires i < |s|
    ensures s == s[..i] + [s[i]] + s[i + 1..]
  {
  }

  /** The first separator of `a + [sep] + b` is the one after `a` when `a` has none. */
  lemma IndexOfAfter(a: string, b: string, sep: char)
    requires sep !in a
    ensures sep in a + [sep] + b && IndexOf(a + [sep] + b, sep) == |a|
    ensures (a + [sep] + b)[..|a|] == a && (a + [sep] + b)[|a| + 1..] == b
    decreases |a|
  {
    assert (a + [sep] + b)[|a|] == sep;
    if a != [] {
      IndexOfAfter(a[1..], b, sep);
      assert (a + [sep] + b)[1..] == a[1..] + [sep] + b;
    }
  }

  /** Pieces free of the separator are recovered by splitting their join. */
  lemma {:induction false} SplitJoin(parts: seq<string>, sep: char)
    requires |parts| >= 1
    requires forall i :: 0 <= i < |parts| ==> sep !in parts[i]
    ensures Split(Join(parts, sep), sep) == parts
  {
    if |parts| > 1 {
      assert sep !in parts[0];
      IndexOfAfter(parts[0], Join(parts[1..], sep), sep);
      SplitUnfold(Join(parts, sep), sep);
      SplitJoin(parts[1..], sep);
      assert [parts[0]] + parts[1..] == parts;
    }
  }

  /** `s.split(sep)[-1]`. */
  function LastSegment(s: string, sep: char): string {
    Split(s, sep)[|Split(s, sep)| - 1]
  }

  lemma LastSegmentFree(s: string, sep: char)
    ensures sep !in LastSegment(s, sep)
  {
    SplitPieces(s, sep);
  }

  /** `s.split(sep)[-2]`; Python raises IndexError when `sep` does not occur. */
  function SecondToLastSegment(s: string, sep: char): (r: string)
    requires sep in s
    ensures sep !in r
  {
    SplitPieces(s, sep);
    Split(s, sep)[|Split(s, sep)| - 2]
  }

  /** The last segment is a suffix of the string. */
  lemma {:induction false} LastSegmentIsSuffix(s: string, sep: char)
    ensures var r := LastSegment(s, sep); |r| <= |s| && s[|s| - |r|..] == r
    decreases |s|
  {
    if sep in s {
      LastSegmentOfRest(s, sep);
      LastSegmentIsSuffix(s[IndexOf(s, sep) + 1..], sep);
      SuffixOfDrop(s, IndexOf(s, sep) + 1, |LastSegment(s, sep)|);
    }
  }

  /** A suffix of `s[k..]` is a suffix of `s`. */
  lemma SuffixOfDrop<T>(s: seq<T>, k: nat, n: nat)
    requires k <= |s| && n <= |s| - k
    ensures s[k..][|s[k..]| - n..] == s[|s| - n..]
  {
  }

  /** The separator's first occurrence in `a + b` is its first occurrence in `a`. */
  lemma {:induction false} IndexOfPrefix(a: string, b: string, c: char)
    requires c in a
    ensures IndexOf(a + b, c) == IndexOf(a, c)
  {
    if a[0] != c {
      assert (a + b)[1..] == a[1..] + b;
      IndexOfPrefix(a[1..], b, c);
    }
  }

  /** Past the first separator, the last segment is unchanged. */
  lemma LastSegmentOfRest(s: string, sep: char)
    requires sep in s
    ensures LastSegment(s, sep) == LastSegment(s[IndexOf(s, sep) + 1..], sep)
  {
    SplitPieces(s[IndexOf(s, sep) + 1..], sep);
    SplitUnfold(s, sep);
    ConsLast(s[..IndexOf(s, sep)], Split(s[IndexOf(s, sep) + 1..], sep));
  }

  /** Past a separator that is not the last, the second-to-last segment is unchanged. */
  lemma SecondToLastOfRest(s: string, sep: char)
    requires sep in s && sep in s[IndexOf(s, sep) + 1..]
    ensures SecondToLastSegment(s, sep) == SecondToLastSegment(s[IndexOf(s, sep) + 1..], sep)
  {
    SplitPieces(s[IndexOf(s, sep) + 1..], sep);
    SplitUnfold(s, sep);
    ConsSecondToLast(s[..IndexOf(s, sep)], Split(s[IndexOf(s, sep) + 1..], sep));
  }

  lemma ConsLast<T>(x: T, ys: seq<T>)
    requires |ys| >= 1
    ensures ([x] + ys)[|[x] + ys| - 1] == ys[|ys| - 1]
  {
  }

  lemma ConsSecondToLast<T>(x: T, ys: seq<T>)
    requires |ys| >= 2
    ensures ([x] + ys)[|[x] + ys| - 2] == ys[|ys| - 2]
  {
  }

  /** Whatever comes before the last separator, the segment after it is the last one. */
  lemma {:induction false} LastSegmentAfter(a: string, b: string, sep: char)
    requires sep !in b
    ensures LastSegment(a + [sep] + b, sep) == b
    decreases |a|
  {
    if sep !in a {
      assert Join([a, b], sep) == a + [sep] + b;
      SplitJoin([a, b], sep);
    } else {
      var s := a + [sep] + b;
      var i := IndexOf(a, sep);
      IndexOfPrefix(a, [sep] + b, sep);
      assert s == a + ([sep] + b);
      assert s[i + 1..] == a[i + 1..] + [sep] + b;
      LastSegmentOfRest(s, sep);
      LastSegmentAfter(a[i + 1..], b, sep);
    }
  }

  // ---------------------------------------------------------------------------
  // Replacing a substring

  /** Python's `s.replace(pat, rep)`: occurrences are found left to right and do not
      overlap. */
  function ReplaceAll(s: string, pat: string, rep: string): string
    requires |pat| > 0
    decreases |s|
  {
    if |s| < |pat| then s
    else if s[..|pat|] == pat then rep + ReplaceAll(s[|pat|..], pat, rep)
    else [s[0]] + ReplaceAll(s[1..], pat, rep)
  }

  /** A string that does not contain the pattern's first character is left alone. */
  lemma {:induction false} ReplaceAbsent(s: string, pat: string, rep: string)
    requires |pat| > 0 && pat[0] !in s
    ensures ReplaceAll(s, pat, rep) == s
    decreases |s|
  {
    if |s| >= |pat| {
      assert s[..|pat|][0] == s[0];
      ReplaceAbsent(s[1..], pat, rep);
    }
  }

  /** Replacing never brings in a character that neither the string nor the
      replacement holds. */
  lemma {:induction false} ReplaceKeepsAbsent(s: string, pat: string, rep: string, c: char)
    requires |pat| > 0 && c !in s && c !in rep
    ensures c !in ReplaceAll(s, pat, rep)
    decreases |s|
  {
    if |s| >= |pat| {
      if s[..|pat|] == pat {
        assert forall i :: |pat| <= i < |s| ==> s[i] in s;
        ReplaceKeepsAbsent(s[|pat|..], pat, rep, c);
      } else {
        assert s[0] in s;
        ReplaceKeepsAbsent(s[1..], pat, rep, c);
      }
    }
  }

  /** A trailing occurrence of `pat` is replaced, and nothing before it, when `pat` has
      a character `pat[m]` that occurs nowhere else in `pat` and nowhere in `a`. */
  lemma {:induction false} ReplaceSuffix(a: string, pat: string, rep: string, m: nat)
    requires m < |pat|
    requires pat[m] !in a
    requires forall k :: 0 <= k < |pat| && k != m ==> pat[k] != pat[m]
    ensures ReplaceAll(a + pat, pat, rep) == a + rep
    decreases |a|
  {
    var s := a + pat;
    if a == [] {
      assert s == pat && s[|pat|..] == [];
    } else {
      assert s[..|pat|] != pat by {
        if m < |a| {
          assert s[..|pat|][m] == a[m];
        } else {
          assert s[..|pat|][m] == pat[m - |a|];
        }
      }
      assert ReplaceAll(s, pat, rep) == [s[0]] + ReplaceAll(s[1..], pat, rep);
      assert s[1..] == a[1..] + pat;
      ReplaceSuffix(a[1..], pat, rep, m);
      assert a == [a[0]] + a[1..];
    }
  }

  // ---------------------------------------------------------------------------
  // Stripping whitespace

  function TrimStart(s: string): (r: string)
    ensures |r| <= |s|
  {
    if s != [] && IsSpace(s[0]) then TrimStart(s[1..]) else s
  }

  function TrimEnd(s: string): (r: string)
    ensures |r| <= |s|
  {
    if s != [] && IsSpace(s[|s| - 1]) then TrimEnd(s[..|s| - 1]) else s
  }

  /** Python's `s.strip()`: the input with its leading and trailing whitespace removed
      (`StripSplits` and `StripPadded` say what that means). */
  function Strip(s: string): (r: string)
    ensures |r| <= |s|
  {
    TrimEnd(TrimStart(s))
  }

  /** What `TrimStart` drops is whitespace, and what it keeps does not start with any. */
  lemma {:induction false} TrimStartSplits(s: string)
    ensures var r := TrimStart(s);
            s == s[..|s| - |r|] + r && AllSpace(s[..|s| - |r|]) && (r != [] ==> !IsSpace(r[0]))
  {
    if s != [] && IsSpace(s[0]) {
      TrimStartSplits(s[1..]);
      var r := TrimStart(s);
      var t := s[1..];
      assert s[..|s| - |r|] == [s[0]] + t[..|t| - |r|];
    }
  }

  /** What `TrimEnd` drops is whitespace, and what it keeps does not end with any. */
  lemma {:induction false} TrimEndSplits(s: string)
    ensures var r := TrimEnd(s);
            s == r + s[|r|..] && AllSpace(s[|r|..]) && (r != [] ==> !IsSpace(r[|r| - 1]))
  {
    if s != [] && IsSpace(s[|s| - 1]) {
      var t := s[..|s| - 1];
      TrimEndSplits(t);
      var r := TrimEnd(s);
      assert s[|r|..] == t[|r|..] + [s[|s| - 1]];
    }
  }

  /** The stripped text is the input with whitespace cut from both ends, and it neither
      starts nor ends with whitespace. */
  lemma StripSplits(s: string)
    ensures var r := Strip(s);
            (r != [] ==> !IsSpace(r[0]) && !IsSpace(r[|r| - 1])) &&
            exists lead, trail :: AllSpace(lead) && AllSpace(trail) && s == lead + r + trail
  {
    StripEdges(s);
    StripCuts(s);
  }

  lemma StripEdges(s: string)
    ensures var r := Strip(s); r != [] ==> !IsSpace(r[0]) && !IsSpace(r[|r| - 1])
  {
    var t := TrimStart(s);
    var r := TrimEnd(t);
    TrimStartSplits(s);
    TrimEndSplits(t);
    if r != [] {
      assert r[0] == t[0];
    }
  }

  lemma StripCuts(s: string)
    ensures exists lead, trail :: AllSpace(lead) && AllSpace(trail) && s == lead + Strip(s) + trail
  {
    var t := TrimStart(s);
    var r := TrimEnd(t);
    TrimStartSplits(s);
    TrimEndSplits(t);
    var lead, trail := s[..|s| - |t|], t[|r|..];
    ConcatAssoc(lead, r, trail);
    assert AllSpace(lead) && AllSpace(trail) && s == lead + r + trail;
  }

  predicate AllSpace(s: string) { forall i :: 0 <= i < |s| ==> IsSpace(s[i]) }

  /** No character of `s` is whitespace. */
  predicate NoSpace(s: string) { forall i :: 0 <= i < |s| ==> !IsSpace(s[i]) }

  lemma NoSpaceTail(s: string)
    requires s != [] && NoSpace(s)
    ensures !IsSpace(s[0]) && NoSpace(s[1..])
  {
    assert forall i :: 0 <= i < |s| - 1 ==> s[1..][i] == s[i + 1];
  }

  lemma {:induction false} TrimStartPadded(lead: string, rest: string)
    requires AllSpace(lead)
    requires rest != [] ==> !IsSpace(rest[0])
    ensures TrimStart(lead + rest) == rest
  {
    if lead != [] {
      assert (lead + rest)[1..] == lead[1..] + rest;
      TrimStartPadded(lead[1..], rest);
    } else {
      assert lead + rest == rest;
    }
  }

  lemma {:induction false} TrimEndPadded(core: string, trail: string)
    requires AllSpace(trail)
    requires core != [] ==> !IsSpace(core[|core| - 1])
    ensures TrimEnd(core + trail) == core
  {
    if trail != [] {
      var s := core + trail;
      assert s[..|s| - 1] == core + trail[..|trail| - 1];
      TrimEndPadded(core, trail[..|trail| - 1]);
    } else {
      assert core + trail == core;
    }
  }

  /** Stripping recovers a text from any whitespace padding around it. */
  lemma StripPadded(lead: string, core: string, trail: string)
    requires AllSpace(lead) && AllSpace(trail)
    requires core != [] ==> !IsSpace(core[0]) && !IsSpace(core[|core| - 1])
    ensures Strip(lead + core + trail) == core
  {
    if core == [] {
      assert lead + core + trail == lead + trail;
      TrimStartPadded(lead + trail, []);
      assert lead + trail + [] == lead + trail;
      assert (lead + trail) + [] == lead + trail;
      AllSpaceConcat(lead, trail);
    } else {
      assert lead + core + trail == lead + (core + trail);
      TrimStartPadded(lead, core + trail);
      TrimEndPadded(core, trail);
    }
  }

  lemma AllSpaceConcat(a: string, b: string)
    requires AllSpace(a) && AllSpace(b)
    ensures AllSpace(a + b)
  {
  }

  // ---------------------------------------------------------------------------
  // Decimal numbers

  function DigitChar(d: nat): char
    requires d < 10
  {
    ('0' as int + d) as char
  }

  /** Python's `str(n)` for a natural number. */
  function NatStr(n: nat): (r: string)
    ensures |r| >= 1
    ensures forall i :: 0 <= i < |r| ==> IsAsciiDigit(r[i])
  {
    if n < 10 then [DigitChar(n)] else NatStr(n / 10) + [DigitChar(n % 10)]
  }

  /** The value of a string of ASCII digits (Python's `int(s)`). */
  function DecimalValue(s: string): nat
    requires forall i :: 0 <= i < |s| ==> IsAsciiDigit(s[i])
  {
    if s == [] then 0
    else
      assert IsAsciiDigit(s[|s| - 1]);
      10 * DecimalValue(s[..|s| - 1]) + (s[|s| - 1] as int - '0' as int)
  }

  lemma DigitValue(d: nat)
    requires d < 10
    ensures DigitChar(d) as int - '0' as int == d
  {
  }

  /** `int(str(n)) == n`. */
  lemma {:induction false} DecimalValueNatStr(n: nat)
    ensures DecimalValue(NatStr(n)) == n
  {
    if n < 10 {
      DigitValue(n);
      assert NatStr(n)[..0] == [];
    } else {
      DecimalValueNatStr(n / 10);
      DigitValue(n % 10);
      var s := NatStr(n);
      assert s[..|s| - 1] == NatStr(n / 10);
    }
  }

  /** Distinct numbers have distinct decimal strings. */
  lemma NatStrInjective(m: nat, n: nat)
    requires NatStr(m) == NatStr(n)
    ensures m == n
  {
    DecimalValueNatStr(m);
    DecimalValueNatStr(n);
  }

  // ---------------------------------------------------------------------------
  // Generic sequence helpers

  function MapSeq<T, U>(xs: seq<T>, f: T -> U): (r: seq<U>)
    ensures |r| == |xs|
    ensures forall i :: 0 <= i < |xs| ==> r[i] == f(xs[i])
  {
    if xs == [] then [] else [f(xs[0])] + MapSeq(xs[1..], f)
  }

  // ---------------------------------------------------------------------------
  // Sequence identities, stated once so that loops over any element type reuse them

  lemma PrefixOfPrefix<T>(xs: seq<T>, j: nat)
    requires j < |xs|
    ensures xs[..j + 1][..j] == xs[..j]
  {
  }

  lemma SnocPrefix<T>(xs: seq<T>, j: nat)
    requires j < |xs|
    ensures xs[..j + 1] == xs[..j] + [xs[j]]
  {
  }

  lemma PrefixSuffix<T>(xs: seq<T>, j: nat)
    requires j < |xs|
    ensures xs[..j] + xs[j..] == xs && xs[j..][0] == xs[j]
  {
  }

  lemma WholePrefix<T>(xs: seq<T>)
    ensures xs[..|xs|] == xs
  {
  }

  lemma ConcatAssoc<T>(x: seq<T>, y: seq<T>, z: seq<T>)
    ensures x + (y + z) == (x + y) + z
  {
  }

  lemma {:induction false} MapSeqConcat<T, U>(a: seq<T>, b: seq<T>, f: T -> U)
    ensures MapSeq(a + b, f) == MapSeq(a, f) + MapSeq(b, f)
  {
    if a != [] {
      assert (a + b)[1..] == a[1..] + b;
      MapSeqConcat(a[1..], b, f);
    } else {
      assert a + b == b;
    }
  }
}
