/** The JavaScript string operations the two scripts use, over `string` (a `seq<char>`). */
module Strings {
  import opened Outcomes

  // ---------------------------------------------------------------------------
  // String.prototype.trim

  /** ECMAScript WhiteSpace or LineTerminator: the code points `trim` removes. */
  predicate IsWs(c: char) {
    || c == '\t' || c == '\n' || c == '\U{000B}' || c == '\U{000C}' || c == '\r' || c == ' '
    || c == '\U{00A0}' || c == '\U{1680}' || ('\U{2000}' <= c <= '\U{200A}')
    || c == '\U{2028}' || c == '\U{2029}' || c == '\U{202F}' || c == '\U{205F}'
    || c == '\U{3000}' || c == '\U{FEFF}'
  }

  predicate AllWs(s: string) {
    forall i :: 0 <= i < |s| ==> IsWs(s[i])
  }

  /** Neither end of `s` is whitespace. */
  predicate Trimmed(s: string) {
    s == [] || (!IsWs(s[0]) && !IsWs(s[|s| - 1]))
  }

  /** `r` is `s` with a whitespace-only prefix and a whitespace-only suffix removed,
      and is itself trimmed: the independent description of what `trim` returns. */
  ghost predicate IsTrimOf(s: string, r: string) {
    Trimmed(r) && exists i :: StripsAt(s, r, i)
  }

  /** `r` is the part of `s` from index `i`, with whitespace only before and after it. */
  predicate StripsAt(s: string, r: string, i: int) {
    0 <= i <= |s| - |r| && r == s[i..i + |r|] && AllWs(s[..i]) && AllWs(s[i + |r|..])
  }

  /** `s.trimStart()`. */
  function TrimStart(s: string): string {
    if s != [] && IsWs(s[0]) then TrimStart(s[1..]) else s
  }

  /** `s.trimEnd()`. */
  function TrimEnd(s: string): string {
    if s != [] && IsWs(s[|s| - 1]) then TrimEnd(s[..|s| - 1]) else s
  }

  /** `trimStart` drops a whitespace-only prefix and stops at the first other character. */
  lemma {:induction false} TrimStartSpec(s: string)
    ensures |TrimStart(s)| <= |s| && TrimStart(s) == s[|s| - |TrimStart(s)|..]
    ensures AllWs(s[..|s| - |TrimStart(s)|])
    ensures TrimStart(s) == [] || !IsWs(TrimStart(s)[0])
    decreases |s|
  {
    if s != [] && IsWs(s[0]) {
      TrimStartSpec(s[1..]);
      var r := TrimStart(s);
      var k := |s| - |r|;
      assert s[..k] == [s[0]] + s[1..][..k - 1];
    }
  }

  /** `trimEnd` drops a whitespace-only suffix and stops at the last other character. */
  lemma {:induction false} TrimEndSpec(s: string)
    ensures |TrimEnd(s)| <= |s| && TrimEnd(s) == s[..|TrimEnd(s)|]
    ensures AllWs(s[|TrimEnd(s)|..])
    ensures TrimEnd(s) == [] || !IsWs(TrimEnd(s)[|TrimEnd(s)| - 1])
    decreases |s|
  {
    if s != [] && IsWs(s[|s| - 1]) {
      var u := s[..|s| - 1];
      TrimEndSpec(u);
      var r := TrimEnd(s);
      assert s[|r|..] == u[|r|..] + [s[|s| - 1]];
    }
  }

  /** `s.trim()`. */
  function Trim(s: string): string {
    TrimEnd(TrimStart(s))
  }

  /** What `trim` returns is the trimmed middle of `s` between whitespace-only ends. */
  lemma TrimSpec(s: string)
    ensures IsTrimOf(s, Trim(s))
  {
    var t := TrimStart(s);
    var r := TrimEnd(t);
    TrimStartSpec(s);
    TrimEndSpec(t);
    var i := |s| - |t|;
    assert r == s[i..i + |r|] && AllWs(s[..i]);
    assert AllWs(s[i + |r|..]) by {
      assert s[i + |r|..] == t[|r|..];
    }
    assert r != [] ==> !IsWs(r[0]) by {
      if r != [] { assert r[0] == t[0]; }
    }
    assert StripsAt(s, r, i);
  }

  /** A non-whitespace character lies outside a whitespace-only prefix or suffix. */
  lemma NonWsOutside(s: string, i: int, p: int)
    requires 0 <= i <= |s| && 0 <= p < |s| && !IsWs(s[p])
    ensures AllWs(s[..i]) ==> i <= p
    ensures AllWs(s[i..]) ==> p < i
  {
    if p < i { assert s[..i][p] == s[p]; }
    if i <= p { assert s[i..][p - i] == s[p]; }
  }

  /** A string that is trimmed and lies between whitespace-only ends is the trim. */
  lemma TrimUnique(s: string, r: string)
    requires IsTrimOf(s, r)
    ensures Trim(s) == r
  {
    var t := Trim(s);
    TrimSpec(s);
    var i :| StripsAt(s, r, i);
    var j :| StripsAt(s, t, j);
    StripsUnique(s, r, i, t, j);
  }

  /** Two trimmed parts of `s` between whitespace-only ends are the same part. */
  lemma StripsUnique(s: string, r: string, i: int, t: string, j: int)
    requires Trimmed(r) && StripsAt(s, r, i) && Trimmed(t) && StripsAt(s, t, j)
    ensures r == t
  {
    if r != [] {
      assert s[i] == r[0] && s[i + |r| - 1] == r[|r| - 1];
      NonWsOutside(s, j, i);
      NonWsOutside(s, j + |t|, i + |r| - 1);
      assert j <= i && i + |r| <= j + |t|;
    }
    if t != [] {
      assert s[j] == t[0] && s[j + |t| - 1] == t[|t| - 1];
      NonWsOutside(s, i, j);
      NonWsOutside(s, i + |r|, j + |t| - 1);
      assert i <= j && j + |t| <= i + |r|;
    }
    assert |r| == |t|;
    if r != [] { assert i == j; }
  }

  /** Trimming twice is trimming once. */
  lemma TrimIdempotent(s: string)
    ensures Trim(Trim(s)) == Trim(s)
  {
    var t := Trim(s);
    TrimSpec(s);
    assert StripsAt(t, t, 0);
    TrimUnique(t, t);
  }

  /** Trim of a whitespace-free-edged string leaves it alone. */
  lemma TrimOfTrimmed(s: string)
    requires Trimmed(s)
    ensures Trim(s) == s
  {
    assert StripsAt(s, s, 0);
    TrimUnique(s, s);
  }

  /** `xs.map(x => x.trim())`. */
  function MapTrim(xs: seq<string>): (r: seq<string>)
    ensures |r| == |xs|
    ensures forall i :: 0 <= i < |xs| ==> r[i] == Trim(xs[i])
  {
    seq(|xs|, i requires 0 <= i < |xs| => Trim(xs[i]))
  }

  // ---------------------------------------------------------------------------
  // Prefixes and occurrences

  predicate StartsWith(s: string, prefix: string) {
    |prefix| <= |s| && s[..|prefix|] == prefix
  }

  /** `pat` occurs in `s` at index `i`. */
  predicate OccursAt(s: string, pat: string, i: int) {
    0 <= i && i + |pat| <= |s| && s[i..i + |pat|] == pat
  }

  /** A slice of a slice is a slice. */
  lemma SliceSlice(s: string, i: int, j: int, k: int, l: int)
    requires 0 <= i <= j <= |s| && 0 <= k <= l <= j - i
    ensures s[i..j][k..l] == s[i + k..i + l]
  {
    forall m | 0 <= m < l - k ensures s[i..j][k..l][m] == s[i + k..i + l][m] {
      assert s[i..j][k..l][m] == s[i..j][k + m];
    }
  }

  function IndexOfFrom(s: string, pat: string, k: nat): (r: Option<nat>)
    decreases |s| - k
    ensures r.Some? ==> k <= r.value && OccursAt(s, pat, r.value)
    ensures r.Some? ==> forall j :: k <= j < r.value ==> !OccursAt(s, pat, j)
    ensures r.None? ==> forall j :: k <= j ==> !OccursAt(s, pat, j)
  {
    if k + |pat| > |s| then None
    else if s[k..k + |pat|] == pat then Some(k)
    else IndexOfFrom(s, pat, k + 1)
  }

  /** `s.indexOf(pat)`: the leftmost occurrence, if any. */
  function IndexOf(s: string, pat: string): (r: Option<nat>)
    ensures r.Some? ==> OccursAt(s, pat, r.value) && forall j :: 0 <= j < r.value ==> !OccursAt(s, pat, j)
    ensures r.None? ==> forall j :: !OccursAt(s, pat, j)
  {
    IndexOfFrom(s, pat, 0)
  }

  /** `s.replace(pat, rep)` with a string pattern: only the leftmost occurrence is replaced. */
  function ReplaceFirst(s: string, pat: string, rep: string): (r: string)
  {
    match IndexOf(s, pat)
    case None => s
    case Some(i) => s[..i] + rep + s[i + |pat|..]
  }

  /** Replacing a pattern that starts the string removes exactly that prefix. */
  lemma ReplaceFirstAtStart(pat: string, rest: string, rep: string)
    ensures ReplaceFirst(pat + rest, pat, rep) == rep + rest
  {
    assert OccursAt(pat + rest, pat, 0);
    assert (pat + rest)[|pat|..] == rest;
  }

  /** Replacing a pattern that does not occur changes nothing. */
  lemma ReplaceFirstAbsent(s: string, pat: string, rep: string)
    requires forall j :: !OccursAt(s, pat, j)
    ensures ReplaceFirst(s, pat, rep) == s
  {
  }

  // ---------------------------------------------------------------------------
  // String.prototype.split with a one-character separator, and Array.prototype.join

  /** `s.split(sep)`: the pieces between separators, empty pieces kept. */
  function Split(s: string, sep: char): (r: seq<string>)
    ensures |r| > 0
  {
    if s == [] then [""]
    else if s[0] == sep then [""] + Split(s[1..], sep)
    else
      var t := Split(s[1..], sep);
      [[s[0]] + t[0]] + t[1..]
  }

  /** No piece holds the separator, and the first piece is the text up to the first
      separator. */
  lemma {:induction false} SplitSpec(s: string, sep: char)
    ensures forall k :: 0 <= k < |Split(s, sep)| ==> sep !in Split(s, sep)[k]
    ensures var r0 := Split(s, sep)[0]; StartsWith(s, r0) && (|r0| < |s| ==> s[|r0|] == sep)
    decreases |s|
  {
    if s != [] {
      SplitSpec(s[1..], sep);
      var r := Split(s, sep);
      var t := Split(s[1..], sep);
      if s[0] == sep {
        assert r == [""] + t;
        forall k | 0 < k < |r| ensures sep !in r[k] { assert r[k] == t[k - 1]; }
      } else {
        assert r == [[s[0]] + t[0]] + t[1..];
        forall k | 0 < k < |r| ensures sep !in r[k] { assert r[k] == t[k]; }
        assert s[..|r[0]|] == [s[0]] + s[1..][..|t[0]|];
      }
    }
  }

  /** `xs.join(sep)`. */
  function Join(xs: seq<string>, sep: char): string
  {
    if |xs| == 0 then ""
    else if |xs| == 1 then xs[0]
    else Join(xs[..|xs| - 1], sep) + [sep] + xs[|xs| - 1]
  }

  /** Joining after a leading element. */
  lemma {:induction false} JoinCons(x: string, xs: seq<string>, sep: char)
    ensures Join([x] + xs, sep) == if xs == [] then x else x + [sep] + Join(xs, sep)
    decreases |xs|
  {
    if |xs| > 1 {
      var init, last := xs[..|xs| - 1], xs[|xs| - 1];
      var ys := [x] + xs;
      assert ys[..|ys| - 1] == [x] + init && ys[|ys| - 1] == last;
      JoinCons(x, init, sep);
      assert Join(ys, sep) == (x + [sep] + Join(init, sep)) + [sep] + last;
      assert Join(xs, sep) == Join(init, sep) + [sep] + last;
    } else if |xs| == 1 {
      assert ([x] + xs)[..1] == [x];
    }
  }

  /** Splitting distributes over a separator that is placed between two strings. */
  lemma {:induction false} SplitAppend(a: string, b: string, sep: char)
    ensures Split(a + [sep] + b, sep) == Split(a, sep) + Split(b, sep)
    decreases |a|
  {
    if a == [] {
      assert a + [sep] + b == [sep] + b;
      assert ([sep] + b)[1..] == b;
    } else {
      var s := a + [sep] + b;
      assert s[0] == a[0] && s[1..] == a[1..] + [sep] + b;
      SplitAppend(a[1..], b, sep);
      if a[0] != sep {
        var t, u := Split(a[1..], sep), Split(b, sep);
        ExtendFirst([a[0]], t, u);
      }
    }
  }

  /** Extending the first piece of `t + u`, where `t` has a first piece, extends the first
      piece of `t`. */
  lemma ExtendFirst(x: string, t: seq<string>, u: seq<string>)
    requires |t| > 0
    ensures [x + (t + u)[0]] + (t + u)[1..] == ([x + t[0]] + t[1..]) + u
  {
    assert (t + u)[1..] == t[1..] + u;
  }

  /** A string without the separator is a single piece. */
  lemma {:induction false} SplitNoSep(s: string, sep: char)
    requires sep !in s
    ensures Split(s, sep) == [s]
    decreases |s|
  {
    if s != [] {
      assert s[0] != sep && sep !in s[1..];
      SplitNoSep(s[1..], sep);
      assert [s[0]] + s[1..] == s;
    }
  }

  /** split undoes join, when no piece contains the separator. */
  lemma {:induction false} SplitJoin(xs: seq<string>, sep: char)
    requires |xs| > 0
    requires forall k :: 0 <= k < |xs| ==> sep !in xs[k]
    ensures Split(Join(xs, sep), sep) == xs
    decreases |xs|
  {
    if |xs| == 1 {
      SplitNoSep(xs[0], sep);
    } else {
      var init := xs[..|xs| - 1];
      SplitJoin(init, sep);
      SplitAppend(Join(init, sep), xs[|xs| - 1], sep);
      SplitNoSep(xs[|xs| - 1], sep);
    }
  }

  /** join undoes split, for every string. */
  lemma {:induction false} JoinSplit(s: string, sep: char)
    ensures Join(Split(s, sep), sep) == s
    decreases |s|
  {
    if s == [] {
    } else if s[0] == sep {
      JoinSplit(s[1..], sep);
      JoinCons("", Split(s[1..], sep), sep);
    } else {
      JoinSplit(s[1..], sep);
      JoinSplitFirst(s, sep);
    }
  }

  /** The step of JoinSplit where the text starts with a character other than the
      separator: that character joins the first piece. */
  lemma JoinSplitFirst(s: string, sep: char)
    requires s != [] && s[0] != sep && Join(Split(s[1..], sep), sep) == s[1..]
    ensures Join(Split(s, sep), sep) == s
  {
    var t := Split(s[1..], sep);
    assert Split(s, sep) == [[s[0]] + t[0]] + t[1..];
    JoinFirstChar(s[0], t[0], t[1..], sep);
    assert [t[0]] + t[1..] == t;
    assert s == [s[0]] + s[1..];
  }

  /** A character in front of the first piece comes out in front of the joined text. */
  lemma JoinFirstChar(c: char, x: string, rest: seq<string>, sep: char)
    ensures Join([[c] + x] + rest, sep) == [c] + Join([x] + rest, sep)
  {
    JoinCons([c] + x, rest, sep);
    JoinCons(x, rest, sep);
    if rest != [] {
      ConsAssoc(c, x, sep, Join(rest, sep));
    }
  }

  lemma ConsAssoc(c: char, x: string, sep: char, j: string)
    ensures ([c] + x) + [sep] + j == [c] + (x + [sep] + j)
  {
  }

  // ---------------------------------------------------------------------------
  // Number-to-string conversion of a non-negative integer (template literals)

  function Digit(d: nat): char
    requires d < 10
  {
    "0123456789"[d]
  }

  /** Decimal notation of `n`, as `${n}` renders it. */
  function DecimalString(n: nat): (r: string)
    ensures |r| > 0 && forall k :: 0 <= k < |r| ==> '0' <= r[k] <= '9'
  {
    if n < 10 then [Digit(n)] else DecimalString(n / 10) + [Digit(n % 10)]
  }

  /** The value of a string of decimal digits. */
  function DecimalValue(s: string): nat
    requires forall k :: 0 <= k < |s| ==> '0' <= s[k] <= '9'
  {
    if s == [] then 0 else DecimalValue(s[..|s| - 1]) * 10 + (s[|s| - 1] as int - '0' as int)
  }

  /** Reading back the decimal notation gives the number: the notation is injective. */
  lemma {:induction false} DecimalRoundTrip(n: nat)
    ensures DecimalValue(DecimalString(n)) == n
  {
    if n >= 10 {
      var s := DecimalString(n);
      assert s[..|s| - 1] == DecimalString(n / 10);
      DecimalRoundTrip(n / 10);
    }
  }

  lemma DecimalInjective(a: nat, b: nat)
    requires DecimalString(a) == DecimalString(b)
    ensures a == b
  {
    DecimalRoundTrip(a);
    DecimalRoundTrip(b);
  }
}
