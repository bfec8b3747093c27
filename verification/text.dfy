/** The few Python string operations the backend relies on, over `string`
    (a sequence of Unicode characters, as Python's `str`):
    `strip()`, `split(sep)`, `sep.join(parts)`, `sub in s`, slicing `s[:n]`,
    and `str(n)` for a non-negative integer. */
module Text {
  import opened Outcomes

  /** The characters Python's `str.isspace()` accepts, which `str.strip()`
      with no argument removes from both ends. */
  predicate IsSpace(c: char) {
    || c == ' ' || c == '\t' || c == '\n' || c == '\r' || c == '\U{B}' || c == '\U{C}'
    || ('\U{1C}' <= c <= '\U{1F}') || c == '\U{85}' || c == '\U{A0}' || c == '\U{1680}'
    || ('\U{2000}' <= c <= '\U{200A}') || c == '\U{2028}' || c == '\U{2029}'
    || c == '\U{202F}' || c == '\U{205F}' || c == '\U{3000}'
  }

  /** Every character of `s` is white space (vacuously so for ""). */
  predicate IsBlank(s: string) {
    forall k :: 0 <= k < |s| ==> IsSpace(s[k])
  }

  /** `s` starts and ends with something other than white space. */
  predicate IsTrimmed(s: string) {
    s == [] || (!IsSpace(s[0]) && !IsSpace(s[|s| - 1]))
  }

  /** `s` without its leading white space. */
  function TrimStart(s: string): (r: string)
    ensures |r| <= |s|
    ensures r == [] || !IsSpace(r[0])
  {
    if s != [] && IsSpace(s[0]) then TrimStart(s[1..]) else s
  }

  /** `s` without its trailing white space. */
  function TrimEnd(s: string): (r: string)
    ensures |r| <= |s| && (r != [] ==> r[0] == s[0])
    ensures r == [] || !IsSpace(r[|r| - 1])
  {
    if s != [] && IsSpace(s[|s| - 1]) then TrimEnd(s[..|s| - 1]) else s
  }

  /** What `TrimStart` removes is a blank prefix. */
  lemma {:induction false} TrimStartIsSuffix(s: string)
    ensures TrimStart(s) == s[|s| - |TrimStart(s)|..]
    ensures IsBlank(s[..|s| - |TrimStart(s)|])
  {
    if s != [] && IsSpace(s[0]) {
      TrimStartIsSuffix(s[1..]);
      var k := |s| - |TrimStart(s)|;
      assert s[1..][k - 1..] == s[k..];
      assert forall i :: 1 <= i < k ==> s[..k][i] == s[1..][..k - 1][i - 1];
    }
  }

  /** What `TrimEnd` removes is a blank suffix. */
  lemma {:induction false} TrimEndIsPrefix(s: string)
    ensures TrimEnd(s) == s[..|TrimEnd(s)|]
    ensures IsBlank(s[|TrimEnd(s)|..])
  {
    if s != [] && IsSpace(s[|s| - 1]) {
      TrimEndIsPrefix(s[..|s| - 1]);
      var k := |TrimEnd(s)|;
      assert s[..|s| - 1][..k] == s[..k];
      assert forall i :: 0 <= i < |s| - 1 - k ==> s[k..][i] == s[..|s| - 1][k..][i];
    }
  }

  /** Python's `s.strip()`: the slice of `s` left once white space is
      removed from both ends. */
  function Strip(s: string): (r: string)
    ensures IsTrimmed(r) && |r| <= |s|
  {
    TrimEnd(TrimStart(s))
  }

  /** What `strip()` removes is white space, from the two ends only. */
  lemma StripIsSlice(s: string)
    ensures exists i, j :: 0 <= i <= j <= |s| && Strip(s) == s[i..j] && IsBlank(s[..i]) && IsBlank(s[j..])
  {
    var t := TrimStart(s);
    var r := TrimEnd(t);
    TrimStartIsSuffix(s);
    TrimEndIsPrefix(t);
    var i := |s| - |t|;
    assert r == s[i..i + |r|];
    assert s[i + |r|..] == t[|r|..];
  }

  /** Stripping removes something only when there is white space to remove,
      and a blank string strips to "". */
  lemma StripBlank(s: string)
    ensures Strip(s) == [] <==> IsBlank(s)
  {
    StripIsSlice(s);
    var r := Strip(s);
    var i, j :| 0 <= i <= j <= |s| && r == s[i..j] && IsBlank(s[..i]) && IsBlank(s[j..]);
    if r == [] {
      forall k | 0 <= k < |s| ensures IsSpace(s[k]) {
        if k < i { assert s[..i][k] == s[k]; } else { assert s[j..][k - j] == s[k]; }
      }
    } else {
      assert r[0] == s[i];
    }
  }

  /** Stripping twice is stripping once. */
  lemma {:induction false} StripIdempotent(s: string)
    ensures Strip(Strip(s)) == Strip(s)
  {
    var r := Strip(s);
    assert TrimStart(r) == r;
    assert TrimEnd(r) == r;
  }

  /** `sub` occurs in `s` starting at index `i`. */
  predicate OccursAt(s: string, sub: string, i: int) {
    0 <= i && i + |sub| <= |s| && s[i..i + |sub|] == sub
  }

  lemma OccursAtShift(s: string, sub: string, i: nat)
    requires s != []
    ensures OccursAt(s, sub, i + 1) <==> OccursAt(s[1..], sub, i)
  {
    if i + 1 + |sub| <= |s| {
      assert s[i + 1..i + 1 + |sub|] == s[1..][i..i + |sub|];
    }
  }

  /** The first index at which `sub` occurs in `s`, as Python's `s.find(sub)`. */
  function IndexOf(s: string, sub: string): (r: Option<nat>)
    ensures r.Some? ==> OccursAt(s, sub, r.value)
    ensures r.Some? ==> forall j :: 0 <= j < r.value ==> !OccursAt(s, sub, j)
    ensures r.None? ==> forall j :: !OccursAt(s, sub, j)
    decreases |s|
  {
    if |s| < |sub| then None
    else if s[..|sub|] == sub then Some(0)
    else
      var rest := IndexOf(s[1..], sub);
      assert forall j: nat :: OccursAt(s, sub, j + 1) <==> OccursAt(s[1..], sub, j) by {
        forall j: nat ensures OccursAt(s, sub, j + 1) <==> OccursAt(s[1..], sub, j) {
          OccursAtShift(s, sub, j);
        }
      }
      assert forall j :: OccursAt(s, sub, j) && j > 0 ==> OccursAt(s[1..], sub, j - 1);
      match rest
      case None => None
      case Some(i) => Some(i + 1)
  }

  /** Python's `sub in s`. */
  predicate Contains(s: string, sub: string) {
    IndexOf(s, sub).Some?
  }

  lemma ContainsIff(s: string, sub: string)
    ensures Contains(s, sub) <==> exists j :: OccursAt(s, sub, j)
  {
  }

  /** Python's `sep.join(parts)`. */
  function Join(parts: seq<string>, sep: string): string {
    if parts == [] then ""
    else if |parts| == 1 then parts[0]
    else parts[0] + sep + Join(parts[1..], sep)
  }

  /** Python's `s.split(sep)` for a non-empty separator: cut at each
      left-most occurrence of `sep`, scanning from the left. */
  function Split(s: string, sep: string): (r: seq<string>)
    requires sep != []
    ensures |r| >= 1
    ensures forall k :: 0 <= k < |r| ==> !Contains(r[k], sep)
    decreases |s|
  {
    match IndexOf(s, sep)
    case None => [s]
    case Some(i) =>
      var head := s[..i];
      assert forall j :: OccursAt(head, sep, j) ==> OccursAt(s, sep, j) by {
        forall j | OccursAt(head, sep, j) ensures OccursAt(s, sep, j) {
          assert s[j..j + |sep|] == head[j..j + |sep|];
        }
      }
      [head] + Split(s[i + |sep|..], sep)
  }

  /** Splitting loses nothing: joining the pieces with the separator gives
      back the string. */
  lemma {:induction false} SplitJoin(s: string, sep: string)
    requires sep != []
    ensures Join(Split(s, sep), sep) == s
    decreases |s|
  {
    match IndexOf(s, sep)
    case None =>
    case Some(i) =>
      var rest := s[i + |sep|..];
      var parts := Split(rest, sep);
      SplitJoin(rest, sep);
      assert Split(s, sep) == [s[..i]] + parts;
      assert ([s[..i]] + parts)[1..] == parts;
      assert Join([s[..i]] + parts, sep) == s[..i] + sep + rest;
      assert s == s[..i] + s[i..i + |sep|] + rest;
  }

  /** A string without the separator is not split at all. */
  lemma SplitWithoutSeparator(s: string, sep: string)
    requires sep != [] && !Contains(s, sep)
    ensures Split(s, sep) == [s]
  {
  }

  lemma TailOfAppend<T>(a: seq<T>, b: seq<T>)
    requires a != []
    ensures (a + b)[0] == a[0] && (a + b)[1..] == a[1..] + b
  {
  }

  /** Python's `[p.strip() for p in parts if len(p.strip()) > n]`; with
      `n == 0` this is `[p.strip() for p in parts if p.strip()]`. */
  function StrippedLonger(parts: seq<string>, n: nat): (r: seq<string>)
    ensures |r| <= |parts|
    ensures forall k :: 0 <= k < |r| ==> |r[k]| > n && IsTrimmed(r[k])
  {
    if parts == [] then []
    else
      var p := Strip(parts[0]);
      (if |p| > n then [p] else []) + StrippedLonger(parts[1..], n)
  }

  /** The filter works item by item and keeps order: filtering a
      concatenation is concatenating the filtered halves. */
  lemma {:induction false} StrippedLongerAppend(a: seq<string>, b: seq<string>, n: nat)
    ensures StrippedLonger(a + b, n) == StrippedLonger(a, n) + StrippedLonger(b, n)
  {
    if a == [] {
      assert a + b == b;
    } else {
      var p := Strip(a[0]);
      var head := if |p| > n then [p] else [];
      var x, y := StrippedLonger(a[1..], n), StrippedLonger(b, n);
      TailOfAppend(a, b);
      StrippedLongerAppend(a[1..], b, n);
      calc {
        StrippedLonger(a + b, n);
        head + StrippedLonger(a[1..] + b, n);
        head + (x + y);
        (head + x) + y;
        StrippedLonger(a, n) + y;
      }
    }
  }

  /** What one item contributes: its stripped form if that is longer than
      `n`, nothing otherwise. */
  lemma StrippedLongerSingle(p: string, n: nat)
    ensures StrippedLonger([p], n) == if |Strip(p)| > n then [Strip(p)] else []
  {
    assert [p][1..] == [];
  }

  /** Every kept item is the stripped form of some input item, and every input
      item whose stripped form is long enough is kept. */
  lemma {:induction false} StrippedLongerMembers(parts: seq<string>, n: nat, x: string)
    ensures x in StrippedLonger(parts, n) <==> exists p :: p in parts && x == Strip(p) && |x| > n
  {
    if parts != [] {
      StrippedLongerMembers(parts[1..], n, x);
      if exists p :: p in parts && x == Strip(p) && |x| > n {
        var p :| p in parts && x == Strip(p) && |x| > n;
        if p != parts[0] { assert p in parts[1..]; }
      }
    }
  }

  /** Python's `s[:n]`: at most the first `n` characters. */
  function Prefix(s: string, n: nat): (r: string)
    ensures |r| <= n && r <= s
    ensures |s| <= n ==> r == s
  {
    if |s| <= n then s else s[..n]
  }

  predicate IsDigit(c: char) {
    '0' <= c <= '9'
  }

  function DigitChar(d: nat): (c: char)
    requires d < 10
    ensures IsDigit(c) && c as int - '0' as int == d
  {
    (d + '0' as int) as char
  }

  /** Python's `str(n)` for a non-negative integer: its decimal digits. */
  function NatToString(n: nat): (r: string)
    ensures |r| >= 1 && forall k :: 0 <= k < |r| ==> IsDigit(r[k])
    ensures n < 10 <==> |r| == 1
  {
    if n < 10 then [DigitChar(n)] else NatToString(n / 10) + [DigitChar(n % 10)]
  }

  /** Different numbers print differently. */
  lemma {:induction false} NatToStringInjective(m: nat, n: nat)
    requires NatToString(m) == NatToString(n)
    ensures m == n
  {
    if m >= 10 && n >= 10 {
      var a, b := NatToString(m), NatToString(n);
      assert a[..|a| - 1] == NatToString(m / 10);
      assert b[..|b| - 1] == NatToString(n / 10);
      NatToStringInjective(m / 10, n / 10);
      assert DigitChar(m % 10) == a[|a| - 1] == b[|b| - 1] == DigitChar(n % 10);
    } else {
      assert NatToString(m)[0] == DigitChar(m) || m >= 10;
    }
  }
}
