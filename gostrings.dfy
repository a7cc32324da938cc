/**
 * The functions of Go's `strings` and `fmt` packages that the parser and the rules
 * call, over strings of Unicode code points (Go works on UTF-8 bytes; for the
 * characters these functions look at, byte and code-point positions agree).
 */
module GoStrings {

  /** unicode.IsSpace: the white space that strings.TrimSpace and strings.Fields skip. */
  predicate IsSpace(c: char) {
    || c == ' ' || c == '\t' || c == '\n' || c == '\U{000B}' || c == '\U{000C}' || c == '\r'
    || c == '\U{0085}' || c == '\U{00A0}' || c == '\U{1680}'
    || ('\U{2000}' <= c <= '\U{200A}')
    || c == '\U{2028}' || c == '\U{2029}' || c == '\U{202F}' || c == '\U{205F}' || c == '\U{3000}'
  }

  predicate IsNotSpace(c: char) { !IsSpace(c) }

  /** Every character of `s` satisfies `p`. */
  predicate All(s: string, p: char -> bool) {
    forall i :: 0 <= i < |s| ==> p(s[i])
  }

  lemma AllConcat(a: string, b: string, p: char -> bool)
    ensures All(a + b, p) <==> All(a, p) && All(b, p)
  {
    if All(a, p) && All(b, p) {
      forall i | 0 <= i < |a + b| ensures p((a + b)[i]) {
        if i >= |a| { assert (a + b)[i] == b[i - |a|]; }
      }
    }
    if All(a + b, p) {
      forall i | 0 <= i < |a| ensures p(a[i]) { assert a[i] == (a + b)[i]; }
      forall i | 0 <= i < |b| ensures p(b[i]) { assert b[i] == (a + b)[|a| + i]; }
    }
  }

  /** The end of the longest run of characters satisfying `p` that starts at `from`. */
  function SpanEnd(s: string, from: nat, p: char -> bool): (end: nat)
    requires from <= |s|
    ensures from <= end <= |s|
    ensures All(s[from..end], p)
    ensures end == |s| || !p(s[end])
    decreases |s| - from
  {
    if from < |s| && p(s[from]) then
      var e := SpanEnd(s, from + 1, p);
      assert s[from..e] == [s[from]] + s[from + 1..e];
      e
    else from
  }

  /** A run end is determined by the three facts SpanEnd promises. */
  lemma {:induction false} SpanEndUnique(s: string, from: nat, e: nat, p: char -> bool)
    requires from <= e <= |s|
    requires All(s[from..e], p)
    requires e == |s| || !p(s[e])
    ensures SpanEnd(s, from, p) == e
    decreases e - from
  {
    if from < e {
      assert p(s[from]) by { assert s[from] == s[from..e][0]; }
      assert s[from + 1..e] == s[from..e][1..];
      SpanEndUnique(s, from + 1, e, p);
    }
  }

  /** A run stops at the latest on the first character that does not satisfy `p`. */
  lemma SpanEndStops(s: string, from: nat, i: nat, p: char -> bool)
    requires from <= i < |s| && !p(s[i])
    ensures SpanEnd(s, from, p) <= i
  {
  }

  function HasPrefix(s: string, prefix: string): bool {
    prefix <= s
  }

  /** Every character of `s` is white space. */
  predicate AllSpace(s: string) {
    forall i :: 0 <= i < |s| ==> IsSpace(s[i])
  }

  /** No character of `s` is white space. */
  predicate NoSpace(s: string) {
    forall i :: 0 <= i < |s| ==> !IsSpace(s[i])
  }

  /** strings.TrimLeftFunc(s, unicode.IsSpace): `s` without its leading white space. */
  function TrimLeftSpace(s: string): (r: string)
    ensures |r| <= |s|
    ensures r == [] || !IsSpace(r[0])
  {
    if s != [] && IsSpace(s[0]) then TrimLeftSpace(s[1..]) else s
  }

  /** TrimLeftSpace removes a prefix of white space and nothing else. */
  lemma {:induction false} TrimLeftDropsSpace(s: string)
    ensures var r := TrimLeftSpace(s); s == s[..|s| - |r|] + r && AllSpace(s[..|s| - |r|])
    decreases |s|
  {
    if s != [] && IsSpace(s[0]) {
      var r := TrimLeftSpace(s[1..]);
      TrimLeftDropsSpace(s[1..]);
      assert s[..|s| - |r|] == [s[0]] + s[1..][..|s| - 1 - |r|];
      assert s == [s[0]] + s[1..];
    } else {
      assert s == s[..0] + s;
    }
  }

  /** strings.TrimRightFunc(s, unicode.IsSpace): `s` without its trailing white space. */
  function TrimRightSpace(s: string): (r: string)
    ensures |r| <= |s| && r == s[..|r|]
    ensures r == [] || !IsSpace(r[|r| - 1])
  {
    if s != [] && IsSpace(s[|s| - 1]) then TrimRightSpace(s[..|s| - 1]) else s
  }

  /** TrimRightSpace removes a suffix of white space and nothing else. */
  lemma {:induction false} TrimRightDropsSpace(s: string)
    ensures var r := TrimRightSpace(s); s == r + s[|r|..] && AllSpace(s[|r|..])
    decreases |s|
  {
    if s != [] && IsSpace(s[|s| - 1]) {
      var r := TrimRightSpace(s[..|s| - 1]);
      TrimRightDropsSpace(s[..|s| - 1]);
      assert s[|r|..] == s[..|s| - 1][|r|..] + [s[|s| - 1]];
    }
  }

  /** strings.TrimSpace: `s` without its leading and trailing white space. */
  function TrimSpace(s: string): (r: string)
    ensures |r| <= |s|
    ensures r == [] || (!IsSpace(r[0]) && !IsSpace(r[|r| - 1]))
  {
    TrimRightSpace(TrimLeftSpace(s))
  }

  lemma {:induction false} TrimLeftSkips(w: string, s: string)
    requires AllSpace(w)
    ensures TrimLeftSpace(w + s) == TrimLeftSpace(s)
    decreases |w|
  {
    if w != [] {
      assert (w + s)[0] == w[0] && IsSpace(w[0]);
      assert (w + s)[1..] == w[1..] + s;
      TrimLeftSkips(w[1..], s);
    } else {
      assert w + s == s;
    }
  }

  lemma {:induction false} TrimRightSkips(s: string, w: string)
    requires AllSpace(w)
    ensures TrimRightSpace(s + w) == TrimRightSpace(s)
    decreases |w|
  {
    if w != [] {
      assert (s + w)[|s + w| - 1] == w[|w| - 1] && IsSpace(w[|w| - 1]);
      assert (s + w)[..|s + w| - 1] == s + w[..|w| - 1];
      TrimRightSkips(s, w[..|w| - 1]);
    } else {
      assert s + w == s;
    }
  }

  /** Trailing white space survives TrimLeftSpace unless everything is white space. */
  lemma {:induction false} TrimLeftAppend(s: string, w: string)
    requires AllSpace(w)
    ensures TrimLeftSpace(s + w) == if TrimLeftSpace(s) == [] then [] else TrimLeftSpace(s) + w
    decreases |s|
  {
    if s == [] {
      assert s + w == w + [];
      TrimLeftSkips(w, []);
    } else {
      assert (s + w)[0] == s[0];
      if IsSpace(s[0]) {
        assert (s + w)[1..] == s[1..] + w;
        TrimLeftAppend(s[1..], w);
      }
    }
  }

  /** Leading white space does not change what TrimSpace yields. */
  lemma TrimSpaceSkipsLeading(w: string, s: string)
    requires AllSpace(w)
    ensures TrimSpace(w + s) == TrimSpace(s)
  {
    TrimLeftSkips(w, s);
  }

  /** Trailing white space does not change what TrimSpace yields. */
  lemma TrimSpaceSkipsTrailing(s: string, w: string)
    requires AllSpace(w)
    ensures TrimSpace(s + w) == TrimSpace(s)
  {
    TrimLeftAppend(s, w);
    if TrimLeftSpace(s) != [] {
      TrimRightSkips(TrimLeftSpace(s), w);
    }
  }

  /** A string with no white space at either end is its own TrimSpace. */
  lemma TrimSpaceOfTrimmed(s: string)
    requires s == [] || (!IsSpace(s[0]) && !IsSpace(s[|s| - 1]))
    ensures TrimSpace(s) == s
  {
  }

  /** TrimSpace is idempotent. */
  lemma TrimSpaceIdempotent(s: string)
    ensures TrimSpace(TrimSpace(s)) == TrimSpace(s)
  {
    TrimSpaceOfTrimmed(TrimSpace(s));
  }

  /**
   * TrimSpace(s) is the infix s[i..j] whenever everything outside it is white space
   * and it neither starts nor ends with white space.
   */
  lemma TrimSpaceIs(s: string, i: nat, j: nat)
    requires i <= j <= |s|
    requires AllSpace(s[..i]) && AllSpace(s[j..])
    requires i == j || (!IsSpace(s[i]) && !IsSpace(s[j - 1]))
    ensures TrimSpace(s) == s[i..j]
  {
    assert s == s[..i] + (s[i..j] + s[j..]);
    TrimSpaceSkipsLeading(s[..i], s[i..j] + s[j..]);
    TrimSpaceSkipsTrailing(s[i..j], s[j..]);
    TrimSpaceOfTrimmed(s[i..j]);
  }

  /** Trimming only removes characters: one absent from `s` is absent from TrimSpace(s). */
  lemma TrimSpaceKeepsAbsent(s: string, c: char)
    requires c !in s
    ensures c !in TrimSpace(s)
  {
    var u := TrimLeftSpace(s);
    TrimLeftDropsSpace(s);
    TrimRightDropsSpace(u);
    var r := TrimSpace(s);
    forall k | 0 <= k < |r| ensures r[k] != c {
      assert r[k] == u[k] == s[|s| - |u| + k];
    }
  }

  /** Text between a fixed prefix and a fixed suffix is determined by the whole. */
  lemma InfixInjective(p: string, a: string, b: string, q: string)
    requires p + a + q == p + b + q
    ensures a == b
  {
    assert |a| == |b|;
    assert a == (p + a + q)[|p|..|p| + |a|];
    assert b == (p + b + q)[|p|..|p| + |b|];
  }

  /** The length of the run of non-white-space characters that opens `s`. */
  function WordEnd(s: string): (n: nat)
    ensures n <= |s|
    ensures n == |s| || IsSpace(s[n])
  {
    if s != [] && !IsSpace(s[0]) then WordEnd(s[1..]) + 1 else 0
  }

  lemma {:induction false} WordEndNoSpace(s: string)
    ensures NoSpace(s[..WordEnd(s)])
    decreases |s|
  {
    if s != [] && !IsSpace(s[0]) {
      var n := WordEnd(s[1..]);
      WordEndNoSpace(s[1..]);
      assert s[..n + 1] == [s[0]] + s[1..][..n];
    }
  }

  /** strings.Fields: the maximal runs of non-white-space characters of `s`, in order. */
  function Fields(s: string): (fs: seq<string>)
    ensures |fs| <= |s|
    decreases |s|
  {
    var u := TrimLeftSpace(s);
    if u == [] then []
    else
      var n := WordEnd(u);
      [u[..n]] + Fields(u[n..])
  }

  /** Every field is a non-empty run of non-white-space characters. */
  lemma {:induction false} FieldWellFormed(s: string, k: nat)
    requires k < |Fields(s)|
    ensures Fields(s)[k] != [] && NoSpace(Fields(s)[k])
    decreases |s|
  {
    var u := TrimLeftSpace(s);
    assert u != [];
    var n := WordEnd(u);
    assert Fields(s) == [u[..n]] + Fields(u[n..]);
    if k == 0 {
      assert n >= 1 && Fields(s)[0] == u[..n];
      WordEndNoSpace(u);
    } else {
      assert Fields(s)[k] == Fields(u[n..])[k - 1];
      FieldWellFormed(u[n..], k - 1);
    }
  }

  /** Leading white space does not change the fields. */
  lemma FieldsSkipLeading(w: string, s: string)
    requires AllSpace(w)
    ensures Fields(w + s) == Fields(s)
  {
    TrimLeftSkips(w, s);
  }

  lemma {:induction false} WordEndAppend(u: string, w: string)
    requires AllSpace(w)
    ensures WordEnd(u + w) == WordEnd(u)
    decreases |u|
  {
    if u == [] {
      assert u + w == w;
    } else {
      assert (u + w)[0] == u[0];
      if !IsSpace(u[0]) {
        assert (u + w)[1..] == u[1..] + w;
        WordEndAppend(u[1..], w);
      }
    }
  }

  /** Trailing white space does not change the fields. */
  lemma {:induction false} FieldsSkipTrailing(s: string, w: string)
    requires AllSpace(w)
    ensures Fields(s + w) == Fields(s)
    decreases |s|
  {
    var u := TrimLeftSpace(s);
    TrimLeftAppend(s, w);
    if u != [] {
      var n := WordEnd(u);
      WordEndAppend(u, w);
      assert (u + w)[..n] == u[..n];
      assert (u + w)[n..] == u[n..] + w;
      FieldsSkipTrailing(u[n..], w);
    }
  }

  /** Trimming before splitting into fields changes nothing. */
  lemma FieldsOfTrimSpace(s: string)
    ensures Fields(TrimSpace(s)) == Fields(s)
  {
    var u := TrimLeftSpace(s);
    var r := TrimRightSpace(u);
    TrimRightDropsSpace(u);
    assert u == r + u[|r|..];
    FieldsSkipTrailing(r, u[|r|..]);
    assert TrimLeftSpace(u) == u;
  }

  /** strings.IndexAny with a one-character set: the first position of `c`, or -1. */
  function IndexOf(s: string, c: char): (i: int)
    ensures -1 <= i < |s|
    ensures i == -1 <==> c !in s
    ensures 0 <= i ==> s[i] == c && c !in s[..i]
  {
    if |s| == 0 then -1
    else if s[0] == c then 0
    else
      var k := IndexOf(s[1..], c);
      assert s == [s[0]] + s[1..];
      if k < 0 then -1
      else
        assert s[..k + 1] == [s[0]] + s[1..][..k];
        k + 1
  }

  /** strings.Split with a one-character separator. */
  function Split(s: string, sep: char): (parts: seq<string>)
    ensures |parts| >= 1
    decreases |s|
  {
    var i := IndexOf(s, sep);
    if i < 0 then [s] else [s[..i]] + Split(s[i + 1..], sep)
  }

  /** No piece of a split contains the separator. */
  lemma {:induction false} SplitPiecesFree(s: string, sep: char)
    ensures forall k :: 0 <= k < |Split(s, sep)| ==> sep !in Split(s, sep)[k]
    decreases |s|
  {
    var i := IndexOf(s, sep);
    if i >= 0 {
      SplitPiecesFree(s[i + 1..], sep);
    }
  }

  /** strings.Join. */
  function Join(parts: seq<string>, sep: string): string {
    if |parts| == 0 then ""
    else if |parts| == 1 then parts[0]
    else parts[0] + sep + Join(parts[1..], sep)
  }

  /** Join of a first piece followed by at least one more. */
  lemma JoinCons(head: string, rest: seq<string>, sep: string)
    requires |rest| >= 1
    ensures Join([head] + rest, sep) == head + sep + Join(rest, sep)
  {
    assert ([head] + rest)[1..] == rest;
  }

  /** A string is what comes before position `i`, the character there, and what follows. */
  lemma Around(s: string, i: nat)
    requires i < |s|
    ensures s[..i] + [s[i]] + s[i + 1..] == s
  {
  }

  /** Joining the pieces of a split puts the separators back: nothing is lost. */
  lemma {:induction false} JoinSplit(s: string, sep: char)
    ensures Join(Split(s, sep), [sep]) == s
    decreases |s|
  {
    var i := IndexOf(s, sep);
    if i >= 0 {
      JoinSplit(s[i + 1..], sep);
      JoinSplitStep(s, sep, i);
    } else {
      assert Split(s, sep) == [s];
    }
  }

  /** The step of JoinSplit at the first separator, given the tail's round trip. */
  lemma JoinSplitStep(s: string, sep: char, i: nat)
    requires i < |s| && IndexOf(s, sep) == i
    requires Join(Split(s[i + 1..], sep), [sep]) == s[i + 1..]
    ensures Join(Split(s, sep), [sep]) == s
  {
    var head, tail := s[..i], s[i + 1..];
    var rest := Split(tail, sep);
    SplitAt(s, sep, i);
    JoinCons(head, rest, [sep]);
    Around(s, i);
  }

  /** Split at the first separator: the piece before it, then the split of what follows. */
  lemma SplitAt(s: string, sep: char, i: nat)
    requires i < |s| && IndexOf(s, sep) == i
    ensures Split(s, sep) == [s[..i]] + Split(s[i + 1..], sep)
  {
  }

  /** Splitting a join of separator-free pieces gives the pieces back. */
  lemma {:induction false} SplitJoin(parts: seq<string>, sep: char)
    requires |parts| >= 1
    requires forall k :: 0 <= k < |parts| ==> sep !in parts[k]
    ensures Split(Join(parts, [sep]), sep) == parts
  {
    if |parts| > 1 {
      var tail := Join(parts[1..], [sep]);
      var s := parts[0] + [sep] + tail;
      assert s[|parts[0]|] == sep;
      assert s[..|parts[0]|] == parts[0];
      assert sep !in parts[0];
      assert IndexOf(s, sep) == |parts[0]|;
      assert s[|parts[0]| + 1..] == tail;
      SplitJoin(parts[1..], sep);
    } else {
      assert Join(parts, [sep]) == parts[0];
    }
  }

  /** The decimal digit for 0 <= d < 10. */
  function DigitChar(d: nat): char
    requires d < 10
  {
    ('0' as int + d) as char
  }

  function NatToString(n: nat): (s: string)
    ensures |s| >= 1
    ensures forall k :: 0 <= k < |s| ==> '0' <= s[k] <= '9'
  {
    if n < 10 then [DigitChar(n)] else NatToString(n / 10) + [DigitChar(n % 10)]
  }

  /** The number a string of decimal digits spells, most significant digit first. */
  function DigitsValue(s: string): int {
    if s == [] then 0 else 10 * DigitsValue(s[..|s| - 1]) + (s[|s| - 1] as int - '0' as int)
  }

  /** The digits spell `n`, with no leading zero except for 0 itself. */
  lemma {:induction false} NatToStringValue(n: nat)
    ensures DigitsValue(NatToString(n)) == n
    ensures NatToString(n)[0] == '0' ==> n == 0
    decreases n
  {
    if n >= 10 {
      NatToStringValue(n / 10);
      DigitsValueSnoc(NatToString(n / 10), DigitChar(n % 10));
    }
  }

  lemma DigitsValueSnoc(t: string, c: char)
    ensures DigitsValue(t + [c]) == 10 * DigitsValue(t) + (c as int - '0' as int)
  {
    assert (t + [c])[..|t|] == t;
  }

  /** fmt's %d verb. */
  function IntToString(n: int): string {
    if n < 0 then "-" + NatToString(-n) else NatToString(n)
  }

  /** fmt's %q verb for strings, without Go's escaping of special characters. */
  function Quote(s: string): string {
    "\"" + s + "\""
  }
}
