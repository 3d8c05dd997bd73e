/**
 * The Ruby string operations the reporter relies on, over `string` (a
 * sequence of Unicode scalar values): `split` with and without a limit,
 * `join`, `<=>` ordering, `strip`-blankness and decimal formatting.
 */
module Text {

  /** Index of the first occurrence of `c` in `s`. */
  function IndexOf(s: string, c: char): (i: nat)
    requires c in s
    ensures i < |s| && s[i] == c
    ensures c !in s[..i]
  {
    if s[0] == c then 0
    else
      var j := IndexOf(s[1..], c);
      assert s[..j + 1] == [s[0]] + s[1..][..j];
      j + 1
  }

  /** `parts.join(sep)`. */
  function Join(parts: seq<string>, sep: string): string
  {
    if |parts| == 0 then ""
    else if |parts| == 1 then parts[0]
    else parts[0] + sep + Join(parts[1..], sep)
  }

  /** `(lines).join` with no separator. */
  function Concat(parts: seq<string>): string
  {
    if |parts| == 0 then "" else parts[0] + Concat(parts[1..])
  }

  /**
   * All fields of `s` between occurrences of `c`, empty ones included
   * (Ruby's `s.split(c, -1)`); there is always at least one.
   */
  function Fields(s: string, c: char): (r: seq<string>)
    ensures |r| >= 1
    ensures forall i :: 0 <= i < |r| ==> c !in r[i]
    decreases |s|
  {
    if c !in s then [s]
    else
      var i := IndexOf(s, c);
      [s[..i]] + Fields(s[i + 1..], c)
  }

  /** Joining the fields with their separator gives the string back. */
  lemma {:induction false} JoinFields(s: string, c: char)
    ensures Join(Fields(s, c), [c]) == s
    decreases |s|
  {
    if c in s {
      var i := IndexOf(s, c);
      var g := Fields(s[i + 1..], c);
      assert Fields(s, c) == [s[..i]] + g;
      JoinFields(s[i + 1..], c);
      assert Join([s[..i]] + g, [c]) == s[..i] + [c] + Join(g, [c]) by {
        assert ([s[..i]] + g)[1..] == g;
      }
      assert s == s[..i] + [c] + s[i + 1..];
    }
  }

  lemma {:induction false} JoinAppend(a: seq<string>, b: seq<string>, sep: string)
    requires |a| >= 1 && |b| >= 1
    ensures Join(a + b, sep) == Join(a, sep) + sep + Join(b, sep)
    decreases |a|
  {
    if |a| == 1 {
      assert (a + b)[1..] == b;
    } else {
      JoinAppend(a[1..], b, sep);
      assert (a + b)[1..] == a[1..] + b;
    }
  }

  /** The first `c` in `p c rest`, for `p` without `c`, is the one after `p`. */
  lemma IndexOfAfter(p: string, c: char, rest: string)
    requires c !in p
    ensures IndexOf(p + [c] + rest, c) == |p|
  {
    var s := p + [c] + rest;
    var i := IndexOf(s, c);
    assert s[..|p|] == p;
    assert s[|p|] == c;
    assert s[..i] <= s;
  }

  /** The fields of `p c rest`, for `p` without `c`: `p`, then the fields of `rest`. */
  lemma FieldsCons(p: string, c: char, rest: string)
    requires c !in p
    ensures Fields(p + [c] + rest, c) == [p] + Fields(rest, c)
  {
    var s := p + [c] + rest;
    IndexOfAfter(p, c, rest);
    assert s[|p|] == c;
    assert s[..|p|] == p;
    assert s[|p| + 1..] == rest;
  }

  /** Splitting a join of separator-free parts gives the parts back. */
  lemma {:induction false} FieldsJoin(parts: seq<string>, c: char)
    requires |parts| >= 1
    requires forall i :: 0 <= i < |parts| ==> c !in parts[i]
    ensures Fields(Join(parts, [c]), c) == parts
    decreases |parts|
  {
    if |parts| > 1 {
      var rest := Join(parts[1..], [c]);
      assert Join(parts, [c]) == parts[0] + [c] + rest;
      FieldsCons(parts[0], c, rest);
      FieldsJoin(parts[1..], c);
      assert parts == [parts[0]] + parts[1..];
    } else {
      assert Join(parts, [c]) == parts[0];
    }
  }

  /** The fields of `x c y` are the fields of `x` followed by those of `y`. */
  lemma FieldsAppend(x: string, y: string, c: char)
    ensures Fields(x + [c] + y, c) == Fields(x, c) + Fields(y, c)
  {
    var fx := Fields(x, c);
    var fy := Fields(y, c);
    JoinFields(x, c);
    JoinFields(y, c);
    JoinAppend(fx, fy, [c]);
    FieldsJoin(fx + fy, c);
  }

  /** The fields of `x c y`, for `y` without `c`: those of `x`, then `y`. */
  lemma FieldsSnoc(x: string, y: string, c: char)
    requires c !in y
    ensures Fields(x + [c] + y, c) == Fields(x, c) + [y]
  {
    FieldsAppend(x, y, c);
    assert Fields(y, c) == [y];
  }

  /** The longest prefix of `parts` that does not end in an empty string. */
  function DropTrailingEmpty(parts: seq<string>): (r: seq<string>)
    ensures r <= parts
    ensures |r| == 0 || r[|r| - 1] != ""
    ensures forall i :: |r| <= i < |parts| ==> parts[i] == ""
  {
    if |parts| == 0 then []
    else if parts[|parts| - 1] == "" then DropTrailingEmpty(parts[..|parts| - 1])
    else parts
  }

  /** `s.split(c)` with no limit: trailing empty fields are suppressed. */
  function Split(s: string, c: char): seq<string>
  {
    DropTrailingEmpty(Fields(s, c))
  }

  /**
   * The fields of `s.split(c, limit)` for a positive `limit` on a non-empty
   * string: at most `limit` fields, the last holding the unsplit remainder.
   */
  function LimitFields(s: string, c: char, limit: nat): (r: seq<string>)
    requires limit >= 1
    ensures 1 <= |r| <= limit
    decreases limit
  {
    if limit == 1 || c !in s then [s]
    else
      var i := IndexOf(s, c);
      [s[..i]] + LimitFields(s[i + 1..], c, limit - 1)
  }

  /** `s.split(c, limit)` for a positive `limit`; the empty string has no fields. */
  function SplitLimit(s: string, c: char, limit: nat): seq<string>
    requires limit >= 1
  {
    if s == "" then [] else LimitFields(s, c, limit)
  }

  /** How many leading fields a split limited to `limit` fields keeps whole. */
  function KeptFields(limit: nat, fields: nat): nat
    requires limit >= 1 && fields >= 1
  {
    if limit - 1 < fields - 1 then limit - 1 else fields - 1
  }

  /**
   * A limited split keeps the first `k` fields and joins the rest back
   * together, where `k` is `limit - 1` or fewer when the string has fewer
   * separators.
   */
  lemma {:induction false} LimitFieldsAreFields(s: string, c: char, limit: nat)
    requires limit >= 1
    ensures var f := Fields(s, c);
            LimitFields(s, c, limit) == f[..KeptFields(limit, |f|)] + [Join(f[KeptFields(limit, |f|)..], [c])]
    decreases limit
  {
    if limit == 1 || c !in s {
      LimitBase(s, c, limit);
    } else {
      var i := IndexOf(s, c);
      LimitFieldsAreFields(s[i + 1..], c, limit - 1);
      LimitStep(s, c, limit, i);
    }
  }

  lemma LimitBase(s: string, c: char, limit: nat)
    requires limit >= 1 && (limit == 1 || c !in s)
    ensures var f := Fields(s, c);
            LimitFields(s, c, limit) == f[..KeptFields(limit, |f|)] + [Join(f[KeptFields(limit, |f|)..], [c])]
  {
    var f := Fields(s, c);
    JoinFields(s, c);
    assert f[0..] == f;
    assert KeptFields(limit, |f|) == 0;
    assert LimitFields(s, c, limit) == [s];
  }

  lemma LimitStep(s: string, c: char, limit: nat, i: nat)
    requires limit > 1 && c in s && i == IndexOf(s, c)
    requires var g := Fields(s[i + 1..], c);
             LimitFields(s[i + 1..], c, limit - 1) == g[..KeptFields(limit - 1, |g|)] + [Join(g[KeptFields(limit - 1, |g|)..], [c])]
    ensures var f := Fields(s, c);
            LimitFields(s, c, limit) == f[..KeptFields(limit, |f|)] + [Join(f[KeptFields(limit, |f|)..], [c])]
  {
    var f := Fields(s, c);
    var g := Fields(s[i + 1..], c);
    assert f == [s[..i]] + g;
    var k' := KeptFields(limit - 1, |g|);
    assert KeptFields(limit, |f|) == k' + 1;
    ConsSlices(s[..i], g, k');
    assert LimitFields(s, c, limit) == [s[..i]] + LimitFields(s[i + 1..], c, limit - 1);
    var j := Join(g[k'..], [c]);
    assert [s[..i]] + (g[..k'] + [j]) == ([s[..i]] + g[..k']) + [j];
  }

  lemma ConsSlices<T>(x: T, g: seq<T>, k: nat)
    requires k <= |g|
    ensures ([x] + g)[..k + 1] == [x] + g[..k]
    ensures ([x] + g)[k + 1..] == g[k..]
  {
  }

  /** `s.split(c).last`, with the `nil` of an empty split read as "". */
  function LastField(s: string, c: char): string
  {
    var parts := Split(s, c);
    if |parts| == 0 then "" else parts[|parts| - 1]
  }

  /** The last field of `d c b` is `b` when `b` is a non-empty field. */
  lemma LastFieldOf(d: string, b: string, c: char)
    requires b != "" && c !in b
    ensures LastField(d + [c] + b, c) == b
    ensures Split(d + [c] + b, c) == Fields(d, c) + [b]
  {
    FieldsAppend(d, b, c);
    assert Fields(b, c) == [b];
  }

  /** A string without separators is its own last field, unless empty. */
  lemma LastFieldWhole(s: string, c: char)
    requires s != "" && c !in s
    ensures LastField(s, c) == s
  {
    assert Fields(s, c) == [s];
  }

  /** The characters Ruby's `String#strip` removes: NUL, tab, LF, VT, FF, CR, space. */
  predicate IsStripSpace(ch: char)
  {
    ch == '\0' || ch == '\t' || ch == '\n' || ch == '\U{000B}' ||
    ch == '\U{000C}' || ch == '\r' || ch == ' '
  }

  /** `s.strip.size > 0` is false. */
  predicate IsBlank(s: string)
  {
    forall i :: 0 <= i < |s| ==> IsStripSpace(s[i])
  }

  /** Ruby's `a < b` on strings: character-wise, a proper prefix first. */
  predicate LexLess(a: string, b: string)
    decreases |a|
  {
    if |b| == 0 then false
    else if |a| == 0 then true
    else if a[0] != b[0] then a[0] < b[0]
    else LexLess(a[1..], b[1..])
  }

  /** Comparing two strings that share a prefix compares what follows it. */
  lemma {:induction false} LexLessCommonPrefix(p: string, a: string, b: string)
    ensures LexLess(p + a, p + b) == LexLess(a, b)
    decreases |p|
  {
    if |p| > 0 {
      assert (p + a)[1..] == p[1..] + a;
      assert (p + b)[1..] == p[1..] + b;
      LexLessCommonPrefix(p[1..], a, b);
    } else {
      assert p + a == a && p + b == b;
    }
  }

  /** A string at least as long as `b` and nowhere below it is not before `b`. */
  lemma {:induction false} NotLexLessPointwise(a: string, b: string)
    requires |a| >= |b|
    requires forall k :: 0 <= k < |b| ==> a[k] >= b[k]
    ensures !LexLess(a, b)
    decreases |b|
  {
    if |b| > 0 && a[0] == b[0] {
      NotLexLessPointwise(a[1..], b[1..]);
    }
  }

  /** Two equally long strings that differ first at their first character are ordered by it. */
  lemma LexLessHead(a: string, b: string)
    requires |a| >= 1 && |b| >= 1 && a[0] != b[0]
    ensures LexLess(a, b) == (a[0] < b[0])
  {
  }

  predicate IsDigit(ch: char) { '0' <= ch <= '9' }

  function DigitChar(d: nat): (ch: char)
    requires d < 10
    ensures IsDigit(ch)
  {
    ['0', '1', '2', '3', '4', '5', '6', '7', '8', '9'][d]
  }

  function DigitValue(ch: char): (d: nat)
    requires IsDigit(ch)
    ensures d < 10
  {
    (ch as int - '0' as int) as nat
  }

  lemma DigitRoundTrip(d: nat)
    requires d < 10
    ensures DigitValue(DigitChar(d)) == d
  {
  }

  /** Digit characters are ordered as their values are. */
  lemma DigitOrder(d: nat, e: nat)
    requires d < 10 && e < 10
    ensures DigitChar(d) < DigitChar(e) <==> d < e
    ensures DigitChar(d) == DigitChar(e) <==> d == e
  {
  }

  predicate AllDigits(s: string)
  {
    forall i :: 0 <= i < |s| ==> IsDigit(s[i])
  }

  /** The value of a string of decimal digits. */
  function ParseDigits(s: string): nat
    requires AllDigits(s)
  {
    if |s| == 0 then 0 else 10 * ParseDigits(s[..|s| - 1]) + DigitValue(s[|s| - 1])
  }

  /** `n.to_s`: the decimal digits of `n`, with no leading zero. */
  function NatToString(n: nat): (r: string)
    ensures |r| >= 1 && AllDigits(r)
    ensures |r| > 1 ==> r[0] != '0'
  {
    if n < 10 then [DigitChar(n)]
    else NatToString(n / 10) + [DigitChar(n % 10)]
  }

  /** Reading back the decimal form of `n` gives `n`. */
  lemma {:induction false} NatToStringRoundTrip(n: nat)
    ensures ParseDigits(NatToString(n)) == n
  {
    var r := NatToString(n);
    if n < 10 {
      DigitRoundTrip(n);
    } else {
      NatToStringRoundTrip(n / 10);
      assert r[..|r| - 1] == NatToString(n / 10);
      DigitRoundTrip(n % 10);
    }
  }

  function Zeros(k: nat): (r: string)
    ensures |r| == k && forall i :: 0 <= i < k ==> r[i] == '0'
  {
    if k == 0 then "" else Zeros(k - 1) + "0"
  }

  /** `n` in decimal, left-padded with zeros to at least `width` characters (`%02d`, `%04d`). */
  function Pad(n: nat, width: nat): (r: string)
    ensures AllDigits(r)
    ensures |r| == if |NatToString(n)| < width then width else |NatToString(n)|
  {
    var digits := NatToString(n);
    if |digits| < width then Zeros(width - |digits|) + digits else digits
  }

  /** Two-digit padding of a number below 100 is its tens digit then its units digit. */
  lemma Pad2Digits(n: nat)
    requires n < 100
    ensures Pad(n, 2) == [DigitChar(n / 10), DigitChar(n % 10)]
  {
    if n >= 10 {
      assert NatToString(n / 10) == [DigitChar(n / 10)];
    }
  }

  /** Padding never changes the value the digits denote. */
  lemma {:induction false} PadRoundTrip(n: nat, width: nat)
    ensures ParseDigits(Pad(n, width)) == n
  {
    NatToStringRoundTrip(n);
    var digits := NatToString(n);
    if |digits| < width {
      assert Pad(n, width) == Zeros(width - |digits|) + digits;
      LeadingZeros(width - |digits|, digits);
    } else {
      assert Pad(n, width) == digits;
    }
  }

  lemma {:induction false} LeadingZeros(k: nat, s: string)
    requires AllDigits(s)
    ensures AllDigits(Zeros(k) + s)
    ensures ParseDigits(Zeros(k) + s) == ParseDigits(s)
    decreases |s|
  {
    var z := Zeros(k) + s;
    if |s| == 0 {
      assert z == Zeros(k);
      AllZeros(k);
    } else {
      assert z[..|z| - 1] == Zeros(k) + s[..|s| - 1];
      LeadingZeros(k, s[..|s| - 1]);
    }
  }

  lemma {:induction false} AllZeros(k: nat)
    ensures AllDigits(Zeros(k)) && ParseDigits(Zeros(k)) == 0
  {
    if k > 0 {
      var z := Zeros(k);
      assert z[..k - 1] == Zeros(k - 1);
      AllZeros(k - 1);
    }
  }
}
