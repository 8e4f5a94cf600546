/**
 * String and sequence helpers that the client's expressions rely on: JavaScript's
 * decimal rendering of integers, `String.prototype.split('/')` and `Array.prototype.join('/')`,
 * the `/\/$/` and `/\d/` regular expressions, `toLowerCase` as far as it matters here, and
 * the first-seen ordering that JavaScript gives to the keys of a plain object.
 */
module Text {

  predicate IsDigit(c: char) { '0' <= c <= '9' }

  predicate AllDigits(s: string) { forall i :: 0 <= i < |s| ==> IsDigit(s[i]) }

  function DigitChar(d: nat): (c: char)
    requires d < 10
    ensures IsDigit(c) && c as int - '0' as int == d
  {
    ('0' as int + d) as char
  }

  /** Decimal rendering of a natural number, as `String(n)` gives it for integers. */
  function NatToString(n: nat): (s: string)
    ensures |s| > 0 && AllDigits(s)
  {
    if n < 10 then [DigitChar(n)] else NatToString(n / 10) + [DigitChar(n % 10)]
  }

  /** Reads a string of decimal digits back as a number. */
  function ParseNat(s: string): nat
    requires AllDigits(s)
  {
    if s == [] then 0 else ParseNat(s[..|s| - 1]) * 10 + (s[|s| - 1] as int - '0' as int)
  }

  /** Rendering then reading gives the number back. */
  lemma {:induction false} ParseNatToString(n: nat)
    ensures ParseNat(NatToString(n)) == n
  {
    var s := NatToString(n);
    if n >= 10 {
      ParseNatToString(n / 10);
      assert s[..|s| - 1] == NatToString(n / 10);
    }
  }

  /** Two different numbers never render to the same digits. */
  lemma NatToStringInjective(a: nat, b: nat)
    requires NatToString(a) == NatToString(b)
    ensures a == b
  {
    ParseNatToString(a);
    ParseNatToString(b);
  }

  /** `String(n)` for an integer-valued JavaScript number. */
  function IntToString(i: int): (s: string)
    ensures |s| > 0
    ensures i >= 0 ==> AllDigits(s)
    ensures i < 0 ==> s[0] == '-' && AllDigits(s[1..])
  {
    if i < 0 then "-" + NatToString(-i) else NatToString(i)
  }

  /** True iff the regular expression `/\d/` finds a match in `s`. */
  predicate HasDigit(s: string) { exists i :: 0 <= i < |s| && IsDigit(s[i]) }

  /** The number of `/` characters in `s`. */
  function SlashCount(s: string): nat
  {
    if s == [] then 0 else (if s[0] == '/' then 1 else 0) + SlashCount(s[1..])
  }

  /** `s.split('/')`: the pieces between the slashes, always at least one. */
  function Split(s: string): (parts: seq<string>)
    ensures |parts| == SlashCount(s) + 1
    ensures forall i :: 0 <= i < |parts| ==> '/' !in parts[i]
  {
    if s == [] then [""]
    else if s[0] == '/' then [""] + Split(s[1..])
    else
      var rest := Split(s[1..]);
      [[s[0]] + rest[0]] + rest[1..]
  }

  /** `parts.join('/')`. */
  function Join(parts: seq<string>): string
  {
    if parts == [] then ""
    else if |parts| == 1 then parts[0]
    else parts[0] + "/" + Join(parts[1..])
  }

  /** Joining the pieces of a split gives the original string back. */
  lemma {:induction false} JoinSplit(s: string)
    ensures Join(Split(s)) == s
  {
    if s != [] {
      JoinSplit(s[1..]);
      var rest := Split(s[1..]);
      if s[0] == '/' {
        assert Split(s) == [""] + rest;
        assert Join(Split(s)) == "" + "/" + Join(rest);
      } else {
        JoinPrepend(s[0], rest);
      }
    }
  }

  /** Prefixing the first piece with a character prefixes the joined string with it. */
  lemma JoinPrepend(c: char, parts: seq<string>)
    requires parts != []
    ensures Join([[c] + parts[0]] + parts[1..]) == [c] + Join(parts)
  {
    var ps := [[c] + parts[0]] + parts[1..];
    assert ps[1..] == parts[1..];
  }

  /** Joining pieces is joining all but the last, a slash, and the last. */
  lemma {:induction false} JoinSnoc(parts: seq<string>)
    requires |parts| >= 2
    ensures Join(parts) == Join(parts[..|parts| - 1]) + "/" + parts[|parts| - 1]
  {
    var init := parts[..|parts| - 1];
    if |parts| > 2 {
      JoinSnoc(parts[1..]);
      assert parts[1..][..|parts| - 2] == init[1..];
    }
  }

  /** A string without a slash splits into itself. */
  lemma {:induction false} SplitNoSlash(s: string)
    requires '/' !in s
    ensures Split(s) == [s]
  {
    if s != [] {
      assert '/' !in s[1..] by {
        assert forall c :: c in s[1..] ==> c in s;
      }
      SplitNoSlash(s[1..]);
      assert [s[0]] + s[1..] == s;
    }
  }

  /** Appending a slash and a slash-free piece appends one piece to the split. */
  lemma {:induction false} SplitSlashAppend(x: string, seg: string)
    requires '/' !in seg
    ensures Split(x + "/" + seg) == Split(x) + [seg]
  {
    var s := x + "/" + seg;
    if x == [] {
      assert s == "/" + seg && s[1..] == seg;
      SplitNoSlash(seg);
    } else {
      assert s[1..] == x[1..] + "/" + seg;
      SplitSlashAppend(x[1..], seg);
      if x[0] != '/' {
        var rest := Split(x[1..]);
        assert rest != [];
        assert (rest + [seg])[0] == rest[0] && (rest + [seg])[1..] == rest[1..] + [seg];
      }
    }
  }

  /** `s.replace(/\/$/, '')`: one trailing slash removed, if there is one. */
  function StripTrailingSlash(s: string): (r: string)
    ensures |r| <= |s| && r == s[..|r|]
  {
    if s != [] && s[|s| - 1] == '/' then s[..|s| - 1] else s
  }

  function LowerAsciiChar(c: char): char
  {
    if 'A' <= c <= 'Z' then (c as int + 32) as char else c
  }

  /**
   * `s.toLowerCase()` restricted to ASCII letters. No other character lower-cases to one of
   * the ASCII letters of "infinity", so comparing the result with "infinity" decides the same
   * strings as JavaScript does.
   */
  function LowerAscii(s: string): (r: string)
    ensures |r| == |s|
    ensures forall i :: 0 <= i < |s| ==> r[i] == LowerAsciiChar(s[i])
  {
    if s == [] then [] else [LowerAsciiChar(s[0])] + LowerAscii(s[1..])
  }

  /** True iff `s` begins with `p`. */
  predicate StartsWith(s: string, p: string) { |p| <= |s| && s[..|p|] == p }

  /** True iff `s` ends with `p`. */
  predicate EndsWith(s: string, p: string) { |p| <= |s| && s[|s| - |p|..] == p }

  predicate Distinct(xs: seq<string>) { forall i, j :: 0 <= i < j < |xs| ==> xs[i] != xs[j] }

  /**
   * The distinct elements of `xs` in order of first occurrence: the order in which
   * JavaScript enumerates the (non-index) keys of an object filled from `xs`.
   */
  function FirstSeen(xs: seq<string>): (r: seq<string>)
    ensures Distinct(r)
    ensures forall x :: x in r <==> x in xs
  {
    if xs == [] then []
    else
      var f := FirstSeen(xs[..|xs| - 1]);
      var x := xs[|xs| - 1];
      assert forall y :: y in xs <==> y in xs[..|xs| - 1] || y == x;
      if x in f then f else f + [x]
  }

  /** A list without repeats is its own first-seen order. */
  lemma {:induction false} FirstSeenDistinct(xs: seq<string>)
    requires Distinct(xs)
    ensures FirstSeen(xs) == xs
  {
    if xs != [] {
      var pre := xs[..|xs| - 1];
      assert Distinct(pre);
      FirstSeenDistinct(pre);
      assert xs[|xs| - 1] !in pre;
      assert pre + [xs[|xs| - 1]] == xs;
    }
  }

  /** A key comes before another in first-seen order iff its first occurrence is earlier. */
  lemma {:induction false} FirstSeenOrder(xs: seq<string>, i: nat, j: nat)
    requires i < j < |FirstSeen(xs)|
    ensures exists a :: 0 <= a < |xs| && xs[a] == FirstSeen(xs)[i] &&
                         forall b :: 0 <= b <= a ==> xs[b] != FirstSeen(xs)[j]
  {
    var pre := xs[..|xs| - 1];
    var f := FirstSeen(pre);
    var fi := FirstSeen(xs)[i];
    var fj := FirstSeen(xs)[j];
    if j < |f| {
      FirstSeenOrder(pre, i, j);
      var a :| 0 <= a < |pre| && pre[a] == f[i] && forall b :: 0 <= b <= a ==> pre[b] != f[j];
      assert xs[a] == fi;
      assert forall b :: 0 <= b <= a ==> xs[b] == pre[b];
    } else {
      assert fj == xs[|xs| - 1] && fj !in f;
      assert fi in pre;
      var a :| 0 <= a < |pre| && pre[a] == fi;
      forall b | 0 <= b <= a ensures xs[b] != fj {
        assert xs[b] == pre[b];
      }
    }
  }

  /** `xs` with every occurrence of `x` removed. */
  function Without(xs: seq<string>, x: string): (r: seq<string>)
    ensures forall y :: y in r <==> y in xs && y != x
    ensures Distinct(xs) ==> Distinct(r)
  {
    if xs == [] then []
    else
      var rest := Without(xs[1..], x);
      assert forall y :: y in xs <==> y == xs[0] || y in xs[1..];
      assert Distinct(xs) ==> xs[0] !in xs[1..] by {
        if Distinct(xs) {
          forall j | 0 <= j < |xs[1..]| ensures xs[1..][j] != xs[0] {
            assert xs[1..][j] == xs[j + 1];
          }
        }
      }
      if xs[0] == x then rest else [xs[0]] + rest
  }

  /** Concatenation of a sequence of strings. */
  function Concat(parts: seq<string>): string
  {
    if parts == [] then "" else Concat(parts[..|parts| - 1]) + parts[|parts| - 1]
  }
}
