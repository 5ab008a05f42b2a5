/** The handful of Python string operations the script relies on, each
    given its own definition and the property that pins it down:
    `str.split` / `str.join`, the `in` substring test, `str(int)` and
    `str.strip()`. */
module Text {

  // ---------------------------------------------------------------------
  // `sub in s`
  // ---------------------------------------------------------------------

  /** `sub` occurs in `s` starting at index `i`. */
  predicate OccursAt(s: string, sub: string, i: int) {
    0 <= i && i + |sub| <= |s| && s[i..i + |sub|] == sub
  }

  /** Python's `sub in s` on strings: `sub` occurs somewhere in `s`. */
  function Contains(s: string, sub: string): (r: bool)
    ensures r <==> exists i :: OccursAt(s, sub, i)
    decreases |s|
  {
    if sub <= s then
      assert OccursAt(s, sub, 0);
      true
    else if s == [] then
      assert forall i :: !OccursAt(s, sub, i);
      false
    else
      var rest := Contains(s[1..], sub);
      if rest then
        var j :| OccursAt(s[1..], sub, j);
        assert OccursAt(s, sub, j + 1);
        true
      else
        assert forall i :: OccursAt(s, sub, i) ==> i >= 1 && OccursAt(s[1..], sub, i - 1);
        false
  }

  // ---------------------------------------------------------------------
  // `sep.join(parts)` and `s.split(sep)`
  // ---------------------------------------------------------------------

  /** Python's `sep.join(parts)`: the parts with one `sep` between each
      neighbouring pair. The result is empty exactly when every part is
      empty and no separator is written (there are at most one part, or the
      separator is itself empty). */
  function Join(parts: seq<string>, sep: string): (r: string)
    ensures r == "" <==> (forall i :: 0 <= i < |parts| ==> parts[i] == "") && (|parts| <= 1 || sep == "")
    ensures |parts| > 0 ==> parts[0] <= r
  {
    if |parts| == 0 then ""
    else if |parts| == 1 then parts[0]
    else
      var tail := Join(parts[1..], sep);
      assert forall i :: 1 <= i < |parts| ==> parts[i] == parts[1..][i - 1];
      parts[0] + sep + tail
  }

  /** Joining a concatenation puts exactly one separator at the seam. */
  lemma {:induction false} JoinAppend(a: seq<string>, b: seq<string>, sep: string)
    requires a != [] && b != []
    ensures Join(a + b, sep) == Join(a, sep) + sep + Join(b, sep)
  {
    if |a| == 1 {
      assert a + b == [a[0]] + b;
      assert (a + b)[1..] == b;
    } else {
      assert (a + b)[1..] == a[1..] + b;
      JoinAppend(a[1..], b, sep);
    }
  }

  /** Inserting one part into a list lengthens the joined string by that
      part and, unless the list was empty, one separator. */
  lemma JoinInsert(pre: seq<string>, b: string, post: seq<string>, sep: string)
    ensures |Join(pre + [b] + post, sep)| == |Join(pre + post, sep)| + |b| + (if pre + post == [] then 0 else |sep|)
  {
    if pre == [] && post == [] {
      assert pre + [b] + post == [b];
    } else if pre == [] {
      assert pre + [b] + post == [b] + post && pre + post == post;
      JoinAppend([b], post, sep);
    } else if post == [] {
      assert pre + [b] + post == pre + [b] && pre + post == pre;
      JoinAppend(pre, [b], sep);
    } else {
      assert pre + [b] + post == pre + ([b] + post);
      JoinAppend(pre, [b] + post, sep);
      JoinAppend([b], post, sep);
      JoinAppend(pre, post, sep);
    }
  }

  /** Python's `s.split(c)` for a one-character separator `c`: the maximal
      runs between occurrences of `c`, always at least one piece (possibly
      empty), no piece containing `c`. */
  function Split(s: string, c: char): (r: seq<string>)
    ensures |r| >= 1
    ensures forall i :: 0 <= i < |r| ==> c !in r[i]
  {
    if s == [] then [""]
    else
      var rest := Split(s[1..], c);
      if s[0] == c then
        [""] + rest
      else
        assert forall i :: 1 <= i < |rest| ==> ([[s[0]] + rest[0]] + rest[1..])[i] == rest[i];
        [[s[0]] + rest[0]] + rest[1..]
  }

  /** Splitting loses nothing: joining the pieces back with the separator
      gives the original string. */
  lemma {:induction false} SplitJoin(s: string, c: char)
    ensures Join(Split(s, c), [c]) == s
  {
    if s != [] {
      var rest := Split(s[1..], c);
      SplitJoin(s[1..], c);
      if s[0] == c {
        assert ([""] + rest)[1..] == rest;
      } else {
        var r := [[s[0]] + rest[0]] + rest[1..];
        if |rest| > 1 {
          assert r[1..] == rest[1..];
        }
      }
    }
  }

  /** A character other than the separator at the front joins the first
      piece. */
  lemma SplitCons(ch: char, rest: string, c: char)
    requires ch != c
    ensures var pieces := Split(rest, c);
      Split([ch] + rest, c) == [[ch] + pieces[0]] + pieces[1..]
  {
    assert ([ch] + rest)[1..] == rest;
  }

  /** Taking the first character off the first piece takes it off the
      joined string. */
  lemma JoinCons(parts: seq<string>, sep: string)
    requires |parts| >= 1 && parts[0] != []
    ensures var p := parts[0];
      Join(parts, sep) == [p[0]] + Join([p[1..]] + parts[1..], sep)
  {
    var p := parts[0];
    var shorter := [p[1..]] + parts[1..];
    assert shorter[1..] == parts[1..];
    assert [p[0]] + p[1..] == p;
  }

  /** Joining pieces free of the separator and splitting again gives the
      pieces back: `split` and `join` are inverse on such lists. */
  lemma {:induction false} JoinSplit(parts: seq<string>, c: char)
    requires |parts| >= 1
    requires forall i :: 0 <= i < |parts| ==> c !in parts[i]
    ensures Split(Join(parts, [c]), c) == parts
    decreases |parts|, |parts[0]|
  {
    var p := parts[0];
    if p == [] {
      if |parts| > 1 {
        JoinSplit(parts[1..], c);
        assert Join(parts, [c]) == [c] + Join(parts[1..], [c]);
        assert [""] + parts[1..] == parts;
      }
    } else {
      var shorter := [p[1..]] + parts[1..];
      JoinCons(parts, [c]);
      assert p[0] != c by { assert p[0] in p; }
      assert forall i :: 0 <= i < |shorter| ==> c !in shorter[i] by {
        assert shorter[0] == p[1..] && forall x :: x in p[1..] ==> x in p;
        assert forall i :: 1 <= i < |shorter| ==> shorter[i] == parts[i];
      }
      JoinSplit(shorter, c);
      SplitCons(p[0], Join(shorter, [c]), c);
      assert [p[0]] + p[1..] == p;
      assert shorter[1..] == parts[1..];
      assert [[p[0]] + shorter[0]] + shorter[1..] == parts;
    }
  }

  // ---------------------------------------------------------------------
  // `str(n)` for a Python int, and its inverse
  // ---------------------------------------------------------------------

  predicate IsDigit(ch: char) {
    '0' <= ch <= '9'
  }

  function DigitChar(d: nat): (ch: char)
    requires d < 10
    ensures IsDigit(ch)
  {
    "0123456789"[d]
  }

  /** Decimal digits of `n`, most significant first, with no leading zero
      (`str(n)` for `n >= 0`). */
  function NatToString(n: nat): (r: string)
    ensures |r| >= 1
    ensures forall i :: 0 <= i < |r| ==> IsDigit(r[i])
    ensures r[0] == '0' ==> n == 0
  {
    if n < 10 then [DigitChar(n)]
    else NatToString(n / 10) + [DigitChar(n % 10)]
  }

  /** Python's `str(n)` for any int: a minus sign before the digits of a
      negative number. */
  function IntToString(n: int): (r: string)
    ensures |r| >= 1
    ensures (r[0] == '-') <==> n < 0
    ensures forall i :: 0 <= i < |r| ==> IsDigit(r[i]) || (i == 0 && r[i] == '-')
  {
    if n < 0 then
      var digits := NatToString(-n);
      var r := "-" + digits;
      assert forall i :: 1 <= i < |r| ==> r[i] == digits[i - 1];
      r
    else NatToString(n)
  }

  /** The value of a string of decimal digits (Python's `int(s)` on such a
      string). */
  function ParseNat(s: string): nat
    requires forall i :: 0 <= i < |s| ==> IsDigit(s[i])
  {
    if s == [] then 0
    else
      var last := s[|s| - 1];
      assert IsDigit(last);
      ParseNat(s[..|s| - 1]) * 10 + (last as int - '0' as int)
  }

  /** Python's `int(s)` on the strings `str` produces. */
  function ParseInt(s: string): int
    requires |s| >= 1
    requires forall i :: 0 <= i < |s| ==> IsDigit(s[i]) || (i == 0 && s[i] == '-')
  {
    if s[0] == '-' then 0 - ParseNat(s[1..]) else ParseNat(s)
  }

  lemma {:induction false} ParseNatToString(n: nat)
    ensures ParseNat(NatToString(n)) == n
  {
    if n >= 10 {
      var r := NatToString(n);
      var d := n % 10;
      assert r[..|r| - 1] == NatToString(n / 10) && r[|r| - 1] == DigitChar(d);
      assert DigitChar(d) as int - '0' as int == d;
      ParseNatToString(n / 10);
    } else {
      assert DigitChar(n) as int - '0' as int == n;
    }
  }

  /** A minus sign before a string of digits reads back as the negated
      value of the digits. */
  lemma ParseNegative(digits: string)
    requires |digits| >= 1 && forall i :: 0 <= i < |digits| ==> IsDigit(digits[i])
    ensures var r := "-" + digits;
      (forall i :: 0 <= i < |r| ==> IsDigit(r[i]) || (i == 0 && r[i] == '-'))
      && ParseInt(r) == 0 - ParseNat(digits)
  {
    var r := "-" + digits;
    assert r[1..] == digits;
  }

  /** `int(str(n)) == n`. */
  lemma IntToStringRoundTrip(n: int)
    ensures ParseInt(IntToString(n)) == n
  {
    if n < 0 {
      var digits := NatToString(-n);
      assert IntToString(n) == "-" + digits;
      ParseNegative(digits);
      ParseNatToString(-n);
    } else {
      var digits := NatToString(n);
      assert IntToString(n) == digits && digits[0] != '-';
      ParseNatToString(n);
    }
  }

  /** Different numbers print differently. */
  lemma IntToStringInjective(m: int, n: int)
    requires IntToString(m) == IntToString(n)
    ensures m == n
  {
    IntToStringRoundTrip(m);
    IntToStringRoundTrip(n);
  }

  // ---------------------------------------------------------------------
  // `s.strip()`
  // ---------------------------------------------------------------------

  /** Python's `str.isspace()` for one character: the ASCII whitespace
      and separator controls and the Unicode space separators. */
  predicate IsSpace(ch: char) {
    ch == ' ' || ('\t' <= ch <= '\r') || ('\U{1c}' <= ch <= '\U{1f}')
    || ch == '\U{85}' || ch == '\U{a0}' || ch == '\U{1680}'
    || ('\U{2000}' <= ch <= '\U{200a}') || ch == '\U{2028}' || ch == '\U{2029}'
    || ch == '\U{202f}' || ch == '\U{205f}' || ch == '\U{3000}'
  }

  /** `s.lstrip()`: the suffix of `s` left after its leading whitespace. */
  function StripStart(s: string): (r: string)
    ensures |r| <= |s| && r == s[|s| - |r|..]
    ensures forall i :: 0 <= i < |s| - |r| ==> IsSpace(s[i])
    ensures r == [] || !IsSpace(r[0])
  {
    if s != [] && IsSpace(s[0]) then StripStart(s[1..]) else s
  }

  /** `s.rstrip()`: the prefix of `s` left after its trailing whitespace. */
  function StripEnd(s: string): (r: string)
    ensures |r| <= |s| && r == s[..|r|]
    ensures forall i :: |r| <= i < |s| ==> IsSpace(s[i])
    ensures r == [] || !IsSpace(r[|r| - 1])
  {
    if s != [] && IsSpace(s[|s| - 1]) then StripEnd(s[..|s| - 1]) else s
  }

  /** Cutting `s` to `s[i..j]` removes only whitespace. */
  predicate CutsOnlySpace(s: string, i: int, j: int) {
    && 0 <= i <= j <= |s|
    && (forall k :: 0 <= k < i ==> IsSpace(s[k]))
    && (forall k :: j <= k < |s| ==> IsSpace(s[k]))
  }

  /** `s.strip()`: the middle of `s` once leading and trailing whitespace
      are cut off; what is cut off is all whitespace and what is left
      neither starts nor ends with whitespace. */
  function Strip(s: string): (r: string)
    ensures exists i, j :: CutsOnlySpace(s, i, j) && r == s[i..j]
    ensures r == [] || (!IsSpace(r[0]) && !IsSpace(r[|r| - 1]))
  {
    var t := StripStart(s);
    var r := StripEnd(t);
    StripCuts(s, t, r);
    r
  }

  lemma StripCuts(s: string, t: string, r: string)
    requires |t| <= |s| && t == s[|s| - |t|..]
    requires forall k :: 0 <= k < |s| - |t| ==> IsSpace(s[k])
    requires |r| <= |t| && r == t[..|r|]
    requires forall k :: |r| <= k < |t| ==> IsSpace(t[k])
    ensures CutsOnlySpace(s, |s| - |t|, |s| - |t| + |r|)
    ensures r == s[|s| - |t|..|s| - |t| + |r|]
  {
    var i := |s| - |t|;
    forall k | i + |r| <= k < |s| ensures IsSpace(s[k]) {
      assert s[k] == t[k - i];
    }
  }

  /** Stripping twice is stripping once. */
  lemma StripIdempotent(s: string)
    ensures Strip(Strip(s)) == Strip(s)
  {
    var r := Strip(s);
    if r != [] {
      assert StripStart(r) == r;
      assert StripEnd(r) == r;
    }
  }
}
