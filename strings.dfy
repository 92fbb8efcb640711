/** The Python string operations that JavaRead.py relies on, over `string`
    (= seq<char>): `str.isspace`/`str.strip`, `str.split(sep)`,
    `sep.join(parts)`, the substring test `p in s`, and `str(n)` on integers.
    Each operation comes with an independent characterisation or an inverse. */
module PyStrings {

  /** Python's `str.isspace()` on one character (the Unicode White_Space
      characters plus the four ASCII information separators). */
  predicate IsSpace(c: char) {
    ('\U{9}' <= c <= '\U{D}') || ('\U{1C}' <= c <= '\U{20}')
    || c == '\U{85}' || c == '\U{A0}' || c == '\U{1680}'
    || ('\U{2000}' <= c <= '\U{200A}')
    || c == '\U{2028}' || c == '\U{2029}' || c == '\U{202F}'
    || c == '\U{205F}' || c == '\U{3000}'
  }

  predicate AllSpace(s: string) {
    forall k :: 0 <= k < |s| ==> IsSpace(s[k])
  }

  /** The end of the whitespace run that starts `s`, scanning from `i`. */
  function LeadingSpaceEnd(s: string, i: nat): (n: nat)
    requires i <= |s| && AllSpace(s[..i])
    ensures i <= n <= |s| && AllSpace(s[..n])
    ensures n == |s| || !IsSpace(s[n])
    decreases |s| - i
  {
    if i < |s| && IsSpace(s[i]) then
      assert s[..i + 1] == s[..i] + [s[i]];
      LeadingSpaceEnd(s, i + 1)
    else i
  }

  /** `s.lstrip()`: the longest suffix of `s` that does not start with whitespace. */
  function TrimLeft(s: string): (r: string)
    ensures |r| <= |s| && r == s[|s| - |r|..]
    ensures AllSpace(s[..|s| - |r|])
    ensures r == [] || !IsSpace(r[0])
  {
    s[LeadingSpaceEnd(s, 0)..]
  }

  /** `s.rstrip()`: the longest prefix of `s` that does not end with whitespace. */
  function TrimRight(s: string): (r: string)
    ensures |r| <= |s| && r == s[..|r|]
    ensures AllSpace(s[|r|..])
    ensures r == [] || !IsSpace(r[|r| - 1])
  {
    if s != [] && IsSpace(s[|s| - 1]) then
      var r := TrimRight(s[..|s| - 1]);
      assert s[..|s| - 1][|r|..] == s[|r|..|s| - 1];
      assert s[|r|..] == s[|r|..|s| - 1] + [s[|s| - 1]];
      r
    else s
  }

  /** `s.strip()`. */
  function Strip(s: string): string {
    TrimRight(TrimLeft(s))
  }

  /** `r` is `s` with the whitespace-only prefix `s[..i]` and a
      whitespace-only suffix removed. */
  predicate StrippedAt(s: string, i: int, r: string) {
    0 <= i <= |s| - |r| && s[i..i + |r|] == r && AllSpace(s[..i]) && AllSpace(s[i + |r|..])
  }

  /** `s.strip()` removes whitespace, and only whitespace, from both ends:
      the result is empty exactly when `s` is whitespace only, and otherwise
      neither starts nor ends with whitespace. */
  lemma StripSpec(s: string)
    ensures exists i :: StrippedAt(s, i, Strip(s))
    ensures Strip(s) == [] <==> AllSpace(s)
    ensures Strip(s) != [] ==> !IsSpace(Strip(s)[0]) && !IsSpace(Strip(s)[|Strip(s)| - 1])
  {
    var l := TrimLeft(s);
    var r := Strip(s);
    var i := |s| - |l|;
    assert r == l[..|r|];
    assert s[i..] == l;
    assert s[i..i + |r|] == r;
    assert s[i + |r|..] == l[|r|..];
    assert StrippedAt(s, i, r);
    if r == [] {
      assert l[0..] == l;
      assert l == [];
      assert s[..i] == s;
    } else {
      assert s[i] == r[0];
    }
    if AllSpace(s) {
      assert l == [];
    }
  }

  /** Stripping adds no character: one absent from `s` is absent from `s.strip()`. */
  lemma StripKeepsAbsent(s: string, c: char)
    requires c !in s
    ensures c !in Strip(s)
  {
    StripSpec(s);
    var i :| StrippedAt(s, i, Strip(s));
    assert Strip(s) == s[i..i + |Strip(s)|];
  }

  /** `s.split(sep)` for a one-character separator: the maximal
      separator-free pieces, including empty ones; never the empty list. */
  function Split(s: string, sep: char): (r: seq<string>)
    ensures |r| >= 1
  {
    if s == [] then [""]
    else if s[0] == sep then [""] + Split(s[1..], sep)
    else
      var t := Split(s[1..], sep);
      [[s[0]] + t[0]] + t[1..]
  }

  /** Each piece of `s.split(sep)` is free of `sep` and made of characters of `s`. */
  lemma {:induction false} SplitPieces(s: string, sep: char)
    ensures forall i, k :: 0 <= i < |Split(s, sep)| && 0 <= k < |Split(s, sep)[i]| ==>
              Split(s, sep)[i][k] != sep && Split(s, sep)[i][k] in s
  {
    if s != [] {
      SplitPieces(s[1..], sep);
      var t := Split(s[1..], sep);
      if s[0] != sep {
        assert forall k :: 0 <= k < |[s[0]] + t[0]| ==> ([s[0]] + t[0])[k] == if k == 0 then s[0] else t[0][k - 1];
      }
    }
  }

  /** `sep.join(parts)`. */
  function Join(parts: seq<string>, sep: string): string {
    if parts == [] then ""
    else if |parts| == 1 then parts[0]
    else parts[0] + sep + Join(parts[1..], sep)
  }

  /** Joining the pieces of a split with the same separator gives back the
      original string. */
  lemma {:induction false} JoinSplit(s: string, sep: char)
    ensures Join(Split(s, sep), [sep]) == s
  {
    if s == [] {
    } else if s[0] == sep {
      JoinSplit(s[1..], sep);
      assert s == [sep] + s[1..];
    } else {
      var t := Split(s[1..], sep);
      JoinSplit(s[1..], sep);
      if |t| == 1 {
        assert s == [s[0]] + t[0];
      } else {
        calc {
          Join(Split(s, sep), [sep]);
          ([s[0]] + t[0]) + [sep] + Join(t[1..], [sep]);
          [s[0]] + (t[0] + [sep] + Join(t[1..], [sep]));
          [s[0]] + s[1..];
        }
      }
    }
  }

  /** The pieces of `a + b` from the pieces of `a` and of `b`: the last piece
      of `a` and the first piece of `b` become one. */
  function Fuse(x: seq<string>, y: seq<string>): (r: seq<string>)
    requires |x| >= 1 && |y| >= 1
    ensures |r| == |x| + |y| - 1
  {
    x[..|x| - 1] + [x[|x| - 1] + y[0]] + y[1..]
  }

  lemma FuseHead(w: string, t: seq<string>, y: seq<string>)
    requires |t| >= 1 && |y| >= 1
    ensures Fuse([w + t[0]] + t[1..], y) == [w + Fuse(t, y)[0]] + Fuse(t, y)[1..]
  {
    var x := [w + t[0]] + t[1..];
    if |t| == 1 {
      assert x == [w + t[0]];
      assert Fuse(x, y) == [(w + t[0]) + y[0]] + y[1..];
      assert Fuse(t, y) == [t[0] + y[0]] + y[1..];
      assert (w + t[0]) + y[0] == w + (t[0] + y[0]);
    } else {
      assert x[..|x| - 1] == [w + t[0]] + t[1..|t| - 1];
      assert Fuse(t, y)[0] == t[0];
      assert Fuse(t, y)[1..] == t[1..|t| - 1] + [t[|t| - 1] + y[0]] + y[1..];
    }
  }

  /** Splitting a concatenation: the last piece of `a` fuses with the first
      piece of `b`. */
  lemma {:induction false} SplitAppend(a: string, b: string, sep: char)
    ensures Split(a + b, sep) == Fuse(Split(a, sep), Split(b, sep))
  {
    if a == [] {
      var sb := Split(b, sep);
      assert a + b == b;
      assert sb == [sb[0]] + sb[1..];
      assert "" + sb[0] == sb[0];
      assert Fuse([""], sb) == ["" + sb[0]] + sb[1..];
    } else {
      SplitAppend(a[1..], b, sep);
      assert (a + b)[0] == a[0] && (a + b)[1..] == a[1..] + b;
      if a[0] == sep {
        SplitAppendSep(a, b, sep);
      } else {
        SplitAppendChar(a, b, sep);
      }
    }
  }

  lemma SplitAppendSep(a: string, b: string, sep: char)
    requires a != [] && a[0] == sep
    requires (a + b)[0] == a[0] && (a + b)[1..] == a[1..] + b
    requires Split(a[1..] + b, sep) == Fuse(Split(a[1..], sep), Split(b, sep))
    ensures Split(a + b, sep) == Fuse(Split(a, sep), Split(b, sep))
  {
    var t := Split(a[1..], sep);
    var u := Split(a[1..] + b, sep);
    assert Split(a + b, sep) == [""] + u;
    assert Split(a, sep) == [""] + t;
    FuseCons("", t, Split(b, sep));
  }

  lemma FuseCons(w: string, t: seq<string>, y: seq<string>)
    requires |t| >= 1 && |y| >= 1
    ensures Fuse([w] + t, y) == [w] + Fuse(t, y)
  {
    var x := [w] + t;
    assert x[..|x| - 1] == [w] + t[..|t| - 1];
    assert x[|x| - 1] == t[|t| - 1];
  }

  lemma SplitAppendChar(a: string, b: string, sep: char)
    requires a != [] && a[0] != sep
    requires (a + b)[0] == a[0] && (a + b)[1..] == a[1..] + b
    requires Split(a[1..] + b, sep) == Fuse(Split(a[1..], sep), Split(b, sep))
    ensures Split(a + b, sep) == Fuse(Split(a, sep), Split(b, sep))
  {
    var t := Split(a[1..], sep);
    var u := Split(a[1..] + b, sep);
    assert Split(a + b, sep) == [[a[0]] + u[0]] + u[1..];
    assert Split(a, sep) == [[a[0]] + t[0]] + t[1..];
    FuseHead([a[0]], t, Split(b, sep));
  }

  /** A separator-free string splits into itself alone. */
  lemma {:induction false} SplitNoSep(s: string, sep: char)
    requires sep !in s
    ensures Split(s, sep) == [s]
  {
    if s != [] {
      assert sep !in s[1..];
      SplitNoSep(s[1..], sep);
      assert s == [s[0]] + s[1..];
    }
  }

  /** A separator-free string followed by the separator splits into the
      string and an empty last piece. */
  lemma SplitEndSep(s: string, sep: char)
    requires sep !in s
    ensures Split(s + [sep], sep) == [s, ""]
  {
    SplitNoSep(s, sep);
    assert Split([sep], sep) == ["", ""] by {
      assert [sep][1..] == [];
    }
    SplitAppend(s, [sep], sep);
    assert s + "" == s;
    assert Fuse([s], ["", ""]) == [s, ""];
  }

  /** Splitting a join of separator-free pieces gives back the pieces. */
  lemma {:induction false} SplitJoin(parts: seq<string>, sep: char)
    requires |parts| >= 1
    requires forall i :: 0 <= i < |parts| ==> sep !in parts[i]
    ensures Split(Join(parts, [sep]), sep) == parts
  {
    if |parts| == 1 {
      SplitNoSep(parts[0], sep);
    } else {
      var p, rest := parts[0], parts[1..];
      SplitJoin(rest, sep);
      SplitEndSep(p, sep);
      SplitAppend(p + [sep], Join(rest, [sep]), sep);
      assert Join(parts, [sep]) == p + [sep] + Join(rest, [sep]);
      assert "" + rest[0] == rest[0];
      assert parts == [p] + [rest[0]] + rest[1..];
    }
  }

  /** The substring test `p in s`: `p` occurs at some position of `s`. */
  predicate Contains(s: string, p: string) {
    p <= s || (s != [] && Contains(s[1..], p))
  }

  /** `p` occurs in `s` starting at index `i`. */
  predicate OccursAt(s: string, p: string, i: int) {
    0 <= i <= |s| - |p| && s[i..i + |p|] == p
  }

  /** `p in s` agrees with the positional definition of a substring. */
  lemma {:induction false} ContainsAt(s: string, p: string)
    ensures Contains(s, p) <==> exists i :: OccursAt(s, p, i)
  {
    if p <= s {
      assert OccursAt(s, p, 0);
    }
    if s == [] {
      if exists i :: OccursAt(s, p, i) {
        var i :| OccursAt(s, p, i);
        assert p <= s;
      }
    } else {
      ContainsAt(s[1..], p);
      if Contains(s[1..], p) {
        var i :| OccursAt(s[1..], p, i);
        assert s[1..][i..i + |p|] == s[i + 1..i + 1 + |p|];
        assert OccursAt(s, p, i + 1);
      }
      if exists i :: OccursAt(s, p, i) {
        var i :| OccursAt(s, p, i);
        if i > 0 {
          assert s[1..][i - 1..i - 1 + |p|] == s[i..i + |p|];
          assert OccursAt(s[1..], p, i - 1);
        } else {
          assert p <= s;
        }
      }
    }
  }

  function DigitChar(d: nat): (c: char)
    requires d < 10
    ensures '0' <= c <= '9'
  {
    "0123456789"[d]
  }

  function DigitValue(c: char): nat {
    if '0' <= c <= '9' then (c as int - '0' as int) as nat else 0
  }

  predicate IsDigits(s: string) {
    s != [] && forall k :: 0 <= k < |s| ==> '0' <= s[k] <= '9'
  }

  /** `str(n)` for a natural number: its decimal digits, most significant first. */
  function NatToStr(n: nat): (r: string)
    ensures IsDigits(r)
  {
    if n < 10 then [DigitChar(n)] else NatToStr(n / 10) + [DigitChar(n % 10)]
  }

  /** `str(i)` for an integer: a minus sign before the digits of a negative number. */
  function IntToStr(i: int): string {
    if i < 0 then "-" + NatToStr(-i) else NatToStr(i)
  }

  /** Reading decimal digits back (Python's `int(s)` on digit strings). */
  function StrToNat(s: string): nat {
    if s == [] then 0 else StrToNat(s[..|s| - 1]) * 10 + DigitValue(s[|s| - 1])
  }

  /** Reading an optionally signed decimal back. */
  function StrToInt(s: string): int {
    if s != [] && s[0] == '-' then -(StrToNat(s[1..]) as int) else StrToNat(s)
  }

  lemma {:induction false} NatStrRoundTrip(n: nat)
    ensures StrToNat(NatToStr(n)) == n
  {
    if n >= 10 {
      NatStrRoundTrip(n / 10);
      var s := NatToStr(n);
      assert s[..|s| - 1] == NatToStr(n / 10);
      assert DigitValue(s[|s| - 1]) == n % 10 by {
        assert s[|s| - 1] == "0123456789"[n % 10];
      }
    } else {
      assert DigitValue("0123456789"[n]) == n;
    }
  }

  /** `str` on integers is inverted by reading the text back, so distinct
      integers have distinct decimal texts. */
  lemma IntStrRoundTrip(i: int)
    ensures StrToInt(IntToStr(i)) == i
  {
    var s := IntToStr(i);
    if i < 0 {
      NatStrRoundTrip(-i);
      assert s[0] == '-' && s[1..] == NatToStr(-i);
    } else {
      NatStrRoundTrip(i);
      assert '0' <= s[0] <= '9';
    }
  }

  lemma IntStrInjective(i: int, j: int)
    requires IntToStr(i) == IntToStr(j)
    ensures i == j
  {
    IntStrRoundTrip(i);
    IntStrRoundTrip(j);
  }

  /** The text of a positive integer is a non-empty run of decimal digits. */
  lemma PositiveStrIsDigits(n: int)
    requires n >= 1
    ensures IsDigits(IntToStr(n))
  {
  }
}
