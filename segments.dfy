/** Separator framing of path segments. A package token `a.b.c` is turned
    into the pattern `/a/b/c/` and searched for in `/<path>/`; this module
    proves that such a search succeeds exactly when the token's segments
    occur as consecutive whole segments of the path, so that
    `com.example.foo` does not select `com/example/foobar/A.java`: the
    component `foo` matches only a whole segment `foo`. */
module Segments {
  import opened PyStrings

  /** No segment contains the path separator. */
  predicate SepFree(parts: seq<string>) {
    forall i :: 0 <= i < |parts| ==> '/' !in parts[i]
  }

  /** `/p1/p2/.../pn/`: every segment framed by separators; `/` for none. */
  function Frame(parts: seq<string>): (r: string)
    ensures |r| >= 1 && r[0] == '/'
  {
    if parts == [] then "/" else "/" + parts[0] + Frame(parts[1..])
  }

  /** `"/".join([p] + q + [""])` is `p` followed by the framing of `q`. */
  lemma {:induction false} JoinFramed(p: string, q: seq<string>)
    ensures Join([p] + q + [""], "/") == p + Frame(q)
    decreases |q|
  {
    if q == [] {
      assert [p] + q + [""] == [p, ""];
    } else {
      JoinFramed(q[0], q[1..]);
      assert ([p] + q + [""])[1..] == [q[0]] + q[1..] + [""];
      assert p + "/" + (q[0] + Frame(q[1..])) == p + ("/" + q[0] + Frame(q[1..]));
    }
  }

  /** The pattern `JavaRead.py` builds for a package, `"/".join([""] + segs + [""])`,
      is the framing of the segments. */
  lemma FrameIsJoin(parts: seq<string>)
    ensures Join([""] + parts + [""], "/") == Frame(parts)
  {
    JoinFramed("", parts);
    assert "" + Frame(parts) == Frame(parts);
  }

  /** The framed path `"/".join(["", path, ""])` is the framing of the
      path's own segments. */
  lemma FramedPath(path: string)
    ensures Join(["", path, ""], "/") == Frame(Split(path, '/'))
  {
    assert ["", path, ""] == [""] + [path] + [""];
    JoinFramed("", [path]);
    assert Join(["", path, ""], "/") == "/" + path + "/";
    JoinSplit(path, '/');
    FrameOfNonEmpty(Split(path, '/'));
  }

  lemma {:induction false} FrameOfNonEmpty(parts: seq<string>)
    requires parts != []
    ensures Frame(parts) == "/" + Join(parts, "/") + "/"
  {
    if |parts| > 1 {
      FrameOfNonEmpty(parts[1..]);
      assert "/" + parts[0] + ("/" + Join(parts[1..], "/") + "/")
          == "/" + (parts[0] + "/" + Join(parts[1..], "/")) + "/";
    }
  }

  /** Inside the framing of `[t] + rest`, the segment `t` sits at indices
      1 .. |t| and a separator follows it. */
  lemma FrameHead(parts: seq<string>)
    requires parts != []
    ensures |Frame(parts)| >= |parts[0]| + 2
    ensures forall i :: 0 <= i < |parts[0]| ==> Frame(parts)[1 + i] == parts[0][i]
    ensures Frame(parts)[1 + |parts[0]|] == '/'
  {
    var f := Frame(parts);
    assert f == "/" + parts[0] + Frame(parts[1..]);
    assert f[1 + |parts[0]|] == Frame(parts[1..])[0];
  }

  /** Two framings, one a prefix of the other, exactly when the segment
      lists are. */
  lemma {:induction false} FramePrefix(t: seq<string>, s: seq<string>)
    requires SepFree(t) && SepFree(s)
    ensures Frame(t) <= Frame(s) <==> t <= s
  {
    if t == [] {
      assert Frame(t) == Frame(s)[..1];
    } else if s == [] {
      FrameHead(t);
      assert !(Frame(t) <= Frame(s));
    } else {
      var a, b := t[0], s[0];
      FrameHead(t);
      FrameHead(s);
      assert SepFree(t[1..]) && SepFree(s[1..]);
      if a == b {
        FramePrefix(t[1..], s[1..]);
        var w := "/" + a;
        assert Frame(t) == w + Frame(t[1..]);
        assert Frame(s) == w + Frame(s[1..]);
        PrefixCancel(w, Frame(t[1..]), Frame(s[1..]));
        assert t <= s <==> t[1..] <= s[1..];
      } else {
        assert !(t <= s);
        FrameSegmentsDiffer(t, s);
      }
    }
  }

  lemma PrefixCancel(w: string, x: string, y: string)
    ensures w + x <= w + y <==> x <= y
  {
    if x <= y {
      assert (w + y)[..|w + x|] == w + y[..|x|];
    }
    if w + x <= w + y {
      assert (w + y)[..|w + x|][|w|..] == y[..|x|];
      assert (w + x)[|w|..] == x;
    }
  }

  /** Framings whose first segments differ disagree at some index
      inside both, so neither is a prefix of the other. */
  lemma FrameSegmentsDiffer(t: seq<string>, s: seq<string>)
    requires t != [] && s != [] && t[0] != s[0]
    requires '/' !in t[0] && '/' !in s[0]
    ensures !(Frame(t) <= Frame(s))
  {
    var a, b := t[0], s[0];
    var ft, fs := Frame(t), Frame(s);
    FrameHead(t);
    FrameHead(s);
    if i :| 0 <= i < |a| && i < |b| && a[i] != b[i] {
      assert ft[1 + i] != fs[1 + i];
    } else if |a| < |b| {
      assert b[|a|] != '/' by { assert b[|a|] in b; }
      assert ft[1 + |a|] != fs[1 + |a|];
    } else if |b| < |a| {
      assert a[|b|] != '/' by { assert a[|b|] in a; }
      assert ft[1 + |b|] != fs[1 + |b|];
    } else {
      assert false;
    }
  }

  /** Searching for a pattern that starts with a separator skips over a
      separator-free stretch of text. */
  lemma {:induction false} SkipSegment(w: string, r: string, p: string)
    requires '/' !in w
    requires p != [] && p[0] == '/'
    ensures Contains(w + r, p) <==> Contains(r, p)
  {
    if w == [] {
      assert w + r == r;
    } else {
      assert (w + r)[0] == w[0];
      assert !(p <= w + r);
      assert (w + r)[1..] == w[1..] + r;
      assert '/' !in w[1..];
      SkipSegment(w[1..], r, p);
    }
  }

  /** `t` occurs in `s` as a run of consecutive whole segments starting at `j`. */
  predicate RunAt(t: seq<string>, s: seq<string>, j: int) {
    0 <= j <= |s| && t <= s[j..]
  }

  /** The framing of `t` occurs in the framing of `s` exactly when `t` is a
      run of consecutive segments of `s`. */
  lemma {:induction false} FrameOccurs(t: seq<string>, s: seq<string>)
    requires SepFree(t) && SepFree(s)
    ensures Contains(Frame(s), Frame(t)) <==> exists j :: RunAt(t, s, j)
  {
    var p := Frame(t);
    if s == [] {
      FramePrefix(t, s);
      assert Frame(s)[1..] == [];
      if exists j :: RunAt(t, s, j) {
        var j :| RunAt(t, s, j);
        assert s[j..] == s;
      }
      if t <= s {
        assert RunAt(t, s, 0);
      }
    } else {
      var f := Frame(s);
      assert f[1..] == s[0] + Frame(s[1..]);
      assert SepFree(s[1..]);
      SkipSegment(s[0], Frame(s[1..]), p);
      FramePrefix(t, s);
      FrameOccurs(t, s[1..]);
      assert s[0..] == s;
      if t <= s {
        assert RunAt(t, s, 0);
      }
      if exists j :: RunAt(t, s[1..], j) {
        var j :| RunAt(t, s[1..], j);
        assert s[1..][j..] == s[j + 1..];
        assert RunAt(t, s, j + 1);
      }
      if exists j :: RunAt(t, s, j) {
        var j :| RunAt(t, s, j);
        if j > 0 {
          assert s[1..][j - 1..] == s[j..];
          assert RunAt(t, s[1..], j - 1);
        }
      }
    }
  }
}
